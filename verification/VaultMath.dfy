/** The vault arithmetic of public/safemath.js and the wrapping words of arc/safemath.go. */
module VaultMath {
  import opened Wrappers
  import opened ModArith

  // ---- Share prices ----------------------------------------------------------------------------------

  /** `convertToShares`: rounding down, one to one while there are no assets. */
  function ConvertToShares(assets: nat, totalShares: nat, totalAssets: nat): nat
  {
    if totalAssets == 0 then assets else MulDiv(assets, totalShares, totalAssets)
  }

  /** `convertToAssets` */
  function ConvertToAssets(shares: nat, totalAssets: nat, totalShares: nat): nat
  {
    if totalShares == 0 then shares else MulDiv(shares, totalAssets, totalShares)
  }

  function MulDiv(a: nat, b: nat, c: nat): (q: nat)
    requires c > 0
    ensures q * c <= a * b < q * c + c
  {
    Products(a, b);
    var q := (a * b) / c;
    assert a * b == q * c + (a * b) % c;
    assert q >= 0 by { NonNegativeQuotient(a * b, c); }
    q
  }

  lemma Products(a: nat, b: nat)
    ensures a * b >= 0
  {
  }

  lemma NonNegativeQuotient(x: nat, c: nat)
    requires c > 0
    ensures x / c >= 0
  {
  }

  /** Assets to shares to assets never gains, and loses less than one share price and one unit. */
  lemma RoundTripLoss(assets: nat, totalShares: nat, totalAssets: nat)
    ensures var back := ConvertToAssets(ConvertToShares(assets, totalShares, totalAssets), totalAssets, totalShares);
      && back <= assets
      && (totalShares > 0 && totalAssets > 0 ==> (assets - back) * totalShares < totalAssets + totalShares)
  {
    var shares := ConvertToShares(assets, totalShares, totalAssets);
    var back := ConvertToAssets(shares, totalAssets, totalShares);
    if totalShares > 0 && totalAssets > 0 {
      assert shares * totalAssets <= assets * totalShares < shares * totalAssets + totalAssets;
      assert back * totalShares <= shares * totalAssets < back * totalShares + totalShares;
      hide *;
      assert (assets - back) * totalShares == assets * totalShares - back * totalShares;
      if back > assets { MulMono(assets + 1, back, totalShares); }
    } else if totalShares > 0 {
      assert back * totalShares <= shares * 0;
      hide *;
      if back > 0 { MulMono(1, back, totalShares); }
    } else if totalAssets > 0 {
      assert shares * totalAssets <= assets * 0;
      hide *;
      if shares > 0 { MulMono(1, shares, totalAssets); }
    }
  }

  datatype Vault = Vault(assets: nat, shares: nat)

  datatype Order = Deposit(assets: nat) | Redeem(shares: nat)

  /** A deposit or a redemption at the current price; nothing when more shares are redeemed than there are. */
  function Settle(v: Vault, o: Order): Option<Vault>
  {
    match o
    case Deposit(assets) => Some(Vault(v.assets + assets, v.shares + ConvertToShares(assets, v.shares, v.assets)))
    case Redeem(shares) =>
      var assets := ConvertToAssets(shares, v.assets, v.shares);
      if shares > v.shares || assets > v.assets then None else Some(Vault(v.assets - assets, v.shares - shares))
  }

  /** The price of a share does not fall from `v` to `w`. */
  predicate PriceHolds(v: Vault, w: Vault)
  {
    w.assets * v.shares >= v.assets * w.shares
  }

  lemma {:induction false} OrderKeepsPrice(v: Vault, o: Order)
    requires v.shares > 0 && Settle(v, o).Some?
    ensures PriceHolds(v, Settle(v, o).value)
  {
    match o {
      case Deposit(assets) =>
        var s := ConvertToShares(assets, v.shares, v.assets);
        assert v.assets > 0 ==> s * v.assets <= assets * v.shares;
        hide ConvertToShares;
        DepositPrice(v.assets, v.shares, assets, s);
      case Redeem(shares) =>
        var a := ConvertToAssets(shares, v.assets, v.shares);
        assert a * v.shares <= shares * v.assets;
        hide ConvertToAssets;
        RedeemPrice(v.assets, v.shares, a, shares);
    }
  }

  lemma DepositPrice(x: nat, y: nat, a: nat, s: nat)
    requires x > 0 ==> s * x <= a * y
    ensures (x + a) * y >= x * (y + s)
  {
    assert (x + a) * y == x * y + a * y && x * (y + s) == x * y + s * x;
    Products(a, y);
  }

  lemma RedeemPrice(x: nat, y: nat, a: nat, s: nat)
    requires a <= x && s <= y && a * y <= s * x
    ensures (x - a) * y >= x * (y - s)
  {
    assert (x - a) * y == x * y - a * y && x * (y - s) == x * y - s * x;
  }

  lemma PriceChain(u: Vault, v: Vault, w: Vault)
    requires v.shares > 0 && PriceHolds(u, v) && PriceHolds(v, w)
    ensures PriceHolds(u, w)
  {
    var l, r := w.assets * u.shares, u.assets * w.shares;
    assert l * v.shares == (w.assets * v.shares) * u.shares;
    assert r * v.shares == (u.assets * v.shares) * w.shares;
    assert (v.assets * w.shares) * u.shares == (v.assets * u.shares) * w.shares;
    MulMono(v.assets * w.shares, w.assets * v.shares, u.shares);
    MulMono(u.assets * v.shares, v.assets * u.shares, w.shares);
    if l < r { StrictlyMore(l, r, v.shares); }
  }

  lemma StrictlyMore(l: int, r: int, k: int)
    requires l < r && k > 0
    ensures l * k < r * k
  {
    MulMono(l + 1, r, k);
  }

  /** The vault after a run of orders, as long as shares remain after each. */
  function SettleAll(v: Vault, orders: seq<Order>): Option<Vault>
  {
    if orders == [] then Some(v)
    else
      var w := SettleAll(v, orders[..|orders| - 1]);
      if w.None? || w.value.shares == 0 then None else Settle(w.value, orders[|orders| - 1])
  }

  /** Over any run of deposits and redemptions with shares outstanding the price of a share never falls. */
  lemma {:induction false} PriceNeverFalls(v: Vault, orders: seq<Order>)
    requires v.shares > 0 && SettleAll(v, orders).Some?
    ensures PriceHolds(v, SettleAll(v, orders).value)
  {
    if orders != [] {
      var n := |orders| - 1;
      var w := SettleAll(v, orders[..n]).value;
      PriceNeverFalls(v, orders[..n]);
      hide Settle, PriceHolds;
      OrderKeepsPrice(w, orders[n]);
      PriceChain(v, w, SettleAll(v, orders).value);
    }
  }

  // ---- 64-bit words -----------------------------------------------------------------------------------

  const Word: int := 0x1_0000_0000_0000_0000

  datatype MathError = Overflow | DivisionByZero

  predicate IsWord(x: int)
  {
    0 <= x < Word
  }

  /** `SafeAdd64`: the sum, and an error exactly when it does not fit. */
  function SafeAdd64(a: nat, b: nat): (r: Result<nat, MathError>)
    requires IsWord(a) && IsWord(b)
    ensures r == if a + b < Word then Ok(a + b) else Err(Overflow)
  {
    var result := (a + b) % Word;
    if result < a then Err(Overflow) else Ok(result)
  }

  /** `SafeMul64` */
  function SafeMul64(a: nat, b: nat): (r: Result<nat, MathError>)
    requires IsWord(a) && IsWord(b)
    ensures a * b >= 0
    ensures r == if a * b < Word then Ok(a * b) else Err(Overflow)
  {
    Products(a, b);
    if a == 0 || b == 0 then Ok(0)
    else
      var result := (a * b) % Word;
      WrappedProduct(a, b);
      if result / a != b then Err(Overflow) else Ok(result)
  }

  /** Dividing the wrapped product by a factor gives the other one exactly when nothing wrapped. */
  lemma {:induction false} WrappedProduct(a: nat, b: nat)
    requires a > 0 && IsWord(a) && IsWord(b)
    ensures a * b >= 0
    ensures ((a * b) % Word) / a == b <==> a * b < Word
  {
    Products(a, b);
    var x := a * b;
    if x < Word {
      SmallMod(x, Word);
      assert x == b * a + 0;
      QuotientUnique(b, 0, a);
    } else {
      WrappedIsSmaller(x);
      SmallQuotient(x % Word, a, b);
    }
  }

  lemma WrappedIsSmaller(x: int)
    requires x >= Word
    ensures 0 <= x % Word < x
  {
  }

  lemma SmallQuotient(r: nat, a: nat, b: nat)
    requires a > 0 && r < a * b
    ensures r / a < b
  {
    var q := r / a;
    assert r == q * a + r % a;
    if q >= b { MulMono(b, q, a); }
  }

  /** `MulDiv64`: the product of two words fits the 256-bit intermediate, so the quotient is exact. */
  function MulDiv64(a: nat, b: nat, c: nat): (r: Result<nat, MathError>)
    requires IsWord(a) && IsWord(b) && IsWord(c)
    ensures c == 0 ==> r == Err(DivisionByZero)
    ensures c > 0 ==> r == if MulDiv(a, b, c) < Word then Ok(MulDiv(a, b, c)) else Err(Overflow)
  {
    if c == 0 then Err(DivisionByZero)
    else
      WideProduct(a, b);
      var product := (a * b) % (Word * Word * Word * Word);
      var q := product / c;
      if q >= Word then Err(Overflow) else Ok(q)
  }

  lemma WideProduct(a: nat, b: nat)
    requires IsWord(a) && IsWord(b)
    ensures 0 <= a * b < Word * Word * Word * Word
    ensures (a * b) % (Word * Word * Word * Word) == a * b
  {
    Products(a, b);
    MulMono(a, Word, b);
    assert a * b <= Word * b;
    SmallMod(a * b, Word * Word * Word * Word);
  }
}
