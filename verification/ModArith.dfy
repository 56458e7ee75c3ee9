/** Facts about remainders that the field, curve-encoding and circuit proofs share. */
module ModArith {

  /** `a` and `b` leave the same remainder modulo `m`. */
  predicate Cong(a: int, b: int, m: int)
    requires m > 0
  {
    a % m == b % m
  }

  lemma {:induction false} QuotientUnique(q: int, r: int, m: int)
    requires 0 <= r < m
    ensures (q * m + r) % m == r
    ensures (q * m + r) / m == q
  {
    var d := q * m + r;
    var k := d / m;
    assert d == k * m + d % m;
    assert (q - k) * m == d % m - r;
    SmallMultiple(q - k, m);
  }

  lemma SmallMultiple(k: int, m: int)
    requires -m < k * m < m
    ensures k == 0
  {
    if k >= 1 {
      MulMono(1, k, m);
    } else if k <= -1 {
      MulMono(k, -1, m);
    }
  }

  lemma MulMono(a: int, b: int, m: int)
    requires a <= b && 0 <= m
    ensures a * m <= b * m
  {
    assert b * m == a * m + (b - a) * m;
  }

  lemma {:induction false} AddMultiple(a: int, k: int, m: int)
    requires m > 0
    ensures (a + k * m) % m == a % m
  {
    var q := a / m;
    assert a + k * m == (q + k) * m + a % m;
    QuotientUnique(q + k, a % m, m);
  }

  lemma {:induction false} CongIffMultiple(a: int, b: int, m: int)
    requires m > 0
    ensures Cong(a, b, m) <==> (a - b) % m == 0
  {
    var k, l := a / m, b / m;
    assert a - b == (k - l) * m + (a % m - b % m);
    if Cong(a, b, m) {
      QuotientUnique(k - l, 0, m);
    }
    if (a - b) % m == 0 {
      var d := (a - b) / m;
      assert a == b + d * m;
      AddMultiple(b, d, m);
    }
  }

  lemma CongFromMultiple(a: int, b: int, k: int, m: int)
    requires m > 0 && a == b + k * m
    ensures Cong(a, b, m)
  {
    AddMultiple(b, k, m);
  }

  lemma CongQuotient(a: int, b: int, m: int) returns (k: int)
    requires m > 0 && Cong(a, b, m)
    ensures a == b + k * m
  {
    CongIffMultiple(a, b, m);
    k := (a - b) / m;
  }

  lemma {:induction false} CongMod(a: int, m: int)
    requires m > 0
    ensures Cong(a % m, a, m)
  {
    QuotientUnique(0, a % m, m);
  }

  lemma {:induction false} CongAdd(a: int, b: int, c: int, d: int, m: int)
    requires m > 0 && Cong(a, b, m) && Cong(c, d, m)
    ensures Cong(a + c, b + d, m)
    ensures Cong(a - c, b - d, m)
  {
    var k := CongQuotient(a, b, m);
    var l := CongQuotient(c, d, m);
    assert a + c == b + d + (k + l) * m;
    CongFromMultiple(a + c, b + d, k + l, m);
    assert a - c == b - d + (k - l) * m;
    CongFromMultiple(a - c, b - d, k - l, m);
  }

  lemma {:induction false} CongMul(a: int, b: int, c: int, d: int, m: int)
    requires m > 0 && Cong(a, b, m) && Cong(c, d, m)
    ensures Cong(a * c, b * d, m)
  {
    var k := CongQuotient(a, b, m);
    var l := CongQuotient(c, d, m);
    hide *;
    ProductDifference(b, d, k, l, m);
    CongFromMultiple(a * c, b * d, (b + k * m) * l + k * d, m);
  }

  lemma ProductDifference(b: int, d: int, k: int, l: int, m: int)
    ensures (b + k * m) * (d + l * m) == b * d + ((b + k * m) * l + k * d) * m
  {
    var a := b + k * m;
    assert a * (d + l * m) == a * d + (a * l) * m;
    assert a * d == b * d + (k * d) * m;
  }

  lemma SmallMod(a: int, m: int)
    requires 0 <= a < m
    ensures a % m == a
  {
  }

  /** Two representatives in [0, m) that are congruent are equal. */
  lemma CongSmall(a: int, b: int, m: int)
    requires 0 <= a < m && 0 <= b < m && Cong(a, b, m)
    ensures a == b
  {
  }

  // ---- Powers ----------------------------------------------------------------

  function Pow(b: int, e: nat): int
  {
    if e == 0 then 1 else b * Pow(b, e - 1)
  }

  lemma PowStep(b: int, e: nat)
    ensures Pow(b, e + 1) == b * Pow(b, e)
  {
  }

  lemma {:induction false} PowAdd(b: int, e: nat, f: nat)
    ensures Pow(b, e + f) == Pow(b, e) * Pow(b, f)
  {
    if e == 0 {
    } else {
      PowAdd(b, e - 1, f);
      assert Pow(b, e + f) == b * Pow(b, e - 1 + f);
      assert b * (Pow(b, e - 1) * Pow(b, f)) == (b * Pow(b, e - 1)) * Pow(b, f);
    }
  }

  lemma Interchange(a: int, b: int, c: int, d: int)
    ensures (a * b) * (c * d) == (a * c) * (b * d)
  {
    assert (a * b) * (c * d) == a * (b * (c * d));
    assert b * (c * d) == c * (b * d);
    assert a * (c * (b * d)) == (a * c) * (b * d);
  }

  lemma {:induction false} PowProduct(a: int, b: int, e: nat)
    ensures Pow(a * b, e) == Pow(a, e) * Pow(b, e)
  {
    if e == 0 {
    } else {
      PowProduct(a, b, e - 1);
      Interchange(a, b, Pow(a, e - 1), Pow(b, e - 1));
    }
  }

  lemma {:induction false} PowPow(b: int, e: nat, f: nat)
    ensures 0 <= e * f
    ensures Pow(Pow(b, e), f) == Pow(b, e * f)
  {
    if f == 0 {
    } else {
      PowPow(b, e, f - 1);
      assert e * f == e + e * (f - 1);
      PowAdd(b, e, e * (f - 1));
    }
  }

  lemma {:induction false} PowOne(e: nat)
    ensures Pow(1, e) == 1
  {
    if e != 0 { PowOne(e - 1); }
  }

  lemma {:induction false} PowPositive(b: int, e: nat)
    requires b >= 1
    ensures Pow(b, e) >= 1
  {
    if e != 0 {
      PowPositive(b, e - 1);
      MulMono(1, b, Pow(b, e - 1));
    }
  }

  lemma {:induction false} PowCong(a: int, b: int, e: nat, m: int)
    requires m > 0 && Cong(a, b, m)
    ensures Cong(Pow(a, e), Pow(b, e), m)
  {
    if e != 0 {
      PowCong(a, b, e - 1, m);
      CongMul(a, b, Pow(a, e - 1), Pow(b, e - 1), m);
    }
  }

  lemma {:induction false} PowTwoGrows(e: nat, f: nat)
    requires e <= f
    ensures 1 <= Pow(2, e) <= Pow(2, f)
  {
    PowPositive(2, e);
    if e < f {
      PowTwoGrows(e, f - 1);
    }
  }

  // ---- Primes ----------------------------------------------------------------
  //
  // From here on the proofs treat `Cong` as an equivalence that multiplication respects and
  // hide its definition: remainders of products are expensive for the solver.

  ghost predicate IsPrime(p: int)
  {
    2 <= p && forall m {:trigger p % m} :: 2 <= m < p ==> p % m != 0
  }

  lemma PrimeRemainder(x: int, p: int)
    requires IsPrime(p) && 2 <= x < p
    ensures 1 <= p % x < x
    ensures p == (p / x) * x + p % x
  {
  }

  lemma PrimeAtLeastTwo(p: int)
    requires IsPrime(p)
    ensures p >= 2
  {
  }

  lemma CongRefl(a: int, m: int)
    requires m > 0
    ensures Cong(a, a, m)
  {
  }

  lemma CongTrans(a: int, b: int, c: int, m: int)
    requires m > 0 && Cong(a, b, m) && Cong(b, c, m)
    ensures Cong(a, c, m)
  {
  }

  lemma CongSym(a: int, b: int, m: int)
    requires m > 0 && Cong(a, b, m)
    ensures Cong(b, a, m)
  {
  }

  /** Multiplying both sides of a congruence by `c`. */
  lemma {:induction false} CongScale(a: int, b: int, c: int, m: int)
    requires m > 0 && Cong(a, b, m)
    ensures Cong(a * c, b * c, m)
    ensures Cong(c * a, c * b, m)
  {
    CongRefl(c, m);
    CongMul(a, b, c, c, m);
    CongMul(c, c, a, b, m);
  }

  lemma UnitNotZero(x: int, p: int)
    requires 1 <= x < p
    ensures !Cong(x, 0, p)
  {
  }

  /** The representative of `x` in [0, m); it is at least 1 unless `x` is a multiple of `m`. */
  lemma CongReduce(x: int, m: int)
    requires m > 0
    ensures 0 <= x % m < m && Cong(x % m, x, m)
    ensures !Cong(x, 0, m) ==> 1 <= x % m
  {
    CongMod(x, m);
  }

  lemma {:induction false} CongDiff(a: int, b: int, m: int)
    requires m > 0
    ensures Cong(a, b, m) <==> Cong(a - b, 0, m)
  {
    CongIffMultiple(a, b, m);
  }

  lemma {:induction false} InverseExists(x: int, p: int) returns (y: int)
    requires IsPrime(p) && 1 <= x < p
    ensures 1 <= y < p && Cong(x * y, 1, p)
    decreases x
  {
    if x == 1 {
      y := 1;
    } else {
      PrimeRemainder(x, p);
      var z := InverseExists(p % x, p);
      y := InvStep(x, p / x, p % x, z, p);
    }
  }

  lemma {:induction false} InvStep(x: int, q: int, r: int, z: int, p: int) returns (y: int)
    requires 2 <= x < p && p == q * x + r && Cong(r * z, 1, p)
    ensures 1 <= y < p && Cong(x * y, 1, p)
  {
    hide *;
    var y0 := -q * z;
    assert x * y0 == r * z + (-z) * p by {
      assert x * y0 == -(q * x) * z;
    }
    CongFromMultiple(x * y0, r * z, -z, p);
    CongTrans(x * y0, r * z, 1, p);
    UnitNotZero(1, p);
    y := UnitFactor(x, y0, 1, p);
  }

  /** When `x * y0` is congruent to a non-zero `a`, the representative of `y0` is a unit. */
  lemma {:induction false} UnitFactor(x: int, y0: int, a: int, p: int) returns (y: int)
    requires p > 1 && Cong(x * y0, a, p) && !Cong(a, 0, p)
    ensures 1 <= y < p && Cong(x * y, a, p)
  {
    hide *;
    if Cong(y0, 0, p) {
      CongScale(y0, 0, x, p);
      CongSym(x * y0, a, p);
      CongTrans(a, x * y0, 0, p);
    }
    CongReduce(y0, p);
    y := y0 % p;
    CongScale(y, y0, x, p);
    CongTrans(x * y, x * y0, a, p);
  }

  /** A prime that divides a product divides a factor. */
  lemma {:induction false} EuclidsLemma(a: int, b: int, p: int)
    requires IsPrime(p) && Cong(a * b, 0, p)
    ensures Cong(a, 0, p) || Cong(b, 0, p)
  {
    hide *;
    PrimeAtLeastTwo(p);
    if !Cong(a, 0, p) {
      CongReduce(a, p);
      var u := a % p;
      var y := InverseExists(u, p);
      CongSym(u, a, p);
      CongScale(a, u, y, p);
      CongTrans(a * y, u * y, 1, p);
      CongScale(a * y, 1, b, p);
      CongSym(a * y * b, b, p);
      CongScale(a * b, 0, y, p);
      assert a * y * b == (a * b) * y;
      CongTrans(b, a * y * b, 0, p);
    }
  }

  lemma {:induction false} Cancel(a: int, b: int, c: int, p: int)
    requires IsPrime(p) && !Cong(c, 0, p) && Cong(c * a, c * b, p)
    ensures Cong(a, b, p)
  {
    hide *;
    PrimeAtLeastTwo(p);
    CongDiff(c * a, c * b, p);
    assert c * (a - b) == c * a - c * b;
    EuclidsLemma(c, a - b, p);
    CongDiff(a, b, p);
  }

  /** Cancellation among representatives in [0, p). */
  lemma {:induction false} CancelUnit(x: int, y: int, z: int, p: int)
    requires IsPrime(p) && 1 <= x < p && 0 <= y < p && 0 <= z < p
    requires Cong(x * y, x * z, p)
    ensures y == z
  {
    hide *;
    UnitNotZero(x, p);
    Cancel(y, z, x, p);
    CongSmall(y, z, p);
  }

  /** Two square roots of the same value differ at most in sign. */
  lemma {:induction false} SquareRootsUpToSign(x: int, y: int, p: int)
    requires IsPrime(p) && Cong(x * x, y * y, p)
    ensures Cong(x, y, p) || Cong(x, -y, p)
  {
    hide *;
    PrimeAtLeastTwo(p);
    CongDiff(x * x, y * y, p);
    assert x * x - y * y == (x - y) * (x + y);
    EuclidsLemma(x - y, x + y, p);
    CongDiff(x, y, p);
    CongDiff(x, -y, p);
  }

  lemma {:induction false} PowNonzero(a: int, e: nat, p: int)
    requires IsPrime(p) && !Cong(a, 0, p)
    ensures !Cong(Pow(a, e), 0, p)
  {
    if e == 0 {
    } else {
      PowNonzero(a, e - 1, p);
      if Cong(Pow(a, e), 0, p) {
        EuclidsLemma(a, Pow(a, e - 1), p);
      }
    }
  }
}
