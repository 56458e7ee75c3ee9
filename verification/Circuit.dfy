/** The constraint API of gnark, read as the check whether an assignment satisfies the constraints added so far. */
module Circuit {
  import opened ModArith
  import opened MerklePath

  /** The scalar field: a prime of more than 128 bits. */
  ghost predicate IsField(p: int)
  {
    IsPrime(p) && p > 0x1_0000_0000_0000_0000_0000_0000_0000_0000
  }

  lemma FieldIsPositive(p: int)
    requires IsField(p)
    ensures p > 1
  {
  }

  predicate Element(p: int, x: int)
  {
    0 <= x < p
  }

  predicate Elements(p: int, xs: seq<int>)
  {
    forall i :: 0 <= i < |xs| ==> Element(p, xs[i])
  }

  function Sum(xs: seq<int>): int
  {
    if xs == [] then 0 else Sum(xs[..|xs| - 1]) + xs[|xs| - 1]
  }

  /** A hash whose value is a field element that depends on the residues of its arguments alone. */
  ghost predicate FieldHash(p: int, h: Hash)
  {
    && p > 0
    && (forall a, b :: 0 <= h(a, b) < p)
    && (forall a, b, c, d :: Cong(a, c, p) && Cong(b, d, p) ==> h(a, b) == h(c, d))
  }

  lemma HashInField(p: int, h: Hash, a: int, b: int)
    requires FieldHash(p, h)
    ensures Element(p, h(a, b))
  {
  }

  lemma HashOfResidues(p: int, h: Hash, a: int, b: int, c: int, d: int)
    requires FieldHash(p, h) && Cong(a, c, p) && Cong(b, d, p)
    ensures h(a, b) == h(c, d)
  {
  }

  // ---- Binary decomposition -----------------------------------------------------------------

  function BitsValue(bits: seq<int>): int
  {
    if bits == [] then 0 else bits[0] + 2 * BitsValue(bits[1..])
  }

  /** The constraints of ToBinary(x, n): n boolean wires that recompose to x in the field. */
  ghost predicate HasBits(p: int, x: int, n: nat)
    requires p > 0
  {
    exists bits :: |bits| == n && AllBoolean(bits) && Cong(BitsValue(bits), x, p)
  }

  function ToBits(x: nat, n: nat): (bits: seq<int>)
    ensures |bits| == n && AllBoolean(bits)
  {
    if n == 0 then [] else [x % 2] + ToBits(x / 2, n - 1)
  }

  lemma {:induction false} ToBitsValue(x: nat, n: nat)
    requires x < Pow(2, n)
    ensures BitsValue(ToBits(x, n)) == x
  {
    if n > 0 {
      PowStep(2, n - 1);
      ToBitsValue(x / 2, n - 1);
      assert ToBits(x, n)[1..] == ToBits(x / 2, n - 1);
    }
  }

  lemma {:induction false} BitsValueBound(bits: seq<int>)
    requires AllBoolean(bits)
    ensures 0 <= BitsValue(bits) < Pow(2, |bits|)
  {
    if bits != [] {
      BitsValueBound(bits[1..]);
      PowStep(2, |bits| - 1);
    }
  }

  /** When 2^n fits in the field the decomposition exists exactly for the elements below 2^n. */
  lemma {:induction false} HasBitsIff(p: int, x: int, n: nat)
    requires p > 0 && Element(p, x) && Pow(2, n) <= p
    ensures HasBits(p, x, n) <==> x < Pow(2, n)
  {
    if HasBits(p, x, n) {
      var bits :| |bits| == n && AllBoolean(bits) && Cong(BitsValue(bits), x, p);
      BitsValueBound(bits);
      CongSmall(BitsValue(bits), x, p);
    }
    if x < Pow(2, n) {
      ToBitsValue(x, n);
      assert AllBoolean(ToBits(x, n)) && Cong(BitsValue(ToBits(x, n)), x, p);
    }
  }

  lemma PowersOfTwo()
    ensures Pow(2, 4) == 16 && Pow(2, 8) == 256 && Pow(2, 16) == 65536
    ensures Pow(2, 64) == 0x1_0000_0000_0000_0000
  {
    Doubled(4);
    Doubled(8);
    PowAdd(2, 16, 16);
    PowAdd(2, 32, 32);
    assert Pow(2, 4) == 16;
  }

  lemma Doubled(n: nat)
    ensures Pow(2, 2 * n) == Pow(2, n) * Pow(2, n)
  {
    PowAdd(2, n, n);
  }

  /** x (1 - x) = 0 in a field forces x to be 0 or 1. */
  lemma {:induction false} BooleanIff(p: int, x: int)
    requires IsPrime(p) && Element(p, x)
    ensures Cong(x * (1 - x), 0, p) <==> x == 0 || x == 1
  {
    PrimeAtLeastTwo(p);
    hide *;
    if Cong(x * (1 - x), 0, p) {
      EuclidsLemma(x, 1 - x, p);
      if Cong(x, 0, p) {
        CongSmall(x, 0, p);
      } else {
        CongScale(1 - x, 0, -1, p);
        CongDiff(x, 1, p);
        CongSmall(x, 1, p);
      }
    }
    if x == 0 || x == 1 { CongRefl(0, p); }
  }

  // ---- The API ---------------------------------------------------------------------------------

  /** `ok` says whether the assignment satisfies every constraint laid down so far. */
  class Api {
    const p: int
    var ok: bool

    constructor (p: int)
      ensures this.p == p && ok
    {
      this.p := p;
      ok := true;
    }

    method AssertIsEqual(a: int, b: int)
      requires Element(p, a) && Element(p, b)
      modifies this`ok
      ensures ok == (old(ok) && a == b)
    {
      ok := ok && a == b;
    }

    method AssertIsBoolean(a: int)
      requires IsPrime(p) && Element(p, a)
      modifies this`ok
      ensures ok == (old(ok) && (a == 0 || a == 1))
    {
      BooleanIff(p, a);
      ok := ok && (a * (1 - a)) % p == 0;
    }

    /** Adds the decomposition constraints and returns the wires of the low n bits. */
    method ToBinary(a: int, n: nat) returns (bits: seq<int>)
      requires Element(p, a) && Pow(2, n) <= p
      modifies this`ok
      ensures ok == (old(ok) && HasBits(p, a, n))
      ensures HasBits(p, a, n) <==> a < Pow(2, n)
      ensures a < Pow(2, n) ==> BitsValue(bits) == a
    {
      HasBitsIff(p, a, n);
      if a < Pow(2, n) { ToBitsValue(a, n); }
      bits := ToBits(a, n);
      ok := ok && a < Pow(2, n);
    }

    method FromBinary(bits: seq<int>) returns (r: int)
      requires p > 0
      ensures r == BitsValue(bits) % p
    {
      r := 0;
      var i := |bits|;
      while i > 0
        invariant 0 <= i <= |bits| && r == BitsValue(bits[i..])
      {
        i := i - 1;
        assert bits[i..][1..] == bits[i + 1..];
        r := bits[i] + 2 * r;
      }
      assert bits[0..] == bits;
      r := r % p;
    }

    method Add(a: int, b: int) returns (r: int)
      requires p > 0
      ensures r == (a + b) % p
    {
      r := (a + b) % p;
    }

    method Sub(a: int, b: int) returns (r: int)
      requires p > 0
      ensures r == (a - b) % p
    {
      r := (a - b) % p;
    }

    method Mul(a: int, b: int) returns (r: int)
      requires p > 0
      ensures r == (a * b) % p
    {
      r := (a * b) % p;
    }

    method IsZero(a: int) returns (r: int)
      requires Element(p, a)
      ensures r == if a == 0 then 1 else 0
    {
      r := if a == 0 then 1 else 0;
    }

    /** Select(b, x, y) = y + b (x - y). */
    method Select(b: int, x: int, y: int) returns (r: int)
      requires Element(p, b) && Element(p, x) && Element(p, y)
      ensures Element(p, r)
      ensures b == 1 ==> r == x
      ensures b == 0 ==> r == y
    {
      r := (y + b * (x - y)) % p;
      if b == 1 { SmallMod(x, p); }
      if b == 0 { SmallMod(y, p); }
    }

    /** The path loop that every membership circuit repeats: boolean indices, and the fold by Select. */
    method FoldPath(h: Hash, leaf: int, elements: seq<int>, indices: seq<int>) returns (current: int)
      requires IsPrime(p) && FieldHash(p, h) && Element(p, leaf)
      requires |elements| == |indices| && Elements(p, elements) && Elements(p, indices)
      modifies this`ok
      ensures ok == (old(ok) && AllBoolean(indices))
      ensures Element(p, current)
      ensures AllBoolean(indices) ==> current == Fold(h, leaf, elements, indices)
    {
      hide FieldHash, IsPrime, Fold;
      FoldStart(h, leaf, elements, indices);
      current := leaf;
      for i := 0 to |elements|
        invariant Element(p, current)
        invariant ok == (old(ok) && AllBoolean(indices[..i]))
        invariant AllBoolean(indices) ==>
          Fold(h, current, elements[i..], indices[i..]) == Fold(h, leaf, elements, indices)
      {
        AssertIsBoolean(indices[i]);
        var left := Select(indices[i], elements[i], current);
        var right := Select(indices[i], current, elements[i]);
        assert indices[..i + 1] == indices[..i] + [indices[i]];
        HashInField(p, h, left, right);
        FoldStep(h, current, elements, indices, i);
        current := h(left, right);
      }
      assert indices[..|indices|] == indices;
      FoldEnd(h, current, elements, indices);
    }
  }
}
