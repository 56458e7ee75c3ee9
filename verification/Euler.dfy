/** Euler's criterion for an odd prime, from one pairing argument: `x` is paired with `a / x`. */
module Euler {
  import opened ModArith
  import opened Sets

  /** `n` is a square modulo `p`. */
  ghost predicate IsSquare(n: int, p: int)
    requires p > 0
  {
    exists x :: 0 <= x < p && Cong(x * x, n, p)
  }

  ghost function Units(p: int): (s: set<int>)
    requires p >= 1
    ensures forall x :: x in s <==> 1 <= x < p
  {
    if p == 1 then {} else Units(p - 1) + {p - 1}
  }

  lemma {:induction false} UnitsCount(p: int)
    requires p >= 1
    ensures |Units(p)| == p - 1
  {
    if p == 1 {
    } else {
      UnitsCount(p - 1);
      assert p - 1 !in Units(p - 1);
    }
  }

  ghost function Prod(s: set<int>): int
  {
    if s == {} then 1 else Pick(s) * Prod(s - {Pick(s)})
  }

  lemma {:induction false} ProdRemove(s: set<int>, y: int)
    requires y in s
    ensures Prod(s) == y * Prod(s - {y})
    decreases |s|
  {
    var x := Pick(s);
    if x != y {
      var rest := s - {x} - {y};
      ProdRemove(s - {x}, y);
      ProdRemove(s - {y}, x);
      assert s - {y} - {x} == rest;
      calc {
        x * (y * Prod(rest));
        y * (x * Prod(rest));
      }
    }
  }

  ghost function Partner(a: int, x: int, p: int): (y: int)
    requires IsPrime(p) && !Cong(a, 0, p) && 1 <= x < p
    ensures 1 <= y < p && Cong(x * y, a, p)
  {
    assert exists y :: 1 <= y < p && Cong(x * y, a, p) by {
      var y := PartnerExists(a, x, p);
    }
    var y :| 1 <= y < p && Cong(x * y, a, p);
    y
  }

  lemma {:induction false} PartnerExists(a: int, x: int, p: int) returns (y: int)
    requires IsPrime(p) && !Cong(a, 0, p) && 1 <= x < p
    ensures 1 <= y < p && Cong(x * y, a, p)
  {
    hide *;
    PrimeAtLeastTwo(p);
    var i := InverseExists(x, p);
    CongScale(x * i, 1, a, p);
    assert x * (i * a) == (x * i) * a;
    y := UnitFactor(x, i * a, a, p);
  }

  lemma {:induction false} PartnerUnique(a: int, x: int, y: int, p: int)
    requires IsPrime(p) && !Cong(a, 0, p) && 1 <= x < p && 1 <= y < p && Cong(x * y, a, p)
    ensures y == Partner(a, x, p)
  {
    hide *;
    var z := Partner(a, x, p);
    CongSym(x * z, a, p);
    CongTrans(x * y, a, x * z, p);
    CancelUnit(x, y, z, p);
  }

  /** Pairing is an involution. */
  lemma {:induction false} PartnerTwice(a: int, x: int, p: int)
    requires IsPrime(p) && !Cong(a, 0, p) && 1 <= x < p
    ensures Partner(a, Partner(a, x, p), p) == x
  {
    hide *;
    var y := Partner(a, x, p);
    assert y * x == x * y;
    PartnerUnique(a, y, x, p);
  }

  ghost predicate PairedOff(s: set<int>, a: int, p: int)
    requires IsPrime(p) && !Cong(a, 0, p)
  {
    forall x {:trigger x in s} :: x in s ==>
      1 <= x < p && Partner(a, x, p) in s && Partner(a, x, p) != x
  }

  lemma {:induction false} RemovePair(s: set<int>, a: int, x: int, p: int)
    requires IsPrime(p) && !Cong(a, 0, p) && PairedOff(s, a, p) && x in s
    ensures PairedOff(s - {x} - {Partner(a, x, p)}, a, p)
  {
    hide Cong, IsPrime, Partner;
    forall u | u in s
      ensures Partner(a, Partner(a, u, p), p) == u
    {
      PartnerTwice(a, u, p);
    }
  }

  /** A set of units split into `n` pairs with product `a` multiplies to the n-th power of `a`. */
  lemma {:induction false} PairProduct(s: set<int>, a: int, p: int) returns (n: nat)
    requires IsPrime(p) && !Cong(a, 0, p) && PairedOff(s, a, p)
    ensures |s| == 2 * n
    ensures Cong(Prod(s), Pow(a, n), p)
    decreases |s|
  {
    if s == {} {
      n := 0;
    } else {
      n := PairProductStep(s, a, p);
    }
  }

  lemma {:induction false} PairProductStep(s: set<int>, a: int, p: int) returns (n: nat)
    requires IsPrime(p) && !Cong(a, 0, p) && PairedOff(s, a, p) && s != {}
    ensures |s| == 2 * n
    ensures Cong(Prod(s), Pow(a, n), p)
    decreases |s|, 0
  {
    hide *;
    var x := Pick(s);
    var y := PairOf(s, a, x, p);
    var rest := s - {x} - {y};
    var k := PairProduct(rest, a, p);
    PrimeAtLeastTwo(p);
    ProdRemoveTwo(s, x, y);
    CongMul(x * y, a, Prod(rest), Pow(a, k), p);
    PowStep(a, k);
    n := k + 1;
  }

  lemma {:induction false} ProdRemoveTwo(s: set<int>, x: int, y: int)
    requires x in s && y in s && x != y
    ensures Prod(s) == (x * y) * Prod(s - {x} - {y})
  {
    hide *;
    ProdRemove(s, x);
    ProdRemove(s - {x}, y);
  }

  lemma PairOf(s: set<int>, a: int, x: int, p: int) returns (y: int)
    requires IsPrime(p) && !Cong(a, 0, p) && PairedOff(s, a, p) && x in s
    ensures y in s && y != x && Cong(x * y, a, p)
    ensures PairedOff(s - {x} - {y}, a, p)
  {
    y := Partner(a, x, p);
    RemovePair(s, a, x, p);
  }

  lemma NotOwnPartner(a: int, x: int, p: int)
    requires IsPrime(p) && !Cong(a, 0, p) && !IsSquare(a, p) && 1 <= x < p
    ensures Partner(a, x, p) != x
  {
    hide Cong, IsPrime, Partner;
    if Partner(a, x, p) == x {
      assert false;
    }
  }

  lemma {:induction false} AllPaired(a: int, p: int)
    requires IsPrime(p) && p >= 1 && !Cong(a, 0, p) && !IsSquare(a, p)
    ensures PairedOff(Units(p), a, p)
  {
    hide Cong, IsPrime, IsSquare, Partner, Units;
    forall x | x in Units(p)
      ensures 1 <= x < p && Partner(a, x, p) in Units(p) && Partner(a, x, p) != x
    {
      NotOwnPartner(a, x, p);
    }
  }

  lemma {:induction false} NonSquareProduct(a: int, h: nat, p: int)
    requires IsPrime(p) && p == 2 * h + 1 && !Cong(a, 0, p) && !IsSquare(a, p)
    ensures Cong(Prod(Units(p)), Pow(a, h), p)
  {
    hide *;
    AllPaired(a, p);
    var n := PairProduct(Units(p), a, p);
    UnitsCount(p);
  }

  /** In an odd modulus a unit and its negative are two different square roots of its square. */
  lemma {:induction false} NegatedRoot(r: int, a: int, p: int)
    requires p % 2 == 1 && 1 <= r < p && Cong(r * r, a, p)
    ensures r != p - r
    ensures Cong((p - r) * (p - r), a, p)
    ensures Cong(r * (p - r), -a, p)
  {
    hide Cong;
    var t := p - r;
    assert t * t == r * r + (p - 2 * r) * p;
    CongFromMultiple(t * t, r * r, p - 2 * r, p);
    CongTrans(t * t, r * r, a, p);
    assert r * t == -(r * r) + r * p;
    CongFromMultiple(r * t, -(r * r), r, p);
    CongScale(r * r, a, -1, p);
    CongTrans(r * t, -(r * r), -a, p);
  }

  lemma {:induction false} SquareRoots(a: int, r: int, x: int, p: int)
    requires IsPrime(p) && 1 <= r < p && 1 <= x < p && Cong(x * x, a, p) && Cong(r * r, a, p)
    ensures x == r || x == p - r
  {
    hide Cong, IsPrime;
    CongSym(r * r, a, p);
    CongTrans(x * x, a, r * r, p);
    SquareRootsUpToSign(x, r, p);
    if Cong(x, r, p) {
      CongSmall(x, r, p);
    } else {
      CongFromMultiple(-r, p - r, -1, p);
      CongTrans(x, -r, p - r, p);
      CongSmall(x, p - r, p);
    }
  }

  /** Without the two roots of `a`, the units split into pairs. */
  lemma {:induction false} WithoutRoots(r: int, a: int, p: int) returns (s: set<int>)
    requires IsPrime(p) && p % 2 == 1 && 1 <= r < p && !Cong(a, 0, p) && Cong(r * r, a, p)
    ensures s == Units(p) - {r} - {p - r} && r != p - r && |s| == p - 3
    ensures PairedOff(s, a, p)
  {
    hide Cong, IsPrime, Partner, Units, Prod;
    var t := p - r;
    s := Units(p) - {r} - {t};
    NegatedRoot(r, a, p);
    PartnerUnique(a, r, r, p);
    PartnerUnique(a, t, t, p);
    forall x | x in s
      ensures Partner(a, x, p) in s && Partner(a, x, p) != x
    {
      PartnerTwice(a, x, p);
      if Partner(a, x, p) == x { SquareRoots(a, r, x, p); }
    }
    UnitsCount(p);
  }

  lemma {:induction false} SquareProduct(r: int, a: int, h: nat, p: int)
    requires IsPrime(p) && p == 2 * h + 1 && 1 <= r < p && !Cong(a, 0, p) && Cong(r * r, a, p)
    ensures Cong(Prod(Units(p)), -Pow(a, h), p)
  {
    hide *;
    var s := WithoutRoots(r, a, p);
    var t := p - r;
    NegatedRoot(r, a, p);
    var k := PairProduct(s, a, p);
    ProdRemoveTwo(Units(p), r, t);
    CongMul(r * t, -a, Prod(s), Pow(a, k), p);
    PowStep(a, k);
    assert (-a) * Pow(a, k) == -(a * Pow(a, k));
  }

  /** Wilson's theorem. */
  lemma {:induction false} Wilson(h: nat, p: int)
    requires IsPrime(p) && p == 2 * h + 1
    ensures Cong(Prod(Units(p)), -1, p)
  {
    PrimeAtLeastTwo(p);
    UnitNotZero(1, p);
    SquareProduct(1, 1, h, p);
    PowOne(h);
  }

  lemma OneIsNotMinusOne(p: int)
    requires p > 2
    ensures !Cong(1, -1, p)
  {
    QuotientUnique(-1, p - 1, p);
  }

  /** Euler's criterion: the power (p-1)/2 is 1 for squares and -1 for all other non-zero residues. */
  lemma {:induction false} EulersCriterion(a: int, h: nat, p: int)
    requires IsPrime(p) && p == 2 * h + 1 && !Cong(a, 0, p)
    ensures Cong(Pow(a, h), if IsSquare(a, p) then 1 else -1, p)
    ensures Cong(Pow(a, h), 1, p) <==> IsSquare(a, p)
  {
    PrimeAtLeastTwo(p);
    Wilson(h, p);
    hide Cong, Units, Prod, Pow, IsPrime;
    var w, e := Prod(Units(p)), Pow(a, h);
    CongSym(w, -1, p);
    if IsSquare(a, p) {
      var r :| 0 <= r < p && Cong(r * r, a, p);
      if r == 0 { CongSym(0, a, p); }
      SquareProduct(r, a, h, p);
      CongTrans(-1, w, -e, p);
      CongSym(-1, -e, p);
      CongScale(-e, -1, -1, p);
    } else {
      NonSquareProduct(a, h, p);
      CongTrans(-1, w, e, p);
      CongSym(-1, e, p);
      OneIsNotMinusOne(p);
      if Cong(e, 1, p) {
        CongSym(e, 1, p);
        CongTrans(1, e, -1, p);
      }
    }
  }
}
