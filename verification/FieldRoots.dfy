/** Modular exponentiation and the Tonelli-Shanks square root of public/pedersen.js, for any odd prime field. */
module FieldRoots {
  import opened ModArith
  import opened Euler
  import opened Wrappers

  /** The remainder of the JavaScript `%` operator: it has the sign of the dividend. */
  function TruncatedRem(a: int, m: int): int
    requires m > 0
  {
    if a >= 0 then a % m else -((-a) % m)
  }

  /** `mod`: the representative in [0, m). */
  function Mod(a: int, m: int): (r: int)
    requires m > 0
    ensures 0 <= r < m && Cong(r, a, m)
  {
    var r := TruncatedRem(a, m);
    ModRepresents(a, m);
    if r < 0 then r + m else r
  }

  lemma ModRepresents(a: int, m: int)
    requires m > 0
    ensures var r := TruncatedRem(a, m); -m < r < m && Cong(r, a, m) && Cong(r + m, a, m)
  {
    var r := TruncatedRem(a, m);
    if a < 0 {
      var q := (-a) / m;
      assert r == a + q * m;
      CongFromMultiple(r, a, q, m);
    } else {
      CongMod(a, m);
    }
    CongFromMultiple(r + m, r, 1, m);
  }

  /** `modPow`: square-and-multiply computes the true power; an exponent below zero leaves 1. */
  method ModPow(base: int, exp: int, m: int) returns (r: int)
    requires m > 1
    ensures 0 <= r < m
    ensures exp >= 0 ==> Cong(r, Pow(base, exp), m)
    ensures exp < 0 ==> r == 1
  {
    r := 1;
    var b, e := Mod(base, m), exp;
    ghost var goal := if exp >= 0 then Pow(base, exp) else 1;
    if exp >= 0 { PowCong(b, base, exp, m); }
    while e > 0
      invariant exp >= 0 ==> e >= 0
      invariant exp < 0 ==> e == exp && r == 1
      invariant 0 <= r < m && 0 <= b < m
      invariant exp >= 0 ==> Cong(r * Pow(b, e), goal, m)
    {
      PowerStep(r, b, e, goal, m);
      if e % 2 == 1 {
        r := (r * b) % m;
      }
      b := (b * b) % m;
      e := e / 2;
    }
  }

  lemma SquareOfPow(x: int, e: nat)
    ensures Pow(x, e) * Pow(x, e) == Pow(x, 2 * e)
  {
    PowAdd(x, e, e);
  }

  lemma {:induction false} PowerStep(r: int, b: int, e: int, goal: int, m: int)
    requires m > 1 && e > 0 && Cong(r * Pow(b, e), goal, m)
    ensures var b' := (b * b) % m;
      Cong((if e % 2 == 1 then (r * b) % m else r) * Pow(b', e / 2), goal, m)
  {
    var h, b', s := e / 2, (b * b) % m, Pow(b, 2 * (e / 2));
    var r1 := if e % 2 == 1 then r * b else r;
    var r' := if e % 2 == 1 then (r * b) % m else r;
    assert e == 2 * h + e % 2;
    PowStep(b, 2 * h);
    HalvePow(b, h, m);
    CongMod(r * b, m);
    hide *;
    assert r1 * s == r * Pow(b, e);
    CongMul(r', r1, Pow(b', h), s, m);
    CongTrans(r' * Pow(b', h), r1 * s, goal, m);
  }

  lemma {:induction false} HalvePow(b: int, h: nat, m: int)
    requires m > 0
    ensures Cong(Pow((b * b) % m, h), Pow(b, 2 * h), m)
  {
    CongMod(b * b, m);
    hide Cong, Pow;
    PowCong((b * b) % m, b * b, h, m);
    PowProduct(b, b, h);
    SquareOfPow(b, h);
  }

  // ---- Tonelli-Shanks ----------------------------------------------------------

  /** The domain parameters of `sqrtFr`: p - 1 = q * 2^s with q odd, and z is not a square. */
  datatype Roots = Roots(p: int, q: nat, s: nat, z: int)

  ghost predicate ValidRoots(f: Roots)
  {
    && IsPrime(f.p)
    && f.s >= 1 && f.q % 2 == 1
    && f.p == f.q * Pow(2, f.s) + 1
    && !IsSquare(f.z, f.p)
  }

  /** The domain parameters of a small field: 5 = 1 * 2^2 + 1, and 2 is not a square. */
  lemma SmallField()
    ensures ValidRoots(Roots(5, 1, 2, 2))
  {
    PowStep(2, 0);
    PowStep(2, 1);
    assert 5 % 2 == 1 && 5 % 3 == 2 && 5 % 4 == 1;
    forall x | 0 <= x < 5
      ensures !Cong(x * x, 2, 5)
    {
      assert x == 0 || x == 1 || x == 2 || x == 3 || x == 4;
    }
  }

  lemma {:induction false} HalfOrder(f: Roots)
    requires f.s >= 1 && f.p == f.q * Pow(2, f.s) + 1 && f.q % 2 == 1
    ensures Pow(2, f.s - 1) >= 1 && f.q * Pow(2, f.s - 1) >= 1
    ensures f.p == 2 * (f.q * Pow(2, f.s - 1)) + 1 >= 3
    ensures (f.p - 1) / 2 == f.q * Pow(2, f.s - 1)
  {
    PowStep(2, f.s - 1);
    PowPositive(2, f.s - 1);
    MulMono(1, f.q, Pow(2, f.s - 1));
    assert f.q * (2 * Pow(2, f.s - 1)) == 2 * (f.q * Pow(2, f.s - 1));
  }

  /** State of the outer loop: R^2 = n*t, t has order dividing 2^(M-1) and c has order exactly 2^M. */
  ghost predicate LoopState(p: int, n: int, M: int, c: int, t: int, R: int)
    requires p > 0
  {
    && M >= 1
    && 0 <= c < p && 0 <= t < p && 0 <= R < p
    && Cong(R * R, n * t, p)
    && Cong(Pow(t, Pow2(M - 1)), 1, p)
    && Cong(Pow(c, Pow2(M - 1)), -1, p)
  }

  function Pow2(e: nat): nat
  {
    PowPositive(2, e);
    Pow(2, e)
  }

  lemma Pow2Step(e: nat)
    ensures Pow2(0) == 1 && Pow2(e + 1) == 2 * Pow2(e)
  {
  }

  lemma {:induction false} SquareAdvances(x: int, y: int, i: nat, p: int)
    requires p > 0 && Cong(y, Pow(x, Pow2(i)), p)
    ensures Cong((y * y) % p, Pow(x, Pow2(i + 1)), p)
  {
    CongMod(y * y, p);
    hide *;
    Pow2Step(i);
    SquareOfPow(x, Pow2(i));
    CongMul(y, Pow(x, Pow2(i)), y, Pow(x, Pow2(i)), p);
    CongTrans((y * y) % p, y * y, Pow(x, Pow2(i + 1)), p);
  }

  /** A square root of 1 that is not 1 is -1. */
  lemma {:induction false} NontrivialRoot(x: int, p: int)
    requires IsPrime(p) && Cong(x * x, 1, p) && !Cong(x, 1, p)
    ensures Cong(x, -1, p)
  {
    hide *;
    SquareRootsUpToSign(x, 1, p);
  }

  lemma {:induction false} PowOfProduct(x: int, y: int, e: nat, a: int, b: int, p: int)
    requires p > 0 && Cong(Pow(x, e), a, p) && Cong(Pow(y, e), b, p)
    ensures Cong(Pow((x * y) % p, e), a * b, p)
  {
    CongMod(x * y, p);
    hide *;
    PowCong((x * y) % p, x * y, e, p);
    PowProduct(x, y, e);
    CongMul(Pow(x, e), a, Pow(y, e), b, p);
    CongTrans(Pow((x * y) % p, e), Pow(x * y, e), a * b, p);
  }

  /** b = c^(2^(M-i-1)) has b^(2^i) = c^(2^(M-1)). */
  lemma {:induction false} LiftedPower(c: int, b: int, M: nat, i: nat, p: int)
    requires 1 <= i < M && p > 0 && Cong(b, Pow(c, Pow2(M - i - 1)), p)
    ensures Cong(Pow((b * b) % p, Pow2(i - 1)), Pow(c, Pow2(M - 1)), p)
  {
    SquareAdvances(c, b, M - i - 1, p);
    hide *;
    var e, g := Pow2(M - i), Pow2(i - 1);
    PowCong((b * b) % p, Pow(c, e), g, p);
    PowPow(c, e, g);
    Pow2Add(M - i, i - 1);
    CongTrans(Pow((b * b) % p, g), Pow(c, e * g), Pow(c, Pow2(M - 1)), p);
  }

  lemma Pow2Add(e: nat, f: nat)
    ensures Pow2(e) * Pow2(f) == Pow2(e + f)
  {
    PowAdd(2, e, f);
  }

  lemma {:induction false} RootStep(n: int, t: int, R: int, b: int, p: int)
    requires p > 0 && Cong(R * R, n * t, p)
    ensures var c' := (b * b) % p; var R' := (R * b) % p;
      Cong(R' * R', n * ((t * c') % p), p)
  {
    var c' := (b * b) % p;
    var R' := (R * b) % p;
    CongMod(b * b, p);
    CongMod(R * b, p);
    CongMod(t * c', p);
    hide *;
    CongMul(R', R * b, R', R * b, p);
    Interchange(R, b, R, b);
    CongMul(R * R, n * t, b * b, b * b, p) by { CongRefl(b * b, p); }
    CongScale(c', b * b, n * t, p);
    CongSym((n * t) * c', (n * t) * (b * b), p);
    CongScale((t * c') % p, t * c', n, p);
    CongSym(n * ((t * c') % p), n * (t * c'), p);
    assert (n * t) * c' == n * (t * c');
    CongTrans(R' * R', (R * R) * (b * b), (n * t) * (b * b), p);
    CongTrans(R' * R', (n * t) * (b * b), n * (t * c'), p);
    CongTrans(R' * R', n * (t * c'), n * ((t * c') % p), p);
  }

  lemma {:induction false} NextState(p: int, n: int, M: int, c: int, t: int, R: int, i: int, b: int)
    requires IsPrime(p) && LoopState(p, n, M, c, t, R)
    requires 1 <= i < M
    requires Cong(Pow(t, Pow2(i)), 1, p) && !Cong(Pow(t, Pow2(i - 1)), 1, p)
    requires 0 <= b < p && Cong(b, Pow(c, Pow2(M - i - 1)), p)
    ensures var c' := (b * b) % p; LoopState(p, n, i, c', (t * c') % p, (R * b) % p)
  {
    var c' := (b * b) % p;
    LiftedPower(c, b, M, i, p);
    RootStep(n, t, R, b, p);
    Pow2Step(i - 1);
    hide Cong, Pow, Pow2, IsPrime;
    CongTrans(Pow(c', Pow2(i - 1)), Pow(c, Pow2(M - 1)), -1, p);
    SquareOfPow(t, Pow2(i - 1));
    NontrivialRoot(Pow(t, Pow2(i - 1)), p);
    PowOfProduct(t, c', Pow2(i - 1), -1, -1, p);
  }

  /** Before the loop: c = z^q, t = n^q and R = n^((q+1)/2) satisfy the loop state for a non-zero square n. */
  lemma {:induction false} InitialState(f: Roots, n: int, c: int, t: int, R: int)
    requires ValidRoots(f) && 1 <= n < f.p && IsSquare(n, f.p)
    requires 0 <= c < f.p && Cong(c, Pow(f.z, f.q), f.p)
    requires 0 <= t < f.p && Cong(t, Pow(n, f.q), f.p)
    requires 0 <= R < f.p && Cong(R, Pow(n, (f.q + 1) / 2), f.p)
    ensures LoopState(f.p, n, f.s, c, t, R)
  {
    var p, q, e, h := f.p, f.q, Pow2(f.s - 1), (f.q + 1) / 2;
    HalfOrder(f);
    NonSquareNotZero(f.z, p);
    UnitNotZero(n, p);
    EulersCriterion(f.z, q * e, p);
    EulersCriterion(n, q * e, p);
    assert 2 * h == q + 1;
    hide *;
    RootPower(t, n, q, e, 1, p);
    RootPower(c, f.z, q, e, -1, p);
    CongMul(R, Pow(n, h), R, Pow(n, h), p);
    SquareOfPow(n, h);
    PowStep(n, q);
    CongScale(t, Pow(n, q), n, p);
    CongSym(n * t, n * Pow(n, q), p);
    CongTrans(R * R, n * Pow(n, q), n * t, p);
    LoopStateHolds(p, n, f.s, c, t, R);
  }

  lemma LoopStateHolds(p: int, n: int, M: int, c: int, t: int, R: int)
    requires p > 0 && M >= 1
    requires 0 <= c < p && 0 <= t < p && 0 <= R < p
    requires Cong(R * R, n * t, p)
    requires Cong(Pow(t, Pow2(M - 1)), 1, p) && Cong(Pow(c, Pow2(M - 1)), -1, p)
    ensures LoopState(p, n, M, c, t, R)
  {
  }

  lemma NonSquareNotZero(z: int, p: int)
    requires p > 1 && !IsSquare(z, p)
    ensures !Cong(z, 0, p)
  {
    if Cong(z, 0, p) {
      assert Cong(0 * 0, z, p);
    }
  }

  lemma {:induction false} RootPower(t: int, n: int, q: nat, e: nat, a: int, p: int)
    requires p > 0 && Cong(t, Pow(n, q), p) && q * e >= 0 && Cong(Pow(n, q * e), a, p)
    ensures Cong(Pow(t, e), a, p)
  {
    hide *;
    PowCong(t, Pow(n, q), e, p);
    PowPow(n, q, e);
    CongTrans(Pow(t, e), Pow(n, q * e), a, p);
  }

  lemma LoopDone(p: int, n: int, M: int, c: int, R: int)
    requires p > 0 && LoopState(p, n, M, c, 1, R)
    ensures Cong(R * R, n, p)
  {
  }

  /** `sqrtFr`: a square root exactly when there is one. */
  method SqrtFr(f: Roots, n: int) returns (r: Option<int>)
    requires ValidRoots(f) && 0 <= n < f.p
    ensures r.Some? <==> IsSquare(n, f.p)
    ensures r.Some? ==> 0 <= r.value < f.p && Cong(r.value * r.value, n, f.p)
  {
    var p := f.p;
    HalfOrder(f);
    if n == 0 {
      assert Cong(0 * 0, n, p);
      return Some(0);
    }
    UnitNotZero(n, p);
    EulersCriterion(n, (p - 1) / 2, p);
    var euler := ModPow(n, (p - 1) / 2, p);
    EulerTest(euler, Pow(n, (p - 1) / 2), p);
    if euler != 1 { return None; }

    var M := f.s;
    var c := ModPow(f.z, f.q, p);
    var t := ModPow(n, f.q, p);
    var R := ModPow(n, (f.q + 1) / 2, p);
    InitialState(f, n, c, t, R);
    while true
      invariant LoopState(p, n, M, c, t, R)
      decreases M
    {
      if t == 1 {
        LoopDone(p, n, M, c, R);
        return Some(R);
      }
      M, c, t, R := ReduceOrder(p, n, M, c, t, R);
    }
  }

  lemma EulerTest(e: int, w: int, p: int)
    requires p > 2 && 0 <= e < p && Cong(e, w, p)
    ensures e == 1 <==> Cong(w, 1, p)
  {
  }

  /** One pass of the outer loop: finds the order 2^i of `t` and moves to a state with M = i. */
  method ReduceOrder(p: int, n: int, M: int, c: int, t: int, R: int)
      returns (M': int, c': int, t': int, R': int)
    requires IsPrime(p) && p > 2 && LoopState(p, n, M, c, t, R) && t != 1
    ensures LoopState(p, n, M', c', t', R')
    ensures 1 <= M' < M
  {
    var i := 0;
    var temp := t;
    Pow2Step(0);
    assert Pow(t, 1) == t;
    while temp != 1
      invariant 0 <= i < M && 0 <= temp < p
      invariant Cong(temp, Pow(t, Pow2(i)), p)
      invariant i == 0 ==> temp == t
      invariant i > 0 ==> !Cong(Pow(t, Pow2(i - 1)), 1, p)
      decreases M - i
    {
      SquareAdvances(t, temp, i, p);
      NotYetOne(temp, Pow(t, Pow2(i)), p);
      temp := (temp * temp) % p;
      i := i + 1;
      if i == M {
        // the "shouldn't happen" return of the source
        assert false;
      }
    }
    CongSym(temp, Pow(t, Pow2(i)), p);
    var b := ModPow(c, Pow2(M - i - 1), p);
    NextState(p, n, M, c, t, R, i, b);
    M' := i;
    c' := (b * b) % p;
    t' := (t * c') % p;
    R' := (R * b) % p;
  }

  lemma NotYetOne(temp: int, w: int, p: int)
    requires p > 1 && 0 <= temp < p && temp != 1 && Cong(temp, w, p)
    ensures !Cong(w, 1, p)
  {
  }
}
