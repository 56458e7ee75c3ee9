/** The 32-byte point encoding of public/pedersen.js on a twisted Edwards curve with a = -1. */
module PointCodec {
  import opened ModArith
  import opened Euler
  import opened FieldRoots
  import opened Wrappers

  type Byte = b: int | 0 <= b < 256

  datatype Point = Point(x: int, y: int)

  /** The curve -x^2 + y^2 = 1 + d x^2 y^2 over the field of `f`. */
  datatype Curve = Curve(f: Roots, d: int)

  datatype DecodeError = BadLength | YOutOfField | DegenerateDenominator | NoSquareRoot | NotOnCurve

  datatype EncodeError = TooLarge

  /** A complete curve (d is not a square, -1 is one) over a field that leaves the top bit of 32 bytes free. */
  ghost predicate ValidCurve(c: Curve)
  {
    && ValidRoots(c.f) && c.f.s >= 2
    && !IsSquare(c.d, c.f.p)
    && c.f.p <= Base(31) * 128
  }

  /** Such curves exist. */
  lemma SmallCurve(c: Curve)
    requires c.f == Roots(5, 1, 2, 2) && c.d == 2
    ensures ValidCurve(c)
  {
    SmallField();
    BaseGrows(31);
    hide *;
    assert c.f.p == 5 && c.f.z == 2;
    SameNonSquare(c);
  }

  lemma SameNonSquare(c: Curve)
    requires ValidRoots(c.f) && c.f.s >= 2 && c.d == c.f.z && c.f.p <= Base(31) * 128
    ensures ValidCurve(c)
  {
  }

  lemma {:induction false} BaseGrows(n: nat)
    ensures Base(n) >= 1
  {
    if n > 0 { BaseGrows(n - 1); }
  }

  ghost predicate OnCurve(c: Curve, P: Point)
    requires c.f.p > 0
  {
    Cong(-(P.x * P.x) + P.y * P.y, 1 + c.d * (P.x * P.x) * (P.y * P.y), c.f.p)
  }

  predicate Reduced(c: Curve, P: Point)
  {
    0 <= P.x < c.f.p && 0 <= P.y < c.f.p
  }

  /** `isLargest`: the sign rule of the compressed form. */
  predicate IsLargest(c: Curve, x: int)
  {
    x > (c.f.p - 1) / 2
  }

  // ---- Little-endian integers ----------------------------------------------------

  function Base(n: nat): nat
  {
    if n == 0 then 1 else 256 * Base(n - 1)
  }

  function LittleEndian(s: seq<Byte>): nat
  {
    if s == [] then 0 else s[0] + 256 * LittleEndian(s[1..])
  }

  lemma {:induction false} LittleEndianAppend(s: seq<Byte>, b: Byte)
    ensures LittleEndian(s + [b]) == LittleEndian(s) + b * Base(|s|)
  {
    if s == [] {
    } else {
      LittleEndianAppend(s[1..], b);
      assert (s + [b])[1..] == s[1..] + [b];
      assert 256 * (b * Base(|s| - 1)) == b * (256 * Base(|s| - 1));
    }
  }

  lemma {:induction false} LittleEndianBound(s: seq<Byte>)
    ensures LittleEndian(s) < Base(|s|)
  {
    if s != [] { LittleEndianBound(s[1..]); }
  }

  lemma {:induction false} LittleEndianInjective(s: seq<Byte>, t: seq<Byte>)
    requires |s| == |t| && LittleEndian(s) == LittleEndian(t)
    ensures s == t
  {
    if s != [] {
      assert s[0] == t[0] && LittleEndian(s[1..]) == LittleEndian(t[1..]);
      LittleEndianInjective(s[1..], t[1..]);
      assert s == [s[0]] + s[1..] && t == [t[0]] + t[1..];
    }
  }

  lemma ShiftByte(v: int, low: int, rest: int, base: int)
    requires v == 256 * rest + low
    ensures v * base == low * base + rest * (256 * base)
  {
  }

  lemma LeftoverByte(x: int, low: nat, v: int, base: int)
    requires x == low + v * base && low < base
    ensures v == 0 <==> 0 <= x < base
  {
    if v > 0 { MulMono(1, v, base); }
    if v < 0 { MulMono(v, -1, base); }
  }

  /** `bigintToLEBytes`: the bytes of `x`, or an error when it does not fit in `len` bytes. */
  method BigintToLEBytes(x: int, len: nat) returns (r: Option<array<Byte>>)
    ensures r.Some? <==> 0 <= x < Base(len)
    ensures r.Some? ==> fresh(r.value) && r.value.Length == len && LittleEndian(r.value[..]) == x
  {
    var v := x;
    var out := new Byte[len](_ => 0);
    assert out[..0] == [];
    for i := 0 to len
      invariant x == LittleEndian(out[..i]) + v * Base(i)
    {
      var low := v % 256;
      var rest := v / 256;
      LittleEndianAppend(out[..i], low);
      ShiftByte(v, low, rest, Base(i));
      out[i] := low;
      assert out[..i + 1] == out[..i] + [low];
      v := rest;
    }
    assert out[..len] == out[..];
    LittleEndianBound(out[..]);
    LeftoverByte(x, LittleEndian(out[..]), v, Base(len));
    if v != 0 { return None; }
    return Some(out);
  }

  /** `leBytesToBigint`. */
  method LEBytesToBigint(buf: array<Byte>) returns (v: nat)
    ensures v == LittleEndian(buf[..])
  {
    v := 0;
    var i := buf.Length;
    while i > 0
      invariant 0 <= i <= buf.Length
      invariant v == LittleEndian(buf[i..])
    {
      i := i - 1;
      assert buf[i..][1..] == buf[i + 1..];
      v := 256 * v + buf[i];
    }
    assert buf[0..] == buf[..];
  }

  // ---- Encoding ----------------------------------------------------------------

  /** The sign flag and the y-coordinate that a byte string carries: the top bit, and the rest. */
  function FlagOf(s: seq<Byte>): bool
    requires |s| > 0
  {
    s[|s| - 1] >= 128
  }

  function YOf(s: seq<Byte>): nat
    requires |s| > 0
  {
    LittleEndian(s[|s| - 1 := s[|s| - 1] % 128])
  }

  lemma {:induction false} TopByte(s: seq<Byte>, n: nat)
    requires |s| == n + 1
    ensures LittleEndian(s) == LittleEndian(s[..n]) + s[n] * Base(n)
    ensures LittleEndian(s[..n]) < Base(n)
  {
    assert s == s[..n] + [s[n]];
    LittleEndianAppend(s[..n], s[n]);
    LittleEndianBound(s[..n]);
  }

  /** Two byte strings of one length with the same y and the same flag are equal. */
  lemma {:induction false} CarriedValueDetermines(s: seq<Byte>, t: seq<Byte>)
    requires |s| == |t| > 0
    requires YOf(s) == YOf(t) && FlagOf(s) == FlagOf(t)
    ensures s == t
  {
    var n := |s| - 1;
    LittleEndianInjective(s[n := s[n] % 128], t[n := t[n] % 128]);
    forall i | 0 <= i < |s|
      ensures s[i] == t[i]
    {
      assert s[n := s[n] % 128][i] == t[n := t[n] % 128][i];
    }
  }

  lemma SmallTopByte(low: nat, b: int, base: int)
    requires 0 < base && low + b * base < base * 128
    ensures b < 128
  {
    if b >= 128 {
      MulMono(128, b, base);
    }
  }

  lemma YOfIs(s: seq<Byte>)
    requires |s| > 0
    ensures YOf(s) == LittleEndian(s[|s| - 1 := s[|s| - 1] % 128])
  {
  }

  /** Setting the top bit of a value that leaves it free sets the flag and keeps the value. */
  lemma {:induction false} FreeTopBit(s: seq<Byte>, n: nat)
    requires |s| == n + 1 && LittleEndian(s) < Base(n) * 128
    ensures s[n] < 128
    ensures YOf(s) == LittleEndian(s) == YOf(s[n := s[n] + 128])
  {
    TopByte(s, n);
    hide *;
    SmallTopByte(LittleEndian(s[..n]), s[n], Base(n));
    YOfIs(s);
    YOfIs(s[n := s[n] + 128]);
    var t := s[n := s[n] + 128];
    assert t[n := t[n] % 128] == s && s[n := s[n] % 128] == s;
  }

  /** `encodePoint`. */
  method EncodePoint(c: Curve, P: Point) returns (r: Result<array<Byte>, EncodeError>)
    requires ValidCurve(c)
    ensures r.Ok? <==> 0 <= P.y < Base(32)
    ensures r.Ok? ==> fresh(r.value) && r.value.Length == 32
    ensures r.Ok? && P.y < c.f.p ==>
      YOf(r.value[..]) == P.y && FlagOf(r.value[..]) == IsLargest(c, P.x)
  {
    hide Base, LittleEndian, YOf, ValidRoots, IsSquare;
    var bytes := BigintToLEBytes(P.y, 32);
    if bytes.None? { return Err(TooLarge); }
    var out := bytes.value;
    ghost var plain := out[..];
    if P.y < c.f.p { FreeTopBit(plain, 31); }
    if IsLargest(c, P.x) {
      out[31] := if out[31] < 128 then out[31] + 128 else out[31];
      assert P.y < c.f.p ==> out[..] == plain[31 := plain[31] + 128];
    }
    return Ok(out);
  }

  // ---- Decoding ----------------------------------------------------------------

  /** The points that the bytes `s` stand for; the flag is free when x is 0. */
  ghost predicate Denotes(c: Curve, s: seq<Byte>, P: Point)
    requires c.f.p > 0
  {
    && |s| == 32
    && Reduced(c, P) && OnCurve(c, P)
    && P.y == YOf(s)
    && (P.x == 0 || IsLargest(c, P.x) == FlagOf(s))
  }

  /** `isOnCurve`. */
  method IsOnCurve(c: Curve, P: Point) returns (r: bool)
    requires c.f.p > 1
    ensures r == OnCurve(c, P)
  {
    var p := c.f.p;
    var x2 := (P.x * P.x) % p;
    var y2 := (P.y * P.y) % p;
    var lhs := Mod((p - 1) * x2 + y2, p);
    var rhs := Mod(1 + (c.d * x2) % p * y2, p);
    CurveSides(c, P, x2, y2, p);
    SameRepresentative(lhs, (p - 1) * x2 + y2, rhs, 1 + (c.d * x2) % p * y2, p);
    CongPairs((p - 1) * x2 + y2, -(P.x * P.x) + P.y * P.y,
              1 + (c.d * x2) % p * y2, 1 + c.d * (P.x * P.x) * (P.y * P.y), p);
    r := lhs == rhs;
  }

  lemma SameRepresentative(l: int, a: int, r: int, b: int, p: int)
    requires p > 0 && 0 <= l < p && 0 <= r < p && Cong(l, a, p) && Cong(r, b, p)
    ensures l == r <==> Cong(a, b, p)
  {
    hide Cong;
    CongSym(r, b, p);
    CongSym(l, a, p);
    if l == r { CongTrans(a, l, b, p); }
    if Cong(a, b, p) {
      CongTrans(l, a, b, p);
      CongTrans(l, b, r, p);
      CongSmall(l, r, p);
    }
  }

  lemma CongPairs(a: int, b: int, c: int, d: int, p: int)
    requires p > 0 && Cong(a, b, p) && Cong(c, d, p)
    ensures Cong(a, c, p) <==> Cong(b, d, p)
  {
    hide Cong;
    CongSym(a, b, p);
    CongSym(c, d, p);
    if Cong(a, c, p) { CongTrans(b, a, c, p); CongTrans(b, c, d, p); }
    if Cong(b, d, p) { CongTrans(a, b, d, p); CongTrans(a, d, c, p); }
  }

  lemma {:induction false} CurveSides(c: Curve, P: Point, x2: int, y2: int, p: int)
    requires p == c.f.p > 1 && x2 == (P.x * P.x) % p && y2 == (P.y * P.y) % p
    ensures Cong((p - 1) * x2 + y2, -(P.x * P.x) + P.y * P.y, p)
    ensures Cong(1 + (c.d * x2) % p * y2, 1 + c.d * (P.x * P.x) * (P.y * P.y), p)
  {
    CongMod(P.x * P.x, p);
    CongMod(P.y * P.y, p);
    CongMod(c.d * x2, p);
    hide *;
    var X, Y := P.x * P.x, P.y * P.y;
    assert (p - 1) * x2 == -x2 + x2 * p;
    CongFromMultiple((p - 1) * x2, -x2, x2, p);
    CongScale(x2, X, -1, p);
    CongTrans((p - 1) * x2, -x2, -X, p);
    CongAdd((p - 1) * x2, -X, y2, Y, p);
    CongScale(x2, X, c.d, p);
    CongTrans((c.d * x2) % p, c.d * x2, c.d * X, p);
    CongMul((c.d * x2) % p, c.d * X, y2, Y, p);
    CongRefl(1, p);
    CongAdd(1, 1, (c.d * x2) % p * y2, c.d * X * Y, p);
  }

  /** Fermat's little theorem gives the inverse that `modInv` computes. */
  lemma {:induction false} FermatInverse(x: int, f: Roots)
    requires ValidRoots(f) && !Cong(x, 0, f.p)
    ensures f.p > 2
    ensures Cong(x * Pow(x, f.p - 2), 1, f.p)
  {
    HalfOrder(f);
    var p, h := f.p, f.q * Pow(2, f.s - 1);
    EulersCriterion(x, h, p);
    hide *;
    var e := Pow(x, h);
    SquareOfPow(x, h);
    PowStep(x, p - 2);
    if Cong(e, 1, p) {
      CongMul(e, 1, e, 1, p);
    } else {
      CongMul(e, -1, e, -1, p);
    }
  }

  lemma {:induction false} MinusOneIsSquare(f: Roots) returns (i: int)
    requires ValidRoots(f) && f.s >= 2
    ensures Cong(i * i, -1, f.p)
  {
    HalfOrder(f);
    var p, e := f.p, Pow2(f.s - 2);
    NonSquareNotZero(f.z, p);
    EulersCriterion(f.z, f.q * Pow(2, f.s - 1), p);
    hide *;
    i := Pow(f.z, f.q * e);
    SquareOfPow(f.z, f.q * e);
    HalvedOrder(f.q, f.s - 2);
  }

  lemma HalvedOrder(q: nat, k: nat)
    ensures 0 <= q * Pow2(k)
    ensures 2 * (q * Pow2(k)) == q * Pow(2, k + 1)
  {
    PowStep(2, k);
    var e := Pow2(k);
    assert 2 * (q * e) == q * (2 * e);
  }

  /** On a complete curve the denominator d y^2 + 1 of the decoder never vanishes. */
  lemma {:induction false} DenominatorNonzero(c: Curve, y: int)
    requires ValidCurve(c)
    ensures c.f.p > 2
    ensures !Cong(c.d * (y * y) + 1, 0, c.f.p)
  {
    HalfOrder(c.f);
    var p := c.f.p;
    if Cong(c.d * (y * y) + 1, 0, p) {
      var i := MinusOneIsSquare(c.f);
      var w := InverseOf(c.d, y, c.f);
      SquareWitness(c.d, y, w, i, p);
      assert false;
    }
  }

  lemma {:induction false} InverseOf(d: int, y: int, f: Roots) returns (w: int)
    requires ValidRoots(f) && f.p > 2 && Cong(d * (y * y) + 1, 0, f.p)
    ensures Cong(y * w, 1, f.p)
  {
    HeightNotZero(d, y, f.p);
    FermatInverse(y, f);
    w := Pow(y, f.p - 2);
  }

  lemma {:induction false} HeightNotZero(d: int, y: int, p: int)
    requires p > 2 && Cong(d * (y * y) + 1, 0, p)
    ensures !Cong(y, 0, p)
  {
    UnitNotZero(1, p);
    hide *;
    if Cong(y, 0, p) {
      CongScale(y, 0, d * y, p);
      assert (d * y) * y == d * (y * y);
      CongRefl(1, p);
      CongAdd(d * (y * y), 0, 1, 1, p);
      CongSym(d * (y * y) + 1, 1, p);
      CongTrans(1, d * (y * y) + 1, 0, p);
    }
  }

  lemma {:induction false} SquareWitness(d: int, y: int, w: int, i: int, p: int)
    requires p > 2 && Cong(d * (y * y) + 1, 0, p) && Cong(y * w, 1, p) && Cong(i * i, -1, p)
    ensures IsSquare(d, p)
  {
    SquareWitnessCong(d, y, w, i, p);
    CongReduce(i * w, p);
    var x := (i * w) % p;
    CongMul(x, i * w, x, i * w, p);
    CongTrans(x * x, (i * w) * (i * w), d, p);
  }

  lemma {:induction false} SquareWitnessCong(d: int, y: int, w: int, i: int, p: int)
    requires p > 2 && Cong(d * (y * y) + 1, 0, p) && Cong(y * w, 1, p) && Cong(i * i, -1, p)
    ensures Cong((i * w) * (i * w), d, p)
  {
    hide *;
    var v := w * w;
    // d y^2 = -1, so multiplying by w^2 gives d = -w^2 = (i w)^2
    CongRefl(1, p);
    CongAdd(d * (y * y) + 1, 0, 1, 1, p);
    CongScale(d * (y * y), -1, v, p);
    CongMul(y * w, 1, y * w, 1, p);
    Interchange(y, w, y, w);
    assert (y * y) * v == (y * w) * (y * w);
    CongScale((y * y) * v, 1, d, p);
    assert d * ((y * y) * v) == (d * (y * y)) * v;
    CongSym(d * ((y * y) * v), -v, p);
    CongTrans(-v, d * ((y * y) * v), d, p);
    CongScale(i * i, -1, v, p);
    Interchange(i, w, i, w);
    CongTrans((i * w) * (i * w), -v, d, p);
  }

  /** The curve equation solved for x^2. */
  lemma {:induction false} CurveSolved(d: int, X: int, Y: int, p: int)
    requires p > 0
    ensures Cong(-X + Y, 1 + d * X * Y, p) <==> Cong(X * (d * Y + 1), Y - 1, p)
  {
    var lhs, rhs := -X + Y, 1 + d * X * Y;
    var den, num := X * (d * Y + 1), Y - 1;
    hide *;
    assert X * (d * Y + 1) == d * X * Y + X;
    assert rhs - lhs == den - num;
    CongDiff(rhs, lhs, p);
    CongDiff(den, num, p);
    if Cong(lhs, rhs, p) { CongSym(lhs, rhs, p); }
    if Cong(rhs, lhs, p) { CongSym(rhs, lhs, p); }
  }

  /** xSq = num / den. */
  lemma {:induction false} QuotientSolves(num: int, den: int, inv: int, xSq: int, p: int)
    requires p > 0 && Cong(den * inv, 1, p) && Cong(xSq, num * inv, p)
    ensures forall v :: Cong(v, xSq, p) <==> Cong(v * den, num, p)
  {
    hide *;
    forall v
      ensures Cong(v, xSq, p) <==> Cong(v * den, num, p)
    {
      QuotientSolvesOne(num, den, inv, xSq, v, p);
    }
  }

  lemma {:induction false} QuotientSolvesOne(num: int, den: int, inv: int, xSq: int, v: int, p: int)
    requires p > 0 && Cong(den * inv, 1, p) && Cong(xSq, num * inv, p)
    ensures Cong(v, xSq, p) <==> Cong(v * den, num, p)
  {
    hide *;
    if Cong(v, xSq, p) {
      CongTrans(v, xSq, num * inv, p);
      CongScale(v, num * inv, den, p);
      CongScale(den * inv, 1, num, p);
      assert (num * inv) * den == num * (den * inv);
      CongTrans(v * den, num * (den * inv), num, p);
    }
    if Cong(v * den, num, p) {
      CongScale(v * den, num, inv, p);
      CongScale(den * inv, 1, v, p);
      assert (v * den) * inv == v * (den * inv);
      CongSym(v * (den * inv), v, p);
      CongTrans(v, v * (den * inv), num * inv, p);
      CongSym(xSq, num * inv, p);
      CongTrans(v, num * inv, xSq, p);
    }
  }

  /** The values the decoder computes: x is on the curve at height y exactly when x^2 = xSq. */
  lemma {:induction false} HeightEquation(c: Curve, y: int, ySq: int, num: int, den: int, inv: int, xSq: int)
    requires c.f.p > 1 && 0 <= ySq && Cong(ySq, y * y, c.f.p)
    requires Cong(num, ySq - 1, c.f.p) && Cong(den, c.d * ySq - (c.f.p - 1), c.f.p)
    requires Cong(den * inv, 1, c.f.p) && Cong(xSq, num * inv, c.f.p)
    ensures forall x :: OnCurve(c, Point(x, y)) <==> Cong(x * x, xSq, c.f.p)
  {
    var p := c.f.p;
    NumDen(c, y, ySq, num, den);
    QuotientSolves(num, den, inv, xSq, p);
    forall x
      ensures OnCurve(c, Point(x, y)) <==> Cong(x * x, xSq, p)
    {
      CurveSolved(c.d, x * x, y * y, p);
      CongPairsScaled(x * x, den, c.d * (y * y) + 1, num, y * y - 1, p);
    }
  }

  lemma {:induction false} CongPairsScaled(X: int, den: int, den': int, num: int, num': int, p: int)
    requires p > 0 && Cong(den, den', p) && Cong(num, num', p)
    ensures Cong(X * den, num, p) <==> Cong(X * den', num', p)
  {
    CongScale(den, den', X, p);
    CongPairs(X * den, X * den', num, num', p);
  }

  lemma {:induction false} NumDen(c: Curve, y: int, ySq: int, num: int, den: int)
    requires c.f.p > 1 && Cong(ySq, y * y, c.f.p)
    requires Cong(num, ySq - 1, c.f.p) && Cong(den, c.d * ySq - (c.f.p - 1), c.f.p)
    ensures Cong(num, y * y - 1, c.f.p)
    ensures Cong(den, c.d * (y * y) + 1, c.f.p)
  {
    var p := c.f.p;
    hide *;
    CongRefl(1, p);
    CongAdd(ySq, y * y, 1, 1, p);
    CongTrans(num, ySq - 1, y * y - 1, p);
    CongScale(ySq, y * y, c.d, p);
    CongFromMultiple(-(p - 1), 1, -1, p);
    CongAdd(c.d * ySq, c.d * (y * y), -(p - 1), 1, p);
    CongTrans(den, c.d * ySq - (p - 1), c.d * (y * y) + 1, p);
  }

  /** Of a non-zero residue and its negative exactly one is largest. */
  lemma NegationFlips(c: Curve, x: int)
    requires c.f.p % 2 == 1 && 0 < x < c.f.p
    ensures Mod(-x, c.f.p) == c.f.p - x
    ensures IsLargest(c, c.f.p - x) == !IsLargest(c, x)
  {
    var p := c.f.p;
    CongFromMultiple(p - x, -x, 1, p);
    hide Cong, Mod;
    CongSym(Mod(-x, p), -x, p);
    NegatedRepresentative(Mod(-x, p), p - x, -x, p);
  }

  lemma NegatedRepresentative(a: int, b: int, v: int, p: int)
    requires p > 0 && 0 <= a < p && 0 <= b < p && Cong(v, a, p) && Cong(b, v, p)
    ensures a == b
  {
    hide Cong;
    CongTrans(b, v, a, p);
    CongSmall(b, a, p);
  }

  /** A square root of `v` whose sign is the requested one; 0 has either sign. */
  ghost predicate SignedRoot(c: Curve, u: int, v: int, flag: bool)
    requires c.f.p > 0
  {
    0 <= u < c.f.p && Cong(u * u, v, c.f.p) && (u == 0 || IsLargest(c, u) == flag)
  }

  /** The root with the requested sign is the only candidate for the decoded x. */
  lemma {:induction false} ChosenRoot(c: Curve, root: int, flag: bool, x: int, v: int)
    requires ValidCurve(c) && c.f.p % 2 == 1 && c.f.p > 2
    requires 0 <= root < c.f.p && Cong(root * root, v, c.f.p)
    requires x == if IsLargest(c, root) != flag then Mod(-root, c.f.p) else root
    ensures 0 <= x < c.f.p && Cong(x * x, v, c.f.p)
    ensures x == 0 || IsLargest(c, x) == flag
    ensures forall u :: SignedRoot(c, u, v, flag) ==> u == x
  {
    var p := c.f.p;
    if root > 0 {
      NegationFlips(c, root);
      NegatedRoot(root, v, p);
    }
    forall u | SignedRoot(c, u, v, flag)
      ensures u == x
    {
      RootUpToSign(u, root, v, p);
    }
  }

  lemma {:induction false} RootUpToSign(u: int, root: int, v: int, p: int)
    requires IsPrime(p) && 0 <= u < p && 0 <= root < p && Cong(u * u, v, p) && Cong(root * root, v, p)
    ensures u == root || (root > 0 && u == p - root)
  {
    if u == 0 || root == 0 {
      ZeroRoot(u, root, v, p);
    } else {
      SquareRoots(v, root, u, p);
    }
  }

  lemma {:induction false} ZeroRoot(u: int, root: int, v: int, p: int)
    requires IsPrime(p) && 0 <= u < p && 0 <= root < p && Cong(u * u, v, p) && Cong(root * root, v, p)
    requires u == 0 || root == 0
    ensures u == root
  {
    var w := u + root;
    PrimeAtLeastTwo(p);
    hide *;
    CongSym(0, v, p);
    assert Cong(w * w, 0, p) by {
      CongTrans(w * w, v, 0, p);
    }
    EuclidsLemma(w, w, p);
    if w > 0 { UnitNotZero(w, p); }
  }

  /** `decodePoint`: returns the point the bytes stand for, and an error exactly when there is none. */
  method DecodePoint(c: Curve, buf: array<Byte>) returns (r: Result<Point, DecodeError>)
    requires ValidCurve(c)
    ensures c.f.p > 0
    ensures r.Ok? ==> Denotes(c, buf[..], r.value)
    ensures r.Ok? ==> forall P :: Denotes(c, buf[..], P) ==> P == r.value
    ensures r.Err? ==> forall P :: !Denotes(c, buf[..], P)
    ensures r == Err(BadLength) <==> buf.Length != 32
    ensures r != Err(DegenerateDenominator) && r != Err(NotOnCurve)
  {
    HalfOrder(c.f);
    hide Cong, Pow, Pow2, Base, LittleEndian, ValidRoots, IsSquare, OnCurve, Mod;
    var p := c.f.p;
    if buf.Length != 32 { return Err(BadLength); }
    var xNeg := buf[31] >= 128;
    var yBuf := new Byte[32](i requires 0 <= i < 32 reads buf => buf[i]);
    yBuf[31] := yBuf[31] % 128;
    assert yBuf[..] == buf[..][31 := buf[31] % 128];
    var y := LEBytesToBigint(yBuf);
    if y >= p { return Err(YOutOfField); }
    var ySq := (y * y) % p;
    CongMod(y * y, p);
    var num := Mod(ySq - 1, p);
    var den := Mod(c.d * ySq - (p - 1), p);
    NumDen(c, y, ySq, num, den);
    DenominatorNonzero(c, y);
    DenNotZero(den, c.d * (y * y) + 1, p);
    var inv := ModPow(den, p - 2, p);
    FermatInverse(den, c.f);
    InverseCarries(den, inv, Pow(den, p - 2), p);
    var xSq := Mod(num * inv, p);
    HeightEquation(c, y, ySq, num, den, inv, xSq);
    var root := SqrtFr(c.f, xSq);
    if root.None? {
      NoPoint(c, buf[..], y, xSq);
      return Err(NoSquareRoot);
    }
    var x := if IsLargest(c, root.value) != xNeg then Mod(-root.value, p) else root.value;
    ChosenRoot(c, root.value, xNeg, x, xSq);
    var P := Point(x, y);
    var on := IsOnCurve(c, P);
    if !on { assert false; }
    UniquePoint(c, buf[..], P, xSq);
    return Ok(P);
  }

  lemma DenNotZero(den: int, v: int, p: int)
    requires p > 0 && Cong(den, v, p) && !Cong(v, 0, p)
    ensures !Cong(den, 0, p) && den != 0
  {
  }

  lemma InverseCarries(den: int, inv: int, w: int, p: int)
    requires p > 0 && Cong(inv, w, p) && Cong(den * w, 1, p)
    ensures Cong(den * inv, 1, p)
  {
    CongScale(inv, w, den, p);
    CongTrans(den * inv, den * w, 1, p);
  }

  lemma NoPoint(c: Curve, s: seq<Byte>, y: int, xSq: int)
    requires c.f.p > 0 && |s| == 32 && y == YOf(s)
    requires forall x :: OnCurve(c, Point(x, y)) <==> Cong(x * x, xSq, c.f.p)
    requires !IsSquare(xSq, c.f.p)
    ensures forall P :: !Denotes(c, s, P)
  {
    forall P
      ensures !Denotes(c, s, P)
    {
      if Denotes(c, s, P) {
        SquareAtHeight(c, P, xSq);
      }
    }
  }

  lemma SquareAtHeight(c: Curve, P: Point, xSq: int)
    requires c.f.p > 0 && 0 <= P.x < c.f.p && OnCurve(c, P)
    requires forall x :: OnCurve(c, Point(x, P.y)) <==> Cong(x * x, xSq, c.f.p)
    ensures IsSquare(xSq, c.f.p)
  {
    assert P == Point(P.x, P.y);
  }

  lemma UniquePoint(c: Curve, s: seq<Byte>, P: Point, xSq: int)
    requires c.f.p > 0 && |s| == 32 && P.y == YOf(s)
    requires forall x :: OnCurve(c, Point(x, P.y)) <==> Cong(x * x, xSq, c.f.p)
    requires forall u :: SignedRoot(c, u, xSq, FlagOf(s)) ==> u == P.x
    ensures forall Q :: Denotes(c, s, Q) ==> Q == P
  {
    forall Q | Denotes(c, s, Q)
      ensures Q == P
    {
      assert Q == Point(Q.x, P.y);
      assert SignedRoot(c, Q.x, xSq, FlagOf(s));
    }
  }

  /** The bytes that `encodePoint` writes for a point of the curve stand for that point. */
  lemma EncodingDenotes(c: Curve, s: seq<Byte>, P: Point)
    requires ValidCurve(c) && Reduced(c, P) && OnCurve(c, P)
    requires |s| == 32 && YOf(s) == P.y && FlagOf(s) == IsLargest(c, P.x)
    ensures c.f.p > 0 && Denotes(c, s, P)
  {
    hide YOf, OnCurve;
  }

  /** decode(encode(P)) == P for every reduced point on the curve. */
  method EncodeThenDecode(c: Curve, P: Point) returns (r: Result<Point, DecodeError>)
    requires ValidCurve(c) && Reduced(c, P) && OnCurve(c, P)
    ensures r == Ok(P)
  {
    FieldFits(c);
    hide *;
    var bytes := EncodePoint(c, P);
    ghost var s := bytes.value[..];
    EncodingDenotes(c, s, P);
    r := DecodePoint(c, bytes.value);
    assert bytes.value[..] == s;
  }

  lemma FieldFits(c: Curve)
    requires ValidCurve(c)
    ensures 2 < c.f.p <= Base(32)
    ensures forall P :: Reduced(c, P) ==> 0 <= P.y < c.f.p
  {
    HalfOrder(c.f);
  }

  /** The other direction: bytes that decode to P are the encoding of P, unless x is 0 and the flag is set. */
  lemma {:induction false} CanonicalBytes(c: Curve, s: seq<Byte>, P: Point, t: seq<Byte>)
    requires c.f.p > 0 && Denotes(c, s, P)
    requires |t| == 32 && YOf(t) == P.y && FlagOf(t) == IsLargest(c, P.x)
    ensures s == t <==> !(P.x == 0 && FlagOf(s))
  {
    if FlagOf(s) == FlagOf(t) {
      CarriedValueDetermines(s, t);
    }
  }

  lemma {:induction false} ZeroBytes(s: seq<Byte>)
    requires forall i :: 0 <= i < |s| ==> s[i] == 0
    ensures LittleEndian(s) == 0
  {
    if s != [] { ZeroBytes(s[1..]); }
  }

  /** The low byte 1, zeros, and the flag: the bytes of (0, 1) with the sign bit set. */
  predicate FlaggedOne(s: seq<Byte>)
  {
    && |s| == 32 && s[0] == 1 && s[31] == 128
    && forall i :: 1 <= i < 31 ==> s[i] == 0
  }

  lemma FlaggedOneDenotes(c: Curve, s: seq<Byte>)
    requires c.f.p > 2 && FlaggedOne(s)
    ensures FlagOf(s) && Denotes(c, s, Point(0, 1))
  {
    var t := s[31 := s[31] % 128];
    ZeroBytes(t[1..]);
    assert LittleEndian(t) == t[0] + 256 * LittleEndian(t[1..]);
  }

  /** Those bytes decode to (0, 1), and encoding the point gives others. */
  method DecodeFlaggedOne(c: Curve) returns (s: seq<Byte>, P: Result<Point, DecodeError>, t: seq<Byte>)
    requires ValidCurve(c)
    ensures c.f.p > 0 && FlaggedOne(s) && Denotes(c, s, Point(0, 1)) && P == Ok(Point(0, 1))
    ensures |t| == 32 && YOf(t) == 1 && !FlagOf(t) && s != t
  {
    var buf := new Byte[32](i => if i == 0 then 1 else if i == 31 then 128 else 0);
    s := buf[..];
    assert FlaggedOne(s);
    FieldFits(c);
    ZeroIsSmall(c);
    hide *;
    FlaggedOneDenotes(c, s);
    P := DecodePoint(c, buf);
    var out := EncodePoint(c, Point(0, 1));
    t := out.value[..];
    CanonicalBytes(c, s, Point(0, 1), t);
  }

  lemma ZeroIsSmall(c: Curve)
    requires c.f.p > 0
    ensures !IsLargest(c, 0)
  {
  }
}
