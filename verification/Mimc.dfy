/** The MiMC hash of public/mimc.js: Feistel rounds x^5 with any sequence of round constants. */
module Mimc {
  import opened ModArith
  import opened FieldRoots
  import opened MerklePath
  import opened Circuit

  /** `addmod` and `mulmod` use the JavaScript remainder, which keeps the sign of the dividend. */
  function AddMod(a: int, b: int, p: int): int
    requires p > 0
  {
    TruncatedRem(a + b, p)
  }

  function MulMod(a: int, b: int, p: int): int
    requires p > 0
  {
    TruncatedRem(a * b, p)
  }

  function Pow5(x: int, p: int): int
    requires p > 0
  {
    var x2 := MulMod(x, x, p);
    var x4 := MulMod(x2, x2, p);
    MulMod(x4, x, p)
  }

  /** One round of `mimcEncrypt`. */
  function Round(m: int, k: int, c: int, p: int): int
    requires p > 0
  {
    var tmp := AddMod(AddMod(m, k, p), c, p);
    Pow5(if tmp < 0 then tmp + p else tmp, p)
  }

  function Rounds(m: int, k: int, constants: seq<int>, p: int): int
    requires p > 0
    decreases constants
  {
    if constants == [] then m else Rounds(Round(m, k, constants[0], p), k, constants[1..], p)
  }

  /** The same computation on residues. */
  function FieldRounds(m: int, k: int, constants: seq<int>, p: int): int
    requires p > 0
    decreases constants
  {
    if constants == [] then m % p
    else FieldRounds(Pow((m + k + constants[0]) % p, 5) % p, k, constants[1..], p)
  }

  /** Miyaguchi-Preneel over two blocks, on residues. */
  function FieldMimc(a: int, b: int, constants: seq<int>, p: int): int
    requires p > 0
  {
    var h1 := Block(a, 0, constants, p);
    Block(b, h1, constants, p)
  }

  function Block(data: int, h: int, constants: seq<int>, p: int): (r: int)
    requires p > 0
    ensures 0 <= r < p
  {
    (FieldRounds(data, h, constants, p) + h + h + data) % p
  }

  lemma {:induction false} RemCong(a: int, p: int)
    requires p > 0
    ensures Cong(TruncatedRem(a, p), a, p)
    ensures a >= 0 ==> 0 <= TruncatedRem(a, p) < p
    ensures -p < TruncatedRem(a, p) < p
  {
    ModRepresents(a, p);
  }

  lemma {:induction false} Pow5Cong(x: int, p: int)
    requires p > 0 && 0 <= x
    ensures 0 <= Pow5(x, p) < p && Cong(Pow5(x, p), Pow(x, 5), p)
  {
    var x2 := MulMod(x, x, p);
    var x4 := MulMod(x2, x2, p);
    RemCong(x * x, p);
    RemCong(x2 * x2, p);
    RemCong(x4 * x, p);
    Nonneg(x, x);
    Nonneg(x2, x2);
    Nonneg(x4, x);
    FifthPower(x);
    hide Cong, TruncatedRem, Pow;
    CongMul(x2, x * x, x2, x * x, p);
    CongTrans(x4, x2 * x2, (x * x) * (x * x), p);
    CongScale(x4, (x * x) * (x * x), x, p);
    CongTrans(Pow5(x, p), x4 * x, Pow(x, 5), p);
  }

  lemma Nonneg(a: int, b: int)
    requires a >= 0 && b >= 0
    ensures a * b >= 0
  {
  }

  lemma FifthPower(x: int)
    ensures Pow(x, 5) == (x * x) * (x * x) * x
  {
    PowStep(x, 0);
    PowStep(x, 1);
    PowAdd(x, 2, 2);
    PowAdd(x, 4, 1);
  }

  /** A round on any representative is the round on residues. */
  lemma {:induction false} RoundIsFieldRound(m: int, k: int, c: int, p: int)
    requires p > 0
    ensures Round(m, k, c, p) == Pow((m + k + c) % p, 5) % p
  {
    var inner := AddMod(m, k, p);
    var tmp := AddMod(inner, c, p);
    var x := if tmp < 0 then tmp + p else tmp;
    RemCong(m + k, p);
    RemCong(inner + c, p);
    CongFromMultiple(tmp + p, tmp, 1, p);
    CongReduce(m + k + c, p);
    CongReduce(Pow((m + k + c) % p, 5), p);
    Pow5Cong(x, p);
    hide Cong, TruncatedRem, Pow, Pow5;
    CongRefl(c, p);
    CongAdd(inner, m + k, c, c, p);
    CongTrans(tmp, inner + c, m + k + c, p);
    CongTrans(x, tmp, m + k + c, p) by { CongRefl(tmp, p); }
    CongSym((m + k + c) % p, m + k + c, p);
    CongTrans(x, m + k + c, (m + k + c) % p, p);
    CongSmall(x, (m + k + c) % p, p);
    CongSym(Pow(x, 5) % p, Pow(x, 5), p);
    CongTrans(Pow5(x, p), Pow(x, 5), Pow(x, 5) % p, p);
    CongSmall(Pow5(x, p), Pow(x, 5) % p, p);
  }

  /** `mimcEncrypt`. */
  method MimcEncrypt(m0: int, k: int, constants: seq<int>, p: int) returns (r: int)
    requires p > 0
    ensures Cong(r, FieldRounds(m0, k, constants, p) + k, p) && -p < r < p
  {
    var m := m0;
    for i := 0 to |constants|
      invariant i == 0 ==> m == m0
      invariant i > 0 ==> 0 <= m < p
      invariant FieldRounds(m, k, constants[i..], p) == FieldRounds(m0, k, constants, p)
    {
      var tmp := AddMod(AddMod(m, k, p), constants[i], p);
      if tmp < 0 { tmp := tmp + p; }
      RoundIsFieldRound(m, k, constants[i], p);
      CongReduce(Pow((m + k + constants[i]) % p, 5), p);
      assert constants[i..][1..] == constants[i + 1..];
      m := Pow5(tmp, p);
    }
    assert constants[|constants|..] == [];
    RemCong(m + k, p);
    CongReduce(m, p);
    r := AddMod(m, k, p);
    FinalAdd(r, m, k, FieldRounds(m0, k, constants, p), p);
  }

  lemma FinalAdd(r: int, m: int, k: int, f: int, p: int)
    requires p > 0 && Cong(r, m + k, p) && f == m % p
    ensures Cong(r, f + k, p)
  {
    CongReduce(m, p);
    hide Cong;
    CongSym(f, m, p);
    CongRefl(k, p);
    CongAdd(m, f, k, k, p);
    CongTrans(r, m + k, f + k, p);
  }

  /** `mimcHash` of two inputs. */
  method MimcHash(a: int, b: int, constants: seq<int>, p: int) returns (h: int)
    requires p > 0
    ensures h == FieldMimc(a, b, constants, p)
  {
    h := 0;
    var inputs := [a, b];
    for i := 0 to 2
      invariant i == 0 ==> h == 0
      invariant i == 1 ==> h == Block(a, 0, constants, p)
      invariant i == 2 ==> h == FieldMimc(a, b, constants, p)
    {
      var data := inputs[i];
      var r := MimcEncrypt(data, h, constants, p);
      ghost var f := FieldRounds(data, h, constants, p);
      var inner := AddMod(r, h, p);
      var next := AddMod(inner, data, p);
      AbsorbBlock(r, h, data, inner, next, f, p);
      h := if next < 0 then next + p else next;
    }
  }

  lemma {:induction false} AbsorbBlock(r: int, h: int, data: int, inner: int, next: int, f: int, p: int)
    requires p > 0 && Cong(r, f + h, p) && inner == AddMod(r, h, p) && next == AddMod(inner, data, p)
    ensures (if next < 0 then next + p else next) == (f + h + h + data) % p
  {
    var h' := if next < 0 then next + p else next;
    var s := f + h + h + data;
    RemCong(r + h, p);
    RemCong(inner + data, p);
    CongReduce(s, p);
    CongFromMultiple(next + p, next, 1, p);
    hide Cong, TruncatedRem;
    CongRefl(h, p);
    CongRefl(data, p);
    CongAdd(r, f + h, h, h, p);
    CongTrans(inner, r + h, f + h + h, p);
    CongAdd(inner, f + h + h, data, data, p);
    CongTrans(next, inner + data, s, p);
    CongRefl(next, p);
    CongTrans(h', next, s, p);
    CongSym(s % p, s, p);
    CongTrans(h', s, s % p, p);
    CongSmall(h', s % p, p);
  }

  /** FieldRounds sees its message and key only through their residues. */
  lemma {:induction false} RoundsOnResidues(m: int, m': int, k: int, k': int, constants: seq<int>, p: int)
    requires p > 0 && Cong(m, m', p) && Cong(k, k', p)
    ensures FieldRounds(m, k, constants, p) == FieldRounds(m', k', constants, p)
    decreases constants
  {
    if constants != [] {
      var c := constants[0];
      CongAdd(m, m', k, k', p);
      CongAdd(m + k, m' + k', c, c, p);
      assert (m + k + c) % p == (m' + k' + c) % p;
      var x := Pow((m + k + c) % p, 5) % p;
      RoundsOnResidues(x, x, k, k', constants[1..], p);
    }
  }

  lemma {:induction false} BlockOnResidues(data: int, data': int, h: int, constants: seq<int>, p: int)
    requires p > 0 && Cong(data, data', p)
    ensures Block(data, h, constants, p) == Block(data', h, constants, p)
  {
    RoundsOnResidues(data, data', h, h, constants, p);
    var s := FieldRounds(data, h, constants, p) + h + h;
    CongRefl(s, p);
    CongAdd(s, s, data, data', p);
  }

  function MimcOf(constants: seq<int>, p: int): Hash
    requires p > 0
  {
    (a, b) => FieldMimc(a, b, constants, p)
  }

  lemma {:induction false} MimcOnResidues(a: int, b: int, c: int, d: int, constants: seq<int>, p: int)
    requires p > 0 && Cong(a, c, p) && Cong(b, d, p)
    ensures FieldMimc(a, b, constants, p) == FieldMimc(c, d, constants, p)
  {
    hide Cong, Block;
    BlockOnResidues(a, c, 0, constants, p);
    BlockOnResidues(b, d, Block(a, 0, constants, p), constants, p);
  }

  lemma MimcInField(a: int, b: int, constants: seq<int>, p: int)
    requires p > 0
    ensures 0 <= FieldMimc(a, b, constants, p) < p
  {
    hide Block;
  }

  /** mimcHash is a field hash: its value is in [0, P) and depends on the residues of its inputs alone. */
  lemma MimcIsFieldHash(constants: seq<int>, p: int)
    requires p > 0
    ensures FieldHash(p, MimcOf(constants, p))
  {
    hide FieldMimc, Cong;
    forall a, b
      ensures 0 <= FieldMimc(a, b, constants, p) < p
    {
      MimcInField(a, b, constants, p);
    }
    forall a, b, c, d | Cong(a, c, p) && Cong(b, d, p)
      ensures FieldMimc(a, b, constants, p) == FieldMimc(c, d, constants, p)
    {
      MimcOnResidues(a, b, c, d, constants, p);
    }
  }
}
