/** Exponential ElGamal of prover/pedersen.go and public/pedersen.js over the abstract curve group. */
module ElGamal {
  import opened Wrappers
  import opened ModArith
  import opened FieldRoots
  import opened Groups

  datatype Ciphertext<!G> = Ciphertext(A: G, B: G)

  datatype DecryptError = NegativeBound | TallyExceedsRange

  /** `scalarMul`: double-and-add on the scalar reduced modulo the subgroup order. */
  method ScalarMul<G(==,!new)>(g: Group<G>, k: int, P: G) returns (R: G)
    requires Abelian(g) && g.order >= 1
    ensures R == Mul(g, Mod(k, g.order), P)
  {
    hide Abelian, Mul;
    var n := Mod(k, g.order);
    MulStep(g, 0, P);
    if n == 0 { return g.zero; }
    R := g.zero;
    var A := P;
    ghost var goal := Mul(g, n, P);
    Zero(g, goal);
    while n > 0
      invariant n >= 0
      invariant g.add(R, Mul(g, n, A)) == goal
    {
      DoubleAndAdd(g, n, R, A);
      if n % 2 == 1 {
        R := g.add(R, A);
      }
      A := g.add(A, A);
      n := n / 2;
    }
    MulStep(g, 0, A);
    Zero(g, R);
  }

  lemma {:induction false} DoubleAndAdd<G(!new)>(g: Group<G>, n: nat, R: G, A: G)
    requires Abelian(g)
    ensures g.add(if n % 2 == 1 then g.add(R, A) else R, Mul(g, n / 2, g.add(A, A))) == g.add(R, Mul(g, n, A))
  {
    hide Abelian, Mul;
    var h := n / 2;
    MulOfSum(g, h, A, A);
    MulAdd(g, h, h, A);
    if n % 2 == 1 {
      MulStep(g, h + h, A);
      Assoc(g, R, A, Mul(g, h + h, A));
    }
  }

  /** For a point whose order divides the subgroup order the reduction is invisible. */
  lemma ScalarIsTrue<G(!new)>(g: Group<G>, k: nat, P: G)
    requires Abelian(g) && g.order >= 1 && Mul(g, g.order, P) == g.zero
    ensures Mul(g, Mod(k, g.order), P) == Mul(g, k, P)
  {
    hide Abelian, Mul;
    MulReduced(g, k, g.order, P);
    SmallMod(k % g.order, g.order);
  }

  /** The ciphertext of `v` with randomness `r` under `pk`. */
  function Encrypted<G>(g: Group<G>, pk: G, v: nat, r: nat): Ciphertext<G>
  {
    Ciphertext(Mul(g, r, g.base), g.add(Mul(g, v, g.base), Mul(g, r, pk)))
  }

  /** `encrypt`. */
  method Encrypt<G(==,!new)>(g: Group<G>, v: int, r: int, pk: G) returns (ct: Ciphertext<G>)
    requires Abelian(g) && g.order >= 1
    ensures ct == Encrypted(g, pk, Mod(v, g.order), Mod(r, g.order))
  {
    hide Abelian, Mul;
    var vRed, rRed := Mod(v, g.order), Mod(r, g.order);
    ReducedTwice(v, g.order);
    ReducedTwice(r, g.order);
    var A := ScalarMul(g, rRed, g.base);
    var gv := ScalarMul(g, vRed, g.base);
    var pkr := ScalarMul(g, rRed, pk);
    ct := Ciphertext(A, g.add(gv, pkr));
  }

  lemma ModSmall(x: int, m: int)
    requires 0 <= x < m
    ensures Mod(x, m) == x
  {
    SmallMod(x, m);
  }

  lemma ReducedTwice(x: int, m: int)
    requires m > 0
    ensures Mod(Mod(x, m), m) == Mod(x, m)
  {
    SmallMod(Mod(x, m), m);
  }

  function SumA<G>(g: Group<G>, cts: seq<Ciphertext<G>>): G
  {
    if cts == [] then g.zero else g.add(SumA(g, cts[..|cts| - 1]), cts[|cts| - 1].A)
  }

  function SumB<G>(g: Group<G>, cts: seq<Ciphertext<G>>): G
  {
    if cts == [] then g.zero else g.add(SumB(g, cts[..|cts| - 1]), cts[|cts| - 1].B)
  }

  /** `aggregate`: the component-wise sum. */
  method Aggregate<G(==)>(g: Group<G>, cts: seq<Ciphertext<G>>) returns (ct: Ciphertext<G>)
    ensures ct == Ciphertext(SumA(g, cts), SumB(g, cts))
  {
    var A, B := g.zero, g.zero;
    for i := 0 to |cts|
      invariant A == SumA(g, cts[..i]) && B == SumB(g, cts[..i])
    {
      assert cts[..i + 1][..i] == cts[..i];
      A := g.add(A, cts[i].A);
      B := g.add(B, cts[i].B);
    }
    assert cts[..|cts|] == cts;
    ct := Ciphertext(A, B);
  }

  function Total(xs: seq<nat>): nat
  {
    if xs == [] then 0 else Total(xs[..|xs| - 1]) + xs[|xs| - 1]
  }

  /** The aggregate of encryptions is an encryption of the sum, with the sum of the randomness. */
  lemma {:induction false} AggregateEncryptsSum<G(!new)>(g: Group<G>, pk: G, cts: seq<Ciphertext<G>>,
                                                         vs: seq<nat>, rs: seq<nat>)
    requires Abelian(g) && |cts| == |vs| == |rs|
    requires forall i :: 0 <= i < |cts| ==> cts[i] == Encrypted(g, pk, vs[i], rs[i])
    ensures Ciphertext(SumA(g, cts), SumB(g, cts)) == Encrypted(g, pk, Total(vs), Total(rs))
  {
    hide Abelian, Mul;
    if cts == [] {
      MulStep(g, 0, g.base);
      MulStep(g, 0, pk);
      Zero(g, g.zero);
    } else {
      var n := |cts| - 1;
      AggregateEncryptsSum(g, pk, cts[..n], vs[..n], rs[..n]);
      var V, R, v, r := Total(vs[..n]), Total(rs[..n]), vs[n], rs[n];
      MulAdd(g, R, r, g.base);
      MulAdd(g, V, v, g.base);
      MulAdd(g, R, r, pk);
      Swap(g, Mul(g, V, g.base), Mul(g, R, pk), Mul(g, v, g.base), Mul(g, r, pk));
    }
  }

  /** `t` is the plaintext that `sk` recovers from `ct`: B = t G + sk A. */
  ghost predicate DecryptsTo<G>(g: Group<G>, ct: Ciphertext<G>, sk: nat, t: nat)
  {
    ct.B == g.add(Mul(g, t, g.base), Mul(g, sk, ct.A))
  }

  lemma MaskRemoved<G(!new)>(g: Group<G>, P: G, Q: G, B: G)
    requires Abelian(g)
    ensures B == g.add(P, Q) <==> g.add(B, g.neg(Q)) == P
  {
    hide Abelian;
    Assoc(g, P, Q, g.neg(Q));
    Zero(g, Q);
    Zero(g, P);
    Assoc(g, B, g.neg(Q), Q);
    Comm(g, g.neg(Q), Q);
    Zero(g, B);
  }

  /** In the subgroup the reduction of the key is invisible. */
  lemma ReducedKeyDecrypts<G(!new)>(g: Group<G>, ct: Ciphertext<G>, sk: nat, t: nat)
    requires Abelian(g) && g.order >= 1 && Mul(g, g.order, ct.A) == g.zero
    ensures DecryptsTo(g, ct, Mod(sk, g.order), t) <==> DecryptsTo(g, ct, sk, t)
  {
    ScalarIsTrue(g, sk, ct.A);
    hide Abelian, Mul, Mod;
  }

  /**
   * `decrypt`: the smallest tally in [0, maxTally] that the ciphertext decrypts to under the reduced key, and an error
   * exactly when there is none.
   */
  method Decrypt<G(==,!new)>(g: Group<G>, ct: Ciphertext<G>, sk: int, maxTally: int) returns (r: Result<nat, DecryptError>)
    requires Abelian(g) && g.order >= 1
    ensures r == Err(NegativeBound) <==> maxTally < 0
    ensures r.Ok? ==> r.value <= maxTally && DecryptsTo(g, ct, Mod(sk, g.order), r.value)
    ensures r.Ok? ==> forall t: nat :: t < r.value ==> !DecryptsTo(g, ct, Mod(sk, g.order), t)
    ensures r == Err(TallyExceedsRange) ==> forall t: nat :: t <= maxTally ==> !DecryptsTo(g, ct, Mod(sk, g.order), t)
  {
    hide *;
    if maxTally < 0 { return Err(NegativeBound); }
    var skA := ScalarMul(g, sk, ct.A);
    var M := g.add(ct.B, g.neg(skA));
    UnmaskedIsPlain(g, ct, Mod(sk, g.order), M);
    var found := SmallLog(g, M, maxTally);
    r := if found.Some? then Ok(found.value) else Err(TallyExceedsRange);
  }

  /** The search of `decrypt`: the smallest t in [0, maxTally] with t G = M. */
  method SmallLog<G(==,!new)>(g: Group<G>, M: G, maxTally: nat) returns (r: Option<nat>)
    requires Abelian(g)
    ensures r.Some? ==> r.value <= maxTally && Mul(g, r.value, g.base) == M
    ensures r.Some? ==> forall t: nat :: t < r.value ==> Mul(g, t, g.base) != M
    ensures r.None? ==> forall t: nat :: t <= maxTally ==> Mul(g, t, g.base) != M
  {
    hide Abelian, Mul;
    MulStep(g, 0, g.base);
    if M == g.zero { return Some(0); }
    var probe := g.zero;
    var t := 1;
    while t <= maxTally
      invariant 1 <= t <= maxTally + 1
      invariant probe == Mul(g, t - 1, g.base)
      invariant forall u: nat :: u < t ==> Mul(g, u, g.base) != M
    {
      MulStep(g, t - 1, g.base);
      Comm(g, probe, g.base);
      probe := g.add(probe, g.base);
      if probe == M { return Some(t); }
      t := t + 1;
    }
    return None;
  }

  lemma UnmaskedIsPlain<G(!new)>(g: Group<G>, ct: Ciphertext<G>, sk: nat, M: G)
    requires Abelian(g) && M == g.add(ct.B, g.neg(Mul(g, sk, ct.A)))
    ensures forall t: nat :: DecryptsTo(g, ct, sk, t) <==> M == Mul(g, t, g.base)
  {
    hide Abelian, Mul;
    forall t: nat
      ensures DecryptsTo(g, ct, sk, t) <==> M == Mul(g, t, g.base)
    {
      MaskRemoved(g, Mul(g, t, g.base), Mul(g, sk, ct.A), ct.B);
    }
  }

  /** Below the group order a ciphertext has one plaintext at most. */
  lemma PlaintextUnique<G(!new)>(g: Group<G>, ct: Ciphertext<G>, sk: nat, t: nat, u: nat)
    requires IsCurve(g) && DecryptsTo(g, ct, sk, t) && DecryptsTo(g, ct, sk, u)
    requires t < g.order && u < g.order
    ensures t == u
  {
    CancelAdd(g, Mul(g, t, g.base), Mul(g, u, g.base), Mul(g, sk, ct.A));
    SmallLogs(g, t, u);
  }

  /** An encryption under the public key of `sk` decrypts to what was encrypted. */
  lemma EncryptedDecrypts<G(!new)>(g: Group<G>, sk: nat, v: nat, r: nat)
    requires IsCurve(g)
    ensures DecryptsTo(g, Encrypted(g, Mul(g, sk, g.base), v, r), sk, v)
    ensures Mul(g, g.order, Encrypted(g, Mul(g, sk, g.base), v, r).A) == g.zero
  {
    MulSwap(g, r, sk, g.base);
    BaseMultiple(g, r);
  }

  /** decrypt(encrypt(v)) == v for every plaintext within the search bound, which stays below the group order. */
  method EncryptThenDecrypt<G(==,!new)>(g: Group<G>, sk: nat, v: nat, rnd: int, maxTally: int)
      returns (r: Result<nat, DecryptError>)
    requires IsCurve(g) && v <= maxTally < g.order
    ensures r == Ok(v)
  {
    hide *;
    OrderOfBase(g);
    var pk := ScalarMul(g, sk, g.base);
    ScalarIsTrue(g, sk, g.base);
    var ct := Encrypt(g, v, rnd, pk);
    ModSmall(v, g.order);
    EncryptedDecrypts(g, sk, v, Mod(rnd, g.order));
    r := Decrypt(g, ct, sk, maxTally);
    ReducedKeyDecrypts(g, ct, sk, v);
    match r {
      case Ok(t) => PlaintextUnique(g, ct, Mod(sk, g.order), t, v);
      case Err(NegativeBound) =>
      case Err(TallyExceedsRange) =>
    }
  }
}
