/** The witness builders of the homomorphic poll: voter ballots and the creator's opening. */
module PollWitness {
  import opened Wrappers
  import opened ModArith
  import opened FieldRoots
  import opened MerklePath
  import opened MerkleTrees
  import opened Circuit
  import opened LedgerCircuits
  import opened Groups
  import opened ElGamal
  import opened HomomorphicTally
  import opened Witness

  datatype PollError = BadChoice | BadMaxChoices | BadProof | BadAggregates | TallyOutOfRange | NotDecryptable

  // ---- Ballots ------------------------------------------------------------------------------------

  /** The randomness the caller supplies for bin `j`, if any. */
  function Supplied(randomness: seq<Option<int>>, j: nat): Option<int>
  {
    if j < |randomness| then randomness[j] else None
  }

  /** The randomness of bin `j`: supplied, or derived from the voter's secret. */
  function BinRandomness(h: Hash, order: int, secret: int, pollId: int, randomness: seq<Option<int>>, j: nat): int
    requires order > 0
  {
    match Supplied(randomness, j)
    case Some(r) => r
    case None => Mod(h(h(secret, pollId), j), order)
  }

  /** The ciphertext of bin `j` of a vote for `choice`. */
  function BinCiphertext<G>(g: Group<G>, pk: G, choice: nat, r: int, j: nat): Ciphertext<G>
    requires g.order >= 1
  {
    Encrypted(g, pk, Mod(if j == choice then 1 else 0, g.order), Mod(r, g.order))
  }

  /** `A` and `B` hold the ciphertexts of the first `n` bins. */
  ghost predicate BinsBuilt<G>(g: Group<G>, pk: G, choice: nat, R: seq<int>, A: seq<G>, B: seq<G>, n: nat)
    requires g.order >= 1
  {
    && |A| == |B| == n <= |R|
    && forall j: nat :: j < n ==> Ciphertext(A[j], B[j]) == BinCiphertext(g, pk, choice, R[j], j)
  }

  method BuildRandomness(h: Hash, order: int, secret: int, pollId: int, randomness: seq<Option<int>>) returns (R: seq<int>)
    requires order > 0
    ensures |R| == Choices
    ensures forall j: nat :: j < Choices ==> R[j] == BinRandomness(h, order, secret, pollId, randomness, j)
  {
    R := [];
    for j := 0 to Choices
      invariant |R| == j
      invariant forall i: nat :: i < j ==> R[i] == BinRandomness(h, order, secret, pollId, randomness, i)
    {
      R := R + [BinRandomness(h, order, secret, pollId, randomness, j)];
    }
  }

  method BuildBins<G(==,!new)>(g: Group<G>, pk: G, choice: nat, R: seq<int>) returns (V: seq<int>, A: seq<G>, B: seq<G>)
    requires Abelian(g) && g.order >= 1 && choice < Choices && |R| == Choices
    ensures OneHotAt(V, choice) && |V| == Choices && BinsBuilt(g, pk, choice, R, A, B, Choices)
  {
    V := seq(Choices, i => 0);
    V := V[choice := 1];
    assert OneHotAt(V, choice);
    A, B := [], [];
    hide *;
    BinsStart(g, pk, choice, R);
    for j := 0 to Choices
      invariant |A| == |B| == j
      invariant BinsBuilt(g, pk, choice, R, A, B, j)
    {
      OneHotValue(V, choice, j);
      var ct := Encrypt(g, V[j], R[j], pk);
      BinsStep(g, pk, choice, R, A, B, j, ct);
      A, B := A + [ct.A], B + [ct.B];
    }
  }

  lemma BinsStart<G>(g: Group<G>, pk: G, choice: nat, R: seq<int>)
    requires g.order >= 1
    ensures BinsBuilt(g, pk, choice, R, [], [], 0)
  {
  }

  lemma BinsStep<G>(g: Group<G>, pk: G, choice: nat, R: seq<int>, A: seq<G>, B: seq<G>, j: nat, ct: Ciphertext<G>)
    requires g.order >= 1 && BinsBuilt(g, pk, choice, R, A, B, j) && j < |R|
    requires ct == Encrypted(g, pk, Mod(if j == choice then 1 else 0, g.order), Mod(R[j], g.order))
    ensures BinsBuilt(g, pk, choice, R, A + [ct.A], B + [ct.B], j + 1)
  {
    hide Encrypted, Mod;
  }

  lemma OneHotValue(V: seq<int>, choice: nat, j: nat)
    requires OneHotAt(V, choice) && j < |V|
    ensures V[j] == if j == choice then 1 else 0
  {
  }

  /** The witness of a ballot, once its bins are encrypted. */
  function BallotWitness<G>(p: int, h: Hash, root: int, pollId: int, secret: int, weight: int, maxChoices: int, pk: G,
                            V: seq<int>, R: seq<int>, A: seq<G>, B: seq<G>, proof: Proof): Ballot<G>
    requires p > 0
  {
    Ballot(Assigned(p, pollId), Assigned(p, root), Assigned(p, h(secret, pollId)), Assigned(p, maxChoices), pk, A, B,
           Assigned(p, secret), Assigned(p, weight), V, AllAssigned(p, R), proof.elements, proof.indices)
  }

  lemma {:induction false} SumOneHot(V: seq<int>, choice: nat, n: nat)
    requires OneHotAt(V, choice) && n <= |V|
    ensures Sum(V[..n]) == if choice < n then 1 else 0
  {
    if n > 0 {
      SumOneHot(V, choice, n - 1);
      assert V[..n][..n - 1] == V[..n - 1];
    }
  }

  lemma OneHotSatisfies(p: int, V: seq<int>, choice: nat)
    requires p > 0 && OneHotAt(V, choice)
    ensures OneHotConstraints(p, V)
  {
    SumOneHot(V, choice, |V|);
    assert V[..|V|] == V;
  }

  lemma {:induction false} RangeSatisfies(p: int, V: seq<int>, choice: nat, maxChoices: int)
    requires IsField(p) && OneHotAt(V, choice) && choice < maxChoices <= Choices
    ensures RangeConstraints(p, V, maxChoices)
  {
    PowersOfTwo();
    HasBitsIff(p, maxChoices, 4);
    forall j: nat | j < |V|
      ensures HasBits(p, Probe(p, V[j], maxChoices, j), 4)
    {
      SmallMod(0, p);
      var room := (maxChoices - (j + 1)) % p;
      if j == choice {
        SmallMod(maxChoices - (j + 1), p);
        SmallMod(room, p);
      }
      HasBitsIff(p, Probe(p, V[j], maxChoices, j), 4);
    }
  }

  /** A point of the subgroup takes a reduced scalar for a true one when the two agree modulo the order. */
  lemma ScalarsAgree<G(!new)>(g: Group<G>, k: nat, l: int, P: G)
    requires Abelian(g) && g.order >= 1 && Mul(g, g.order, P) == g.zero && Cong(k, l, g.order)
    ensures Mul(g, k, P) == Mul(g, Mod(l, g.order), P)
  {
    var m := Mod(l, g.order);
    assert Cong(m, l, g.order);
    SmallMod(m, g.order);
    assert k % g.order == m;
    hide Abelian, Mul, Mod;
    MulReduced(g, k, g.order, P);
  }

  /** The base tells scalars apart modulo the order. */
  lemma ScalarsDiffer<G(!new)>(g: Group<G>, k: nat, l: nat)
    requires IsCurve(g) && Mul(g, k, g.base) == Mul(g, l, g.base)
    ensures Cong(k, l, g.order)
  {
    hide *;
    OrderOfBase(g);
    if k <= l {
      LogDifference(g, k, l);
      CongIffMultiple(l, k, g.order);
      CongSym(l, k, g.order);
    } else {
      LogDifference(g, l, k);
      CongIffMultiple(k, l, g.order);
    }
  }

  /** A bin satisfies its ElGamal constraint exactly if its randomness survives the assignment modulo the group order. */
  lemma {:induction false} BinSatisfiedIff<G(!new)>(p: int, g: Group<G>, pk: G, ct: Ciphertext<G>, v: nat, r: int)
    requires p > 0 && IsCurve(g) && v < g.order && Mul(g, g.order, pk) == g.zero
    requires ct == Encrypted(g, pk, Mod(v, g.order), Mod(r, g.order))
    ensures BinEncrypted(g, pk, ct.A, ct.B, v, Assigned(p, r)) <==> Cong(Assigned(p, r), r, g.order)
  {
    var k, m := Assigned(p, r), Mod(r, g.order);
    assert k >= 0 && Cong(m, r, g.order);
    assert ct == Encrypted(g, pk, Mod(v, g.order), m);
    OrderOfBase(g);
    ModSmall(v, g.order);
    hide IsCurve, Abelian, Mul, Mod, Assigned, Cong;
    if Cong(k, r, g.order) {
      ScalarsAgree(g, k, r, g.base);
      ScalarsAgree(g, k, r, pk);
    }
    if BinEncrypted(g, pk, ct.A, ct.B, v, k) {
      ScalarsDiffer(g, k, m);
      CongTrans(k, m, r, g.order);
    }
  }

  /** The field size is assigned as 0, and being prime it is no multiple of the group order. */
  lemma FieldSizeIsLost(p: int, order: int)
    requires IsField(p) && 1 < order < p
    ensures Assigned(p, p) == 0 && !Cong(Assigned(p, p), p, order)
  {
    assert p % order != 0;
    CongIffMultiple(p, 0, order);
  }

  /** A bin encrypted with the field size as its randomness violates its constraint, whatever it encrypts. */
  lemma FieldSizeRandomnessFails<G(!new)>(p: int, g: Group<G>, pk: G, v: nat)
    requires IsField(p) && IsCurve(g) && v < g.order && 1 < g.order < p && Mul(g, g.order, pk) == g.zero
    ensures var ct := Encrypted(g, pk, Mod(v, g.order), Mod(p, g.order));
      !BinEncrypted(g, pk, ct.A, ct.B, v, Assigned(p, p))
  {
    FieldSizeIsLost(p, g.order);
    hide *;
    BinSatisfiedIff(p, g, pk, Encrypted(g, pk, Mod(v, g.order), Mod(p, g.order)), v, p);
  }

  /** Every random scalar is, modulo the group order, what its wire holds. */
  ghost predicate RandomnessFits(p: int, order: int, R: seq<int>)
    requires p > 0 && order > 0
  {
    forall j :: 0 <= j < |R| ==> Cong(Assigned(p, R[j]), R[j], order)
  }

  /** Scalars below the field size fit, and so do derived ones. */
  lemma SmallRandomnessFits(p: int, h: Hash, order: int, secret: int, pollId: int, randomness: seq<Option<int>>, R: seq<int>)
    requires 0 < order <= p && |R| == Choices
    requires forall j: nat :: j < Choices ==> R[j] == BinRandomness(h, order, secret, pollId, randomness, j)
    requires forall j: nat :: j < Choices && Supplied(randomness, j).Some? ==> Element(p, Supplied(randomness, j).value)
    ensures RandomnessFits(p, order, R)
  {
    hide Cong;
    forall j | 0 <= j < |R|
      ensures Cong(Assigned(p, R[j]), R[j], order)
    {
      AssignedElement(p, R[j]);
      CongRefl(R[j], order);
    }
  }

  lemma {:induction false} BinsSatisfyIff<G(!new)>(p: int, g: Group<G>, pk: G, choice: nat, V: seq<int>, R: seq<int>,
                                                   A: seq<G>, B: seq<G>, b: Ballot<G>)
    requires p > 0 && IsCurve(g) && g.order > 1 && Mul(g, g.order, pk) == g.zero
    requires OneHotAt(V, choice) && |V| == |R| == Choices && BinsBuilt(g, pk, choice, R, A, B, Choices)
    requires b.pk == pk && b.V == V && b.R == AllAssigned(p, R) && b.ctA == A && b.ctB == B
    requires forall j :: 0 <= j < Choices ==> b.V[j] >= 0 && b.R[j] >= 0
    ensures ElGamalConstraints(g, b, Choices) <==> RandomnessFits(p, g.order, R)
  {
    hide IsCurve, Mul, Mod, Assigned, Cong, BinEncrypted;
    forall j | 0 <= j < Choices
      ensures BinEncrypted(g, pk, A[j], B[j], V[j], b.R[j]) <==> Cong(Assigned(p, R[j]), R[j], g.order)
    {
      assert Ciphertext(A[j], B[j]) == BinCiphertext(g, pk, choice, R[j], j);
      BinSatisfiedIff(p, g, pk, Ciphertext(A[j], B[j]), V[j], R[j]);
    }
  }

  lemma BallotWitnessTyped<G>(p: int, h: Hash, root: int, pollId: int, secret: int, weight: int, maxChoices: int, pk: G,
                              V: seq<int>, R: seq<int>, A: seq<G>, B: seq<G>, proof: Proof, choice: nat)
    requires p > 1 && OneHotAt(V, choice) && |V| == |R| == |A| == |B| == Choices
    requires PathWires(p, proof.elements, proof.indices, 20)
    ensures WellTypedBallot(p, BallotWitness(p, h, root, pollId, secret, weight, maxChoices, pk, V, R, A, B, proof))
  {
    AllAssignedAreElements(p, R);
  }

  /** The constraints of the voter circuit on a built ballot, group by group. */
  lemma {:induction false} BallotSatisfiedIff<G(!new)>(
      p: int, g: Group<G>, tree: MerkleTree, voterIdx: nat, pollId: int, secret: int, weight: int, choice: nat,
      maxChoices: int, pk: G, V: seq<int>, R: seq<int>, A: seq<G>, B: seq<G>)
    requires IsField(p) && FieldHash(p, tree.h) && tree.Valid() && HasLeaf(p, tree, 20, voterIdx, secret, weight)
    requires IsCurve(g) && g.order > 1 && Mul(g, g.order, pk) == g.zero
    requires choice < maxChoices <= Choices
    requires OneHotAt(V, choice) && |V| == |R| == Choices && BinsBuilt(g, pk, choice, R, A, B, Choices)
    ensures var proof := AssignedProof(p, ProofOf(tree.h, tree.leaves, 20, voterIdx));
      var b := BallotWitness(p, tree.h, tree.root, pollId, secret, weight, maxChoices, pk, V, R, A, B, proof);
      WellTypedBallot(p, b) ==> (BallotSatisfied(p, g, tree.h, b) <==> RandomnessFits(p, g.order, R))
  {
    var h := tree.h;
    var proof := AssignedProof(p, ProofOf(h, tree.leaves, 20, voterIdx));
    var b := BallotWitness(p, h, tree.root, pollId, secret, weight, maxChoices, pk, V, R, A, B, proof);
    if WellTypedBallot(p, b) {
      FieldIsPositive(p);
      BallotShape(p, b);
      MaxChoicesAssigned(p, maxChoices);
      OneHotSatisfies(p, V, choice);
      RangeSatisfies(p, V, choice, maxChoices);
      BinsSatisfyIff(p, g, pk, choice, V, R, A, B, b);
      MemberLeads(p, tree, 20, voterIdx, secret, weight);
      HashAssigned(p, h, secret, pollId);
      hide IsField, FieldHash, IsCurve, OneHotConstraints, RangeConstraints, ElGamalConstraints, Fold, AllBoolean,
           WellTypedBallot, Assigned, AssignedProof, ProofOf, RandomnessFits, HasLeaf, BinsBuilt, OneHotAt, Mul;
    }
  }

  lemma BallotShape<G>(p: int, b: Ballot<G>)
    requires p > 0 && WellTypedBallot(p, b)
    ensures forall j :: 0 <= j < Choices ==> b.V[j] >= 0 && b.R[j] >= 0
  {
  }

  lemma MaxChoicesAssigned(p: int, maxChoices: int)
    requires IsField(p) && 0 <= maxChoices <= Choices
    ensures Assigned(p, maxChoices) == maxChoices
  {
    AssignedElement(p, maxChoices);
  }

  /**
   * `buildVoteCastHomomorphicWitness`. With the voter's leaf in the registry and a subgroup key the ballot satisfies the
   * voter circuit exactly if every random scalar survives its assignment modulo the group order, as scalars below the
   * field size and derived ones do.
   */
  method BuildBallot<G(==,!new)>(p: int, g: Group<G>, tree: MerkleTree, voterIdx: int, pollId: int, secret: int,
                                 weight: int, choice: int, maxChoices: int, pk: G, randomness: seq<Option<int>>)
      returns (r: Result<Ballot<G>, PollError>, ghost R: seq<int>)
    requires IsField(p) && FieldHash(p, tree.h) && tree.Valid() && IsCurve(g) && g.order > 1
    ensures r == Err(BadChoice) <==> choice < 0 || choice >= maxChoices
    ensures r == Err(BadMaxChoices) <==> 0 <= choice < maxChoices && maxChoices > Choices
    ensures r.Ok? ==> |R| == Choices && WellTypedBallot(p, r.value)
    ensures r.Ok? ==> OneHotAt(r.value.V, choice) && r.value.pk == pk && r.value.maxChoices == maxChoices
    ensures r.Ok? ==> r.value.nullifier == tree.h(secret, pollId) && r.value.root == Assigned(p, tree.root)
    ensures r.Ok? ==> r.value.secret == Assigned(p, secret) && r.value.weight == Assigned(p, weight)
    ensures r.Ok? ==> r.value.pollId == Assigned(p, pollId) && r.value.R == AllAssigned(p, R)
    ensures r.Ok? ==> BinsBuilt(g, pk, choice, R, r.value.ctA, r.value.ctB, Choices)
    ensures r.Ok? ==> forall j: nat :: j < Choices ==> R[j] == BinRandomness(tree.h, g.order, secret, pollId, randomness, j)
    ensures (HasLeaf(p, tree, 20, voterIdx, secret, weight) && Mul(g, g.order, pk) == g.zero
      && 0 <= choice < maxChoices <= Choices) ==>
      r.Ok? && (BallotSatisfied(p, g, tree.h, r.value) <==> RandomnessFits(p, g.order, R))
  {
    R := [];
    if choice < 0 || choice >= maxChoices { return Err(BadChoice), R; }
    if maxChoices < 1 || maxChoices > Choices { return Err(BadMaxChoices), R; }
    FieldIsPositive(p);
    MaxChoicesAssigned(p, maxChoices);
    OrderOfBase(g);
    hide IsField, FieldHash, IsCurve, Abelian, HasLeaf, PathWires, Assigned, BinsBuilt, RandomnessFits, WellTypedBallot,
         BallotSatisfied, Mul, OneHotAt, BinRandomness, AssignedProof, ProofOf;
    LeafFits(p, tree, 20, voterIdx, secret, weight);
    var proof := ProofFields(p, tree, voterIdx, 20);
    if proof.Err? { return Err(BadProof), R; }
    var R' := BuildRandomness(tree.h, g.order, secret, pollId, randomness);
    R := R';
    var V, A, B := BuildBins(g, pk, choice, R');
    BuiltShape(g, pk, choice, R', A, B);
    var b := BallotWitness(p, tree.h, tree.root, pollId, secret, weight, maxChoices, pk, V, R', A, B, proof.value);
    BallotWitnessTyped(p, tree.h, tree.root, pollId, secret, weight, maxChoices, pk, V, R', A, B, proof.value, choice);
    HashAssigned(p, tree.h, secret, pollId);
    if HasLeaf(p, tree, 20, voterIdx, secret, weight) && Mul(g, g.order, pk) == g.zero {
      BallotSatisfiedIff(p, g, tree, voterIdx, pollId, secret, weight, choice, maxChoices, pk, V, R', A, B);
    }
    r := Ok(b);
  }

  lemma BuiltShape<G>(g: Group<G>, pk: G, choice: nat, R: seq<int>, A: seq<G>, B: seq<G>)
    requires g.order >= 1 && BinsBuilt(g, pk, choice, R, A, B, Choices)
    ensures |A| == |B| == Choices
  {
  }

  // ---- The opening --------------------------------------------------------------------------------------

  /** Some tally up to the bound is the plaintext of `ct` under `sk`. */
  ghost predicate Decryptable<G>(g: Group<G>, ct: Ciphertext<G>, sk: nat, bound: nat)
  {
    exists t: nat :: t <= bound && DecryptsTo(g, ct, sk, t)
  }

  /** `decryptToBigInt`: like `decrypt`, but a negative bound still admits zero. */
  method DecryptToBigInt<G(==,!new)>(g: Group<G>, ct: Ciphertext<G>, sk: int, maxTally: int) returns (r: Option<nat>)
    requires Abelian(g) && g.order >= 1
    ensures var bound := if maxTally < 0 then 0 else maxTally;
      && (r.Some? <==> Decryptable(g, ct, Mod(sk, g.order), bound))
      && (r.Some? ==> r.value <= bound && DecryptsTo(g, ct, Mod(sk, g.order), r.value))
  {
    hide Abelian, Mul, Mod, DecryptsTo;
    var skA := ScalarMul(g, sk, ct.A);
    var M := g.add(ct.B, g.neg(skA));
    UnmaskedIsPlain(g, ct, Mod(sk, g.order), M);
    r := SmallLog(g, M, if maxTally < 0 then 0 else maxTally);
  }

  /** The tallies of all bins, by decryption. */
  method Recover<G(==,!new)>(g: Group<G>, aggregates: seq<Ciphertext<G>>, sk: int, maxTally: int)
      returns (r: Option<seq<int>>)
    requires Abelian(g) && g.order >= 1
    ensures var bound := if maxTally < 0 then 0 else maxTally;
      r.Some? <==> forall j :: 0 <= j < |aggregates| ==> Decryptable(g, aggregates[j], Mod(sk, g.order), bound)
    ensures r.Some? ==> |r.value| == |aggregates| && forall j :: 0 <= j < |aggregates| ==>
      r.value[j] >= 0 && DecryptsTo(g, aggregates[j], Mod(sk, g.order), r.value[j])
  {
    hide Abelian, Mul, Mod, DecryptsTo, Decryptable;
    var recovered := [];
    ghost var bound := if maxTally < 0 then 0 else maxTally;
    for j := 0 to |aggregates|
      invariant |recovered| == j
      invariant forall i :: 0 <= i < j ==> Decryptable(g, aggregates[i], Mod(sk, g.order), bound)
      invariant forall i :: 0 <= i < j ==> recovered[i] >= 0 && DecryptsTo(g, aggregates[i], Mod(sk, g.order), recovered[i])
    {
      var t := DecryptToBigInt(g, aggregates[j], sk, maxTally);
      if t.None? { return None; }
      recovered := recovered + [t.value];
    }
    r := Some(recovered);
  }

  predicate TalliesInRange(tallies: seq<int>)
  {
    forall j :: 0 <= j < |tallies| ==> 0 <= tallies[j] <= 0xffff
  }

  /** The caller's tallies count only when there is one for every bin. */
  predicate TalliesGiven(tallies: Option<seq<int>>)
  {
    tallies.Some? && |tallies.value| == Choices
  }

  /** Every published tally is the plaintext of its aggregate. */
  ghost predicate TalliesDecrypt<G>(g: Group<G>, aggregates: seq<Ciphertext<G>>, sk: nat, tallies: seq<int>)
  {
    && |tallies| == |aggregates|
    && forall j :: 0 <= j < |tallies| ==> tallies[j] >= 0 && DecryptsTo(g, aggregates[j], sk, tallies[j])
  }

  /** The opening that the witness assigns. */
  function OpeningWitness<G>(p: int, g: Group<G>, sk: int, aggregates: seq<Ciphertext<G>>, tallies: seq<int>): Opening<G>
    requires p > 0 && g.order >= 1
  {
    Opening(Mul(g, Mod(sk, g.order), g.base),
            seq(|aggregates|, j requires 0 <= j < |aggregates| => aggregates[j].A),
            seq(|aggregates|, j requires 0 <= j < |aggregates| => aggregates[j].B),
            AllAssigned(p, tallies), Assigned(p, sk))
  }

  lemma TalliesAssigned(p: int, tallies: seq<int>)
    requires IsField(p) && TalliesInRange(tallies)
    ensures AllAssigned(p, tallies) == tallies && Elements(p, tallies)
  {
    forall j | 0 <= j < |tallies|
      ensures AllAssigned(p, tallies)[j] == tallies[j] && Element(p, tallies[j])
    {
      AssignedElement(p, tallies[j]);
    }
  }

  lemma KeyAgrees<G(!new)>(p: int, g: Group<G>, sk: int)
    requires p > 0 && IsCurve(g)
    ensures g.order >= 1
    ensures Mul(g, Mod(sk, g.order), g.base) == Mul(g, Assigned(p, sk), g.base) <==> Cong(Assigned(p, sk), sk, g.order)
  {
    var k, m := Assigned(p, sk), Mod(sk, g.order);
    assert k >= 0 && Cong(m, sk, g.order);
    OrderOfBase(g);
    hide IsCurve, Abelian, Mul, Mod, Assigned, Cong;
    if Cong(k, sk, g.order) { ScalarsAgree(g, k, sk, g.base); }
    if Mul(g, m, g.base) == Mul(g, k, g.base) {
      ScalarsDiffer(g, k, m);
      CongTrans(k, m, sk, g.order);
    }
  }

  lemma SecretAgrees<G(!new)>(p: int, g: Group<G>, ct: Ciphertext<G>, sk: int, t: nat)
    requires p > 0 && IsCurve(g) && Cong(Assigned(p, sk), sk, g.order) && Mul(g, g.order, ct.A) == g.zero
    ensures DecryptsTo(g, ct, Assigned(p, sk), t) <==> DecryptsTo(g, ct, Mod(sk, g.order), t)
  {
    assert Assigned(p, sk) >= 0;
    OrderOfBase(g);
    hide IsCurve, Abelian, Mul, Mod, Assigned, Cong;
    ScalarsAgree(g, Assigned(p, sk), sk, ct.A);
  }

  /** All aggregates lie in the subgroup, as sums of encryptions do. */
  ghost predicate AggregatesInSubgroup<G>(g: Group<G>, aggregates: seq<Ciphertext<G>>)
  {
    forall j :: 0 <= j < |aggregates| ==> Mul(g, g.order, aggregates[j].A) == g.zero
  }

  lemma {:induction false} OpeningSatisfiedIff<G(!new)>(p: int, g: Group<G>, sk: int, aggregates: seq<Ciphertext<G>>,
                                                        tallies: seq<int>)
    requires IsField(p) && IsCurve(g) && |aggregates| == |tallies| == Choices && TalliesInRange(tallies)
    requires AggregatesInSubgroup(g, aggregates)
    ensures g.order >= 1
    ensures var o := OpeningWitness(p, g, sk, aggregates, tallies);
      && o.tallies == tallies && WellTypedOpening(p, o)
      && (OpeningSatisfied(p, g, o) <==>
           Cong(Assigned(p, sk), sk, g.order) && TalliesDecrypt(g, aggregates, Mod(sk, g.order), tallies))
  {
    FieldIsPositive(p);
    var o := OpeningWitness(p, g, sk, aggregates, tallies);
    BuiltOpeningShape(p, g, sk, aggregates, tallies);
    KeyAgrees(p, g, sk);
    hide IsField, IsCurve, Mul, Mod, Assigned, Cong, BinOpened, DecryptsTo, Elements, OpeningWitness, WellTypedOpening,
         AggregatesInSubgroup;
    hide TalliesDecrypt;
    if Cong(Assigned(p, sk), sk, g.order) {
      BinsOpenIff(p, g, sk, aggregates, tallies, o);
    }
  }

  /** With the field size as the key no opening satisfies the circuit, whatever the aggregates and the tallies. */
  lemma FieldSizeKeyFails<G(!new)>(p: int, g: Group<G>, aggregates: seq<Ciphertext<G>>, tallies: seq<int>)
    requires IsField(p) && IsCurve(g) && |aggregates| == |tallies| == Choices && TalliesInRange(tallies)
    requires AggregatesInSubgroup(g, aggregates) && 1 < g.order < p
    ensures !OpeningSatisfied(p, g, OpeningWitness(p, g, p, aggregates, tallies))
  {
    FieldSizeIsLost(p, g.order);
    hide *;
    OpeningSatisfiedIff(p, g, p, aggregates, tallies);
  }

  lemma {:induction false} BinsOpenIff<G(!new)>(p: int, g: Group<G>, sk: int, aggregates: seq<Ciphertext<G>>,
                                                tallies: seq<int>, o: Opening<G>)
    requires IsField(p) && IsCurve(g) && g.order >= 1 && |aggregates| == |tallies| == Choices && TalliesInRange(tallies)
    requires AggregatesInSubgroup(g, aggregates) && Cong(Assigned(p, sk), sk, g.order)
    requires o.tallies == tallies && WellTypedOpening(p, o) && o.sk == Assigned(p, sk) && |o.A| == |o.B| == Choices
    requires forall j :: 0 <= j < Choices ==> Ciphertext(o.A[j], o.B[j]) == aggregates[j]
    ensures (forall j: nat :: j < Choices ==> BinOpened(p, g, o, j))
      <==> TalliesDecrypt(g, aggregates, Mod(sk, g.order), tallies)
  {
    FieldIsPositive(p);
    assert o.sk >= 0;
    hide IsField, IsCurve, Mul, Mod, Assigned, Cong, BinOpened, DecryptsTo, WellTypedOpening, AggregatesInSubgroup;
    forall j: nat | j < Choices
      ensures BinOpened(p, g, o, j) <==> tallies[j] >= 0 && DecryptsTo(g, aggregates[j], Mod(sk, g.order), tallies[j])
    {
      BinOpenedIff(p, g, o, j);
      InSubgroup(g, aggregates, j);
      SecretAgrees(p, g, aggregates[j], sk, tallies[j]);
    }
  }

  lemma InSubgroup<G>(g: Group<G>, aggregates: seq<Ciphertext<G>>, j: nat)
    requires AggregatesInSubgroup(g, aggregates) && j < |aggregates|
    ensures Mul(g, g.order, aggregates[j].A) == g.zero
  {
  }

  lemma BuiltOpeningShape<G>(p: int, g: Group<G>, sk: int, aggregates: seq<Ciphertext<G>>, tallies: seq<int>)
    requires IsField(p) && g.order >= 1 && |aggregates| == |tallies| == Choices && TalliesInRange(tallies)
    ensures var o := OpeningWitness(p, g, sk, aggregates, tallies);
      && o.tallies == tallies && WellTypedOpening(p, o) && o.sk == Assigned(p, sk) && o.sk >= 0
      && o.pk == Mul(g, Mod(sk, g.order), g.base) && |o.A| == |o.B| == Choices
      && forall j :: 0 <= j < Choices ==> Ciphertext(o.A[j], o.B[j]) == aggregates[j]
  {
    TalliesAssigned(p, tallies);
    AssignedIsElement(p, sk);
  }

  lemma BinOpenedIff<G>(p: int, g: Group<G>, o: Opening<G>, j: nat)
    requires IsField(p) && WellTypedOpening(p, o) && j < Choices && o.tallies[j] <= 0xffff
    ensures BinOpened(p, g, o, j) <==> DecryptsTo(g, Ciphertext(o.A[j], o.B[j]), o.sk, o.tallies[j])
  {
    PowersOfTwo();
    HasBitsIff(p, o.tallies[j], TallyBits);
    hide DecryptsTo, HasBits, Pow, IsPrime;
  }

  /**
   * `buildTallyDecryptWitness`. The opening satisfies the decrypt circuit exactly if the secret key survives its
   * assignment modulo the group order and the tallies are the plaintexts, as recovered ones always are.
   */
  method BuildOpening<G(==,!new)>(p: int, g: Group<G>, sk: int, aggregates: seq<Ciphertext<G>>, tallies: Option<seq<int>>,
                                  maxTally: int) returns (r: Result<Opening<G>, PollError>)
    requires IsField(p) && IsCurve(g)
    ensures r == Err(BadAggregates) <==> |aggregates| != Choices
    ensures r == Err(NotDecryptable) <==> |aggregates| == Choices && !TalliesGiven(tallies) && exists j ::
      0 <= j < Choices && !Decryptable(g, aggregates[j], Mod(sk, g.order), if maxTally < 0 then 0 else maxTally)
    ensures |aggregates| == Choices && TalliesGiven(tallies) ==> (r.Ok? <==> TalliesInRange(tallies.value))
    ensures r.Ok? ==> |r.value.tallies| == Choices && TalliesInRange(r.value.tallies)
    ensures r.Ok? ==> r.value == OpeningWitness(p, g, sk, aggregates, r.value.tallies)
    ensures r.Ok? && TalliesGiven(tallies) ==> r.value.tallies == tallies.value
    ensures r.Ok? && !TalliesGiven(tallies) ==> TalliesDecrypt(g, aggregates, Mod(sk, g.order), r.value.tallies)
    ensures r.Ok? && AggregatesInSubgroup(g, aggregates) ==>
      && WellTypedOpening(p, r.value)
      && (OpeningSatisfied(p, g, r.value) <==>
           Cong(Assigned(p, sk), sk, g.order) && TalliesDecrypt(g, aggregates, Mod(sk, g.order), r.value.tallies))
  {
    FieldIsPositive(p);
    OrderOfBase(g);
    hide *;
    if |aggregates| != Choices { return Err(BadAggregates); }
    var found := FindTallies(g, sk, aggregates, tallies, maxTally);
    if found.Err? { return Err(found.error); }
    var recovered := found.value;
    var o := OpeningWitness(p, g, sk, aggregates, recovered);
    OpeningTallies(p, g, sk, aggregates, recovered);
    if AggregatesInSubgroup(g, aggregates) { OpeningSatisfiedIff(p, g, sk, aggregates, recovered); }
    return Ok(o);
  }

  /** The given tallies, or the recovered ones, checked against the range of the circuit. */
  method FindTallies<G(==,!new)>(g: Group<G>, sk: int, aggregates: seq<Ciphertext<G>>, tallies: Option<seq<int>>, maxTally: int)
      returns (r: Result<seq<int>, PollError>)
    requires Abelian(g) && g.order >= 1 && |aggregates| == Choices
    ensures r != Err(BadAggregates)
    ensures r == Err(NotDecryptable) <==> !TalliesGiven(tallies) && exists j ::
      0 <= j < Choices && !Decryptable(g, aggregates[j], Mod(sk, g.order), if maxTally < 0 then 0 else maxTally)
    ensures TalliesGiven(tallies) ==> (r.Ok? <==> TalliesInRange(tallies.value))
    ensures r.Ok? ==> |r.value| == Choices && TalliesInRange(r.value)
    ensures r.Ok? && TalliesGiven(tallies) ==> r.value == tallies.value
    ensures r.Ok? && !TalliesGiven(tallies) ==> TalliesDecrypt(g, aggregates, Mod(sk, g.order), r.value)
  {
    var recovered: seq<int>;
    hide Abelian, Mod, Decryptable, DecryptsTo;
    if tallies.Some? && |tallies.value| == Choices {
      recovered := tallies.value;
    } else {
      var found := Recover(g, aggregates, sk, maxTally);
      if found.None? { return Err(NotDecryptable); }
      recovered := found.value;
    }
    for j := 0 to |recovered|
      invariant TalliesInRange(recovered[..j])
    {
      if recovered[j] < 0 || recovered[j] > 0xffff { return Err(TallyOutOfRange); }
    }
    assert recovered[..|recovered|] == recovered;
    return Ok(recovered);
  }

  lemma OpeningTallies<G(!new)>(p: int, g: Group<G>, sk: int, aggregates: seq<Ciphertext<G>>, tallies: seq<int>)
    requires IsField(p) && IsCurve(g) && TalliesInRange(tallies)
    ensures OpeningWitness(p, g, sk, aggregates, tallies).tallies == tallies
  {
    TalliesAssigned(p, tallies);
  }
}
