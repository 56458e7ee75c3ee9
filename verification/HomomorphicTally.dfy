/** The homomorphic poll: voter circuit, aggregation, decrypt circuit, and the theorem that joins them. */
module HomomorphicTally {
  import opened Wrappers
  import opened ModArith
  import opened FieldRoots
  import opened MerklePath
  import opened Circuit
  import opened Groups
  import opened ElGamal

  const Choices: nat := 8
  const Depth: nat := 20
  const TallyBits: nat := 16

  /** Assignment of VoteCastHomomorphicCircuit_8. */
  datatype Ballot<!G> = Ballot(
    pollId: int, root: int, nullifier: int, maxChoices: int, pk: G, ctA: seq<G>, ctB: seq<G>,
    secret: int, weight: int, V: seq<int>, R: seq<int>, pathElements: seq<int>, pathIndices: seq<int>)

  /** Assignment of TallyDecryptCircuit_8. */
  datatype Opening<!G> = Opening(pk: G, A: seq<G>, B: seq<G>, tallies: seq<int>, sk: int)

  /** The wires of a ballot are field elements, in the numbers the circuit declares. */
  ghost predicate WellTypedBallot<G>(p: int, b: Ballot<G>)
  {
    && Element(p, b.pollId) && Element(p, b.root) && Element(p, b.nullifier) && Element(p, b.maxChoices)
    && Element(p, b.secret) && Element(p, b.weight)
    && |b.V| == |b.R| == |b.ctA| == |b.ctB| == Choices && Elements(p, b.V) && Elements(p, b.R)
    && |b.pathElements| == |b.pathIndices| == Depth && Elements(p, b.pathElements) && Elements(p, b.pathIndices)
  }

  /** MaxChoices - (j+1), masked by V[j]: the value that must fit in four bits. */
  function Probe(p: int, v: int, maxChoices: int, j: nat): int
    requires p > 0
  {
    (v * ((maxChoices - (j + 1)) % p)) % p
  }

  ghost predicate OneHotConstraints(p: int, V: seq<int>)
    requires p > 0
  {
    AllBoolean(V) && Cong(Sum(V), 1, p)
  }

  ghost predicate RangeConstraints(p: int, V: seq<int>, maxChoices: int)
    requires p > 0
  {
    HasBits(p, maxChoices, 4) && forall j: nat :: j < |V| ==> HasBits(p, Probe(p, V[j], maxChoices, j), 4)
  }

  ghost predicate BinEncrypted<G>(g: Group<G>, pk: G, A: G, B: G, v: int, r: int)
    requires v >= 0 && r >= 0
  {
    Ciphertext(A, B) == Encrypted(g, pk, v, r)
  }

  ghost predicate ElGamalConstraints<G>(g: Group<G>, b: Ballot<G>, n: nat)
    requires n <= |b.V| == |b.R| == |b.ctA| == |b.ctB|
    requires forall j :: 0 <= j < |b.V| ==> b.V[j] >= 0 && b.R[j] >= 0
  {
    forall j :: 0 <= j < n ==> BinEncrypted(g, b.pk, b.ctA[j], b.ctB[j], b.V[j], b.R[j])
  }

  /** The five groups of constraints of the voter circuit. */
  ghost predicate BallotSatisfied<G>(p: int, g: Group<G>, h: Hash, b: Ballot<G>)
    requires p > 0 && WellTypedBallot(p, b)
  {
    && OneHotConstraints(p, b.V)
    && RangeConstraints(p, b.V, b.maxChoices)
    && ElGamalConstraints(g, b, Choices)
    && AllBoolean(b.pathIndices)
    && Fold(h, h(b.secret, b.weight), b.pathElements, b.pathIndices) == b.root
    && b.nullifier == h(b.secret, b.pollId)
  }

  method AssertPointEqual<G(==)>(api: Api, P: G, Q: G)
    modifies api`ok
    ensures api.ok == (old(api.ok) && P == Q)
  {
    api.ok := api.ok && P == Q;
  }

  method OneHot(api: Api, V: seq<int>)
    requires IsPrime(api.p) && api.p > 1 && Elements(api.p, V)
    modifies api`ok
    ensures api.ok == (old(api.ok) && OneHotConstraints(api.p, V))
  {
    var sumV := 0;
    for j := 0 to |V|
      invariant Element(api.p, sumV) && Cong(sumV, Sum(V[..j]), api.p)
      invariant api.ok == (old(api.ok) && AllBoolean(V[..j]))
    {
      assert V[..j + 1][..j] == V[..j];
      assert AllBoolean(V[..j + 1]) <==> AllBoolean(V[..j]) && (V[j] == 0 || V[j] == 1);
      api.AssertIsBoolean(V[j]);
      ghost var before := sumV;
      CongRefl(V[j], api.p);
      CongAdd(sumV, Sum(V[..j]), V[j], V[j], api.p);
      CongMod(sumV + V[j], api.p);
      sumV := api.Add(sumV, V[j]);
      CongTrans(sumV, before + V[j], Sum(V[..j + 1]), api.p);
    }
    assert V[..|V|] == V;
    SumIsOne(sumV, Sum(V), api.p);
    api.AssertIsEqual(sumV, 1);
  }

  lemma SumIsOne(a: int, s: int, p: int)
    requires p > 1 && Element(p, a) && Cong(a, s, p)
    ensures a == 1 <==> Cong(s, 1, p)
  {
    if Cong(s, 1, p) {
      CongTrans(a, s, 1, p);
      CongSmall(a, 1, p);
    }
    if a == 1 { CongSym(a, s, p); }
  }

  method RangeBound(api: Api, V: seq<int>, maxChoices: int)
    requires IsField(api.p) && Element(api.p, maxChoices)
    modifies api`ok
    ensures api.ok == (old(api.ok) && RangeConstraints(api.p, V, maxChoices))
  {
    PowersOfTwo();
    var maxBits := api.ToBinary(maxChoices, 4);
    var recomposed := api.FromBinary(maxBits);
    if maxChoices < 16 { SmallMod(maxChoices, api.p); }
    api.AssertIsEqual(maxChoices, recomposed);
    for j := 0 to |V|
      invariant api.ok == (old(api.ok) && HasBits(api.p, maxChoices, 4)
        && forall i: nat :: i < j ==> HasBits(api.p, Probe(api.p, V[i], maxChoices, i), 4))
    {
      var room := api.Sub(maxChoices, j + 1);
      var probe := api.Mul(V[j], room);
      assert probe == Probe(api.p, V[j], maxChoices, j);
      var _ := api.ToBinary(probe, 4);
    }
  }

  method ElGamalBinding<G(==)>(api: Api, g: Group<G>, b: Ballot<G>)
    requires |b.V| == |b.R| == |b.ctA| == |b.ctB|
    requires forall j :: 0 <= j < |b.V| ==> b.V[j] >= 0 && b.R[j] >= 0
    modifies api`ok
    ensures api.ok == (old(api.ok) && ElGamalConstraints(g, b, |b.V|))
  {
    for j := 0 to |b.V|
      invariant api.ok == (old(api.ok) && ElGamalConstraints(g, b, j))
    {
      var expectedA := Mul(g, b.R[j], g.base);
      AssertPointEqual(api, expectedA, b.ctA[j]);
      var gV := Mul(g, b.V[j], g.base);
      var pkR := Mul(g, b.R[j], b.pk);
      var expectedB := g.add(gV, pkR);
      AssertPointEqual(api, expectedB, b.ctB[j]);
      assert BinEncrypted(g, b.pk, b.ctA[j], b.ctB[j], b.V[j], b.R[j])
        <==> expectedA == b.ctA[j] && expectedB == b.ctB[j];
    }
  }

  /** `VoteCastHomomorphicCircuit_8.Define`. */
  method DefineBallot<G(==)>(api: Api, g: Group<G>, h: Hash, b: Ballot<G>)
    requires IsField(api.p) && FieldHash(api.p, h) && WellTypedBallot(api.p, b)
    modifies api`ok
    ensures api.ok == (old(api.ok) && BallotSatisfied(api.p, g, h, b))
  {
    OneHot(api, b.V);
    RangeBound(api, b.V, b.maxChoices);
    ElGamalBinding(api, g, b);
    var leaf := h(b.secret, b.weight);
    var current := api.FoldPath(h, leaf, b.pathElements, b.pathIndices);
    api.AssertIsEqual(current, b.root);
    var expectedNullifier := h(b.secret, b.pollId);
    api.AssertIsEqual(b.nullifier, expectedNullifier);
  }

  // ---- What a satisfied ballot is -----------------------------------------------------------------

  /** `V` is 1 at `bin` and 0 elsewhere. */
  ghost predicate OneHotAt(V: seq<int>, bin: nat)
  {
    bin < |V| && forall j :: 0 <= j < |V| ==> V[j] == if j == bin then 1 else 0
  }

  lemma {:induction false} SumBooleans(V: seq<int>)
    requires AllBoolean(V)
    ensures 0 <= Sum(V) <= |V|
    ensures Sum(V) == 0 ==> forall j :: 0 <= j < |V| ==> V[j] == 0
  {
    if V != [] {
      SumBooleans(V[..|V| - 1]);
      assert forall j :: 0 <= j < |V| - 1 ==> V[j] == V[..|V| - 1][j];
    }
  }

  lemma {:induction false} SumOneIsOneHot(V: seq<int>) returns (bin: nat)
    requires AllBoolean(V) && Sum(V) == 1
    ensures OneHotAt(V, bin)
  {
    var n := |V| - 1;
    SumBooleans(V[..n]);
    if V[n] == 1 {
      bin := n;
    } else {
      bin := SumOneIsOneHot(V[..n]);
    }
    assert forall j :: 0 <= j < n ==> V[j] == V[..n][j];
  }

  lemma {:induction false} BinBelowMaxChoices(p: int, V: seq<int>, maxChoices: int, bin: nat)
    requires IsField(p) && Element(p, maxChoices) && OneHotAt(V, bin) && |V| == Choices
    requires RangeConstraints(p, V, maxChoices)
    ensures bin < maxChoices < 16
  {
    PowersOfTwo();
    HasBitsIff(p, maxChoices, 4);
    var probe := Probe(p, V[bin], maxChoices, bin);
    assert HasBits(p, probe, 4);
    HasBitsIff(p, probe, 4);
    var d := maxChoices - (bin + 1);
    SmallMod(d % p, p);
    assert probe == d % p;
    if d < 0 {
      QuotientUnique(-1, d + p, p);
    }
  }

  /** Ballot soundness: a satisfied ballot has one marked bin, below MaxChoices. */
  lemma {:induction false} SatisfiedBallotIsOneHot<G>(p: int, g: Group<G>, h: Hash, b: Ballot<G>) returns (bin: nat)
    requires IsField(p) && WellTypedBallot(p, b) && BallotSatisfied(p, g, h, b)
    ensures OneHotAt(b.V, bin) && bin < b.maxChoices < 16
  {
    SumBooleans(b.V);
    CongSmall(Sum(b.V), 1, p);
    bin := SumOneIsOneHot(b.V);
    BinBelowMaxChoices(p, b.V, b.maxChoices, bin);
  }

  // ---- Aggregation ---------------------------------------------------------------------------------

  ghost predicate PollOf<G(!new)>(p: int, g: Group<G>, h: Hash, ballots: seq<Ballot<G>>, pk: G, maxChoices: int)
    requires p > 0
  {
    forall i :: 0 <= i < |ballots| ==>
      var b := ballots[i];
      WellTypedBallot(p, b) && b.pk == pk && b.maxChoices == maxChoices && BallotSatisfied(p, g, h, b)
  }

  /** The ciphertexts of bin `j`, one per ballot. */
  function BinOf<G>(ballots: seq<Ballot<G>>, j: nat): seq<Ciphertext<G>>
    requires forall i :: 0 <= i < |ballots| ==> j < |ballots[i].ctA| == |ballots[i].ctB|
  {
    seq(|ballots|, i requires 0 <= i < |ballots| => Ciphertext(ballots[i].ctA[j], ballots[i].ctB[j]))
  }

  /** How many ballots mark bin `j`. */
  function Votes<G>(ballots: seq<Ballot<G>>, j: nat): nat
  {
    if ballots == [] then 0
    else
      var b := ballots[|ballots| - 1];
      Votes(ballots[..|ballots| - 1], j) + if j < |b.V| && b.V[j] == 1 then 1 else 0
  }

  function Marks<G>(ballots: seq<Ballot<G>>, j: nat): seq<nat>
    requires forall i :: 0 <= i < |ballots| ==> j < |ballots[i].V| && ballots[i].V[j] >= 0
  {
    seq(|ballots|, i requires 0 <= i < |ballots| => ballots[i].V[j])
  }

  function Randomness<G>(ballots: seq<Ballot<G>>, j: nat): seq<nat>
    requires forall i :: 0 <= i < |ballots| ==> j < |ballots[i].R| && ballots[i].R[j] >= 0
  {
    seq(|ballots|, i requires 0 <= i < |ballots| => ballots[i].R[j])
  }

  lemma {:induction false} MarksTotal<G>(ballots: seq<Ballot<G>>, j: nat)
    requires forall i :: 0 <= i < |ballots| ==> j < |ballots[i].V| && (ballots[i].V[j] == 0 || ballots[i].V[j] == 1)
    ensures Total(Marks(ballots, j)) == Votes(ballots, j) <= |ballots|
  {
    if ballots != [] {
      MarksTotal(ballots[..|ballots| - 1], j);
      assert Marks(ballots, j)[..|ballots| - 1] == Marks(ballots[..|ballots| - 1], j);
    }
  }

  /** The aggregate of a bin encrypts the number of ballots that mark it. */
  lemma {:induction false} BinAggregate<G(!new)>(p: int, g: Group<G>, h: Hash, ballots: seq<Ballot<G>>, pk: G,
                                                 maxChoices: int, j: nat) returns (r: nat)
    requires p > 0 && Abelian(g) && PollOf(p, g, h, ballots, pk, maxChoices) && j < Choices
    ensures Ciphertext(SumA(g, BinOf(ballots, j)), SumB(g, BinOf(ballots, j)))
         == Encrypted(g, pk, Votes(ballots, j), r)
    ensures Votes(ballots, j) <= |ballots|
  {
    hide Abelian, Encrypted, OneHotConstraints, RangeConstraints;
    forall i | 0 <= i < |ballots|
      ensures BinOf(ballots, j)[i] == Encrypted(g, pk, ballots[i].V[j], ballots[i].R[j])
      ensures ballots[i].V[j] == 0 || ballots[i].V[j] == 1
    {
      MarksAreBoolean(p, g, h, ballots[i]);
      assert BinEncrypted(g, ballots[i].pk, ballots[i].ctA[j], ballots[i].ctB[j], ballots[i].V[j], ballots[i].R[j]);
    }
    AggregateEncryptsSum(g, pk, BinOf(ballots, j), Marks(ballots, j), Randomness(ballots, j));
    MarksTotal(ballots, j);
    r := Total(Randomness(ballots, j));
  }

  lemma MarksAreBoolean<G>(p: int, g: Group<G>, h: Hash, b: Ballot<G>)
    requires p > 0 && WellTypedBallot(p, b) && BallotSatisfied(p, g, h, b)
    ensures AllBoolean(b.V)
  {
  }

  /** `aggregateCiphertextsHex` on decoded points: the bins are summed vote by vote; a malformed vote is an error. */
  method AggregateBins<G(==)>(g: Group<G>, votes: seq<seq<Ciphertext<G>>>) returns (r: Option<seq<Ciphertext<G>>>)
    ensures r.Some? <==> forall i :: 0 <= i < |votes| ==> |votes[i]| == Choices
    ensures r.Some? ==> |r.value| == Choices && forall j :: 0 <= j < Choices ==>
      r.value[j] == Ciphertext(SumA(g, Column(votes, j)), SumB(g, Column(votes, j)))
  {
    var aggA := seq(Choices, i => g.zero);
    var aggB := seq(Choices, i => g.zero);
    for i := 0 to |votes|
      invariant forall k :: 0 <= k < i ==> |votes[k]| == Choices
      invariant BinSums(g, votes[..i], aggA, aggB)
    {
      if |votes[i]| != Choices { return None; }
      aggA, aggB := AddVote(g, votes[i], aggA, aggB, votes[..i]);
      assert votes[..i + 1] == votes[..i] + [votes[i]];
    }
    assert votes[..|votes|] == votes;
    r := Some(seq(Choices, j requires 0 <= j < Choices => Ciphertext(aggA[j], aggB[j])));
  }

  ghost predicate BinSums<G>(g: Group<G>, votes: seq<seq<Ciphertext<G>>>, aggA: seq<G>, aggB: seq<G>)
  {
    && (forall k :: 0 <= k < |votes| ==> |votes[k]| == Choices)
    && |aggA| == |aggB| == Choices
    && forall j :: 0 <= j < Choices ==> aggA[j] == SumA(g, Column(votes, j)) && aggB[j] == SumB(g, Column(votes, j))
  }

  method AddVote<G>(g: Group<G>, vote: seq<Ciphertext<G>>, aggA0: seq<G>, aggB0: seq<G>, ghost before: seq<seq<Ciphertext<G>>>)
      returns (aggA: seq<G>, aggB: seq<G>)
    requires |vote| == Choices && BinSums(g, before, aggA0, aggB0)
    ensures BinSums(g, before + [vote], aggA, aggB)
  {
    aggA, aggB := aggA0, aggB0;
    for j := 0 to Choices
      invariant |aggA| == |aggB| == Choices
      invariant forall k :: 0 <= k < j ==> aggA[k] == g.add(aggA0[k], vote[k].A) && aggB[k] == g.add(aggB0[k], vote[k].B)
      invariant forall k :: j <= k < Choices ==> aggA[k] == aggA0[k] && aggB[k] == aggB0[k]
    {
      aggA := aggA[j := g.add(aggA[j], vote[j].A)];
      aggB := aggB[j := g.add(aggB[j], vote[j].B)];
    }
    forall j | 0 <= j < Choices
      ensures aggA[j] == SumA(g, Column(before + [vote], j)) && aggB[j] == SumB(g, Column(before + [vote], j))
    {
      assert Column(before + [vote], j)[..|before|] == Column(before, j);
    }
  }

  function Column<G>(votes: seq<seq<Ciphertext<G>>>, j: nat): seq<Ciphertext<G>>
    requires forall i :: 0 <= i < |votes| ==> j < |votes[i]|
  {
    seq(|votes|, i requires 0 <= i < |votes| => votes[i][j])
  }

  /** The ciphertext list a voter submits. */
  function Submitted<G>(b: Ballot<G>): seq<Ciphertext<G>>
    requires |b.ctA| == |b.ctB|
  {
    seq(|b.ctA|, j requires 0 <= j < |b.ctA| => Ciphertext(b.ctA[j], b.ctB[j]))
  }

  /** What AggregateBins sums for bin `j` are the ciphertexts of that bin. */
  lemma ColumnIsBin<G>(ballots: seq<Ballot<G>>, votes: seq<seq<Ciphertext<G>>>, j: nat)
    requires forall i :: 0 <= i < |ballots| ==> j < |ballots[i].ctA| == |ballots[i].ctB|
    requires |votes| == |ballots| && forall i :: 0 <= i < |ballots| ==> votes[i] == Submitted(ballots[i])
    requires forall i :: 0 <= i < |votes| ==> j < |votes[i]|
    ensures Column(votes, j) == BinOf(ballots, j)
  {
    forall i | 0 <= i < |ballots|
      ensures Column(votes, j)[i] == BinOf(ballots, j)[i]
    {
    }
  }

  // ---- The decrypt circuit ------------------------------------------------------------------------------

  ghost predicate WellTypedOpening<G>(p: int, o: Opening<G>)
  {
    |o.A| == |o.B| == |o.tallies| == Choices && Elements(p, o.tallies) && Element(p, o.sk)
  }

  ghost predicate BinOpened<G>(p: int, g: Group<G>, o: Opening<G>, j: nat)
    requires p > 0 && WellTypedOpening(p, o) && j < Choices
  {
    HasBits(p, o.tallies[j], TallyBits) && DecryptsTo(g, Ciphertext(o.A[j], o.B[j]), o.sk, o.tallies[j])
  }

  ghost predicate OpeningSatisfied<G>(p: int, g: Group<G>, o: Opening<G>)
    requires p > 0 && WellTypedOpening(p, o)
  {
    o.pk == Mul(g, o.sk, g.base) && forall j: nat :: j < Choices ==> BinOpened(p, g, o, j)
  }

  /** `TallyDecryptCircuit_8.Define`. */
  method DefineOpening<G(==)>(api: Api, g: Group<G>, o: Opening<G>)
    requires IsField(api.p) && WellTypedOpening(api.p, o)
    modifies api`ok
    ensures api.ok == (old(api.ok) && OpeningSatisfied(api.p, g, o))
  {
    PowersOfTwo();
    var expectedPk := Mul(g, o.sk, g.base);
    AssertPointEqual(api, expectedPk, o.pk);
    for j := 0 to Choices
      invariant api.ok == (old(api.ok) && o.pk == expectedPk && forall i: nat :: i < j ==> BinOpened(api.p, g, o, i))
    {
      var _ := api.ToBinary(o.tallies[j], TallyBits);
      var gTally := Mul(g, o.tallies[j], g.base);
      var skA := Mul(g, o.sk, o.A[j]);
      var expectedB := g.add(gTally, skA);
      AssertPointEqual(api, expectedB, o.B[j]);
      assert BinOpened(api.p, g, o, j) <==> HasBits(api.p, o.tallies[j], TallyBits) && expectedB == o.B[j];
    }
  }

  // ---- End to end ----------------------------------------------------------------------------------------

  /** The opening is of the aggregates of `ballots`. */
  ghost predicate OpensAggregates<G(!new)>(g: Group<G>, ballots: seq<Ballot<G>>, o: Opening<G>)
    requires forall i :: 0 <= i < |ballots| ==> |ballots[i].ctA| == |ballots[i].ctB| == Choices
    requires |o.A| == |o.B| == Choices
  {
    forall j :: 0 <= j < Choices ==>
      o.A[j] == SumA(g, BinOf(ballots, j)) && o.B[j] == SumB(g, BinOf(ballots, j))
  }

  /** The aggregate of a bin decrypts, under the key behind `pk`, to the number of ballots that mark it. */
  lemma AggregateDecryptsToVotes<G(!new)>(p: int, g: Group<G>, h: Hash, ballots: seq<Ballot<G>>, sk: nat,
                                          maxChoices: int, j: nat)
    requires p > 0 && IsCurve(g) && PollOf(p, g, h, ballots, Mul(g, sk, g.base), maxChoices) && j < Choices
    ensures var ct := Ciphertext(SumA(g, BinOf(ballots, j)), SumB(g, BinOf(ballots, j)));
      DecryptsTo(g, ct, sk, Votes(ballots, j)) && Mul(g, g.order, ct.A) == g.zero
    ensures Votes(ballots, j) <= |ballots|
  {
    var r := BinAggregate(p, g, h, ballots, Mul(g, sk, g.base), maxChoices, j);
    EncryptedDecrypts(g, sk, Votes(ballots, j), r);
  }

  lemma {:induction false} NoVotesBeyondMax<G(!new)>(p: int, g: Group<G>, h: Hash, ballots: seq<Ballot<G>>, pk: G,
                                                     maxChoices: int, j: nat)
    requires IsField(p) && PollOf(p, g, h, ballots, pk, maxChoices) && maxChoices <= j
    ensures Votes(ballots, j) == 0
  {
    if ballots != [] {
      NoVotesBeyondMax(p, g, h, ballots[..|ballots| - 1], pk, maxChoices, j);
      var bin := SatisfiedBallotIsOneHot(p, g, h, ballots[|ballots| - 1]);
    }
  }

  function VotesSum<G>(ballots: seq<Ballot<G>>, n: nat): nat
  {
    if n == 0 then 0 else VotesSum(ballots, n - 1) + Votes(ballots, n - 1)
  }

  lemma {:induction false} OneMoreBallot<G>(ballots: seq<Ballot<G>>, n: nat, bin: nat)
    requires ballots != [] && OneHotAt(ballots[|ballots| - 1].V, bin) && n <= |ballots[|ballots| - 1].V|
    ensures VotesSum(ballots, n) == VotesSum(ballots[..|ballots| - 1], n) + if bin < n then 1 else 0
  {
    if n > 0 { OneMoreBallot(ballots, n - 1, bin); }
  }

  lemma {:induction false} NoBallots<G>(ballots: seq<Ballot<G>>, n: nat)
    requires ballots == []
    ensures VotesSum(ballots, n) == 0
  {
    if n > 0 { NoBallots(ballots, n - 1); }
  }

  /** Every ballot marks exactly one bin. */
  lemma {:induction false} EveryBallotCounts<G(!new)>(p: int, g: Group<G>, h: Hash, ballots: seq<Ballot<G>>, pk: G,
                                                      maxChoices: int)
    requires IsField(p) && PollOf(p, g, h, ballots, pk, maxChoices)
    ensures VotesSum(ballots, Choices) == |ballots|
  {
    if ballots == [] {
      NoBallots(ballots, Choices);
    } else {
      EveryBallotCounts(p, g, h, ballots[..|ballots| - 1], pk, maxChoices);
      var bin := SatisfiedBallotIsOneHot(p, g, h, ballots[|ballots| - 1]);
      OneMoreBallot(ballots, Choices, bin);
    }
  }

  /** The decrypt circuit leaves the creator no choice: each published tally is the number of ballots for the bin. */
  lemma {:induction false} TallyIsVotes<G(!new)>(p: int, g: Group<G>, h: Hash, ballots: seq<Ballot<G>>,
                                                 maxChoices: int, o: Opening<G>, j: nat)
    requires IsField(p) && IsCurve(g) && g.order >= 65536 && |ballots| < g.order && j < Choices
    requires PollOf(p, g, h, ballots, o.pk, maxChoices)
    requires WellTypedOpening(p, o) && OpeningSatisfied(p, g, o) && OpensAggregates(g, ballots, o)
    ensures o.tallies[j] == Votes(ballots, j)
  {
    AggregateDecryptsToVotes(p, g, h, ballots, o.sk, maxChoices, j);
    assert BinOpened(p, g, o, j);
    PowersOfTwo();
    HasBitsIff(p, o.tallies[j], TallyBits);
    PlaintextUnique(g, Ciphertext(o.A[j], o.B[j]), o.sk, o.tallies[j], Votes(ballots, j));
  }

  lemma {:induction false} TalliesSum<G(!new)>(p: int, g: Group<G>, h: Hash, ballots: seq<Ballot<G>>,
                                               maxChoices: int, o: Opening<G>, n: nat)
    requires IsField(p) && IsCurve(g) && g.order >= 65536 && |ballots| < g.order && n <= Choices
    requires PollOf(p, g, h, ballots, o.pk, maxChoices)
    requires WellTypedOpening(p, o) && OpeningSatisfied(p, g, o) && OpensAggregates(g, ballots, o)
    ensures Sum(o.tallies[..n]) == VotesSum(ballots, n)
  {
    if n > 0 {
      TalliesSum(p, g, h, ballots, maxChoices, o, n - 1);
      TallyIsVotes(p, g, h, ballots, maxChoices, o, n - 1);
      assert o.tallies[..n][..n - 1] == o.tallies[..n - 1];
    }
  }

  /**
   * Main theorem: for any list of fewer than `order` ballots of one poll, each satisfying the voter circuit, a tally
   * vector that satisfies the decrypt circuit on the aggregates counts the ballots of every bin, is zero from MaxChoices
   * on, and sums to the number of ballots.
   */
  lemma HomomorphicTallyIsCorrect<G(!new)>(p: int, g: Group<G>, h: Hash, ballots: seq<Ballot<G>>,
                                           maxChoices: int, o: Opening<G>)
    requires IsField(p) && IsCurve(g) && g.order >= 65536 && |ballots| < g.order
    requires PollOf(p, g, h, ballots, o.pk, maxChoices)
    requires WellTypedOpening(p, o) && OpeningSatisfied(p, g, o) && OpensAggregates(g, ballots, o)
    ensures forall j: nat :: j < Choices ==> o.tallies[j] == Votes(ballots, j)
    ensures forall j: nat :: maxChoices <= j < Choices ==> o.tallies[j] == 0
    ensures Sum(o.tallies) == |ballots|
  {
    OpeningShape(p, o);
    hide *;
    forall j: nat | j < Choices
      ensures o.tallies[j] == Votes(ballots, j)
      ensures maxChoices <= j ==> o.tallies[j] == 0
    {
      TallyIsVotes(p, g, h, ballots, maxChoices, o, j);
      if maxChoices <= j { NoVotesBeyondMax(p, g, h, ballots, o.pk, maxChoices, j); }
    }
    TalliesSum(p, g, h, ballots, maxChoices, o, Choices);
    assert o.tallies[..Choices] == o.tallies;
    EveryBallotCounts(p, g, h, ballots, o.pk, maxChoices);
  }

  lemma OpeningShape<G>(p: int, o: Opening<G>)
    requires WellTypedOpening(p, o)
    ensures |o.A| == |o.B| == |o.tallies| == Choices
  {
  }

  /** Aggregating a bin and decrypting it returns the number of ballots for it, if the search bound reaches that far. */
  method AggregateAndDecrypt<G(==,!new)>(ghost p: int, g: Group<G>, ghost h: Hash, ballots: seq<Ballot<G>>,
                                         ghost maxChoices: int, j: nat, sk: nat, maxTally: nat)
      returns (r: Result<nat, DecryptError>)
    requires p > 0 && IsCurve(g) && j < Choices && maxTally < g.order && |ballots| < g.order
    requires PollOf(p, g, h, ballots, Mul(g, sk, g.base), maxChoices)
    ensures r == if Votes(ballots, j) <= maxTally then Ok(Votes(ballots, j)) else Err(TallyExceedsRange)
  {
    OrderOfBase(g);
    AggregateDecryptsToVotes(p, g, h, ballots, sk, maxChoices, j);
    var ct := Aggregate(g, BinOf(ballots, j));
    r := Decrypt(g, ct, sk, maxTally);
    hide *;
    ReducedKeyDecrypts(g, ct, sk, Votes(ballots, j));
    match r {
      case Ok(t) => PlaintextUnique(g, ct, Mod(sk, g.order), t, Votes(ballots, j));
      case Err(NegativeBound) =>
      case Err(TallyExceedsRange) =>
    }
  }
}
