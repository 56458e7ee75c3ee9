/** The reveal tally of prover/tally_gen.go, for every number of slots and bins below the field size. */
module TallyCircuit {
  import opened ModArith
  import opened MerklePath
  import opened Circuit

  datatype Reveals = Reveals(
    pollId: int, numReveals: int, commitments: seq<int>, nullifiers: seq<int>, tallies: seq<int>,
    secrets: seq<int>, choices: seq<int>, active: seq<int>)

  ghost predicate WellTyped(p: int, w: Reveals)
  {
    && Element(p, w.pollId) && Element(p, w.numReveals)
    && |w.commitments| == |w.nullifiers| == |w.secrets| == |w.choices| == |w.active|
    && Elements(p, w.commitments) && Elements(p, w.nullifiers) && Elements(p, w.tallies)
    && Elements(p, w.secrets) && Elements(p, w.choices) && Elements(p, w.active)
  }

  /** An expected value binds only an active slot: (actual - expected) * active = 0. */
  ghost predicate Masked(p: int, actual: int, expected: int, active: int)
    requires p > 0
  {
    (((actual - expected) % p) * active) % p == 0
  }

  ghost predicate SlotConstraints(p: int, h: Hash, w: Reveals, i: nat)
    requires p > 0 && WellTyped(p, w) && i < |w.active|
  {
    && (w.active[i] == 0 || w.active[i] == 1)
    && Masked(p, w.commitments[i], h(w.secrets[i], w.choices[i]), w.active[i])
    && Masked(p, w.nullifiers[i], h(w.secrets[i], w.pollId), w.active[i])
    && HasBits(p, w.choices[i], 8)
  }

  /** The value of the counting wire of bin `j` over the first `n` slots, before reduction. */
  function BinSum(w: Reveals, j: int, n: nat): int
    requires n <= |w.choices| == |w.active|
  {
    if n == 0 then 0 else BinSum(w, j, n - 1) + (if w.choices[n - 1] == j then 1 else 0) * w.active[n - 1]
  }

  ghost predicate Satisfied(p: int, h: Hash, w: Reveals)
    requires p > 0 && WellTyped(p, w)
  {
    && (forall i: nat :: i < |w.active| ==> SlotConstraints(p, h, w, i))
    && (forall j: nat :: j < |w.tallies| ==> Cong(BinSum(w, j, |w.active|), w.tallies[j], p))
    && Cong(Sum(w.active), w.numReveals, p)
    && Cong(Sum(w.tallies), w.numReveals, p)
  }

  method AssertMasked(api: Api, actual: int, expected: int, active: int)
    requires api.p > 0
    modifies api`ok
    ensures api.ok == (old(api.ok) && Masked(api.p, actual, expected, active))
  {
    var diff := api.Sub(actual, expected);
    var masked := api.Mul(diff, active);
    api.AssertIsEqual(masked, 0);
  }

  method CheckSlot(api: Api, h: Hash, w: Reveals, i: nat)
    requires IsField(api.p) && WellTyped(api.p, w) && i < |w.active|
    modifies api`ok
    ensures api.ok == (old(api.ok) && SlotConstraints(api.p, h, w, i))
  {
    PowersOfTwo();
    hide Masked, HasBits, Pow, IsPrime;
    api.AssertIsBoolean(w.active[i]);
    var expectedCommit := h(w.secrets[i], w.choices[i]);
    AssertMasked(api, w.commitments[i], expectedCommit, w.active[i]);
    var expectedNullifier := h(w.secrets[i], w.pollId);
    AssertMasked(api, w.nullifiers[i], expectedNullifier, w.active[i]);
    var _ := api.ToBinary(w.choices[i], 8);
  }

  method SlotLoop(api: Api, h: Hash, w: Reveals)
    requires IsField(api.p) && WellTyped(api.p, w)
    modifies api`ok
    ensures api.ok == (old(api.ok) && forall i: nat :: i < |w.active| ==> SlotConstraints(api.p, h, w, i))
  {
    hide SlotConstraints, IsField;
    for i := 0 to |w.active|
      invariant api.ok == (old(api.ok) && forall k: nat :: k < i ==> SlotConstraints(api.p, h, w, k))
    {
      CheckSlot(api, h, w, i);
    }
  }

  method CountBin(api: Api, w: Reveals, j: nat) returns (count: int)
    requires api.p > 1 && WellTyped(api.p, w) && j < api.p
    ensures Element(api.p, count) && Cong(count, BinSum(w, j, |w.active|), api.p)
  {
    count := 0;
    for i := 0 to |w.active|
      invariant Element(api.p, count) && Cong(count, BinSum(w, j, i), api.p)
    {
      var diff := api.Sub(w.choices[i], j);
      EqualIffZero(w.choices[i], j, api.p);
      var eq := api.IsZero(diff);
      var term := api.Mul(eq, w.active[i]);
      ghost var t := (if w.choices[i] == j then 1 else 0) * w.active[i];
      CongMod(t, api.p);
      CongMod(count + term, api.p);
      CongAdd(count, BinSum(w, j, i), term, t, api.p);
      ghost var before := count;
      count := api.Add(count, term);
      CongTrans(count, before + term, BinSum(w, j, i + 1), api.p);
    }
  }

  lemma EqualIffZero(a: int, j: nat, p: int)
    requires p > 0 && 0 <= a < p && j < p
    ensures (a - j) % p == 0 <==> a == j
  {
    CongIffMultiple(a, j, p);
  }

  method SumWires(api: Api, xs: seq<int>) returns (sum: int)
    requires api.p > 1
    ensures Element(api.p, sum) && Cong(sum, Sum(xs), api.p)
  {
    sum := 0;
    for i := 0 to |xs|
      invariant Element(api.p, sum) && Cong(sum, Sum(xs[..i]), api.p)
    {
      assert xs[..i + 1][..i] == xs[..i];
      CongRefl(xs[i], api.p);
      CongAdd(sum, Sum(xs[..i]), xs[i], xs[i], api.p);
      CongMod(sum + xs[i], api.p);
      ghost var before := sum;
      sum := api.Add(sum, xs[i]);
      CongTrans(sum, before + xs[i], Sum(xs[..i + 1]), api.p);
    }
    assert xs[..|xs|] == xs;
  }

  lemma EqualIffCong(a: int, s: int, b: int, p: int)
    requires p > 0 && Element(p, a) && Element(p, b) && Cong(a, s, p)
    ensures a == b <==> Cong(s, b, p)
  {
    CongSym(a, s, p);
    if Cong(s, b, p) {
      CongTrans(a, s, b, p);
      CongSmall(a, b, p);
    }
  }

  /** `tallyProofConstraints`. */
  method TallyProofConstraints(api: Api, h: Hash, w: Reveals)
    requires IsField(api.p) && FieldHash(api.p, h) && WellTyped(api.p, w) && |w.tallies| < api.p
    modifies api`ok
    ensures api.ok == (old(api.ok) && Satisfied(api.p, h, w))
  {
    SlotLoop(api, h, w);
    ghost var slots := api.ok;
    for j := 0 to |w.tallies|
      invariant api.ok == (slots && forall k: nat :: k < j ==> Cong(BinSum(w, k, |w.active|), w.tallies[k], api.p))
    {
      var count := CountBin(api, w, j);
      EqualIffCong(count, BinSum(w, j, |w.active|), w.tallies[j], api.p);
      api.AssertIsEqual(count, w.tallies[j]);
    }
    var activeSum := SumWires(api, w.active);
    EqualIffCong(activeSum, Sum(w.active), w.numReveals, api.p);
    api.AssertIsEqual(activeSum, w.numReveals);
    var tallySum := SumWires(api, w.tallies);
    EqualIffCong(tallySum, Sum(w.tallies), w.numReveals, api.p);
    api.AssertIsEqual(tallySum, w.numReveals);
  }

  // ---- Soundness ---------------------------------------------------------------------------------

  /** Number of active slots among the first `n`. */
  function ActiveCount(w: Reveals, n: nat): nat
    requires n <= |w.active|
  {
    if n == 0 then 0 else ActiveCount(w, n - 1) + if w.active[n - 1] == 1 then 1 else 0
  }

  /** Number of active slots among the first `n` that reveal choice `j`. */
  function RevealCount(w: Reveals, j: int, n: nat): nat
    requires n <= |w.choices| == |w.active|
  {
    if n == 0 then 0
    else RevealCount(w, j, n - 1) + if w.active[n - 1] == 1 && w.choices[n - 1] == j then 1 else 0
  }

  /** Number of active slots among the first `n` whose choice is one of the `m` bins. */
  function BinnedCount(w: Reveals, m: nat, n: nat): nat
    requires n <= |w.choices| == |w.active|
  {
    if n == 0 then 0
    else BinnedCount(w, m, n - 1) + if w.active[n - 1] == 1 && 0 <= w.choices[n - 1] < m then 1 else 0
  }

  lemma {:induction false} CountsAreSums(w: Reveals, j: int, n: nat)
    requires n <= |w.choices| == |w.active| && AllBoolean(w.active)
    ensures BinSum(w, j, n) == RevealCount(w, j, n) <= n
    ensures Sum(w.active[..n]) == ActiveCount(w, n) <= n
  {
    if n > 0 {
      CountsAreSums(w, j, n - 1);
      assert w.active[..n][..n - 1] == w.active[..n - 1];
    }
  }

  function CountsBelow(w: Reveals, m: nat): nat
    requires |w.choices| == |w.active|
  {
    if m == 0 then 0 else CountsBelow(w, m - 1) + RevealCount(w, m - 1, |w.active|)
  }

  lemma {:induction false} OneMoreBin(w: Reveals, m: nat, n: nat)
    requires n <= |w.choices| == |w.active|
    ensures BinnedCount(w, m + 1, n) == BinnedCount(w, m, n) + RevealCount(w, m, n)
  {
    if n > 0 { OneMoreBin(w, m, n - 1); }
  }

  lemma {:induction false} NoBins(w: Reveals, n: nat)
    requires n <= |w.choices| == |w.active|
    ensures BinnedCount(w, 0, n) == 0
  {
    if n > 0 { NoBins(w, n - 1); }
  }

  lemma {:induction false} BinnedIsSum(w: Reveals, m: nat)
    requires |w.choices| == |w.active|
    ensures BinnedCount(w, m, |w.active|) == CountsBelow(w, m)
  {
    if m == 0 {
      NoBins(w, |w.active|);
    } else {
      BinnedIsSum(w, m - 1);
      OneMoreBin(w, m - 1, |w.active|);
    }
  }

  /** A slot outside the bins leaves the binned count short of the active count. */
  lemma {:induction false} StraySlot(w: Reveals, m: nat, n: nat)
    requires n <= |w.choices| == |w.active|
    ensures BinnedCount(w, m, n) <= ActiveCount(w, n)
    ensures BinnedCount(w, m, n) == ActiveCount(w, n) ==>
      forall i :: 0 <= i < n && w.active[i] == 1 ==> 0 <= w.choices[i] < m
  {
    if n > 0 { StraySlot(w, m, n - 1); }
  }

  lemma {:induction false} TalliesSum(w: Reveals, m: nat)
    requires |w.choices| == |w.active| && m <= |w.tallies|
    requires forall j: nat :: j < m ==> w.tallies[j] == RevealCount(w, j, |w.active|)
    ensures Sum(w.tallies[..m]) == CountsBelow(w, m)
  {
    if m > 0 {
      TalliesSum(w, m - 1);
      assert w.tallies[..m][..m - 1] == w.tallies[..m - 1];
    }
  }

  lemma MaskedActive(p: int, actual: int, expected: int)
    requires p > 0 && Element(p, actual) && Element(p, expected) && Masked(p, actual, expected, 1)
    ensures actual == expected
  {
    SmallMod((actual - expected) % p, p);
    CongIffMultiple(actual, expected, p);
    CongSmall(actual, expected, p);
  }

  /**
   * Main theorem: a satisfying assignment with fewer slots than field elements publishes the exact counts. That every
   * active choice is one of the bins follows from the two sum constraints together.
   */
  lemma {:induction false} TallyIsSound(p: int, h: Hash, w: Reveals)
    requires p > 0 && FieldHash(p, h) && WellTyped(p, w) && Satisfied(p, h, w) && |w.active| < p
    ensures forall j: nat :: j < |w.tallies| ==> w.tallies[j] == RevealCount(w, j, |w.active|)
    ensures w.numReveals == ActiveCount(w, |w.active|)
    ensures forall i :: 0 <= i < |w.active| && w.active[i] == 1 ==>
      && w.choices[i] < |w.tallies|
      && w.commitments[i] == h(w.secrets[i], w.choices[i])
      && w.nullifiers[i] == h(w.secrets[i], w.pollId)
  {
    var n, m := |w.active|, |w.tallies|;
    SlotsBoolean(p, h, w);
    forall j: nat | j < m
      ensures w.tallies[j] == RevealCount(w, j, n)
    {
      CountsAreSums(w, j, n);
      CongSmall(BinSum(w, j, n), w.tallies[j], p);
    }
    CountsAreSums(w, 0, n);
    assert w.active[..n] == w.active && w.tallies[..m] == w.tallies;
    CongSmall(Sum(w.active), w.numReveals, p);
    TalliesSum(w, m);
    BinnedIsSum(w, m);
    StraySlot(w, m, n);
    CongSmall(Sum(w.tallies), w.numReveals, p);
    forall i | 0 <= i < n && w.active[i] == 1
      ensures w.commitments[i] == h(w.secrets[i], w.choices[i]) && w.nullifiers[i] == h(w.secrets[i], w.pollId)
    {
      assert SlotConstraints(p, h, w, i);
      MaskedActive(p, w.commitments[i], h(w.secrets[i], w.choices[i]));
      MaskedActive(p, w.nullifiers[i], h(w.secrets[i], w.pollId));
    }
  }

  lemma SlotsBoolean(p: int, h: Hash, w: Reveals)
    requires p > 0 && WellTyped(p, w) && Satisfied(p, h, w)
    ensures AllBoolean(w.active)
  {
    forall i | 0 <= i < |w.active|
      ensures w.active[i] == 0 || w.active[i] == 1
    {
      assert SlotConstraints(p, h, w, i);
    }
  }

  lemma OpenedSlot(p: int, h: Hash, w: Reveals, i: nat)
    requires IsField(p) && WellTyped(p, w) && i < |w.active| && w.choices[i] < 256
    requires w.active[i] == 0 || (w.active[i] == 1
      && w.commitments[i] == h(w.secrets[i], w.choices[i]) && w.nullifiers[i] == h(w.secrets[i], w.pollId))
    ensures SlotConstraints(p, h, w, i)
  {
    PowersOfTwo();
    HasBitsIff(p, w.choices[i], 8);
    hide HasBits, Pow, IsPrime;
  }

  /**
   * Soundness is an equivalence once the choices fit in 8 bits: exact counts, opened active slots and boolean masks
   * satisfy the circuit.
   */
  lemma {:induction false} ExactTallySatisfies(p: int, h: Hash, w: Reveals)
    requires IsField(p) && FieldHash(p, h) && WellTyped(p, w) && |w.active| < p
    requires AllBoolean(w.active) && forall i :: 0 <= i < |w.active| ==> w.choices[i] < 256
    requires forall j: nat :: j < |w.tallies| ==> w.tallies[j] == RevealCount(w, j, |w.active|)
    requires w.numReveals == ActiveCount(w, |w.active|)
    requires forall i :: 0 <= i < |w.active| && w.active[i] == 1 ==>
      && w.choices[i] < |w.tallies|
      && w.commitments[i] == h(w.secrets[i], w.choices[i])
      && w.nullifiers[i] == h(w.secrets[i], w.pollId)
    ensures Satisfied(p, h, w)
  {
    var n, m := |w.active|, |w.tallies|;
    PowersOfTwo();
    hide FieldHash, HasBits, SlotConstraints, Pow, IsPrime;
    forall i: nat | i < n
      ensures SlotConstraints(p, h, w, i)
    {
      OpenedSlot(p, h, w, i);
    }
    forall j: nat | j < m
      ensures Cong(BinSum(w, j, n), w.tallies[j], p)
    {
      CountsAreSums(w, j, n);
    }
    CountsAreSums(w, 0, n);
    assert w.active[..n] == w.active && w.tallies[..m] == w.tallies;
    TalliesSum(w, m);
    BinnedIsSum(w, m);
    AllBinned(w, m, n);
  }

  lemma {:induction false} AllBinned(w: Reveals, m: nat, n: nat)
    requires n <= |w.choices| == |w.active|
    requires forall i :: 0 <= i < n && w.active[i] == 1 ==> 0 <= w.choices[i] < m
    ensures BinnedCount(w, m, n) == ActiveCount(w, n)
  {
    if n > 0 { AllBinned(w, m, n - 1); }
  }
}
