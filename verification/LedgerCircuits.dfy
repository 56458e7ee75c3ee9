/** The circuits of prover/vote_gen.go, prover/erc020_gen.go and prover/erc05725_gen.go. */
module LedgerCircuits {
  import opened ModArith
  import opened MerklePath
  import opened Circuit

  datatype VoteCast = VoteCast(
    pollId: int, registryRoot: int, nullifier: int, commitment: int, maxChoices: int,
    secret: int, choice: int, weight: int, elements: seq<int>, indices: seq<int>)

  datatype Transfer = Transfer(
    preRoot: int, postRoot: int, source: int, target: int, amount: int, balanceFrom: int, balanceTo: int,
    elements: seq<int>, indices: seq<int>)

  datatype Burn = Burn(
    preRoot: int, postRoot: int, source: int, amount: int, balanceFrom: int, elements: seq<int>, indices: seq<int>)

  datatype TransferFrom = TransferFrom(
    preRoot: int, postRoot: int, source: int, target: int, caller: int, amount: int,
    balanceFrom: int, allowanceFrom: int,
    balancePath: seq<int>, balanceIndices: seq<int>, allowancePath: seq<int>, allowanceIndices: seq<int>)

  datatype VestClaim = VestClaim(
    preRoot: int, postRoot: int, tokenId: int, caller: int, claimAmount: int,
    vestedAmount: int, claimed: int, owner: int,
    schedulePath: seq<int>, scheduleIndices: seq<int>, ownerPath: seq<int>, ownerIndices: seq<int>)

  ghost predicate PathWires(p: int, elements: seq<int>, indices: seq<int>, n: nat)
  {
    |elements| == |indices| == n && Elements(p, elements) && Elements(p, indices)
  }

  ghost predicate VoteCastWires(p: int, w: VoteCast)
  {
    && Elements(p, [w.pollId, w.registryRoot, w.nullifier, w.commitment, w.maxChoices, w.secret, w.choice, w.weight])
    && PathWires(p, w.elements, w.indices, 20)
  }

  ghost predicate TransferWires(p: int, w: Transfer)
  {
    && Elements(p, [w.preRoot, w.postRoot, w.source, w.target, w.amount, w.balanceFrom, w.balanceTo])
    && PathWires(p, w.elements, w.indices, 20)
  }

  ghost predicate BurnWires(p: int, w: Burn)
  {
    && Elements(p, [w.preRoot, w.postRoot, w.source, w.amount, w.balanceFrom])
    && PathWires(p, w.elements, w.indices, 20)
  }

  ghost predicate TransferFromWires(p: int, w: TransferFrom)
  {
    && Elements(p, [w.preRoot, w.postRoot, w.source, w.target, w.caller, w.amount, w.balanceFrom, w.allowanceFrom])
    && PathWires(p, w.balancePath, w.balanceIndices, 10) && PathWires(p, w.allowancePath, w.allowanceIndices, 10)
  }

  ghost predicate VestClaimWires(p: int, w: VestClaim)
  {
    && Elements(p, [w.preRoot, w.postRoot, w.tokenId, w.caller, w.claimAmount, w.vestedAmount, w.claimed, w.owner])
    && PathWires(p, w.schedulePath, w.scheduleIndices, 10) && PathWires(p, w.ownerPath, w.ownerIndices, 10)
  }

  /** The field difference a - b fits in 64 bits. */
  ghost predicate DifferenceFits(p: int, a: int, b: int)
    requires p > 0
  {
    HasBits(p, (a - b) % p, 64)
  }

  /** What is vested and not yet claimed covers the amount, in the sense of the 64-bit check. */
  ghost predicate AvailableFits(p: int, vested: int, claimed: int, amount: int)
    requires p > 0
  {
    DifferenceFits(p, (vested - claimed) % p, amount)
  }

  /** Boolean indices, and a path that leads from the leaf to the root. */
  ghost predicate PathLeads(h: Hash, leaf: int, elements: seq<int>, indices: seq<int>, root: int)
  {
    AllBoolean(indices) && Fold(h, leaf, elements, indices) == root
  }

  /** Two paths whose roots hash to a composite root. */
  ghost predicate TwoPaths(h: Hash, leaf1: int, path1: seq<int>, indices1: seq<int>,
                           leaf2: int, path2: seq<int>, indices2: seq<int>, root: int)
  {
    && AllBoolean(indices1) && AllBoolean(indices2)
    && h(Fold(h, leaf1, path1, indices1), Fold(h, leaf2, path2, indices2)) == root
  }

  /** The choice, and its distance below maxChoices, fit in 8 bits. */
  ghost predicate ChoiceFits(p: int, choice: int, maxChoices: int)
    requires p > 0
  {
    HasBits(p, choice, 8) && HasBits(p, ((maxChoices - choice) % p - 1) % p, 8)
  }

  // ---- Constraints -----------------------------------------------------------------------------

  ghost predicate VoteCastSatisfied(p: int, h: Hash, w: VoteCast)
    requires p > 0
  {
    && PathLeads(h, h(w.secret, w.weight), w.elements, w.indices, w.registryRoot)
    && w.nullifier == h(w.secret, w.pollId)
    && ChoiceFits(p, w.choice, w.maxChoices)
    && w.commitment == h(w.secret, w.choice)
  }

  ghost predicate TransferSatisfied(p: int, h: Hash, w: Transfer)
    requires p > 0
  {
    && DifferenceFits(p, w.balanceFrom, w.amount)
    && PathLeads(h, h(w.source, w.balanceFrom), w.elements, w.indices, w.preRoot)
    && TransferPost(p, h, w)
  }

  ghost predicate TransferPost(p: int, h: Hash, w: Transfer)
    requires p > 0
  {
    h(h(w.source, (w.balanceFrom - w.amount) % p), h(w.target, (w.balanceTo + w.amount) % p)) == w.postRoot
  }

  ghost predicate BurnSatisfied(p: int, h: Hash, w: Burn)
    requires p > 0
  {
    && DifferenceFits(p, w.balanceFrom, w.amount)
    && PathLeads(h, h(w.source, w.balanceFrom), w.elements, w.indices, w.preRoot)
    && BurnPost(p, h, w)
  }

  ghost predicate BurnPost(p: int, h: Hash, w: Burn)
    requires p > 0
  {
    h(w.source, (w.balanceFrom - w.amount) % p) == w.postRoot
  }

  ghost predicate TransferFromSatisfied(p: int, h: Hash, w: TransferFrom)
    requires p > 0
  {
    && DifferenceFits(p, w.balanceFrom, w.amount) && DifferenceFits(p, w.allowanceFrom, w.amount)
    && TwoPaths(h, h(w.source, w.balanceFrom), w.balancePath, w.balanceIndices,
                h(h(w.source, w.caller), w.allowanceFrom), w.allowancePath, w.allowanceIndices, w.preRoot)
    && TransferFromPost(p, h, w)
  }

  ghost predicate TransferFromPost(p: int, h: Hash, w: TransferFrom)
    requires p > 0
  {
    h(h(w.source, (w.balanceFrom - w.amount) % p),
      h(h(w.source, w.caller), (w.allowanceFrom - w.amount) % p)) == w.postRoot
  }

  ghost predicate VestClaimSatisfied(p: int, h: Hash, w: VestClaim)
    requires p > 0
  {
    && w.owner == w.caller
    && AvailableFits(p, w.vestedAmount, w.claimed, w.claimAmount)
    && TwoPaths(h, h(w.tokenId, w.vestedAmount), w.schedulePath, w.scheduleIndices,
                h(w.tokenId, w.owner), w.ownerPath, w.ownerIndices, w.preRoot)
    && VestClaimPost(p, h, w)
  }

  ghost predicate VestClaimPost(p: int, h: Hash, w: VestClaim)
    requires p > 0
  {
    h(w.tokenId, (w.claimed + w.claimAmount) % p) == w.postRoot
  }

  // ---- Define ------------------------------------------------------------------------------------

  /** A field difference that must fit in 64 bits. */
  method CheckDifference(api: Api, a: int, b: int)
    requires IsField(api.p)
    modifies api`ok
    ensures api.ok == (old(api.ok) && DifferenceFits(api.p, a, b))
  {
    PowersOfTwo();
    var diff := api.Sub(a, b);
    var _ := api.ToBinary(diff, 64);
  }

  /** The root that a path leads to from the leaf h(key, value). */
  method PathRoot(api: Api, h: Hash, key: int, value: int, elements: seq<int>, indices: seq<int>, n: nat) returns (root: int)
    requires IsField(api.p) && FieldHash(api.p, h) && PathWires(api.p, elements, indices, n)
    modifies api`ok
    ensures api.ok == (old(api.ok) && AllBoolean(indices))
    ensures Element(api.p, root)
    ensures AllBoolean(indices) ==> root == Fold(h, h(key, value), elements, indices)
  {
    HashInField(api.p, h, key, value);
    hide FieldHash;
    root := api.FoldPath(h, h(key, value), elements, indices);
  }

  /** The membership constraints: the path from the leaf h(key, value) must lead to the given root. */
  method CheckPath(api: Api, h: Hash, key: int, value: int, elements: seq<int>, indices: seq<int>, n: nat, root: int)
    requires IsField(api.p) && FieldHash(api.p, h) && PathWires(api.p, elements, indices, n) && Element(api.p, root)
    modifies api`ok
    ensures api.ok == (old(api.ok) && PathLeads(h, h(key, value), elements, indices, root))
  {
    hide IsField, FieldHash, Fold, AllBoolean, PathWires;
    var current := PathRoot(api, h, key, value, elements, indices, n);
    api.AssertIsEqual(current, root);
  }

  /** Two membership paths whose roots must hash to a composite root. */
  method CheckTwoPaths(api: Api, h: Hash, key1: int, value1: int, path1: seq<int>, indices1: seq<int>,
                       key2: int, value2: int, path2: seq<int>, indices2: seq<int>, root: int)
    requires IsField(api.p) && FieldHash(api.p, h) && Element(api.p, root)
    requires PathWires(api.p, path1, indices1, 10) && PathWires(api.p, path2, indices2, 10)
    modifies api`ok
    ensures api.ok == (old(api.ok) && TwoPaths(h, h(key1, value1), path1, indices1, h(key2, value2), path2, indices2, root))
  {
    hide IsField, FieldHash, Fold, AllBoolean, PathWires;
    var root1 := PathRoot(api, h, key1, value1, path1, indices1, 10);
    var root2 := PathRoot(api, h, key2, value2, path2, indices2, 10);
    HashInField(api.p, h, root1, root2);
    var computedRoot := h(root1, root2);
    api.AssertIsEqual(computedRoot, root);
  }

  /** The last constraint of every circuit: a hash that must equal the claimed root. */
  method CheckHash(api: Api, h: Hash, left: int, right: int, root: int)
    requires FieldHash(api.p, h) && Element(api.p, root)
    modifies api`ok
    ensures api.ok == (old(api.ok) && h(left, right) == root)
  {
    HashInField(api.p, h, left, right);
    api.AssertIsEqual(h(left, right), root);
  }

  method DefineVoteCast(api: Api, h: Hash, w: VoteCast)
    requires IsField(api.p) && FieldHash(api.p, h) && VoteCastWires(api.p, w)
    modifies api`ok
    ensures api.ok == (old(api.ok) && VoteCastSatisfied(api.p, h, w))
  {
    PowersOfTwo();
    ghost var wires := [w.pollId, w.registryRoot, w.nullifier, w.commitment, w.maxChoices, w.secret, w.choice, w.weight];
    assert Element(api.p, wires[1]) && Element(api.p, wires[2]) && Element(api.p, wires[3]) && Element(api.p, wires[6]);
    hide HasBits, Pow, IsPrime, FieldHash, PathLeads, PathWires;
    CheckPath(api, h, w.secret, w.weight, w.elements, w.indices, 20, w.registryRoot);
    CheckHash(api, h, w.secret, w.pollId, w.nullifier);
    var _ := api.ToBinary(w.choice, 8);
    var diff := api.Sub(w.maxChoices, w.choice);
    var diffMinusOne := api.Sub(diff, 1);
    var _ := api.ToBinary(diffMinusOne, 8);
    CheckHash(api, h, w.secret, w.choice, w.commitment);
  }

  method DefineTransfer(api: Api, h: Hash, w: Transfer)
    requires IsField(api.p) && FieldHash(api.p, h) && TransferWires(api.p, w)
    modifies api`ok
    ensures api.ok == (old(api.ok) && TransferSatisfied(api.p, h, w))
  {
    TransferRoots(api.p, w);
    hide IsField, FieldHash, TransferWires, DifferenceFits, PathLeads, PathWires, TransferPost, Element;
    CheckDifference(api, w.balanceFrom, w.amount);
    CheckPath(api, h, w.source, w.balanceFrom, w.elements, w.indices, 20, w.preRoot);
    CheckTransferPost(api, h, w);
  }

  method CheckTransferPost(api: Api, h: Hash, w: Transfer)
    requires FieldHash(api.p, h) && Element(api.p, w.postRoot)
    modifies api`ok
    ensures api.ok == (old(api.ok) && TransferPost(api.p, h, w))
  {
    assert api.p > 0;
    hide FieldHash, Element;
    var newBalanceFrom := api.Sub(w.balanceFrom, w.amount);
    var newBalanceTo := api.Add(w.balanceTo, w.amount);
    var postLeaf := h(w.source, newBalanceFrom);
    var postLeaf2 := h(w.target, newBalanceTo);
    CheckHash(api, h, postLeaf, postLeaf2, w.postRoot);
  }

  lemma TransferRoots(p: int, w: Transfer)
    requires TransferWires(p, w)
    ensures Element(p, w.preRoot) && Element(p, w.postRoot) && PathWires(p, w.elements, w.indices, 20) && p > 0
  {
    var wires := [w.preRoot, w.postRoot, w.source, w.target, w.amount, w.balanceFrom, w.balanceTo];
    assert Element(p, wires[0]) && Element(p, wires[1]);
  }

  method DefineBurn(api: Api, h: Hash, w: Burn)
    requires IsField(api.p) && FieldHash(api.p, h) && BurnWires(api.p, w)
    modifies api`ok
    ensures api.ok == (old(api.ok) && BurnSatisfied(api.p, h, w))
  {
    ghost var wires := [w.preRoot, w.postRoot, w.source, w.amount, w.balanceFrom];
    assert Element(api.p, wires[0]) && Element(api.p, wires[1]);
    hide IsField, FieldHash, DifferenceFits, PathLeads, PathWires;
    CheckDifference(api, w.balanceFrom, w.amount);
    CheckPath(api, h, w.source, w.balanceFrom, w.elements, w.indices, 20, w.preRoot);
    var newBalance := api.Sub(w.balanceFrom, w.amount);
    CheckHash(api, h, w.source, newBalance, w.postRoot);
  }

  method DefineTransferFrom(api: Api, h: Hash, w: TransferFrom)
    requires IsField(api.p) && FieldHash(api.p, h) && TransferFromWires(api.p, w)
    modifies api`ok
    ensures api.ok == (old(api.ok) && TransferFromSatisfied(api.p, h, w))
  {
    TransferFromRoots(api.p, w);
    hide IsField, FieldHash, TransferFromWires, DifferenceFits, TwoPaths, PathWires, TransferFromPost, Element;
    CheckDifference(api, w.balanceFrom, w.amount);
    CheckDifference(api, w.allowanceFrom, w.amount);
    CheckTwoPaths(api, h, w.source, w.balanceFrom, w.balancePath, w.balanceIndices,
                  h(w.source, w.caller), w.allowanceFrom, w.allowancePath, w.allowanceIndices, w.preRoot);
    CheckTransferFromPost(api, h, w);
  }

  method CheckTransferFromPost(api: Api, h: Hash, w: TransferFrom)
    requires FieldHash(api.p, h) && Element(api.p, w.postRoot)
    modifies api`ok
    ensures api.ok == (old(api.ok) && TransferFromPost(api.p, h, w))
  {
    assert api.p > 0;
    hide FieldHash, Element;
    var allowanceKey := h(w.source, w.caller);
    var newBalance := api.Sub(w.balanceFrom, w.amount);
    var newAllowance := api.Sub(w.allowanceFrom, w.amount);
    CheckHash(api, h, h(w.source, newBalance), h(allowanceKey, newAllowance), w.postRoot);
  }

  lemma TransferFromRoots(p: int, w: TransferFrom)
    requires TransferFromWires(p, w)
    ensures Element(p, w.preRoot) && Element(p, w.postRoot) && p > 0
    ensures PathWires(p, w.balancePath, w.balanceIndices, 10) && PathWires(p, w.allowancePath, w.allowanceIndices, 10)
  {
    var wires := [w.preRoot, w.postRoot, w.source, w.target, w.caller, w.amount, w.balanceFrom, w.allowanceFrom];
    assert Element(p, wires[0]) && Element(p, wires[1]);
  }

  method DefineVestClaim(api: Api, h: Hash, w: VestClaim)
    requires IsField(api.p) && FieldHash(api.p, h) && VestClaimWires(api.p, w)
    modifies api`ok
    ensures api.ok == (old(api.ok) && VestClaimSatisfied(api.p, h, w))
  {
    VestClaimRoots(api.p, w);
    hide IsField, FieldHash, VestClaimWires, DifferenceFits, TwoPaths, PathWires, Element;
    api.AssertIsEqual(w.owner, w.caller);
    var available := api.Sub(w.vestedAmount, w.claimed);
    CheckDifference(api, available, w.claimAmount);
    CheckTwoPaths(api, h, w.tokenId, w.vestedAmount, w.schedulePath, w.scheduleIndices,
                  w.tokenId, w.owner, w.ownerPath, w.ownerIndices, w.preRoot);
    var newClaimed := api.Add(w.claimed, w.claimAmount);
    CheckHash(api, h, w.tokenId, newClaimed, w.postRoot);
  }

  lemma VestClaimRoots(p: int, w: VestClaim)
    requires VestClaimWires(p, w)
    ensures Element(p, w.preRoot) && Element(p, w.postRoot) && Element(p, w.caller) && Element(p, w.owner) && p > 0
    ensures PathWires(p, w.schedulePath, w.scheduleIndices, 10) && PathWires(p, w.ownerPath, w.ownerIndices, 10)
  {
    var wires := [w.preRoot, w.postRoot, w.tokenId, w.caller, w.claimAmount, w.vestedAmount, w.claimed, w.owner];
    assert Element(p, wires[0]) && Element(p, wires[1]) && Element(p, wires[3]) && Element(p, wires[7]);
  }

  // ---- What the range checks mean -------------------------------------------------------------------

  /** Exactly what an n-bit check of a field difference admits: a true difference below 2^n, or one that wraps around. */
  lemma {:induction false} DifferenceCheck(p: int, a: int, b: int, n: nat)
    requires p > 0 && Element(p, a) && Element(p, b) && Pow(2, n) <= p
    ensures HasBits(p, (a - b) % p, n) <==> b <= a < b + Pow(2, n) || b > a + p - Pow(2, n)
  {
    HasBitsIff(p, (a - b) % p, n);
    hide HasBits, Pow;
    if a < b {
      QuotientUnique(-1, a - b + p, p);
    } else {
      SmallMod(a - b, p);
    }
  }

  /** `a` covers `b` with less than 2^64 to spare, or `b` is so large that the field difference wraps around. */
  predicate Covers(p: int, a: int, b: int)
  {
    b <= a < b + 0x1_0000_0000_0000_0000 || b > a + p - 0x1_0000_0000_0000_0000
  }

  /** The 64-bit check of a field difference, on integers. */
  lemma CoveredIff(p: int, a: int, b: int)
    requires IsField(p) && Element(p, a) && Element(p, b)
    ensures DifferenceFits(p, a, b) <==> Covers(p, a, b)
  {
    PowersOfTwo();
    DifferenceCheck(p, a, b, 64);
  }

  /** The 64-bit check proves amount <= balance exactly for the amounts that cannot wrap around. */
  lemma {:induction false} SpendCheck(p: int, balance: int, amount: int)
    requires IsField(p) && Element(p, balance) && Element(p, amount) && HasBits(p, (balance - amount) % p, 64)
    ensures amount <= balance <==> amount <= balance + p - 0x1_0000_0000_0000_0000
  {
    PowersOfTwo();
    DifferenceCheck(p, balance, amount, 64);
  }

  /** The check by itself does not bound the amount by the balance: spending p - 1 from 0 passes it. */
  lemma {:induction false} SpendCheckWraps(p: int)
    requires IsField(p)
    ensures HasBits(p, (0 - (p - 1)) % p, 64)
  {
    PowersOfTwo();
    DifferenceCheck(p, 0, p - 1, 64);
  }

  /** The vote range constraints hold exactly for choice <= 255 and choice < maxChoices <= choice + 256. */
  lemma {:induction false} VoteRangeCheck(p: int, choice: int, maxChoices: int)
    requires IsField(p) && Element(p, choice) && Element(p, maxChoices)
    ensures ChoiceFits(p, choice, maxChoices) <==> choice <= 255 && choice < maxChoices <= choice + 256
  {
    PowersOfTwo();
    HasBitsIff(p, choice, 8);
    HasBitsIff(p, ((maxChoices - choice) % p - 1) % p, 8);
    if choice <= 255 {
      MinusOne(p, maxChoices, choice);
    }
  }

  lemma MinusOne(p: int, a: int, b: int)
    requires p > 512 && Element(p, a) && 0 <= b <= 255
    ensures ((a - b) % p - 1) % p < 256 <==> b < a <= b + 256
  {
    var d := a - b - 1;
    CongMod(a - b, p);
    CongRefl(1, p);
    CongAdd((a - b) % p, a - b, 1, 1, p);
    assert ((a - b) % p - 1) % p == d % p;
    if d < 0 {
      QuotientUnique(-1, d + p, p);
    } else {
      SmallMod(d, p);
    }
  }
}
