/** The witness builders of public/witness-builder.js: what they build satisfies the circuits. */
module Witness {
  import opened Wrappers
  import opened ModArith
  import opened FieldRoots
  import opened MerklePath
  import opened MerkleTrees
  import opened Circuit
  import opened LedgerCircuits

  datatype BuildError = NoLeaf | ShortProof

  /** What a decimal witness field becomes when it is assigned to a wire. */
  function Assigned(p: int, v: int): int
    requires p > 0
  {
    v % p
  }

  function AllAssigned(p: int, vs: seq<int>): seq<int>
    requires p > 0
  {
    seq(|vs|, i requires 0 <= i < |vs| => Assigned(p, vs[i]))
  }

  lemma AssignedIsElement(p: int, v: int)
    requires p > 0
    ensures Element(p, Assigned(p, v)) && Cong(Assigned(p, v), v, p)
  {
    CongMod(v, p);
  }

  lemma AssignedElement(p: int, v: int)
    requires p > 0 && Element(p, v)
    ensures Assigned(p, v) == v
  {
    SmallMod(v, p);
  }

  /** `flattenProof`: the first `depth` levels of a proof, an error when it has fewer. */
  method FlattenProof(p: int, proof: Proof, depth: nat) returns (r: Option<Proof>)
    requires p > 0
    ensures r.None? <==> |proof.elements| < depth || |proof.indices| < depth
    ensures r.Some? ==> r.value.elements == AllAssigned(p, proof.elements[..depth])
    ensures r.Some? ==> r.value.indices == AllAssigned(p, proof.indices[..depth])
  {
    var elements, indices := [], [];
    for i := 0 to depth
      invariant i <= |proof.elements| && i <= |proof.indices|
      invariant elements == AllAssigned(p, proof.elements[..i])
      invariant indices == AllAssigned(p, proof.indices[..i])
    {
      if i >= |proof.elements| || i >= |proof.indices| { return None; }
      elements := elements + [Assigned(p, proof.elements[i])];
      indices := indices + [Assigned(p, proof.indices[i])];
    }
    r := Some(Proof(elements, indices));
  }

  // ---- Paths through field hashes ------------------------------------------------------------------

  /** A fold sees its leaf and path elements only through their residues, above the bottom level. */
  lemma {:induction false} FoldOnResidues(p: int, h: Hash, a: int, b: int, es: seq<int>, fs: seq<int>, indices: seq<int>)
    requires FieldHash(p, h) && Cong(a, b, p) && |es| == |fs| == |indices|
    requires forall i :: 0 <= i < |es| ==> Cong(es[i], fs[i], p)
    ensures Cong(Fold(h, a, es, indices), Fold(h, b, fs, indices), p)
    decreases es
  {
    if es != [] {
      StepOnResidues(p, h, a, b, es[0], fs[0], indices[0]);
      FoldOnResidues(p, h, Step(h, a, es[0], indices[0]), Step(h, b, fs[0], indices[0]), es[1..], fs[1..], indices[1..]);
    }
  }

  lemma StepOnResidues(p: int, h: Hash, a: int, b: int, e: int, f: int, index: int)
    requires FieldHash(p, h) && Cong(a, b, p) && Cong(e, f, p)
    ensures Step(h, a, e, index) == Step(h, b, f, index)
  {
    if index == 1 {
      HashOfResidues(p, h, e, a, f, b);
    } else {
      HashOfResidues(p, h, a, e, b, f);
    }
  }

  lemma {:induction false} FoldInField(p: int, h: Hash, leaf: int, elements: seq<int>, indices: seq<int>)
    requires FieldHash(p, h) && Element(p, leaf)
    ensures Element(p, Fold(h, leaf, elements, indices))
    decreases elements
  {
    if elements != [] {
      FoldInField(p, h, Step(h, leaf, elements[0], Head(indices)), elements[1..], Tail(indices));
    }
  }

  function AssignedProof(p: int, proof: Proof): Proof
    requires p > 0
  {
    Proof(AllAssigned(p, proof.elements), AllAssigned(p, proof.indices))
  }

  /** The assigned indices of a tree's proof are its own. */
  lemma IndicesAssigned(p: int, h: Hash, leaves: seq<int>, depth: nat, index: nat)
    requires p > 1
    ensures var indices := ProofOf(h, leaves, depth, index).indices;
      AllBoolean(indices) && AllAssigned(p, indices) == indices
  {
    hide Ancestor, Node;
    var indices := ProofOf(h, leaves, depth, index).indices;
    forall i | 0 <= i < |indices|
      ensures (indices[i] == 0 || indices[i] == 1) && AllAssigned(p, indices)[i] == indices[i]
    {
      AssignedElement(p, indices[i]);
    }
    assert AllAssigned(p, indices) == indices;
  }

  lemma AllAssignedAreElements(p: int, vs: seq<int>)
    requires p > 0
    ensures Elements(p, AllAssigned(p, vs)) && |AllAssigned(p, vs)| == |vs|
    ensures forall i :: 0 <= i < |vs| ==> Cong(AllAssigned(p, vs)[i], vs[i], p)
  {
    forall i | 0 <= i < |vs|
      ensures Element(p, AllAssigned(p, vs)[i]) && Cong(AllAssigned(p, vs)[i], vs[i], p)
    {
      AssignedIsElement(p, vs[i]);
    }
  }

  /** The assigned proof of a leaf leads, in the circuit, from any representative of the leaf to the assigned root. */
  lemma {:induction false} AssignedPathLeads(p: int, h: Hash, leaves: seq<int>, depth: nat, index: nat, leaf: int)
    requires p > 1 && FieldHash(p, h) && index < Pow2(depth)
    requires Element(p, leaf) && Cong(leaf, LeafAt(leaves, index), p)
    ensures var proof := AssignedProof(p, ProofOf(h, leaves, depth, index));
      PathLeads(h, leaf, proof.elements, proof.indices, Assigned(p, Node(h, leaves, depth, 0)))
  {
    var plain := ProofOf(h, leaves, depth, index);
    var proof := AssignedProof(p, plain);
    var root := Node(h, leaves, depth, 0);
    IndicesAssigned(p, h, leaves, depth, index);
    AllAssignedAreElements(p, plain.elements);
    ProofVerifies(h, leaves, depth, index);
    AssignedIsElement(p, root);
    hide FieldHash, Node, Fold, AllAssigned, Cong, AllBoolean;
    FoldOnResidues(p, h, leaf, LeafAt(leaves, index), proof.elements, plain.elements, plain.indices);
    FoldInField(p, h, leaf, proof.elements, proof.indices);
    var reached := Fold(h, leaf, proof.elements, proof.indices);
    CongSym(Assigned(p, root), root, p);
    CongTrans(reached, root, Assigned(p, root), p);
    CongSmall(reached, Assigned(p, root), p);
  }

  // ---- Builders --------------------------------------------------------------------------------------

  /** The tree, of the depth the circuit expects, holds h(key, value) at `index`. */
  ghost predicate HasLeaf(p: int, tree: MerkleTree, depth: nat, index: int, key: int, value: int)
    requires p > 0
    reads tree
  {
    && tree.depth == depth && 0 <= index < |tree.leaves| && index < Pow2(depth)
    && Cong(tree.leaves[index], tree.h(key, value), p)
  }

  /** `getProof` and `flattenProof`. */
  method ProofFields(p: int, tree: MerkleTree, index: int, depth: nat) returns (r: Result<Proof, BuildError>)
    requires p > 1 && tree.Valid()
    ensures r == Err(NoLeaf) <==> !(0 <= index < |tree.leaves|)
    ensures r == Err(ShortProof) <==> 0 <= index < |tree.leaves| && tree.depth < depth
    ensures r.Ok? <==> 0 <= index < |tree.leaves| && depth <= tree.depth
    ensures r.Ok? ==> PathWires(p, r.value.elements, r.value.indices, depth)
    ensures r.Ok? && tree.depth == depth ==> r.value == AssignedProof(p, ProofOf(tree.h, tree.leaves, depth, index))
  {
    hide *;
    var found := tree.GetProof(index);
    if found.Err? { return Err(NoLeaf); }
    ProofLength(tree.h, tree.leaves, tree.depth, index);
    var flat := FlattenProof(p, found.value, depth);
    if flat.None? { return Err(ShortProof); }
    FlattenedFields(p, tree.h, tree.leaves, tree.depth, index, depth);
    return Ok(flat.value);
  }

  lemma ProofLength(h: Hash, leaves: seq<int>, depth: nat, index: nat)
    ensures var proof := ProofOf(h, leaves, depth, index); |proof.elements| == |proof.indices| == depth
  {
  }

  lemma FlattenedFields(p: int, h: Hash, leaves: seq<int>, depth: nat, index: nat, n: nat)
    requires p > 1 && n <= depth
    ensures var proof := ProofOf(h, leaves, depth, index);
      && |proof.elements| == |proof.indices| == depth
      && PathWires(p, AllAssigned(p, proof.elements[..n]), AllAssigned(p, proof.indices[..n]), n)
      && (n == depth ==>
           AssignedProof(p, proof) == Proof(AllAssigned(p, proof.elements[..n]), AllAssigned(p, proof.indices[..n])))
  {
    var proof := ProofOf(h, leaves, depth, index);
    AllAssignedAreElements(p, proof.elements[..n]);
    AllAssignedAreElements(p, proof.indices[..n]);
    if n == depth {
      assert proof.elements[..n] == proof.elements && proof.indices[..n] == proof.indices;
    }
  }

  /** The membership constraints hold of the assigned fields of a leaf that is in the tree. */
  lemma MemberLeads(p: int, tree: MerkleTree, depth: nat, index: int, key: int, value: int)
    requires p > 1 && FieldHash(p, tree.h) && tree.Valid() && HasLeaf(p, tree, depth, index, key, value)
    ensures var proof := AssignedProof(p, ProofOf(tree.h, tree.leaves, depth, index));
      PathLeads(tree.h, tree.h(Assigned(p, key), Assigned(p, value)), proof.elements, proof.indices, Assigned(p, tree.root))
  {
    assert tree.root == Node(tree.h, tree.leaves, depth, 0);
    assert LeafAt(tree.leaves, index) == tree.leaves[index] && index < Pow2(depth);
    assert Cong(tree.leaves[index], tree.h(key, value), p);
    HashAssigned(p, tree.h, key, value);
    HashInField(p, tree.h, key, value);
    hide *;
    CongSym(LeafAt(tree.leaves, index), tree.h(key, value), p);
    AssignedPathLeads(p, tree.h, tree.leaves, depth, index, tree.h(key, value));
  }

  /** A field hash of assigned values. */
  lemma HashAssigned(p: int, h: Hash, a: int, b: int)
    requires FieldHash(p, h)
    ensures h(Assigned(p, a), Assigned(p, b)) == h(a, b) && Assigned(p, h(a, b)) == h(a, b)
  {
    AssignedIsElement(p, a);
    AssignedIsElement(p, b);
    HashOfResidues(p, h, Assigned(p, a), Assigned(p, b), a, b);
    HashInField(p, h, a, b);
    AssignedElement(p, h(a, b));
  }

  lemma ArithmeticAssigned(p: int, a: int, b: int)
    requires p > 0
    ensures (Assigned(p, a) - Assigned(p, b)) % p == (a - b) % p
    ensures (Assigned(p, a) + Assigned(p, b)) % p == (a + b) % p
  {
    AssignedIsElement(p, a);
    AssignedIsElement(p, b);
    CongAdd(Assigned(p, a), a, Assigned(p, b), b, p);
  }

  lemma FitsAssigned(p: int, a: int, b: int)
    requires p > 0
    ensures DifferenceFits(p, Assigned(p, a), Assigned(p, b)) <==> DifferenceFits(p, a, b)
  {
    ArithmeticAssigned(p, a, b);
    hide HasBits;
  }

  /** The 64-bit check on assigned wires, as a comparison of the residues. */
  lemma FitsIff(p: int, a: int, b: int)
    requires IsField(p)
    ensures p > 0
    ensures DifferenceFits(p, a, b) <==> DifferenceFits(p, Assigned(p, a), Assigned(p, b))
    ensures DifferenceFits(p, a, b) <==> Covers(p, Assigned(p, a), Assigned(p, b))
  {
    FieldIsPositive(p);
    FitsAssigned(p, a, b);
    AssignedIsElement(p, a);
    AssignedIsElement(p, b);
    hide *;
    CoveredIff(p, Assigned(p, a), Assigned(p, b));
  }

  /** Between values below 2^64 nothing wraps: the larger covers the smaller and not the other way round. */
  lemma SmallValuesCovered(p: int, a: int, b: int)
    requires IsField(p) && 0 <= a < 0x1_0000_0000_0000_0000 && 0 <= b < 0x1_0000_0000_0000_0000
    ensures Covers(p, Assigned(p, a), Assigned(p, b)) <==> b <= a
  {
    SmallMod(a, p);
    SmallMod(b, p);
  }

  /** A post-state leaf that the circuit recomputes from assigned wires. */
  lemma PostLeaf(p: int, h: Hash, key: int, a: int, b: int)
    requires FieldHash(p, h)
    ensures h(Assigned(p, key), (Assigned(p, a) - Assigned(p, b)) % p) == h(key, a - b)
    ensures h(Assigned(p, key), (Assigned(p, a) + Assigned(p, b)) % p) == h(key, a + b)
  {
    ArithmeticAssigned(p, a, b);
    AssignedIsElement(p, key);
    AssignedIsElement(p, a - b);
    AssignedIsElement(p, a + b);
    assert (a - b) % p == Assigned(p, a - b) && (a + b) % p == Assigned(p, a + b);
    hide FieldHash, Assigned, Cong;
    HashOfResidues(p, h, Assigned(p, key), Assigned(p, a - b), key, a - b);
    HashOfResidues(p, h, Assigned(p, key), Assigned(p, a + b), key, a + b);
  }

  function TransferWitness(p: int, h: Hash, root: int, source: int, target: int, amount: int, balanceFrom: int,
                           balanceTo: int, proof: Proof): Transfer
    requires p > 0
  {
    var post := h(h(source, balanceFrom - amount), h(target, balanceTo + amount));
    Transfer(Assigned(p, root), Assigned(p, post), Assigned(p, source), Assigned(p, target), Assigned(p, amount),
             Assigned(p, balanceFrom), Assigned(p, balanceTo), proof.elements, proof.indices)
  }

  lemma TransferWitnessPost(p: int, h: Hash, root: int, source: int, target: int, amount: int, balanceFrom: int,
                            balanceTo: int, proof: Proof)
    requires FieldHash(p, h)
    ensures TransferPost(p, h, TransferWitness(p, h, root, source, target, amount, balanceFrom, balanceTo, proof))
  {
    PostLeaf(p, h, source, balanceFrom, amount);
    PostLeaf(p, h, target, balanceTo, amount);
    HashAssigned(p, h, h(source, balanceFrom - amount), h(target, balanceTo + amount));
    hide FieldHash, Assigned;
  }

  lemma TransferWitnessWires(p: int, h: Hash, root: int, source: int, target: int, amount: int, balanceFrom: int,
                             balanceTo: int, proof: Proof)
    requires p > 0 && PathWires(p, proof.elements, proof.indices, 20)
    ensures TransferWires(p, TransferWitness(p, h, root, source, target, amount, balanceFrom, balanceTo, proof))
  {
    hide PathWires;
  }

  /**
   * `buildTransferWitness`. When the sender's leaf is in the tree the witness satisfies the circuit exactly if the
   * balance covers the amount with less than 2^64 to spare, or the difference wraps around.
   */
  method BuildTransfer(p: int, tree: MerkleTree, fromIdx: int, source: int, target: int, amount: int, balanceFrom: int,
                       balanceTo: int) returns (r: Result<Transfer, BuildError>)
    requires IsField(p) && FieldHash(p, tree.h) && tree.Valid()
    ensures r == Err(NoLeaf) <==> !(0 <= fromIdx < |tree.leaves|)
    ensures r == Err(ShortProof) <==> 0 <= fromIdx < |tree.leaves| && tree.depth < 20
    ensures r.Ok? ==> TransferWires(p, r.value) && r.value.preRoot == Assigned(p, tree.root)
    ensures r.Ok? ==> r.value.source == Assigned(p, source) && r.value.target == Assigned(p, target)
    ensures r.Ok? ==> r.value.amount == Assigned(p, amount)
    ensures r.Ok? ==> r.value.balanceFrom == Assigned(p, balanceFrom) && r.value.balanceTo == Assigned(p, balanceTo)
    ensures HasLeaf(p, tree, 20, fromIdx, source, balanceFrom) ==>
      r.Ok? && (TransferSatisfied(p, tree.h, r.value) <==> Covers(p, Assigned(p, balanceFrom), Assigned(p, amount)))
  {
    FieldIsPositive(p);
    hide IsField, FieldHash, PathWires, PathLeads, DifferenceFits, Covers, TransferPost, TransferWires, Assigned;
    var proof := ProofFields(p, tree, fromIdx, 20);
    if proof.Err? { return Err(proof.error); }
    var w := TransferWitness(p, tree.h, tree.root, source, target, amount, balanceFrom, balanceTo, proof.value);
    TransferWitnessWires(p, tree.h, tree.root, source, target, amount, balanceFrom, balanceTo, proof.value);
    TransferWitnessPost(p, tree.h, tree.root, source, target, amount, balanceFrom, balanceTo, proof.value);
    FitsIff(p, balanceFrom, amount);
    if HasLeaf(p, tree, 20, fromIdx, source, balanceFrom) {
      MemberLeads(p, tree, 20, fromIdx, source, balanceFrom);
    }
    return Ok(w);
  }

  function BurnWitness(p: int, h: Hash, root: int, source: int, amount: int, balanceFrom: int, proof: Proof): Burn
    requires p > 0
  {
    Burn(Assigned(p, root), Assigned(p, h(source, balanceFrom - amount)), Assigned(p, source), Assigned(p, amount),
         Assigned(p, balanceFrom), proof.elements, proof.indices)
  }

  lemma BurnWitnessWires(p: int, h: Hash, root: int, source: int, amount: int, balanceFrom: int, proof: Proof)
    requires p > 0 && PathWires(p, proof.elements, proof.indices, 20)
    ensures BurnWires(p, BurnWitness(p, h, root, source, amount, balanceFrom, proof))
  {
    hide PathWires;
  }

  lemma BurnWitnessPost(p: int, h: Hash, root: int, source: int, amount: int, balanceFrom: int, proof: Proof)
    requires FieldHash(p, h)
    ensures BurnPost(p, h, BurnWitness(p, h, root, source, amount, balanceFrom, proof))
  {
    PostLeaf(p, h, source, balanceFrom, amount);
    HashAssigned(p, h, source, balanceFrom - amount);
    hide FieldHash, Assigned;
  }

  /** `buildBurnWitness`. */
  method BuildBurn(p: int, tree: MerkleTree, fromIdx: int, source: int, amount: int, balanceFrom: int)
      returns (r: Result<Burn, BuildError>)
    requires IsField(p) && FieldHash(p, tree.h) && tree.Valid()
    ensures r == Err(NoLeaf) <==> !(0 <= fromIdx < |tree.leaves|)
    ensures r == Err(ShortProof) <==> 0 <= fromIdx < |tree.leaves| && tree.depth < 20
    ensures r.Ok? ==> BurnWires(p, r.value) && r.value.preRoot == Assigned(p, tree.root)
    ensures r.Ok? ==> r.value.source == Assigned(p, source) && r.value.amount == Assigned(p, amount)
    ensures r.Ok? ==> r.value.balanceFrom == Assigned(p, balanceFrom)
    ensures HasLeaf(p, tree, 20, fromIdx, source, balanceFrom) ==>
      r.Ok? && (BurnSatisfied(p, tree.h, r.value) <==> Covers(p, Assigned(p, balanceFrom), Assigned(p, amount)))
  {
    FieldIsPositive(p);
    hide IsField, FieldHash, PathWires, PathLeads, DifferenceFits, Covers, BurnPost, BurnWires, Assigned;
    var proof := ProofFields(p, tree, fromIdx, 20);
    if proof.Err? { return Err(proof.error); }
    var w := BurnWitness(p, tree.h, tree.root, source, amount, balanceFrom, proof.value);
    BurnWitnessWires(p, tree.h, tree.root, source, amount, balanceFrom, proof.value);
    BurnWitnessPost(p, tree.h, tree.root, source, amount, balanceFrom, proof.value);
    FitsIff(p, balanceFrom, amount);
    if HasLeaf(p, tree, 20, fromIdx, source, balanceFrom) {
      MemberLeads(p, tree, 20, fromIdx, source, balanceFrom);
    }
    return Ok(w);
  }

  function TransferFromWitness(p: int, h: Hash, balanceRoot: int, allowanceRoot: int, source: int, target: int,
                               caller: int, amount: int, balanceFrom: int, allowanceFrom: int,
                               balanceProof: Proof, allowanceProof: Proof): TransferFrom
    requires p > 0
  {
    var post := h(h(source, balanceFrom - amount), h(h(source, caller), allowanceFrom - amount));
    TransferFrom(
      Assigned(p, h(balanceRoot, allowanceRoot)), Assigned(p, post), Assigned(p, source), Assigned(p, target),
      Assigned(p, caller), Assigned(p, amount), Assigned(p, balanceFrom), Assigned(p, allowanceFrom),
      balanceProof.elements, balanceProof.indices, allowanceProof.elements, allowanceProof.indices)
  }

  lemma TransferFromWitnessWires(p: int, h: Hash, balanceRoot: int, allowanceRoot: int, source: int, target: int,
                                 caller: int, amount: int, balanceFrom: int, allowanceFrom: int,
                                 balanceProof: Proof, allowanceProof: Proof)
    requires p > 0 && PathWires(p, balanceProof.elements, balanceProof.indices, 10)
    requires PathWires(p, allowanceProof.elements, allowanceProof.indices, 10)
    ensures TransferFromWires(p, TransferFromWitness(p, h, balanceRoot, allowanceRoot, source, target, caller, amount,
                                                     balanceFrom, allowanceFrom, balanceProof, allowanceProof))
  {
    hide PathWires;
  }

  lemma TransferFromWitnessPost(p: int, h: Hash, balanceRoot: int, allowanceRoot: int, source: int, target: int,
                                caller: int, amount: int, balanceFrom: int, allowanceFrom: int,
                                balanceProof: Proof, allowanceProof: Proof)
    requires FieldHash(p, h)
    ensures TransferFromPost(p, h, TransferFromWitness(p, h, balanceRoot, allowanceRoot, source, target, caller, amount,
                                                       balanceFrom, allowanceFrom, balanceProof, allowanceProof))
  {
    var key := h(source, caller);
    HashAssigned(p, h, source, caller);
    PostLeaf(p, h, source, balanceFrom, amount);
    PostLeaf(p, h, key, allowanceFrom, amount);
    HashAssigned(p, h, h(source, balanceFrom - amount), h(key, allowanceFrom - amount));
    hide FieldHash, Assigned;
  }

  /** Two member leaves lead to the assigned composite root. */
  lemma MembersLead(p: int, t1: MerkleTree, t2: MerkleTree, depth: nat, i1: int, k1: int, v1: int,
                    i2: int, k2: int, v2: int)
    requires p > 1 && FieldHash(p, t1.h) && t1.h == t2.h && t1.Valid() && t2.Valid()
    requires HasLeaf(p, t1, depth, i1, k1, v1) && HasLeaf(p, t2, depth, i2, k2, v2)
    ensures var h := t1.h;
      var p1, p2 := AssignedProof(p, ProofOf(h, t1.leaves, depth, i1)), AssignedProof(p, ProofOf(h, t2.leaves, depth, i2));
      TwoPaths(h, h(Assigned(p, k1), Assigned(p, v1)), p1.elements, p1.indices,
               h(Assigned(p, k2), Assigned(p, v2)), p2.elements, p2.indices, Assigned(p, h(t1.root, t2.root)))
  {
    MemberLeads(p, t1, depth, i1, k1, v1);
    MemberLeads(p, t2, depth, i2, k2, v2);
    HashAssigned(p, t1.h, t1.root, t2.root);
    hide FieldHash, Fold, AllBoolean, Assigned, AssignedProof, ProofOf, HasLeaf;
  }

  /**
   * `buildTransferFromWitness`. With both leaves in their trees the witness satisfies the circuit exactly if the balance
   * and the allowance both cover the amount.
   */
  method BuildTransferFrom(p: int, balanceTree: MerkleTree, allowanceTree: MerkleTree, source: int, target: int,
                           caller: int, amount: int, balanceFrom: int, allowanceFrom: int,
                           balanceFromIdx: int, allowanceFromIdx: int) returns (r: Result<TransferFrom, BuildError>)
    requires IsField(p) && FieldHash(p, balanceTree.h) && balanceTree.Valid() && allowanceTree.Valid()
    requires allowanceTree.h == balanceTree.h
    ensures r == Err(NoLeaf) <==>
      !(0 <= balanceFromIdx < |balanceTree.leaves|) || !(0 <= allowanceFromIdx < |allowanceTree.leaves|)
    ensures r.Ok? ==> balanceTree.depth >= 10 && allowanceTree.depth >= 10 && TransferFromWires(p, r.value)
    ensures r.Ok? ==> r.value.preRoot == Assigned(p, balanceTree.h(balanceTree.root, allowanceTree.root))
    ensures r.Ok? ==> r.value.source == Assigned(p, source) && r.value.amount == Assigned(p, amount)
    ensures r.Ok? ==> r.value.target == Assigned(p, target) && r.value.caller == Assigned(p, caller)
    ensures r.Ok? ==> r.value.balanceFrom == Assigned(p, balanceFrom) && r.value.allowanceFrom == Assigned(p, allowanceFrom)
    ensures (HasLeaf(p, balanceTree, 10, balanceFromIdx, source, balanceFrom)
      && HasLeaf(p, allowanceTree, 10, allowanceFromIdx, balanceTree.h(source, caller), allowanceFrom)) ==>
      r.Ok? && (TransferFromSatisfied(p, balanceTree.h, r.value) <==>
        && Covers(p, Assigned(p, balanceFrom), Assigned(p, amount))
        && Covers(p, Assigned(p, allowanceFrom), Assigned(p, amount)))
  {
    FieldIsPositive(p);
    var h := balanceTree.h;
    var key := h(source, caller);
    hide IsField, FieldHash, PathWires, TwoPaths, DifferenceFits, Covers, TransferFromPost, TransferFromWires, Assigned,
         HasLeaf;
    var balanceProof := ProofFields(p, balanceTree, balanceFromIdx, 10);
    if balanceProof == Err(NoLeaf) { return Err(NoLeaf); }
    var allowanceProof := ProofFields(p, allowanceTree, allowanceFromIdx, 10);
    if allowanceProof == Err(NoLeaf) { return Err(NoLeaf); }
    LeafFits(p, balanceTree, 10, balanceFromIdx, source, balanceFrom);
    LeafFits(p, allowanceTree, 10, allowanceFromIdx, key, allowanceFrom);
    if balanceProof.Err? || allowanceProof.Err? { return Err(ShortProof); }
    var p1, p2 := balanceProof.value, allowanceProof.value;
    var b, a := balanceTree.root, allowanceTree.root;
    var w := TransferFromWitness(p, h, b, a, source, target, caller, amount, balanceFrom, allowanceFrom, p1, p2);
    TransferFromWitnessWires(p, h, b, a, source, target, caller, amount, balanceFrom, allowanceFrom, p1, p2);
    TransferFromWitnessPost(p, h, b, a, source, target, caller, amount, balanceFrom, allowanceFrom, p1, p2);
    FitsIff(p, balanceFrom, amount);
    FitsIff(p, allowanceFrom, amount);
    HashAssigned(p, h, source, caller);
    if HasLeaf(p, balanceTree, 10, balanceFromIdx, source, balanceFrom)
      && HasLeaf(p, allowanceTree, 10, allowanceFromIdx, key, allowanceFrom) {
      MembersLead(p, balanceTree, allowanceTree, 10, balanceFromIdx, source, balanceFrom,
                  allowanceFromIdx, key, allowanceFrom);
    }
    return Ok(w);
  }

  lemma LeafFits(p: int, tree: MerkleTree, depth: nat, index: int, key: int, value: int)
    requires p > 0
    ensures HasLeaf(p, tree, depth, index, key, value) ==> tree.depth == depth && 0 <= index < |tree.leaves|
  {
  }

  /** `BigInt(maxChoices || 256)`. */
  function MaxOrDefault(maxChoices: int): int
  {
    if maxChoices == 0 then 256 else maxChoices
  }

  function VoteCastWitness(p: int, h: Hash, root: int, pollId: int, secret: int, choice: int, weight: int,
                           maxChoices: int, proof: Proof): VoteCast
    requires p > 0
  {
    VoteCast(Assigned(p, pollId), Assigned(p, root), Assigned(p, h(secret, pollId)), Assigned(p, h(secret, choice)),
             Assigned(p, maxChoices), Assigned(p, secret), Assigned(p, choice), Assigned(p, weight),
             proof.elements, proof.indices)
  }

  lemma VoteCastWitnessWires(p: int, h: Hash, root: int, pollId: int, secret: int, choice: int, weight: int,
                             maxChoices: int, proof: Proof)
    requires p > 0 && PathWires(p, proof.elements, proof.indices, 20)
    ensures VoteCastWires(p, VoteCastWitness(p, h, root, pollId, secret, choice, weight, maxChoices, proof))
  {
    hide PathWires;
  }

  /**
   * `buildVoteCastWitness`. When the voter's leaf is in the registry the witness satisfies the circuit exactly for the
   * choices the range constraints admit.
   */
  method BuildVoteCast(p: int, tree: MerkleTree, voterIdx: int, pollId: int, secret: int, choice: int, weight: int,
                       maxChoices: int) returns (r: Result<VoteCast, BuildError>)
    requires IsField(p) && FieldHash(p, tree.h) && tree.Valid()
    ensures r == Err(NoLeaf) <==> !(0 <= voterIdx < |tree.leaves|)
    ensures r == Err(ShortProof) <==> 0 <= voterIdx < |tree.leaves| && tree.depth < 20
    ensures r.Ok? ==> VoteCastWires(p, r.value) && r.value.registryRoot == Assigned(p, tree.root)
    ensures r.Ok? ==> r.value.pollId == Assigned(p, pollId) && r.value.nullifier == tree.h(secret, pollId)
    ensures r.Ok? ==> r.value.commitment == tree.h(secret, choice)
    ensures r.Ok? ==> r.value.secret == Assigned(p, secret) && r.value.choice == Assigned(p, choice)
    ensures r.Ok? ==> r.value.weight == Assigned(p, weight) && r.value.maxChoices == Assigned(p, MaxOrDefault(maxChoices))
    ensures HasLeaf(p, tree, 20, voterIdx, secret, weight) ==>
      var c, m := Assigned(p, choice), Assigned(p, MaxOrDefault(maxChoices));
      r.Ok? && (VoteCastSatisfied(p, tree.h, r.value) <==> c <= 255 && c < m <= c + 256)
  {
    FieldIsPositive(p);
    var max := MaxOrDefault(maxChoices);
    AssignedIsElement(p, choice);
    AssignedIsElement(p, max);
    VoteRangeCheck(p, Assigned(p, choice), Assigned(p, max));
    hide IsField, FieldHash, PathWires, PathLeads, ChoiceFits, VoteCastWires, Assigned, HasLeaf;
    LeafFits(p, tree, 20, voterIdx, secret, weight);
    var proof := ProofFields(p, tree, voterIdx, 20);
    if proof.Err? { return Err(proof.error); }
    var w := VoteCastWitness(p, tree.h, tree.root, pollId, secret, choice, weight, max, proof.value);
    VoteCastWitnessWires(p, tree.h, tree.root, pollId, secret, choice, weight, max, proof.value);
    HashAssigned(p, tree.h, secret, pollId);
    HashAssigned(p, tree.h, secret, choice);
    if HasLeaf(p, tree, 20, voterIdx, secret, weight) {
      MemberLeads(p, tree, 20, voterIdx, secret, weight);
    }
    return Ok(w);
  }

  function VestClaimWitness(p: int, h: Hash, scheduleRoot: int, ownerRoot: int, tokenId: int, caller: int,
                            claimAmount: int, vestedAmount: int, claimed: int, owner: int,
                            scheduleProof: Proof, ownerProof: Proof): VestClaim
    requires p > 0
  {
    VestClaim(
      Assigned(p, h(scheduleRoot, ownerRoot)), Assigned(p, h(tokenId, claimed + claimAmount)), Assigned(p, tokenId),
      Assigned(p, caller), Assigned(p, claimAmount), Assigned(p, vestedAmount), Assigned(p, claimed), Assigned(p, owner),
      scheduleProof.elements, scheduleProof.indices, ownerProof.elements, ownerProof.indices)
  }

  lemma VestClaimWitnessWires(p: int, h: Hash, scheduleRoot: int, ownerRoot: int, tokenId: int, caller: int,
                              claimAmount: int, vestedAmount: int, claimed: int, owner: int,
                              scheduleProof: Proof, ownerProof: Proof)
    requires p > 0 && PathWires(p, scheduleProof.elements, scheduleProof.indices, 10)
    requires PathWires(p, ownerProof.elements, ownerProof.indices, 10)
    ensures VestClaimWires(p, VestClaimWitness(p, h, scheduleRoot, ownerRoot, tokenId, caller, claimAmount, vestedAmount,
                                               claimed, owner, scheduleProof, ownerProof))
  {
    hide PathWires;
  }

  lemma VestClaimWitnessPost(p: int, h: Hash, scheduleRoot: int, ownerRoot: int, tokenId: int, caller: int,
                             claimAmount: int, vestedAmount: int, claimed: int, owner: int,
                             scheduleProof: Proof, ownerProof: Proof)
    requires FieldHash(p, h)
    ensures VestClaimPost(p, h, VestClaimWitness(p, h, scheduleRoot, ownerRoot, tokenId, caller, claimAmount,
                                                 vestedAmount, claimed, owner, scheduleProof, ownerProof))
  {
    PostLeaf(p, h, tokenId, claimed, claimAmount);
    HashAssigned(p, h, tokenId, claimed + claimAmount);
    hide FieldHash, Assigned;
  }

  lemma AvailableAssigned(p: int, vested: int, claimed: int, amount: int)
    requires p > 0
    ensures AvailableFits(p, Assigned(p, vested), Assigned(p, claimed), Assigned(p, amount))
      <==> DifferenceFits(p, vested - claimed, amount)
  {
    ArithmeticAssigned(p, vested, claimed);
    FitsAssigned(p, vested - claimed, amount);
    hide DifferenceFits;
  }

  /** With both leaves in their trees the built claim satisfies the circuit exactly for the owner and a covered amount. */
  lemma BuiltClaimSatisfiedIff(p: int, scheduleTree: MerkleTree, ownerTree: MerkleTree, tokenId: int, caller: int,
                               claimAmount: int, vestedAmount: int, claimed: int, owner: int, scheduleIdx: int, ownerIdx: int)
    requires IsField(p) && FieldHash(p, scheduleTree.h) && scheduleTree.Valid() && ownerTree.Valid()
    requires ownerTree.h == scheduleTree.h
    requires HasLeaf(p, scheduleTree, 10, scheduleIdx, tokenId, vestedAmount)
    requires HasLeaf(p, ownerTree, 10, ownerIdx, tokenId, owner)
    ensures p > 0 && scheduleIdx >= 0 && ownerIdx >= 0
    ensures var h := scheduleTree.h;
      var p1 := AssignedProof(p, ProofOf(h, scheduleTree.leaves, 10, scheduleIdx));
      var p2 := AssignedProof(p, ProofOf(h, ownerTree.leaves, 10, ownerIdx));
      var w := VestClaimWitness(p, h, scheduleTree.root, ownerTree.root, tokenId, caller, claimAmount, vestedAmount,
                                claimed, owner, p1, p2);
      VestClaimSatisfied(p, h, w) <==>
        && Assigned(p, owner) == Assigned(p, caller)
        && Covers(p, Assigned(p, vestedAmount - claimed), Assigned(p, claimAmount))
  {
    FieldIsPositive(p);
    LeafFits(p, scheduleTree, 10, scheduleIdx, tokenId, vestedAmount);
    LeafFits(p, ownerTree, 10, ownerIdx, tokenId, owner);
    var h, s, o := scheduleTree.h, scheduleTree.root, ownerTree.root;
    hide IsField, FieldHash, AvailableFits, DifferenceFits, Covers, TwoPaths, VestClaimPost, Assigned, AssignedProof, ProofOf,
         HasLeaf;
    AvailableAssigned(p, vestedAmount, claimed, claimAmount);
    FitsIff(p, vestedAmount - claimed, claimAmount);
    MembersLead(p, scheduleTree, ownerTree, 10, scheduleIdx, tokenId, vestedAmount, ownerIdx, tokenId, owner);
    var p1 := AssignedProof(p, ProofOf(h, scheduleTree.leaves, 10, scheduleIdx));
    var p2 := AssignedProof(p, ProofOf(h, ownerTree.leaves, 10, ownerIdx));
    VestClaimWitnessPost(p, h, s, o, tokenId, caller, claimAmount, vestedAmount, claimed, owner, p1, p2);
  }

  /**
   * `buildVestClaimWitness`. With both leaves in their trees the witness satisfies the circuit exactly if the caller is
   * the owner and what is vested and not yet claimed covers the claim.
   */
  method BuildVestClaim(p: int, scheduleTree: MerkleTree, ownerTree: MerkleTree, tokenId: int, caller: int,
                        claimAmount: int, vestedAmount: int, claimed: int, owner: int, scheduleIdx: int, ownerIdx: int)
      returns (r: Result<VestClaim, BuildError>)
    requires IsField(p) && FieldHash(p, scheduleTree.h) && scheduleTree.Valid() && ownerTree.Valid()
    requires ownerTree.h == scheduleTree.h
    ensures r == Err(NoLeaf) <==>
      !(0 <= scheduleIdx < |scheduleTree.leaves|) || !(0 <= ownerIdx < |ownerTree.leaves|)
    ensures r.Ok? ==> scheduleTree.depth >= 10 && ownerTree.depth >= 10 && VestClaimWires(p, r.value)
    ensures r.Ok? ==> r.value.preRoot == Assigned(p, scheduleTree.h(scheduleTree.root, ownerTree.root))
    ensures r.Ok? ==> r.value.tokenId == Assigned(p, tokenId) && r.value.caller == Assigned(p, caller)
    ensures r.Ok? ==> r.value.claimAmount == Assigned(p, claimAmount) && r.value.owner == Assigned(p, owner)
    ensures r.Ok? ==> r.value.vestedAmount == Assigned(p, vestedAmount) && r.value.claimed == Assigned(p, claimed)
    ensures (HasLeaf(p, scheduleTree, 10, scheduleIdx, tokenId, vestedAmount)
      && HasLeaf(p, ownerTree, 10, ownerIdx, tokenId, owner)) ==>
      r.Ok? && (VestClaimSatisfied(p, scheduleTree.h, r.value) <==>
        && Assigned(p, owner) == Assigned(p, caller)
        && Covers(p, Assigned(p, vestedAmount - claimed), Assigned(p, claimAmount)))
  {
    FieldIsPositive(p);
    var h := scheduleTree.h;
    hide IsField, FieldHash, PathWires, VestClaimSatisfied, VestClaimWires, Covers, Assigned, AssignedProof, HasLeaf;
    var scheduleProof := ProofFields(p, scheduleTree, scheduleIdx, 10);
    if scheduleProof == Err(NoLeaf) { return Err(NoLeaf); }
    var ownerProof := ProofFields(p, ownerTree, ownerIdx, 10);
    if ownerProof == Err(NoLeaf) { return Err(NoLeaf); }
    LeafFits(p, scheduleTree, 10, scheduleIdx, tokenId, vestedAmount);
    LeafFits(p, ownerTree, 10, ownerIdx, tokenId, owner);
    if scheduleProof.Err? || ownerProof.Err? { return Err(ShortProof); }
    var p1, p2 := scheduleProof.value, ownerProof.value;
    var s, o := scheduleTree.root, ownerTree.root;
    var w := VestClaimWitness(p, h, s, o, tokenId, caller, claimAmount, vestedAmount, claimed, owner, p1, p2);
    VestClaimWitnessWires(p, h, s, o, tokenId, caller, claimAmount, vestedAmount, claimed, owner, p1, p2);
    if HasLeaf(p, scheduleTree, 10, scheduleIdx, tokenId, vestedAmount)
      && HasLeaf(p, ownerTree, 10, ownerIdx, tokenId, owner) {
      BuiltClaimSatisfiedIff(p, scheduleTree, ownerTree, tokenId, caller, claimAmount, vestedAmount, claimed, owner,
                             scheduleIdx, ownerIdx);
    }
    return Ok(w);
  }
}
