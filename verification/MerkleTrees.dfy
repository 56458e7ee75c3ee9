/** The sparse incremental tree of public/merkle.js and the dense tree of arc/merkle.go, over any hash function. */
module MerkleTrees {
  import opened Wrappers
  import opened Sets
  import opened FieldRoots
  import opened MerklePath

  // ---- The reference: nodes of the infinite zero-extended tree --------------------------------

  function LeafAt(leaves: seq<int>, i: nat): int
  {
    if i < |leaves| then leaves[i] else 0
  }

  function Node(h: Hash, leaves: seq<int>, level: nat, i: nat): int
  {
    if level == 0 then LeafAt(leaves, i)
    else h(Node(h, leaves, level - 1, 2 * i), Node(h, leaves, level - 1, 2 * i + 1))
  }

  function ZeroHash(h: Hash, level: nat): int
  {
    if level == 0 then 0 else h(ZeroHash(h, level - 1), ZeroHash(h, level - 1))
  }

  /** Index of the node above leaf `i` at `level`. */
  function Ancestor(i: nat, level: nat): nat
  {
    if level == 0 then i else Ancestor(i, level - 1) / 2
  }

  // One-step facts; the proofs below hide the recursive definitions.

  lemma NodeStep(h: Hash, leaves: seq<int>, level: nat, i: nat)
    ensures Node(h, leaves, 0, i) == LeafAt(leaves, i)
    ensures Node(h, leaves, level + 1, i) == h(Node(h, leaves, level, 2 * i), Node(h, leaves, level, 2 * i + 1))
  {
  }

  lemma AncestorStep(i: nat, level: nat)
    ensures Ancestor(i, 0) == i
    ensures Ancestor(i, level + 1) == Ancestor(i, level) / 2
  {
  }

  lemma ZeroStep(h: Hash, level: nat)
    ensures ZeroHash(h, 0) == 0
    ensures ZeroHash(h, level + 1) == h(ZeroHash(h, level), ZeroHash(h, level))
  {
  }

  /** Hashing a node with its sibling, in the order of its parity, gives the node above. */
  lemma StepClimbs(h: Hash, leaves: seq<int>, level: nat, i: nat)
    ensures Step(h, Node(h, leaves, level, i), Node(h, leaves, level, Sibling(i)), i % 2)
         == Node(h, leaves, level + 1, i / 2)
  {
    NodeStep(h, leaves, level, i / 2);
    hide Node;
  }

  function Sibling(i: nat): nat
  {
    if i % 2 == 1 then i - 1 else i + 1
  }

  lemma SiblingIs(i: nat)
    ensures Sibling(i) == if i % 2 == 1 then i - 1 else i + 1
  {
  }

  lemma {:induction false} AncestorBound(i: nat, level: nat, depth: nat)
    requires i < Pow2(depth) && level <= depth
    ensures Ancestor(i, level) < Pow2(depth - level)
  {
    if level > 0 {
      AncestorBound(i, level - 1, depth);
      Pow2Step(depth - level);
    }
  }

  lemma RootAncestor(i: nat, depth: nat)
    requires i < Pow2(depth)
    ensures Ancestor(i, depth) == 0
  {
    AncestorBound(i, depth, depth);
    Pow2Step(0);
  }

  /** A tree node above leaves that are all zero is the zero hash. */
  lemma {:induction false} EmptySubtree(h: Hash, leaves: seq<int>, level: nat, i: nat)
    requires forall j: nat :: Ancestor(j, level) == i ==> LeafAt(leaves, j) == 0
    ensures Node(h, leaves, level, i) == ZeroHash(h, level)
  {
    if level == 0 {
      assert Ancestor(i, 0) == i;
    } else {
      EmptySubtree(h, leaves, level - 1, 2 * i);
      EmptySubtree(h, leaves, level - 1, 2 * i + 1);
    }
  }

  /** Changing one leaf changes nodes on its path alone. */
  lemma {:induction false} OffPathUnchanged(h: Hash, leaves: seq<int>, leaves': seq<int>, index: nat, level: nat, i: nat)
    requires forall j: nat :: j != index ==> LeafAt(leaves', j) == LeafAt(leaves, j)
    requires i != Ancestor(index, level)
    ensures Node(h, leaves', level, i) == Node(h, leaves, level, i)
  {
    if level > 0 {
      OffPathUnchanged(h, leaves, leaves', index, level - 1, 2 * i);
      OffPathUnchanged(h, leaves, leaves', index, level - 1, 2 * i + 1);
    }
  }

  // ---- Proofs ----------------------------------------------------------------------------------

  datatype Proof = Proof(elements: seq<int>, indices: seq<int>)

  function ProofOf(h: Hash, leaves: seq<int>, depth: nat, index: nat): Proof
  {
    Proof(seq(depth, l requires 0 <= l < depth => Node(h, leaves, l, Sibling(Ancestor(index, l)))),
          seq(depth, l requires 0 <= l < depth => Ancestor(index, l) % 2))
  }

  /** The first `level` entries of the proof of leaf `index`. */
  ghost predicate ProofPrefix(h: Hash, leaves: seq<int>, index: nat, level: nat, elements: seq<int>, indices: seq<int>)
  {
    && |elements| == |indices| == level
    && forall l: nat :: l < level ==>
      elements[l] == Node(h, leaves, l, Sibling(Ancestor(index, l))) && indices[l] == Ancestor(index, l) % 2
  }

  lemma PrefixStart(h: Hash, leaves: seq<int>, index: nat)
    ensures ProofPrefix(h, leaves, index, 0, [], [])
  {
  }

  lemma PrefixStep(h: Hash, leaves: seq<int>, index: nat, level: nat, elements: seq<int>, indices: seq<int>, idx: nat,
                   sibling: int)
    requires ProofPrefix(h, leaves, index, level, elements, indices)
    requires idx == Ancestor(index, level) && sibling == Node(h, leaves, level, Sibling(idx))
    ensures ProofPrefix(h, leaves, index, level + 1, elements + [sibling], indices + [idx % 2])
  {
    hide Node, Ancestor;
  }

  lemma PrefixFull(h: Hash, leaves: seq<int>, index: nat, depth: nat, elements: seq<int>, indices: seq<int>)
    requires ProofPrefix(h, leaves, index, depth, elements, indices)
    ensures Proof(elements, indices) == ProofOf(h, leaves, depth, index)
  {
    hide Node, Ancestor;
    var pr := ProofOf(h, leaves, depth, index);
    assert pr.elements == elements && pr.indices == indices;
  }

  /** The fold of a proof from level `l` on reaches the node above the leaf. */
  lemma {:induction false} FoldClimbs(h: Hash, leaves: seq<int>, depth: nat, index: nat, l: nat)
    requires l <= depth
    ensures var pr := ProofOf(h, leaves, depth, index);
      Fold(h, Node(h, leaves, l, Ancestor(index, l)), pr.elements[l..], pr.indices[l..])
      == Node(h, leaves, depth, Ancestor(index, depth))
    decreases depth - l
  {
    hide Node, Ancestor, Fold, Step;
    if l < depth {
      var pr := ProofOf(h, leaves, depth, index);
      FoldClimbs(h, leaves, depth, index, l + 1);
      FoldStep(h, Node(h, leaves, l, Ancestor(index, l)), pr.elements, pr.indices, l);
      StepClimbs(h, leaves, l, Ancestor(index, l));
      AncestorStep(index, l);
    } else {
      var pr := ProofOf(h, leaves, depth, index);
      FoldEnd(h, Node(h, leaves, l, Ancestor(index, l)), pr.elements, pr.indices);
    }
  }

  /** The fold of a leaf's proof is the node above it at the root level. */
  lemma ProofFolds(h: Hash, leaves: seq<int>, depth: nat, index: nat)
    ensures var pr := ProofOf(h, leaves, depth, index);
      Fold(h, LeafAt(leaves, index), pr.elements, pr.indices) == Node(h, leaves, depth, Ancestor(index, depth))
  {
    var pr := ProofOf(h, leaves, depth, index);
    FoldClimbs(h, leaves, depth, index, 0);
    FoldStart(h, LeafAt(leaves, index), pr.elements, pr.indices);
  }

  /** The proof of every leaf that fits in the tree verifies. */
  lemma ProofVerifies(h: Hash, leaves: seq<int>, depth: nat, index: nat)
    requires index < Pow2(depth)
    ensures var pr := ProofOf(h, leaves, depth, index);
      Fold(h, LeafAt(leaves, index), pr.elements, pr.indices) == Node(h, leaves, depth, 0)
  {
    RootAncestor(index, depth);
    ProofFolds(h, leaves, depth, index);
  }

  // ---- Leaves beyond the tree --------------------------------------------------------------------------

  /** The leaves below node `a` of a level are, one by one, those below node `b`. */
  ghost predicate SameLeaves(leaves: seq<int>, level: nat, a: nat, b: nat)
  {
    forall j: nat :: j < Pow2(level) ==> LeafUnder(leaves, level, a, j) == LeafUnder(leaves, level, b, j)
  }

  /** Leaf `j` of those below node `a` of a level. */
  function LeafUnder(leaves: seq<int>, level: nat, a: nat, j: nat): int
  {
    Products(a, Pow2(level));
    LeafAt(leaves, a * Pow2(level) + j)
  }

  lemma Products(a: nat, b: nat)
    ensures a * b >= 0
  {
  }

  lemma UnderChild(leaves: seq<int>, level: nat, a: nat, j: nat)
    requires level > 0
    ensures LeafUnder(leaves, level, a, j) == LeafUnder(leaves, level - 1, 2 * a, j)
    ensures LeafUnder(leaves, level, a, j + Pow2(level - 1)) == LeafUnder(leaves, level - 1, 2 * a + 1, j)
  {
    Pow2Step(level - 1);
    var p, q := Pow2(level - 1), Pow2(level);
    assert q == 2 * p;
    assert a * q == (2 * a) * p && a * q + p == (2 * a + 1) * p;
    hide Pow2;
  }

  lemma SameHalves(leaves: seq<int>, level: nat, a: nat, b: nat)
    requires level > 0
    ensures SameLeaves(leaves, level, a, b) <==>
      SameLeaves(leaves, level - 1, 2 * a, 2 * b) && SameLeaves(leaves, level - 1, 2 * a + 1, 2 * b + 1)
  {
    Pow2Step(level - 1);
    var l, p := level - 1, Pow2(level - 1);
    var a0, a1, b0, b1 := 2 * a, 2 * a + 1, 2 * b, 2 * b + 1;
    forall j: nat | j < p
      ensures LeafUnder(leaves, level, a, j) == LeafUnder(leaves, l, a0, j)
      ensures LeafUnder(leaves, level, b, j) == LeafUnder(leaves, l, b0, j)
      ensures LeafUnder(leaves, level, a, j + p) == LeafUnder(leaves, l, a1, j)
      ensures LeafUnder(leaves, level, b, j + p) == LeafUnder(leaves, l, b1, j)
    {
      UnderChild(leaves, level, a, j);
      UnderChild(leaves, level, b, j);
    }
    hide LeafUnder, Pow2;
    if SameLeaves(leaves, l, a0, b0) && SameLeaves(leaves, l, a1, b1) {
      forall j: nat | j < Pow2(level)
        ensures LeafUnder(leaves, level, a, j) == LeafUnder(leaves, level, b, j)
      {
        if j >= p {
          assert LeafUnder(leaves, l, a1, j - p) == LeafUnder(leaves, l, b1, j - p);
          assert LeafUnder(leaves, level, a, (j - p) + p) == LeafUnder(leaves, level, b, (j - p) + p);
        }
      }
    }
    if SameLeaves(leaves, level, a, b) {
      forall j: nat | j < p
        ensures LeafUnder(leaves, l, a1, j) == LeafUnder(leaves, l, b1, j)
      {
        assert LeafUnder(leaves, level, a, j + p) == LeafUnder(leaves, level, b, j + p);
      }
    }
  }

  /** The pairs that nodes `x` and `y` of level `l` + 1 hash are a collision. */
  predicate MeetsAt(h: Hash, leaves: seq<int>, l: nat, x: nat, y: nat)
  {
    Collision(h, Node(h, leaves, l, 2 * x), Node(h, leaves, l, 2 * x + 1), Node(h, leaves, l, 2 * y), Node(h, leaves, l, 2 * y + 1))
  }

  /** How two nodes of a level come to be equal: by a collision below, or by their halves down to the leaves. */
  predicate Joined(h: Hash, leaves: seq<int>, level: nat, a: nat, b: nat)
  {
    if level == 0 then LeafAt(leaves, a) == LeafAt(leaves, b)
    else
      || MeetsAt(h, leaves, level - 1, a, b)
      || (Joined(h, leaves, level - 1, 2 * a, 2 * b) && Joined(h, leaves, level - 1, 2 * a + 1, 2 * b + 1))
  }

  lemma {:induction false} JoinedIff(h: Hash, leaves: seq<int>, level: nat, a: nat, b: nat)
    ensures Joined(h, leaves, level, a, b) <==> Node(h, leaves, level, a) == Node(h, leaves, level, b)
  {
    if level > 0 {
      JoinedIff(h, leaves, level - 1, 2 * a, 2 * b);
      JoinedIff(h, leaves, level - 1, 2 * a + 1, 2 * b + 1);
    }
  }

  lemma {:induction false} SameLeavesJoin(h: Hash, leaves: seq<int>, level: nat, a: nat, b: nat)
    requires SameLeaves(leaves, level, a, b)
    ensures Joined(h, leaves, level, a, b)
  {
    if level == 0 {
      Pow2Step(0);
      assert LeafUnder(leaves, 0, a, 0) == LeafUnder(leaves, 0, b, 0);
    } else {
      SameHalves(leaves, level, a, b);
      SameLeavesJoin(h, leaves, level - 1, 2 * a, 2 * b);
      SameLeavesJoin(h, leaves, level - 1, 2 * a + 1, 2 * b + 1);
    }
  }

  /** The collision, below the two nodes, that joins them when their leaves differ. */
  ghost predicate CollidesBelow(h: Hash, leaves: seq<int>, level: nat, a: nat, b: nat)
  {
    exists l: nat, x: nat, y: nat :: BelowBoth(level, a, b, l, x, y) && MeetsAt(h, leaves, l, x, y)
  }

  predicate BelowBoth(level: nat, a: nat, b: nat, l: nat, x: nat, y: nat)
  {
    l < level && Ancestor(x, level - 1 - l) == a && Ancestor(y, level - 1 - l) == b
  }

  lemma {:induction false} OtherLeavesCollide(h: Hash, leaves: seq<int>, level: nat, a: nat, b: nat)
    requires Joined(h, leaves, level, a, b)
    ensures SameLeaves(leaves, level, a, b) || CollidesBelow(h, leaves, level, a, b)
  {
    if level == 0 {
      Pow2Step(0);
      assert LeafUnder(leaves, 0, a, 0) == LeafUnder(leaves, 0, b, 0);
    } else if MeetsAt(h, leaves, level - 1, a, b) {
      assert BelowBoth(level, a, b, level - 1, a, b);
    } else {
      SameHalves(leaves, level, a, b);
      OtherLeavesCollide(h, leaves, level - 1, 2 * a, 2 * b);
      OtherLeavesCollide(h, leaves, level - 1, 2 * a + 1, 2 * b + 1);
      hide SameLeaves;
      CollisionAbove(h, leaves, level, a, b, 2 * a, 2 * b);
      CollisionAbove(h, leaves, level, a, b, 2 * a + 1, 2 * b + 1);
    }
  }

  lemma CollisionAbove(h: Hash, leaves: seq<int>, level: nat, a: nat, b: nat, c: nat, d: nat)
    requires level > 0 && c / 2 == a && d / 2 == b
    ensures CollidesBelow(h, leaves, level - 1, c, d) ==> CollidesBelow(h, leaves, level, a, b)
  {
    if CollidesBelow(h, leaves, level - 1, c, d) {
      var l: nat, x: nat, y: nat :| BelowBoth(level - 1, c, d, l, x, y) && MeetsAt(h, leaves, l, x, y);
      AncestorStep(x, level - 2 - l);
      AncestorStep(y, level - 2 - l);
      assert BelowBoth(level, a, b, l, x, y);
    }
  }

  /**
   * Exactly when the proof of a leaf verifies: always within the tree; beyond it, if the node above the leaf at the root
   * level comes to be the root, which without a collision between the two is for the same leaves alone.
   */
  lemma ProofVerifiesIff(h: Hash, leaves: seq<int>, depth: nat, index: nat)
    ensures var pr, a := ProofOf(h, leaves, depth, index), Ancestor(index, depth);
      var verifies := Fold(h, LeafAt(leaves, index), pr.elements, pr.indices) == Node(h, leaves, depth, 0);
      && (index < Pow2(depth) ==> verifies)
      && (verifies <==> Joined(h, leaves, depth, a, 0))
      && (SameLeaves(leaves, depth, a, 0) ==> verifies)
      && (verifies && !SameLeaves(leaves, depth, a, 0) ==> CollidesBelow(h, leaves, depth, a, 0))
  {
    var a := Ancestor(index, depth);
    ProofFolds(h, leaves, depth, index);
    if index < Pow2(depth) { ProofVerifies(h, leaves, depth, index); }
    JoinedIff(h, leaves, depth, a, 0);
    hide *;
    if SameLeaves(leaves, depth, a, 0) { SameLeavesJoin(h, leaves, depth, a, 0); }
    if Joined(h, leaves, depth, a, 0) { OtherLeavesCollide(h, leaves, depth, a, 0); }
  }

  /** The node that the path computes at level `l`. */
  function PathNode(h: Hash, leaf: int, elements: seq<int>, indices: seq<int>, l: nat): int
    requires l <= |elements| == |indices|
  {
    Fold(h, leaf, elements[..l], indices[..l])
  }

  lemma {:induction false} FoldAppend(h: Hash, leaf: int, elements: seq<int>, indices: seq<int>, e: int, i: int)
    requires |elements| == |indices|
    ensures Fold(h, leaf, elements + [e], indices + [i]) == Step(h, Fold(h, leaf, elements, indices), e, i)
    decreases elements
  {
    if elements != [] {
      assert (elements + [e])[1..] == elements[1..] + [e] && (indices + [i])[1..] == indices[1..] + [i];
      FoldAppend(h, Step(h, leaf, elements[0], indices[0]), elements[1..], indices[1..], e, i);
    }
  }

  lemma PathNodeStep(h: Hash, leaf: int, elements: seq<int>, indices: seq<int>, l: nat)
    requires l < |elements| == |indices|
    ensures PathNode(h, leaf, elements, indices, l + 1)
         == Step(h, PathNode(h, leaf, elements, indices, l), elements[l], indices[l])
    ensures PathNode(h, leaf, elements, indices, 0) == leaf
  {
    assert elements[..l + 1] == elements[..l] + [elements[l]] && indices[..l + 1] == indices[..l] + [indices[l]];
    FoldAppend(h, leaf, elements[..l], indices[..l], elements[l], indices[l]);
  }

  /** Two different pairs with the same hash. */
  predicate Collision(h: Hash, a: int, b: int, c: int, d: int)
  {
    (a != c || b != d) && h(a, b) == h(c, d)
  }

  /** At level `l` the pair hashed by the path and the pair hashed by the tree are a collision. */
  predicate CollidesAt(h: Hash, leaves: seq<int>, index: nat, leaf: int, elements: seq<int>, indices: seq<int>, l: nat)
    requires l < |elements| == |indices|
  {
    var current := PathNode(h, leaf, elements, indices, l);
    var parent := Ancestor(index, l) / 2;
    var a := if indices[l] == 1 then elements[l] else current;
    var b := if indices[l] == 1 then current else elements[l];
    Collision(h, a, b, Node(h, leaves, l, 2 * parent), Node(h, leaves, l, 2 * parent + 1))
  }

  /** Where the path leaves the tree and has joined it again one level up, it collides. */
  lemma RejoinCollides(h: Hash, leaves: seq<int>, index: nat, leaf: int, elements: seq<int>, indices: seq<int>, l: nat)
    requires l < |elements| == |indices| && indices[l] == Ancestor(index, l) % 2
    requires PathNode(h, leaf, elements, indices, l) != Node(h, leaves, l, Ancestor(index, l))
    requires PathNode(h, leaf, elements, indices, l + 1) == Node(h, leaves, l + 1, Ancestor(index, l + 1))
    ensures CollidesAt(h, leaves, index, leaf, elements, indices, l)
  {
    PathNodeStep(h, leaf, elements, indices, l);
    AncestorStep(index, l);
    NodeStep(h, leaves, l, Ancestor(index, l) / 2);
    hide Node, Ancestor, PathNode;
  }

  lemma {:induction false} WrongNodeCollides(h: Hash, leaves: seq<int>, index: nat, leaf: int,
                                             elements: seq<int>, indices: seq<int>, l: nat) returns (k: nat)
    requires l <= |elements| == |indices|
    requires forall k: nat :: k < |indices| ==> indices[k] == Ancestor(index, k) % 2
    requires PathNode(h, leaf, elements, indices, l) != Node(h, leaves, l, Ancestor(index, l))
    requires PathNode(h, leaf, elements, indices, |elements|) == Node(h, leaves, |elements|, Ancestor(index, |elements|))
    ensures k < |elements| && CollidesAt(h, leaves, index, leaf, elements, indices, k)
    decreases |elements| - l
  {
    hide Node, Ancestor, PathNode, CollidesAt;
    if PathNode(h, leaf, elements, indices, l + 1) == Node(h, leaves, l + 1, Ancestor(index, l + 1)) {
      k := l;
      RejoinCollides(h, leaves, index, leaf, elements, indices, l);
    } else {
      k := WrongNodeCollides(h, leaves, index, leaf, elements, indices, l + 1);
    }
  }

  /**
   * Soundness: a proof whose indices spell out a leaf position and that verifies against the root shows that leaf,
   * unless the path and the tree give a hash collision at one of its levels.
   */
  lemma ProofIsSound(h: Hash, leaves: seq<int>, depth: nat, index: nat, leaf: int, elements: seq<int>, indices: seq<int>)
    requires index < Pow2(depth) && |elements| == |indices| == depth
    requires forall k: nat :: k < depth ==> indices[k] == Ancestor(index, k) % 2
    requires Fold(h, leaf, elements, indices) == Node(h, leaves, depth, 0)
    ensures leaf == LeafAt(leaves, index)
      || exists l: nat :: l < depth && CollidesAt(h, leaves, index, leaf, elements, indices, l)
  {
    RootAncestor(index, depth);
    assert elements[..depth] == elements && indices[..depth] == indices;
    assert PathNode(h, leaf, elements, indices, 0) == leaf;
    NodeStep(h, leaves, 0, index);
    AncestorStep(index, 0);
    hide Node, Ancestor, CollidesAt;
    if leaf != LeafAt(leaves, index) {
      var k := WrongNodeCollides(h, leaves, index, leaf, elements, indices, 0);
    }
  }

  /** The position that boolean indices spell out. */
  function PositionOf(indices: seq<int>): nat
    requires AllBoolean(indices)
  {
    if indices == [] then 0 else indices[0] + 2 * PositionOf(indices[1..])
  }

  lemma {:induction false} PositionBits(indices: seq<int>, k: nat)
    requires AllBoolean(indices) && k <= |indices|
    ensures PositionOf(indices) < Pow2(|indices|)
    ensures Ancestor(PositionOf(indices), k) == PositionOf(indices[k..])
  {
    if indices == [] {
      Pow2Step(0);
    } else {
      Pow2Step(|indices| - 1);
      PositionBits(indices[1..], if k > 0 then k - 1 else 0);
      if k > 0 {
        HalfAncestor(PositionOf(indices), k);
        assert indices[1..][k - 1..] == indices[k..];
      } else {
        assert indices[0..] == indices;
      }
    }
  }

  lemma {:induction false} HalfAncestor(i: nat, k: nat)
    requires k > 0
    ensures Ancestor(i, k) == Ancestor(i / 2, k - 1)
  {
    if k > 1 { HalfAncestor(i, k - 1); }
  }

  /** Every path with boolean indices is about one position, so membership circuits prove a leaf of the tree. */
  lemma BooleanPathIsSound(h: Hash, leaves: seq<int>, leaf: int, elements: seq<int>, indices: seq<int>)
    requires |elements| == |indices| && AllBoolean(indices)
    requires Fold(h, leaf, elements, indices) == Node(h, leaves, |indices|, 0)
    ensures PositionOf(indices) < Pow2(|indices|)
    ensures leaf == LeafAt(leaves, PositionOf(indices))
      || exists l: nat :: l < |indices| && CollidesAt(h, leaves, PositionOf(indices), leaf, elements, indices, l)
  {
    var i := PositionOf(indices);
    PositionBits(indices, 0);
    forall k: nat | k < |indices|
      ensures indices[k] == Ancestor(i, k) % 2
    {
      PositionBits(indices, k);
    }
    ProofIsSound(h, leaves, |indices|, i, leaf, elements, indices);
  }

  // ---- Sparse layers -------------------------------------------------------------------------------

  /** `layer.has(i) ? layer.get(i) : zeros[level]` */
  function Get(layer: map<nat, int>, i: nat, zero: int): int
  {
    if i in layer then layer[i] else zero
  }

  /** `layer.set(i, value)` */
  function Put(layer: map<nat, int>, i: nat, value: int): map<nat, int>
  {
    layer[i := value]
  }

  ghost predicate LayerIs(h: Hash, leaves: seq<int>, level: nat, layer: map<nat, int>)
  {
    forall i: nat :: Get(layer, i, ZeroHash(h, level)) == Node(h, leaves, level, i)
  }

  ghost predicate ZerosAre(h: Hash, depth: nat, zeros: seq<int>)
  {
    |zeros| == depth + 1 && forall l: nat :: l <= depth ==> zeros[l] == ZeroHash(h, l)
  }

  /** `computeZeroHashes`. */
  method ComputeZeroHashes(h: Hash, depth: nat) returns (zeros: seq<int>)
    ensures ZerosAre(h, depth, zeros)
  {
    zeros := [0];
    for i := 1 to depth + 1
      invariant |zeros| == i && forall l: nat :: l < i ==> zeros[l] == ZeroHash(h, l)
    {
      zeros := zeros + [h(zeros[i - 1], zeros[i - 1])];
    }
  }

  method Parents(cur: map<nat, int>) returns (parents: set<nat>)
    ensures forall p: nat :: p in parents <==> 2 * p in cur || 2 * p + 1 in cur
  {
    parents := {};
    var todo := cur.Keys;
    while todo != {}
      invariant todo <= cur.Keys
      invariant forall p: nat :: p in parents <==>
        (2 * p in cur && 2 * p !in todo) || (2 * p + 1 in cur && 2 * p + 1 !in todo)
      decreases todo
    {
      NonEmpty<nat>(todo);
      var idx :| idx in todo;
      todo := todo - {idx};
      parents := parents + {idx / 2};
    }
  }

  /** `next` holds the hashes of the pairs of which `cur` stores at least one half. */
  ghost predicate IsNextLayer(h: Hash, cur: map<nat, int>, zero: int, next: map<nat, int>)
  {
    && (forall p: nat :: p in next <==> 2 * p in cur || 2 * p + 1 in cur)
    && (forall p: nat :: p in next ==> next[p] == h(Get(cur, 2 * p, zero), Get(cur, 2 * p + 1, zero)))
  }

  method NextLayer(h: Hash, cur: map<nat, int>, zero: int) returns (next: map<nat, int>)
    ensures IsNextLayer(h, cur, zero, next)
  {
    next := map[];
    var parents := Parents(cur);
    var todo := parents;
    while todo != {}
      invariant todo <= parents
      invariant forall p: nat :: p in next <==> p in parents && p !in todo
      invariant forall p: nat :: p in next ==> next[p] == h(Get(cur, 2 * p, zero), Get(cur, 2 * p + 1, zero))
      decreases todo
    {
      NonEmpty<nat>(todo);
      var p :| p in todo;
      todo := todo - {p};
      next := next[p := h(Get(cur, 2 * p, zero), Get(cur, 2 * p + 1, zero))];
    }
  }

  lemma NextLayerIs(h: Hash, leaves: seq<int>, level: nat, cur: map<nat, int>, next: map<nat, int>)
    requires LayerIs(h, leaves, level, cur)
    requires IsNextLayer(h, cur, ZeroHash(h, level), next)
    ensures LayerIs(h, leaves, level + 1, next)
  {
    hide Node, ZeroHash;
    var up := level + 1;
    forall p: nat
      ensures Get(next, p, ZeroHash(h, up)) == Node(h, leaves, up, p)
    {
      NodeStep(h, leaves, level, p);
      ZeroStep(h, level);
      var l, r := Get(cur, 2 * p, ZeroHash(h, level)), Get(cur, 2 * p + 1, ZeroHash(h, level));
      assert l == Node(h, leaves, level, 2 * p) && r == Node(h, leaves, level, 2 * p + 1);
    }
  }

  /** `buildSparseLayers`. */
  method BuildSparseLayers(h: Hash, ghost leaves: seq<int>, leafMap: map<nat, int>, depth: nat, zeros: seq<int>)
      returns (layers: seq<map<nat, int>>)
    requires ZerosAre(h, depth, zeros) && LayerIs(h, leaves, 0, leafMap)
    ensures |layers| == depth + 1 && layers[0] == leafMap
    ensures forall l: nat :: l <= depth ==> LayerIs(h, leaves, l, layers[l])
  {
    layers := [leafMap];
    hide LayerIs, IsNextLayer, ZeroHash;
    for level := 0 to depth
      invariant |layers| == level + 1 && layers[0] == leafMap
      invariant forall l: nat :: l <= level ==> LayerIs(h, leaves, l, layers[l])
    {
      var next := NextLayer(h, layers[level], zeros[level]);
      NextLayerIs(h, leaves, level, layers[level], next);
      layers := layers + [next];
    }
  }

  // ---- The sparse tree --------------------------------------------------------------------------------

  datatype TreeError = TooManyLeaves | IndexOutOfRange

  /** The leaf list after `updateLeaf`: zero padding up to an index beyond the end. */
  function Updated(leaves: seq<int>, index: nat, leaf: int): (r: seq<int>)
    ensures forall j: nat :: LeafAt(r, j) == if j == index then leaf else LeafAt(leaves, j)
    ensures |r| == if index < |leaves| then |leaves| else index + 1
  {
    if index < |leaves| then leaves[index := leaf]
    else leaves + seq(index - |leaves|, i => 0) + [leaf]
  }

  function UpdatedAll(leaves: seq<int>, updates: seq<(nat, int)>): seq<int>
  {
    if updates == [] then leaves
    else
      var u := updates[|updates| - 1];
      Updated(UpdatedAll(leaves, updates[..|updates| - 1]), u.0, u.1)
  }

  /** The layer holds the new nodes everywhere except on the path of `index`. */
  ghost predicate LayerOffPath(h: Hash, after: seq<int>, index: nat, level: nat, layer: map<nat, int>)
  {
    forall i: nat :: i != Ancestor(index, level) ==> Get(layer, i, ZeroHash(h, level)) == Node(h, after, level, i)
  }

  /** The path of `index` has been recomputed up to `level`. */
  ghost predicate PathDone(h: Hash, depth: nat, after: seq<int>, index: nat, level: nat, layers: seq<map<nat, int>>)
  {
    && |layers| == depth + 1
    && (forall l: nat :: l <= level && l <= depth ==> LayerIs(h, after, l, layers[l]))
    && (forall l: nat :: level < l <= depth ==> LayerOffPath(h, after, index, l, layers[l]))
  }

  lemma OffPath(h: Hash, before: seq<int>, after: seq<int>, index: nat, level: nat, layer: map<nat, int>)
    requires LayerIs(h, before, level, layer)
    requires forall j: nat :: j != index ==> LeafAt(after, j) == LeafAt(before, j)
    ensures LayerOffPath(h, after, index, level, layer)
  {
    hide Node, Ancestor, ZeroHash;
    forall i: nat | i != Ancestor(index, level)
      ensures Get(layer, i, ZeroHash(h, level)) == Node(h, after, level, i)
    {
      OffPathUnchanged(h, before, after, index, level, i);
      assert Get(layer, i, ZeroHash(h, level)) == Node(h, before, level, i);
    }
  }

  lemma LeafSet(h: Hash, before: seq<int>, index: nat, leaf: int, layer: map<nat, int>)
    requires LayerIs(h, before, 0, layer)
    ensures LayerIs(h, Updated(before, index, leaf), 0, Put(layer, index, leaf))
  {
    var after := Updated(before, index, leaf);
    hide Updated;
    forall i: nat
      ensures Get(Put(layer, index, leaf), i, ZeroHash(h, 0)) == Node(h, after, 0, i)
    {
      assert Get(layer, i, ZeroHash(h, 0)) == Node(h, before, 0, i);
    }
  }

  /** One pass of the update loop. */
  lemma ClimbLevel(h: Hash, depth: nat, after: seq<int>, index: nat, level: nat, layers: seq<map<nat, int>>, zero: int,
                   zeros: seq<int>)
    requires level < depth && PathDone(h, depth, after, index, level, layers) && |layers| == depth + 1
    requires ZerosAre(h, depth, zeros) && |zeros| == depth + 1 && zero == zeros[level]
    ensures var idx := Ancestor(index, level);
      var li := if idx % 2 == 0 then idx else idx - 1;
      var value := h(Get(layers[level], li, zero), Get(layers[level], li + 1, zero));
      PathDone(h, depth, after, index, level + 1, layers[level + 1 := Put(layers[level + 1], idx / 2, value)])
  {
    hide Node, Ancestor, ZeroHash;
    var idx := Ancestor(index, level);
    var parent := idx / 2;
    assert LayerIs(h, after, level, layers[level]);
    assert Get(layers[level], 2 * parent, zero) == Node(h, after, level, 2 * parent);
    assert Get(layers[level], 2 * parent + 1, zero) == Node(h, after, level, 2 * parent + 1);
    NodeStep(h, after, level, parent);
    AncestorStep(index, level);
    PathNodeSet(h, after, index, level + 1, layers[level + 1], Node(h, after, level + 1, parent));
  }

  lemma PathNodeSet(h: Hash, after: seq<int>, index: nat, level: nat, layer: map<nat, int>, value: int)
    requires LayerOffPath(h, after, index, level, layer)
    requires value == Node(h, after, level, Ancestor(index, level))
    ensures LayerIs(h, after, level, Put(layer, Ancestor(index, level), value))
  {
    hide Node, Ancestor, ZeroHash;
  }

  class MerkleTree {
    const h: Hash
    const depth: nat
    const zeroHashes: seq<int>
    var leaves: seq<int>
    var leafMap: map<nat, int>
    var layers: seq<map<nat, int>>
    var root: int

    /** Every stored-or-zero node is the node of the dense tree over `leaves`. */
    ghost predicate Valid()
      reads this
    {
      && ZerosAre(h, depth, zeroHashes)
      && |layers| == depth + 1
      && (forall l: nat :: l <= depth ==> LayerIs(h, leaves, l, layers[l]))
      && LayerIs(h, leaves, 0, leafMap)
      && root == Node(h, leaves, depth, 0)
    }

    constructor (h: Hash, depth: nat, leaves: seq<int>, leafMap: map<nat, int>, layers: seq<map<nat, int>>, zeros: seq<int>)
      requires ZerosAre(h, depth, zeros) && |layers| == depth + 1
      requires forall l: nat :: l <= depth ==> LayerIs(h, leaves, l, layers[l])
      requires LayerIs(h, leaves, 0, leafMap)
      ensures Valid() && this.h == h && this.depth == depth && this.leaves == leaves
    {
      this.h := h;
      this.depth := depth;
      this.zeroHashes := zeros;
      this.leaves := leaves;
      this.leafMap := leafMap;
      this.layers := layers;
      this.root := Get(layers[depth], 0, zeros[depth]);
    }

    static method FromLeaves(h: Hash, leaves: seq<int>, depth: nat) returns (r: Result<MerkleTree, TreeError>)
      ensures r == Err(TooManyLeaves) <==> |leaves| > Pow2(depth)
      ensures r.Err? ==> r.error == TooManyLeaves
      ensures r.Ok? ==> fresh(r.value) && r.value.Valid()
      ensures r.Ok? ==> r.value.h == h && r.value.depth == depth && r.value.leaves == leaves
    {
      if |leaves| > Pow2(depth) { return Err(TooManyLeaves); }
      var zeros := ComputeZeroHashes(h, depth);
      var leafMap: map<nat, int> := map[];
      for i := 0 to |leaves|
        invariant forall k: nat :: k in leafMap <==> k < i
        invariant forall k: nat :: k < i ==> leafMap[k] == leaves[k]
      {
        leafMap := leafMap[i := leaves[i]];
      }
      assert LayerIs(h, leaves, 0, leafMap);
      var layers := BuildSparseLayers(h, leaves, leafMap, depth, zeros);
      var t := new MerkleTree(h, depth, leaves, leafMap, layers, zeros);
      return Ok(t);
    }

    /** `getProof`. */
    method GetProof(index: int) returns (r: Result<Proof, TreeError>)
      requires Valid()
      ensures r == if 0 <= index < |leaves| then Ok(ProofOf(h, leaves, depth, index)) else Err(IndexOutOfRange)
    {
      if index < 0 || index >= |leaves| { return Err(IndexOutOfRange); }
      hide *;
      AncestorStep(index, 0);
      Shape();
      var pathElements, pathIndices := [], [];
      var idx := index;
      PrefixStart(h, leaves, index);
      for level := 0 to depth
        invariant idx == Ancestor(index, level)
        invariant ProofPrefix(h, leaves, index, level, pathElements, pathIndices)
      {
        var isRight := idx % 2 == 1;
        var siblingIdx := if isRight then idx - 1 else idx + 1;
        SiblingIs(idx);
        StoredNode(level, siblingIdx);
        AncestorStep(index, level);
        var sibling := Get(layers[level], siblingIdx, zeroHashes[level]);
        PrefixStep(h, leaves, index, level, pathElements, pathIndices, idx, sibling);
        pathElements := pathElements + [sibling];
        pathIndices := pathIndices + [if isRight then 1 else 0];
        idx := idx / 2;
      }
      PrefixFull(h, leaves, index, depth, pathElements, pathIndices);
      return Ok(Proof(pathElements, pathIndices));
    }

    lemma Shape()
      requires Valid()
      ensures |layers| == |zeroHashes| == depth + 1
    {
    }

    /** The node a valid tree answers at any level and index. */
    lemma StoredNode(level: nat, i: nat)
      requires Valid() && level <= depth
      ensures |layers| == |zeroHashes| == depth + 1
      ensures Get(layers[level], i, zeroHashes[level]) == Node(h, leaves, level, i)
    {
      hide Node, ZeroHash;
      assert LayerIs(h, leaves, level, layers[level]);
    }

    /** `updateLeaf`: recomputes the path to the root and nothing else. */
    method UpdateLeaf(index: int, newLeafHash: int) returns (r: Option<TreeError>)
      requires Valid()
      modifies this
      ensures Valid()
      ensures r == if index < 0 then Some(IndexOutOfRange) else None
      ensures leaves == if index < 0 then old(leaves) else Updated(old(leaves), index, newLeafHash)
    {
      if index < 0 { return Some(IndexOutOfRange); }
      hide *;
      Shape();
      ghost var before := leaves;
      PathStart(leaves, index, newLeafHash, layers, leafMap);
      layers := layers[0 := Put(layers[0], index, newLeafHash)];
      leaves := PadAndSet(leaves, index, newLeafHash);
      leafMap := Put(leafMap, index, newLeafHash);
      RecomputePath(index);
      root := Get(layers[depth], 0, zeroHashes[depth]);
      PathFinished(index);
      r := None;
    }

    /** The loop of `updateLeaf` from the changed leaf to the root. */
    method RecomputePath(index: nat)
      requires ZerosAre(h, depth, zeroHashes) && |layers| == |zeroHashes| == depth + 1
      requires PathDone(h, depth, leaves, index, 0, layers)
      modifies this`layers
      ensures |layers| == depth + 1 && PathDone(h, depth, leaves, index, depth, layers)
    {
      hide *;
      var idx := index;
      AncestorStep(index, 0);
      for level := 0 to depth
        invariant |layers| == |zeroHashes| == depth + 1
        invariant idx == Ancestor(index, level)
        invariant PathDone(h, depth, leaves, index, level, layers)
      {
        var li := if idx % 2 == 0 then idx else idx - 1;
        var left := Get(layers[level], li, zeroHashes[level]);
        var right := Get(layers[level], li + 1, zeroHashes[level]);
        var parentIdx := idx / 2;
        ClimbLevel(h, depth, leaves, index, level, layers, zeroHashes[level], zeroHashes);
        AncestorStep(index, level);
        layers := layers[level + 1 := Put(layers[level + 1], parentIdx, h(left, right))];
        idx := parentIdx;
      }
    }

    lemma PathFinished(index: nat)
      requires ZerosAre(h, depth, zeroHashes) && LayerIs(h, leaves, 0, leafMap)
      requires PathDone(h, depth, leaves, index, depth, layers)
      requires |layers| == |zeroHashes| == depth + 1 && root == Get(layers[depth], 0, zeroHashes[depth])
      ensures Valid()
    {
      hide Node, ZeroHash;
      assert LayerIs(h, leaves, depth, layers[depth]);
    }

    lemma PathStart(before: seq<int>, index: nat, leaf: int, oldLayers: seq<map<nat, int>>, oldMap: map<nat, int>)
      requires Valid() && before == leaves && oldLayers == layers && oldMap == leafMap && |layers| == depth + 1
      ensures ZerosAre(h, depth, zeroHashes)
      ensures LayerIs(h, Updated(before, index, leaf), 0, Put(oldMap, index, leaf))
      ensures PathDone(h, depth, Updated(before, index, leaf), index, 0, oldLayers[0 := Put(oldLayers[0], index, leaf)])
    {
      var after := Updated(before, index, leaf);
      hide Node, ZeroHash, Updated;
      LeafSet(h, before, index, leaf, oldLayers[0]);
      LeafSet(h, before, index, leaf, oldMap);
      forall l: nat | 0 < l <= depth
        ensures LayerOffPath(h, after, index, l, oldLayers[l])
      {
        OffPath(h, before, after, index, l, oldLayers[l]);
      }
    }

    method PadAndSet(leaves0: seq<int>, index: nat, leaf: int) returns (r: seq<int>)
      ensures r == Updated(leaves0, index, leaf)
    {
      if index < |leaves0| { return leaves0[index := leaf]; }
      r := leaves0;
      while |r| < index
        invariant |leaves0| <= |r| <= index
        invariant r == leaves0 + seq(|r| - |leaves0|, i => 0)
        decreases index - |r|
      {
        r := r + [0];
      }
      r := r + [leaf];
    }

    /** Any sequence of updates leaves the tree of the updated, zero-extended leaves. */
    method UpdateAll(updates: seq<(nat, int)>)
      requires Valid()
      modifies this
      ensures Valid() && leaves == UpdatedAll(old(leaves), updates)
    {
      for k := 0 to |updates|
        invariant Valid() && leaves == UpdatedAll(old(leaves), updates[..k])
      {
        assert updates[..k + 1][..k] == updates[..k];
        var _ := UpdateLeaf(updates[k].0, updates[k].1);
      }
      assert updates[..|updates|] == updates;
    }

    static method VerifyProof(h: Hash, leafHash: int, root: int, pathElements: seq<int>, pathIndices: seq<int>) returns (r: bool)
      ensures r == (Fold(h, leafHash, pathElements, pathIndices) == root)
    {
      var current := leafHash;
      for i := 0 to |pathElements|
        invariant Fold(h, current, pathElements[i..], if i <= |pathIndices| then pathIndices[i..] else [])
          == Fold(h, leafHash, pathElements, pathIndices)
      {
        assert pathElements[i..][1..] == pathElements[i + 1..];
        if i < |pathIndices| && pathIndices[i] == 1 {
          assert pathIndices[i..][1..] == pathIndices[i + 1..];
          current := h(pathElements[i], current);
        } else {
          if i < |pathIndices| { assert pathIndices[i..][1..] == pathIndices[i + 1..]; }
          current := h(current, pathElements[i]);
        }
      }
      return current == root;
    }
  }

  // ---- The dense tree -----------------------------------------------------------------------------------

  /** Layers 0..level of the dense tree of depth `depth`. */
  ghost predicate DenseLayers(h: Hash, leaves: seq<int>, depth: nat, level: nat, layers: seq<seq<int>>)
  {
    && level <= depth && |layers| == level + 1
    && forall l: nat :: l <= level ==> DenseLayer(h, leaves, l, Pow2(depth - l), layers[l])
  }

  ghost predicate DenseLayer(h: Hash, leaves: seq<int>, level: nat, width: nat, layer: seq<int>)
  {
    |layer| == width && forall i: nat :: i < width ==> layer[i] == Node(h, leaves, level, i)
  }

  /** `NewMerkleTree`: all layers of the padded tree; leaves beyond 2^depth are cut off. */
  method NewDenseLayers(h: Hash, leaves: seq<int>, depth: nat) returns (layers: seq<seq<int>>)
    ensures DenseLayers(h, leaves, depth, depth, layers)
  {
    var padded := seq(Pow2(depth), i requires 0 <= i => LeafAt(leaves, i));
    assert DenseLayer(h, leaves, 0, Pow2(depth), padded);
    hide Node, Pow2, DenseLayer;
    layers := [padded];
    for level := 0 to depth
      invariant DenseLayers(h, leaves, depth, level, layers)
    {
      Pow2Step(depth - level - 1);
      var next := HashPairs(h, leaves, level, layers[level], Pow2(depth - level - 1));
      layers := layers + [next];
    }
  }

  method HashPairs(h: Hash, ghost leaves: seq<int>, ghost level: nat, current: seq<int>, half: nat) returns (next: seq<int>)
    requires DenseLayer(h, leaves, level, 2 * half, current)
    ensures DenseLayer(h, leaves, level + 1, half, next)
  {
    next := [];
    hide Node;
    for i := 0 to half
      invariant |next| == i && forall k: nat :: k < i ==> next[k] == Node(h, leaves, level + 1, k)
    {
      NodeStep(h, leaves, level, i);
      assert current[2 * i] == Node(h, leaves, level, 2 * i) && current[2 * i + 1] == Node(h, leaves, level, 2 * i + 1);
      next := next + [h(current[2 * i], current[2 * i + 1])];
    }
  }

  /** `GetProof` of the dense tree; nothing for an index outside the padded leaves. */
  method DenseGetProof(h: Hash, ghost leaves: seq<int>, layers: seq<seq<int>>, depth: nat, index: int) returns (r: Option<Proof>)
    requires DenseLayers(h, leaves, depth, depth, layers)
    ensures r == if 0 <= index < Pow2(depth) then Some(ProofOf(h, leaves, depth, index)) else None
  {
    assert DenseLayer(h, leaves, 0, Pow2(depth), layers[0]);
    assert |layers[0]| == Pow2(depth);
    if index < 0 || index >= |layers[0]| { return None; }
    hide *;
    var elements, indices := [], [];
    var idx := index;
    PrefixStart(h, leaves, index);
    AncestorStep(index, 0);
    for level := 0 to depth
      invariant idx == Ancestor(index, level)
      invariant ProofPrefix(h, leaves, index, level, elements, indices)
    {
      DenseSibling(h, leaves, layers, depth, index, level);
      AncestorStep(index, level);
      SiblingIs(idx);
      var isRight := idx % 2 == 1;
      var siblingIdx := if isRight then idx - 1 else idx + 1;
      var sibling := layers[level][siblingIdx];
      PrefixStep(h, leaves, index, level, elements, indices, idx, sibling);
      elements := elements + [sibling];
      indices := indices + [if isRight then 1 else 0];
      idx := idx / 2;
    }
    PrefixFull(h, leaves, index, depth, elements, indices);
    r := Some(Proof(elements, indices));
  }

  lemma DenseSibling(h: Hash, leaves: seq<int>, layers: seq<seq<int>>, depth: nat, index: nat, level: nat)
    requires DenseLayers(h, leaves, depth, depth, layers) && level < depth && index < Pow2(depth)
    ensures |layers| == depth + 1
    ensures var s := Sibling(Ancestor(index, level));
      s < |layers[level]| && layers[level][s] == Node(h, leaves, level, s)
  {
    AncestorBound(index, level, depth);
    Pow2Step(depth - level - 1);
    assert DenseLayer(h, leaves, level, Pow2(depth - level), layers[level]);
    hide Node, Ancestor, Pow2;
  }

  /** Sparse refines dense: a valid sparse tree has the dense tree's node at every level and index. */
  lemma SparseIsDense(t: MerkleTree, layers: seq<seq<int>>, l: nat, i: nat)
    requires t.Valid() && DenseLayers(t.h, t.leaves, t.depth, t.depth, layers)
    requires l <= t.depth && i < Pow2(t.depth - l)
    ensures |layers[l]| == Pow2(t.depth - l) && |t.layers| == |t.zeroHashes| == t.depth + 1
    ensures Get(t.layers[l], i, t.zeroHashes[l]) == layers[l][i]
    ensures layers[t.depth] == [t.root]
  {
    t.StoredNode(l, i);
    Pow2Step(0);
    assert DenseLayer(t.h, t.leaves, l, Pow2(t.depth - l), layers[l]);
    assert DenseLayer(t.h, t.leaves, t.depth, Pow2(0), layers[t.depth]);
    hide Node, Pow2;
    assert layers[t.depth][0] == Node(t.h, t.leaves, t.depth, 0);
  }

  /** Two valid trees over the same leaves agree node for node, whatever updates produced them. */
  lemma SameLeavesSameTree(t: MerkleTree, u: MerkleTree, l: nat, i: nat)
    requires t.Valid() && u.Valid() && t.h == u.h && t.depth == u.depth && l <= t.depth
    requires forall j: nat :: LeafAt(t.leaves, j) == LeafAt(u.leaves, j)
    ensures Get(t.layers[l], i, t.zeroHashes[l]) == Get(u.layers[l], i, u.zeroHashes[l])
    ensures t.root == u.root
  {
    t.StoredNode(l, i);
    u.StoredNode(l, i);
    SameLeavesSameNode(t.h, t.leaves, u.leaves, l, i);
    SameLeavesSameNode(t.h, t.leaves, u.leaves, t.depth, 0);
  }

  lemma {:induction false} SameLeavesSameNode(h: Hash, a: seq<int>, b: seq<int>, l: nat, i: nat)
    requires forall j: nat :: LeafAt(a, j) == LeafAt(b, j)
    ensures Node(h, a, l, i) == Node(h, b, l, i)
  {
    if l > 0 {
      SameLeavesSameNode(h, a, b, l - 1, 2 * i);
      SameLeavesSameNode(h, a, b, l - 1, 2 * i + 1);
    }
  }

  /** A leaf set at index 2 of a tree of depth 1 gets a proof, and the proof fails. */
  method ProofBeyondTheTree(h: Hash) returns (tree: MerkleTree, r: bool)
    requires h(7, 0) != h(0, 0)
    ensures fresh(tree) && tree.Valid() && tree.h == h && tree.depth == 1 && tree.leaves == Updated([], 2, 7)
    ensures var pr := ProofOf(h, tree.leaves, 1, 2); r == (Fold(h, 7, pr.elements, pr.indices) == tree.root)
    ensures !r
  {
    Pow2Step(0);
    hide Pow2, Node, Fold;
    var made := MerkleTree.FromLeaves(h, [], 1);
    tree := made.value;
    var error := tree.UpdateLeaf(2, 7);
    var proof := tree.GetProof(2);
    r := MerkleTree.VerifyProof(h, 7, tree.root, proof.value.elements, proof.value.indices);
    SecondNode(h, tree.leaves);
    ProofFolds(h, tree.leaves, 1, 2);
  }

  lemma SecondNode(h: Hash, leaves: seq<int>)
    requires leaves == Updated([], 2, 7)
    ensures |leaves| == 3 && LeafAt(leaves, 2) == 7 && Ancestor(2, 1) == 1
    ensures Node(h, leaves, 1, 1) == h(7, 0) && Node(h, leaves, 1, 0) == h(0, 0)
  {
    NodeStep(h, leaves, 0, 0);
    NodeStep(h, leaves, 0, 1);
    assert LeafAt(leaves, 0) == 0 && LeafAt(leaves, 1) == 0 && LeafAt(leaves, 2) == 7 && LeafAt(leaves, 3) == 0;
    AncestorStep(2, 0);
    hide Node, LeafAt;
    NodeStep(h, leaves, 0, 2);
    NodeStep(h, leaves, 0, 3);
  }
}
