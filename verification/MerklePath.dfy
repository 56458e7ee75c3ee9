/** The fold of a leaf along a Merkle path, shared by the trees and the circuits. */
module MerklePath {
  type Hash = (int, int) -> int

  /** One level: index 1 means that the current node is the right child. */
  function Step(h: Hash, current: int, element: int, index: int): int
  {
    if index == 1 then h(element, current) else h(current, element)
  }

  /** The fold of `leaf` along a path; a missing index counts as 0. */
  function Fold(h: Hash, leaf: int, elements: seq<int>, indices: seq<int>): int
    decreases elements
  {
    if elements == [] then leaf
    else Fold(h, Step(h, leaf, elements[0], Head(indices)), elements[1..], Tail(indices))
  }

  function Head(indices: seq<int>): int
  {
    if indices == [] then 0 else indices[0]
  }

  function Tail(indices: seq<int>): seq<int>
  {
    if indices == [] then [] else indices[1..]
  }

  predicate AllBoolean(indices: seq<int>)
  {
    forall i :: 0 <= i < |indices| ==> indices[i] == 0 || indices[i] == 1
  }

  // One-step facts about the fold along the rest of a path.

  lemma FoldStart(h: Hash, leaf: int, elements: seq<int>, indices: seq<int>)
    ensures Fold(h, leaf, elements[0..], indices[0..]) == Fold(h, leaf, elements, indices)
  {
    assert elements[0..] == elements && indices[0..] == indices;
  }

  lemma FoldStep(h: Hash, current: int, elements: seq<int>, indices: seq<int>, l: nat)
    requires l < |elements| == |indices|
    ensures Fold(h, current, elements[l..], indices[l..])
         == Fold(h, Step(h, current, elements[l], indices[l]), elements[l + 1..], indices[l + 1..])
  {
    assert elements[l..][1..] == elements[l + 1..] && indices[l..][1..] == indices[l + 1..];
  }

  lemma FoldEnd(h: Hash, current: int, elements: seq<int>, indices: seq<int>)
    requires |elements| == |indices|
    ensures Fold(h, current, elements[|elements|..], indices[|indices|..]) == current
  {
  }
}
