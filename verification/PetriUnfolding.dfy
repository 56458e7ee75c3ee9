/** The unfolded net means what the coloured net means: same enabled transitions, same runs, corresponding markings. */
module PetriUnfolding {
  import opened PetriSim
  import opened PetriColors

  /** A net with typed arcs whose vectors the colours cover and whose expanded names differ. */
  ghost predicate Shaped(net: Net, sep: string, names: seq<string>)
  {
    && ValidNet(net)
    && |names| >= 1 && CoversAllVectors(net, |names|)
    && NamesInjective(net, sep, names)
    && (forall a :: a in net.arcs ==> TypedArc(net, a))
    && (forall t :: t in net.transitions ==> t !in net.place)
  }

  /** Component `i` of the arc joins two names that are both transitions and expanded places. */
  ghost predicate Crossed(net: Net, sep: string, names: seq<string>, a: Arc, i: nat)
  {
    && i < |names| && i < |DefaultedWeight(a)| && DefaultedWeight(a)[i] != 0
    && IsBoth(net, sep, names, Endpoint(net, sep, names, a.source, i))
    && IsBoth(net, sep, names, Endpoint(net, sep, names, a.target, i))
  }

  ghost predicate IsBoth(net: Net, sep: string, names: seq<string>, n: string)
  {
    n in net.transitions && ExpandedName(net.order, sep, names, n)
  }

  ghost predicate MovesUncrossed(net: Net, sep: string, names: seq<string>)
  {
    forall a, i: nat :: a in net.arcs && !a.inhibit ==> !Crossed(net, sep, names, a, i)
  }

  ghost predicate Uncrossed(net: Net, sep: string, names: seq<string>)
  {
    forall a, i: nat :: a in net.arcs ==> !Crossed(net, sep, names, a, i)
  }

  /** One endpoint is a place, the other a transition. */
  ghost predicate TypedArc(net: Net, a: Arc)
  {
    || (a.source in net.place && a.target !in net.place && a.target in net.transitions)
    || (a.target in net.place && a.source !in net.place && a.source in net.transitions)
  }

  ghost predicate WeightsDeclared(net: Net)
  {
    forall a :: a in net.arcs ==> a.weight != []
  }

  ghost predicate UnfoldsShaped(net: Net, sep: string, names: seq<string>, out: Net)
  {
    Shaped(net, sep, names) && Unfolds(net, sep, names, out)
  }

  /** What the unfolding needs of a net besides non-empty weight vectors. */
  ghost predicate IsUnfolding(net: Net, sep: string, names: seq<string>, out: Net)
  {
    UnfoldsShaped(net, sep, names, out) && Uncrossed(net, sep, names)
  }

  lemma NameIsPlace(net: Net, sep: string, names: seq<string>, out: Net, p: string, c: nat)
    requires UnfoldsShaped(net, sep, names, out) && p in net.place && c < |names|
    ensures Name(p, sep, names, c) in out.place
    ensures out.place[Name(p, sep, names, c)] == UnfoldedPlace(net.place[p], c)
  {
  }

  // ---- Incidence ---------------------------------------------------------------------------

  lemma {:induction false} ConsumedConcat(net: Net, x: seq<Arc>, y: seq<Arc>, tid: string, p: string, i: nat)
    ensures Consumed(net, x + y, tid, p, i) == Consumed(net, x, tid, p, i) + Consumed(net, y, tid, p, i)
  {
    if y == [] {
      assert x + y == x;
    } else {
      ConsumedConcat(net, x, y[..|y| - 1], tid, p, i);
      assert (x + y)[..|x + y| - 1] == x + y[..|y| - 1];
    }
  }

  lemma {:induction false} ProducedConcat(net: Net, x: seq<Arc>, y: seq<Arc>, tid: string, p: string, i: nat)
    ensures Produced(net, x + y, tid, p, i) == Produced(net, x, tid, p, i) + Produced(net, y, tid, p, i)
  {
    if y == [] {
      assert x + y == x;
    } else {
      ProducedConcat(net, x, y[..|y| - 1], tid, p, i);
      assert (x + y)[..|x + y| - 1] == x + y[..|y| - 1];
    }
  }

  /** The arc of component `i` moves tokens of the expanded place (p, c) exactly when `a` moves those of p and i is c. */
  lemma {:induction false} ComponentTouches(net: Net, sep: string, names: seq<string>, out: Net, a: Arc, i: nat,
                                            tid: string, p: string, c: nat)
    requires UnfoldsShaped(net, sep, names, out) && a in net.arcs && tid in net.transitions && p in net.place
    requires i < |names| && c < |names| && i < |DefaultedWeight(a)| && DefaultedWeight(a)[i] != 0
    requires !a.inhibit ==> !Crossed(net, sep, names, a, i)
    ensures var b := Component(net, sep, names, a, i);
      && (Consumer(out, b, tid, Name(p, sep, names, c)) <==> Consumer(net, a, tid, p) && i == c)
      && (Producer(out, b, tid, Name(p, sep, names, c)) <==> Producer(net, a, tid, p) && i == c)
  {
    assert TypedArc(net, a);
    NameIsPlace(net, sep, names, out, p, c);
    if a.source in net.place {
      NameIsPlace(net, sep, names, out, a.source, i);
      assert ExpandedName(net.order, sep, names, Name(a.source, sep, names, i));
    } else {
      NameIsPlace(net, sep, names, out, a.target, i);
      assert ExpandedName(net.order, sep, names, Name(a.target, sep, names, i));
    }
    assert ExpandedName(net.order, sep, names, Name(p, sep, names, c));
  }

  /** The arc that component `i` becomes. */
  function Component(net: Net, sep: string, names: seq<string>, a: Arc, i: nat): Arc
    requires i < |names| && i < |DefaultedWeight(a)|
  {
    Arc(Endpoint(net, sep, names, a.source, i), Endpoint(net, sep, names, a.target, i), [DefaultedWeight(a)[i]], a.inhibit)
  }

  lemma {:induction false} ComponentsConsume(net: Net, sep: string, names: seq<string>, out: Net, a: Arc, n: nat,
                                             tid: string, p: string, c: nat, j: nat)
    requires UnfoldsShaped(net, sep, names, out) && MovesUncrossed(net, sep, names)
    requires a in net.arcs && tid in net.transitions && p in net.place
    requires n <= |DefaultedWeight(a)| && c < |names|
    ensures Consumed(out, UnfoldComponents(net, sep, names, a, n), tid, Name(p, sep, names, c), j)
         == if Consumer(net, a, tid, p) && c < n && j == 0 then At(DefaultedWeight(a), c) else 0
    ensures Produced(out, UnfoldComponents(net, sep, names, a, n), tid, Name(p, sep, names, c), j)
         == if Producer(net, a, tid, p) && c < n && j == 0 then At(DefaultedWeight(a), c) else 0
  {
    hide *;
    if n == 0 {
      NoComponents(net, sep, names, out, a, tid, Name(p, sep, names, c), j);
    } else {
      ComponentsConsume(net, sep, names, out, a, n - 1, tid, p, c, j);
      OneMoreComponent(net, sep, names, out, a, n, tid, p, c, j);
    }
  }

  lemma OneMoreComponent(net: Net, sep: string, names: seq<string>, out: Net, a: Arc, n: nat,
                         tid: string, p: string, c: nat, j: nat)
    requires UnfoldsShaped(net, sep, names, out) && MovesUncrossed(net, sep, names)
    requires a in net.arcs && tid in net.transitions && p in net.place
    requires 0 < n <= |DefaultedWeight(a)| && c < |names|
    ensures Consumed(out, UnfoldComponents(net, sep, names, a, n), tid, Name(p, sep, names, c), j)
         == Consumed(out, UnfoldComponents(net, sep, names, a, n - 1), tid, Name(p, sep, names, c), j)
            + if Consumer(net, a, tid, p) && c == n - 1 && j == 0 then At(DefaultedWeight(a), c) else 0
    ensures Produced(out, UnfoldComponents(net, sep, names, a, n), tid, Name(p, sep, names, c), j)
         == Produced(out, UnfoldComponents(net, sep, names, a, n - 1), tid, Name(p, sep, names, c), j)
            + if Producer(net, a, tid, p) && c == n - 1 && j == 0 then At(DefaultedWeight(a), c) else 0
  {
    hide *;
    ComponentsStep(net, sep, names, a, n);
    AtIs(DefaultedWeight(a), n - 1);
    if DefaultedWeight(a)[n - 1] != 0 && n - 1 < |names| {
      MoveUncrossed(net, sep, names, a, n - 1);
      PushComponent(net, sep, names, out, a, n - 1, UnfoldComponents(net, sep, names, a, n - 1), tid, p, c, j);
    }
  }

  lemma NoComponents(net: Net, sep: string, names: seq<string>, out: Net, a: Arc, tid: string, n: string, j: nat)
    ensures Consumed(out, UnfoldComponents(net, sep, names, a, 0), tid, n, j) == 0
    ensures Produced(out, UnfoldComponents(net, sep, names, a, 0), tid, n, j) == 0
  {
  }

  lemma MoveUncrossed(net: Net, sep: string, names: seq<string>, a: Arc, i: nat)
    requires MovesUncrossed(net, sep, names) && a in net.arcs
    ensures !a.inhibit ==> !Crossed(net, sep, names, a, i)
  {
  }

  lemma ComponentsStep(net: Net, sep: string, names: seq<string>, a: Arc, n: nat)
    requires 0 < n <= |DefaultedWeight(a)|
    ensures DefaultedWeight(a)[n - 1] == 0 || n - 1 >= |names| ==>
      UnfoldComponents(net, sep, names, a, n) == UnfoldComponents(net, sep, names, a, n - 1)
    ensures DefaultedWeight(a)[n - 1] != 0 && n - 1 < |names| ==>
      UnfoldComponents(net, sep, names, a, n)
      == UnfoldComponents(net, sep, names, a, n - 1) + [Component(net, sep, names, a, n - 1)]
  {
  }

  lemma PushComponent(net: Net, sep: string, names: seq<string>, out: Net, a: Arc, i: nat, front: seq<Arc>,
                      tid: string, p: string, c: nat, j: nat)
    requires UnfoldsShaped(net, sep, names, out) && a in net.arcs && tid in net.transitions && p in net.place
    requires i < |names| && c < |names| && i < |DefaultedWeight(a)| && DefaultedWeight(a)[i] != 0
    requires !a.inhibit ==> !Crossed(net, sep, names, a, i)
    ensures var b, q := Component(net, sep, names, a, i), Name(p, sep, names, c);
      && Consumed(out, front + [b], tid, q, j)
         == Consumed(out, front, tid, q, j) + (if Consumer(net, a, tid, p) && i == c && j == 0 then DefaultedWeight(a)[i] else 0)
      && Produced(out, front + [b], tid, q, j)
         == Produced(out, front, tid, q, j) + (if Producer(net, a, tid, p) && i == c && j == 0 then DefaultedWeight(a)[i] else 0)
  {
    var b := Component(net, sep, names, a, i);
    assert b.weight == [DefaultedWeight(a)[i]];
    hide *;
    ComponentTouches(net, sep, names, out, a, i, tid, p, c);
    PushArc(out, front, b, tid, Name(p, sep, names, c), j);
    AtSingle(DefaultedWeight(a)[i], j);
  }

  lemma AtIs(v: seq<int>, i: nat)
    requires i < |v|
    ensures At(v, i) == v[i]
  {
  }

  lemma AtSingle(x: int, j: nat)
    ensures At([x], j) == if j == 0 then x else 0
  {
  }

  lemma PushArc(net: Net, arcs: seq<Arc>, b: Arc, tid: string, p: string, j: nat)
    ensures Consumed(net, arcs + [b], tid, p, j)
         == Consumed(net, arcs, tid, p, j) + if Consumer(net, b, tid, p) then At(b.weight, j) else 0
    ensures Produced(net, arcs + [b], tid, p, j)
         == Produced(net, arcs, tid, p, j) + if Producer(net, b, tid, p) then At(b.weight, j) else 0
  {
    assert (arcs + [b])[..|arcs|] == arcs;
  }

  /** Number of empty weight vectors on the arcs that take from `p` (or give to it). */
  function EmptyConsumers(net: Net, arcs: seq<Arc>, tid: string, p: string): nat
  {
    if arcs == [] then 0
    else
      var a := arcs[|arcs| - 1];
      EmptyConsumers(net, arcs[..|arcs| - 1], tid, p) + if Consumer(net, a, tid, p) && a.weight == [] then 1 else 0
  }

  function EmptyProducers(net: Net, arcs: seq<Arc>, tid: string, p: string): nat
  {
    if arcs == [] then 0
    else
      var a := arcs[|arcs| - 1];
      EmptyProducers(net, arcs[..|arcs| - 1], tid, p) + if Producer(net, a, tid, p) && a.weight == [] then 1 else 0
  }

  /** The unfolded net moves the same tokens, and one more of colour 0 for every empty weight vector. */
  lemma {:induction false} UnfoldedIncidence(net: Net, sep: string, names: seq<string>, out: Net, k: nat,
                                             tid: string, p: string, c: nat, j: nat)
    requires UnfoldsShaped(net, sep, names, out) && MovesUncrossed(net, sep, names)
    requires tid in net.transitions && p in net.place && c < |names| && k <= |net.arcs|
    ensures Consumed(out, UnfoldArcs(net, sep, names, net.arcs[..k]), tid, Name(p, sep, names, c), j)
         == if j != 0 then 0 else
              Consumed(net, net.arcs[..k], tid, p, c) + if c == 0 then EmptyConsumers(net, net.arcs[..k], tid, p) else 0
    ensures Produced(out, UnfoldArcs(net, sep, names, net.arcs[..k]), tid, Name(p, sep, names, c), j)
         == if j != 0 then 0 else
              Produced(net, net.arcs[..k], tid, p, c) + if c == 0 then EmptyProducers(net, net.arcs[..k], tid, p) else 0
  {
    hide UnfoldsShaped, MovesUncrossed, UnfoldComponents, Name;
    if k == 0 {
    } else {
      UnfoldedIncidence(net, sep, names, out, k - 1, tid, p, c, j);
      var a := net.arcs[k - 1];
      var n := |DefaultedWeight(a)|;
      assert net.arcs[..k][..k - 1] == net.arcs[..k - 1];
      ComponentsConsume(net, sep, names, out, a, n, tid, p, c, j);
      ConsumedConcat(out, UnfoldArcs(net, sep, names, net.arcs[..k - 1]), UnfoldComponents(net, sep, names, a, n),
                     tid, Name(p, sep, names, c), j);
      ProducedConcat(out, UnfoldArcs(net, sep, names, net.arcs[..k - 1]), UnfoldComponents(net, sep, names, a, n),
                     tid, Name(p, sep, names, c), j);
    }
  }

  lemma {:induction false} NoEmptyArcs(net: Net, n: nat, tid: string, p: string)
    requires n <= |net.arcs|
    requires forall a :: a in net.arcs && !a.inhibit ==> a.weight != []
    ensures EmptyConsumers(net, net.arcs[..n], tid, p) == 0 && EmptyProducers(net, net.arcs[..n], tid, p) == 0
  {
    if n > 0 {
      NoEmptyArcs(net, n - 1, tid, p);
      assert net.arcs[..n][..n - 1] == net.arcs[..n - 1];
    }
  }

  /** The unfolded net moves exactly the tokens the coloured net moves, for every transition, place and colour. */
  ghost predicate SameIncidence(net: Net, sep: string, names: seq<string>, out: Net)
  {
    forall t, p, c: nat :: t in net.transitions && p in net.place && c < |names| ==>
      && Consumed(out, out.arcs, t, Name(p, sep, names, c), 0) == Consumed(net, net.arcs, t, p, c)
      && Produced(out, out.arcs, t, Name(p, sep, names, c), 0) == Produced(net, net.arcs, t, p, c)
  }

  /** What one arc moves in the coloured net, the arcs of its components move at least. */
  lemma {:induction false} ComponentsAtLeast(net: Net, sep: string, names: seq<string>, out: Net, a: Arc, n: nat,
                                             tid: string, p: string, c: nat)
    requires UnfoldsShaped(net, sep, names, out) && a in net.arcs && tid in net.transitions && p in net.place
    requires n <= |DefaultedWeight(a)| && c < |names|
    ensures Consumer(net, a, tid, p) && c < n ==>
      Consumed(out, UnfoldComponents(net, sep, names, a, n), tid, Name(p, sep, names, c), 0) >= DefaultedWeight(a)[c]
    ensures Producer(net, a, tid, p) && c < n ==>
      Produced(out, UnfoldComponents(net, sep, names, a, n), tid, Name(p, sep, names, c), 0) >= DefaultedWeight(a)[c]
  {
    if c < n && DefaultedWeight(a)[c] != 0 {
      var arcs, b := UnfoldComponents(net, sep, names, a, n), Component(net, sep, names, a, c);
      ArcUnfolds(net, sep, names, a, n, c);
      NameIsPlace(net, sep, names, out, p, c);
      assert At(b.weight, 0) == DefaultedWeight(a)[c];
      if Consumer(net, a, tid, p) { ConsumerConsumes(out, arcs, b, tid, Name(p, sep, names, c), 0); }
      if Producer(net, a, tid, p) { ProducerProduces(out, arcs, b, tid, Name(p, sep, names, c), 0); }
    }
  }

  /** An arc whose components move more than it does. */
  ghost predicate Exceeds(net: Net, sep: string, names: seq<string>, out: Net, a: Arc, tid: string, p: string, c: nat)
    requires c < |names|
  {
    var arcs := UnfoldComponents(net, sep, names, a, |DefaultedWeight(a)|);
    || Consumed(out, arcs, tid, Name(p, sep, names, c), 0) > (if Consumer(net, a, tid, p) then At(a.weight, c) else 0)
    || Produced(out, arcs, tid, Name(p, sep, names, c), 0) > (if Producer(net, a, tid, p) then At(a.weight, c) else 0)
  }

  /** The unfolded net moves at least the tokens of the coloured net, and more if some arc's components do. */
  lemma {:induction false} IncidenceAtLeast(net: Net, sep: string, names: seq<string>, out: Net, k: nat, l: nat,
                                            tid: string, p: string, c: nat)
    requires UnfoldsShaped(net, sep, names, out) && tid in net.transitions && p in net.place
    requires c < |names| && k <= |net.arcs| && l < |net.arcs|
    ensures Consumed(out, UnfoldArcs(net, sep, names, net.arcs[..k]), tid, Name(p, sep, names, c), 0)
         >= Consumed(net, net.arcs[..k], tid, p, c)
    ensures Produced(out, UnfoldArcs(net, sep, names, net.arcs[..k]), tid, Name(p, sep, names, c), 0)
         >= Produced(net, net.arcs[..k], tid, p, c)
    ensures l < k && Exceeds(net, sep, names, out, net.arcs[l], tid, p, c) ==>
      || Consumed(out, UnfoldArcs(net, sep, names, net.arcs[..k]), tid, Name(p, sep, names, c), 0)
         > Consumed(net, net.arcs[..k], tid, p, c)
      || Produced(out, UnfoldArcs(net, sep, names, net.arcs[..k]), tid, Name(p, sep, names, c), 0)
         > Produced(net, net.arcs[..k], tid, p, c)
  {
    hide UnfoldsShaped, UnfoldComponents, Name, Consumer, Producer;
    if k > 0 {
      IncidenceAtLeast(net, sep, names, out, k - 1, l, tid, p, c);
      var a := net.arcs[k - 1];
      var n := |DefaultedWeight(a)|;
      assert net.arcs[..k][..k - 1] == net.arcs[..k - 1];
      ComponentsAtLeast(net, sep, names, out, a, n, tid, p, c);
      ConsumedConcat(out, UnfoldArcs(net, sep, names, net.arcs[..k - 1]), UnfoldComponents(net, sep, names, a, n),
                     tid, Name(p, sep, names, c), 0);
      ProducedConcat(out, UnfoldArcs(net, sep, names, net.arcs[..k - 1]), UnfoldComponents(net, sep, names, a, n),
                     tid, Name(p, sep, names, c), 0);
    }
  }

  /** A crossed arc moves tokens in the unfolded net that it does not move in the coloured one. */
  lemma {:induction false} CrossedExceeds(net: Net, sep: string, names: seq<string>, out: Net, a: Arc, i: nat)
      returns (tid: string, p: string, c: nat)
    requires UnfoldsShaped(net, sep, names, out) && a in net.arcs && !a.inhibit && Crossed(net, sep, names, a, i)
    ensures tid in net.transitions && p in net.place && c < |names| && Exceeds(net, sep, names, out, a, tid, p, c)
  {
    assert TypedArc(net, a);
    var b := Component(net, sep, names, a, i);
    var arcs := UnfoldComponents(net, sep, names, a, |DefaultedWeight(a)|);
    ArcUnfolds(net, sep, names, a, |DefaultedWeight(a)|, i);
    assert At(b.weight, 0) == DefaultedWeight(a)[i];
    if a.source in net.place {
      p, c :| p in net.order && 0 <= c < |names| && b.target == Name(p, sep, names, c);
      tid := b.source;
      NameIsPlace(net, sep, names, out, p, c);
      ProducerProduces(out, arcs, b, tid, b.target, 0);
    } else {
      p, c :| p in net.order && 0 <= c < |names| && b.source == Name(p, sep, names, c);
      tid := b.target;
      NameIsPlace(net, sep, names, out, p, c);
      ConsumerConsumes(out, arcs, b, tid, b.source, 0);
    }
  }

  /** An arc with an empty weight vector moves a token of colour 0 in the unfolded net. */
  lemma {:induction false} EmptyExceeds(net: Net, sep: string, names: seq<string>, out: Net, a: Arc)
      returns (tid: string, p: string)
    requires UnfoldsShaped(net, sep, names, out) && a in net.arcs && !a.inhibit && a.weight == []
    ensures tid in net.transitions && p in net.place && |names| > 0 && Exceeds(net, sep, names, out, a, tid, p, 0)
  {
    assert TypedArc(net, a);
    tid, p := if a.source in net.place then a.target else a.source, if a.source in net.place then a.source else a.target;
    ComponentsAtLeast(net, sep, names, out, a, 1, tid, p, 0);
  }

  lemma ExceedsBreaks(net: Net, sep: string, names: seq<string>, out: Net, a: Arc, tid: string, p: string, c: nat)
    requires UnfoldsShaped(net, sep, names, out) && a in net.arcs && tid in net.transitions && p in net.place
    requires c < |names| && Exceeds(net, sep, names, out, a, tid, p, c)
    ensures !SameIncidence(net, sep, names, out)
  {
    var l :| 0 <= l < |net.arcs| && net.arcs[l] == a;
    assert net.arcs[..|net.arcs|] == net.arcs;
    IncidenceAtLeast(net, sep, names, out, |net.arcs|, l, tid, p, c);
    assert out.arcs == UnfoldArcs(net, sep, names, net.arcs);
    hide UnfoldsShaped, Exceeds, Name;
  }

  /**
   * The unfolding keeps the incidence if and only if no moving arc has an empty weight vector, and none joins two
   * transitions that are named like expanded places.
   */
  lemma {:induction false} IncidenceKeptIff(net: Net, sep: string, names: seq<string>, out: Net)
    requires UnfoldsShaped(net, sep, names, out)
    ensures SameIncidence(net, sep, names, out)
      <==> (forall a :: a in net.arcs && !a.inhibit ==> a.weight != []) && MovesUncrossed(net, sep, names)
  {
    hide UnfoldsShaped, Exceeds, Crossed;
    if exists a :: a in net.arcs && !a.inhibit && a.weight == [] {
      var a :| a in net.arcs && !a.inhibit && a.weight == [];
      var tid, p := EmptyExceeds(net, sep, names, out, a);
      ExceedsBreaks(net, sep, names, out, a, tid, p, 0);
    } else if !MovesUncrossed(net, sep, names) {
      var a, i: nat :| a in net.arcs && !a.inhibit && Crossed(net, sep, names, a, i);
      var tid, p, c := CrossedExceeds(net, sep, names, out, a, i);
      ExceedsBreaks(net, sep, names, out, a, tid, p, c);
    } else {
      MovesKept(net, sep, names, out);
    }
  }

  lemma MovesKept(net: Net, sep: string, names: seq<string>, out: Net)
    requires UnfoldsShaped(net, sep, names, out) && MovesUncrossed(net, sep, names)
    requires forall a :: a in net.arcs && !a.inhibit ==> a.weight != []
    ensures SameIncidence(net, sep, names, out)
  {
    assert net.arcs[..|net.arcs|] == net.arcs && out.arcs == UnfoldArcs(net, sep, names, net.arcs);
    hide UnfoldsShaped, MovesUncrossed, Name, Consumed, Produced;
    forall t, p, c: nat | t in net.transitions && p in net.place && c < |names|
      ensures Consumed(out, out.arcs, t, Name(p, sep, names, c), 0) == Consumed(net, net.arcs, t, p, c)
      ensures Produced(out, out.arcs, t, Name(p, sep, names, c), 0) == Produced(net, net.arcs, t, p, c)
    {
      UnfoldedIncidence(net, sep, names, out, |net.arcs|, t, p, c, 0);
      NoEmptyArcs(net, |net.arcs|, t, p);
    }
  }

  // ---- Corresponding markings ------------------------------------------------------------------

  /** `e` holds at the expanded place (p, c) what `m` holds of colour c at p. */
  ghost predicate Corresponds(net: Net, sep: string, names: seq<string>, m: Marking, e: Marking)
  {
    && (forall p, c: nat :: p in net.place && c < |names| ==> Tok(e, Name(p, sep, names, c), 0) == Tok(m, p, c))
    && (forall p, c: nat :: p in net.place && c >= |names| ==> Tok(m, p, c) == 0)
    && (forall p, c: nat, j: nat :: p in net.place && c < |names| && j > 0 ==> Tok(e, Name(p, sep, names, c), j) == 0)
  }

  ghost predicate NonNegative(net: Net, m: Marking)
  {
    forall p, i: nat :: p in net.place ==> 0 <= Tok(m, p, i)
  }

  lemma OutPlace(net: Net, sep: string, names: seq<string>, out: Net, n: string) returns (p: string, c: nat)
    requires IsUnfolding(net, sep, names, out) && n in out.place
    ensures p in net.place && c < |names| && n == Name(p, sep, names, c)
  {
    p, c :| p in net.order && 0 <= c < |names| && n == Name(p, sep, names, c);
  }

  /** Initial markings correspond. */
  lemma InitialMarkingsCorrespond(net: Net, sep: string, names: seq<string>, out: Net)
    requires IsUnfolding(net, sep, names, out)
    ensures Corresponds(net, sep, names, InitialMarking(net), InitialMarking(out))
  {
    forall p, c: nat | p in net.place && c < |names|
      ensures Tokens(InitialMarking(out), Name(p, sep, names, c)) == UnfoldedPlace(net.place[p], c).initial
    {
      NameIsPlace(net, sep, names, out, p, c);
    }
  }

  // ---- Inhibitors -----------------------------------------------------------------------------

  lemma {:induction false} ArcUnfolds(net: Net, sep: string, names: seq<string>, a: Arc, n: nat, i: nat)
    requires n <= |DefaultedWeight(a)| && i < n && i < |names| && DefaultedWeight(a)[i] != 0
    ensures Arc(Endpoint(net, sep, names, a.source, i), Endpoint(net, sep, names, a.target, i),
                [DefaultedWeight(a)[i]], a.inhibit) in UnfoldComponents(net, sep, names, a, n)
  {
    if i < n - 1 { ArcUnfolds(net, sep, names, a, n - 1, i); }
  }

  lemma {:induction false} ComponentOrigin(net: Net, sep: string, names: seq<string>, a: Arc, n: nat, b: Arc) returns (i: nat)
    requires n <= |DefaultedWeight(a)| && b in UnfoldComponents(net, sep, names, a, n)
    ensures i < n && i < |names| && DefaultedWeight(a)[i] != 0
    ensures b == Arc(Endpoint(net, sep, names, a.source, i), Endpoint(net, sep, names, a.target, i),
                     [DefaultedWeight(a)[i]], a.inhibit)
  {
    if b in UnfoldComponents(net, sep, names, a, n - 1) {
      i := ComponentOrigin(net, sep, names, a, n - 1, b);
    } else {
      i := n - 1;
    }
  }

  lemma {:induction false} UnfoldedMember(net: Net, sep: string, names: seq<string>, arcs: seq<Arc>, a: Arc, b: Arc)
    requires a in arcs && b in UnfoldComponents(net, sep, names, a, |DefaultedWeight(a)|)
    ensures b in UnfoldArcs(net, sep, names, arcs)
  {
    if a != arcs[|arcs| - 1] {
      UnfoldedMember(net, sep, names, arcs[..|arcs| - 1], a, b);
    }
  }

  lemma {:induction false} ArcOrigin(net: Net, sep: string, names: seq<string>, arcs: seq<Arc>, b: Arc) returns (a: Arc, i: nat)
    requires b in UnfoldArcs(net, sep, names, arcs)
    ensures a in arcs && i < |DefaultedWeight(a)| && i < |names| && DefaultedWeight(a)[i] != 0
    ensures b == Arc(Endpoint(net, sep, names, a.source, i), Endpoint(net, sep, names, a.target, i),
                     [DefaultedWeight(a)[i]], a.inhibit)
  {
    a := arcs[|arcs| - 1];
    if b in UnfoldComponents(net, sep, names, a, |DefaultedWeight(a)|) {
      i := ComponentOrigin(net, sep, names, a, |DefaultedWeight(a)|, b);
    } else {
      a, i := ArcOrigin(net, sep, names, arcs[..|arcs| - 1], b);
    }
  }

  /** The inhibitor condition of `a` on colour `i` alone. */
  ghost predicate ColorAllows(net: Net, a: Arc, tid: string, m: Marking, i: nat)
  {
    && (a.inhibit && a.target == tid && a.source in net.place && At(a.weight, i) > 0 ==>
          Tok(m, a.source, i) < At(a.weight, i))
    && (a.inhibit && a.source == tid && a.target in net.place && At(a.weight, i) > 0 ==>
          At(a.weight, i) <= Tok(m, a.target, i))
  }

  lemma AllowsPerColor(net: Net, a: Arc, tid: string, m: Marking)
    ensures ArcAllows(net, a, tid, m) <==> forall i: nat :: ColorAllows(net, a, tid, m, i)
  {
    if forall i: nat :: ColorAllows(net, a, tid, m, i) {
      forall i: nat
        ensures a.inhibit && a.target == tid && a.source in net.place && At(a.weight, i) > 0 ==>
          Tok(m, a.source, i) < At(a.weight, i)
        ensures a.inhibit && a.source == tid && a.target in net.place && At(a.weight, i) > 0 ==>
          At(a.weight, i) <= Tok(m, a.target, i)
      {
        assert ColorAllows(net, a, tid, m, i);
      }
    }
  }

  lemma {:induction false} ComponentAllows(net: Net, sep: string, names: seq<string>, out: Net, a: Arc, i: nat,
                                           tid: string, m: Marking, e: Marking)
    requires IsUnfolding(net, sep, names, out) && WeightsDeclared(net)
    requires a in net.arcs && i < |a.weight| && a.weight[i] != 0 && i < |names|
    requires tid in net.transitions && Corresponds(net, sep, names, m, e)
    ensures var b := Arc(Endpoint(net, sep, names, a.source, i), Endpoint(net, sep, names, a.target, i),
                         [a.weight[i]], a.inhibit);
      ArcAllows(out, b, tid, e) <==> ColorAllows(net, a, tid, m, i)
  {
    var b := Arc(Endpoint(net, sep, names, a.source, i), Endpoint(net, sep, names, a.target, i), [a.weight[i]], a.inhibit);
    assert TypedArc(net, a) && !Crossed(net, sep, names, a, i);
    var p := if a.source in net.place then a.source else a.target;
    NameIsPlace(net, sep, names, out, p, i);
    assert ExpandedName(net.order, sep, names, Name(p, sep, names, i));
    assert Tok(e, Name(p, sep, names, i), 0) == Tok(m, p, i);
    assert At(b.weight, 0) == a.weight[i] && forall j: nat :: j > 0 ==> At(b.weight, j) == 0;
  }

  lemma {:induction false} InhibitorsAgree(net: Net, sep: string, names: seq<string>, out: Net,
                                           tid: string, m: Marking, e: Marking)
    requires IsUnfolding(net, sep, names, out) && WeightsDeclared(net)
    requires tid in net.transitions && Corresponds(net, sep, names, m, e)
    ensures ArcsAllow(net, tid, m) <==> ArcsAllow(out, tid, e)
  {
    if ArcsAllow(net, tid, m) {
      forall b | b in out.arcs
        ensures ArcAllows(out, b, tid, e)
      {
        var a, i := ArcOrigin(net, sep, names, net.arcs, b);
        AllowsPerColor(net, a, tid, m);
        ComponentAllows(net, sep, names, out, a, i, tid, m, e);
      }
    }
    if ArcsAllow(out, tid, e) {
      forall a | a in net.arcs
        ensures ArcAllows(net, a, tid, m)
      {
        forall i: nat
          ensures ColorAllows(net, a, tid, m, i)
        {
          if At(a.weight, i) > 0 {
            ComponentInOut(net, sep, names, out, a, i);
            ComponentAllows(net, sep, names, out, a, i, tid, m, e);
          }
        }
        AllowsPerColor(net, a, tid, m);
      }
    }
  }

  lemma ComponentInOut(net: Net, sep: string, names: seq<string>, out: Net, a: Arc, i: nat)
    requires IsUnfolding(net, sep, names, out)
    requires a in net.arcs && i < |a.weight| && a.weight[i] != 0
    ensures i < |names|
    ensures Arc(Endpoint(net, sep, names, a.source, i), Endpoint(net, sep, names, a.target, i),
                [a.weight[i]], a.inhibit) in out.arcs
  {
    ArcUnfolds(net, sep, names, a, |a.weight|, i);
    UnfoldedMember(net, sep, names, net.arcs, a,
      Arc(Endpoint(net, sep, names, a.source, i), Endpoint(net, sep, names, a.target, i), [a.weight[i]], a.inhibit));
  }

  // ---- Enabledness -------------------------------------------------------------------------------

  /** For non-negative tokens the places nothing is consumed from need no check. */
  lemma SufficientEverywhere(net: Net, tid: string, m: Marking)
    requires NonNegative(net, m)
    ensures Sufficient(net, tid, m)
      <==> forall p, i: nat :: p in net.place ==> Consumed(net, net.arcs, tid, p, i) <= Tok(m, p, i)
  {
    forall p | p in net.place && !Consumes(net, net.arcs, tid, p)
      ensures forall i: nat :: Consumed(net, net.arcs, tid, p, i) == 0
    {
      NothingConsumed(net, net.arcs, tid, p);
    }
  }

  lemma {:induction false} SufficientAgree(net: Net, sep: string, names: seq<string>, out: Net,
                                           tid: string, m: Marking, e: Marking)
    requires IsUnfolding(net, sep, names, out) && WeightsDeclared(net)
    requires tid in net.transitions && Corresponds(net, sep, names, m, e) && NonNegative(net, m)
    ensures Sufficient(net, tid, m) <==> Sufficient(out, tid, e)
  {
    NonNegativeOut(net, sep, names, out, m, e);
    SufficientEverywhere(net, tid, m);
    SufficientEverywhere(out, tid, e);
    if Sufficient(net, tid, m) {
      forall n, j: nat | n in out.place
        ensures Consumed(out, out.arcs, tid, n, j) <= Tok(e, n, j)
      {
        var p, c := OutPlace(net, sep, names, out, n);
        Incidence(net, sep, names, out, tid, p, c, j);
      }
    }
    if Sufficient(out, tid, e) {
      forall p, c: nat | p in net.place
        ensures Consumed(net, net.arcs, tid, p, c) <= Tok(m, p, c)
      {
        if c < |names| {
          NameIsPlace(net, sep, names, out, p, c);
          Incidence(net, sep, names, out, tid, p, c, 0);
        } else {
          BeyondColors(net, |net.arcs|, tid, p, c, |names|);
        }
      }
    }
  }

  lemma {:induction false} BeyondColors(net: Net, k: nat, tid: string, p: string, c: nat, n: nat)
    requires k <= |net.arcs| && CoversAllVectors(net, n) && c >= n
    ensures Consumed(net, net.arcs[..k], tid, p, c) == 0 && Produced(net, net.arcs[..k], tid, p, c) == 0
    ensures k == |net.arcs| ==> Consumed(net, net.arcs, tid, p, c) == 0 && Produced(net, net.arcs, tid, p, c) == 0
  {
    if k > 0 {
      BeyondColors(net, k - 1, tid, p, c, n);
      assert net.arcs[..k][..k - 1] == net.arcs[..k - 1];
    }
    if k == |net.arcs| { assert net.arcs[..k] == net.arcs; }
  }

  /** The incidence of the unfolded net when every weight vector is declared. */
  lemma Incidence(net: Net, sep: string, names: seq<string>, out: Net, tid: string, p: string, c: nat, j: nat)
    requires IsUnfolding(net, sep, names, out) && WeightsDeclared(net)
    requires tid in net.transitions && p in net.place && c < |names|
    ensures Consumed(out, out.arcs, tid, Name(p, sep, names, c), j)
         == if j == 0 then Consumed(net, net.arcs, tid, p, c) else 0
    ensures Produced(out, out.arcs, tid, Name(p, sep, names, c), j)
         == if j == 0 then Produced(net, net.arcs, tid, p, c) else 0
  {
    assert net.arcs[..|net.arcs|] == net.arcs;
    UnfoldedIncidence(net, sep, names, out, |net.arcs|, tid, p, c, j);
    NoEmptyArcs(net, |net.arcs|, tid, p);
  }

  lemma NonNegativeOut(net: Net, sep: string, names: seq<string>, out: Net, m: Marking, e: Marking)
    requires IsUnfolding(net, sep, names, out)
    requires Corresponds(net, sep, names, m, e) && NonNegative(net, m)
    ensures NonNegative(out, e)
  {
    forall n, j: nat | n in out.place
      ensures 0 <= Tok(e, n, j)
    {
      var p, c := OutPlace(net, sep, names, out, n);
    }
  }

  /** No colour that `tid` leaves alone is above the capacity of a place `tid` produces into. */
  ghost predicate IdleColorsFit(net: Net, tid: string, m: Marking)
  {
    forall p, i: nat :: Produces(net, net.arcs, tid, p) && p in net.place && Produced(net, net.arcs, tid, p, i) == 0 ==>
      FitsIn(net.place[p].capacity, i, After(net, tid, m, p, i))
  }

  ghost predicate ProducedColorsFit(net: Net, tid: string, m: Marking)
  {
    forall p, i: nat :: p in net.place && Produced(net, net.arcs, tid, p, i) > 0 ==>
      FitsIn(net.place[p].capacity, i, After(net, tid, m, p, i))
  }

  lemma FitsSplit(net: Net, tid: string, m: Marking)
    ensures Fits(net, tid, m) <==> ProducedColorsFit(net, tid, m) && IdleColorsFit(net, tid, m)
  {
    forall p | !Produces(net, net.arcs, tid, p)
      ensures forall i: nat :: Produced(net, net.arcs, tid, p, i) == 0
    {
      NothingProduced(net, net.arcs, tid, p);
    }
  }

  /** In the unfolded net a place that is produced into receives tokens of its single colour. */
  lemma {:induction false} UnfoldedIdleFit(net: Net, sep: string, names: seq<string>, out: Net,
                                           tid: string, m: Marking, e: Marking)
    requires IsUnfolding(net, sep, names, out) && WeightsDeclared(net)
    requires tid in net.transitions && Corresponds(net, sep, names, m, e)
    ensures IdleColorsFit(out, tid, e)
  {
    forall n, j: nat | Produces(out, out.arcs, tid, n) && n in out.place && Produced(out, out.arcs, tid, n, j) == 0
      ensures FitsIn(out.place[n].capacity, j, After(out, tid, e, n, j))
    {
      var p, c := OutPlace(net, sep, names, out, n);
      NameIsPlace(net, sep, names, out, p, c);
      if j == 0 {
        var b :| b in out.arcs && Producer(out, b, tid, n);
        var a, i := ArcOrigin(net, sep, names, net.arcs, b);
        ComponentTouches(net, sep, names, out, a, i, tid, p, c);
        Incidence(net, sep, names, out, tid, p, c, 0);
        ProducerProduces(net, net.arcs, a, tid, p, c);
      }
    }
  }

  lemma {:induction false} ConsumerConsumes(net: Net, arcs: seq<Arc>, a: Arc, tid: string, p: string, c: nat)
    requires a in arcs && Consumer(net, a, tid, p)
    ensures Consumed(net, arcs, tid, p, c) >= At(a.weight, c)
  {
    if a != arcs[|arcs| - 1] { ConsumerConsumes(net, arcs[..|arcs| - 1], a, tid, p, c); }
  }

  lemma {:induction false} ProducerProduces(net: Net, arcs: seq<Arc>, a: Arc, tid: string, p: string, c: nat)
    requires a in arcs && Producer(net, a, tid, p)
    ensures Produced(net, arcs, tid, p, c) >= At(a.weight, c)
  {
    if a != arcs[|arcs| - 1] { ProducerProduces(net, arcs[..|arcs| - 1], a, tid, p, c); }
  }

  lemma {:induction false} ProducedFitAgree(net: Net, sep: string, names: seq<string>, out: Net,
                                            tid: string, m: Marking, e: Marking)
    requires IsUnfolding(net, sep, names, out) && WeightsDeclared(net)
    requires tid in net.transitions && Corresponds(net, sep, names, m, e)
    ensures ProducedColorsFit(net, tid, m) <==> ProducedColorsFit(out, tid, e)
  {
    if ProducedColorsFit(net, tid, m) {
      forall n, j: nat | n in out.place && Produced(out, out.arcs, tid, n, j) > 0
        ensures FitsIn(out.place[n].capacity, j, After(out, tid, e, n, j))
      {
        var p, c := OutPlace(net, sep, names, out, n);
        NameIsPlace(net, sep, names, out, p, c);
        Incidence(net, sep, names, out, tid, p, c, j);
        assert FitsIn(net.place[p].capacity, c, After(net, tid, m, p, c));
      }
    }
    if ProducedColorsFit(out, tid, e) {
      forall p, c: nat | p in net.place && Produced(net, net.arcs, tid, p, c) > 0
        ensures FitsIn(net.place[p].capacity, c, After(net, tid, m, p, c))
      {
        if c < |names| {
          NameIsPlace(net, sep, names, out, p, c);
          Incidence(net, sep, names, out, tid, p, c, 0);
          var n := Name(p, sep, names, c);
          assert FitsIn(out.place[n].capacity, 0, After(out, tid, e, n, 0));
        } else {
          BeyondColors(net, |net.arcs|, tid, p, c, |names|);
        }
      }
    }
  }

  /**
   * A transition is enabled in the coloured net exactly when it is enabled in the unfolded net and the native
   * capacity check finds no colour without production above capacity.
   */
  lemma EnabledExactly(net: Net, sep: string, names: seq<string>, out: Net, tid: string, m: Marking, e: Marking)
    requires IsUnfolding(net, sep, names, out) && WeightsDeclared(net)
    requires tid in net.transitions && Corresponds(net, sep, names, m, e) && NonNegative(net, m)
    ensures Enabled(net, tid, m) <==> Enabled(out, tid, e) && IdleColorsFit(net, tid, m)
  {
    InhibitorsAgree(net, sep, names, out, tid, m, e);
    SufficientAgree(net, sep, names, out, tid, m, e);
    FitsSplit(net, tid, m);
    FitsSplit(out, tid, e);
    ProducedFitAgree(net, sep, names, out, tid, m, e);
    UnfoldedIdleFit(net, sep, names, out, tid, m, e);
  }

  // ---- Empty weight vectors ------------------------------------------------------------------------

  /** The net as the unfolder reads it, with [1] for every empty weight vector. */
  function Defaulted(net: Net): Net
  {
    net.(arcs := DefaultedArcs(net.arcs))
  }

  function AsRead(a: Arc): Arc
  {
    a.(weight := DefaultedWeight(a))
  }

  function DefaultedArcs(arcs: seq<Arc>): seq<Arc>
  {
    seq(|arcs|, i requires 0 <= i < |arcs| => AsRead(arcs[i]))
  }

  lemma DefaultedMember(arcs: seq<Arc>, b: Arc)
    ensures b in DefaultedArcs(arcs) <==> exists a :: a in arcs && b == AsRead(a)
  {
    var r := DefaultedArcs(arcs);
    hide AsRead;
    if a :| a in arcs && b == AsRead(a) {
      var i :| 0 <= i < |arcs| && arcs[i] == a;
      assert r[i] == b;
    }
    if b in r {
      var i :| 0 <= i < |r| && r[i] == b;
      assert arcs[i] in arcs;
    }
  }

  lemma {:induction false} SameComponents(net: Net, sep: string, names: seq<string>, a: Arc, n: nat)
    requires n <= |DefaultedWeight(a)|
    ensures UnfoldComponents(Defaulted(net), sep, names, AsRead(a), n)
         == UnfoldComponents(net, sep, names, a, n)
  {
    if n > 0 { SameComponents(net, sep, names, a, n - 1); }
  }

  lemma {:induction false} SameUnfoldedArcs(net: Net, sep: string, names: seq<string>, arcs: seq<Arc>)
    ensures UnfoldArcs(Defaulted(net), sep, names, DefaultedArcs(arcs)) == UnfoldArcs(net, sep, names, arcs)
  {
    if arcs != [] {
      var front, a := arcs[..|arcs| - 1], arcs[|arcs| - 1];
      SameUnfoldedArcs(net, sep, names, front);
      SameComponents(net, sep, names, a, |DefaultedWeight(a)|);
      var d := DefaultedArcs(arcs);
      assert d[..|d| - 1] == DefaultedArcs(front) && d[|d| - 1] == AsRead(a);
      hide UnfoldComponents;
    }
  }

  /** The arc that an arc of the defaulted net comes from. */
  lemma DefaultedOrigin(net: Net, b: Arc) returns (a: Arc)
    requires b in Defaulted(net).arcs
    ensures a in net.arcs && b == AsRead(a)
  {
    DefaultedMember(net.arcs, b);
    a :| a in net.arcs && b == AsRead(a);
  }

  lemma DefaultedShaped(net: Net, sep: string, names: seq<string>)
    requires Shaped(net, sep, names)
    ensures Shaped(Defaulted(net), sep, names) && WeightsDeclared(Defaulted(net))
  {
    var d := Defaulted(net);
    assert NamesInjective(d, sep, names);
    hide NamesInjective, Defaulted;
    forall b | b in d.arcs
      ensures b.weight != [] && |b.weight| <= |names| && TypedArc(d, b)
    {
      var a := DefaultedOrigin(net, b);
      assert TypedArc(net, a);
    }
  }

  lemma DefaultedUncrossed(net: Net, sep: string, names: seq<string>)
    requires Uncrossed(net, sep, names)
    ensures Uncrossed(Defaulted(net), sep, names)
  {
    var d := Defaulted(net);
    forall b, i: nat | b in d.arcs
      ensures !Crossed(d, sep, names, b, i)
    {
      var a := DefaultedOrigin(net, b);
      assert !Crossed(net, sep, names, a, i);
      hide ExpandedName;
    }
  }

  lemma DefaultedUnfolds(net: Net, sep: string, names: seq<string>, out: Net)
    requires Unfolds(net, sep, names, out)
    ensures Unfolds(Defaulted(net), sep, names, out)
  {
    SameUnfoldedArcs(net, sep, names, net.arcs);
    assert NamesInjective(Defaulted(net), sep, names) <==> NamesInjective(net, sep, names);
    hide NamesInjective, UnfoldArcs, ExpandedName;
  }

  /** Whatever weights are declared, the unfolded net is the unfolding of the net as the unfolder reads it. */
  lemma DefaultedIsUnfolded(net: Net, sep: string, names: seq<string>, out: Net)
    requires IsUnfolding(net, sep, names, out)
    ensures IsUnfolding(Defaulted(net), sep, names, out) && WeightsDeclared(Defaulted(net))
  {
    DefaultedShaped(net, sep, names);
    DefaultedUncrossed(net, sep, names);
    DefaultedUnfolds(net, sep, names, out);
    hide Shaped, Uncrossed, Unfolds, WeightsDeclared;
  }

  /** The runs of the unfolded net are those of the coloured net as the unfolder reads it. */
  lemma UnfoldingReadsDefaults(net: Net, sep: string, names: seq<string>, out: Net, ts: seq<string>, m: Marking, e: Marking)
    requires IsUnfolding(net, sep, names, out) && forall t :: t in ts ==> t in net.transitions
    requires Corresponds(net, sep, names, m, e) && WithinCapacity(net, m)
    ensures Run(Defaulted(net), m, ts).Some? <==> Run(out, e, ts).Some?
    ensures Run(Defaulted(net), m, ts).Some? ==>
      Corresponds(net, sep, names, Run(Defaulted(net), m, ts).value, Run(out, e, ts).value)
  {
    var d := Defaulted(net);
    DefaultedIsUnfolded(net, sep, names, out);
    assert Corresponds(d, sep, names, m, e) && WithinCapacity(d, m) && d.transitions == net.transitions;
    UnfoldingPreservesRuns(d, sep, names, out, ts, m, e);
    hide IsUnfolding, WeightsDeclared, Run, WithinCapacity;
  }

  /** The unfolder lets an empty inhibitor vector inhibit by one token of colour 0. */
  ghost predicate EmptyInhibitorsAllow(net: Net, tid: string, m: Marking)
  {
    forall a :: a in net.arcs && a.inhibit && a.weight == [] ==>
      && (a.target == tid && a.source in net.place ==> Tok(m, a.source, 0) < 1)
      && (a.source == tid && a.target in net.place ==> 1 <= Tok(m, a.target, 0))
  }

  lemma DefaultedArcAllows(net: Net, a: Arc, tid: string, m: Marking)
    ensures ArcAllows(Defaulted(net), AsRead(a), tid, m) <==>
      && ArcAllows(net, a, tid, m)
      && (a.inhibit && a.weight == [] ==>
           && (a.target == tid && a.source in net.place ==> Tok(m, a.source, 0) < 1)
           && (a.source == tid && a.target in net.place ==> 1 <= Tok(m, a.target, 0)))
  {
    if a.weight == [] {
      assert At([1], 0) == 1 && forall i: nat :: i > 0 ==> At([1], i) == 0;
      EmptyVector();
    }
    hide Tok;
  }

  lemma DefaultedAllows(net: Net, tid: string, m: Marking)
    ensures ArcsAllow(Defaulted(net), tid, m) <==> ArcsAllow(net, tid, m) && EmptyInhibitorsAllow(net, tid, m)
  {
    var d := Defaulted(net);
    forall a | a in net.arcs
      ensures AsRead(a) in d.arcs
    {
      DefaultedMember(net.arcs, AsRead(a));
      DefaultedArcAllows(net, a, tid, m);
    }
    forall b | b in d.arcs
      ensures exists a :: a in net.arcs && b == AsRead(a)
    {
      DefaultedMember(net.arcs, b);
    }
    forall a | a in net.arcs
      ensures ArcAllows(d, AsRead(a), tid, m) <==>
        && ArcAllows(net, a, tid, m)
        && (a.inhibit && a.weight == [] ==>
             && (a.target == tid && a.source in net.place ==> Tok(m, a.source, 0) < 1)
             && (a.source == tid && a.target in net.place ==> 1 <= Tok(m, a.target, 0)))
    {
      DefaultedArcAllows(net, a, tid, m);
    }
    hide ArcAllows, Defaulted, DefaultedWeight, Tok;
  }

  /** An arc that moves tokens and has a declared weight moves the same in the defaulted net. */
  lemma DefaultedArc(net: Net, a: Arc, tid: string, p: string)
    requires !a.inhibit ==> a.weight != []
    ensures var b := AsRead(a);
      && (Consumer(Defaulted(net), b, tid, p) <==> Consumer(net, a, tid, p))
      && (Producer(Defaulted(net), b, tid, p) <==> Producer(net, a, tid, p))
      && (!a.inhibit ==> b == a)
  {
  }

  lemma DefaultedLast(arcs: seq<Arc>)
    requires arcs != []
    ensures DefaultedArcs(arcs) == DefaultedArcs(arcs[..|arcs| - 1]) + [AsRead(arcs[|arcs| - 1])]
    ensures arcs == arcs[..|arcs| - 1] + [arcs[|arcs| - 1]]
  {
    hide AsRead;
  }

  lemma {:induction false} DefaultedMoves(net: Net, arcs: seq<Arc>, tid: string, p: string, i: nat)
    requires forall a :: a in arcs && !a.inhibit ==> a.weight != []
    ensures Consumed(Defaulted(net), DefaultedArcs(arcs), tid, p, i) == Consumed(net, arcs, tid, p, i)
    ensures Produced(Defaulted(net), DefaultedArcs(arcs), tid, p, i) == Produced(net, arcs, tid, p, i)
  {
    if arcs != [] {
      var front, a := arcs[..|arcs| - 1], arcs[|arcs| - 1];
      var b := AsRead(a);
      DefaultedMoves(net, front, tid, p, i);
      DefaultedLast(arcs);
      DefaultedArc(net, a, tid, p);
      assert Consumer(net, a, tid, p) || Producer(net, a, tid, p) ==> b == a;
      hide *;
      PushArc(net, front, a, tid, p, i);
      PushArc(Defaulted(net), DefaultedArcs(front), b, tid, p, i);
    }
  }

  lemma DefaultedTouches(net: Net, tid: string, p: string)
    requires forall a :: a in net.arcs && !a.inhibit ==> a.weight != []
    ensures var d := Defaulted(net);
      && (Consumes(d, d.arcs, tid, p) <==> Consumes(net, net.arcs, tid, p))
      && (Produces(d, d.arcs, tid, p) <==> Produces(net, net.arcs, tid, p))
  {
    var d := Defaulted(net);
    forall a | a in net.arcs && !a.inhibit
      ensures a in d.arcs
    {
      DefaultedMember(net.arcs, a);
      DefaultedArc(net, a, tid, p);
    }
    forall b | b in d.arcs && !b.inhibit
      ensures b in net.arcs
    {
      var a := DefaultedOrigin(net, b);
    }
    assert d.place == net.place;
    hide Defaulted;
  }

  lemma DefaultedEnabled(net: Net, tid: string, m: Marking)
    requires forall a :: a in net.arcs && !a.inhibit ==> a.weight != []
    ensures Sufficient(Defaulted(net), tid, m) <==> Sufficient(net, tid, m)
    ensures Fits(Defaulted(net), tid, m) <==> Fits(net, tid, m)
    ensures IdleColorsFit(Defaulted(net), tid, m) <==> IdleColorsFit(net, tid, m)
  {
    var d := Defaulted(net);
    forall p
      ensures Consumes(d, d.arcs, tid, p) <==> Consumes(net, net.arcs, tid, p)
      ensures Produces(d, d.arcs, tid, p) <==> Produces(net, net.arcs, tid, p)
    {
      DefaultedTouches(net, tid, p);
    }
    forall p, i: nat
      ensures Consumed(d, d.arcs, tid, p, i) == Consumed(net, net.arcs, tid, p, i)
      ensures Produced(d, d.arcs, tid, p, i) == Produced(net, net.arcs, tid, p, i)
      ensures After(d, tid, m, p, i) == After(net, tid, m, p, i)
    {
      DefaultedMoves(net, net.arcs, tid, p, i);
    }
    assert d.place == net.place;
    hide Defaulted, Consumed, Produced, Consumes, Produces, Tok, FitsIn, After;
  }

  /**
   * With declared weights on the moving arcs alone, a transition is enabled in the unfolded net up to idle colours exactly
   * when it is enabled in the coloured net and no empty inhibitor vector blocks it.
   */
  lemma EnabledWithEmptyInhibitors(net: Net, sep: string, names: seq<string>, out: Net, tid: string, m: Marking, e: Marking)
    requires IsUnfolding(net, sep, names, out) && forall a :: a in net.arcs && !a.inhibit ==> a.weight != []
    requires tid in net.transitions && Corresponds(net, sep, names, m, e) && NonNegative(net, m)
    ensures Enabled(net, tid, m) && EmptyInhibitorsAllow(net, tid, m)
      <==> Enabled(out, tid, e) && IdleColorsFit(net, tid, m)
  {
    var d := Defaulted(net);
    DefaultedIsUnfolded(net, sep, names, out);
    assert Corresponds(d, sep, names, m, e) && NonNegative(d, m) && d.transitions == net.transitions;
    hide *;
    EnabledExactly(d, sep, names, out, tid, m, e);
    DefaultedAllows(net, tid, m);
    DefaultedEnabled(net, tid, m);
    EnabledParts(net, tid, m);
    EnabledParts(d, tid, m);
  }

  lemma EnabledParts(net: Net, tid: string, m: Marking)
    ensures Enabled(net, tid, m) <==> ArcsAllow(net, tid, m) && Sufficient(net, tid, m) && Fits(net, tid, m)
  {
  }

  // ---- Nets for which the unfolding differs ----------------------------------------------------------

  /** An arc without weights takes nothing in the coloured net and a token of the first colour in the unfolded one. */
  lemma EmptyWeightMoves()
    ensures var a := Arc("p", "t", [], false);
      var net := Net(["x", "y"], ["p"], map["p" := Place([1, 0], [])], ["t"], [a]);
      var names := ["x", "y"];
      && Consumed(net, net.arcs, "t", "p", 0) == 0
      && forall out :: Unfolds(net, ".", names, out) ==> Consumed(out, out.arcs, "t", Name("p", ".", names, 0), 0) == 1
  {
    var a := Arc("p", "t", [], false);
    var net := Net(["x", "y"], ["p"], map["p" := Place([1, 0], [])], ["t"], [a]);
    var names := ["x", "y"];
    var n := Name("p", ".", names, 0);
    var b := Arc(n, "t", [1], false);
    assert UnfoldComponents(net, ".", names, a, 0) == [];
    assert UnfoldComponents(net, ".", names, a, 1) == [b];
    assert UnfoldArcs(net, ".", names, []) == [] && UnfoldArcs(net, ".", names, [a]) == [b];
    assert [] + [a] == [a] && [] + [b] == [b];
    PushArc(net, [], a, "t", "p", 0);
    assert "p" in net.order && ExpandedName(net.order, ".", names, n);
    hide UnfoldComponents, UnfoldArcs, ExpandedName, Name;
    forall out | Unfolds(net, ".", names, out)
      ensures Consumed(out, out.arcs, "t", n, 0) == 1
    {
      assert n in out.place && out.arcs == [b];
      PushArc(out, [], b, "t", n, 0);
    }
  }

  /** Above capacity in the colour y, the coloured net blocks a production of x that the unfolded net allows. */
  lemma IdleColorBlocks()
    ensures var a := Arc("t", "p", [1, 0], false);
      var net := Net(["x", "y"], ["p"], map["p" := Place([0, 2], [9, 1])], ["t"], [a]);
      var names, m := ["x", "y"], map["p" := [0, 2]];
      && !Enabled(net, "t", m) && !IdleColorsFit(net, "t", m)
      && forall out, e :: Unfolds(net, ".", names, out) && Corresponds(net, ".", names, m, e) ==> Enabled(out, "t", e)
  {
    var a := Arc("t", "p", [1, 0], false);
    var net := Net(["x", "y"], ["p"], map["p" := Place([0, 2], [9, 1])], ["t"], [a]);
    var names, m := ["x", "y"], map["p" := [0, 2]];
    assert [] + [a] == [a];
    PushArc(net, [], a, "t", "p", 0);
    PushArc(net, [], a, "t", "p", 1);
    assert a in net.arcs && Produces(net, net.arcs, "t", "p");
    assert After(net, "t", m, "p", 1) == 2 && !FitsIn(net.place["p"].capacity, 1, 2);
    forall out, e | Unfolds(net, ".", names, out) && Corresponds(net, ".", names, m, e)
      ensures Enabled(out, "t", e)
    {
      IdleColorAllows(net, out, m, e);
    }
  }

  lemma IdleNamesDiffer(net: Net)
    requires net.place.Keys == {"p"}
    ensures NamesInjective(net, ".", ["x", "y"])
  {
    var names := ["x", "y"];
    forall i, j | 0 <= i < 2 && 0 <= j < 2 && Name("p", ".", names, i) == Name("p", ".", names, j)
      ensures i == j
    {
      assert Name("p", ".", names, i)[2] == names[i][0] && Name("p", ".", names, j)[2] == names[j][0];
    }
  }

  lemma IdleColorAllows(net: Net, out: Net, m: Marking, e: Marking)
    requires net == Net(["x", "y"], ["p"], map["p" := Place([0, 2], [9, 1])], ["t"], [Arc("t", "p", [1, 0], false)])
    requires m == map["p" := [0, 2]]
    requires Unfolds(net, ".", ["x", "y"], out) && Corresponds(net, ".", ["x", "y"], m, e)
    ensures Enabled(out, "t", e)
  {
    var names, a := ["x", "y"], Arc("t", "p", [1, 0], false);
    var n := Name("p", ".", names, 0);
    var b := Arc("t", n, [1], false);
    assert UnfoldComponents(net, ".", names, a, 0) == [];
    assert UnfoldComponents(net, ".", names, a, 1) == [b] == UnfoldComponents(net, ".", names, a, 2);
    assert UnfoldArcs(net, ".", names, []) == [] && UnfoldArcs(net, ".", names, [a]) == [b] && [] + [b] == [b];
    IdleNamesDiffer(net);
    assert n in out.place && out.place[n] == UnfoldedPlace(net.place["p"], 0);
    assert Tok(e, n, 0) == Tok(m, "p", 0) == 0;
    assert out.arcs == [b] && out.place[n].capacity == [9] && |n| == 3;
    hide Unfolds, NamesInjective, Corresponds, UnfoldArcs, UnfoldComponents, Name, Tok;
    OneProducerEnabled(out, n, e);
  }

  lemma OneProducerEnabled(out: Net, n: string, e: Marking)
    requires n in out.place && out.place[n].capacity == [9] && out.arcs == [Arc("t", n, [1], false)]
    requires Tok(e, n, 0) == 0 && n != "t"
    ensures Enabled(out, "t", e)
  {
    var b := Arc("t", n, [1], false);
    assert [] + [b] == [b];
    forall p
      ensures !Consumes(out, out.arcs, "t", p)
      ensures Produces(out, out.arcs, "t", p) ==> p == n
    {
    }
    PushArc(out, [], b, "t", n, 0);
    assert After(out, "t", e, n, 0) == 1;
    assert forall i: nat :: i > 0 ==> FitsIn([9], i, After(out, "t", e, n, i));
    hide Consumes, Produces, Consumed, Produced, After, Tok;
  }

  lemma IdleColorsFitWithinCapacity(net: Net, tid: string, m: Marking)
    requires WithinCapacity(net, m)
    ensures IdleColorsFit(net, tid, m)
  {
  }

  /** From a marking within capacity both nets enable the same transitions and fire to corresponding markings. */
  lemma {:induction false} FiringCorresponds(net: Net, sep: string, names: seq<string>, out: Net,
                                             tid: string, m: Marking, e: Marking)
    requires IsUnfolding(net, sep, names, out) && WeightsDeclared(net)
    requires tid in net.transitions && Corresponds(net, sep, names, m, e) && WithinCapacity(net, m)
    ensures Enabled(net, tid, m) <==> Enabled(out, tid, e)
    ensures Enabled(net, tid, m) ==>
      Corresponds(net, sep, names, Fire(net, tid, m).value, Fire(out, tid, e).value)
  {
    StartsNonNegative(net, m);
    EnabledExactly(net, sep, names, out, tid, m, e);
    IdleColorsFitWithinCapacity(net, tid, m);
    hide IsUnfolding, WeightsDeclared, Enabled, Fire, WithinCapacity, IdleColorsFit, Tok, NonNegative;
    if Enabled(net, tid, m) {
      FireSome(net, tid, m);
      FireSome(out, tid, e);
      var m', e' := Fire(net, tid, m).value, Fire(out, tid, e).value;
      forall p, c: nat, j: nat | p in net.place && c < |names|
        ensures Tok(e', Name(p, sep, names, c), j) == if j == 0 then Tok(m', p, c) else 0
      {
        FiredTokens(net, sep, names, out, tid, m, e, p, c, j);
      }
      forall p, c: nat | p in net.place && c >= |names|
        ensures Tok(m', p, c) == 0
      {
        FiredBeyond(net, sep, names, out, tid, m, e, p, c);
      }
    }
  }

  lemma StartsNonNegative(net: Net, m: Marking)
    requires WithinCapacity(net, m)
    ensures NonNegative(net, m)
  {
  }

  lemma FireSome(net: Net, tid: string, m: Marking)
    requires Enabled(net, tid, m)
    ensures Fire(net, tid, m).Some?
  {
    hide Enabled;
  }

  lemma FiredTokens(net: Net, sep: string, names: seq<string>, out: Net, tid: string, m: Marking, e: Marking,
                    p: string, c: nat, j: nat)
    requires IsUnfolding(net, sep, names, out) && WeightsDeclared(net)
    requires tid in net.transitions && Corresponds(net, sep, names, m, e) && p in net.place && c < |names|
    requires Enabled(net, tid, m) && Enabled(out, tid, e)
    ensures Fire(net, tid, m).Some? && Fire(out, tid, e).Some?
    ensures Tok(Fire(out, tid, e).value, Name(p, sep, names, c), j)
         == if j == 0 then Tok(Fire(net, tid, m).value, p, c) else 0
  {
    FireSome(net, tid, m);
    FireSome(out, tid, e);
    FireEquation(net, tid, m, p, c);
    FireEquation(out, tid, e, Name(p, sep, names, c), j);
    Incidence(net, sep, names, out, tid, p, c, j);
    hide IsUnfolding, WeightsDeclared, Enabled, Fire, Tok;
  }

  lemma FiredBeyond(net: Net, sep: string, names: seq<string>, out: Net, tid: string, m: Marking, e: Marking,
                    p: string, c: nat)
    requires IsUnfolding(net, sep, names, out) && WeightsDeclared(net)
    requires tid in net.transitions && Corresponds(net, sep, names, m, e) && p in net.place && c >= |names|
    requires Enabled(net, tid, m)
    ensures Fire(net, tid, m).Some? && Tok(Fire(net, tid, m).value, p, c) == 0
  {
    FireSome(net, tid, m);
    FireEquation(net, tid, m, p, c);
    BeyondColors(net, |net.arcs|, tid, p, c, |names|);
    hide IsUnfolding, WeightsDeclared, Enabled, Fire, Tok;
  }

  /** Main theorem: the two nets have the same firing sequences, and each ends in corresponding markings. */
  lemma {:induction false} UnfoldingPreservesRuns(net: Net, sep: string, names: seq<string>, out: Net,
                                                  ts: seq<string>, m: Marking, e: Marking)
    requires IsUnfolding(net, sep, names, out) && WeightsDeclared(net)
    requires forall t :: t in ts ==> t in net.transitions
    requires Corresponds(net, sep, names, m, e) && WithinCapacity(net, m)
    ensures Run(net, m, ts).Some? <==> Run(out, e, ts).Some?
    ensures Run(net, m, ts).Some? ==>
      Corresponds(net, sep, names, Run(net, m, ts).value, Run(out, e, ts).value)
    decreases ts
  {
    if ts != [] {
      FiringCorresponds(net, sep, names, out, ts[0], m, e);
      if Enabled(net, ts[0], m) {
        FireKeepsCapacity(net, ts[0], m);
        UnfoldingPreservesRuns(net, sep, names, out, ts[1..], Fire(net, ts[0], m).value, Fire(out, ts[0], e).value);
      }
    }
  }

  // ---- From the unfolder to the theorem ------------------------------------------------------------

  /**
   * Transition names none of which is a run of dots and a colour name behind anything but another transition name, which
   * no place has.
   */
  ghost predicate SafeTransitions(ts: seq<string>, names: seq<string>)
  {
    forall t, i: nat, k: nat, x :: t in ts && IsDotted(names, i, k, x, t) ==> x in ts
  }

  predicate IsDotted(names: seq<string>, i: nat, k: nat, x: string, t: string)
  {
    i < |names| && k >= 1 && t == x + DotRun(k) + names[i]
  }

  ghost predicate TypedNet(net: Net)
  {
    && ValidNet(net)
    && (forall a :: a in net.arcs ==> TypedArc(net, a))
    && (forall t :: t in net.transitions ==> t !in net.place)
  }

  /** What a caller can check before unfolding: typed arcs, safe colour names and safe transition names. */
  ghost predicate SafeToUnfold(net: Net, names: seq<string>)
  {
    TypedNet(net) && SafeNames(names) && SafeTransitions(net.transitions, names)
  }

  lemma SafeIsUncrossed(net: Net, sep: string, names: seq<string>)
    requires TypedNet(net) && SafeTransitions(net.transitions, names) && Dots(sep) && |sep| >= 1
    ensures Uncrossed(net, sep, names)
  {
    DotsAreRun(sep);
    forall t | t in net.transitions
      ensures !ExpandedName(net.order, sep, names, t)
    {
      if ExpandedName(net.order, sep, names, t) {
        var p, i :| p in net.order && 0 <= i < |names| && t == Name(p, sep, names, i);
        assert IsDotted(names, i, |sep|, p, t);
      }
    }
  }

  /** For such a net the unfolder's output satisfies the hypotheses of UnfoldingPreservesRuns. */
  lemma {:induction false} ExpandedNetIsUnfolding(net: Net, sep: string, names: seq<string>, out: Net)
    requires SafeToUnfold(net, names) && |names| >= 2 && IsColorCount(net, |names|)
    requires IsSeparator(net, names, sep) && Unfolds(net, sep, names, out)
    ensures IsUnfolding(net, sep, names, out)
  {
    SafeNamesInjective(net, sep, names);
    SafeIsUncrossed(net, sep, names);
    hide SafeNames, SafeTransitions, IsSeparator, Uncrossed, Unfolds, NamesInjective;
  }

  /** A place that the transition `t` is an expanded name of, an arc between the two, and a ladder for the separator. */
  lemma {:induction false} CrossingNet(ts: seq<string>, names: seq<string>, t: string, i: nat, k: nat, x: string)
      returns (net: Net, a: Arc)
    requires t in ts && IsDotted(names, i, k, x, t) && x !in ts
    ensures TypedNet(net) && net.transitions == ts && net.token == names && CoversAllVectors(net, |names|)
    ensures IsSeparator(net, names, DotRun(k))
    ensures a in net.arcs && !a.inhibit && a.weight != [] && Crossed(net, DotRun(k), names, a, i)
  {
    var n := ShortestName(names);
    var c := if x != "" && x[0] == 'b' then 'a' else 'b';
    var r := seq(LongestName(ts) + |x| + 1, _ => c);
    a := Arc(x, t, seq(i, _ => 0) + [1], false);
    net := PlainNet(names, [x] + Ladder(r, k, names[n]), ts, [a]);
    forall l | 0 <= l < |names|
      ensures x + DotRun(k) + names[l] != x
    {
      assert |x + DotRun(k) + names[l]| > |x|;
    }
    LadderSeparates(net, [x], r, k, names, n);
    forall v | v in ts
      ensures v !in net.place
    {
      LongestNameCovers(ts, v);
      LadderStep(r, k, names[n], v);
    }
    assert net.order[0] == x && x in net.place && t !in net.place;
    assert Name(x, DotRun(k), names, i) == t;
    assert ExpandedName(net.order, DotRun(k), names, t);
    assert DefaultedWeight(a)[i] == 1;
  }

  /** The transition names keep every arc of every such net apart exactly when they are safe. */
  lemma {:induction false} SafeTransitionsIff(ts: seq<string>, names: seq<string>)
    ensures SafeTransitions(ts, names) <==>
      forall net, sep :: TypedNet(net) && net.transitions == ts && IsSeparator(net, names, sep) ==>
        MovesUncrossed(net, sep, names)
  {
    if SafeTransitions(ts, names) {
      forall net, sep | TypedNet(net) && net.transitions == ts && IsSeparator(net, names, sep)
        ensures MovesUncrossed(net, sep, names)
      {
        SafeIsUncrossed(net, sep, names);
        hide *;
        UncrossedMoves(net, sep, names);
      }
    } else {
      var t, i: nat, k: nat, x :| t in ts && IsDotted(names, i, k, x, t) && x !in ts;
      hide *;
      var net, a := CrossingNet(ts, names, t, i, k, x);
      CrossedMove(net, DotRun(k), names, a, i);
    }
  }

  lemma UncrossedMoves(net: Net, sep: string, names: seq<string>)
    requires Uncrossed(net, sep, names)
    ensures MovesUncrossed(net, sep, names)
  {
  }

  lemma CrossedMove(net: Net, sep: string, names: seq<string>, a: Arc, i: nat)
    requires a in net.arcs && !a.inhibit && Crossed(net, sep, names, a, i)
    ensures !MovesUncrossed(net, sep, names)
  {
  }

  /**
   * A transition named like an expanded place is read as a place by the unfolded net: the arc p -> q.x becomes
   * p.x -> q.x, and the transition p.x then produces into the place q.x.
   */
  lemma ClashingTransition()
    ensures var place := Place([0, 0], []);
      var a := Arc("p", "q.x", [1, 0], false);
      var net := Net(["x", "y"], ["p", "q"], map["p" := place, "q" := place], ["p.x", "q.x"], [a]);
      var names := ["x", "y"];
      forall out :: Unfolds(net, ".", names, out) ==>
        Produced(net, net.arcs, "p.x", "q", 0) == 0 && Produced(out, out.arcs, "p.x", Name("q", ".", names, 0), 0) == 1
  {
    var place := Place([0, 0], []);
    var a := Arc("p", "q.x", [1, 0], false);
    var net := Net(["x", "y"], ["p", "q"], map["p" := place, "q" := place], ["p.x", "q.x"], [a]);
    var names := ["x", "y"];
    var b := Arc("p.x", "q.x", [1], false);
    assert "p" + "." + "x" == "p.x" && "q" + "." + "x" == "q.x";
    assert UnfoldComponents(net, ".", names, a, 1) == [b];
    assert UnfoldComponents(net, ".", names, a, 2) == [b];
    assert UnfoldArcs(net, ".", names, [a]) == [b];
    assert "q" in net.order && ExpandedName(net.order, ".", names, Name("q", ".", names, 0));
    assert Name("q", ".", names, 0) == "q.x";
    assert [] + [a] == [a] && [] + [b] == [b];
    PushArc(net, [], a, "p.x", "q", 0);
    assert Produced(net, [a], "p.x", "q", 0) == 0;
    hide UnfoldComponents, UnfoldArcs, ExpandedName, Name;
    forall out | Unfolds(net, ".", names, out)
      ensures Produced(out, out.arcs, "p.x", "q.x", 0) == 1
    {
      assert "q.x" in out.place && out.arcs == [b];
      PushArc(out, [], b, "p.x", "q.x", 0);
    }
  }
}
