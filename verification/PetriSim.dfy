/** The discrete firing rule of public/petri-sim.js: component-wise token colours, inhibitor arcs and capacities. */
module PetriSim {
  import opened Wrappers
  import opened Sets

  /** A capacity component of 0, like a missing one, means unbounded. */
  datatype Place = Place(initial: seq<int>, capacity: seq<nat>)

  datatype Arc = Arc(source: string, target: string, weight: seq<nat>, inhibit: bool)

  /** `order` is the insertion order of the `place` map. */
  datatype Net = Net(token: seq<string>, order: seq<string>, place: map<string, Place>,
                     transitions: seq<string>, arcs: seq<Arc>)

  type Marking = map<string, seq<int>>

  function Max(a: int, b: int): int
  {
    if a < b then b else a
  }

  /** `v[i] ?? 0` */
  function At(v: seq<int>, i: nat): int
  {
    if i < |v| then v[i] else 0
  }

  /** `marks[pid] ?? [0]` */
  function Tokens(m: Marking, p: string): seq<int>
  {
    if p in m then m[p] else [0]
  }

  function Tok(m: Marking, p: string, i: nat): int
  {
    At(Tokens(m, p), i)
  }

  /** `capacityOf` compared against a token count: does `n` fit in component `i`? */
  predicate FitsIn(capacity: seq<nat>, i: nat, n: int)
  {
    i < |capacity| && capacity[i] != 0 ==> n <= capacity[i]
  }

  /** `marking`: the declared initial tokens. */
  function InitialMarking(net: Net): Marking
  {
    map p | p in net.place :: net.place[p].initial
  }

  // ---- What one firing moves -----------------------------------------------------

  predicate Consumer(net: Net, a: Arc, tid: string, p: string)
  {
    a.target == tid && a.source == p && p in net.place && !a.inhibit
  }

  predicate Producer(net: Net, a: Arc, tid: string, p: string)
  {
    a.source == tid && a.target == p && p in net.place && !a.inhibit
  }

  /** Tokens of colour `i` that the arcs in `arcs` take from `p` when `tid` fires. */
  function Consumed(net: Net, arcs: seq<Arc>, tid: string, p: string, i: nat): nat
  {
    if arcs == [] then 0
    else
      var a := arcs[|arcs| - 1];
      Consumed(net, arcs[..|arcs| - 1], tid, p, i) + if Consumer(net, a, tid, p) then At(a.weight, i) else 0
  }

  function Produced(net: Net, arcs: seq<Arc>, tid: string, p: string, i: nat): nat
  {
    if arcs == [] then 0
    else
      var a := arcs[|arcs| - 1];
      Produced(net, arcs[..|arcs| - 1], tid, p, i) + if Producer(net, a, tid, p) then At(a.weight, i) else 0
  }

  lemma {:induction false} ConsumedMonotone(net: Net, arcs: seq<Arc>, k: nat, tid: string, p: string, i: nat)
    requires k <= |arcs|
    ensures Consumed(net, arcs[..k], tid, p, i) <= Consumed(net, arcs, tid, p, i)
  {
    if k < |arcs| {
      ConsumedMonotone(net, arcs[..|arcs| - 1], k, tid, p, i);
      assert arcs[..|arcs| - 1][..k] == arcs[..k];
    } else {
      assert arcs[..k] == arcs;
    }
  }

  // ---- Enabledness -----------------------------------------------------------------

  /** An inhibitor arc into `tid` must see fewer tokens than its weight, one out of `tid` at least as many. */
  ghost predicate ArcAllows(net: Net, a: Arc, tid: string, m: Marking)
  {
    && (a.inhibit && a.target == tid && a.source in net.place ==>
      forall i: nat :: At(a.weight, i) > 0 ==> Tok(m, a.source, i) < At(a.weight, i))
    && (a.inhibit && a.source == tid && a.target in net.place ==>
      forall i: nat :: At(a.weight, i) > 0 ==> At(a.weight, i) <= Tok(m, a.target, i))
  }

  ghost predicate ArcsAllow(net: Net, tid: string, m: Marking)
  {
    forall a :: a in net.arcs ==> ArcAllows(net, a, tid, m)
  }

  ghost predicate Consumes(net: Net, arcs: seq<Arc>, tid: string, p: string)
  {
    exists a :: a in arcs && Consumer(net, a, tid, p)
  }

  ghost predicate Produces(net: Net, arcs: seq<Arc>, tid: string, p: string)
  {
    exists a :: a in arcs && Producer(net, a, tid, p)
  }

  /** Every place some arc consumes from holds the total that is consumed. */
  ghost predicate Sufficient(net: Net, tid: string, m: Marking)
  {
    forall p, i: nat :: Consumes(net, net.arcs, tid, p) ==> Consumed(net, net.arcs, tid, p, i) <= Tok(m, p, i)
  }

  /** Every place some arc produces into stays within its capacity, in every colour. */
  ghost predicate Fits(net: Net, tid: string, m: Marking)
  {
    forall p, i: nat :: Produces(net, net.arcs, tid, p) && p in net.place ==>
      FitsIn(net.place[p].capacity, i, After(net, tid, m, p, i))
  }

  function After(net: Net, tid: string, m: Marking, p: string, i: nat): int
  {
    Tok(m, p, i) - Consumed(net, net.arcs, tid, p, i) + Produced(net, net.arcs, tid, p, i)
  }

  ghost predicate Enabled(net: Net, tid: string, m: Marking)
  {
    ArcsAllow(net, tid, m) && Sufficient(net, tid, m) && Fits(net, tid, m)
  }

  lemma {:induction false} UntouchedConsumed(net: Net, arcs: seq<Arc>, tid: string, p: string, i: nat)
    requires !Consumes(net, arcs, tid, p)
    ensures Consumed(net, arcs, tid, p, i) == 0
  {
    if arcs != [] {
      var front := arcs[..|arcs| - 1];
      assert arcs == front + [arcs[|arcs| - 1]];
      assert !Consumes(net, front, tid, p);
      UntouchedConsumed(net, front, tid, p, i);
    }
  }

  lemma {:induction false} UntouchedProduced(net: Net, arcs: seq<Arc>, tid: string, p: string, i: nat)
    requires !Produces(net, arcs, tid, p)
    ensures Produced(net, arcs, tid, p, i) == 0
  {
    if arcs != [] {
      var front := arcs[..|arcs| - 1];
      assert arcs == front + [arcs[|arcs| - 1]];
      assert !Produces(net, front, tid, p);
      UntouchedProduced(net, front, tid, p, i);
    }
  }

  lemma NothingConsumed(net: Net, arcs: seq<Arc>, tid: string, p: string)
    ensures !Consumes(net, arcs, tid, p) ==> forall i: nat :: Consumed(net, arcs, tid, p, i) == 0
  {
    if !Consumes(net, arcs, tid, p) {
      forall i: nat { UntouchedConsumed(net, arcs, tid, p, i); }
    }
  }

  lemma NothingProduced(net: Net, arcs: seq<Arc>, tid: string, p: string)
    ensures !Produces(net, arcs, tid, p) ==> forall i: nat :: Produced(net, arcs, tid, p, i) == 0
  {
    if !Produces(net, arcs, tid, p) {
      forall i: nat { UntouchedProduced(net, arcs, tid, p, i); }
    }
  }

  // ---- Firing ----------------------------------------------------------------------

  function DrainArc(net: Net, a: Arc, tid: string, m: Marking): Marking
  {
    if Consumer(net, a, tid, a.source) then
      var tokens := Tokens(m, a.source);
      m[a.source := seq(|tokens|, i requires 0 <= i < |tokens| => Max(0, tokens[i] - At(a.weight, i)))]
    else m
  }

  function FillArc(net: Net, a: Arc, tid: string, m: Marking): Marking
  {
    if Producer(net, a, tid, a.target) then
      var tokens := Tokens(m, a.target);
      m[a.target := seq(Max(|tokens|, |a.weight|), i requires 0 <= i => At(tokens, i) + At(a.weight, i))]
    else m
  }

  function Drain(net: Net, arcs: seq<Arc>, tid: string, m: Marking): Marking
  {
    if arcs == [] then m
    else DrainArc(net, arcs[|arcs| - 1], tid, Drain(net, arcs[..|arcs| - 1], tid, m))
  }

  function Fill(net: Net, arcs: seq<Arc>, tid: string, m: Marking): Marking
  {
    if arcs == [] then m
    else FillArc(net, arcs[|arcs| - 1], tid, Fill(net, arcs[..|arcs| - 1], tid, m))
  }

  ghost function Fire(net: Net, tid: string, m: Marking): Option<Marking>
  {
    if Enabled(net, tid, m) then Some(Fill(net, net.arcs, tid, Drain(net, net.arcs, tid, m))) else None
  }

  lemma EmptyVector()
    ensures forall i: nat :: At([], i) == 0
  {
  }

  /** Running total of a weight vector, as `consumed[p][i] = (consumed[p][i] ?? 0) + w[i]`. */
  method Accumulate(acc: seq<nat>, w: seq<nat>) returns (r: seq<nat>)
    ensures forall i: nat :: At(r, i) == At(acc, i) + At(w, i)
  {
    r := acc;
    for i := 0 to |w|
      invariant |r| >= |acc| && |r| >= i
      invariant forall j: nat :: At(r, j) == At(acc, j) + if j < i then At(w, j) else 0
    {
      ghost var before := r;
      r := if i < |r| then r[i := r[i] + w[i]] else r + [w[i]];
      assert forall j: nat :: j != i ==> At(r, j) == At(before, j);
    }
  }

  /** Totals per place: `totals` holds exactly the places some arc of `arcs` touches. */
  ghost predicate ConsumedTotals(net: Net, arcs: seq<Arc>, tid: string, totals: map<string, seq<nat>>)
  {
    && (forall p :: p in totals <==> Consumes(net, arcs, tid, p))
    && (forall p, i: nat :: p in totals ==> At(totals[p], i) == Consumed(net, arcs, tid, p, i))
  }

  ghost predicate ProducedTotals(net: Net, arcs: seq<Arc>, tid: string, totals: map<string, seq<nat>>)
  {
    && (forall p :: p in totals <==> Produces(net, arcs, tid, p))
    && (forall p, i: nat :: p in totals ==> At(totals[p], i) == Produced(net, arcs, tid, p, i))
  }

  lemma ConsumedStep(net: Net, k: nat, tid: string)
    requires k < |net.arcs|
    ensures var a := net.arcs[k];
      && (forall p, i: nat ::
            Consumed(net, net.arcs[..k + 1], tid, p, i)
            == Consumed(net, net.arcs[..k], tid, p, i) + if Consumer(net, a, tid, p) then At(a.weight, i) else 0)
      && (forall p ::
            Consumes(net, net.arcs[..k + 1], tid, p)
            <==> Consumes(net, net.arcs[..k], tid, p) || Consumer(net, a, tid, p))
  {
    assert net.arcs[..k + 1] == net.arcs[..k] + [net.arcs[k]];
    assert net.arcs[..k + 1][..k] == net.arcs[..k];
  }

  lemma ConsumedMore(net: Net, k: nat, tid: string, totals: map<string, seq<nat>>, acc: seq<nat>, sum: seq<nat>)
    requires k < |net.arcs| && ConsumedTotals(net, net.arcs[..k], tid, totals)
    requires var a := net.arcs[k];
      && Consumer(net, a, tid, a.source) && acc == (if a.source in totals then totals[a.source] else [])
      && forall i: nat :: At(sum, i) == At(acc, i) + At(a.weight, i)
    ensures ConsumedTotals(net, net.arcs[..k + 1], tid, totals[net.arcs[k].source := sum])
  {
    ConsumedStep(net, k, tid);
    NothingConsumed(net, net.arcs[..k], tid, net.arcs[k].source);
    EmptyVector();
    assert forall p :: Consumer(net, net.arcs[k], tid, p) ==> p == net.arcs[k].source;
    hide Consumed, Consumes, At, Consumer;
  }

  lemma ConsumedSame(net: Net, k: nat, tid: string, totals: map<string, seq<nat>>)
    requires k < |net.arcs| && ConsumedTotals(net, net.arcs[..k], tid, totals)
    requires !Consumer(net, net.arcs[k], tid, net.arcs[k].source)
    ensures ConsumedTotals(net, net.arcs[..k + 1], tid, totals)
  {
    ConsumedStep(net, k, tid);
    assert forall p :: !Consumer(net, net.arcs[k], tid, p);
    hide Consumed, Consumes, At, Consumer;
  }

  lemma ProducedMore(net: Net, k: nat, tid: string, totals: map<string, seq<nat>>, acc: seq<nat>, sum: seq<nat>)
    requires k < |net.arcs| && ProducedTotals(net, net.arcs[..k], tid, totals)
    requires var a := net.arcs[k];
      && Producer(net, a, tid, a.target) && acc == (if a.target in totals then totals[a.target] else [])
      && forall i: nat :: At(sum, i) == At(acc, i) + At(a.weight, i)
    ensures ProducedTotals(net, net.arcs[..k + 1], tid, totals[net.arcs[k].target := sum])
  {
    ProducedStep(net, k, tid);
    NothingProduced(net, net.arcs[..k], tid, net.arcs[k].target);
    EmptyVector();
    assert forall p :: Producer(net, net.arcs[k], tid, p) ==> p == net.arcs[k].target;
    hide Produced, Produces, At, Producer;
  }

  lemma ProducedSame(net: Net, k: nat, tid: string, totals: map<string, seq<nat>>)
    requires k < |net.arcs| && ProducedTotals(net, net.arcs[..k], tid, totals)
    requires !Producer(net, net.arcs[k], tid, net.arcs[k].target)
    ensures ProducedTotals(net, net.arcs[..k + 1], tid, totals)
  {
    ProducedStep(net, k, tid);
    assert forall p :: !Producer(net, net.arcs[k], tid, p);
    hide Produced, Produces, At, Producer;
  }

  lemma ProducedStep(net: Net, k: nat, tid: string)
    requires k < |net.arcs|
    ensures var a := net.arcs[k];
      && (forall p, i: nat ::
            Produced(net, net.arcs[..k + 1], tid, p, i)
            == Produced(net, net.arcs[..k], tid, p, i) + if Producer(net, a, tid, p) then At(a.weight, i) else 0)
      && (forall p ::
            Produces(net, net.arcs[..k + 1], tid, p)
            <==> Produces(net, net.arcs[..k], tid, p) || Producer(net, a, tid, p))
  {
    assert net.arcs[..k + 1] == net.arcs[..k] + [net.arcs[k]];
    assert net.arcs[..k + 1][..k] == net.arcs[..k];
  }

  method CheckInhibitors(net: Net, tid: string, marks: Marking) returns (r: bool)
    ensures r == ArcsAllow(net, tid, marks)
  {
    for k := 0 to |net.arcs|
      invariant forall a :: a in net.arcs[..k] ==> ArcAllows(net, a, tid, marks)
    {
      var a := net.arcs[k];
      assert net.arcs[..k + 1] == net.arcs[..k] + [a];
      if a.inhibit && a.target == tid && a.source in net.place {
        var tokens := Tokens(marks, a.source);
        for i := 0 to Max(|a.weight|, |tokens|)
          invariant forall j: nat :: j < i && At(a.weight, j) > 0 ==> At(tokens, j) < At(a.weight, j)
        {
          if At(a.weight, i) > 0 && At(tokens, i) >= At(a.weight, i) {
            assert !(Tok(marks, a.source, i) < At(a.weight, i));
            assert !ArcAllows(net, a, tid, marks);
            return false;
          }
        }
      }
      if a.inhibit && a.source == tid && a.target in net.place {
        var tokens := Tokens(marks, a.target);
        for i := 0 to Max(|a.weight|, |tokens|)
          invariant forall j: nat :: j < i && At(a.weight, j) > 0 ==> At(a.weight, j) <= At(tokens, j)
        {
          if At(a.weight, i) > 0 && At(tokens, i) < At(a.weight, i) {
            assert !(At(a.weight, i) <= Tok(marks, a.target, i));
            assert !ArcAllows(net, a, tid, marks);
            return false;
          }
        }
      }
      assert ArcAllows(net, a, tid, marks);
    }
    assert net.arcs[..|net.arcs|] == net.arcs;
    return true;
  }

  method TotalConsumed(net: Net, tid: string) returns (consumed: map<string, seq<nat>>)
    ensures ConsumedTotals(net, net.arcs, tid, consumed)
  {
    consumed := map[];
    assert ConsumedTotals(net, net.arcs[..0], tid, consumed);
    hide *;
    for k := 0 to |net.arcs|
      invariant ConsumedTotals(net, net.arcs[..k], tid, consumed)
    {
      var a := net.arcs[k];
      if Consumer(net, a, tid, a.source) {
        var acc := if a.source in consumed then consumed[a.source] else [];
        var sum := Accumulate(acc, a.weight);
        ConsumedMore(net, k, tid, consumed, acc, sum);
        consumed := consumed[a.source := sum];
      } else {
        ConsumedSame(net, k, tid, consumed);
      }
    }
    assert net.arcs[..|net.arcs|] == net.arcs;
  }

  method TotalProduced(net: Net, tid: string) returns (produced: map<string, seq<nat>>)
    ensures ProducedTotals(net, net.arcs, tid, produced)
  {
    produced := map[];
    assert ProducedTotals(net, net.arcs[..0], tid, produced);
    hide *;
    for k := 0 to |net.arcs|
      invariant ProducedTotals(net, net.arcs[..k], tid, produced)
    {
      var a := net.arcs[k];
      if Producer(net, a, tid, a.target) {
        var acc := if a.target in produced then produced[a.target] else [];
        var sum := Accumulate(acc, a.weight);
        ProducedMore(net, k, tid, produced, acc, sum);
        produced := produced[a.target := sum];
      } else {
        ProducedSame(net, k, tid, produced);
      }
    }
    assert net.arcs[..|net.arcs|] == net.arcs;
  }

  /** `enabled`. */
  method CheckEnabled(net: Net, tid: string, marks: Marking) returns (r: bool)
    ensures r == Enabled(net, tid, marks)
  {
    var allowed := CheckInhibitors(net, tid, marks);
    if !allowed { return false; }
    var consumed := TotalConsumed(net, tid);
    var todo := consumed.Keys;
    while todo != {}
      invariant todo <= consumed.Keys
      invariant forall p, i: nat :: p in consumed && p !in todo ==>
        Consumed(net, net.arcs, tid, p, i) <= Tok(marks, p, i)
      decreases todo
    {
      NonEmpty(todo);
      var pid :| pid in todo;
      var need, tokens := consumed[pid], Tokens(marks, pid);
      for i := 0 to Max(|need|, |tokens|)
        invariant forall j: nat :: j < i ==> At(need, j) <= At(tokens, j)
      {
        if At(tokens, i) < At(need, i) {
          assert Consumed(net, net.arcs, tid, pid, i) > Tok(marks, pid, i);
          return false;
        }
      }
      todo := todo - {pid};
    }
    assert Sufficient(net, tid, marks);
    r := CheckCapacities(net, tid, marks, consumed);
  }

  method CheckCapacities(net: Net, tid: string, marks: Marking, consumed: map<string, seq<nat>>) returns (r: bool)
    requires ConsumedTotals(net, net.arcs, tid, consumed)
    ensures r == Fits(net, tid, marks)
  {
    var produced := TotalProduced(net, tid);
    var todo := produced.Keys;
    while todo != {}
      invariant todo <= produced.Keys
      invariant forall p, i: nat :: p in produced && p !in todo && p in net.place ==>
        FitsIn(net.place[p].capacity, i, After(net, tid, marks, p, i))
      decreases todo
    {
      NonEmpty(todo);
      var pid :| pid in todo;
      assert Produces(net, net.arcs, tid, pid);
      var prod, tokens, cap := produced[pid], Tokens(marks, pid), net.place[pid].capacity;
      var cons := if pid in consumed then consumed[pid] else [];
      NothingConsumed(net, net.arcs, tid, pid);
      for i := 0 to Max(Max(|prod|, |tokens|), |cap|)
        invariant forall j: nat :: j < i ==> FitsIn(cap, j, After(net, tid, marks, pid, j))
      {
        assert After(net, tid, marks, pid, i) == At(tokens, i) - At(cons, i) + At(prod, i);
        if !FitsIn(cap, i, At(tokens, i) - At(cons, i) + At(prod, i)) {
          assert !FitsIn(net.place[pid].capacity, i, After(net, tid, marks, pid, i));
          return false;
        }
      }
      todo := todo - {pid};
    }
    return true;
  }

  /** `fire`: a new marking, or nothing when the transition is blocked. */
  method FireTransition(net: Net, tid: string, marks: Marking) returns (r: Option<Marking>)
    ensures r == Fire(net, tid, marks)
  {
    var m := marks;
    var ok := CheckEnabled(net, tid, m);
    if !ok { return None; }
    for k := 0 to |net.arcs|
      invariant m == Drain(net, net.arcs[..k], tid, marks)
    {
      var a := net.arcs[k];
      assert net.arcs[..k + 1][..k] == net.arcs[..k];
      if a.target == tid && a.source in net.place && !a.inhibit {
        var tokens := Tokens(m, a.source);
        m := m[a.source := seq(|tokens|, i requires 0 <= i < |tokens| => Max(0, tokens[i] - At(a.weight, i)))];
      }
    }
    assert net.arcs[..|net.arcs|] == net.arcs;
    ghost var drained := m;
    for k := 0 to |net.arcs|
      invariant m == Fill(net, net.arcs[..k], tid, drained)
    {
      var a := net.arcs[k];
      assert net.arcs[..k + 1][..k] == net.arcs[..k];
      if a.source == tid && a.target in net.place && !a.inhibit {
        var tokens := Tokens(m, a.target);
        m := m[a.target := seq(Max(|tokens|, |a.weight|), i requires 0 <= i => At(tokens, i) + At(a.weight, i))];
      }
    }
    return Some(m);
  }

  // ---- The state equation --------------------------------------------------------------

  /** Draining subtracts the exact weights: the clamp at zero never changes a value. */
  lemma {:induction false} DrainExact(net: Net, k: nat, tid: string, m: Marking, p: string, i: nat)
    requires k <= |net.arcs| && Sufficient(net, tid, m)
    ensures Tok(Drain(net, net.arcs[..k], tid, m), p, i) == Tok(m, p, i) - Consumed(net, net.arcs[..k], tid, p, i)
  {
    if k == 0 {
    } else {
      var a := net.arcs[k - 1];
      DrainExact(net, k - 1, tid, m, p, i);
      assert net.arcs[..k][..k - 1] == net.arcs[..k - 1];
      if Consumer(net, a, tid, p) {
        assert Consumes(net, net.arcs, tid, p);
        ConsumedMonotone(net, net.arcs, k, tid, p, i);
      }
    }
  }

  lemma {:induction false} FillExact(net: Net, arcs: seq<Arc>, tid: string, m: Marking, p: string, i: nat)
    ensures Tok(Fill(net, arcs, tid, m), p, i) == Tok(m, p, i) + Produced(net, arcs, tid, p, i)
  {
    if arcs != [] {
      FillExact(net, arcs[..|arcs| - 1], tid, m, p, i);
    }
  }

  /** One firing adds the net effect of its arcs to every place and colour, and changes nothing else. */
  lemma {:induction false} FireEquation(net: Net, tid: string, m: Marking, p: string, i: nat)
    requires Enabled(net, tid, m)
    ensures Tok(Fire(net, tid, m).value, p, i) == After(net, tid, m, p, i)
  {
    assert net.arcs[..|net.arcs|] == net.arcs;
    DrainExact(net, |net.arcs|, tid, m, p, i);
    FillExact(net, net.arcs, tid, Drain(net, net.arcs, tid, m), p, i);
  }

  /** The marking after firing the transitions of `ts` in order, or nothing when one of them is blocked. */
  ghost function Run(net: Net, m: Marking, ts: seq<string>): Option<Marking>
    decreases ts
  {
    if ts == [] then Some(m)
    else
      match Fire(net, ts[0], m)
      case None => None
      case Some(m') => Run(net, m', ts[1..])
  }

  function Effect(net: Net, t: string, p: string, i: nat): int
  {
    Produced(net, net.arcs, t, p, i) - Consumed(net, net.arcs, t, p, i)
  }

  function RunEffect(net: Net, ts: seq<string>, p: string, i: nat): int
  {
    if ts == [] then 0 else Effect(net, ts[0], p, i) + RunEffect(net, ts[1..], p, i)
  }

  /** Column sum of the incidence matrix weighted with firing counts. */
  function CountedEffect(net: Net, columns: seq<string>, counts: multiset<string>, p: string, i: nat): int
  {
    if columns == [] then 0
    else counts[columns[0]] * Effect(net, columns[0], p, i) + CountedEffect(net, columns[1..], counts, p, i)
  }

  lemma {:induction false} CountedWithoutColumn(net: Net, columns: seq<string>, counts: multiset<string>, t: string,
                                                p: string, i: nat)
    requires t !in columns
    ensures CountedEffect(net, columns, counts + multiset{t}, p, i) == CountedEffect(net, columns, counts, p, i)
  {
    if columns != [] {
      CountedWithoutColumn(net, columns[1..], counts, t, p, i);
    }
  }

  lemma {:induction false} CountOneMore(net: Net, columns: seq<string>, counts: multiset<string>, t: string,
                                        p: string, i: nat)
    requires t in columns && Distinct(columns)
    ensures CountedEffect(net, columns, counts + multiset{t}, p, i)
         == CountedEffect(net, columns, counts, p, i) + Effect(net, t, p, i)
  {
    var e := Effect(net, columns[0], p, i);
    if columns[0] == t {
      CountedWithoutColumn(net, columns[1..], counts, t, p, i);
      assert (counts[t] + 1) * e == counts[t] * e + e;
    } else {
      CountOneMore(net, columns[1..], counts, t, p, i);
    }
  }

  lemma {:induction false} EffectFromCounts(net: Net, columns: seq<string>, ts: seq<string>, p: string, i: nat)
    requires Distinct(columns) && forall t :: t in ts ==> t in columns
    ensures RunEffect(net, ts, p, i) == CountedEffect(net, columns, multiset(ts), p, i)
  {
    if ts == [] {
      NoCounts(net, columns, p, i);
    } else {
      EffectFromCounts(net, columns, ts[1..], p, i);
      CountOneMore(net, columns, multiset(ts[1..]), ts[0], p, i);
      assert ts == [ts[0]] + ts[1..];
      assert multiset(ts) == multiset(ts[1..]) + multiset{ts[0]};
    }
  }

  lemma {:induction false} NoCounts(net: Net, columns: seq<string>, p: string, i: nat)
    ensures CountedEffect(net, columns, multiset{}, p, i) == 0
  {
    if columns != [] { NoCounts(net, columns[1..], p, i); }
  }

  lemma {:induction false} RunAddsEffects(net: Net, m: Marking, ts: seq<string>, p: string, i: nat)
    requires Run(net, m, ts).Some?
    ensures Tok(Run(net, m, ts).value, p, i) == Tok(m, p, i) + RunEffect(net, ts, p, i)
    decreases ts
  {
    if ts != [] {
      FireEquation(net, ts[0], m, p, i);
      RunAddsEffects(net, Fire(net, ts[0], m).value, ts[1..], p, i);
    }
  }

  /** The state equation: a run moves the marking by the incidence matrix times its firing counts. */
  lemma StateEquation(net: Net, m: Marking, ts: seq<string>, p: string, i: nat)
    requires Run(net, m, ts).Some?
    requires Distinct(net.transitions) && forall t :: t in ts ==> t in net.transitions
    ensures Tok(Run(net, m, ts).value, p, i)
         == Tok(m, p, i) + CountedEffect(net, net.transitions, multiset(ts), p, i)
  {
    RunAddsEffects(net, m, ts, p, i);
    EffectFromCounts(net, net.transitions, ts, p, i);
  }

  /** Two runs with the same firing counts end with the same tokens. */
  lemma OrderIsIrrelevant(net: Net, m: Marking, ts: seq<string>, us: seq<string>, p: string, i: nat)
    requires Run(net, m, ts).Some? && Run(net, m, us).Some? && multiset(ts) == multiset(us)
    requires Distinct(net.transitions) && forall t :: t in ts ==> t in net.transitions
    ensures Tok(Run(net, m, ts).value, p, i) == Tok(Run(net, m, us).value, p, i)
  {
    forall t | t in us
      ensures t in net.transitions
    {
      assert t in multiset(us);
    }
    StateEquation(net, m, ts, p, i);
    StateEquation(net, m, us, p, i);
  }

  // ---- Bounds and linear invariants ------------------------------------------------------

  ghost predicate WithinCapacity(net: Net, m: Marking)
  {
    forall p, i: nat :: p in net.place ==> 0 <= Tok(m, p, i) && FitsIn(net.place[p].capacity, i, Tok(m, p, i))
  }

  /** A firing keeps every place between 0 and its capacity. */
  lemma {:induction false} FireKeepsCapacity(net: Net, tid: string, m: Marking)
    requires WithinCapacity(net, m) && Enabled(net, tid, m)
    ensures WithinCapacity(net, Fire(net, tid, m).value)
  {
    var m' := Fire(net, tid, m).value;
    forall p, i: nat | p in net.place
      ensures 0 <= Tok(m', p, i) && FitsIn(net.place[p].capacity, i, Tok(m', p, i))
    {
      FireEquation(net, tid, m, p, i);
      if !Consumes(net, net.arcs, tid, p) { UntouchedConsumed(net, net.arcs, tid, p, i); }
      if !Produces(net, net.arcs, tid, p) { UntouchedProduced(net, net.arcs, tid, p, i); }
    }
  }

  /** Every marking of a run that starts within capacity is within capacity. */
  lemma {:induction false} RunKeepsCapacity(net: Net, m: Marking, ts: seq<string>)
    requires WithinCapacity(net, m) && Run(net, m, ts).Some?
    ensures WithinCapacity(net, Run(net, m, ts).value)
    decreases ts
  {
    if ts != [] {
      FireKeepsCapacity(net, ts[0], m);
      RunKeepsCapacity(net, Fire(net, ts[0], m).value, ts[1..]);
    }
  }

  /** A linear form over places and colours: the vector y of a place invariant. */
  datatype Term = Term(place: string, color: nat, coefficient: int)

  function Weigh(y: seq<Term>, m: Marking): int
  {
    if y == [] then 0 else y[0].coefficient * Tok(m, y[0].place, y[0].color) + Weigh(y[1..], m)
  }

  function WeighEffect(y: seq<Term>, net: Net, t: string): int
  {
    if y == [] then 0 else y[0].coefficient * Effect(net, t, y[0].place, y[0].color) + WeighEffect(y[1..], net, t)
  }

  ghost predicate PlaceInvariant(y: seq<Term>, net: Net)
  {
    forall t :: t in net.transitions ==> WeighEffect(y, net, t) == 0
  }

  lemma {:induction false} WeighFire(y: seq<Term>, net: Net, t: string, m: Marking)
    requires Enabled(net, t, m)
    ensures Weigh(y, Fire(net, t, m).value) == Weigh(y, m) + WeighEffect(y, net, t)
  {
    if y != [] {
      var p, i, c := y[0].place, y[0].color, y[0].coefficient;
      FireEquation(net, t, m, p, i);
      WeighFire(y[1..], net, t, m);
      assert c * (Tok(m, p, i) + Effect(net, t, p, i)) == c * Tok(m, p, i) + c * Effect(net, t, p, i);
    }
  }

  /** Every y with y C = 0 is conserved by every run. */
  lemma {:induction false} InvariantConserved(y: seq<Term>, net: Net, m: Marking, ts: seq<string>)
    requires PlaceInvariant(y, net) && (forall t :: t in ts ==> t in net.transitions)
    requires Run(net, m, ts).Some?
    ensures Weigh(y, Run(net, m, ts).value) == Weigh(y, m)
    decreases ts
  {
    if ts != [] {
      WeighFire(y, net, ts[0], m);
      InvariantConserved(y, net, Fire(net, ts[0], m).value, ts[1..]);
    }
  }
}
