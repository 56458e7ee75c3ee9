/** The mass-action ODE and the adaptive Runge-Kutta solver of public/petri-solver.js, over exact reals. */
module Solver {
  datatype Arc = Arc(source: string, target: string, weight: seq<real>)

  datatype Net = Net(places: seq<string>, transitions: seq<string>, arcs: seq<Arc>)

  /** Multiplication under a name, so that proofs can keep it folded. */
  function Times(a: real, b: real): real
  {
    a * b
  }

  lemma TimesLinear(a: real, x: real, y: real)
    ensures Times(a, x + y) == Times(a, x) + Times(a, y)
    ensures Times(a, x - y) == Times(a, x) - Times(a, y)
    ensures Times(a, 0.0) == 0.0
  {
  }

  lemma TimesSwap(y: real, a: real, v: real)
    ensures Times(y, Times(a, v)) == Times(a, Times(y, v))
    ensures Times(Times(y, a), v) == Times(y, Times(a, v))
  {
  }

  /** A value for every place. */
  type Vec = map<string, real>

  function RealSum(xs: seq<real>): real
  {
    if xs == [] then 0.0 else RealSum(xs[..|xs| - 1]) + xs[|xs| - 1]
  }

  /** `getWeightSum` */
  function WeightSum(arc: Arc): real
  {
    if arc.weight == [] then 1.0 else RealSum(arc.weight)
  }

  ghost predicate Over(net: Net, u: Vec)
  {
    forall l :: l in u <==> l in net.places
  }

  predicate IsInput(net: Net, t: string, arc: Arc)
  {
    arc.target == t && arc.source in net.places
  }

  predicate IsOutput(net: Net, t: string, arc: Arc)
  {
    arc.source == t && arc.target in net.places
  }

  // ---- The right-hand side ----------------------------------------------------------------------------

  /** The product of the input concentrations over the first `n` arcs; zero once an input place is empty. */
  function Activity(net: Net, t: string, u: Vec, n: nat): real
    requires n <= |net.arcs| && Over(net, u)
  {
    if n == 0 then 1.0
    else
      var arc := net.arcs[n - 1];
      if !IsInput(net, t, arc) then Activity(net, t, u, n - 1)
      else if u[arc.source] <= 0.0 then 0.0
      else Times(Activity(net, t, u, n - 1), u[arc.source])
  }

  lemma {:induction false} ActivityStaysZero(net: Net, t: string, u: Vec, n: nat, m: nat)
    requires n <= m <= |net.arcs| && Over(net, u) && Activity(net, t, u, n) == 0.0
    ensures Activity(net, t, u, m) == 0.0
  {
    if n < m { ActivityStaysZero(net, t, u, n, m - 1); }
  }

  /** The rate at which `t` fires; a missing or negative rate does not fire. */
  function Flux(net: Net, rates: Vec, t: string, u: Vec): real
    requires Over(net, u)
  {
    if t !in rates then 0.0
    else
      var flux := Times(rates[t], Activity(net, t, u, |net.arcs|));
      if flux > 0.0 then flux else 0.0
  }

  /** Net weight that the first `n` arcs move into place `l` when `t` fires. */
  function Incidence(net: Net, t: string, l: string, n: nat): real
    requires n <= |net.arcs|
  {
    if n == 0 then 0.0
    else
      var arc, rest := net.arcs[n - 1], Incidence(net, t, l, n - 1);
      if IsInput(net, t, arc) then if arc.source == l then rest - WeightSum(arc) else rest
      else if IsOutput(net, t, arc) && arc.target == l then rest + WeightSum(arc)
      else rest
  }

  /** The derivative of place `l` from the first `n` transitions: the incidence matrix times the fluxes. */
  function Rhs(net: Net, rates: Vec, u: Vec, l: string, n: nat): real
    requires n <= |net.transitions| && Over(net, u)
  {
    if n == 0 then 0.0
    else
      var t := net.transitions[n - 1];
      Rhs(net, rates, u, l, n - 1) + Times(Flux(net, rates, t, u), Incidence(net, t, l, |net.arcs|))
  }

  ghost predicate IsDerivative(net: Net, rates: Vec, u: Vec, du: Vec)
    requires Over(net, u)
  {
    Over(net, du) && forall l :: l in net.places ==> du[l] == Rhs(net, rates, u, l, |net.transitions|)
  }

  method ComputeFlux(net: Net, rates: Vec, t: string, u: Vec) returns (flux: real)
    requires Over(net, u)
    ensures Flux(net, rates, t, u) == if flux > 0.0 then flux else 0.0
  {
    if t !in rates { return 0.0; }
    flux := rates[t];
    for i := 0 to |net.arcs|
      invariant flux == Times(rates[t], Activity(net, t, u, i))
    {
      var arc := net.arcs[i];
      if IsInput(net, t, arc) {
        var placeState := u[arc.source];
        if placeState <= 0.0 {
          ActivityStaysZero(net, t, u, i + 1, |net.arcs|);
          return 0.0;
        }
        TimesSwap(rates[t], Activity(net, t, u, i), placeState);
        flux := Times(flux, placeState);
      }
    }
  }

  /** What the first `n` arcs add to place `l` when `t` fires at rate `flux`. */
  function Moved(net: Net, t: string, l: string, flux: real, n: nat): real
    requires n <= |net.arcs|
  {
    if n == 0 then 0.0
    else
      var arc, rest := net.arcs[n - 1], Moved(net, t, l, flux, n - 1);
      if IsInput(net, t, arc) then if arc.source == l then rest - Times(flux, WeightSum(arc)) else rest
      else if IsOutput(net, t, arc) && arc.target == l then rest + Times(flux, WeightSum(arc))
      else rest
  }

  lemma {:induction false} MovedIsIncidence(net: Net, t: string, l: string, flux: real, n: nat)
    requires n <= |net.arcs|
    ensures Moved(net, t, l, flux, n) == Times(flux, Incidence(net, t, l, n))
  {
    hide Times, WeightSum;
    if n == 0 {
      TimesLinear(flux, 0.0, 0.0);
    } else {
      MovedIsIncidence(net, t, l, flux, n - 1);
      TimesLinear(flux, Incidence(net, t, l, n - 1), WeightSum(net.arcs[n - 1]));
    }
  }

  /** Applies the flux of one transition to the places it is connected to. */
  method ApplyFlux(net: Net, t: string, flux: real, du0: Vec) returns (du: Vec)
    requires Over(net, du0)
    ensures Over(net, du)
    ensures forall l :: l in net.places ==> du[l] == du0[l] + Times(flux, Incidence(net, t, l, |net.arcs|))
  {
    du := du0;
    assert MovedUpTo(net, t, flux, du0, du, 0);
    hide *;
    for i := 0 to |net.arcs|
      invariant MovedUpTo(net, t, flux, du0, du, i)
    {
      var arc := net.arcs[i];
      ArcMoved(net, t, flux, du0, du, i);
      if IsInput(net, t, arc) {
        du := du[arc.source := du[arc.source] - Times(flux, WeightSum(arc))];
      } else if IsOutput(net, t, arc) {
        du := du[arc.target := du[arc.target] + Times(flux, WeightSum(arc))];
      }
    }
    AllMoved(net, t, flux, du0, du);
  }

  ghost predicate MovedUpTo(net: Net, t: string, flux: real, du0: Vec, du: Vec, n: nat)
    requires n <= |net.arcs|
  {
    Over(net, du0) && Over(net, du) && forall l :: l in net.places ==> du[l] == du0[l] + Moved(net, t, l, flux, n)
  }

  lemma ArcMoved(net: Net, t: string, flux: real, du0: Vec, du: Vec, i: nat)
    requires i < |net.arcs| && MovedUpTo(net, t, flux, du0, du, i)
    ensures var arc := net.arcs[i];
      && (IsInput(net, t, arc) ==>
           (arc.source in du && MovedUpTo(net, t, flux, du0, du[arc.source := du[arc.source] - Times(flux, WeightSum(arc))], i + 1)))
      && (!IsInput(net, t, arc) && IsOutput(net, t, arc) ==>
           (arc.target in du && MovedUpTo(net, t, flux, du0, du[arc.target := du[arc.target] + Times(flux, WeightSum(arc))], i + 1)))
      && (!IsInput(net, t, arc) && !IsOutput(net, t, arc) ==> MovedUpTo(net, t, flux, du0, du, i + 1))
  {
    hide Times, WeightSum;
  }

  lemma AllMoved(net: Net, t: string, flux: real, du0: Vec, du: Vec)
    requires MovedUpTo(net, t, flux, du0, du, |net.arcs|)
    ensures Over(net, du0) && Over(net, du)
    ensures forall l :: l in net.places ==> du[l] == du0[l] + Times(flux, Incidence(net, t, l, |net.arcs|))
  {
    hide Moved, Incidence, Times;
    forall l | l in net.places
      ensures Moved(net, t, l, flux, |net.arcs|) == Times(flux, Incidence(net, t, l, |net.arcs|))
    {
      MovedIsIncidence(net, t, l, flux, |net.arcs|);
    }
  }

  /** The function that `buildODEFunction` builds. */
  method Derivative(net: Net, rates: Vec, u: Vec) returns (du: Vec)
    requires Over(net, u)
    ensures IsDerivative(net, rates, u, du)
  {
    du := map l | l in net.places :: 0.0;
    hide Flux, Incidence, Activity, Times;
    forall x
      ensures Times(0.0, x) == 0.0
    {
      NoFlux(x);
    }
    for i := 0 to |net.transitions|
      invariant Over(net, du)
      invariant forall l :: l in net.places ==> du[l] == Rhs(net, rates, u, l, i)
    {
      var t := net.transitions[i];
      var flux := ComputeFlux(net, rates, t, u);
      if flux > 0.0 {
        du := ApplyFlux(net, t, flux, du);
      }
    }
  }

  lemma NoFlux(x: real)
    ensures Times(0.0, x) == 0.0
  {
  }

  // ---- Linear invariants -----------------------------------------------------------------------------------

  /** The weighted sum over the first `n` places. */
  function Weighted(net: Net, y: Vec, u: Vec, n: nat): real
    requires n <= |net.places|
  {
    if n == 0 then 0.0
    else
      var l := net.places[n - 1];
      Weighted(net, y, u, n - 1) + if l in y && l in u then Times(y[l], u[l]) else 0.0
  }

  function Total(net: Net, y: Vec, u: Vec): real
  {
    Weighted(net, y, u, |net.places|)
  }

  function Column(net: Net, t: string): Vec
  {
    map l | l in net.places :: Incidence(net, t, l, |net.arcs|)
  }

  /** y annihilates every column of the incidence matrix. */
  ghost predicate IsInvariant(net: Net, y: Vec)
  {
    Over(net, y) && forall i :: 0 <= i < |net.transitions| ==> Total(net, y, Column(net, net.transitions[i])) == 0.0
  }

  /** w = u + a v on every place. */
  ghost predicate IsSum(net: Net, u: Vec, a: real, v: Vec, w: Vec)
  {
    Over(net, u) && Over(net, v) && Over(net, w) && forall l :: l in net.places ==> w[l] == u[l] + Times(a, v[l])
  }

  lemma {:induction false} WeightedIsLinear(net: Net, y: Vec, u: Vec, a: real, v: Vec, w: Vec, n: nat)
    requires n <= |net.places| && Over(net, y) && IsSum(net, u, a, v, w)
    ensures Weighted(net, y, w, n) == Weighted(net, y, u, n) + Times(a, Weighted(net, y, v, n))
  {
    hide Times;
    if n == 0 {
      TimesLinear(a, 0.0, 0.0);
    } else {
      WeightedIsLinear(net, y, u, a, v, w, n - 1);
      var l := net.places[n - 1];
      TimesLinear(y[l], u[l], Times(a, v[l]));
      TimesSwap(y[l], a, v[l]);
      TimesLinear(a, Weighted(net, y, v, n - 1), Times(y[l], v[l]));
    }
  }

  function RhsUpTo(net: Net, rates: Vec, u: Vec, n: nat): Vec
    requires n <= |net.transitions| && Over(net, u)
  {
    map l | l in net.places :: Rhs(net, rates, u, l, n)
  }

  lemma {:induction false} ZeroWeighted(net: Net, y: Vec, u: Vec, n: nat)
    requires n <= |net.places| && forall l :: l in u ==> u[l] == 0.0
    ensures Weighted(net, y, u, n) == 0.0
  {
    hide Times;
    if n > 0 {
      ZeroWeighted(net, y, u, n - 1);
      var l := net.places[n - 1];
      if l in y { TimesLinear(y[l], 0.0, 0.0); }
    }
  }

  lemma OneMoreTransition(net: Net, rates: Vec, u: Vec, n: nat)
    requires 0 < n <= |net.transitions| && Over(net, u)
    ensures var t := net.transitions[n - 1];
      IsSum(net, RhsUpTo(net, rates, u, n - 1), Flux(net, rates, t, u), Column(net, t), RhsUpTo(net, rates, u, n))
  {
    hide Incidence, Flux, Times;
  }

  lemma TotalIs(net: Net, y: Vec, u: Vec)
    ensures Total(net, y, u) == Weighted(net, y, u, |net.places|)
  {
  }

  /** A linear invariant of the incidence matrix is annihilated by the right-hand side at every state. */
  lemma {:induction false} InvariantAnnihilates(net: Net, rates: Vec, y: Vec, u: Vec, n: nat)
    requires n <= |net.transitions| && Over(net, u) && IsInvariant(net, y)
    ensures Total(net, y, RhsUpTo(net, rates, u, n)) == 0.0
  {
    if n == 0 {
      ZeroWeighted(net, y, RhsUpTo(net, rates, u, 0), |net.places|);
    } else {
      var t := net.transitions[n - 1];
      InvariantAnnihilates(net, rates, y, u, n - 1);
      TimesLinear(Flux(net, rates, t, u), 0.0, 0.0);
      assert Over(net, y) && Total(net, y, Column(net, t)) == 0.0;
      OneMoreTransition(net, rates, u, n);
      hide *;
      TotalIs(net, y, RhsUpTo(net, rates, u, n - 1));
      TotalIs(net, y, RhsUpTo(net, rates, u, n));
      TotalIs(net, y, Column(net, t));
      WeightedIsLinear(net, y, RhsUpTo(net, rates, u, n - 1), Flux(net, rates, t, u), Column(net, t),
                       RhsUpTo(net, rates, u, n), |net.places|);
    }
  }

  lemma DerivativeAnnihilated(net: Net, rates: Vec, y: Vec, u: Vec, du: Vec)
    requires Over(net, u) && IsInvariant(net, y) && IsDerivative(net, rates, u, du)
    ensures Total(net, y, du) == 0.0
  {
    assert du == RhsUpTo(net, rates, u, |net.transitions|);
    InvariantAnnihilates(net, rates, y, u, |net.transitions|);
  }

  // ---- One step ------------------------------------------------------------------------------------------

  /** A Butcher tableau with an embedded error estimate. */
  datatype Tableau = Tableau(stages: nat, a: seq<seq<real>>, b: seq<real>, bhat: seq<real>)

  ghost predicate ValidTableau(tab: Tableau)
  {
    && tab.stages >= 1 && |tab.a| == tab.stages && |tab.b| <= tab.stages && |tab.bhat| <= tab.stages
    && forall s :: 1 <= s < tab.stages ==> |tab.a[s]| >= s
  }

  function Tsit5(): Tableau
  {
    Tableau(7,
      [[],
       [0.161],
       [-0.008480655492356924, 0.335480655492357],
       [2.8971530571054935, -6.359448489975075, 4.362295432869581],
       [5.325864828439257, -11.748883564062828, 7.4955393428898365, -0.09249506636175525],
       [5.86145544294642, -12.92096931784711, 8.159367898576159, -0.071584973281401, -0.028269050394068383],
       [0.09646076681806523, 0.01, 0.4798896504144996, 1.379008574103742, -3.290069515436081, 2.324710524099774, 0.0]],
      [0.09646076681806523, 0.01, 0.4798896504144996, 1.379008574103742, -3.290069515436081, 2.324710524099774, 0.0],
      [0.001780011052226, 0.000816434459657, -0.007880878010262, 0.144711007173263, -0.582357165452555,
       0.458082105929187, -1.0 / 66.0])
  }

  lemma Tsit5IsValid()
    ensures ValidTableau(Tsit5())
  {
  }

  /** u + dt (c[0] k[0] + ... + c[n-1] k[n-1]) on every place. */
  function Combination(net: Net, u: Vec, dt: real, c: seq<real>, ks: seq<Vec>, n: nat): Vec
    requires n <= |c| && n <= |ks|
  {
    if n == 0 then u
    else
      var v, k := Combination(net, u, dt, c, ks, n - 1), ks[n - 1];
      map l | l in net.places && l in v && l in k :: v[l] + Times(dt * c[n - 1], k[l])
  }

  /** No invariant sees `k`. */
  ghost predicate Annihilated(net: Net, k: Vec)
  {
    Over(net, k) && forall y :: IsInvariant(net, y) ==> Total(net, y, k) == 0.0
  }

  /** All invariants have the same value at `u` and `v`. */
  ghost predicate SameInvariants(net: Net, u: Vec, v: Vec)
  {
    Over(net, u) && Over(net, v) && forall y :: IsInvariant(net, y) ==> Total(net, y, u) == Total(net, y, v)
  }

  lemma {:induction false} CombinationKeeps(net: Net, u: Vec, dt: real, c: seq<real>, ks: seq<Vec>, n: nat)
    requires n <= |c| && n <= |ks| && Over(net, u) && forall j :: 0 <= j < n ==> Annihilated(net, ks[j])
    ensures SameInvariants(net, u, Combination(net, u, dt, c, ks, n))
  {
    if n == 0 {
      Reflexive(net, u);
    } else {
      CombinationKeeps(net, u, dt, c, ks, n - 1);
      CombinationStep(net, u, dt, c, ks, n);
      hide *;
      SumKeeps(net, u, Combination(net, u, dt, c, ks, n - 1), dt * c[n - 1], ks[n - 1], Combination(net, u, dt, c, ks, n));
    }
  }

  lemma Reflexive(net: Net, u: Vec)
    requires Over(net, u)
    ensures SameInvariants(net, u, u)
  {
  }

  lemma CombinationStep(net: Net, u: Vec, dt: real, c: seq<real>, ks: seq<Vec>, n: nat)
    requires 0 < n <= |c| && n <= |ks| && Over(net, Combination(net, u, dt, c, ks, n - 1)) && Over(net, ks[n - 1])
    ensures IsSum(net, Combination(net, u, dt, c, ks, n - 1), dt * c[n - 1], ks[n - 1], Combination(net, u, dt, c, ks, n))
  {
  }

  lemma SumKeeps(net: Net, u: Vec, v: Vec, a: real, k: Vec, w: Vec)
    requires SameInvariants(net, u, v) && Annihilated(net, k) && IsSum(net, v, a, k, w)
    ensures SameInvariants(net, u, w)
  {
    assert Over(net, w) && Over(net, u);
    hide Weighted, IsSum, IsInvariant, Over, Times;
    forall y | IsInvariant(net, y)
      ensures Total(net, y, u) == Total(net, y, w)
    {
      InvariantIsOver(net, y);
      WeightedIsLinear(net, y, v, a, k, w, |net.places|);
      TimesLinear(a, 0.0, 0.0);
    }
  }

  lemma InvariantIsOver(net: Net, y: Vec)
    requires IsInvariant(net, y)
    ensures Over(net, y)
  {
  }

  /** The accumulation loops over the stages, place by place. */
  method Combine(net: Net, u: Vec, dt: real, c: seq<real>, ks: seq<Vec>, n: nat) returns (v: Vec)
    requires n <= |c| && n <= |ks| && Over(net, u) && forall j :: 0 <= j < n ==> Over(net, ks[j])
    ensures v == Combination(net, u, dt, c, ks, n)
  {
    v := map[];
    CombinationOver(net, u, dt, c, ks, n);
    for i := 0 to |net.places|
      invariant forall l :: l in v <==> l in net.places[..i]
      invariant forall l :: l in v ==> v[l] == Combination(net, u, dt, c, ks, n)[l]
    {
      var key := net.places[i];
      var x := CombineAt(net, u, dt, c, ks, n, key);
      v := v[key := x];
      assert net.places[..i + 1] == net.places[..i] + [key];
    }
    assert net.places[..|net.places|] == net.places;
  }

  lemma {:induction false} CombinationOver(net: Net, u: Vec, dt: real, c: seq<real>, ks: seq<Vec>, n: nat)
    requires n <= |c| && n <= |ks| && Over(net, u) && forall j :: 0 <= j < n ==> Over(net, ks[j])
    ensures Over(net, Combination(net, u, dt, c, ks, n))
  {
    if n > 0 { CombinationOver(net, u, dt, c, ks, n - 1); }
  }

  method CombineAt(net: Net, u: Vec, dt: real, c: seq<real>, ks: seq<Vec>, n: nat, key: string) returns (x: real)
    requires n <= |c| && n <= |ks| && Over(net, u) && forall j :: 0 <= j < n ==> Over(net, ks[j])
    requires key in net.places
    ensures key in Combination(net, u, dt, c, ks, n) && x == Combination(net, u, dt, c, ks, n)[key]
  {
    x := u[key];
    for j := 0 to n
      invariant key in Combination(net, u, dt, c, ks, j) && x == Combination(net, u, dt, c, ks, j)[key]
    {
      x := x + Times(dt * c[j], ks[j][key]);
    }
  }

  lemma DerivativeIsAnnihilated(net: Net, rates: Vec, u: Vec, du: Vec)
    requires Over(net, u) && IsDerivative(net, rates, u, du)
    ensures Annihilated(net, du)
  {
    forall y | IsInvariant(net, y)
      ensures Total(net, y, du) == 0.0
    {
      DerivativeAnnihilated(net, rates, y, u, du);
    }
  }

  /** The slopes of all stages, and the state that the last row combines. */
  method Step(net: Net, rates: Vec, tab: Tableau, u: Vec, dt: real) returns (unext: Vec, ks: seq<Vec>)
    requires ValidTableau(tab) && Over(net, u)
    ensures SameInvariants(net, u, unext)
    ensures |ks| == tab.stages && forall j :: 0 <= j < |ks| ==> Annihilated(net, ks[j])
    ensures unext == Combination(net, u, dt, tab.b, ks, |tab.b|)
    ensures IsDerivative(net, rates, u, ks[0])
    ensures forall s :: 1 <= s < |ks| ==> IsStage(net, rates, tab, u, dt, ks, s)
  {
    var k0 := Derivative(net, rates, u);
    DerivativeIsAnnihilated(net, rates, u, k0);
    hide IsDerivative, Annihilated, IsInvariant, Combination, SameInvariants, IsStage;
    ks := [k0];
    for stage := 1 to tab.stages
      invariant |ks| == stage && ks[0] == k0
      invariant forall j :: 0 <= j < |ks| ==> Annihilated(net, ks[j])
      invariant forall s :: 1 <= s < |ks| ==> IsStage(net, rates, tab, u, dt, ks, s)
    {
      SlopesOver(net, ks);
      var ustage := Combine(net, u, dt, tab.a[stage], ks, stage);
      CombinationOver(net, u, dt, tab.a[stage], ks, stage);
      var k := Derivative(net, rates, ustage);
      DerivativeIsAnnihilated(net, rates, ustage, k);
      StagesExtend(net, rates, tab, u, dt, ks, k);
      ks := ks + [k];
    }
    SlopesOver(net, ks);
    unext := Combine(net, u, dt, tab.b, ks, |tab.b|);
    CombinationKeeps(net, u, dt, tab.b, ks, |tab.b|);
  }

  /** Slope `s` is the derivative at the combination of the slopes before it by row `s` of the tableau. */
  ghost predicate IsStage(net: Net, rates: Vec, tab: Tableau, u: Vec, dt: real, ks: seq<Vec>, s: nat)
  {
    && s < |ks| && s < |tab.a| && s <= |tab.a[s]|
    && var ustage := Combination(net, u, dt, tab.a[s], ks, s);
       Over(net, ustage) && IsDerivative(net, rates, ustage, ks[s])
  }

  lemma SlopesOver(net: Net, ks: seq<Vec>)
    requires forall j :: 0 <= j < |ks| ==> Annihilated(net, ks[j])
    ensures forall j :: 0 <= j < |ks| ==> Over(net, ks[j])
  {
    hide IsInvariant, Total, Over;
  }

  lemma {:induction false} SamePrefix(net: Net, u: Vec, dt: real, c: seq<real>, ks: seq<Vec>, k: Vec, n: nat)
    requires n <= |c| && n <= |ks|
    ensures Combination(net, u, dt, c, ks + [k], n) == Combination(net, u, dt, c, ks, n)
  {
    if n > 0 { SamePrefix(net, u, dt, c, ks, k, n - 1); }
  }

  lemma StagesExtend(net: Net, rates: Vec, tab: Tableau, u: Vec, dt: real, ks: seq<Vec>, k: Vec)
    requires ValidTableau(tab) && 1 <= |ks| < tab.stages
    requires forall s :: 1 <= s < |ks| ==> IsStage(net, rates, tab, u, dt, ks, s)
    requires var ustage := Combination(net, u, dt, tab.a[|ks|], ks, |ks|);
      Over(net, ustage) && IsDerivative(net, rates, ustage, k)
    ensures forall s :: 1 <= s <= |ks| ==> IsStage(net, rates, tab, u, dt, ks + [k], s)
  {
    hide IsDerivative, Combination, Over;
    forall s | 1 <= s <= |ks|
      ensures IsStage(net, rates, tab, u, dt, ks + [k], s)
    {
      if s < |ks| { assert IsStage(net, rates, tab, u, dt, ks, s); }
      SamePrefix(net, u, dt, tab.a[s], ks, k, s);
    }
  }

  // ---- Step control -----------------------------------------------------------------------------------------

  datatype Options = Options(dt: real, dtmin: real, dtmax: real, abstol: real, reltol: real, maxiters: int, adaptive: bool)

  /** Step sizes are positive, and in adaptive mode so are the bounds and the scale of the error. */
  predicate ValidOptions(o: Options)
  {
    o.dt > 0.0 && (o.adaptive ==> o.dtmin > 0.0 && o.dtmax > 0.0 && o.abstol > 0.0 && o.reltol >= 0.0)
  }

  function Abs(x: real): (r: real)
    ensures r >= 0.0
  {
    if x < 0.0 then -x else x
  }

  function Max(x: real, y: real): real
  {
    if x < y then y else x
  }

  function Min(x: real, y: real): real
  {
    if x < y then x else y
  }

  lemma ScalePositive(a: real, r: real, m: real)
    requires a > 0.0 && r >= 0.0 && m >= 0.0
    ensures a + r * m > 0.0
  {
  }

  /** An error, scaled by the tolerances around the values before and after the step. */
  function Scaled(errest: real, before: real, after: real, o: Options): (e: real)
    requires ValidOptions(o) && o.adaptive
    ensures e >= 0.0
  {
    var size := Max(Abs(before), Abs(after));
    ScalePositive(o.abstol, o.reltol, size);
    Abs(errest) / (o.abstol + o.reltol * size)
  }

  /** The error of one place, scaled by the tolerances. */
  function ErrorAt(u: Vec, unext: Vec, estimate: Vec, o: Options, l: string): (e: real)
    requires ValidOptions(o) && o.adaptive && l in u && l in unext && l in estimate
    ensures e >= 0.0
  {
    Scaled(estimate[l], u[l], unext[l], o)
  }

  /** The largest scaled error over the first `n` places. */
  function ErrorNorm(net: Net, u: Vec, unext: Vec, estimate: Vec, o: Options, n: nat): (e: real)
    requires ValidOptions(o) && o.adaptive && n <= |net.places| && Over(net, u) && Over(net, unext) && Over(net, estimate)
    ensures e >= 0.0
  {
    if n == 0 then 0.0
    else Max(ErrorNorm(net, u, unext, estimate, o, n - 1), ErrorAt(u, unext, estimate, o, net.places[n - 1]))
  }

  function ZeroVec(net: Net): Vec
  {
    map l | l in net.places :: 0.0
  }

  /** The embedded error estimate of a step, zero when the solver is not adaptive. */
  function StepError(net: Net, tab: Tableau, o: Options, u: Vec, unext: Vec, dt: real, ks: seq<Vec>): (e: real)
    requires ValidOptions(o) && ValidTableau(tab) && |ks| == tab.stages && Over(net, u) && Over(net, unext)
    requires forall j :: 0 <= j < |ks| ==> Over(net, ks[j])
    ensures e >= 0.0
  {
    if !o.adaptive then 0.0
    else
      CombinationOver(net, ZeroVec(net), dt, tab.bhat, ks, |tab.bhat|);
      ErrorNorm(net, u, unext, Combination(net, ZeroVec(net), dt, tab.bhat, ks, |tab.bhat|), o, |net.places|)
  }

  method EstimateError(net: Net, tab: Tableau, o: Options, u: Vec, unext: Vec, dt: real, ks: seq<Vec>) returns (err: real)
    requires ValidOptions(o) && ValidTableau(tab) && |ks| == tab.stages && Over(net, u) && Over(net, unext)
    requires forall j :: 0 <= j < |ks| ==> Over(net, ks[j])
    ensures err == StepError(net, tab, o, u, unext, dt, ks)
  {
    err := 0.0;
    if o.adaptive {
      ghost var estimate := Combination(net, ZeroVec(net), dt, tab.bhat, ks, |tab.bhat|);
      ZeroVecOver(net);
      TableauSizes(tab);
      CombinationOver(net, ZeroVec(net), dt, tab.bhat, ks, |tab.bhat|);
      StepErrorIs(net, tab, o, u, unext, dt, ks);
      hide *;
      for i := 0 to |net.places|
        invariant err == ErrorNorm(net, u, unext, estimate, o, i)
      {
        var key := net.places[i];
        var errest := CombineAt(net, ZeroVec(net), dt, tab.bhat, ks, |tab.bhat|, key);
        ErrorNormStep(net, u, unext, estimate, o, i);
        err := Max(err, Scaled(errest, u[key], unext[key], o));
      }
    }
  }

  lemma StepErrorIs(net: Net, tab: Tableau, o: Options, u: Vec, unext: Vec, dt: real, ks: seq<Vec>)
    requires ValidOptions(o) && o.adaptive && ValidTableau(tab) && |ks| == tab.stages && Over(net, u) && Over(net, unext)
    requires forall j :: 0 <= j < |ks| ==> Over(net, ks[j])
    ensures var estimate := Combination(net, ZeroVec(net), dt, tab.bhat, ks, |tab.bhat|);
      && Over(net, estimate)
      && StepError(net, tab, o, u, unext, dt, ks) == ErrorNorm(net, u, unext, estimate, o, |net.places|)
      && ErrorNorm(net, u, unext, estimate, o, 0) == 0.0
  {
    CombinationOver(net, ZeroVec(net), dt, tab.bhat, ks, |tab.bhat|);
    hide Combination, ErrorAt;
  }

  lemma ErrorNormStep(net: Net, u: Vec, unext: Vec, estimate: Vec, o: Options, i: nat)
    requires ValidOptions(o) && o.adaptive && i < |net.places| && Over(net, u) && Over(net, unext) && Over(net, estimate)
    ensures var l := net.places[i];
      && l in u && l in unext && l in estimate && l in net.places
      && ErrorNorm(net, u, unext, estimate, o, i + 1)
           == Max(ErrorNorm(net, u, unext, estimate, o, i), Scaled(estimate[l], u[l], unext[l], o))
  {
    hide Scaled, Max;
  }

  lemma ZeroVecOver(net: Net)
    ensures Over(net, ZeroVec(net))
  {
  }

  /** (10/9)^n: how much a step size can shrink in n rejections. */
  function Growth(n: nat): (r: real)
    ensures r >= 1.0
  {
    if n == 0 then 1.0 else Growth(n - 1) * 10.0 / 9.0
  }

  lemma {:induction false} GrowthIsLinear(n: nat)
    ensures Growth(n) >= 1.0 + n as real / 9.0
  {
    if n > 0 { GrowthIsLinear(n - 1); }
  }

  lemma GrowthStep(n: nat)
    ensures Growth(n + 1) == Growth(n) * 10.0 / 9.0 && Growth(0) == 1.0 && Growth(n) >= 1.0
  {
  }

  /** Enough rejections bring any step size down to `dtmin`. */
  lemma FuelFor(dt: real, dtmin: real) returns (n: nat)
    requires dt > 0.0 && dtmin > 0.0
    ensures dt <= dtmin * Growth(n)
  {
    var q := dt / dtmin;
    n := (9.0 * q).Floor + 1;
    GrowthIsLinear(n);
    assert n as real >= 9.0 * q;
    hide Growth;
    assert Growth(n) >= q;
    ScaleUp(dtmin, q, Growth(n));
    assert dtmin * q == dt;
  }

  lemma ScaleUp(m: real, a: real, b: real)
    requires m > 0.0 && a <= b
    ensures m * a <= m * b
  {
    assert m * (b - a) >= 0.0;
    assert m * (b - a) == m * b - m * a;
  }

  lemma Shrunk(dt: real, m: real, x: real)
    requires dt > 0.0 && m <= 0.9 && dt <= x * 10.0 / 9.0
    ensures dt * m <= x
  {
    assert dt * (0.9 - m) >= 0.0;
    assert dt * (0.9 - m) == dt * 0.9 - dt * m;
  }

  lemma TimesTenNinths(d: real, g: real, h: real)
    requires h == g * 10.0 / 9.0
    ensures d * h == (d * g) * 10.0 / 9.0
  {
  }

  lemma GrowthNotZero(dt: real, dtmin: real)
    requires dt > dtmin
    ensures !(dt <= dtmin * Growth(0))
  {
    assert Growth(0) == 1.0;
  }

  lemma FuelNeeded(dt: real, dtmin: real, fuel: nat)
    requires dt > dtmin && dt <= dtmin * Growth(fuel)
    ensures fuel > 0
  {
    GrowthNotZero(dt, dtmin);
  }

  /** One rejection uses one unit of fuel: the new step size shrinks by a tenth at least, or is the minimum. */
  lemma RejectBurnsFuel(dt: real, dtmin: real, factor: real, fuel: nat)
    requires dtmin > 0.0 && dt > dtmin && dt <= dtmin * Growth(fuel) && factor <= 0.9
    ensures fuel > 0
    ensures var dt' := Max(dtmin, dt * Max(factor, 0.1)); dt' > 0.0 && dt' <= dtmin * Growth(fuel - 1)
  {
    FuelNeeded(dt, dtmin, fuel);
    GrowthStep(fuel - 1);
    var g, m := Growth(fuel - 1), Max(factor, 0.1);
    assert 0.1 <= m <= 0.9;
    MaxOf(dtmin, dt * m);
    hide *;
    TimesTenNinths(dtmin, g, Growth(fuel));
    Shrunk(dt, m, dtmin * g);
    ScaleUp(dtmin, 1.0, g);
  }

  lemma MaxOf(x: real, y: real)
    ensures Max(x, y) >= x && (Max(x, y) == x || Max(x, y) == y)
  {
  }

  // ---- The whole run -------------------------------------------------------------------------------------------

  /** `unext` is what one step of the method computes from `u`, within tolerance or at the smallest step size. */
  ghost predicate AcceptedStep(net: Net, rates: Vec, tab: Tableau, o: Options, u: Vec, dt: real, unext: Vec, ks: seq<Vec>)
    requires ValidOptions(o) && ValidTableau(tab)
  {
    && |ks| == tab.stages && Over(net, u) && Over(net, unext) && (forall j :: 0 <= j < |ks| ==> Over(net, ks[j]))
    && IsDerivative(net, rates, u, ks[0])
    && (forall s :: 1 <= s < |ks| ==> IsStage(net, rates, tab, u, dt, ks, s))
    && unext == Combination(net, u, dt, tab.b, ks, |tab.b|)
    && (o.adaptive ==> StepError(net, tab, o, u, unext, dt, ks) <= 1.0 || dt <= o.dtmin)
  }

  ghost predicate IsStepOf(net: Net, rates: Vec, tab: Tableau, o: Options, u: Vec, dt: real, unext: Vec)
    requires ValidOptions(o) && ValidTableau(tab)
  {
    exists ks :: AcceptedStep(net, rates, tab, o, u, dt, unext, ks)
  }

  /** A solution: accepted times and states, each state one step of the method after the one before. */
  ghost predicate IsSolution(net: Net, rates: Vec, tab: Tableau, o: Options, u0: Vec, t0: real, tf: real,
                             ts: seq<real>, us: seq<Vec>)
    requires ValidOptions(o) && ValidTableau(tab)
  {
    && |ts| == |us| >= 1 && ts[0] == t0 && us[0] == u0
    && (forall i :: 0 < i < |ts| ==> ts[i - 1] < ts[i] <= tf)
    && (forall i :: 0 < i < |ts| ==> IsStepOf(net, rates, tab, o, us[i - 1], ts[i] - ts[i - 1], us[i]))
    && (forall i :: 0 <= i < |us| ==> SameInvariants(net, u0, us[i]))
  }

  lemma SolutionStart(net: Net, rates: Vec, tab: Tableau, o: Options, u0: Vec, t0: real, tf: real)
    requires ValidOptions(o) && ValidTableau(tab) && Over(net, u0)
    ensures IsSolution(net, rates, tab, o, u0, t0, tf, [t0], [u0])
  {
    Reflexive(net, u0);
    hide SameInvariants;
  }

  lemma SolutionExtends(net: Net, rates: Vec, tab: Tableau, o: Options, u0: Vec, t0: real, tf: real,
                        ts: seq<real>, us: seq<Vec>, dt: real, unext: Vec)
    requires ValidOptions(o) && ValidTableau(tab) && IsSolution(net, rates, tab, o, u0, t0, tf, ts, us)
    requires dt > 0.0 && ts[|ts| - 1] + dt <= tf
    requires IsStepOf(net, rates, tab, o, us[|us| - 1], dt, unext) && SameInvariants(net, us[|us| - 1], unext)
    ensures IsSolution(net, rates, tab, o, u0, t0, tf, ts + [ts[|ts| - 1] + dt], us + [unext])
  {
    hide IsStepOf, IsInvariant, Total, Over;
    var ts', us' := ts + [ts[|ts| - 1] + dt], us + [unext];
    assert SameInvariants(net, u0, us[|us| - 1]);
    assert SameInvariants(net, u0, unext);
    hide SameInvariants;
    forall i | 0 < i < |ts'|
      ensures ts'[i - 1] < ts'[i] <= tf && IsStepOf(net, rates, tab, o, us'[i - 1], ts'[i] - ts'[i - 1], us'[i])
    {
      if i < |ts| { assert IsStepOf(net, rates, tab, o, us[i - 1], ts[i] - ts[i - 1], us[i]); }
    }
  }

  /** The fuel covers the rejections that are still possible before the smallest step size. */
  ghost predicate FuelLeft(o: Options, dt: real, fuel: nat)
  {
    o.adaptive ==> dt <= o.dtmin * Growth(fuel)
  }

  lemma InitialFuel(o: Options, dt: real) returns (fuel: nat)
    requires ValidOptions(o) && dt > 0.0
    ensures FuelLeft(o, dt, fuel)
  {
    fuel := 0;
    if o.adaptive { fuel := FuelFor(dt, o.dtmin); }
  }

  lemma FuelShrinks(o: Options, dt: real, dt': real, fuel: nat)
    requires FuelLeft(o, dt, fuel) && dt' <= dt
    ensures FuelLeft(o, dt', fuel)
  {
  }

  /** (0, 1] is mapped to values of at most 1, as by the sixth root. */
  ghost predicate KeepsBelowOne(root: real -> real)
  {
    forall x :: 0.0 < x <= 1.0 ==> root(x) <= 1.0
  }

  /** The factor by which an error asks the step size to change. */
  function Factor(root: real -> real, err: real): (f: real)
    requires err > 0.0
    ensures err > 1.0 && KeepsBelowOne(root) ==> f <= 0.9
  {
    assert err > 1.0 ==> 0.0 < 1.0 / err <= 1.0;
    0.9 * root(1.0 / err)
  }

  /** One attempt: the next state and its error. */
  method TryStep(net: Net, rates: Vec, tab: Tableau, o: Options, u: Vec, dt: real) returns (unext: Vec, err: real)
    requires ValidOptions(o) && ValidTableau(tab) && Over(net, u)
    ensures SameInvariants(net, u, unext) && Over(net, unext) && err >= 0.0
    ensures !o.adaptive || err <= 1.0 || dt <= o.dtmin ==> IsStepOf(net, rates, tab, o, u, dt, unext)
  {
    var ks;
    unext, ks := Step(net, rates, tab, u, dt);
    SlopesOver(net, ks);
    SameAreOver(net, u, unext);
    hide SameInvariants, Annihilated, IsStage, IsDerivative, Combination, StepError, ValidTableau, Over;
    TableauSizes(tab);
    err := EstimateError(net, tab, o, u, unext, dt, ks);
    if !o.adaptive || err <= 1.0 || dt <= o.dtmin {
      assert AcceptedStep(net, rates, tab, o, u, dt, unext, ks);
    }
  }

  lemma TableauSizes(tab: Tableau)
    requires ValidTableau(tab)
    ensures |tab.b| <= tab.stages && |tab.bhat| <= tab.stages && tab.stages >= 1
  {
  }

  lemma SameAreOver(net: Net, u: Vec, v: Vec)
    requires SameInvariants(net, u, v)
    ensures Over(net, u) && Over(net, v)
  {
  }

  /** The step size after an accepted step. */
  method NextStepSize(o: Options, dt: real, err: real, root: real -> real) returns (r: real, ghost fuel: nat)
    requires ValidOptions(o) && dt > 0.0
    ensures r == if o.adaptive && err > 0.0 then Min(o.dtmax, Max(o.dtmin, dt * Min(Factor(root, err), 5.0))) else dt
    ensures r > 0.0 && FuelLeft(o, r, fuel)
  {
    r := dt;
    if o.adaptive && err > 0.0 {
      var factor := Factor(root, err);
      r := Min(o.dtmax, Max(o.dtmin, dt * Min(factor, 5.0)));
    }
    fuel := InitialFuel(o, r);
  }

  /** The step size after a rejected step. */
  method RejectedStepSize(o: Options, dt: real, err: real, root: real -> real, ghost fuel: nat)
      returns (r: real, ghost less: nat)
    requires ValidOptions(o) && o.adaptive && dt > o.dtmin && FuelLeft(o, dt, fuel) && err > 1.0 && KeepsBelowOne(root)
    ensures r == Max(o.dtmin, dt * Max(Factor(root, err), 0.1)) && r > 0.0
    ensures less < fuel && FuelLeft(o, r, less)
  {
    var factor := Factor(root, err);
    hide Factor;
    r := Max(o.dtmin, dt * Max(factor, 0.1));
    RejectBurnsFuel(dt, o.dtmin, factor, fuel);
    less := fuel - 1;
  }

  /** The loop is at the end of the solution so far. */
  ghost predicate AtEnd(net: Net, rates: Vec, tab: Tableau, o: Options, u0: Vec, t0: real, tf: real,
                        ts: seq<real>, us: seq<Vec>, tcur: real, ucur: Vec, nsteps: nat)
    requires ValidOptions(o) && ValidTableau(tab)
  {
    && IsSolution(net, rates, tab, o, u0, t0, tf, ts, us)
    && |ts| == |us| == nsteps + 1 && ts[nsteps] == tcur && us[nsteps] == ucur && Over(net, ucur)
    && (t0 <= tf ==> tcur <= tf)
  }

  lemma EndStart(net: Net, rates: Vec, tab: Tableau, o: Options, u0: Vec, t0: real, tf: real)
    requires ValidOptions(o) && ValidTableau(tab) && Over(net, u0)
    ensures AtEnd(net, rates, tab, o, u0, t0, tf, [t0], [u0], t0, u0, 0)
  {
    hide IsSolution;
    SolutionStart(net, rates, tab, o, u0, t0, tf);
  }

  lemma EndExtends(net: Net, rates: Vec, tab: Tableau, o: Options, u0: Vec, t0: real, tf: real,
                   ts: seq<real>, us: seq<Vec>, tcur: real, ucur: Vec, nsteps: nat, dt: real, unext: Vec)
    requires ValidOptions(o) && ValidTableau(tab) && AtEnd(net, rates, tab, o, u0, t0, tf, ts, us, tcur, ucur, nsteps)
    requires dt > 0.0 && tcur + dt <= tf
    requires IsStepOf(net, rates, tab, o, ucur, dt, unext) && SameInvariants(net, ucur, unext) && Over(net, unext)
    ensures AtEnd(net, rates, tab, o, u0, t0, tf, ts + [tcur + dt], us + [unext], tcur + dt, unext, nsteps + 1)
  {
    hide IsSolution, IsStepOf, SameInvariants, Over;
    SolutionExtends(net, rates, tab, o, u0, t0, tf, ts, us, dt, unext);
  }

  lemma EndReached(net: Net, rates: Vec, tab: Tableau, o: Options, u0: Vec, t0: real, tf: real,
                   ts: seq<real>, us: seq<Vec>, tcur: real, ucur: Vec, nsteps: nat)
    requires ValidOptions(o) && ValidTableau(tab) && AtEnd(net, rates, tab, o, u0, t0, tf, ts, us, tcur, ucur, nsteps)
    ensures IsSolution(net, rates, tab, o, u0, t0, tf, ts, us)
    ensures |ts| == nsteps + 1 && ts[nsteps] == tcur && (t0 <= tf ==> tcur <= tf)
  {
    hide IsSolution;
  }

  /**
   * `solve`, for any root function that maps (0, 1] into values of at most 1, as the sixth root does. The run ends,
   * although rejected steps do not count against maxiters.
   */
  method Solve(net: Net, rates: Vec, tab: Tableau, u0: Vec, t0: real, tf: real, o: Options, root: real -> real)
      returns (ts: seq<real>, us: seq<Vec>)
    requires ValidOptions(o) && ValidTableau(tab) && Over(net, u0)
    requires KeepsBelowOne(root)
    ensures IsSolution(net, rates, tab, o, u0, t0, tf, ts, us)
    ensures |ts| - 1 < o.maxiters && t0 <= tf ==> ts[|ts| - 1] == tf
    ensures |ts| - 1 <= if o.maxiters < 0 then 0 else o.maxiters
  {
    ts, us := [t0], [u0];
    EndStart(net, rates, tab, o, u0, t0, tf);
    var tcur, ucur, dtcur, nsteps := t0, u0, o.dt, 0;
    ghost var fuel := InitialFuel(o, dtcur);
    hide *;
    while tcur < tf && nsteps < o.maxiters
      invariant AtEnd(net, rates, tab, o, u0, t0, tf, ts, us, tcur, ucur, nsteps) && Over(net, ucur)
      invariant 0 <= nsteps <= if o.maxiters < 0 then 0 else o.maxiters
      invariant dtcur > 0.0 && FuelLeft(o, dtcur, fuel)
      decreases o.maxiters - nsteps, fuel
    {
      if tcur + dtcur > tf {
        FuelShrinks(o, dtcur, tf - tcur, fuel);
        dtcur := tf - tcur;
      }
      var unext, err;
      unext, err := TryStep(net, rates, tab, o, ucur, dtcur);
      if !o.adaptive || err <= 1.0 || dtcur <= o.dtmin {
        EndExtends(net, rates, tab, o, u0, t0, tf, ts, us, tcur, ucur, nsteps, dtcur, unext);
        tcur := tcur + dtcur;
        ucur := unext;
        ts := ts + [tcur];
        us := us + [ucur];
        nsteps := nsteps + 1;
        dtcur, fuel := NextStepSize(o, dtcur, err, root);
      } else {
        dtcur, fuel := RejectedStepSize(o, dtcur, err, root, fuel);
      }
    }
    EndReached(net, rates, tab, o, u0, t0, tf, ts, us, tcur, ucur, nsteps);
  }
}
