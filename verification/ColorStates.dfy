/** States of coloured nets: totals per place, split into colours and summed again. */
module ColorStates {
  import opened Wrappers
  import opened Sets
  import opened PetriSim
  import opened PetriColors

  type State = map<string, real>

  function IntSum(v: seq<int>): int
  {
    if v == [] then 0 else IntSum(v[..|v| - 1]) + v[|v| - 1]
  }

  /** The loop of `getTokenCount`. */
  method TokenCount(p: Place) returns (total: int)
    ensures total == IntSum(p.initial)
  {
    total := 0;
    for i := 0 to |p.initial|
      invariant total == IntSum(p.initial[..i])
    {
      assert p.initial[..i + 1][..i] == p.initial[..i];
      total := total + p.initial[i];
    }
    assert p.initial[..|p.initial|] == p.initial;
  }

  /** `setState`: every place with its total, or with the custom one. */
  method SetState(net: Net, custom: State) returns (state: State)
    requires ValidNet(net)
    ensures forall p :: p in state <==> p in net.place
    ensures forall p :: p in net.place ==>
      state[p] == if p in custom then custom[p] else IntSum(net.place[p].initial) as real
  {
    state := map[];
    for k := 0 to |net.order|
      invariant forall p :: p in state <==> p in net.order[..k]
      invariant forall p :: p in state ==>
        p in net.place && state[p] == if p in custom then custom[p] else IntSum(net.place[p].initial) as real
    {
      var id := net.order[k];
      assert net.order[..k + 1] == net.order[..k] + [id];
      if id in custom {
        state := state[id := custom[id]];
      } else {
        var total := TokenCount(net.place[id]);
        state := state[id := total as real];
      }
    }
    assert net.order[..|net.order|] == net.order;
  }

  // ---- Splitting totals ---------------------------------------------------------------------------

  /** What colour `i` gets of a total: in the proportions of the declared vector, or all to colour 0 without any. */
  function Share(p: Place, total: real, i: nat): real
  {
    var declared := IntSum(p.initial);
    if declared == 0 then if i == 0 then total else 0.0
    else ShareOf(total, At(p.initial, i), declared)
  }

  function ShareOf(total: real, share: int, declared: int): real
    requires declared != 0
  {
    (total * share as real) / declared as real
  }

  /** Writes the shares of the first `n` colours. */
  function Split(names: seq<string>, p: Place, total: real, out: State, n: nat): State
    requires n <= |names|
  {
    if n == 0 then out else Split(names, p, total, out, n - 1)[names[n - 1] := Share(p, total, n - 1)]
  }

  /** The state after the first `n` entries have been expanded. */
  function Expanded(net: Net, cm: ColorMap, keys: seq<string>, state: State, n: nat): State
    requires n <= |keys| && (forall k :: k in keys <==> k in state) && forall p :: p in net.place ==> p in cm.expanded
  {
    if n == 0 then map[]
    else
      var out, name := Expanded(net, cm, keys, state, n - 1), keys[n - 1];
      assert name in keys;
      if name !in net.place then out[name := state[name]]
      else Split(cm.expanded[name], net.place[name], state[name], out, |cm.expanded[name]|)
  }

  /** The place loop of `expandState`, for one place. */
  method SplitTotal(names: seq<string>, p: Place, total: real, out0: State) returns (out: State)
    ensures out == Split(names, p, total, out0, |names|)
  {
    var declared := TokenCount(p);
    out := out0;
    hide ShareOf, IntSum;
    if declared == 0 {
      for i := 0 to |names|
        invariant out == Split(names, p, total, out0, i)
      {
        out := out[names[i] := if i == 0 then total else 0.0];
      }
      return;
    }
    for i := 0 to |names|
      invariant out == Split(names, p, total, out0, i)
    {
      var share := if i < |p.initial| then p.initial[i] else 0;
      assert share == At(p.initial, i);
      out := out[names[i] := ShareOf(total, share, declared)];
    }
  }

  /** `expandState`, over the entries of a state in the order of `keys`. */
  method ExpandState(net: Net, keys: seq<string>, state: State) returns (out: State, colorMap: Option<ColorMap>)
    requires ValidNet(net) && Distinct(keys) && forall k :: k in keys <==> k in state
    ensures colorMap.None? ==> out == state && exists c :: IsColorCount(net, c) && c <= 1
    ensures colorMap.Some? ==>
      && IsColorCount(net, |colorMap.value.colors|) && colorMap.value.colors == ColorNames(net, |colorMap.value.colors|)
      && Maps(net, colorMap.value) && out == Expanded(net, colorMap.value, keys, state, |keys|)
  {
    var _, cm, sep := ExpandColors(net);
    colorMap := cm;
    if cm.None? { return state, cm; }
    MapsOf(net, sep, cm.value);
    MapsPlaces(net, cm.value);
    hide *;
    out := map[];
    ExpandedNone(net, cm.value, keys, state);
    for k := 0 to |keys|
      invariant out == Expanded(net, cm.value, keys, state, k)
    {
      var name := keys[k];
      assert name in keys;
      ExpandedStep(net, cm.value, keys, state, k);
      if name !in net.place {
        out := out[name := state[name]];
        continue;
      }
      out := SplitTotal(cm.value.expanded[name], net.place[name], state[name], out);
    }
  }

  /** What a colour map says about the places of its net: one name for every colour, none of them a place. */
  ghost predicate Maps(net: Net, cm: ColorMap)
  {
    && |cm.colors| >= 2 && (forall p :: p in cm.expanded <==> p in net.place)
    && (forall p :: p in net.place ==> |cm.expanded[p]| == |cm.colors| && |net.place[p].initial| <= |cm.colors|)
    && (forall p, i :: p in net.place && 0 <= i < |cm.colors| ==>
          cm.expanded[p][i] !in net.place && cm.expanded[p][i] in cm.base)
    && (forall n :: n in cm.base ==> exists p, i :: p in net.place && 0 <= i < |cm.colors| && cm.expanded[p][i] == n)
    && (SafeNames(cm.colors) ==>
          forall p, i :: p in net.place && 0 <= i < |cm.colors| ==> cm.base[cm.expanded[p][i]] == ColorRef(p, i))
  }

  lemma MapsPlaces(net: Net, cm: ColorMap)
    requires Maps(net, cm)
    ensures forall p :: p in net.place ==> p in cm.expanded
  {
  }

  lemma ExpandedNone(net: Net, cm: ColorMap, keys: seq<string>, state: State)
    requires (forall k :: k in keys <==> k in state) && forall p :: p in net.place ==> p in cm.expanded
    ensures Expanded(net, cm, keys, state, 0) == map[]
  {
  }

  lemma ExpandedStep(net: Net, cm: ColorMap, keys: seq<string>, state: State, n: nat)
    requires n < |keys| && (forall k :: k in keys <==> k in state) && forall p :: p in net.place ==> p in cm.expanded
    ensures var out, name := Expanded(net, cm, keys, state, n), keys[n];
      && name in state
      && Expanded(net, cm, keys, state, n + 1) ==
           if name !in net.place then out[name := state[name]]
           else Split(cm.expanded[name], net.place[name], state[name], out, |cm.expanded[name]|)
  {
    assert keys[n] in keys;
    hide Split;
  }

  lemma MapsOf(net: Net, sep: string, cm: ColorMap)
    requires ValidNet(net) && MapsColors(net, sep, cm) && IsSeparator(net, cm.colors, sep)
    requires |cm.colors| >= 2 && IsColorCount(net, |cm.colors|)
    ensures Maps(net, cm)
  {
    var names := cm.colors;
    if SafeNames(names) { SafeNamesInjective(net, sep, names); }
    assert forall p :: p in net.place ==> |net.place[p].initial| <= |names|;
    hide SafeNames, NamesInjective, IsColorCount;
    forall p, i | p in net.place && 0 <= i < |names|
      ensures cm.expanded[p][i] == Name(p, sep, names, i)
      ensures cm.expanded[p][i] !in net.place && cm.expanded[p][i] in cm.base
    {
      assert cm.expanded[p][i] == p + sep + names[i];
      assert p in net.order;
      assert ExpandedName(net.order, sep, names, Name(p, sep, names, i));
    }
    forall n | n in cm.base
      ensures exists p, i :: p in net.place && 0 <= i < |names| && cm.expanded[p][i] == n
    {
      var p, i :| p in net.order && 0 <= i < |names| && n == Name(p, sep, names, i);
      assert p in net.place && cm.expanded[p][i] == n;
    }
  }

  // ---- Idempotence ------------------------------------------------------------------------------------

  lemma {:induction false} SplitKeys(names: seq<string>, p: Place, total: real, out: State, n: nat)
    requires n <= |names|
    ensures forall k :: k in Split(names, p, total, out, n) <==> k in out || k in names[..n]
  {
    if n > 0 {
      SplitKeys(names, p, total, out, n - 1);
      assert names[..n] == names[..n - 1] + [names[n - 1]];
    }
  }

  /** An expanded state names no place of the net. */
  lemma {:induction false} ExpandedKeys(net: Net, cm: ColorMap, keys: seq<string>, state: State, n: nat)
    requires Maps(net, cm) && n <= |keys| && forall k :: k in keys <==> k in state
    ensures forall k :: k in Expanded(net, cm, keys, state, n) ==> k !in net.place
  {
    if n > 0 {
      ExpandedKeys(net, cm, keys, state, n - 1);
      var name := keys[n - 1];
      assert name in keys;
      if name in net.place {
        var names := cm.expanded[name];
        hide Split;
        SplitKeys(names, net.place[name], state[name], Expanded(net, cm, keys, state, n - 1), |names|);
        assert forall k :: k in names[..|names|] ==> k !in net.place;
      }
    }
  }

  lemma {:induction false} PassesThrough(net: Net, cm: ColorMap, keys: seq<string>, state: State, n: nat)
    requires n <= |keys| && (forall k :: k in keys <==> k in state) && forall p :: p in net.place ==> p in cm.expanded
    requires forall k :: k in state ==> k !in net.place
    ensures forall k :: k in Expanded(net, cm, keys, state, n) <==> k in keys[..n]
    ensures forall k :: k in keys[..n] ==> Expanded(net, cm, keys, state, n)[k] == state[k]
  {
    if n > 0 {
      PassesThrough(net, cm, keys, state, n - 1);
      assert keys[n - 1] in keys;
      assert keys[..n] == keys[..n - 1] + [keys[n - 1]];
    }
  }

  /** Expanding an expanded state changes nothing, in whatever order its entries are visited. */
  lemma ExpandIsIdempotent(net: Net, cm: ColorMap, keys: seq<string>, state: State, keys': seq<string>)
    requires Maps(net, cm) && forall k :: k in keys <==> k in state
    requires forall k :: k in keys' <==> k in Expanded(net, cm, keys, state, |keys|)
    ensures Expanded(net, cm, keys', Expanded(net, cm, keys, state, |keys|), |keys'|)
         == Expanded(net, cm, keys, state, |keys|)
  {
    var out := Expanded(net, cm, keys, state, |keys|);
    ExpandedKeys(net, cm, keys, state, |keys|);
    PassesThrough(net, cm, keys', out, |keys'|);
    assert keys'[..|keys'|] == keys';
  }

  // ---- Round trips ------------------------------------------------------------------------------------

  /** The expanded names of different places and colours differ. */
  ghost predicate NamesDiffer(net: Net, cm: ColorMap)
  {
    forall p, q, i, j :: p in net.place && q in net.place && p in cm.expanded && q in cm.expanded
      && 0 <= i < |cm.expanded[p]| && 0 <= j < |cm.expanded[q]| && cm.expanded[p][i] == cm.expanded[q][j]
      ==> p == q && i == j
  }

  lemma NamesDifferOf(net: Net, cm: ColorMap)
    requires Maps(net, cm) && SafeNames(cm.colors)
    ensures NamesDiffer(net, cm)
  {
    hide SafeNames;
    forall p, q, i, j | p in net.place && q in net.place && p in cm.expanded && q in cm.expanded
      && 0 <= i < |cm.expanded[p]| && 0 <= j < |cm.expanded[q]| && cm.expanded[p][i] == cm.expanded[q][j]
      ensures p == q && i == j
    {
      assert cm.base[cm.expanded[p][i]] == ColorRef(p, i) && cm.base[cm.expanded[q][j]] == ColorRef(q, j);
    }
  }

  lemma {:induction false} SplitValue(names: seq<string>, p: Place, total: real, out: State, n: nat, i: nat)
    requires i < n <= |names| && Distinct(names)
    ensures names[i] in Split(names, p, total, out, n) && Split(names, p, total, out, n)[names[i]] == Share(p, total, i)
  {
    hide Share;
    if i < n - 1 { SplitValue(names, p, total, out, n - 1, i); }
  }

  lemma {:induction false} SplitElsewhere(names: seq<string>, p: Place, total: real, out: State, n: nat, k: string)
    requires n <= |names| && k !in names
    ensures k in Split(names, p, total, out, n) <==> k in out
    ensures k in out ==> Split(names, p, total, out, n)[k] == out[k]
  {
    hide Share;
    if n > 0 { SplitElsewhere(names, p, total, out, n - 1, k); }
  }

  /** The entry of every colour of every place that the state totals, when all its keys are places. */
  lemma {:induction false} ExpandedValue(net: Net, cm: ColorMap, keys: seq<string>, state: State, n: nat, p: string, i: nat)
    requires Maps(net, cm) && NamesDiffer(net, cm) && n <= |keys| && Distinct(keys)
    requires (forall k :: k in keys <==> k in state) && forall k :: k in state ==> k in net.place
    requires p in keys[..n] && i < |cm.colors|
    ensures p in net.place && p in state
    ensures var out, name := Expanded(net, cm, keys, state, n), cm.expanded[p][i];
      name in out && out[name] == Share(net.place[p], state[p], i)
  {
    var q := keys[n - 1];
    assert q in keys && p in keys && q in net.place;
    var names := cm.expanded[q];
    var before := Expanded(net, cm, keys, state, n - 1);
    hide Share, Split;
    if p == q {
      forall a, b | 0 <= a < b < |names|
        ensures names[a] != names[b]
      {
      }
      SplitValue(names, net.place[q], state[q], before, |names|, i);
    } else {
      assert p in keys[..n - 1] by { assert keys[..n] == keys[..n - 1] + [q]; }
      ExpandedValue(net, cm, keys, state, n - 1, p, i);
      SplitElsewhere(names, net.place[q], state[q], before, |names|, cm.expanded[p][i]);
    }
  }

  /** The keys of an expanded base-keyed state are the expanded names of its places. */
  lemma {:induction false} ExpandedDomain(net: Net, cm: ColorMap, keys: seq<string>, state: State, n: nat)
    requires Maps(net, cm) && n <= |keys| && (forall k :: k in keys <==> k in state) && forall k :: k in state ==> k in net.place
    ensures forall k :: k in Expanded(net, cm, keys, state, n) <==>
      exists p :: p in keys[..n] && p in cm.expanded && k in cm.expanded[p]
  {
    if n > 0 {
      ExpandedDomain(net, cm, keys, state, n - 1);
      var q := keys[n - 1];
      assert q in keys && q in net.place && keys[..n] == keys[..n - 1] + [q];
      var names := cm.expanded[q];
      hide Split, Maps;
      SplitKeys(names, net.place[q], state[q], Expanded(net, cm, keys, state, n - 1), |names|);
      assert names[..|names|] == names;
    }
  }

  /** The declared vector has proportions, or is zero throughout. */
  predicate HasProportions(p: Place)
  {
    IntSum(p.initial) != 0 || forall i :: 0 <= i < |p.initial| ==> p.initial[i] == 0
  }

  lemma ShareOfAll(share: int, declared: int)
    requires declared != 0
    ensures ShareOf(declared as real, share, declared) == share as real
  {
    var d, s := declared as real, share as real;
    assert d * s == s * d;
    assert (s * d) / d == s;
  }

  /** Exactly when the split of the declared total is the declared vector: it has proportions, or is zero throughout. */
  lemma {:induction false} DeclaredShares(p: Place, c: nat)
    requires |p.initial| <= c && c >= 1
    ensures (forall i: nat :: i < c ==> Share(p, IntSum(p.initial) as real, i) == At(p.initial, i) as real)
      <==> HasProportions(p)
  {
    var declared := IntSum(p.initial);
    if declared != 0 {
      hide ShareOf, IntSum;
      forall i: nat | i < c
        ensures Share(p, declared as real, i) == At(p.initial, i) as real
      {
        ShareOfAll(At(p.initial, i), declared);
      }
    } else {
      forall i: nat | i < c
        ensures Share(p, 0.0, i) == 0.0
      {
      }
      if !HasProportions(p) {
        var i :| 0 <= i < |p.initial| && p.initial[i] != 0;
        assert Share(p, 0.0, i) != At(p.initial, i) as real;
      }
    }
  }

  lemma {:induction false} SharesSum(p: Place, total: real, n: nat)
    requires |p.initial| <= n && n >= 1
    ensures ShareSum(p, total, n) == total
  {
    var declared := IntSum(p.initial);
    if declared == 0 {
      FirstTakesAll(p, total, n);
    } else {
      SumOfShares(p, total, n);
      PrefixSum(p.initial, n);
      ShareOfDeclared(total, declared);
    }
  }

  /** Sum of the shares of the first `n` colours. */
  function ShareSum(p: Place, total: real, n: nat): real
  {
    if n == 0 then 0.0 else ShareSum(p, total, n - 1) + Share(p, total, n - 1)
  }

  lemma {:induction false} FirstTakesAll(p: Place, total: real, n: nat)
    requires IntSum(p.initial) == 0 && n >= 1
    ensures ShareSum(p, total, n) == total
  {
    if n > 1 { FirstTakesAll(p, total, n - 1); }
  }

  function AtSum(v: seq<int>, n: nat): int
  {
    if n == 0 then 0 else AtSum(v, n - 1) + At(v, n - 1)
  }

  lemma {:induction false} PrefixSum(v: seq<int>, n: nat)
    ensures n >= |v| ==> AtSum(v, n) == IntSum(v)
    ensures n <= |v| ==> AtSum(v, n) == IntSum(v[..n])
  {
    if n > 0 {
      PrefixSum(v, n - 1);
      if n <= |v| { assert v[..n][..n - 1] == v[..n - 1]; }
      if n == |v| { assert v[..n] == v; }
    } else {
      assert v[..0] == [];
    }
  }

  lemma {:induction false} SumOfShares(p: Place, total: real, n: nat)
    requires IntSum(p.initial) != 0
    ensures ShareSum(p, total, n) == ShareOf(total, AtSum(p.initial, n), IntSum(p.initial))
  {
    hide ShareOf, IntSum;
    if n == 0 {
      ShareIsLinear(total, 0, 0, IntSum(p.initial));
    } else {
      SumOfShares(p, total, n - 1);
      ShareIsLinear(total, AtSum(p.initial, n - 1), At(p.initial, n - 1), IntSum(p.initial));
    }
  }

  lemma ShareIsLinear(total: real, a: int, b: int, declared: int)
    requires declared != 0
    ensures ShareOf(total, a + b, declared) == ShareOf(total, a, declared) + ShareOf(total, b, declared)
    ensures ShareOf(total, 0, declared) == 0.0
  {
    var x, y, d := total * a as real, total * b as real, declared as real;
    assert total * (a + b) as real == x + y;
    assert (x + y) / d == x / d + y / d;
    assert total * 0.0 == 0.0;
  }

  lemma ShareOfDeclared(total: real, declared: int)
    requires declared != 0
    ensures ShareOf(total, declared, declared) == total
  {
  }

  /**
   * expandState(net, setState(net)) is the declared vector of every place, componentwise, exactly when every declared
   * vector with a zero sum is zero throughout.
   */
  lemma {:induction false} ExpandOfDeclaredState(net: Net, cm: ColorMap, keys: seq<string>, state: State)
    requires Maps(net, cm) && SafeNames(cm.colors) && Distinct(keys) && forall k :: k in keys <==> k in state
    requires forall p :: p in state <==> p in net.place
    requires forall p :: p in net.place ==> state[p] == IntSum(net.place[p].initial) as real
    ensures var out := Expanded(net, cm, keys, state, |keys|);
      && (forall k :: k in out <==> exists p :: p in net.place && k in cm.expanded[p])
      && ((forall p, i :: p in net.place && 0 <= i < |cm.colors| ==>
             out[cm.expanded[p][i]] == At(net.place[p].initial, i) as real)
          <==> forall p :: p in net.place ==> HasProportions(net.place[p]))
  {
    var out := Expanded(net, cm, keys, state, |keys|);
    NamesDifferOf(net, cm);
    ExpandedDomain(net, cm, keys, state, |keys|);
    assert keys[..|keys|] == keys;
    assert forall p :: p in net.place ==> p in cm.expanded && |cm.expanded[p]| == |cm.colors|;
    var c := |cm.colors|;
    assert forall p :: p in net.place ==> |net.place[p].initial| <= c && c >= 1;
    hide *;
    forall p, i | p in net.place && 0 <= i < c
      ensures cm.expanded[p][i] in out
      ensures out[cm.expanded[p][i]] == Share(net.place[p], IntSum(net.place[p].initial) as real, i)
    {
      assert p in keys;
      ExpandedValue(net, cm, keys, state, |keys|, p, i);
    }
    forall p | p in net.place
      ensures (forall i: nat :: i < c ==> out[cm.expanded[p][i]] == At(net.place[p].initial, i) as real)
        <==> HasProportions(net.place[p])
    {
      DeclaredShares(net.place[p], c);
    }
  }

  lemma {:induction false} NonNegativeSum(v: seq<int>, i: nat)
    requires i < |v| && forall k :: 0 <= k < |v| ==> v[k] >= 0
    ensures IntSum(v) >= v[i]
  {
    var front := v[..|v| - 1];
    assert forall k :: 0 <= k < |front| ==> front[k] == v[k];
    if i < |v| - 1 {
      NonNegativeSum(front, i);
    } else if front != [] {
      NonNegativeSum(front, 0);
    }
  }

  /** Declared vectors of tokens, which are never negative, always come back. */
  lemma TokensComeBack(net: Net, cm: ColorMap, keys: seq<string>, state: State)
    requires Maps(net, cm) && SafeNames(cm.colors) && Distinct(keys) && forall k :: k in keys <==> k in state
    requires forall p :: p in state <==> p in net.place
    requires forall p :: p in net.place ==> state[p] == IntSum(net.place[p].initial) as real
    requires forall p, i :: p in net.place && 0 <= i < |net.place[p].initial| ==> net.place[p].initial[i] >= 0
    ensures var out := Expanded(net, cm, keys, state, |keys|);
      && (forall k :: k in out <==> exists p :: p in net.place && k in cm.expanded[p])
      && forall p, i :: p in net.place && 0 <= i < |cm.colors| ==>
           out[cm.expanded[p][i]] == At(net.place[p].initial, i) as real
  {
    forall p | p in net.place
      ensures HasProportions(net.place[p])
    {
      var v := net.place[p].initial;
      forall i | 0 <= i < |v|
        ensures v[i] <= IntSum(v)
      {
        NonNegativeSum(v, i);
      }
    }
    ExpandOfDeclaredState(net, cm, keys, state);
  }

  lemma SafeLetters()
    ensures SafeNames(["x", "y"])
  {
    assert forall i: nat, j: nat, k: nat, x :: !EndsDotted(["x", "y"], i, j, k, x);
  }

  /** Declared tokens 1 and -1 have the total 0, and come back as 0 and 0. */
  method OpposedTokensAreLost() returns (net: Net, state: State, out: State, cm: Option<ColorMap>)
    ensures ValidNet(net) && net.place == map["p" := Place([1, -1], [])] && state == map["p" := 0.0]
    ensures cm.Some? && Maps(net, cm.value) && out == Expanded(net, cm.value, ["p"], state, 1)
    ensures "p" in cm.value.expanded && |cm.value.expanded["p"]| == 2
    ensures forall i :: 0 <= i < 2 ==> cm.value.expanded["p"][i] in out && out[cm.value.expanded["p"][i]] == 0.0
  {
    hide SafeNames;
    var p := Place([1, -1], []);
    net := Net(["x", "y"], ["p"], map["p" := p], [], []);
    assert net.order[0] == "p";
    state := SetState(net, map[]);
    assert IntSum([1, -1]) == 0 by { assert [1, -1][..1] == [1] && [1][..0] == []; }
    var keys := ["p"];
    assert keys[0] == "p" && keys[..1] == keys;
    assert !exists c :: IsColorCount(net, c) && c <= 1;
    out, cm := ExpandState(net, keys, state);
    var names := cm.value.expanded["p"];
    assert CoversAllVectors(net, 2);
    assert |cm.value.colors| == 2;
    assert cm.value.colors == ["x", "y"];
    SafeLetters();
    NamesDifferOf(net, cm.value);
    hide *;
    forall i | 0 <= i < 2
      ensures names[i] in out && out[names[i]] == 0.0
    {
      ExpandedValue(net, cm.value, keys, state, 1, "p", i);
    }
  }

  // ---- Summing again ------------------------------------------------------------------------------------

  /** The base place of a name; a name that is not expanded stands for itself. */
  function BaseOf(cm: ColorMap, name: string): string
  {
    if name in cm.base then cm.base[name].place else name
  }

  function BaseSum(cm: ColorMap, keys: seq<string>, state: State, p: string, n: nat): real
    requires n <= |keys| && forall k :: k in keys ==> k in state
  {
    if n == 0 then 0.0
    else
      assert keys[n - 1] in keys;
      BaseSum(cm, keys, state, p, n - 1) + if BaseOf(cm, keys[n - 1]) == p then state[keys[n - 1]] else 0.0
  }

  /** `ColorMap.sumByBase` */
  method SumByBase(cm: ColorMap, keys: seq<string>, state: State) returns (out: State)
    requires Distinct(keys) && forall k :: k in keys <==> k in state
    ensures forall p :: p in out <==> exists k :: k in state && BaseOf(cm, k) == p
    ensures forall p :: p in out ==> out[p] == BaseSum(cm, keys, state, p, |keys|)
  {
    out := map[];
    hide BaseOf;
    for n := 0 to |keys|
      invariant forall p :: p in out <==> exists i :: 0 <= i < n && BaseOf(cm, keys[i]) == p
      invariant forall p :: (if p in out then out[p] else 0.0) == BaseSum(cm, keys, state, p, n)
    {
      var name := keys[n];
      assert name in keys;
      var key := BaseOf(cm, name);
      out := out[key := (if key in out then out[key] else 0.0) + state[name]];
    }
    forall p
      ensures p in out <==> exists k :: k in state && BaseOf(cm, k) == p
    {
      if p in out {
        var i :| 0 <= i < |keys| && BaseOf(cm, keys[i]) == p;
        assert keys[i] in keys;
      }
      if k :| k in state && BaseOf(cm, k) == p {
        var i :| 0 <= i < |keys| && keys[i] == k;
      }
    }
  }

  /** The entries of the first `c` colours of `p` among the first `n` keys. */
  function ColorSum(cm: ColorMap, keys: seq<string>, state: State, p: string, c: nat, n: nat): real
    requires n <= |keys| && forall k :: k in keys ==> k in state
  {
    if n == 0 then 0.0
    else
      var k := keys[n - 1];
      assert k in keys;
      ColorSum(cm, keys, state, p, c, n - 1)
      + if k in cm.base && cm.base[k].place == p && cm.base[k].color < c then state[k] else 0.0
  }

  function NameSum(keys: seq<string>, state: State, name: string, n: nat): real
    requires n <= |keys| && forall k :: k in keys ==> k in state
  {
    if n == 0 then 0.0
    else
      assert keys[n - 1] in keys;
      NameSum(keys, state, name, n - 1) + if keys[n - 1] == name then state[name] else 0.0
  }

  lemma {:induction false} NameOccursOnce(keys: seq<string>, state: State, name: string, n: nat)
    requires n <= |keys| && Distinct(keys) && forall k :: k in keys ==> k in state
    ensures NameSum(keys, state, name, n) == if name in keys[..n] then state[name] else 0.0
  {
    if n > 0 {
      NameOccursOnce(keys, state, name, n - 1);
      assert keys[..n] == keys[..n - 1] + [keys[n - 1]];
    }
  }

  lemma {:induction false} NoColors(cm: ColorMap, keys: seq<string>, state: State, p: string, n: nat)
    requires n <= |keys| && forall k :: k in keys ==> k in state
    ensures ColorSum(cm, keys, state, p, 0, n) == 0.0
  {
    if n > 0 { NoColors(cm, keys, state, p, n - 1); }
  }

  lemma {:induction false} OneMoreColor(net: Net, cm: ColorMap, keys: seq<string>, state: State, p: string, c: nat, n: nat)
    requires Maps(net, cm) && SafeNames(cm.colors) && p in net.place && c < |cm.colors|
    requires n <= |keys| && forall k :: k in keys ==> k in state
    ensures ColorSum(cm, keys, state, p, c + 1, n)
         == ColorSum(cm, keys, state, p, c, n) + NameSum(keys, state, cm.expanded[p][c], n)
  {
    if n > 0 {
      OneMoreColor(net, cm, keys, state, p, c, n - 1);
      var k := keys[n - 1];
      if k in cm.base {
        var q, j :| q in net.place && 0 <= j < |cm.colors| && cm.expanded[q][j] == k;
        assert cm.base[k] == ColorRef(q, j);
      }
      assert k == cm.expanded[p][c] <==> k in cm.base && cm.base[k] == ColorRef(p, c);
    }
  }

  lemma {:induction false} AllColors(net: Net, cm: ColorMap, keys: seq<string>, state: State, p: string, n: nat)
    requires Maps(net, cm) && SafeNames(cm.colors) && p in net.place && n <= |keys| && forall k :: k in keys ==> k in state
    requires forall k :: k in keys ==> k in cm.base
    ensures BaseSum(cm, keys, state, p, n) == ColorSum(cm, keys, state, p, |cm.colors|, n)
  {
    if n > 0 {
      AllColors(net, cm, keys, state, p, n - 1);
      var k := keys[n - 1];
      assert k in keys;
      var q, j :| q in net.place && 0 <= j < |cm.colors| && cm.expanded[q][j] == k;
      assert cm.base[k] == ColorRef(q, j);
    }
  }

  lemma {:induction false} ColorsSumToShares(net: Net, cm: ColorMap, keys: seq<string>, out: State, p: string, total: real, c: nat)
    requires Maps(net, cm) && SafeNames(cm.colors) && p in net.place && c <= |cm.colors|
    requires Distinct(keys) && forall k :: k in keys <==> k in out
    requires forall i :: 0 <= i < |cm.colors| ==>
      cm.expanded[p][i] in out && out[cm.expanded[p][i]] == Share(net.place[p], total, i)
    ensures ColorSum(cm, keys, out, p, c, |keys|) == ShareSum(net.place[p], total, c)
  {
    if c == 0 {
      NoColors(cm, keys, out, p, |keys|);
    } else {
      ColorsSumToShares(net, cm, keys, out, p, total, c - 1);
      OneMoreColor(net, cm, keys, out, p, c - 1, |keys|);
      NameOccursOnce(keys, out, cm.expanded[p][c - 1], |keys|);
      assert keys[..|keys|] == keys;
      hide Share, Maps, SafeNames;
    }
  }

  /** sumByBase(expandState(net, s)) = s for a state keyed by places, in whatever order the entries are visited. */
  lemma {:induction false} SumOfExpanded(net: Net, cm: ColorMap, keys: seq<string>, state: State, keys': seq<string>)
    requires Maps(net, cm) && SafeNames(cm.colors) && Distinct(keys) && Distinct(keys')
    requires (forall k :: k in keys <==> k in state) && forall k :: k in state ==> k in net.place
    requires forall k :: k in keys' <==> k in Expanded(net, cm, keys, state, |keys|)
    ensures forall p :: p in state ==>
      BaseSum(cm, keys', Expanded(net, cm, keys, state, |keys|), p, |keys'|) == state[p]
    ensures forall p :: p in state ==> exists k :: k in keys' && BaseOf(cm, k) == p
    ensures forall k :: k in keys' ==> BaseOf(cm, k) in state
  {
    ExpandedBases(net, cm, keys, state);
    var out := Expanded(net, cm, keys, state, |keys|);
    assert forall k :: k in keys' ==> k in out;
    hide *;
    forall p | p in state
      ensures BaseSum(cm, keys', out, p, |keys'|) == state[p]
    {
      TotalRestored(net, cm, keys, state, keys', p);
    }
  }

  /** The names of an expanded base-keyed state stand for the places of the state, all of them. */
  lemma {:induction false} ExpandedBases(net: Net, cm: ColorMap, keys: seq<string>, state: State)
    requires Maps(net, cm) && SafeNames(cm.colors)
    requires (forall k :: k in keys <==> k in state) && forall k :: k in state ==> k in net.place
    ensures forall k :: k in Expanded(net, cm, keys, state, |keys|) ==> k in cm.base && BaseOf(cm, k) in state
    ensures forall p :: p in state ==>
      exists k :: k in Expanded(net, cm, keys, state, |keys|) && BaseOf(cm, k) == p
  {
    var out := Expanded(net, cm, keys, state, |keys|);
    ExpandedDomain(net, cm, keys, state, |keys|);
    assert keys[..|keys|] == keys;
    hide Expanded, SafeNames;
    forall k | k in out
      ensures k in cm.base && BaseOf(cm, k) in state
    {
      var p :| p in keys && p in cm.expanded && k in cm.expanded[p];
      var i :| 0 <= i < |cm.expanded[p]| && cm.expanded[p][i] == k;
      assert cm.base[cm.expanded[p][i]] == ColorRef(p, i);
    }
    forall p | p in state
      ensures exists k :: k in out && BaseOf(cm, k) == p
    {
      assert p in keys && p in net.place;
      var k := cm.expanded[p][0];
      assert cm.base[cm.expanded[p][0]] == ColorRef(p, 0);
      assert k in out && BaseOf(cm, k) == p;
    }
  }

  lemma {:induction false} TotalRestored(net: Net, cm: ColorMap, keys: seq<string>, state: State, keys': seq<string>, p: string)
    requires Maps(net, cm) && SafeNames(cm.colors) && Distinct(keys) && Distinct(keys')
    requires (forall k :: k in keys <==> k in state) && forall k :: k in state ==> k in net.place
    requires (forall k :: k in keys' <==> k in Expanded(net, cm, keys, state, |keys|)) && p in state
    ensures BaseSum(cm, keys', Expanded(net, cm, keys, state, |keys|), p, |keys'|) == state[p]
  {
    var out := Expanded(net, cm, keys, state, |keys|);
    var c := |cm.colors|;
    ExpandedBases(net, cm, keys, state);
    NamesDifferOf(net, cm);
    assert keys[..|keys|] == keys && p in net.place && p in cm.expanded && |cm.expanded[p]| == c;
    assert c >= 1 && |net.place[p].initial| <= c;
    hide *;
    forall i | 0 <= i < c
      ensures cm.expanded[p][i] in out && out[cm.expanded[p][i]] == Share(net.place[p], state[p], i)
    {
      assert p in keys;
      ExpandedValue(net, cm, keys, state, |keys|, p, i);
    }
    AllColors(net, cm, keys', out, p, |keys'|);
    ColorsSumToShares(net, cm, keys', out, p, state[p], c);
    SharesSum(net.place[p], state[p], c);
  }
}
