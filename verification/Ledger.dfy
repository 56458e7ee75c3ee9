/** Conservation in the token and vault templates of erc/combined.go and erc/erc04626.go under executeWithBindings. */
module Ledger {
  import opened Wrappers
  import opened DataMaps
  import opened Runtime

  // ---- Measures of a store ----------------------------------------------------------------------------

  /** The tokens of a place, the total of a map place, the total of one row of a nested map place, or one entry. */
  datatype Measure = Scalar(place: string) | Sum(place: string) | Row(place: string, key: string) | Entry(place: string, key: string)

  ghost function Value(m: Measure, s: Store): int
  {
    match m
    case Scalar(p) => Get(s.tokens, p)
    case Sum(p) => TotalOf(DataAt(s.data, p))
    case Row(p, k) => RowTotal(RowOf(DataAt(s.data, p), k))
    case Entry(p, k) => EntryOf(DataAt(s.data, p), k)
  }

  /** The measured place is declared and of the right kind. */
  predicate Declared(model: Model, m: Measure)
  {
    var p := PlaceByID(model.places, m.place);
    p.Some? && p.value.isMap == !m.Scalar?
  }

  /** The arc has the keys that the measure expects, all bound to non-empty texts. */
  predicate Keyed(m: Measure, b: Bindings, arc: Arc)
  {
    m.Scalar? || (|arc.keys| == (if m.Row? then 2 else 1) && forall i :: 0 <= i < |arc.keys| ==> TextOf(b, arc.keys[i]) != "")
  }

  /** By how much an arc on place `id` changes the measure. */
  function Change(m: Measure, b: Bindings, id: string, arc: Arc, sign: int): int
  {
    if id != m.place then 0
    else
      match m
      case Scalar(_) => sign * ArcWeight(arc, b)
      case Sum(_) => sign * DataAmount(arc, b)
      case Row(_, k) => if arc.keys != [] && TextOf(b, arc.keys[0]) == k then sign * DataAmount(arc, b) else 0
      case Entry(_, k) => if arc.keys != [] && TextOf(b, arc.keys[0]) == k then sign * DataAmount(arc, b) else 0
  }

  lemma ApplyChanges(model: Model, m: Measure, b: Bindings, s: Store, id: string, arc: Arc, sign: int)
    requires Declared(model, m) && (id == m.place ==> Keyed(m, b, arc))
    ensures Value(m, ApplyArc(model, b, s, id, arc, sign)) == Value(m, s) + Change(m, b, id, arc, sign)
  {
    var d, delta := DataAt(s.data, m.place), sign * DataAmount(arc, b);
    hide ArcWeight, DataAmount, TotalOf, RowTotal, AddTo, EntryOf, RowOf, PlaceByID;
    if id == m.place && !m.Scalar? {
      var key := TextOf(b, arc.keys[0]);
      if m.Row? {
        assert KeyTexts(arc, b) == [key, TextOf(b, arc.keys[1])];
        RowAfter(d, key, TextOf(b, arc.keys[1]), delta);
      } else {
        assert KeyTexts(arc, b) == [key];
        TotalAfter(d, key, delta);
      }
    }
  }

  /** What the arcs of `arcs` take from the measure when `t` fires. */
  function Taken(model: Model, t: string, b: Bindings, m: Measure, arcs: seq<Arc>): int
  {
    if arcs == [] then 0
    else
      var arc := arcs[|arcs| - 1];
      Taken(model, t, b, m, arcs[..|arcs| - 1])
      + if arc.target == t && !OnlyRead(model, t, arc) then Change(m, b, arc.source, arc, -1) else 0
  }

  function Given(model: Model, t: string, b: Bindings, m: Measure, arcs: seq<Arc>): int
  {
    if arcs == [] then 0
    else
      var arc := arcs[|arcs| - 1];
      Given(model, t, b, m, arcs[..|arcs| - 1]) + if arc.source == t then Change(m, b, arc.target, arc, 1) else 0
  }

  function Moved(model: Model, t: string, b: Bindings, m: Measure, arcs: seq<Arc>): int
  {
    Taken(model, t, b, m, arcs) + Given(model, t, b, m, arcs)
  }

  /** Every arc between the action and the measured place has the keys that the measure expects, all bound. */
  ghost predicate AllKeyed(model: Model, t: string, m: Measure, b: Bindings)
  {
    forall i :: 0 <= i < |model.arcs| ==>
      var arc := model.arcs[i];
      (arc.source == m.place && arc.target == t) || (arc.target == m.place && arc.source == t) ==> Keyed(m, b, arc)
  }

  lemma {:induction false} ConsumedTakes(model: Model, t: string, b: Bindings, m: Measure, s: Store, n: nat)
    requires Declared(model, m) && AllKeyed(model, t, m, b) && n <= |model.arcs|
    ensures Value(m, Consumed(model, t, b, s, n)) == Value(m, s) + Taken(model, t, b, m, model.arcs[..n])
  {
    hide Value, Change, ApplyArc, OnlyRead, Declared, Keyed;
    if n == 0 {
      assert model.arcs[..0] == [];
    } else {
      ConsumedTakes(model, t, b, m, s, n - 1);
      var arc := model.arcs[n - 1];
      assert model.arcs[..n][..n - 1] == model.arcs[..n - 1];
      if arc.target == t { ApplyChanges(model, m, b, Consumed(model, t, b, s, n - 1), arc.source, arc, -1); }
    }
  }

  lemma {:induction false} ProducedGives(model: Model, t: string, b: Bindings, m: Measure, s: Store, n: nat)
    requires Declared(model, m) && AllKeyed(model, t, m, b) && n <= |model.arcs|
    ensures Value(m, Produced(model, t, b, s, n)) == Value(m, s) + Given(model, t, b, m, model.arcs[..n])
  {
    hide Value, Change, ApplyArc, Declared, Keyed;
    if n == 0 {
      assert model.arcs[..0] == [];
    } else {
      ProducedGives(model, t, b, m, s, n - 1);
      var arc := model.arcs[n - 1];
      assert model.arcs[..n][..n - 1] == model.arcs[..n - 1];
      if arc.source == t { ApplyChanges(model, m, b, Produced(model, t, b, s, n - 1), arc.target, arc, 1); }
    }
  }

  /** The state equation: an execution changes a measure by an amount that depends on the action and bindings alone. */
  lemma ExecutionMoves(model: Model, t: string, b: Bindings, m: Measure, s: Store)
    requires Declared(model, m) && AllKeyed(model, t, m, b)
    ensures Value(m, Executed(model, t, b, s)) == Value(m, s) + Moved(model, t, b, m, model.arcs)
  {
    var n := |model.arcs|;
    ConsumedTakes(model, t, b, m, s, n);
    ProducedGives(model, t, b, m, Consumed(model, t, b, s, n), n);
    assert model.arcs[..n] == model.arcs;
  }

  // ---- Runs -----------------------------------------------------------------------------------------------

  datatype Call = Call(action: string, bindings: Bindings)

  /** The store after a run of executions, if every action was enabled when it was executed. */
  function Run(model: Model, s: Store, calls: seq<Call>): Option<Store>
  {
    if calls == [] then Some(s)
    else
      var r, c := Run(model, s, calls[..|calls| - 1]), calls[|calls| - 1];
      if r.Some? && Enabled(model, r.value.tokens, c.action) then Some(Executed(model, c.action, c.bindings, r.value))
      else None
  }

  /** By how much arcs change m1 - sign * m2. */
  function Gap(model: Model, t: string, b: Bindings, sign: int, m1: Measure, m2: Measure, arcs: seq<Arc>): int
  {
    Moved(model, t, b, m1, arcs) - sign * Moved(model, t, b, m2, arcs)
  }

  function GapOverRun(model: Model, sign: int, m1: Measure, m2: Measure, calls: seq<Call>): int
  {
    if calls == [] then 0
    else
      var c := calls[|calls| - 1];
      GapOverRun(model, sign, m1, m2, calls[..|calls| - 1]) + Gap(model, c.action, c.bindings, sign, m1, m2, model.arcs)
  }

  /** Every call binds the keys of its arcs on the measured places to non-empty texts. */
  ghost predicate KeysBound(model: Model, m1: Measure, m2: Measure, calls: seq<Call>)
  {
    forall i :: 0 <= i < |calls| ==>
      var c := calls[i];
      AllKeyed(model, c.action, m1, c.bindings) && AllKeyed(model, c.action, m2, c.bindings)
  }

  /** m1 - sign * m2 changes over a run by the gaps of its calls. */
  lemma {:induction false} GapsAddUp(model: Model, sign: int, m1: Measure, m2: Measure, s: Store, calls: seq<Call>)
    requires sign == 1 || sign == -1
    requires Declared(model, m1) && Declared(model, m2) && KeysBound(model, m1, m2, calls) && Run(model, s, calls).Some?
    ensures var end := Run(model, s, calls).value;
      Value(m1, end) - sign * Value(m2, end)
      == Value(m1, s) - sign * Value(m2, s) + GapOverRun(model, sign, m1, m2, calls)
  {
    if calls != [] {
      var n := |calls| - 1;
      var r, c := Run(model, s, calls[..n]).value, calls[n];
      GapsAddUp(model, sign, m1, m2, s, calls[..n]);
      hide Enabled, Executed, Value, Declared, AllKeyed, Moved;
      ExecutionMoves(model, c.action, c.bindings, m1, r);
      ExecutionMoves(model, c.action, c.bindings, m2, r);
    }
  }

  // ---- Movements block by block -----------------------------------------------------------------------------

  lemma {:induction false} MovedConcat(model: Model, t: string, b: Bindings, m: Measure, x: seq<Arc>, y: seq<Arc>)
    ensures Moved(model, t, b, m, x + y) == Moved(model, t, b, m, x) + Moved(model, t, b, m, y)
  {
    hide Change, OnlyRead;
    if y == [] {
      assert x + y == x;
    } else {
      MovedConcat(model, t, b, m, x, y[..|y| - 1]);
      assert (x + y)[..|x + y| - 1] == x + y[..|y| - 1];
    }
  }

  ghost predicate Untouching(arcs: seq<Arc>, place: string)
  {
    forall i :: 0 <= i < |arcs| ==> arcs[i].source != place && arcs[i].target != place
  }

  lemma {:induction false} NothingMoved(model: Model, t: string, b: Bindings, m: Measure, arcs: seq<Arc>)
    requires Untouching(arcs, m.place)
    ensures Moved(model, t, b, m, arcs) == 0
  {
    hide OnlyRead;
    if arcs != [] { NothingMoved(model, t, b, m, arcs[..|arcs| - 1]); }
  }

  lemma MovedOne(model: Model, t: string, b: Bindings, m: Measure, arc: Arc)
    ensures Moved(model, t, b, m, [arc]) ==
      (if arc.target == t && !OnlyRead(model, t, arc) then Change(m, b, arc.source, arc, -1) else 0)
      + (if arc.source == t then Change(m, b, arc.target, arc, 1) else 0)
  {
    hide Change, OnlyRead;
    var arcs := [arc];
    assert arcs[..|arcs| - 1] == [] && arcs[|arcs| - 1] == arc;
    assert Taken(model, t, b, m, []) == 0 && Given(model, t, b, m, []) == 0;
  }

  /** A value name that is read from the bindings. */
  predicate Named(arc: Arc)
  {
    arc.value != "" && !IsNumeral(arc.value)
  }

  /** The amount that the arc moves in the measure. */
  function Share(m: Measure, b: Bindings, arc: Arc): int
  {
    match m
    case Scalar(_) => NumberOf(b, arc.value)
    case Sum(_) => NumberOf(b, arc.value)
    case Row(_, k) => if arc.keys != [] && TextOf(b, arc.keys[0]) == k then NumberOf(b, arc.value) else 0
    case Entry(_, k) => if arc.keys != [] && TextOf(b, arc.keys[0]) == k then NumberOf(b, arc.value) else 0
  }

  lemma ChangeIsShare(m: Measure, b: Bindings, arc: Arc, sign: int)
    requires Named(arc)
    ensures Change(m, b, m.place, arc, sign) == sign * Share(m, b, arc)
  {
  }

  lemma InputMoves(model: Model, t: string, b: Bindings, m: Measure, arc: Arc)
    requires arc.source == m.place && arc.target != m.place && Named(arc)
    ensures Moved(model, t, b, m, [arc]) == if arc.target == t && !OnlyRead(model, t, arc) then -Share(m, b, arc) else 0
  {
    MovedOne(model, t, b, m, arc);
    ChangeIsShare(m, b, arc, -1);
    hide OnlyRead, Moved, Share, Named;
  }

  lemma OutputMoves(model: Model, t: string, b: Bindings, m: Measure, arc: Arc)
    requires arc.target == m.place && arc.source != m.place && Named(arc)
    ensures Moved(model, t, b, m, [arc]) == if arc.source == t then Share(m, b, arc) else 0
  {
    MovedOne(model, t, b, m, arc);
    ChangeIsShare(m, b, arc, 1);
    hide OnlyRead, Moved, Share, Named;
  }

  lemma Elsewhere(model: Model, t: string, b: Bindings, m: Measure, arc: Arc)
    requires arc.source != m.place && arc.target != m.place
    ensures Moved(model, t, b, m, [arc]) == 0
  {
    NothingMoved(model, t, b, m, [arc]);
  }

  lemma {:induction false} GapOfPrefix(model: Model, t: string, b: Bindings, sign: int, m1: Measure, m2: Measure,
                                       arcs: seq<Arc>, i: nat, j: nat, n: nat)
    requires n <= |arcs| && i < j < |arcs|
    requires forall k :: 0 <= k < |arcs| && k != i && k != j ==>
      Untouching([arcs[k]], m1.place) && Untouching([arcs[k]], m2.place)
    ensures Gap(model, t, b, sign, m1, m2, arcs[..n])
         == (if i < n then Gap(model, t, b, sign, m1, m2, [arcs[i]]) else 0)
          + (if j < n then Gap(model, t, b, sign, m1, m2, [arcs[j]]) else 0)
  {
    if n == 0 {
      assert Untouching(arcs[..0], m1.place) && Untouching(arcs[..0], m2.place);
      hide *;
      UntouchedBlock(model, t, b, sign, m1, m2, arcs[..0]);
    } else {
      hide *;
      GapOfPrefix(model, t, b, sign, m1, m2, arcs, i, j, n - 1);
      assert arcs[..n] == arcs[..n - 1] + [arcs[n - 1]];
      GapConcat(model, t, b, sign, m1, m2, arcs[..n - 1], [arcs[n - 1]]);
      if n - 1 != i && n - 1 != j { UntouchedBlock(model, t, b, sign, m1, m2, [arcs[n - 1]]); }
    }
  }

  /** The gap of a block is the gap of its two arcs on the measured places. */
  lemma GapOfBlock(model: Model, t: string, b: Bindings, sign: int, m1: Measure, m2: Measure, arcs: seq<Arc>, i: nat, j: nat)
    requires i < j < |arcs|
    requires forall k :: 0 <= k < |arcs| && k != i && k != j ==>
      Untouching([arcs[k]], m1.place) && Untouching([arcs[k]], m2.place)
    ensures Gap(model, t, b, sign, m1, m2, arcs)
         == Gap(model, t, b, sign, m1, m2, [arcs[i]]) + Gap(model, t, b, sign, m1, m2, [arcs[j]])
  {
    GapOfPrefix(model, t, b, sign, m1, m2, arcs, i, j, |arcs|);
    assert arcs[..|arcs|] == arcs;
    hide Gap;
  }

  /** Both arcs take from (or both give to) the two places when the same action fires. */
  ghost predicate SameWay(m1: Measure, a1: Arc, m2: Measure, a2: Arc)
  {
    || (a1.source == m1.place && a2.source == m2.place && a1.target == a2.target != m1.place && a1.target != m2.place)
    || (a1.target == m1.place && a2.target == m2.place && a1.source == a2.source != m1.place && a1.source != m2.place)
  }

  ghost predicate OppositeWay(m1: Measure, a1: Arc, m2: Measure, a2: Arc)
  {
    || (a1.source == m1.place && a2.target == m2.place && a1.target == a2.source != m1.place && a1.target != m2.place)
    || (a1.target == m1.place && a2.source == m2.place && a1.source == a2.target != m1.place && a1.source != m2.place)
  }

  /** Two arcs on the two places that carry the same amount for the same action leave no gap. */
  lemma PairedArcs(model: Model, t: string, b: Bindings, sign: int, m1: Measure, m2: Measure, a1: Arc, a2: Arc)
    requires m1.place != m2.place && Named(a1) && Named(a2) && Share(m1, b, a1) == Share(m2, b, a2)
    requires (sign == 1 && SameWay(m1, a1, m2, a2)) || (sign == -1 && OppositeWay(m1, a1, m2, a2))
    requires a1.source == m1.place && a1.target == t ==> !OnlyRead(model, t, a1)
    requires a2.source == m2.place && a2.target == t ==> !OnlyRead(model, t, a2)
    ensures Gap(model, t, b, sign, m1, m2, [a1]) + Gap(model, t, b, sign, m1, m2, [a2]) == 0
  {
    hide Moved, OnlyRead, Share, Named;
    if a1.source == m1.place { InputMoves(model, t, b, m1, a1); } else { OutputMoves(model, t, b, m1, a1); }
    if a2.source == m2.place { InputMoves(model, t, b, m2, a2); } else { OutputMoves(model, t, b, m2, a2); }
    Elsewhere(model, t, b, m2, a1);
    Elsewhere(model, t, b, m1, a2);
  }

  lemma PairedBlock(model: Model, t: string, b: Bindings, sign: int, m1: Measure, m2: Measure, arcs: seq<Arc>, i: nat, j: nat)
    requires i < |arcs| && j < |arcs| && i != j
    requires forall k :: 0 <= k < |arcs| && k != i && k != j ==>
      Untouching([arcs[k]], m1.place) && Untouching([arcs[k]], m2.place)
    requires m1.place != m2.place && Named(arcs[i]) && Named(arcs[j]) && Share(m1, b, arcs[i]) == Share(m2, b, arcs[j])
    requires (sign == 1 && SameWay(m1, arcs[i], m2, arcs[j])) || (sign == -1 && OppositeWay(m1, arcs[i], m2, arcs[j]))
    requires arcs[i].source == m1.place && arcs[i].target == t ==> !OnlyRead(model, t, arcs[i])
    requires arcs[j].source == m2.place && arcs[j].target == t ==> !OnlyRead(model, t, arcs[j])
    ensures Gap(model, t, b, sign, m1, m2, arcs) == 0
  {
    hide Gap, OnlyRead, Share, Named, SameWay, OppositeWay, Untouching;
    PairedArcs(model, t, b, sign, m1, m2, arcs[i], arcs[j]);
    if i < j {
      GapOfBlock(model, t, b, sign, m1, m2, arcs, i, j);
    } else {
      GapOfBlock(model, t, b, sign, m1, m2, arcs, j, i);
    }
  }

  lemma UntouchedBlock(model: Model, t: string, b: Bindings, sign: int, m1: Measure, m2: Measure, arcs: seq<Arc>)
    requires Untouching(arcs, m1.place) && Untouching(arcs, m2.place)
    ensures Gap(model, t, b, sign, m1, m2, arcs) == 0
  {
    NothingMoved(model, t, b, m1, arcs);
    NothingMoved(model, t, b, m2, arcs);
    hide Moved;
  }

  lemma GapConcat(model: Model, t: string, b: Bindings, sign: int, m1: Measure, m2: Measure, x: seq<Arc>, y: seq<Arc>)
    ensures Gap(model, t, b, sign, m1, m2, x + y) == Gap(model, t, b, sign, m1, m2, x) + Gap(model, t, b, sign, m1, m2, y)
  {
    MovedConcat(model, t, b, m1, x, y);
    MovedConcat(model, t, b, m2, x, y);
    hide Moved;
  }

  /** The places that arcs of these actions give to. */
  ghost predicate GivenBy(arcs: seq<Arc>, place: string, actions: set<string>)
  {
    forall i :: 0 <= i < |arcs| && arcs[i].target == place ==> arcs[i].source in actions
  }

  /** No arc leads to a place with a bar in its name. */
  ghost predicate PlainTargets(arcs: seq<Arc>)
  {
    forall i :: 0 <= i < |arcs| ==> Lacks(arcs[i].target, '|')
  }

  /** An action that gives nothing to a place does not merely read it. */
  lemma NotOnlyRead(model: Model, t: string, arc: Arc, actions: set<string>)
    requires GivenBy(model.arcs, arc.source, actions) && t !in actions
    requires PlainTargets(model.arcs) && Lacks(arc.source, '|')
    ensures !OnlyRead(model, t, arc)
  {
    hide IsMapPlace, ArcText, Lacks;
    forall i | 0 <= i < |model.arcs| && model.arcs[i].source == t
      ensures ArcText(model.arcs[i].target, model.arcs[i].keys) != ArcText(arc.source, arc.keys)
    {
      if ArcText(model.arcs[i].target, model.arcs[i].keys) == ArcText(arc.source, arc.keys) {
        SameTextSamePlace(model.arcs[i].target, model.arcs[i].keys, arc.source, arc.keys);
      }
    }
  }

  lemma GivenByConcat(x: seq<Arc>, y: seq<Arc>, place: string, actions: set<string>)
    requires GivenBy(x, place, actions) && GivenBy(y, place, actions)
    ensures GivenBy(x + y, place, actions)
  {
  }

  lemma PlainConcat(x: seq<Arc>, y: seq<Arc>)
    requires PlainTargets(x) && PlainTargets(y)
    ensures PlainTargets(x + y)
  {
    hide Lacks;
  }

  // ---- The vault template -------------------------------------------------------------------------------------

  function DepositArcs(): seq<Arc>
  {
    [Arc("assetBalances", "deposit", ["caller"], "assets"), Arc("deposit", "totalAssets", [], "assets"),
     Arc("deposit", "balances", ["receiver"], "shares"), Arc("deposit", "totalShares", [], "shares")]
  }

  function MintArcs(): seq<Arc>
  {
    [Arc("assetBalances", "mint", ["caller"], "assets"), Arc("mint", "totalAssets", [], "assets"),
     Arc("mint", "balances", ["receiver"], "shares"), Arc("mint", "totalShares", [], "shares")]
  }

  function WithdrawArcs(): seq<Arc>
  {
    [Arc("balances", "withdraw", ["owner"], "shares"), Arc("totalShares", "withdraw", [], "shares"),
     Arc("totalAssets", "withdraw", [], "assets"), Arc("withdraw", "assetBalances", ["receiver"], "assets")]
  }

  function RedeemArcs(): seq<Arc>
  {
    [Arc("balances", "redeem", ["owner"], "shares"), Arc("totalShares", "redeem", [], "shares"),
     Arc("totalAssets", "redeem", [], "assets"), Arc("redeem", "assetBalances", ["receiver"], "assets")]
  }

  function HarvestArcs(): seq<Arc>
  {
    [Arc("harvest", "totalAssets", [], "yieldAmount")]
  }

  function VaultPlaces(): seq<Place>
  {
    [Place("asset", false, 0), Place("totalAssets", false, 0), Place("totalShares", false, 0),
     Place("balances", true, 0), Place("assetBalances", true, 0)]
  }

  function VaultArcs(): seq<Arc>
  {
    DepositArcs() + (MintArcs() + (WithdrawArcs() + (RedeemArcs() + HarvestArcs())))
  }

  /** `NewERC04626` */
  function VaultModel(): Model
  {
    Model(VaultPlaces(), ["deposit", "mint", "withdraw", "redeem", "harvest"], VaultArcs())
  }

  lemma {:induction false} PlaceAt(places: seq<Place>, i: nat)
    requires i < |places| && forall j :: 0 <= j < i ==> places[j].id != places[i].id
    ensures PlaceByID(places, places[i].id) == Some(places[i])
  {
    if i > 0 { PlaceAt(places[1..], i - 1); }
  }

  lemma VaultDeclares()
    ensures Declared(VaultModel(), Scalar("totalAssets")) && Declared(VaultModel(), Scalar("totalShares"))
    ensures Declared(VaultModel(), Sum("balances")) && Declared(VaultModel(), Sum("assetBalances"))
  {
    PlaceAt(VaultPlaces(), 1);
    PlaceAt(VaultPlaces(), 2);
    PlaceAt(VaultPlaces(), 3);
    PlaceAt(VaultPlaces(), 4);
    hide PlaceByID;
  }

  lemma VaultGivers()
    ensures GivenBy(VaultArcs(), "balances", {"deposit", "mint"})
    ensures GivenBy(VaultArcs(), "assetBalances", {"withdraw", "redeem"})
    ensures GivenBy(VaultArcs(), "totalShares", {"deposit", "mint"})
  {
    GiversOf("balances", {"deposit", "mint"});
    GiversOf("assetBalances", {"withdraw", "redeem"});
    GiversOf("totalShares", {"deposit", "mint"});
  }

  lemma VaultNamesPlain()
    ensures Lacks("balances", '|') && Lacks("assetBalances", '|') && Lacks("totalShares", '|') && Lacks("totalAssets", '|')
    ensures Lacks("deposit", '|') && Lacks("mint", '|') && Lacks("withdraw", '|') && Lacks("redeem", '|')
  {
  }

  lemma VaultIsPlain()
    ensures PlainTargets(VaultArcs())
  {
    VaultNamesPlain();
    hide Lacks;
    PlainConcat(RedeemArcs(), HarvestArcs());
    PlainConcat(WithdrawArcs(), RedeemArcs() + HarvestArcs());
    PlainConcat(MintArcs(), WithdrawArcs() + (RedeemArcs() + HarvestArcs()));
    PlainConcat(DepositArcs(), MintArcs() + (WithdrawArcs() + (RedeemArcs() + HarvestArcs())));
  }

  lemma GiversOf(place: string, actions: set<string>)
    requires GivenBy(DepositArcs(), place, actions) && GivenBy(MintArcs(), place, actions)
    requires GivenBy(WithdrawArcs(), place, actions) && GivenBy(RedeemArcs(), place, actions) && GivenBy(HarvestArcs(), place, actions)
    ensures GivenBy(VaultArcs(), place, actions)
  {
    hide GivenBy;
    GivenByConcat(RedeemArcs(), HarvestArcs(), place, actions);
    GivenByConcat(WithdrawArcs(), RedeemArcs() + HarvestArcs(), place, actions);
    GivenByConcat(MintArcs(), WithdrawArcs() + (RedeemArcs() + HarvestArcs()), place, actions);
    GivenByConcat(DepositArcs(), MintArcs() + (WithdrawArcs() + (RedeemArcs() + HarvestArcs())), place, actions);
  }

  lemma GapOfVault(t: string, b: Bindings, sign: int, m1: Measure, m2: Measure)
    ensures Gap(VaultModel(), t, b, sign, m1, m2, VaultArcs())
         == Gap(VaultModel(), t, b, sign, m1, m2, DepositArcs()) + Gap(VaultModel(), t, b, sign, m1, m2, MintArcs())
          + Gap(VaultModel(), t, b, sign, m1, m2, WithdrawArcs()) + Gap(VaultModel(), t, b, sign, m1, m2, RedeemArcs())
          + Gap(VaultModel(), t, b, sign, m1, m2, HarvestArcs())
  {
    var m := VaultModel();
    assert VaultArcs() == DepositArcs() + (MintArcs() + (WithdrawArcs() + (RedeemArcs() + HarvestArcs())));
    hide *;
    GapConcat(m, t, b, sign, m1, m2, DepositArcs(), MintArcs() + (WithdrawArcs() + (RedeemArcs() + HarvestArcs())));
    GapConcat(m, t, b, sign, m1, m2, MintArcs(), WithdrawArcs() + (RedeemArcs() + HarvestArcs()));
    GapConcat(m, t, b, sign, m1, m2, WithdrawArcs(), RedeemArcs() + HarvestArcs());
    GapConcat(m, t, b, sign, m1, m2, RedeemArcs(), HarvestArcs());
  }

  /** In the vault a map place is never given to by an action that takes from it. */
  lemma VaultTakes(t: string, arc: Arc)
    requires arc.source in {"balances", "totalShares"} ==> t !in {"deposit", "mint"}
    requires arc.source == "assetBalances" ==> t !in {"withdraw", "redeem"}
    requires arc.source in {"balances", "assetBalances", "totalShares", "totalAssets"}
    ensures !OnlyRead(VaultModel(), t, arc)
  {
    VaultGivers();
    VaultDeclares();
    VaultIsPlain();
    VaultNamesPlain();
    hide GivenBy, VaultPlaces, VaultArcs, PlainTargets, Lacks;
    if arc.source == "balances" || arc.source == "totalShares" {
      NotOnlyRead(VaultModel(), t, arc, {"deposit", "mint"});
    } else if arc.source == "assetBalances" {
      NotOnlyRead(VaultModel(), t, arc, {"withdraw", "redeem"});
    }
  }

  lemma ShareNames()
    ensures !IsNumeral("shares") && !IsNumeral("assets") && !IsNumeral("yieldAmount") && !IsNumeral("amount") && !IsNumeral("nftAmount")
  {
    assert "shares"[0] == 's' && "assets"[0] == 'a' && "yieldAmount"[0] == 'y' && "amount"[0] == 'a' && "nftAmount"[0] == 'n';
  }

  lemma DepositKeepsShares(t: string, b: Bindings)
    ensures Gap(VaultModel(), t, b, 1, Sum("balances"), Scalar("totalShares"), DepositArcs()) == 0
    ensures Gap(VaultModel(), t, b, -1, Sum("assetBalances"), Scalar("totalAssets"), DepositArcs()) == 0
  {
    ShareNames();
    var arcs := DepositArcs();
    if t == "deposit" { VaultTakes(t, arcs[0]); }
    hide OnlyRead, IsNumeral;
    PairedBlock(VaultModel(), t, b, 1, Sum("balances"), Scalar("totalShares"), arcs, 2, 3);
    PairedBlock(VaultModel(), t, b, -1, Sum("assetBalances"), Scalar("totalAssets"), arcs, 0, 1);
  }

  lemma MintKeepsShares(t: string, b: Bindings)
    ensures Gap(VaultModel(), t, b, 1, Sum("balances"), Scalar("totalShares"), MintArcs()) == 0
    ensures Gap(VaultModel(), t, b, -1, Sum("assetBalances"), Scalar("totalAssets"), MintArcs()) == 0
  {
    ShareNames();
    var arcs := MintArcs();
    if t == "mint" { VaultTakes(t, arcs[0]); }
    hide OnlyRead, IsNumeral;
    PairedBlock(VaultModel(), t, b, 1, Sum("balances"), Scalar("totalShares"), arcs, 2, 3);
    PairedBlock(VaultModel(), t, b, -1, Sum("assetBalances"), Scalar("totalAssets"), arcs, 0, 1);
  }

  lemma WithdrawKeepsShares(t: string, b: Bindings)
    ensures Gap(VaultModel(), t, b, 1, Sum("balances"), Scalar("totalShares"), WithdrawArcs()) == 0
    ensures Gap(VaultModel(), t, b, -1, Sum("assetBalances"), Scalar("totalAssets"), WithdrawArcs()) == 0
  {
    ShareNames();
    var arcs := WithdrawArcs();
    if t == "withdraw" {
      VaultTakes(t, arcs[0]);
      VaultTakes(t, arcs[1]);
      VaultTakes(t, arcs[2]);
    }
    hide OnlyRead, IsNumeral;
    PairedBlock(VaultModel(), t, b, 1, Sum("balances"), Scalar("totalShares"), arcs, 0, 1);
    PairedBlock(VaultModel(), t, b, -1, Sum("assetBalances"), Scalar("totalAssets"), arcs, 3, 2);
  }

  lemma RedeemKeepsShares(t: string, b: Bindings)
    ensures Gap(VaultModel(), t, b, 1, Sum("balances"), Scalar("totalShares"), RedeemArcs()) == 0
    ensures Gap(VaultModel(), t, b, -1, Sum("assetBalances"), Scalar("totalAssets"), RedeemArcs()) == 0
  {
    ShareNames();
    var arcs := RedeemArcs();
    if t == "redeem" {
      VaultTakes(t, arcs[0]);
      VaultTakes(t, arcs[1]);
      VaultTakes(t, arcs[2]);
    }
    hide OnlyRead, IsNumeral;
    PairedBlock(VaultModel(), t, b, 1, Sum("balances"), Scalar("totalShares"), arcs, 0, 1);
    PairedBlock(VaultModel(), t, b, -1, Sum("assetBalances"), Scalar("totalAssets"), arcs, 3, 2);
  }

  /** The yield that a call harvests. */
  function Yield(t: string, b: Bindings): int
  {
    if t == "harvest" then NumberOf(b, "yieldAmount") else 0
  }

  lemma HarvestAddsYield(t: string, b: Bindings)
    ensures Gap(VaultModel(), t, b, 1, Sum("balances"), Scalar("totalShares"), HarvestArcs()) == 0
    ensures Gap(VaultModel(), t, b, -1, Sum("assetBalances"), Scalar("totalAssets"), HarvestArcs()) == Yield(t, b)
  {
    ShareNames();
    UntouchedBlock(VaultModel(), t, b, 1, Sum("balances"), Scalar("totalShares"), HarvestArcs());
    Elsewhere(VaultModel(), t, b, Sum("assetBalances"), HarvestArcs()[0]);
    OutputMoves(VaultModel(), t, b, Scalar("totalAssets"), HarvestArcs()[0]);
    assert HarvestArcs() == [HarvestArcs()[0]];
    hide Moved, OnlyRead, IsNumeral;
  }

  lemma VaultGaps(t: string, b: Bindings)
    ensures Gap(VaultModel(), t, b, 1, Sum("balances"), Scalar("totalShares"), VaultArcs()) == 0
    ensures Gap(VaultModel(), t, b, -1, Sum("assetBalances"), Scalar("totalAssets"), VaultArcs()) == Yield(t, b)
  {
    GapOfVault(t, b, 1, Sum("balances"), Scalar("totalShares"));
    GapOfVault(t, b, -1, Sum("assetBalances"), Scalar("totalAssets"));
    hide *;
    DepositKeepsShares(t, b);
    MintKeepsShares(t, b);
    WithdrawKeepsShares(t, b);
    RedeemKeepsShares(t, b);
    HarvestAddsYield(t, b);
  }

  function Harvested(calls: seq<Call>): int
  {
    if calls == [] then 0
    else
      var c := calls[|calls| - 1];
      Harvested(calls[..|calls| - 1]) + Yield(c.action, c.bindings)
  }

  lemma {:induction false} VaultRunGaps(calls: seq<Call>)
    ensures GapOverRun(VaultModel(), 1, Sum("balances"), Scalar("totalShares"), calls) == 0
    ensures GapOverRun(VaultModel(), -1, Sum("assetBalances"), Scalar("totalAssets"), calls) == Harvested(calls)
  {
    hide Gap, Yield, VaultArcs, VaultPlaces;
    if calls != [] {
      var n := |calls| - 1;
      VaultRunGaps(calls[..n]);
      VaultGaps(calls[n].action, calls[n].bindings);
    }
  }

  /** A store with nothing in it, as a new state of these templates has. */
  ghost predicate EmptyStore(s: Store)
  {
    AllEmpty(s.data) && forall p :: Get(s.tokens, p) == 0
  }

  /** What a new state of a model without initial tokens holds. */
  lemma {:induction false} InitiallyEmpty(places: seq<Place>)
    requires forall i :: 0 <= i < |places| ==> places[i].initial == 0
    ensures forall p :: Get(InitialTokens(places), p) == 0
  {
    if places != [] {
      var n := |places| - 1;
      assert places[n].initial == 0;
      InitiallyEmpty(places[..n]);
      forall p
        ensures Get(InitialTokens(places), p) == 0
      {
        assert Get(InitialTokens(places[..n]), p) == 0;
      }
    }
  }

  lemma NothingStored(m: Measure, s: Store)
    requires EmptyStore(s)
    ensures Value(m, s) == 0
  {
  }

  /**
   * The vault template over every run: share balances add up to the total shares, and asset balances together with the
   * total assets change by the harvested yield alone.
   */
  lemma VaultConservation(s: Store, calls: seq<Call>)
    requires EmptyStore(s) && Run(VaultModel(), s, calls).Some?
    requires KeysBound(VaultModel(), Sum("balances"), Sum("assetBalances"), calls)
    ensures var end := Run(VaultModel(), s, calls).value;
      && Value(Sum("balances"), end) == Get(end.tokens, "totalShares")
      && Value(Sum("assetBalances"), end) + Get(end.tokens, "totalAssets") == Harvested(calls)
  {
    var end := Run(VaultModel(), s, calls).value;
    assert Value(Scalar("totalShares"), end) == Get(end.tokens, "totalShares");
    assert Value(Scalar("totalAssets"), end) == Get(end.tokens, "totalAssets");
    VaultDeclares();
    ScalarsNeedNoKeys("balances", "totalShares", "assetBalances", "totalAssets", calls);
    hide *;
    NothingStored(Sum("balances"), s);
    NothingStored(Scalar("totalShares"), s);
    NothingStored(Sum("assetBalances"), s);
    NothingStored(Scalar("totalAssets"), s);
    VaultRunGaps(calls);
    GapsAddUp(VaultModel(), 1, Sum("balances"), Scalar("totalShares"), s, calls);
    GapsAddUp(VaultModel(), -1, Sum("assetBalances"), Scalar("totalAssets"), s, calls);
  }

  lemma ScalarsNeedNoKeys(p1: string, q1: string, p2: string, q2: string, calls: seq<Call>)
    requires KeysBound(VaultModel(), Sum(p1), Sum(p2), calls)
    ensures KeysBound(VaultModel(), Sum(p1), Scalar(q1), calls) && KeysBound(VaultModel(), Sum(p2), Scalar(q2), calls)
  {
    hide VaultArcs, VaultPlaces;
  }

  // ---- The combined template ------------------------------------------------------------------------------------

  function FungibleArcs(): seq<Arc>
  {
    [Arc("balances", "transfer", ["from"], ""), Arc("transfer", "balances", ["to"], ""),
     Arc("approve", "allowances", ["owner", "spender"], ""),
     Arc("balances", "transferFrom", ["from"], ""), Arc("allowances", "transferFrom", ["from", "caller"], ""),
     Arc("transferFrom", "balances", ["to"], ""),
     Arc("mint", "balances", ["to"], ""), Arc("mint", "totalSupply", [], ""),
     Arc("balances", "burn", ["from"], ""), Arc("totalSupply", "burn", [], "")]
  }

  function TokenMintArcs(): seq<Arc>
  {
    [Arc("tokenMint", "tokenBalances", ["id", "to"], "amount"), Arc("tokenMint", "tokenSupply", ["id"], "amount")]
  }

  function TokenBurnArcs(): seq<Arc>
  {
    [Arc("tokenBalances", "tokenBurn", ["id", "from"], "amount"), Arc("tokenSupply", "tokenBurn", ["id"], "amount")]
  }

  function TokenTransferArcs(): seq<Arc>
  {
    [Arc("tokenBalances", "tokenTransfer", ["id", "from"], "amount"),
     Arc("tokenTransfer", "tokenBalances", ["id", "to"], "amount")]
  }

  function TokenMetaArcs(): seq<Arc>
  {
    [Arc("tokenApprove", "tokenApproved", ["id"], "to"),
     Arc("setApprovalForAll", "operators", ["owner", "operator"], "approved")]
  }

  function VaultDepositArcs(): seq<Arc>
  {
    [Arc("balances", "vaultDeposit", ["caller"], "assets"), Arc("vaultDeposit", "vaultTotalAssets", [], "assets"),
     Arc("vaultDeposit", "vaultTotalShares", [], "shares"), Arc("vaultDeposit", "vaultShares", ["receiver"], "shares")]
  }

  function VaultWithdrawArcs(): seq<Arc>
  {
    [Arc("vaultTotalAssets", "vaultWithdraw", [], "assets"), Arc("vaultTotalShares", "vaultWithdraw", [], "shares"),
     Arc("vaultShares", "vaultWithdraw", ["owner"], "shares"), Arc("vaultWithdraw", "balances", ["receiver"], "assets")]
  }

  function VaultRedeemArcs(): seq<Arc>
  {
    [Arc("vaultTotalAssets", "vaultRedeem", [], "assets"), Arc("vaultTotalShares", "vaultRedeem", [], "shares"),
     Arc("vaultShares", "vaultRedeem", ["owner"], "shares"), Arc("vaultRedeem", "balances", ["receiver"], "assets")]
  }

  function VaultHarvestArcs(): seq<Arc>
  {
    [Arc("vaultHarvest", "vaultTotalAssets", [], "yieldAmount")]
  }

  function VestCreateArcs(): seq<Arc>
  {
    [Arc("balances", "vestCreate", ["caller"], "total"), Arc("vestCreate", "vestSchedules", ["tokenId"], ""),
     Arc("vestCreate", "tokenBalances", ["tokenId", "beneficiary"], "nftAmount"),
     Arc("vestCreate", "tokenSupply", ["tokenId"], "nftAmount"),
     Arc("vestCreate", "vestCreators", ["tokenId"], "caller"), Arc("vestCreate", "vestTotalLocked", [], "total")]
  }

  function VestClaimArcs(): seq<Arc>
  {
    [Arc("vestClaim", "vestClaimed", ["tokenId"], "claimAmount"), Arc("vestTotalLocked", "vestClaim", [], "claimAmount"),
     Arc("vestClaim", "balances", ["caller"], "claimAmount")]
  }

  function VestRevokeArcs(): seq<Arc>
  {
    [Arc("vestSchedules", "vestRevoke", ["tokenId"], ""), Arc("vestTotalLocked", "vestRevoke", [], "unvestedAmount"),
     Arc("vestRevoke", "balances", ["caller"], "unvestedAmount"),
     Arc("tokenBalances", "vestRevoke", ["tokenId", "owner"], "nftAmount"),
     Arc("tokenSupply", "vestRevoke", ["tokenId"], "nftAmount")]
  }

  function VestBurnArcs(): seq<Arc>
  {
    [Arc("tokenBalances", "vestBurn", ["tokenId", "owner"], "nftAmount"), Arc("tokenSupply", "vestBurn", ["tokenId"], "nftAmount"),
     Arc("vestSchedules", "vestBurn", ["tokenId"], "")]
  }

  /** The arcs of the combined template, action by action. */
  function CombinedBlocks(): seq<seq<Arc>>
  {
    [FungibleArcs(), TokenMintArcs(), TokenBurnArcs(), TokenTransferArcs(), TokenMetaArcs(), VaultDepositArcs(),
     VaultWithdrawArcs(), VaultRedeemArcs(), VaultHarvestArcs(), VestCreateArcs(), VestClaimArcs(), VestRevokeArcs(),
     VestBurnArcs()]
  }

  function Flatten(blocks: seq<seq<Arc>>): seq<Arc>
  {
    if blocks == [] then [] else Flatten(blocks[..|blocks| - 1]) + blocks[|blocks| - 1]
  }

  function CombinedPlaces(): seq<Place>
  {
    [Place("totalSupply", false, 0), Place("balances", true, 0), Place("allowances", true, 0), Place("operators", true, 0),
     Place("tokenBalances", true, 0), Place("tokenSupply", true, 0), Place("tokenApproved", true, 0),
     Place("vaultTotalAssets", false, 0), Place("vaultTotalShares", false, 0), Place("vaultShares", true, 0),
     Place("vestSchedules", true, 0), Place("vestClaimed", true, 0), Place("vestCreators", true, 0),
     Place("vestTotalLocked", false, 0)]
  }

  /** `NewCombinedERC` */
  function CombinedModel(): Model
  {
    Model(CombinedPlaces(),
          ["transfer", "approve", "transferFrom", "mint", "burn", "tokenMint", "tokenBurn", "tokenTransfer", "tokenApprove",
           "setApprovalForAll", "tokenMintBatch", "tokenBurnBatch", "tokenTransferBatch", "vaultDeposit", "vaultMint",
           "vaultWithdraw", "vaultRedeem", "vaultHarvest", "vestCreate", "vestClaim", "vestRevoke", "vestBurn"],
          Flatten(CombinedBlocks()))
  }

  lemma {:induction false} FlatGivenBy(blocks: seq<seq<Arc>>, place: string, actions: set<string>)
    requires forall i :: 0 <= i < |blocks| ==> GivenBy(blocks[i], place, actions)
    ensures GivenBy(Flatten(blocks), place, actions)
  {
    hide GivenBy;
    if blocks == [] {
      EmptyGivenBy(place, actions);
    } else {
      FlatGivenBy(blocks[..|blocks| - 1], place, actions);
      GivenByConcat(Flatten(blocks[..|blocks| - 1]), blocks[|blocks| - 1], place, actions);
    }
  }

  lemma EmptyGivenBy(place: string, actions: set<string>)
    ensures GivenBy([], place, actions)
  {
  }

  /** When no block leaves a gap the whole template leaves none. */
  lemma {:induction false} FlatGap(model: Model, t: string, b: Bindings, sign: int, m1: Measure, m2: Measure, blocks: seq<seq<Arc>>)
    requires forall i :: 0 <= i < |blocks| ==> Gap(model, t, b, sign, m1, m2, blocks[i]) == 0
    ensures Gap(model, t, b, sign, m1, m2, Flatten(blocks)) == 0
  {
    hide Gap;
    if blocks == [] {
      EmptyGap(model, t, b, sign, m1, m2);
    } else {
      FlatGap(model, t, b, sign, m1, m2, blocks[..|blocks| - 1]);
      GapConcat(model, t, b, sign, m1, m2, Flatten(blocks[..|blocks| - 1]), blocks[|blocks| - 1]);
    }
  }

  lemma EmptyGap(model: Model, t: string, b: Bindings, sign: int, m1: Measure, m2: Measure)
    ensures Gap(model, t, b, sign, m1, m2, []) == 0
  {
    UntouchedBlock(model, t, b, sign, m1, m2, []);
  }

  lemma CombinedDeclares(key: string)
    ensures Declared(CombinedModel(), Scalar("vaultTotalShares")) && Declared(CombinedModel(), Sum("vaultShares"))
    ensures Declared(CombinedModel(), Row("tokenBalances", key)) && Declared(CombinedModel(), Entry("tokenSupply", key))
  {
    TokenBalancesPlace();
    TokenSupplyPlace();
    VaultTotalSharesPlace();
    VaultSharesPlace();
    hide PlaceByID, CombinedBlocks, CombinedPlaces, Flatten;
  }

  lemma TokenBalancesPlace()
    ensures PlaceByID(CombinedPlaces(), "tokenBalances") == Some(Place("tokenBalances", true, 0))
  {
    PlaceAt(CombinedPlaces(), 4);
  }

  lemma TokenSupplyPlace()
    ensures PlaceByID(CombinedPlaces(), "tokenSupply") == Some(Place("tokenSupply", true, 0))
  {
    PlaceAt(CombinedPlaces(), 5);
  }

  lemma VaultTotalSharesPlace()
    ensures PlaceByID(CombinedPlaces(), "vaultTotalShares") == Some(Place("vaultTotalShares", false, 0))
  {
    PlaceAt(CombinedPlaces(), 8);
  }

  lemma VaultSharesPlace()
    ensures PlaceByID(CombinedPlaces(), "vaultShares") == Some(Place("vaultShares", true, 0))
  {
    PlaceAt(CombinedPlaces(), 9);
  }

  lemma CombinedPlacesPlain()
    ensures Lacks("balances", '|') && Lacks("allowances", '|') && Lacks("totalSupply", '|') && Lacks("tokenBalances", '|')
    ensures Lacks("tokenSupply", '|') && Lacks("tokenApproved", '|') && Lacks("operators", '|')
    ensures Lacks("vaultTotalAssets", '|') && Lacks("vaultTotalShares", '|') && Lacks("vaultShares", '|')
    ensures Lacks("vestSchedules", '|') && Lacks("vestClaimed", '|') && Lacks("vestCreators", '|')
    ensures Lacks("vestTotalLocked", '|')
  {
  }

  lemma CombinedActionsPlain()
    ensures Lacks("transfer", '|') && Lacks("transferFrom", '|') && Lacks("burn", '|') && Lacks("tokenBurn", '|')
    ensures Lacks("tokenTransfer", '|') && Lacks("vaultDeposit", '|') && Lacks("vaultWithdraw", '|')
    ensures Lacks("vaultRedeem", '|') && Lacks("vestCreate", '|') && Lacks("vestClaim", '|') && Lacks("vestRevoke", '|')
    ensures Lacks("vestBurn", '|')
  {
  }

  lemma BlockIsPlain(i: nat)
    requires i < |CombinedBlocks()|
    ensures PlainTargets(CombinedBlocks()[i])
  {
    CombinedPlacesPlain();
    CombinedActionsPlain();
    hide Lacks;
  }

  lemma {:induction false} FlatIsPlain(blocks: seq<seq<Arc>>)
    requires forall i :: 0 <= i < |blocks| ==> PlainTargets(blocks[i])
    ensures PlainTargets(Flatten(blocks))
  {
    hide PlainTargets;
    if blocks == [] {
      NoTargets();
    } else {
      FlatIsPlain(blocks[..|blocks| - 1]);
      PlainConcat(Flatten(blocks[..|blocks| - 1]), blocks[|blocks| - 1]);
    }
  }

  lemma NoTargets()
    ensures PlainTargets([])
  {
  }

  lemma CombinedIsPlain()
    ensures PlainTargets(CombinedModel().arcs)
  {
    forall i | 0 <= i < |CombinedBlocks()|
      ensures PlainTargets(CombinedBlocks()[i])
    {
      BlockIsPlain(i);
    }
    hide PlainTargets, CombinedBlocks, CombinedPlaces, Flatten;
    FlatIsPlain(CombinedBlocks());
  }

  lemma BlockGivers(i: nat)
    requires i < |CombinedBlocks()|
    ensures GivenBy(CombinedBlocks()[i], "vaultShares", {"vaultDeposit"})
    ensures GivenBy(CombinedBlocks()[i], "vaultTotalShares", {"vaultDeposit"})
    ensures GivenBy(CombinedBlocks()[i], "tokenBalances", {"tokenMint", "tokenTransfer", "vestCreate"})
    ensures GivenBy(CombinedBlocks()[i], "tokenSupply", {"tokenMint", "vestCreate"})
  {
  }

  /** No action of the template merely reads a place whose balances it changes. */
  lemma CombinedTakes(t: string, arc: Arc)
    requires arc.source in {"vaultShares", "vaultTotalShares"} ==> t != "vaultDeposit"
    requires arc.source in {"tokenBalances", "tokenSupply"} ==> t in {"tokenBurn", "vestRevoke", "vestBurn"}
    requires arc.source in {"vaultShares", "vaultTotalShares", "tokenBalances", "tokenSupply"}
    ensures !OnlyRead(CombinedModel(), t, arc)
  {
    forall i | 0 <= i < |CombinedBlocks()|
      ensures GivenBy(CombinedBlocks()[i], "vaultShares", {"vaultDeposit"})
      ensures GivenBy(CombinedBlocks()[i], "vaultTotalShares", {"vaultDeposit"})
      ensures GivenBy(CombinedBlocks()[i], "tokenBalances", {"tokenMint", "tokenTransfer", "vestCreate"})
      ensures GivenBy(CombinedBlocks()[i], "tokenSupply", {"tokenMint", "vestCreate"})
    {
      BlockGivers(i);
    }
    CombinedIsPlain();
    CombinedPlacesPlain();
    hide GivenBy, CombinedBlocks, CombinedPlaces, Flatten, OnlyRead, PlainTargets, Lacks;
    if arc.source == "vaultShares" || arc.source == "vaultTotalShares" {
      FlatGivenBy(CombinedBlocks(), arc.source, {"vaultDeposit"});
      NotOnlyRead(CombinedModel(), t, arc, {"vaultDeposit"});
    } else if arc.source == "tokenBalances" {
      FlatGivenBy(CombinedBlocks(), arc.source, {"tokenMint", "tokenTransfer", "vestCreate"});
      NotOnlyRead(CombinedModel(), t, arc, {"tokenMint", "tokenTransfer", "vestCreate"});
    } else if arc.source == "tokenSupply" {
      FlatGivenBy(CombinedBlocks(), arc.source, {"tokenMint", "vestCreate"});
      NotOnlyRead(CombinedModel(), t, arc, {"tokenMint", "vestCreate"});
    }
  }

  lemma TransferTakes(arc: Arc)
    requires arc == TokenTransferArcs()[0]
    ensures !OnlyRead(CombinedModel(), "tokenTransfer", arc)
  {
    forall i | 0 <= i < |CombinedBlocks()|
      ensures NotKeyedLike(CombinedBlocks()[i], arc)
    {
      TransferKeys(i);
    }
    hide CombinedBlocks, CombinedPlaces, NotKeyedLike;
    FlatNotKeyedLike(CombinedBlocks(), arc);
    NotKeyedLikeIsEnough(arc);
  }

  /** No output of tokenTransfer has the text of the place and keys of `arc`. */
  ghost predicate NotKeyedLike(arcs: seq<Arc>, arc: Arc)
  {
    forall i :: 0 <= i < |arcs| && arcs[i].source == "tokenTransfer" ==>
      ArcText(arcs[i].target, arcs[i].keys) != ArcText(arc.source, arc.keys)
  }

  lemma TransferKeys(i: nat)
    requires i < |CombinedBlocks()|
    ensures NotKeyedLike(CombinedBlocks()[i], TokenTransferArcs()[0])
  {
    TransferTexts();
    hide ArcText;
  }

  lemma TransferTexts()
    ensures ArcText("tokenBalances", ["id", "from"]) != ArcText("tokenBalances", ["id", "to"])
  {
    assert ["id", "from"][1..] == ["from"] && ["id", "to"][1..] == ["to"];
    assert |Join(["id", "from"])| == 7 && |Join(["id", "to"])| == 5;
  }

  lemma {:induction false} FlatNotKeyedLike(blocks: seq<seq<Arc>>, arc: Arc)
    requires forall i :: 0 <= i < |blocks| ==> NotKeyedLike(blocks[i], arc)
    ensures NotKeyedLike(Flatten(blocks), arc)
  {
    if blocks != [] {
      var n := |blocks| - 1;
      assert NotKeyedLike(blocks[n], arc);
      FlatNotKeyedLike(blocks[..n], arc);
    }
  }

  lemma NotKeyedLikeIsEnough(arc: Arc)
    requires NotKeyedLike(CombinedModel().arcs, arc)
    ensures !OnlyRead(CombinedModel(), "tokenTransfer", arc)
  {
    hide IsMapPlace, CombinedBlocks, CombinedPlaces, Flatten, ArcText;
  }

  /** A transfer moves the amount within the row of its id. */
  lemma TransferKeepsRow(t: string, b: Bindings, key: string)
    ensures Gap(CombinedModel(), t, b, 1, Row("tokenBalances", key), Entry("tokenSupply", key), TokenTransferArcs()) == 0
  {
    var arcs := TokenTransferArcs();
    ShareNames();
    TransferTakes(arcs[0]);
    hide OnlyRead, IsNumeral, CombinedBlocks, CombinedPlaces, Flatten;
    GapOfBlock(CombinedModel(), t, b, 1, Row("tokenBalances", key), Entry("tokenSupply", key), arcs, 0, 1);
    InputMoves(CombinedModel(), t, b, Row("tokenBalances", key), arcs[0]);
    OutputMoves(CombinedModel(), t, b, Row("tokenBalances", key), arcs[1]);
    Elsewhere(CombinedModel(), t, b, Entry("tokenSupply", key), arcs[0]);
    Elsewhere(CombinedModel(), t, b, Entry("tokenSupply", key), arcs[1]);
    hide Moved;
  }

  lemma VaultDepositKeeps(t: string, b: Bindings)
    ensures Gap(CombinedModel(), t, b, 1, Sum("vaultShares"), Scalar("vaultTotalShares"), VaultDepositArcs()) == 0
  {
    ShareNames();
    hide OnlyRead, IsNumeral, CombinedModel, Gap;
    PairedBlock(CombinedModel(), t, b, 1, Sum("vaultShares"), Scalar("vaultTotalShares"), VaultDepositArcs(), 3, 2);
  }

  lemma VaultWithdrawKeeps(t: string, b: Bindings)
    ensures Gap(CombinedModel(), t, b, 1, Sum("vaultShares"), Scalar("vaultTotalShares"), VaultWithdrawArcs()) == 0
  {
    ShareNames();
    if t == "vaultWithdraw" {
      CombinedTakes(t, VaultWithdrawArcs()[1]);
      CombinedTakes(t, VaultWithdrawArcs()[2]);
    }
    hide OnlyRead, IsNumeral, CombinedModel, Gap;
    PairedBlock(CombinedModel(), t, b, 1, Sum("vaultShares"), Scalar("vaultTotalShares"), VaultWithdrawArcs(), 2, 1);
  }

  lemma VaultRedeemKeeps(t: string, b: Bindings)
    ensures Gap(CombinedModel(), t, b, 1, Sum("vaultShares"), Scalar("vaultTotalShares"), VaultRedeemArcs()) == 0
  {
    ShareNames();
    if t == "vaultRedeem" {
      CombinedTakes(t, VaultRedeemArcs()[1]);
      CombinedTakes(t, VaultRedeemArcs()[2]);
    }
    hide OnlyRead, IsNumeral, CombinedModel, Gap;
    PairedBlock(CombinedModel(), t, b, 1, Sum("vaultShares"), Scalar("vaultTotalShares"), VaultRedeemArcs(), 2, 1);
  }

  lemma TokenMintKeeps(t: string, b: Bindings, key: string)
    ensures Gap(CombinedModel(), t, b, 1, Row("tokenBalances", key), Entry("tokenSupply", key), TokenMintArcs()) == 0
  {
    ShareNames();
    hide OnlyRead, IsNumeral, CombinedModel, Gap;
    PairedBlock(CombinedModel(), t, b, 1, Row("tokenBalances", key), Entry("tokenSupply", key), TokenMintArcs(), 0, 1);
  }

  lemma TokenBurnKeeps(t: string, b: Bindings, key: string)
    ensures Gap(CombinedModel(), t, b, 1, Row("tokenBalances", key), Entry("tokenSupply", key), TokenBurnArcs()) == 0
  {
    ShareNames();
    if t == "tokenBurn" {
      CombinedTakes(t, TokenBurnArcs()[0]);
      CombinedTakes(t, TokenBurnArcs()[1]);
    }
    hide OnlyRead, IsNumeral, CombinedModel, Gap;
    PairedBlock(CombinedModel(), t, b, 1, Row("tokenBalances", key), Entry("tokenSupply", key), TokenBurnArcs(), 0, 1);
  }

  lemma VestCreateKeeps(t: string, b: Bindings, key: string)
    ensures Gap(CombinedModel(), t, b, 1, Row("tokenBalances", key), Entry("tokenSupply", key), VestCreateArcs()) == 0
  {
    ShareNames();
    hide OnlyRead, IsNumeral, CombinedModel, Gap;
    PairedBlock(CombinedModel(), t, b, 1, Row("tokenBalances", key), Entry("tokenSupply", key), VestCreateArcs(), 2, 3);
  }

  lemma VestRevokeKeeps(t: string, b: Bindings, key: string)
    ensures Gap(CombinedModel(), t, b, 1, Row("tokenBalances", key), Entry("tokenSupply", key), VestRevokeArcs()) == 0
  {
    ShareNames();
    if t == "vestRevoke" {
      CombinedTakes(t, VestRevokeArcs()[3]);
      CombinedTakes(t, VestRevokeArcs()[4]);
    }
    hide OnlyRead, IsNumeral, CombinedModel, Gap;
    PairedBlock(CombinedModel(), t, b, 1, Row("tokenBalances", key), Entry("tokenSupply", key), VestRevokeArcs(), 3, 4);
  }

  lemma VestBurnKeeps(t: string, b: Bindings, key: string)
    ensures Gap(CombinedModel(), t, b, 1, Row("tokenBalances", key), Entry("tokenSupply", key), VestBurnArcs()) == 0
  {
    ShareNames();
    if t == "vestBurn" {
      CombinedTakes(t, VestBurnArcs()[0]);
      CombinedTakes(t, VestBurnArcs()[1]);
    }
    hide OnlyRead, IsNumeral, CombinedModel, Gap;
    PairedBlock(CombinedModel(), t, b, 1, Row("tokenBalances", key), Entry("tokenSupply", key), VestBurnArcs(), 0, 1);
  }

  /** Blocks that touch neither the vault shares nor their total. */
  lemma OtherThanVault(i: nat)
    requires i < |CombinedBlocks()| && i !in {5, 6, 7}
    ensures Untouching(CombinedBlocks()[i], "vaultShares") && Untouching(CombinedBlocks()[i], "vaultTotalShares")
  {
  }

  lemma OtherThanTokens(i: nat)
    requires i < |CombinedBlocks()| && i !in {1, 2, 3, 9, 11, 12}
    ensures Untouching(CombinedBlocks()[i], "tokenBalances") && Untouching(CombinedBlocks()[i], "tokenSupply")
  {
  }

  lemma BlockKeepsShares(t: string, b: Bindings, i: nat)
    requires i < |CombinedBlocks()|
    ensures Gap(CombinedModel(), t, b, 1, Sum("vaultShares"), Scalar("vaultTotalShares"), CombinedBlocks()[i]) == 0
  {
    if i !in {5, 6, 7} {
      OtherThanVault(i);
      hide *;
      UntouchedBlock(CombinedModel(), t, b, 1, Sum("vaultShares"), Scalar("vaultTotalShares"), CombinedBlocks()[i]);
    } else {
      VaultDepositKeeps(t, b);
      VaultWithdrawKeeps(t, b);
      VaultRedeemKeeps(t, b);
      BlockNames();
      hide *;
    }
  }

  lemma BlockNames()
    ensures |CombinedBlocks()| == 13
    ensures CombinedBlocks()[1] == TokenMintArcs() && CombinedBlocks()[2] == TokenBurnArcs()
    ensures CombinedBlocks()[3] == TokenTransferArcs() && CombinedBlocks()[5] == VaultDepositArcs()
    ensures CombinedBlocks()[6] == VaultWithdrawArcs() && CombinedBlocks()[7] == VaultRedeemArcs()
    ensures CombinedBlocks()[9] == VestCreateArcs() && CombinedBlocks()[11] == VestRevokeArcs()
    ensures CombinedBlocks()[12] == VestBurnArcs()
  {
  }

  lemma BlockKeepsSupply(t: string, b: Bindings, key: string, i: nat)
    requires i < |CombinedBlocks()|
    ensures Gap(CombinedModel(), t, b, 1, Row("tokenBalances", key), Entry("tokenSupply", key), CombinedBlocks()[i]) == 0
  {
    if i !in {1, 2, 3, 9, 11, 12} {
      OtherThanTokens(i);
      hide *;
      UntouchedBlock(CombinedModel(), t, b, 1, Row("tokenBalances", key), Entry("tokenSupply", key), CombinedBlocks()[i]);
    } else {
      TokenMintKeeps(t, b, key);
      TokenBurnKeeps(t, b, key);
      TransferKeepsRow(t, b, key);
      VestCreateKeeps(t, b, key);
      VestRevokeKeeps(t, b, key);
      VestBurnKeeps(t, b, key);
      BlockNames();
      hide *;
    }
  }

  /** No call of the combined template opens a gap. */
  lemma CombinedGaps(t: string, b: Bindings, key: string)
    ensures Gap(CombinedModel(), t, b, 1, Sum("vaultShares"), Scalar("vaultTotalShares"), CombinedModel().arcs) == 0
    ensures Gap(CombinedModel(), t, b, 1, Row("tokenBalances", key), Entry("tokenSupply", key), CombinedModel().arcs) == 0
  {
    var blocks := CombinedBlocks();
    assert CombinedModel().arcs == Flatten(blocks);
    hide *;
    forall i | 0 <= i < |blocks|
      ensures Gap(CombinedModel(), t, b, 1, Sum("vaultShares"), Scalar("vaultTotalShares"), blocks[i]) == 0
      ensures Gap(CombinedModel(), t, b, 1, Row("tokenBalances", key), Entry("tokenSupply", key), blocks[i]) == 0
    {
      BlockKeepsShares(t, b, i);
      BlockKeepsSupply(t, b, key, i);
    }
    FlatGap(CombinedModel(), t, b, 1, Sum("vaultShares"), Scalar("vaultTotalShares"), blocks);
    FlatGap(CombinedModel(), t, b, 1, Row("tokenBalances", key), Entry("tokenSupply", key), blocks);
  }

  lemma {:induction false} CombinedRunGaps(calls: seq<Call>, key: string)
    ensures GapOverRun(CombinedModel(), 1, Sum("vaultShares"), Scalar("vaultTotalShares"), calls) == 0
    ensures GapOverRun(CombinedModel(), 1, Row("tokenBalances", key), Entry("tokenSupply", key), calls) == 0
  {
    hide Gap, CombinedModel;
    if calls != [] {
      var n := |calls| - 1;
      CombinedRunGaps(calls[..n], key);
      CombinedGaps(calls[n].action, calls[n].bindings, key);
    }
  }

  /** All keys of the combined template are bound in every call. */
  ghost predicate CombinedKeysBound(calls: seq<Call>)
  {
    && KeysBound(CombinedModel(), Sum("vaultShares"), Scalar("vaultTotalShares"), calls)
    && forall key :: KeysBound(CombinedModel(), Row("tokenBalances", key), Entry("tokenSupply", key), calls)
  }

  /**
   * The combined template over every run: the vault shares add up to their total, and for every token id the balances
   * add up to the supply.
   */
  lemma CombinedConservation(s: Store, calls: seq<Call>, id: string)
    requires EmptyStore(s) && Run(CombinedModel(), s, calls).Some? && CombinedKeysBound(calls)
    ensures var end := Run(CombinedModel(), s, calls).value;
      && TotalOf(DataAt(end.data, "vaultShares")) == Get(end.tokens, "vaultTotalShares")
      && RowTotal(RowOf(DataAt(end.data, "tokenBalances"), id)) == EntryOf(DataAt(end.data, "tokenSupply"), id)
  {
    var end := Run(CombinedModel(), s, calls).value;
    assert Value(Sum("vaultShares"), end) == TotalOf(DataAt(end.data, "vaultShares"));
    assert Value(Scalar("vaultTotalShares"), end) == Get(end.tokens, "vaultTotalShares");
    assert Value(Row("tokenBalances", id), end) == RowTotal(RowOf(DataAt(end.data, "tokenBalances"), id));
    assert Value(Entry("tokenSupply", id), end) == EntryOf(DataAt(end.data, "tokenSupply"), id);
    assert KeysBound(CombinedModel(), Sum("vaultShares"), Scalar("vaultTotalShares"), calls);
    assert KeysBound(CombinedModel(), Row("tokenBalances", id), Entry("tokenSupply", id), calls);
    CombinedDeclares(id);
    hide *;
    NothingStored(Sum("vaultShares"), s);
    NothingStored(Scalar("vaultTotalShares"), s);
    NothingStored(Row("tokenBalances", id), s);
    NothingStored(Entry("tokenSupply", id), s);
    CombinedRunGaps(calls, id);
    GapsAddUp(CombinedModel(), 1, Sum("vaultShares"), Scalar("vaultTotalShares"), s, calls);
    GapsAddUp(CombinedModel(), 1, Row("tokenBalances", id), Entry("tokenSupply", id), s, calls);
  }
}
