/** The poll net that public/bitwrap.js derives from the vote template of erc/vote.go. */
module PollNet {
  import opened Wrappers
  import opened Sets
  import opened PetriSim

  function Vote(c: string): string { "vote:" + c }

  function Tally(c: string): string { "tally:" + c }

  function Unit(source: string, target: string): Arc
  {
    Arc(source, target, [1], false)
  }

  // ---- From a schema to a net ----------------------------------------------------------------------------

  /** A declared state; a missing initial value, or one that is no number, is None. */
  datatype StateDecl = StateDecl(id: string, initial: Option<int>)

  /** A token standard or poll template, as far as the net is made from it. */
  datatype Schema = Schema(states: seq<StateDecl>, actions: seq<string>, arcs: seq<(string, string)>)

  const Black: string := "https://pflow.xyz/tokens/black"

  function DeclaredPlace(s: StateDecl): Place
  {
    Place([if s.initial.Some? then s.initial.value else 0], [])
  }

  function StateIds(states: seq<StateDecl>): seq<string>
  {
    seq(|states|, i requires 0 <= i < |states| => states[i].id)
  }

  /** The keys of an object after setting the given ones in turn. */
  function KeysOf(ids: seq<string>): seq<string>
  {
    if ids == [] then [] else AddKey(KeysOf(ids[..|ids| - 1]), ids[|ids| - 1])
  }

  lemma {:induction false} KeysOnce(ids: seq<string>)
    ensures Distinct(KeysOf(ids)) && forall t :: t in KeysOf(ids) <==> t in ids
  {
    if ids != [] {
      KeysOnce(ids[..|ids| - 1]);
      assert ids == ids[..|ids| - 1] + [ids[|ids| - 1]];
    }
  }

  /** Every place has the tokens of the last state declared under its name. */
  ghost predicate PlacesDeclared(states: seq<StateDecl>, places: map<string, Place>)
  {
    && (forall p :: p in places <==> p in StateIds(states))
    && forall i :: 0 <= i < |states| && states[i].id !in StateIds(states[i + 1..]) ==>
      states[i].id in places && places[states[i].id] == DeclaredPlace(states[i])
  }

  /** `net` is the net of the schema: a place per state, a transition per action, an arc of weight one per arc. */
  ghost predicate IsPflow(schema: Schema, net: Net)
  {
    && net.token == [Black]
    && net.order == KeysOf(StateIds(schema.states)) && PlacesDeclared(schema.states, net.place)
    && net.transitions == KeysOf(schema.actions)
    && net.arcs == seq(|schema.arcs|, i requires 0 <= i < |schema.arcs| => Unit(schema.arcs[i].0, schema.arcs[i].1))
  }

  lemma DeclareState(states: seq<StateDecl>, s: StateDecl, places: map<string, Place>)
    requires PlacesDeclared(states, places)
    ensures PlacesDeclared(states + [s], places[s.id := DeclaredPlace(s)])
  {
    var all := states + [s];
    assert StateIds(all) == StateIds(states) + [s.id];
    forall i | 0 <= i < |all| && all[i].id !in StateIds(all[i + 1..])
      ensures i == |states| || (all[i].id != s.id && states[i].id !in StateIds(states[i + 1..]))
    {
      if i < |states| {
        assert all[i + 1..] == states[i + 1..] + [s];
        assert StateIds(all[i + 1..]) == StateIds(states[i + 1..]) + [s.id];
      }
    }
  }

  /** `metamodelToPflow`, without the positions. */
  method MetamodelToPflow(schema: Schema) returns (net: Net)
    ensures IsPflow(schema, net)
  {
    var places: map<string, Place>, order: seq<string> := map[], [];
    for i := 0 to |schema.states|
      invariant order == KeysOf(StateIds(schema.states[..i])) && PlacesDeclared(schema.states[..i], places)
    {
      var s := schema.states[i];
      assert schema.states[..i + 1] == schema.states[..i] + [s];
      assert StateIds(schema.states[..i + 1]) == StateIds(schema.states[..i]) + [s.id];
      DeclareState(schema.states[..i], s, places);
      order := AddKey(order, s.id);
      places := places[s.id := DeclaredPlace(s)];
    }
    assert schema.states[..|schema.states|] == schema.states;
    var transitions: seq<string> := [];
    for i := 0 to |schema.actions|
      invariant transitions == KeysOf(schema.actions[..i])
    {
      assert schema.actions[..i + 1][..i] == schema.actions[..i];
      transitions := AddKey(transitions, schema.actions[i]);
    }
    assert schema.actions[..|schema.actions|] == schema.actions;
    var arcs := seq(|schema.arcs|, i requires 0 <= i < |schema.arcs| => Unit(schema.arcs[i].0, schema.arcs[i].1));
    net := Net([Black], order, places, transitions, arcs);
  }

  /** The net of a schema is well formed, and its places start with the declared tokens. */
  lemma PflowIsValid(schema: Schema, net: Net)
    requires IsPflow(schema, net)
    ensures Distinct(net.order) && (forall p :: p in net.order <==> p in net.place) && Distinct(net.transitions)
  {
    KeysOnce(StateIds(schema.states));
    KeysOnce(schema.actions);
  }

  /** The vote template. */
  function VoteSchema(): Schema
  {
    Schema(
      [StateDecl("voterRegistry", None), StateDecl("nullifiers", None), StateDecl("tallies", None),
       StateDecl("pollConfig", None), StateDecl("registrySlots", None)],
      ["createPoll", "registerVoter", "castVote", "closePoll"],
      [("castVote", "tallies"), ("castVote", "nullifiers"), ("registerVoter", "registrySlots"), ("registrySlots", "castVote")])
  }

  /** Its net: every state a place with 0 tokens. */
  function VoteTemplate(): Net
  {
    var empty := Place([0], []);
    Net([Black],
        ["voterRegistry", "nullifiers", "tallies", "pollConfig", "registrySlots"],
        map["voterRegistry" := empty, "nullifiers" := empty, "tallies" := empty,
            "pollConfig" := empty, "registrySlots" := empty],
        ["createPoll", "registerVoter", "castVote", "closePoll"],
        [Unit("castVote", "tallies"), Unit("castVote", "nullifiers"),
         Unit("registerVoter", "registrySlots"), Unit("registrySlots", "castVote")])
  }

  predicate Touches(a: Arc, n: string)
  {
    a.source == n || a.target == n
  }

  /** The arcs that survive the removal of castVote and tallies. */
  function KeptArcs(arcs: seq<Arc>): seq<Arc>
  {
    if arcs == [] then []
    else
      var a := arcs[|arcs| - 1];
      KeptArcs(arcs[..|arcs| - 1]) + if Touches(a, "castVote") || Touches(a, "tallies") then [] else [a]
  }

  /** Arcs that record the vote for each choice. */
  function BallotArcs(choices: seq<string>): seq<Arc>
  {
    if choices == [] then []
    else
      var c := choices[|choices| - 1];
      BallotArcs(choices[..|choices| - 1]) + [Unit(Vote(c), Tally(c)), Unit(Vote(c), "nullifiers")]
  }

  /** Arcs that let a choice be voted for only while the poll is active, at the price of one registration. */
  function GateArcs(choices: seq<string>): seq<Arc>
  {
    if choices == [] then []
    else
      var c := choices[|choices| - 1];
      GateArcs(choices[..|choices| - 1])
      + [Unit("pollConfig", Vote(c)), Unit(Vote(c), "pollConfig"), Unit("voterRegistry", Vote(c))]
  }

  const LifecycleArcs: seq<Arc> := [Unit("createPoll", "pollConfig"), Unit("pollConfig", "closePoll")]

  function SetInitial(places: map<string, Place>, p: string, tokens: int): map<string, Place>
  {
    places[p := Place([tokens], DeclaredCapacity(places, p))]
  }

  function DeclaredCapacity(places: map<string, Place>, p: string): seq<nat>
  {
    if p in places then places[p].capacity else []
  }

  function RemoveAll(s: seq<string>, x: string): seq<string>
  {
    if s == [] then []
    else RemoveAll(s[..|s| - 1], x) + if s[|s| - 1] == x then [] else [s[|s| - 1]]
  }

  function AddKey(s: seq<string>, x: string): seq<string>
  {
    if x in s then s else s + [x]
  }

  /** `t` is Vote(c) for a choice c. */
  predicate IsVote(choices: seq<string>, t: string)
  {
    |t| >= 5 && t[..5] == "vote:" && t[5..] in choices
  }

  /** `p` is Tally(c) for a choice c. */
  predicate IsTally(choices: seq<string>, p: string)
  {
    |p| >= 6 && p[..6] == "tally:" && p[6..] in choices
  }

  lemma VoteForm(t: string, c: string)
    ensures t == Vote(c) <==> |t| >= 5 && t[..5] == "vote:" && t[5..] == c
  {
    if |t| >= 5 { assert t == t[..5] + t[5..]; }
  }

  lemma TallyForm(p: string, c: string)
    ensures p == Tally(c) <==> |p| >= 6 && p[..6] == "tally:" && p[6..] == c
  {
    if |p| >= 6 { assert p == p[..6] + p[6..]; }
  }

  /** Places and transitions after a choice has been added for each name in `choices`. */
  ghost predicate WithChoices(choices: seq<string>, places0: map<string, Place>, transitions0: seq<string>,
                              places: map<string, Place>, transitions: seq<string>)
  {
    && (forall t :: t in transitions <==> t in transitions0 || IsVote(choices, t))
    && (forall p :: p in places <==> p in places0 || IsTally(choices, p))
    && (forall p :: p in places ==> places[p] == if IsTally(choices, p) then Place([0], [0]) else places0[p])
  }

  lemma ChoiceAdded(choices: seq<string>, k: nat)
    requires k < |choices|
    ensures forall t :: IsVote(choices[..k + 1], t) <==> IsVote(choices[..k], t) || t == Vote(choices[k])
    ensures forall p :: IsTally(choices[..k + 1], p) <==> IsTally(choices[..k], p) || p == Tally(choices[k])
    ensures choices[..k + 1][..k] == choices[..k]
  {
    assert choices[..k + 1] == choices[..k] + [choices[k]];
    forall t
      ensures IsVote(choices[..k + 1], t) <==> IsVote(choices[..k], t) || t == Vote(choices[k])
    {
      VoteForm(t, choices[k]);
    }
    forall p
      ensures IsTally(choices[..k + 1], p) <==> IsTally(choices[..k], p) || p == Tally(choices[k])
    {
      TallyForm(p, choices[k]);
    }
  }

  method AddChoices(choices: seq<string>, places0: map<string, Place>, transitions0: seq<string>, arcs0: seq<Arc>)
      returns (places: map<string, Place>, transitions: seq<string>, arcs: seq<Arc>)
    ensures WithChoices(choices, places0, transitions0, places, transitions)
    ensures arcs == arcs0 + BallotArcs(choices)
  {
    places, transitions, arcs := places0, transitions0, arcs0;
    hide IsVote, IsTally;
    NothingAdded(places0, transitions0);
    for k := 0 to |choices|
      invariant WithChoices(choices[..k], places0, transitions0, places, transitions)
      invariant arcs == arcs0 + BallotArcs(choices[..k])
    {
      var c := choices[k];
      ChoiceAdded(choices, k);
      AddOne(choices[..k], choices[..k + 1], c, places0, transitions0, places, transitions);
      hide WithChoices, AddKey;
      transitions := AddKey(transitions, Vote(c));
      places := places[Tally(c) := Place([0], [0])];
      arcs := arcs + [Unit(Vote(c), Tally(c))];
      arcs := arcs + [Unit(Vote(c), "nullifiers")];
    }
    assert choices[..|choices|] == choices;
  }

  lemma NothingAdded(places0: map<string, Place>, transitions0: seq<string>)
    ensures WithChoices([], places0, transitions0, places0, transitions0)
  {
  }

  lemma AddOne(front: seq<string>, more: seq<string>, c: string, places0: map<string, Place>, transitions0: seq<string>,
               places: map<string, Place>, transitions: seq<string>)
    requires WithChoices(front, places0, transitions0, places, transitions)
    requires forall t :: IsVote(more, t) <==> IsVote(front, t) || t == Vote(c)
    requires forall p :: IsTally(more, p) <==> IsTally(front, p) || p == Tally(c)
    ensures WithChoices(more, places0, transitions0, places[Tally(c) := Place([0], [0])], AddKey(transitions, Vote(c)))
  {
    hide IsVote, IsTally, Vote, Tally;
  }

  method AddGates(choices: seq<string>, arcs0: seq<Arc>) returns (arcs: seq<Arc>)
    ensures arcs == arcs0 + GateArcs(choices)
  {
    arcs := arcs0;
    for k := 0 to |choices|
      invariant arcs == arcs0 + GateArcs(choices[..k])
    {
      var c := choices[k];
      assert choices[..k + 1][..k] == choices[..k];
      arcs := arcs + [Unit("pollConfig", Vote(c))];
      arcs := arcs + [Unit(Vote(c), "pollConfig")];
      arcs := arcs + [Unit("voterRegistry", Vote(c))];
    }
    assert choices[..|choices|] == choices;
  }

  /** The net that choices are injected into: the template without castVote and tallies. */
  ghost predicate PollNetOf(model: Net, choices: seq<string>, regCount: nat, m: Net)
  {
    && m.arcs == KeptArcs(model.arcs) + BallotArcs(choices) + LifecycleArcs + GateArcs(choices)
    && (forall t :: t in m.transitions <==> (t in model.transitions && t != "castVote") || IsVote(choices, t))
    && PollPlaces(model, choices, regCount, m.place)
  }

  /** `injectPollChoices`. */
  method InjectPollChoices(model: Net, choices: seq<string>, regCount: nat) returns (m: Net)
    ensures choices == [] ==> m == model
    ensures choices != [] ==> PollNetOf(model, choices, regCount, m)
  {
    if |choices| == 0 { return model; }
    var transitions := RemoveAll(model.transitions, "castVote");
    RemovedExactly(model.transitions, "castVote");
    var arcs := KeptArcs(model.arcs);
    var places;
    places, transitions, arcs := AddChoices(choices, model.place - {"tallies"}, transitions, arcs);
    places := SharedPlaces(model, choices, regCount, places);
    hide IsVote, IsTally, KeptArcs, BallotArcs, GateArcs;
    ghost var ballots := arcs;
    arcs := arcs + [Unit("createPoll", "pollConfig")];
    arcs := arcs + [Unit("pollConfig", "closePoll")];
    assert arcs == ballots + LifecycleArcs;
    arcs := AddGates(choices, arcs);
    var order := KeyOrder(model.order, choices);
    m := Net(model.token, order, places, transitions, arcs);
  }

  lemma KeysOfDistinct(ids: seq<string>)
    requires Distinct(ids)
    ensures KeysOf(ids) == ids
  {
    if ids != [] {
      var front := ids[..|ids| - 1];
      KeysOfDistinct(front);
      assert ids == front + [ids[|ids| - 1]] && ids[|ids| - 1] !in front;
    }
  }

  /** States with different names and no initial value become empty places. */
  lemma EmptyPlaces(states: seq<StateDecl>, places: map<string, Place>)
    requires PlacesDeclared(states, places) && Distinct(StateIds(states))
    requires forall i :: 0 <= i < |states| ==> states[i].initial == None
    ensures forall p :: p in places <==> p in StateIds(states)
    ensures forall p :: p in places ==> places[p] == Place([0], [])
  {
    forall p | p in places
      ensures places[p] == Place([0], [])
    {
      assert p in StateIds(states);
      var i :| 0 <= i < |states| && StateIds(states)[i] == p;
      assert StateIds(states[i + 1..]) == StateIds(states)[i + 1..];
      assert states[i].id !in StateIds(states)[i + 1..];
    }
  }

  lemma VoteNames()
    ensures Distinct(VoteTemplate().order) && Distinct(VoteSchema().actions)
  {
    var ids, actions := VoteTemplate().order, VoteSchema().actions;
    assert ids[0][0] == 'v' && ids[1][0] == 'n' && ids[2][0] == 't' && ids[3][0] == 'p' && ids[4][0] == 'r';
    assert |actions[0]| == 10 && |actions[1]| == 13 && |actions[2]| == 8 && |actions[3]| == 9;
  }

  lemma VoteStates()
    ensures StateIds(VoteSchema().states) == VoteTemplate().order
    ensures forall i :: 0 <= i < |VoteSchema().states| ==> VoteSchema().states[i].initial == None
  {
  }

  lemma VotePlaces(places: map<string, Place>)
    requires forall p :: p in places <==> p in VoteTemplate().order
    requires forall p :: p in places ==> places[p] == Place([0], [])
    ensures places == VoteTemplate().place
  {
    assert forall p :: p in VoteTemplate().place <==> p in VoteTemplate().order;
  }

  lemma VoteArcs()
    ensures var arcs := VoteSchema().arcs;
      seq(|arcs|, i requires 0 <= i < |arcs| => Unit(arcs[i].0, arcs[i].1)) == VoteTemplate().arcs
  {
  }

  /** The vote schema becomes the vote template. */
  lemma VoteTemplateIsPflow(net: Net)
    requires IsPflow(VoteSchema(), net)
    ensures net == VoteTemplate()
  {
    VoteStates();
    VoteNames();
    VoteArcs();
    assert VoteTemplate().token == [Black] && VoteTemplate().transitions == VoteSchema().actions;
    hide VoteSchema, VoteTemplate, KeysOf, DeclaredPlace, PlacesDeclared;
    EmptyPlaces(VoteSchema().states, net.place);
    VotePlaces(net.place);
    KeysOfDistinct(VoteTemplate().order);
    KeysOfDistinct(VoteSchema().actions);
  }

  /** The net the editor shows for a poll. */
  method BuildPoll(choices: seq<string>, regCount: nat) returns (m: Net)
    requires choices != [] && Distinct(choices)
    ensures IsPoll(m, choices, regCount)
  {
    var model := MetamodelToPflow(VoteSchema());
    VoteTemplateIsPflow(model);
    m := InjectPollChoices(model, choices, regCount);
  }

  ghost predicate PollPlaces(model: Net, choices: seq<string>, regCount: nat, places: map<string, Place>)
  {
    && (forall p :: p in places <==>
          (p in model.place && p != "tallies") || IsTally(choices, p)
          || p == "pollConfig" || p == "voterRegistry" || p == "nullifiers")
    && places["pollConfig"] == Place([0], DeclaredCapacity(model.place, "pollConfig"))
    && places["voterRegistry"] == Place([regCount], DeclaredCapacity(model.place, "voterRegistry"))
    && (forall p :: p in places && p != "pollConfig" && p != "voterRegistry" ==>
          if IsTally(choices, p) then places[p] == Place([0], [0])
          else places[p] == if p in model.place then model.place[p] else Place([], []))
  }

  method SharedPlaces(model: Net, choices: seq<string>, regCount: nat, places0: map<string, Place>)
      returns (places: map<string, Place>)
    requires forall p :: p in places0 <==> (p in model.place && p != "tallies") || IsTally(choices, p)
    requires forall p :: p in places0 ==> places0[p] == if IsTally(choices, p) then Place([0], [0]) else model.place[p]
    ensures PollPlaces(model, choices, regCount, places)
  {
    TalliesAreNew(choices);
    hide IsTally;
    places := SetInitial(places0, "pollConfig", 0);
    places := SetInitial(places, "voterRegistry", regCount);
    places := places["nullifiers" := if "nullifiers" in places then places["nullifiers"] else Place([], [])];
  }

  /** Insertion order of the places object. */
  function KeyOrder(order: seq<string>, choices: seq<string>): seq<string>
  {
    AddKey(AddKey(AddKey(AddTallies(RemoveAll(order, "tallies"), choices), "pollConfig"), "voterRegistry"), "nullifiers")
  }

  function AddTallies(order: seq<string>, choices: seq<string>): seq<string>
    decreases choices
  {
    if choices == [] then order else AddTallies(AddKey(order, Tally(choices[0])), choices[1..])
  }

  lemma {:induction false} RemovedExactly(s: seq<string>, x: string)
    ensures forall t :: t in RemoveAll(s, x) <==> t in s && t != x
  {
    if s != [] {
      RemovedExactly(s[..|s| - 1], x);
      assert s == s[..|s| - 1] + [s[|s| - 1]];
    }
  }

  // ---- Names -----------------------------------------------------------------------------------

  lemma VoteName(c: string)
    ensures Vote(c)[5..] == c && Vote(c)[0] == 'v' && Vote(c)[4] == ':'
    ensures Vote(c) != "createPoll" && Vote(c) != "closePoll" && Vote(c) != "registerVoter"
    ensures Vote(c) != "voterRegistry" && Vote(c) != "registrySlots"
  {
  }

  lemma TallyName(c: string)
    ensures Tally(c)[6..] == c && Tally(c)[0] == 't' && Tally(c)[5] == ':'
    ensures Tally(c) != "tallies" && Tally(c) != "pollConfig" && Tally(c) != "voterRegistry"
    ensures Tally(c) != "nullifiers" && Tally(c) != "registrySlots"
  {
  }

  lemma TalliesAreNew(choices: seq<string>)
    ensures !IsTally(choices, "tallies") && !IsTally(choices, "pollConfig")
    ensures !IsTally(choices, "voterRegistry") && !IsTally(choices, "nullifiers")
  {
    assert "tallies"[..6][4] != "tally:"[4];
    assert "pollConfig"[..6][0] != "tally:"[0];
    assert "voterRegistry"[..6][0] != "tally:"[0];
    assert "nullifiers"[..6][0] != "tally:"[0];
  }

  // ---- The incidence of the poll net -------------------------------------------------------------

  /** How many of `choices` the transition `t` votes for. */
  function VotesFor(choices: seq<string>, t: string): nat
  {
    if choices == [] then 0
    else VotesFor(choices[..|choices| - 1], t) + if Vote(choices[|choices| - 1]) == t then 1 else 0
  }

  function Listed(choices: seq<string>, t: string, d: string): nat
  {
    if choices == [] then 0
    else
      var c := choices[|choices| - 1];
      Listed(choices[..|choices| - 1], t, d) + if Vote(c) == t && c == d then 1 else 0
  }

  lemma {:induction false} BallotIncidence(net: Net, choices: seq<string>, t: string)
    requires "voterRegistry" in net.place && "nullifiers" in net.place
    requires t !in net.place && forall c :: c in choices ==> Tally(c) in net.place && Vote(c) !in net.place
    ensures Consumed(net, BallotArcs(choices), t, "voterRegistry", 0) == 0
    ensures Produced(net, BallotArcs(choices), t, "voterRegistry", 0) == 0
    ensures Consumed(net, BallotArcs(choices), t, "nullifiers", 0) == 0
    ensures Produced(net, BallotArcs(choices), t, "nullifiers", 0) == VotesFor(choices, t)
  {
    if choices != [] {
      var front, c := choices[..|choices| - 1], choices[|choices| - 1];
      BallotIncidence(net, front, t);
      TallyName(c);
      TwoArcs(net, BallotArcs(front), Unit(Vote(c), Tally(c)), Unit(Vote(c), "nullifiers"), t, "voterRegistry");
      TwoArcs(net, BallotArcs(front), Unit(Vote(c), Tally(c)), Unit(Vote(c), "nullifiers"), t, "nullifiers");
    }
  }

  lemma {:induction false} BallotTally(net: Net, choices: seq<string>, t: string, d: string)
    requires Tally(d) in net.place && t !in net.place && forall c :: c in choices ==> Vote(c) !in net.place
    ensures Consumed(net, BallotArcs(choices), t, Tally(d), 0) == 0
    ensures Produced(net, BallotArcs(choices), t, Tally(d), 0) == Listed(choices, t, d)
  {
    if choices != [] {
      var front, c := choices[..|choices| - 1], choices[|choices| - 1];
      BallotTally(net, front, t, d);
      TallyName(c);
      TallyName(d);
      TwoArcs(net, BallotArcs(front), Unit(Vote(c), Tally(c)), Unit(Vote(c), "nullifiers"), t, Tally(d));
    }
  }

  function Contribution(net: Net, a: Arc, t: string, p: string): (int, int)
  {
    (if Consumer(net, a, t, p) then At(a.weight, 0) else 0, if Producer(net, a, t, p) then At(a.weight, 0) else 0)
  }

  lemma OneArc(net: Net, arcs: seq<Arc>, a: Arc, t: string, p: string)
    ensures Consumed(net, arcs + [a], t, p, 0) == Consumed(net, arcs, t, p, 0) + Contribution(net, a, t, p).0
    ensures Produced(net, arcs + [a], t, p, 0) == Produced(net, arcs, t, p, 0) + Contribution(net, a, t, p).1
  {
    assert (arcs + [a])[..|arcs|] == arcs;
  }

  lemma TwoArcs(net: Net, arcs: seq<Arc>, a: Arc, b: Arc, t: string, p: string)
    ensures Consumed(net, arcs + [a, b], t, p, 0)
         == Consumed(net, arcs, t, p, 0) + Contribution(net, a, t, p).0 + Contribution(net, b, t, p).0
    ensures Produced(net, arcs + [a, b], t, p, 0)
         == Produced(net, arcs, t, p, 0) + Contribution(net, a, t, p).1 + Contribution(net, b, t, p).1
  {
    assert arcs + [a, b] == (arcs + [a]) + [b];
    OneArc(net, arcs, a, t, p);
    OneArc(net, arcs + [a], b, t, p);
  }

  lemma {:induction false} GateIncidence(net: Net, choices: seq<string>, t: string, p: string)
    requires "voterRegistry" in net.place && t !in net.place && p in net.place && p != "pollConfig"
    requires forall c :: c in choices ==> Vote(c) !in net.place
    ensures Consumed(net, GateArcs(choices), t, p, 0) == if p == "voterRegistry" then VotesFor(choices, t) else 0
    ensures Produced(net, GateArcs(choices), t, p, 0) == 0
  {
    if choices != [] {
      var front, c := choices[..|choices| - 1], choices[|choices| - 1];
      GateIncidence(net, front, t, p);
      var a, b, d := Unit("pollConfig", Vote(c)), Unit(Vote(c), "pollConfig"), Unit("voterRegistry", Vote(c));
      assert GateArcs(choices) == (GateArcs(front) + [a, b]) + [d];
      TwoArcs(net, GateArcs(front), a, b, t, p);
      OneArc(net, GateArcs(front) + [a, b], d, t, p);
    }
  }

  lemma KeptTemplateArcs()
    ensures KeptArcs(VoteTemplate().arcs) == [Unit("registerVoter", "registrySlots")]
  {
    var a, b := Unit("castVote", "tallies"), Unit("castVote", "nullifiers");
    var c, d := Unit("registerVoter", "registrySlots"), Unit("registrySlots", "castVote");
    assert VoteTemplate().arcs == [a, b, c, d];
    assert [a, b, c, d][..3] == [a, b, c] && [a, b, c][..2] == [a, b] && [a, b][..1] == [a] && [a][..0] == [];
    assert KeptArcs([a]) == [];
    assert KeptArcs([a, b]) == [];
    assert KeptArcs([a, b, c]) == [c];
  }

  lemma FixedArcsIdle(net: Net, t: string, p: string)
    requires p != "registrySlots" && p != "registerVoter" && p != "pollConfig" && p != "createPoll" && p != "closePoll"
    requires t !in net.place
    ensures Consumed(net, KeptArcs(VoteTemplate().arcs), t, p, 0) == 0 == Produced(net, KeptArcs(VoteTemplate().arcs), t, p, 0)
    ensures Consumed(net, LifecycleArcs, t, p, 0) == 0 == Produced(net, LifecycleArcs, t, p, 0)
  {
    KeptTemplateArcs();
    assert [] + [Unit("registerVoter", "registrySlots")] == [Unit("registerVoter", "registrySlots")];
    OneArc(net, [], Unit("registerVoter", "registrySlots"), t, p);
    assert [] + LifecycleArcs == LifecycleArcs;
    TwoArcs(net, [], Unit("createPoll", "pollConfig"), Unit("pollConfig", "closePoll"), t, p);
  }

  lemma {:induction false} ConcatIncidence(net: Net, x: seq<Arc>, y: seq<Arc>, t: string, p: string)
    ensures Consumed(net, x + y, t, p, 0) == Consumed(net, x, t, p, 0) + Consumed(net, y, t, p, 0)
    ensures Produced(net, x + y, t, p, 0) == Produced(net, x, t, p, 0) + Produced(net, y, t, p, 0)
  {
    if y == [] {
      assert x + y == x;
    } else {
      ConcatIncidence(net, x, y[..|y| - 1], t, p);
      assert (x + y)[..|x + y| - 1] == x + y[..|y| - 1];
    }
  }

  /** The net of a poll with distinct choices. */
  ghost predicate IsPoll(m: Net, choices: seq<string>, regCount: nat)
  {
    choices != [] && Distinct(choices) && PollNetOf(VoteTemplate(), choices, regCount, m)
  }

  lemma PollNames(m: Net, choices: seq<string>, regCount: nat)
    requires IsPoll(m, choices, regCount)
    ensures "voterRegistry" in m.place && "nullifiers" in m.place
    ensures forall c :: c in choices ==> Tally(c) in m.place && Vote(c) !in m.place
    ensures forall t :: t in m.transitions ==> t !in m.place
  {
    hide *;
    forall c | c in choices
      ensures Tally(c) in m.place && Vote(c) !in m.place
    {
      ChoiceNames(m, choices, regCount, c);
    }
    forall t | t in m.transitions
      ensures t !in m.place
    {
      TransitionIsNoPlace(m, choices, regCount, t);
    }
    SharedNames(m, choices, regCount);
  }

  lemma SharedNames(m: Net, choices: seq<string>, regCount: nat)
    requires IsPoll(m, choices, regCount)
    ensures "voterRegistry" in m.place && "nullifiers" in m.place
  {
  }

  lemma ChoiceNames(m: Net, choices: seq<string>, regCount: nat, c: string)
    requires IsPoll(m, choices, regCount) && c in choices
    ensures Tally(c) in m.place && Vote(c) !in m.place
  {
    TallyForm(Tally(c), c);
    VoteName(c);
    hide Tally, Vote;
  }

  lemma PlaceNames(m: Net, choices: seq<string>, regCount: nat, p: string)
    requires IsPoll(m, choices, regCount) && p in m.place
    ensures IsTally(choices, p) || p in {"voterRegistry", "nullifiers", "pollConfig", "registrySlots"}
  {
    hide IsTally;
  }

  lemma TransitionNames(m: Net, choices: seq<string>, regCount: nat, t: string)
    requires IsPoll(m, choices, regCount) && t in m.transitions
    ensures IsVote(choices, t) || t in {"createPoll", "registerVoter", "closePoll"}
  {
    hide IsVote, PollPlaces;
  }

  lemma TransitionIsNoPlace(m: Net, choices: seq<string>, regCount: nat, t: string)
    requires IsPoll(m, choices, regCount) && t in m.transitions
    ensures t !in m.place
  {
    TransitionNames(m, choices, regCount, t);
    if t in m.place { PlaceNames(m, choices, regCount, t); }
    hide IsPoll;
    if IsVote(choices, t) {
      VoteForm(t, t[5..]);
      ChoiceNames(m, choices, regCount, t[5..]);
    } else {
      assert t[..6][0] != "tally:"[0];
    }
  }

  lemma PollEffects(m: Net, choices: seq<string>, regCount: nat, t: string, p: string)
    requires IsPoll(m, choices, regCount) && t in m.transitions
    requires p == "voterRegistry" || p == "nullifiers" || IsTally(choices, p)
    ensures p == "voterRegistry" ==> Effect(m, t, p, 0) == 0 - VotesFor(choices, t)
    ensures p == "nullifiers" ==> Effect(m, t, p, 0) == VotesFor(choices, t)
    ensures IsTally(choices, p) ==> Effect(m, t, p, 0) == Listed(choices, t, p[6..])
  {
    PollNames(m, choices, regCount);
    TalliesAreNew(choices);
    if IsTally(choices, p) {
      TallyForm(p, p[6..]);
      TallyName(p[6..]);
      BallotTally(m, choices, t, p[6..]);
    } else {
      BallotIncidence(m, choices, t);
    }
    FixedArcsIdle(m, t, p);
    GateIncidence(m, choices, t, p);
    var k := KeptArcs(VoteTemplate().arcs);
    ConcatIncidence(m, k, BallotArcs(choices), t, p);
    ConcatIncidence(m, k + BallotArcs(choices), LifecycleArcs, t, p);
    ConcatIncidence(m, k + BallotArcs(choices) + LifecycleArcs, GateArcs(choices), t, p);
  }

  // ---- Conservation ------------------------------------------------------------------------------

  function TallyTotal(m: Marking, choices: seq<string>): int
  {
    if choices == [] then 0 else Tok(m, Tally(choices[0]), 0) + TallyTotal(m, choices[1..])
  }

  function TallyTerms(choices: seq<string>, coefficient: int): seq<Term>
  {
    if choices == [] then [] else [Term(Tally(choices[0]), 0, coefficient)] + TallyTerms(choices[1..], coefficient)
  }

  lemma {:induction false} WeighTallies(choices: seq<string>, coefficient: int, m: Marking)
    ensures Weigh(TallyTerms(choices, coefficient), m) == coefficient * TallyTotal(m, choices)
  {
    if choices != [] {
      WeighTallies(choices[1..], coefficient, m);
      assert TallyTerms(choices, coefficient)[1..] == TallyTerms(choices[1..], coefficient);
    }
  }

  lemma {:induction false} ListedOnce(choices: seq<string>, t: string, d: string)
    requires Distinct(choices)
    ensures Listed(choices, t, d) == if d in choices && Vote(d) == t then 1 else 0
  {
    if choices != [] {
      ListedOnce(choices[..|choices| - 1], t, d);
      assert choices == choices[..|choices| - 1] + [choices[|choices| - 1]];
    }
  }

  function ChosenCount(ds: seq<string>, t: string): nat
  {
    if ds == [] then 0 else (if Vote(ds[0]) == t then 1 else 0) + ChosenCount(ds[1..], t)
  }

  lemma {:induction false} ChosenCountAppend(ds: seq<string>, d: string, t: string)
    ensures ChosenCount(ds + [d], t) == ChosenCount(ds, t) + if Vote(d) == t then 1 else 0
  {
    if ds == [] {
      assert ds + [d] == [d];
    } else {
      ChosenCountAppend(ds[1..], d, t);
      assert (ds + [d])[1..] == ds[1..] + [d];
    }
  }

  lemma {:induction false} ChosenIsVotes(choices: seq<string>, t: string)
    ensures ChosenCount(choices, t) == VotesFor(choices, t)
  {
    if choices != [] {
      var front := choices[..|choices| - 1];
      ChosenIsVotes(front, t);
      ChosenCountAppend(front, choices[|choices| - 1], t);
      assert choices == front + [choices[|choices| - 1]];
    }
  }

  lemma TallyEffect(m: Net, choices: seq<string>, regCount: nat, t: string, d: string)
    requires IsPoll(m, choices, regCount) && t in m.transitions && d in choices
    ensures Effect(m, t, Tally(d), 0) == if Vote(d) == t then 1 else 0
  {
    TallyForm(Tally(d), d);
    PollEffects(m, choices, regCount, t, Tally(d));
    ListedOnce(choices, t, d);
  }

  lemma {:induction false} TallyEffects(m: Net, choices: seq<string>, regCount: nat, t: string,
                                        ds: seq<string>, coefficient: int)
    requires IsPoll(m, choices, regCount) && t in m.transitions && forall d :: d in ds ==> d in choices
    ensures WeighEffect(TallyTerms(ds, coefficient), m, t) == coefficient * ChosenCount(ds, t)
  {
    hide IsPoll, Effect, Vote, IsTally, Listed;
    if ds != [] {
      TallyEffects(m, choices, regCount, t, ds[1..], coefficient);
      TallyEffect(m, choices, regCount, t, ds[0]);
      SplitEffect(Term(Tally(ds[0]), 0, coefficient), TallyTerms(ds[1..], coefficient), m, t);
    }
  }

  lemma {:induction false} PollInvariants(m: Net, choices: seq<string>, regCount: nat)
    requires IsPoll(m, choices, regCount)
    ensures PlaceInvariant([Term("voterRegistry", 0, 1)] + TallyTerms(choices, 1), m)
    ensures PlaceInvariant([Term("nullifiers", 0, 1)] + TallyTerms(choices, -1), m)
  {
    forall t | t in m.transitions
      ensures WeighEffect([Term("voterRegistry", 0, 1)] + TallyTerms(choices, 1), m, t) == 0
      ensures WeighEffect([Term("nullifiers", 0, 1)] + TallyTerms(choices, -1), m, t) == 0
    {
      PollEffects(m, choices, regCount, t, "voterRegistry");
      PollEffects(m, choices, regCount, t, "nullifiers");
      TallyEffects(m, choices, regCount, t, choices, 1);
      TallyEffects(m, choices, regCount, t, choices, -1);
      ChosenIsVotes(choices, t);
      SplitEffect(Term("voterRegistry", 0, 1), TallyTerms(choices, 1), m, t);
      SplitEffect(Term("nullifiers", 0, 1), TallyTerms(choices, -1), m, t);
    }
  }

  lemma SplitEffect(x: Term, y: seq<Term>, net: Net, t: string)
    ensures WeighEffect([x] + y, net, t) == x.coefficient * Effect(net, t, x.place, x.color) + WeighEffect(y, net, t)
  {
    assert ([x] + y)[1..] == y;
  }

  lemma SplitWeight(x: Term, y: seq<Term>, m: Marking)
    ensures Weigh([x] + y, m) == x.coefficient * Tok(m, x.place, x.color) + Weigh(y, m)
  {
    assert ([x] + y)[1..] == y;
  }

  lemma {:induction false} NoVotesYet(m: Net, choices: seq<string>, regCount: nat, ds: seq<string>)
    requires IsPoll(m, choices, regCount) && forall d :: d in ds ==> d in choices
    ensures TallyTotal(InitialMarking(m), ds) == 0
  {
    if ds != [] {
      NoVotesYet(m, choices, regCount, ds[1..]);
      TallyForm(Tally(ds[0]), ds[0]);
      TalliesAreNew(choices);
      PollNames(m, choices, regCount);
    }
  }

  lemma StartsWithinCapacity(m: Net, choices: seq<string>, regCount: nat)
    requires IsPoll(m, choices, regCount)
    ensures WithinCapacity(m, InitialMarking(m))
    ensures Tok(InitialMarking(m), "voterRegistry", 0) == regCount && Tok(InitialMarking(m), "nullifiers", 0) == 0
  {
    TalliesAreNew(choices);
    hide IsTally;
    forall p | p in m.place
      ensures |m.place[p].initial| == 1 && m.place[p].initial[0] >= 0
      ensures forall i: nat, n: int :: FitsIn(m.place[p].capacity, i, n)
    {
    }
  }

  lemma {:induction false} TalliesNonNegative(m: Net, choices: seq<string>, regCount: nat, e: Marking, ds: seq<string>)
    requires IsPoll(m, choices, regCount) && WithinCapacity(m, e) && forall d :: d in ds ==> d in choices
    ensures 0 <= TallyTotal(e, ds)
  {
    if ds != [] {
      TalliesNonNegative(m, choices, regCount, e, ds[1..]);
      PollNames(m, choices, regCount);
      assert Tally(ds[0]) in m.place;
    }
  }

  /**
   * In every reachable marking of a poll each vote has used up one registration and one nullifier, so there are never
   * more votes than registered voters.
   */
  lemma PollConservation(m: Net, choices: seq<string>, regCount: nat, ts: seq<string>)
    requires IsPoll(m, choices, regCount) && forall t :: t in ts ==> t in m.transitions
    requires Run(m, InitialMarking(m), ts).Some?
    ensures var e := Run(m, InitialMarking(m), ts).value;
      && Tok(e, "voterRegistry", 0) + TallyTotal(e, choices) == regCount
      && Tok(e, "nullifiers", 0) == TallyTotal(e, choices)
      && 0 <= TallyTotal(e, choices) <= regCount
  {
    var s := InitialMarking(m);
    var e := Run(m, s, ts).value;
    PollInvariants(m, choices, regCount);
    StartsWithinCapacity(m, choices, regCount);
    RunKeepsCapacity(m, s, ts);
    NoVotesYet(m, choices, regCount, choices);
    TalliesNonNegative(m, choices, regCount, e, choices);
    PollNames(m, choices, regCount);
    WeighPoll(m, choices, s, e, ts, Term("voterRegistry", 0, 1), 1);
    WeighPoll(m, choices, s, e, ts, Term("nullifiers", 0, 1), -1);
    assert 0 <= Tok(e, "voterRegistry", 0);
  }

  lemma WeighPoll(m: Net, choices: seq<string>, s: Marking, e: Marking, ts: seq<string>, x: Term, coefficient: int)
    requires PlaceInvariant([x] + TallyTerms(choices, coefficient), m)
    requires Run(m, s, ts) == Some(e) && forall t :: t in ts ==> t in m.transitions
    ensures x.coefficient * Tok(s, x.place, x.color) + coefficient * TallyTotal(s, choices)
         == x.coefficient * Tok(e, x.place, x.color) + coefficient * TallyTotal(e, choices)
  {
    var y := TallyTerms(choices, coefficient);
    InvariantConserved([x] + y, m, s, ts);
    SplitWeight(x, y, s);
    SplitWeight(x, y, e);
    WeighTallies(choices, coefficient, s);
    WeighTallies(choices, coefficient, e);
  }
}
