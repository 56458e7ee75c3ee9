/** The execution state of public/state.js: scalar firing, data arcs with bindings, and the reachability search. */
module Runtime {
  import opened Wrappers
  import opened Sets
  import opened Text
  import opened DataMaps

  datatype Place = Place(id: string, isMap: bool, initial: int)

  datatype Arc = Arc(source: string, target: string, keys: seq<string>, value: string)

  datatype Model = Model(places: seq<Place>, transitions: seq<string>, arcs: seq<Arc>)

  type Tokens = map<string, int>

  /** `placeByID`: the first place with the id. */
  function PlaceByID(places: seq<Place>, id: string): Option<Place>
  {
    if places == [] then None
    else if places[0].id == id then Some(places[0])
    else PlaceByID(places[1..], id)
  }

  lemma {:induction false} FoundPlace(places: seq<Place>, id: string)
    ensures PlaceByID(places, id).Some? ==> exists i :: 0 <= i < |places| && places[i].id == id
  {
    if places != [] && places[0].id != id {
      FoundPlace(places[1..], id);
      if PlaceByID(places[1..], id).Some? {
        var i :| 0 <= i < |places[1..]| && places[1..][i].id == id;
        assert places[i + 1].id == id;
      }
    }
  }

  predicate IsMapPlace(model: Model, id: string)
  {
    var p := PlaceByID(model.places, id);
    p.Some? && p.value.isMap
  }

  /** `tokens[id] || 0` */
  function Get(tokens: Tokens, id: string): int
  {
    if id in tokens then tokens[id] else 0
  }

  // ---- Scalar firing -----------------------------------------------------------------------------

  /** The arc is a scalar input that finds its place empty. */
  predicate Blocks(model: Model, tokens: Tokens, arc: Arc)
  {
    var p := PlaceByID(model.places, arc.source);
    p.Some? && !p.value.isMap && arc.keys == [] && Get(tokens, arc.source) < 1
  }

  predicate Enabled(model: Model, tokens: Tokens, t: string)
  {
    t in model.transitions
    && forall i :: 0 <= i < |model.arcs| && model.arcs[i].target == t ==> !Blocks(model, tokens, model.arcs[i])
  }

  /** The tokens after the first `n` arcs have consumed, when they enter `t`. */
  function Take(model: Model, t: string, tokens: Tokens, n: nat): Tokens
    requires n <= |model.arcs|
  {
    if n == 0 then tokens
    else
      var m, arc := Take(model, t, tokens, n - 1), model.arcs[n - 1];
      if arc.target == t && arc.keys == [] && !IsMapPlace(model, arc.source) then m[arc.source := Get(m, arc.source) - 1]
      else m
  }

  function Give(model: Model, t: string, tokens: Tokens, n: nat): Tokens
    requires n <= |model.arcs|
  {
    if n == 0 then tokens
    else
      var m, arc := Give(model, t, tokens, n - 1), model.arcs[n - 1];
      if arc.source == t && arc.keys == [] && !IsMapPlace(model, arc.target) then m[arc.target := Get(m, arc.target) + 1]
      else m
  }

  function Fired(model: Model, tokens: Tokens, t: string): Tokens
  {
    Give(model, t, Take(model, t, tokens, |model.arcs|), |model.arcs|)
  }

  /** The marking after a run, if every transition was enabled when it fired. */
  function Run(model: Model, tokens: Tokens, run: seq<string>): Option<Tokens>
  {
    if run == [] then Some(tokens)
    else
      var m, t := Run(model, tokens, run[..|run| - 1]), run[|run| - 1];
      if m.Some? && Enabled(model, m.value, t) then Some(Fired(model, m.value, t)) else None
  }

  /** `_matchesMarking` */
  predicate Matches(tokens: Tokens, target: Tokens)
  {
    forall k :: k in target ==> Get(tokens, k) == target[k]
  }

  /** Some run from `tokens` ends in a marking that matches the target. */
  ghost predicate Reachable(model: Model, tokens: Tokens, target: Tokens)
  {
    exists run :: EndsIn(model, tokens, run, target)
  }

  ghost predicate EndsIn(model: Model, tokens: Tokens, run: seq<string>, target: Tokens)
  {
    Run(model, tokens, run).Some? && Matches(Run(model, tokens, run).value, target)
  }

  // ---- Firing with bindings ----------------------------------------------------------------------------

  /** The bindings of one execution, read as texts (for keys) and as numbers (for amounts). */
  datatype Bindings = Bindings(text: map<string, string>, number: map<string, int>)

  /** `String(bindings[name] || '')` */
  function TextOf(b: Bindings, name: string): string
  {
    if name in b.text then b.text[name] else ""
  }

  /** `parseInt(bindings[name], 10) || 0` */
  function NumberOf(b: Bindings, name: string): int
  {
    if name in b.number then b.number[name] else 0
  }

  predicate IsNumeral(v: string)
  {
    v != "" && forall i :: 0 <= i < |v| ==> '0' <= v[i] <= '9'
  }

  function NumeralValue(v: string): nat
    requires forall i :: 0 <= i < |v| ==> '0' <= v[i] <= '9'
  {
    if v == "" then 0 else 10 * NumeralValue(v[..|v| - 1]) + (v[|v| - 1] as int - '0' as int)
  }

  /** `_arcWeight` */
  function ArcWeight(arc: Arc, b: Bindings): int
  {
    if arc.value == "" then 1 else if IsNumeral(arc.value) then NumeralValue(arc.value) else NumberOf(b, arc.value)
  }

  /** The amount that a data arc moves. */
  function DataAmount(arc: Arc, b: Bindings): int
  {
    NumberOf(b, if arc.value == "" then "amount" else arc.value)
  }

  function KeyTexts(arc: Arc, b: Bindings): seq<string>
  {
    seq(|arc.keys|, i requires 0 <= i < |arc.keys| => TextOf(b, arc.keys[i]))
  }

  datatype Store = Store(tokens: Tokens, data: map<string, DataMap>)

  function DataAt(data: map<string, DataMap>, id: string): DataMap
  {
    if id in data then data[id] else map[]
  }

  /** The effect of one arc on its place: tokens of a scalar place, entries of a map place, nothing elsewhere. */
  function ApplyArc(model: Model, b: Bindings, s: Store, id: string, arc: Arc, sign: int): Store
  {
    var p := PlaceByID(model.places, id);
    if p.None? then s
    else if p.value.isMap then
      s.(data := s.data[id := AddTo(DataAt(s.data, id), KeyTexts(arc, b), sign * DataAmount(arc, b))])
    else s.(tokens := s.tokens[id := Get(s.tokens, id) + sign * ArcWeight(arc, b)])
  }

  /** `keys.join(',')` */
  function Join(keys: seq<string>): string
  {
    if keys == [] then "" else if |keys| == 1 then keys[0] else keys[0] + "," + Join(keys[1..])
  }

  /** The text by which an arc's place and keys are compared. */
  function ArcText(place: string, keys: seq<string>): string
  {
    place + "|" + Join(keys)
  }

  /** An input arc of `t` is only read when an output arc of `t` has the text of the same map place and keys. */
  predicate OnlyRead(model: Model, t: string, arc: Arc)
  {
    && IsMapPlace(model, arc.source)
    && exists i :: 0 <= i < |model.arcs| && model.arcs[i].source == t
         && ArcText(model.arcs[i].target, model.arcs[i].keys) == ArcText(arc.source, arc.keys)
  }

  /** `c` is not in `s`. */
  predicate Lacks(s: string, c: char)
  {
    forall i :: 0 <= i < |s| ==> s[i] != c
  }

  lemma CutEarlier(a: string, b: string, c: char, x: string, y: string)
    requires a + [c] + x == b + [c] + y && |a| < |b|
    ensures !Lacks(b, c)
  {
    assert (a + [c] + x)[|a|] == c;
    assert (b + [c] + y)[|a|] == b[|a|];
  }

  lemma CutBefore(a: string, b: string, c: char, x: string, y: string)
    requires a + [c] + x == b + [c] + y && Lacks(a, c) && Lacks(b, c)
    ensures a == b && x == y
  {
    if |a| < |b| { CutEarlier(a, b, c, x, y); }
    if |b| < |a| { CutEarlier(b, a, c, y, x); }
    var s, t := a + [c] + x, b + [c] + y;
    assert a == s[..|a|] && b == t[..|b|] && x == s[|a| + 1..] && y == t[|b| + 1..];
  }

  lemma SameTextSamePlace(p: string, ks: seq<string>, q: string, ls: seq<string>)
    requires Lacks(p, '|') && Lacks(q, '|') && ArcText(p, ks) == ArcText(q, ls)
    ensures p == q && Join(ks) == Join(ls)
  {
    CutBefore(p, q, '|', Join(ks), Join(ls));
  }

  ghost predicate PlainKeys(ks: seq<string>)
  {
    forall i :: 0 <= i < |ks| ==> ks[i] != "" && Lacks(ks[i], ',')
  }

  lemma JoinComma(ks: seq<string>)
    requires |ks| > 1
    ensures Join(ks) == ks[0] + [','] + Join(ks[1..])
    ensures !Lacks(Join(ks), ',')
  {
    assert Join(ks)[|ks[0]|] == ',';
  }

  lemma {:induction false} JoinDetermines(ks: seq<string>, ls: seq<string>)
    requires PlainKeys(ks) && PlainKeys(ls) && Join(ks) == Join(ls)
    ensures ks == ls
  {
    if |ks| > 1 { JoinComma(ks); }
    if |ls| > 1 { JoinComma(ls); }
    if |ks| > 1 && |ls| > 1 {
      CutBefore(ks[0], ls[0], ',', Join(ks[1..]), Join(ls[1..]));
      JoinDetermines(ks[1..], ls[1..]);
      assert ks == [ks[0]] + ks[1..] && ls == [ls[0]] + ls[1..];
    }
  }

  /** Place ids without bars and non-empty key names without commas are compared as such. */
  lemma PlainTextIff(p: string, ks: seq<string>, q: string, ls: seq<string>)
    requires Lacks(p, '|') && Lacks(q, '|') && PlainKeys(ks) && PlainKeys(ls)
    ensures ArcText(p, ks) == ArcText(q, ls) <==> p == q && ks == ls
  {
    if ArcText(p, ks) == ArcText(q, ls) {
      SameTextSamePlace(p, ks, q, ls);
      JoinDetermines(ks, ls);
    }
  }

  /** The key named "x,y" is taken for the keys x and y, and the place "a|b" for the place a with a key. */
  lemma ConflatedTexts()
    ensures ArcText("a", ["x,y"]) == ArcText("a", ["x", "y"])
    ensures ArcText("a|b", []) == ArcText("a", ["b|"])
  {
    assert Join(["y"]) == "y" && ["x", "y"][1..] == ["y"];
  }

  function Consumed(model: Model, t: string, b: Bindings, s: Store, n: nat): Store
    requires n <= |model.arcs|
  {
    if n == 0 then s
    else
      var r, arc := Consumed(model, t, b, s, n - 1), model.arcs[n - 1];
      if arc.target == t && !OnlyRead(model, t, arc) then ApplyArc(model, b, r, arc.source, arc, -1) else r
  }

  function Produced(model: Model, t: string, b: Bindings, s: Store, n: nat): Store
    requires n <= |model.arcs|
  {
    if n == 0 then s
    else
      var r, arc := Produced(model, t, b, s, n - 1), model.arcs[n - 1];
      if arc.source == t then ApplyArc(model, b, r, arc.target, arc, 1) else r
  }

  function Executed(model: Model, t: string, b: Bindings, s: Store): Store
  {
    Produced(model, t, b, Consumed(model, t, b, s, |model.arcs|), |model.arcs|)
  }

  // ---- The search ---------------------------------------------------------------------------------------

  /** `enabledTransitions`, in the order of the model. */
  function EnabledAmong(model: Model, m: Tokens, ts: seq<string>): (r: seq<string>)
    ensures forall t :: t in r <==> t in ts && Enabled(model, m, t)
  {
    if ts == [] then []
    else
      var rest, t := EnabledAmong(model, m, ts[..|ts| - 1]), ts[|ts| - 1];
      assert ts == ts[..|ts| - 1] + [t];
      if Enabled(model, m, t) then rest + [t] else rest
  }

  function Successors(model: Model, m: Tokens, ts: seq<string>): seq<Tokens>
  {
    seq(|ts|, i requires 0 <= i < |ts| => Fired(model, m, ts[i]))
  }

  function Next(model: Model, m: Tokens): seq<Tokens>
  {
    Successors(model, m, EnabledAmong(model, m, model.transitions))
  }

  /** The markings that a search expands, each the first with its key, and the steps it has left. */
  datatype Exploration = Exploration(seen: seq<Tokens>, left: int)

  /** A search from the pending markings that finds no target. */
  function Explored(model: Model, pending: seq<Tokens>, visited: set<string>, steps: int): Exploration
    decreases if steps < 0 then 0 else steps
  {
    if pending == [] || steps <= 0 then Exploration([], steps)
    else
      var m, key := pending[0], MarkingKey(model.places, pending[0]);
      if key in visited then Explored(model, pending[1..], visited, steps - 1)
      else
        var rest := Explored(model, pending[1..] + Next(model, m), visited + {key}, steps - 1);
        Exploration([m] + rest.seen, rest.left)
  }

  /** The search from `start` with so many steps. */
  function Search(model: Model, start: Tokens, steps: int): Exploration
  {
    Explored(model, [start], {}, steps)
  }

  predicate Finds(seen: seq<Tokens>, target: Tokens)
  {
    exists i :: 0 <= i < |seen| && Matches(seen[i], target)
  }

  // ---- What the search may forget --------------------------------------------------------------------

  /** The markings agree on every declared place. */
  ghost predicate Agree(model: Model, a: Tokens, b: Tokens)
  {
    forall i :: 0 <= i < |model.places| ==> Get(a, model.places[i].id) == Get(b, model.places[i].id)
  }

  /** No arc of a transition moves tokens of `id`. */
  predicate Untouched(model: Model, id: string)
  {
    forall i :: 0 <= i < |model.arcs| ==>
      && (model.arcs[i].target in model.transitions ==> model.arcs[i].source != id)
      && (model.arcs[i].source in model.transitions ==> model.arcs[i].target != id)
  }

  /** What `validate` demands of the arcs: both ends known, and a place on exactly one side. */
  ghost predicate ValidArcs(model: Model)
  {
    forall i :: 0 <= i < |model.arcs| ==>
      var s, t := model.arcs[i].source, model.arcs[i].target;
      && (PlaceByID(model.places, s).Some? || s in model.transitions)
      && (PlaceByID(model.places, t).Some? || t in model.transitions)
      && !(PlaceByID(model.places, s).Some? && PlaceByID(model.places, t).Some?)
      && !(s in model.transitions && t in model.transitions)
  }

  /** In a validated model every target is within the reach of the search. */
  lemma ValidatedTargets(model: Model, target: Tokens)
    requires ValidArcs(model)
    ensures Declared(model, target)
  {
    hide PlaceByID;
    forall k | k in target && PlaceByID(model.places, k).None?
      ensures Untouched(model, k)
    {
    }
  }

  /** The target speaks of ids that are declared places or whose tokens no transition moves. */
  ghost predicate Declared(model: Model, target: Tokens)
  {
    forall k :: k in target ==> PlaceByID(model.places, k).Some? || Untouched(model, k)
  }

  lemma {:induction false} FiringLeaves(model: Model, tokens: Tokens, t: string, id: string, n: nat)
    requires Untouched(model, id) && t in model.transitions && n <= |model.arcs|
    ensures Get(Take(model, t, tokens, n), id) == Get(tokens, id)
    ensures Get(Give(model, t, tokens, n), id) == Get(tokens, id)
  {
    if n > 0 { FiringLeaves(model, tokens, t, id, n - 1); }
  }

  lemma {:induction false} RunLeaves(model: Model, tokens: Tokens, run: seq<string>, id: string)
    requires Untouched(model, id) && Run(model, tokens, run).Some?
    ensures Get(Run(model, tokens, run).value, id) == Get(tokens, id)
  {
    if run != [] {
      var m, t := Run(model, tokens, run[..|run| - 1]).value, run[|run| - 1];
      RunLeaves(model, tokens, run[..|run| - 1], id);
      FiringLeaves(model, m, t, id, |model.arcs|);
      FiringLeaves(model, Take(model, t, m, |model.arcs|), t, id, |model.arcs|);
    }
  }

  lemma AgreeAt(model: Model, a: Tokens, b: Tokens, id: string)
    requires Agree(model, a, b) && PlaceByID(model.places, id).Some?
    ensures Get(a, id) == Get(b, id)
  {
    FoundPlace(model.places, id);
  }

  lemma EnabledAgrees(model: Model, a: Tokens, b: Tokens, t: string)
    requires Agree(model, a, b)
    ensures Enabled(model, a, t) == Enabled(model, b, t)
  {
    hide Agree, PlaceByID;
    forall i | 0 <= i < |model.arcs|
      ensures Blocks(model, a, model.arcs[i]) == Blocks(model, b, model.arcs[i])
    {
      if PlaceByID(model.places, model.arcs[i].source).Some? { AgreeAt(model, a, b, model.arcs[i].source); }
    }
  }

  /** Firing changes every place by the same amount whatever the marking. */
  lemma {:induction false} TakeShifts(model: Model, t: string, a: Tokens, b: Tokens, id: string, n: nat)
    requires n <= |model.arcs|
    ensures Get(Take(model, t, a, n), id) - Get(a, id) == Get(Take(model, t, b, n), id) - Get(b, id)
  {
    if n > 0 { TakeShifts(model, t, a, b, id, n - 1); }
  }

  lemma {:induction false} GiveShifts(model: Model, t: string, a: Tokens, b: Tokens, id: string, n: nat)
    requires n <= |model.arcs|
    ensures Get(Give(model, t, a, n), id) - Get(a, id) == Get(Give(model, t, b, n), id) - Get(b, id)
  {
    if n > 0 { GiveShifts(model, t, a, b, id, n - 1); }
  }

  lemma FiredShifts(model: Model, t: string, a: Tokens, b: Tokens, id: string)
    ensures Get(Fired(model, a, t), id) - Get(a, id) == Get(Fired(model, b, t), id) - Get(b, id)
  {
    var n := |model.arcs|;
    TakeShifts(model, t, a, b, id, n);
    GiveShifts(model, t, Take(model, t, a, n), Take(model, t, b, n), id, n);
  }

  lemma FiredAgrees(model: Model, t: string, a: Tokens, b: Tokens)
    requires Agree(model, a, b)
    ensures Agree(model, Fired(model, a, t), Fired(model, b, t))
  {
    forall i | 0 <= i < |model.places|
      ensures Get(Fired(model, a, t), model.places[i].id) == Get(Fired(model, b, t), model.places[i].id)
    {
      FiredShifts(model, t, a, b, model.places[i].id);
    }
  }

  lemma MatchAgrees(model: Model, start: Tokens, run: seq<string>, run': seq<string>, target: Tokens)
    requires Run(model, start, run).Some? && Run(model, start, run').Some?
    requires Agree(model, Run(model, start, run).value, Run(model, start, run').value) && Declared(model, target)
    ensures Matches(Run(model, start, run).value, target) == Matches(Run(model, start, run').value, target)
  {
    hide Agree, PlaceByID, Run, Untouched;
    var a, b := Run(model, start, run).value, Run(model, start, run').value;
    forall k | k in target
      ensures Get(a, k) == Get(b, k)
    {
      if PlaceByID(model.places, k).Some? {
        AgreeAt(model, a, b, k);
      } else {
        RunLeaves(model, start, run, k);
        RunLeaves(model, start, run', k);
      }
    }
  }

  // ---- The marking key ---------------------------------------------------------------------------------

  function Entry(p: Place, tokens: Tokens): string
  {
    p.id + ":" + IntToString(Get(tokens, p.id))
  }

  /** `_markingKey` */
  function MarkingKey(places: seq<Place>, tokens: Tokens): string
  {
    if places == [] then ""
    else if |places| == 1 then Entry(places[0], tokens)
    else Entry(places[0], tokens) + ";" + MarkingKey(places[1..], tokens)
  }

  lemma {:induction false} DecimalChars(n: nat)
    ensures Decimal(n) != [] && forall i :: 0 <= i < |Decimal(n)| ==> '0' <= Decimal(n)[i] <= '9'
  {
    if n >= 10 { DecimalChars(n / 10); }
  }

  lemma {:induction false} DecimalInjective(a: nat, b: nat)
    requires Decimal(a) == Decimal(b)
    ensures a == b
  {
    DecimalChars(a / 10);
    DecimalChars(b / 10);
    if a >= 10 && b >= 10 {
      var s, t := Decimal(a / 10), Decimal(b / 10);
      SameLast(s, Digit(a % 10), t, Digit(b % 10));
      DecimalInjective(a / 10, b / 10);
    }
  }

  lemma SameLast(s: string, c: char, t: string, d: char)
    requires s + [c] == t + [d]
    ensures s == t && c == d
  {
    assert |s| == |t|;
    assert s == (s + [c])[..|s|] && t == (t + [d])[..|t|];
    assert (s + [c])[|s|] == c && (t + [d])[|t|] == d;
  }

  lemma NumberChars(n: int)
    ensures forall i :: 0 <= i < |IntToString(n)| ==> IntToString(n)[i] != ';'
  {
    DecimalChars(if n < 0 then -n else n);
  }

  lemma NumberInjective(a: int, b: int)
    requires IntToString(a) == IntToString(b)
    ensures a == b
  {
    FirstChar(a);
    FirstChar(b);
    Unsigned(a);
    Unsigned(b);
    hide *;
    if a < 0 {
      DecimalInjective(-a, -b);
    } else {
      DecimalInjective(a, b);
    }
  }

  lemma Unsigned(n: int)
    ensures n >= 0 ==> IntToString(n) == Decimal(n)
    ensures n < 0 ==> IntToString(n) == "-" + Decimal(-n) && |IntToString(n)| > 0 && IntToString(n)[1..] == Decimal(-n)
  {
    hide Decimal;
  }

  lemma FirstChar(n: int)
    ensures IntToString(n) != "" && (IntToString(n)[0] == '-' <==> n < 0)
  {
    DecimalChars(if n < 0 then -n else n);
  }

  /** Length of the part before the first semicolon. */
  function Cut(s: string): nat
  {
    if s == "" || s[0] == ';' then 0 else 1 + Cut(s[1..])
  }

  lemma {:induction false} CutNumber(a: string, s: string)
    requires (forall i :: 0 <= i < |a| ==> a[i] != ';') && (s == "" || s[0] == ';')
    ensures Cut(a + s) == |a|
  {
    if a == "" {
      assert a + s == s;
    } else {
      assert (a + s)[0] == a[0] && (a + s)[1..] == a[1..] + s;
      CutNumber(a[1..], s);
    }
  }

  /** A number followed by nothing or by a semicolon is read back in one way. */
  lemma NumberThenRest(a: int, b: int, s: string, t: string)
    requires IntToString(a) + s == IntToString(b) + t
    requires (s == "" || s[0] == ';') && (t == "" || t[0] == ';')
    ensures a == b && s == t
  {
    var A, B := IntToString(a), IntToString(b);
    NumberChars(a);
    NumberChars(b);
    CutNumber(A, s);
    CutNumber(B, t);
    hide *;
    assert A == (A + s)[..|A|] && B == (B + t)[..|B|];
    assert s == (A + s)[|A|..] && t == (B + t)[|B|..];
    NumberInjective(a, b);
  }

  lemma EntryThenRest(p: Place, a: Tokens, b: Tokens, s: string, t: string)
    requires Entry(p, a) + s == Entry(p, b) + t
    requires (s == "" || s[0] == ';') && (t == "" || t[0] == ';')
    ensures Get(a, p.id) == Get(b, p.id) && s == t
  {
    var head := p.id + ":";
    var x, y := IntToString(Get(a, p.id)), IntToString(Get(b, p.id));
    assert Entry(p, a) == head + x && Entry(p, b) == head + y;
    hide *;
    Regroup(head, x, s);
    Regroup(head, y, t);
    SameTail(head, x + s, y + t);
    NumberThenRest(Get(a, p.id), Get(b, p.id), s, t);
  }

  lemma Regroup(a: string, b: string, c: string)
    ensures (a + b) + c == a + (b + c)
  {
  }

  lemma SameTail(head: string, x: string, y: string)
    requires head + x == head + y
    ensures x == y
  {
    assert x == (head + x)[|head|..] && y == (head + y)[|head|..];
  }

  /** What follows the first entry of a key. */
  function KeyRest(places: seq<Place>, tokens: Tokens): (s: string)
    requires places != []
    ensures s == "" || s[0] == ';'
    ensures MarkingKey(places, tokens) == Entry(places[0], tokens) + s
  {
    if |places| == 1 then "" else ";" + MarkingKey(places[1..], tokens)
  }

  lemma KeyRestEqual(places: seq<Place>, a: Tokens, b: Tokens)
    requires places != [] && KeyRest(places, a) == KeyRest(places, b)
    ensures MarkingKey(places[1..], a) == MarkingKey(places[1..], b)
  {
    if |places| > 1 {
      assert KeyRest(places, a)[1..] == MarkingKey(places[1..], a);
      assert KeyRest(places, b)[1..] == MarkingKey(places[1..], b);
    }
  }

  /** Two markings with the same key agree on every place, whatever the place ids are. */
  lemma {:induction false} KeyIsInjective(places: seq<Place>, a: Tokens, b: Tokens)
    requires MarkingKey(places, a) == MarkingKey(places, b)
    ensures forall i :: 0 <= i < |places| ==> Get(a, places[i].id) == Get(b, places[i].id)
  {
    if places != [] {
      var s, t := KeyRest(places, a), KeyRest(places, b);
      KeyIs(places, a);
      KeyIs(places, b);
      hide *;
      EntryThenRest(places[0], a, b, s, t);
      KeyRestEqual(places, a, b);
      KeyIsInjective(places[1..], a, b);
      assert forall i :: 0 < i < |places| ==> places[i] == places[1..][i - 1];
    }
  }

  lemma KeyIs(places: seq<Place>, tokens: Tokens)
    requires places != []
    ensures var s := KeyRest(places, tokens);
      (s == "" || s[0] == ';') && MarkingKey(places, tokens) == Entry(places[0], tokens) + s
  {
  }

  lemma {:induction false} KeyIsFunction(places: seq<Place>, a: Tokens, b: Tokens)
    requires forall i :: 0 <= i < |places| ==> Get(a, places[i].id) == Get(b, places[i].id)
    ensures MarkingKey(places, a) == MarkingKey(places, b)
  {
    if |places| > 1 { KeyIsFunction(places[1..], a, b); }
  }

  // ---- The search ------------------------------------------------------------------------------------------

  /** The queue holds states with the pending markings. */
  ghost predicate Mirrors(model: Model, queue: seq<State>, pending: seq<Tokens>)
    reads queue
  {
    |queue| == |pending| && forall i :: 0 <= i < |queue| ==> queue[i].model == model && queue[i].tokens == pending[i]
  }

  /** The marking, up to its key, has been seen or waits in the queue. */
  ghost predicate Covered(model: Model, visited: set<string>, pending: seq<Tokens>, m: Tokens)
  {
    var key := MarkingKey(model.places, m);
    key in visited || exists j :: 0 <= j < |pending| && MarkingKey(model.places, pending[j]) == key
  }

  /** Every successor of `m` is covered. */
  ghost predicate Closed(model: Model, visited: set<string>, pending: seq<Tokens>, m: Tokens)
  {
    forall t :: Enabled(model, m, t) ==> Covered(model, visited, pending, Fired(model, m, t))
  }

  ghost predicate Visited(model: Model, visited: set<string>, seen: seq<Tokens>)
  {
    && (forall i :: 0 <= i < |seen| ==> MarkingKey(model.places, seen[i]) in visited)
    && (forall k :: k in visited ==> exists i :: 0 <= i < |seen| && MarkingKey(model.places, seen[i]) == k)
  }

  ghost predicate FromRun(model: Model, start: Tokens, m: Tokens)
  {
    exists run :: Run(model, start, run) == Some(m)
  }

  /** Every marking seen or pending is reached, the seen ones are closed, and no two have one key. */
  ghost predicate SearchInvariant(model: Model, start: Tokens, visited: set<string>, seen: seq<Tokens>, pending: seq<Tokens>)
  {
    && Visited(model, visited, seen)
    && AllFromRun(model, start, pending) && AllFromRun(model, start, seen) && AllClosed(model, visited, pending, seen)
    && KeysDiffer(model, seen) && Covered(model, visited, pending, start)
  }

  ghost predicate AllFromRun(model: Model, start: Tokens, ms: seq<Tokens>)
  {
    forall i :: 0 <= i < |ms| ==> FromRun(model, start, ms[i])
  }

  ghost predicate AllClosed(model: Model, visited: set<string>, pending: seq<Tokens>, seen: seq<Tokens>)
  {
    forall i :: 0 <= i < |seen| ==> Closed(model, visited, pending, seen[i])
  }

  ghost predicate KeysDiffer(model: Model, seen: seq<Tokens>)
  {
    forall i, j :: 0 <= i < j < |seen| ==> MarkingKey(model.places, seen[i]) != MarkingKey(model.places, seen[j])
  }

  lemma NewKey(model: Model, visited: set<string>, seen: seq<Tokens>, m: Tokens)
    requires Visited(model, visited, seen) && KeysDiffer(model, seen) && MarkingKey(model.places, m) !in visited
    ensures KeysDiffer(model, seen + [m])
  {
    hide MarkingKey;
  }

  lemma SearchStart(model: Model, start: Tokens)
    ensures SearchInvariant(model, start, {}, [], [start])
  {
    assert Run(model, start, []) == Some(start);
    assert [start][0] == start;
  }

  /** Moving on keeps covered what was covered, when the dropped marking is visited and the new ones are appended. */
  lemma StillCovered(model: Model, visited: set<string>, pending: seq<Tokens>, visited': set<string>, next: seq<Tokens>, m: Tokens)
    requires Covered(model, visited, pending, m) && pending != [] && visited <= visited'
    requires MarkingKey(model.places, pending[0]) in visited'
    ensures Covered(model, visited', pending[1..] + next, m)
  {
    hide MarkingKey;
    var key := MarkingKey(model.places, m);
    if key !in visited' {
      var j :| 0 <= j < |pending| && MarkingKey(model.places, pending[j]) == key;
      assert (pending[1..] + next)[j - 1] == pending[j];
    }
  }

  lemma StillClosed(model: Model, visited: set<string>, pending: seq<Tokens>, visited': set<string>, next: seq<Tokens>, m: Tokens)
    requires Closed(model, visited, pending, m) && pending != [] && visited <= visited'
    requires MarkingKey(model.places, pending[0]) in visited'
    ensures Closed(model, visited', pending[1..] + next, m)
  {
    hide MarkingKey, Enabled, Fired, Covered;
    forall t | Enabled(model, m, t)
      ensures Covered(model, visited', pending[1..] + next, Fired(model, m, t))
    {
      StillCovered(model, visited, pending, visited', next, Fired(model, m, t));
    }
  }

  lemma AllStillClosed(model: Model, visited: set<string>, pending: seq<Tokens>, visited': set<string>, next: seq<Tokens>,
                       seen: seq<Tokens>)
    requires AllClosed(model, visited, pending, seen)
    requires pending != [] && visited <= visited' && MarkingKey(model.places, pending[0]) in visited'
    ensures AllClosed(model, visited', pending[1..] + next, seen)
  {
    hide Closed, MarkingKey;
    forall i | 0 <= i < |seen|
      ensures Closed(model, visited', pending[1..] + next, seen[i])
    {
      StillClosed(model, visited, pending, visited', next, seen[i]);
    }
  }

  lemma SkipSeen(model: Model, start: Tokens, visited: set<string>, seen: seq<Tokens>, pending: seq<Tokens>)
    requires SearchInvariant(model, start, visited, seen, pending) && pending != []
    requires MarkingKey(model.places, pending[0]) in visited
    ensures SearchInvariant(model, start, visited, seen, pending[1..])
  {
    hide MarkingKey, Closed, Covered, FromRun;
    assert pending[1..] + [] == pending[1..];
    StillCovered(model, visited, pending, visited, [], start);
    AllStillClosed(model, visited, pending, visited, [], seen);
  }

  lemma OneStepFurther(model: Model, start: Tokens, m: Tokens, t: string)
    requires FromRun(model, start, m) && Enabled(model, m, t)
    ensures FromRun(model, start, Fired(model, m, t))
  {
    var run :| Run(model, start, run) == Some(m);
    assert (run + [t])[..|run|] == run;
    assert Run(model, start, run + [t]) == Some(Fired(model, m, t)) by { hide Fired, Enabled; }
  }

  /** The expanded marking is closed: its successors wait at the end of the queue. */
  lemma SuccessorsClose(model: Model, visited: set<string>, before: seq<Tokens>, m: Tokens, ts: seq<string>)
    requires forall t :: t in ts <==> Enabled(model, m, t)
    ensures Closed(model, visited, before + Successors(model, m, ts), m)
  {
    hide Enabled, Fired, MarkingKey;
    var pending := before + Successors(model, m, ts);
    forall t | Enabled(model, m, t)
      ensures Covered(model, visited, pending, Fired(model, m, t))
    {
      var i :| 0 <= i < |ts| && ts[i] == t;
      assert pending[|before| + i] == Fired(model, m, t);
    }
  }

  /** One expansion of the search. */
  lemma Expand(model: Model, start: Tokens, visited: set<string>, seen: seq<Tokens>, pending: seq<Tokens>)
    requires SearchInvariant(model, start, visited, seen, pending) && pending != []
    requires MarkingKey(model.places, pending[0]) !in visited
    ensures SearchInvariant(model, start, visited + {MarkingKey(model.places, pending[0])}, seen + [pending[0]],
                            pending[1..] + Next(model, pending[0]))
  {
    var m := pending[0];
    var visited', next := visited + {MarkingKey(model.places, m)}, Next(model, m);
    hide MarkingKey, Next, Covered, AllClosed, AllFromRun, KeysDiffer, Visited;
    NewKey(model, visited, seen, m);
    VisitedMore(model, visited, seen, m);
    StillCovered(model, visited, pending, visited', next, start);
    AllStillClosed(model, visited, pending, visited', next, seen);
    NextIsClosed(model, visited', pending[1..], seen, m);
    NextFromRun(model, start, seen, pending);
  }

  /** The expanded marking joins the closed ones. */
  lemma NextIsClosed(model: Model, visited: set<string>, before: seq<Tokens>, seen: seq<Tokens>, m: Tokens)
    requires AllClosed(model, visited, before + Next(model, m), seen)
    ensures AllClosed(model, visited, before + Next(model, m), seen + [m])
  {
    EnabledIsKnown(model, m);
    hide MarkingKey, Enabled, EnabledAmong, Fired, Covered, Closed;
    SuccessorsClose(model, visited, before, m, EnabledAmong(model, m, model.transitions));
  }

  /** What the search has seen and what is pending after an expansion comes from runs. */
  lemma NextFromRun(model: Model, start: Tokens, seen: seq<Tokens>, pending: seq<Tokens>)
    requires AllFromRun(model, start, seen) && AllFromRun(model, start, pending) && pending != []
    ensures AllFromRun(model, start, seen + [pending[0]])
    ensures AllFromRun(model, start, pending[1..] + Next(model, pending[0]))
  {
    var m := pending[0];
    EnabledIsKnown(model, m);
    hide FromRun, Enabled, EnabledAmong, Fired;
    var ts := EnabledAmong(model, m, model.transitions);
    forall i | 0 <= i < |ts|
      ensures FromRun(model, start, Fired(model, m, ts[i]))
    {
      assert ts[i] in ts;
      OneStepFurther(model, start, m, ts[i]);
    }
  }

  lemma VisitedMore(model: Model, visited: set<string>, seen: seq<Tokens>, m: Tokens)
    requires Visited(model, visited, seen)
    ensures Visited(model, visited + {MarkingKey(model.places, m)}, seen + [m])
  {
    hide MarkingKey;
    var seen' := seen + [m];
    forall k | k in visited + {MarkingKey(model.places, m)}
      ensures exists i :: 0 <= i < |seen'| && MarkingKey(model.places, seen'[i]) == k
    {
      if k in visited {
        var i :| 0 <= i < |seen| && MarkingKey(model.places, seen[i]) == k;
        assert seen'[i] == seen[i];
      } else {
        assert seen'[|seen|] == m;
      }
    }
  }

  lemma ExploredStep(model: Model, pending: seq<Tokens>, visited: set<string>, steps: int)
    requires pending != [] && steps > 0
    ensures var m, key := pending[0], MarkingKey(model.places, pending[0]);
      Explored(model, pending, visited, steps) ==
        if key in visited then Explored(model, pending[1..], visited, steps - 1)
        else
          var rest := Explored(model, pending[1..] + Next(model, m), visited + {key}, steps - 1);
          Exploration([m] + rest.seen, rest.left)
  {
  }

  lemma ExploredEnd(model: Model, pending: seq<Tokens>, visited: set<string>, steps: int)
    requires pending == [] || steps <= 0
    ensures Explored(model, pending, visited, steps) == Exploration([], steps)
  {
  }

  /** What the search expands is reached from the start; with steps to spare nothing is left pending. */
  lemma {:induction false} ExploredKeeps(model: Model, start: Tokens, visited: set<string>, seen: seq<Tokens>,
                                         pending: seq<Tokens>, steps: int)
      returns (visited': set<string>, pending': seq<Tokens>)
    requires SearchInvariant(model, start, visited, seen, pending)
    ensures var e := Explored(model, pending, visited, steps);
      SearchInvariant(model, start, visited', seen + e.seen, pending') && (e.left > 0 ==> pending' == [])
    decreases if steps < 0 then 0 else steps
  {
    hide *;
    if pending == [] || steps <= 0 {
      ExploredEnd(model, pending, visited, steps);
      visited', pending' := visited, pending;
      assert seen + [] == seen;
    } else {
      var m, key := pending[0], MarkingKey(model.places, pending[0]);
      ExploredStep(model, pending, visited, steps);
      if key in visited {
        SkipSeen(model, start, visited, seen, pending);
        visited', pending' := ExploredKeeps(model, start, visited, seen, pending[1..], steps - 1);
      } else {
        Expand(model, start, visited, seen, pending);
        var next := pending[1..] + Next(model, m);
        visited', pending' := ExploredKeeps(model, start, visited + {key}, seen + [m], next, steps - 1);
        var rest := Explored(model, next, visited + {key}, steps - 1);
        assert seen + ([m] + rest.seen) == seen + [m] + rest.seen;
      }
    }
  }

  /** Every run from the start ends in a marking that agrees with a seen one. */
  lemma {:induction false} RunIsSeen(model: Model, start: Tokens, visited: set<string>, seen: seq<Tokens>,
                                     run: seq<string>) returns (i: nat)
    requires SearchInvariant(model, start, visited, seen, []) && Run(model, start, run).Some?
    ensures i < |seen| && Agree(model, seen[i], Run(model, start, run).value)
  {
    hide Enabled, Fired, MarkingKey;
    var end := Run(model, start, run).value;
    if run == [] {
      assert Covered(model, visited, [], start);
      i :| 0 <= i < |seen| && MarkingKey(model.places, seen[i]) == MarkingKey(model.places, start);
    } else {
      var t, m := run[|run| - 1], Run(model, start, run[..|run| - 1]).value;
      var k := RunIsSeen(model, start, visited, seen, run[..|run| - 1]);
      EnabledAgrees(model, seen[k], m, t);
      var next := Fired(model, seen[k], t);
      assert Closed(model, visited, [], seen[k]) && Covered(model, visited, [], next);
      FiredAgrees(model, t, seen[k], m);
      KeyIsFunction(model.places, next, end);
      i :| 0 <= i < |seen| && MarkingKey(model.places, seen[i]) == MarkingKey(model.places, next);
    }
    KeyIsInjective(model.places, seen[i], end);
  }

  /** What a search expands is reached by runs, and no two of its markings agree on all declared places. */
  lemma SearchIsReached(model: Model, start: Tokens, steps: int)
    ensures var seen := Search(model, start, steps).seen;
      && (forall i :: 0 <= i < |seen| ==> FromRun(model, start, seen[i]))
      && forall i, j :: 0 <= i < j < |seen| ==> !Agree(model, seen[i], seen[j])
  {
    var seen := Search(model, start, steps).seen;
    var visited, pending := SearchKeeps(model, start, steps);
    hide Search, MarkingKey, Agree, FromRun, Closed, Covered, Visited;
    forall i, j | 0 <= i < j < |seen|
      ensures !Agree(model, seen[i], seen[j])
    {
      if Agree(model, seen[i], seen[j]) { KeyOfAgreeing(model, seen[i], seen[j]); }
    }
  }

  lemma SearchKeeps(model: Model, start: Tokens, steps: int) returns (visited: set<string>, pending: seq<Tokens>)
    ensures var e := Search(model, start, steps);
      SearchInvariant(model, start, visited, e.seen, pending) && (e.left > 0 ==> pending == [])
  {
    SearchBegins(model, start, steps);
    hide SearchInvariant, Explored;
    SearchStart(model, start);
    visited, pending := ExploredKeeps(model, start, {}, [], [start], steps);
  }

  lemma KeyOfAgreeing(model: Model, a: Tokens, b: Tokens)
    requires Agree(model, a, b)
    ensures MarkingKey(model.places, a) == MarkingKey(model.places, b)
  {
    KeyIsFunction(model.places, a, b);
  }

  /** With steps to spare every run from the start ends in a marking that agrees with an expanded one. */
  lemma SearchIsComplete(model: Model, start: Tokens, steps: int, run: seq<string>) returns (i: nat)
    requires Search(model, start, steps).left > 0 && Run(model, start, run).Some?
    ensures i < |Search(model, start, steps).seen|
    ensures Agree(model, Search(model, start, steps).seen[i], Run(model, start, run).value)
  {
    hide *;
    var visited, pending := SearchKeeps(model, start, steps);
    i := RunIsSeen(model, start, visited, Search(model, start, steps).seen, run);
  }

  lemma FoundIsReachable(model: Model, start: Tokens, steps: int, target: Tokens)
    requires Finds(Search(model, start, steps).seen, target)
    ensures Reachable(model, start, target)
  {
    SearchIsReached(model, start, steps);
    hide Run, Matches, Search;
    var seen := Search(model, start, steps).seen;
    var i :| 0 <= i < |seen| && Matches(seen[i], target);
    var run :| Run(model, start, run) == Some(seen[i]);
    assert EndsIn(model, start, run, target);
  }

  /** For a target that speaks of declared places a search with steps to spare is right. */
  lemma Exhausted(model: Model, start: Tokens, steps: int, target: Tokens)
    requires Search(model, start, steps).left > 0 && Declared(model, target)
    ensures Reachable(model, start, target) ==> Finds(Search(model, start, steps).seen, target)
  {
    hide Enabled, Fired, MarkingKey, Agree, Declared, Run, Matches, Explored, Search;
    if Reachable(model, start, target) {
      var run :| EndsIn(model, start, run, target);
      SearchIsReached(model, start, steps);
      var i := SearchIsComplete(model, start, steps, run);
      var run' :| Run(model, start, run') == Some(Search(model, start, steps).seen[i]);
      MatchAgrees(model, start, run', run, target);
    }
  }

  // ---- When the search is right for every target -----------------------------------------------------

  ghost predicate SameTokens(a: Tokens, b: Tokens)
  {
    forall id :: Get(a, id) == Get(b, id)
  }

  /** Runs from `start` that agree on the declared places agree on everything. */
  ghost predicate KeyDecides(model: Model, start: Tokens)
  {
    forall r1, r2 ::
      (Run(model, start, r1).Some? && Run(model, start, r2).Some?
        && Agree(model, Run(model, start, r1).value, Run(model, start, r2).value)) ==>
      SameTokens(Run(model, start, r1).value, Run(model, start, r2).value)
  }

  lemma DecidedIsFound(model: Model, start: Tokens, steps: int, target: Tokens)
    requires Search(model, start, steps).left > 0 && KeyDecides(model, start) && Reachable(model, start, target)
    ensures Finds(Search(model, start, steps).seen, target)
  {
    hide Enabled, Fired, MarkingKey, Agree, Run, Explored, Search;
    var run :| EndsIn(model, start, run, target);
    SearchIsReached(model, start, steps);
    var i := SearchIsComplete(model, start, steps, run);
    var run' :| Run(model, start, run') == Some(Search(model, start, steps).seen[i]);
    assert SameTokens(Run(model, start, run').value, Run(model, start, run).value);
  }

  /** The target that describes `m` on the declared places and at one more id. */
  function TargetOf(model: Model, m: Tokens, id: string): Tokens
  {
    map k | k in (set i | 0 <= i < |model.places| :: model.places[i].id) + {id} :: Get(m, k)
  }

  lemma TargetAgrees(model: Model, m: Tokens, id: string, other: Tokens)
    requires Matches(other, TargetOf(model, m, id))
    ensures Agree(model, other, m) && Get(other, id) == Get(m, id)
  {
    var target := TargetOf(model, m, id);
    forall i | 0 <= i < |model.places|
      ensures Get(other, model.places[i].id) == Get(m, model.places[i].id)
    {
      assert model.places[i].id in target;
    }
    assert id in target;
  }

  lemma AgreeJoins(model: Model, a: Tokens, b: Tokens, c: Tokens)
    requires Agree(model, a, c) && Agree(model, b, c)
    ensures Agree(model, a, b) && Agree(model, b, a)
  {
  }

  /** A run whose end differs, at `id`, from the expanded marking it agrees with on the declared places is missed. */
  lemma OtherEndIsMissed(model: Model, start: Tokens, steps: int, run: seq<string>, i: nat, id: string)
    requires Run(model, start, run).Some? && i < |Search(model, start, steps).seen|
    requires Agree(model, Search(model, start, steps).seen[i], Run(model, start, run).value)
    requires Get(Search(model, start, steps).seen[i], id) != Get(Run(model, start, run).value, id)
    ensures var target := TargetOf(model, Run(model, start, run).value, id);
      Reachable(model, start, target) && !Finds(Search(model, start, steps).seen, target)
  {
    SearchIsReached(model, start, steps);
    hide Run, Search, Agree, FromRun;
    var seen, end := Search(model, start, steps).seen, Run(model, start, run).value;
    var target := TargetOf(model, end, id);
    assert EndsIn(model, start, run, target);
    hide Get, TargetOf;
    forall j | 0 <= j < |seen|
      ensures !Matches(seen[j], target)
    {
      if Matches(seen[j], target) {
        TargetAgrees(model, end, id, seen[j]);
        AgreeJoins(model, seen[i], seen[j], end);
      }
    }
  }

  /**
   * A search with steps to spare answers rightly for every target exactly when the declared places decide, among the
   * markings that can be reached, the tokens everywhere.
   */
  lemma {:induction false} SearchIsRightIff(model: Model, start: Tokens, steps: int)
    requires Search(model, start, steps).left > 0
    ensures (forall target :: Reachable(model, start, target) <==> Finds(Search(model, start, steps).seen, target))
      <==> KeyDecides(model, start)
  {
    var seen := Search(model, start, steps).seen;
    hide Search, Reachable, Finds;
    if KeyDecides(model, start) {
      forall target
        ensures Reachable(model, start, target) <==> Finds(seen, target)
      {
        if Finds(seen, target) { FoundIsReachable(model, start, steps, target); }
        if Reachable(model, start, target) { DecidedIsFound(model, start, steps, target); }
      }
    } else {
      hide Run, Agree, Get;
      var r1, r2 :| Run(model, start, r1).Some? && Run(model, start, r2).Some?
        && Agree(model, Run(model, start, r1).value, Run(model, start, r2).value)
        && !SameTokens(Run(model, start, r1).value, Run(model, start, r2).value);
      var a, b := Run(model, start, r1).value, Run(model, start, r2).value;
      var id :| Get(a, id) != Get(b, id);
      var i := SearchIsComplete(model, start, steps, r1);
      AgreeOn(model, seen[i], a, b);
      if Get(seen[i], id) != Get(a, id) {
        OtherEndIsMissed(model, start, steps, r1, i, id);
      } else {
        OtherEndIsMissed(model, start, steps, r2, i, id);
      }
    }
  }

  lemma AgreeOn(model: Model, a: Tokens, b: Tokens, c: Tokens)
    requires Agree(model, a, b) && Agree(model, b, c)
    ensures Agree(model, a, c)
  {
  }

  /** In a validated model they always do. */
  lemma ValidModelDecides(model: Model, start: Tokens)
    requires ValidArcs(model)
    ensures KeyDecides(model, start)
  {
    hide Run, PlaceByID, Agree, ValidArcs;
    forall r1, r2 | Run(model, start, r1).Some? && Run(model, start, r2).Some?
      && Agree(model, Run(model, start, r1).value, Run(model, start, r2).value)
      ensures SameTokens(Run(model, start, r1).value, Run(model, start, r2).value)
    {
      var a, b := Run(model, start, r1).value, Run(model, start, r2).value;
      forall id
        ensures Get(a, id) == Get(b, id)
      {
        ValidatedTargets(model, map[id := 0]);
        if PlaceByID(model.places, id).Some? {
          AgreeAt(model, a, b, id);
        } else {
          assert Untouched(model, id);
          RunLeaves(model, start, r1, id);
          RunLeaves(model, start, r2, id);
        }
      }
    }
  }

  // ---- The class ------------------------------------------------------------------------------------------

  datatype RuntimeError = TransitionNotEnabled

  class State {
    const model: Model
    var tokens: Tokens
    var data: map<string, DataMap>
    var sequence: nat

    /** Starts from the initial tokens of the scalar places and empty maps. */
    constructor (model: Model)
      ensures this.model == model && sequence == 0 && tokens == InitialTokens(model.places)
      ensures AllEmpty(data)
    {
      this.model := model;
      sequence := 0;
      tokens := map[];
      data := map[];
      new;
      for i := 0 to |model.places|
        invariant this.model == model && sequence == 0 && tokens == InitialTokens(model.places[..i])
        invariant AllEmpty(data)
      {
        assert model.places[..i + 1][..i] == model.places[..i];
        if model.places[i].isMap {
          data := data[model.places[i].id := map[]];
        } else {
          tokens := tokens[model.places[i].id := model.places[i].initial];
        }
      }
      assert model.places[..|model.places|] == model.places;
    }

    method Clone() returns (s: State)
      ensures fresh(s) && s.model == model && s.tokens == tokens && s.data == data && s.sequence == sequence
    {
      s := new State(model);
      s.tokens := tokens;
      s.data := data;
      s.sequence := sequence;
    }

    method IsEnabled(t: string) returns (b: bool)
      ensures b == Enabled(model, tokens, t)
    {
      if t !in model.transitions { return false; }
      for i := 0 to |model.arcs|
        invariant forall k :: 0 <= k < i && model.arcs[k].target == t ==> !Blocks(model, tokens, model.arcs[k])
      {
        if model.arcs[i].target == t && Blocks(model, tokens, model.arcs[i]) { return false; }
      }
      return true;
    }

    method EnabledTransitions() returns (ts: seq<string>)
      ensures ts == EnabledAmong(model, tokens, model.transitions)
      ensures forall t :: t in ts <==> Enabled(model, tokens, t)
    {
      ts := [];
      hide Enabled;
      for i := 0 to |model.transitions|
        invariant ts == EnabledAmong(model, tokens, model.transitions[..i])
      {
        assert model.transitions[..i + 1][..i] == model.transitions[..i];
        var b := IsEnabled(model.transitions[i]);
        if b { ts := ts + [model.transitions[i]]; }
      }
      assert model.transitions[..|model.transitions|] == model.transitions;
      EnabledIsKnown(model, tokens);
    }

    /** `fire` */
    method Fire(t: string) returns (r: Option<RuntimeError>)
      modifies this`tokens, this`sequence
      ensures r == if old(Enabled(model, tokens, t)) then None else Some(TransitionNotEnabled)
      ensures r.None? ==> tokens == Fired(model, old(tokens), t) && sequence == old(sequence) + 1
      ensures r.Some? ==> tokens == old(tokens) && sequence == old(sequence)
    {
      var b := IsEnabled(t);
      if !b { return Some(TransitionNotEnabled); }
      ghost var before := tokens;
      hide Enabled;
      for i := 0 to |model.arcs|
        invariant tokens == Take(model, t, before, i) && sequence == old(sequence)
      {
        var arc := model.arcs[i];
        if arc.target == t && arc.keys == [] && !IsMapPlace(model, arc.source) {
          tokens := tokens[arc.source := Get(tokens, arc.source) - 1];
        }
      }
      ghost var taken := tokens;
      for i := 0 to |model.arcs|
        invariant tokens == Give(model, t, taken, i) && sequence == old(sequence)
      {
        var arc := model.arcs[i];
        if arc.source == t && arc.keys == [] && !IsMapPlace(model, arc.target) {
          tokens := tokens[arc.target := Get(tokens, arc.target) + 1];
        }
      }
      sequence := sequence + 1;
      return None;
    }

    /** `executeWithBindings` */
    method ExecuteWithBindings(t: string, b: Bindings) returns (r: Option<RuntimeError>)
      modifies this
      ensures r == if old(Enabled(model, tokens, t)) then None else Some(TransitionNotEnabled)
      ensures r.None? ==> Store(tokens, data) == Executed(model, t, b, Store(old(tokens), old(data)))
      ensures r.None? ==> sequence == old(sequence) + 1
      ensures r.Some? ==> tokens == old(tokens) && data == old(data) && sequence == old(sequence)
    {
      var enabled := IsEnabled(t);
      if !enabled { return Some(TransitionNotEnabled); }
      var outputTargets: set<string> := {};
      for i := 0 to |model.arcs|
        invariant forall text :: text in outputTargets <==> exists k ::
          0 <= k < i && model.arcs[k].source == t && text == ArcText(model.arcs[k].target, model.arcs[k].keys)
      {
        hide ArcText;
        if model.arcs[i].source == t {
          outputTargets := outputTargets + {ArcText(model.arcs[i].target, model.arcs[i].keys)};
        }
      }
      ghost var s0 := Store(tokens, data);
      hide Enabled, ApplyArc;
      for i := 0 to |model.arcs|
        invariant Store(tokens, data) == Consumed(model, t, b, s0, i) && sequence == old(sequence)
      {
        var arc := model.arcs[i];
        if arc.target == t {
          OnlyReadIs(model, t, arc, outputTargets);
          if !(ArcText(arc.source, arc.keys) in outputTargets && IsMapPlace(model, arc.source)) {
            Apply(b, arc.source, arc, -1);
          }
        }
      }
      ghost var s1 := Store(tokens, data);
      for i := 0 to |model.arcs|
        invariant Store(tokens, data) == Produced(model, t, b, s1, i) && sequence == old(sequence)
      {
        var arc := model.arcs[i];
        if arc.source == t { Apply(b, arc.target, arc, 1); }
      }
      sequence := sequence + 1;
      return None;
    }

    /** The effect of one arc, with `_applyDataArc` for a map place. */
    method Apply(b: Bindings, id: string, arc: Arc, sign: int)
      modifies this`tokens, this`data
      ensures Store(tokens, data) == ApplyArc(model, b, Store(old(tokens), old(data)), id, arc, sign)
    {
      var place := PlaceByID(model.places, id);
      if place.None? { return; }
      if !place.value.isMap {
        var w := ArcWeight(arc, b);
        tokens := tokens[id := Get(tokens, id) + sign * w];
        return;
      }
      var dataMap := ApplyDataArc(DataAt(data, id), arc, b, sign * DataAmount(arc, b));
      data := data[id := dataMap];
    }

    /** `_matchesMarking`: compares the entries of the target one by one. */
    method MatchesMarking(target: Tokens) returns (b: bool)
      ensures b == Matches(tokens, target)
    {
      var entries := target.Keys;
      while entries != {}
        invariant entries <= target.Keys
        invariant forall k :: k in target && k !in entries ==> Get(tokens, k) == target[k]
        decreases |entries|
      {
        NonEmpty(entries);
        var k :| k in entries;
        if Get(tokens, k) != target[k] { return false; }
        entries := entries - {k};
      }
      return true;
    }

    /** Appends a fired clone for every enabled transition. */
    method Enqueue(queue0: seq<State>, ghost pending: seq<Tokens>) returns (queue: seq<State>)
      requires Mirrors(model, queue0, pending)
      ensures Mirrors(model, queue, pending + Next(model, tokens))
    {
      var enabled := EnabledTransitions();
      queue := queue0;
      hide Enabled, EnabledAmong, Fired;
      for i := 0 to |enabled|
        invariant Mirrors(model, queue, pending + Successors(model, tokens, enabled[..i]))
      {
        assert enabled[..i + 1] == enabled[..i] + [enabled[i]];
        assert enabled[i] in enabled;
        var s := Clone();
        var _ := s.Fire(enabled[i]);
        queue := queue + [s];
      }
      assert enabled[..|enabled|] == enabled;
    }

    /**
     * `canReach`: breadth-first search over marking keys. It answers whether the search expands a match; a positive
     * answer has a run behind it, and a negative answer with steps to spare excludes every run to a declared target.
     */
    method CanReach(target: Tokens, maxSteps: int) returns (r: bool, ghost left: int)
      ensures r <==> Finds(Search(model, tokens, maxSteps).seen, target)
      ensures !r ==> left == Search(model, tokens, maxSteps).left
      ensures r ==> Reachable(model, tokens, target)
      ensures !r && left > 0 && Declared(model, target) ==> !Reachable(model, tokens, target)
    {
      hide *;
      left := maxSteps;
      var steps := maxSteps;
      var visited: set<string> := {};
      var first := Clone();
      var queue := [first];
      ghost var seen: seq<Tokens> := [];
      ghost var pending: seq<Tokens> := [tokens];
      ghost var goal := Search(model, tokens, maxSteps);
      SearchBegins(model, tokens, maxSteps);
      NothingFound(target);
      MirrorsOne(model, first, tokens);
      while |queue| > 0 && steps > 0
        invariant Mirrors(model, queue, pending) && left == steps
        invariant goal == Behind(seen, Explored(model, pending, visited, steps)) && !Finds(seen, target)
        decreases steps
      {
        MirrorsParts(model, queue, pending);
        ExploredStep(model, pending, visited, steps);
        var current := queue[0];
        ghost var m := pending[0];
        queue := queue[1..];
        steps := steps - 1;
        left := steps;
        var key := MarkingKey(current.model.places, current.tokens);
        if key in visited {
          pending := pending[1..];
          continue;
        }
        visited := visited + {key};
        ghost var rest := Explored(model, pending[1..] + Next(model, m), visited, steps);
        BehindMore(seen, m, rest);
        FindsMore(seen, m, rest.seen, target);
        var found := current.MatchesMarking(target);
        if found {
          FoundIsReachable(model, tokens, maxSteps, target);
          return true, left;
        }
        queue := current.Enqueue(queue, pending[1..]);
        seen := seen + [m];
        pending := pending[1..] + Next(model, m);
      }
      MirrorsParts(model, queue, pending);
      ExploredEnd(model, pending, visited, steps);
      BehindNothing(seen, steps);
      if steps > 0 && Declared(model, target) {
        Exhausted(model, tokens, maxSteps, target);
      }
      r := false;
    }
  }

  /** A search that has expanded `seen` before. */
  function Behind(seen: seq<Tokens>, e: Exploration): Exploration
  {
    Exploration(seen + e.seen, e.left)
  }

  lemma SearchBegins(model: Model, start: Tokens, steps: int)
    ensures Search(model, start, steps) == Behind([], Explored(model, [start], {}, steps))
  {
    var e := Explored(model, [start], {}, steps);
    assert [] + e.seen == e.seen;
  }

  lemma BehindMore(seen: seq<Tokens>, m: Tokens, rest: Exploration)
    ensures Behind(seen, Exploration([m] + rest.seen, rest.left)) == Behind(seen + [m], rest)
    ensures Behind(seen + [m], rest).seen == seen + [m] + rest.seen
  {
    assert seen + ([m] + rest.seen) == seen + [m] + rest.seen;
  }

  lemma BehindNothing(seen: seq<Tokens>, steps: int)
    ensures Behind(seen, Exploration([], steps)) == Exploration(seen, steps)
  {
    assert seen + [] == seen;
  }

  lemma NothingFound(target: Tokens)
    ensures !Finds([], target)
  {
  }

  lemma FindsMore(seen: seq<Tokens>, m: Tokens, rest: seq<Tokens>, target: Tokens)
    ensures Finds(seen + [m], target) <==> Finds(seen, target) || Matches(m, target)
    ensures Matches(m, target) ==> Finds(seen + [m] + rest, target)
  {
    hide Matches;
    var all := seen + [m];
    assert forall i :: 0 <= i < |seen| ==> all[i] == seen[i];
    assert all[|seen|] == m && (all + rest)[|seen|] == m;
  }

  // ---- A target that is missed ---------------------------------------------------------------------------

  /** A key that the firing leaves alone ends the search after one marking. */
  lemma OneMarkingSeen(model: Model, start: Tokens, next: Tokens, steps: int)
    requires Next(model, start) == [next] && steps > 2
    requires MarkingKey(model.places, next) == MarkingKey(model.places, start)
    ensures Search(model, start, steps) == Exploration([start], steps - 2)
  {
    hide MarkingKey, Next;
    var key := MarkingKey(model.places, start);
    assert [start][1..] + [next] == [next] && [next][1..] == [];
    ExploredStep(model, [start], {}, steps);
    ExploredStep(model, [next], {key}, steps - 1);
    ExploredEnd(model, [], {key}, steps - 2);
    assert {} + {key} == {key};
  }

  /** The transition t fills q, which is not declared. */
  const Leaky := Model([Place("p", false, 0)], ["t"], [Arc("t", "q", [], "")])

  /** One firing produces into the undeclared q, and a search for q with steps to spare answers that it cannot. */
  method UndeclaredTargetIsMissed() returns (r: bool, ghost left: int)
    ensures r == Finds(Search(Leaky, map["p" := 0], 1000).seen, map["q" := 1])
    ensures left == Search(Leaky, map["p" := 0], 1000).left
    ensures !r && left > 0 && Reachable(Leaky, map["p" := 0], map["q" := 1])
  {
    var state := new State(Leaky);
    ghost var start: Tokens := map["p" := 0];
    assert Leaky.places[..0] == [] && state.tokens == start;
    UndeclaredFiring(Leaky, start);
    r, left := state.CanReach(map["q" := 1], 1000);
  }

  lemma UndeclaredFiring(model: Model, start: Tokens)
    requires model == Model([Place("p", false, 0)], ["t"], [Arc("t", "q", [], "")]) && start == map["p" := 0]
    ensures Search(model, start, 1000) == Exploration([start], 998)
    ensures Reachable(model, start, map["q" := 1]) && !Finds([start], map["q" := 1])
  {
    var m := start["q" := 1];
    assert PlaceByID(model.places, "q").None? by { assert "p" != "q"; }
    assert Take(model, "t", start, 1) == start;
    assert Give(model, "t", start, 0) == start && Give(model, "t", start, 1) == m;
    assert Fired(model, start, "t") == m;
    assert Run(model, start, []) == Some(start) && ["t"][..0] == [];
    assert Run(model, start, ["t"]) == Some(m);
    assert EndsIn(model, start, ["t"], map["q" := 1]);
    assert EnabledAmong(model, start, []) == [] && EnabledAmong(model, start, ["t"]) == ["t"];
    assert Next(model, start) == [m];
    KeyIsFunction(model.places, m, start);
    hide MarkingKey, Next, Search, Fired;
    OneMarkingSeen(model, start, m, 1000);
    assert !Matches(start, map["q" := 1]) by { assert "q" in map["q" := 1]; }
  }

  lemma MirrorsOne(model: Model, s: State, tokens: Tokens)
    requires s.model == model && s.tokens == tokens
    ensures Mirrors(model, [s], [tokens])
  {
  }

  lemma MirrorsParts(model: Model, queue: seq<State>, pending: seq<Tokens>)
    requires Mirrors(model, queue, pending)
    ensures |queue| == |pending|
    ensures queue != [] ==>
      queue[0].model == model && queue[0].tokens == pending[0] && Mirrors(model, queue[1..], pending[1..])
  {
  }

  /** The entry change of `_applyDataArc`. */
  method ApplyDataArc(d: DataMap, arc: Arc, b: Bindings, delta: int) returns (r: DataMap)
    ensures r == AddTo(d, KeyTexts(arc, b), delta)
  {
    r := d;
    if |arc.keys| == 1 {
      var key := TextOf(b, arc.keys[0]);
      if key == "" { return; }
      var current := EntryOf(d, key);
      r := d[key := Amount(current + delta)];
    } else if |arc.keys| == 2 {
      var key1, key2 := TextOf(b, arc.keys[0]), TextOf(b, arc.keys[1]);
      if key1 == "" || key2 == "" { return; }
      var row := RowOf(d, key1);
      var current := ValueOf(row, key2);
      r := d[key1 := Nested(row[key2 := current + delta])];
    }
  }

  predicate AllEmpty(data: map<string, DataMap>)
  {
    forall id :: id in data ==> data[id] == map[]
  }

  lemma OnlyReadIs(model: Model, t: string, arc: Arc, outputTargets: set<string>)
    requires forall text :: text in outputTargets <==> exists k ::
      0 <= k < |model.arcs| && model.arcs[k].source == t && text == ArcText(model.arcs[k].target, model.arcs[k].keys)
    ensures OnlyRead(model, t, arc) <==> ArcText(arc.source, arc.keys) in outputTargets && IsMapPlace(model, arc.source)
  {
    hide IsMapPlace, ArcText;
  }

  function InitialTokens(places: seq<Place>): Tokens
  {
    if places == [] then map[]
    else
      var m, p := InitialTokens(places[..|places| - 1]), places[|places| - 1];
      if p.isMap then m else m[p.id := p.initial]
  }

  lemma EnabledIsKnown(model: Model, tokens: Tokens)
    ensures forall t :: Enabled(model, tokens, t) ==> t in model.transitions
  {
  }
}
