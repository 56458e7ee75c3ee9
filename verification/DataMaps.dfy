/** The keyed map places of public/state.js and their totals. */
module DataMaps {
  import opened Sets

  /** An entry of a map place: an amount, or a nested map of amounts. */
  datatype Cell = Amount(n: int) | Nested(m: map<string, int>)

  type DataMap = map<string, Cell>

  /** `parseInt(entry) || 0`: a nested map is no number. */
  function Number(c: Cell): int
  {
    match c
    case Amount(n) => n
    case Nested(_) => 0
  }

  function EntryOf(d: DataMap, key: string): int
  {
    if key in d then Number(d[key]) else 0
  }

  function RowOf(d: DataMap, key: string): map<string, int>
  {
    if key in d && d[key].Nested? then d[key].m else map[]
  }

  function ValueOf(m: map<string, int>, key: string): int
  {
    if key in m then m[key] else 0
  }

  /** The entry change of `_applyDataArc` for one or two non-empty keys; any other number of keys changes nothing. */
  function AddTo(d: DataMap, keys: seq<string>, delta: int): DataMap
  {
    if |keys| == 1 && keys[0] != "" then d[keys[0] := Amount(EntryOf(d, keys[0]) + delta)]
    else if |keys| == 2 && keys[0] != "" && keys[1] != "" then
      var row := RowOf(d, keys[0]);
      d[keys[0] := Nested(row[keys[1] := ValueOf(row, keys[1]) + delta])]
    else d
  }

  // ---- Sums over finite maps ---------------------------------------------------------------------

  /** Sum of f over a finite set. */
  ghost function SumOver(s: set<string>, f: string -> int): int
  {
    if s == {} then 0 else var x := Pick(s); f(x) + SumOver(s - {x}, f)
  }

  lemma {:induction false} SumRemove(s: set<string>, f: string -> int, x: string)
    requires x in s
    ensures SumOver(s, f) == f(x) + SumOver(s - {x}, f)
  {
    var y := Pick(s);
    if x != y {
      SumRemove(s - {y}, f, x);
      SumRemove(s - {x}, f, y);
      assert s - {y} - {x} == s - {x} - {y};
    }
  }

  lemma {:induction false} SumSame(s: set<string>, f: string -> int, g: string -> int)
    requires forall x :: x in s ==> f(x) == g(x)
    ensures SumOver(s, f) == SumOver(s, g)
  {
    if s != {} {
      var x := Pick(s);
      SumSame(s - {x}, f, g);
    }
  }

  /** Changing one value of f changes the sum over a set with that element by the same amount. */
  lemma {:induction false} SumChanged(s: set<string>, f: string -> int, t: set<string>, g: string -> int, x: string)
    requires t == s + {x} && (forall y :: y in s && y != x ==> f(y) == g(y)) && (x !in s ==> f(x) == 0)
    ensures SumOver(t, g) == SumOver(s, f) + g(x) - f(x)
  {
    SumRemove(t, g, x);
    var rest := s - {x};
    assert t - {x} == rest;
    SumSame(rest, f, g);
    if x in s {
      SumRemove(s, f, x);
    } else {
      assert rest == s;
    }
  }

  /** `sum` of a map place with one key: the total of its amounts. */
  ghost function TotalOf(d: DataMap): int
  {
    SumOver(d.Keys, k => EntryOf(d, k))
  }

  ghost function RowTotal(m: map<string, int>): int
  {
    SumOver(m.Keys, k => ValueOf(m, k))
  }

  lemma TotalAfter(d: DataMap, key: string, delta: int)
    requires key != ""
    ensures TotalOf(AddTo(d, [key], delta)) == TotalOf(d) + delta
    ensures forall k :: EntryOf(AddTo(d, [key], delta), k) == EntryOf(d, k) + if k == key then delta else 0
  {
    var d' := AddTo(d, [key], delta);
    SumChanged(d.Keys, k => EntryOf(d, k), d'.Keys, k => EntryOf(d', k), key);
  }

  lemma RowAfter(d: DataMap, key1: string, key2: string, delta: int)
    requires key1 != "" && key2 != ""
    ensures forall k ::
      RowTotal(RowOf(AddTo(d, [key1, key2], delta), k)) == RowTotal(RowOf(d, k)) + if k == key1 then delta else 0
  {
    var d' := AddTo(d, [key1, key2], delta);
    var row, row' := RowOf(d, key1), RowOf(d', key1);
    assert row' == row[key2 := ValueOf(row, key2) + delta];
    SumChanged(row.Keys, k => ValueOf(row, k), row'.Keys, k => ValueOf(row', k), key2);
    assert forall k :: k != key1 ==> RowOf(d', k) == RowOf(d, k);
  }
}
