/** The Sugiyama layout of public/petri-view.js: cycle breaking, longest-path levels, barycenter sweeps, coordinates. */
module Layout {
  import opened Sets
  import opened Wrappers

  // ---- The graph ----------------------------------------------------------------------------------

  datatype Graph = Graph(nodes: seq<string>, outgoing: map<string, seq<string>>, incoming: map<string, seq<string>>)

  predicate Edge(g: Graph, u: string, t: string)
  {
    u in g.outgoing && t in g.outgoing[u]
  }

  ghost predicate IsGraph(g: Graph)
  {
    && Distinct(g.nodes)
    && (forall v :: v in g.outgoing <==> v in g.nodes)
    && (forall v :: v in g.incoming <==> v in g.nodes)
    && (forall u, t :: Edge(g, u, t) ==> t in g.nodes && u in g.incoming[t])
    && (forall u, t :: t in g.nodes && u in g.incoming[t] ==> Edge(g, u, t))
  }

  /** The text under which an arc is remembered as a back edge. */
  function Key(u: string, t: string): string
  {
    u + "->" + t
  }

  /** An arc that survives cycle breaking. */
  predicate Kept(g: Graph, back: set<string>, u: string, t: string)
  {
    Edge(g, u, t) && Key(u, t) !in back
  }

  ghost predicate IsWalk(g: Graph, p: seq<string>)
  {
    forall i :: 0 < i < |p| ==> Edge(g, p[i - 1], p[i])
  }

  /** The arc u -> t closes a cycle of arcs. */
  ghost predicate ClosesCycle(g: Graph, u: string, t: string)
  {
    Edge(g, u, t) && exists p: seq<string> :: p != [] && IsWalk(g, p) && p[0] == t && p[|p| - 1] == u
  }

  /** Every text that is remembered is the text of an arc that closes a cycle. */
  ghost predicate BackOnCycles(g: Graph, back: set<string>)
  {
    forall k :: k in back ==> exists u, t :: k == Key(u, t) && ClosesCycle(g, u, t)
  }

  // ---- Cycle breaking --------------------------------------------------------------------------------

  /** Arcs out of finished nodes that are kept lead to nodes that finished before. */
  ghost predicate FinishOrder(g: Graph, back: set<string>, finished: seq<string>)
  {
    forall k, t :: 0 <= k < |finished| && Kept(g, back, finished[k], t) ==> t in finished[..k]
  }

  ghost predicate Searching(g: Graph, visited: set<string>, onStack: set<string>, back: set<string>,
                            finished: seq<string>, path: seq<string>)
  {
    && IsGraph(g) && onStack <= visited
    && (forall v :: v in visited ==> v in g.nodes)
    && (forall v :: v in finished <==> v in visited && v !in onStack)
    && (forall v :: v in path <==> v in onStack)
    && Distinct(finished) && Distinct(path) && IsWalk(g, path)
    && FinishOrder(g, back, finished)
    && BackOnCycles(g, back)
  }

  lemma Enter(g: Graph, visited: set<string>, onStack: set<string>, back: set<string>, finished: seq<string>,
              path: seq<string>, id: string)
    requires Searching(g, visited, onStack, back, finished, path) && id in g.nodes && id !in visited
    requires path != [] ==> Edge(g, path[|path| - 1], id)
    ensures Searching(g, visited + {id}, onStack + {id}, back, finished, path + [id])
  {
    hide FinishOrder, BackOnCycles, Edge, IsGraph;
  }

  lemma AddBack(g: Graph, visited: set<string>, onStack: set<string>, back: set<string>, finished: seq<string>,
                path: seq<string>, t: string)
    requires Searching(g, visited, onStack, back, finished, path)
    requires path != [] && t in onStack && Edge(g, path[|path| - 1], t)
    ensures Searching(g, visited, onStack, back + {Key(path[|path| - 1], t)}, finished, path)
  {
    var id := path[|path| - 1];
    var i :| 0 <= i < |path| && path[i] == t;
    hide Edge, Key, IsGraph;
    var p := path[i..];
    assert IsWalk(g, p) && p[0] == t && p[|p| - 1] == id;
    assert ClosesCycle(g, id, t);
  }

  lemma Leave(g: Graph, visited: set<string>, onStack: set<string>, back: set<string>, finished: seq<string>,
              path: seq<string>, id: string)
    requires Searching(g, visited, onStack, back, finished, path) && path != [] && path[|path| - 1] == id
    requires forall t :: Kept(g, back, id, t) ==> t in finished
    ensures Searching(g, visited, onStack - {id}, back, finished + [id], path[..|path| - 1])
  {
    hide BackOnCycles, IsGraph, Kept;
    assert id in onStack && id !in finished;
    LeaveOrder(g, back, finished, id);
  }

  lemma LeaveOrder(g: Graph, back: set<string>, finished: seq<string>, id: string)
    requires FinishOrder(g, back, finished) && forall t :: Kept(g, back, id, t) ==> t in finished
    ensures FinishOrder(g, back, finished + [id])
  {
    hide Kept;
    var after := finished + [id];
    forall k, t | 0 <= k < |after| && Kept(g, back, after[k], t)
      ensures t in after[..k]
    {
      if k < |finished| {
        assert after[..k] == finished[..k];
      } else {
        assert after[..k] == finished;
      }
    }
  }

  function NodeSet(g: Graph): set<string>
  {
    set v | v in g.nodes
  }

  /** What the search has visited and remembered. */
  datatype Found = Found(visited: set<string>, back: set<string>)

  /** The search after the first `n` targets of `id`, which is on the stack. */
  function Explore(g: Graph, id: string, n: nat, onStack: set<string>, st: Found): (r: Found)
    requires IsGraph(g) && id in g.nodes && n <= |g.outgoing[id]|
    ensures st.visited <= r.visited && st.back <= r.back
    decreases NodeSet(g) - st.visited, n
  {
    if n == 0 then st
    else
      var before := Explore(g, id, n - 1, onStack, st);
      var t := g.outgoing[id][n - 1];
      assert Edge(g, id, t);
      if t !in before.visited then
        Shrinks(g, st.visited, before.visited + {t}, t);
        Explore(g, t, |g.outgoing[t]|, onStack + {t}, Found(before.visited + {t}, before.back))
      else if t in onStack then Found(before.visited, before.back + {Key(id, t)})
      else before
  }

  /** `dfs` of one node. */
  function Dfs(g: Graph, id: string, onStack: set<string>, st: Found): (r: Found)
    requires IsGraph(g) && id in g.nodes
    ensures st.visited + {id} <= r.visited && st.back <= r.back
  {
    Explore(g, id, |g.outgoing[id]|, onStack + {id}, Found(st.visited + {id}, st.back))
  }

  /** The search from the first `n` nodes. */
  function Searched(g: Graph, n: nat): Found
    requires IsGraph(g) && n <= |g.nodes|
  {
    if n == 0 then Found({}, {})
    else
      var before := Searched(g, n - 1);
      if g.nodes[n - 1] in before.visited then before else Dfs(g, g.nodes[n - 1], {}, before)
  }

  /** The texts that cycle breaking remembers. */
  function BackEdges(g: Graph): set<string>
    requires IsGraph(g)
  {
    Searched(g, |g.nodes|).back
  }

  /** The state that the recursive search shares. */
  class Search {
    const g: Graph
    var visited: set<string>
    var onStack: set<string>
    var backEdges: set<string>
    ghost var finished: seq<string>
    ghost var path: seq<string>

    ghost predicate Valid()
      reads this
    {
      Searching(g, visited, onStack, backEdges, finished, path)
    }

    constructor (g: Graph)
      requires IsGraph(g)
      ensures Valid() && this.g == g && visited == {} && onStack == {} && backEdges == {} && path == []
    {
      this.g := g;
      visited, onStack, backEdges := {}, {}, {};
      finished, path := [], [];
    }

    /** `dfs`. */
    method Visit(id: string)
      requires Valid() && id in g.nodes && id !in visited
      requires path != [] ==> Edge(g, path[|path| - 1], id)
      modifies this
      ensures Valid() && onStack == old(onStack) && path == old(path)
      ensures old(visited) + {id} <= visited && old(backEdges) <= backEdges
      ensures IsGraph(g) && Found(visited, backEdges) == Dfs(g, id, onStack, Found(old(visited), old(backEdges)))
      decreases NodeSet(g) - visited
    {
      ghost var start, stack := Found(visited + {id}, backEdges), onStack + {id};
      hide *;
      Opened();
      Enter(g, visited, onStack, backEdges, finished, path, id);
      Known(g, visited, onStack, backEdges, finished, path);
      ExploreNothing(g, id, stack, start);
      visited := visited + {id};
      onStack := onStack + {id};
      path := path + [id];
      ExploredNone(g, backEdges, visited, onStack, id);
      Restored();
      for i := 0 to |g.outgoing[id]|
        invariant Valid()
        invariant onStack == old(onStack) + {id} && path == old(path) + [id]
        invariant old(visited) + {id} <= visited && old(backEdges) <= backEdges
        invariant ExploredUpTo(g, backEdges, visited, onStack, id, i)
        invariant Found(visited, backEdges) == Explore(g, id, i, stack, start)
      {
        Opened();
        var t := g.outgoing[id][i];
        Known(g, visited, onStack, backEdges, finished, path);
        Target(g, id, i);
        ghost var before, known := visited, backEdges;
        ExploreStep(g, id, i, stack, start);
        if t !in visited {
          Shrinks(g, old(visited), visited, id);
          Visit(t);
        } else if t in onStack {
          AddBack(g, visited, onStack, backEdges, finished, path, t);
          backEdges := backEdges + {Key(id, t)};
          Restored();
        }
        Explored(g, known, before, onStack, id, i, backEdges, visited);
      }
      Opened();
      DfsIs(g, id, old(onStack), Found(old(visited), old(backEdges)));
      ExploredAll(g, visited, onStack, backEdges, finished, path, id);
      Leave(g, visited, onStack, backEdges, finished, path, id);
      onStack := onStack - {id};
      finished := finished + [id];
      path := path[..|path| - 1];
      Restored();
    }

    lemma Opened()
      requires Valid()
      ensures Searching(g, visited, onStack, backEdges, finished, path) && IsGraph(g)
      ensures forall v :: v in g.outgoing <==> v in g.nodes
    {
    }

    lemma Restored()
      requires Searching(g, visited, onStack, backEdges, finished, path)
      ensures Valid()
    {
    }
  }

  lemma ExploreNothing(g: Graph, id: string, onStack: set<string>, st: Found)
    requires IsGraph(g) && id in g.nodes
    ensures id in g.outgoing && Explore(g, id, 0, onStack, st) == st
  {
  }

  lemma ExploreStep(g: Graph, id: string, i: nat, onStack: set<string>, st: Found)
    requires IsGraph(g) && id in g.nodes && id in g.outgoing && i < |g.outgoing[id]|
    ensures var before, t := Explore(g, id, i, onStack, st), g.outgoing[id][i];
      && t in g.nodes
      && Explore(g, id, i + 1, onStack, st) ==
           if t !in before.visited then Dfs(g, t, onStack, before)
           else if t in onStack then Found(before.visited, before.back + {Key(id, t)})
           else before
  {
    assert Edge(g, id, g.outgoing[id][i]);
  }

  lemma DfsIs(g: Graph, id: string, onStack: set<string>, st: Found)
    requires IsGraph(g) && id in g.nodes
    ensures id in g.outgoing
    ensures Dfs(g, id, onStack, st)
         == Explore(g, id, |g.outgoing[id]|, onStack + {id}, Found(st.visited + {id}, st.back))
  {
  }

  /** The first `n` targets of `id` are behind: finished, or reached by a back edge. */
  ghost predicate ExploredUpTo(g: Graph, back: set<string>, visited: set<string>, onStack: set<string>, id: string, n: nat)
  {
    && id in g.outgoing && n <= |g.outgoing[id]|
    && forall j :: 0 <= j < n ==>
      var t := g.outgoing[id][j]; Key(id, t) in back || (t in visited && t !in onStack)
  }

  lemma Known(g: Graph, visited: set<string>, onStack: set<string>, back: set<string>, finished: seq<string>, path: seq<string>)
    requires Searching(g, visited, onStack, back, finished, path)
    ensures IsGraph(g) && onStack <= visited <= NodeSet(g)
    ensures forall v :: v in g.outgoing <==> v in g.nodes
  {
  }

  lemma ExploredNone(g: Graph, back: set<string>, visited: set<string>, onStack: set<string>, id: string)
    requires id in g.outgoing
    ensures ExploredUpTo(g, back, visited, onStack, id, 0)
  {
  }

  lemma Target(g: Graph, id: string, i: nat)
    requires IsGraph(g) && id in g.outgoing && i < |g.outgoing[id]|
    ensures Edge(g, id, g.outgoing[id][i]) && g.outgoing[id][i] in g.nodes
  {
    assert Edge(g, id, g.outgoing[id][i]);
  }

  lemma Shrinks(g: Graph, before: set<string>, now: set<string>, id: string)
    requires before + {id} <= now && id !in before && id in g.nodes
    ensures NodeSet(g) - now < NodeSet(g) - before
  {
    assert id in NodeSet(g) - before && id !in NodeSet(g) - now;
  }

  lemma Explored(g: Graph, known: set<string>, before: set<string>, onStack: set<string>, id: string, i: nat,
                 back: set<string>, visited: set<string>)
    requires ExploredUpTo(g, known, before, onStack, id, i) && known <= back && before <= visited
    requires i < |g.outgoing[id]|
    requires var t := g.outgoing[id][i]; Key(id, t) in back || (t in visited && t !in onStack)
    ensures ExploredUpTo(g, back, visited, onStack, id, i + 1)
  {
    hide Key;
  }

  lemma ExploredAll(g: Graph, visited: set<string>, onStack: set<string>, back: set<string>, finished: seq<string>,
                    path: seq<string>, id: string)
    requires Searching(g, visited, onStack, back, finished, path)
    requires id in g.outgoing && ExploredUpTo(g, back, visited, onStack, id, |g.outgoing[id]|)
    ensures forall t :: Kept(g, back, id, t) ==> t in finished
  {
    hide Key, FinishOrder, BackOnCycles;
    forall t | Kept(g, back, id, t)
      ensures t in finished
    {
      var j :| 0 <= j < |g.outgoing[id]| && g.outgoing[id][j] == t;
      assert Key(id, g.outgoing[id][j]) !in back;
    }
  }

  /** Kept arcs lead backwards in `order`, which lists every node once: what is kept has no cycle. */
  ghost predicate IsOrder(g: Graph, back: set<string>, order: seq<string>)
  {
    Distinct(order) && (forall v :: v in order <==> v in g.nodes) && FinishOrder(g, back, order)
  }

  /**
   * Phase 1: remembers the texts of arcs that close a cycle, and drops all arcs with these texts. The kept arcs have no
   * cycle; a dropped arc is on one if arcs with one text agree about that.
   */
  method BreakCycles(g: Graph) returns (backEdges: set<string>, ghost order: seq<string>)
    requires IsGraph(g)
    ensures IsOrder(g, backEdges, order) && BackOnCycles(g, backEdges) && backEdges == BackEdges(g)
    ensures TextsAgree(g) ==> DroppedClose(g, backEdges)
  {
    hide *;
    var s := new Search(g);
    AgreedClose(g);
    SearchedStep(g, 0);
    for i := 0 to |g.nodes|
      invariant Found(s.visited, s.backEdges) == Searched(g, i)
      invariant s.Valid() && s.g == g && s.onStack == {} && s.path == [] && fresh(s)
      invariant forall k :: 0 <= k < i ==> g.nodes[k] in s.visited
    {
      SearchedStep(g, i);
      if g.nodes[i] !in s.visited { s.Visit(g.nodes[i]); }
    }
    SearchedAll(g);
    backEdges, order := s.backEdges, s.finished;
    s.Opened();
    SearchDone(g, s.visited, backEdges, order);
  }

  lemma SearchDone(g: Graph, visited: set<string>, back: set<string>, finished: seq<string>)
    requires Searching(g, visited, {}, back, finished, [])
    requires forall k :: 0 <= k < |g.nodes| ==> g.nodes[k] in visited
    ensures IsOrder(g, back, finished) && BackOnCycles(g, back)
  {
    hide FinishOrder, BackOnCycles, IsGraph;
  }

  lemma SearchedStep(g: Graph, i: nat)
    requires IsGraph(g) && i <= |g.nodes|
    ensures Searched(g, 0) == Found({}, {})
    ensures i < |g.nodes| ==>
      Searched(g, i + 1) == (if g.nodes[i] in Searched(g, i).visited then Searched(g, i) else Dfs(g, g.nodes[i], {}, Searched(g, i)))
  {
    hide Dfs;
  }

  lemma SearchedAll(g: Graph)
    requires IsGraph(g)
    ensures BackEdges(g) == Searched(g, |g.nodes|).back
  {
  }

  // ---- Which arcs are dropped ------------------------------------------------------------------------

  /** Every dropped arc closes a cycle. */
  ghost predicate DroppedClose(g: Graph, back: set<string>)
  {
    forall u, t :: Edge(g, u, t) && Key(u, t) in back ==> ClosesCycle(g, u, t)
  }

  /** Of the arcs with one text all close a cycle, or none does. */
  ghost predicate TextsAgree(g: Graph)
  {
    forall u, t, v, w :: ClosesCycle(g, u, t) && Edge(g, v, w) && Key(u, t) == Key(v, w) ==> ClosesCycle(g, v, w)
  }

  ghost predicate HasArrow(s: string)
  {
    exists i :: 0 <= i < |s| - 1 && s[i] == '-' && s[i + 1] == '>'
  }

  lemma ArrowAt(u: string, t: string, v: string, w: string)
    requires Key(u, t) == Key(v, w) && |u| < |v|
    ensures HasArrow(v)
  {
    var s := Key(u, t);
    assert s[|u|] == '-' && s[|u| + 1] == '>';
    assert s[|v|] == '-' && s[..|v|] == v;
    assert v[|u|] == '-' && v[|u| + 1] == '>';
  }

  lemma PlainTextDetermines(u: string, t: string, v: string, w: string)
    requires Key(u, t) == Key(v, w) && !HasArrow(u) && !HasArrow(v)
    ensures u == v && t == w
  {
    if |u| < |v| { ArrowAt(u, t, v, w); }
    if |v| < |u| { ArrowAt(v, w, u, t); }
    assert u == Key(u, t)[..|u|] && t == Key(u, t)[|u| + 2..];
    assert v == Key(v, w)[..|v|] && w == Key(v, w)[|v| + 2..];
  }

  /** Names without an arrow in them have texts of their own. */
  lemma PlainNamesAgree(g: Graph)
    requires IsGraph(g) && forall v :: v in g.nodes ==> !HasArrow(v)
    ensures TextsAgree(g)
  {
    assert forall u, t :: Edge(g, u, t) ==> u in g.nodes;
    hide IsGraph, Key, HasArrow;
    forall u, t, v, w | Edge(g, u, t) && Edge(g, v, w) && Key(u, t) == Key(v, w)
      ensures u == v && t == w
    {
      PlainTextDetermines(u, t, v, w);
    }
    hide Edge;
  }

  ghost predicate OnPath(g: Graph, path: seq<string>, onStack: set<string>, id: string)
  {
    && path != [] && path[|path| - 1] == id && IsWalk(g, path)
    && forall v :: v in onStack <==> v in path
  }

  lemma {:induction false} ExploreCloses(g: Graph, id: string, n: nat, onStack: set<string>, st: Found, path: seq<string>)
    requires IsGraph(g) && id in g.nodes && n <= |g.outgoing[id]|
    requires OnPath(g, path, onStack, id) && BackOnCycles(g, st.back)
    ensures BackOnCycles(g, Explore(g, id, n, onStack, st).back)
    decreases NodeSet(g) - st.visited, n
  {
    if n > 0 {
      ExploreCloses(g, id, n - 1, onStack, st, path);
      var before, t := Explore(g, id, n - 1, onStack, st), g.outgoing[id][n - 1];
      assert Edge(g, id, t);
      if t !in before.visited {
        Shrinks(g, st.visited, before.visited + {t}, t);
        assert OnPath(g, path + [t], onStack + {t}, t);
        ExploreCloses(g, t, |g.outgoing[t]|, onStack + {t}, Found(before.visited + {t}, before.back), path + [t]);
      } else if t in onStack {
        PathCloses(g, path, t);
      }
      hide IsGraph, ClosesCycle;
    }
  }

  lemma PathCloses(g: Graph, path: seq<string>, t: string)
    requires path != [] && IsWalk(g, path) && t in path && Edge(g, path[|path| - 1], t)
    ensures ClosesCycle(g, path[|path| - 1], t)
  {
    var i :| 0 <= i < |path| && path[i] == t;
    var p := path[i..];
    assert IsWalk(g, p) && p[0] == t && p[|p| - 1] == path[|path| - 1];
  }

  lemma DfsCloses(g: Graph, v: string, st: Found)
    requires IsGraph(g) && v in g.nodes && BackOnCycles(g, st.back)
    ensures BackOnCycles(g, Dfs(g, v, {}, st).back)
  {
    hide BackOnCycles, IsGraph;
    DfsIs(g, v, {}, st);
    ExploreCloses(g, v, |g.outgoing[v]|, {} + {v}, Found(st.visited + {v}, st.back), [v]);
  }

  lemma {:induction false} SearchedCloses(g: Graph, n: nat)
    requires IsGraph(g) && n <= |g.nodes|
    ensures BackOnCycles(g, Searched(g, n).back)
  {
    hide *;
    if n > 0 {
      SearchedCloses(g, n - 1);
      SearchedStep(g, n - 1);
      DfsCloses(g, g.nodes[n - 1], Searched(g, n - 1));
    } else {
      SearchedStep(g, 0);
      NoneOnCycles(g);
    }
  }

  lemma NoneOnCycles(g: Graph)
    ensures BackOnCycles(g, {})
  {
  }

  lemma AgreedClose(g: Graph)
    requires IsGraph(g)
    ensures TextsAgree(g) ==> DroppedClose(g, BackEdges(g))
  {
    SearchedCloses(g, |g.nodes|);
    hide ClosesCycle, Searched, Key;
  }

  // ---- Every arc on a cycle is remembered in some order ---------------------------------------------

  /** The same nodes and arcs, listed in any order. */
  ghost predicate Reordered(g: Graph, h: Graph)
  {
    && multiset(h.nodes) == multiset(g.nodes)
    && (forall v :: v in h.outgoing <==> v in g.outgoing)
    && (forall v :: v in g.outgoing && v in h.outgoing ==> multiset(h.outgoing[v]) == multiset(g.outgoing[v]))
    && h.incoming == g.incoming
  }

  /** The first arc listed for node `i` of the path leads on along it, from its end to its start. */
  ghost predicate ListsNext(g: Graph, p: seq<string>, i: nat)
    requires i < |p|
  {
    && p[i] in g.nodes && p[i] in g.outgoing && g.outgoing[p[i]] != []
    && g.outgoing[p[i]][0] == if i + 1 < |p| then p[i + 1] else p[0]
  }

  /** The search of `g` starts along `p`, whose end leads back to its start. */
  ghost predicate StartsAlong(g: Graph, p: seq<string>)
  {
    && p != [] && Distinct(p) && g.nodes != [] && g.nodes[0] == p[0]
    && forall i: nat :: i < |p| ==> ListsNext(g, p, i)
  }

  lemma {:induction false} ExploreGrows(g: Graph, id: string, n: nat, m: nat, onStack: set<string>, st: Found)
    requires IsGraph(g) && id in g.nodes && n <= m <= |g.outgoing[id]|
    ensures Explore(g, id, n, onStack, st).back <= Explore(g, id, m, onStack, st).back
  {
    if n < m {
      ExploreGrows(g, id, n, m - 1, onStack, st);
      ExploreStep(g, id, m - 1, onStack, st);
      hide Explore, IsGraph;
    }
  }

  function SetOf(p: seq<string>): set<string>
  {
    set v | v in p
  }

  /** Searching along the path remembers the arc that closes it. */
  lemma {:induction false} PathExplored(g: Graph, p: seq<string>, i: nat, back: set<string>)
    requires IsGraph(g) && StartsAlong(g, p) && i < |p|
    ensures p[i] in g.nodes && p[i] in g.outgoing
    ensures Key(p[|p| - 1], p[0]) in
      Explore(g, p[i], |g.outgoing[p[i]]|, SetOf(p[..i + 1]), Found(SetOf(p[..i + 1]), back)).back
    decreases |p| - i
  {
    assert ListsNext(g, p, i);
    var v, s := p[i], SetOf(p[..i + 1]);
    var st := Found(s, back);
    ExploreNothing(g, v, s, st);
    ExploreStep(g, v, 0, s, st);
    ExploreGrows(g, v, 1, |g.outgoing[v]|, s, st);
    var t := g.outgoing[v][0];
    hide Explore, Dfs, IsGraph;
    if i + 1 < |p| {
      assert t == p[i + 1] && t !in p[..i + 1];
      assert SetOf(p[..i + 2]) == s + {t} by { assert p[..i + 2] == p[..i + 1] + [t]; }
      PathExplored(g, p, i + 1, back);
      DfsIs(g, t, s, st);
    } else {
      assert p[..i + 1][0] == t;
    }
  }

  lemma {:induction false} SearchedGrows(g: Graph, n: nat, m: nat)
    requires IsGraph(g) && n <= m <= |g.nodes|
    ensures Searched(g, n).back <= Searched(g, m).back
  {
    hide *;
    if n < m {
      SearchedGrows(g, n, m - 1);
      SearchedStep(g, m - 1);
    }
  }

  lemma PathRemembered(g: Graph, p: seq<string>)
    requires IsGraph(g) && StartsAlong(g, p)
    ensures Key(p[|p| - 1], p[0]) in BackEdges(g)
  {
    assert ListsNext(g, p, 0);
    SearchedStep(g, 0);
    SearchedGrows(g, 1, |g.nodes|);
    var v := p[0];
    DfsIs(g, v, {}, Found({}, {}));
    PathExplored(g, p, 0, {});
    assert SetOf(p[..1]) == {} + {v} by { assert p[..1] == [v]; }
    hide Explore, Dfs, Searched;
  }

  /** A walk without repetitions between the same ends. */
  lemma {:induction false} ShortWalk(g: Graph, p: seq<string>) returns (q: seq<string>)
    requires p != [] && IsWalk(g, p)
    ensures q != [] && IsWalk(g, q) && Distinct(q) && q[0] == p[0] && q[|q| - 1] == p[|p| - 1]
    decreases |p|
  {
    if Distinct(p) {
      q := p;
    } else {
      var i, j :| 0 <= i < j < |p| && p[i] == p[j];
      var r := p[..i] + p[j..];
      forall k | 0 < k < |r|
        ensures Edge(g, r[k - 1], r[k])
      {
        if k < i {
        } else if k == i {
          assert r[k] == p[i];
        } else {
          assert r[k] == p[k - i + j] && r[k - 1] == p[k - 1 - i + j];
        }
      }
      assert r[0] == p[0] && r[|r| - 1] == p[|p| - 1];
      q := ShortWalk(g, r);
    }
  }

  function ToFront(s: seq<string>, x: string): (r: seq<string>)
    ensures x in s ==> r != [] && r[0] == x
    ensures multiset(r) == multiset(s)
    ensures forall v :: v in r <==> v in s
  {
    if s == [] || s[0] == x then s
    else
      var rest := ToFront(s[1..], x);
      assert s == [s[0]] + s[1..];
      if rest != [] && rest[0] == x then
        assert rest == [x] + rest[1..];
        [x, s[0]] + rest[1..]
      else [s[0]] + rest
  }

  lemma SameElements(a: seq<string>, b: seq<string>)
    requires multiset(a) == multiset(b)
    ensures forall v :: v in a <==> v in b
    ensures Distinct(a) ==> Distinct(b)
  {
    forall v
      ensures v in a <==> v in b
    {
      assert v in multiset(a) <==> v in a;
      assert v in multiset(b) <==> v in b;
    }
    if Distinct(a) {
      forall i, j | 0 <= i < j < |b|
        ensures b[i] != b[j]
      {
        if b[i] == b[j] {
          TwiceInMultiset(b, i, j);
          OnceInMultiset(a, b[i]);
        }
      }
    }
  }

  lemma TwiceInMultiset(s: seq<string>, i: nat, j: nat)
    requires i < j < |s| && s[i] == s[j]
    ensures multiset(s)[s[i]] >= 2
  {
    assert s == s[..i] + [s[i]] + s[i + 1..j] + [s[j]] + s[j + 1..];
  }

  lemma {:induction false} OnceInMultiset(s: seq<string>, x: string)
    requires Distinct(s)
    ensures multiset(s)[x] <= 1
  {
    if s != [] {
      assert s == [s[0]] + s[1..];
      OnceInMultiset(s[1..], x);
      if s[0] == x {
        assert forall k :: 0 <= k < |s[1..]| ==> s[1..][k] != x;
        assert x !in s[1..];
      }
    }
  }

  lemma ReorderedGraph(g: Graph, h: Graph)
    requires IsGraph(g) && Reordered(g, h)
    ensures IsGraph(h) && forall u, t :: Edge(g, u, t) <==> Edge(h, u, t)
    ensures forall u, t :: ClosesCycle(g, u, t) <==> ClosesCycle(h, u, t)
  {
    SameElements(g.nodes, h.nodes);
    forall v | v in g.outgoing
      ensures v in h.outgoing && forall t :: t in g.outgoing[v] <==> t in h.outgoing[v]
    {
      SameElements(g.outgoing[v], h.outgoing[v]);
    }
    assert forall u, t :: Edge(g, u, t) <==> Edge(h, u, t);
    assert IsGraph(h);
    hide Edge, IsGraph, Distinct;
    assert forall p: seq<string> :: IsWalk(g, p) <==> IsWalk(h, p);
  }

  /** What is listed first behind `v`, for the search to go along the path. */
  ghost function FirstFor(p: seq<string>, v: string): string
    requires p != []
  {
    if v !in p then v else
      var i :| 0 <= i < |p| && p[i] == v;
      if i + 1 < |p| then p[i + 1] else p[0]
  }

  lemma FirstAlong(p: seq<string>, i: nat)
    requires i < |p| && Distinct(p)
    ensures FirstFor(p, p[i]) == if i + 1 < |p| then p[i + 1] else p[0]
  {
    assert p[i] in p;
  }

  lemma PathTargets(g: Graph, p: seq<string>, i: nat)
    requires IsGraph(g) && Distinct(p) && IsWalk(g, p) && i < |p| && Edge(g, p[|p| - 1], p[0])
    ensures p[i] in g.nodes && p[i] in g.outgoing && FirstFor(p, p[i]) in g.outgoing[p[i]]
  {
    FirstAlong(p, i);
    if i + 1 < |p| { assert Edge(g, p[i], p[i + 1]); }
  }

  /** The graph with the nodes and arcs of the path listed first. */
  ghost function Relisted(g: Graph, p: seq<string>): Graph
    requires p != []
  {
    Graph(ToFront(g.nodes, p[0]), map v | v in g.outgoing :: ToFront(g.outgoing[v], FirstFor(p, v)), g.incoming)
  }

  lemma RelistedIsReordered(g: Graph, p: seq<string>)
    requires p != []
    ensures Reordered(g, Relisted(g, p))
  {
    hide FirstFor;
  }

  lemma RelistedAt(g: Graph, p: seq<string>, i: nat)
    requires IsGraph(g) && Distinct(p) && IsWalk(g, p) && i < |p| && Edge(g, p[|p| - 1], p[0])
    ensures ListsNext(Relisted(g, p), p, i)
  {
    PathTargets(g, p, i);
    FirstAlong(p, i);
    hide FirstFor, IsGraph, IsWalk, Edge, Distinct;
  }

  /** Listing the nodes and arcs of a path first makes the search start along it. */
  lemma ListedFirst(g: Graph, p: seq<string>)
    requires IsGraph(g) && p != [] && Distinct(p) && IsWalk(g, p) && Edge(g, p[|p| - 1], p[0])
    ensures StartsAlong(Relisted(g, p), p)
  {
    var h := Relisted(g, p);
    PathTargets(g, p, 0);
    assert h.nodes != [] && h.nodes[0] == p[0];
    hide IsGraph, IsWalk, Edge, Distinct, Relisted, ListsNext;
    forall i: nat | i < |p|
      ensures ListsNext(h, p, i)
    {
      RelistedAt(g, p, i);
    }
  }

  /** An arc that closes a cycle is remembered, for some order of the nodes and arcs. */
  lemma SomeOrderRemembers(g: Graph, u: string, t: string) returns (h: Graph)
    requires IsGraph(g) && ClosesCycle(g, u, t)
    ensures Reordered(g, h) && IsGraph(h) && Key(u, t) in BackEdges(h)
  {
    var p: seq<string> :| p != [] && IsWalk(g, p) && p[0] == t && p[|p| - 1] == u;
    var q := ShortWalk(g, p);
    h := Relisted(g, q);
    RelistedIsReordered(g, q);
    ListedFirst(g, q);
    ReorderedGraph(g, h);
    PathRemembered(h, q);
  }

  /**
   * Whatever order the nodes and arcs are listed in, only arcs that close a cycle are dropped: exactly when the arcs with
   * one text agree about closing a cycle.
   */
  lemma {:induction false} DroppedCloseIff(g: Graph)
    requires IsGraph(g)
    ensures (forall h :: Reordered(g, h) ==> IsGraph(h) && DroppedClose(h, BackEdges(h))) <==> TextsAgree(g)
  {
    if TextsAgree(g) {
      forall h | Reordered(g, h)
        ensures IsGraph(h) && DroppedClose(h, BackEdges(h))
      {
        ReorderedGraph(g, h);
        AgreedClose(h);
        hide IsGraph, Reordered, ClosesCycle, Edge, BackEdges;
      }
    } else {
      var u, t, v, w :| ClosesCycle(g, u, t) && Edge(g, v, w) && Key(u, t) == Key(v, w) && !ClosesCycle(g, v, w);
      hide ClosesCycle, Edge, BackEdges, IsGraph, Reordered;
      var h := SomeOrderRemembers(g, u, t);
      ReorderedGraph(g, h);
      assert Edge(h, v, w) && Key(v, w) in BackEdges(h) && !ClosesCycle(h, v, w);
    }
  }

  lemma DeadEnd(g: Graph, v: string, w: string)
    requires v != w && v in g.outgoing && g.outgoing[v] == []
    ensures forall q: seq<string> :: q != [] && IsWalk(g, q) && q[0] == v ==> q[|q| - 1] != w
  {
    forall q: seq<string> | |q| > 1 && q[0] == v
      ensures !IsWalk(g, q)
    {
      assert !Edge(g, q[0], q[1]);
    }
  }

  lemma {:induction false} WalkDescends(g: Graph, p: seq<string>, rank: string -> int)
    requires p != [] && IsWalk(g, p) && forall u, t :: Edge(g, u, t) ==> rank(t) < rank(u)
    ensures rank(p[|p| - 1]) <= rank(p[0])
  {
    if |p| > 1 {
      var q := p[..|p| - 1];
      WalkDescends(g, q, rank);
      assert Edge(g, p[|p| - 2], p[|p| - 1]);
    }
  }

  /** Cycle breaking drops no arc of a net without cycles. */
  lemma {:induction false} AcyclicNetKeepsAll(g: Graph, back: set<string>, rank: string -> int)
    requires BackOnCycles(g, back) && forall u, t :: Edge(g, u, t) ==> rank(t) < rank(u)
    ensures back == {}
  {
    forall k | k in back
      ensures false
    {
      var u, t :| k == Key(u, t) && ClosesCycle(g, u, t);
      var p: seq<string> :| p != [] && IsWalk(g, p) && p[0] == t && p[|p| - 1] == u;
      WalkDescends(g, p, rank);
    }
  }

  // ---- Levels ----------------------------------------------------------------------------------------

  ghost predicate Source(g: Graph, back: set<string>, v: string)
  {
    v in g.nodes && forall u :: !Kept(g, back, u, v)
  }

  /** Some path of `n` kept arcs leads from a source to `v`. */
  ghost predicate FromSource(g: Graph, back: set<string>, v: string, n: nat)
    decreases n
  {
    if n == 0 then Source(g, back, v) else exists u :: Kept(g, back, u, v) && FromSource(g, back, u, n - 1)
  }

  /** Some path of `n` kept arcs ends at `v`. */
  ghost predicate PathTo(g: Graph, back: set<string>, v: string, n: nat)
    decreases n
  {
    n == 0 || exists u :: Kept(g, back, u, v) && PathTo(g, back, u, n - 1)
  }

  ghost predicate Leveling(g: Graph, back: set<string>, order: seq<string>, level: map<string, int>)
  {
    && (forall v :: v in level <==> v in g.nodes)
    && (forall i :: 0 <= i < |order| && order[i] in level ==> -1 <= level[order[i]] <= |order| - 1 - i)
    && (forall v :: v in level && Source(g, back, v) ==> level[v] >= 0)
    && (forall v :: v in level && level[v] >= 0 ==> FromSource(g, back, v, level[v]))
  }

  /** Every kept arc out of `u` leads at least one level down. */
  ghost predicate Settled(g: Graph, back: set<string>, level: map<string, int>, u: string)
  {
    u in level && (level[u] >= 0 ==> forall t :: Kept(g, back, u, t) && t in level ==> level[u] < level[t])
  }

  /** The levels that are still free above the nodes of `order[..n]`. */
  function Slack(order: seq<string>, level: map<string, int>, n: nat): int
    requires n <= |order|
  {
    if n == 0 then 0
    else Slack(order, level, n - 1) + |order| - n - if order[n - 1] in level then level[order[n - 1]] else 0
  }

  lemma {:induction false} SlackBound(order: seq<string>, level: map<string, int>, n: nat)
    requires n <= |order| && forall i :: 0 <= i < |order| ==> order[i] in level
    requires forall i :: 0 <= i < |order| ==> level[order[i]] <= |order| - 1 - i
    ensures Slack(order, level, n) >= 0
  {
    if n > 0 { SlackBound(order, level, n - 1); }
  }

  lemma {:induction false} SlackAfter(order: seq<string>, level: map<string, int>, n: nat, k: nat, value: int)
    requires n <= |order| && k < |order| && Distinct(order) && forall i :: 0 <= i < |order| ==> order[i] in level
    ensures Slack(order, level[order[k] := value], n)
         == Slack(order, level, n) - if k < n then value - level[order[k]] else 0
  {
    if n > 0 { SlackAfter(order, level, n - 1, k, value); }
  }

  /** Raising the target of a kept arc keeps the invariant and uses up slack. */
  lemma Raise(g: Graph, back: set<string>, order: seq<string>, level: map<string, int>, u: string, t: string)
    requires IsOrder(g, back, order) && Leveling(g, back, order, level)
    requires u in level && level[u] >= 0 && Kept(g, back, u, t) && t in level && level[u] + 1 > level[t]
    ensures var level' := level[t := level[u] + 1];
      && Leveling(g, back, order, level')
      && Slack(order, level', |order|) < Slack(order, level, |order|)
  {
    var k, j := TargetBefore(g, back, order, u, t);
    LevelKeys(g, back, order, level);
    SlackAfter(order, level, |order|, j, level[u] + 1);
    RaisedPath(g, back, u, t, level[u]);
    RaisedLeveling(g, back, order, level, u, t, k, j);
    hide *;
  }

  lemma TargetBefore(g: Graph, back: set<string>, order: seq<string>, u: string, t: string) returns (k: nat, j: nat)
    requires IsOrder(g, back, order) && Kept(g, back, u, t) && u in g.nodes
    ensures j < k < |order| && order[k] == u && order[j] == t && Distinct(order)
  {
    hide Kept;
    assert u in order;
    k :| 0 <= k < |order| && order[k] == u;
    assert t in order[..k];
    j :| 0 <= j < k && order[j] == t;
  }

  lemma RaisedLeveling(g: Graph, back: set<string>, order: seq<string>, level: map<string, int>, u: string, t: string,
                       k: nat, j: nat)
    requires Leveling(g, back, order, level) && u in level && t in level && 0 <= level[u] && level[t] < level[u] + 1
    requires j < k < |order| && order[k] == u && order[j] == t && Distinct(order)
    requires FromSource(g, back, t, level[u] + 1)
    ensures Leveling(g, back, order, level[t := level[u] + 1])
  {
    hide FromSource, Source;
  }

  lemma RaisedPath(g: Graph, back: set<string>, u: string, t: string, n: nat)
    requires Kept(g, back, u, t) && FromSource(g, back, u, n)
    ensures FromSource(g, back, t, n + 1)
  {
  }

  /** Nodes without kept incoming arcs start at level 0, the others undecided. */
  method InitialLevels(g: Graph, back: set<string>, ghost order: seq<string>) returns (level: map<string, int>)
    requires IsGraph(g) && IsOrder(g, back, order)
    ensures Leveling(g, back, order, level)
  {
    level := map[];
    hide IsOrder, FinishOrder;
    for i := 0 to |g.nodes|
      invariant forall v :: v in level <==> v in g.nodes[..i]
      invariant forall v :: v in level ==> level[v] == if Source(g, back, v) then 0 else -1
    {
      var id := g.nodes[i];
      var effectiveIn := 0;
      for k := 0 to |g.incoming[id]|
        invariant effectiveIn >= 0
        invariant effectiveIn == 0 <==> forall j :: 0 <= j < k ==> Key(g.incoming[id][j], id) in back
      {
        if Key(g.incoming[id][k], id) !in back { effectiveIn := effectiveIn + 1; }
      }
      NoneKept(g, back, id);
      level := level[id := if effectiveIn == 0 then 0 else -1];
      assert g.nodes[..i + 1] == g.nodes[..i] + [id];
    }
    assert g.nodes[..|g.nodes|] == g.nodes;
    SourcesStart(g, back, order, level);
  }

  lemma NoneKept(g: Graph, back: set<string>, id: string)
    requires IsGraph(g) && id in g.nodes
    ensures id in g.incoming
    ensures Source(g, back, id) <==> forall j :: 0 <= j < |g.incoming[id]| ==> Key(g.incoming[id][j], id) in back
  {
    hide Key;
    if Source(g, back, id) {
      forall j | 0 <= j < |g.incoming[id]|
        ensures Key(g.incoming[id][j], id) in back
      {
        assert !Kept(g, back, g.incoming[id][j], id);
      }
    }
    if !Source(g, back, id) {
      var u :| Kept(g, back, u, id);
      var j :| 0 <= j < |g.incoming[id]| && g.incoming[id][j] == u;
      assert Key(g.incoming[id][j], id) !in back;
    }
  }

  lemma SourcesStart(g: Graph, back: set<string>, order: seq<string>, level: map<string, int>)
    requires forall v :: v in level <==> v in g.nodes
    requires forall v :: v in level ==> level[v] == if Source(g, back, v) then 0 else -1
    ensures Leveling(g, back, order, level)
  {
    hide Source;
  }

  /** One pass of the relaxation over the arcs of one node. */
  method RelaxNode(g: Graph, back: set<string>, ghost order: seq<string>, level0: map<string, int>, id: string)
      returns (level: map<string, int>, changed: bool)
    requires IsGraph(g) && IsOrder(g, back, order) && Leveling(g, back, order, level0) && id in g.nodes && id in g.outgoing
    ensures Leveling(g, back, order, level)
    ensures !changed ==> level == level0 && Settled(g, back, level, id)
    ensures changed ==> Slack(order, level, |order|) < Slack(order, level0, |order|)
  {
    hide *;
    level, changed := level0, false;
    SettledStart(g, back, order, level, id);
    if level[id] < 0 { return; }
    for k := 0 to |g.outgoing[id]|
      invariant Leveling(g, back, order, level) && id in level && level[id] >= 0
      invariant !changed ==> level == level0 && SettledUpTo(g, back, level, id, k)
      invariant changed ==> Slack(order, level, |order|) < Slack(order, level0, |order|)
    {
      var t := g.outgoing[id][k];
      TargetHasLevel(g, back, order, level, id, k);
      if Key(id, t) !in back {
        var newLevel := level[id] + 1;
        if newLevel > level[t] {
          Raise(g, back, order, level, id, t);
          NoLoop(g, back, order, id, t);
          level := level[t := newLevel];
          changed := true;
        }
      }
      if !changed { SettledStep(g, back, level, id, k); }
    }
    if !changed { SettledNow(g, back, level, id); }
  }

  ghost predicate SettledUpTo(g: Graph, back: set<string>, level: map<string, int>, u: string, n: nat)
  {
    && u in g.outgoing && u in level && n <= |g.outgoing[u]|
    && forall j :: 0 <= j < n ==>
      var t := g.outgoing[u][j]; Key(u, t) !in back && t in level ==> level[u] < level[t]
  }

  lemma SettledStart(g: Graph, back: set<string>, order: seq<string>, level: map<string, int>, u: string)
    requires u in g.outgoing && u in g.nodes && Leveling(g, back, order, level)
    ensures u in level && SettledUpTo(g, back, level, u, 0)
    ensures level[u] < 0 ==> Settled(g, back, level, u)
  {
  }

  lemma SettledStep(g: Graph, back: set<string>, level: map<string, int>, u: string, k: nat)
    requires SettledUpTo(g, back, level, u, k) && k < |g.outgoing[u]|
    requires var t := g.outgoing[u][k]; Key(u, t) !in back && t in level ==> level[u] < level[t]
    ensures SettledUpTo(g, back, level, u, k + 1)
  {
    hide Key;
  }

  lemma SettledNow(g: Graph, back: set<string>, level: map<string, int>, u: string)
    requires u in g.outgoing && SettledUpTo(g, back, level, u, |g.outgoing[u]|)
    ensures Settled(g, back, level, u)
  {
    hide Key;
    forall t | Kept(g, back, u, t) && t in level
      ensures level[u] < level[t]
    {
      var j :| 0 <= j < |g.outgoing[u]| && g.outgoing[u][j] == t;
      assert Key(u, g.outgoing[u][j]) !in back;
    }
  }

  lemma LevelKeys(g: Graph, back: set<string>, order: seq<string>, level: map<string, int>)
    requires IsOrder(g, back, order) && Leveling(g, back, order, level)
    ensures forall v :: v in level <==> v in g.nodes
    ensures forall i :: 0 <= i < |order| ==> order[i] in level && level[order[i]] <= |order| - 1 - i
  {
    hide FinishOrder, FromSource, Source;
    assert forall i :: 0 <= i < |order| ==> order[i] in order;
  }

  lemma TargetHasLevel(g: Graph, back: set<string>, order: seq<string>, level: map<string, int>, id: string, k: nat)
    requires IsGraph(g) && IsOrder(g, back, order) && Leveling(g, back, order, level)
    requires id in g.outgoing && k < |g.outgoing[id]|
    ensures var t := g.outgoing[id][k]; t in level && (Kept(g, back, id, t) <==> Key(id, t) !in back)
  {
    LevelKeys(g, back, order, level);
    Target(g, id, k);
    hide *;
    assert g.outgoing[id][k] in g.nodes;
    KeptIs(g, back, id, g.outgoing[id][k]);
  }

  lemma KeptIs(g: Graph, back: set<string>, u: string, t: string)
    ensures Kept(g, back, u, t) <==> Edge(g, u, t) && Key(u, t) !in back
  {
  }

  lemma NoLoop(g: Graph, back: set<string>, order: seq<string>, u: string, t: string)
    requires IsOrder(g, back, order) && Kept(g, back, u, t) && u in g.nodes
    ensures u != t
  {
    assert u in order;
    hide Kept;
    var k :| 0 <= k < |order| && order[k] == u;
    assert t in order[..k];
  }

  lemma SlackNonNegative(g: Graph, back: set<string>, order: seq<string>, level: map<string, int>)
    requires IsOrder(g, back, order) && Leveling(g, back, order, level)
    ensures Slack(order, level, |order|) >= 0
  {
    LevelKeys(g, back, order, level);
    SlackBound(order, level, |order|);
  }

  /** One round of the relaxation. */
  method RelaxAll(g: Graph, back: set<string>, ghost order: seq<string>, level0: map<string, int>)
      returns (level: map<string, int>, changed: bool)
    requires IsGraph(g) && IsOrder(g, back, order) && Leveling(g, back, order, level0)
    ensures Leveling(g, back, order, level)
    ensures !changed ==> level == level0 && forall i :: 0 <= i < |g.nodes| ==> Settled(g, back, level, g.nodes[i])
    ensures changed ==> Slack(order, level, |order|) < Slack(order, level0, |order|)
  {
    level, changed := level0, false;
    hide *;
    for i := 0 to |g.nodes|
      invariant Leveling(g, back, order, level)
      invariant !changed ==> level == level0 && forall k :: 0 <= k < i ==> Settled(g, back, level, g.nodes[k])
      invariant changed ==> Slack(order, level, |order|) < Slack(order, level0, |order|)
    {
      NodeHasArcs(g, g.nodes[i]);
      var next, raised := RelaxNode(g, back, order, level, g.nodes[i]);
      level := next;
      changed := changed || raised;
    }
  }

  lemma NodeHasArcs(g: Graph, v: string)
    requires IsGraph(g) && v in g.nodes
    ensures v in g.outgoing && v in g.incoming
  {
  }

  /** Every node has the length of the longest kept path that ends at it, and some source starts such a path. */
  ghost predicate LongestPaths(g: Graph, back: set<string>, level: map<string, int>)
  {
    && (forall v :: v in level <==> v in g.nodes)
    && (forall v :: v in level ==> level[v] >= 0 && FromSource(g, back, v, level[v]))
    && (forall v, n: nat :: v in level && PathTo(g, back, v, n) ==> n <= level[v])
    && (forall u, t :: Kept(g, back, u, t) && u in level && t in level ==> level[u] < level[t])
  }

  /** Once nothing changes every node is decided: the kept arcs reach it from a source. */
  lemma {:induction false} AllDecided(g: Graph, back: set<string>, order: seq<string>, level: map<string, int>, i: nat)
    requires IsGraph(g) && IsOrder(g, back, order) && Leveling(g, back, order, level) && i < |order|
    requires forall k :: 0 <= k < |g.nodes| ==> Settled(g, back, level, g.nodes[k])
    ensures order[i] in level && level[order[i]] >= 0
    decreases |order| - i
  {
    var v := order[i];
    assert v in order;
    LevelKeys(g, back, order, level);
    if !Source(g, back, v) {
      var u, k := EarlierSource(g, back, order, i);
      AllDecided(g, back, order, level, k);
      hide *;
      SettledTarget(g, back, level, u, v);
    }
  }

  /** A node that is no source has a kept arc from a node that finished later. */
  lemma EarlierSource(g: Graph, back: set<string>, order: seq<string>, i: nat) returns (u: string, k: nat)
    requires IsGraph(g) && IsOrder(g, back, order) && i < |order| && !Source(g, back, order[i])
    ensures i < k < |order| && order[k] == u && Kept(g, back, u, order[i]) && u in g.nodes
  {
    var v := order[i];
    assert v in order;
    u :| Kept(g, back, u, v);
    assert Edge(g, u, v);
    hide IsGraph, Edge, Kept;
    assert u in order;
    k :| 0 <= k < |order| && order[k] == u;
    assert v in order[..k];
    var j :| 0 <= j < k && order[j] == v;
  }

  lemma SettledTarget(g: Graph, back: set<string>, level: map<string, int>, u: string, t: string)
    requires forall k :: 0 <= k < |g.nodes| ==> Settled(g, back, level, g.nodes[k])
    requires u in g.nodes && u in level && level[u] >= 0 && t in level && Kept(g, back, u, t)
    ensures level[u] < level[t]
  {
    var m :| 0 <= m < |g.nodes| && g.nodes[m] == u;
    assert Settled(g, back, level, g.nodes[m]);
    hide Kept;
  }

  lemma {:induction false} LevelBoundsPaths(g: Graph, back: set<string>, level: map<string, int>, v: string, n: nat)
    requires IsGraph(g) && forall v :: v in level <==> v in g.nodes
    requires forall v :: v in level ==> level[v] >= 0
    requires forall u, t :: Kept(g, back, u, t) && u in level && t in level ==> level[u] < level[t]
    requires v in level && PathTo(g, back, v, n)
    ensures n <= level[v]
    decreases n
  {
    if n > 0 {
      var u :| Kept(g, back, u, v) && PathTo(g, back, u, n - 1);
      assert Edge(g, u, v);
      LevelBoundsPaths(g, back, level, u, n - 1);
    }
  }

  lemma RelaxedIsLongest(g: Graph, back: set<string>, order: seq<string>, level: map<string, int>)
    requires IsGraph(g) && IsOrder(g, back, order) && Leveling(g, back, order, level)
    requires forall k :: 0 <= k < |g.nodes| ==> Settled(g, back, level, g.nodes[k])
    ensures LongestPaths(g, back, level)
  {
    LevelKeys(g, back, order, level);
    forall v | v in level
      ensures level[v] >= 0
    {
      assert v in order;
      var i :| 0 <= i < |order| && order[i] == v;
      AllDecided(g, back, order, level, i);
    }
    forall u, t | Kept(g, back, u, t) && u in level && t in level
      ensures level[u] < level[t]
    {
      var m :| 0 <= m < |g.nodes| && g.nodes[m] == u;
      assert Settled(g, back, level, g.nodes[m]);
    }
    forall v, n: nat | v in level && PathTo(g, back, v, n)
      ensures n <= level[v]
    {
      LevelBoundsPaths(g, back, level, v, n);
    }
  }

  /** Phase 2: the relaxation terminates, and leaves no node to the fallback level. */
  method AssignLevels(g: Graph, back: set<string>, ghost order: seq<string>) returns (level: map<string, int>)
    requires IsGraph(g) && IsOrder(g, back, order)
    ensures LongestPaths(g, back, level)
  {
    hide *;
    level := InitialLevels(g, back, order);
    var changed := true;
    while changed
      invariant Leveling(g, back, order, level)
      invariant !changed ==> forall i :: 0 <= i < |g.nodes| ==> Settled(g, back, level, g.nodes[i])
      decreases Slack(order, level, |order|), changed
    {
      SlackNonNegative(g, back, order, level);
      level, changed := RelaxAll(g, back, order, level);
      SlackNonNegative(g, back, order, level);
    }
    RelaxedIsLongest(g, back, order, level);
    ghost var decided := level;
    for i := 0 to |g.nodes|
      invariant level == decided
    {
      var id := g.nodes[i];
      Decided(g, back, level, id);
      level := level[id := if level[id] < 0 then 0 else level[id]];
    }
  }

  lemma Decided(g: Graph, back: set<string>, level: map<string, int>, v: string)
    requires LongestPaths(g, back, level) && v in g.nodes
    ensures v in level && level[v] >= 0
  {
  }

  // ---- Layers and barycenter sweeps --------------------------------------------------------------------

  /** `levels.get(l) || []` */
  function Layer(layers: map<int, seq<string>>, l: int): seq<string>
  {
    if l in layers then layers[l] else []
  }

  /** Layer `l` lists the nodes of level `l`, each once. */
  ghost predicate LayerOf(level: map<string, int>, layers: map<int, seq<string>>, l: int)
  {
    Distinct(Layer(layers, l)) && forall v :: v in Layer(layers, l) <==> v in level && level[v] == l
  }

  ghost predicate Layered(level: map<string, int>, layers: map<int, seq<string>>, maxLevel: int)
  {
    && maxLevel >= 0 && (forall v :: v in level ==> 0 <= level[v] <= maxLevel)
    && forall l :: LayerOf(level, layers, l)
  }

  /** `posOf` gives the index of every node of layer `l`. */
  ghost predicate Indexed(layer: seq<string>, posOf: map<string, nat>)
  {
    forall i :: 0 <= i < |layer| ==> layer[i] in posOf && posOf[layer[i]] == i
  }

  /** The nodes of level `l`, in the order of `nodes`. */
  function AtLevel(nodes: seq<string>, level: map<string, int>, l: int): seq<string>
  {
    if nodes == [] then []
    else
      var rest, v := AtLevel(nodes[..|nodes| - 1], level, l), nodes[|nodes| - 1];
      if v in level && level[v] == l then rest + [v] else rest
  }

  lemma {:induction false} AtLevelMembers(nodes: seq<string>, level: map<string, int>, l: int)
    requires Distinct(nodes)
    ensures Distinct(AtLevel(nodes, level, l))
    ensures forall v :: v in AtLevel(nodes, level, l) <==> v in nodes && v in level && level[v] == l
  {
    if nodes != [] {
      var front, v := nodes[..|nodes| - 1], nodes[|nodes| - 1];
      AtLevelMembers(front, level, l);
      assert nodes == front + [v] && v !in front;
    }
  }

  /** `layers` holds the nodes grouped by level. */
  ghost predicate Grouped(nodes: seq<string>, level: map<string, int>, layers: map<int, seq<string>>)
  {
    forall l :: Layer(layers, l) == AtLevel(nodes, level, l)
  }

  lemma GroupStep(nodes: seq<string>, level: map<string, int>, layers: map<int, seq<string>>, id: string)
    requires Grouped(nodes, level, layers) && id in level
    ensures Grouped(nodes + [id], level, layers[level[id] := Layer(layers, level[id]) + [id]])
  {
    assert (nodes + [id])[..|nodes|] == nodes;
    forall l
      ensures AtLevel(nodes + [id], level, l) == if l == level[id] then Layer(layers, l) + [id] else Layer(layers, l)
    {
      assert Layer(layers, l) == AtLevel(nodes, level, l);
    }
  }

  lemma GroupedIsLayered(nodes: seq<string>, level: map<string, int>, layers: map<int, seq<string>>, maxLevel: int)
    requires Distinct(nodes) && (forall v :: v in level <==> v in nodes) && Grouped(nodes, level, layers)
    requires maxLevel >= 0 && forall v :: v in level ==> 0 <= level[v] <= maxLevel
    ensures Layered(level, layers, maxLevel)
  {
    forall l
      ensures LayerOf(level, layers, l)
    {
      AtLevelMembers(nodes, level, l);
      assert Layer(layers, l) == AtLevel(nodes, level, l);
      hide AtLevel;
    }
  }

  /** Groups the nodes by level. */
  method GroupByLevel(nodes: seq<string>, level: map<string, int>) returns (layers: map<int, seq<string>>, maxLevel: nat)
    requires Distinct(nodes) && (forall v :: v in level <==> v in nodes) && forall v :: v in level ==> level[v] >= 0
    ensures Layered(level, layers, maxLevel) && Grouped(nodes, level, layers)
  {
    layers, maxLevel := map[], 0;
    for i := 0 to |nodes|
      invariant maxLevel >= 0 && forall k :: 0 <= k < i ==> level[nodes[k]] <= maxLevel
      invariant Grouped(nodes[..i], level, layers)
    {
      var id := nodes[i];
      var l := level[id];
      assert nodes[..i + 1] == nodes[..i] + [id];
      GroupStep(nodes[..i], level, layers, id);
      hide Grouped, Layer;
      layers := layers[l := Layer(layers, l) + [id]];
      if l > maxLevel { maxLevel := l; }
    }
    assert nodes[..|nodes|] == nodes;
    GroupedIsLayered(nodes, level, layers, maxLevel);
  }

  /** Records the index of every node of a layer. */
  method IndexLayer(layer: seq<string>, posOf0: map<string, nat>) returns (posOf: map<string, nat>)
    requires Distinct(layer)
    ensures Indexed(layer, posOf)
    ensures forall v :: v !in layer ==> (v in posOf <==> v in posOf0) && (v in posOf ==> posOf[v] == posOf0[v])
  {
    posOf := posOf0;
    for i := 0 to |layer|
      invariant forall k :: 0 <= k < i ==> layer[k] in posOf && posOf[layer[k]] == k
      invariant forall v :: v !in layer ==> (v in posOf <==> v in posOf0) && (v in posOf ==> posOf[v] == posOf0[v])
    {
      posOf := posOf[layer[i] := i];
    }
  }

  /** The neighbours of `id` that a sweep looks at: kept arcs from the layer above, or to the layer below. */
  function Neighbours(g: Graph, back: set<string>, level: map<string, int>, id: string, down: bool): seq<string>
    requires id in g.incoming && id in g.outgoing && id in level
  {
    if down then Select(g.incoming[id], back, level, id, down) else Select(g.outgoing[id], back, level, id, down)
  }

  function Select(near: seq<string>, back: set<string>, level: map<string, int>, id: string, down: bool): (r: seq<string>)
    requires id in level
    ensures forall v :: v in r ==> v in near && v in level && level[v] == if down then level[id] - 1 else level[id] + 1
  {
    if near == [] then []
    else
      var rest, v := Select(near[..|near| - 1], back, level, id, down), near[|near| - 1];
      var key := if down then Key(v, id) else Key(id, v);
      if key !in back && v in level && level[v] == (if down then level[id] - 1 else level[id] + 1) then rest + [v] else rest
  }

  function PositionSum(vs: seq<string>, posOf: map<string, nat>): nat
  {
    if vs == [] then 0
    else
      var v := vs[|vs| - 1];
      PositionSum(vs[..|vs| - 1], posOf) + if v in posOf then posOf[v] else 0
  }

  /** The mean position of the neighbours; a node without any keeps its own. */
  function Barycenter(near: seq<string>, posOf: map<string, nat>, id: string): real
    requires id in posOf
  {
    if near == [] then posOf[id] as real else PositionSum(near, posOf) as real / |near| as real
  }

  /** The accumulation loop of a sweep. */
  method ComputeBarycenter(near: seq<string>, back: set<string>, level: map<string, int>, posOf: map<string, nat>,
                           id: string, down: bool) returns (b: real)
    requires id in posOf && id in level && forall v :: v in near ==> v in level && v in posOf
    ensures b == Barycenter(Select(near, back, level, id, down), posOf, id)
  {
    var sum, count := 0, 0;
    var wanted := if down then level[id] - 1 else level[id] + 1;
    assert near[..0] == [];
    assert SelectedUpTo(near, back, level, posOf, id, down, 0, sum, count);
    hide *;
    for i := 0 to |near|
      invariant SelectedUpTo(near, back, level, posOf, id, down, i, sum, count)
    {
      var v := near[i];
      assert v in near;
      var key := if down then Key(v, id) else Key(id, v);
      SelectMore(near, back, level, posOf, id, down, i, sum, count);
      if key !in back && level[v] == wanted {
        sum := sum + posOf[v];
        count := count + 1;
      }
    }
    SelectedAll(near, back, level, posOf, id, down, sum, count);
    b := MeanOrOwn(sum, count, posOf[id], Select(near, back, level, id, down), posOf, id);
  }

  /** Sum and number of the positions of the selected neighbours among the first `n`. */
  ghost predicate SelectedUpTo(near: seq<string>, back: set<string>, level: map<string, int>, posOf: map<string, nat>,
                               id: string, down: bool, n: nat, sum: nat, count: nat)
    requires id in level
  {
    n <= |near| && sum == PositionSum(Select(near[..n], back, level, id, down), posOf)
    && count == |Select(near[..n], back, level, id, down)|
  }

  lemma SelectMore(near: seq<string>, back: set<string>, level: map<string, int>, posOf: map<string, nat>,
                   id: string, down: bool, i: nat, sum: nat, count: nat)
    requires id in level && i < |near| && near[i] in level && near[i] in posOf
    requires SelectedUpTo(near, back, level, posOf, id, down, i, sum, count)
    ensures var v, wanted := near[i], if down then level[id] - 1 else level[id] + 1;
      var key := if down then Key(v, id) else Key(id, v);
      if key !in back && level[v] == wanted then SelectedUpTo(near, back, level, posOf, id, down, i + 1, sum + posOf[v], count + 1)
      else SelectedUpTo(near, back, level, posOf, id, down, i + 1, sum, count)
  {
    SelectStep(near, back, level, id, down, i);
    PositionPush(Select(near[..i], back, level, id, down), near[i], posOf);
    hide Select, PositionSum, Key;
  }

  lemma PositionPush(vs: seq<string>, v: string, posOf: map<string, nat>)
    requires v in posOf
    ensures PositionSum(vs + [v], posOf) == PositionSum(vs, posOf) + posOf[v]
  {
    assert (vs + [v])[..|vs|] == vs;
  }

  lemma SelectedAll(near: seq<string>, back: set<string>, level: map<string, int>, posOf: map<string, nat>,
                    id: string, down: bool, sum: nat, count: nat)
    requires id in level && SelectedUpTo(near, back, level, posOf, id, down, |near|, sum, count)
    ensures sum == PositionSum(Select(near, back, level, id, down), posOf)
    ensures count == |Select(near, back, level, id, down)|
  {
    assert near[..|near|] == near;
  }

  lemma SelectStep(near: seq<string>, back: set<string>, level: map<string, int>, id: string, down: bool, i: nat)
    requires id in level && i < |near|
    ensures var rest, v := Select(near[..i], back, level, id, down), near[i];
      var key := if down then Key(v, id) else Key(id, v);
      Select(near[..i + 1], back, level, id, down) ==
        if key !in back && v in level && level[v] == (if down then level[id] - 1 else level[id] + 1) then rest + [v] else rest
  {
    assert near[..i + 1][..i] == near[..i];
    hide Key;
  }

  /** The mean of the positions, or the node's own position when there are none. */
  method MeanOrOwn(sum: nat, count: nat, own: nat, ghost near: seq<string>, ghost posOf: map<string, nat>, ghost id: string)
      returns (b: real)
    requires sum == PositionSum(near, posOf) && count == |near| && id in posOf && posOf[id] == own
    ensures b == Barycenter(near, posOf, id)
  {
    hide PositionSum;
    b := if count > 0 then sum as real / count as real else own as real;
  }

  /** `a` sorts before `b`: by barycenter, ties in the order they had. */
  predicate Before(bary: map<string, real>, posOf: map<string, nat>, a: string, b: string)
  {
    && a in bary && b in bary && a in posOf && b in posOf
    && (bary[a] < bary[b] || (bary[a] == bary[b] && posOf[a] < posOf[b]))
  }

  ghost predicate SortedBy(bary: map<string, real>, posOf: map<string, nat>, s: seq<string>)
  {
    forall i, j :: 0 <= i < j < |s| ==> Before(bary, posOf, s[i], s[j])
  }

  /** `layer.sort`, which is stable: the one arrangement of the layer that is strictly sorted. */
  method SortLayer(layer: seq<string>, bary: map<string, real>, ghost posOf: map<string, nat>) returns (sorted: seq<string>)
    requires Distinct(layer) && Indexed(layer, posOf) && forall v :: v in layer ==> v in bary
    ensures SortedBy(bary, posOf, sorted)
    ensures forall v :: v in sorted <==> v in layer
  {
    sorted := [];
    for k := 0 to |layer|
      invariant SortedBy(bary, posOf, sorted)
      invariant forall v :: v in sorted <==> v in layer[..k]
    {
      assert forall i :: 0 <= i < |sorted| ==> sorted[i] in sorted;
      var x := layer[k];
      var p := |sorted|;
      while p > 0 && bary[sorted[p - 1]] > bary[x]
        invariant 0 <= p <= |sorted|
        invariant forall i :: p <= i < |sorted| ==> bary[sorted[i]] > bary[x]
      {
        p := p - 1;
      }
      InsertSorted(layer, k, bary, posOf, sorted, p);
      sorted := sorted[..p] + [x] + sorted[p..];
      assert layer[..k + 1] == layer[..k] + [x];
    }
    assert layer[..|layer|] == layer;
  }

  lemma InsertSorted(layer: seq<string>, k: nat, bary: map<string, real>, posOf: map<string, nat>, sorted: seq<string>, p: nat)
    requires k < |layer| && Indexed(layer, posOf) && (forall v :: v in layer ==> v in bary)
    requires SortedBy(bary, posOf, sorted) && (forall v :: v in sorted <==> v in layer[..k]) && p <= |sorted|
    requires forall i :: 0 <= i < |sorted| ==> sorted[i] in bary
    requires forall i :: p <= i < |sorted| ==> bary[sorted[i]] > bary[layer[k]]
    requires p > 0 ==> bary[sorted[p - 1]] <= bary[layer[k]]
    ensures SortedBy(bary, posOf, sorted[..p] + [layer[k]] + sorted[p..])
    ensures forall v :: v in sorted[..p] + [layer[k]] + sorted[p..] <==> v in layer[..k] || v == layer[k]
  {
    var x := layer[k];
    forall i | 0 <= i < |sorted|
      ensures if i < p then Before(bary, posOf, sorted[i], x) else Before(bary, posOf, x, sorted[i])
    {
      assert sorted[i] in layer[..k];
      var m :| 0 <= m < k && layer[m] == sorted[i];
      if i < p - 1 { assert Before(bary, posOf, sorted[i], sorted[p - 1]); }
    }
    hide *;
    Inserted(bary, posOf, sorted, p, x);
    assert sorted == sorted[..p] + sorted[p..];
  }

  lemma Inserted(bary: map<string, real>, posOf: map<string, nat>, sorted: seq<string>, p: nat, x: string)
    requires SortedBy(bary, posOf, sorted) && p <= |sorted|
    requires forall i :: 0 <= i < |sorted| ==>
      if i < p then Before(bary, posOf, sorted[i], x) else Before(bary, posOf, x, sorted[i])
    ensures SortedBy(bary, posOf, sorted[..p] + [x] + sorted[p..])
  {
    hide Before;
  }

  lemma SortedIsDistinct(bary: map<string, real>, posOf: map<string, nat>, s: seq<string>)
    requires SortedBy(bary, posOf, s)
    ensures Distinct(s)
  {
    forall i, j | 0 <= i < j < |s|
      ensures s[i] != s[j]
    {
      assert Before(bary, posOf, s[i], s[j]);
    }
  }

  /** The layers partition the nodes by level and `posOf` is the index of every node in its layer. */
  ghost predicate Arranged(g: Graph, level: map<string, int>, layers: map<int, seq<string>>, maxLevel: int, posOf: map<string, nat>)
  {
    && IsGraph(g) && (forall v :: v in level <==> v in g.nodes)
    && Layered(level, layers, maxLevel) && forall l :: Indexed(Layer(layers, l), posOf)
  }

  lemma Placed(g: Graph, level: map<string, int>, layers: map<int, seq<string>>, maxLevel: int, posOf: map<string, nat>)
    requires Arranged(g, level, layers, maxLevel, posOf)
    ensures forall v :: v in g.nodes ==> v in posOf && v in level && v in g.incoming && v in g.outgoing
  {
    forall v | v in g.nodes
      ensures v in posOf
    {
      assert LayerOf(level, layers, level[v]);
      var layer := Layer(layers, level[v]);
      assert v in layer;
      assert Indexed(layer, posOf);
      var i :| 0 <= i < |layer| && layer[i] == v;
      assert layer[i] in posOf;
    }
  }

  /** The order of a layer is by barycenter of the neighbours, ties as before. */
  ghost predicate ByBarycenter(g: Graph, back: set<string>, level: map<string, int>, posOf: map<string, nat>, down: bool,
                               layer: seq<string>)
    requires forall v :: v in layer ==> v in posOf && v in level && v in g.incoming && v in g.outgoing
  {
    forall i, j :: 0 <= i < j < |layer| ==>
      var a := Barycenter(Neighbours(g, back, level, layer[i], down), posOf, layer[i]);
      var b := Barycenter(Neighbours(g, back, level, layer[j], down), posOf, layer[j]);
      a < b || (a == b && posOf[layer[i]] < posOf[layer[j]])
  }

  /** The barycenters of a layer. */
  method Barycenters(g: Graph, back: set<string>, level: map<string, int>, posOf: map<string, nat>, layer: seq<string>,
                     down: bool) returns (bary: map<string, real>)
    requires IsGraph(g) && forall v :: v in g.nodes ==> v in posOf && v in level && v in g.incoming && v in g.outgoing
    requires forall v :: v in layer ==> v in g.nodes
    ensures forall v :: v in bary <==> v in layer
    ensures forall v :: v in bary ==> bary[v] == Barycenter(Neighbours(g, back, level, v, down), posOf, v)
  {
    bary := map[];
    hide Barycenter, Neighbours, Select;
    for i := 0 to |layer|
      invariant forall v :: v in bary <==> v in layer[..i]
      invariant forall v :: v in bary ==> bary[v] == Barycenter(Neighbours(g, back, level, v, down), posOf, v)
    {
      var id := layer[i];
      var near := if down then g.incoming[id] else g.outgoing[id];
      NearAreNodes(g, id, down);
      var b := ComputeBarycenter(near, back, level, posOf, id, down);
      NeighboursAre(g, back, level, id, down);
      bary := bary[id := b];
      assert layer[..i + 1] == layer[..i] + [id];
    }
    assert layer[..|layer|] == layer;
  }

  lemma NearAreNodes(g: Graph, id: string, down: bool)
    requires IsGraph(g) && id in g.nodes
    ensures id in g.incoming && id in g.outgoing
    ensures forall v :: v in (if down then g.incoming[id] else g.outgoing[id]) ==> v in g.nodes
  {
    forall v | v in (if down then g.incoming[id] else g.outgoing[id])
      ensures v in g.nodes
    {
      assert if down then Edge(g, v, id) else Edge(g, id, v);
    }
  }

  lemma NeighboursAre(g: Graph, back: set<string>, level: map<string, int>, id: string, down: bool)
    requires id in g.incoming && id in g.outgoing && id in level
    ensures Neighbours(g, back, level, id, down)
         == Select(if down then g.incoming[id] else g.outgoing[id], back, level, id, down)
  {
  }

  /** One layer of a sweep: the layer is rearranged by barycenter and nothing else moves. */
  method ReorderLayer(g: Graph, back: set<string>, level: map<string, int>, layers0: map<int, seq<string>>,
                      maxLevel: int, posOf0: map<string, nat>, lvl: int, down: bool)
      returns (layers: map<int, seq<string>>, posOf: map<string, nat>)
    requires Arranged(g, level, layers0, maxLevel, posOf0)
    ensures Arranged(g, level, layers, maxLevel, posOf)
    ensures Reorders(g, back, level, maxLevel, layers0, posOf0, lvl, down, layers)
  {
    var layer := Layer(layers0, lvl);
    Placed(g, level, layers0, maxLevel, posOf0);
    assert LayerOf(level, layers0, lvl) && Indexed(layer, posOf0);
    hide ByBarycenter, Barycenter, Neighbours, IsGraph, SortedBy, Indexed;
    var bary := Barycenters(g, back, level, posOf0, layer, down);
    var sorted := SortLayer(layer, bary, posOf0);
    SortedIsDistinct(bary, posOf0, sorted);
    posOf := IndexLayer(sorted, posOf0);
    layers := layers0[lvl := sorted];
    SortedByBarycenter(g, back, level, posOf0, down, sorted, bary);
    Rearranged(g, level, layers0, maxLevel, posOf0, lvl, sorted, posOf);
  }

  lemma SortedByBarycenter(g: Graph, back: set<string>, level: map<string, int>, posOf: map<string, nat>, down: bool,
                           layer: seq<string>, bary: map<string, real>)
    requires forall v :: v in layer ==> v in posOf && v in level && v in g.incoming && v in g.outgoing && v in bary
    requires forall v :: v in bary ==> v in posOf && v in level && v in g.incoming && v in g.outgoing
    requires forall v :: v in bary ==> bary[v] == Barycenter(Neighbours(g, back, level, v, down), posOf, v)
    requires SortedBy(bary, posOf, layer)
    ensures ByBarycenter(g, back, level, posOf, down, layer)
  {
    hide Barycenter, Neighbours;
    forall i, j | 0 <= i < j < |layer|
      ensures Before(bary, posOf, layer[i], layer[j])
    {
    }
  }

  lemma Rearranged(g: Graph, level: map<string, int>, layers: map<int, seq<string>>, maxLevel: int, posOf: map<string, nat>,
                   lvl: int, sorted: seq<string>, posOf': map<string, nat>)
    requires Arranged(g, level, layers, maxLevel, posOf)
    requires Distinct(sorted) && (forall v :: v in sorted <==> v in Layer(layers, lvl)) && Indexed(sorted, posOf')
    requires forall v :: v !in sorted ==> (v in posOf' <==> v in posOf) && (v in posOf' ==> posOf'[v] == posOf[v])
    ensures Arranged(g, level, layers[lvl := sorted], maxLevel, posOf')
    ensures forall l :: l != lvl ==> Layer(layers[lvl := sorted], l) == Layer(layers, l)
    ensures Layer(layers[lvl := sorted], lvl) == sorted
  {
    hide IsGraph;
    var layers' := layers[lvl := sorted];
    assert LayerOf(level, layers, lvl);
    forall l
      ensures LayerOf(level, layers', l) && Indexed(Layer(layers', l), posOf')
    {
      assert LayerOf(level, layers, l) && Indexed(Layer(layers, l), posOf);
      if l != lvl {
        assert Layer(layers', l) == Layer(layers, l);
        forall i | 0 <= i < |Layer(layers, l)|
          ensures Layer(layers, l)[i] in posOf' && posOf'[Layer(layers, l)[i]] == i
        {
          assert Layer(layers, l)[i] in Layer(layers, l);
          assert Layer(layers, l)[i] !in sorted;
        }
      }
    }
  }

  /** The initial positions. */
  method IndexAll(g: Graph, level: map<string, int>, layers: map<int, seq<string>>, maxLevel: int) returns (posOf: map<string, nat>)
    requires IsGraph(g) && (forall v :: v in level <==> v in g.nodes) && Layered(level, layers, maxLevel)
    ensures Arranged(g, level, layers, maxLevel, posOf)
  {
    posOf := map[];
    hide IsGraph, Indexed;
    for lvl := 0 to maxLevel + 1
      invariant forall l :: 0 <= l < lvl ==> Indexed(Layer(layers, l), posOf)
    {
      assert LayerOf(level, layers, lvl);
      ghost var before := posOf;
      posOf := IndexLayer(Layer(layers, lvl), posOf);
      forall l | 0 <= l < lvl
        ensures Indexed(Layer(layers, l), posOf)
      {
        assert LayerOf(level, layers, l);
        OtherLayer(Layer(layers, l), Layer(layers, lvl), before, posOf);
      }
    }
    forall l
      ensures Indexed(Layer(layers, l), posOf)
    {
      assert LayerOf(level, layers, l);
      if l < 0 || l > maxLevel { EmptyIndexed(Layer(layers, l), posOf); }
    }
  }

  lemma OtherLayer(layer: seq<string>, other: seq<string>, posOf: map<string, nat>, posOf': map<string, nat>)
    requires Indexed(layer, posOf) && forall v :: v in layer ==> v !in other
    requires forall v :: v !in other ==> (v in posOf' <==> v in posOf) && (v in posOf' ==> posOf'[v] == posOf[v])
    ensures Indexed(layer, posOf')
  {
    forall i | 0 <= i < |layer|
      ensures layer[i] in posOf' && posOf'[layer[i]] == i
    {
      assert layer[i] in layer;
    }
  }

  lemma EmptyIndexed(layer: seq<string>, posOf: map<string, nat>)
    requires forall v :: v !in layer
    ensures Indexed(layer, posOf)
  {
    FirstIsMember(layer);
  }

  lemma FirstIsMember(s: seq<string>)
    ensures s != [] ==> exists v :: v in s
  {
    if s != [] { assert s[0] in s; }
  }

  /** `layers` is `layers0` with layer `lvl` sorted by barycenter: one layer of a sweep. */
  ghost predicate Reorders(g: Graph, back: set<string>, level: map<string, int>, maxLevel: int,
                           layers0: map<int, seq<string>>, posOf: map<string, nat>, lvl: int, down: bool,
                           layers: map<int, seq<string>>)
  {
    && Arranged(g, level, layers0, maxLevel, posOf) && Layered(level, layers, maxLevel)
    && (forall l :: l != lvl ==> Layer(layers, l) == Layer(layers0, l))
    && (forall v :: v in Layer(layers, lvl) ==> v in posOf && v in level && v in g.incoming && v in g.outgoing)
    && ByBarycenter(g, back, level, posOf, down, Layer(layers, lvl))
  }

  /** The layers of a downward sweep, and of an upward sweep. */
  function DownSweep(maxLevel: nat): seq<(int, bool)>
  {
    seq(maxLevel, i => (i + 1, true))
  }

  function UpSweep(maxLevel: nat): seq<(int, bool)>
  {
    seq(maxLevel, i => (maxLevel - 1 - i, false))
  }

  function Passes(n: nat, maxLevel: nat): seq<(int, bool)>
  {
    if n == 0 then [] else Passes(n - 1, maxLevel) + DownSweep(maxLevel) + UpSweep(maxLevel)
  }

  /** The given steps, one after the other, lead from `layers0` to `layers`. */
  ghost predicate Swept(g: Graph, back: set<string>, level: map<string, int>, maxLevel: int, steps: seq<(int, bool)>,
                        layers0: map<int, seq<string>>, layers: map<int, seq<string>>)
  {
    if steps == [] then layers == layers0
    else
      var step := steps[|steps| - 1];
      exists mid, posOf ::
        Swept(g, back, level, maxLevel, steps[..|steps| - 1], layers0, mid)
        && Reorders(g, back, level, maxLevel, mid, posOf, step.0, step.1, layers)
  }

  lemma SweptStep(g: Graph, back: set<string>, level: map<string, int>, maxLevel: int, steps: seq<(int, bool)>,
                  layers0: map<int, seq<string>>, mid: map<int, seq<string>>, posOf: map<string, nat>,
                  step: (int, bool), layers: map<int, seq<string>>)
    requires Swept(g, back, level, maxLevel, steps, layers0, mid)
    requires Reorders(g, back, level, maxLevel, mid, posOf, step.0, step.1, layers)
    ensures Swept(g, back, level, maxLevel, steps + [step], layers0, layers)
  {
    hide Reorders;
    var all := steps + [step];
    assert all[..|all| - 1] == steps && all[|all| - 1] == step;
    assert Swept(g, back, level, maxLevel, all[..|all| - 1], layers0, mid);
  }

  /** Phase 3: four passes of a downward and an upward sweep, which only rearrange the layers. */
  method MinimizeCrossings(g: Graph, back: set<string>, level: map<string, int>, layers0: map<int, seq<string>>, maxLevel: nat)
      returns (layers: map<int, seq<string>>)
    requires IsGraph(g) && (forall v :: v in level <==> v in g.nodes) && Layered(level, layers0, maxLevel)
    ensures Layered(level, layers, maxLevel)
    ensures Swept(g, back, level, maxLevel, Passes(4, maxLevel), layers0, layers)
  {
    var posOf := IndexAll(g, level, layers0, maxLevel);
    layers := layers0;
    ghost var done: seq<(int, bool)> := [];
    hide IsGraph, Layered, ByBarycenter, Reorders;
    for pass := 0 to 4
      invariant Arranged(g, level, layers, maxLevel, posOf)
      invariant done == Passes(pass, maxLevel) && Swept(g, back, level, maxLevel, done, layers0, layers)
    {
      layers, posOf := SweepDown(g, back, level, layers0, layers, maxLevel, posOf, done);
      done := done + DownSweep(maxLevel);
      layers, posOf := SweepUp(g, back, level, layers0, layers, maxLevel, posOf, done);
      done := done + UpSweep(maxLevel);
    }
  }

  method SweepDown(g: Graph, back: set<string>, level: map<string, int>, ghost start: map<int, seq<string>>,
                   layers0: map<int, seq<string>>, maxLevel: nat, posOf0: map<string, nat>, ghost done: seq<(int, bool)>)
      returns (layers: map<int, seq<string>>, posOf: map<string, nat>)
    requires Arranged(g, level, layers0, maxLevel, posOf0) && Swept(g, back, level, maxLevel, done, start, layers0)
    ensures Arranged(g, level, layers, maxLevel, posOf)
    ensures Swept(g, back, level, maxLevel, done + DownSweep(maxLevel), start, layers)
  {
    hide Arranged, Swept, ByBarycenter, Reorders;
    layers, posOf := layers0, posOf0;
    assert done + DownSweep(maxLevel)[..0] == done;
    var lvl := 1;
    while lvl <= maxLevel
      invariant 1 <= lvl <= maxLevel + 1 && Arranged(g, level, layers, maxLevel, posOf)
      invariant Swept(g, back, level, maxLevel, done + DownSweep(maxLevel)[..lvl - 1], start, layers)
      decreases maxLevel - lvl
    {
      ghost var mid, before := layers, posOf;
      layers, posOf := ReorderLayer(g, back, level, layers, maxLevel, posOf, lvl, true);
      SweptStep(g, back, level, maxLevel, done + DownSweep(maxLevel)[..lvl - 1], start, mid, before, (lvl, true), layers);
      NextStep(done, DownSweep(maxLevel), lvl - 1);
      lvl := lvl + 1;
    }
    assert DownSweep(maxLevel)[..maxLevel] == DownSweep(maxLevel);
  }

  method SweepUp(g: Graph, back: set<string>, level: map<string, int>, ghost start: map<int, seq<string>>,
                 layers0: map<int, seq<string>>, maxLevel: nat, posOf0: map<string, nat>, ghost done: seq<(int, bool)>)
      returns (layers: map<int, seq<string>>, posOf: map<string, nat>)
    requires Arranged(g, level, layers0, maxLevel, posOf0) && Swept(g, back, level, maxLevel, done, start, layers0)
    ensures Arranged(g, level, layers, maxLevel, posOf)
    ensures Swept(g, back, level, maxLevel, done + UpSweep(maxLevel), start, layers)
  {
    hide Arranged, Swept, ByBarycenter, Reorders;
    layers, posOf := layers0, posOf0;
    assert done + UpSweep(maxLevel)[..0] == done;
    var lvl := maxLevel - 1;
    while lvl >= 0
      invariant -1 <= lvl < maxLevel && Arranged(g, level, layers, maxLevel, posOf)
      invariant Swept(g, back, level, maxLevel, done + UpSweep(maxLevel)[..maxLevel - 1 - lvl], start, layers)
      decreases lvl
    {
      ghost var mid, before := layers, posOf;
      layers, posOf := ReorderLayer(g, back, level, layers, maxLevel, posOf, lvl, false);
      SweptStep(g, back, level, maxLevel, done + UpSweep(maxLevel)[..maxLevel - 1 - lvl], start, mid, before, (lvl, false), layers);
      NextStep(done, UpSweep(maxLevel), maxLevel - 1 - lvl);
      lvl := lvl - 1;
    }
    assert UpSweep(maxLevel)[..maxLevel] == UpSweep(maxLevel);
  }

  lemma NextStep(done: seq<(int, bool)>, sweep: seq<(int, bool)>, i: nat)
    requires i < |sweep|
    ensures done + sweep[..i] + [sweep[i]] == done + sweep[..i + 1]
  {
  }

  // ---- The sweeps leave no choice -------------------------------------------------------------------------

  /** There is one arrangement of a layer that is strictly sorted. */
  lemma {:induction false} SortedUnique(bary: map<string, real>, posOf: map<string, nat>, s: seq<string>, t: seq<string>)
    requires SortedBy(bary, posOf, s) && SortedBy(bary, posOf, t) && forall v :: v in s <==> v in t
    ensures s == t
  {
    FirstIsMember(s);
    FirstIsMember(t);
    if s != [] && t != [] {
      assert s[0] in t && t[0] in s;
      HeadFirst(bary, posOf, s, t[0]);
      HeadFirst(bary, posOf, t, s[0]);
      TailMembers(bary, posOf, s);
      TailMembers(bary, posOf, t);
      SortedUnique(bary, posOf, s[1..], t[1..]);
      assert s == [s[0]] + s[1..] && t == [t[0]] + t[1..];
    }
  }

  lemma HeadFirst(bary: map<string, real>, posOf: map<string, nat>, s: seq<string>, v: string)
    requires SortedBy(bary, posOf, s) && v in s
    ensures v == s[0] || Before(bary, posOf, s[0], v)
  {
  }

  lemma TailMembers(bary: map<string, real>, posOf: map<string, nat>, s: seq<string>)
    requires SortedBy(bary, posOf, s) && s != []
    ensures SortedBy(bary, posOf, s[1..]) && forall v :: v in s[1..] <==> v in s && v != s[0]
  {
    SortedIsDistinct(bary, posOf, s);
    assert s == [s[0]] + s[1..];
    forall v | v in s[1..]
      ensures v != s[0]
    {
      var i :| 0 <= i < |s[1..]| && s[1..][i] == v;
      assert s[i + 1] == v;
    }
  }

  /** The same layers give every node the same position. */
  lemma SamePositions(g: Graph, level: map<string, int>, maxLevel: int, l1: map<int, seq<string>>, p1: map<string, nat>,
                      l2: map<int, seq<string>>, p2: map<string, nat>, v: string)
    requires Arranged(g, level, l1, maxLevel, p1) && Arranged(g, level, l2, maxLevel, p2) && v in g.nodes
    requires forall l :: Layer(l1, l) == Layer(l2, l)
    ensures v in p1 && v in p2 && p1[v] == p2[v]
  {
    var layer := Layer(l1, level[v]);
    assert LayerOf(level, l1, level[v]) && layer == Layer(l2, level[v]);
    assert v in layer && Indexed(layer, p1) && Indexed(layer, p2);
    var i :| 0 <= i < |layer| && layer[i] == v;
    hide IsGraph, Layered;
  }

  lemma {:induction false} SameSum(vs: seq<string>, p1: map<string, nat>, p2: map<string, nat>)
    requires forall v :: v in vs ==> v in p1 && v in p2 && p1[v] == p2[v]
    ensures PositionSum(vs, p1) == PositionSum(vs, p2)
  {
    if vs != [] {
      assert vs[|vs| - 1] in vs;
      SameSum(vs[..|vs| - 1], p1, p2);
    }
  }

  lemma SameBarycenter(g: Graph, back: set<string>, level: map<string, int>, p1: map<string, nat>, p2: map<string, nat>,
                       down: bool, v: string)
    requires IsGraph(g) && (forall u :: u in g.nodes ==> u in p1 && u in p2 && u in level && p1[u] == p2[u]) && v in g.nodes
    ensures v in g.incoming && v in g.outgoing
    ensures Barycenter(Neighbours(g, back, level, v, down), p1, v) == Barycenter(Neighbours(g, back, level, v, down), p2, v)
  {
    NearAreNodes(g, v, down);
    NeighboursAre(g, back, level, v, down);
    var near := Neighbours(g, back, level, v, down);
    hide Neighbours, IsGraph;
    assert forall u :: u in near ==> u in g.nodes;
    SameSum(near, p1, p2);
  }

  /** A layer in barycenter order is sorted by the barycenters of its nodes. */
  lemma SortedByOwn(g: Graph, back: set<string>, level: map<string, int>, posOf: map<string, nat>, down: bool,
                    layer: seq<string>, bary: map<string, real>)
    requires forall v :: v in layer ==> v in posOf && v in level && v in g.incoming && v in g.outgoing && v in bary
    requires forall v :: v in layer ==> bary[v] == Barycenter(Neighbours(g, back, level, v, down), posOf, v)
    requires ByBarycenter(g, back, level, posOf, down, layer)
    ensures SortedBy(bary, posOf, layer)
  {
    hide Barycenter, Neighbours;
    forall i, j | 0 <= i < j < |layer|
      ensures Before(bary, posOf, layer[i], layer[j])
    {
      assert layer[i] in layer && layer[j] in layer;
    }
  }

  lemma SortedElsewhere(bary: map<string, real>, p1: map<string, nat>, p2: map<string, nat>, s: seq<string>)
    requires SortedBy(bary, p2, s) && forall v :: v in s ==> v in p1 && v in p2 && p1[v] == p2[v]
    ensures SortedBy(bary, p1, s)
  {
    forall i, j | 0 <= i < j < |s|
      ensures Before(bary, p1, s[i], s[j])
    {
      assert s[i] in s && s[j] in s && Before(bary, p2, s[i], s[j]);
    }
  }

  /** Two orders of a layer by barycenter, for the same positions, are the same. */
  lemma OrderUnique(g: Graph, back: set<string>, level: map<string, int>, p1: map<string, nat>, p2: map<string, nat>,
                    down: bool, s: seq<string>, t: seq<string>)
    requires IsGraph(g) && (forall v :: v in g.nodes ==> v in p1 && v in p2 && v in level && p1[v] == p2[v])
    requires (forall v :: v in s <==> v in t) && forall v :: v in s ==> v in g.nodes && v in g.incoming && v in g.outgoing
    requires ByBarycenter(g, back, level, p1, down, s) && ByBarycenter(g, back, level, p2, down, t)
    ensures s == t
  {
    var bary := map v | v in s :: Barycenter(Neighbours(g, back, level, v, down), p1, v);
    hide IsGraph, Barycenter, Neighbours, ByBarycenter, SortedBy;
    forall v | v in s
      ensures Barycenter(Neighbours(g, back, level, v, down), p1, v) == Barycenter(Neighbours(g, back, level, v, down), p2, v)
    {
      SameBarycenter(g, back, level, p1, p2, down, v);
    }
    SortedByOwn(g, back, level, p1, down, s, bary);
    SortedByOwn(g, back, level, p2, down, t, bary);
    SortedElsewhere(bary, p1, p2, t);
    SortedUnique(bary, p1, s, t);
  }

  /** A step from the same layers leads to the same layers. */
  lemma ReordersUnique(g: Graph, back: set<string>, level: map<string, int>, maxLevel: int, lvl: int, down: bool,
                       m1: map<int, seq<string>>, p1: map<string, nat>, l1: map<int, seq<string>>,
                       m2: map<int, seq<string>>, p2: map<string, nat>, l2: map<int, seq<string>>)
    requires Reorders(g, back, level, maxLevel, m1, p1, lvl, down, l1)
    requires Reorders(g, back, level, maxLevel, m2, p2, lvl, down, l2)
    requires forall l :: Layer(m1, l) == Layer(m2, l)
    ensures forall l :: Layer(l1, l) == Layer(l2, l)
  {
    assert LayerOf(level, l1, lvl) && LayerOf(level, l2, lvl);
    assert IsGraph(g) && forall v :: v in level <==> v in g.nodes;
    hide IsGraph, ByBarycenter, Arranged, Layered, Layer;
    forall v | v in g.nodes
      ensures v in p1 && v in p2 && v in level && p1[v] == p2[v]
    {
      SamePositions(g, level, maxLevel, m1, p1, m2, p2, v);
    }
    OrderUnique(g, back, level, p1, p2, down, Layer(l1, lvl), Layer(l2, lvl));
  }

  /** Crossing minimization is determined: every run of the steps ends in the same layers. */
  lemma {:induction false} SweptUnique(g: Graph, back: set<string>, level: map<string, int>, maxLevel: int,
                                       steps: seq<(int, bool)>, layers0: map<int, seq<string>>,
                                       l1: map<int, seq<string>>, l2: map<int, seq<string>>)
    requires Swept(g, back, level, maxLevel, steps, layers0, l1) && Swept(g, back, level, maxLevel, steps, layers0, l2)
    ensures forall l :: Layer(l1, l) == Layer(l2, l)
    decreases |steps|
  {
    hide Reorders;
    if steps != [] {
      var front, step := steps[..|steps| - 1], steps[|steps| - 1];
      var m1, p1 :| Swept(g, back, level, maxLevel, front, layers0, m1)
        && Reorders(g, back, level, maxLevel, m1, p1, step.0, step.1, l1);
      var m2, p2 :| Swept(g, back, level, maxLevel, front, layers0, m2)
        && Reorders(g, back, level, maxLevel, m2, p2, step.0, step.1, l2);
      SweptUnique(g, back, level, maxLevel, front, layers0, m1, m2);
      ReordersUnique(g, back, level, maxLevel, step.0, step.1, m1, p1, l1, m2, p2, l2);
    }
  }

  // ---- Coordinates ---------------------------------------------------------------------------------------

  datatype Position = Position(x: Option<int>, y: Option<int>)

  /** Where node `i` of level `lvl` is drawn. */
  function Spot(layers: map<int, seq<string>>, lvl: int, i: int): Position
  {
    var totalWidth := (|Layer(layers, lvl)| - 1) * 120;
    Position(Some(400 - totalWidth / 2 + i * 120), Some(100 + lvl * 150))
  }

  /** The position of a node: an id that is both a place and a transition counts as a transition. */
  function At(placeAt: map<string, Position>, transitionAt: map<string, Position>, v: string): Position
    requires v in placeAt || v in transitionAt
  {
    if v in transitionAt then transitionAt[v] else placeAt[v]
  }

  ghost predicate IsAt(placeAt: map<string, Position>, transitionAt: map<string, Position>, v: string, spot: Position)
  {
    (v in placeAt || v in transitionAt) && At(placeAt, transitionAt, v) == spot
  }

  /** The first `n` nodes of a layer are at their spots. */
  ghost predicate LayerDrawn(placeAt: map<string, Position>, transitionAt: map<string, Position>,
                             layers: map<int, seq<string>>, lvl: int, n: int)
  {
    forall i :: 0 <= i < n && i < |Layer(layers, lvl)| ==>
      IsAt(placeAt, transitionAt, Layer(layers, lvl)[i], Spot(layers, lvl, i))
  }

  function MinCoordinate(least: Option<int>, c: Option<int>): Option<int>
  {
    match c
    case None => least
    case Some(v) => if least.None? || v < least.value then c else least
  }

  function Moved(pos: Position, dx: int, dy: int): Position
  {
    Position(if pos.x.Some? then Some(pos.x.value + dx) else None, if pos.y.Some? then Some(pos.y.value + dy) else None)
  }

  /** Every defined coordinate is at least `least`, when that is a number. */
  ghost predicate NotBelow(at: map<string, Position>, minX: Option<int>, minY: Option<int>)
  {
    forall v :: v in at ==>
      && (at[v].x.Some? ==> minX.Some? && minX.value <= at[v].x.value)
      && (at[v].y.Some? ==> minY.Some? && minY.value <= at[v].y.value)
  }

  /** Some node has the coordinate `c`. */
  ghost predicate HasX(at: map<string, Position>, c: int)
  {
    exists v :: v in at && at[v].x == Some(c)
  }

  ghost predicate HasY(at: map<string, Position>, c: int)
  {
    exists v :: v in at && at[v].y == Some(c)
  }

  ghost predicate MovedBy(before: map<string, Position>, after: map<string, Position>, dx: int, dy: int)
  {
    (forall v :: v in after <==> v in before) && forall v :: v in before ==> after[v] == Moved(before[v], dx, dy)
  }

  function Offset(least: Option<int>, minMargin: int): (d: int)
    ensures d >= 0
  {
    if least.Some? && least.value < minMargin then minMargin - least.value else 0
  }

  /** The least coordinates of a dictionary, folded into those found before. */
  method Bounds(ids: seq<string>, at: map<string, Position>, minX0: Option<int>, minY0: Option<int>)
      returns (minX: Option<int>, minY: Option<int>)
    requires forall v :: v in at <==> v in ids
    ensures NotBelow(at, minX, minY)
    ensures minX0.Some? ==> minX.Some? && minX.value <= minX0.value
    ensures minY0.Some? ==> minY.Some? && minY.value <= minY0.value
    ensures minX == minX0 || (minX.Some? && HasX(at, minX.value))
    ensures minY == minY0 || (minY.Some? && HasY(at, minY.value))
  {
    minX, minY := minX0, minY0;
    for i := 0 to |ids|
      invariant minX == minX0 || (minX.Some? && HasX(at, minX.value))
      invariant minY == minY0 || (minY.Some? && HasY(at, minY.value))
      invariant minX0.Some? ==> minX.Some? && minX.value <= minX0.value
      invariant minY0.Some? ==> minY.Some? && minY.value <= minY0.value
      invariant forall k :: 0 <= k < i ==> (at[ids[k]].x.Some? ==> minX.Some? && minX.value <= at[ids[k]].x.value)
      invariant forall k :: 0 <= k < i ==> (at[ids[k]].y.Some? ==> minY.Some? && minY.value <= at[ids[k]].y.value)
    {
      minX := MinCoordinate(minX, at[ids[i]].x);
      minY := MinCoordinate(minY, at[ids[i]].y);
    }
  }

  method MoveAll(ids: seq<string>, at: map<string, Position>, dx: int, dy: int) returns (after: map<string, Position>)
    requires Distinct(ids) && forall v :: v in at <==> v in ids
    ensures MovedBy(at, after, dx, dy)
  {
    after := at;
    for i := 0 to |ids|
      invariant forall v :: v in after <==> v in at
      invariant forall k :: 0 <= k < i ==> after[ids[k]] == Moved(at[ids[k]], dx, dy)
      invariant forall k :: i <= k < |ids| ==> after[ids[k]] == at[ids[k]]
    {
      after := after[ids[i] := Moved(after[ids[i]], dx, dy)];
    }
  }

  /** The positions are on the canvas: every defined coordinate is at least the margin. */
  ghost predicate OnCanvas(at: map<string, Position>, minMargin: int)
  {
    NotBelow(at, Some(minMargin), Some(minMargin))
  }

  lemma MovedOntoCanvas(before: map<string, Position>, after: map<string, Position>, minX: Option<int>, minY: Option<int>,
                        minMargin: int)
    requires NotBelow(before, minX, minY) && MovedBy(before, after, Offset(minX, minMargin), Offset(minY, minMargin))
    ensures OnCanvas(after, minMargin)
  {
  }

  /** A least coordinate below the margin ends on the margin. */
  lemma MovedOntoMargin(before: map<string, Position>, after: map<string, Position>, dx: int, dy: int,
                        minX: Option<int>, minY: Option<int>, minMargin: int)
    requires MovedBy(before, after, dx, dy) && dx == Offset(minX, minMargin) && dy == Offset(minY, minMargin)
    ensures dx > 0 && HasX(before, minX.value) ==> HasX(after, minMargin)
    ensures dy > 0 && HasY(before, minY.value) ==> HasY(after, minMargin)
  {
    if dx > 0 && HasX(before, minX.value) {
      var v :| v in before && before[v].x == Some(minX.value);
      assert after[v] == Moved(before[v], dx, dy);
    }
    if dy > 0 && HasY(before, minY.value) {
      var v :| v in before && before[v].y == Some(minY.value);
      assert after[v] == Moved(before[v], dx, dy);
    }
  }

  lemma Unmoved(at: map<string, Position>)
    ensures MovedBy(at, at, 0, 0)
  {
    forall v | v in at
      ensures at[v] == Moved(at[v], 0, 0)
    {
    }
  }

  /** The nodes in the order of the map that the layout builds. */
  function NodeIds(places: seq<string>, transitions: seq<string>): (r: seq<string>)
    ensures forall v :: v in r <==> v in places || v in transitions
    ensures Distinct(places) && Distinct(transitions) ==> Distinct(r)
  {
    if transitions == [] then places
    else
      var rest, t := NodeIds(places, transitions[..|transitions| - 1]), transitions[|transitions| - 1];
      assert transitions == transitions[..|transitions| - 1] + [t];
      assert Distinct(transitions) ==> t !in transitions[..|transitions| - 1];
      if t in places || t in rest then rest else rest + [t]
  }

  /** Adjacency lists of the arcs between known nodes. */
  method BuildGraph(nodes: seq<string>, arcs: seq<(string, string)>) returns (g: Graph)
    requires Distinct(nodes)
    ensures IsGraph(g) && g.nodes == nodes
    ensures forall u, t :: Edge(g, u, t) <==> u in nodes && t in nodes && (u, t) in arcs
  {
    var outgoing: map<string, seq<string>> := map v | v in nodes :: [];
    var incoming: map<string, seq<string>> := map v | v in nodes :: [];
    assert arcs[..0] == [];
    for i := 0 to |arcs|
      invariant Lists(nodes, arcs[..i], outgoing, incoming)
    {
      var s, t := arcs[i].0, arcs[i].1;
      assert arcs[..i + 1] == arcs[..i] + [(s, t)];
      if s in nodes && t in nodes {
        ListsMore(nodes, arcs[..i], outgoing, incoming, s, t);
        outgoing := outgoing[s := outgoing[s] + [t]];
        incoming := incoming[t := incoming[t] + [s]];
      } else {
        ListsSame(nodes, arcs[..i], outgoing, incoming, s, t);
      }
    }
    assert arcs[..|arcs|] == arcs;
    g := Graph(nodes, outgoing, incoming);
    ListsAreGraph(nodes, arcs, outgoing, incoming);
  }

  lemma OnlyTarget(g: Graph, u: string, t: string)
    requires IsGraph(g) && Edge(g, u, t) && forall x :: Edge(g, u, x) ==> x == t
    ensures u in g.nodes && u in g.outgoing && g.outgoing[u] != [] && g.outgoing[u][0] == t
  {
    assert g.outgoing[u][0] in g.outgoing[u];
    assert Edge(g, u, g.outgoing[u][0]);
  }

  lemma NoTarget(g: Graph, u: string)
    requires IsGraph(g) && u in g.nodes && forall x :: !Edge(g, u, x)
    ensures u in g.outgoing && g.outgoing[u] == []
  {
    if g.outgoing[u] != [] { assert Edge(g, u, g.outgoing[u][0]); }
  }

  lemma SharedText(g: Graph, a: string, b: string, c: string, d: string)
    requires IsGraph(g) && g.nodes == [a, b, c, d] && a != c && b != d && a != b && b != c && a != d && c != d
    requires forall u, t :: Edge(g, u, t) <==> (u == a && t == c) || (u == c && t == a) || (u == d && t == b)
    requires Key(d, b) == Key(c, a)
    ensures Key(d, b) in BackEdges(g) && !ClosesCycle(g, d, b)
  {
    hide IsGraph, Edge, Key, BackEdges;
    OnlyTarget(g, a, c);
    OnlyTarget(g, c, a);
    NoTarget(g, b);
    var p := [a, c];
    assert ListsNext(g, p, 0) && ListsNext(g, p, 1);
    PathRemembered(g, p);
    DeadEnd(g, b, d);
  }

  /** Beside a cycle of a and c, an arc with the text of the arc from c to a is dropped and closes no cycle. */
  method SharedTextDropped(a: string, b: string, c: string, d: string) returns (g: Graph, back: set<string>)
    requires a != c && b != d && a != b && b != c && a != d && c != d && Key(d, b) == Key(c, a)
    ensures IsGraph(g) && back == BackEdges(g)
    ensures Edge(g, d, b) && !Kept(g, back, d, b) && !ClosesCycle(g, d, b)
  {
    var nodes, arcs := [a, b, c, d], [(a, c), (c, a), (d, b)];
    assert nodes[0] == a && nodes[1] == b && nodes[2] == c && nodes[3] == d;
    assert arcs[0] == (a, c) && arcs[1] == (c, a) && arcs[2] == (d, b);
    assert Distinct(nodes);
    assert forall u, t ::
      (u in nodes && t in nodes && (u, t) in arcs <==> (u == a && t == c) || (u == c && t == a) || (u == d && t == b));
    hide *;
    g := BuildGraph(nodes, arcs);
    ghost var order;
    back, order := BreakCycles(g);
    SharedText(g, a, b, c, d);
    TextDropped(g, back, d, b);
  }

  lemma TextDropped(g: Graph, back: set<string>, u: string, t: string)
    requires Key(u, t) in back
    ensures !Kept(g, back, u, t)
  {
  }

  /** The arc from a to b->c is dropped with the arc from a->b to c. */
  method InnocentArcDropped() returns (g: Graph, back: set<string>)
    ensures IsGraph(g) && back == BackEdges(g)
    ensures Edge(g, "a", "b->c") && !Kept(g, back, "a", "b->c") && !ClosesCycle(g, "a", "b->c")
  {
    var a, b, c, d := "c", "b->c", "a->b", "a";
    assert a[0] == 'c' && b[0] == 'b' && c[0] == 'a' && d[0] == 'a' && |c| == 4 && |d| == 1;
    assert Key(d, b) == "a->b->c" == Key(c, a);
    hide *;
    g, back := SharedTextDropped(a, b, c, d);
  }

  /** The adjacency lists hold the arcs between known nodes. */
  ghost predicate Lists(nodes: seq<string>, arcs: seq<(string, string)>, outgoing: map<string, seq<string>>,
                        incoming: map<string, seq<string>>)
  {
    && (forall v :: v in outgoing <==> v in nodes) && (forall v :: v in incoming <==> v in nodes)
    && (forall u, t :: u in nodes ==> (t in outgoing[u] <==> t in nodes && (u, t) in arcs))
    && (forall u, t :: t in nodes ==> (u in incoming[t] <==> u in nodes && (u, t) in arcs))
  }

  lemma ListsMore(nodes: seq<string>, arcs: seq<(string, string)>, outgoing: map<string, seq<string>>,
                  incoming: map<string, seq<string>>, s: string, t: string)
    requires Lists(nodes, arcs, outgoing, incoming) && s in nodes && t in nodes
    ensures s in outgoing && t in incoming
    ensures Lists(nodes, arcs + [(s, t)], outgoing[s := outgoing[s] + [t]], incoming[t := incoming[t] + [s]])
  {
  }

  lemma ListsSame(nodes: seq<string>, arcs: seq<(string, string)>, outgoing: map<string, seq<string>>,
                  incoming: map<string, seq<string>>, s: string, t: string)
    requires Lists(nodes, arcs, outgoing, incoming) && !(s in nodes && t in nodes)
    ensures Lists(nodes, arcs + [(s, t)], outgoing, incoming)
  {
  }

  lemma ListsAreGraph(nodes: seq<string>, arcs: seq<(string, string)>, outgoing: map<string, seq<string>>,
                      incoming: map<string, seq<string>>)
    requires Distinct(nodes) && Lists(nodes, arcs, outgoing, incoming)
    ensures var g := Graph(nodes, outgoing, incoming);
      IsGraph(g) && forall u, t :: Edge(g, u, t) <==> u in nodes && t in nodes && (u, t) in arcs
  {
  }

  /** Every node of the layers is at its spot. */
  ghost predicate AllDrawn(placeAt: map<string, Position>, transitionAt: map<string, Position>,
                           level: map<string, int>, layers: map<int, seq<string>>, maxLevel: int)
  {
    forall l :: 0 <= l <= maxLevel ==> LayerDrawn(placeAt, transitionAt, layers, l, |Layer(layers, l)|)
  }

  /** Every node is on the line of its level. */
  ghost predicate OnLevels(level: map<string, int>, placeAt: map<string, Position>, transitionAt: map<string, Position>, top: int)
  {
    forall v :: v in level ==>
      (v in placeAt || v in transitionAt) && At(placeAt, transitionAt, v).y == Some(top + level[v] * 150)
  }

  /**
   * A finished drawing: what was remembered is the text of arcs that close a cycle, and every node is on the line of its
   * longest path from a source.
   */
  ghost predicate IsDrawing(g: Graph, back: set<string>, level: map<string, int>, placeAt: map<string, Position>,
                            transitionAt: map<string, Position>, top: int)
  {
    && BackOnCycles(g, back) && (TextsAgree(g) ==> DroppedClose(g, back)) && LongestPaths(g, back, level)
    && DrawnApart(g, back, placeAt, transitionAt) && OnLevels(level, placeAt, transitionAt, top)
  }

  /** Two different nodes are drawn at different places, and kept arcs lead at least 150 down. */
  ghost predicate DrawnApart(g: Graph, back: set<string>, placeAt: map<string, Position>, transitionAt: map<string, Position>)
  {
    && (forall v :: v in g.nodes ==> v in placeAt || v in transitionAt)
    && (forall v :: v in g.nodes ==>
         At(placeAt, transitionAt, v).x.Some? && At(placeAt, transitionAt, v).y.Some?)
    && (forall u, v :: u in g.nodes && v in g.nodes && u != v ==>
         At(placeAt, transitionAt, u) != At(placeAt, transitionAt, v))
    && (forall u, t :: u in g.nodes && t in g.nodes && Kept(g, back, u, t) ==>
         At(placeAt, transitionAt, u).y.value + 150 <= At(placeAt, transitionAt, t).y.value)
  }

  /** A drawn node has its spot in the layer of its level. */
  lemma SpotOf(placeAt: map<string, Position>, transitionAt: map<string, Position>, level: map<string, int>,
               layers: map<int, seq<string>>, maxLevel: int, v: string) returns (i: nat)
    requires Layered(level, layers, maxLevel) && AllDrawn(placeAt, transitionAt, level, layers, maxLevel) && v in level
    ensures i < |Layer(layers, level[v])| && Layer(layers, level[v])[i] == v
    ensures IsAt(placeAt, transitionAt, v, Spot(layers, level[v], i))
  {
    var l := level[v];
    assert LayerOf(level, layers, l);
    i :| 0 <= i < |Layer(layers, l)| && Layer(layers, l)[i] == v;
    assert LayerDrawn(placeAt, transitionAt, layers, l, |Layer(layers, l)|);
    hide Spot;
  }

  lemma SpotsApart(layers: map<int, seq<string>>, l: int, i: nat, m: int, j: nat)
    requires l != m || i != j
    ensures Spot(layers, l, i) != Spot(layers, m, j)
  {
  }

  lemma DrawingIsApart(g: Graph, back: set<string>, level: map<string, int>, layers: map<int, seq<string>>, maxLevel: int,
                       placeAt: map<string, Position>, transitionAt: map<string, Position>)
    requires LongestPaths(g, back, level) && Layered(level, layers, maxLevel)
    requires AllDrawn(placeAt, transitionAt, level, layers, maxLevel)
    ensures DrawnApart(g, back, placeAt, transitionAt) && OnLevels(level, placeAt, transitionAt, 100)
    ensures BackOnCycles(g, back) && (TextsAgree(g) ==> DroppedClose(g, back)) ==> IsDrawing(g, back, level, placeAt, transitionAt, 100)
  {
    assert forall v :: v in level <==> v in g.nodes;
    assert forall u, t :: Kept(g, back, u, t) && u in level && t in level ==> level[u] < level[t];
    hide LongestPaths, Layered, AllDrawn, Kept, BackOnCycles, TextsAgree, DroppedClose;
    forall v | v in g.nodes
      ensures v in placeAt || v in transitionAt
      ensures At(placeAt, transitionAt, v).x.Some? && At(placeAt, transitionAt, v).y == Some(100 + level[v] * 150)
    {
      var i := SpotOf(placeAt, transitionAt, level, layers, maxLevel, v);
    }
    forall u, v | u in g.nodes && v in g.nodes && u != v
      ensures At(placeAt, transitionAt, u) != At(placeAt, transitionAt, v)
    {
      var i := SpotOf(placeAt, transitionAt, level, layers, maxLevel, u);
      var j := SpotOf(placeAt, transitionAt, level, layers, maxLevel, v);
      SpotsApart(layers, level[u], i, level[v], j);
    }
  }

  /** Moving everything by the same offset keeps a drawing apart. */
  lemma MovedApart(g: Graph, back: set<string>, placeAt: map<string, Position>, transitionAt: map<string, Position>,
                   placeAt': map<string, Position>, transitionAt': map<string, Position>, dx: int, dy: int)
    requires DrawnApart(g, back, placeAt, transitionAt)
    requires MovedBy(placeAt, placeAt', dx, dy) && MovedBy(transitionAt, transitionAt', dx, dy)
    ensures DrawnApart(g, back, placeAt', transitionAt')
  {
    hide Kept;
    forall v | v in g.nodes
      ensures v in placeAt' || v in transitionAt'
      ensures At(placeAt', transitionAt', v) == Moved(At(placeAt, transitionAt, v), dx, dy)
    {
    }
  }

  lemma MovedLevels(level: map<string, int>, placeAt: map<string, Position>, transitionAt: map<string, Position>,
                    placeAt': map<string, Position>, transitionAt': map<string, Position>, dx: int, dy: int, top: int)
    requires OnLevels(level, placeAt, transitionAt, top)
    requires MovedBy(placeAt, placeAt', dx, dy) && MovedBy(transitionAt, transitionAt', dx, dy)
    ensures OnLevels(level, placeAt', transitionAt', top + dy)
  {
    forall v | v in level
      ensures v in placeAt' || v in transitionAt'
      ensures At(placeAt', transitionAt', v) == Moved(At(placeAt, transitionAt, v), dx, dy)
    {
    }
  }

  /** Moving a drawing moves its lines. */
  lemma MovedDrawing(g: Graph, back: set<string>, level: map<string, int>, placeAt: map<string, Position>,
                     transitionAt: map<string, Position>, placeAt': map<string, Position>,
                     transitionAt': map<string, Position>, dx: int, dy: int, top: int)
    requires IsDrawing(g, back, level, placeAt, transitionAt, top)
    requires MovedBy(placeAt, placeAt', dx, dy) && MovedBy(transitionAt, transitionAt', dx, dy)
    ensures IsDrawing(g, back, level, placeAt', transitionAt', top + dy)
  {
    hide BackOnCycles, LongestPaths, DrawnApart, OnLevels, MovedBy, TextsAgree, DroppedClose;
    MovedApart(g, back, placeAt, transitionAt, placeAt', transitionAt', dx, dy);
    MovedLevels(level, placeAt, transitionAt, placeAt', transitionAt', dx, dy, top);
  }

  /** The model behind the editor, as far as the layout reads and writes it. */
  class View {
    const places: seq<string>
    const transitions: seq<string>
    const arcs: seq<(string, string)>
    var placeAt: map<string, Position>
    var transitionAt: map<string, Position>

    ghost predicate Valid()
      reads this
    {
      && Distinct(places) && Distinct(transitions)
      && (forall v :: v in placeAt <==> v in places) && (forall v :: v in transitionAt <==> v in transitions)
    }

    /** `_normalizeNodePositions`: moves everything by one offset, no further than until a node is on the margin. */
    method NormalizeNodePositions(minMargin: int) returns (ghost dx: nat, ghost dy: nat)
      requires Valid()
      modifies this
      ensures Valid() && OnCanvas(placeAt, minMargin) && OnCanvas(transitionAt, minMargin)
      ensures MovedBy(old(placeAt), placeAt, dx, dy) && MovedBy(old(transitionAt), transitionAt, dx, dy)
      ensures dx > 0 ==> HasX(placeAt, minMargin) || HasX(transitionAt, minMargin)
      ensures dy > 0 ==> HasY(placeAt, minMargin) || HasY(transitionAt, minMargin)
    {
      ghost var p0, t0 := placeAt, transitionAt;
      hide HasX, HasY, MovedBy, OnCanvas, NotBelow;
      var minX, minY := Bounds(places, placeAt, None, None);
      ghost var px, py := minX, minY;
      minX, minY := Bounds(transitions, transitionAt, minX, minY);
      LowerBounds(placeAt, px, py, minX, minY);
      var offsetX, offsetY := Offset(minX, minMargin), Offset(minY, minMargin);
      dx, dy := offsetX, offsetY;
      if offsetX > 0 || offsetY > 0 {
        placeAt := MoveAll(places, placeAt, offsetX, offsetY);
        transitionAt := MoveAll(transitions, transitionAt, offsetX, offsetY);
      } else {
        Unmoved(placeAt);
        Unmoved(transitionAt);
      }
      KeysKept(p0, placeAt, offsetX, offsetY);
      KeysKept(t0, transitionAt, offsetX, offsetY);
      MovedOntoCanvas(p0, placeAt, minX, minY, minMargin);
      MovedOntoCanvas(t0, transitionAt, minX, minY, minMargin);
      MovedOntoMargin(p0, placeAt, offsetX, offsetY, minX, minY, minMargin);
      MovedOntoMargin(t0, transitionAt, offsetX, offsetY, minX, minY, minMargin);
    }

    /** Phase 4: writes the spot of every node into the model. */
    method AssignCoordinates(g: Graph, level: map<string, int>, layers: map<int, seq<string>>, maxLevel: int)
      requires Valid() && g.nodes == NodeIds(places, transitions)
      requires (forall v :: v in level <==> v in g.nodes) && Layered(level, layers, maxLevel)
      modifies this
      ensures Valid() && AllDrawn(placeAt, transitionAt, level, layers, maxLevel)
    {
      assert maxLevel >= 0;
      hide *;
      NothingDrawn(placeAt, transitionAt, layers);
      for lvl := 0 to maxLevel + 1
        invariant Valid() && DrawnBelow(placeAt, transitionAt, layers, lvl)
      {
        DrawLayer(g, level, layers, maxLevel, lvl);
        LayerFinished(placeAt, transitionAt, layers, lvl);
      }
      EverythingDrawn(placeAt, transitionAt, level, layers, maxLevel);
    }

    method DrawLayer(g: Graph, level: map<string, int>, layers: map<int, seq<string>>, maxLevel: int, lvl: int)
      requires Valid() && g.nodes == NodeIds(places, transitions)
      requires (forall v :: v in level <==> v in g.nodes) && Layered(level, layers, maxLevel)
      requires DrawnBelow(placeAt, transitionAt, layers, lvl)
      modifies this
      ensures Valid() && DrawnBelow(placeAt, transitionAt, layers, lvl)
      ensures LayerDrawn(placeAt, transitionAt, layers, lvl, |Layer(layers, lvl)|)
    {
      var layer := Layer(layers, lvl);
      LayerIsKnown(level, layers, maxLevel, lvl);
      assert LayerDrawn(placeAt, transitionAt, layers, lvl, 0);
      hide Layered, LayerDrawn, DrawnBelow, Valid, Spot, At;
      for i := 0 to |layer|
        invariant Valid() && DrawnBelow(placeAt, transitionAt, layers, lvl)
        invariant LayerDrawn(placeAt, transitionAt, layers, lvl, i)
      {
        ghost var p0, t0 := placeAt, transitionAt;
        assert layer[i] in level;
        SetPosition(layer[i], Spot(layers, lvl, i));
        DrawnOne(level, layers, maxLevel, lvl, i, p0, t0, placeAt, transitionAt);
      }
    }

    /** Writes the coordinates of one node. */
    method SetPosition(id: string, spot: Position)
      requires Valid() && (id in places || id in transitions)
      modifies this
      ensures Valid() && PositionSet(old(placeAt), old(transitionAt), placeAt, transitionAt, id, spot)
    {
      if id in transitions {
        transitionAt := transitionAt[id := spot];
      } else {
        placeAt := placeAt[id := spot];
      }
    }

    /**
     * `_applySugiyamaLayout`. The dropped arcs are those with the text of an arc that the search found to close a cycle,
     * every node is on the line of its longest path from a source, kept arcs lead down, no two nodes share a position,
     * and nothing is left above or left of the margin.
     */
    method ApplySugiyamaLayout() returns (ghost g: Graph, ghost back: set<string>, ghost level: map<string, int>, ghost top: int)
      requires Valid()
      modifies this
      ensures Valid() && IsGraph(g) && g.nodes == NodeIds(places, transitions)
      ensures forall u, t :: Edge(g, u, t) <==> u in g.nodes && t in g.nodes && (u, t) in arcs
      ensures back == BackEdges(g) && IsDrawing(g, back, level, placeAt, transitionAt, top)
      ensures g.nodes != [] ==> OnCanvas(placeAt, 100) && OnCanvas(transitionAt, 100)
      ensures g.nodes == [] ==> placeAt == old(placeAt) && transitionAt == old(transitionAt)
    {
      hide *;
      var nodes := NodeIds(places, transitions);
      DistinctNodes();
      var graph := BuildGraph(nodes, arcs);
      g, top := graph, 100;
      if nodes == [] {
        back, level := NothingToDraw(graph, placeAt, transitionAt);
        return;
      }
      back, level := DrawGraph(graph);
      ghost var p0, t0 := placeAt, transitionAt;
      ghost var dx, dy := NormalizeNodePositions(100);
      MovedDrawing(graph, back, level, p0, t0, placeAt, transitionAt, dx, dy, 100);
      top := 100 + dy;
    }

    lemma DistinctNodes()
      requires Valid()
      ensures Distinct(NodeIds(places, transitions))
    {
    }

    /** The phases of the layout, up to the coordinates. */
    method DrawGraph(graph: Graph) returns (ghost back: set<string>, ghost level: map<string, int>)
      requires Valid() && IsGraph(graph) && graph.nodes == NodeIds(places, transitions)
      modifies this
      ensures Valid() && IsDrawing(graph, back, level, placeAt, transitionAt, 100) && back == BackEdges(graph)
    {
      hide *;
      ghost var order;
      var backEdges;
      backEdges, order := BreakCycles(graph);
      var levels := AssignLevels(graph, backEdges, order);
      back, level := backEdges, levels;
      LevelsOfNodes(graph, backEdges, levels);
      var layers, maxLevel := GroupByLevel(graph.nodes, levels);
      layers := MinimizeCrossings(graph, backEdges, levels, layers, maxLevel);
      AssignCoordinates(graph, levels, layers, maxLevel);
      DrawingIsApart(graph, backEdges, levels, layers, maxLevel, placeAt, transitionAt);
    }
  }

  lemma NothingToDraw(g: Graph, placeAt: map<string, Position>, transitionAt: map<string, Position>)
      returns (back: set<string>, level: map<string, int>)
    requires IsGraph(g) && g.nodes == []
    ensures back == BackEdges(g)
    ensures IsDrawing(g, back, level, placeAt, transitionAt, 100)
  {
    back, level := {}, map[];
  }

  lemma LowerBounds(at: map<string, Position>, minX: Option<int>, minY: Option<int>, minX': Option<int>, minY': Option<int>)
    requires NotBelow(at, minX, minY)
    requires minX.Some? ==> minX'.Some? && minX'.value <= minX.value
    requires minY.Some? ==> minY'.Some? && minY'.value <= minY.value
    ensures NotBelow(at, minX', minY')
  {
  }

  lemma KeysKept(before: map<string, Position>, after: map<string, Position>, dx: int, dy: int)
    requires MovedBy(before, after, dx, dy)
    ensures forall v :: v in after <==> v in before
  {
  }

  lemma LevelsOfNodes(g: Graph, back: set<string>, level: map<string, int>)
    requires LongestPaths(g, back, level) && IsGraph(g)
    ensures Distinct(g.nodes) && (forall v :: v in level <==> v in g.nodes) && forall v :: v in level ==> level[v] >= 0
  {
  }

  /** `id` is at `spot` and every other node where it was. */
  ghost predicate PositionSet(p0: map<string, Position>, t0: map<string, Position>, p1: map<string, Position>,
                              t1: map<string, Position>, id: string, spot: Position)
  {
    && (id in p0 || id in t0) && (forall v :: v in p1 <==> v in p0) && (forall v :: v in t1 <==> v in t0)
    && At(p1, t1, id) == spot
    && forall v :: v != id && (v in p0 || v in t0) ==> At(p1, t1, v) == At(p0, t0, v)
  }

  ghost predicate DrawnBelow(placeAt: map<string, Position>, transitionAt: map<string, Position>,
                             layers: map<int, seq<string>>, lvl: int)
  {
    forall l :: 0 <= l < lvl ==> LayerDrawn(placeAt, transitionAt, layers, l, |Layer(layers, l)|)
  }

  lemma NothingDrawn(p: map<string, Position>, t: map<string, Position>, layers: map<int, seq<string>>)
    ensures DrawnBelow(p, t, layers, 0)
  {
  }

  lemma LayerFinished(p: map<string, Position>, t: map<string, Position>, layers: map<int, seq<string>>, lvl: int)
    requires DrawnBelow(p, t, layers, lvl) && LayerDrawn(p, t, layers, lvl, |Layer(layers, lvl)|)
    ensures DrawnBelow(p, t, layers, lvl + 1)
  {
    hide LayerDrawn;
  }

  lemma EverythingDrawn(p: map<string, Position>, t: map<string, Position>, level: map<string, int>,
                        layers: map<int, seq<string>>, maxLevel: int)
    requires DrawnBelow(p, t, layers, maxLevel + 1)
    ensures AllDrawn(p, t, level, layers, maxLevel)
  {
    hide LayerDrawn;
  }

  lemma LayerIsKnown(level: map<string, int>, layers: map<int, seq<string>>, maxLevel: int, lvl: int)
    requires Layered(level, layers, maxLevel)
    ensures forall i :: 0 <= i < |Layer(layers, lvl)| ==> Layer(layers, lvl)[i] in level
  {
    assert LayerOf(level, layers, lvl);
  }

  /** Drawing one node leaves the nodes drawn before where they are. */
  lemma DrawnOne(level: map<string, int>, layers: map<int, seq<string>>, maxLevel: int, lvl: int, i: nat,
                 p0: map<string, Position>, t0: map<string, Position>, p1: map<string, Position>, t1: map<string, Position>)
    requires Layered(level, layers, maxLevel) && i < |Layer(layers, lvl)|
    requires DrawnBelow(p0, t0, layers, lvl) && LayerDrawn(p0, t0, layers, lvl, i)
    requires PositionSet(p0, t0, p1, t1, Layer(layers, lvl)[i], Spot(layers, lvl, i))
    ensures DrawnBelow(p1, t1, layers, lvl)
    ensures LayerDrawn(p1, t1, layers, lvl, i + 1)
  {
    hide Spot, At;
    var id := Layer(layers, lvl)[i];
    assert LayerOf(level, layers, lvl) && id in Layer(layers, lvl);
    forall l, k | 0 <= l < lvl && 0 <= k < |Layer(layers, l)|
      ensures IsAt(p1, t1, Layer(layers, l)[k], Spot(layers, l, k))
    {
      assert LayerOf(level, layers, l) && Layer(layers, l)[k] in Layer(layers, l);
      assert LayerDrawn(p0, t0, layers, l, |Layer(layers, l)|);
    }
    forall k | 0 <= k < i
      ensures IsAt(p1, t1, Layer(layers, lvl)[k], Spot(layers, lvl, k))
    {
    }
  }
}
