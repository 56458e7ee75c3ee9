/** The unfolding of a coloured net into a plain one: public/petri-colors.js. */
module PetriColors {
  import opened Wrappers
  import opened Sets
  import opened Text
  import opened PetriSim

  datatype ColorRef = ColorRef(place: string, color: nat)

  datatype ColorMap = ColorMap(colors: seq<string>, expanded: map<string, seq<string>>, base: map<string, ColorRef>)

  /** The insertion order of a net lists its places once each. */
  ghost predicate ValidNet(net: Net)
  {
    Distinct(net.order) && forall p :: p in net.order <==> p in net.place
  }

  // ---- Number of colours -------------------------------------------------------------

  ghost predicate CoversAllVectors(net: Net, c: nat)
  {
    && |net.token| <= c
    && (forall p :: p in net.place ==> |net.place[p].initial| <= c && |net.place[p].capacity| <= c)
    && (forall a :: a in net.arcs ==> |a.weight| <= c)
  }

  /** `c` is the length of the longest vector of the net. */
  ghost predicate IsColorCount(net: Net, c: nat)
  {
    && CoversAllVectors(net, c)
    && forall d: nat :: CoversAllVectors(net, d) ==> c <= d
  }

  /** `colorCount`. */
  method ColorCount(net: Net) returns (c: nat)
    requires ValidNet(net)
    ensures IsColorCount(net, c)
  {
    c := |net.token|;
    for k := 0 to |net.order|
      invariant |net.token| <= c
      invariant forall p :: p in net.order[..k] ==> |net.place[p].initial| <= c && |net.place[p].capacity| <= c
      invariant forall d: nat :: CoversAllVectors(net, d) ==> c <= d
    {
      var p := net.place[net.order[k]];
      if |p.initial| > c { c := |p.initial|; }
      if |p.capacity| > c { c := |p.capacity|; }
    }
    for k := 0 to |net.arcs|
      invariant |net.token| <= c
      invariant forall p :: p in net.place ==> |net.place[p].initial| <= c && |net.place[p].capacity| <= c
      invariant forall a :: a in net.arcs[..k] ==> |a.weight| <= c
      invariant forall d: nat :: CoversAllVectors(net, d) ==> c <= d
    {
      if |net.arcs[k].weight| > c { c := |net.arcs[k].weight|; }
    }
  }

  // ---- Expanded names ------------------------------------------------------------------

  /** The declared colour name, or c0, c1, ... where none is declared. */
  function ColorName(token: seq<string>, i: nat): string
  {
    if i < |token| && token[i] != "" then token[i] else "c" + Decimal(i)
  }

  function ColorNames(net: Net, c: nat): seq<string>
  {
    seq(c, i requires 0 <= i => ColorName(net.token, i))
  }

  predicate Dots(s: string)
  {
    forall i :: 0 <= i < |s| ==> s[i] == '.'
  }

  ghost predicate Collides(net: Net, sep: string, names: seq<string>)
  {
    exists p, i :: p in net.place && 0 <= i < |names| && p + sep + names[i] in net.place
  }

  /** The separator is the shortest run of dots for which no expanded name is an existing place. */
  ghost predicate IsSeparator(net: Net, names: seq<string>, sep: string)
  {
    && Dots(sep) && |sep| >= 1 && !Collides(net, sep, names)
    && forall k :: 1 <= k < |sep| ==> Collides(net, sep[..k], names)
  }

  function LongestName(order: seq<string>): nat
  {
    if order == [] then 0 else Max(|order[0]|, LongestName(order[1..]))
  }

  lemma {:induction false} LongestNameCovers(order: seq<string>, p: string)
    requires p in order
    ensures |p| <= LongestName(order)
  {
    if p != order[0] { LongestNameCovers(order[1..], p); }
  }

  method CheckCollision(net: Net, sep: string, names: seq<string>) returns (collision: bool)
    requires ValidNet(net)
    ensures collision == Collides(net, sep, names)
  {
    collision := false;
    for k := 0 to |net.order|
      invariant collision ==> Collides(net, sep, names)
      invariant !collision ==> forall p, i :: p in net.order[..k] && 0 <= i < |names| ==> p + sep + names[i] !in net.place
    {
      var base := net.order[k];
      for i := 0 to |names|
        invariant collision ==> Collides(net, sep, names)
        invariant !collision ==> forall p, j :: p in net.order[..k] && 0 <= j < |names| ==> p + sep + names[j] !in net.place
        invariant !collision ==> forall j :: 0 <= j < i ==> base + sep + names[j] !in net.place
      {
        if base + sep + names[i] in net.place { collision := true; }
      }
      assert net.order[..k + 1] == net.order[..k] + [base];
    }
  }

  method PickSeparator(net: Net, names: seq<string>) returns (sep: string)
    requires ValidNet(net)
    ensures IsSeparator(net, names, sep)
  {
    sep := ".";
    while true
      invariant Dots(sep) && |sep| >= 1
      invariant forall k :: 1 <= k < |sep| ==> Collides(net, sep[..k], names)
      decreases LongestName(net.order) + 1 - |sep|
    {
      var collision := CheckCollision(net, sep, names);
      if !collision { break; }
      CollisionIsShort(net, sep, names);
      ghost var shorter := sep;
      sep := sep + ".";
      forall k | 1 <= k < |sep|
        ensures Collides(net, sep[..k], names)
      {
        assert sep[..k] == shorter[..k];
        if k == |shorter| { assert shorter[..k] == shorter; }
      }
    }
  }

  lemma CollisionIsShort(net: Net, sep: string, names: seq<string>)
    requires ValidNet(net) && Collides(net, sep, names)
    ensures |sep| <= LongestName(net.order)
  {
    var p, i :| p in net.place && 0 <= i < |names| && p + sep + names[i] in net.place;
    LongestNameCovers(net.order, p + sep + names[i]);
  }

  function Name(p: string, sep: string, names: seq<string>, i: nat): string
    requires i < |names|
  {
    p + sep + names[i]
  }

  ghost predicate NamesInjective(net: Net, sep: string, names: seq<string>)
  {
    forall p, q, i, j :: p in net.place && q in net.place && 0 <= i < |names| && 0 <= j < |names| ==>
      Name(p, sep, names, i) == Name(q, sep, names, j) ==> p == q && i == j
  }

  function DotRun(k: nat): string
  {
    seq(k, i => '.')
  }

  lemma DotsAreRun(sep: string)
    requires Dots(sep)
    ensures sep == DotRun(|sep|)
  {
  }

  /** Colour name `j` is `x`, a run of dots and colour name `i`. */
  predicate EndsDotted(names: seq<string>, i: nat, j: nat, k: nat, x: string)
  {
    i < |names| && j < |names| && k >= 1 && names[j] == x + DotRun(k) + names[i]
  }

  /**
   * Colour names that differ, such that whatever comes before a run of dots and another colour name is itself a colour
   * name. A place that would clash with another one then collides with the separator first.
   */
  ghost predicate SafeNames(names: seq<string>)
  {
    && Distinct(names)
    && forall i: nat, j: nat, k: nat, x :: EndsDotted(names, i, j, k, x) ==> x != "" && x in names
  }

  /** Two places with one expanded name: the longer colour name ends with dots and the shorter one. */
  lemma {:induction false} SplitClash(p: string, q: string, k: nat, c: string, d: string) returns (x: string, m: nat)
    requires k >= 1 && p + DotRun(k) + c == q + DotRun(k) + d && |c| < |d|
    ensures m >= 1 && d == x + DotRun(m) + c
    ensures x == "" || (m == k && p == q + DotRun(k) + x)
  {
    var s := p + DotRun(k) + c;
    var l := |p| - |q|;
    assert |d| == l + |c|;
    assert d[l..] == c by {
      assert d[l..] == s[|q| + k + l..] && c == s[|p| + k..];
    }
    if l >= k {
      x, m := d[..l - k], k;
      assert d[l - k..l] == s[|p|..|p| + k] == DotRun(k);
      assert d == x + DotRun(k) + d[l..];
      assert p == s[..|p|] && q + DotRun(k) + x == s[..|p|];
    } else {
      x, m := "", l;
      assert d[..l] == s[|q| + k..|p| + k] == DotRun(l);
      assert d == "" + DotRun(l) + d[l..];
    }
  }

  lemma {:induction false} SameLengthColors(p: string, q: string, sep: string, c: string, d: string)
    requires p + sep + c == q + sep + d && |c| == |d|
    ensures p == q && c == d
  {
    var s := p + sep + c;
    assert c == s[|s| - |c|..] == d;
    assert p == s[..|p|] && q == s[..|q|];
  }

  /** A clash of two places contradicts the separator or the colour names. */
  lemma NoClash(net: Net, sep: string, names: seq<string>, p: string, q: string, i: nat, j: nat)
    requires IsSeparator(net, names, sep) && SafeNames(names) && p in net.place && q in net.place
    requires i < |names| && j < |names| && |names[i]| < |names[j]|
    ensures Name(p, sep, names, i) != Name(q, sep, names, j)
  {
    if Name(p, sep, names, i) == Name(q, sep, names, j) {
      DotsAreRun(sep);
      var x, m := SplitClash(p, q, |sep|, names[i], names[j]);
      assert EndsDotted(names, i, j, m, x);
    }
  }

  /** With safe colour names the expanded name determines the place and the colour, in every net. */
  lemma {:induction false} SafeNamesInjective(net: Net, sep: string, names: seq<string>)
    requires IsSeparator(net, names, sep) && SafeNames(names)
    ensures NamesInjective(net, sep, names)
  {
    forall p, q, i, j | p in net.place && q in net.place && 0 <= i < |names| && 0 <= j < |names|
      && Name(p, sep, names, i) == Name(q, sep, names, j)
      ensures p == q && i == j
    {
      if |names[i]| < |names[j]| {
        NoClash(net, sep, names, p, q, i, j);
      } else if |names[j]| < |names[i]| {
        NoClash(net, sep, names, q, p, j, i);
      } else {
        SameLengthColors(p, q, sep, names[i], names[j]);
      }
    }
  }

  // ---- Nets that make unsafe names clash -------------------------------------------------------------

  /** Places that use up the separators shorter than `k`: r, and r with each shorter run of dots and the colour name `n`. */
  function Ladder(r: string, k: nat, n: string): seq<string>
  {
    if k <= 1 then [r] else Ladder(r, k - 1, n) + [r + DotRun(k - 1) + n]
  }

  lemma {:induction false} LadderStep(r: string, k: nat, n: string, v: string)
    ensures v in Ladder(r, k, n) <==> v == r || exists j: nat :: 1 <= j < k && v == r + DotRun(j) + n
  {
    if k > 1 { LadderStep(r, k - 1, n, v); }
  }

  lemma {:induction false} LadderDistinct(r: string, k: nat, n: string)
    ensures Distinct(Ladder(r, k, n))
  {
    if k > 1 {
      LadderDistinct(r, k - 1, n);
      LadderStep(r, k - 1, n, r + DotRun(k - 1) + n);
      if j: nat :| 1 <= j < k - 1 && r + DotRun(k - 1) + n == r + DotRun(j) + n {
        assert |r + DotRun(k - 1) + n| == |r| + k - 1 + |n|;
      }
      assert |r + DotRun(k - 1) + n| > |r|;
    }
  }

  lemma {:induction false} ShortestName(names: seq<string>) returns (n: nat)
    requires names != []
    ensures n < |names| && forall i :: 0 <= i < |names| ==> |names[n]| <= |names[i]|
  {
    if |names| == 1 {
      n := 0;
    } else {
      var front := names[..|names| - 1];
      var m := ShortestName(front);
      assert forall i :: 0 <= i < |front| ==> names[i] == front[i];
      n := if |names[m]| <= |names[|names| - 1]| then m else |names| - 1;
    }
  }

  /** The base places can be told from the ladder, and do not collide with each other at `k` dots. */
  ghost predicate Apart(bases: seq<string>, r: string, k: nat, names: seq<string>)
  {
    && r != "" && r[0] != '.' && Distinct(bases)
    && (forall b :: b in bases ==> |b| < |r| && (b == "" || b[0] != r[0]))
    && forall b, b', i :: b in bases && b' in bases && 0 <= i < |names| ==> b + DotRun(k) + names[i] != b'
  }

  /** An empty place for every name of `order`. */
  function PlainNet(token: seq<string>, order: seq<string>, transitions: seq<string>, arcs: seq<Arc>): Net
  {
    Net(token, order, map p | p in order :: Place([], []), transitions, arcs)
  }

  lemma {:induction false} LadderNotReached(bases: seq<string>, r: string, k: nat, names: seq<string>, n: nat,
                                            u: string, i: nat, v: string)
    requires k >= 1 && n < |names| && i < |names| && Apart(bases, r, k, names)
    requires forall j :: 0 <= j < |names| ==> |names[n]| <= |names[j]|
    requires u in bases + Ladder(r, k, names[n]) && v in bases + Ladder(r, k, names[n])
    ensures u + DotRun(k) + names[i] != v
  {
    var w := u + DotRun(k) + names[i];
    LadderStep(r, k, names[n], u);
    LadderStep(r, k, names[n], v);
    assert w[|u|] == '.';
    if u in bases {
      if v !in bases {
        assert v[0] == r[0];
        assert w[0] == if u == "" then '.' else u[0];
      }
    } else {
      assert |w| >= |u| + k + |names[n]| && |u| >= |r|;
      assert v !in bases ==> |v| < |r| + k + |names[n]| || v == r;
    }
  }

  lemma LadderCollides(net: Net, r: string, k: nat, names: seq<string>, n: nat, j: nat)
    requires n < |names| && 1 <= j < k && forall v :: v in Ladder(r, k, names[n]) ==> v in net.place
    ensures Collides(net, DotRun(k)[..j], names)
  {
    assert DotRun(k)[..j] == DotRun(j);
    LadderStep(r, k, names[n], r);
    LadderStep(r, k, names[n], r + DotRun(j) + names[n]);
    assert r + DotRun(j) + names[n] in net.place;
  }

  lemma DistinctBoth(a: seq<string>, b: seq<string>)
    requires Distinct(a) && Distinct(b) && forall v :: v in b ==> v !in a
    ensures Distinct(a + b)
  {
    forall i, j | 0 <= i < j < |a + b|
      ensures (a + b)[i] != (a + b)[j]
    {
      if i < |a| <= j { assert b[j - |a|] in b; }
    }
  }

  /** The ladder makes the unfolder pick `k` dots. */
  lemma {:induction false} LadderSeparates(net: Net, bases: seq<string>, r: string, k: nat, names: seq<string>, n: nat)
    requires k >= 1 && n < |names| && Apart(bases, r, k, names)
    requires forall j :: 0 <= j < |names| ==> |names[n]| <= |names[j]|
    requires net.order == bases + Ladder(r, k, names[n]) && forall p :: p in net.place <==> p in net.order
    ensures ValidNet(net) && IsSeparator(net, names, DotRun(k))
  {
    var ladder := Ladder(r, k, names[n]);
    LadderDistinct(r, k, names[n]);
    forall v | v in ladder
      ensures v !in bases
    {
      LadderStep(r, k, names[n], v);
      assert |v| >= |r|;
    }
    DistinctBoth(bases, ladder);
    forall j | 1 <= j < k
      ensures Collides(net, DotRun(k)[..j], names)
    {
      LadderCollides(net, r, k, names, n, j);
    }
    forall p, i | p in net.place && 0 <= i < |names|
      ensures p + DotRun(k) + names[i] !in net.place
    {
      if p + DotRun(k) + names[i] in net.place {
        LadderNotReached(bases, r, k, names, n, p, i, p + DotRun(k) + names[i]);
      }
    }
  }

  lemma ClashingApart(names: seq<string>, k: nat, z: string, r: string)
    requires k >= 1 && z != "" && |r| > |z| + 1 && r[0] == 'b'
    requires forall n :: 0 <= n < |names| ==> DotRun(k) + names[n] != z
    ensures Apart(["a", "a" + z], r, k, names)
  {
    var q, p := "a", "a" + z;
    forall b, b', m | b in [q, p] && b' in [q, p] && 0 <= m < |names|
      ensures b + DotRun(k) + names[m] != b'
    {
      var w := b + DotRun(k) + names[m];
      assert |w| == |b| + k + |names[m]|;
      if b == q && b' == p {
        assert w[1..] == DotRun(k) + names[m] && p[1..] == z;
      }
    }
  }

  /** Two places a and a + z with colours for which z followed by dots and a colour is dots and another colour. */
  lemma {:induction false} ClashingNet(names: seq<string>, k: nat, z: string, i: nat, j: nat) returns (net: Net)
    requires k >= 1 && i < |names| && j < |names| && z != "" && z + DotRun(k) + names[i] == DotRun(k) + names[j]
    requires forall n :: 0 <= n < |names| ==> DotRun(k) + names[n] != z
    ensures ValidNet(net) && net.token == names && IsSeparator(net, names, DotRun(k))
    ensures !NamesInjective(net, DotRun(k), names)
  {
    var q, p := "a", "a" + z;
    var r := "b" + seq(|z| + 1, t => 'b');
    var n := ShortestName(names);
    ClashingApart(names, k, z, r);
    var bases := [q, p];
    net := PlainNet(names, bases + Ladder(r, k, names[n]), [], []);
    assert bases[0] == q && bases[1] == p && p in net.order && q in net.order;
    hide *;
    LadderSeparates(net, bases, r, k, names, n);
    TwoPlacesClash(net, names, k, z, i, j);
  }

  lemma TwoPlacesClash(net: Net, names: seq<string>, k: nat, z: string, i: nat, j: nat)
    requires i < |names| && j < |names| && z != "" && z + DotRun(k) + names[i] == DotRun(k) + names[j]
    requires "a" in net.place && "a" + z in net.place
    ensures !NamesInjective(net, DotRun(k), names)
  {
    var sep := DotRun(k);
    hide DotRun;
    assert "a" + z + sep + names[i] == "a" + (z + sep + names[i]) == "a" + (sep + names[j]) == "a" + sep + names[j];
    assert Name("a" + z, sep, names, i) == Name("a", sep, names, j) && "a" + z != "a";
  }

  /** Equal colour names clash in the net of one place. */
  lemma EqualNamesClash(names: seq<string>, i: nat, j: nat) returns (net: Net)
    requires i < j < |names| && names[i] == names[j]
    ensures ValidNet(net) && net.token == names && IsSeparator(net, names, DotRun(1))
    ensures !NamesInjective(net, DotRun(1), names)
  {
    net := PlainNet(names, ["a"], [], []);
    forall p, n | p in net.place && 0 <= n < |names|
      ensures p + DotRun(1) + names[n] !in net.place
    {
      assert |p + DotRun(1) + names[n]| > 1;
    }
    assert "a" in net.order;
    assert Name("a", DotRun(1), names, i) == Name("a", DotRun(1), names, j);
  }

  /** For unsafe colour names there is a net, with just these colours, that the unfolder gives two places of one name. */
  lemma {:induction false} UnsafeNamesClash(names: seq<string>) returns (net: Net, sep: string)
    requires !SafeNames(names)
    ensures ValidNet(net) && net.token == names && IsSeparator(net, names, sep) && !NamesInjective(net, sep, names)
  {
    if !Distinct(names) {
      var i, j :| 0 <= i < j < |names| && names[i] == names[j];
      net := EqualNamesClash(names, i, j);
      sep := DotRun(1);
    } else {
      var i: nat, j: nat, k: nat, x :| EndsDotted(names, i, j, k, x) && !(x != "" && x in names);
      if x == "" {
        sep := DotRun(k + 1);
        assert DotRun(k) + DotRun(k + 1) + names[i] == DotRun(k + 1) + names[j];
        net := ClashingNet(names, k + 1, DotRun(k), i, j);
      } else {
        sep := DotRun(k);
        assert (DotRun(k) + x) + DotRun(k) + names[i] == DotRun(k) + names[j];
        forall n | 0 <= n < |names|
          ensures DotRun(k) + names[n] != DotRun(k) + x
        {
          assert (DotRun(k) + names[n])[k..] == names[n] && (DotRun(k) + x)[k..] == x;
        }
        net := ClashingNet(names, k, DotRun(k) + x, i, j);
      }
    }
  }

  /** Colour names keep expanded names apart in every net exactly when they are safe. */
  lemma {:induction false} SafeNamesIff(names: seq<string>)
    ensures (forall net, sep :: ValidNet(net) && IsSeparator(net, names, sep) ==> NamesInjective(net, sep, names))
      <==> SafeNames(names)
  {
    hide *;
    if SafeNames(names) {
      forall net, sep | ValidNet(net) && IsSeparator(net, names, sep)
        ensures NamesInjective(net, sep, names)
      {
        SafeNamesInjective(net, sep, names);
      }
    } else {
      var net, sep := UnsafeNamesClash(names);
    }
  }

  /** For the colours c and b.c the places a and a.b get one name: a + "." + b.c is a.b + "." + c. */
  lemma ClashingColors()
    ensures var names := ["c", "b.c"];
      var net := PlainNet(names, ["a", "a.b"], [], []);
      && ValidNet(net) && ColorNames(net, 2) == names && IsSeparator(net, names, ".")
      && !NamesInjective(net, ".", names)
  {
    var names := ["c", "b.c"];
    var net := PlainNet(names, ["a", "a.b"], [], []);
    assert net.order[0] == "a" && net.order[1] == "a.b" && "a" != "a.b";
    assert ColorNames(net, 2) == names;
    forall p, i | p in net.place && 0 <= i < 2
      ensures p + "." + names[i] !in net.place
    {
      var w := p + "." + names[i];
      assert |w| == |p| + 1 + |names[i]| && w[|w| - 1] == 'c';
    }
    assert Name("a", ".", names, 1) == "a.b.c" == Name("a.b", ".", names, 0);
  }

  /** The colour names r, g and r.g are safe although one ends with a dot and another: q.r would collide first. */
  lemma SafeDottedNames()
    ensures SafeNames(["r", "g", "r.g"])
  {
    var names := ["r", "g", "r.g"];
    forall i: nat, j: nat, k: nat, x | EndsDotted(names, i, j, k, x)
      ensures x != "" && x in names
    {
      var w := names[j];
      assert |w| == |x| + k + |names[i]| && w[|x|] == '.';
      assert j == 2 && |x| == 1;
      assert x == w[..1] == names[0];
      assert names[0] in names;
    }
  }

  // ---- The unfolded net --------------------------------------------------------------------

  function UnfoldedPlace(p: Place, i: nat): Place
  {
    Place([if i < |p.initial| then p.initial[i] else 0],
          if i < |p.capacity| && p.capacity[i] > 0 then [p.capacity[i]] else [])
  }

  function Endpoint(net: Net, sep: string, names: seq<string>, e: string, i: nat): string
    requires i < |names|
  {
    if e in net.place then Name(e, sep, names, i) else e
  }

  /** An empty weight vector is read as [1] by the unfolder. */
  function DefaultedWeight(a: Arc): seq<nat>
  {
    if a.weight == [] then [1] else a.weight
  }

  /** The arcs for the first `n` components of `a`. */
  function UnfoldComponents(net: Net, sep: string, names: seq<string>, a: Arc, n: nat): seq<Arc>
    requires n <= |DefaultedWeight(a)|
  {
    if n == 0 then []
    else
      var w := DefaultedWeight(a);
      UnfoldComponents(net, sep, names, a, n - 1)
      + if w[n - 1] == 0 || n - 1 >= |names| then []
        else [Arc(Endpoint(net, sep, names, a.source, n - 1), Endpoint(net, sep, names, a.target, n - 1),
                  [w[n - 1]], a.inhibit)]
  }

  function UnfoldArcs(net: Net, sep: string, names: seq<string>, arcs: seq<Arc>): seq<Arc>
  {
    if arcs == [] then []
    else
      var a := arcs[|arcs| - 1];
      UnfoldArcs(net, sep, names, arcs[..|arcs| - 1]) + UnfoldComponents(net, sep, names, a, |DefaultedWeight(a)|)
  }

  /** `n` is the expanded name of a place of `ps`. */
  ghost predicate ExpandedName(ps: seq<string>, sep: string, names: seq<string>, n: string)
  {
    exists p, i :: p in ps && 0 <= i < |names| && n == Name(p, sep, names, i)
  }

  /** `out` is the unfolding of `net`. */
  ghost predicate Unfolds(net: Net, sep: string, names: seq<string>, out: Net)
  {
    && out.token == []
    && out.transitions == net.transitions
    && (forall n :: n in out.place <==> ExpandedName(net.order, sep, names, n))
    && (NamesInjective(net, sep, names) ==>
          forall p, i :: p in net.place && 0 <= i < |names| ==>
            Name(p, sep, names, i) in out.place && out.place[Name(p, sep, names, i)] == UnfoldedPlace(net.place[p], i))
    && out.arcs == UnfoldArcs(net, sep, names, net.arcs)
  }

  ghost predicate MapsColors(net: Net, sep: string, cm: ColorMap)
  {
    && (forall p :: p in cm.expanded <==> p in net.place)
    && (forall p :: p in net.place ==>
          cm.expanded[p] == seq(|cm.colors|, i requires 0 <= i < |cm.colors| => Name(p, sep, cm.colors, i)))
    && (forall n :: n in cm.base <==> ExpandedName(net.order, sep, cm.colors, n))
    && (NamesInjective(net, sep, cm.colors) ==>
          forall p, i :: p in net.place && 0 <= i < |cm.colors| ==>
            Name(p, sep, cm.colors, i) in cm.base && cm.base[Name(p, sep, cm.colors, i)] == ColorRef(p, i))
  }

  function AddPlace(net: Net, name: string, p: Place): Net
  {
    net.(order := if name in net.place then net.order else net.order + [name], place := net.place[name := p])
  }

  /** Adds the places of every colour of `p` to `out` and records their names. */
  method UnfoldPlace(net: Net, sep: string, names: seq<string>, p: string, out0: Net, base0: map<string, ColorRef>)
      returns (out: Net, expandedNames: seq<string>, base: map<string, ColorRef>)
    requires p in net.place && ValidNet(out0)
    ensures ValidNet(out)
    ensures out == out0.(order := out.order, place := out.place)
    ensures expandedNames == seq(|names|, i requires 0 <= i < |names| => Name(p, sep, names, i))
    ensures forall n :: n in out.place <==> n in out0.place || ExpandedName([p], sep, names, n)
    ensures forall n :: n in base <==> n in base0 || ExpandedName([p], sep, names, n)
    ensures forall n :: n in out0.place && !ExpandedName([p], sep, names, n) ==> out.place[n] == out0.place[n]
    ensures forall n :: n in base0 && !ExpandedName([p], sep, names, n) ==> base[n] == base0[n]
    ensures NamesInjective(net, sep, names) ==> forall i :: 0 <= i < |names| ==>
      var n := Name(p, sep, names, i);
      n in out.place && out.place[n] == UnfoldedPlace(net.place[p], i) && n in base && base[n] == ColorRef(p, i)
  {
    out, base, expandedNames := out0, base0, [];
    FreshNames(net, sep, names, p);
    hide NamesInjective, ExpandedName, UnfoldedPlace;
    for i := 0 to |names|
      invariant ValidNet(out) && out == out0.(order := out.order, place := out.place)
      invariant expandedNames == seq(i, j requires 0 <= j < i => Name(p, sep, names, j))
      invariant forall n :: n in out.place <==> n in out0.place || n in expandedNames
      invariant forall n :: n in base <==> n in base0 || n in expandedNames
      invariant forall n :: n in out0.place && n !in expandedNames ==> out.place[n] == out0.place[n]
      invariant forall n :: n in base0 && n !in expandedNames ==> base[n] == base0[n]
      invariant NamesInjective(net, sep, names) ==> forall j :: 0 <= j < i ==>
        var n := Name(p, sep, names, j);
        n in out.place && out.place[n] == UnfoldedPlace(net.place[p], j) && n in base && base[n] == ColorRef(p, j)
    {
      var name := p + sep + names[i];
      assert name == Name(p, sep, names, i);
      hide Name;
      expandedNames := expandedNames + [name];
      base := base[name := ColorRef(p, i)];
      out := AddPlace(out, name, UnfoldedPlace(net.place[p], i));
    }
    NamesOfPlace(p, sep, names, expandedNames);
  }

  lemma FreshNames(net: Net, sep: string, names: seq<string>, p: string)
    requires p in net.place
    ensures NamesInjective(net, sep, names) ==>
      forall i, j :: 0 <= i < |names| && 0 <= j < |names| && i != j ==> Name(p, sep, names, i) != Name(p, sep, names, j)
  {
  }

  lemma NamesOfPlace(p: string, sep: string, names: seq<string>, expandedNames: seq<string>)
    requires expandedNames == seq(|names|, i requires 0 <= i < |names| => Name(p, sep, names, i))
    ensures forall n :: n in expandedNames <==> ExpandedName([p], sep, names, n)
  {
    forall n
      ensures n in expandedNames <==> ExpandedName([p], sep, names, n)
    {
      if n in expandedNames {
        var j :| 0 <= j < |names| && expandedNames[j] == n;
        assert p in [p] && n == Name(p, sep, names, j);
      }
      if ExpandedName([p], sep, names, n) {
        var q, j :| q in [p] && 0 <= j < |names| && n == Name(q, sep, names, j);
        assert expandedNames[j] == n;
      }
    }
  }

  method UnfoldAllPlaces(net: Net, sep: string, names: seq<string>, empty: Net)
      returns (out: Net, expanded: map<string, seq<string>>, base: map<string, ColorRef>)
    requires ValidNet(net) && ValidNet(empty) && empty.order == []
    ensures ValidNet(out)
    ensures out == empty.(order := out.order, place := out.place)
    ensures forall n :: n in out.place <==> ExpandedName(net.order, sep, names, n)
    ensures NamesInjective(net, sep, names) ==>
      forall p, i :: p in net.place && 0 <= i < |names| ==>
        Name(p, sep, names, i) in out.place && out.place[Name(p, sep, names, i)] == UnfoldedPlace(net.place[p], i)
    ensures MapsColors(net, sep, ColorMap(names, expanded, base))
  {
    out, expanded, base := empty, map[], map[];
    for k := 0 to |net.order|
      invariant ValidNet(out) && out == empty.(order := out.order, place := out.place)
      invariant forall n :: n in out.place <==> ExpandedName(net.order[..k], sep, names, n)
      invariant forall n :: n in base <==> ExpandedName(net.order[..k], sep, names, n)
      invariant forall p :: p in expanded <==> p in net.order[..k]
      invariant forall p :: p in expanded ==>
        expanded[p] == seq(|names|, i requires 0 <= i < |names| => Name(p, sep, names, i))
      invariant NamesInjective(net, sep, names) ==>
        forall p, i :: p in net.order[..k] && 0 <= i < |names| ==>
          var n := Name(p, sep, names, i);
          n in out.place && out.place[n] == UnfoldedPlace(net.place[p], i) && n in base && base[n] == ColorRef(p, i)
    {
      var p := net.order[k];
      ghost var before := out;
      var expandedNames;
      out, expandedNames, base := UnfoldPlace(net, sep, names, p, out, base);
      expanded := expanded[p := expandedNames];
      ExpandedNameStep(net.order, k, sep, names);
      if NamesInjective(net, sep, names) {
        forall q, i | q in net.order[..k] && 0 <= i < |names|
          ensures !ExpandedName([p], sep, names, Name(q, sep, names, i))
        {
          assert q != p;
        }
      }
      assert net.order[..k + 1] == net.order[..k] + [p];
    }
    assert net.order[..|net.order|] == net.order;
  }

  lemma ExpandedNameStep(order: seq<string>, k: nat, sep: string, names: seq<string>)
    requires k < |order|
    ensures forall n ::
      ExpandedName(order[..k + 1], sep, names, n)
      <==> ExpandedName(order[..k], sep, names, n) || ExpandedName([order[k]], sep, names, n)
  {
    assert order[..k + 1] == order[..k] + [order[k]];
    forall n | ExpandedName([order[k]], sep, names, n)
      ensures ExpandedName(order[..k + 1], sep, names, n)
    {
      var p, i :| p in [order[k]] && 0 <= i < |names| && n == Name(p, sep, names, i);
      assert p in order[..k + 1];
    }
    forall n | ExpandedName(order[..k + 1], sep, names, n)
      ensures ExpandedName(order[..k], sep, names, n) || ExpandedName([order[k]], sep, names, n)
    {
      var p, i :| p in order[..k + 1] && 0 <= i < |names| && n == Name(p, sep, names, i);
      assert p in order[..k] || p in [order[k]];
    }
  }

  /** The arcs that one arc becomes. */
  method UnfoldArc(net: Net, sep: string, names: seq<string>, expanded: map<string, seq<string>>, a: Arc)
      returns (arcs: seq<Arc>)
    requires forall p :: p in net.place ==>
      p in expanded && expanded[p] == seq(|names|, i requires 0 <= i < |names| => Name(p, sep, names, i))
    ensures arcs == UnfoldComponents(net, sep, names, a, |DefaultedWeight(a)|)
  {
    arcs := [];
    var w := if |a.weight| == 0 then [1] else a.weight;
    for i := 0 to |w|
      invariant arcs == UnfoldComponents(net, sep, names, a, i)
    {
      if w[i] == 0 || i >= |names| { continue; }
      var src := if a.source in net.place then expanded[a.source][i] else a.source;
      var dst := if a.target in net.place then expanded[a.target][i] else a.target;
      arcs := arcs + [Arc(src, dst, [w[i]], a.inhibit)];
    }
  }

  method UnfoldAllArcs(net: Net, sep: string, names: seq<string>, expanded: map<string, seq<string>>)
      returns (arcs: seq<Arc>)
    requires forall p :: p in net.place ==>
      p in expanded && expanded[p] == seq(|names|, i requires 0 <= i < |names| => Name(p, sep, names, i))
    ensures arcs == UnfoldArcs(net, sep, names, net.arcs)
  {
    arcs := [];
    for k := 0 to |net.arcs|
      invariant arcs == UnfoldArcs(net, sep, names, net.arcs[..k])
    {
      var more := UnfoldArc(net, sep, names, expanded, net.arcs[k]);
      assert net.arcs[..k + 1][..k] == net.arcs[..k];
      hide UnfoldComponents;
      arcs := arcs + more;
    }
    assert net.arcs[..|net.arcs|] == net.arcs;
  }

  /** `expandColors`: a single-colour net is returned as it is, any other net is unfolded. */
  method ExpandColors(net: Net) returns (out: Net, colorMap: Option<ColorMap>, ghost sep: string)
    requires ValidNet(net)
    ensures ValidNet(out)
    ensures colorMap.None? <==> exists c :: IsColorCount(net, c) && c <= 1
    ensures colorMap.None? ==> out == net
    ensures colorMap.Some? ==>
      var names := colorMap.value.colors;
      && |names| >= 2 && IsColorCount(net, |names|) && names == ColorNames(net, |names|)
      && IsSeparator(net, names, sep)
      && Unfolds(net, sep, names, out)
      && MapsColors(net, sep, colorMap.value)
  {
    sep := "";
    var colors := ColorCount(net);
    if colors <= 1 {
      return net, None, sep;
    }
    assert forall c :: IsColorCount(net, c) ==> c == colors;
    var names := ColorNames(net, colors);
    var separator := PickSeparator(net, names);
    sep := separator;
    var empty := Net([], [], map[], net.transitions, []);
    var places, expanded, base := UnfoldAllPlaces(net, separator, names, empty);
    var arcs := UnfoldAllArcs(net, separator, names, expanded);
    out := places.(arcs := arcs);
    colorMap := Some(ColorMap(names, expanded, base));
  }
}
