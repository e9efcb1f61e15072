/** Graphs on which Gorder ends the program: two hubs, and every vertex points to the hubs other than itself. */
module TwoHubs {
  import opened Permutations
  import opened Csr
  import opened EdgeLists
  import opened GorderSpec
  import opened GorderHeap
  import opened GorderUpdate
  import opened GorderOutcome
  import opened GorderStep
  import opened GorderGraph
  import opened GorderRun
  import opened NetBuild

  predicate Points(l: nat, o: nat, u: nat, x: nat) { u != x && (x == l || x == o) }

  /** g consists of the hubs l and o, under any names but in this order, and their d - 1 common sources. */
  ghost predicate IsHubs(g: Net, d: nat, l: nat, o: nat) {
    && Simple(g) && Vertices(g) == d + 1 && l < o <= d
    && forall u, x :: 0 <= u <= d && 0 <= x <= d && HasRow(g.out, u) ==>
         Times(g.out, u, x) == if Points(l, o, u, x) then 1 else 0
  }

  lemma HubTimes(g: Net, d: nat, l: nat, o: nat, u: nat, x: nat)
    requires IsHubs(g, d, l, o) && u <= d && x <= d
    ensures HasRow(g.out, u) && HasRow(g.inn, x)
    ensures Times(g.out, u, x) == Times(g.inn, x, u) == if Points(l, o, u, x) then 1 else 0
  {
    EdgeOnce(g, u, x);
  }

  lemma HubsMeans(g: Net, d: nat, l: nat, o: nat)
    requires IsHubs(g, d, l, o)
    ensures Simple(g) && Vertices(g) == d + 1 && l < o <= d && HasRow(g.out, l) && HasRow(g.inn, l)
  {
    HubTimes(g, d, l, o, l, l);
  }

  /** Nobody points anywhere else. */
  lemma HubTimesOnly(g: Net, d: nat, l: nat, o: nat, v: nat, u: nat)
    requires IsHubs(g, d, l, o) && v <= d
    ensures HasRow(g.out, v) && HasRow(g.inn, v)
    ensures Strict(g.out.EI, g.out.VI[v], RowEnd(g.out, v)) && Strict(g.inn.EI, g.inn.VI[v], RowEnd(g.inn, v))
    ensures Times(g.inn, v, u) > 0 <==> u <= d && Points(l, o, u, v)
    ensures Times(g.out, v, u) > 0 <==> u <= d && Points(l, o, v, u)
  {
    assert HasRow(g.out, v) && HasRow(g.inn, v);
    if u <= d {
      HubTimes(g, d, l, o, u, v);
      HubTimes(g, d, l, o, v, u);
    } else {
      OccursIff(g.inn.EI, g.inn.VI[v], RowEnd(g.inn, v), u);
      OccursIff(g.out.EI, g.out.VI[v], RowEnd(g.out, v), u);
    }
  }

  /** Both hubs have d in-neighbours, the others none and the hubs as targets. */
  lemma HubDegrees(g: Net, d: nat, l: nat, o: nat, v: nat)
    requires IsHubs(g, d, l, o) && v <= d
    ensures HasRow(g.out, v) && HasRow(g.inn, v)
    ensures Degree(g.inn, v) == if v == l || v == o then d else 0
    ensures Degree(g.out, v) == if v == l || v == o then 1 else 2
  {
    hide IsHubs, Times, HasRow, Degree, RowEnd;
    HubsMeans(g, d, l, o);
    var sources := if v == l || v == o then Range(d + 1) - {v} else {};
    var targets := {l, o} - {v};
    forall u: nat
      ensures HasRow(g.out, v) && HasRow(g.inn, v)
      ensures Strict(g.out.EI, g.out.VI[v], RowEnd(g.out, v)) && Strict(g.inn.EI, g.inn.VI[v], RowEnd(g.inn, v))
      ensures u in sources <==> Times(g.inn, v, u) > 0
      ensures u in targets <==> Times(g.out, v, u) > 0
    {
      HubTimesOnly(g, d, l, o, v, u);
    }
    RowSize(g.inn, v, sources);
    RowSize(g.out, v, targets);
  }

  /** The hub with the smaller number is first, and the run index has no slot to spare. */
  lemma HubsSlots(g: Net, d: nat, l: nat, o: nat)
    requires IsHubs(g, d, l, o)
    ensures Leads(g, l, d + 1) && RunSlots(g) == if d < 3 then 4 else d + 1
    ensures forall x :: 0 <= x <= d ==> InDegrees(g)[x] == if x == l || x == o then d else 0
  {
    HubsMeans(g, d, l, o);
    hide IsHubs, MostIn;
    forall u {:trigger HasRow(g.inn, u)} | 0 <= u <= d
      ensures HasRow(g.inn, u) && Degree(g.inn, u) == if u == l || u == o then d else 0
    {
      HubDegrees(g, d, l, o, u);
    }
    assert Leads(g, l, d + 1);
    LeaderHasMost(g, l, d + 1);
  }

  lemma HubRow(g: Net, d: nat, l: nat, o: nat, u: nat)
    requires IsHubs(g, d, l, o) && u <= d
    ensures HasRow(g.out, u) && Row(g.out, u) == if u == l then [o] else if u == o then [l] else [l, o]
  {
    HubDegrees(g, d, l, o, u);
    HubTimes(g, d, l, o, u, l);
    HubTimes(g, d, l, o, u, o);
    var lo, hi := g.out.VI[u], RowEnd(g.out, u);
    OccursIff(g.out.EI, lo, hi, l);
    OccursIff(g.out.EI, lo, hi, o);
  }

  // ---------- What placing the first hub raises ----------

  lemma HubParent(g: Net, d: nat, l: nat, o: nat, i: nat)
    requires IsHubs(g, d, l, o) && HasRow(g.inn, l) && g.inn.VI[l] <= i < RowEnd(g.inn, l)
    ensures
      var p := g.inn.EI[i];
      p <= d && p != l && Occurrences(g.inn.EI, g.inn.VI[l], i, p) == 0
  {
    var p := g.inn.EI[i];
    OccursIff(g.inn.EI, g.inn.VI[l], RowEnd(g.inn, l), p);
    HubTimes(g, d, l, o, p, l);
    StrictOnce(g.inn.EI, g.inn.VI[l], i + 1, p);
  }

  /** An in-neighbour of l raises itself, l and the other hub o, or it is o and raises only itself. */
  lemma HubSteps(g: Net, d: nat, l: nat, o: nat, huge: nat, p: nat)
    requires IsHubs(g, d, l, o) && huge >= 2 && p <= d && p != l
    ensures HasRow(g.out, p) && ParentSteps(g, huge, p, false) == if p == o then [o] else [p, l, o]
  {
    hide IsHubs, HasRow, Degree, Row;
    HubDegrees(g, d, l, o, p);
    HubRow(g, d, l, o, p);
  }

  /** Step j raises l, or o after less than m raises, or another vertex for the first time. */
  ghost predicate Harmless(s: seq<nat>, j: nat, l: nat, o: nat, m: nat)
    requires j < |s|
  {
    s[j] == l || Occurrences(s, 0, j, s[j]) < if s[j] == o then m else 1
  }

  ghost predicate AllHarmless(s: seq<nat>, l: nat, o: nat, m: nat) {
    forall j :: 0 <= j < |s| ==> Harmless(s, j, l, o, m)
  }

  /** The steps of the in-neighbours of l up to index i: the other hub is raised once by each of them, and
      every source once by itself. */
  ghost predicate Counted(g: Net, l: nat, o: nat, s: seq<nat>, i: nat)
    requires HasRow(g.inn, l) && g.inn.VI[l] <= i <= RowEnd(g.inn, l)
  {
    && Occurrences(s, 0, |s|, o) == i - g.inn.VI[l]
    && (forall x: nat :: x != l && x != o ==>
          Occurrences(s, 0, |s|, x) == Occurrences(g.inn.EI, g.inn.VI[l], i, x))
    && AllHarmless(s, l, o, i - g.inn.VI[l])
  }

  lemma CountMore(s: seq<nat>, e: nat, x: nat)
    ensures
      var t := s + [e];
      Occurrences(t, 0, |t|, x) == Occurrences(s, 0, |s|, x) + if x == e then 1 else 0
  {
    OccurrencesSame(s + [e], s, 0, |s|, x);
  }

  lemma HarmlessMore(s: seq<nat>, e: nat, l: nat, o: nat, m: nat, m': nat)
    requires AllHarmless(s, l, o, m) && m <= m'
    requires e == l || Occurrences(s, 0, |s|, e) < if e == o then m' else 1
    ensures AllHarmless(s + [e], l, o, m')
  {
    var t := s + [e];
    forall j | 0 <= j < |t| ensures Harmless(t, j, l, o, m') {
      OccurrencesSame(t, s, 0, j, t[j]);
      if j < |s| {
        assert Harmless(s, j, l, o, m);
      }
    }
  }

  lemma CountedStep(g: Net, l: nat, o: nat, s: seq<nat>, i: nat)
    requires HasRow(g.inn, l) && g.inn.VI[l] <= i < RowEnd(g.inn, l) && Counted(g, l, o, s, i) && l != o
    requires g.inn.EI[i] != l && Occurrences(g.inn.EI, g.inn.VI[l], i, g.inn.EI[i]) == 0
    ensures
      var p := g.inn.EI[i];
      Counted(g, l, o, s + if p == o then [o] else [p, l, o], i + 1)
  {
    hide AllHarmless;
    var p, m := g.inn.EI[i], i + 1 - g.inn.VI[l];
    if p == o {
      HarmlessMore(s, o, l, o, m - 1, m);
      var t := s + [o];
      forall x: nat ensures Occurrences(t, 0, |t|, x) == Occurrences(s, 0, |s|, x) + if x == o then 1 else 0 {
        CountMore(s, o, x);
      }
    } else {
      var s1, s2 := s + [p], s + [p] + [l];
      HarmlessMore(s, p, l, o, m - 1, m);
      HarmlessMore(s1, l, l, o, m, m);
      forall x: nat ensures Occurrences(s2, 0, |s2|, x)
                         == Occurrences(s, 0, |s|, x) + (if x == p then 1 else 0) + if x == l then 1 else 0
      {
        CountMore(s, p, x);
        CountMore(s1, l, x);
      }
      HarmlessMore(s2, o, l, o, m, m);
      var t := s2 + [o];
      forall x: nat ensures Occurrences(t, 0, |t|, x) == Occurrences(s2, 0, |s2|, x) + if x == o then 1 else 0 {
        CountMore(s2, o, x);
      }
      assert t == s + [p, l, o];
    }
  }

  lemma {:induction false} HubsCounted(g: Net, d: nat, l: nat, o: nat, huge: nat, i: nat)
    requires IsHubs(g, d, l, o) && huge >= 2 && HasRow(g.inn, l) && g.inn.VI[l] <= i <= RowEnd(g.inn, l)
    ensures Counted(g, l, o, ParentsSteps(g, huge, l, i, {}), i)
    decreases i
  {
    hide IsHubs, ParentSteps, Occurrences;
    HubsMeans(g, d, l, o);
    if i == g.inn.VI[l] {
      CountedNothing(g, l, o);
    } else {
      HubsCounted(g, d, l, o, huge, i - 1);
      HubParent(g, d, l, o, i - 1);
      HubSteps(g, d, l, o, huge, g.inn.EI[i - 1]);
      CountedStep(g, l, o, ParentsSteps(g, huge, l, i - 1, {}), i - 1);
      ParentsNext(g, huge, l, i - 1, {});
    }
  }

  lemma CountedNothing(g: Net, l: nat, o: nat)
    requires HasRow(g.inn, l)
    ensures Counted(g, l, o, [], g.inn.VI[l])
  {
  }

  lemma HubFirstSteps(g: Net, d: nat, l: nat, o: nat, huge: nat)
    requires IsHubs(g, d, l, o) && huge >= 2
    ensures Simple(g) && HasRow(g.out, l) && HasRow(g.inn, l) && RowEnd(g.inn, l) - g.inn.VI[l] == d
    ensures FirstSteps(g, huge, l) == ParentsSteps(g, huge, l, RowEnd(g.inn, l), {}) + [o]
  {
    hide IsHubs, Simple, Row, HasRow, ParentsSteps;
    HubsMeans(g, d, l, o);
    HubDegrees(g, d, l, o, l);
    HubRow(g, d, l, o, l);
  }

  lemma SourceRaised(g: Net, d: nat, l: nat, o: nat, s: seq<nat>, x: nat)
    requires IsHubs(g, d, l, o) && x <= d && x != l && x != o
    requires HasRow(g.inn, l) && Counted(g, l, o, s, RowEnd(g.inn, l))
    ensures x in s
  {
    hide AllHarmless, Simple;
    HubTimes(g, d, l, o, x, l);
    OccursIff(s, 0, |s|, x);
  }

  lemma CountedMeans(g: Net, l: nat, o: nat, s: seq<nat>, d: nat)
    requires HasRow(g.inn, l) && RowEnd(g.inn, l) - g.inn.VI[l] == d && Counted(g, l, o, s, RowEnd(g.inn, l))
    ensures Occurrences(s + [o], 0, |s|, o) == d && AllHarmless(s, l, o, d)
  {
    OccurrencesSame(s + [o], s, 0, |s|, o);
  }

  /** The last step raises the other hub for the time d + 1; nothing before it is more than owed or first. */
  lemma HubsRaising(g: Net, d: nat, l: nat, o: nat, huge: nat)
    requires IsHubs(g, d, l, o) && huge >= 2
    ensures Simple(g) && HasRow(g.out, l) && HasRow(g.inn, l)
    ensures
      var r := FirstRaising(g, huge, l);
      var last := |r.names| - 1;
      && last >= 0 && r.names[last] == o && Before(r, last) == d
      && AllHarmless(r.names[..last], l, o, d)
      && forall x: nat :: x <= d && x != l && x != o ==> x in r.names[..last]
  {
    hide IsHubs, Simple, FirstSteps, Counted, AllHarmless, Occurrences, RunSlots;
    HubFirstSteps(g, d, l, o, huge);
    var hi := RowEnd(g.inn, l);
    HubsCounted(g, d, l, o, huge, hi);
    var s := ParentsSteps(g, huge, l, hi, {});
    CountedMeans(g, l, o, s, d);
    assert (s + [o])[..|s|] == s;
    forall x: nat | x <= d && x != l && x != o ensures x in s {
      SourceRaised(g, d, l, o, s, x);
    }
  }

  lemma HarmlessMeans(r: Raising, last: nat, j: nat, l: nat, o: nat, m: nat)
    requires j < last <= |r.names| && AllHarmless(r.names[..last], l, o, m)
    ensures r.names[j] == l || Before(r, j) < if r.names[j] == o then m else 1
  {
    assert Harmless(r.names[..last], j, l, o, m);
    OccurrencesSame(r.names[..last], r.names, 0, j, r.names[j]);
  }

  /** The program quits on these graphs exactly when the hubs have five in-neighbours or more. */
  lemma HubsQuit(g: Net, d: nat, l: nat, o: nat, huge: nat)
    requires IsHubs(g, d, l, o) && huge >= 2
    ensures Simple(g) && (Overflows(g, huge) <==> d >= 5) && (Relieved(g, huge) <==> d < 5)
  {
    hide IsHubs, Simple, Leads, RunSlots, FirstSteps, Occurrences, AllHarmless, Before;
    HubsMeans(g, d, l, o);
    HubsSlots(g, d, l, o);
    HubsRaising(g, d, l, o, huge);
    FirstDecides(g, huge, l);
    var r := FirstRaising(g, huge, l);
    var last := |r.names| - 1;
    EitherQuitsOrGrows(r);
    forall j | 0 <= j < last ensures Critical(r, j) ==> d < 5 && Before(r, j) == 0 {
      HarmlessMeans(r, last, j, l, o, d);
    }
    if d >= 5 {
      assert Quiet(r, last) && Critical(r, last);
    } else if d > 1 {
      var x := if 0 != l && 0 != o then 0 else if 1 != l && 1 != o then 1 else 2;
      assert x in r.names[..last];
      var j :| 0 <= j < last && r.names[..last][j] == x;
      HarmlessMeans(r, last, j, l, o, d);
      assert Critical(r, j);
    } else {
      assert Critical(r, last);
    }
  }

  // ---------- As a list of edges ----------

  function HubEdges(d: nat): (edges: seq<Link>)
    requires d > 0
    ensures Below(Firsts(edges), d + 1) && Below(Seconds(edges), d + 1)
  {
    if d == 1 then [(0, 1), (1, 0)] else HubEdges(d - 1) + [(d, 0), (d, 1)]
  }

  lemma {:induction false} HubEdgesListed(d: nat, u: nat, x: nat)
    requires d > 0
    ensures Multiplicity(HubEdges(d), u, x) == if u <= d && Points(0, 1, u, x) then 1 else 0
  {
    hide Multiplicity;
    var front := if d == 1 then [] else HubEdges(d - 1);
    var a, b: Link := if d == 1 then (0, 1) else (d, 0), if d == 1 then (1, 0) else (d, 1);
    assert HubEdges(d) == front + [a] + [b];
    ListedMore(front, a, u, x);
    ListedMore(front + [a], b, u, x);
    if d > 1 {
      HubEdgesListed(d - 1, u, x);
    }
  }

  lemma HubNamedTimes(d: nat, g: Net, f: seq<nat>, v: nat, y: nat)
    requires d > 0 && Named(HubEdges(d), d + 1, g, f) && v <= d && y <= d
    ensures HasRow(g.out, v) && Times(g.out, v, y) == if Points(f[0], f[1], v, y) then 1 else 0
  {
    hide HubEdges, Multiplicity, Simple;
    Onto(f, d + 1, v);
    Onto(f, d + 1, y);
    var u :| 0 <= u <= d && f[u] == v;
    var x :| 0 <= x <= d && f[x] == y;
    HubEdgesListed(d, u, x);
  }

  /** Whatever names a graph with these edges gives the vertices, it is a graph of two hubs. */
  lemma HubsNamed(d: nat, g: Net, f: seq<nat>) returns (l: nat, o: nat)
    requires d > 0 && Named(HubEdges(d), d + 1, g, f)
    ensures IsHubs(g, d, l, o) && {l, o} == {f[0], f[1]}
  {
    hide HubEdges, Multiplicity, Simple, HasRow, Times;
    l, o := f[0], f[1];
    if o < l {
      l, o := o, l;
    }
    forall v, y | 0 <= v <= d && 0 <= y <= d && HasRow(g.out, v)
      ensures Times(g.out, v, y) == if Points(l, o, v, y) then 1 else 0
    {
      HubNamedTimes(d, g, f, v, y);
    }
  }

  lemma HubEdgesOnce(d: nat, n: nat)
    requires d > 0 && n == d + 1
    ensures ListedOnce(HubEdges(d), n)
    ensures forall v :: 0 <= v < n ==> |SourcesIn(HubEdges(d), n, v)| <= d
  {
    hide HubEdges, Multiplicity;
    forall u: nat, x: nat ensures Multiplicity(HubEdges(d), u, x) == if u <= d && Points(0, 1, u, x) then 1 else 0 {
      HubEdgesListed(d, u, x);
    }
    forall v: nat | v < n ensures |SourcesIn(HubEdges(d), n, v)| <= d {
      SubsetSize(SourcesIn(HubEdges(d), n, v), Range(n) - {v});
    }
  }

  /** So the whole program quits on this list of edges from d == 5 on, whatever the relabelling does. */
  method GorderHubs(d: nat, window: nat) returns (ok: bool)
    requires d > 0 && window > 0 && window * (d + 2) < SENTINEL
    ensures ok <==> d < 5
  {
    hide IsHubs, Spacious, Overflows, Relieved, Modest, Outgrown, Choosing, Ordering, ListedOnce, SourcesIn;
    var edges := HubEdges(d);
    HubEdgesOnce(d, d + 1);
    var h, sum;
    ghost var huge, run;
    ok, h, sum, huge, run := Gorder(edges, d + 1, window, d + 2);
    ghost var l, o := HubsNamed(d, run.g, run.f);
    if d < 3 {
      FewAreSpacious(run.g, d, l, o);
    } else {
      RootAtLeast(huge, 2, d + 1);
      HubsQuit(run.g, d, l, o, huge);
    }
  }

  /** With one or two in-neighbours the new run index has slots to spare. */
  lemma FewAreSpacious(g: Net, d: nat, l: nat, o: nat)
    requires IsHubs(g, d, l, o) && d < 3
    ensures Simple(g) && Spacious(g)
  {
    HubsMeans(g, d, l, o);
    hide IsHubs, Spacious, MostIn;
    HubsSlots(g, d, l, o);
    HubDegrees(g, d, l, o, l);
    LeaderHasMost(g, l, d + 1);
    SpaciousIff(g);
  }
}
