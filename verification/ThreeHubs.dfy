/** Graphs on which Gorder ends the program in a later round, however std::sort orders equal keys: three hubs
    with the same sources and no edges between them. */
module ThreeHubs {
  import opened Permutations
  import opened Csr
  import opened GorderSpec
  import opened GorderUpdate
  import opened GorderOutcome
  import opened GorderStep
  import opened GorderGraph
  import opened GorderRun
  import opened NetBuild

  // ---------- The family ----------

  /** Every vertex that is not a hub points to the three hubs. */
  ghost predicate IsHubs(g: Net, n: nat, hubs: set<nat>) {
    && Simple(g) && Vertices(g) == n && |hubs| == 3 && hubs <= Range(n)
    && forall u, x :: 0 <= u < n && 0 <= x < n && HasRow(g.out, u) ==>
         Times(g.out, u, x) == if u !in hubs && x in hubs then 1 else 0
  }

  lemma HubsMeans(g: Net, n: nat, hubs: set<nat>)
    requires IsHubs(g, n, hubs)
    ensures Simple(g) && Vertices(g) == n && |hubs| == 3 && hubs <= Range(n) && |Range(n) - hubs| == n - 3
  {
    assert Range(n) == hubs + (Range(n) - hubs);
    assert |Range(n)| == |hubs| + |Range(n) - hubs|;
  }

  lemma HubTimes(g: Net, n: nat, hubs: set<nat>, v: nat, u: nat)
    requires IsHubs(g, n, hubs) && v < n
    ensures HasRow(g.out, v) && HasRow(g.inn, v)
    ensures Strict(g.out.EI, g.out.VI[v], RowEnd(g.out, v)) && Strict(g.inn.EI, g.inn.VI[v], RowEnd(g.inn, v))
    ensures Times(g.inn, v, u) > 0 <==> u < n && u !in hubs && v in hubs
    ensures Times(g.out, v, u) > 0 <==> u < n && v !in hubs && u in hubs
  {
    assert HasRow(g.out, v) && HasRow(g.inn, v);
    if u < n {
      EdgeOnce(g, u, v);
    } else {
      OccursIff(g.inn.EI, g.inn.VI[v], RowEnd(g.inn, v), u);
      OccursIff(g.out.EI, g.out.VI[v], RowEnd(g.out, v), u);
    }
  }

  lemma HubDegrees(g: Net, n: nat, hubs: set<nat>, v: nat)
    requires IsHubs(g, n, hubs) && v < n
    ensures HasRow(g.out, v) && HasRow(g.inn, v)
    ensures Degree(g.inn, v) == if v in hubs then n - 3 else 0
    ensures Degree(g.out, v) == if v in hubs then 0 else 3
  {
    hide IsHubs, Times, HasRow, Degree, RowEnd;
    HubsMeans(g, n, hubs);
    var sources := if v in hubs then Range(n) - hubs else {};
    var targets := if v in hubs then {} else hubs;
    forall u: nat
      ensures HasRow(g.out, v) && HasRow(g.inn, v)
      ensures Strict(g.out.EI, g.out.VI[v], RowEnd(g.out, v)) && Strict(g.inn.EI, g.inn.VI[v], RowEnd(g.inn, v))
      ensures u in sources <==> Times(g.inn, v, u) > 0
      ensures u in targets <==> Times(g.out, v, u) > 0
    {
      HubTimes(g, n, hubs, v, u);
    }
    RowSize(g.inn, v, sources);
    RowSize(g.out, v, targets);
  }

  lemma NobodyIsolated(g: Net, n: nat, hubs: set<nat>)
    requires IsHubs(g, n, hubs) && n >= 9
    ensures Zeros(g, n) == []
  {
    HubsMeans(g, n, hubs);
    hide IsHubs, Simple, Zeros, HasRow, Degree;
    if Zeros(g, n) != [] {
      var v := Zeros(g, n)[0];
      assert v in Zeros(g, n);
      HubDegrees(g, n, hubs, v);
    }
  }

  /** A hub is first, and the run index has no slot to spare for the hubs. */
  lemma HubsSlots(g: Net, n: nat, hubs: set<nat>, v: nat)
    requires IsHubs(g, n, hubs) && n >= 9 && Leads(g, v, n)
    ensures v in hubs && RunSlots(g) == n - 2
    ensures forall x :: 0 <= x < n ==> InDegrees(g)[x] == if x in hubs then n - 3 else 0
  {
    HubsMeans(g, n, hubs);
    hide IsHubs, MostIn, Simple;
    var h: nat :| h in hubs;
    HubDegrees(g, n, hubs, h);
    HubDegrees(g, n, hubs, v);
    LeaderHasMost(g, v, n);
    forall x | 0 <= x < n ensures InDegrees(g)[x] == if x in hubs then n - 3 else 0 {
      HubDegrees(g, n, hubs, x);
    }
  }

  /** A hub brings every other hub all the sources, and every source the edge to itself. */
  lemma HubBrings(g: Net, n: nat, hubs: set<nat>, huge: nat, x: nat, w: nat)
    requires IsHubs(g, n, hubs) && huge >= 3 && x in hubs && w < n && x != w
    ensures x < n && HasRow(g.out, x) && HasRow(g.inn, x) && HasRow(g.out, w)
    ensures Contribution(g, huge, x, w) == if w in hubs then n - 3 else 1
  {
    hide IsHubs, Contribution, Times, Degree, HasRow;
    HubsMeans(g, n, hubs);
    ContributionMeaning(g, huge, x, w);
    HubDegrees(g, n, hubs, x);
    HubDegrees(g, n, hubs, w);
    HubTimes(g, n, hubs, x, w);
    HubTimes(g, n, hubs, w, x);
    var common := if w in hubs then Range(n) - hubs else {};
    forall u: nat ensures u in CommonSources(g, huge, x, w) <==> u in common {
      if u < n {
        HubDegrees(g, n, hubs, u);
        HubTimes(g, n, hubs, u, x);
        HubTimes(g, n, hubs, u, w);
      }
    }
    assert CommonSources(g, huge, x, w) == common;
  }

  /** So the first placement leaves the index as it is. */
  lemma FirstIsQuiet(g: Net, n: nat, hubs: set<nat>, huge: nat)
    requires IsHubs(g, n, hubs) && huge >= 3 && n >= 9
    ensures Simple(g) && !Overflows(g, huge) && !Relieved(g, huge)
  {
    HubsMeans(g, n, hubs);
    hide IsHubs, Contribution, Leads, RunSlots, InDegrees;
    var v := Leader(g, n);
    HubsSlots(g, n, hubs, v);
    HubDegrees(g, n, hubs, v);
    forall x: nat {:trigger Contribution(g, huge, v, x)} | x < n && x != v && HasRow(g.out, x)
      ensures Contribution(g, huge, v, x) <= InDegrees(g)[x] || Contribution(g, huge, v, x) + 4 < RunSlots(g)
    {
      HubBrings(g, n, hubs, huge, v, x);
    }
    QuietWhenLow(g, huge, v);
  }

  // ---------- The second round ----------

  lemma ScoreOfFirst(g: Net, huge: nat, window: nat, order: seq<nat>, w: nat)
    requires AreVertices(g, order) && |order| >= 2 && HasRow(g.out, w) && HasRow(g.inn, w) && window > 0
    ensures HasRow(g.out, order[0]) && HasRow(g.inn, order[0]) && HasRow(g.out, order[1]) && HasRow(g.inn, order[1])
    ensures Score(g, huge, order, WindowStart(window, 1), 1, w) == Contribution(g, huge, order[0], w)
    ensures PeakOf(g, huge, window, order, 1, w) == Larger(Degree(g.inn, w), Contribution(g, huge, order[0], w))
    ensures window > 1 ==>
              Score(g, huge, order, WindowStart(window, 2), 2, w)
                == Contribution(g, huge, order[0], w) + Contribution(g, huge, order[1], w)
  {
    hide Contribution;
    assert Score(g, huge, order, 0, 0, w) == 0;
    assert Score(g, huge, order, 0, 1, w) == Contribution(g, huge, order[0], w);
    assert PeakOf(g, huge, window, order, 0, w) == Degree(g.inn, w);
  }

  /** A source cannot be chosen before another hub. */
  lemma SecondIsHub(g: Net, n: nat, hubs: set<nat>, huge: nat, window: nat, order: seq<nat>)
    requires IsHubs(g, n, hubs) && n >= 9 && huge >= 3 && window > 0
    requires AreVertices(g, order) && |order| >= 2 && order[0] in hubs && order[1] != order[0]
    requires Chosen(g, huge, window, [], order, 1)
    ensures order[1] in hubs
  {
    hide IsHubs, Contribution, Score, PeakOf, Simple;
    HubsMeans(g, n, hubs);
    var v := order[1];
    assert HasRow(g.out, v);
    ScoreOfFirst(g, huge, window, order, v);
    HubDegrees(g, n, hubs, v);
    HubBrings(g, n, hubs, huge, order[0], v);
    var w: nat := SomeOther(hubs, {order[0]});
    HubDegrees(g, n, hubs, w);
    ScoreOfFirst(g, huge, window, order, w);
    HubBrings(g, n, hubs, huge, order[0], w);
    assert w !in order[..1];
  }

  lemma SomeOther(hubs: set<nat>, few: set<nat>) returns (w: nat)
    requires |few| < |hubs|
    ensures w in hubs && w !in few
  {
    if hubs <= few {
      SubsetSize(hubs, few);
    }
    w :| w in hubs && w !in few;
  }

  lemma SecondScore(g: Net, n: nat, hubs: set<nat>, huge: nat, window: nat, order: seq<nat>, w: nat)
    requires IsHubs(g, n, hubs) && n >= 9 && huge >= 3 && window > 1
    requires AreVertices(g, order) && |order| >= 2 && order[0] in hubs && order[1] in hubs
    requires w < n && w != order[0] && w != order[1]
    ensures HasRow(g.out, w) && HasRow(g.inn, w)
    ensures w in hubs ==> AtTop(g, huge, window, order, 1, w, n - 2)
    ensures Score(g, huge, order, WindowStart(window, 2), 2, w) == if w in hubs then 2 * (n - 3) else 2
  {
    hide IsHubs, Contribution, Score, PeakOf, Simple, HasRow, AreVertices, Degree;
    HubDegrees(g, n, hubs, w);
    ScoreOfFirst(g, huge, window, order, w);
    HubBrings(g, n, hubs, huge, order[0], w);
    HubBrings(g, n, hubs, huge, order[1], w);
  }

  /** With two hubs in the window the sources are still far from the end of the index, and the third hub is
      past it. */
  lemma SecondRound(g: Net, n: nat, hubs: set<nat>, huge: nat, window: nat, order: seq<nat>)
    requires IsHubs(g, n, hubs) && n >= 9 && huge >= 3 && window > 1
    requires AreVertices(g, order) && |order| >= 2 && order[0] in hubs && order[1] in hubs && order[1] != order[0]
    ensures CalmTo(g, huge, window, [], order, 2, n - 2)
    ensures Outgrown(g, huge, window, [], order[..2], n - 2, {})
  {
    hide IsHubs, Contribution, Score, PeakOf, Simple, HasRow, AtTop;
    HubsMeans(g, n, hubs);
    var two := order[..2];
    forall w: nat | w < n && HasRow(g.out, w) && HasRow(g.inn, w) && w !in two
      ensures || AtTop(g, huge, window, order, 1, w, n - 2)
              || Score(g, huge, order, WindowStart(window, 2), 2, w) + 4 < n - 2
    {
      assert w != two[0] && w != two[1];
      SecondScore(g, n, hubs, huge, window, order, w);
    }
    var w: nat := SomeOther(hubs, {order[0], order[1]});
    SecondScore(g, n, hubs, huge, window, two, w);
  }

  /** So a run over such a graph does not get past the second round. */
  lemma HubsQuit(g: Net, n: nat, hubs: set<nat>, huge: nat, window: nat, order: seq<nat>, gains: seq<int>, ok: bool)
    requires IsHubs(g, n, hubs) && n >= 9 && huge >= 3 && window > 1
    requires |order| >= 2 && order[1] != order[0] && Leads(g, order[0], n)
    requires NearGreedy(g, huge, window, Zeros(g, n), order, gains)
    requires EndsExactly(g, huge, window, Zeros(g, n), order, RunSlots(g), ok)
    ensures !ok
  {
    hide IsHubs, Chosen, CalmTo, Outgrown, Leads, Zeros, RunSlots;
    NobodyIsolated(g, n, hubs);
    HubsSlots(g, n, hubs, order[0]);
    SecondIsHub(g, n, hubs, huge, window, order);
    SecondRound(g, n, hubs, huge, window, order);
  }

  // ---------- As a list of edges ----------

  function HubEdges(d: nat): (edges: seq<Link>)
    ensures Below(Firsts(edges), d + 3) && Below(Seconds(edges), d + 3)
  {
    if d == 0 then [] else HubEdges(d - 1) + [(d + 2, 0)] + [(d + 2, 1)] + [(d + 2, 2)]
  }

  lemma {:induction false} HubEdgesListed(d: nat, u: nat, x: nat)
    ensures Multiplicity(HubEdges(d), u, x) == if 2 < u < d + 3 && x < 3 then 1 else 0
  {
    hide Multiplicity;
    if d == 0 {
      ListedMore([], (0, 0), u, x);
    } else {
      HubEdgesListed(d - 1, u, x);
      var front, last := HubEdges(d - 1), d + 2;
      ListedMore(front, (last, 0), u, x);
      ListedMore(front + [(last, 0)], (last, 1), u, x);
      ListedMore(front + [(last, 0)] + [(last, 1)], (last, 2), u, x);
    }
  }

  lemma HubNamedTimes(d: nat, g: Net, f: seq<nat>, v: nat, y: nat)
    requires Named(HubEdges(d), d + 3, g, f) && v < d + 3 && y < d + 3
    ensures HasRow(g.out, v)
    ensures Times(g.out, v, y) == if v !in {f[0], f[1], f[2]} && y in {f[0], f[1], f[2]} then 1 else 0
  {
    hide HubEdges, Multiplicity, Simple;
    Onto(f, d + 3, v);
    Onto(f, d + 3, y);
    var u :| 0 <= u < d + 3 && f[u] == v;
    var x :| 0 <= x < d + 3 && f[x] == y;
    HubEdgesListed(d, u, x);
  }

  lemma HubsNamed(d: nat, g: Net, f: seq<nat>)
    requires Named(HubEdges(d), d + 3, g, f)
    ensures IsHubs(g, d + 3, {f[0], f[1], f[2]})
  {
    hide HubEdges, Multiplicity, Simple, Times;
    assert f[0] != f[1] && f[0] != f[2] && f[1] != f[2];
    forall v, y | 0 <= v < d + 3 && 0 <= y < d + 3 && HasRow(g.out, v)
      ensures Times(g.out, v, y) == if v !in {f[0], f[1], f[2]} && y in {f[0], f[1], f[2]} then 1 else 0
    {
      HubNamedTimes(d, g, f, v, y);
    }
  }

  lemma HubEdgesOnce(d: nat, n: nat)
    requires n == d + 3
    ensures ListedOnce(HubEdges(d), n)
    ensures forall v :: 0 <= v < n ==> |SourcesIn(HubEdges(d), n, v)| <= d
  {
    hide HubEdges, Multiplicity;
    forall u: nat, x: nat ensures Multiplicity(HubEdges(d), u, x) == if 2 < u < d + 3 && x < 3 then 1 else 0 {
      HubEdgesListed(d, u, x);
    }
    var sources := Range(n) - {0, 1, 2};
    SourcesLeft(n);
    forall v: nat | v < n ensures |SourcesIn(HubEdges(d), n, v)| <= d {
      SubsetSize(SourcesIn(HubEdges(d), n, v), sources);
    }
  }

  lemma SourcesLeft(n: nat)
    requires n >= 3
    ensures |Range(n) - {0, 1, 2}| == n - 3
  {
    assert Range(n) == {0, 1, 2} + (Range(n) - {0, 1, 2});
    assert |{0, 1, 2}| == 3;
  }

  /** A run that has not quit has placed everybody, so its second vertex is not its first. */
  lemma PlacedAll(edges: seq<Link>, n: nat, huge: nat, window: nat, run: Run, h: Net)
    requires Ordering(edges, n, huge, window, run, h) && n >= 2 && Zeros(run.g, n) == []
    ensures |run.order| == n && run.order[0] != run.order[1]
  {
    hide NearGreedy, Leads, Named, Simple;
    InversePermutations(run.last, Spliced(run.order, []), n);
    SplicedNothing(run.order);
  }

  /** So the whole program quits on this list of edges from six common sources on, in whatever order std::sort
      leaves equal keys. */
  method GorderHubs(d: nat, window: nat) returns (ok: bool)
    requires d >= 6 && window > 1 && window * (d + 2) < SENTINEL
    ensures !ok
  {
    hide IsHubs, Spacious, Overflows, Relieved, Modest, Outgrown, Choosing, Ordering, ListedOnce, SourcesIn;
    hide EndsExactly, NearGreedy, Leads, HubEdges;
    var n := d + 3;
    var edges := HubEdges(d);
    HubEdgesOnce(d, n);
    var h, sum;
    ghost var huge, run;
    ok, h, sum, huge, run := Gorder(edges, n, window, d + 2);
    RootAtLeast(huge, 3, n);
    ghost var hubs := {run.f[0], run.f[1], run.f[2]};
    HubsNamed(d, run.g, run.f);
    FirstIsQuiet(run.g, n, hubs, huge);
    if ok {
      NobodyIsolated(run.g, n, hubs);
      PlacedAll(edges, n, huge, window, run, h);
      ChoosingMeans(n, huge, window, run);
      HubsQuit(run.g, n, hubs, huge, window, run.order, run.gains, ok);
    }
  }

  lemma ChoosingMeans(n: nat, huge: nat, window: nat, run: Run)
    requires Choosing(n, huge, window, run)
    ensures Simple(run.g) && Vertices(run.g) == n && run.order != [] && Leads(run.g, run.order[0], n)
    ensures NearGreedy(run.g, huge, window, Zeros(run.g, n), run.order, run.gains)
  {
  }
}
