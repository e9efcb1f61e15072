/** All of Gorder: read the edges, relabel, order, write the reordered graph, and score it. */
module GorderRun {
  import opened Permutations
  import opened Csr
  import opened UnitHeapSpec
  import opened GorderSpec
  import opened GorderOutcome
  import opened GorderReplay
  import opened GorderStep
  import opened GorderGraph
  import opened Locality
  import opened NetBuild
  import Rcm

  // ---------- Degrees of an edge list ----------

  /** No edge is listed twice. */
  ghost predicate ListedOnce(edges: seq<Link>, n: nat) {
    forall u, v :: 0 <= u < n && 0 <= v < n ==> Multiplicity(edges, u, v) <= 1
  }

  ghost function SourcesIn(edges: seq<Link>, n: nat, v: nat): set<nat> {
    set u | 0 <= u < n && Multiplicity(edges, u, v) > 0
  }

  ghost function TargetsIn(edges: seq<Link>, n: nat, v: nat): set<nat> {
    set u | 0 <= u < n && Multiplicity(edges, v, u) > 0
  }

  /** Every vertex has an edge. */
  ghost predicate NoneIsolated(edges: seq<Link>, n: nat) {
    forall v :: 0 <= v < n ==> |SourcesIn(edges, n, v)| + |TargetsIn(edges, n, v)| > 0
  }

  /** No vertex has more than `huge` targets. */
  ghost predicate FewTargets(edges: seq<Link>, n: nat, huge: nat) {
    forall v :: 0 <= v < n ==> |TargetsIn(edges, n, v)| <= huge
  }

  /** net has the listed edges, with every vertex v named f[v]. */
  ghost predicate Named(edges: seq<Link>, n: nat, net: Net, f: seq<nat>) {
    && IsPermutation(f, n) && Simple(net) && Vertices(net) == n
    && forall u, v :: 0 <= u < n && 0 <= v < n ==>
         HasRow(net.out, f[u]) && Times(net.out, f[u], f[v]) == Multiplicity(edges, u, v)
  }

  /** In a row without repetitions the degree is the number of values, under whatever names. */
  lemma DegreeIsSize(g: Csr, v: nat, f: seq<nat>, names: set<nat>)
    requires HasRow(g, v) && Strict(g.EI, g.VI[v], RowEnd(g, v)) && Below(g.EI, |f|) && IsPermutation(f, |f|)
    requires forall u: nat :: u in names <==> u < |f| && Times(g, v, f[u]) > 0
    ensures Degree(g, v) == |names|
  {
    hide Strict;
    var values := set u | u in names :: f[u];
    forall y: nat ensures y in values <==> Times(g, v, y) > 0 {
      if y < |f| {
        Onto(f, |f|, y);
      } else {
        OccursIff(g.EI, g.VI[v], RowEnd(g, v), y);
      }
    }
    RowSize(g, v, values);
    ImageSize(names, f);
  }

  lemma NamedTimes(edges: seq<Link>, n: nat, net: Net, f: seq<nat>, u: nat, v: nat)
    requires Named(edges, n, net, f) && u < n && v < n
    ensures f[u] < n && f[v] < n && HasRow(net.out, f[u]) && HasRow(net.inn, f[v])
    ensures Times(net.out, f[u], f[v]) == Times(net.inn, f[v], f[u]) == Multiplicity(edges, u, v)
  {
    EdgeOnce(net, f[u], f[v]);
  }

  /** Renaming keeps the degrees. */
  lemma NamedDegrees(edges: seq<Link>, n: nat, net: Net, f: seq<nat>, v: nat)
    requires Named(edges, n, net, f) && v < n
    ensures f[v] < n && HasRow(net.out, f[v]) && HasRow(net.inn, f[v])
    ensures Degree(net.inn, f[v]) == |SourcesIn(edges, n, v)|
    ensures Degree(net.out, f[v]) == |TargetsIn(edges, n, v)|
  {
    assert HasRow(net.out, f[v]) && HasRow(net.inn, f[v]);
    forall u: nat
      ensures u in SourcesIn(edges, n, v) <==> u < n && Times(net.inn, f[v], f[u]) > 0
      ensures u in TargetsIn(edges, n, v) <==> u < n && Times(net.out, f[v], f[u]) > 0
    {
      if u < n {
        NamedTimes(edges, n, net, f, u, v);
        NamedTimes(edges, n, net, f, v, u);
      }
    }
    DegreeIsSize(net.inn, f[v], f, SourcesIn(edges, n, v));
    DegreeIsSize(net.out, f[v], f, TargetsIn(edges, n, v));
  }

  lemma NamedAt(edges: seq<Link>, n: nat, net: Net, f: seq<nat>, y: nat) returns (v: nat)
    requires Named(edges, n, net, f) && y < n
    ensures v < n && HasRow(net.out, y) && HasRow(net.inn, y)
    ensures Degree(net.inn, y) == |SourcesIn(edges, n, v)| && Degree(net.out, y) == |TargetsIn(edges, n, v)|
  {
    Onto(f, n, y);
    v :| 0 <= v < n && f[v] == y;
    NamedDegrees(edges, n, net, f, v);
  }

  /** So what the edge list says about degrees holds of every renamed graph. */
  lemma NamedNet(edges: seq<Link>, n: nat, net: Net, f: seq<nat>, huge: nat, each: nat)
    requires Named(edges, n, net, f)
    ensures (forall v :: 0 <= v < n ==> |SourcesIn(edges, n, v)| + 2 <= each) ==> Bounded(net, each)
    ensures FewTargets(edges, n, huge) ==> AllLight(net, huge)
    ensures NoneIsolated(edges, n) ==>
              forall v: nat :: 0 < v < n && HasRow(net.out, v) && HasRow(net.inn, v) ==> !Isolated(net, v)
  {
    hide Simple, Times, Multiplicity, IsPermutation, HasRow, Degree, SourcesIn, TargetsIn;
    forall y: nat | y < n
      ensures HasRow(net.out, y) && HasRow(net.inn, y)
      ensures (forall v :: 0 <= v < n ==> |SourcesIn(edges, n, v)| + 2 <= each) ==> Degree(net.inn, y) + 2 <= each
      ensures FewTargets(edges, n, huge) ==> Degree(net.out, y) <= huge
      ensures NoneIsolated(edges, n) ==> Degree(net.inn, y) + Degree(net.out, y) > 0
    {
      var v := NamedAt(edges, n, net, f, y);
    }
  }

  // ---------- The whole program ----------

  /** First f, then g. */
  function Composed(f: seq<nat>, g: seq<nat>): (r: seq<nat>)
    requires Below(f, |g|)
    ensures |r| == |f| && forall v :: 0 <= v < |f| ==> r[v] == g[f[v]]
  {
    seq(|f|, v requires 0 <= v < |f| => g[f[v]])
  }

  lemma ComposedNamed(edges: seq<Link>, n: nat, g: Net, f: seq<nat>, h: Net, last: seq<nat>)
    requires Named(edges, n, g, f) && Relabelled(g.out, h.out, last) && Simple(h)
    ensures Below(f, |last|) && Named(edges, n, h, Composed(f, last))
  {
    var r := Composed(f, last);
    forall u, v | 0 <= u < n && 0 <= v < n
      ensures HasRow(h.out, r[u]) && Times(h.out, r[u], r[v]) == Multiplicity(edges, u, v)
    {
      assert HasRow(h.out, last[f[u]]);
      NamedTimes(edges, n, g, f, u, v);
    }
  }

  /** Everything a run has seen: the graph as read, its breadth-first order, the relabelled graph g and
      the names f of its vertices, the greedy order of g with the scores it had and the heaps it came from, and
      the table that results from it. */
  datatype Run = Run(read: Net, bfs: seq<nat>, par: seq<nat>, g: Net, f: seq<nat>,
                     order: seq<nat>, gains: seq<int>, heaps: seq<HeapView>, last: seq<nat>)

  /** The first half: the listed edges, renamed by the reverse Cuthill-McKee order. */
  ghost predicate Relabelling(edges: seq<Link>, n: nat, run: Run) {
    && WellBuilt(run.read) && Vertices(run.read) == n && Rcm.Usable(run.read)
    && (forall u, v :: 0 <= u < n && 0 <= v < n ==>
          HasRow(run.read.out, u) && Times(run.read.out, u, v) == Multiplicity(edges, u, v))
    && Rcm.BreadthFirst(run.read, Rcm.Degrees(run.read), run.bfs, run.par)
    && Inverse(run.f, Rcm.Reversed(run.bfs), n)
    && Named(edges, n, run.g, run.f)
  }

  /** The second half, as far as it got: the greedy order of the relabelled graph. */
  ghost predicate Choosing(n: nat, huge: nat, window: nat, run: Run) {
    && Simple(run.g) && Vertices(run.g) == n && run.order != [] && Leads(run.g, run.order[0], n)
    && NearGreedy(run.g, huge, window, Zeros(run.g, n), run.order, run.gains)
    && Replays(run.g, huge, window, run.order, run.heaps)
  }

  /** The whole second half: everybody has a place, and the graph h is named after it. */
  ghost predicate Ordering(edges: seq<Link>, n: nat, huge: nat, window: nat, run: Run, h: Net) {
    && Choosing(n, huge, window, run)
    && Inverse(run.last, Spliced(run.order, Zeros(run.g, n)), n)
    && NumberedBy(run.last, run.order, Zeros(run.g, n))
    && Below(run.f, |run.last|) && Named(edges, n, h, Composed(run.f, run.last))
  }

  lemma ReadIsNamed(edges: seq<Link>, n: nat, read: Net, g: Net, f: seq<nat>)
    requires WellBuilt(read) && Vertices(read) == n && Relabelled(read.out, g.out, f) && Simple(g)
    requires forall u, v :: 0 <= u < n && 0 <= v < n ==>
               HasRow(read.out, u) && Times(read.out, u, v) == Multiplicity(edges, u, v)
    ensures Named(edges, n, g, f)
  {
    forall u, v | 0 <= u < n && 0 <= v < n
      ensures HasRow(g.out, f[u]) && Times(g.out, f[u], f[v]) == Multiplicity(edges, u, v)
    {
      assert HasRow(g.out, f[u]);
    }
  }

  /** When every vertex has an edge and none has too many targets, the scores along the run add up to
      what the program measures on the graph it has written. */
  lemma RunAddsUp(edges: seq<Link>, n: nat, huge: nat, window: nat, run: Run, h: Net)
    requires Relabelling(edges, n, run) && Ordering(edges, n, huge, window, run, h) && n > 0
    requires Relabelled(run.g.out, h.out, run.last)
    requires FewTargets(edges, n, huge) && NoneIsolated(edges, n)
    ensures Simple(h) && Vertices(h) == n && Sum(run.gains) == Proximity(h, window, n)
  {
    hide NearGreedy, Simple, WellBuilt, Replays;
    NamedNet(edges, n, run.g, run.f, huge, 0);
    RunWithoutIsolated(run.g, huge, window, run.last, run.order, run.gains);
    GainsAreLocality(run.g, h, huge, window, run.last, run.order, run.gains);
  }

  lemma NamedOnce(edges: seq<Link>, n: nat, net: Net, f: seq<nat>)
    requires Named(edges, n, net, f) && ListedOnce(edges, n)
    ensures NoRepeats(net.out)
  {
    forall u, v | 0 <= u < n && 0 <= v < n ensures HasRow(net.out, u) && Times(net.out, u, v) <= 1 {
      Onto(f, n, u);
      Onto(f, n, v);
      var x :| 0 <= x < n && f[x] == u;
      var y :| 0 <= y < n && f[y] == v;
      assert Times(net.out, f[x], f[y]) == Multiplicity(edges, x, y);
    }
  }

  lemma ReadOnce(edges: seq<Link>, n: nat, read: Net)
    requires WellBuilt(read) && Vertices(read) == n && ListedOnce(edges, n)
    requires forall u, v :: 0 <= u < n && 0 <= v < n ==> Times(read.out, u, v) == Multiplicity(edges, u, v)
    ensures NoRepeats(read.out) && forall u :: 0 <= u < n ==> HasRow(read.out, u)
  {
  }

  /** Reading and relabelling. */
  method ReadAndRelabel(edges: seq<Link>, vsize: nat) returns (graph: Graph, ghost run: Run)
    requires Below(Firsts(edges), vsize) && Below(Seconds(edges), vsize) && ListedOnce(edges, vsize)
    ensures fresh(graph) && WellBuilt(graph.Edges()) && graph.Edges() == run.g && Relabelling(edges, vsize, run)
    ensures Named(edges, vsize, run.g, run.f) && Simple(run.g) && Vertices(run.g) == vsize
  {
    hide Relabelled, Simple, Named, ListedOnce, NoRepeats, Multiplicity;
    graph := new Graph(edges, vsize);
    ghost var read := graph.Edges();
    ReadOnce(edges, vsize, read);
    ghost var f, bfs, par := graph.Transform();
    ReadIsNamed(edges, vsize, read, graph.Edges(), f);
    run := Run(read, bfs, par, graph.Edges(), f, [], [], [], []);
    NamedMeans(edges, vsize, run.g, f);
  }

  lemma NamedMeans(edges: seq<Link>, n: nat, net: Net, f: seq<nat>)
    requires Named(edges, n, net, f)
    ensures Simple(net) && Vertices(net) == n && |f| == n
  {
  }

  /** The record of a run. */
  lemma Recorded(edges: seq<Link>, n: nat, huge: nat, window: nat, run: Run,
                 order: seq<nat>, gains: seq<int>, heaps: seq<HeapView>, last: seq<nat>)
    requires Relabelling(edges, n, run) && Simple(run.g) && Vertices(run.g) == n && order != []
    requires Leads(run.g, order[0], n) && NearGreedy(run.g, huge, window, Zeros(run.g, n), order, gains)
    requires Replays(run.g, huge, window, order, heaps)
    ensures
      var run' := run.(order := order, gains := gains, heaps := heaps, last := last);
      Relabelling(edges, n, run') && Choosing(n, huge, window, run')
  {
    hide Named, NearGreedy, Leads, Inverse, Replays;
  }

  /** Writing the reordered graph, reading it again and measuring it. */
  method WriteAndScore(graph: Graph, retorder: seq<nat>, window: nat, ghost edges: seq<Link>, ghost run: Run)
    returns (sum: nat, h: Net)
    requires WellBuilt(graph.Edges()) && graph.Edges() == run.g && ListedOnce(edges, Vertices(run.g))
    requires Named(edges, Vertices(run.g), run.g, run.f) && IsPermutation(retorder, Vertices(run.g))
    ensures Below(run.f, |retorder|) && Named(edges, Vertices(run.g), h, Composed(run.f, retorder))
    ensures Relabelled(run.g.out, h.out, retorder) && Simple(h) && Vertices(h) == Vertices(run.g)
    ensures sum == Proximity(h, window, Vertices(run.g))
  {
    NamedOnce(edges, Vertices(run.g), run.g, run.f);
    hide Named, ListedOnce, NoRepeats;
    var reordered := graph.Reordered(retorder);
    h := Net(reordered.out, reordered.inn);
    ComposedNamed(edges, Vertices(run.g), run.g, run.f, h, retorder);
    sum := reordered.LocalityScore(window);
  }

  /** From the list of edges to the reordered graph and its locality score. The run quits or not as
      GorderGreedy does on the relabelled graph, and its order is near-greedy as far as it got; in-degrees
      must not bring a full window to INT_MAX / 2. */
  method Gorder(edges: seq<Link>, vsize: nat, window: nat, ghost each: nat)
    returns (ok: bool, h: Net, sum: nat, ghost huge: nat, ghost run: Run)
    requires Below(Firsts(edges), vsize) && Below(Seconds(edges), vsize) && vsize >= 2 && window > 0
    requires ListedOnce(edges, vsize)
    requires (forall v :: 0 <= v < vsize ==> |SourcesIn(edges, vsize, v)| + 2 <= each) && window * each < SENTINEL
    ensures huge * huge <= vsize < (huge + 1) * (huge + 1)
    ensures Relabelling(edges, vsize, run) && Choosing(vsize, huge, window, run)
    ensures ok ==> Ordering(edges, vsize, huge, window, run, h)
    ensures ok ==> Simple(h) && Vertices(h) == vsize && (exists f :: Named(edges, vsize, h, f))
    ensures ok ==> sum == Proximity(h, window, vsize)
    ensures ok && FewTargets(edges, vsize, huge) && NoneIsolated(edges, vsize) ==> sum == Sum(run.gains)
    ensures !ok ==> Outgrown(run.g, huge, window, Zeros(run.g, vsize), run.order, RunSlots(run.g), Slotted(run.g))
    ensures !Overflows(run.g, huge) && !Relieved(run.g, huge) ==>
              EndsExactly(run.g, huge, window, Zeros(run.g, vsize), run.order, RunSlots(run.g), ok)
    ensures Spacious(run.g) || Relieved(run.g, huge) || Modest(run.g, huge, window) ==> ok
    ensures Overflows(run.g, huge) ==> !ok
  {
    hide ListedOnce, WellBuilt, NearGreedy, Leads, Relabelled, Spacious, Overflows, Relieved, FewTargets;
    hide NoneIsolated, Inverse, Spliced, NumberedBy, Bounded, AllLight, Zeros, Simple, Proximity, SourcesIn;
    hide Relabelling, Replays;
    hide Choosing, Named, Composed, Outgrown, Slotted, Modest, EndsExactly;
    var graph;
    graph, run := ReadAndRelabel(edges, vsize);
    NamedNet(edges, vsize, run.g, run.f, 0, each);
    var retorder;
    ghost var order, gains, heaps;
    ok, retorder, huge, order, gains, heaps := graph.GorderGreedy(window, window * each);
    Recorded(edges, vsize, huge, window, run, order, gains, heaps, retorder);
    run := run.(order := order, gains := gains, heaps := heaps, last := retorder);
    h, sum := Net(graph.out, graph.inn), 0;
    if ok {
      sum, h := WriteAndScore(graph, retorder, window, edges, run);
      if FewTargets(edges, vsize, huge) && NoneIsolated(edges, vsize) {
        RunAddsUp(edges, vsize, huge, window, run, h);
      }
    }
  }
}
