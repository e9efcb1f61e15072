/** Gorder's graph object: read, relabelled in place by the reverse Cuthill-McKee order, reordered. */
module GorderGraph {
  import opened Permutations
  import opened Csr
  import opened EdgeLists
  import opened UnitHeapSpec
  import opened GorderSpec
  import opened GorderOutcome
  import opened GorderReplay
  import opened GorderStep
  import opened NetBuild
  import opened Transpose
  import Greedy = GorderGreedy
  import Locality
  import Rcm

  /** The edges before entry j, renamed by f. */
  ghost predicate RenamedTo(g: Csr, f: seq<nat>, edges: seq<Link>, j: nat) {
    && |edges| == j <= |g.EI| && (forall v :: 0 <= v < g.numVertex ==> HasRow(g, v))
    && |Owners(g, g.numVertex)| == |g.EI| && Below(g.EI, |f|) && |f| == g.numVertex
    && forall k :: 0 <= k < j ==> edges[k] == (f[Owners(g, g.numVertex)[k]], f[g.EI[k]])
  }

  method RenameRow(g: Csr, f: seq<nat>, i: nat, edges: seq<Link>) returns (edges': seq<Link>)
    requires Whole(g, g.numVertex) && i < g.numVertex && RenamedTo(g, f, edges, RowStart(g, i))
    ensures RenamedTo(g, f, edges', RowStart(g, i + 1))
  {
    OwnersOf(g, g.numVertex);
    assert HasRow(g, i);
    edges' := edges;
    var limit := RowEnd(g, i);
    ghost var owners := Owners(g, g.numVertex);
    assert forall j :: g.VI[i] <= j < limit ==> owners[j] == i;
    for j := g.VI[i] to limit
      invariant |edges'| == j
      invariant forall k :: 0 <= k < j ==> edges'[k] == (f[owners[k]], f[g.EI[k]])
    {
      edges' := edges' + [(f[i], f[g.EI[j]])];
    }
  }

  method RenameEdges(g: Csr, f: seq<nat>) returns (edges: seq<Link>)
    requires Whole(g, g.numVertex) && |f| == g.numVertex
    ensures RenamedTo(g, f, edges, g.numEdges)
  {
    edges := [];
    OwnersOf(g, g.numVertex);
    for i := 0 to g.numVertex
      invariant RenamedTo(g, f, edges, RowStart(g, i))
    {
      edges := RenameRow(g, f, i, edges);
    }
  }

  /** Renaming both ends by a permutation keeps every multiplicity; so does swapping the ends. */
  lemma {:induction false} PairsRenamedBy(a: seq<nat>, b: seq<nat>, a': seq<nat>, b': seq<nat>, f: seq<nat>,
                                          m: nat, u: nat, v: nat)
    requires m <= |a| == |b| == |a'| == |b'| && Below(a, |f|) && Below(b, |f|) && Distinct(f) && u < |f| && v < |f|
    requires forall k :: 0 <= k < |a| ==> a'[k] == f[a[k]] && b'[k] == f[b[k]]
    ensures Pairs(a', b', 0, m, f[u], f[v]) == Pairs(b, a, 0, m, v, u)
  {
    if m > 0 {
      PairsRenamedBy(a, b, a', b', f, m - 1, u, v);
    }
  }

  lemma RenamedMultiplicity(g: Csr, f: seq<nat>, edges: seq<Link>, u: nat, v: nat)
    requires Whole(g, g.numVertex) && RenamedTo(g, f, edges, g.numEdges) && Distinct(f) && u < |f| && v < |f|
    ensures HasRow(g, u) && Multiplicity(edges, f[u], f[v]) == Times(g, u, v)
  {
    PairsRenamedBy(Owners(g, g.numVertex), g.EI, Firsts(edges), Seconds(edges), f, |edges|, u, v);
    PairsOfOwner(g, g.numVertex, v, u);
  }

  /** What reading and transforming promise about the two edge tables. */
  ghost predicate WellBuilt(g: Net) {
    && g.inn.numVertex == Vertices(g) && Whole(g.out, Vertices(g)) && AscendingRows(g.out)
    && IsTranspose(g.inn, g.out)
  }

  /** No edge is repeated. */
  ghost predicate NoRepeats(g: Csr) {
    forall u, v :: 0 <= u < g.numVertex && 0 <= v < g.numVertex ==> HasRow(g, u) && Times(g, u, v) <= 1
  }

  /** The graph with every vertex v renamed f[v], rebuilt from its edges. */
  method Rename(g: Csr, f: seq<nat>) returns (net: Net)
    requires Whole(g, g.numVertex) && IsPermutation(f, g.numVertex)
    ensures WellBuilt(net) && Relabelled(g, net.out, f)
    ensures NoRepeats(g) ==> Simple(net)
  {
    var edges := RenameEdges(g, f);
    RenamedBelow(g, f, edges);
    net := BuildNet(edges, g.numVertex);
    TransformIsRelabelling(g, net.out, f, edges);
    if NoRepeats(g) {
      RelabelledNoRepeats(g, net.out, f);
      OnceIsSimple(net);
    }
  }

  /** The truncated square root. */
  function SquareRoot(n: nat): (r: nat)
    ensures r * r <= n < (r + 1) * (r + 1)
  {
    if n == 0 then 0
    else
      var r := SquareRoot(n - 1);
      if (r + 1) * (r + 1) <= n then r + 1 else r
  }

  lemma RootAtLeast(r: nat, m: nat, n: nat)
    requires m * m <= n < (r + 1) * (r + 1)
    ensures m <= r
  {
    if r < m {
      SquaresAscend(r + 1, m);
    }
  }

  lemma SquaresAscend(a: nat, b: nat)
    requires a <= b
    ensures a * a <= b * b
  {
    assert a * a <= a * b <= b * b;
  }

  class Graph {
    var out: Csr
    var inn: Csr

    ghost function Edges(): Net
      reads this
    {
      Net(out, inn)
    }

    /** From the list of edges; self-loops have been dropped while reading. */
    constructor (edges: seq<Link>, vsize: nat)
      requires Below(Firsts(edges), vsize) && Below(Seconds(edges), vsize)
      ensures WellBuilt(Edges()) && Vertices(Edges()) == vsize
      ensures forall u, v :: 0 <= u < vsize && 0 <= v < vsize ==> Times(out, u, v) == Multiplicity(edges, u, v)
    {
      var net := BuildNet(edges, vsize);
      out, inn := net.out, net.inn;
    }

    constructor From(net: Net)
      ensures Edges() == net
    {
      out, inn := net.out, net.inn;
    }

    /** Renames the vertices by the reverse Cuthill-McKee order and rebuilds both tables. */
    method Transform() returns (ghost f: seq<nat>, ghost order: seq<nat>, ghost par: seq<nat>)
      requires WellBuilt(Edges())
      modifies this
      ensures WellBuilt(Edges()) && Relabelled(old(out), out, f)
      ensures Rcm.Usable(old(Edges())) && Rcm.BreadthFirst(old(Edges()), Rcm.Degrees(old(Edges())), order, par)
      ensures Inverse(f, Rcm.Reversed(order), Vertices(Edges()))
      ensures NoRepeats(old(out)) ==> Simple(Edges())
    {
      ghost var g := Edges();
      var n := out.numVertex;
      var retorder;
      retorder, order, par := Rcm.RcmOrder(Net(out, inn));
      f := retorder;
      InversePermutations(retorder, Rcm.Reversed(order), n);
      var net := Rename(out, retorder);
      out, inn := net.out, net.inn;
    }

    /** The reordered graph, as printed and read again. */
    method Reordered(order: seq<nat>) returns (graph: Graph)
      requires WellBuilt(Edges()) && IsPermutation(order, Vertices(Edges()))
      ensures fresh(graph) && WellBuilt(graph.Edges()) && Relabelled(out, graph.out, order)
      ensures NoRepeats(out) ==> Simple(graph.Edges())
    {
      var net := Rename(out, order);
      graph := new Graph.From(net);
    }

    /** The final order of the vertices, as in GorderGreedy; vertices with more targets than the truncated
        square root of the number of vertices are ignored. */
    method GorderGreedy(window: nat, ghost cap: nat)
      returns (ok: bool, retorder: seq<nat>, ghost huge: nat, ghost order: seq<nat>, ghost gains: seq<int>,
               ghost heaps: seq<HeapView>)
      requires Simple(Edges()) && Vertices(Edges()) >= 2 && window > 0
      requires Caps(Edges(), window, cap) && cap < SENTINEL
      ensures huge * huge <= Vertices(Edges()) < (huge + 1) * (huge + 1)
      ensures order != [] && Leads(Edges(), order[0], Vertices(Edges()))
      ensures NearGreedy(Edges(), huge, window, Zeros(Edges(), Vertices(Edges())), order, gains)
      ensures Replays(Edges(), huge, window, order, heaps) && (ok ==> |heaps| == |order|)
      ensures ok ==> Inverse(retorder, Spliced(order, Zeros(Edges(), Vertices(Edges()))), Vertices(Edges()))
      ensures ok ==>
                && IsPermutation(retorder, Vertices(Edges()))
                && NumberedBy(retorder, order, Zeros(Edges(), Vertices(Edges())))
      ensures !ok ==>
                Outgrown(Edges(), huge, window, Zeros(Edges(), Vertices(Edges())), order, RunSlots(Edges()),
                         Slotted(Edges()))
      ensures !Overflows(Edges(), huge) && !Relieved(Edges(), huge) ==>
                EndsExactly(Edges(), huge, window, Zeros(Edges(), Vertices(Edges())), order, RunSlots(Edges()), ok)
      ensures Spacious(Edges()) || Relieved(Edges(), huge) || Modest(Edges(), huge, window) ==> ok
      ensures Overflows(Edges(), huge) ==> !ok
    {
      hide Spacious, Overflows, Relieved, Modest, Outgrown, Slotted, RunSlots, EndsExactly, NearGreedy, NumberedBy;
      hide Leads, Zeros, Spliced, Inverse, Simple, Caps, Replays;
      var hugevertex := SquareRoot(out.numVertex);
      huge := hugevertex;
      ok, retorder, order, gains, heaps := Greedy.GorderGreedy(Net(out, inn), hugevertex, window, cap);
    }

    method LocalityScore(w: nat) returns (sum: nat)
      requires Simple(Edges())
      ensures sum == Locality.Proximity(Edges(), w, Vertices(Edges()))
    {
      sum := Locality.LocalityScore(Net(out, inn), w);
    }
  }

  lemma RenamedBelow(g: Csr, f: seq<nat>, edges: seq<Link>)
    requires RenamedTo(g, f, edges, g.numEdges) && Below(f, |f|) && |f| == g.numVertex
    ensures Below(Firsts(edges), |f|) && Below(Seconds(edges), |f|)
  {
  }

  lemma TransformIsRelabelling(g: Csr, h: Csr, f: seq<nat>, edges: seq<Link>)
    requires Whole(g, g.numVertex) && Whole(h, g.numVertex) && h.numVertex == g.numVertex
    requires RenamedTo(g, f, edges, g.numEdges) && IsPermutation(f, g.numVertex) && h.numEdges == g.numEdges
    requires forall u, v :: 0 <= u < h.numVertex && 0 <= v < h.numVertex ==>
               HasRow(h, u) && Times(h, u, v) == Multiplicity(edges, u, v)
    ensures Relabelled(g, h, f)
  {
    forall u, v | 0 <= u < |f| && 0 <= v < |f| ensures Times(h, f[u], f[v]) == Times(g, u, v) {
      RenamedMultiplicity(g, f, edges, u, v);
    }
  }

  lemma RelabelledNoRepeats(g: Csr, h: Csr, f: seq<nat>)
    requires Relabelled(g, h, f) && NoRepeats(g)
    ensures NoRepeats(h)
  {
    forall u | 0 <= u < h.numVertex ensures HasRow(h, u) {
      assert h.VI[u] <= RowEnd(h, u);
    }
    forall u, v | 0 <= u < h.numVertex && 0 <= v < h.numVertex ensures Times(h, u, v) <= 1 {
      RelabelledTimes(g, h, f, u, v);
    }
  }

  lemma RelabelledTimes(g: Csr, h: Csr, f: seq<nat>, u: nat, v: nat)
    requires Relabelled(g, h, f) && NoRepeats(g) && u < h.numVertex && v < h.numVertex
    ensures HasRow(h, u) && Times(h, u, v) <= 1
  {
    assert h.VI[u] <= RowEnd(h, u);
    Onto(f, |f|, u);
    Onto(f, |f|, v);
    var x :| 0 <= x < |f| && f[x] == u;
    var y :| 0 <= y < |f| && f[y] == v;
    assert Times(h, f[x], f[y]) == Times(g, x, y);
  }
}
