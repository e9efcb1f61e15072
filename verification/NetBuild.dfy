/** Gorder's graph from a list of edges: sorted out-edges and, scattered from them, in-edges. */
module NetBuild {
  import opened Permutations
  import opened Csr
  import opened EdgeLists
  import opened GorderSpec
  import opened Transpose
  import StdSort

  type Link = (nat, nat)

  function Firsts(edges: seq<Link>): (r: seq<nat>)
    ensures |r| == |edges| && forall i :: 0 <= i < |r| ==> r[i] == edges[i].0
  {
    seq(|edges|, i requires 0 <= i < |edges| => edges[i].0)
  }

  function Seconds(edges: seq<Link>): (r: seq<nat>)
    ensures |r| == |edges| && forall i :: 0 <= i < |r| ==> r[i] == edges[i].1
  {
    seq(|edges|, i requires 0 <= i < |edges| => edges[i].1)
  }

  /** How often the edge u -> v is in the list. */
  function Multiplicity(edges: seq<Link>, u: nat, v: nat): nat {
    Pairs(Firsts(edges), Seconds(edges), 0, |edges|, u, v)
  }

  // ---------- Counting does not depend on the order ----------

  function Count(s: seq<Link>, p: Link -> bool): nat {
    if s == [] then 0 else Count(s[..|s| - 1], p) + (if p(s[|s| - 1]) then 1 else 0)
  }

  lemma {:induction false} CountAppend(a: seq<Link>, b: seq<Link>, p: Link -> bool)
    ensures Count(a + b, p) == Count(a, p) + Count(b, p)
  {
    if b == [] {
      assert a + b == a;
    } else {
      CountAppend(a, b[..|b| - 1], p);
      assert (a + b)[..|a + b| - 1] == a + b[..|b| - 1];
    }
  }

  lemma CountOne(s: seq<Link>, x: Link, p: Link -> bool)
    ensures Count(s + [x], p) == Count(s, p) + (if p(x) then 1 else 0)
    ensures Count([], p) == 0
  {
    assert (s + [x])[..|s + [x]| - 1] == s;
  }

  lemma {:induction false} CountSame(a: seq<Link>, b: seq<Link>, p: Link -> bool)
    requires multiset(a) == multiset(b)
    ensures Count(a, p) == Count(b, p)
    decreases |a|
  {
    hide Count;
    if a == [] {
      assert |multiset(b)| == 0;
      assert b == [];
    } else {
      var front, x := a[..|a| - 1], a[|a| - 1];
      assert a == front + [x];
      assert x in multiset(a);
      var before, after := TakeOut(b, x);
      CountSame(front, before + after, p);
      CountAppend(before, after, p);
      CountAppend(before + [x], after, p);
      CountOne(before, x, p);
      CountOne(front, x, p);
    }
  }

  lemma TakeOut(s: seq<Link>, x: Link) returns (before: seq<Link>, after: seq<Link>)
    requires x in multiset(s)
    ensures s == before + [x] + after && multiset(before + after) == multiset(s) - multiset{x}
  {
    var i :| 0 <= i < |s| && s[i] == x;
    before, after := s[..i], s[i + 1..];
    assert s == before + [x] + after;
  }

  lemma {:induction false} CountIsOccurrences(s: seq<Link>, m: nat, v: nat, p: Link -> bool, q: Link -> bool)
    requires m <= |s| && (forall e :: p(e) == (e.0 == v)) && (forall e :: q(e) == (e.1 == v))
    ensures Occurrences(Firsts(s), 0, m, v) == Count(s[..m], p)
    ensures Occurrences(Seconds(s), 0, m, v) == Count(s[..m], q)
  {
    if m > 0 {
      CountIsOccurrences(s, m - 1, v, p, q);
      assert s[..m][..m - 1] == s[..m - 1];
    }
  }

  lemma {:induction false} CountIsPairs(s: seq<Link>, m: nat, u: nat, v: nat, p: Link -> bool)
    requires m <= |s| && forall e :: p(e) == (e.0 == u && e.1 == v)
    ensures Pairs(Firsts(s), Seconds(s), 0, m, u, v) == Count(s[..m], p)
  {
    if m > 0 {
      CountIsPairs(s, m - 1, u, v, p);
      assert s[..m][..m - 1] == s[..m - 1];
    }
  }

  /** One more edge in the list. */
  lemma ListedMore(edges: seq<Link>, e: Link, u: nat, x: nat)
    ensures Multiplicity(edges + [e], u, x) == Multiplicity(edges, u, x) + if e == (u, x) then 1 else 0
    ensures Multiplicity([], u, x) == 0
  {
    var p := (e: Link) => e.0 == u && e.1 == x;
    var longer := edges + [e];
    assert longer[..|longer|] == longer && edges[..|edges|] == edges;
    CountIsPairs(longer, |longer|, u, x, p);
    CountIsPairs(edges, |edges|, u, x, p);
    CountOne(edges, e, p);
  }

  /** Sorting the edges changes neither the degrees nor the multiplicities. */
  lemma SameCounts(a: seq<Link>, b: seq<Link>, u: nat, v: nat)
    requires multiset(a) == multiset(b) && |a| == |b|
    ensures Occurrences(Firsts(a), 0, |a|, v) == Occurrences(Firsts(b), 0, |b|, v)
    ensures Occurrences(Seconds(a), 0, |a|, v) == Occurrences(Seconds(b), 0, |b|, v)
    ensures Multiplicity(a, u, v) == Multiplicity(b, u, v)
  {
    var p, q, r := (e: Link) => e.0 == v, (e: Link) => e.1 == v, (e: Link) => e.0 == u && e.1 == v;
    assert a[..|a|] == a && b[..|b|] == b;
    CountIsOccurrences(a, |a|, v, p, q);
    CountIsOccurrences(b, |b|, v, p, q);
    CountIsPairs(a, |a|, u, v, r);
    CountIsPairs(b, |b|, u, v, r);
    CountSame(a, b, p);
    CountSame(a, b, q);
    CountSame(a, b, r);
  }

  // ---------- A sorted list is already laid out in rows ----------

  ghost predicate Lexicographic(edges: seq<Link>) {
    forall i, j :: 0 <= i < j < |edges| ==>
      edges[i].0 < edges[j].0 || (edges[i].0 == edges[j].0 && edges[i].1 <= edges[j].1)
  }

  /** In an ascending list, position j is the number of smaller keys plus the rank among equal ones. */
  lemma {:induction false} KeyPosition(keys: seq<nat>, m: nat, j: nat, s: nat)
    requires Ascending(keys) && j <= m <= |keys| && j < |keys| && keys[j] == s
    ensures Smaller(keys, m, s) == Smaller(keys, j, s)
    ensures Smaller(keys, j, s) + Occurrences(keys, 0, j, s) == j
    decreases m
  {
    if j < m {
      KeyPosition(keys, m - 1, j, s);
    } else {
      UpTo(keys, j, s);
    }
  }

  lemma {:induction false} UpTo(keys: seq<nat>, j: nat, s: nat)
    requires j <= |keys| && forall i :: 0 <= i < j ==> keys[i] <= s
    ensures Smaller(keys, j, s) + Occurrences(keys, 0, j, s) == j
  {
    if j > 0 {
      UpTo(keys, j - 1, s);
    }
  }

  lemma {:induction false} SortedScattered(keys: seq<nat>, vals: seq<nat>, VI: seq<nat>, n: nat, i: nat)
    requires Ascending(keys) && |keys| == |vals| && i <= |keys| && Below(keys, n) && Starts(VI, keys, n)
    ensures Scattered(vals, VI, keys, vals, n, i)
  {
    if i == 0 {
      ScatterStart(vals, VI, keys, vals, n);
    } else {
      SortedScattered(keys, vals, VI, n, i - 1);
      ScatterStep(vals, VI, keys, vals, n, i - 1);
      KeyPosition(keys, |keys|, i - 1, keys[i - 1]);
      assert vals[i - 1 := vals[i - 1]] == vals;
    }
  }

  lemma {:induction false} TargetsAscendLex(edges: seq<Link>, m: nat, u: nat)
    requires Lexicographic(edges) && m <= |edges|
    ensures Ascending(Targets(Firsts(edges), Seconds(edges), m, u))
    ensures forall t, k ::
              0 <= t < |Targets(Firsts(edges), Seconds(edges), m, u)| && m <= k < |edges| && edges[k].0 == u ==>
              Targets(Firsts(edges), Seconds(edges), m, u)[t] <= edges[k].1
  {
    if m > 0 {
      TargetsAscendLex(edges, m - 1, u);
    }
  }

  // ---------- The program ----------

  method CountEnds(edges: seq<Link>, n: nat) returns (outdegree: array<nat>, indegree: array<nat>)
    requires Below(Firsts(edges), n) && Below(Seconds(edges), n)
    ensures fresh(outdegree) && fresh(indegree) && outdegree != indegree && outdegree.Length == indegree.Length == n
    ensures forall v :: 0 <= v < n ==> outdegree[v] == Occurrences(Firsts(edges), 0, |edges|, v)
    ensures forall v :: 0 <= v < n ==> indegree[v] == Occurrences(Seconds(edges), 0, |edges|, v)
  {
    ghost var src, dst := Firsts(edges), Seconds(edges);
    outdegree := new nat[n](_ => 0);
    indegree := new nat[n](_ => 0);
    for i := 0 to |edges|
      invariant forall v :: 0 <= v < n ==> outdegree[v] == Occurrences(src, 0, i, v)
      invariant forall v :: 0 <= v < n ==> indegree[v] == Occurrences(dst, 0, i, v)
    {
      assert src[i] < n && dst[i] < n;
      outdegree[edges[i].0] := outdegree[edges[i].0] + 1;
      indegree[edges[i].1] := indegree[edges[i].1] + 1;
    }
  }

  /** Prefix sums of the degrees; the entry past the last vertex is the number of edges. */
  method PrefixStarts(degree: array<nat>, edgenum: nat, ghost keys: seq<nat>) returns (start: array<nat>)
    requires edgenum == |keys| && Below(keys, degree.Length)
    requires forall v :: 0 <= v < degree.Length ==> degree[v] == Occurrences(keys, 0, |keys|, v)
    ensures fresh(start) && start.Length == degree.Length + 1 && Starts(start[..], keys, degree.Length + 1)
  {
    var n := degree.Length;
    start := new nat[n + 1](_ => 0);
    SmallerNext(keys, |keys|, 0);
    var i := 1;
    while i < n
      invariant 1 <= i
      invariant forall s :: 0 <= s < i && s <= n ==> start[s] == Smaller(keys, |keys|, s)
    {
      SmallerNext(keys, |keys|, i - 1);
      start[i] := start[i - 1] + degree[i - 1];
      i := i + 1;
    }
    SmallerAll(keys, |keys|, n);
    start[n] := edgenum;
  }

  /** The comparator with `<` where the program writes `<=`: a strict order, as std::sort demands. */
  method SortEdges(edges: seq<Link>) returns (sorted: seq<Link>)
    ensures multiset(sorted) == multiset(edges) && |sorted| == |edges| && Lexicographic(sorted)
  {
    sorted := StdSort.Sort(edges, (a: Link, b: Link) => a.0 < b.0 || (a.0 == b.0 && a.1 < b.1));
  }

  /** One in-edge goes where inpos points. */
  method PutAt(inpos: array<nat>, inedge: array<nat>, key: nat, val: nat,
               ghost start: seq<nat>, ghost keys: seq<nat>, ghost vals: seq<nat>, ghost n: nat, ghost i: nat)
    requires inpos != inedge && inpos.Length == n
    requires Scattered(inedge[..], start, keys, vals, n, i) && i < |keys| && key == keys[i] < n && val == vals[i]
    requires forall v :: 0 <= v < n ==> inpos[v] == start[v] + Occurrences(keys, 0, i, v)
    modifies inpos, inedge
    ensures Scattered(inedge[..], start, keys, vals, n, i + 1)
    ensures forall v :: 0 <= v < n ==> inpos[v] == start[v] + Occurrences(keys, 0, i + 1, v)
  {
    ScatterStep(inedge[..], start, keys, vals, n, i);
    inedge[inpos[key]] := val;
    inpos[key] := inpos[key] + 1;
  }

  /** The in-edges from the sorted out-edges: every vertex u is dropped into the rows of its targets. */
  method ScatterIn(out: Csr, instart: array<nat>) returns (inn: Csr)
    requires Whole(out, out.numVertex) && instart.Length == out.numVertex + 1
    requires Starts(instart[..], out.EI, out.numVertex + 1)
    ensures inn.numVertex == out.numVertex && IsTranspose(inn, out) && Tiled(inn)
  {
    var n := out.numVertex;
    OwnersOf(out, n);
    ghost var owners := Owners(out, n);
    ghost var start := instart[..];
    var inpos := new nat[n](i requires 0 <= i < n reads instart => instart[i]);
    var inedge := new nat[out.numEdges];
    ScatterStart(inedge[..], start, out.EI, owners, n);
    for u := 0 to n
      invariant instart[..] == start
      invariant Scattered(inedge[..], start, out.EI, owners, n, RowStart(out, u))
      invariant forall v :: 0 <= v < n ==> inpos[v] == start[v] + Occurrences(out.EI, 0, RowStart(out, u), v)
    {
      ScatterTargets(out, u, inpos, inedge, start, owners);
    }
    inn := MakeCsr(n, instart, inedge, out.EI, owners);
    ListsMakeTranspose(inn, out);
  }

  method ScatterTargets(out: Csr, u: nat, inpos: array<nat>, inedge: array<nat>,
                        ghost start: seq<nat>, ghost owners: seq<nat>)
    requires Whole(out, out.numVertex) && u < out.numVertex && (forall v :: 0 <= v < out.numVertex ==> HasRow(out, v))
    requires inpos != inedge && inpos.Length == out.numVertex < |start| && owners == Owners(out, out.numVertex)
    requires Scattered(inedge[..], start, out.EI, owners, out.numVertex, RowStart(out, u))
    requires forall v :: 0 <= v < out.numVertex ==> inpos[v] == start[v] + Occurrences(out.EI, 0, RowStart(out, u), v)
    modifies inpos, inedge
    ensures Scattered(inedge[..], start, out.EI, owners, out.numVertex, RowStart(out, u + 1))
    ensures forall v :: 0 <= v < out.numVertex ==>
              inpos[v] == start[v] + Occurrences(out.EI, 0, RowStart(out, u + 1), v)
  {
    hide Scattered, Owners, Tiled;
    OwnersOf(out, out.numVertex);
    assert HasRow(out, u);
    var limit := RowEnd(out, u);
    assert forall j :: out.VI[u] <= j < limit ==> owners[j] == u;
    for j := out.VI[u] to limit
      invariant Scattered(inedge[..], start, out.EI, owners, out.numVertex, j)
      invariant forall v :: 0 <= v < out.numVertex ==> inpos[v] == start[v] + Occurrences(out.EI, 0, j, v)
    {
      PutAt(inpos, inedge, out.EI[j], u, start, out.EI, owners, out.numVertex, j);
    }
  }

  lemma {:induction false} SmallerSame(a: seq<nat>, b: seq<nat>, v: nat)
    requires |a| == |b| && forall s: nat :: Occurrences(a, 0, |a|, s) == Occurrences(b, 0, |b|, s)
    ensures Smaller(a, |a|, v) == Smaller(b, |b|, v)
  {
    if v == 0 {
      SmallerNext(a, |a|, 0);
      SmallerNext(b, |b|, 0);
    } else {
      SmallerSame(a, b, v - 1);
      SmallerNext(a, |a|, v - 1);
      SmallerNext(b, |b|, v - 1);
    }
  }

  lemma StartsSame(VI: seq<nat>, a: seq<nat>, b: seq<nat>, n: nat)
    requires |a| == |b| && (forall s: nat :: Occurrences(a, 0, |a|, s) == Occurrences(b, 0, |b|, s)) && Starts(VI, a, n)
    ensures Starts(VI, b, n)
  {
    forall s | 0 <= s < n ensures VI[s] == Smaller(b, |b|, s) {
      SmallerSame(a, b, s);
    }
  }

  lemma SortedEnds(edges: seq<Link>, sorted: seq<Link>, n: nat)
    requires multiset(sorted) == multiset(edges) && |sorted| == |edges| && Lexicographic(sorted)
    requires Below(Firsts(edges), n) && Below(Seconds(edges), n)
    ensures Below(Firsts(sorted), n) && Below(Seconds(sorted), n) && Ascending(Firsts(sorted))
  {
    forall i | 0 <= i < |sorted| ensures sorted[i].0 < n && sorted[i].1 < n {
      assert sorted[i] in multiset(edges);
      var k :| 0 <= k < |edges| && edges[k] == sorted[i];
      assert Firsts(edges)[k] < n && Seconds(edges)[k] < n;
    }
  }

  /** Every row of targets ascends. */
  ghost predicate AscendingRows(g: Csr) {
    forall v :: 0 <= v < g.numVertex ==> HasRow(g, v) && Ascending(Row(g, v))
  }

  lemma SameDegrees(a: seq<Link>, b: seq<Link>)
    requires multiset(a) == multiset(b) && |a| == |b|
    ensures forall v: nat :: Occurrences(Firsts(a), 0, |a|, v) == Occurrences(Firsts(b), 0, |b|, v)
    ensures forall v: nat :: Occurrences(Seconds(a), 0, |a|, v) == Occurrences(Seconds(b), 0, |b|, v)
  {
    forall v: nat
      ensures Occurrences(Firsts(a), 0, |a|, v) == Occurrences(Firsts(b), 0, |b|, v)
      ensures Occurrences(Seconds(a), 0, |a|, v) == Occurrences(Seconds(b), 0, |b|, v)
    {
      SameCounts(a, b, v, v);
    }
  }

  /** The out-edges: the second ends of the sorted edges. */
  method BuildOut(edges: seq<Link>, n: nat, outstart: array<nat>) returns (out: Csr)
    requires Below(Firsts(edges), n) && Below(Seconds(edges), n)
    requires outstart.Length == n + 1 && Starts(outstart[..], Firsts(edges), n + 1)
    ensures out.numVertex == n && |out.VI| == n + 1 && Whole(out, n) && AscendingRows(out)
    ensures forall u, v :: 0 <= u < n && 0 <= v ==> Times(out, u, v) == Multiplicity(edges, u, v)
    ensures |out.EI| == |edges|
    ensures forall v: nat :: Occurrences(out.EI, 0, |out.EI|, v) == Occurrences(Seconds(edges), 0, |edges|, v)
  {
    var sorted := SortEdges(edges);
    SortedEnds(edges, sorted, n);
    SameDegrees(edges, sorted);
    StartsSame(outstart[..], Firsts(edges), Firsts(sorted), n);
    SortedScattered(Firsts(sorted), Seconds(sorted), outstart[..], n, |sorted|);
    var outedge := new nat[|sorted|](i requires 0 <= i < |sorted| => sorted[i].1);
    assert outedge[..] == Seconds(sorted);
    out := MakeCsr(n, outstart, outedge, Firsts(sorted), Seconds(sorted));
    hide Scattered, Starts, Count;
    forall u: nat, v: nat | u < n ensures HasRow(out, u) && Times(out, u, v) == Multiplicity(edges, u, v) {
      ListedTimes(out, Firsts(sorted), Seconds(sorted), u, v);
      SameCounts(sorted, edges, u, v);
    }
    forall u | 0 <= u < n ensures HasRow(out, u) && Ascending(Row(out, u)) {
      TargetsAscendLex(sorted, |sorted|, u);
    }
  }

  /** The graph of a list of edges: every out-row ascending, the in-edges its exact transpose. */
  method BuildNet(edges: seq<Link>, n: nat) returns (g: Net)
    requires Below(Firsts(edges), n) && Below(Seconds(edges), n)
    ensures Vertices(g) == n && Whole(g.out, n) && AscendingRows(g.out) && g.inn.numVertex == n
    ensures IsTranspose(g.inn, g.out) && Tiled(g.inn) && g.out.numEdges == |edges|
    ensures forall u, v :: 0 <= u < n && 0 <= v < n ==> Times(g.out, u, v) == Multiplicity(edges, u, v)
  {
    var outdegree, indegree := CountEnds(edges, n);
    var outstart := PrefixStarts(outdegree, |edges|, Firsts(edges));
    var instart := PrefixStarts(indegree, |edges|, Seconds(edges));
    ghost var start := instart[..];
    var out := BuildOut(edges, n, outstart);
    StartsSame(start, Seconds(edges), out.EI, n + 1);
    var inn := ScatterIn(out, instart);
    g := Net(out, inn);
  }

  lemma AscendingOnce(s: seq<nat>, lo: nat, hi: nat)
    requires lo <= hi <= |s| && Ascending(s[lo..hi]) && forall x: nat :: Occurrences(s, lo, hi, x) <= 1
    ensures Strict(s, lo, hi)
  {
    forall i, j | lo <= i < j < hi ensures s[i] < s[j] {
      assert s[lo..hi][i - lo] <= s[lo..hi][j - lo];
      OccurrencesSplit(s, lo, i + 1, hi, s[i]);
      OccursIff(s, lo, i + 1, s[i]);
      OccursIff(s, i + 1, hi, s[i]);
      assert Occurrences(s, lo, i + 1, s[i]) > 0;
    }
  }

  /** A graph without repeated edges, ascending both ways, is simple. */
  lemma OnceIsSimple(g: Net)
    requires g.inn.numVertex == g.out.numVertex && IsTranspose(g.inn, g.out) && AscendingRows(g.out)
    requires forall u, v :: 0 <= u < Vertices(g) && 0 <= v < Vertices(g) ==> HasRow(g.out, u) && Times(g.out, u, v) <= 1
    ensures Simple(g)
  {
    forall u | 0 <= u < Vertices(g) ensures HasRow(g.out, u) && Strict(g.out.EI, g.out.VI[u], RowEnd(g.out, u)) {
      assert HasRow(g.out, u) && Ascending(Row(g.out, u));
      forall x: nat ensures Occurrences(g.out.EI, g.out.VI[u], RowEnd(g.out, u), x) <= 1 {
        BeyondNone(g.out, Vertices(g), u, x);
        if x < Vertices(g) {
          assert Times(g.out, u, x) <= 1;
        }
      }
      AscendingOnce(g.out.EI, g.out.VI[u], RowEnd(g.out, u));
    }
    forall v | 0 <= v < Vertices(g) ensures HasRow(g.inn, v) && Strict(g.inn.EI, g.inn.VI[v], RowEnd(g.inn, v)) {
      assert HasRow(g.inn, v) && Ascending(Row(g.inn, v));
      forall x: nat ensures Occurrences(g.inn.EI, g.inn.VI[v], RowEnd(g.inn, v), x) <= 1 {
        BeyondNone(g.inn, Vertices(g), v, x);
        if x < Vertices(g) {
          assert Times(g.inn, v, x) == Times(g.out, x, v);
        }
      }
      AscendingOnce(g.inn.EI, g.inn.VI[v], RowEnd(g.inn, v));
    }
  }

  lemma BeyondNone(g: Csr, n: nat, u: nat, x: nat)
    requires WellFormed(g, n) && HasRow(g, u)
    ensures x >= n ==> Times(g, u, x) == 0
  {
    OccursIff(g.EI, g.VI[u], RowEnd(g, u), x);
  }
}
