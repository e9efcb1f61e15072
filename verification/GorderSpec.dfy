/** The locality scores that Gorder maximises, stated on the graph alone. */
module GorderSpec {
  import opened Csr

  /** out: the targets of each vertex; inn: the sources. */
  datatype Net = Net(out: Csr, inn: Csr)

  function Vertices(g: Net): nat { g.out.numVertex }

  ghost predicate StrictRows(g: Csr) {
    forall v {:trigger HasRow(g, v)} :: 0 <= v < g.numVertex ==>
      HasRow(g, v) && Strict(g.EI, g.VI[v], RowEnd(g, v))
  }

  /** Both directions describe the same edges, and no edge is repeated. */
  ghost predicate Simple(g: Net) {
    && g.inn.numVertex == g.out.numVertex
    && IsTranspose(g.inn, g.out)
    && StrictRows(g.out) && StrictRows(g.inn)
  }

  predicate Edge(g: Net, u: nat, v: nat)
    requires HasRow(g.out, u)
  {
    Times(g.out, u, v) > 0
  }

  /** Vertices with at most `huge` targets; the others never contribute. */
  predicate LightVertex(g: Net, huge: nat, u: nat)
    requires HasRow(g.out, u)
  {
    Degree(g.out, u) <= huge
  }

  /** The light vertices that w shares with whatever else they point to. */
  ghost function Feeders(g: Net, huge: nat, w: nat): set<nat> {
    set u | 0 <= u < Vertices(g) && HasRow(g.out, u)
            && LightVertex(g, huge, u) && Degree(g.out, u) > 1 && Edge(g, u, w)
  }

  /** What x adds to the score of w while x is in the window: an edge to w, an edge from w, and
      one for every common in-neighbour. */
  ghost function Contribution(g: Net, huge: nat, x: nat, w: nat): nat
    requires HasRow(g.out, x) && HasRow(g.inn, x) && HasRow(g.out, w)
  {
    (if LightVertex(g, huge, x) then Times(g.out, x, w) else 0)
    + (if LightVertex(g, huge, w) then Times(g.inn, x, w) else 0)
    + HotEntries(g.inn.EI, g.inn.VI[x], RowEnd(g.inn, x), Feeders(g, huge, w))
  }

  lemma EdgeOnce(g: Net, u: nat, v: nat)
    requires Simple(g) && u < Vertices(g) && v < Vertices(g)
    ensures HasRow(g.out, u) && HasRow(g.inn, v)
    ensures Times(g.out, u, v) == Times(g.inn, v, u) <= 1
  {
    assert HasRow(g.out, u) && HasRow(g.inn, v);
    StrictOnce(g.out.EI, g.out.VI[u], RowEnd(g.out, u), v);
  }

  /** The light in-neighbours of both x and w. */
  ghost function CommonSources(g: Net, huge: nat, x: nat, w: nat): set<nat> {
    set u | 0 <= u < Vertices(g) && HasRow(g.out, u) && LightVertex(g, huge, u) && Edge(g, u, x) && Edge(g, u, w)
  }

  /** For two vertices the contribution is what its name says. */
  lemma ContributionMeaning(g: Net, huge: nat, x: nat, w: nat)
    requires Simple(g) && x < Vertices(g) && w < Vertices(g) && x != w
    ensures HasRow(g.out, x) && HasRow(g.inn, x) && HasRow(g.out, w)
    ensures Contribution(g, huge, x, w)
         == (if LightVertex(g, huge, x) && Edge(g, x, w) then 1 else 0)
            + (if LightVertex(g, huge, w) && Edge(g, w, x) then 1 else 0)
            + |CommonSources(g, huge, x, w)|
  {
    EdgeOnce(g, x, w);
    EdgeOnce(g, w, x);
    var lo, hi := g.inn.VI[x], RowEnd(g.inn, x);
    HotEntriesOfStrict(g.inn.EI, lo, hi, Feeders(g, huge, w));
    var hits := Hits(g.inn.EI, lo, hi, Feeders(g, huge, w));
    forall u: nat ensures u in hits <==> u in CommonSources(g, huge, x, w) {
      if u < Vertices(g) {
        EdgeOnce(g, u, x);
        EdgeOnce(g, u, w);
        TwoTargets(g.out.EI, g.out.VI[u], RowEnd(g.out, u), x, w);
      }
    }
    assert hits == CommonSources(g, huge, x, w);
  }

  lemma TwoTargets(s: seq<nat>, lo: nat, hi: nat, x: nat, w: nat)
    requires lo <= hi <= |s| && x != w
    ensures Occurrences(s, lo, hi, x) > 0 && Occurrences(s, lo, hi, w) > 0 ==> hi - lo > 1
  {
    OccursIff(s, lo, hi, x);
    OccursIff(s, lo, hi, w);
  }

  lemma ContributionBound(g: Net, huge: nat, x: nat, w: nat)
    requires Simple(g) && x < Vertices(g) && w < Vertices(g)
    ensures HasRow(g.out, x) && HasRow(g.inn, x) && HasRow(g.out, w)
    ensures Contribution(g, huge, x, w) <= Degree(g.inn, x) + 2
  {
    EdgeOnce(g, x, w);
    EdgeOnce(g, w, x);
  }

  ghost predicate AreVertices(g: Net, order: seq<nat>) {
    && (forall i :: 0 <= i < |order| ==> HasRow(g.out, order[i]))
    && (forall i :: 0 <= i < |order| ==> HasRow(g.inn, order[i]))
  }

  /** The score of w against the window order[lo..hi]. */
  ghost function Score(g: Net, huge: nat, order: seq<nat>, lo: nat, hi: nat, w: nat): nat
    requires AreVertices(g, order) && lo <= hi <= |order| && HasRow(g.out, w)
    decreases hi - lo
  {
    if lo == hi then 0
    else Score(g, huge, order, lo, hi - 1, w) + Contribution(g, huge, order[hi - 1], w)
  }

  lemma {:induction false} ScoreFront(g: Net, huge: nat, order: seq<nat>, lo: nat, hi: nat, w: nat)
    requires AreVertices(g, order) && lo < hi <= |order| && HasRow(g.out, w)
    ensures Score(g, huge, order, lo, hi, w)
         == Contribution(g, huge, order[lo], w) + Score(g, huge, order, lo + 1, hi, w)
    decreases hi - lo
  {
    if lo + 1 < hi {
      ScoreFront(g, huge, order, lo, hi - 1, w);
    }
  }

  lemma {:induction false} ScoreSame(g: Net, huge: nat, a: seq<nat>, b: seq<nat>, lo: nat, hi: nat, w: nat)
    requires AreVertices(g, a) && AreVertices(g, b) && lo <= hi <= |a| && hi <= |b| && HasRow(g.out, w)
    requires forall i :: lo <= i < hi ==> a[i] == b[i]
    ensures Score(g, huge, a, lo, hi, w) == Score(g, huge, b, lo, hi, w)
    decreases hi - lo
  {
    if lo < hi {
      ScoreSame(g, huge, a, b, lo, hi - 1, w);
    }
  }

  lemma OneMore(n: nat, each: nat)
    ensures (n + 1) * each == n * each + each
  {
  }

  /** A window brings no more than its length times the most that one of its vertices brings. */
  lemma {:induction false} ScoreWithin(g: Net, huge: nat, order: seq<nat>, lo: nat, hi: nat, w: nat, each: nat)
    requires AreVertices(g, order) && lo <= hi <= |order| && HasRow(g.out, w)
    requires forall i :: lo <= i < hi ==> Contribution(g, huge, order[i], w) <= each
    ensures Score(g, huge, order, lo, hi, w) <= (hi - lo) * each
    decreases hi - lo
  {
    hide Contribution;
    if lo < hi {
      ScoreWithin(g, huge, order, lo, hi - 1, w, each);
      OneMore(hi - 1 - lo, each);
    }
  }

  lemma ScoreBound(g: Net, huge: nat, order: seq<nat>, lo: nat, hi: nat, w: nat, each: nat)
    requires Simple(g) && AreVertices(g, order) && lo <= hi <= |order| && w < Vertices(g) && HasRow(g.out, w)
    requires forall v :: 0 <= v < Vertices(g) && HasRow(g.inn, v) ==> Degree(g.inn, v) + 2 <= each
    ensures Score(g, huge, order, lo, hi, w) <= (hi - lo) * each
  {
    hide Simple, Contribution, Degree;
    forall i | lo <= i < hi ensures Contribution(g, huge, order[i], w) <= each {
      assert HasRow(g.inn, order[i]);
      ContributionBound(g, huge, order[i], w);
    }
    ScoreWithin(g, huge, order, lo, hi, w, each);
  }

  /** Where the window starts when k vertices have been placed: it holds the last `window` of them, or all. */
  function WindowStart(window: nat, k: nat): (lo: nat)
    ensures if k < window then lo == 0 else lo + window == k
  {
    if k <= window then 0 else k - window
  }

  function Larger(a: nat, b: nat): nat { if a < b then b else a }

  /** The most w has been worth until k vertices were placed: its in-degree, or its best score
      against one of the windows so far. */
  ghost function PeakOf(g: Net, huge: nat, window: nat, order: seq<nat>, k: nat, w: nat): nat
    requires AreVertices(g, order) && k <= |order| && HasRow(g.out, w) && HasRow(g.inn, w)
  {
    if k == 0 then Degree(g.inn, w)
    else Larger(PeakOf(g, huge, window, order, k - 1, w), Score(g, huge, order, WindowStart(window, k), k, w))
  }

  lemma {:induction false} PeakSame(g: Net, huge: nat, window: nat, a: seq<nat>, b: seq<nat>, k: nat, w: nat)
    requires AreVertices(g, a) && AreVertices(g, b) && k <= |a| && k <= |b|
    requires HasRow(g.out, w) && HasRow(g.inn, w) && forall i :: 0 <= i < k ==> a[i] == b[i]
    ensures PeakOf(g, huge, window, a, k, w) == PeakOf(g, huge, window, b, k, w)
  {
    if k > 0 {
      PeakSame(g, huge, window, a, b, k - 1, w);
      ScoreSame(g, huge, a, b, WindowStart(window, k), k, w);
    }
  }

  // ---------- Cancelling ----------

  /** The in-neighbours of the popped vertex whose rows are left alone because the new vertex
      is in them, too. */
  ghost function Shared(g: Net, huge: nat, popv: nat, v: nat): set<nat>
    requires HasRow(g.inn, popv)
  {
    set u | 0 <= u < Vertices(g) && HasRow(g.out, u) && Times(g.inn, popv, u) > 0
            && LightVertex(g, huge, u) && Degree(g.out, u) > 1 && Edge(g, u, v)
  }

  ghost function SourcesOf(g: Net, v: nat): set<nat> {
    set u | 0 <= u < Vertices(g) && HasRow(g.out, u) && Edge(g, u, v)
  }

  /** What popping takes from w when rows of `spared` vertices are not touched. */
  ghost function Partly(g: Net, huge: nat, x: nat, spared: set<nat>, w: nat): nat
    requires HasRow(g.out, x) && HasRow(g.inn, x) && HasRow(g.out, w)
  {
    (if LightVertex(g, huge, x) then Times(g.out, x, w) else 0)
    + (if LightVertex(g, huge, w) then Times(g.inn, x, w) else 0)
    + HotEntries(g.inn.EI, g.inn.VI[x], RowEnd(g.inn, x), Feeders(g, huge, w) - spared)
  }

  /** Leaving out the shared rows on both sides changes nothing. */
  lemma SharedCancel(g: Net, huge: nat, popv: nat, v: nat, w: nat)
    requires Simple(g) && popv < Vertices(g) && v < Vertices(g) && w < Vertices(g)
    ensures HasRow(g.out, popv) && HasRow(g.inn, popv) && HasRow(g.out, v) && HasRow(g.inn, v) && HasRow(g.out, w)
    ensures Contribution(g, huge, popv, w) - Partly(g, huge, popv, SourcesOf(g, v), w)
         == Contribution(g, huge, v, w) - Partly(g, huge, v, Shared(g, huge, popv, v), w)
  {
    EdgeOnce(g, popv, w);
    EdgeOnce(g, v, w);
    EdgeOnce(g, w, v);
    var f, p, m := Feeders(g, huge, w), SourcesOf(g, v), Shared(g, huge, popv, v);
    var EI, lo, hi := g.inn.EI, g.inn.VI[popv], RowEnd(g.inn, popv);
    var lo', hi' := g.inn.VI[v], RowEnd(g.inn, v);
    HotEntriesSplit(EI, lo, hi, f, p);
    HotEntriesSplit(EI, lo', hi', f, m);
    HotEntriesOfStrict(EI, lo, hi, f * p);
    HotEntriesOfStrict(EI, lo', hi', f * m);
    forall u: nat ensures u in Hits(EI, lo, hi, f * p) <==> u in Hits(EI, lo', hi', f * m) {
      if u < Vertices(g) {
        EdgeOnce(g, u, popv);
        EdgeOnce(g, u, v);
      }
    }
    assert Hits(EI, lo, hi, f * p) == Hits(EI, lo', hi', f * m);
  }

  // ---------- Walking through the in-neighbours ----------

  /** What one in-neighbour u brings to w; the row of a spared u is left out. */
  ghost function FromParent(g: Net, huge: nat, u: nat, spared: set<nat>, w: nat): nat
    requires HasRow(g.out, u)
  {
    if LightVertex(g, huge, u) then
      (if u == w then 1 else 0) + (if u in Feeders(g, huge, w) - spared then 1 else 0)
    else 0
  }

  /** What the in-neighbours of x up to index i of inn.EI bring to w. */
  ghost function FromParents(g: Net, huge: nat, x: nat, i: nat, spared: set<nat>, w: nat): nat
    requires HasRow(g.inn, x) && g.inn.VI[x] <= i <= RowEnd(g.inn, x) && HasRow(g.out, w)
  {
    (if LightVertex(g, huge, w) then Occurrences(g.inn.EI, g.inn.VI[x], i, w) else 0)
    + HotEntries(g.inn.EI, g.inn.VI[x], i, Feeders(g, huge, w) - spared)
  }

  lemma FromParentsStep(g: Net, huge: nat, x: nat, i: nat, spared: set<nat>, w: nat)
    requires HasRow(g.inn, x) && g.inn.VI[x] <= i < RowEnd(g.inn, x) && HasRow(g.out, w)
    requires HasRow(g.out, g.inn.EI[i])
    ensures FromParents(g, huge, x, i + 1, spared, w)
         == FromParents(g, huge, x, i, spared, w) + FromParent(g, huge, g.inn.EI[i], spared, w)
  {
  }

  lemma {:induction false} FromParentsGrow(g: Net, huge: nat, x: nat, i: nat, j: nat, spared: set<nat>, w: nat)
    requires HasRow(g.inn, x) && g.inn.VI[x] <= i <= j <= RowEnd(g.inn, x) && HasRow(g.out, w)
    ensures FromParents(g, huge, x, i, spared, w) <= FromParents(g, huge, x, j, spared, w)
    decreases j - i
  {
    if i < j {
      FromParentsGrow(g, huge, x, i, j - 1, spared, w);
    }
  }

  /** The row of a light in-neighbour with another target. */
  lemma RowBrings(g: Net, huge: nat, u: nat, w: nat)
    requires Simple(g) && u < Vertices(g) && w < Vertices(g) && HasRow(g.out, u)
    ensures LightVertex(g, huge, u) && Degree(g.out, u) > 1 ==>
              Times(g.out, u, w) == if u in Feeders(g, huge, w) then 1 else 0
    ensures Degree(g.out, u) <= 1 ==> u !in Feeders(g, huge, w)
  {
    EdgeOnce(g, u, w);
  }
}
