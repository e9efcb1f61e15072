/** The locality score of an ordered graph, and its agreement with the gains of the greedy run. */
module Locality {
  import opened Permutations
  import opened Csr
  import opened GorderSpec
  import opened GorderOutcome
  import opened RowSearch

  /** The entries of s[lo..hi] above u. */
  function Above(s: seq<nat>, lo: nat, hi: nat, u: int): set<nat>
    requires lo <= hi <= |s|
  {
    set i | lo <= i < hi && s[i] > u :: s[i]
  }

  lemma HotNext(s: seq<nat>, lo: nat, i: nat, hot: set<nat>)
    requires lo <= i < |s|
    ensures HotEntries(s, lo, lo, hot) == 0
    ensures HotEntries(s, lo, i + 1, hot) == HotEntries(s, lo, i, hot) + (if s[i] in hot then 1 else 0)
  {
  }

  /** A value that lies between the entries before j and those from j on is not in the second row. */
  lemma Between(s: seq<nat>, lo: nat, j: nat, hi: nat, u: int, x: nat)
    requires lo <= j <= hi <= |s| && Strict(s, lo, hi)
    requires (forall k :: lo <= k < j ==> s[k] < x) && (j < hi ==> x < s[j])
    ensures x !in Above(s, lo, hi, u)
  {
  }

  /** The two-pointer intersection of two strictly ascending rows, above u. */
  method IntersectionSize(s: seq<nat>, lo1: nat, hi1: nat, lo2: nat, hi2: nat, u: int) returns (count: nat)
    requires lo1 <= hi1 <= |s| && Strict(s, lo1, hi1)
    requires lo2 <= hi2 <= |s| && Strict(s, lo2, hi2)
    ensures count == |Hits(s, lo1, hi1, Above(s, lo2, hi2, u))|
  {
    hide HotEntries, Hits;
    ghost var hot := Above(s, lo2, hi2, u);
    var i := LowerBound(s, lo1, hi1, u + 1);
    NoneHot(s, lo1, lo1, i, hot);
    count := 0;
    var j := hi2;
    if i < hi1 {
      HotNext(s, lo1, i, hot);
      j := LowerBound(s, lo2, hi2, s[i]);
    }
    while i < hi1 && j < hi2
      invariant lo1 <= i <= hi1 && lo2 <= j <= hi2
      invariant count == HotEntries(s, lo1, i, hot)
      invariant forall k :: i <= k < hi1 ==> s[k] > u
      invariant i < hi1 ==> forall k :: lo2 <= k < j ==> s[k] < s[i]
      decreases hi1 - i + hi2 - j
    {
      HotNext(s, lo1, i, hot);
      if s[i] < s[j] {
        Between(s, lo2, j, hi2, u, s[i]);
        i := i + 1;
      } else if s[i] > s[j] {
        j := j + 1;
      } else {
        count := count + 1;
        i := i + 1;
        j := j + 1;
      }
    }
    forall k | i <= k < hi1 ensures s[k] !in hot {
      Between(s, lo2, hi2, hi2, u, s[k]);
    }
    NoneHot(s, lo1, i, hi1, hot);
    HotEntriesOfStrict(s, lo1, hi1, hot);
  }

  lemma {:induction false} NoneHot(s: seq<nat>, lo: nat, mid: nat, hi: nat, hot: set<nat>)
    requires lo <= mid <= hi <= |s| && forall k :: mid <= k < hi ==> s[k] !in hot
    ensures HotEntries(s, lo, hi, hot) == HotEntries(s, lo, mid, hot)
    decreases hi - mid
  {
    if mid < hi {
      NoneHot(s, lo, mid, hi - 1, hot);
    }
  }

  // ---------- The score ----------

  ghost function CommonIn(h: Net, i: nat, j: nat): set<nat>
    requires HasRow(h.inn, i) && HasRow(h.inn, j)
  {
    set u | 0 <= u < Vertices(h) && Times(h.inn, i, u) > 0 && Times(h.inn, j, u) > 0
  }

  /** What two vertices contribute when they stand close together. */
  ghost function Pair(h: Net, i: nat, j: nat): nat
    requires HasRow(h.inn, i) && HasRow(h.inn, j)
  {
    |CommonIn(h, i, j)| + Times(h.inn, i, j) + Times(h.inn, j, i)
  }

  /** Vertex i paired with each of j..i-1. */
  ghost function Nearby(h: Net, i: nat, j: nat): nat
    requires Simple(h) && j <= i < Vertices(h)
    decreases i - j
  {
    if j == i then 0
    else
      assert HasRow(h.inn, i) && HasRow(h.inn, j);
      Pair(h, i, j) + Nearby(h, i, j + 1)
  }

  lemma NearbyNext(h: Net, i: nat, j: nat)
    requires Simple(h) && j <= i < Vertices(h)
    ensures HasRow(h.inn, i) && HasRow(h.inn, j)
    ensures j == i ==> Nearby(h, i, j) == 0
    ensures j < i ==> Nearby(h, i, j) == Pair(h, i, j) + Nearby(h, i, j + 1)
  {
    assert HasRow(h.inn, i) && HasRow(h.inn, j);
  }

  /** The pairs of vertices at most `window` positions apart, among the first n. */
  ghost function Proximity(h: Net, window: nat, n: nat): nat
    requires Simple(h) && n <= Vertices(h)
  {
    if n == 0 then 0 else Proximity(h, window, n - 1) + Nearby(h, n - 1, WindowStart(window, n - 1))
  }

  /** One pair, as the program adds it up. */
  method PairScore(h: Net, i: nat, j: nat) returns (sum: nat)
    requires Simple(h) && i < Vertices(h) && j < Vertices(h)
    ensures HasRow(h.inn, i) && HasRow(h.inn, j) && sum == Pair(h, i, j)
  {
    assert HasRow(h.inn, i) && HasRow(h.inn, j);
    var lo1, hi1, lo2, hi2 := h.inn.VI[i], RowEnd(h.inn, i), h.inn.VI[j], RowEnd(h.inn, j);
    sum := IntersectionSize(h.inn.EI, lo1, hi1, lo2, hi2, -1);
    assert Hits(h.inn.EI, lo1, hi1, Above(h.inn.EI, lo2, hi2, -1)) == CommonIn(h, i, j) by {
      forall x: nat ensures x in Hits(h.inn.EI, lo1, hi1, Above(h.inn.EI, lo2, hi2, -1)) <==> x in CommonIn(h, i, j) {
        OccursIff(h.inn.EI, lo1, hi1, x);
        OccursIff(h.inn.EI, lo2, hi2, x);
      }
    }
    StrictOnce(h.inn.EI, lo1, hi1, j);
    StrictOnce(h.inn.EI, lo2, hi2, i);
    var found := BinarySearch(h.inn.EI, lo1, hi1, j);
    if found {
      sum := sum + 1;
    }
    found := BinarySearch(h.inn.EI, lo2, hi2, i);
    if found {
      sum := sum + 1;
    }
  }

  /** Vertex i against the w vertices before it, the nearest first. */
  method NearbyScore(h: Net, i: nat, w: nat) returns (sum: nat)
    requires Simple(h) && i < Vertices(h)
    ensures sum == Nearby(h, i, WindowStart(w, i))
  {
    hide Simple, Pair, Nearby;
    sum := 0;
    var j: int := i - 1;
    NearbyNext(h, i, i);
    while j >= i - w && j >= 0
      invariant WindowStart(w, i) - 1 <= j < i
      invariant sum == Nearby(h, i, j + 1)
    {
      var pair := PairScore(h, i, j);
      NearbyNext(h, i, j);
      sum := sum + pair;
      j := j - 1;
    }
  }

  method LocalityScore(h: Net, w: nat) returns (sum: nat)
    requires Simple(h)
    ensures sum == Proximity(h, w, Vertices(h))
  {
    sum := 0;
    for i := 0 to Vertices(h)
      invariant sum == Proximity(h, w, i)
    {
      var nearby := NearbyScore(h, i, w);
      sum := sum + nearby;
    }
  }

  // ---------- The greedy gains add up to the score ----------

  /** A renaming does not change the size of a set. */
  lemma {:induction false} ImageSize(a: set<nat>, f: seq<nat>)
    requires Distinct(f) && forall u :: u in a ==> u < |f|
    ensures |set u | u in a :: f[u]| == |a|
    decreases |a|
  {
    if a != {} {
      var x :| x in a;
      ImageSize(a - {x}, f);
      assert (set u | u in a :: f[u]) == (set u | u in a - {x} :: f[u]) + {f[x]};
    }
  }

  ghost predicate AllLight(g: Net, huge: nat) {
    forall v {:trigger HasRow(g.out, v)} :: 0 <= v < Vertices(g) ==> HasRow(g.out, v) && LightVertex(g, huge, v)
  }

  /** What x brings to w in g is what their positions bring to each other in the reordered graph. */
  lemma PairOfPositions(g: Net, h: Net, huge: nat, f: seq<nat>, x: nat, w: nat)
    requires Simple(g) && Simple(h) && Relabelled(g.out, h.out, f) && x < Vertices(g) && w < Vertices(g) && x != w
    requires AllLight(g, huge)
    ensures HasRow(g.out, x) && HasRow(g.inn, x) && HasRow(g.out, w)
    ensures HasRow(h.inn, f[w]) && HasRow(h.inn, f[x])
    ensures Contribution(g, huge, x, w) == Pair(h, f[w], f[x])
  {
    ContributionMeaning(g, huge, x, w);
    EdgeOnce(g, x, w);
    EdgeOnce(g, w, x);
    EdgeOnce(h, f[x], f[w]);
    EdgeOnce(h, f[w], f[x]);
    CommonAreImages(g, h, huge, f, x, w);
    ImageSize(CommonSources(g, huge, x, w), f);
  }

  lemma CommonAreImages(g: Net, h: Net, huge: nat, f: seq<nat>, x: nat, w: nat)
    requires Simple(g) && Simple(h) && Relabelled(g.out, h.out, f) && x < Vertices(g) && w < Vertices(g)
    requires AllLight(g, huge)
    ensures HasRow(h.inn, f[w]) && HasRow(h.inn, f[x])
    ensures CommonIn(h, f[w], f[x]) == set u | u in CommonSources(g, huge, x, w) :: f[u]
  {
    assert HasRow(h.inn, f[w]) && HasRow(h.inn, f[x]);
    var a := CommonSources(g, huge, x, w);
    forall y: nat ensures y in CommonIn(h, f[w], f[x]) <==> exists u :: u in a && f[u] == y {
      if y < Vertices(g) {
        Onto(f, Vertices(g), y);
        var u :| 0 <= u < |f| && f[u] == y;
        assert HasRow(g.out, u);
        EdgeOnce(h, y, f[w]);
        EdgeOnce(h, y, f[x]);
      }
    }
  }

  /** Two placed vertices bring each other what their positions do. */
  ghost predicate PairsAgree(g: Net, h: Net, huge: nat, order: seq<nat>) {
    && AreVertices(g, order) && Simple(h) && |order| == Vertices(h)
    && forall j, k :: 0 <= j < k < |order| ==>
         HasRow(h.inn, k) && HasRow(h.inn, j) && Contribution(g, huge, order[j], order[k]) == Pair(h, k, j)
  }

  lemma PositionsAgree(g: Net, h: Net, huge: nat, f: seq<nat>, order: seq<nat>)
    requires Simple(g) && Simple(h) && Relabelled(g.out, h.out, f)
    requires Inverse(f, order, Vertices(g)) && AllLight(g, huge)
    requires AreVertices(g, order)
    ensures PairsAgree(g, h, huge, order)
  {
    forall j, k | 0 <= j < k < |order|
      ensures HasRow(h.inn, k) && HasRow(h.inn, j) && Contribution(g, huge, order[j], order[k]) == Pair(h, k, j)
    {
      assert f[order[j]] == j && f[order[k]] == k;
      PairOfPositions(g, h, huge, f, order[j], order[k]);
    }
  }

  lemma PairAgrees(g: Net, h: Net, huge: nat, order: seq<nat>, j: nat, k: nat)
    requires PairsAgree(g, h, huge, order) && j <= k < |order|
    ensures AreVertices(g, order) && Simple(h) && |order| == Vertices(h)
    ensures HasRow(g.out, order[k]) && HasRow(g.out, order[j]) && HasRow(g.inn, order[j])
    ensures HasRow(h.inn, k) && HasRow(h.inn, j)
    ensures j < k ==> Contribution(g, huge, order[j], order[k]) == Pair(h, k, j)
  {
    assert HasRow(h.inn, k) && HasRow(h.inn, j);
  }

  /** The score of order[k] against a window is the sum over the pairs in it. */
  lemma {:induction false} WindowOfPositions(g: Net, h: Net, huge: nat, order: seq<nat>, lo: nat, k: nat)
    requires PairsAgree(g, h, huge, order) && lo <= k < |order|
    ensures Score(g, huge, order, lo, k, order[k]) == Nearby(h, k, lo)
    decreases k - lo
  {
    hide PairsAgree, Simple, Contribution, Pair, Nearby;
    PairAgrees(g, h, huge, order, lo, k);
    NearbyNext(h, k, lo);
    if lo < k {
      WindowOfPositions(g, h, huge, order, lo + 1, k);
      ScoreFront(g, huge, order, lo, k, order[k]);
    }
  }

  lemma {:induction false} NearbyAddsUp(h: Net, window: nat, gains: seq<int>, k: nat)
    requires Simple(h) && k <= |gains| <= Vertices(h)
    requires forall i :: 0 <= i < |gains| ==> gains[i] == Nearby(h, i, WindowStart(window, i))
    ensures Sum(gains[..k]) == Proximity(h, window, k)
  {
    hide Simple, Nearby;
    if k > 0 {
      NearbyAddsUp(h, window, gains, k - 1);
      assert gains[..k][..k - 1] == gains[..k - 1];
    }
  }

  lemma GainsAreScores(g: Net, huge: nat, window: nat, order: seq<nat>, gains: seq<int>)
    requires NearGreedy(g, huge, window, [], order, gains)
    ensures |order| == |gains|
    ensures forall i :: 0 <= i < |order| ==>
              HasRow(g.out, order[i]) && gains[i] == Score(g, huge, order, WindowStart(window, i), i, order[i])
  {
  }

  lemma PairsAddUp(g: Net, h: Net, huge: nat, window: nat, order: seq<nat>, gains: seq<int>)
    requires PairsAgree(g, h, huge, order) && |gains| == |order| == Vertices(h)
    requires forall i :: 0 <= i < |order| ==>
               HasRow(g.out, order[i]) && gains[i] == Score(g, huge, order, WindowStart(window, i), i, order[i])
    ensures Sum(gains[..|order|]) == Proximity(h, window, |order|)
  {
    assert Simple(h) && AreVertices(g, order);
    hide PairsAgree, Simple;
    forall i | 0 <= i < |order| ensures gains[i] == Nearby(h, i, WindowStart(window, i)) {
      WindowOfPositions(g, h, huge, order, WindowStart(window, i), i);
    }
    NearbyAddsUp(h, window, gains, |order|);
  }

  /** When no vertex is skipped, the scores of the vertices at the moment they are extracted add up to
      the locality score of the reordered graph. */
  lemma GainsAreLocality(g: Net, h: Net, huge: nat, window: nat, retorder: seq<nat>, order: seq<nat>,
                         gains: seq<int>)
    requires Simple(g) && Simple(h) && Relabelled(g.out, h.out, retorder)
    requires AllLight(g, huge)
    requires Inverse(retorder, order, Vertices(g))
    requires NearGreedy(g, huge, window, [], order, gains)
    ensures Sum(gains) == Proximity(h, window, Vertices(h))
  {
    GainsAreScores(g, huge, window, order, gains);
    assert gains[..|order|] == gains;
    PositionsAgree(g, h, huge, retorder, order);
    PairsAddUp(g, h, huge, window, order, gains);
  }

  lemma EmptyOrNot(s: seq<nat>)
    ensures s == [] || exists v: nat :: v in s
  {
    assert s == [] || s[0] in s;
  }

  /** This is what a run returns when no vertex is isolated. */
  lemma RunWithoutIsolated(g: Net, huge: nat, window: nat, retorder: seq<nat>, order: seq<nat>,
                           gains: seq<int>)
    requires Simple(g) && order != []
    requires forall v: nat :: 0 < v < Vertices(g) && HasRow(g.out, v) && HasRow(g.inn, v) ==> !Isolated(g, v)
    requires Inverse(retorder, Spliced(order, Zeros(g, Vertices(g))), Vertices(g))
    requires NearGreedy(g, huge, window, Zeros(g, Vertices(g)), order, gains)
    ensures Inverse(retorder, order, Vertices(g)) && NearGreedy(g, huge, window, [], order, gains)
  {
    var zero := Zeros(g, Vertices(g));
    EmptyOrNot(zero);
    SplicedNothing(order);
  }
}
