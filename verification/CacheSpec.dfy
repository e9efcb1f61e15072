/** What the cache-model reordering promises, stated on the graph alone. */
module CacheSpec {
  import opened Csr

  /** How many entries of row v are in `hot`. */
  function Cached(g: Csr, v: nat, hot: set<nat>): (k: nat)
    requires HasRow(g, v)
    ensures k <= Degree(g, v)
  {
    HotEntries(g.EI, g.VI[v], RowEnd(g, v), hot)
  }

  /** Everything the placement loop reads but never writes. */
  datatype Problem = Problem(
    parents: Csr,      // row c: the parents of node c
    children: Csr,     // its transpose
    outDeg: seq<nat>,  // number of children of each parent
    thresh: nat,       // parents with more children are ignored
    cacheSize: nat,
    guard: nat,        // how many positions the window may always keep
    tail: nat)         // how many last positions are filled without choosing

  ghost predicate Sensible(q: Problem) {
    && IsTranspose(q.children, q.parents)
    && |q.outDeg| == q.children.numVertex
    && forall p {:trigger q.outDeg[p]} :: 0 <= p < |q.outDeg| ==>
         HasRow(q.children, p) && q.outDeg[p] == Degree(q.children, p)
  }

  function Nodes(q: Problem): nat { q.parents.numVertex }

  predicate Light(q: Problem, p: nat)
    requires p < |q.outDeg|
  {
    q.outDeg[p] <= q.thresh
  }

  function LightParents(q: Problem): set<nat> {
    set p | 0 <= p < |q.outDeg| && Light(q, p)
  }

  /** The most a node can ever gain from the cache. */
  ghost function LightDeg(q: Problem, c: nat): nat
    requires Sensible(q) && c < Nodes(q)
  {
    Cached(q.parents, c, LightParents(q))
  }

  /** Nodes with more parents than the cache has room for are placed without loading anything. */
  predicate Fits(q: Problem, c: nat)
    requires HasRow(q.parents, c)
  {
    Degree(q.parents, c) <= q.cacheSize
  }

  ghost predicate AreNodes(q: Problem, nodes: seq<nat>) {
    forall i :: 0 <= i < |nodes| ==> HasRow(q.parents, nodes[i])
  }

  /** How often p was loaded by the nodes of a window. */
  function Loads(q: Problem, nodes: seq<nat>, lo: nat, hi: nat, p: nat): nat
    requires AreNodes(q, nodes) && lo <= hi <= |nodes|
    decreases hi - lo
  {
    if lo == hi then 0
    else
      var c := nodes[hi - 1];
      Loads(q, nodes, lo, hi - 1, p) + (if Fits(q, c) then Times(q.parents, c, p) else 0)
  }

  /** A window may also be taken apart from its old end. */
  lemma {:induction false} LoadsFront(q: Problem, nodes: seq<nat>, lo: nat, hi: nat, p: nat)
    requires AreNodes(q, nodes) && lo < hi <= |nodes|
    ensures Loads(q, nodes, lo, hi, p)
         == (if Fits(q, nodes[lo]) then Times(q.parents, nodes[lo], p) else 0) + Loads(q, nodes, lo + 1, hi, p)
    decreases hi - lo
  {
    if lo + 1 < hi {
      LoadsFront(q, nodes, lo, hi - 1, p);
    }
  }

  /** Only the nodes inside the window matter. */
  lemma {:induction false} LoadsSame(q: Problem, a: seq<nat>, b: seq<nat>, lo: nat, hi: nat, p: nat)
    requires AreNodes(q, a) && AreNodes(q, b) && lo <= hi <= |a| && hi <= |b|
    requires forall i :: lo <= i < hi ==> a[i] == b[i]
    ensures Loads(q, a, lo, hi, p) == Loads(q, b, lo, hi, p)
    decreases hi - lo
  {
    if lo < hi {
      LoadsSame(q, a, b, lo, hi - 1, p);
    }
  }

  /** The parents that count as cached while nodes[lo..hi] is the window. */
  ghost function HotSet(q: Problem, nodes: seq<nat>, lo: nat, hi: nat): set<nat>
    requires AreNodes(q, nodes) && lo <= hi <= |nodes|
  {
    set p | p in LightParents(q) && Loads(q, nodes, lo, hi, p) > 0
  }

  lemma HotSetSame(q: Problem, a: seq<nat>, b: seq<nat>, lo: nat, hi: nat)
    requires AreNodes(q, a) && AreNodes(q, b) && lo <= hi <= |a| && hi <= |b|
    requires forall i :: lo <= i < hi ==> a[i] == b[i]
    ensures HotSet(q, a, lo, hi) == HotSet(q, b, lo, hi)
  {
    forall p ensures p in HotSet(q, a, lo, hi) <==> p in HotSet(q, b, lo, hi) {
      if p in LightParents(q) {
        LoadsSame(q, a, b, lo, hi, p);
      }
    }
  }

  /** Placing v while `hot` is cached is best: no node outside placed[..k] has more cached parents. */
  ghost predicate Best(q: Problem, hot: set<nat>, placed: seq<nat>, k: nat, v: nat)
    requires k <= |placed| && HasRow(q.parents, v)
  {
    forall c: nat :: HasRow(q.parents, c) && c !in placed[..k] ==>
      Cached(q.parents, c, hot) <= Cached(q.parents, v, hot)
  }

  /** The cache has room for what v still misses. */
  ghost predicate HasRoom(q: Problem, hot: set<nat>, v: nat)
    requires HasRow(q.parents, v)
  {
    |hot| + Degree(q.parents, v) - Cached(q.parents, v, hot) <= q.cacheSize
  }

  /** Where the window stood before step k. */
  function Before(starts: seq<nat>, k: nat): nat
    requires k <= |starts|
  {
    if k == 0 then 0 else starts[k - 1]
  }

  /** Why a window that starts at s was given up in step k: the node that was best then did not have room
      beside it, although it fits into the cache. */
  ghost predicate Crowded(q: Problem, placed: seq<nat>, k: nat, s: nat)
    requires AreNodes(q, placed) && s <= k <= |placed|
  {
    var hot := HotSet(q, placed, s, k);
    exists u: nat ::
      && HasRow(q.parents, u) && u !in placed[..k] && Fits(q, u) && Best(q, hot, placed, k, u)
      && !HasRoom(q, hot, u)
  }

  function Max(a: nat, b: nat): nat { if a < b then b else a }

  /** No window starts behind the step it is for. */
  ghost predicate NotAhead(starts: seq<nat>) {
    forall k :: 0 <= k < |starts| ==> starts[k] <= k
  }

  /** The most parents that u has had in the cache just after one of the first k placements. */
  ghost function PeakCached(q: Problem, placed: seq<nat>, starts: seq<nat>, u: nat, k: nat): (peak: nat)
    requires AreNodes(q, placed) && NotAhead(starts) && k <= |placed| && k <= |starts| && HasRow(q.parents, u)
    ensures peak <= Degree(q.parents, u)
  {
    if k == 0 then 0
    else Max(PeakCached(q, placed, starts, u, k - 1), Cached(q.parents, u, HotSet(q, placed, starts[k - 1], k)))
  }

  /** What the queued increases still say about u when `hot` is cached: no unplaced node has more cached
      parents than u once had. */
  ghost predicate Foremost(q: Problem, hot: set<nat>, placed: seq<nat>, starts: seq<nat>, k: nat, u: nat)
    requires AreNodes(q, placed) && NotAhead(starts) && k <= |placed| && k <= |starts| && HasRow(q.parents, u)
  {
    && u !in placed[..k]
    && forall c: nat :: HasRow(q.parents, c) && c !in placed[..k] ==>
         Cached(q.parents, c, hot) <= PeakCached(q, placed, starts, u, k)
  }

  /** What the window holds before step k. */
  ghost function HeldBefore(q: Problem, placed: seq<nat>, starts: seq<nat>, k: nat): set<nat>
    requires AreNodes(q, placed) && NotAhead(starts) && k <= |placed| && k <= |starts|
  {
    HotSet(q, placed, Before(starts, k), k)
  }

  /** Why the window was moved in step k: a foremost node had no room beside it ... */
  ghost predicate Tight(q: Problem, placed: seq<nat>, starts: seq<nat>, k: nat)
    requires AreNodes(q, placed) && NotAhead(starts) && k <= |placed| && k <= |starts|
  {
    var hot := HeldBefore(q, placed, starts, k);
    exists u: nat :: HasRow(q.parents, u) && Foremost(q, hot, placed, starts, k, u) && !HasRoom(q, hot, u)
  }

  /** ... and why it was not: it would have had room for a foremost node, had the cache kept as many parents
      of that node as it ever held. */
  ghost predicate HadRoom(q: Problem, placed: seq<nat>, starts: seq<nat>, k: nat)
    requires AreNodes(q, placed) && NotAhead(starts) && k <= |placed| && k <= |starts|
  {
    var hot := HeldBefore(q, placed, starts, k);
    exists u: nat ::
      && HasRow(q.parents, u) && Foremost(q, hot, placed, starts, k, u)
      && |hot| + Degree(q.parents, u) - PeakCached(q, placed, starts, u, k) <= q.cacheSize
  }

  /** In step k the window may go forward to s: past its old start only if it was tight, past every later
      start only if that window was crowded, and never beyond the last `guard` nodes. */
  ghost predicate MayMove(q: Problem, placed: seq<nat>, starts: seq<nat>, k: nat, s: nat)
    requires AreNodes(q, placed) && NotAhead(starts) && k <= |placed| && k <= |starts| && s <= k
  {
    Before(starts, k) < s ==>
      && Tight(q, placed, starts, k)
      && (forall t :: Before(starts, k) < t < s ==> Crowded(q, placed, k, t))
      && (q.guard <= k ==> s + q.guard <= k)
  }

  /** One step of the eager greedy order. placed[k] is chosen while placed[starts[k]..k] is the
      window and is best then. When the window has moved for this step, the cache has room for placed[k];
      when it has not, it would have had room for a foremost node. In both cases placed[k] may fit in no
      cache instead, or the window be down to `guard` nodes. */
  ghost predicate GreedyAt(q: Problem, placed: seq<nat>, starts: seq<nat>, k: nat)
    requires AreNodes(q, placed) && NotAhead(starts) && k < |placed| == |starts|
  {
    && Before(starts, k) <= starts[k] && MayMove(q, placed, starts, k, starts[k])
    && var hot := HotSet(q, placed, starts[k], k);
       && Best(q, hot, placed, k, placed[k])
       && (|| !Fits(q, placed[k]) || k - starts[k] <= q.guard <= k
           || if Before(starts, k) < starts[k] then HasRoom(q, hot, placed[k])
              else HadRoom(q, placed, starts, k))
  }

  ghost predicate Greedy(q: Problem, placed: seq<nat>, starts: seq<nat>) {
    && |placed| == |starts|
    && AreNodes(q, placed) && NotAhead(starts)
    && forall k :: 0 <= k < |placed| ==> GreedyAt(q, placed, starts, k)
  }

  /** So whenever a node is placed that some cache could hold, and the window has not been cut down to
      `guard` nodes, what the window holds fits into the cache. */
  lemma WindowFits(q: Problem, placed: seq<nat>, starts: seq<nat>, k: nat)
    requires Greedy(q, placed, starts) && k < |placed|
    ensures
      || |HotSet(q, placed, starts[k], k)| <= q.cacheSize
      || !Fits(q, placed[k]) || k - starts[k] <= q.guard <= k
  {
    hide PeakCached, MayMove, HotSet, Cached, Degree;
    assert GreedyAt(q, placed, starts, k);
  }

  lemma CrowdedSame(q: Problem, a: seq<nat>, b: seq<nat>, k: nat, s: nat)
    requires AreNodes(q, a) && AreNodes(q, b) && s <= k <= |a| && k <= |b| && a[..k] == b[..k]
    requires Crowded(q, a, k, s)
    ensures Crowded(q, b, k, s)
  {
    assert forall i :: 0 <= i < k ==> a[..k][i] == a[i] && b[..k][i] == b[i];
    HotSetSame(q, a, b, s, k);
  }

  lemma {:induction false} PeakCachedSame(q: Problem, placed: seq<nat>, starts: seq<nat>,
                                          placed': seq<nat>, starts': seq<nat>, u: nat, k: nat)
    requires AreNodes(q, placed) && AreNodes(q, placed') && NotAhead(starts) && NotAhead(starts')
    requires placed <= placed' && starts <= starts' && k <= |placed| && k <= |starts| && HasRow(q.parents, u)
    ensures PeakCached(q, placed', starts', u, k) == PeakCached(q, placed, starts, u, k)
  {
    if k > 0 {
      PeakCachedSame(q, placed, starts, placed', starts', u, k - 1);
      HotSetSame(q, placed, placed', starts[k - 1], k);
    }
  }

  /** One more placement adds the window it leaves. */
  lemma PeakGrows(q: Problem, placed: seq<nat>, starts: seq<nat>, v: nat, start: nat, u: nat)
    requires AreNodes(q, placed) && AreNodes(q, placed + [v]) && NotAhead(starts) && start <= |placed| == |starts|
    requires HasRow(q.parents, u)
    ensures NotAhead(starts + [start])
    ensures PeakCached(q, placed + [v], starts + [start], u, |placed| + 1)
         == Max(PeakCached(q, placed, starts, u, |placed|),
                Cached(q.parents, u, HotSet(q, placed + [v], start, |placed| + 1)))
  {
    hide HotSet, Cached, HasRow, AreNodes;
    PeakCachedSame(q, placed, starts, placed + [v], starts + [start], u, |placed|);
  }

  /** Later steps change nothing about who was foremost ... */
  lemma ForemostSame(q: Problem, placed: seq<nat>, starts: seq<nat>, placed': seq<nat>, starts': seq<nat>,
                     k: nat, u: nat)
    requires AreNodes(q, placed) && AreNodes(q, placed') && NotAhead(starts) && NotAhead(starts')
    requires placed <= placed' && starts <= starts' && k <= |placed| && k <= |starts| && HasRow(q.parents, u)
    ensures HeldBefore(q, placed', starts', k) == HeldBefore(q, placed, starts, k)
    ensures
      var hot := HeldBefore(q, placed, starts, k);
      Foremost(q, hot, placed', starts', k, u) <==> Foremost(q, hot, placed, starts, k, u)
  {
    hide PeakCached, HotSet, Cached;
    PeakCachedSame(q, placed, starts, placed', starts', u, k);
    HotSetSame(q, placed, placed', Before(starts, k), k);
    assert placed'[..k] == placed[..k];
  }

  /** ... or about why the window moved or stayed. */
  lemma LookSame(q: Problem, placed: seq<nat>, starts: seq<nat>, placed': seq<nat>, starts': seq<nat>, k: nat)
    requires AreNodes(q, placed) && AreNodes(q, placed') && NotAhead(starts) && NotAhead(starts')
    requires placed <= placed' && starts <= starts' && k <= |placed| && k <= |starts|
    ensures Tight(q, placed, starts, k) ==> Tight(q, placed', starts', k)
    ensures HadRoom(q, placed, starts, k) ==> HadRoom(q, placed', starts', k)
  {
    hide PeakCached, HotSet, Cached, HasRoom, Foremost, HeldBefore;
    var hot := HeldBefore(q, placed, starts, k);
    forall u: nat | HasRow(q.parents, u) && Foremost(q, hot, placed, starts, k, u)
      ensures HeldBefore(q, placed', starts', k) == hot && Foremost(q, hot, placed', starts', k, u)
      ensures PeakCached(q, placed', starts', u, k) == PeakCached(q, placed, starts, u, k)
    {
      ForemostSame(q, placed, starts, placed', starts', k, u);
      PeakCachedSame(q, placed, starts, placed', starts', u, k);
    }
  }

  lemma MayMoveSame(q: Problem, placed: seq<nat>, starts: seq<nat>, placed': seq<nat>, starts': seq<nat>,
                    k: nat, s: nat)
    requires AreNodes(q, placed) && AreNodes(q, placed') && NotAhead(starts) && NotAhead(starts')
    requires placed <= placed' && starts <= starts' && k <= |placed| && k <= |starts| && s <= k
    requires MayMove(q, placed, starts, k, s)
    ensures MayMove(q, placed', starts', k, s)
  {
    hide Tight, Crowded, HadRoom;
    LookSame(q, placed, starts, placed', starts', k);
    assert placed'[..k] == placed[..k];
    if Before(starts, k) < s {
      forall t | Before(starts', k) < t < s ensures Crowded(q, placed', k, t) {
        CrowdedSame(q, placed, placed', k, t);
      }
    }
  }

  lemma GreedyAtSame(q: Problem, placed: seq<nat>, starts: seq<nat>, placed': seq<nat>, starts': seq<nat>, k: nat)
    requires AreNodes(q, placed) && AreNodes(q, placed') && |placed| == |starts| && |placed'| == |starts'|
    requires NotAhead(starts) && NotAhead(starts')
    requires k < |placed| && placed <= placed' && starts <= starts' && GreedyAt(q, placed, starts, k)
    ensures GreedyAt(q, placed', starts', k)
  {
    hide HadRoom, MayMove, HotSet, Cached, Degree;
    assert placed'[..k] == placed[..k];
    HotSetSame(q, placed, placed', starts[k], k);
    MayMoveSame(q, placed, starts, placed', starts', k, starts[k]);
    LookSame(q, placed, starts, placed', starts', k);
  }

  /** One more placement extends a greedy run. */
  lemma GreedyExtend(q: Problem, placed: seq<nat>, starts: seq<nat>, v: nat, start: nat)
    requires Greedy(q, placed, starts) && HasRow(q.parents, v)
    requires Before(starts, |starts|) <= start <= |placed| && MayMove(q, placed, starts, |placed|, start)
    requires
      var hot := HotSet(q, placed, start, |placed|);
      && Best(q, hot, placed, |placed|, v)
      && (|| !Fits(q, v) || |placed| - start <= q.guard <= |placed|
          || if Before(starts, |starts|) < start then HasRoom(q, hot, v) else HadRoom(q, placed, starts, |placed|))
    ensures Greedy(q, placed + [v], starts + [start])
  {
    hide HadRoom, MayMove, HotSet, Cached, Degree;
    var placed', starts', n := placed + [v], starts + [start], |placed|;
    forall k | 0 <= k < n ensures GreedyAt(q, placed', starts', k) {
      GreedyAtSame(q, placed, starts, placed', starts', k);
    }
    assert placed'[..n] == placed[..n];
    HotSetSame(q, placed, placed', start, n);
    MayMoveSame(q, placed, starts, placed', starts', n, start);
    LookSame(q, placed, starts, placed', starts', n);
  }

  /** Behind the greedy part the nodes stand by what they once had cached: none has more cached parents than
      one further ahead once had. */
  ghost predicate Trailing(q: Problem, order: seq<nat>, starts: seq<nat>) {
    && AreNodes(q, order) && NotAhead(starts) && |starts| <= |order|
    && var hot := HeldBefore(q, order, starts, |starts|);
       forall i, j :: |starts| <= i < j < |order| ==>
         Cached(q.parents, order[j], hot) <= PeakCached(q, order, starts, order[i], |starts|)
  }

  /** Who is cached while nodes[lo..hi] is the window: the parents with at most `thresh` children of those of
      its nodes that have at most cacheSize parents. */
  lemma HotSetMeans(q: Problem, nodes: seq<nat>, lo: nat, hi: nat, p: nat)
    requires AreNodes(q, nodes) && lo <= hi <= |nodes|
    ensures p in HotSet(q, nodes, lo, hi) <==>
            && p < |q.outDeg| && q.outDeg[p] <= q.thresh
            && exists i :: lo <= i < hi
                           && Degree(q.parents, nodes[i]) <= q.cacheSize && Times(q.parents, nodes[i], p) > 0
  {
    LoadsMean(q, nodes, lo, hi, p);
  }

  lemma {:induction false} LoadsMean(q: Problem, nodes: seq<nat>, lo: nat, hi: nat, p: nat)
    requires AreNodes(q, nodes) && lo <= hi <= |nodes|
    ensures Loads(q, nodes, lo, hi, p) > 0 <==>
            exists i :: lo <= i < hi && Degree(q.parents, nodes[i]) <= q.cacheSize && Times(q.parents, nodes[i], p) > 0
    decreases hi - lo
  {
    if lo < hi {
      LoadsMean(q, nodes, lo, hi - 1, p);
    }
  }

  // ---------- In which order prices fall ----------

  /** The children of the parents that the first entries of row c bring into a cache that holds `hot`: row after
      row in the order of c's parents, and a parent that is ignored or cached already is passed over. */
  ghost function Discounted(q: Problem, c: nat, hot: set<nat>, i: nat): seq<nat>
    requires Sensible(q) && HasRow(q.parents, c) && q.parents.VI[c] <= i <= RowEnd(q.parents, c)
    decreases i
  {
    if i == q.parents.VI[c] then []
    else
      var p := q.parents.EI[i - 1];
      Discounted(q, c, hot, i - 1)
        + (if Light(q, p) && p !in hot && Occurrences(q.parents.EI, q.parents.VI[c], i - 1, p) == 0
           then Row(q.children, p) else [])
  }

  lemma DiscountedNone(q: Problem, c: nat, hot: set<nat>)
    requires Sensible(q) && HasRow(q.parents, c)
    ensures Discounted(q, c, hot, q.parents.VI[c]) == []
  {
  }

  /** The next entry of the row brings something exactly when it is light and not cached by then. */
  lemma DiscountedNext(q: Problem, c: nat, hot: set<nat>, i: nat, cached: bool)
    requires Sensible(q) && HasRow(q.parents, c) && q.parents.VI[c] <= i < RowEnd(q.parents, c)
    requires
      var p := q.parents.EI[i];
      p < |q.outDeg| && Light(q, p) ==>
        (cached <==> p in hot || Occurrences(q.parents.EI, q.parents.VI[c], i, p) > 0)
    ensures q.parents.EI[i] < |q.outDeg| && HasRow(q.children, q.parents.EI[i])
    ensures
      var p := q.parents.EI[i];
      Discounted(q, c, hot, i + 1)
        == Discounted(q, c, hot, i) + if Light(q, p) && !cached then Row(q.children, p) else []
  {
    hide Row, Degree;
  }

  /** Whose price falls in step k of a run, in order. */
  ghost function DiscountedAt(q: Problem, placed: seq<nat>, starts: seq<nat>, k: nat): seq<nat>
    requires Sensible(q) && AreNodes(q, placed) && NotAhead(starts) && k < |placed| && k < |starts|
  {
    if Fits(q, placed[k]) then
      Discounted(q, placed[k], HotSet(q, placed, starts[k], k), RowEnd(q.parents, placed[k]))
    else []
  }

  lemma DiscountedLast(q: Problem, placed: seq<nat>, starts: seq<nat>, v: nat, start: nat)
    requires Sensible(q) && AreNodes(q, placed) && AreNodes(q, placed + [v]) && HasRow(q.parents, v)
    requires NotAhead(starts + [start]) && |starts| == |placed| && start <= |placed|
    ensures DiscountedAt(q, placed + [v], starts + [start], |placed|)
         == if Fits(q, v) then Discounted(q, v, HotSet(q, placed, start, |placed|), RowEnd(q.parents, v)) else []
  {
    hide Discounted, HotSet, Degree, Sensible;
    HotSetSame(q, placed, placed + [v], start, |placed|);
  }

  ghost function DiscountedTo(q: Problem, placed: seq<nat>, starts: seq<nat>, k: nat): seq<nat>
    requires Sensible(q) && AreNodes(q, placed) && NotAhead(starts) && k <= |placed| && k <= |starts|
  {
    if k == 0 then [] else DiscountedTo(q, placed, starts, k - 1) + DiscountedAt(q, placed, starts, k - 1)
  }

  lemma {:induction false} DiscountedSame(q: Problem, placed: seq<nat>, starts: seq<nat>,
                                          placed': seq<nat>, starts': seq<nat>, k: nat)
    requires Sensible(q) && AreNodes(q, placed) && AreNodes(q, placed') && NotAhead(starts) && NotAhead(starts')
    requires placed <= placed' && starts <= starts' && k <= |placed| && k <= |starts|
    ensures DiscountedTo(q, placed', starts', k) == DiscountedTo(q, placed, starts, k)
  {
    hide Discounted, Sensible, HotSet;
    if k > 0 {
      DiscountedSame(q, placed, starts, placed', starts', k - 1);
      HotSetSame(q, placed, placed', starts[k - 1], k - 1);
    }
  }

  lemma DiscountedMore(q: Problem, placed: seq<nat>, starts: seq<nat>, v: nat, start: nat)
    requires Sensible(q) && AreNodes(q, placed) && NotAhead(starts) && |placed| == |starts|
    requires AreNodes(q, placed + [v]) && NotAhead(starts + [start])
    ensures DiscountedTo(q, placed + [v], starts + [start], |placed| + 1)
         == DiscountedTo(q, placed, starts, |placed|) + DiscountedAt(q, placed + [v], starts + [start], |placed|)
  {
    hide Sensible, DiscountedAt;
    DiscountedSame(q, placed, starts, placed + [v], starts + [start], |placed|);
  }

  /** The eager price of every node when the parents in `hot` are cached. */
  ghost function Prices(q: Problem, maxCost: nat, hot: set<nat>): (prices: seq<int>)
    requires Sensible(q)
    ensures |prices| == Nodes(q)
    ensures forall c :: 0 <= c < Nodes(q) ==> prices[c] == maxCost - Cached(q.parents, c, hot)
  {
    seq(Nodes(q), c requires 0 <= c < Nodes(q) => maxCost - Cached(q.parents, c, hot))
  }

  /** Caching one more parent lowers the price of each child once per edge. */
  lemma PricesWithOneMore(q: Problem, maxCost: nat, hot: set<nat>, p: nat)
    requires Sensible(q) && p < q.children.numVertex && p !in hot
    ensures forall c :: 0 <= c < Nodes(q) ==>
              Prices(q, maxCost, hot + {p})[c] == Prices(q, maxCost, hot)[c] - Times(q.children, p, c)
  {
    forall c | 0 <= c < Nodes(q)
      ensures Prices(q, maxCost, hot + {p})[c] == Prices(q, maxCost, hot)[c] - Times(q.children, p, c)
    {
      HotEntriesAdd(q.parents.EI, q.parents.VI[c], RowEnd(q.parents, c), hot, p);
    }
  }

  /** No price can fall below what caching more parents would leave. */
  lemma PricesWithMore(q: Problem, maxCost: nat, hot: set<nat>, more: set<nat>)
    requires Sensible(q) && hot <= more
    ensures forall c :: 0 <= c < Nodes(q) ==> Prices(q, maxCost, hot)[c] >= Prices(q, maxCost, more)[c]
  {
    forall c | 0 <= c < Nodes(q) ensures Prices(q, maxCost, hot)[c] >= Prices(q, maxCost, more)[c] {
      HotEntriesMonotone(q.parents.EI, q.parents.VI[c], RowEnd(q.parents, c), hot, more);
    }
  }

  /** The parents with a positive presence counter. */
  ghost function HotOf(presence: seq<nat>): set<nat> {
    set p | 0 <= p < |presence| && presence[p] > 0
  }

  lemma HotOfUpdate(presence: seq<nat>, p: nat, k: nat)
    requires p < |presence|
    ensures p in HotOf(presence) <==> presence[p] > 0
    ensures k > 0 ==> HotOf(presence[p := k]) == HotOf(presence) + {p}
    ensures k == 0 ==> HotOf(presence[p := k]) == HotOf(presence) - {p}
  {
  }

  /** What the nodes of a window make of the presence counter of p. */
  function WindowLoad(q: Problem, nodes: seq<nat>, lo: nat, hi: nat, p: nat): nat
    requires AreNodes(q, nodes) && lo <= hi <= |nodes| && p < |q.outDeg|
  {
    if Light(q, p) then Loads(q, nodes, lo, hi, p) else 0
  }

  /** The first m presence counters record how often the nodes of the window loaded each parent;
      heavy parents are never loaded. */
  ghost predicate CountsWindow(q: Problem, presence: seq<nat>, m: nat, nodes: seq<nat>, lo: nat, hi: nat)
    requires AreNodes(q, nodes) && lo <= hi <= |nodes| && m <= |presence| && m <= |q.outDeg|
    decreases m
  {
    m == 0 || (presence[m - 1] == WindowLoad(q, nodes, lo, hi, m - 1)
               && CountsWindow(q, presence, m - 1, nodes, lo, hi))
  }

  lemma {:induction false} CountsWindowIff(q: Problem, presence: seq<nat>, m: nat, nodes: seq<nat>, lo: nat, hi: nat)
    requires AreNodes(q, nodes) && lo <= hi <= |nodes| && m <= |presence| && m <= |q.outDeg|
    ensures CountsWindow(q, presence, m, nodes, lo, hi) <==>
            forall p :: 0 <= p < m ==> presence[p] == WindowLoad(q, nodes, lo, hi, p)
  {
    if m > 0 {
      CountsWindowIff(q, presence, m - 1, nodes, lo, hi);
    }
  }

  /** Counters that record the loads of a window are positive exactly on its hot set. */
  lemma HotOfWindow(q: Problem, presence: seq<nat>, nodes: seq<nat>, lo: nat, hi: nat)
    requires AreNodes(q, nodes) && lo <= hi <= |nodes| && |presence| == |q.outDeg|
    requires CountsWindow(q, presence, |presence|, nodes, lo, hi)
    ensures HotOf(presence) == HotSet(q, nodes, lo, hi)
    ensures lo == hi ==> HotOf(presence) == {}
  {
    CountsWindowIff(q, presence, |presence|, nodes, lo, hi);
  }

  // ---------- The bucket index ----------

  /** On positions start..n-1 the costs ascend, and CI[v] separates those below v from the rest. */
  ghost predicate Ranked(cost: seq<nat>, CI: seq<nat>, start: nat) {
    && |CI| >= 1
    && start <= |cost|
    && (forall v :: 0 <= v < |CI| ==> CI[v] <= |cost|)
    && (forall i :: start <= i < |cost| ==> cost[i] < |CI|)
    && (forall v, i :: 0 <= v < |CI| && start <= i < |cost| ==> (v <= cost[i] <==> CI[v] <= i))
  }

  lemma RankedShrinks(cost: seq<nat>, CI: seq<nat>, start: nat)
    requires Ranked(cost, CI, start) && start < |cost|
    ensures Ranked(cost, CI, start + 1)
  {
  }

  /** max(CI[v], start) is the first position of the suffix with cost at least v. */
  lemma RankedFirst(cost: seq<nat>, CI: seq<nat>, start: nat, v: nat)
    requires Ranked(cost, CI, start) && v < |CI|
    ensures forall i, j :: start <= i <= j < |cost| ==> cost[i] <= cost[j]
    ensures start <= Max(CI[v], start) <= |cost|
    ensures forall i :: start <= i < Max(CI[v], start) ==> cost[i] < v
    ensures forall i :: Max(CI[v], start) <= i < |cost| ==> v <= cost[i]
  {
    forall i, j | start <= i <= j < |cost| ensures cost[i] <= cost[j] {
      assert CI[cost[i]] <= i;
    }
  }
}
