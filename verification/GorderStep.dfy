/** One step of the greedy ordering: take the next vertex out of the heap and slide the window. */
module GorderStep {
  import opened Permutations
  import opened Csr
  import opened UnitHeapSpec
  import opened UnitHeapLinks
  import opened GorderSpec
  import opened GorderHeap
  import opened GorderUpdate
  import UH = UnitHeap

  const INT_MAX: nat := 0x7FFF_FFFF

  /** The pending change of a deleted vertex. */
  const SENTINEL: nat := INT_MAX / 2

  /** v is deleted with the given key and protected from then on. */
  function Retired(b: Book, v: nat, key: int): Book
    requires v < |b.val| == |b.fixed|
  {
    Book(b.live - {v}, b.val[v := key + SENTINEL], b.fixed[v := key], b.peak)
  }

  lemma StandsAfterRetire(h: HeapView, b: Book, v: nat)
    requires WellFormedHeap(h) && Stands(h, b) && v < |b.val| && v in h.list
    ensures
      var d := Deleted(h, v);
      Stands(d.(pending := d.pending[v := SENTINEL]), Retired(b, v, h.key[v]))
  {
    var i := IndexOf(h.list, v);
    RemoveAtSorted(h.list, h.key, i);
    var d := Deleted(h, v);
    var h', b' := d.(pending := d.pending[v := SENTINEL]), Retired(b, v, h.key[v]);
    forall x: nat | x < |b.val| ensures StandsAt(h', b', x) {
      assert StandsAt(h, b, x);
    }
  }

  /** Deletes a vertex that has not been extracted. */
  method Retire(heap: UH.UnitHeap, v: nat, ghost b: Book, ghost safe: set<nat>) returns (ghost key: int)
    requires Holds(heap, b) && v in b.live && v < |b.val| && Spare(heap, safe)
    modifies heap, heap.update, heap.LinkedList
    ensures key == old(heap.LinkedList[v].key) && Holds(heap, Retired(b, v, key))
    ensures |heap.Header| == old(|heap.Header|) && Keys(heap.LinkedList[..]) == old(Keys(heap.LinkedList[..]))
    ensures heap.View() == Without(old(heap.View()), v, SENTINEL) && Spare(heap, safe)
  {
    ghost var h := heap.View();
    key := h.key[v];
    assert StandsAt(h, b, v);
    SlotsAfterDelete(h, v, |heap.Header|, safe);
    StandsAfterRetire(h, b, v);
    heap.update[v] := SENTINEL;
    assert heap.View() == h.(pending := h.pending[v := SENTINEL]);
    heap.DeleteElement(v);
  }

  lemma StandsAfterSettle(h: HeapView, b: Book)
    requires WellFormedHeap(h) && h.list != [] && Stands(h, b)
    ensures WellFormedHeap(Settled(h)) && Stands(Settled(h), b)
  {
    SettledKeeps(h);
    forall x: nat | x < |b.val| ensures StandsAt(Settled(h), b, x) {
      assert StandsAt(h, b, x);
    }
  }

  lemma NearMaximal(h: HeapView, b: Book, w: nat)
    requires WellFormedHeap(h) && h.list != [] && Stands(h, b) && w in b.live && w < |b.val|
    requires WellFormedHeap(Settled(h)) && Settled(h).list != [] && Stands(Settled(h), b)
    requires Settled(h).list[0] < |b.val|
    ensures
      var v := Settled(h).list[0];
      b.val[w] <= b.val[v] + (Settled(h).key[v] - b.val[v]) / 2
  {
    forall x: nat | x in h.list ensures x < |b.val| && h.pending[x] <= 0 {
      assert InRange(h.list, h.key);
      assert StandsAt(h, b, x);
    }
    assert StandsAt(h, b, w) && StandsAt(h, b, Settled(h).list[0]);
    assert StandsAt(Settled(h), b, Settled(h).list[0]);
    SettledTopNearMaximal(h, w);
  }

  /** The heap lists the live vertices. */
  lemma ListedAreLive(h: HeapView, b: Book)
    requires WellFormedHeap(h) && Stands(h, b) && forall x: nat :: x in b.live ==> x < |b.val| && b.val[x] >= 0
    ensures b.live != {} ==> h.list != []
    ensures forall x :: x in h.list ==> x < |b.val| == |h.key| == |h.pending| && Value(h, x) >= 0
  {
    if b.live != {} {
      var one: nat :| one in b.live;
      assert StandsAt(h, b, one);
    }
    forall x | x in h.list ensures x < |b.val| && Value(h, x) >= 0 {
      assert InRange(h.list, h.key);
      assert StandsAt(h, b, x);
    }
  }

  /** What the settled top is worth, what it is deleted with, and what it leaves behind. */
  lemma SettledTop(h: HeapView, b: Book)
    requires WellFormedHeap(h) && h.list != [] && Stands(h, b)
    requires forall x: nat :: x in b.live ==> x < |b.val|
    ensures
      var s, v := Settled(h), Settled(h).list[0];
      && WellFormedHeap(s) && v in b.live && v < |b.val| == |b.fixed| == |b.peak| == |s.key| == |s.pending| == |h.key|
      && |h.pending| == |h.key| && b.val[v] == Value(h, v) && b.val[v] <= s.key[v] <= b.peak[v]
      && (forall w: nat :: w in b.live ==> b.val[w] <= b.val[v] + (s.key[v] - b.val[v]) / 2)
      && Stands(Deleted(s, v).(pending := s.pending[v := SENTINEL]), Retired(b, v, s.key[v]))
  {
    hide Settled, SortedTo, Position;
    StandsAfterSettle(h, b);
    var s, v := Settled(h), Settled(h).list[0];
    assert InRange(s.list, s.key);
    assert StandsAt(h, b, v) && StandsAt(s, b, v);
    forall w: nat | w in b.live ensures b.val[w] <= b.val[v] + (s.key[v] - b.val[v]) / 2 {
      NearMaximal(h, b, w);
    }
    StandsAfterRetire(s, b, v);
  }

  /** Whoever is at its peak with the last key that there is a slot for is tall. */
  ghost predicate Topped(b: Book, room: Room) {
    forall x: nat :: x in room.tall && x in b.live ==>
      x < |b.val| && x < |b.peak| && b.val[x] + 1 == room.slots == b.peak[x] + 1
  }

  function Topping(b: Book, safe: set<nat>, slots: nat): (room: Room)
    requires |b.val| == |b.peak|
    ensures Topped(b, room) && room.safe == safe && room.slots == slots
  {
    var tall := set x | 0 <= x < |b.val| && x in b.live && b.val[x] + 1 == slots == b.peak[x] + 1;
    Room(safe, tall, slots)
  }

  lemma ToppedIsFull(heap: UH.UnitHeap, b: Book, room: Room)
    requires Holds(heap, b) && Topped(b, room) && |heap.Header| == room.slots
    ensures Full(heap, room)
  {
    forall x | x in heap.list && x in room.tall ensures x < heap.heapsize && heap.View().key[x] + 1 == room.slots {
      assert InRange(heap.list, heap.View().key);
      assert StandsAt(heap.View(), b, x);
    }
  }

  /** While the index keeps its length, a tall vertex does not get higher. */
  lemma FullIsLow(heap: UH.UnitHeap, b: Book, room: Room, x: nat)
    requires Holds(heap, b) && Full(heap, room) && x in room.tall && x in b.live && x < |b.val|
    ensures b.val[x] < room.slots
  {
    assert StandsAt(heap.View(), b, x);
  }

  /** The heap once its settled top has been taken out and protected. */
  ghost function Taken(h: HeapView): (r: HeapView)
    requires WellFormedHeap(h) && h.list != []
    ensures |r.pending| == |h.pending|
  {
    SettledKeeps(h);
    Without(Settled(h), Settled(h).list[0], SENTINEL)
  }

  /** The next vertex and the key it is deleted with. Nobody left in the heap beats its score by
      more than half of what it still owed, which is at most what it has lost since its peak. */
  method Extract(heap: UH.UnitHeap, ghost b: Book, ghost safe: set<nat>) returns (v: nat, ghost key: int)
    requires Holds(heap, b) && b.live != {} && Spare(heap, safe)
    requires forall x: nat :: x in b.live ==> x < |b.val| && b.val[x] >= 0
    modifies heap, heap.update, heap.LinkedList
    ensures v in b.live && v < |b.val| == |b.peak| == heap.heapsize && b.val[v] <= key <= b.peak[v]
    ensures b.val[v] == old(Value(heap.View(), v))
    ensures old(WellFormedHeap(heap.View()) && heap.list != []) && v == old(Settled(heap.View()).list[0])
    ensures forall w: nat :: w in b.live ==> b.val[w] <= b.val[v] + (key - b.val[v]) / 2
    ensures Holds(heap, Retired(b, v, key)) && heap.View() == Taken(old(heap.View()))
    ensures |heap.Header| == old(|heap.Header|) && Spare(heap, safe)
  {
    hide Linked, Indexed, Sorted, Settled, Stands, SpareIn, RemoveAt, IndexOf;
    ghost var h := heap.View();
    RepresentsMeans(heap.LinkedList[..], heap.Header, heap.top, h);
    ListedAreLive(h, b);
    SettledTop(h, b);
    SlotsAfterExtract(h, |heap.Header|, safe);
    ghost var s := Settled(h);
    v := heap.ExtractMax();
    key := s.key[v];
    heap.update[v] := SENTINEL;
    assert heap.View() == Deleted(s, v).(pending := Deleted(s, v).pending[v := SENTINEL]);
  }

  // ---------- The window-sum invariant ----------

  /** The scores against the window that ends at position k, on top of the offsets. */
  ghost function Rescored(g: Net, huge: nat, window: nat, order: seq<nat>, k: nat, off: seq<int>): (val: seq<int>)
    requires Simple(g) && AreVertices(g, order) && k <= |order| && |off| == Vertices(g)
    ensures |val| == |off|
    ensures forall w :: 0 <= w < |val| ==>
              HasRow(g.out, w) && val[w] == off[w] + Score(g, huge, order, WindowStart(window, k), k, w)
  {
    seq(|off|, w requires 0 <= w < |off| =>
      assert HasRow(g.out, w); off[w] + Score(g, huge, order, WindowStart(window, k), k, w))
  }

  /** A live vertex has exactly its score; a deleted one stays above its key whatever the score, by
      SENTINEL at most. */
  ghost predicate Offsets(b: Book, off: seq<int>) {
    && |off| == |b.fixed|
    && forall w :: 0 <= w < |off| ==> if w in b.live then off[w] == 0 else b.fixed[w] < off[w] <= b.fixed[w] + SENTINEL
  }

  ghost predicate Scored(g: Net, huge: nat, window: nat, order: seq<nat>, k: nat, b: Book, off: seq<int>) {
    && Fitting(g, b) && AreVertices(g, order) && k <= |order| && Offsets(b, off)
    && b.val == Rescored(g, huge, window, order, k, off)
  }

  ghost predicate Unmarked(popvexist: seq<bool>) {
    forall u :: 0 <= u < |popvexist| ==> !popvexist[u]
  }

  ghost predicate Bounded(g: Net, each: nat) {
    forall v :: 0 <= v < Vertices(g) && HasRow(g.inn, v) ==> Degree(g.inn, v) + 2 <= each
  }

  /** One more vertex in the order changes no score against the window before it. */
  lemma RescoredSame(g: Net, huge: nat, window: nat, order: seq<nat>, v: nat, off: seq<int>)
    requires Simple(g) && AreVertices(g, order) && v < Vertices(g) && |off| == Vertices(g)
    ensures AreVertices(g, order + [v])
    ensures Rescored(g, huge, window, order + [v], |order|, off) == Rescored(g, huge, window, order, |order|, off)
  {
    assert HasRow(g.out, v) && HasRow(g.inn, v);
    var a, b := Rescored(g, huge, window, order + [v], |order|, off), Rescored(g, huge, window, order, |order|, off);
    forall w | 0 <= w < |off| ensures a[w] == b[w] {
      ScoreSame(g, huge, order + [v], order, WindowStart(window, |order|), |order|, w);
    }
  }

  /** cap is at least what a full window can bring to any vertex. */
  ghost predicate Caps(g: Net, window: nat, cap: nat) {
    exists each: nat :: Bounded(g, each) && window * each <= cap
  }

  /** The book after the peaks have followed new values. */
  ghost function Raised(b: Book, val: seq<int>): (r: Book)
    requires |val| == |b.val| == |b.peak|
    ensures r.live == b.live && r.val == b.val && r.fixed == b.fixed && |r.peak| == |b.peak| && Peaked(r, val)
    ensures forall w :: 0 <= w < |val| ==> r.peak[w] == if b.peak[w] < val[w] then val[w] else b.peak[w]
  {
    b.(peak := seq(|b.peak|, w requires 0 <= w < |b.peak| => if b.peak[w] < val[w] then val[w] else b.peak[w]))
  }

  lemma RaisedHolds(heap: UH.UnitHeap, b: Book, val: seq<int>)
    requires Holds(heap, b) && |val| == |b.val| == |b.peak|
    ensures Holds(heap, Raised(b, val))
  {
    forall x: nat | x < |b.val| ensures StandsAt(heap.View(), Raised(b, val), x) {
      assert StandsAt(heap.View(), b, x);
    }
  }

  lemma WindowProduct(n: nat, window: nat, each: nat)
    requires n <= window
    ensures n * each <= window * each
  {
  }

  lemma ScoreCapped(g: Net, huge: nat, window: nat, order: seq<nat>, k: nat, off: seq<int>, cap: nat)
    requires Simple(g) && AreVertices(g, order) && k <= |order| && |off| == Vertices(g) && Caps(g, window, cap)
    ensures forall w :: 0 <= w < |off| ==> off[w] <= Rescored(g, huge, window, order, k, off)[w] <= off[w] + cap
  {
    var each: nat :| Bounded(g, each) && window * each <= cap;
    var val := Rescored(g, huge, window, order, k, off);
    var lo := WindowStart(window, k);
    forall w | 0 <= w < |off| ensures off[w] <= val[w] <= off[w] + cap {
      ScoreBound(g, huge, order, lo, k, w, each);
      WindowProduct(k - lo, window, each);
    }
  }

  /** Popping leaves every deleted vertex above its key. */
  lemma PopProtected(g: Net, huge: nat, window: nat, order: seq<nat>, k: nat, b: Book, off: seq<int>)
    requires Scored(g, huge, window, order, k, b, off) && 0 < window <= k < |order|
    requires order[k - window] < Vertices(g)
    ensures Protected(b, Moved(g, huge, order[k - window], b, false))
  {
    hide Simple, Contribution;
    forall w | 0 <= w < |off| ensures Moved(g, huge, order[k - window], b, false)[w] > b.fixed[w] || w in b.live {
      ScoreFront(g, huge, order, k - window, k, w);
    }
  }

  /** Popping and pushing with the shared rows left out gives the scores of the next window. */
  lemma SlideValues(g: Net, huge: nat, window: nat, order: seq<nat>, k: nat, b: Book, off: seq<int>, popv: nat, v: nat)
    requires Scored(g, huge, window, order, k, b, off) && 0 < window <= k < |order|
    requires popv == order[k - window] < Vertices(g) && v == order[k] < Vertices(g)
    ensures HasRow(g.out, popv) && HasRow(g.inn, popv) && HasRow(g.out, v) && HasRow(g.inn, v)
    ensures Spared(g, huge, v, Shared(g, huge, popv, v),
                   With(b, Spared(g, huge, popv, SourcesOf(g, v), b, false)), true)
         == Rescored(g, huge, window, order, k + 1, off)
  {
    assert HasRow(g.out, popv) && HasRow(g.inn, popv) && HasRow(g.out, v) && HasRow(g.inn, v);
    var b1 := With(b, Spared(g, huge, popv, SourcesOf(g, v), b, false));
    var a, c := Spared(g, huge, v, Shared(g, huge, popv, v), b1, true), Rescored(g, huge, window, order, k + 1, off);
    forall w | 0 <= w < |off| ensures a[w] == c[w] {
      SharedCancel(g, huge, popv, v, w);
      ScoreFront(g, huge, order, k - window, k + 1, w);
      ScoreFront(g, huge, order, k - window, k, w);
      SlideScore(g, huge, window, order, k, w);
    }
  }

  lemma SlideScore(g: Net, huge: nat, window: nat, order: seq<nat>, k: nat, w: nat)
    requires AreVertices(g, order) && 0 < window <= k < |order| && HasRow(g.out, w)
    ensures Score(g, huge, order, WindowStart(window, k + 1), k + 1, w)
         == Score(g, huge, order, WindowStart(window, k), k, w)
            - Contribution(g, huge, order[k - window], w) + Contribution(g, huge, order[k], w)
  {
    ScoreFront(g, huge, order, k - window, k, w);
  }

  /** While the window is not full, nothing is popped. */
  lemma GrowValues(g: Net, huge: nat, window: nat, order: seq<nat>, k: nat, b: Book, off: seq<int>, v: nat,
                   spared: set<nat>)
    requires Scored(g, huge, window, order, k, b, off) && k < window && k < |order|
    requires v == order[k] < Vertices(g) && spared == {}
    ensures HasRow(g.out, v) && HasRow(g.inn, v)
    ensures Spared(g, huge, v, spared, b, true) == Rescored(g, huge, window, order, k + 1, off)
  {
    assert HasRow(g.out, v) && HasRow(g.inn, v);
    var a, c := Spared(g, huge, v, spared, b, true), Rescored(g, huge, window, order, k + 1, off);
    forall w | 0 <= w < |off| ensures a[w] == c[w] {
      PartlyAtMost(g, huge, v, spared, w);
    }
  }

  lemma SharedAreParents(g: Net, huge: nat, popv: nat, v: nat, marks: seq<bool>)
    requires Simple(g) && v < Vertices(g) && HasRow(g.inn, popv) && HasRow(g.inn, v)
    requires Marked(marks) == Shared(g, huge, popv, v)
    ensures MarksParents(g, huge, v, marks)
  {
    forall u: nat | u < |marks| && marks[u]
      ensures HasRow(g.out, u) && LightVertex(g, huge, u) && Times(g.inn, v, u) > 0
    {
      assert u in Marked(marks);
      EdgeOnce(g, u, v);
    }
  }

  // ---------- The heap from round to round ----------

  ghost predicate Entering(g: Net, window: nat, order: seq<nat>) {
    Simple(g) && window > 0 && order != [] && Below(order, Vertices(g))
  }

  /** Whose rows are left alone while the last vertex of the order enters the window: the in-neighbours that
      it shares with the vertex that leaves it. */
  ghost function LeftAlone(g: Net, huge: nat, window: nat, order: seq<nat>): set<nat>
    requires Entering(g, window, order)
  {
    var k := |order| - 1;
    if k < window then {}
    else
      assert HasRow(g.inn, order[k - window]);
      Shared(g, huge, order[k - window], order[k])
  }

  /** What the others owe once the oldest vertex has left the window to the last one of the order. */
  ghost function Eased(g: Net, huge: nat, window: nat, order: seq<nat>, h: HeapView): HeapView
    requires Entering(g, window, order) && |h.pending| == Vertices(g)
  {
    var k := |order| - 1;
    if k < window then h
    else
      var popv := order[k - window];
      assert HasRow(g.out, popv) && HasRow(g.inn, popv);
      h.(pending := seq(|h.pending|, w requires 0 <= w < |h.pending| =>
           assert HasRow(g.out, w); h.pending[w] - Partly(g, huge, popv, SourcesOf(g, order[k]), w)))
  }

  /** The heap once the window has moved on to the last vertex of the order. */
  ghost function Slid(g: Net, huge: nat, window: nat, order: seq<nat>, h: HeapView): HeapView
    requires Entering(g, window, order) && |h.pending| == Vertices(g)
  {
    var v := order[|order| - 1];
    assert HasRow(g.out, v) && HasRow(g.inn, v);
    BumpedBy(Eased(g, huge, window, order, h), PushSteps(g, huge, v, LeftAlone(g, huge, window, order)))
  }

  /** The heap says that the last vertex of the order is next. */
  ghost predicate Gives(g: Net, window: nat, order: seq<nat>, h: HeapView) {
    && Entering(g, window, order)
    && WellFormedHeap(h) && h.list != [] && |h.pending| == Vertices(g)
    && order[|order| - 1] == Settled(h).list[0]
  }

  /** Dropping the oldest vertex changes nothing but what is owed. */
  lemma EasedStands(g: Net, huge: nat, window: nat, order: seq<nat>, h: HeapView, b: Book, h': HeapView)
    requires Entering(g, window, order) && |order| > window && Fitting(g, b)
    requires Stands(h, b) && h'.list == h.list && h'.key == h.key
    requires HasRow(g.out, order[|order| - 1 - window]) && HasRow(g.inn, order[|order| - 1 - window])
    requires
      var popv := order[|order| - 1 - window];
      Stands(h', With(b, Spared(g, huge, popv, SourcesOf(g, order[|order| - 1]), b, false)))
    ensures |h.pending| == Vertices(g) && h' == Eased(g, huge, window, order, h)
  {
    var e := Eased(g, huge, window, order, h);
    var b' := With(b, Spared(g, huge, order[|order| - 1 - window], SourcesOf(g, order[|order| - 1]), b, false));
    forall w | 0 <= w < Vertices(g) ensures h'.pending[w] == e.pending[w] {
      assert StandsAt(h, b, w) && StandsAt(h', b', w);
    }
    assert h'.pending == e.pending;
  }

  /** If the window is full, the oldest vertex leaves it; what PushVertex will then add makes the
      scores those of the next window. */
  method PopOldest(g: Net, huge: nat, window: nat, heap: UH.UnitHeap, order: seq<nat>, popvexist: seq<bool>,
                   ghost b: Book, ghost off: seq<int>)
    returns (marks: seq<bool>, ghost b1: Book)
    requires window > 0 && |order| > 1 && Below(order, Vertices(g))
    requires Holds(heap, b) && Scored(g, huge, window, order, |order| - 1, b, off)
    requires |popvexist| == |b.val| && Unmarked(popvexist)
    modifies heap.update
    ensures Holds(heap, b1) && b1.live == b.live && b1.fixed == b.fixed && b1.peak == b.peak
    ensures |b1.val| == |b.val| == |marks|
    ensures HasRow(g.out, order[|order| - 1]) && HasRow(g.inn, order[|order| - 1])
    ensures MarksParents(g, huge, order[|order| - 1], marks)
    ensures Entering(g, window, order) && Marked(marks) == LeftAlone(g, huge, window, order)
    ensures |old(heap.View()).pending| == Vertices(g)
         && heap.View() == Eased(g, huge, window, order, old(heap.View()))
    ensures Spared(g, huge, order[|order| - 1], Marked(marks), b1, true)
         == Rescored(g, huge, window, order, |order|, off)
  {
    hide Moved, Rescored, Spared, Shared, Score, Partly;
    var k := |order| - 1;
    var v := order[k];
    assert HasRow(g.out, v) && HasRow(g.inn, v);
    marks := popvexist;
    b1 := b;
    if k >= window {
      var popv := order[k - window];
      PopProtected(g, huge, window, order, k, b, off);
      SlideValues(g, huge, window, order, k, b, off, popv, v);
      ghost var h := heap.View();
      marks := PopVertex(g, huge, heap, popv, v, popvexist, b);
      EasedStands(g, huge, window, order, h, b, heap.View());
      b1 := With(b, Spared(g, huge, popv, SourcesOf(g, v), b, false));
      SharedAreParents(g, huge, popv, v, marks);
    } else {
      assert Marked(popvexist) == {};
      GrowValues(g, huge, window, order, k, b, off, v, Marked(popvexist));
    }
  }

  /** The last vertex of the order enters the window, after the oldest has made room. */
  method Slide(g: Net, huge: nat, window: nat, heap: UH.UnitHeap, order: seq<nat>, popvexist: seq<bool>,
               ghost b: Book, ghost off: seq<int>, ghost room: Room)
    returns (ok: bool, marks: seq<bool>)
    requires window > 0 && |order| > 1 && Below(order, Vertices(g))
    requires Holds(heap, b) && Scored(g, huge, window, order, |order| - 1, b, off)
    requires |popvexist| == |b.val| && Unmarked(popvexist)
    requires Peaked(b, Rescored(g, huge, window, order, |order|, off)) && Spare(heap, room.safe)
    modifies heap, heap.update, heap.LinkedList
    ensures ok ==> Holds(heap, With(b, Rescored(g, huge, window, order, |order|, off)))
    ensures ok ==> |heap.Header| >= old(|heap.Header|)
    ensures ok ==> |marks| == |popvexist| && Unmarked(marks)
    ensures Entering(g, window, order) && |old(heap.View()).pending| == Vertices(g)
    ensures ok ==> heap.View() == Slid(g, huge, window, order, old(heap.View()))
    ensures
      var all := Rescored(g, huge, window, order, |order|, off);
      && (if ok then Spare(heap, room.safe) else Reached(b, all, old(|heap.Header|), room.safe))
      && (ok && old(Full(heap, room)) && Low(b.live, all, room) ==> Full(heap, room))
  {
    ghost var b1;
    marks, b1 := PopOldest(g, huge, window, heap, order, popvexist, b, off);
    assert With(b1, Rescored(g, huge, window, order, |order|, off))
        == With(b, Rescored(g, huge, window, order, |order|, off));
    ok, marks := PushVertex(g, huge, heap, order[|order| - 1], marks, b1, room);
  }
}
