/** Gorder's greedy ordering: a run over the unit heap with a sliding window. */
module GorderGreedy {
  import opened Permutations
  import opened Csr
  import opened UnitHeapSpec
  import opened UnitHeapLinks
  import opened GorderSpec
  import opened GorderHeap
  import opened GorderOutcome
  import opened GorderReplay
  import opened GorderUpdate
  import opened GorderStep
  import UH = UnitHeap

  // ---------- Before the loop ----------

  /** Nobody is placed and nobody has a score yet. */
  ghost function FreshBook(g: Net): Book
    requires Simple(g)
  {
    Book(Range(Vertices(g)), seq(Vertices(g), _ => 0), seq(Vertices(g), _ => 0), InDegrees(g))
  }

  lemma FreshStands(g: Net, h: HeapView)
    requires Simple(g) && IsPermutation(h.list, Vertices(g)) && |h.key| == |h.pending| == Vertices(g)
    requires forall j :: 0 <= j < Vertices(g) ==>
               HasRow(g.inn, j) && h.key[j] == Degree(g.inn, j) && h.pending[j] == 0 - Degree(g.inn, j)
    ensures Stands(h, FreshBook(g))
  {
    forall x: nat | x < Vertices(g) ensures StandsAt(h, FreshBook(g), x) {
      Onto(h.list, Vertices(g), x);
    }
  }

  method SetKeys(g: Net, heap: UH.UnitHeap)
    requires heap.Sized() && heap.heapsize == g.inn.numVertex
    requires forall v {:trigger HasRow(g.inn, v)} :: 0 <= v < g.inn.numVertex ==> HasRow(g.inn, v)
    modifies heap.update, heap.LinkedList
    ensures forall j :: 0 <= j < heap.heapsize ==> HasRow(g.inn, j) && heap.LinkedList[j].key == Degree(g.inn, j)
    ensures forall j :: 0 <= j < heap.heapsize ==> HasRow(g.inn, j) && heap.update[j] == 0 - Degree(g.inn, j)
  {
    for i := 0 to heap.heapsize
      invariant forall j :: 0 <= j < i ==> HasRow(g.inn, j) && heap.LinkedList[j].key == Degree(g.inn, j)
      invariant forall j :: 0 <= j < i ==> HasRow(g.inn, j) && heap.update[j] == 0 - Degree(g.inn, j)
    {
      heap.LinkedList[i] := heap.LinkedList[i].(key := Degree(g.inn, i));
      heap.update[i] := 0 - Degree(g.inn, i);
    }
  }

  /** The heap with the in-degrees as keys, all of them owed. */
  method BuildHeap(g: Net) returns (heap: UH.UnitHeap)
    requires Simple(g) && Vertices(g) >= 2
    ensures fresh(heap) && fresh(heap.update) && fresh(heap.LinkedList)
    ensures Holds(heap, FreshBook(g))
    ensures Keys(heap.LinkedList[..]) == InDegrees(g) && |heap.Header| == RunSlots(g)
    ensures AtStart(g, heap.View())
  {
    hide FreshBook, Stands, Represents, MostIn, IsTranspose, InDegrees;
    heap := new UH.UnitHeap(Vertices(g));
    assert g.inn.numVertex == Vertices(g);
    SetKeys(g, heap);
    heap.ReConstruct();
    RepresentsMeans(heap.LinkedList[..], heap.Header, heap.top, heap.View());
    FreshStands(g, heap.View());
    TopHasMost(g, heap.View());
  }

  lemma TopHasMost(g: Net, h: HeapView)
    requires Simple(g) && IsPermutation(h.list, Vertices(g)) && h.list != [] && WellFormedHeap(h)
    requires |h.key| == Vertices(g)
    requires forall j :: 0 <= j < Vertices(g) ==> HasRow(g.inn, j) && h.key[j] == Degree(g.inn, j)
    ensures h.key == InDegrees(g) && h.list[0] < Vertices(g) && h.key[h.list[0]] == MostIn(g, Vertices(g))
  {
    assert h.key == InDegrees(g);
    var v := Leader(g, Vertices(g));
    LeaderHasMost(g, v, Vertices(g));
    SortedMeans(h.list, h.key);
    Onto(h.list, Vertices(g), v);
    assert HasRow(g.inn, h.list[0]);
  }

  /** The state of the scan for the first vertex before it looks at vertex i. */
  ghost predicate Scanned(g: Net, i: nat, zero: seq<nat>, b: Book) {
    && Fitting(g, b) && Offsets(b, b.val) && i <= Vertices(g) && b.peak == InDegrees(g)
    && zero == Zeros(g, i)
    && forall x: nat :: x in b.live <==> x < Vertices(g) && x !in zero
  }

  /** An isolated vertex is deleted and collected. */
  method CollectIsolated(g: Net, heap: UH.UnitHeap, i: nat, zero: seq<nat>, ghost b: Book)
    returns (zero': seq<nat>, ghost b': Book)
    requires Holds(heap, b) && Scanned(g, i, zero, b) && 0 < i < Vertices(g)
    requires HasRow(g.inn, i) && HasRow(g.out, i) && Isolated(g, i)
    modifies heap, heap.update, heap.LinkedList
    ensures Holds(heap, b') && Scanned(g, i + 1, zero', b') && zero' == zero + [i]
    ensures |heap.Header| == old(|heap.Header|) && Keys(heap.LinkedList[..]) == old(Keys(heap.LinkedList[..]))
    ensures heap.View() == Without(old(heap.View()), i, SENTINEL)
  {
    ghost var key := Retire(heap, i, b, {});
    b' := Retired(b, i, key);
    zero' := zero + [i];
  }

  lemma ScanStart(g: Net)
    requires Simple(g)
    ensures Scanned(g, 0, [], FreshBook(g))
  {
  }

  lemma ScanStep(g: Net, tmpindex: nat, zero: seq<nat>, b: Book, i: nat)
    requires Scanned(g, i, zero, b) && i < Vertices(g)
    requires i > 0 ==> Leads(g, tmpindex, i) && tmpindex !in zero
    ensures HasRow(g.inn, i) && HasRow(g.out, i) && i !in zero
    ensures i == 0 || Degree(g.inn, i) > Degree(g.inn, tmpindex) ==> Leads(g, i, i + 1) && Scanned(g, i + 1, zero, b)
    ensures i > 0 ==> tmpindex < i && HasRow(g.inn, tmpindex)
    ensures i > 0 && Degree(g.inn, i) <= Degree(g.inn, tmpindex) ==>
              && Leads(g, tmpindex, i + 1)
              && (Degree(g.inn, i) + Degree(g.out, i) != 0 ==> Scanned(g, i + 1, zero, b))
  {
    assert HasRow(g.inn, i) && HasRow(g.out, i);
  }

  /** The scan for the first vertex, which also deletes the isolated ones. */
  method ChooseFirst(g: Net, heap: UH.UnitHeap) returns (tmpindex: nat, zero: seq<nat>, ghost b: Book)
    requires Simple(g) && Vertices(g) > 0 && Holds(heap, FreshBook(g))
    modifies heap, heap.update, heap.LinkedList
    ensures Leads(g, tmpindex, Vertices(g)) && tmpindex !in zero
    ensures Holds(heap, b) && Scanned(g, Vertices(g), zero, b)
    ensures |heap.Header| == old(|heap.Header|) && Keys(heap.LinkedList[..]) == old(Keys(heap.LinkedList[..]))
    ensures heap.View() == WithoutAll(old(heap.View()), zero, SENTINEL)
  {
    hide FreshBook, Holds, Scanned, Leads, Simple, Zeros, WithoutAll, Without;
    WithoutOneMore(heap.View(), [], 0, SENTINEL);
    var tmpweight: int := -1;
    tmpindex := 0;
    zero := [];
    b := FreshBook(g);
    ScanStart(g);
    for i := 0 to Vertices(g)
      invariant i == 0 ==> tmpweight == -1
      invariant i > 0 ==> Leads(g, tmpindex, i) && HasRow(g.inn, tmpindex) && tmpweight == Degree(g.inn, tmpindex)
      invariant tmpindex !in zero
      invariant Holds(heap, b) && Scanned(g, i, zero, b)
      invariant heap.View() == WithoutAll(old(heap.View()), zero, SENTINEL)
      invariant |heap.Header| == old(|heap.Header|) && Keys(heap.LinkedList[..]) == old(Keys(heap.LinkedList[..]))
    {
      ScanStep(g, tmpindex, zero, b, i);
      if Degree(g.inn, i) > tmpweight {
        tmpweight := Degree(g.inn, i);
        tmpindex := i;
      } else if Degree(g.inn, i) + Degree(g.out, i) == 0 {
        WithoutOneMore(old(heap.View()), zero, i, SENTINEL);
        zero, b := CollectIsolated(g, heap, i, zero, b);
      }
    }
  }

  lemma FollowsAll(r: Raising)
    ensures Follows(r, 0, r.names)
  {
    assert r.names[0..|r.names|] == r.names;
  }

  lemma MovedInParts(g: Net, huge: nat, v: nat, b: Book)
    requires Fitting(g, b) && v < Vertices(g)
    ensures HasRow(g.out, v) && HasRow(g.inn, v)
    ensures
      var val := Walked(g, huge, v, RowEnd(g.inn, v), {}, b, true);
      forall w :: 0 <= w < |b.val| ==>
        Moved(g, huge, v, b, true)[w] == val[w] + if LightVertex(g, huge, v) then Times(g.out, v, w) else 0
  {
    assert HasRow(g.out, v) && HasRow(g.inn, v);
    forall w | 0 <= w < |b.val|
      ensures HasRow(g.out, w) && Partly(g, huge, v, {}, w) == Contribution(g, huge, v, w)
    {
      assert HasRow(g.out, w);
      PartlyAtMost(g, huge, v, {}, w);
    }
  }

  /** The first vertex enters the empty window: its in-neighbours first, then its targets. */
  method EnterFirst(g: Net, huge: nat, heap: UH.UnitHeap, v: nat, popvexist: seq<bool>, ghost b: Book,
                    ghost room: Room, ghost r: Raising)
    returns (ok: bool, marks: seq<bool>)
    requires Fitting(g, b) && Holds(heap, b) && v < Vertices(g)
    requires |popvexist| == |b.val| && Unmarked(popvexist)
    requires Peaked(b, Moved(g, huge, v, b, true)) && Spare(heap, room.safe)
    modifies heap, heap.update, heap.LinkedList
    ensures ok ==> Holds(heap, With(b, Moved(g, huge, v, b, true))) && |heap.Header| >= old(|heap.Header|)
    ensures ok ==> |marks| == |popvexist| && Unmarked(marks)
    ensures
      if ok then Spare(heap, room.safe)
      else Reached(b, Moved(g, huge, v, b, true), old(|heap.Header|), room.safe)
    ensures HasRow(g.out, v) && HasRow(g.inn, v)
    ensures ok ==> heap.View() == BumpedBy(old(heap.View()), FirstSteps(g, huge, v))
    ensures old(Track(heap, b, r, 0)) && r.names == FirstSteps(g, huge, v) ==>
              if ok then Track(heap, With(b, Moved(g, huge, v, b, true)), r, |r.names|) else Quits(r)
  {
    hide Holds, Spare, Full, Low, Track, Quits, Follows, ParentsSteps, ChildSteps, Times, BumpedBy;
    assert HasRow(g.out, v) && HasRow(g.inn, v);
    assert Marked(popvexist) == {};
    ghost var val := Walked(g, huge, v, RowEnd(g.inn, v), {}, b, true);
    MovedInParts(g, huge, v, b);
    ghost var steps := ParentsSteps(g, huge, v, RowEnd(g.inn, v), {});
    FollowsAll(r);
    FollowsBoth(r, 0, steps, ChildSteps(g, huge, v));
    BumpedByBoth(heap.View(), steps, ChildSteps(g, huge, v));
    ok, marks := AddParents(g, huge, heap, v, popvexist, b, room, r, 0);
    if ok {
      ok := AddChildren(g, huge, heap, v, With(b, val), Moved(g, huge, v, b, true), room, r, |steps|);
    }
  }

  // ---------- The loop ----------

  /** The peaks of the live vertices are those of the run so far. */
  ghost predicate AtPeak(g: Net, huge: nat, window: nat, order: seq<nat>, b: Book)
    requires AreVertices(g, order)
  {
    forall w: nat :: w < |b.peak| && w in b.live ==>
      HasRow(g.out, w) && HasRow(g.inn, w) && b.peak[w] == PeakOf(g, huge, window, order, |order|, w)
  }

  /** One more window: raising the peaks to its scores makes them those of the longer run. */
  lemma RaisedAtPeak(g: Net, huge: nat, window: nat, order: seq<nat>, v: nat, b: Book, off: seq<int>)
    requires Fitting(g, b) && AreVertices(g, order + [v]) && AreVertices(g, order) && Offsets(b, off)
    requires AtPeak(g, huge, window, order, b)
    ensures AtPeak(g, huge, window, order + [v], Raised(b, Rescored(g, huge, window, order + [v], |order| + 1, off)))
  {
    var order' := order + [v];
    var r := Raised(b, Rescored(g, huge, window, order', |order'|, off));
    forall w: nat | w < |r.peak| && w in r.live
      ensures HasRow(g.out, w) && HasRow(g.inn, w) && r.peak[w] == PeakOf(g, huge, window, order', |order'|, w)
    {
      PeakSame(g, huge, window, order', order, |order|, w);
    }
  }

  /** The loop invariant apart from the heap: who is left, and what every vertex is worth. */
  ghost predicate Running(g: Net, huge: nat, window: nat, zero: seq<nat>, order: seq<nat>, popvexist: seq<bool>,
                          b: Book, off: seq<int>) {
    && window > 0 && order != []
    && Distinct(zero + order) && Below(zero + order, Vertices(g))
    && (forall x: nat :: x in b.live <==> x < Vertices(g) && x !in zero + order)
    && Scored(g, huge, window, order, |order|, b, off)
    && AtPeak(g, huge, window, order, b)
    && |popvexist| == Vertices(g) && Unmarked(popvexist)
  }

  /** Vertices in the heap owe something or nothing; the others have a positive pending change that
      stays below INT_MAX. So no deleted vertex is ever incremented in the list, and the resets that
      the debug build does at 0 and at INT_MAX never happen. */
  lemma PendingInRange(g: Net, huge: nat, window: nat, heap: UH.UnitHeap, zero: seq<nat>, order: seq<nat>,
                       popvexist: seq<bool>, b: Book, off: seq<int>, cap: nat, w: nat)
    requires Running(g, huge, window, zero, order, popvexist, b, off) && Holds(heap, b)
    requires Caps(g, window, cap) && cap < SENTINEL && w < Vertices(g)
    ensures heap.update.Length == Vertices(g)
    ensures if w in zero || w in order then 0 < heap.update[w] < INT_MAX else heap.update[w] <= 0
    ensures w in heap.list <==> w !in zero && w !in order
  {
    assert StandsAt(heap.View(), b, w);
    ScoreCapped(g, huge, window, order, |order|, off, cap);
    assert w in zero + order <==> w in zero || w in order;
  }

  lemma SomeoneLeft(placed: seq<nat>, n: nat)
    requires Distinct(placed) && Below(placed, n) && |placed| < n
    ensures exists x: nat :: x < n && x !in placed
  {
    if forall x: nat :: x < n ==> x in placed {
      FullLength(placed, n);
    }
  }

  /** Extraction, stated on the offsets. */
  lemma RetiredScored(g: Net, huge: nat, window: nat, order: seq<nat>, b: Book, off: seq<int>, v: nat, key: int)
    requires Scored(g, huge, window, order, |order|, b, off) && v < Vertices(g) && v in b.live
    requires b.val[v] < SENTINEL
    ensures Scored(g, huge, window, order + [v], |order|, Retired(b, v, key),
                   off[v := off[v] + key + SENTINEL - b.val[v]])
  {
    var off' := off[v := off[v] + key + SENTINEL - b.val[v]];
    RescoredSame(g, huge, window, order, v, off');
    assert Retired(b, v, key).val == Rescored(g, huge, window, order, |order|, off');
  }

  /** The scores seen by ExtractMax are the scores of the specification. */
  lemma ExtractedIsChosen(g: Net, huge: nat, window: nat, zero: seq<nat>, order: seq<nat>, popvexist: seq<bool>,
                          b: Book, off: seq<int>, v: nat, key: int)
    requires Running(g, huge, window, zero, order, popvexist, b, off) && v in b.live && v < |b.peak|
    requires b.val[v] <= key <= b.peak[v]
    requires forall w: nat :: w in b.live ==> w < |b.val| && b.val[w] <= b.val[v] + (key - b.val[v]) / 2
    ensures AreVertices(g, order + [v])
    ensures Chosen(g, huge, window, zero, order + [v], |order|)
    ensures b.val[v] == Score(g, huge, order + [v], WindowStart(window, |order|), |order|, v)
  {
    RescoredSame(g, huge, window, order, v, off);
    var k := |order|;
    assert (order + [v])[..k] == order;
    PeakSame(g, huge, window, order + [v], order, k, v);
    forall w: nat | w < Vertices(g) && HasRow(g.out, w) && w !in zero && w !in order
      ensures b.val[w] == Score(g, huge, order + [v], WindowStart(window, k), k, w) && w in b.live
    {
      assert w !in zero + order;
      assert b.val[w] == Rescored(g, huge, window, order + [v], k, off)[w];
    }
    assert v !in zero + order;
  }

  lemma StillRunning(g: Net, huge: nat, window: nat, zero: seq<nat>, order: seq<nat>, popvexist: seq<bool>,
                     b: Book, off: seq<int>, v: nat, b': Book, off': seq<int>, marks: seq<bool>)
    requires Running(g, huge, window, zero, order, popvexist, b, off) && v in b.live
    requires b'.live == b.live - {v} && |marks| == Vertices(g) && Unmarked(marks)
    requires Scored(g, huge, window, order + [v], |order| + 1, b', off')
    requires AtPeak(g, huge, window, order + [v], b')
    ensures Running(g, huge, window, zero, order + [v], marks, b', off')
  {
    assert zero + (order + [v]) == (zero + order) + [v];
    assert v !in zero + order;
  }

  /** After an extraction the peaks follow the scores of the next window: nothing else changes. */
  lemma RaisedReady(g: Net, huge: nat, window: nat, heap: UH.UnitHeap, order: seq<nat>, v: nat, b: Book, off: seq<int>)
    requires Holds(heap, b) && AreVertices(g, order) && AreVertices(g, order + [v])
    requires Scored(g, huge, window, order + [v], |order|, b, off) && AtPeak(g, huge, window, order, b)
    ensures
      var next := Rescored(g, huge, window, order + [v], |order| + 1, off);
      var gone := Raised(b, next);
      && Holds(heap, gone) && Scored(g, huge, window, order + [v], |order|, gone, off)
      && AtPeak(g, huge, window, order + [v], gone) && Peaked(gone, next)
  {
    var next := Rescored(g, huge, window, order + [v], |order| + 1, off);
    var gone := Raised(b, next);
    RaisedHolds(heap, b, next);
    RaisedAtPeak(g, huge, window, order, v, b, off);
  }

  lemma SamePeaks(g: Net, huge: nat, window: nat, order: seq<nat>, b: Book, b': Book)
    requires AreVertices(g, order) && AtPeak(g, huge, window, order, b) && b'.peak == b.peak && b'.live <= b.live
    ensures AtPeak(g, huge, window, order, b')
  {
  }

  /** Somebody is left, and nobody left has a score outside 0..SENTINEL-1. */
  lemma ReadyToTake(g: Net, huge: nat, window: nat, zero: seq<nat>, order: seq<nat>, popvexist: seq<bool>, b: Book,
                    off: seq<int>, cap: nat)
    requires Running(g, huge, window, zero, order, popvexist, b, off)
    requires |zero + order| < Vertices(g) && Caps(g, window, cap) && cap < SENTINEL
    ensures b.live != {}
    ensures forall x: nat :: x in b.live ==> x < |b.val| == |b.fixed| == Vertices(g) && 0 <= b.val[x] < SENTINEL
    ensures Scored(g, huge, window, order, |order|, b, off) && AtPeak(g, huge, window, order, b)
    ensures AreVertices(g, order) && Simple(g) && |off| == |b.val| == |b.fixed| == |b.peak| == Vertices(g)
  {
    hide AtPeak, Score;
    SomeoneLeft(zero + order, Vertices(g));
    ScoreCapped(g, huge, window, order, |order|, off, cap);
  }

  /** The first half of a round: the next vertex is extracted, protected and appended to the order. */
  method TakeNext(g: Net, huge: nat, window: nat, heap: UH.UnitHeap, ghost zero: seq<nat>, order: seq<nat>,
                  popvexist: seq<bool>, ghost b: Book, ghost off: seq<int>, ghost room: Room, ghost cap: nat)
    returns (v: nat, ghost gone: Book, ghost off': seq<int>, ghost gain: int)
    requires Running(g, huge, window, zero, order, popvexist, b, off) && Holds(heap, b)
    requires |zero + order| < Vertices(g) && Caps(g, window, cap) && cap < SENTINEL && Spare(heap, room.safe)
    requires Topped(b, room) && |heap.Header| == room.slots
    modifies heap, heap.update, heap.LinkedList
    ensures v in b.live && AreVertices(g, order + [v]) && Chosen(g, huge, window, zero, order + [v], |order|)
    ensures HasRow(g.out, v) && gain == Score(g, huge, order + [v], WindowStart(window, |order|), |order|, v)
    ensures v < heap.heapsize && gain == old(Value(heap.View(), v))
    ensures old(WellFormedHeap(heap.View()) && heap.list != []) && v == old(Settled(heap.View()).list[0])
    ensures Holds(heap, gone) && gone.live == b.live - {v}
    ensures Scored(g, huge, window, order + [v], |order|, gone, off') && AtPeak(g, huge, window, order + [v], gone)
    ensures Peaked(gone, Rescored(g, huge, window, order + [v], |order| + 1, off'))
    ensures |heap.Header| == old(|heap.Header|) && Spare(heap, room.safe) && Full(heap, room)
    ensures heap.View() == Taken(old(heap.View()))
  {
    hide Running, AtPeak, Scored, Holds, Spare, Full, Peaked, Caps, Score, Chosen, Rescored, Simple, AreVertices;
    ReadyToTake(g, huge, window, zero, order, popvexist, b, off, cap);
    ghost var key: int;
    v, key := Extract(heap, b, room.safe);
    gain := b.val[v];
    ExtractedIsChosen(g, huge, window, zero, order, popvexist, b, off, v, key);
    RetiredScored(g, huge, window, order, b, off, v, key);
    ghost var retired := Retired(b, v, key);
    off' := off[v := off[v] + key + SENTINEL - b.val[v]];
    SamePeaks(g, huge, window, order, b, retired);
    ToppedIsFull(heap, retired, room);
    gone := Raised(retired, Rescored(g, huge, window, order + [v], |order| + 1, off'));
    RaisedReady(g, huge, window, heap, order, v, retired, off');
  }

  /** One round of the loop: extract, protect, slide the window. The program quits only when somebody who is
      left comes to the end of the run index; if the round is calm, exactly then. */
  method PlaceNext(g: Net, huge: nat, window: nat, heap: UH.UnitHeap, ghost zero: seq<nat>, order: seq<nat>,
                   popvexist: seq<bool>, ghost b: Book, ghost off: seq<int>, ghost safe: set<nat>, ghost cap: nat)
    returns (ok: bool, order': seq<nat>, marks: seq<bool>,
             ghost b': Book, ghost off': seq<int>, ghost gain: int)
    requires Running(g, huge, window, zero, order, popvexist, b, off) && Holds(heap, b)
    requires |zero + order| < Vertices(g) && Caps(g, window, cap) && cap < SENTINEL && Spare(heap, safe)
    modifies heap, heap.update, heap.LinkedList
    ensures ok ==> Running(g, huge, window, zero, order', marks, b', off') && Holds(heap, b')
    ensures |order'| == |order| + 1 && order'[..|order|] == order && AreVertices(g, order')
    ensures Chosen(g, huge, window, zero, order', |order|)
    ensures gain == Score(g, huge, order', WindowStart(window, |order|), |order|, order'[|order|])
    ensures order'[|order|] < heap.heapsize && gain == old(Value(heap.View(), order'[|order|]))
    ensures Gives(g, window, order', old(heap.View()))
    ensures ok ==> heap.View() == Slid(g, huge, window, order', Taken(old(heap.View())))
    ensures ok ==> |heap.Header| >= old(|heap.Header|)
    ensures if ok then Spare(heap, safe) else Outgrown(g, huge, window, zero, order', old(|heap.Header|), safe)
    ensures Calm(g, huge, window, zero, order', |order|, old(|heap.Header|)) ==>
              && (ok ==> |heap.Header| == old(|heap.Header|))
              && (ok <==> !Outgrown(g, huge, window, zero, order', old(|heap.Header|), {}))
  {
    hide AtPeak, Chosen, Holds, Spare, Full, Low, Peaked, Score, Rescored, Outgrown, Reached, Calm, Topped, Topping;
    hide Running, Scored, AreVertices, Simple, Caps, Slid, Taken, WellFormedHeap, Settled;
    ghost var gone, slots := b, |heap.Header|;
    RunningMeans(g, huge, window, zero, order, popvexist, b, off);
    ghost var room := Topping(b, safe, slots);
    var v;
    v, gone, off', gain := TakeNext(g, huge, window, heap, zero, order, popvexist, b, off, room, cap);
    order' := order + [v];
    OrderBelow(zero, order, v, Vertices(g));
    ScoredMeans(g, huge, window, order', |order|, gone, off');
    LeftAfter(g, huge, window, zero, order, popvexist, b, off, v);
    if Calm(g, huge, window, zero, order', |order|, slots) {
      CalmIsLow(g, huge, window, zero, order, popvexist, b, off, v, gone, off', room);
    }
    ok, marks := Slide(g, huge, window, heap, order', popvexist, gone, off', room);
    b' := With(gone, Rescored(g, huge, window, order', |order'|, off'));
    if ok {
      RescoredIsScored(g, huge, window, order', gone, off');
      SamePeaks(g, huge, window, order', gone, b');
      StillRunning(g, huge, window, zero, order, popvexist, b, off, v, b', off', marks);
      if Calm(g, huge, window, zero, order', |order|, slots) {
        FullMeans(heap, room);
        NobodyOutgrew(g, huge, window, heap, zero, order', marks, b', off', room);
      }
    } else {
      ReachedIsOutgrown(g, huge, window, zero, order', gone, off', slots, safe);
    }
  }

  lemma RunningMeans(g: Net, huge: nat, window: nat, zero: seq<nat>, order: seq<nat>, popvexist: seq<bool>,
                     b: Book, off: seq<int>)
    requires Running(g, huge, window, zero, order, popvexist, b, off)
    ensures window > 0 && order != [] && Below(zero + order, Vertices(g)) && AreVertices(g, order)
    ensures |b.val| == |b.peak| == |popvexist| == Vertices(g) && Unmarked(popvexist)
  {
  }

  lemma ScoredMeans(g: Net, huge: nat, window: nat, order: seq<nat>, k: nat, b: Book, off: seq<int>)
    requires Scored(g, huge, window, order, k, b, off)
    ensures Fitting(g, b) && Simple(g) && Offsets(b, off) && |b.val| == |b.peak| == |off| == Vertices(g)
  {
  }

  lemma RescoredIsScored(g: Net, huge: nat, window: nat, order: seq<nat>, b: Book, off: seq<int>)
    requires Fitting(g, b) && AreVertices(g, order) && Offsets(b, off)
    ensures Scored(g, huge, window, order, |order|, With(b, Rescored(g, huge, window, order, |order|, off)), off)
  {
  }

  /** In a calm round only the vertices at the top get near the end of the index. */
  lemma CalmIsLow(g: Net, huge: nat, window: nat, zero: seq<nat>, order: seq<nat>, popvexist: seq<bool>,
                  b: Book, off: seq<int>, v: nat, gone: Book, off': seq<int>, room: Room)
    requires Running(g, huge, window, zero, order, popvexist, b, off) && gone.live == b.live - {v}
    requires Scored(g, huge, window, order + [v], |order|, gone, off')
    requires Calm(g, huge, window, zero, order + [v], |order|, room.slots)
    requires |b.val| == |b.peak| && room == Topping(b, room.safe, room.slots)
    ensures Low(gone.live, Rescored(g, huge, window, order + [v], |order| + 1, off'), room)
  {
    hide Score, PeakOf, Simple;
    LeftAfter(g, huge, window, zero, order, popvexist, b, off, v);
    var order', k := order + [v], |order|;
    assert order'[..k + 1] == order';
    forall x: nat | x < Vertices(g) && x in gone.live && x !in room.tall
      ensures HasRow(g.out, x) && Score(g, huge, order', WindowStart(window, k + 1), k + 1, x) + 4 < room.slots
    {
      PeakSame(g, huge, window, order', order, k, x);
      ScoreSame(g, huge, order', order, WindowStart(window, k), k, x);
    }
  }

  /** Nobody who is left has come to the end of an index that has kept its length. */
  lemma NobodyOutgrew(g: Net, huge: nat, window: nat, heap: UH.UnitHeap, zero: seq<nat>, order: seq<nat>,
                      popvexist: seq<bool>, b: Book, off: seq<int>, room: Room)
    requires Running(g, huge, window, zero, order, popvexist, b, off) && Holds(heap, b)
    requires Full(heap, room) && Low(b.live, b.val, room)
    ensures AreVertices(g, order) && !Outgrown(g, huge, window, zero, order, room.slots, {})
  {
    hide Score, AtPeak, Simple, Holds, Full;
    forall w: nat | w < Vertices(g) && HasRow(g.out, w) && w !in zero && w !in order
      ensures Score(g, huge, order, WindowStart(window, |order|), |order|, w) < room.slots
    {
      assert w !in zero + order;
      if w in room.tall {
        FullIsLow(heap, b, room, w);
      }
    }
  }

  lemma LeftAfter(g: Net, huge: nat, window: nat, zero: seq<nat>, order: seq<nat>, popvexist: seq<bool>,
                  b: Book, off: seq<int>, v: nat)
    requires Running(g, huge, window, zero, order, popvexist, b, off)
    ensures forall x: nat :: x in b.live - {v} ==> x < Vertices(g) && x !in zero && x !in order + [v]
  {
    forall x: nat | x in b.live - {v} ensures x < Vertices(g) && x !in zero && x !in order + [v] {
      assert x !in zero + order;
    }
  }

  /** What the heap calls reaching the number of slots, stated on the scores. */
  lemma ReachedIsOutgrown(g: Net, huge: nat, window: nat, zero: seq<nat>, order: seq<nat>, b: Book, off: seq<int>,
                          slots: nat, safe: set<nat>)
    requires Fitting(g, b) && AreVertices(g, order) && Offsets(b, off)
    requires forall x: nat :: x in b.live ==> x < Vertices(g) && x !in zero && x !in order
    requires Reached(b, Rescored(g, huge, window, order, |order|, off), slots, safe)
    ensures Outgrown(g, huge, window, zero, order, slots, safe) && Outgrown(g, huge, window, zero, order, slots, {})
  {
    hide Simple, Score;
  }

  lemma OrderBelow(zero: seq<nat>, order: seq<nat>, v: nat, n: nat)
    requires Below(zero + order, n) && v < n
    ensures Below(order + [v], n)
  {
    forall i | 0 <= i < |order| ensures order[i] < n {
      assert order[i] == (zero + order)[|zero| + i];
    }
  }

  // ---------- The result ----------

  method Finish(order: seq<nat>, zero: seq<nat>, n: nat) returns (retorder: seq<nat>)
    requires order != [] && IsPermutation(zero + order, n)
    ensures Inverse(retorder, Spliced(order, zero), n)
  {
    var final := Spliced(order, zero);
    SplicedPermutes(order, zero, n);
    retorder := seq(n, _ => 0);
    for i := 0 to n
      invariant |retorder| == n && forall j :: 0 <= j < i ==> retorder[final[j]] == j
    {
      retorder := retorder[final[i] := i];
    }
    TableInverts(final, retorder, n);
  }

  lemma FirstValues(g: Net, huge: nat, window: nat, v: nat, b: Book)
    requires Fitting(g, b) && v < Vertices(g) && window > 0
    ensures AreVertices(g, [v])
    ensures Moved(g, huge, v, b, true) == Rescored(g, huge, window, [v], 1, b.val)
  {
    assert HasRow(g.out, v) && HasRow(g.inn, v);
    var a, c := Moved(g, huge, v, b, true), Rescored(g, huge, window, [v], 1, b.val);
    forall w | 0 <= w < |b.val| ensures a[w] == c[w] {
      assert Score(g, huge, [v], 0, 0, w) == 0;
    }
  }

  lemma FirstAtPeak(g: Net, huge: nat, window: nat, v: nat, b: Book, off: seq<int>)
    requires Fitting(g, b) && AreVertices(g, [v]) && Offsets(b, off) && b.peak == InDegrees(g)
    ensures AtPeak(g, huge, window, [v], Raised(b, Rescored(g, huge, window, [v], 1, off)))
  {
    assert [] + [v] == [v];
    assert AtPeak(g, huge, window, [], b) by {
      forall w: nat | w < |b.peak| ensures HasRow(g.out, w) && HasRow(g.inn, w) {
        assert HasRow(g.out, w) && HasRow(g.inn, w);
      }
    }
    RaisedAtPeak(g, huge, window, [], v, b, off);
  }

  /** The first vertex is out of the heap, and its window is about to be added. */
  ghost predicate FirstOut(g: Net, huge: nat, window: nat, v: nat, zero: seq<nat>, b: Book, off: seq<int>) {
    && Fitting(g, b) && Offsets(b, off) && b.val == off && v < Vertices(g) && window > 0
    && zero == Zeros(g, Vertices(g)) && v !in zero
    && (forall x: nat :: x in b.live <==> x < Vertices(g) && x !in zero && x != v)
    && AreVertices(g, [v]) && AtPeak(g, huge, window, [v], b)
    && Moved(g, huge, v, b, true) == Rescored(g, huge, window, [v], 1, off)
  }

  lemma FirstOutMeans(g: Net, huge: nat, window: nat, v: nat, zero: seq<nat>, b: Book, off: seq<int>)
    requires FirstOut(g, huge, window, v, zero, b, off)
    ensures Fitting(g, b) && v < Vertices(g) && HasRow(g.out, v) && HasRow(g.inn, v)
  {
    assert HasRow(g.out, [v][0]) && HasRow(g.inn, [v][0]);
  }

  /** Deleting the first vertex and letting the peaks follow its window gets there. */
  lemma FirstRetired(g: Net, huge: nat, window: nat, v: nat, zero: seq<nat>, scanned: Book, key: int)
    requires Scanned(g, Vertices(g), zero, scanned) && window > 0 && v < Vertices(g) && v !in zero
    ensures
      var retired := Retired(scanned, v, key);
      var off := retired.val;
      && Simple(g) && AreVertices(g, [v]) && |off| == |retired.peak| == Vertices(g)
      && FirstOut(g, huge, window, v, zero, Raised(retired, Rescored(g, huge, window, [v], 1, off)), off)
  {
    hide AtPeak, Rescored, Moved, Zeros, Simple, StrictRows;
    var retired := Retired(scanned, v, key);
    FirstValues(g, huge, window, v, retired);
    var gone := Raised(retired, Rescored(g, huge, window, [v], 1, retired.val));
    FirstAtPeak(g, huge, window, v, retired, retired.val);
    FirstValues(g, huge, window, v, gone);
  }

  /** The first vertex is deleted and protected. */
  method TakeFirst(g: Net, huge: nat, window: nat, heap: UH.UnitHeap, v: nat, ghost zero: seq<nat>,
                   ghost scanned: Book)
    returns (ghost gone: Book, ghost off: seq<int>)
    requires Holds(heap, scanned) && Scanned(g, Vertices(g), zero, scanned) && window > 0
    requires v < Vertices(g) && v !in zero
    modifies heap, heap.update, heap.LinkedList
    ensures Holds(heap, gone) && FirstOut(g, huge, window, v, zero, gone, off)
    ensures heap.View() == Without(old(heap.View()), v, SENTINEL)
    ensures |heap.Header| == old(|heap.Header|) && Keys(heap.LinkedList[..]) == old(Keys(heap.LinkedList[..]))
  {
    hide Holds, FirstOut, AreVertices;
    ghost var key := Retire(heap, v, scanned, {});
    ghost var retired := Retired(scanned, v, key);
    off := retired.val;
    FirstRetired(g, huge, window, v, zero, scanned, key);
    ghost var first := Rescored(g, huge, window, [v], 1, off);
    RaisedHolds(heap, retired, first);
    gone := Raised(retired, first);
  }

  lemma FirstPeak(g: Net, huge: nat, window: nat, v: nat, x: nat)
    requires Simple(g) && v < Vertices(g) && x < Vertices(g) && AreVertices(g, [v]) && window > 0
    ensures HasRow(g.out, x) && HasRow(g.inn, x) && HasRow(g.out, v) && HasRow(g.inn, v)
    ensures PeakOf(g, huge, window, [v], 1, x) == Larger(Degree(g.inn, x), Contribution(g, huge, v, x))
  {
    assert HasRow(g.out, x) && HasRow(g.inn, x) && HasRow(g.out, [v][0]) && HasRow(g.inn, [v][0]);
    assert Score(g, huge, [v], 0, 0, x) == 0;
    assert PeakOf(g, huge, window, [v], 0, x) == Degree(g.inn, x);
  }

  /** With the first vertex in the window everybody else has what it contributes. */
  lemma FirstBrings(g: Net, huge: nat, window: nat, v: nat, zero: seq<nat>, b: Book, off: seq<int>, w: nat)
    requires FirstOut(g, huge, window, v, zero, b, off) && w in b.live
    ensures Fitting(g, b) && w < Vertices(g) && w != v
    ensures HasRow(g.out, v) && HasRow(g.inn, v) && HasRow(g.out, w)
    ensures HasRow(g.inn, w) && b.peak[w] == Larger(Degree(g.inn, w), Contribution(g, huge, v, w))
    ensures Moved(g, huge, v, b, true)[w] == Contribution(g, huge, v, w)
  {
    FirstOutMeans(g, huge, window, v, zero, b, off);
    FirstPeak(g, huge, window, v, w);
    assert Score(g, huge, [v], 0, 0, w) == 0;
  }

  lemma ListedIsLive(heap: UH.UnitHeap, b: Book, x: nat)
    requires Holds(heap, b) && x in heap.list
    ensures x in b.live && x < |b.val|
  {
    assert InRange(heap.list, heap.View().key);
    assert StandsAt(heap.View(), b, x);
  }

  /** What the first vertex brings stays below the peaks. */
  lemma FirstPeaked(g: Net, huge: nat, window: nat, v: nat, zero: seq<nat>, b: Book, off: seq<int>)
    requires FirstOut(g, huge, window, v, zero, b, off)
    ensures Fitting(g, b) && v < Vertices(g) && Peaked(b, Moved(g, huge, v, b, true))
  {
    FirstOutMeans(g, huge, window, v, zero, b, off);
    forall w: nat | w in b.live
      ensures w < Vertices(g) && HasRow(g.out, w)
      ensures Moved(g, huge, v, b, true)[w] <= b.peak[w]
    {
      FirstBrings(g, huge, window, v, zero, b, off, w);
    }
  }

  /** A vertex with an edge. */
  ghost predicate Touched(g: Net, e: nat) {
    e < Vertices(g) && HasRow(g.out, e) && HasRow(g.inn, e) && !Isolated(g, e)
  }

  lemma RowTouched(g: Net, u: nat, k: nat)
    requires Simple(g) && u < Vertices(g) && HasRow(g.out, u) && g.out.VI[u] <= k < RowEnd(g.out, u)
    ensures Touched(g, u) && Touched(g, g.out.EI[k])
  {
    var w := g.out.EI[k];
    EdgeOnce(g, u, w);
    assert HasRow(g.inn, u) && HasRow(g.out, w);
    OccursIff(g.out.EI, g.out.VI[u], RowEnd(g.out, u), w);
  }

  lemma ParentTouched(g: Net, huge: nat, x: nat, i: nat)
    requires Simple(g) && x < Vertices(g) && HasRow(g.inn, x) && g.inn.VI[x] <= i < RowEnd(g.inn, x)
    ensures HasRow(g.out, g.inn.EI[i])
    ensures forall e :: e in ParentSteps(g, huge, g.inn.EI[i], false) ==> Touched(g, e)
  {
    var u := g.inn.EI[i];
    assert HasRow(g.out, u);
    EdgeOnce(g, u, x);
    OccursIff(g.inn.EI, g.inn.VI[x], RowEnd(g.inn, x), u);
    OccursIff(g.out.EI, g.out.VI[u], RowEnd(g.out, u), x);
    var one :| g.out.VI[u] <= one < RowEnd(g.out, u) && g.out.EI[one] == x;
    RowTouched(g, u, one);
    ChildrenTouched(g, u);
  }

  lemma ChildrenTouched(g: Net, u: nat)
    requires Simple(g) && u < Vertices(g) && HasRow(g.out, u)
    ensures forall e :: e in Row(g.out, u) ==> Touched(g, e)
  {
    forall e | e in Row(g.out, u) ensures Touched(g, e) {
      var k :| 0 <= k < |Row(g.out, u)| && Row(g.out, u)[k] == e;
      RowTouched(g, u, g.out.VI[u] + k);
    }
  }

  lemma {:induction false} ParentsTouched(g: Net, huge: nat, x: nat, i: nat)
    requires Simple(g) && x < Vertices(g) && HasRow(g.inn, x) && g.inn.VI[x] <= i <= RowEnd(g.inn, x)
    ensures forall e :: e in ParentsSteps(g, huge, x, i, {}) ==> Touched(g, e)
    decreases i
  {
    hide Simple, ParentSteps, Touched;
    if i > g.inn.VI[x] {
      ParentsTouched(g, huge, x, i - 1);
      ParentTouched(g, huge, x, i - 1);
      ParentsNext(g, huge, x, i - 1, {});
    }
  }

  /** Before the first vertex enters the window: what is true of the slots. */
  lemma FirstTracks(g: Net, huge: nat, window: nat, heap: UH.UnitHeap, v: nat, zero: seq<nat>, b: Book,
                    off: seq<int>)
    requires Holds(heap, b) && FirstOut(g, huge, window, v, zero, b, off)
    requires Keys(heap.LinkedList[..]) == InDegrees(g) && |heap.Header| == RunSlots(g)
    ensures Simple(g) && Spare(heap, Slotted(g))
    ensures HasRow(g.out, v) && HasRow(g.inn, v) && Track(heap, b, FirstRaising(g, huge, v), 0)
  {
    hide Holds, AtPeak, Contribution, ParentsSteps, Moved;
    FirstOutMeans(g, huge, window, v, zero, b, off);
    forall x | x in heap.list ensures x in b.live && x < |b.val| {
      ListedIsLive(heap, b, x);
    }
    ParentsTouched(g, huge, v, RowEnd(g.inn, v));
    ChildrenTouched(g, v);
    var names := FirstSteps(g, huge, v);
    forall i | 0 <= i < |names| ensures names[i] == v || names[i] in b.live {
      assert names[i] in names;
      assert Touched(g, names[i]);
    }
  }

  /** That is the loop invariant for one placed vertex. */
  lemma FirstRuns(g: Net, huge: nat, window: nat, v: nat, zero: seq<nat>, b: Book, off: seq<int>, marks: seq<bool>)
    requires FirstOut(g, huge, window, v, zero, b, off) && |marks| == Vertices(g) && Unmarked(marks)
    ensures Fitting(g, b) && v < Vertices(g)
    ensures Running(g, huge, window, zero, [v], marks, With(b, Moved(g, huge, v, b, true)), off)
  {
    SamePeaks(g, huge, window, [v], b, With(b, Moved(g, huge, v, b, true)));
    hide AtPeak;
    assert (zero + [v])[|zero|] == v;
  }

  /** The first vertex is deleted and enters the window. The program quits here exactly when the run
      index is used up before it grows, and then somebody else has a score it is too short for; once it
      has grown, everybody has a slot to spare. */
  method PlaceFirst(g: Net, huge: nat, window: nat, heap: UH.UnitHeap, tmpindex: nat, zero: seq<nat>,
                    ghost scanned: Book)
    returns (ok: bool, popvexist: seq<bool>, ghost b: Book, ghost off: seq<int>)
    requires Holds(heap, scanned) && Scanned(g, Vertices(g), zero, scanned) && window > 0
    requires tmpindex < Vertices(g) && tmpindex !in zero
    requires Keys(heap.LinkedList[..]) == InDegrees(g) && |heap.Header| == RunSlots(g)
    modifies heap, heap.update, heap.LinkedList
    ensures ok ==> Running(g, huge, window, zero, [tmpindex], popvexist, b, off) && Holds(heap, b)
    ensures ok ==> |heap.Header| >= old(|heap.Header|)
    ensures ok && !Grows(FirstRaising(g, huge, tmpindex)) ==> |heap.Header| == old(|heap.Header|)
    ensures
      if ok then Spare(heap, Slotted(g))
      else Outgrown(g, huge, window, zero, [tmpindex], RunSlots(g), Slotted(g))
    ensures HasRow(g.out, tmpindex) && HasRow(g.inn, tmpindex)
    ensures ok <==> !Quits(FirstRaising(g, huge, tmpindex))
    ensures
      var steps := FirstSteps(g, huge, tmpindex);
      ok ==> heap.View() == BumpedBy(Without(old(heap.View()), tmpindex, SENTINEL), steps)
    ensures Grows(FirstRaising(g, huge, tmpindex)) ==> ok && Spare(heap, b.live)
  {
    hide FirstOut, Running, Holds, Peaked, Spare, TrackIn, Quits, Grows, Quiet, FirstSteps, Slotted, Outgrown, Reached;
    hide BumpedBy, Without;
    ghost var gone;
    popvexist := seq(Vertices(g), _ => false);
    gone, off := TakeFirst(g, huge, window, heap, tmpindex, zero, scanned);
    FirstTracks(g, huge, window, heap, tmpindex, zero, gone, off);
    ghost var r := FirstRaising(g, huge, tmpindex);
    FirstPeaked(g, huge, window, tmpindex, zero, gone, off);
    ok, popvexist := EnterFirst(g, huge, heap, tmpindex, popvexist, gone, Room(Slotted(g), {}, 0), r);
    b := With(gone, Moved(g, huge, tmpindex, gone, true));
    EitherQuitsOrGrows(r);
    if ok {
      TrackedToTheEnd(heap, b, r);
      FirstRuns(g, huge, window, tmpindex, zero, gone, off, popvexist);
    } else {
      FirstOutgrown(g, huge, window, tmpindex, zero, gone, off);
    }
  }

  lemma FirstOutgrown(g: Net, huge: nat, window: nat, v: nat, zero: seq<nat>, b: Book, off: seq<int>)
    requires FirstOut(g, huge, window, v, zero, b, off)
    ensures Fitting(g, b) && v < Vertices(g)
    ensures Reached(b, Moved(g, huge, v, b, true), RunSlots(g), Slotted(g)) ==>
              Outgrown(g, huge, window, zero, [v], RunSlots(g), Slotted(g))
  {
    hide AtPeak, Outgrown, Slotted, Score, Reached, RunSlots;
    if Reached(b, Moved(g, huge, v, b, true), RunSlots(g), Slotted(g)) {
      ReachedIsOutgrown(g, huge, window, zero, [v], b, off, RunSlots(g), Slotted(g));
    }
  }

  lemma TrackedToTheEnd(heap: UH.UnitHeap, b: Book, r: Raising)
    requires Track(heap, b, r, |r.names|)
    ensures !Quits(r) && if Grows(r) then Spare(heap, b.live) else |heap.Header| == r.slots
  {
    EitherQuitsOrGrows(r);
    hide Quits, Grows;
  }

  lemma RunningBounds(g: Net, huge: nat, window: nat, zero: seq<nat>, order: seq<nat>, popvexist: seq<bool>,
                      b: Book, off: seq<int>)
    requires Running(g, huge, window, zero, order, popvexist, b, off)
    ensures |zero + order| <= Vertices(g)
    ensures |zero + order| == Vertices(g) ==> IsPermutation(zero + order, Vertices(g))
    ensures AreVertices(g, order)
  {
    Pigeonhole(zero + order, Vertices(g));
  }

  /** The loop: until every vertex that is not isolated has its place. */
  method PlaceAll(g: Net, huge: nat, window: nat, heap: UH.UnitHeap, zero: seq<nat>, first: nat, marks: seq<bool>,
                  ghost b0: Book, ghost off0: seq<int>, ghost slots: nat, ghost safe: set<nat>, ghost cap: nat)
    returns (ok: bool, order: seq<nat>, ghost gains: seq<int>, ghost heaps: seq<HeapView>)
    requires Running(g, huge, window, zero, [first], marks, b0, off0) && Holds(heap, b0)
    requires |zero| < Vertices(g) && Caps(g, window, cap) && cap < SENTINEL
    requires slots <= |heap.Header| && Spare(heap, safe) && Begins(g, huge, first, heap.View())
    modifies heap, heap.update, heap.LinkedList
    ensures order != [] && order[0] == first && NearGreedy(g, huge, window, zero, order, gains)
    ensures if ok then IsPermutation(zero + order, Vertices(g)) else Outgrown(g, huge, window, zero, order, slots, safe)
    ensures slots == old(|heap.Header|) ==> EndsExactly(g, huge, window, zero, order, slots, ok)
    ensures Replays(g, huge, window, order, heaps) && (ok ==> |heaps| == |order|)
  {
    hide Replays, Begins, Gives, Slid, Taken;
    hide Running, Holds, Spare, NearGreedy, Caps, EndsExactly, CalmTo, Chosen, Calm, Score, Simple;
    var n := Vertices(g);
    var popvexist := marks;
    ghost var b, off := b0, off0;
    RunningBounds(g, huge, window, zero, [first], marks, b0, off0);
    FirstIsNearGreedy(g, huge, window, zero, first);
    FirstEndsExactly(g, huge, window, zero, first, slots);
    ok := true;
    order, gains, heaps := [first], [0], [heap.View()];
    ReplaysFirst(g, huge, window, first, heap.View());
    var count := 0;
    while count < n - 1 - |zero|
      invariant count == |order| - 1 <= n - 1 - |zero|
      invariant Running(g, huge, window, zero, order, popvexist, b, off) && Holds(heap, b)
      invariant order[0] == first && NearGreedy(g, huge, window, zero, order, gains)
      invariant Replays(g, huge, window, order, heaps) && |heaps| == |order| && heaps[|heaps| - 1] == heap.View()
      invariant slots <= |heap.Header| && Spare(heap, safe) && AreVertices(g, order)
      invariant slots == old(|heap.Header|) ==>
                  && EndsExactly(g, huge, window, zero, order, slots, true)
                  && (CalmTo(g, huge, window, zero, order, |order|, slots) ==> |heap.Header| == slots)
    {
      ghost var before := order;
      ghost var gain;
      ok, order, popvexist, b, off, gain := PlaceNext(g, huge, window, heap, zero, order, popvexist, b, off, safe, cap);
      assert order == before + [order[|before|]];
      if slots == old(|heap.Header|) {
        CalmAgain(g, huge, window, zero, before, order[|before|], slots);
        EndsExactlyNext(g, huge, window, zero, before, order[|before|], slots, ok);
      }
      NearGreedyExtend(g, huge, window, zero, before, gains, order[|before|], gain);
      gains := gains + [gain];
      ReplaysMore(g, huge, window, before, heaps, order[|before|], heap.View());
      if !ok {
        return;
      }
      heaps := heaps + [heap.View()];
      count := count + 1;
    }
    RunningBounds(g, huge, window, zero, order, popvexist, b, off);
  }

  lemma FirstEndsExactly(g: Net, huge: nat, window: nat, zero: seq<nat>, first: nat, slots: nat)
    requires AreVertices(g, [first])
    ensures EndsExactly(g, huge, window, zero, [first], slots, true)
  {
  }

  lemma FirstIsNearGreedy(g: Net, huge: nat, window: nat, zero: seq<nat>, first: nat)
    requires AreVertices(g, [first])
    ensures NearGreedy(g, huge, window, zero, [first], [0])
  {
  }

  /** The whole ordering; `huge` is the truncated square root of the number of vertices. The order is
      near-greedy from the first vertex of largest in-degree on, as far as it got, and every round takes the vertex
      that a plain sorted list with pending changes gives (heaps are the lists the rounds start from). When the
      run does not quit, retorder is a permutation: it numbers the vertices in that order, with the isolated ones, by
      ascending number, in front of the last one. When it quits, some vertex that is left and had no slot to
      spare at the start has a score that the first run index is too short for. So it cannot quit when
      everybody but the first vertex has a slot to spare, nor when no window can bring such a score; nor when
      the first vertex makes the run index longer. It does quit when the first vertex uses the index up. And
      when the first vertex does neither, it quits exactly in the first round that brings somebody such a
      score, as long as all rounds are calm. */
  method GorderGreedy(g: Net, huge: nat, window: nat, ghost cap: nat)
    returns (ok: bool, retorder: seq<nat>, ghost order: seq<nat>, ghost gains: seq<int>,
             ghost heaps: seq<HeapView>)
    requires Simple(g) && Vertices(g) >= 2 && window > 0
    requires Caps(g, window, cap) && cap < SENTINEL
    ensures order != [] && Leads(g, order[0], Vertices(g))
    ensures NearGreedy(g, huge, window, Zeros(g, Vertices(g)), order, gains)
    ensures Replays(g, huge, window, order, heaps) && (ok ==> |heaps| == |order|)
    ensures ok ==> Inverse(retorder, Spliced(order, Zeros(g, Vertices(g))), Vertices(g))
    ensures ok ==> IsPermutation(retorder, Vertices(g)) && NumberedBy(retorder, order, Zeros(g, Vertices(g)))
    ensures !ok ==> Outgrown(g, huge, window, Zeros(g, Vertices(g)), order, RunSlots(g), Slotted(g))
    ensures !Overflows(g, huge) && !Relieved(g, huge) ==>
              EndsExactly(g, huge, window, Zeros(g, Vertices(g)), order, RunSlots(g), ok)
    ensures Spacious(g) || Relieved(g, huge) || Modest(g, huge, window) ==> ok
    ensures Overflows(g, huge) ==> !ok
  {
    hide Holds, Leads, Scanned, Running, NearGreedy, Spare, Spacious, Overflows, Relieved, Modest, Outgrown, Quits;
    hide Grows, FirstRaising, SpareBeside, Simple, Inverse, Spliced, Slotted, EndsExactly, NumberedBy;
    hide Replays, Begins, AtStart, BumpedBy, Without, WithoutAll, FirstSteps;
    retorder := [];
    var heap := BuildHeap(g);
    ghost var start := heap.View();
    var tmpindex, zero, popvexist, placed;
    ghost var b, off;
    tmpindex, zero, b := ChooseFirst(g, heap);
    ScannedMeans(g, tmpindex, zero, b);
    FirstDecides(g, huge, tmpindex);
    ok, popvexist, b, off := PlaceFirst(g, huge, window, heap, tmpindex, zero, b);
    order, gains, heaps := [tmpindex], [0], [];
    FirstIsNearGreedy(g, huge, window, zero, tmpindex);
    ReplaysFirst(g, huge, window, tmpindex, heap.View());
    if ok {
      ghost var safe := if Relieved(g, huge) then b.live else Slotted(g);
      BeginsFrom(g, huge, tmpindex, start, heap.View());
      ok, placed, gains, heaps :=
        PlaceAll(g, huge, window, heap, zero, tmpindex, popvexist, b, off, RunSlots(g), safe, cap);
      order := placed;
      LiveOutgrown(g, huge, window, zero, tmpindex, popvexist, b, off, placed);
    }
    if ok {
      retorder := Finish(placed, zero, Vertices(g));
      InversePermutations(retorder, Spliced(placed, zero), Vertices(g));
      SplicedNumbers(retorder, placed, zero, Vertices(g));
    } else {
      NotOutgrown(g, huge, window, zero, order, gains);
    }
  }

  /** Whoever is left after the first vertex was left then. */
  lemma LiveOutgrown(g: Net, huge: nat, window: nat, zero: seq<nat>, first: nat, popvexist: seq<bool>, b: Book,
                     off: seq<int>, order: seq<nat>)
    requires Running(g, huge, window, zero, [first], popvexist, b, off) && order != [] && order[0] == first
    ensures !Outgrown(g, huge, window, zero, order, RunSlots(g), b.live)
  {
    hide Score, Simple, AtPeak;
    forall w: nat | w < Vertices(g) && w !in zero && w !in order ensures w in b.live {
      assert w !in zero + [first];
    }
  }

  lemma NotOutgrown(g: Net, huge: nat, window: nat, zero: seq<nat>, order: seq<nat>, gains: seq<int>)
    requires Simple(g) && NearGreedy(g, huge, window, zero, order, gains) && order != []
    requires Leads(g, order[0], Vertices(g))
    ensures Spacious(g) || Modest(g, huge, window) ==>
              !Outgrown(g, huge, window, zero, order, RunSlots(g), Slotted(g))
  {
    hide Chosen, Modest, Outgrown, RunSlots, Slotted, SpareBeside;
    if Spacious(g) {
      SpaciousNotOutgrown(g, huge, window, zero, order);
    } else if Modest(g, huge, window) {
      ModestNotOutgrown(g, huge, window, zero, order);
    }
  }

  lemma ScannedMeans(g: Net, v: nat, zero: seq<nat>, b: Book)
    requires Scanned(g, Vertices(g), zero, b) && Leads(g, v, Vertices(g)) && v !in zero
    ensures zero == Zeros(g, Vertices(g)) && |zero| < Vertices(g) && v < Vertices(g)
  {
    Pigeonhole(zero + [v], Vertices(g));
  }
}
