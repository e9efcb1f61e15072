/** The heap as the greedy ordering uses it: scores go up and down by one, and deleted vertices
    are protected by a large positive pending change. */
module GorderHeap {
  import opened Permutations
  import opened Csr
  import opened UnitHeapSpec
  import opened UnitHeapLinks
  import UH = UnitHeap

  /** live: the vertices not yet placed; val: key plus pending change of every vertex; fixed: the
      key with which a vertex was deleted; peak: the most a live vertex has been worth. */
  datatype Book = Book(live: set<nat>, val: seq<int>, fixed: seq<int>, peak: seq<int>)

  /** A live vertex owes a decrement or nothing, and its key is not above its peak; a deleted one never
      reaches pending change zero. */
  ghost predicate StandsAt(h: HeapView, b: Book, x: nat)
    requires x < |h.key| == |h.pending| == |b.val| == |b.fixed| == |b.peak|
  {
    && (x in h.list <==> x in b.live)
    && Value(h, x) == b.val[x]
    && (if x in b.live then h.pending[x] <= 0 && h.key[x] <= b.peak[x] else h.key[x] == b.fixed[x] < b.val[x])
  }

  ghost predicate Stands(h: HeapView, b: Book) {
    && |h.key| == |h.pending| == |b.val| == |b.fixed| == |b.peak|
    && forall x: nat :: x < |b.val| ==> StandsAt(h, b, x)
  }

  ghost predicate Holds(heap: UH.UnitHeap, b: Book)
    reads heap, heap.update, heap.LinkedList
  {
    heap.Valid() && heap.heapsize == |b.val| && Stands(heap.View(), b)
  }

  lemma StandsAfterPending(h: HeapView, b: Book, w: nat, d: int)
    requires Stands(h, b) && w < |b.val|
    requires if w in b.live then h.pending[w] + d <= 0 else b.val[w] + d > b.fixed[w]
    ensures Stands(h.(pending := h.pending[w := h.pending[w] + d]), b.(val := b.val[w := b.val[w] + d]))
  {
    var h', b' := h.(pending := h.pending[w := h.pending[w] + d]), b.(val := b.val[w := b.val[w] + d]);
    forall x: nat | x < |b.val| ensures StandsAt(h', b', x) {
      assert StandsAt(h, b, x);
    }
  }

  lemma StandsAfterIncrement(h: HeapView, b: Book, w: nat)
    requires WellFormedHeap(h) && Stands(h, b) && w < |b.val| && w in b.live && w in h.list
    requires b.val[w] + 1 <= b.peak[w] && h.pending[w] == 0
    ensures Stands(Incremented(h, w), b.(val := b.val[w := b.val[w] + 1]))
  {
    var h', b' := Incremented(h, w), b.(val := b.val[w := b.val[w] + 1]);
    RekeyedWellFormed(h, w, h.key[w] + 1);
    forall x: nat | x < |b.val| ensures StandsAt(h', b', x) {
      assert StandsAt(h, b, x);
    }
  }

  // ---------- Slots of the run index ----------

  /** Every safe element has a slot for one more increment. */
  ghost predicate SpareIn(list: seq<nat>, key: seq<int>, slots: nat, safe: set<nat>) {
    forall x :: x in list && x in safe ==> x < |key| && key[x] + 1 < slots
  }

  ghost predicate Spare(heap: UH.UnitHeap, safe: set<nat>)
    reads heap, heap.LinkedList
  {
    SpareIn(heap.list, Keys(heap.LinkedList[..]), |heap.Header|, safe)
  }

  /** Some live vertex that is not safe is worth as much as the run index is long. */
  ghost predicate Reached(b: Book, val: seq<int>, slots: nat, safe: set<nat>) {
    exists x :: 0 <= x < |val| && x in b.live && x !in safe && val[x] >= slots
  }

  /** What a round knows about the run index: the safe vertices have a slot for one more increment, and the
      tall ones the last key that there is a slot for, as long as there are this many slots. */
  datatype Room = Room(safe: set<nat>, tall: set<nat>, slots: nat)

  ghost predicate FullIn(list: seq<nat>, key: seq<int>, slots: nat, room: Room) {
    slots == room.slots && forall x :: x in list && x in room.tall ==> x < |key| && key[x] + 1 == slots
  }

  /** The index has not been made longer, and the tall vertices are still tall. */
  ghost predicate Full(heap: UH.UnitHeap, room: Room)
    reads heap, heap.LinkedList
  {
    FullIn(heap.list, Keys(heap.LinkedList[..]), |heap.Header|, room)
  }

  /** Nobody but the tall vertices gets near the end of the index. */
  ghost predicate Low(live: set<nat>, val: seq<int>, room: Room) {
    forall x :: 0 <= x < |val| && x in live && x !in room.tall ==> val[x] + 4 < room.slots
  }

  /** Such an increment does not make the index longer. */
  lemma FullAfterIncrement(h: HeapView, w: nat, slots: nat, room: Room)
    requires WellFormedHeap(h) && w in h.list && FullIn(h.list, h.key, slots, room)
    ensures w in room.tall ==> h.key[w] + 1 >= slots
    ensures
      var h' := Incremented(h, w);
      w !in room.tall && h.key[w] + 5 < slots ==> FullIn(h'.list, h'.key, UH.Grown(slots, h.key[w] + 1), room)
  {
    hide Rekeyed, SortedTo;
    RekeyedWellFormed(h, w, h.key[w] + 1);
  }

  /** The increment of a safe element finds its slot, and one that finds it re-establishes what it may have
      used up. */
  lemma SlotsAfterIncrement(h: HeapView, w: nat, slots: nat, safe: set<nat>)
    requires WellFormedHeap(h) && w in h.list && 0 <= h.key[w] && SpareIn(h.list, h.key, slots, safe)
    ensures w in safe ==> h.key[w] + 1 < slots
    ensures
      var h' := Incremented(h, w);
      h.key[w] + 1 < slots ==> SpareIn(h'.list, h'.key, UH.Grown(slots, h.key[w] + 1), safe)
  {
    hide Rekeyed, SortedTo;
    RekeyedWellFormed(h, w, h.key[w] + 1);
  }

  /** Settling only lowers keys, and deleting only takes elements out. */
  lemma SlotsAfterExtract(h: HeapView, slots: nat, safe: set<nat>)
    requires WellFormedHeap(h) && h.list != [] && SpareIn(h.list, h.key, slots, safe)
    ensures
      var s := Settled(h);
      WellFormedHeap(s) && SpareIn(Deleted(s, s.list[0]).list, s.key, slots, safe)
  {
    hide Settled, SortedTo, RemoveAt;
    SettledKeeps(h);
    var s := Settled(h);
    RemoveAtSorted(s.list, s.key, IndexOf(s.list, s.list[0]));
    forall x | x in s.list && x in safe ensures x < |s.key| && s.key[x] + 1 < slots {
      assert Value(s, x) == Value(h, x);
    }
  }

  lemma SlotsAfterDelete(h: HeapView, v: nat, slots: nat, safe: set<nat>)
    requires WellFormedHeap(h) && v in h.list && SpareIn(h.list, h.key, slots, safe)
    ensures SpareIn(Deleted(h, v).list, h.key, slots, safe)
  {
    hide SortedTo, RemoveAt;
    RemoveAtSorted(h.list, h.key, IndexOf(h.list, v));
  }

  // ---------- When the first placement uses up the run index ----------

  /** The placement of the first vertex, as far as the run index is concerned: the vertices raised by
      one, in order; the keys they start with, all of them owed; the slots at the start. */
  datatype Raising = Raising(names: seq<nat>, keys: seq<int>, slots: nat, placed: nat)

  /** How often the vertex raised at step j has been raised before. */
  function Before(r: Raising, j: nat): nat
    requires j < |r.names|
  {
    Occurrences(r.names, 0, j, r.names[j])
  }

  /** Step j finds nothing owed any more, and its new key is at most four short of the number of slots. */
  predicate Critical(r: Raising, j: nat)
    requires j < |r.names|
  {
    && r.names[j] != r.placed && r.names[j] < |r.keys|
    && Before(r, j) >= r.keys[r.names[j]] && Before(r, j) + 5 >= r.slots
  }

  ghost predicate Quiet(r: Raising, j: nat)
    requires j <= |r.names|
  {
    forall i :: 0 <= i < j ==> !Critical(r, i)
  }

  /** The first critical step finds no slot for its new key ... */
  ghost predicate Quits(r: Raising) {
    exists j :: 0 <= j < |r.names| && Quiet(r, j) && Critical(r, j) && Before(r, j) + 1 >= r.slots
  }

  /** ... or it finds one, and makes the run index longer. */
  ghost predicate Grows(r: Raising) {
    exists j :: 0 <= j < |r.names| && Quiet(r, j) && Critical(r, j) && Before(r, j) + 1 < r.slots
  }

  /** There is only one first critical step. */
  lemma EitherQuitsOrGrows(r: Raising)
    ensures !(Quits(r) && Grows(r))
    ensures Quits(r) || Grows(r) <==> !Quiet(r, |r.names|)
  {
    if !Quiet(r, |r.names|) {
      var i :| 0 <= i < |r.names| && Critical(r, i);
      var j := FirstCritical(r, i);
    }
    assert forall i, j ::
        0 <= i < |r.names| && 0 <= j < |r.names| && Quiet(r, i) && Critical(r, i) && Quiet(r, j) && Critical(r, j)
        ==> i == j;
  }

  lemma {:induction false} FirstCritical(r: Raising, i: nat) returns (j: nat)
    requires i < |r.names| && Critical(r, i)
    ensures j <= i && Quiet(r, j) && Critical(r, j)
  {
    j := i;
    if !Quiet(r, i) {
      var k :| 0 <= k < i && Critical(r, k);
      j := FirstCritical(r, k);
    }
  }

  /** The heap after j steps: every key is the starting key or the score, whichever is higher, and the
      run index has its first length until it grows, and slots for everybody from then on. */
  ghost predicate TrackIn(list: seq<nat>, key: seq<int>, slots: nat, b: Book, r: Raising, j: nat) {
    && j <= |r.names| && |r.keys| == |b.val| && r.placed !in b.live
    && (forall i :: 0 <= i < |r.names| ==> r.names[i] == r.placed || r.names[i] in b.live)
    && (forall x :: x in list ==>
          x < |key| && x < |b.val| && key[x] == if r.keys[x] < b.val[x] then b.val[x] else r.keys[x])
    && (forall x :: x in b.live ==> x < |b.val| && b.val[x] == Occurrences(r.names, 0, j, x))
    && if Quiet(r, j) then slots == r.slots else Grows(r) && SpareIn(list, key, slots, b.live)
  }

  ghost predicate Track(heap: UH.UnitHeap, b: Book, r: Raising, j: nat)
    reads heap, heap.LinkedList
  {
    TrackIn(heap.list, Keys(heap.LinkedList[..]), |heap.Header|, b, r, j)
  }

  /** The next steps are those of the list. */
  ghost predicate Follows(r: Raising, j: nat, steps: seq<nat>) {
    j + |steps| <= |r.names| && r.names[j..j + |steps|] == steps
  }

  lemma TrackPending(h: HeapView, b: Book, w: nat, slots: nat, r: Raising, j: nat)
    requires Stands(h, b) && TrackIn(h.list, h.key, slots, b, r, j)
    requires j < |r.names| && w == r.names[j] < |b.val| && h.pending[w] != 0
    ensures TrackIn(h.list, h.key, slots, b.(val := b.val[w := b.val[w] + 1]), r, j + 1)
  {
    assert StandsAt(h, b, w);
    assert !Critical(r, j);
    assert Quiet(r, j + 1) <==> Quiet(r, j);
  }

  lemma TrackIncrement(h: HeapView, b: Book, w: nat, slots: nat, r: Raising, j: nat)
    requires WellFormedHeap(h) && Stands(h, b) && TrackIn(h.list, h.key, slots, b, r, j)
    requires j < |r.names| && w == r.names[j] < |b.val| && h.pending[w] == 0 && w in h.list
    requires forall x :: x in h.list ==> x < |h.key| && 0 <= h.key[x] < slots
    ensures h.key[w] + 1 >= slots ==> Quits(r)
    ensures
      var h' := Incremented(h, w);
      h.key[w] + 1 < slots ==>
        TrackIn(h'.list, h'.key, UH.Grown(slots, h.key[w] + 1), b.(val := b.val[w := b.val[w] + 1]), r, j + 1)
  {
    hide Rekeyed, SortedTo;
    assert StandsAt(h, b, w);
    assert h.key[w] == b.val[w] == Before(r, j);
    RekeyedWellFormed(h, w, h.key[w] + 1);
    if h.key[w] + 1 < slots && !Quiet(r, j) {
      SlotsAfterIncrement(h, w, slots, b.live);
    }
    assert Quiet(r, j + 1) <==> Quiet(r, j) && !Critical(r, j);
  }

  lemma FullMeans(heap: UH.UnitHeap, room: Room)
    requires Full(heap, room)
    ensures |heap.Header| == room.slots
  {
  }

  // ---------- Up and down by one ----------

  /** No live vertex gets above its peak. */
  ghost predicate Peaked(b: Book, val: seq<int>)
    requires |val| == |b.val| == |b.peak|
  {
    forall w :: 0 <= w < |val| && w in b.live ==> val[w] <= b.peak[w]
  }

  /** Raises the score of w by one. `ok` is false when the program quits for want of a header slot. */
  method Bump(heap: UH.UnitHeap, w: nat, ghost b: Book, ghost room: Room, ghost r: Raising, ghost j: nat)
    returns (ok: bool)
    requires Holds(heap, b) && w < |b.val| && (w in b.live ==> b.val[w] + 1 <= b.peak[w])
    requires Spare(heap, room.safe)
    modifies heap, heap.update, heap.LinkedList
    ensures ok ==> Holds(heap, b.(val := b.val[w := b.val[w] + 1]))
    ensures ok ==> |heap.Header| >= old(|heap.Header|) && heap.View() == Bumped(old(heap.View()), w)
    ensures
      if ok then Spare(heap, room.safe)
      else w in b.live && w !in room.safe && b.val[w] + 1 >= old(|heap.Header|)
    ensures ok && old(Full(heap, room)) && (w in b.live && w !in room.tall ==> b.val[w] + 5 < room.slots) ==>
              Full(heap, room)
    ensures old(Track(heap, b, r, j)) && Follows(r, j, [w]) ==>
              if ok then Track(heap, b.(val := b.val[w := b.val[w] + 1]), r, j + 1) else Quits(r)
    ensures ok <==> old(heap.update[w]) != 0 || old(heap.LinkedList[w].key) + 1 < old(|heap.Header|)
  {
    hide TrackIn, SpareIn, FullIn, Quits, Linked, Indexed, Sorted, Rekeyed;
    ghost var h := heap.View();
    ghost var tracked := Track(heap, b, r, j) && Follows(r, j, [w]);
    RepresentsMeans(heap.LinkedList[..], heap.Header, heap.top, h);
    assert StandsAt(h, b, w);
    assert tracked ==> r.names[j..j + 1][0] == w;
    if heap.update[w] == 0 {
      SlotsAfterIncrement(h, w, |heap.Header|, room.safe);
      if Full(heap, room) {
        FullMeans(heap, room);
        FullAfterIncrement(h, w, |heap.Header|, room);
      }
      if tracked {
        TrackIncrement(h, b, w, |heap.Header|, r, j);
      }
      ok := heap.IncrementKey(w);
      StandsAfterIncrement(h, b, w);
    } else {
      if tracked {
        TrackPending(h, b, w, |heap.Header|, r, j);
      }
      StandsAfterPending(h, b, w, 1);
      heap.update[w] := heap.update[w] + 1;
      assert heap.View() == h.(pending := h.pending[w := h.pending[w] + 1]);
      ok := true;
    }
  }

  /** Lowers the score of w by one, lazily. */
  method Drop(heap: UH.UnitHeap, w: nat, ghost b: Book)
    requires Holds(heap, b) && w < |b.val|
    requires w !in b.live ==> b.val[w] - 1 > b.fixed[w]
    modifies heap.update
    ensures Holds(heap, b.(val := b.val[w := b.val[w] - 1]))
  {
    ghost var h := heap.View();
    assert StandsAt(h, b, w);
    StandsAfterPending(h, b, w, -1);
    heap.DecrementKey(w);
    assert heap.View() == h.(pending := h.pending[w := h.pending[w] - 1]);
  }

  method BumpRow(heap: UH.UnitHeap, EI: seq<nat>, lo: nat, hi: nat, ghost b: Book, ghost val': seq<int>,
                 ghost room: Room, ghost r: Raising, ghost j: nat)
    returns (ok: bool)
    requires Holds(heap, b) && lo <= hi <= |EI| && Below(EI, |b.val|)
    requires |val'| == |b.val| == |b.peak|
    requires forall x :: 0 <= x < |b.val| ==> val'[x] == b.val[x] + Occurrences(EI, lo, hi, x)
    requires Peaked(b, val') && Spare(heap, room.safe)
    modifies heap, heap.update, heap.LinkedList
    ensures ok ==> Holds(heap, b.(val := val')) && |heap.Header| >= old(|heap.Header|)
    ensures ok ==> heap.View() == BumpedBy(old(heap.View()), EI[lo..hi])
    ensures if ok then Spare(heap, room.safe) else Reached(b, val', old(|heap.Header|), room.safe)
    ensures ok && old(Full(heap, room)) && Low(b.live, val', room) ==> Full(heap, room)
    ensures old(Track(heap, b, r, j)) && Follows(r, j, EI[lo..hi]) ==>
              if ok then Track(heap, b.(val := val'), r, j + hi - lo) else Quits(r)
  {
    hide Holds, Spare, Full, Track, Quits, Bumped, BumpedBy, Follows;
    BumpedByMore(heap.View(), [], 0);
    SliceNone(EI, lo);
    ghost var now := b;
    for i := lo to hi
      invariant now.live == b.live && now.fixed == b.fixed && now.peak == b.peak && |now.val| == |b.val|
      invariant forall x :: 0 <= x < |b.val| ==> now.val[x] == b.val[x] + Occurrences(EI, lo, i, x)
      invariant Holds(heap, now) && |heap.Header| >= old(|heap.Header|)
      invariant heap.View() == BumpedBy(old(heap.View()), EI[lo..i]) && Spare(heap, room.safe)
      invariant old(Full(heap, room)) && Low(b.live, val', room) ==> Full(heap, room)
      invariant old(Track(heap, b, r, j)) && Follows(r, j, EI[lo..hi]) ==> Track(heap, now, r, j + i - lo)
    {
      var w := EI[i];
      assert now.val[w] + 1 <= val'[w] by {
        OccurrencesSplit(EI, lo, i + 1, hi, w);
      }
      FollowsOne(r, j, EI[lo..hi], i - lo);
      ok := Bump(heap, w, now, room, r, j + i - lo);
      if !ok {
        assert val'[w] >= old(|heap.Header|);
        return;
      }
      BumpedByMore(old(heap.View()), EI[lo..i], w);
      SliceMore(EI, lo, i);
      now := now.(val := now.val[w := now.val[w] + 1]);
    }
    assert now == b.(val := val');
    ok := true;
  }

  lemma FollowsBoth(r: Raising, j: nat, a: seq<nat>, b: seq<nat>)
    ensures Follows(r, j, a + b) ==> Follows(r, j, a) && Follows(r, j + |a|, b)
  {
    if Follows(r, j, a + b) {
      assert r.names[j..j + |a|] == (a + b)[..|a|];
      assert r.names[j + |a|..j + |a| + |b|] == (a + b)[|a|..];
    }
  }

  lemma FollowsOne(r: Raising, j: nat, steps: seq<nat>, k: nat)
    requires k < |steps|
    ensures Follows(r, j, steps) ==> Follows(r, j + k, [steps[k]])
  {
    assert Follows(r, j, steps) ==> r.names[j..j + |steps|][k] == r.names[j + k];
  }

  method DropRow(heap: UH.UnitHeap, EI: seq<nat>, lo: nat, hi: nat, ghost b: Book, ghost val': seq<int>)
    requires Holds(heap, b) && lo <= hi <= |EI| && Below(EI, |b.val|)
    requires |val'| == |b.val|
    requires forall x :: 0 <= x < |b.val| ==> val'[x] == b.val[x] - Occurrences(EI, lo, hi, x)
    requires forall x :: 0 <= x < |b.val| ==> val'[x] > b.fixed[x] || x in b.live
    modifies heap.update
    ensures Holds(heap, b.(val := val'))
  {
    hide Holds;
    ghost var now := b;
    for i := lo to hi
      invariant now.live == b.live && now.fixed == b.fixed && now.peak == b.peak && |now.val| == |b.val|
      invariant forall x :: 0 <= x < |b.val| ==> now.val[x] == b.val[x] - Occurrences(EI, lo, i, x)
      invariant Holds(heap, now)
    {
      var w := EI[i];
      assert now.val[w] - 1 >= val'[w] by {
        OccurrencesSplit(EI, lo, i + 1, hi, w);
      }
      Drop(heap, w, now);
      now := now.(val := now.val[w := now.val[w] - 1]);
    }
    assert now == b.(val := val');
  }
}
