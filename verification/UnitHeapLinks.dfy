/** The linked cells and the run index that represent the list of a unit heap. */
module UnitHeapLinks {
  import opened Permutations
  import opened UnitHeapSpec

  datatype ListElement = ListElement(key: int, prev: int, next: int)

  datatype HeadEnd = HeadEnd(first: int, second: int)

  const NO_RUN := HeadEnd(-1, -1)

  function Keys(cells: seq<ListElement>): (key: seq<int>)
    ensures |key| == |cells|
    ensures forall v :: 0 <= v < |cells| ==> key[v] == cells[v].key
  {
    seq(|cells|, v requires 0 <= v < |cells| => cells[v].key)
  }

  /** The element at position i, or -1 beyond either end. */
  function At(list: seq<nat>, i: int): int {
    if 0 <= i < |list| then list[i] else -1
  }

  ghost predicate LinkedAt(cells: seq<ListElement>, list: seq<nat>, i: int) {
    0 <= i < |list| ==>
      list[i] < |cells| && cells[list[i]].prev == At(list, i - 1) && cells[list[i]].next == At(list, i + 1)
  }

  /** Following next from the first element visits exactly `list`, and prev goes back. */
  ghost predicate Linked(cells: seq<ListElement>, list: seq<nat>) {
    forall i :: LinkedAt(cells, list, i)
  }

  /** The first and the last element of list[p..e]. */
  function Ends(list: seq<nat>, p: int, e: int): HeadEnd
    requires e <= |list|
  {
    if 0 <= p < e then HeadEnd(list[p], list[e - 1]) else NO_RUN
  }

  /** The first and the last element with key k. */
  function Run(list: seq<nat>, key: seq<int>, k: int): HeadEnd
    requires InRange(list, key)
  {
    Ends(list, Position(list, key, k + 1), Position(list, key, k))
  }

  ghost predicate Indexed(header: seq<HeadEnd>, list: seq<nat>, key: seq<int>) {
    && InRange(list, key)
    && (forall i :: 0 <= i < |list| ==> 0 <= key[list[i]] < |header|)
    && (forall k :: 0 <= k < |header| ==> header[k] == Run(list, key, k))
  }

  // ---------- Taking an element out ----------

  function Unlinked(cells: seq<ListElement>, v: nat): (r: seq<ListElement>)
    requires v < |cells| && cells[v].prev < |cells| && cells[v].next < |cells|
    ensures |r| == |cells| && Keys(r) == Keys(cells)
  {
    var prev, next := cells[v].prev, cells[v].next;
    var a := if prev >= 0 then cells[prev := cells[prev].(next := next)] else cells;
    if next >= 0 then a[next := a[next].(prev := prev)] else a
  }

  lemma UnlinkedLinks(cells: seq<ListElement>, list: seq<nat>, i: nat)
    requires Linked(cells, list) && Distinct(list) && i < |list|
    ensures list[i] < |cells| && cells[list[i]].prev < |cells| && cells[list[i]].next < |cells|
    ensures Linked(Unlinked(cells, list[i]), RemoveAt(list, i))
  {
    var v, r := list[i], RemoveAt(list, i);
    assert LinkedAt(cells, list, i);
    assert i > 0 ==> LinkedAt(cells, list, i - 1);
    assert i + 1 < |list| ==> LinkedAt(cells, list, i + 1);
    var after := Unlinked(cells, v);
    forall j ensures LinkedAt(after, r, j) {
      if 0 <= j < |r| {
        UnlinkedLink(cells, list, i, j, if j < i then j else j + 1);
      }
    }
  }

  lemma UnlinkedLink(cells: seq<ListElement>, list: seq<nat>, i: nat, j: nat, j': nat)
    requires Distinct(list) && i < |list| && j < |list| - 1 && j' == if j < i then j else j + 1
    requires LinkedAt(cells, list, i) && LinkedAt(cells, list, j')
    requires list[i] < |cells| && cells[list[i]].prev < |cells| && cells[list[i]].next < |cells|
    ensures LinkedAt(Unlinked(cells, list[i]), RemoveAt(list, i), j)
  {
    hide RemoveAt, Keys;
    assert list[j'] != list[i];
    if i > 0 && j' != i - 1 {
      assert list[j'] != list[i - 1];
    }
    if i + 1 < |list| && j' != i + 1 {
      assert list[j'] != list[i + 1];
    }
  }

  lemma PositionAfterRemove(list: seq<nat>, key: seq<int>, i: nat, k: int)
    requires Sorted(list, key) && i < |list|
    ensures InRange(RemoveAt(list, i), key)
    ensures Position(RemoveAt(list, i), key, k) == Position(list, key, k) - (if key[list[i]] >= k then 1 else 0)
  {
    SortedMeans(list, key);
    var r, p := RemoveAt(list, i), Position(list, key, k);
    RemoveAtSorted(list, key, i);
    SortedMeans(r, key);
    PositionIs(list, key, k, p);
    PositionIs(r, key, k, if key[list[i]] >= k then p - 1 else p);
  }

  function RunWithout(run: HeadEnd, v: nat, prev: int, next: int): HeadEnd {
    if run.first == run.second then NO_RUN
    else if run.first == v then run.(first := next)
    else if run.second == v then run.(second := prev)
    else run
  }

  /** Inside the run of k all keys are k, and its ends are distinct unless it is a single element. */
  lemma RunBounds(list: seq<nat>, key: seq<int>, k: int)
    requires Sorted(list, key)
    ensures
      var p, e := Position(list, key, k + 1), Position(list, key, k);
      && p <= e
      && (forall i :: 0 <= i < |list| ==> (key[list[i]] == k <==> p <= i < e))
      && (p + 1 < e ==> list[p] != list[e - 1])
  {
    SortedMeans(list, key);
    var p, e := Position(list, key, k + 1), Position(list, key, k);
    PositionIs(list, key, k + 1, p);
    PositionIs(list, key, k, e);
  }

  lemma EndsAfterRemove(list: seq<nat>, i: nat, p: nat, e: nat)
    requires i < |list| && p <= e <= |list|
    requires p <= i < e ==> (p + 1 < e ==> list[p] != list[e - 1])
    requires p < i < e ==> list[i] != list[p]
    requires p <= i < e - 1 ==> list[i] != list[e - 1]
    ensures p <= i < e ==>
      Ends(RemoveAt(list, i), p, e - 1) == RunWithout(Ends(list, p, e), list[i], At(list, i - 1), At(list, i + 1))
    ensures i < p ==> Ends(RemoveAt(list, i), p - 1, e - 1) == Ends(list, p, e)
    ensures e <= i ==> Ends(RemoveAt(list, i), p, e) == Ends(list, p, e)
  {
  }

  lemma RunAfterRemove(list: seq<nat>, key: seq<int>, i: nat, k: int)
    requires Sorted(list, key) && i < |list| && InRange(RemoveAt(list, i), key)
    ensures
      Run(RemoveAt(list, i), key, k)
      == if key[list[i]] == k then RunWithout(Run(list, key, k), list[i], At(list, i - 1), At(list, i + 1))
         else Run(list, key, k)
  {
    hide SortedTo, Position, RemoveAt, RunWithout;
    PositionAfterRemove(list, key, i, k);
    PositionAfterRemove(list, key, i, k + 1);
    RunBounds(list, key, k);
    SortedMeans(list, key);
    EndsAfterRemove(list, i, Position(list, key, k + 1), Position(list, key, k));
  }

  lemma IndexedAfterRemove(header: seq<HeadEnd>, list: seq<nat>, key: seq<int>, i: nat)
    requires Sorted(list, key) && Indexed(header, list, key) && i < |list|
    ensures
      var v := list[i];
      var k := key[v];
      Indexed(header[k := RunWithout(header[k], v, At(list, i - 1), At(list, i + 1))], RemoveAt(list, i), key)
  {
    RemoveAtSorted(list, key, i);
    forall k | 0 <= k < |header| {
      RunAfterRemove(list, key, i, k);
    }
  }

  // ---------- Putting an element in ----------

  function Relinked(cells: seq<ListElement>, v: nat, prev: int, next: int): (r: seq<ListElement>)
    requires v < |cells| && prev < |cells| && next < |cells|
    ensures |r| == |cells| && Keys(r) == Keys(cells)
  {
    var a := cells[v := cells[v].(prev := prev, next := next)];
    var b := if next >= 0 then a[next := a[next].(prev := v)] else a;
    if prev >= 0 then b[prev := b[prev].(next := v)] else b
  }

  lemma RelinkedLinks(cells: seq<ListElement>, list: seq<nat>, p: nat, v: nat)
    requires Linked(cells, list) && Distinct(list) && p <= |list| && v < |cells| && v !in list
    ensures At(list, p - 1) < |cells| && At(list, p) < |cells|
    ensures Linked(Relinked(cells, v, At(list, p - 1), At(list, p)), InsertAt(list, p, v))
  {
    var r := InsertAt(list, p, v);
    assert p > 0 ==> LinkedAt(cells, list, p - 1);
    assert p < |list| ==> LinkedAt(cells, list, p);
    var after := Relinked(cells, v, At(list, p - 1), At(list, p));
    forall j ensures LinkedAt(after, r, j) {
      if 0 <= j < |r| {
        RelinkedLink(cells, list, p, v, j, if j < p then j else j - 1);
      }
    }
  }

  lemma RelinkedLink(cells: seq<ListElement>, list: seq<nat>, p: nat, v: nat, j: nat, j': int)
    requires Distinct(list) && p <= |list| && v < |cells| && v !in list
    requires j <= |list| && j' == if j < p then j else j - 1
    requires j != p ==> LinkedAt(cells, list, j')
    requires At(list, p - 1) < |cells| && At(list, p) < |cells|
    ensures LinkedAt(Relinked(cells, v, At(list, p - 1), At(list, p)), InsertAt(list, p, v), j)
  {
    if j != p {
      assert list[j'] != v;
      if p > 0 && j' != p - 1 {
        assert list[j'] != list[p - 1];
      }
      if p < |list| && j' != p {
        assert list[j'] != list[p];
      }
    }
  }

  lemma PositionAfterPlace(list: seq<nat>, key: seq<int>, v: nat, k: int, k': int)
    requires Sorted(list, key) && v !in list && v < |key|
    ensures InRange(Placed(list, key, v, k), key[v := k])
    ensures Position(Placed(list, key, v, k), key[v := k], k') == Position(list, key, k') + (if k >= k' then 1 else 0)
  {
    hide SortedTo, Position, InsertAt;
    SortedMeans(list, key);
    PlacedSorted(list, key, v, k);
    var p, p' := Position(list, key, k), Position(list, key, k');
    PositionIs(list, key, k, p);
    PositionIs(list, key, k', p');
    SortedMeans(Placed(list, key, v, k), key[v := k]);
    PositionIs(Placed(list, key, v, k), key[v := k], k', if k >= k' then p' + 1 else p');
  }

  function RunWith(run: HeadEnd, v: nat): HeadEnd {
    HeadEnd(if run.first < 0 then v else run.first, v)
  }

  lemma EndsAfterInsert(list: seq<nat>, at: nat, v: nat, p: nat, e: nat)
    requires at <= |list| && p <= e <= |list|
    ensures at == e ==> Ends(InsertAt(list, at, v), p, e + 1) == RunWith(Ends(list, p, e), v)
    ensures at <= p ==> Ends(InsertAt(list, at, v), p + 1, e + 1) == Ends(list, p, e)
    ensures e <= at ==> Ends(InsertAt(list, at, v), p, e) == Ends(list, p, e)
  {
  }

  lemma RunAfterPlace(list: seq<nat>, key: seq<int>, v: nat, k: nat, k': int)
    requires Sorted(list, key) && v !in list && v < |key|
    requires InRange(Placed(list, key, v, k), key[v := k])
    ensures
      Run(Placed(list, key, v, k), key[v := k], k')
      == if k == k' then RunWith(Run(list, key, k), v) else Run(list, key, k')
  {
    PositionAfterPlace(list, key, v, k, k');
    PositionAfterPlace(list, key, v, k, k' + 1);
    PositionsDescend(list, key, k', k' + 1);
    PositionsDescend(list, key, k, k');
    PositionsDescend(list, key, k' + 1, k);
    ShiftedRun(list, key, Placed(list, key, v, k), key[v := k], v, k, k');
  }

  lemma ShiftedRun(list: seq<nat>, key: seq<int>, list': seq<nat>, key': seq<int>, v: nat, k: nat, k': int)
    requires InRange(list, key) && InRange(list', key')
    requires list' == InsertAt(list, Position(list, key, k), v)
    requires Position(list', key', k') == Position(list, key, k') + (if k >= k' then 1 else 0)
    requires Position(list', key', k' + 1) == Position(list, key, k' + 1) + (if k >= k' + 1 then 1 else 0)
    requires Position(list, key, k' + 1) <= Position(list, key, k')
    requires if k <= k' then Position(list, key, k') <= Position(list, key, k)
             else Position(list, key, k) <= Position(list, key, k' + 1)
    ensures Run(list', key', k') == if k == k' then RunWith(Run(list, key, k), v) else Run(list, key, k')
  {
    EndsAfterInsert(list, Position(list, key, k), v, Position(list, key, k' + 1), Position(list, key, k'));
  }

  lemma PositionsDescend(list: seq<nat>, key: seq<int>, k: int, k': int)
    requires Sorted(list, key)
    ensures k <= k' ==> Position(list, key, k') <= Position(list, key, k)
  {
    SortedMeans(list, key);
  }

  lemma IndexedAfterPlace(header: seq<HeadEnd>, list: seq<nat>, key: seq<int>, v: nat, k: nat)
    requires Sorted(list, key) && Indexed(header, list, key) && v !in list && v < |key| && k < |header|
    ensures Indexed(header[k := RunWith(header[k], v)], Placed(list, key, v, k), key[v := k])
  {
    hide SortedTo, Position, InsertAt, Run, RunWith, IndexFrom;
    var list', key' := Placed(list, key, v, k), key[v := k];
    PlacedSorted(list, key, v, k);
    InsertAtElements(list, Position(list, key, k), v);
    forall i | 0 <= i < |list'| ensures 0 <= key'[list'[i]] < |header| {
      if list'[i] != v {
        var j := IndexOf(list, list'[i]);
      }
    }
    forall k' | 0 <= k' < |header| {
      RunAfterPlace(list, key, v, k, k');
    }
  }

  // ---------- Rekeying without moving ----------

  function WithKey(cells: seq<ListElement>, v: nat, k: int): (r: seq<ListElement>)
    requires v < |cells|
    ensures |r| == |cells| && Keys(r) == Keys(cells)[v := k]
  {
    cells[v := cells[v].(key := k)]
  }

  lemma WithKeyLinks(cells: seq<ListElement>, list: seq<nat>, v: nat, k: int)
    requires Linked(cells, list) && v < |cells|
    ensures Linked(WithKey(cells, v, k), list)
  {
    forall i ensures LinkedAt(WithKey(cells, v, k), list, i) {
      assert LinkedAt(cells, list, i);
    }
  }

  lemma IndexedGrows(header: seq<HeadEnd>, list: seq<nat>, key: seq<int>, n: nat)
    requires Sorted(list, key) && Indexed(header, list, key)
    ensures Indexed(header + seq(n, _ => NO_RUN), list, key)
  {
    SortedMeans(list, key);
    forall k | |header| <= k < |header| + n ensures Run(list, key, k) == NO_RUN {
      PositionIs(list, key, k, 0);
      PositionIs(list, key, k + 1, 0);
    }
  }

  // ---------- Whole operations ----------

  /** Cells, run index and top pointer stand for the heap h. */
  ghost predicate Represents(cells: seq<ListElement>, header: seq<HeadEnd>, top: int, h: HeapView) {
    && WellFormedHeap(h)
    && h.key == Keys(cells)
    && Linked(cells, h.list)
    && Indexed(header, h.list, h.key)
    && top == At(h.list, 0)
  }

  lemma RepresentsMeans(cells: seq<ListElement>, header: seq<HeadEnd>, top: int, h: HeapView)
    requires Represents(cells, header, top, h)
    ensures WellFormedHeap(h) && InRange(h.list, h.key) && h.key == Keys(cells) && top == At(h.list, 0)
    ensures forall x :: x in h.list ==> x < |cells| && 0 <= h.key[x] < |header|
  {
    hide SortedTo, Run;
  }

  function Detached(cells: seq<ListElement>, v: nat): (r: seq<ListElement>)
    requires v < |cells| && cells[v].prev < |cells| && cells[v].next < |cells|
    ensures |r| == |cells| && Keys(r) == Keys(cells)
  {
    var a := Unlinked(cells, v);
    a[v := a[v].(prev := -1, next := -1)]
  }

  lemma DetachedLinks(cells: seq<ListElement>, list: seq<nat>, i: nat)
    requires Linked(cells, list) && Distinct(list) && i < |list|
    ensures list[i] < |cells| && cells[list[i]].prev < |cells| && cells[list[i]].next < |cells|
    ensures cells[list[i]].prev == At(list, i - 1) && cells[list[i]].next == At(list, i + 1)
    ensures Linked(Detached(cells, list[i]), RemoveAt(list, i))
  {
    hide Unlinked;
    UnlinkedLinks(cells, list, i);
    assert LinkedAt(cells, list, i);
    var rest, a, after := RemoveAt(list, i), Unlinked(cells, list[i]), Detached(cells, list[i]);
    forall j ensures LinkedAt(after, rest, j) {
      assert LinkedAt(a, rest, j);
      assert 0 <= j < i ==> rest[j] != list[i];
      assert i <= j < |rest| ==> rest[j] != list[i];
    }
  }

  lemma DeleteRepresents(cells: seq<ListElement>, header: seq<HeadEnd>, top: int, h: HeapView, v: nat)
    requires Represents(cells, header, top, h) && v in h.list
    ensures v < |cells| && cells[v].prev < |cells| && cells[v].next < |cells| && 0 <= cells[v].key < |header|
    ensures
      var e := cells[v];
      Represents(Detached(cells, v), header[e.key := RunWithout(header[e.key], v, e.prev, e.next)],
                 if top == v then e.next else top, Deleted(h, v))
  {
    hide SortedTo, Linked, Position, Run, RunWithout, Detached, IndexFrom;
    var i := IndexOf(h.list, v);
    SortedMeans(h.list, h.key);
    DetachedLinks(cells, h.list, i);
    IndexedAfterRemove(header, h.list, h.key, i);
    RemoveAtSorted(h.list, h.key, i);
    hide Indexed;
    if i > 0 {
      assert h.list[0] != v;
    }
  }

  /** The cells after v has been moved in front of `head`, the first element of its run. */
  function MovedToHead(cells: seq<ListElement>, v: nat, head: nat): (r: seq<ListElement>)
    requires v < |cells| && cells[v].prev < |cells| && cells[v].next < |cells| && head < |cells|
    requires Unlinked(cells, v)[head].prev < |cells|
  {
    var a := Unlinked(cells, v);
    if head == v then cells else Relinked(a, v, a[head].prev, head)
  }

  /** The element to be incremented goes to the front of its run, where it may already be. */
  lemma IncrementSpot(header: seq<HeadEnd>, h: HeapView, v: nat)
    requires WellFormedHeap(h) && Indexed(header, h.list, h.key) && v in h.list
    ensures
      var i, k := IndexOf(h.list, v), h.key[v];
      var rest, p := RemoveAt(h.list, i), Position(h.list, h.key, k + 1);
      && InRange(rest, h.key) && Position(rest, h.key, k + 1) == p
      && p <= i && 0 <= k < |header| && header[k].first == h.list[p]
  {
    hide SortedTo, Position, RemoveAt, IndexFrom;
    var i, k := IndexOf(h.list, v), h.key[v];
    RunBounds(h.list, h.key, k);
    PositionAfterRemove(h.list, h.key, i, k + 1);
  }

  lemma MovedToHeadLinks(cells: seq<ListElement>, list: seq<nat>, i: nat, p: nat)
    requires Linked(cells, list) && Distinct(list) && p <= i < |list|
    ensures list[i] < |cells| && list[p] < |cells| && cells[list[i]].prev < |cells| && cells[list[i]].next < |cells|
    ensures Unlinked(cells, list[i])[list[p]].prev < |cells| && (p < i ==> cells[list[i]].prev >= 0)
    ensures Linked(MovedToHead(cells, list[i], list[p]), InsertAt(RemoveAt(list, i), p, list[i]))
  {
    var v, rest := list[i], RemoveAt(list, i);
    assert LinkedAt(cells, list, i) && LinkedAt(cells, list, p);
    UnlinkedLinks(cells, list, i);
    if p == i {
      assert InsertAt(rest, i, v) == list;
      assert i > 0 ==> LinkedAt(cells, list, i - 1);
      assert Unlinked(cells, v)[v].prev == cells[v].prev by { OwnLinksKept(cells, list, i); }
    } else {
      assert list[p] != v;
      assert LinkedAt(Unlinked(cells, v), rest, p);
      RestIsDistinct(list, i);
      RelinkedLinks(Unlinked(cells, v), rest, p, v);
    }
  }

  lemma OwnLinksKept(cells: seq<ListElement>, list: seq<nat>, i: nat)
    requires Linked(cells, list) && Distinct(list) && i < |list|
    requires list[i] < |cells| && cells[list[i]].prev < |cells| && cells[list[i]].next < |cells|
    ensures Unlinked(cells, list[i])[list[i]].prev == cells[list[i]].prev
  {
    assert LinkedAt(cells, list, i);
    assert i > 0 ==> list[i - 1] != list[i];
    assert i + 1 < |list| ==> list[i + 1] != list[i];
  }

  lemma RestIsDistinct(list: seq<nat>, i: nat)
    requires Distinct(list) && i < |list|
    ensures Distinct(RemoveAt(list, i)) && list[i] !in RemoveAt(list, i)
  {
    var r := RemoveAt(list, i);
    forall a, b | 0 <= a < b < |r| ensures r[a] != r[b] {
      assert list[if a < i then a else a + 1] != list[if b < i then b else b + 1];
    }
    forall a | 0 <= a < |r| ensures r[a] != list[i] {
      assert list[if a < i then a else a + 1] != list[i];
    }
  }

  lemma IncrementTop(h: HeapView, v: nat)
    requires WellFormedHeap(h) && v in h.list
    ensures
      var h' := Incremented(h, v);
      h'.list != [] && h.list[0] < |h'.key| && h'.list[0] == if h'.key[h.list[0]] < h'.key[v] then v else h.list[0]
  {
    var i := IndexOf(h.list, v);
    var rest, k := RemoveAt(h.list, i), h.key[v];
    SortedMeans(h.list, h.key);
    PositionAfterRemove(h.list, h.key, i, k + 1);
    var p := Position(rest, h.key, k + 1);
    if i > 0 {
      assert h.list[0] != v && rest[0] == h.list[0];
      if p == 0 {
        assert h.key[h.list[0]] < k + 1;
      }
    } else {
      assert h.list[0] == v;
      assert p == 0;
    }
  }

  lemma IncrementIndexed(header: seq<HeadEnd>, h: HeapView, v: nat, prev: int, next: int)
    requires WellFormedHeap(h) && Indexed(header, h.list, h.key) && v in h.list
    requires prev == At(h.list, IndexOf(h.list, v) - 1) && next == At(h.list, IndexOf(h.list, v) + 1)
    requires 0 <= h.key[v] && h.key[v] + 1 < |header|
    ensures
      var k := h.key[v];
      var without := header[k := RunWithout(header[k], v, prev, next)];
      Indexed(without[k + 1 := RunWith(without[k + 1], v)], Incremented(h, v).list, Incremented(h, v).key)
  {
    hide SortedTo, Indexed, Position, RunWithout, RunWith, RemoveAt, InsertAt, IndexOf, At;
    var i, k := IndexOf(h.list, v), h.key[v];
    var without := header[k := RunWithout(header[k], v, prev, next)];
    var rest := RemoveAt(h.list, i);
    assert Indexed(without, rest, h.key) by { IndexedAfterRemove(header, h.list, h.key, i); }
    assert Sorted(rest, h.key) && v !in rest by { RemoveAtSorted(h.list, h.key, i); }
    IndexedAfterPlace(without, rest, h.key, v, k + 1);
  }

  ghost predicate CanRelink(cells: seq<ListElement>, header: seq<HeadEnd>, v: nat) {
    && v < |cells| && cells[v].prev < |cells| && cells[v].next < |cells|
    && 0 <= cells[v].key < |header|
    && 0 <= header[cells[v].key].first < |cells|
    && Unlinked(cells, v)[header[cells[v].key].first].prev < |cells|
    && (header[cells[v].key].first != v ==> cells[v].prev >= 0)
  }

  lemma IncrementCanRelink(cells: seq<ListElement>, header: seq<HeadEnd>, top: int, h: HeapView, v: nat)
    requires Represents(cells, header, top, h) && v in h.list
    ensures CanRelink(cells, header, v)
    ensures Linked(MovedToHead(cells, v, header[cells[v].key].first), Incremented(h, v).list)
    ensures cells[v].prev == At(h.list, IndexOf(h.list, v) - 1) && cells[v].next == At(h.list, IndexOf(h.list, v) + 1)
  {
    hide SortedTo, Position, Run, Unlinked, Relinked, RemoveAt, InsertAt, IndexFrom;
    var i, k := IndexOf(h.list, v), h.key[v];
    var p := Position(h.list, h.key, k + 1);
    var rest := RemoveAt(h.list, i);
    assert InRange(rest, h.key) && Position(rest, h.key, k + 1) == p && p <= i < |h.list|
        && 0 <= k < |header| && header[k].first == h.list[p] by {
      IncrementSpot(header, h, v);
    }
    assert Distinct(h.list) by { SortedMeans(h.list, h.key); }
    assert LinkedAt(cells, h.list, i);
    MovedToHeadLinks(cells, h.list, i, p);
  }

  lemma IncrementRepresents(cells: seq<ListElement>, header: seq<HeadEnd>, top: int, h: HeapView, v: nat,
                            moved: seq<ListElement>, without: seq<HeadEnd>, k: nat)
    requires Represents(cells, header, top, h) && v in h.list
    requires k == h.key[v] && k + 1 < |header|
    requires Keys(moved) == Keys(cells) && Linked(moved, Incremented(h, v).list)
    requires
      var i := IndexOf(h.list, v);
      without == header[k := RunWithout(header[k], v, At(h.list, i - 1), At(h.list, i + 1))]
    ensures 0 <= top < |moved|
    ensures
      var after := WithKey(moved, v, k + 1);
      Represents(after, without[k + 1 := RunWith(without[k + 1], v)],
                 if after[top].key < k + 1 then v else top, Incremented(h, v))
  {
    var h' := Incremented(h, v);
    assert Indexed(without[k + 1 := RunWith(without[k + 1], v)], h'.list, h'.key) by {
      IncrementIndexed(header, h, v, At(h.list, IndexOf(h.list, v) - 1), At(h.list, IndexOf(h.list, v) + 1));
    }
    assert Linked(WithKey(moved, v, k + 1), h'.list) by { WithKeyLinks(moved, h'.list, v, k + 1); }
    assert WellFormedHeap(h') by { RekeyedWellFormed(h, v, k + 1); }
    IncrementTop(h, v);
    hide Linked, Indexed, Sorted;
  }

  lemma RepresentsFrom(cells: seq<ListElement>, header: seq<HeadEnd>, top: int, h: HeapView)
    requires WellFormedHeap(h)
    requires h.key == Keys(cells)
    requires Linked(cells, h.list)
    requires Indexed(header, h.list, h.key)
    requires h.list != [] && top == h.list[0]
    ensures Represents(cells, header, top, h)
  {
  }

  // ---------- Moving the top down ----------

  /** The run that holds position e ends where the keys drop below its key. */
  lemma FrontByKey(list: seq<nat>, key: seq<int>)
    requires Sorted(list, key) && |list| > 1
    ensures InRange(list, key) && ByKey(list, key) && key[list[0]] >= key[list[1]]
  {
    SortedMeans(list, key);
  }

  lemma NextRun(cells: seq<ListElement>, header: seq<HeadEnd>, top: int, h: HeapView, e: nat)
    requires Represents(cells, header, top, h) && e < |h.list|
    ensures h.list[e] < |cells| && 0 <= cells[h.list[e]].key < |header|
    ensures
      var k := cells[h.list[e]].key;
      var e' := Position(h.list, h.key, k);
      && e < e' && 0 <= header[k].second < |cells| && header[k].second == h.list[e' - 1]
      && h.key[h.list[e' - 1]] == k
      && cells[header[k].second].next == At(h.list, e')
  {
    var k := h.key[h.list[e]];
    RunBounds(h.list, h.key, k);
    assert LinkedAt(cells, h.list, Position(h.list, h.key, k) - 1);
  }

  lemma FirstIndex(list: seq<nat>)
    requires list != []
    ensures IndexOf(list, list[0]) == 0
  {
  }

  /** The top, and the place behind the first e elements that it moves to. */
  lemma TopDownLinks(cells: seq<ListElement>, header: seq<HeadEnd>, top: int, h: HeapView, e: nat)
    requires Represents(cells, header, top, h) && h.list != [] && Moves(h) && NewKey(h) >= 0
    requires e == Position(h.list, h.key, NewKey(h))
    ensures |h.list| > 1 && 2 <= e && 0 <= top < |cells| && NewKey(h) < h.key[top] < |header|
    ensures cells[top].prev == -1 && cells[top].next == h.list[1] < |cells|
    ensures h.list[1] != top && h.list[e - 1] != top
    ensures h.list[e - 1] < |cells| && At(h.list, e) < |cells| && cells[h.list[e - 1]].next == At(h.list, e)
    ensures Linked(Relinked(Unlinked(cells, top), top, h.list[e - 1], At(h.list, e)), TopDecreased(h).list)
  {
    hide SortedTo, Position, Run, Unlinked, Relinked, InsertAt, IndexOf;
    var rest := RemoveAt(h.list, 0);
    FirstIndex(h.list);
    assert LinkedAt(cells, h.list, 0) && LinkedAt(cells, h.list, 1);
    SortedMeans(h.list, h.key);
    assert LinkedAt(cells, h.list, e - 1) && LinkedAt(cells, h.list, e);
    PositionAfterRemove(h.list, h.key, 0, NewKey(h));
    RestIsDistinct(h.list, 0);
    UnlinkedLinks(cells, h.list, 0);
    RelinkedLinks(Unlinked(cells, top), rest, e - 1, top);
  }

  lemma TopDownRepresents(cells: seq<ListElement>, header: seq<HeadEnd>, top: nat, h: HeapView, e: nat,
                          after: seq<ListElement>, without: seq<HeadEnd>)
    requires Represents(cells, header, top, h) && h.list != [] && Moves(h) && NewKey(h) >= 0
    requires 2 <= e == Position(h.list, h.key, NewKey(h)) && |h.list| > 1
    requires top < |cells| && NewKey(h) < h.key[top] < |header|
    requires cells[top].prev == -1 && cells[top].next == h.list[1] < |cells|
    requires h.list[e - 1] < |cells| && At(h.list, e) < |cells|
    requires Linked(Relinked(Unlinked(cells, top), top, h.list[e - 1], At(h.list, e)), TopDecreased(h).list)
    requires after == WithKey(Relinked(Unlinked(cells, top), top, h.list[e - 1], At(h.list, e)), top, NewKey(h))
    requires without == header[h.key[top] := RunWithout(header[h.key[top]], top, -1, h.list[1])]
    ensures Represents(after, without[NewKey(h) := RunWith(without[NewKey(h)], top)], h.list[1], TopDecreased(h))
  {
    hide SortedTo, Position, Run, RunWith, RunWithout, Unlinked, Relinked, InsertAt, IndexOf;
    var k', rest, h' := NewKey(h), RemoveAt(h.list, 0), TopDecreased(h);
    FirstIndex(h.list);
    PositionAfterRemove(h.list, h.key, 0, k');
    WithKeyLinks(Relinked(Unlinked(cells, top), top, h.list[e - 1], At(h.list, e)), h'.list, top, k');
    assert Indexed(without[k' := RunWith(without[k'], top)], h'.list, h'.key) by {
      IndexedAfterRemove(header, h.list, h.key, 0);
      RemoveAtSorted(h.list, h.key, 0);
      IndexedAfterPlace(without, rest, h.key, top, k');
    }
    RekeyedWellFormed(h, top, k');
    RepresentsFrom(after, without[k' := RunWith(without[k'], top)], h.list[1], h');
  }

  // ---------- Building the index from scratch ----------

  /** Appending an element that belongs at the end. */
  lemma AppendIndexed(header: seq<HeadEnd>, list: seq<nat>, key: seq<int>, v: nat)
    requires Sorted(list, key) && Indexed(header, list, key) && v !in list && v < |key|
    requires 0 <= key[v] < |header| && (list != [] ==> key[list[|list| - 1]] >= key[v])
    ensures Sorted(list + [v], key)
    ensures Indexed(header[key[v] := RunWith(header[key[v]], v)], list + [v], key)
    ensures list != [] && key[list[|list| - 1]] > key[v] ==> header[key[v]] == NO_RUN
    ensures list != [] ==> header[key[list[|list| - 1]]].first >= 0
  {
    hide SortedTo, PositionFrom, RunWith;
    SortedMeans(list, key);
    if list != [] {
      var last := |list| - 1;
      assert forall i :: 0 <= i < |list| ==> key[list[i]] >= key[list[last]];
      RunBounds(list, key, key[list[last]]);
      RunBounds(list, key, key[v]);
    }
    PositionIs(list, key, key[v], |list|);
    assert InsertAt(list, |list|, v) == list + [v];
    assert key[v := key[v]] == key;
    PlacedSorted(list, key, v, key[v]);
    IndexedAfterPlace(header, list, key, v, key[v]);
  }

  /** Positions 0..i-1 and the last one have their final links. */
  ghost predicate LinkedPart(cells: seq<ListElement>, list: seq<nat>, i: nat) {
    forall j :: 0 <= j < i || j == |list| - 1 ==> LinkedAt(cells, list, j)
  }

  lemma LinkStep(cells: seq<ListElement>, list: seq<nat>, i: nat)
    requires LinkedPart(cells, list, i) && i < |list| && Distinct(list) && list[i] < |cells|
    ensures
      var after := cells[list[i] := ListElement(cells[list[i]].key, At(list, i - 1), At(list, i + 1))];
      LinkedPart(after, list, i + 1) && Keys(after) == Keys(cells)
  {
    var after := cells[list[i] := ListElement(cells[list[i]].key, At(list, i - 1), At(list, i + 1))];
    forall j | 0 <= j < i + 1 || j == |list| - 1 ensures LinkedAt(after, list, j) {
      if j != i {
        assert LinkedAt(cells, list, j);
        assert 0 <= j < |list| ==> list[j] != list[i];
      }
    }
  }

  /** The run index of `list`, except that the last run has not been closed yet. */
  ghost predicate IndexedOpen(header: seq<HeadEnd>, list: seq<nat>, key: seq<int>)
  {
    && Sorted(list, key) && list != []
    && var k := key[list[|list| - 1]];
       && 0 <= k < |header| && header[k].second == -1
       && Indexed(header[k := header[k].(second := list[|list| - 1])], list, key)
  }

  lemma OpenFirst(n: nat, key: seq<int>, v: nat)
    requires v < |key| && 0 <= key[v] < n
    ensures IndexedOpen(seq(n, _ => NO_RUN)[key[v] := HeadEnd(v, -1)], [v], key)
  {
    var header := seq(n, _ => NO_RUN);
    assert Indexed(header, [], key);
    AppendIndexed(header, [], key, v);
    assert [] + [v] == [v];
  }

  /** The next element stays in the open run, or closes it and opens the run of its own key. */
  lemma OpenNext(header: seq<HeadEnd>, list: seq<nat>, key: seq<int>, v: nat)
    requires IndexedOpen(header, list, key) && v !in list && v < |key|
    requires 0 <= key[v] <= key[list[|list| - 1]]
    ensures
      var last := list[|list| - 1];
      IndexedOpen(if key[v] == key[last] then header
                  else header[key[last] := header[key[last]].(second := last)][key[v] := HeadEnd(v, -1)],
                  list + [v], key)
  {
    var last := list[|list| - 1];
    var k := key[last];
    var closed := header[k := header[k].(second := last)];
    AppendIndexed(closed, list, key, v);
    var header' := if key[v] == k then header else closed[key[v] := HeadEnd(v, -1)];
    assert header'[key[v] := header'[key[v]].(second := v)] == closed[key[v] := RunWith(closed[key[v]], v)];
  }

  lemma CloseLast(header: seq<HeadEnd>, list: seq<nat>, key: seq<int>)
    requires IndexedOpen(header, list, key)
    ensures
      var last := list[|list| - 1];
      Indexed(header[key[last] := header[key[last]].(second := last)], list, key)
  {
  }
}
