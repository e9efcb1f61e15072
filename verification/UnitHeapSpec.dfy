/** The unit heap without pointers: a list of elements by descending key, with pending decrements. */
module UnitHeapSpec {
  import opened Permutations

  /** list: the elements still in the heap, in order; key and pending are indexed by element. */
  datatype HeapView = HeapView(list: seq<nat>, key: seq<int>, pending: seq<int>)

  ghost predicate InRange(list: seq<nat>, key: seq<int>) {
    forall i :: 0 <= i < |list| ==> list[i] < |key|
  }

  ghost predicate ByKey(list: seq<nat>, key: seq<int>)
    requires InRange(list, key)
  {
    forall i, j :: 0 <= i < j < |list| ==> key[list[i]] >= key[list[j]]
  }

  ghost predicate Absent(list: seq<nat>, n: nat, v: nat)
    requires n <= |list|
  {
    n == 0 || (list[n - 1] != v && Absent(list, n - 1, v))
  }

  /** The first n elements are pairwise different and their keys do not increase. */
  ghost predicate SortedTo(list: seq<nat>, key: seq<int>, n: nat)
    requires InRange(list, key) && n <= |list|
  {
    n <= 1 || (SortedTo(list, key, n - 1) && Absent(list, n - 1, list[n - 1]) && key[list[n - 2]] >= key[list[n - 1]])
  }

  ghost predicate Sorted(list: seq<nat>, key: seq<int>) {
    InRange(list, key) && SortedTo(list, key, |list|)
  }

  lemma {:induction false} AbsentMeans(list: seq<nat>, n: nat, v: nat)
    requires n <= |list|
    ensures Absent(list, n, v) <==> forall i :: 0 <= i < n ==> list[i] != v
  {
    if n > 0 {
      AbsentMeans(list, n - 1, v);
    }
  }

  lemma {:induction false} SortedToMeans(list: seq<nat>, key: seq<int>, n: nat)
    requires InRange(list, key) && n <= |list|
    ensures SortedTo(list, key, n) <==>
            forall i, j :: 0 <= i < j < n ==> list[i] != list[j] && key[list[i]] >= key[list[j]]
  {
    if n > 1 {
      SortedToMeans(list, key, n - 1);
      AbsentMeans(list, n - 1, list[n - 1]);
      if SortedTo(list, key, n) {
        forall i, j | 0 <= i < j < n ensures list[i] != list[j] && key[list[i]] >= key[list[j]] {
          if j == n - 1 && i < n - 2 {
            assert key[list[i]] >= key[list[n - 2]];
          }
        }
      }
    }
  }

  /** Sorted says what it should about every pair of positions. */
  lemma SortedMeans(list: seq<nat>, key: seq<int>)
    requires InRange(list, key)
    ensures Sorted(list, key) <==> Distinct(list) && ByKey(list, key)
  {
    SortedToMeans(list, key, |list|);
  }

  /** Past the elements from position i on whose key is at least k. */
  function PositionFrom(list: seq<nat>, key: seq<int>, k: int, i: nat): (p: nat)
    requires InRange(list, key) && i <= |list|
    ensures i <= p <= |list|
    ensures forall j :: i <= j < p ==> key[list[j]] >= k
    ensures p < |list| ==> key[list[p]] < k
    decreases |list| - i
  {
    if i == |list| || key[list[i]] < k then i else PositionFrom(list, key, k, i + 1)
  }

  /** The number of elements at the front with key at least k. */
  function Position(list: seq<nat>, key: seq<int>, k: int): (p: nat)
    requires InRange(list, key)
    ensures p <= |list|
    ensures forall i :: 0 <= i < p ==> key[list[i]] >= k
    ensures p < |list| ==> key[list[p]] < k
  {
    PositionFrom(list, key, k, 0)
  }

  /** In a sorted list, Position is where the keys drop below k. */
  lemma PositionIs(list: seq<nat>, key: seq<int>, k: int, p: nat)
    requires InRange(list, key) && ByKey(list, key) && p <= |list|
    requires p > 0 ==> key[list[p - 1]] >= k
    requires p < |list| ==> key[list[p]] < k
    ensures Position(list, key, k) == p
    ensures forall i :: p <= i < |list| ==> key[list[i]] < k
  {
  }

  function IndexFrom(list: seq<nat>, v: nat, from: nat): (i: nat)
    requires from <= |list| && v in list[from..]
    ensures i < |list| && list[i] == v
    decreases |list| - from
  {
    if list[from] == v then from else IndexFrom(list, v, from + 1)
  }

  /** Where v stands in the list. */
  function IndexOf(list: seq<nat>, v: nat): (i: nat)
    requires v in list
    ensures i < |list| && list[i] == v
  {
    IndexFrom(list, v, 0)
  }

  function RemoveAt(list: seq<nat>, i: nat): (r: seq<nat>)
    requires i < |list|
    ensures |r| == |list| - 1
    ensures forall j {:trigger r[j]} :: 0 <= j < |r| ==> r[j] == if j < i then list[j] else list[j + 1]
  {
    list[..i] + list[i + 1..]
  }

  function InsertAt(list: seq<nat>, i: nat, v: nat): (r: seq<nat>)
    requires i <= |list|
    ensures |r| == |list| + 1
    ensures forall j {:trigger r[j]} :: 0 <= j < |r| ==>
              r[j] == if j < i then list[j] else if j == i then v else list[j - 1]
  {
    list[..i] + [v] + list[i..]
  }

  /** Adding v with key k: behind every element whose key is at least k. */
  function Placed(list: seq<nat>, key: seq<int>, v: nat, k: int): seq<nat>
    requires InRange(list, key)
  {
    InsertAt(list, Position(list, key, k), v)
  }

  /** Taking v out and putting it back with key k. */
  function Rekeyed(h: HeapView, v: nat, k: int): HeapView
    requires InRange(h.list, h.key) && v in h.list
  {
    var rest := RemoveAt(h.list, IndexOf(h.list, v));
    assert forall i :: 0 <= i < |rest| ==> rest[i] < |h.key|;
    h.(list := Placed(rest, h.key, v, k), key := h.key[v := k])
  }

  function Incremented(h: HeapView, v: nat): HeapView
    requires InRange(h.list, h.key) && v in h.list
  {
    Rekeyed(h, v, h.key[v] + 1)
  }

  function Deleted(h: HeapView, v: nat): HeapView
    requires v in h.list
  {
    h.(list := RemoveAt(h.list, IndexOf(h.list, v)))
  }

  /** One more for v: its key goes up at once when nothing is pending for it, and else the pending change does. */
  ghost function Bumped(h: HeapView, v: nat): HeapView {
    if v >= |h.pending| then h
    else if h.pending[v] == 0 && v in h.list && InRange(h.list, h.key) then Incremented(h, v)
    else h.(pending := h.pending[v := h.pending[v] + 1])
  }

  /** One more for each of the names, in this order. */
  ghost function BumpedBy(h: HeapView, names: seq<nat>): HeapView {
    if names == [] then h else Bumped(BumpedBy(h, names[..|names| - 1]), names[|names| - 1])
  }

  lemma BumpedByMore(h: HeapView, names: seq<nat>, v: nat)
    ensures BumpedBy(h, []) == h
    ensures BumpedBy(h, names + [v]) == Bumped(BumpedBy(h, names), v)
  {
    hide Bumped;
    assert (names + [v])[..|names|] == names;
  }

  lemma {:induction false} BumpedByBoth(h: HeapView, a: seq<nat>, b: seq<nat>)
    ensures BumpedBy(h, a + b) == BumpedBy(BumpedBy(h, a), b)
  {
    hide Bumped;
    if b == [] {
      assert a + b == a;
    } else {
      var rest, v := b[..|b| - 1], b[|b| - 1];
      BumpedByBoth(h, a, rest);
      BumpedByMore(h, a + rest, v);
      assert a + b == (a + rest) + [v];
    }
  }

  /** The heap without v, for which `mark` is left as its pending change. */
  ghost function Without(h: HeapView, v: nat, mark: int): HeapView {
    if v in h.list && v < |h.pending| then Deleted(h, v).(pending := h.pending[v := mark]) else h
  }

  ghost function WithoutAll(h: HeapView, names: seq<nat>, mark: int): HeapView {
    if names == [] then h else Without(WithoutAll(h, names[..|names| - 1], mark), names[|names| - 1], mark)
  }

  lemma WithoutOneMore(h: HeapView, names: seq<nat>, v: nat, mark: int)
    ensures WithoutAll(h, [], mark) == h
    ensures WithoutAll(h, names + [v], mark) == Without(WithoutAll(h, names, mark), v, mark)
  {
    hide Without;
    assert (names + [v])[..|names|] == names;
  }

  /** Division by two that truncates toward zero. */
  function Half(x: int): int { if x >= 0 then x / 2 else -((-x) / 2) }

  ghost predicate WellFormedHeap(h: HeapView) {
    Sorted(h.list, h.key) && |h.pending| == |h.key|
  }

  function NewKey(h: HeapView): int
    requires h.list != [] && InRange(h.list, h.key) && |h.pending| == |h.key|
  {
    var t := h.list[0];
    h.key[t] + h.pending[t] - Half(h.pending[t])
  }

  /** Whether the top leaves its place once half of its pending decrement is applied. */
  predicate Moves(h: HeapView)
    requires h.list != [] && InRange(h.list, h.key) && |h.pending| == |h.key|
  {
    h.pending[h.list[0]] < 0 && |h.list| > 1 && NewKey(h) < h.key[h.list[1]]
  }

  function TopDecreased(h: HeapView): HeapView
    requires h.list != [] && InRange(h.list, h.key) && |h.pending| == |h.key|
  {
    var t := h.list[0];
    if Moves(h) then Rekeyed(h, t, NewKey(h)).(pending := h.pending[t := Half(h.pending[t])]) else h
  }

  /** Key plus pending change: what the key will be once everything is applied. */
  function Value(h: HeapView, v: nat): int
    requires v < |h.key| == |h.pending|
  {
    h.key[v] + h.pending[v]
  }

  function Debts(pending: seq<int>): (d: seq<int>)
    ensures |d| == |pending|
    ensures forall i :: 0 <= i < |d| ==> d[i] == if pending[i] < 0 then -pending[i] else 0
  {
    seq(|pending|, i requires 0 <= i < |pending| => if pending[i] < 0 then -pending[i] else 0)
  }

  /** The total pending decrement. */
  function Debt(h: HeapView): (d: nat) {
    SumNonNegative(Debts(h.pending));
    Sum(Debts(h.pending))
  }

  lemma InsertAtElements(list: seq<nat>, i: nat, v: nat)
    requires i <= |list|
    ensures forall x :: x in InsertAt(list, i, v) <==> x in list || x == v
  {
    var r := InsertAt(list, i, v);
    forall x ensures x in r <==> x in list || x == v {
      if x in list {
        var j := IndexOf(list, x);
        assert r[if j < i then j else j + 1] == x;
      }
      assert r[i] == v;
    }
  }

  lemma PlacedSorted(list: seq<nat>, key: seq<int>, v: nat, k: int)
    requires Sorted(list, key) && v !in list && v < |key|
    ensures Sorted(Placed(list, key, v, k), key[v := k])
  {
    SortedMeans(list, key);
    var p := Position(list, key, k);
    PositionIs(list, key, k, p);
    var r := InsertAt(list, p, v);
    forall i, j | 0 <= i < j < |r|
      ensures r[i] < |key| && r[j] < |key| && r[i] != r[j] && key[v := k][r[i]] >= key[v := k][r[j]]
    {
      PlacedPair(list, key, v, k, p, i, j);
    }
    if |r| == 1 {
      assert p == 0 && r[0] == v;
    }
    forall i | 0 <= i < |r| ensures r[i] < |key| {
      assert i == p || r[i] == list[if i < p then i else i - 1];
    }
    SortedMeans(r, key[v := k]);
  }

  lemma PlacedPair(list: seq<nat>, key: seq<int>, v: nat, k: int, p: nat, i: nat, j: nat)
    requires InRange(list, key) && Distinct(list) && ByKey(list, key)
    requires v !in list && v < |key| && p <= |list| && i < j <= |list|
    requires forall x :: 0 <= x < p ==> key[list[x]] >= k
    requires forall x :: p <= x < |list| ==> key[list[x]] < k
    ensures
      var r := InsertAt(list, p, v);
      r[i] < |key| && r[j] < |key| && r[i] != r[j] && key[v := k][r[i]] >= key[v := k][r[j]]
  {
    if j < p {
      assert list[i] != list[j];
    } else if j == p {
      assert list[i] != v;
    } else if i == p {
      assert list[j - 1] != v;
    } else if i < p {
      assert list[i] != list[j - 1];
    } else {
      assert list[i - 1] != list[j - 1];
    }
  }

  lemma RemoveAtSorted(list: seq<nat>, key: seq<int>, i: nat)
    requires Sorted(list, key) && i < |list|
    ensures Sorted(RemoveAt(list, i), key)
    ensures forall x :: x in RemoveAt(list, i) <==> x in list && x != list[i]
  {
    var r := RemoveAt(list, i);
    SortedMeans(list, key);
    SortedMeans(r, key);
    forall x ensures x in r <==> x in list && x != list[i] {
      if x in list && x != list[i] {
        var j := IndexOf(list, x);
        assert r[if j < i then j else j - 1] == x;
      }
    }
  }

  /** Rekeying keeps the list sorted and neither adds nor drops an element. */
  lemma RekeyedWellFormed(h: HeapView, v: nat, k: int)
    requires WellFormedHeap(h) && v in h.list
    ensures WellFormedHeap(Rekeyed(h, v, k))
    ensures forall x :: x in Rekeyed(h, v, k).list <==> x in h.list
    ensures Rekeyed(h, v, k).key == h.key[v := k]
  {
    var i := IndexOf(h.list, v);
    var rest := RemoveAt(h.list, i);
    RemoveAtSorted(h.list, h.key, i);
    PlacedSorted(rest, h.key, v, k);
    InsertAtElements(rest, Position(rest, h.key, k), v);
  }

  // ---------- Where an element goes, and what the top still owes ----------

  /** x stands somewhere in front of y. */
  ghost predicate Precedes(list: seq<nat>, x: nat, y: nat) {
    exists i, j :: 0 <= i < j < |list| && list[i] == x && list[j] == y
  }

  lemma PrecedesAt(list: seq<nat>, i: nat, j: nat)
    requires Distinct(list) && i < |list| && j < |list|
    ensures Precedes(list, list[i], list[j]) <==> i < j
  {
  }

  lemma RemovedPlaces(list: seq<nat>, i: nat, x: nat, y: nat)
    requires Distinct(list) && i < |list| && x in list && y in list && x != list[i] && y != list[i]
    ensures Precedes(RemoveAt(list, i), x, y) <==> Precedes(list, x, y)
  {
    var r, a, b := RemoveAt(list, i), IndexOf(list, x), IndexOf(list, y);
    var a', b' := if a < i then a else a - 1, if b < i then b else b - 1;
    assert r[a'] == x && r[b'] == y;
    PrecedesAt(list, a, b);
    PrecedesAt(r, a', b');
  }

  lemma InsertedPlaces(list: seq<nat>, p: nat, v: nat, x: nat, y: nat)
    requires p <= |list| && Distinct(InsertAt(list, p, v)) && Distinct(list) && x in list && y in list
    ensures
      var r := InsertAt(list, p, v);
      && (Precedes(r, x, y) <==> Precedes(list, x, y))
      && (Precedes(r, x, v) <==> IndexOf(list, x) < p) && (Precedes(r, v, x) <==> IndexOf(list, x) >= p)
  {
    var r, a, b := InsertAt(list, p, v), IndexOf(list, x), IndexOf(list, y);
    var a', b' := if a < p then a else a + 1, if b < p then b else b + 1;
    assert r[a'] == x && r[b'] == y && r[p] == v;
    hide InsertAt, IndexOf, Precedes;
    PrecedesAt(list, a, b);
    PrecedesAt(r, a', b');
    PrecedesAt(r, a', p);
    PrecedesAt(r, p, a');
  }

  /** Deleting changes nothing about the others. */
  lemma DeletedPlaces(h: HeapView, v: nat, x: nat, y: nat)
    requires WellFormedHeap(h) && v in h.list && x in h.list && y in h.list && x != v && y != v
    ensures
      var d := Deleted(h, v);
      && d.key == h.key && d.pending == h.pending && v !in d.list && |d.list| == |h.list| - 1
      && (Precedes(d.list, x, y) <==> Precedes(h.list, x, y))
  {
    hide SortedTo, Precedes, RemoveAt, IndexOf;
    SortedMeans(h.list, h.key);
    RemoveAtSorted(h.list, h.key, IndexOf(h.list, v));
    RemovedPlaces(h.list, IndexOf(h.list, v), x, y);
  }

  /** An element with a new key goes behind everybody with at least that key and in front of all others, and
      these keep their order. */
  lemma RekeyedPlaces(h: HeapView, v: nat, k: int, x: nat, y: nat)
    requires WellFormedHeap(h) && v in h.list && x in h.list && y in h.list && x != v && y != v
    ensures
      var r := Rekeyed(h, v, k);
      && r.key == h.key[v := k] && r.pending == h.pending && |r.list| == |h.list| && x < |h.key|
      && (Precedes(r.list, x, v) <==> h.key[x] >= k) && (Precedes(r.list, v, x) <==> h.key[x] < k)
      && (Precedes(r.list, x, y) <==> Precedes(h.list, x, y))
  {
    hide SortedTo, Precedes, RemoveAt, InsertAt, IndexOf, Position;
    var rest := RemoveAt(h.list, IndexOf(h.list, v));
    SortedMeans(h.list, h.key);
    RemoveAtSorted(h.list, h.key, IndexOf(h.list, v));
    RemovedPlaces(h.list, IndexOf(h.list, v), x, y);
    SortedMeans(rest, h.key);
    RekeyedWellFormed(h, v, k);
    SortedMeans(Rekeyed(h, v, k).list, h.key[v := k]);
    var p := Position(rest, h.key, k);
    PositionIs(rest, h.key, k, p);
    InsertedPlaces(rest, p, v, x, y);
  }

  /** The top moves exactly when it owes something and its key, less the half that is rounded up, falls below
      the key of the next element. Then that half is applied, the other half is still owed, and the next
      element is the top; nothing else changes but the place of the old top, which RekeyedPlaces gives. */
  lemma TopDecreasedHalves(h: HeapView)
    requires WellFormedHeap(h) && h.list != []
    ensures
      var t, d := h.list[0], TopDecreased(h);
      t < |h.key| && |h.pending| == |h.key| &&
      var owed := -h.pending[t];
      if owed > 0 && |h.list| > 1 && h.list[1] < |h.key| && h.key[t] - (owed - owed / 2) < h.key[h.list[1]] then
        && d.pending == h.pending[t := -(owed / 2)] && d.key == h.key[t := h.key[t] - (owed - owed / 2)]
        && d.list == Rekeyed(h, t, h.key[t] - (owed - owed / 2)).list && |d.list| > 1 && d.list[0] == h.list[1]
      else d == h
  {
    hide SortedTo, Position;
    assert InRange(h.list, h.key);
    var t := h.list[0];
    if Moves(h) {
      RekeyedWellFormed(h, t, NewKey(h));
      NextIsTop(h, NewKey(h));
    }
  }

  lemma NextIsTop(h: HeapView, k: int)
    requires WellFormedHeap(h) && |h.list| > 1 && h.list[1] < |h.key| && k < h.key[h.list[1]]
    ensures |Rekeyed(h, h.list[0], k).list| > 1 && Rekeyed(h, h.list[0], k).list[0] == h.list[1]
  {
    SortedMeans(h.list, h.key);
    assert IndexOf(h.list, h.list[0]) == 0;
    assert RemoveAt(h.list, 0)[0] == h.list[1];
  }

  /** A move pays off part of the debt and changes no value. */
  lemma TopDecreasedPays(h: HeapView)
    requires WellFormedHeap(h) && h.list != [] && Moves(h)
    ensures WellFormedHeap(TopDecreased(h)) && Debt(TopDecreased(h)) < Debt(h)
    ensures forall x :: x in TopDecreased(h).list <==> x in h.list
    ensures forall x :: 0 <= x < |h.key| ==> Value(TopDecreased(h), x) == Value(h, x)
    ensures |TopDecreased(h).list| == |h.list|
  {
    hide SortedTo, Position;
    var t := h.list[0];
    RekeyedWellFormed(h, t, NewKey(h));
    var after := h.pending[t := Half(h.pending[t])];
    assert Debts(after) == Debts(h.pending)[t := -Half(h.pending[t])];
    SumOfUpdate(Debts(h.pending), t, -Half(h.pending[t]));
  }

  /** Decreases tops until one stays. */
  function Settled(h: HeapView): (s: HeapView)
    requires WellFormedHeap(h) && h.list != []
    ensures s.list != []
    decreases Debt(h)
  {
    if Moves(h) then
      TopDecreasedPays(h);
      Settled(TopDecreased(h))
    else h
  }

  /** One turn of settling. */
  lemma SettleOnce(h: HeapView)
    requires WellFormedHeap(h) && h.list != []
    ensures
      var t := TopDecreased(h);
      && WellFormedHeap(t) && t.list != [] && Settled(t) == Settled(h)
      && (forall x :: x in t.list <==> x in h.list)
      && (forall x :: 0 <= x < |h.key| ==> x < |t.key| && Value(t, x) == Value(h, x))
      && if Moves(h) then Debt(t) < Debt(h) && h.pending[h.list[0]] < 0 else t == h == Settled(h)
  {
    hide Debt, SortedTo, Rekeyed, Half;
    if Moves(h) {
      TopDecreasedPays(h);
    }
  }

  lemma {:induction false} SettledKeeps(h: HeapView)
    requires WellFormedHeap(h) && h.list != []
    ensures
      var s := Settled(h);
      && WellFormedHeap(s) && s.list != [] && !Moves(s)
      && |s.key| == |h.key| && |s.list| == |h.list|
      && (forall x :: x in s.list <==> x in h.list)
      && (forall x :: 0 <= x < |h.key| ==> Value(s, x) == Value(h, x))
      && (forall x :: 0 <= x < |h.key| && h.pending[x] <= 0 ==> h.pending[x] <= s.pending[x] <= 0)
      && (forall x :: 0 <= x < |h.key| && h.pending[x] >= 0 ==> h.pending[x] == s.pending[x])
    decreases Debt(h)
  {
    if Moves(h) {
      TopDecreasedPays(h);
      SettledKeeps(TopDecreased(h));
    }
  }

  /** Settling halves debts as long as a top moves, and ends with the first one that stays. */
  lemma SettledByHalves(h: HeapView)
    requires WellFormedHeap(h) && h.list != []
    ensures
      var t := h.list[0];
      t < |h.key| && |h.pending| == |h.key| &&
      var owed := -h.pending[t];
      if owed > 0 && |h.list| > 1 && h.list[1] < |h.key| && h.key[t] - (owed - owed / 2) < h.key[h.list[1]] then
        WellFormedHeap(TopDecreased(h)) && TopDecreased(h).list != [] && Settled(h) == Settled(TopDecreased(h))
      else Settled(h) == h
  {
    hide SortedTo, Settled, Rekeyed;
    assert InRange(h.list, h.key);
    SettleOnce(h);
  }

  /** No element beats the settled top by more than half of what the top still owes. */
  lemma SettledTopNearMaximal(h: HeapView, w: nat)
    requires WellFormedHeap(h) && h.list != [] && w in h.list
    requires forall x :: x in h.list ==> h.pending[x] <= 0
    ensures WellFormedHeap(Settled(h)) && Settled(h).list != [] && Settled(h).list[0] < |h.key| == |Settled(h).key|
    ensures
      var v := Settled(h).list[0];
      Value(h, w) <= Value(h, v) + (-Settled(h).pending[v]) / 2
  {
    SettledKeeps(h);
    var s := Settled(h);
    var i := IndexOf(s.list, w);
    SortedMeans(s.list, s.key);
    if i > 0 {
      assert s.key[s.list[1]] >= s.key[w];
    }
  }

  /** So the settled top is a maximum whenever it owes at most one ... */
  lemma SettledTopMaximal(h: HeapView, w: nat)
    requires WellFormedHeap(h) && h.list != [] && w in h.list
    requires forall x :: x in h.list ==> h.pending[x] <= 0
    requires WellFormedHeap(Settled(h)) && Settled(h).list != []
    requires Settled(h).pending[Settled(h).list[0]] >= -1
    ensures Settled(h).list[0] < |h.key| && Value(h, w) <= Value(h, Settled(h).list[0])
  {
    SettledTopNearMaximal(h, w);
  }

  /** ... and no larger debt guarantees it: for every key and every debt of two or more there is
      a heap whose top has them and stays, although another element has a higher value. */
  lemma SettledTopNotMaximal(k: int, owed: int)
    requires 2 <= owed <= k
    ensures
      var h := HeapView([0, 1], [k, k - owed + owed / 2], [-owed, 0]);
      && WellFormedHeap(h) && (forall x :: x in h.list ==> h.pending[x] <= 0 <= Value(h, x))
      && Settled(h) == h && Value(h, 1) > Value(h, 0)
  {
    var h := HeapView([0, 1], [k, k - owed + owed / 2], [-owed, 0]);
    SortedMeans(h.list, h.key);
    assert !Moves(h);
  }
}
