/** The keyed and the plain descending merge sort. */
module KeyedSort {

  datatype Entry = Entry(value: nat, key: nat)

  /** Positions lo..hi-1 of the two arrays, paired up. */
  function Entries(arr: seq<nat>, key: seq<nat>, lo: nat, hi: nat): (s: seq<Entry>)
    requires lo <= hi <= |arr| == |key|
    ensures |s| == hi - lo
    ensures forall i :: 0 <= i < |s| ==> s[i] == Entry(arr[lo + i], key[lo + i])
  {
    seq(hi - lo, i requires 0 <= i < hi - lo => Entry(arr[lo + i], key[lo + i]))
  }

  ghost predicate Descending(s: seq<Entry>) {
    forall i, j :: 0 <= i < j < |s| ==> s[i].value >= s[j].value
  }

  /** The entries with value v, in the order they stand. */
  function Only(s: seq<Entry>, v: nat): seq<Entry> {
    if s == [] then []
    else (if s[0].value == v then [s[0]] else []) + Only(s[1..], v)
  }

  /** t is s sorted: descending, and equal values kept in the order s has them. Since every
      value keeps its entries, t also is a permutation of s. */
  ghost predicate StableSort(s: seq<Entry>, t: seq<Entry>) {
    Descending(t) && forall v :: Only(t, v) == Only(s, v)
  }

  /** The merge takes from a when b is used up or a's next value is at least b's. */
  predicate TakesLeft(a: seq<Entry>, i: nat, b: seq<Entry>, j: nat)
    requires i <= |a| && j <= |b|
  {
    i < |a| && (j < |b| ==> a[i].value >= b[j].value)
  }

  /** What is still to come when i entries of a and j entries of b have been merged. */
  function MergedFrom(a: seq<Entry>, i: nat, b: seq<Entry>, j: nat): (m: seq<Entry>)
    requires i <= |a| && j <= |b|
    ensures |m| == |a| - i + |b| - j
    decreases |a| - i + |b| - j
  {
    if i == |a| && j == |b| then []
    else if TakesLeft(a, i, b, j) then [a[i]] + MergedFrom(a, i + 1, b, j)
    else [b[j]] + MergedFrom(a, i, b, j + 1)
  }

  function Merged(a: seq<Entry>, b: seq<Entry>): (m: seq<Entry>) { MergedFrom(a, 0, b, 0) }

  lemma OnlyEmpty(v: nat)
    ensures Only([], v) == []
  {
  }

  lemma OnlyCons(x: Entry, s: seq<Entry>, v: nat)
    ensures Only([x] + s, v) == (if x.value == v then [x] else []) + Only(s, v)
  {
    assert ([x] + s)[1..] == s;
  }

  lemma {:induction false} OnlyConcat(a: seq<Entry>, b: seq<Entry>, v: nat)
    ensures Only(a + b, v) == Only(a, v) + Only(b, v)
  {
    hide Only;
    if a == [] {
      OnlyEmpty(v);
      assert a + b == b;
    } else {
      OnlyConcat(a[1..], b, v);
      OnlyCons(a[0], a[1..], v);
      OnlyCons(a[0], a[1..] + b, v);
      assert a == [a[0]] + a[1..];
      assert a + b == [a[0]] + (a[1..] + b);
    }
  }

  lemma OnlyHead(s: seq<Entry>, i: nat, v: nat)
    requires i < |s|
    ensures Only(s[i..], v) == (if s[i].value == v then [s[i]] else []) + Only(s[i + 1..], v)
  {
    assert s[i..][1..] == s[i + 1..];
  }

  lemma {:induction false} OnlyNone(s: seq<Entry>, v: nat)
    requires forall i :: 0 <= i < |s| ==> s[i].value != v
    ensures Only(s, v) == []
  {
    if s != [] {
      OnlyNone(s[1..], v);
    }
  }

  lemma {:induction false} MergedElements(a: seq<Entry>, i: nat, b: seq<Entry>, j: nat, t: nat)
    requires i <= |a| && j <= |b| && t < |MergedFrom(a, i, b, j)|
    ensures MergedFrom(a, i, b, j)[t] in a[i..] || MergedFrom(a, i, b, j)[t] in b[j..]
    decreases t
  {
    if t > 0 {
      if TakesLeft(a, i, b, j) {
        MergedElements(a, i + 1, b, j, t - 1);
      } else {
        MergedElements(a, i, b, j + 1, t - 1);
      }
    }
  }

  /** The first entry of a merge, and what follows it. */
  lemma MergedHead(a: seq<Entry>, i: nat, b: seq<Entry>, j: nat)
    requires i <= |a| && j <= |b| && (i < |a| || j < |b|)
    ensures TakesLeft(a, i, b, j) ==> i < |a| && MergedFrom(a, i, b, j) == [a[i]] + MergedFrom(a, i + 1, b, j)
    ensures !TakesLeft(a, i, b, j) ==> j < |b| && MergedFrom(a, i, b, j) == [b[j]] + MergedFrom(a, i, b, j + 1)
  {
  }

  lemma {:induction false} MergedDescending(a: seq<Entry>, i: nat, b: seq<Entry>, j: nat)
    requires Descending(a) && Descending(b) && i <= |a| && j <= |b|
    ensures Descending(MergedFrom(a, i, b, j))
    decreases |a| - i + |b| - j
  {
    hide MergedFrom;
    if i < |a| || j < |b| {
      MergedHead(a, i, b, j);
      var (x, i', j') := if TakesLeft(a, i, b, j) then (a[i], i + 1, j) else (b[j], i, j + 1);
      MergedDescending(a, i', b, j');
      var rest := MergedFrom(a, i', b, j');
      forall t | 0 <= t < |rest| ensures x.value >= rest[t].value {
        MergedElements(a, i', b, j', t);
      }
    }
  }

  lemma MergedOnlyStep(x: Entry, rest: seq<Entry>, a: seq<Entry>, i: nat, b: seq<Entry>, j: nat, left: bool, v: nat)
    requires i <= |a| && j <= |b|
    requires if left then i < |a| && x == a[i] else j < |b| && x == b[j] && (x.value == v ==> Only(a[i..], v) == [])
    requires
      Only(rest, v) == if left then Only(a[i + 1..], v) + Only(b[j..], v) else Only(a[i..], v) + Only(b[j + 1..], v)
    ensures Only([x] + rest, v) == Only(a[i..], v) + Only(b[j..], v)
  {
    hide Only;
    OnlyCons(x, rest, v);
    if left {
      OnlyHead(a, i, v);
    } else {
      OnlyHead(b, j, v);
    }
  }

  /** Entries of equal value from the left run come before those from the right run. */
  lemma {:induction false} MergedOnly(a: seq<Entry>, i: nat, b: seq<Entry>, j: nat, v: nat)
    requires Descending(a) && Descending(b) && i <= |a| && j <= |b|
    ensures Only(MergedFrom(a, i, b, j), v) == Only(a[i..], v) + Only(b[j..], v)
    decreases |a| - i + |b| - j
  {
    hide MergedFrom, Only;
    if i == |a| && j == |b| {
      assert a[i..] == [] && b[j..] == [];
      OnlyEmpty(v);
    } else {
      MergedHead(a, i, b, j);
      var left := TakesLeft(a, i, b, j);
      if left {
        MergedOnly(a, i + 1, b, j, v);
        MergedOnlyStep(a[i], MergedFrom(a, i + 1, b, j), a, i, b, j, true, v);
      } else {
        MergedOnly(a, i, b, j + 1, v);
        if b[j].value == v {
          OnlyNone(a[i..], v);
        }
        MergedOnlyStep(b[j], MergedFrom(a, i, b, j + 1), a, i, b, j, false, v);
      }
    }
  }

  /** Merging two sorted halves sorts the whole. */
  lemma MergeSorts(left: seq<Entry>, right: seq<Entry>, a: seq<Entry>, b: seq<Entry>)
    requires StableSort(left, a) && StableSort(right, b)
    ensures StableSort(left + right, Merged(a, b))
  {
    MergedDescending(a, 0, b, 0);
    assert a[0..] == a && b[0..] == b;
    forall v ensures Only(Merged(a, b), v) == Only(left + right, v) {
      MergedOnly(a, 0, b, 0, v);
      OnlyConcat(left, right, v);
    }
  }

  lemma {:induction false} OnlyMember(s: seq<Entry>, e: Entry)
    ensures e in s <==> e in Only(s, e.value)
  {
    if s != [] {
      OnlyMember(s[1..], e);
      assert s == [s[0]] + s[1..];
    }
  }

  /** Sorting neither loses nor invents entries. */
  lemma SortKeepsEntries(s: seq<Entry>, t: seq<Entry>, e: Entry)
    requires StableSort(s, t)
    ensures e in s <==> e in t
  {
    OnlyMember(s, e);
    OnlyMember(t, e);
  }

  /** m[k..] is the merge of a[i..] and b[j..], entry by entry. */
  ghost predicate Continues(m: seq<Entry>, k: nat, a: seq<Entry>, i: nat, b: seq<Entry>, j: nat)
    requires i <= |a| && j <= |b|
    decreases |a| - i + |b| - j
  {
    if i == |a| && j == |b| then k == |m|
    else
      && k < |m|
      && if TakesLeft(a, i, b, j) then m[k] == a[i] && Continues(m, k + 1, a, i + 1, b, j)
         else m[k] == b[j] && Continues(m, k + 1, a, i, b, j + 1)
  }

  lemma {:induction false} MergedContinues(m: seq<Entry>, k: nat, a: seq<Entry>, i: nat, b: seq<Entry>, j: nat)
    requires i <= |a| && j <= |b| && k <= |m| && m[k..] == MergedFrom(a, i, b, j)
    ensures Continues(m, k, a, i, b, j)
    decreases |a| - i + |b| - j
  {
    hide MergedFrom;
    if i < |a| || j < |b| {
      MergedHead(a, i, b, j);
      assert m[k] == m[k..][0];
      assert m[k + 1..] == m[k..][1..];
      if TakesLeft(a, i, b, j) {
        MergedContinues(m, k + 1, a, i + 1, b, j);
      } else {
        MergedContinues(m, k + 1, a, i, b, j + 1);
      }
    }
  }

  lemma MergedStarts(a: seq<Entry>, b: seq<Entry>)
    ensures Continues(Merged(a, b), 0, a, 0, b, 0)
  {
    var m := Merged(a, b);
    assert m[0..] == m;
    MergedContinues(m, 0, a, 0, b, 0);
  }

  lemma ContinuesStep(m: seq<Entry>, k: nat, a: seq<Entry>, i: nat, b: seq<Entry>, j: nat)
    requires i <= |a| && j <= |b| && (i < |a| || j < |b|) && Continues(m, k, a, i, b, j)
    ensures k < |m|
    ensures TakesLeft(a, i, b, j) ==> i < |a| && m[k] == a[i] && Continues(m, k + 1, a, i + 1, b, j)
    ensures !TakesLeft(a, i, b, j) ==> j < |b| && m[k] == b[j] && Continues(m, k + 1, a, i, b, j + 1)
  {
  }

  /** The first k entries of the two buffers are those of m. */
  ghost predicate Filled(m: seq<Entry>, temp: array<nat>, tempKey: array<nat>, k: nat)
    reads temp, tempKey
  {
    && temp.Length == tempKey.Length == |m| && k <= |m| && temp != tempKey
    && forall t :: 0 <= t < k ==> m[t] == Entry(temp[t], tempKey[t])
  }

  /** Moves one entry to the next free place of the buffers. */
  method TakeHead(arr: array<nat>, key: array<nat>, from: nat, temp: array<nat>, tempKey: array<nat>, k: nat,
                  ghost m: seq<Entry>)
    requires from < arr.Length == key.Length && k < |m| && m[k] == Entry(arr[from], key[from])
    requires Filled(m, temp, tempKey, k)
    modifies temp, tempKey
    ensures Filled(m, temp, tempKey, k + 1)
  {
    tempKey[k], temp[k] := key[from], arr[from];
  }

  /** The first loop of the merge: until one of the two runs is used up. */
  method MergeHeads(arr: array<nat>, key: array<nat>, low: nat, high: nat, mid: nat,
                    temp: array<nat>, tempKey: array<nat>, ghost a: seq<Entry>, ghost b: seq<Entry>)
    returns (i: nat, j: nat, k: nat)
    requires low <= mid < high < arr.Length == key.Length
    requires Filled(Merged(a, b), temp, tempKey, 0)
    requires temp != arr && temp != key && tempKey != arr && tempKey != key
    requires a == Entries(arr[..], key[..], low, mid + 1) && b == Entries(arr[..], key[..], mid + 1, high + 1)
    modifies temp, tempKey
    ensures low <= i <= mid + 1 <= j <= high + 1 && (i == mid + 1 || j == high + 1)
    ensures k == i - low + j - mid - 1 && Filled(Merged(a, b), temp, tempKey, k)
    ensures Continues(Merged(a, b), k, a, i - low, b, j - mid - 1)
  {
    hide Continues, MergedFrom, Merged, Entries, Filled;
    ghost var m := Merged(a, b);
    i, j, k := low, mid + 1, 0;
    MergedStarts(a, b);
    while i <= mid && j <= high
      invariant low <= i <= mid + 1 <= j <= high + 1 && k == (i - low) + (j - mid - 1)
      invariant Filled(m, temp, tempKey, k)
      invariant Continues(m, k, a, i - low, b, j - mid - 1)
    {
      assert a[i - low] == Entry(arr[i], key[i]) && b[j - mid - 1] == Entry(arr[j], key[j]);
      ContinuesStep(m, k, a, i - low, b, j - mid - 1);
      if arr[i] >= arr[j] {
        TakeHead(arr, key, i, temp, tempKey, k, m);
        i := i + 1;
      } else {
        TakeHead(arr, key, j, temp, tempKey, k, m);
        j := j + 1;
      }
      k := k + 1;
    }
  }

  /** The second loop: what is left of the left run. */
  method DrainLeft(arr: array<nat>, key: array<nat>, low: nat, mid: nat, from: nat,
                   temp: array<nat>, tempKey: array<nat>, from': nat,
                   ghost m: seq<Entry>, ghost a: seq<Entry>, ghost b: seq<Entry>)
    returns (k: nat)
    requires low <= from <= mid + 1 <= arr.Length == key.Length && from' + mid + 1 - from <= |m|
    requires temp != arr && temp != key && tempKey != arr && tempKey != key
    requires a == Entries(arr[..], key[..], low, mid + 1)
    requires Filled(m, temp, tempKey, from') && Continues(m, from', a, from - low, b, |b|)
    modifies temp, tempKey
    ensures k == from' + mid + 1 - from && Filled(m, temp, tempKey, k) && Continues(m, k, a, |a|, b, |b|)
  {
    var i := from;
    k := from';
    while i <= mid
      invariant from <= i <= mid + 1 && k == from' + i - from
      invariant Filled(m, temp, tempKey, k) && Continues(m, k, a, i - low, b, |b|)
    {
      assert a[i - low] == Entry(arr[i], key[i]);
      TakeHead(arr, key, i, temp, tempKey, k, m);
      k, i := k + 1, i + 1;
    }
  }

  /** The third loop: what is left of the right run. */
  method DrainRight(arr: array<nat>, key: array<nat>, mid: nat, high: nat, from: nat,
                    temp: array<nat>, tempKey: array<nat>, from': nat,
                    ghost m: seq<Entry>, ghost a: seq<Entry>, ghost b: seq<Entry>)
    requires mid < from <= high + 1 <= arr.Length == key.Length && from' + high + 1 - from == |m|
    requires temp != arr && temp != key && tempKey != arr && tempKey != key
    requires b == Entries(arr[..], key[..], mid + 1, high + 1)
    requires Filled(m, temp, tempKey, from') && Continues(m, from', a, |a|, b, from - mid - 1)
    modifies temp, tempKey
    ensures Filled(m, temp, tempKey, |m|)
  {
    var j, k := from, from';
    while j <= high
      invariant from <= j <= high + 1 && k == from' + j - from
      invariant Filled(m, temp, tempKey, k) && Continues(m, k, a, |a|, b, j - mid - 1)
    {
      assert b[j - mid - 1] == Entry(arr[j], key[j]);
      TakeHead(arr, key, j, temp, tempKey, k, m);
      k, j := k + 1, j + 1;
    }
  }

  method CopyBack(arr: array<nat>, key: array<nat>, temp: array<nat>, tempKey: array<nat>, low: nat, high: nat,
                  ghost m: seq<Entry>)
    requires low <= high < arr.Length == key.Length && arr != key && |m| == high - low + 1
    requires Filled(m, temp, tempKey, |m|)
    requires temp != arr && temp != key && tempKey != arr && tempKey != key
    modifies arr, key
    ensures Entries(arr[..], key[..], low, high + 1) == m
    ensures forall t :: 0 <= t < arr.Length && !(low <= t <= high) ==> arr[t] == old(arr[t]) && key[t] == old(key[t])
  {
    for i := low to high + 1
      invariant forall t :: low <= t < i ==> m[t - low] == Entry(arr[t], key[t])
      invariant forall t :: 0 <= t < arr.Length && !(low <= t < i) ==> arr[t] == old(arr[t]) && key[t] == old(key[t])
    {
      assert m[i - low] == Entry(temp[i - low], tempKey[i - low]);
      key[i] := tempKey[i - low];
      arr[i] := temp[i - low];
    }
  }

  /** Nothing has changed outside positions lo..hi-1. */
  ghost predicate SameOutside(a: seq<nat>, b: seq<nat>, lo: nat, hi: nat) {
    |a| == |b| && forall t :: 0 <= t < |a| && !(lo <= t < hi) ==> b[t] == a[t]
  }

  lemma OutsideJoins(a: seq<nat>, b: seq<nat>, c: seq<nat>, lo: nat, hi: nat, lo': nat, hi': nat)
    requires SameOutside(a, b, lo, hi) && SameOutside(b, c, lo', hi')
    ensures forall l: nat, h: nat :: l <= lo && l <= lo' && hi <= h && hi' <= h ==> SameOutside(a, c, l, h)
  {
  }

  method Merge(arr: array<nat>, key: array<nat>, low: nat, high: nat, mid: nat)
    requires low <= mid < high < arr.Length == key.Length && arr != key
    modifies arr, key
    ensures Entries(arr[..], key[..], low, high + 1)
         == Merged(old(Entries(arr[..], key[..], low, mid + 1)), old(Entries(arr[..], key[..], mid + 1, high + 1)))
    ensures SameOutside(old(arr[..]), arr[..], low, high + 1) && SameOutside(old(key[..]), key[..], low, high + 1)
  {
    ghost var a, b := Entries(arr[..], key[..], low, mid + 1), Entries(arr[..], key[..], mid + 1, high + 1);
    ghost var m := Merged(a, b);
    var temp := new nat[high - low + 1];
    var tempKey := new nat[high - low + 1];
    var i, j, k := MergeHeads(arr, key, low, high, mid, temp, tempKey, a, b);
    if i <= mid {
      k := DrainLeft(arr, key, low, mid, i, temp, tempKey, k, m, a, b);
    }
    DrainRight(arr, key, mid, high, j, temp, tempKey, k, m, a, b);
    CopyBack(arr, key, temp, tempKey, low, high, m);
  }

  method MergeSort(arr: array<nat>, key: array<nat>, low: nat, high: nat)
    requires high < arr.Length == key.Length && arr != key
    modifies arr, key
    ensures low <= high ==>
      StableSort(old(Entries(arr[..], key[..], low, high + 1)), Entries(arr[..], key[..], low, high + 1))
    ensures SameOutside(old(arr[..]), arr[..], low, high + 1) && SameOutside(old(key[..]), key[..], low, high + 1)
    decreases high - low
  {
    hide StableSort, Merged, Entries, SameOutside;
    NothingChanged(arr[..], low, high + 1);
    NothingChanged(key[..], low, high + 1);
    if low >= high {
      if low == high {
        OneIsSorted(Entries(arr[..], key[..], low, high + 1));
      }
      return;
    }
    if high - low == 1 {
      SortPair(arr, key, low);
      return;
    }
    var mid := (low + high) / 2;
    ghost var arr0, key0 := arr[..], key[..];
    MergeSort(arr, key, low, mid);
    ghost var arr1, key1 := arr[..], key[..];
    MergeSort(arr, key, mid + 1, high);
    ghost var arr2, key2 := arr[..], key[..];
    Merge(arr, key, low, high, mid);
    HalvesSorted(arr0, key0, arr1, key1, arr2, key2, low, mid + 1, high + 1);
    OutsideJoins(arr0, arr1, arr2, low, mid + 1, mid + 1, high + 1);
    OutsideJoins(arr0, arr2, arr[..], low, high + 1, low, high + 1);
    OutsideJoins(key0, key1, key2, low, mid + 1, mid + 1, high + 1);
    OutsideJoins(key0, key2, key[..], low, high + 1, low, high + 1);
  }

  lemma NothingChanged(a: seq<nat>, lo: nat, hi: nat)
    ensures SameOutside(a, a, lo, hi)
  {
  }

  /** Sorting one half and then the other, and merging, sorts the whole. */
  lemma HalvesSorted(arr0: seq<nat>, key0: seq<nat>, arr1: seq<nat>, key1: seq<nat>, arr2: seq<nat>, key2: seq<nat>,
                     lo: nat, mid: nat, hi: nat)
    requires lo <= mid <= hi <= |arr0| == |key0| == |arr1| == |key1| == |arr2| == |key2|
    requires SameOutside(arr0, arr1, lo, mid) && SameOutside(key0, key1, lo, mid)
    requires SameOutside(arr1, arr2, mid, hi) && SameOutside(key1, key2, mid, hi)
    requires StableSort(Entries(arr0, key0, lo, mid), Entries(arr1, key1, lo, mid))
    requires StableSort(Entries(arr1, key1, mid, hi), Entries(arr2, key2, mid, hi))
    ensures StableSort(Entries(arr0, key0, lo, hi), Merged(Entries(arr2, key2, lo, mid), Entries(arr2, key2, mid, hi)))
  {
    hide StableSort, Merged;
    EntriesSplit(arr0, key0, lo, mid, hi);
    EntriesSame(arr0, key0, arr1, key1, mid, hi);
    EntriesSame(arr1, key1, arr2, key2, lo, mid);
    MergeSorts(Entries(arr0, key0, lo, mid), Entries(arr1, key1, mid, hi),
               Entries(arr1, key1, lo, mid), Entries(arr2, key2, mid, hi));
  }

  lemma EntriesSplit(arr: seq<nat>, key: seq<nat>, lo: nat, mid: nat, hi: nat)
    requires lo <= mid <= hi <= |arr| == |key|
    ensures Entries(arr, key, lo, hi) == Entries(arr, key, lo, mid) + Entries(arr, key, mid, hi)
  {
  }

  lemma EntriesSame(arr: seq<nat>, key: seq<nat>, arr': seq<nat>, key': seq<nat>, lo: nat, hi: nat)
    requires lo <= hi <= |arr| == |key| == |arr'| == |key'|
    requires forall t :: lo <= t < hi ==> arr[t] == arr'[t] && key[t] == key'[t]
    ensures Entries(arr, key, lo, hi) == Entries(arr', key', lo, hi)
  {
  }

  lemma OneIsSorted(s: seq<Entry>)
    requires |s| == 1
    ensures StableSort(s, s)
  {
  }

  method SortPair(arr: array<nat>, key: array<nat>, low: nat)
    requires low + 1 < arr.Length == key.Length && arr != key
    modifies arr, key
    ensures StableSort(old(Entries(arr[..], key[..], low, low + 2)), Entries(arr[..], key[..], low, low + 2))
    ensures SameOutside(old(arr[..]), arr[..], low, low + 2) && SameOutside(old(key[..]), key[..], low, low + 2)
  {
    ghost var before := Entries(arr[..], key[..], low, low + 2);
    if arr[low + 1] > arr[low] {
      arr[low + 1], arr[low] := arr[low], arr[low + 1];
      key[low + 1], key[low] := key[low], key[low + 1];
    }
    PairSorts(before, Entries(arr[..], key[..], low, low + 2));
  }

  lemma PairSorts(s: seq<Entry>, t: seq<Entry>)
    requires |s| == 2
    requires t == if s[1].value > s[0].value then [s[1], s[0]] else s
    ensures StableSort(s, t)
  {
    forall v ensures Only(t, v) == Only(s, v) {
      assert s == [s[0]] + [s[1]] && t == [t[0]] + [t[1]];
      OnlyConcat([s[0]], [s[1]], v);
      OnlyConcat([t[0]], [t[1]], v);
    }
  }
}
