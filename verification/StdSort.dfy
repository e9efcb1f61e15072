/** What std::sort promises: some rearrangement in which no element is less than an earlier one. */
module StdSort {
  import opened Permutations

  ghost predicate StrictWeak<T(!new)>(less: (T, T) -> bool) {
    && (forall a :: !less(a, a))
    && (forall a, b, c :: less(a, b) && less(b, c) ==> less(a, c))
    && (forall a, b, c :: !less(a, b) && !less(b, c) ==> !less(a, c))
  }

  ghost predicate InOrder<T(!new)>(s: seq<T>, less: (T, T) -> bool) {
    forall i, j :: 0 <= i < j < |s| ==> !less(s[j], s[i])
  }

  ghost predicate Sorting<T(!new)>(s: seq<T>, r: seq<T>, less: (T, T) -> bool) {
    multiset(r) == multiset(s) && InOrder(r, less)
  }

  /** Nothing beyond `Sorting` is promised: equal elements may come out in any order. */
  method Sort<T(!new)>(s: seq<T>, less: (T, T) -> bool) returns (r: seq<T>)
    requires StrictWeak(less)
    ensures Sorting(s, r, less) && |r| == |s|
  {
    r := [];
    for i := 0 to |s|
      invariant Sorting(s[..i], r, less)
    {
      var k := |r|;
      while k > 0 && less(s[i], r[k - 1])
        invariant 0 <= k <= |r|
        invariant forall j :: k <= j < |r| ==> less(s[i], r[j])
      {
        k := k - 1;
      }
      InsertInOrder(r, k, s[i], less);
      assert s[..i + 1] == s[..i] + [s[i]];
      r := r[..k] + [s[i]] + r[k..];
    }
    assert s[..|s|] == s;
    assert |multiset(r)| == |multiset(s)|;
  }

  lemma InsertInOrder<T(!new)>(r: seq<T>, k: nat, x: T, less: (T, T) -> bool)
    requires StrictWeak(less) && InOrder(r, less) && k <= |r|
    requires forall j :: k <= j < |r| ==> less(x, r[j])
    requires k > 0 ==> !less(x, r[k - 1])
    ensures InOrder(r[..k] + [x] + r[k..], less)
    ensures multiset(r[..k] + [x] + r[k..]) == multiset(r) + multiset{x}
  {
    assert r == r[..k] + r[k..];
    var t := r[..k] + [x] + r[k..];
    forall i, j | 0 <= i < j < |t| ensures !less(t[j], t[i]) {
      InsertedPair(r, k, x, less, i, j);
    }
  }

  lemma InsertedPair<T(!new)>(r: seq<T>, k: nat, x: T, less: (T, T) -> bool, i: nat, j: nat)
    requires StrictWeak(less) && InOrder(r, less) && i < j <= |r| && k <= |r|
    requires forall j :: k <= j < |r| ==> less(x, r[j])
    requires k > 0 ==> !less(x, r[k - 1])
    ensures
      var t := r[..k] + [x] + r[k..];
      !less(t[j], t[i])
  {
    var t := r[..k] + [x] + r[k..];
    assert t[i] == if i < k then r[i] else if i == k then x else r[i - 1];
    assert t[j] == if j < k then r[j] else if j == k then x else r[j - 1];
    if j == k && i < k - 1 {
      assert !less(r[k - 1], r[i]);
    }
  }

  /** Key lookup for comparators, which have to be total. */
  function KeyAt(keys: seq<int>, v: nat): int { if v < |keys| then keys[v] else 0 }

  /** 0..n-1 in some order of ascending key. */
  method SortByKey(n: nat, keys: seq<int>) returns (r: seq<nat>)
    requires |keys| == n
    ensures IsPermutation(r, n)
    ensures forall i, j :: 0 <= i < j < n ==> keys[r[i]] <= keys[r[j]]
  {
    var all: seq<nat> := seq(n, i => i);
    var order: seq<nat> := Sort<nat>(all, (a: nat, b: nat) => KeyAt(keys, a) < KeyAt(keys, b));
    r := order;
    RearrangedRange(all, r, n);
  }

  lemma RearrangedRange(all: seq<nat>, r: seq<nat>, n: nat)
    requires |all| == |r| == n && multiset(r) == multiset(all)
    requires forall i :: 0 <= i < n ==> all[i] == i
    ensures IsPermutation(r, n)
  {
    forall v: nat | v < n ensures v in r {
      assert all[v] in multiset(r);
    }
    forall i | 0 <= i < n ensures r[i] < n {
      assert r[i] in multiset(all);
    }
    OntoIsPermutation(r, n);
  }
}
