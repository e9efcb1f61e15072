/** Permutations of 0..n-1 stored as sequences, their inverses, and sums over them. */
module Permutations {

  ghost predicate Distinct<T>(s: seq<T>) {
    forall i, j :: 0 <= i < j < |s| ==> s[i] != s[j]
  }

  ghost predicate Below(s: seq<nat>, n: nat) {
    forall i :: 0 <= i < |s| ==> s[i] < n
  }

  ghost predicate IsPermutation(s: seq<nat>, n: nat) {
    |s| == n && Below(s, n) && Distinct(s)
  }

  /** f and g undo each other on 0..n-1. */
  ghost predicate Inverse(f: seq<nat>, g: seq<nat>, n: nat) {
    && |f| == n && |g| == n
    && (forall i :: 0 <= i < n ==> f[i] < n && g[f[i]] == i)
    && (forall i :: 0 <= i < n ==> g[i] < n && f[g[i]] == i)
  }

  function Range(n: nat): (r: set<nat>)
    ensures forall x: nat :: x in r <==> x < n
    ensures |r| == n
  {
    if n == 0 then {} else Range(n - 1) + {n - 1}
  }

  function Elements<T(!new)>(s: seq<T>): (r: set<T>)
    ensures forall x :: x in r <==> x in s
  {
    set x | x in s
  }

  lemma {:induction false} DistinctSize<T(!new)>(s: seq<T>)
    requires Distinct(s)
    ensures |Elements(s)| == |s|
  {
    if s == [] {
      assert Elements(s) == {};
    } else {
      var last := |s| - 1;
      DistinctSize(s[..last]);
      assert s == s[..last] + [s[last]];
      assert Elements(s) == Elements(s[..last]) + {s[last]};
      assert s[last] !in s[..last];
    }
  }

  /** A list of distinct numbers below n has at most n entries. */
  lemma Pigeonhole(s: seq<nat>, n: nat)
    requires Below(s, n) && Distinct(s)
    ensures |s| <= n
  {
    DistinctSize(s);
    SubsetSize(Elements(s), Range(n));
  }

  lemma SubsetSize<T>(a: set<T>, b: set<T>)
    requires a <= b
    ensures |a| <= |b|
    ensures |a| == |b| ==> a == b
  {
    assert b == a + (b - a);
    assert |b| == |a| + |b - a|;
  }

  /** A permutation of 0..n-1 reaches every number below n. */
  lemma Onto(s: seq<nat>, n: nat, v: nat)
    requires IsPermutation(s, n) && v < n
    ensures v in s
  {
    DistinctSize(s);
    SubsetSize(Elements(s), Range(n));
    assert v in Range(n);
  }

  /** Distinct numbers below n that reach every number below n are exactly n many. */
  lemma FullLength(s: seq<nat>, n: nat)
    requires Below(s, n) && Distinct(s)
    requires forall v :: 0 <= v < n ==> v in s
    ensures IsPermutation(s, n)
  {
    Pigeonhole(s, n);
    DistinctSize(s);
    assert Elements(s) == Range(n);
  }

  lemma {:induction false} ElementsSize<T(!new)>(s: seq<T>)
    ensures |Elements(s)| <= |s|
  {
    if s == [] {
      assert Elements(s) == {};
    } else {
      var last := |s| - 1;
      ElementsSize(s[..last]);
      assert s == s[..last] + [s[last]];
      assert Elements(s) == Elements(s[..last]) + {s[last]};
    }
  }

  /** n numbers below n that reach every number below n are distinct. */
  lemma OntoIsPermutation(s: seq<nat>, n: nat)
    requires |s| == n && Below(s, n)
    requires forall v :: 0 <= v < n ==> v in s
    ensures IsPermutation(s, n)
  {
    forall i, j | 0 <= i < j < n ensures s[i] != s[j] {
      if s[i] == s[j] {
        var t := s[..j] + s[j + 1..];
        forall x: nat | x < n ensures x in t {
          assert x in s;
          var k :| 0 <= k < n && s[k] == x;
          if k < j {
            assert t[k] == x;
          } else if k > j {
            assert t[k - 1] == x;
          } else {
            assert t[i] == x;
          }
        }
        ElementsSize(t);
        assert Range(n) <= Elements(t);
        SubsetSize(Range(n), Elements(t));
      }
    }
  }

  lemma InversePermutations(f: seq<nat>, g: seq<nat>, n: nat)
    requires Inverse(f, g, n)
    ensures IsPermutation(f, n) && IsPermutation(g, n)
  {
    forall i, j | 0 <= i < j < n ensures f[i] != f[j] && g[i] != g[j] {
      assert g[f[i]] == i && g[f[j]] == j && f[g[i]] == i && f[g[j]] == j;
    }
  }

  /** The table filled by `f[s[i]] = i` is the inverse of the permutation s. */
  lemma TableInverts(s: seq<nat>, f: seq<nat>, n: nat)
    requires IsPermutation(s, n) && |f| == n
    requires forall i :: 0 <= i < n ==> f[s[i]] == i
    ensures Inverse(f, s, n)
  {
    forall v | 0 <= v < n ensures f[v] < n && s[f[v]] == v {
      Onto(s, n, v);
      var i :| 0 <= i < n && s[i] == v;
      assert f[s[i]] == i;
    }
  }

  // ---------- Sums ----------

  function Sum(s: seq<int>): int {
    if s == [] then 0 else Sum(s[..|s| - 1]) + s[|s| - 1]
  }

  lemma {:induction false} SumAppend(a: seq<int>, b: seq<int>)
    ensures Sum(a + b) == Sum(a) + Sum(b)
  {
    if b == [] {
      assert a + b == a;
    } else {
      var last := |b| - 1;
      SumAppend(a, b[..last]);
      assert (a + b)[..|a + b| - 1] == a + b[..last];
    }
  }

  /** Rearranging the terms does not change a sum. */
  lemma {:induction false} SumOfSameTerms(a: seq<int>, b: seq<int>)
    requires multiset(a) == multiset(b)
    ensures Sum(a) == Sum(b)
  {
    if a == [] {
      assert |multiset(b)| == 0;
      assert b == [];
    } else {
      var last := |a| - 1;
      var x := a[last];
      assert a == a[..last] + [x];
      assert x in multiset(b);
      var i :| 0 <= i < |b| && b[i] == x;
      assert b == b[..i] + [x] + b[i + 1..];
      assert multiset(a[..last]) == multiset(a) - multiset{x};
      assert multiset(b[..i] + b[i + 1..]) == multiset(b) - multiset{x};
      SumOfSameTerms(a[..last], b[..i] + b[i + 1..]);
      SumAppend(b[..i], b[i + 1..]);
      SumAppend(b[..i] + [x], b[i + 1..]);
      SumAppend(b[..i], [x]);
      assert [x][..0] == [];
      assert Sum([x]) == x;
    }
  }

  lemma {:induction false} SumOfUpdate(s: seq<int>, i: nat, v: int)
    requires i < |s|
    ensures Sum(s[i := v]) == Sum(s) - s[i] + v
  {
    var last := |s| - 1;
    if i < last {
      SumOfUpdate(s[..last], i, v);
      assert s[i := v][..last] == s[..last][i := v];
    } else {
      assert s[i := v][..last] == s[..last];
    }
  }

  lemma {:induction false} SumNonNegative(s: seq<int>)
    requires forall i :: 0 <= i < |s| ==> s[i] >= 0
    ensures Sum(s) >= 0
  {
    if s != [] {
      SumNonNegative(s[..|s| - 1]);
    }
  }

  ghost function Picked(d: seq<int>, p: seq<nat>): (s: seq<int>)
    requires Below(p, |d|)
    ensures |s| == |p| && forall i :: 0 <= i < |p| ==> s[i] == d[p[i]]
  {
    seq(|p|, i requires 0 <= i < |p| => d[p[i]])
  }

  /** Adding up the terms in any order, leaving out only zeros. */
  lemma {:induction false} SumOfPicked(d: seq<int>, p: seq<nat>)
    requires Distinct(p) && Below(p, |d|) && forall v :: 0 <= v < |d| && v !in p ==> d[v] == 0
    ensures Sum(Picked(d, p)) == Sum(d)
    decreases |p|
  {
    if p == [] {
      SumOfZeros(d);
    } else {
      var last := |p| - 1;
      var x := p[last];
      var d' := d[x := 0];
      SumOfUpdate(d, x, 0);
      forall v | 0 <= v < |d| && v !in p[..last] ensures d'[v] == 0 {
        assert v != x ==> v !in p;
      }
      SumOfPicked(d', p[..last]);
      assert Picked(d', p[..last]) == Picked(d, p)[..last];
    }
  }

  lemma {:induction false} SumOfZeros(d: seq<int>)
    requires forall v :: 0 <= v < |d| ==> d[v] == 0
    ensures Sum(d) == 0
  {
    if d != [] {
      SumOfZeros(d[..|d| - 1]);
    }
  }

  /** Exchanging the entries of two positions keeps f and g inverse. */
  lemma SwapKeepsInverse(f: seq<nat>, g: seq<nat>, n: nat, x: nat, i: nat)
    requires Inverse(f, g, n) && x < n && i < n
    ensures Inverse(f[x := i][g[i] := f[x]], g[i := x][f[x] := g[i]], n)
  {
  }

  lemma SliceNone(s: seq<nat>, i: nat)
    requires i <= |s|
    ensures s[i..i] == []
  {
  }

  lemma SliceMore(s: seq<nat>, lo: nat, i: nat)
    requires lo <= i < |s|
    ensures s[lo..i + 1] == s[lo..i] + [s[i]]
  {
  }
}
