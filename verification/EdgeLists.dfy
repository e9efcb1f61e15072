/** Edge lists turned into compressed rows: counting, prefix sums, and one pass that drops every
    edge into the next free place of its row. */
module EdgeLists {
  import opened Permutations
  import opened Csr

  // ---------- What a row should hold ----------

  /** The values whose key is s among the first m, in input order. */
  function Targets(keys: seq<nat>, vals: seq<nat>, m: nat, s: nat): (r: seq<nat>)
    requires m <= |keys| && m <= |vals|
    ensures |r| == Occurrences(keys, 0, m, s)
  {
    if m == 0 then []
    else if keys[m - 1] == s then Targets(keys, vals, m - 1, s) + [vals[m - 1]]
    else Targets(keys, vals, m - 1, s)
  }

  /** The value of entry i comes after those of all earlier entries with the same key, and of no others. */
  lemma {:induction false} TargetsInOrder(keys: seq<nat>, vals: seq<nat>, m: nat, i: nat)
    requires i < m <= |keys| && m <= |vals|
    ensures
      var r, t := Targets(keys, vals, m, keys[i]), Occurrences(keys, 0, i, keys[i]);
      t < |r| && r[t] == vals[i]
  {
    if i < m - 1 {
      TargetsInOrder(keys, vals, m - 1, i);
    }
  }

  /** How many of the entries lo..hi-1 have key k and value v. */
  function Pairs(keys: seq<nat>, vals: seq<nat>, lo: nat, hi: nat, k: nat, v: nat): nat
    requires lo <= hi <= |keys| && hi <= |vals|
    decreases hi - lo
  {
    if lo == hi then 0
    else Pairs(keys, vals, lo, hi - 1, k, v) + (if keys[hi - 1] == k && vals[hi - 1] == v then 1 else 0)
  }

  lemma {:induction false} TargetsCount(keys: seq<nat>, vals: seq<nat>, m: nat, k: nat, v: nat)
    requires m <= |keys| && m <= |vals|
    ensures
      var r := Targets(keys, vals, m, k);
      Occurrences(r, 0, |r|, v) == Pairs(keys, vals, 0, m, k, v)
  {
    if m > 0 {
      TargetsCount(keys, vals, m - 1, k, v);
      var r := Targets(keys, vals, m - 1, k);
      if keys[m - 1] == k {
        var longer := r + [vals[m - 1]];
        assert Targets(keys, vals, m, k) == longer;
        OccurrencesSame(r, longer, 0, |r|, v);
        assert longer[|longer| - 1] == vals[m - 1];
      }
    }
  }

  lemma {:induction false} OccurrencesSame(a: seq<nat>, b: seq<nat>, lo: nat, hi: nat, x: nat)
    requires lo <= hi <= |a| && hi <= |b| && forall i :: lo <= i < hi ==> a[i] == b[i]
    ensures Occurrences(a, lo, hi, x) == Occurrences(b, lo, hi, x)
    decreases hi - lo
  {
    if lo < hi {
      OccurrencesSame(a, b, lo, hi - 1, x);
    }
  }

  lemma OccurrencesConcat(a: seq<nat>, b: seq<nat>, x: nat)
    ensures Occurrences(a + b, 0, |a| + |b|, x) == Occurrences(a, 0, |a|, x) + Occurrences(b, 0, |b|, x)
  {
    OccurrencesSplit(a + b, 0, |a|, |a| + |b|, x);
    OccurrencesSame(a + b, a, 0, |a|, x);
    OccurrencesSlice(a + b, |a|, |a| + |b|, x);
    assert (a + b)[|a|..|a| + |b|] == b;
  }

  /** Counting inside a slice. */
  lemma {:induction false} OccurrencesSlice(s: seq<nat>, lo: nat, hi: nat, x: nat)
    requires lo <= hi <= |s|
    ensures Occurrences(s, lo, hi, x) == Occurrences(s[lo..hi], 0, hi - lo, x)
    decreases hi - lo
  {
    if lo < hi {
      OccurrencesSlice(s, lo, hi - 1, x);
      OccurrencesSame(s[lo..hi - 1], s[lo..hi], 0, hi - 1 - lo, x);
    }
  }

  lemma {:induction false} PairsSplit(keys: seq<nat>, vals: seq<nat>, lo: nat, mid: nat, hi: nat, k: nat, v: nat)
    requires lo <= mid <= hi <= |keys| && hi <= |vals|
    ensures Pairs(keys, vals, lo, hi, k, v) == Pairs(keys, vals, lo, mid, k, v) + Pairs(keys, vals, mid, hi, k, v)
    decreases hi - mid
  {
    if mid < hi {
      PairsSplit(keys, vals, lo, mid, hi - 1, k, v);
    }
  }

  /** On a stretch where every value is v, or none is. */
  lemma {:induction false} PairsUniform(keys: seq<nat>, vals: seq<nat>, lo: nat, hi: nat, k: nat, v: nat)
    requires lo <= hi <= |keys| && hi <= |vals|
    ensures (forall j :: lo <= j < hi ==> vals[j] == v) ==>
              Pairs(keys, vals, lo, hi, k, v) == Occurrences(keys, lo, hi, k)
    ensures (forall j :: lo <= j < hi ==> vals[j] != v) ==> Pairs(keys, vals, lo, hi, k, v) == 0
    decreases hi - lo
  {
    if lo < hi {
      PairsUniform(keys, vals, lo, hi - 1, k, v);
    }
  }

  // ---------- Where a row should start ----------

  /** How many of the first m keys are below s. */
  function Smaller(keys: seq<nat>, m: nat, s: nat): (k: nat)
    requires m <= |keys|
    ensures k <= m
  {
    if m == 0 then 0 else Smaller(keys, m - 1, s) + (if keys[m - 1] < s then 1 else 0)
  }

  lemma {:induction false} SmallerNext(keys: seq<nat>, m: nat, s: nat)
    requires m <= |keys|
    ensures Smaller(keys, m, s + 1) == Smaller(keys, m, s) + Occurrences(keys, 0, m, s)
    ensures Smaller(keys, m, 0) == 0
  {
    if m > 0 {
      SmallerNext(keys, m - 1, s);
    }
  }

  lemma {:induction false} SmallerAll(keys: seq<nat>, m: nat, n: nat)
    requires m <= |keys| && Below(keys, n)
    ensures Smaller(keys, m, n) == m
  {
    if m > 0 {
      SmallerAll(keys, m - 1, n);
    }
  }

  lemma {:induction false} SmallerMonotone(keys: seq<nat>, m: nat, s: nat, t: nat)
    requires m <= |keys| && s <= t
    ensures Smaller(keys, m, s) <= Smaller(keys, m, t)
  {
    if m > 0 {
      SmallerMonotone(keys, m - 1, s, t);
    }
  }

  ghost predicate Starts(VI: seq<nat>, keys: seq<nat>, n: nat) {
    |VI| >= n && forall s :: 0 <= s < n ==> VI[s] == Smaller(keys, |keys|, s)
  }

  // ---------- The pass over the edges ----------

  /** Row s already holds what the first i edges put there. */
  ghost predicate RowHolds(EI: seq<nat>, start: nat, r: seq<nat>) {
    start + |r| <= |EI| && forall t :: 0 <= t < |r| ==> EI[start + t] == r[t]
  }

  ghost predicate Scattered(EI: seq<nat>, VI: seq<nat>, keys: seq<nat>, vals: seq<nat>, n: nat, i: nat) {
    && |EI| == |keys| == |vals| && i <= |keys| && Starts(VI, keys, n)
    && forall s :: 0 <= s < n ==> RowHolds(EI, VI[s], Targets(keys, vals, i, s))
  }

  lemma ScatterStart(EI: seq<nat>, VI: seq<nat>, keys: seq<nat>, vals: seq<nat>, n: nat)
    requires |EI| == |keys| == |vals| && Starts(VI, keys, n)
    ensures Scattered(EI, VI, keys, vals, n, 0)
  {
  }

  /** Where edge i goes is free, and no other row is touched. */
  lemma ScatterPlace(VI: seq<nat>, keys: seq<nat>, n: nat, i: nat, s: nat)
    requires Starts(VI, keys, n) && i < |keys| && keys[i] < n && s < n
    ensures VI[keys[i]] + Occurrences(keys, 0, i, keys[i]) < |keys|
    ensures s < keys[i] ==> VI[s] + Occurrences(keys, 0, i, s) <= VI[keys[i]]
    ensures keys[i] < s ==> VI[keys[i]] + Occurrences(keys, 0, i, keys[i]) < VI[s]
  {
    var m, k := |keys|, keys[i];
    OccurrencesSplit(keys, 0, i, m, s);
    OccurrencesSplit(keys, 0, i, i + 1, k);
    OccurrencesSplit(keys, 0, i + 1, m, k);
    SmallerNext(keys, m, s);
    SmallerNext(keys, m, k);
    if s < k {
      SmallerMonotone(keys, m, s + 1, k);
    } else if k < s {
      SmallerMonotone(keys, m, k + 1, s);
    }
  }

  lemma ScatterStep(EI: seq<nat>, VI: seq<nat>, keys: seq<nat>, vals: seq<nat>, n: nat, i: nat)
    requires Scattered(EI, VI, keys, vals, n, i) && i < |keys| && keys[i] < n
    ensures VI[keys[i]] + Occurrences(keys, 0, i, keys[i]) < |EI|
    ensures Scattered(EI[VI[keys[i]] + Occurrences(keys, 0, i, keys[i]) := vals[i]], VI, keys, vals, n, i + 1)
  {
    var k := keys[i];
    ScatterPlace(VI, keys, n, i, k);
    var EI' := EI[VI[k] + Occurrences(keys, 0, i, k) := vals[i]];
    forall s | 0 <= s < n ensures RowHolds(EI', VI[s], Targets(keys, vals, i + 1, s)) {
      assert RowHolds(EI, VI[s], Targets(keys, vals, i, s));
      ScatterPlace(VI, keys, n, i, s);
    }
  }

  /** Every position belongs to the row of some key. */
  lemma {:induction false} Locate(keys: seq<nat>, n: nat, j: nat) returns (s: nat)
    requires j < Smaller(keys, |keys|, n)
    ensures s < n && Smaller(keys, |keys|, s) <= j < Smaller(keys, |keys|, s) + Occurrences(keys, 0, |keys|, s)
  {
    SmallerNext(keys, |keys|, 0);
    SmallerNext(keys, |keys|, n - 1);
    if Smaller(keys, |keys|, n - 1) <= j {
      s := n - 1;
    } else {
      s := Locate(keys, n - 1, j);
    }
  }

  /** Row s of g is the input-order list of the values with key s. */
  ghost predicate ListsEdges(g: Csr, keys: seq<nat>, vals: seq<nat>) {
    && |keys| == |vals| == g.numEdges
    && forall s :: 0 <= s < g.numVertex ==> HasRow(g, s) && Row(g, s) == Targets(keys, vals, |keys|, s)
  }

  lemma {:induction false} TargetsAreValues(keys: seq<nat>, vals: seq<nat>, m: nat, s: nat, t: nat)
    requires m <= |keys| && m <= |vals| && t < |Targets(keys, vals, m, s)|
    ensures Targets(keys, vals, m, s)[t] in vals
  {
    if t < |Targets(keys, vals, m - 1, s)| {
      TargetsAreValues(keys, vals, m - 1, s, t);
    }
  }

  lemma SliceHolds(EI: seq<nat>, start: nat, end: nat, r: seq<nat>)
    requires RowHolds(EI, start, r) && end == start + |r|
    ensures end <= |EI| && EI[start..end] == r
  {
  }

  lemma RowEnds(g: Csr, keys: seq<nat>, s: nat)
    requires Starts(g.VI, keys, g.numVertex) && g.numEdges == |keys| && Below(keys, g.numVertex) && s < g.numVertex
    ensures RowEnd(g, s) == g.VI[s] + Occurrences(keys, 0, |keys|, s) <= |keys|
  {
    SmallerNext(keys, |keys|, s);
    SmallerAll(keys, |keys|, g.numVertex);
    hide Smaller, Occurrences;
    if s + 1 < g.numVertex {
      assert g.VI[s + 1] == Smaller(keys, |keys|, s + 1);
    }
  }

  lemma RowDone(g: Csr, keys: seq<nat>, vals: seq<nat>, s: nat)
    requires Scattered(g.EI, g.VI, keys, vals, g.numVertex, |keys|) && g.numEdges == |keys|
    requires Below(keys, g.numVertex) && s < g.numVertex
    ensures HasRow(g, s) && RowEnd(g, s) <= g.numEdges && Row(g, s) == Targets(keys, vals, |keys|, s)
  {
    RowEnds(g, keys, s);
    SliceHolds(g.EI, g.VI[s], RowEnd(g, s), Targets(keys, vals, |keys|, s));
  }

  lemma StartDone(g: Csr, keys: seq<nat>, vals: seq<nat>)
    requires Scattered(g.EI, g.VI, keys, vals, g.numVertex, |keys|) && g.numEdges == |keys| && Below(keys, g.numVertex)
    ensures Tiled(g) && |g.EI| == |keys| == |vals| && |g.VI| >= g.numVertex
  {
    SmallerNext(keys, |keys|, 0);
    if |keys| > 0 {
      assert keys[0] < g.numVertex;
    }
  }

  lemma EntryDone(g: Csr, keys: seq<nat>, vals: seq<nat>, j: nat)
    requires Scattered(g.EI, g.VI, keys, vals, g.numVertex, |keys|) && g.numEdges == |keys|
    requires Below(keys, g.numVertex) && j < |keys|
    ensures g.EI[j] in vals
  {
    SmallerAll(keys, |keys|, g.numVertex);
    var s := Locate(keys, g.numVertex, j);
    assert RowHolds(g.EI, g.VI[s], Targets(keys, vals, |keys|, s));
    TargetsAreValues(keys, vals, |keys|, s, j - g.VI[s]);
  }

  lemma ScatterDone(g: Csr, keys: seq<nat>, vals: seq<nat>, targets: nat)
    requires Scattered(g.EI, g.VI, keys, vals, g.numVertex, |keys|) && g.numEdges == |keys|
    requires Below(keys, g.numVertex) && Below(vals, targets)
    ensures WellFormed(g, targets) && ListsEdges(g, keys, vals) && Tiled(g)
  {
    StartDone(g, keys, vals);
    hide Scattered, Targets, Row;
    forall s | 0 <= s < g.numVertex
      ensures HasRow(g, s) && RowEnd(g, s) <= g.numEdges && Row(g, s) == Targets(keys, vals, |keys|, s)
    {
      RowDone(g, keys, vals, s);
    }
    forall j | 0 <= j < |keys| ensures g.EI[j] < targets {
      EntryDone(g, keys, vals, j);
    }
  }

  /** The number of edges from u to v. */
  lemma ListedTimes(g: Csr, keys: seq<nat>, vals: seq<nat>, u: nat, v: nat)
    requires ListsEdges(g, keys, vals) && u < g.numVertex
    ensures HasRow(g, u) && Times(g, u, v) == Pairs(keys, vals, 0, |keys|, u, v)
  {
    assert HasRow(g, u) && Row(g, u) == Targets(keys, vals, |keys|, u);
    OccurrencesSlice(g.EI, g.VI[u], RowEnd(g, u), v);
    TargetsCount(keys, vals, |keys|, u, v);
  }

  // ---------- From an edge list to rows ----------

  /** counts[v] becomes the number of edges with source v. */
  method CountSources(src: seq<nat>, n: nat) returns (counts: array<nat>)
    requires Below(src, n)
    ensures fresh(counts) && counts.Length == n
    ensures forall v :: 0 <= v < n ==> counts[v] == Occurrences(src, 0, |src|, v)
  {
    counts := new nat[n](_ => 0);
    for i := 0 to |src|
      invariant forall v :: 0 <= v < n ==> counts[v] == Occurrences(src, 0, i, v)
    {
      counts[src[i]] := counts[src[i]] + 1;
    }
  }

  /** Prefix sums of the counts, with one entry past the last row. */
  method RowStarts(src: seq<nat>, n: nat, counts: array<nat>) returns (VI: array<nat>)
    requires Below(src, n) && counts.Length == n
    requires forall v :: 0 <= v < n ==> counts[v] == Occurrences(src, 0, |src|, v)
    ensures fresh(VI) && VI.Length == n + 1 && Starts(VI[..], src, n + 1)
  {
    VI := new nat[n + 1](_ => 0);
    SmallerNext(src, |src|, 0);
    for i := 1 to n + 1
      invariant forall s :: 0 <= s < i ==> VI[s] == Smaller(src, |src|, s)
    {
      SmallerNext(src, |src|, i - 1);
      VI[i] := VI[i - 1] + counts[i - 1];
    }
  }

  /** Edge i goes into the next free place of row `key`. */
  method PutEdge(VI: array<nat>, EI: array<nat>, used: array<nat>, key: nat, val: nat,
                 ghost keys: seq<nat>, ghost vals: seq<nat>, ghost n: nat, ghost i: nat)
    requires EI != VI && EI != used && used != VI && used.Length == n
    requires Scattered(EI[..], VI[..], keys, vals, n, i) && i < |keys| && key == keys[i] < n && val == vals[i]
    requires forall v :: 0 <= v < n ==> used[v] == Occurrences(keys, 0, i, v)
    modifies EI, used
    ensures Scattered(EI[..], VI[..], keys, vals, n, i + 1)
    ensures forall v :: 0 <= v < n ==> used[v] == Occurrences(keys, 0, i + 1, v)
  {
    ScatterStep(EI[..], VI[..], keys, vals, n, i);
    EI[VI[key] + used[key]] := val;
    used[key] := used[key] + 1;
  }

  method CsrConvert(src: seq<nat>, dst: seq<nat>, n: nat) returns (g: Csr)
    requires |src| == |dst| && Below(src, n) && Below(dst, n)
    ensures g.numVertex == n && |g.VI| == n + 1 && WellFormed(g, n) && Tiled(g)
    ensures ListsEdges(g, src, dst)
  {
    var inDeg := CountSources(src, n);
    var VI := RowStarts(src, n, inDeg);
    var EI := new nat[|src|];
    ghost var starts := VI[..];
    for i := 0 to n
      invariant VI[..] == starts
      invariant forall v :: 0 <= v < i ==> inDeg[v] == 0
    {
      inDeg[i] := 0;
    }
    ScatterStart(EI[..], starts, src, dst, n);
    hide Scattered;
    for i := 0 to |src|
      invariant VI[..] == starts
      invariant forall v :: 0 <= v < n ==> inDeg[v] == Occurrences(src, 0, i, v)
      invariant Scattered(EI[..], starts, src, dst, n, i)
    {
      PutEdge(VI, EI, inDeg, src[i], dst[i], src, dst, n, i);
    }
    g := MakeCsr(n, VI, EI, src, dst);
  }

  /** The finished arrays as a graph. */
  method MakeCsr(n: nat, VI: array<nat>, EI: array<nat>, ghost keys: seq<nat>, ghost vals: seq<nat>) returns (g: Csr)
    requires Scattered(EI[..], VI[..], keys, vals, n, |keys|) && Below(keys, n)
    ensures g == Csr(n, |keys|, VI[..], EI[..])
    ensures ListsEdges(g, keys, vals) && Tiled(g)
    ensures forall targets: nat :: Below(vals, targets) ==> WellFormed(g, targets)
  {
    g := Csr(n, EI.Length, VI[..], EI[..]);
    forall targets: nat | Below(vals, targets) ensures WellFormed(g, targets) {
      ScatterDone(g, keys, vals, targets);
    }
    BelowSome(vals);
    ghost var some: nat :| Below(vals, some);
    ScatterDone(g, keys, vals, some);
  }

  lemma {:induction false} BelowSome(s: seq<nat>)
    ensures exists n: nat :: Below(s, n)
  {
    if s == [] {
      assert Below(s, 0);
    } else {
      BelowSome(s[1..]);
      var n: nat :| Below(s[1..], n);
      forall i | 0 <= i < |s| ensures s[i] < n + s[0] + 1 {
        if i > 0 {
          assert s[1..][i - 1] == s[i];
        }
      }
      assert Below(s, n + s[0] + 1);
    }
  }

  // ---------- Relabelling the vertices in use ----------

  /** The number of vertices in use below v. */
  function Rank(used: set<nat>, v: nat): (r: nat)
    ensures r <= v
  {
    if v == 0 then 0 else Rank(used, v - 1) + (if v - 1 in used then 1 else 0)
  }

  /** Among the vertices in use, Rank is strictly monotone ... */
  lemma {:induction false} RankMonotone(used: set<nat>, u: nat, v: nat)
    requires u < v && u in used
    ensures Rank(used, u) < Rank(used, v)
    decreases v
  {
    if u < v - 1 {
      RankMonotone(used, u, v - 1);
    }
  }

  /** ... and hits every number below the number of vertices in use. */
  lemma {:induction false} RankOnto(used: set<nat>, n: nat, r: nat) returns (v: nat)
    requires r < Rank(used, n)
    ensures v < n && v in used && Rank(used, v) == r
  {
    if r < Rank(used, n - 1) {
      v := RankOnto(used, n - 1, r);
    } else {
      v := n - 1;
    }
  }

  /** The ends of the edges. */
  function InUse(src: seq<nat>, dst: seq<nat>): set<nat> { Elements(src) + Elements(dst) }

  method MarkEnds(src: array<nat>, dst: array<nat>, numVertex: nat) returns (present: array<bool>)
    requires src.Length == dst.Length && Below(src[..], numVertex) && Below(dst[..], numVertex)
    ensures fresh(present) && present.Length == numVertex
    ensures forall v :: 0 <= v < numVertex ==> (present[v] <==> v in InUse(src[..], dst[..]))
  {
    present := new bool[numVertex](_ => false);
    for i := 0 to src.Length
      invariant forall v :: 0 <= v < numVertex ==> (present[v] <==> v in src[..i] || v in dst[..i])
    {
      present[src[i]] := true;
      present[dst[i]] := true;
      assert src[..i + 1] == src[..i] + [src[i]] && dst[..i + 1] == dst[..i] + [dst[i]];
    }
    assert src[..src.Length] == src[..] && dst[..src.Length] == dst[..];
  }

  /** Numbers the marked vertices in ascending order. */
  method NumberMarked(present: array<bool>, ghost used: set<nat>) returns (vertexMap: array<nat>, actualVertices: nat)
    requires forall v :: 0 <= v < present.Length ==> (present[v] <==> v in used)
    ensures fresh(vertexMap) && vertexMap.Length == present.Length && actualVertices == Rank(used, present.Length)
    ensures forall v :: 0 <= v < present.Length && v in used ==> vertexMap[v] == Rank(used, v)
  {
    vertexMap := new nat[present.Length](_ => 0);
    actualVertices := 0;
    for i := 0 to present.Length
      invariant actualVertices == Rank(used, i)
      invariant forall v :: 0 <= v < i && v in used ==> vertexMap[v] == Rank(used, v)
    {
      if present[i] {
        vertexMap[i] := actualVertices;
        actualVertices := actualVertices + 1;
      }
    }
  }

  lemma EndsInUse(src: seq<nat>, dst: seq<nat>, n: nat)
    requires |src| == |dst| && Below(src, n) && Below(dst, n)
    ensures forall i :: 0 <= i < |src| ==>
              src[i] in InUse(src, dst) && Rank(InUse(src, dst), src[i]) < Rank(InUse(src, dst), n)
    ensures forall i :: 0 <= i < |src| ==>
              dst[i] in InUse(src, dst) && Rank(InUse(src, dst), dst[i]) < Rank(InUse(src, dst), n)
  {
    forall i | 0 <= i < |src|
      ensures Rank(InUse(src, dst), src[i]) < Rank(InUse(src, dst), n)
      ensures Rank(InUse(src, dst), dst[i]) < Rank(InUse(src, dst), n)
    {
      RankMonotone(InUse(src, dst), src[i], n);
      RankMonotone(InUse(src, dst), dst[i], n);
    }
  }

  /** Every end of an edge gets its new name. */
  method RenameEnds(ends: array<nat>, vertexMap: array<nat>, ghost used: set<nat>)
    requires ends != vertexMap && Below(ends[..], vertexMap.Length)
    requires forall i :: 0 <= i < ends.Length ==> ends[i] in used
    requires forall v :: 0 <= v < vertexMap.Length && v in used ==> vertexMap[v] == Rank(used, v)
    modifies ends
    ensures forall i :: 0 <= i < ends.Length ==> ends[i] == Rank(used, old(ends[i]))
  {
    for i := 0 to ends.Length
      invariant forall j :: 0 <= j < i ==> ends[j] == Rank(used, old(ends[j]))
      invariant forall j :: i <= j < ends.Length ==> ends[j] == old(ends[j])
    {
      assert old(ends[..])[i] == ends[i];
      ends[i] := vertexMap[ends[i]];
    }
  }

  /** Renames the ends of all edges so that no number below the result is unused. */
  method Filter(src: array<nat>, dst: array<nat>, numVertex: nat) returns (actualVertices: nat)
    requires src.Length == dst.Length && src != dst && Below(src[..], numVertex) && Below(dst[..], numVertex)
    modifies src, dst
    ensures actualVertices == Rank(old(InUse(src[..], dst[..])), numVertex)
    ensures forall i :: 0 <= i < src.Length ==>
              src[i] == Rank(old(InUse(src[..], dst[..])), old(src[i])) < actualVertices
    ensures forall i :: 0 <= i < src.Length ==>
              dst[i] == Rank(old(InUse(src[..], dst[..])), old(dst[i])) < actualVertices
  {
    ghost var used := InUse(src[..], dst[..]);
    EndsInUse(src[..], dst[..], numVertex);
    assert forall i :: 0 <= i < src.Length ==> src[..][i] == src[i] && dst[..][i] == dst[i];
    var present := MarkEnds(src, dst, numVertex);
    var vertexMap;
    vertexMap, actualVertices := NumberMarked(present, used);
    RenameEnds(src, vertexMap, used);
    RenameEnds(dst, vertexMap, used);
  }

  lemma {:induction false} PairsRenamed(src: seq<nat>, dst: seq<nat>, src': seq<nat>, dst': seq<nat>,
                                        used: set<nat>, m: nat, u: nat, v: nat)
    requires m <= |src| && |src| == |dst| == |src'| == |dst'|
    requires InUse(src, dst) <= used && u in used && v in used
    requires forall i :: 0 <= i < |src| ==> src'[i] == Rank(used, src[i]) && dst'[i] == Rank(used, dst[i])
    ensures Pairs(src', dst', 0, m, Rank(used, u), Rank(used, v)) == Pairs(src, dst, 0, m, u, v)
  {
    if m > 0 {
      PairsRenamed(src, dst, src', dst', used, m - 1, u, v);
      assert src[m - 1] in used && dst[m - 1] in used;
      SameRank(used, u, src[m - 1]);
      SameRank(used, v, dst[m - 1]);
    }
  }

  lemma SameRank(used: set<nat>, u: nat, v: nat)
    requires u in used && v in used
    ensures Rank(used, u) == Rank(used, v) <==> u == v
  {
    if u < v {
      RankMonotone(used, u, v);
    } else if v < u {
      RankMonotone(used, v, u);
    }
  }

  /** Filtering and converting: the graph has exactly the edges of the list, under new names, and every row
      has its targets in the order of the list. */
  method ReadCsr(src: array<nat>, dst: array<nat>, numVertex: nat) returns (g: Csr)
    requires src.Length == dst.Length && src != dst && Below(src[..], numVertex) && Below(dst[..], numVertex)
    modifies src, dst
    ensures WellFormed(g, g.numVertex) && Tiled(g) && |g.VI| == g.numVertex + 1
    ensures g.numEdges == src.Length && g.numVertex == Rank(old(InUse(src[..], dst[..])), numVertex)
    ensures forall i :: 0 <= i < src.Length ==>
              && src[i] == Rank(old(InUse(src[..], dst[..])), old(src[i]))
              && dst[i] == Rank(old(InUse(src[..], dst[..])), old(dst[i]))
    ensures ListsEdges(g, src[..], dst[..])
    ensures
      var src0, dst0 := old(src[..]), old(dst[..]);
      var used := InUse(src0, dst0);
      forall u, v :: u in used && v in used ==>
        && HasRow(g, Rank(used, u))
        && Times(g, Rank(used, u), Rank(used, v)) == Pairs(src0, dst0, 0, |src0|, u, v)
  {
    ghost var src0, dst0 := src[..], dst[..];
    ghost var used := InUse(src0, dst0);
    var n := Filter(src, dst, numVertex);
    g := CsrConvert(src[..], dst[..], n);
    forall u, v | u in used && v in used
      ensures HasRow(g, Rank(used, u))
      ensures Times(g, Rank(used, u), Rank(used, v)) == Pairs(src0, dst0, 0, |src0|, u, v)
    {
      RankMonotone(used, u, numVertex);
      ListedTimes(g, src[..], dst[..], Rank(used, u), Rank(used, v));
      PairsRenamed(src0, dst0, src[..], dst[..], used, |src0|, u, v);
    }
  }
}
