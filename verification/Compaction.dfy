/** Merging the rows of each block of vertices into one row without repetitions. */
module Compaction {
  import opened Csr
  import opened EdgeLists
  import opened Expansion
  import opened KeyedSort
  import opened Layout
  import opened Transpose

  /** Where the entries of block b start; past the last block, the number of edges. */
  function BlockStart(g: Csr, size: nat, b: nat): nat
    requires 0 < g.numVertex <= |g.VI| && size > 0 && b <= NumBlocks(g.numVertex, size)
  {
    if b == NumBlocks(g.numVertex, size) then g.numEdges
    else
      BlockInside(g.numVertex, size, b);
      g.VI[Base(size, b)]
  }

  /** The rows of a block lie between its start and the start of the next block. */
  lemma BlockRange(g: Csr, targets: nat, size: nat, b: nat, v: nat)
    requires Whole(g, targets) && g.numVertex > 0 && size > 0 && b < NumBlocks(g.numVertex, size) && v < g.numVertex
    ensures HasRow(g, v) && BlockStart(g, size, b) <= BlockStart(g, size, b + 1) <= g.numEdges
    ensures BlockOf(size, v) == b ==> BlockStart(g, size, b) <= g.VI[v] && RowEnd(g, v) <= BlockStart(g, size, b + 1)
    ensures BlockOf(size, v) < b ==> RowEnd(g, v) <= BlockStart(g, size, b)
    ensures b < BlockOf(size, v) ==> BlockStart(g, size, b + 1) <= g.VI[v]
  {
    var n := g.numVertex;
    hide Base, BlockOf;
    BlockInside(n, size, b);
    BaseMonotone(size, b, b + 1);
    InBlock(n, size, v);
    RowsOrdered(g, targets, Base(size, b), v);
    if b + 1 < NumBlocks(n, size) {
      BlockInside(n, size, b + 1);
      RowsOrdered(g, targets, Base(size, b + 1), v);
      RowsOrdered(g, targets, Base(size, b + 1), Base(size, b));
    }
    assert g.VI[Base(size, b)] <= RowEnd(g, Base(size, b));
    if BlockOf(size, v) < b {
      BaseMonotone(size, BlockOf(size, v), b);
    } else if b < BlockOf(size, v) {
      BaseMonotone(size, b, BlockOf(size, v));
    }
  }

  lemma RowsOrdered(g: Csr, targets: nat, u: nat, v: nat)
    requires WellFormed(g, targets) && u < g.numVertex && v < g.numVertex
    ensures HasRow(g, u) && HasRow(g, v)
    ensures u < v ==> RowEnd(g, u) <= g.VI[v]
    ensures v < u ==> RowEnd(g, v) <= g.VI[u]
  {
    assert HasRow(g, u) && HasRow(g, v);
    if u < v {
      RowsInOrder(g, targets, u, v);
    } else if v < u {
      RowsInOrder(g, targets, v, u);
    }
  }

  /** The values in s[lo..hi]. */
  function Values(s: seq<nat>, lo: nat, hi: nat): set<nat>
    requires lo <= hi <= |s|
  {
    set j | lo <= j < hi :: s[j]
  }

  /** The targets of the vertices of a block are the values between its start and the next one's. */
  lemma BlockTargets(g: Csr, targets: nat, size: nat, b: nat, t: nat)
    requires Whole(g, targets) && g.numVertex > 0 && size > 0 && b < NumBlocks(g.numVertex, size)
    ensures BlockStart(g, size, b) <= BlockStart(g, size, b + 1) <= |g.EI|
    ensures t in Values(g.EI, BlockStart(g, size, b), BlockStart(g, size, b + 1)) <==>
            exists v: nat :: v < g.numVertex && HasRow(g, v) && BlockOf(size, v) == b && Times(g, v, t) > 0
  {
    BlockRange(g, targets, size, b, 0);
    var lo, hi := BlockStart(g, size, b), BlockStart(g, size, b + 1);
    hide BlockOf, BlockStart;
    if t in Values(g.EI, lo, hi) {
      var j :| lo <= j < hi && g.EI[j] == t;
      var v := RowOf(g, g.numVertex, j);
      BlockRange(g, targets, size, b, v);
      OccursIff(g.EI, g.VI[v], RowEnd(g, v), t);
    }
    if v: nat :| v < g.numVertex && HasRow(g, v) && BlockOf(size, v) == b && Times(g, v, t) > 0 {
      BlockRange(g, targets, size, b, v);
      OccursIff(g.EI, g.VI[v], RowEnd(g, v), t);
      var j :| g.VI[v] <= j < RowEnd(g, v) && g.EI[j] == t;
      assert lo <= j < hi;
    }
  }

  // ---------- Dropping repetitions ----------

  ghost predicate Down(s: seq<nat>) { forall i, j :: 0 <= i < j < |s| ==> s[i] >= s[j] }

  ghost predicate StrictlyDown(s: seq<nat>) { forall i, j :: 0 <= i < j < |s| ==> s[i] > s[j] }

  /** The first of every run of equal entries. */
  function Deduped(s: seq<nat>): (r: seq<nat>)
    ensures |r| <= |s|
  {
    if s == [] then []
    else if |s| > 1 && s[|s| - 1] == s[|s| - 2] then Deduped(s[..|s| - 1])
    else Deduped(s[..|s| - 1]) + [s[|s| - 1]]
  }

  /** From a descending list this makes a strictly descending one with the same members. */
  lemma {:induction false} DedupedMembers(s: seq<nat>)
    requires Down(s)
    ensures StrictlyDown(Deduped(s)) && forall t :: t in Deduped(s) <==> t in s
    ensures s != [] ==> Deduped(s) != [] && Deduped(s)[|Deduped(s)| - 1] == s[|s| - 1]
  {
    if s != [] {
      var front, last := s[..|s| - 1], s[|s| - 1];
      DedupedMembers(front);
      assert s == front + [last];
      if |s| == 1 || last != s[|s| - 2] {
        var r := Deduped(front);
        hide Deduped, Down;
        forall t | t in r ensures t > last {
          assert t in front;
          AboveLast(s, t);
        }
        AppendLower(r, last);
      }
    }
  }

  lemma AboveLast(s: seq<nat>, t: nat)
    requires Down(s) && |s| > 0 && (|s| == 1 || s[|s| - 1] != s[|s| - 2]) && t in s[..|s| - 1]
    ensures t > s[|s| - 1]
  {
  }

  lemma AppendLower(r: seq<nat>, last: nat)
    requires StrictlyDown(r) && forall t :: t in r ==> t > last
    ensures StrictlyDown(r + [last]) && forall t :: t in r + [last] <==> t in r || t == last
  {
    forall i, j | 0 <= i < j <= |r| ensures (r + [last])[i] > (r + [last])[j] {
      assert r[i] in r;
    }
  }

  /** Sorts EI[start..end] in place, descending; the program passes the last index, so `end` must
      not be 0. The sort moves scratch keys along. */
  method SortRange(EI: array<nat>, start: nat, end: nat)
    requires start <= end <= EI.Length && end > 0
    modifies EI
    ensures Down(EI[start..end]) && Values(EI[..], start, end) == old(Values(EI[..], start, end))
    ensures forall t :: 0 <= t < EI.Length && !(start <= t < end) ==> EI[t] == old(EI[t])
  {
    var key := new nat[EI.Length](_ => 0);
    ghost var before, beforeKey := EI[..], key[..];
    MergeSort(EI, key, start, end - 1);
    if start < end {
      SortedRange(before, beforeKey, EI[..], key[..], start, end);
      assert EI[start..end] == EI[..][start..end];
    } else {
      assert EI[..] == before;
    }
  }

  lemma SortedRange(before: seq<nat>, beforeKey: seq<nat>, after: seq<nat>, afterKey: seq<nat>, lo: nat, hi: nat)
    requires |before| == |beforeKey| == |after| == |afterKey| && lo < hi <= |before|
    requires StableSort(Entries(before, beforeKey, lo, hi), Entries(after, afterKey, lo, hi))
    ensures Down(after[lo..hi]) && Values(after, lo, hi) == Values(before, lo, hi)
  {
    var s, t := Entries(before, beforeKey, lo, hi), Entries(after, afterKey, lo, hi);
    forall i, j | 0 <= i < j < hi - lo ensures after[lo..hi][i] >= after[lo..hi][j] {
      assert t[i].value >= t[j].value;
    }
    forall x ensures x in Values(after, lo, hi) <==> x in Values(before, lo, hi) {
      if j :| lo <= j < hi && after[j] == x {
        SortKeepsEntries(s, t, t[j - lo]);
        var i :| 0 <= i < |s| && s[i] == t[j - lo];
        assert before[lo + i] == x;
      }
      if j :| lo <= j < hi && before[j] == x {
        SortKeepsEntries(s, t, s[j - lo]);
        var i :| 0 <= i < |t| && t[i] == s[j - lo];
        assert after[lo + i] == x;
      }
    }
  }

  // ---------- The program ----------

  /** Appends one entry to the row under construction. */
  method Push(compVI: array<nat>, compEI: array<nat>, i: nat, numEdges: nat, val: nat) returns (numEdges': nat)
    requires compVI != compEI && numEdges < compEI.Length
    modifies compVI, compEI
    ensures numEdges' == numEdges + 1 && compEI[..] == old(compEI[..])[numEdges := val]
    ensures compVI[..] == if i + 1 < compVI.Length then old(compVI[..])[i + 1 := old(compVI[i + 1]) + 1]
                          else old(compVI[..])
  {
    compEI[numEdges] := val;
    if i + 1 < compVI.Length {
      compVI[i + 1] := compVI[i + 1] + 1;
    }
    numEdges' := numEdges + 1;
  }

  /** The row of block i: the sorted entries without repetitions. */
  method CompactBlock(s: seq<nat>, compVI: array<nat>, compEI: array<nat>, i: nat, from: nat) returns (numEdges: nat)
    requires compVI != compEI && from + |s| <= compEI.Length && i < compVI.Length && compVI[i] == from
    modifies compVI, compEI
    ensures numEdges == from + |Deduped(s)| && RowHolds(compEI[..], from, Deduped(s))
    ensures forall j :: 0 <= j < from ==> compEI[j] == old(compEI[j])
    ensures forall k :: 0 <= k < compVI.Length ==> compVI[k] == if k == i + 1 then numEdges else old(compVI[k])
  {
    numEdges := from;
    if i + 1 < compVI.Length {
      compVI[i + 1] := compVI[i];
    }
    if |s| > 0 {
      numEdges := Push(compVI, compEI, i, numEdges, s[0]);
      assert Deduped(s[..1]) == [s[0]] by {
        assert s[..1][..0] == [];
      }
    }
    var j := 1;
    while j < |s|
      invariant 1 <= j && (|s| > 0 ==> j <= |s|)
      invariant |s| > 0 ==> numEdges == from + |Deduped(s[..j])| && RowHolds(compEI[..], from, Deduped(s[..j]))
      invariant |s| == 0 ==> numEdges == from
      invariant forall j :: 0 <= j < from ==> compEI[j] == old(compEI[j])
      invariant forall k :: 0 <= k < compVI.Length ==> compVI[k] == if k == i + 1 then numEdges else old(compVI[k])
    {
      DedupStep(s, j);
      if s[j] != s[j - 1] {
        numEdges := Push(compVI, compEI, i, numEdges, s[j]);
      }
      j := j + 1;
    }
    assert |s| > 0 ==> s[..j] == s;
  }

  lemma DedupStep(s: seq<nat>, j: nat)
    requires 1 <= j < |s|
    ensures Deduped(s[..j + 1]) == Deduped(s[..j]) + (if s[j] != s[j - 1] then [s[j]] else [])
    ensures |Deduped(s[..j + 1])| <= |s|
  {
    assert s[..j + 1][..j] == s[..j];
  }

  /** Row b of the result lists, strictly descending, exactly the targets of the vertices of block b. */
  ghost predicate Compacts(compG: Csr, g: Csr, size: nat)
    requires g.numVertex > 0 && size > 0
  {
    && compG.numVertex == NumBlocks(g.numVertex, size)
    && forall b :: 0 <= b < compG.numVertex ==>
         && HasRow(compG, b) && StrictlyDown(Row(compG, b))
         && forall t :: t in Row(compG, b) <==>
              exists v: nat :: v < g.numVertex && HasRow(g, v) && BlockOf(size, v) == b && Times(g, v, t) > 0
  }

  /** What the row of block b should be. */
  ghost predicate RowIs(g: Csr, size: nat, b: nat, row: seq<nat>)
    requires 0 < g.numVertex <= |g.VI| && size > 0
  {
    && b < NumBlocks(g.numVertex, size) && BlockStart(g, size, b) <= BlockStart(g, size, b + 1) <= |g.EI|
    && StrictlyDown(row)
    && forall t :: t in row <==> t in Values(g.EI, BlockStart(g, size, b), BlockStart(g, size, b + 1))
  }

  /** The rows of the blocks so far are written, and the entries of the later blocks are untouched. */
  ghost predicate Progress(g: Csr, size: nat, EI: seq<nat>, compVI: seq<nat>, compEI: seq<nat>,
                           rows: seq<seq<nat>>, numEdges: nat)
    requires 0 < g.numVertex <= |g.VI| && size > 0
  {
    && |rows| <= NumBlocks(g.numVertex, size) == |compVI| && |EI| == |g.EI| == |compEI|
    && numEdges == LengthTo(rows, |rows|) <= BlockStart(g, size, |rows|) <= |EI|
    && Copied(rows, compEI, |rows|)
    && (forall k {:trigger compVI[k]} :: 0 <= k <= |rows| && k < |compVI| ==> compVI[k] == LengthTo(rows, k))
    && (forall j :: BlockStart(g, size, |rows|) <= j < |EI| ==> EI[j] == g.EI[j])
    && forall b :: 0 <= b < |rows| ==> RowIs(g, size, b, rows[b])
  }

  lemma ProgressStep(g: Csr, size: nat, EI: seq<nat>, compVI: seq<nat>, compEI: seq<nat>, rows: seq<seq<nat>>,
                     numEdges: nat, r: seq<nat>, EI': seq<nat>, compVI': seq<nat>, compEI': seq<nat>)
    requires 0 < g.numVertex <= |g.VI| && size > 0
    requires Progress(g, size, EI, compVI, compEI, rows, numEdges) && |rows| < NumBlocks(g.numVertex, size)
    requires RowIs(g, size, |rows|, r)
    requires |r| <= BlockStart(g, size, |rows| + 1) - BlockStart(g, size, |rows|)
    requires |EI'| == |EI| && |compVI'| == |compVI| && |compEI'| == |compEI|
    requires forall j :: BlockStart(g, size, |rows| + 1) <= j < |EI| ==> EI'[j] == EI[j]
    requires RowHolds(compEI', numEdges, r) && forall j :: 0 <= j < numEdges ==> compEI'[j] == compEI[j]
    requires forall k :: 0 <= k < |compVI| ==> compVI'[k] == if k == |rows| + 1 then numEdges + |r| else compVI[k]
    ensures Progress(g, size, EI', compVI', compEI', rows + [r], numEdges + |r|)
  {
    CopiedAppend(rows, r, compEI, compEI');
    hide RowIs, Base, BlockOf;
    forall k | 0 <= k <= |rows| + 1 && k < |compVI| ensures compVI'[k] == LengthTo(rows + [r], k) {
      if k <= |rows| {
        LengthPrefix(rows, r, k);
      }
    }
  }

  lemma RowIsDeduped(g: Csr, size: nat, b: nat, s: seq<nat>)
    requires 0 < g.numVertex <= |g.VI| && size > 0 && b < NumBlocks(g.numVertex, size)
    requires BlockStart(g, size, b) <= BlockStart(g, size, b + 1) <= |g.EI|
    requires Down(s) && Values(s, 0, |s|) == Values(g.EI, BlockStart(g, size, b), BlockStart(g, size, b + 1))
    ensures RowIs(g, size, b, Deduped(s))
  {
    DedupedMembers(s);
    forall t ensures t in s <==> t in Values(s, 0, |s|) {
    }
  }

  lemma ValuesOfSlice(s: seq<nat>, lo: nat, hi: nat)
    requires lo <= hi <= |s|
    ensures Values(s[lo..hi], 0, hi - lo) == Values(s, lo, hi)
  {
    forall t ensures t in Values(s[lo..hi], 0, hi - lo) <==> t in Values(s, lo, hi) {
      if j :| lo <= j < hi && s[j] == t {
        assert s[lo..hi][j - lo] == t;
      }
    }
  }

  lemma ValuesSame(a: seq<nat>, b: seq<nat>, lo: nat, hi: nat)
    requires lo <= hi <= |a| && hi <= |b| && forall j :: lo <= j < hi ==> a[j] == b[j]
    ensures Values(a, lo, hi) == Values(b, lo, hi)
  {
  }

  /** One block: sort its entries in place, then copy them without repetitions. */
  method CompactNext(g: Csr, size: nat, EI: array<nat>, compVI: array<nat>, compEI: array<nat>, i: nat, from: nat,
                     ghost rows: seq<seq<nat>>)
    returns (numEdges: nat, ghost row: seq<nat>)
    requires Whole(g, g.numVertex) && g.numVertex > 0 && size > 0 && BlockStart(g, size, 1) > 0
    requires EI != compVI && EI != compEI && compVI != compEI
    requires i == |rows| < NumBlocks(g.numVertex, size)
    requires Progress(g, size, EI[..], compVI[..], compEI[..], rows, from)
    modifies EI, compVI, compEI
    ensures Progress(g, size, EI[..], compVI[..], compEI[..], rows + [row], numEdges)
  {
    ghost var EI0, compVI0, compEI0 := EI[..], compVI[..], compEI[..];
    BlockRange(g, g.numVertex, size, i, 0);
    StartsPositive(g, size, i);
    var start, end := BlockStart(g, size, i), BlockStart(g, size, i + 1);
    ValuesSame(EI0, g.EI, start, end);
    SortRange(EI, start, end);
    var s := EI[start..end];
    ValuesOfSlice(EI[..], start, end);
    assert s == EI[..][start..end];
    RowIsDeduped(g, size, i, s);
    row := Deduped(s);
    numEdges := CompactBlock(s, compVI, compEI, i, from);
    hide Progress;
    ProgressStep(g, size, EI0, compVI0, compEI0, rows, from, row, EI[..], compVI[..], compEI[..]);
  }

  lemma {:induction false} StartsPositive(g: Csr, size: nat, i: nat)
    requires Whole(g, g.numVertex) && g.numVertex > 0 && size > 0 && i < NumBlocks(g.numVertex, size)
    requires BlockStart(g, size, 1) > 0
    ensures BlockStart(g, size, i + 1) > 0
  {
    if i > 0 {
      StartsPositive(g, size, i - 1);
      BlockRange(g, g.numVertex, size, i, 0);
    }
  }

  /** The graph of the blocks. The first block must have an entry: the program computes the last
      index of its range as an unsigned number minus one. */
  method Compact(g: Csr, EI: array<nat>, size: nat) returns (compG: Csr)
    requires Whole(g, g.numVertex) && g.numVertex > 0 && size > 0 && EI[..] == g.EI
    requires BlockStart(g, size, 1) > 0
    modifies EI
    ensures Whole(compG, g.numVertex) && Compacts(compG, g, size)
  {
    var n := NumBlocks(g.numVertex, size);
    var compVI := new nat[n](_ => 0);
    var compEI := new nat[g.numEdges](_ => 0);
    var numEdges: nat := 0;
    ghost var rows: seq<seq<nat>> := [];
    ProgressStart(g, size, EI[..], compVI[..], compEI[..]);
    hide Progress, Whole, BlockStart, BlockOf;
    for i := 0 to n
      invariant |rows| == i && Progress(g, size, EI[..], compVI[..], compEI[..], rows, numEdges)
    {
      ghost var row;
      numEdges, row := CompactNext(g, size, EI, compVI, compEI, i, numEdges, rows);
      rows := rows + [row];
    }
    ProgressEnd(g, size, EI[..], compVI[..], compEI[..], rows, numEdges);
    compG := Csr(n, numEdges, compVI[..], compEI[..numEdges]);
    assert compEI[..numEdges] == compEI[..][..numEdges];
  }

  lemma ProgressStart(g: Csr, size: nat, EI: seq<nat>, compVI: seq<nat>, compEI: seq<nat>)
    requires 0 < g.numVertex <= |g.VI| && size > 0 && EI == g.EI && |compVI| == NumBlocks(g.numVertex, size)
    requires |compEI| == |EI| && compVI[0] == 0 && Whole(g, g.numVertex)
    ensures Progress(g, size, EI, compVI, compEI, [], 0)
  {
    BlockRange(g, g.numVertex, size, 0, 0);
  }

  lemma ProgressEnd(g: Csr, size: nat, EI: seq<nat>, compVI: seq<nat>, compEI: seq<nat>, rows: seq<seq<nat>>, m: nat)
    requires Whole(g, g.numVertex) && 0 < g.numVertex && size > 0 && |rows| == NumBlocks(g.numVertex, size)
    requires Progress(g, size, EI, compVI, compEI, rows, m)
    ensures m <= |compEI|
    ensures
      var compG := Csr(|rows|, m, compVI, compEI[..m]);
      Whole(compG, g.numVertex) && Compacts(compG, g, size)
  {
    var compG := Csr(|rows|, m, compVI, compEI[..m]);
    CopiedCut(rows, compEI, m);
    forall b | 0 <= b < |rows| ensures HasRow(compG, b) && Row(compG, b) == rows[b] && RowIs(g, size, b, rows[b]) {
      CopiedRowAt(compG, rows, b);
    }
    forall b, t | 0 <= b < |rows|
      ensures t in Row(compG, b) <==>
              exists v: nat :: v < g.numVertex && HasRow(g, v) && BlockOf(size, v) == b && Times(g, v, t) > 0
    {
      BlockTargets(g, g.numVertex, size, b, t);
    }
    RowsMakeWhole(compG, g, size);
  }

  lemma CopiedCut(rows: seq<seq<nat>>, EI: seq<nat>, m: nat)
    requires Copied(rows, EI, |rows|) && LengthTo(rows, |rows|) == m <= |EI|
    ensures Copied(rows, EI[..m], |rows|)
  {
    hide LengthTo;
    forall i {:trigger RowHolds(EI[..m], LengthTo(rows, i), rows[i])} | 0 <= i < |rows|
      ensures RowHolds(EI[..m], LengthTo(rows, i), rows[i])
    {
      assert RowHolds(EI, LengthTo(rows, i), rows[i]);
      LengthNext(rows, i);
      HoldsInPrefix(EI, LengthTo(rows, i), rows[i], m);
    }
    hide RowHolds;
  }

  lemma HoldsInPrefix(EI: seq<nat>, start: nat, r: seq<nat>, m: nat)
    requires RowHolds(EI, start, r) && start + |r| <= m <= |EI|
    ensures RowHolds(EI[..m], start, r)
  {
  }

  lemma RowsMakeWhole(compG: Csr, g: Csr, size: nat)
    requires 0 < g.numVertex && Whole(g, g.numVertex) && size > 0 && compG.numVertex == |compG.VI| > 0
    requires compG.VI[0] == 0 && |compG.EI| == compG.numEdges
    requires forall b :: 0 <= b < compG.numVertex ==> HasRow(compG, b)
    requires forall b, t :: 0 <= b < compG.numVertex && t in Row(compG, b) ==>
               exists v: nat :: v < g.numVertex && HasRow(g, v) && BlockOf(size, v) == b && Times(g, v, t) > 0
    ensures Whole(compG, g.numVertex)
  {
    forall b | 0 <= b < compG.numVertex ensures compG.VI[b] <= RowEnd(compG, b) <= compG.numEdges {
      assert HasRow(compG, b);
    }
    forall j | 0 <= j < compG.numEdges ensures compG.EI[j] < g.numVertex {
      var b := RowOf(compG, compG.numVertex, j);
      var t := compG.EI[j];
      assert t == Row(compG, b)[j - compG.VI[b]];
      assert t in Row(compG, b);
      var v: nat :| v < g.numVertex && HasRow(g, v) && BlockOf(size, v) == b && Times(g, v, t) > 0;
      OccursIff(g.EI, g.VI[v], RowEnd(g, v), t);
    }
  }
}
