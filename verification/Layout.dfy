/** Rows written one after the other into one array. */
module Layout {
  import opened Permutations
  import opened Csr
  import opened EdgeLists

  /** The total length of the first k rows. */
  ghost function LengthTo(rows: seq<seq<nat>>, k: nat): nat
    requires k <= |rows|
  {
    if k == 0 then 0 else LengthTo(rows, k - 1) + |rows[k - 1]|
  }

  lemma {:induction false} LengthMonotone(rows: seq<seq<nat>>, j: nat, k: nat)
    requires j <= k <= |rows|
    ensures LengthTo(rows, j) <= LengthTo(rows, k)
  {
    if j < k {
      LengthMonotone(rows, j, k - 1);
    }
  }

  /** Row i ends before the end of all rows. */
  lemma LengthNext(rows: seq<seq<nat>>, i: nat)
    requires i < |rows|
    ensures LengthTo(rows, i + 1) == LengthTo(rows, i) + |rows[i]| <= LengthTo(rows, |rows|)
  {
    LengthMonotone(rows, i + 1, |rows|);
  }

  /** The first k rows are in place. */
  ghost predicate Copied(rows: seq<seq<nat>>, EI: seq<nat>, k: nat)
    requires k <= |rows|
  {
    forall i {:trigger RowHolds(EI, LengthTo(rows, i), rows[i])} :: 0 <= i < k ==>
      RowHolds(EI, LengthTo(rows, i), rows[i])
  }

  /** One more row: the earlier ones lie before it. */
  lemma CopiedStep(rows: seq<seq<nat>>, before: seq<nat>, EI: seq<nat>, k: nat)
    requires k < |rows| && Copied(rows, before, k) && |before| == |EI|
    requires RowHolds(EI, LengthTo(rows, k), rows[k])
    requires forall j :: 0 <= j < |EI| && j < LengthTo(rows, k) ==> EI[j] == before[j]
    ensures Copied(rows, EI, k + 1)
  {
    forall i {:trigger RowHolds(EI, LengthTo(rows, i), rows[i])} | 0 <= i < k
      ensures RowHolds(EI, LengthTo(rows, i), rows[i])
    {
      assert RowHolds(before, LengthTo(rows, i), rows[i]);
      LengthMonotone(rows, i + 1, k);
      StillHolds(before, EI, LengthTo(rows, i), rows[i], LengthTo(rows, k));
    }
    hide RowHolds;
  }

  lemma StillHolds(before: seq<nat>, EI: seq<nat>, start: nat, r: seq<nat>, end: nat)
    requires RowHolds(before, start, r) && start + |r| <= end && |before| == |EI|
    requires forall j :: 0 <= j < |EI| && j < end ==> EI[j] == before[j]
    ensures RowHolds(EI, start, r)
  {
  }

  /** Appending a row moves none of the earlier ones. */
  lemma {:induction false} LengthPrefix(rows: seq<seq<nat>>, r: seq<nat>, k: nat)
    requires k <= |rows|
    ensures LengthTo(rows + [r], k) == LengthTo(rows, k)
  {
    if k > 0 {
      LengthPrefix(rows, r, k - 1);
    }
  }

  lemma CopiedAppend(rows: seq<seq<nat>>, r: seq<nat>, before: seq<nat>, EI: seq<nat>)
    requires Copied(rows, before, |rows|) && |before| == |EI|
    requires RowHolds(EI, LengthTo(rows, |rows|), r)
    requires forall j :: 0 <= j < |EI| && j < LengthTo(rows, |rows|) ==> EI[j] == before[j]
    ensures Copied(rows + [r], EI, |rows| + 1)
    ensures LengthTo(rows + [r], |rows| + 1) == LengthTo(rows, |rows|) + |r|
  {
    forall i | 0 <= i < |rows| ensures RowHolds(before, LengthTo(rows + [r], i), (rows + [r])[i]) {
      LengthPrefix(rows, r, i);
      assert RowHolds(before, LengthTo(rows, i), rows[i]);
    }
    LengthPrefix(rows, r, |rows|);
    CopiedStep(rows + [r], before, EI, |rows|);
  }

  lemma NoneCopied(rows: seq<seq<nat>>, EI: seq<nat>)
    ensures Copied(rows, EI, 0)
  {
  }

  lemma {:induction false} LengthsAddUp(rows: seq<seq<nat>>, lengths: seq<int>, k: nat)
    requires k <= |rows| == |lengths| && forall i :: 0 <= i < |rows| ==> lengths[i] == |rows[i]|
    ensures LengthTo(rows, k) == Sum(lengths[..k])
  {
    if k > 0 {
      LengthsAddUp(rows, lengths, k - 1);
      assert lengths[..k][..k - 1] == lengths[..k - 1];
    }
  }

  lemma CopiedRowAt(h: Csr, rows: seq<seq<nat>>, i: nat)
    requires h.numVertex == |rows| == |h.VI| && h.numEdges == |h.EI| && i < |rows|
    requires Copied(rows, h.EI, |rows|) && LengthTo(rows, |rows|) == h.numEdges
    requires forall k {:trigger h.VI[k]} :: 0 <= k < |rows| ==> h.VI[k] == LengthTo(rows, k)
    ensures HasRow(h, i) && Row(h, i) == rows[i]
  {
    assert RowHolds(h.EI, LengthTo(rows, i), rows[i]);
    hide Copied, RowHolds;
    if i + 1 < |rows| {
      assert h.VI[i + 1] == LengthTo(rows, i + 1);
    }
    assert RowEnd(h, i) == LengthTo(rows, i + 1);
    assert h.VI[i] == LengthTo(rows, i);
    SliceHolds(h.EI, h.VI[i], RowEnd(h, i), rows[i]);
  }
}
