/** Writing out the graph in the new order. */
module ApplyOrder {
  import opened Permutations
  import opened Csr
  import opened EdgeLists
  import opened Layout
  import opened Transpose

  /** The row r with every entry renamed. */
  function Renamed(r: seq<nat>, f: seq<nat>): (s: seq<nat>)
    requires Below(r, |f|)
    ensures |s| == |r| && forall i :: 0 <= i < |r| ==> s[i] == f[r[i]]
  {
    seq(|r|, i requires 0 <= i < |r| => f[r[i]])
  }

  lemma {:induction false} RenamedCount(r: seq<nat>, f: seq<nat>, m: nat, v: nat)
    requires Below(r, |f|) && Distinct(f) && v < |f| && m <= |r|
    ensures Occurrences(Renamed(r, f), 0, m, f[v]) == Occurrences(r, 0, m, v)
  {
    if m > 0 {
      RenamedCount(r, f, m - 1, v);
    }
  }

  ghost predicate Covered(g: Csr) {
    Whole(g, g.numVertex) && forall v :: 0 <= v < g.numVertex ==> HasRow(g, v)
  }

  /** The rows of the reordered graph. */
  ghost function Wanted(g: Csr, nodeId: seq<nat>, nodeMap: seq<nat>): (rows: seq<seq<nat>>)
    requires Covered(g) && Below(nodeId, g.numVertex) && |nodeMap| == g.numVertex
    ensures |rows| == |nodeId|
    ensures forall i :: 0 <= i < |nodeId| ==>
              && HasRow(g, nodeId[i]) && Below(Row(g, nodeId[i]), |nodeMap|)
              && rows[i] == Renamed(Row(g, nodeId[i]), nodeMap) && |rows[i]| == Degree(g, nodeId[i])
  {
    seq(|nodeId|, i requires 0 <= i < |nodeId| => Renamed(Row(g, nodeId[i]), nodeMap))
  }

  ghost function Degrees(g: Csr): (d: seq<int>)
    requires Covered(g)
    ensures |d| == g.numVertex && forall v :: 0 <= v < |d| ==> d[v] == Degree(g, v)
  {
    seq(g.numVertex, v requires 0 <= v < g.numVertex => Degree(g, v))
  }

  lemma {:induction false} DegreesAddUp(g: Csr, v: nat)
    requires Covered(g) && v <= g.numVertex
    ensures Sum(Degrees(g)[..v]) == RowStart(g, v)
  {
    if v > 0 {
      DegreesAddUp(g, v - 1);
      assert Degrees(g)[..v][..v - 1] == Degrees(g)[..v - 1];
      assert RowEnd(g, v - 1) == RowStart(g, v);
    }
  }

  /** In any order the rows take exactly numEdges places. */
  lemma LengthOfAll(g: Csr, nodeId: seq<nat>, nodeMap: seq<nat>)
    requires Covered(g) && IsPermutation(nodeId, g.numVertex) && |nodeMap| == g.numVertex
    ensures LengthTo(Wanted(g, nodeId, nodeMap), g.numVertex) == g.numEdges
  {
    var n, d, rows := g.numVertex, Degrees(g), Wanted(g, nodeId, nodeMap);
    LengthsAddUp(rows, Picked(d, nodeId), n);
    DegreesAddUp(g, n);
    assert d[..n] == d && Picked(d, nodeId)[..n] == Picked(d, nodeId);
    forall v: nat | v < n ensures v in nodeId {
      Onto(nodeId, n, v);
    }
    SumOfPicked(d, nodeId);
  }

  // ---------- The program ----------

  /** Copies the row of v to `start`, renaming its entries. */
  method CopyRow(g: Csr, v: nat, start: nat, EI: array<nat>, nodeMap: seq<nat>)
    requires HasRow(g, v) && start + Degree(g, v) <= EI.Length && Below(Row(g, v), |nodeMap|)
    modifies EI
    ensures RowHolds(EI[..], start, Renamed(Row(g, v), nodeMap))
    ensures forall j :: 0 <= j < EI.Length && !(start <= j < start + Degree(g, v)) ==> EI[j] == old(EI[j])
  {
    var parentStartId := g.VI[v];
    ghost var row := Row(g, v);
    var end := start + Degree(g, v);
    var tempId := 0;
    for j := start to end
      invariant tempId == j - start
      invariant forall k :: start <= k < j ==> EI[k] == Renamed(row, nodeMap)[k - start]
      invariant forall k :: 0 <= k < EI.Length && !(start <= k < j) ==> EI[k] == old(EI[k])
    {
      assert row[tempId] == g.EI[parentStartId + tempId];
      EI[j] := nodeMap[g.EI[parentStartId + tempId]];
      tempId := tempId + 1;
    }
  }

  /** Copies row i of the new graph behind the earlier ones. */
  method CopyNext(g: Csr, nodeId: seq<nat>, nodeMap: seq<nat>, i: nat, start: nat, EI: array<nat>,
                  ghost rows: seq<seq<nat>>)
    requires Covered(g) && Below(nodeId, g.numVertex) && |nodeMap| == g.numVertex && i < |nodeId|
    requires rows == Wanted(g, nodeId, nodeMap) && Copied(rows, EI[..], i)
    requires start == LengthTo(rows, i) && LengthTo(rows, |rows|) <= EI.Length
    modifies EI
    ensures Copied(rows, EI[..], i + 1) && LengthTo(rows, i + 1) == start + Degree(g, nodeId[i]) <= EI.Length
  {
    ghost var before := EI[..];
    LengthMonotone(rows, i + 1, |rows|);
    CopyRow(g, nodeId[i], start, EI, nodeMap);
    CopiedStep(rows, before, EI[..], i);
  }

  /** Row i of h is the row of nodeId[i], renamed. */
  ghost predicate RowsRenamed(g: Csr, h: Csr, nodeId: seq<nat>, nodeMap: seq<nat>) {
    && h.numVertex == g.numVertex == |nodeId| == |nodeMap|
    && forall i :: 0 <= i < h.numVertex ==>
         && HasRow(h, i) && HasRow(g, nodeId[i]) && Below(Row(g, nodeId[i]), |nodeMap|)
         && Row(h, i) == Renamed(Row(g, nodeId[i]), nodeMap)
  }

  method FillRows(g: Csr, nodeId: seq<nat>, nodeMap: seq<nat>, VI: array<nat>, EI: array<nat>,
                  ghost rows: seq<seq<nat>>)
    requires Covered(g) && Below(nodeId, g.numVertex) && 0 < |nodeId| == |nodeMap| == g.numVertex
    requires rows == Wanted(g, nodeId, nodeMap) && LengthTo(rows, |rows|) <= EI.Length
    requires VI.Length == g.numVertex && VI != EI
    modifies VI, EI
    ensures Copied(rows, EI[..], |rows|)
    ensures forall k {:trigger VI[k]} :: 0 <= k < g.numVertex ==> VI[k] == LengthTo(rows, k)
  {
    hide Copied, Row, Renamed, Tiled, Wanted;
    var n := g.numVertex;
    VI[0] := 0;
    assert Copied(rows, EI[..], 0) by {
      NoneCopied(rows, EI[..]);
    }
    for i := 1 to n
      invariant Copied(rows, EI[..], i - 1)
      invariant forall k {:trigger VI[k]} :: 0 <= k < i ==> VI[k] == LengthTo(rows, k)
    {
      var prevNodeId := nodeId[i - 1];
      assert HasRow(g, prevNodeId);
      VI[i] := VI[i - 1] + (RowEnd(g, prevNodeId) - g.VI[prevNodeId]);
      CopyNext(g, nodeId, nodeMap, i - 1, VI[i - 1], EI, rows);
    }
    CopyNext(g, nodeId, nodeMap, n - 1, VI[n - 1], EI, rows);
  }

  /** The graph in the new order: an isomorphic copy of g. The last row has no successor to tell
      where it ends; it fills EI exactly. */
  method Apply(g: Csr, nodeId: seq<nat>, nodeMap: seq<nat>) returns (h: Csr)
    requires Whole(g, g.numVertex) && g.numVertex > 0 && Inverse(nodeMap, nodeId, g.numVertex)
    ensures RowsRenamed(g, h, nodeId, nodeMap)
    ensures Relabelled(g, h, nodeMap) && Tiled(h)
  {
    OwnersOf(g, g.numVertex);
    InversePermutations(nodeMap, nodeId, g.numVertex);
    LengthOfAll(g, nodeId, nodeMap);
    var VI := new nat[g.numVertex];
    var EI := new nat[g.numEdges];
    FillRows(g, nodeId, nodeMap, VI, EI, Wanted(g, nodeId, nodeMap));
    h := Csr(g.numVertex, g.numEdges, VI[..], EI[..]);
    CopiedRows(g, h, nodeId, nodeMap);
    RenamedIsIsomorphic(g, h, nodeId, nodeMap);
  }

  lemma CopiedRows(g: Csr, h: Csr, nodeId: seq<nat>, nodeMap: seq<nat>)
    requires Covered(g) && Below(nodeId, g.numVertex) && |nodeMap| == |nodeId| == g.numVertex
    requires h.numVertex == g.numVertex == |h.VI| && h.numEdges == |h.EI|
    requires Copied(Wanted(g, nodeId, nodeMap), h.EI, g.numVertex)
    requires LengthTo(Wanted(g, nodeId, nodeMap), g.numVertex) == h.numEdges
    requires forall k {:trigger h.VI[k]} :: 0 <= k < g.numVertex ==> h.VI[k] == LengthTo(Wanted(g, nodeId, nodeMap), k)
    ensures RowsRenamed(g, h, nodeId, nodeMap) && (h.numVertex > 0 ==> Tiled(h))
  {
    var rows := Wanted(g, nodeId, nodeMap);
    forall i | 0 <= i < h.numVertex ensures HasRow(h, i) && Row(h, i) == rows[i] {
      CopiedRowAt(h, rows, i);
    }
  }

  lemma RenamedIsIsomorphic(g: Csr, h: Csr, nodeId: seq<nat>, nodeMap: seq<nat>)
    requires Covered(g) && RowsRenamed(g, h, nodeId, nodeMap) && Inverse(nodeMap, nodeId, g.numVertex)
    requires Tiled(h) && |h.EI| == h.numEdges == g.numEdges && |h.VI| == h.numVertex
    ensures Relabelled(g, h, nodeMap)
  {
    InversePermutations(nodeMap, nodeId, g.numVertex);
    forall u, v | 0 <= u < g.numVertex && 0 <= v < g.numVertex
      ensures Times(h, nodeMap[u], nodeMap[v]) == Times(g, u, v)
    {
      RenamedTimes(g, h, nodeId, nodeMap, u, v);
    }
    forall v | 0 <= v < g.numVertex ensures h.VI[v] <= RowEnd(h, v) <= h.numEdges {
      assert HasRow(h, v);
    }
    forall j | 0 <= j < h.numEdges ensures h.EI[j] < g.numVertex {
      var i := RowOf(h, h.numVertex, j);
      assert h.EI[j] == Row(h, i)[j - h.VI[i]];
    }
  }

  lemma RenamedTimes(g: Csr, h: Csr, nodeId: seq<nat>, nodeMap: seq<nat>, u: nat, v: nat)
    requires Covered(g) && RowsRenamed(g, h, nodeId, nodeMap) && Inverse(nodeMap, nodeId, g.numVertex)
    requires u < g.numVertex && v < g.numVertex && Distinct(nodeMap)
    ensures HasRow(h, nodeMap[u]) && HasRow(g, u) && Times(h, nodeMap[u], nodeMap[v]) == Times(g, u, v)
  {
    hide Occurrences, Covered, Renamed;
    var i := nodeMap[u];
    assert nodeId[i] == u;
    assert HasRow(h, i) && Row(h, i) == Renamed(Row(g, nodeId[i]), nodeMap);
    OccurrencesSlice(h.EI, h.VI[i], RowEnd(h, i), nodeMap[v]);
    OccurrencesSlice(g.EI, g.VI[u], RowEnd(g, u), v);
    RenamedCount(Row(g, u), nodeMap, |Row(g, u)|, v);
  }
}
