/** Reversing all edges of a graph in one counting pass. */
module Transpose {
  import opened Permutations
  import opened Csr
  import opened EdgeLists

  /** Where row v starts; past the last row, the number of edges. */
  function RowStart(g: Csr, v: nat): nat
    requires v <= g.numVertex <= |g.VI|
  {
    if v == g.numVertex then g.numEdges else g.VI[v]
  }

  /** The rows that the entries before row v belong to, entry by entry. */
  function Owners(g: Csr, v: nat): (r: seq<nat>)
    requires v <= g.numVertex && forall u :: 0 <= u < v ==> HasRow(g, u)
    ensures Below(r, v) && Ascending(r)
  {
    if v == 0 then [] else Owners(g, v - 1) + seq(Degree(g, v - 1), _ => v - 1)
  }

  ghost predicate Whole(g: Csr, targets: nat) { WellFormed(g, targets) && Tiled(g) }

  lemma {:induction false} RowsInOrder(g: Csr, targets: nat, u: nat, v: nat)
    requires WellFormed(g, targets) && u < v < g.numVertex
    ensures RowEnd(g, u) <= g.VI[v]
    decreases v
  {
    if u < v - 1 {
      RowsInOrder(g, targets, u, v - 1);
      assert g.VI[v - 1] <= RowEnd(g, v - 1);
    }
  }

  lemma {:induction false} OwnersSize(g: Csr, targets: nat, v: nat)
    requires Whole(g, targets) && v <= g.numVertex
    ensures forall u :: 0 <= u < v ==> HasRow(g, u)
    ensures |Owners(g, v)| == RowStart(g, v) <= g.numEdges
  {
    if v > 0 {
      OwnersSize(g, targets, v - 1);
      assert RowEnd(g, v - 1) == RowStart(g, v);
    }
  }

  lemma {:induction false} OwnerAt(g: Csr, targets: nat, v: nat, u: nat, j: nat)
    requires Whole(g, targets) && u < v <= g.numVertex && HasRow(g, u) && g.VI[u] <= j < RowEnd(g, u)
    ensures forall u :: 0 <= u < v ==> HasRow(g, u)
    ensures j < |Owners(g, v)| && Owners(g, v)[j] == u
  {
    OwnersSize(g, targets, v);
    OwnersSize(g, targets, v - 1);
    if u < v - 1 {
      RowsInOrder(g, targets, u, v - 1);
      OwnerAt(g, targets, v - 1, u, j);
    }
  }

  lemma OwnersOf(g: Csr, targets: nat)
    requires Whole(g, targets)
    ensures forall u :: 0 <= u < g.numVertex ==> HasRow(g, u)
    ensures |Owners(g, g.numVertex)| == g.numEdges
    ensures forall u, j :: 0 <= u < g.numVertex && g.VI[u] <= j < RowEnd(g, u) ==>
              j < g.numEdges && Owners(g, g.numVertex)[j] == u
  {
    OwnersSize(g, targets, g.numVertex);
    forall u, j | 0 <= u < g.numVertex && g.VI[u] <= j < RowEnd(g, u)
      ensures j < g.numEdges && Owners(g, g.numVertex)[j] == u
    {
      OwnerAt(g, targets, g.numVertex, u, j);
    }
  }

  /** Counting the entries equal to k row by row. */
  lemma PairsOfOwner(g: Csr, targets: nat, k: nat, v: nat)
    requires Whole(g, targets) && v < g.numVertex
    ensures HasRow(g, v) && (forall u :: 0 <= u < g.numVertex ==> HasRow(g, u))
    ensures |Owners(g, g.numVertex)| == g.numEdges == |g.EI|
    ensures Pairs(g.EI, Owners(g, g.numVertex), 0, g.numEdges, k, v) == Times(g, v, k)
  {
    OwnersOf(g, targets);
    var owners := Owners(g, g.numVertex);
    var lo, hi := g.VI[v], RowEnd(g, v);
    assert HasRow(g, v);
    assert forall j :: 0 <= j < lo || hi <= j < g.numEdges ==> owners[j] != v by {
      forall j | 0 <= j < lo || hi <= j < g.numEdges ensures owners[j] != v {
        OwnerNot(g, targets, v, j);
      }
    }
    PairsSplit(g.EI, owners, 0, lo, g.numEdges, k, v);
    PairsSplit(g.EI, owners, lo, hi, g.numEdges, k, v);
    PairsUniform(g.EI, owners, 0, lo, k, v);
    PairsUniform(g.EI, owners, lo, hi, k, v);
    PairsUniform(g.EI, owners, hi, g.numEdges, k, v);
  }

  lemma OwnerNot(g: Csr, targets: nat, v: nat, j: nat)
    requires Whole(g, targets) && v < g.numVertex && (j < g.VI[v] || RowEnd(g, v) <= j < g.numEdges)
    ensures (forall u :: 0 <= u < g.numVertex ==> HasRow(g, u)) && j < |Owners(g, g.numVertex)|
    ensures Owners(g, g.numVertex)[j] != v
  {
    OwnersOf(g, targets);
    assert HasRow(g, v);
    var u := RowOf(g, g.numVertex, j);
  }

  /** Every entry is in some row. */
  lemma {:induction false} RowOf(g: Csr, n: nat, j: nat) returns (u: nat)
    requires Tiled(g) && (forall v :: 0 <= v < g.numVertex ==> HasRow(g, v))
    requires n <= g.numVertex <= |g.VI| && j < RowStart(g, n)
    ensures u < n && HasRow(g, u) && g.VI[u] <= j < RowEnd(g, u)
  {
    assert HasRow(g, n - 1);
    if g.VI[n - 1] <= j {
      u := n - 1;
    } else {
      u := RowOf(g, n - 1, j);
    }
  }

  lemma {:induction false} TargetsAscend(keys: seq<nat>, vals: seq<nat>, m: nat, k: nat)
    requires m <= |keys| && m <= |vals| && Ascending(vals)
    ensures Ascending(Targets(keys, vals, m, k))
    ensures m > 0 ==> forall t :: 0 <= t < |Targets(keys, vals, m, k)| ==> Targets(keys, vals, m, k)[t] <= vals[m - 1]
  {
    if m > 0 {
      TargetsAscend(keys, vals, m - 1, k);
    }
  }

  /** Rows that list, for every target, the rows it came from make the transpose. */
  lemma ListsMakeTranspose(t: Csr, g: Csr)
    requires Whole(g, t.numVertex) && WellFormed(t, g.numVertex) && t.numEdges == g.numEdges
    requires forall u :: 0 <= u < g.numVertex ==> HasRow(g, u)
    requires ListsEdges(t, g.EI, Owners(g, g.numVertex))
    ensures IsTranspose(t, g)
  {
    forall p, v | 0 <= p < t.numVertex && 0 <= v < g.numVertex ensures Times(t, p, v) == Times(g, v, p) {
      PairsOfOwner(g, t.numVertex, p, v);
      ListedTimes(t, g.EI, Owners(g, g.numVertex), p, v);
    }
    forall p | 0 <= p < t.numVertex ensures Ascending(Row(t, p)) {
      assert HasRow(t, p) && Row(t, p) == Targets(g.EI, Owners(g, g.numVertex), |g.EI|, p);
      TargetsAscend(g.EI, Owners(g, g.numVertex), |g.EI|, p);
    }
  }

  // ---------- The program ----------

  /** Counts one place too far to the right, then sums up. */
  method ReverseStarts(EI: seq<nat>, n: nat) returns (VI: array<nat>)
    requires Below(EI, n)
    ensures fresh(VI) && VI.Length == n && Starts(VI[..], EI, n)
  {
    hide Smaller;
    VI := new nat[n](_ => 0);
    for i := 0 to |EI|
      invariant forall s :: 0 <= s < n ==> VI[s] == if s == 0 then 0 else Occurrences(EI, 0, i, s - 1)
    {
      if EI[i] + 1 < n {
        VI[EI[i] + 1] := VI[EI[i] + 1] + 1;
      }
    }
    SmallerNext(EI, |EI|, 0);
    var i := 1;
    while i < n
      invariant 1 <= i
      invariant forall s :: 0 <= s < i && s < n ==> VI[s] == Smaller(EI, |EI|, s)
      invariant forall s :: i <= s < n ==> VI[s] == Occurrences(EI, 0, |EI|, s - 1)
    {
      SmallerNext(EI, |EI|, i - 1);
      VI[i] := VI[i] + VI[i - 1];
      i := i + 1;
    }
  }

  /** The entries of row i, each dropped into the row it names. */
  method ScatterRow(g: Csr, i: nat, VI: array<nat>, EI: array<nat>, tempId: array<nat>, n: nat)
    requires Whole(g, n) && i < g.numVertex && (forall u :: 0 <= u < g.numVertex ==> HasRow(g, u))
    requires EI != VI && EI != tempId && tempId != VI && tempId.Length == n
    requires Scattered(EI[..], VI[..], g.EI, Owners(g, g.numVertex), n, RowStart(g, i))
    requires forall s :: 0 <= s < n ==> tempId[s] == Occurrences(g.EI, 0, RowStart(g, i), s)
    modifies EI, tempId
    ensures Scattered(EI[..], VI[..], g.EI, Owners(g, g.numVertex), n, RowStart(g, i + 1))
    ensures forall s :: 0 <= s < n ==> tempId[s] == Occurrences(g.EI, 0, RowStart(g, i + 1), s)
  {
    hide Scattered, Owners, Tiled;
    var maxId := if i == g.numVertex - 1 then g.numEdges else g.VI[i + 1];
    OwnersOf(g, n);
    ghost var owners := Owners(g, g.numVertex);
    assert HasRow(g, i);
    assert forall j :: g.VI[i] <= j < maxId ==> owners[j] == i;
    for j := g.VI[i] to maxId
      invariant Scattered(EI[..], VI[..], g.EI, owners, n, j)
      invariant forall s :: 0 <= s < n ==> tempId[s] == Occurrences(g.EI, 0, j, s)
    {
      PutEdge(VI, EI, tempId, g.EI[j], i, g.EI, owners, n, j);
    }
  }

  method CreateReverseCsr(g1: Csr, n: nat) returns (g2: Csr)
    requires Whole(g1, n)
    ensures g2.numVertex == n && IsTranspose(g2, g1) && Tiled(g2)
  {
    OwnersOf(g1, n);
    ghost var owners := Owners(g1, g1.numVertex);
    var VI := ReverseStarts(g1.EI, n);
    var EI := new nat[g1.numEdges];
    var tempId := new nat[n](_ => 0);
    ghost var starts := VI[..];
    ScatterStart(EI[..], starts, g1.EI, owners, n);
    for i := 0 to g1.numVertex
      invariant VI[..] == starts
      invariant Scattered(EI[..], starts, g1.EI, owners, n, RowStart(g1, i))
      invariant forall s :: 0 <= s < n ==> tempId[s] == Occurrences(g1.EI, 0, RowStart(g1, i), s)
    {
      ScatterRow(g1, i, VI, EI, tempId, n);
    }
    g2 := MakeCsr(n, VI, EI, g1.EI, owners);
    ListsMakeTranspose(g2, g1);
  }

  // ---------- Twice ----------

  lemma CountWithoutLast(a: seq<nat>, x: nat)
    requires a != []
    ensures
      var n := |a| - 1;
      Occurrences(a[..n], 0, n, x) == Occurrences(a, 0, |a|, x) - (if a[n] == x then 1 else 0)
  {
    OccurrencesSame(a, a[..|a| - 1], 0, |a| - 1, x);
  }

  lemma SameLast(a: seq<nat>, b: seq<nat>)
    requires Ascending(a) && Ascending(b) && a != []
    requires forall x: nat :: Occurrences(a, 0, |a|, x) == Occurrences(b, 0, |b|, x)
    ensures b != [] && a[|a| - 1] == b[|b| - 1]
  {
    hide Occurrences;
    var n, m := |a| - 1, |b| - 1;
    OccursIff(a, 0, |a|, a[n]);
    OccursIff(b, 0, |b|, a[n]);
    OccursIff(a, 0, |a|, b[m]);
    OccursIff(b, 0, |b|, b[m]);
  }

  /** An ascending list is determined by how often everything occurs in it. */
  lemma {:induction false} AscendingUnique(a: seq<nat>, b: seq<nat>)
    requires Ascending(a) && Ascending(b)
    requires forall x: nat :: Occurrences(a, 0, |a|, x) == Occurrences(b, 0, |b|, x)
    ensures a == b
    decreases |a|
  {
    hide Occurrences;
    if a == [] {
      if b != [] {
        OccursIff(b, 0, |b|, b[0]);
      }
    } else {
      SameLast(a, b);
      var n, m := |a| - 1, |b| - 1;
      forall x: nat ensures Occurrences(a[..n], 0, n, x) == Occurrences(b[..m], 0, m, x) {
        CountWithoutLast(a, x);
        CountWithoutLast(b, x);
      }
      AscendingUnique(a[..n], b[..m]);
      assert a == a[..n] + [a[n]] && b == b[..m] + [b[m]];
    }
  }

  /** Transposing twice only sorts the rows: nothing is lost, and sorted rows come back as they were. */
  lemma TransposeTwice(g: Csr, t: Csr, t2: Csr, v: nat)
    requires IsTranspose(t, g) && IsTranspose(t2, t) && t2.numVertex == g.numVertex && v < g.numVertex
    ensures HasRow(g, v) && HasRow(t2, v) && Ascending(Row(t2, v))
    ensures forall p :: 0 <= p < t.numVertex ==> Times(t2, v, p) == Times(g, v, p)
    ensures Ascending(Row(g, v)) ==> Row(t2, v) == Row(g, v)
  {
    assert HasRow(g, v) && HasRow(t2, v);
    forall p | 0 <= p < t.numVertex ensures Times(t2, v, p) == Times(g, v, p) {
      assert Times(t2, v, p) == Times(t, p, v);
    }
    if Ascending(Row(g, v)) {
      var a, b := Row(t2, v), Row(g, v);
      assert Below(a, t.numVertex) && Below(b, t.numVertex);
      forall x: nat ensures Occurrences(a, 0, |a|, x) == Occurrences(b, 0, |b|, x) {
        OccurrencesSlice(t2.EI, t2.VI[v], RowEnd(t2, v), x);
        OccurrencesSlice(g.EI, g.VI[v], RowEnd(g, v), x);
        if x < t.numVertex {
          assert Times(t2, v, x) == Times(g, v, x);
        } else {
          OccursIff(a, 0, |a|, x);
          OccursIff(b, 0, |b|, x);
        }
      }
      AscendingUnique(a, b);
    }
  }
}
