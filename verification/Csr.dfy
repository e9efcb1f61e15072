/** Compressed sparse rows: the edge lists of all vertices laid out one after the other. */
module Csr {
  import opened Permutations

  /** VI[v] is where the row of v starts in EI; the row of the last vertex ends at numEdges. */
  datatype Csr = Csr(numVertex: nat, numEdges: nat, VI: seq<nat>, EI: seq<nat>)

  /** Rows lie inside EI and every entry is below `targets`. */
  ghost predicate WellFormed(g: Csr, targets: nat) {
    && |g.VI| >= g.numVertex
    && |g.EI| == g.numEdges
    && (forall v {:trigger RowEnd(g, v)} :: 0 <= v < g.numVertex ==> g.VI[v] <= RowEnd(g, v) <= g.numEdges)
    && Below(g.EI, targets)
  }

  function RowEnd(g: Csr, v: nat): nat
    requires v < g.numVertex <= |g.VI|
  {
    if v == g.numVertex - 1 then g.numEdges else g.VI[v + 1]
  }

  ghost predicate HasRow(g: Csr, v: nat) {
    v < g.numVertex <= |g.VI| && g.VI[v] <= RowEnd(g, v) <= |g.EI|
  }

  function Row(g: Csr, v: nat): seq<nat>
    requires HasRow(g, v)
  {
    g.EI[g.VI[v]..RowEnd(g, v)]
  }

  function Degree(g: Csr, v: nat): nat
    requires HasRow(g, v)
  {
    RowEnd(g, v) - g.VI[v]
  }

  /** The rows start at the front of EI, so that together they cover all of it. */
  ghost predicate Tiled(g: Csr) {
    if g.numVertex == 0 then g.numEdges == 0 else |g.VI| > 0 && g.VI[0] == 0
  }

  /** How often x occurs in s[lo..hi]. */
  function Occurrences(s: seq<nat>, lo: nat, hi: nat, x: nat): (k: nat)
    requires lo <= hi <= |s|
    ensures k <= hi - lo
    decreases hi - lo
  {
    if lo == hi then 0
    else Occurrences(s, lo, hi - 1, x) + (if s[hi - 1] == x then 1 else 0)
  }

  lemma {:induction false} OccurrencesSplit(s: seq<nat>, lo: nat, mid: nat, hi: nat, x: nat)
    requires lo <= mid <= hi <= |s|
    ensures Occurrences(s, lo, hi, x) == Occurrences(s, lo, mid, x) + Occurrences(s, mid, hi, x)
    decreases hi - mid
  {
    if mid < hi {
      OccurrencesSplit(s, lo, mid, hi - 1, x);
    }
  }

  /** How often x occurs in row v. */
  function Times(g: Csr, v: nat, x: nat): nat
    requires HasRow(g, v)
  {
    Occurrences(g.EI, g.VI[v], RowEnd(g, v), x)
  }

  /** How many entries of s[lo..hi], repetitions included, are in `hot`. */
  function HotEntries(s: seq<nat>, lo: nat, hi: nat, hot: set<nat>): (k: nat)
    requires lo <= hi <= |s|
    ensures k <= hi - lo
    decreases hi - lo
  {
    if lo == hi then 0
    else HotEntries(s, lo, hi - 1, hot) + (if s[hi - 1] in hot then 1 else 0)
  }

  /** One more hot value raises the count by the number of its occurrences. */
  lemma {:induction false} HotEntriesAdd(s: seq<nat>, lo: nat, hi: nat, hot: set<nat>, p: nat)
    requires lo <= hi <= |s| && p !in hot
    ensures HotEntries(s, lo, hi, hot + {p}) == HotEntries(s, lo, hi, hot) + Occurrences(s, lo, hi, p)
    decreases hi - lo
  {
    if lo < hi {
      HotEntriesAdd(s, lo, hi - 1, hot, p);
    }
  }

  lemma {:induction false} HotEntriesMonotone(s: seq<nat>, lo: nat, hi: nat, a: set<nat>, b: set<nat>)
    requires lo <= hi <= |s| && a <= b
    ensures HotEntries(s, lo, hi, a) <= HotEntries(s, lo, hi, b)
    decreases hi - lo
  {
    if lo < hi {
      HotEntriesMonotone(s, lo, hi - 1, a, b);
    }
  }

  lemma {:induction false} HotEntriesAll(s: seq<nat>, lo: nat, hi: nat, hot: set<nat>)
    requires lo <= hi <= |s| && forall i :: lo <= i < hi ==> s[i] in hot
    ensures HotEntries(s, lo, hi, hot) == hi - lo
    decreases hi - lo
  {
    if lo < hi {
      HotEntriesAll(s, lo, hi - 1, hot);
    }
  }

  lemma {:induction false} HotEntriesNone(s: seq<nat>, lo: nat, hi: nat)
    requires lo <= hi <= |s|
    ensures HotEntries(s, lo, hi, {}) == 0
    decreases hi - lo
  {
    if lo < hi {
      HotEntriesNone(s, lo, hi - 1);
    }
  }

  /** An entry is either in both sets or in exactly one of the two differences. */
  lemma {:induction false} HotEntriesSplit(s: seq<nat>, lo: nat, hi: nat, a: set<nat>, b: set<nat>)
    requires lo <= hi <= |s|
    ensures HotEntries(s, lo, hi, a) == HotEntries(s, lo, hi, a - b) + HotEntries(s, lo, hi, a * b)
    decreases hi - lo
  {
    if lo < hi {
      HotEntriesSplit(s, lo, hi - 1, a, b);
    }
  }

  /** s[lo..hi] is strictly ascending, so it has no repetitions. */
  ghost predicate Strict(s: seq<nat>, lo: nat, hi: nat)
    requires lo <= hi <= |s|
  {
    forall i, j :: lo <= i < j < hi ==> s[i] < s[j]
  }

  lemma {:induction false} OccursIff(s: seq<nat>, lo: nat, hi: nat, x: nat)
    requires lo <= hi <= |s|
    ensures Occurrences(s, lo, hi, x) > 0 <==> exists i :: lo <= i < hi && s[i] == x
    decreases hi - lo
  {
    if lo < hi {
      OccursIff(s, lo, hi - 1, x);
    }
  }

  lemma {:induction false} StrictOnce(s: seq<nat>, lo: nat, hi: nat, x: nat)
    requires lo <= hi <= |s| && Strict(s, lo, hi)
    ensures Occurrences(s, lo, hi, x) <= 1
    decreases hi - lo
  {
    if lo < hi {
      StrictOnce(s, lo, hi - 1, x);
      OccursIff(s, lo, hi - 1, x);
    }
  }

  /** The members of `hot` that occur in s[lo..hi]. */
  function Hits(s: seq<nat>, lo: nat, hi: nat, hot: set<nat>): set<nat>
    requires lo <= hi <= |s|
  {
    set x | x in hot && Occurrences(s, lo, hi, x) > 0
  }

  /** Without repetitions, counting hot entries is counting hot values. */
  lemma {:induction false} HotEntriesOfStrict(s: seq<nat>, lo: nat, hi: nat, hot: set<nat>)
    requires lo <= hi <= |s| && Strict(s, lo, hi)
    ensures HotEntries(s, lo, hi, hot) == |Hits(s, lo, hi, hot)|
    decreases hi - lo
  {
    if lo == hi {
      assert Hits(s, lo, hi, hot) == {};
    } else {
      var last := s[hi - 1];
      HotEntriesOfStrict(s, lo, hi - 1, hot);
      OccursIff(s, lo, hi - 1, last);
      if last in hot {
        assert Hits(s, lo, hi, hot) == Hits(s, lo, hi - 1, hot) + {last};
      } else {
        assert Hits(s, lo, hi, hot) == Hits(s, lo, hi - 1, hot);
      }
    }
  }

  /** The degree of a row without repetitions is the number of its values. */
  lemma RowSize(g: Csr, v: nat, values: set<nat>)
    requires HasRow(g, v) && Strict(g.EI, g.VI[v], RowEnd(g, v))
    requires forall x: nat :: x in values <==> Times(g, v, x) > 0
    ensures Degree(g, v) == |values|
  {
    var lo, hi := g.VI[v], RowEnd(g, v);
    forall i | lo <= i < hi ensures g.EI[i] in values {
      OccursIff(g.EI, lo, hi, g.EI[i]);
    }
    HotEntriesAll(g.EI, lo, hi, values);
    HotEntriesOfStrict(g.EI, lo, hi, values);
    assert Hits(g.EI, lo, hi, values) == values;
  }

  ghost predicate Ascending(s: seq<nat>) {
    forall i, j :: 0 <= i < j < |s| ==> s[i] <= s[j]
  }

  /** Row p of t lists, in ascending order, every v as often as p occurs in row v of g. */
  ghost predicate IsTranspose(t: Csr, g: Csr) {
    && WellFormed(g, t.numVertex)
    && WellFormed(t, g.numVertex)
    && t.numEdges == g.numEdges
    && (forall p, v :: 0 <= p < t.numVertex && 0 <= v < g.numVertex ==> Times(t, p, v) == Times(g, v, p))
    && (forall p :: 0 <= p < t.numVertex ==> Ascending(Row(t, p)))
  }

  /** h is g with every vertex v renamed f[v]: the same edges, with the same multiplicities. */
  ghost predicate Relabelled(g: Csr, h: Csr, f: seq<nat>) {
    && h.numVertex == g.numVertex == |f| && h.numEdges == g.numEdges
    && IsPermutation(f, g.numVertex)
    && WellFormed(g, g.numVertex) && WellFormed(h, g.numVertex)
    && forall u, v :: 0 <= u < |f| && 0 <= v < |f| ==> Times(h, f[u], f[v]) == Times(g, u, v)
  }
}
