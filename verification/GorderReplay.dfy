/** The greedy ordering replayed on a plain sorted list with pending changes: which heap every round starts
    from, and which vertex it gives. */
module GorderReplay {
  import opened Permutations
  import opened Csr
  import opened UnitHeapSpec
  import opened GorderSpec
  import opened GorderStep
  import opened GorderOutcome

  /** Everybody stands by descending in-degree, equal ones in any order, and owes all of it. */
  ghost predicate AtStart(g: Net, h: HeapView) {
    && Simple(g) && IsPermutation(h.list, Vertices(g)) && h.key == InDegrees(g) && Sorted(h.list, h.key)
    && |h.pending| == Vertices(g) && forall j :: 0 <= j < Vertices(g) ==> h.pending[j] == -h.key[j]
  }

  /** The heap once the isolated vertices and the first one are out and the first one is in the window. */
  ghost predicate Begins(g: Net, huge: nat, first: nat, h: HeapView) {
    && Simple(g) && HasRow(g.out, first) && HasRow(g.inn, first)
    && exists s: HeapView :: AtStart(g, s) &&
         h == BumpedBy(Without(WithoutAll(s, Zeros(g, Vertices(g)), SENTINEL), first, SENTINEL),
                       FirstSteps(g, huge, first))
  }

  /** Round k takes the vertex that its heap gives, and leaves the heap of the next round. */
  ghost predicate RoundAt(g: Net, huge: nat, window: nat, order: seq<nat>, heaps: seq<HeapView>, k: nat)
    requires 1 <= k < |order| && k <= |heaps|
  {
    && Gives(g, window, order[..k + 1], heaps[k - 1])
    && (k < |heaps| ==> heaps[k] == Slid(g, huge, window, order[..k + 1], Taken(heaps[k - 1])))
  }

  /** heaps[k - 1] is the heap that round k starts from; a round that ends the program leaves none. */
  ghost predicate Replays(g: Net, huge: nat, window: nat, order: seq<nat>, heaps: seq<HeapView>) {
    && order != [] && |heaps| <= |order| <= |heaps| + 1
    && (heaps != [] ==> Begins(g, huge, order[0], heaps[0]))
    && forall k :: 1 <= k < |order| ==> RoundAt(g, huge, window, order, heaps, k)
  }

  lemma BeginsFrom(g: Net, huge: nat, first: nat, s: HeapView, h: HeapView)
    requires AtStart(g, s) && HasRow(g.out, first) && HasRow(g.inn, first)
    requires h == BumpedBy(Without(WithoutAll(s, Zeros(g, Vertices(g)), SENTINEL), first, SENTINEL),
                           FirstSteps(g, huge, first))
    ensures Begins(g, huge, first, h)
  {
    hide BumpedBy, Without, WithoutAll, FirstSteps, Simple;
  }

  lemma ReplaysFirst(g: Net, huge: nat, window: nat, first: nat, h: HeapView)
    ensures Replays(g, huge, window, [first], [])
    ensures Begins(g, huge, first, h) ==> Replays(g, huge, window, [first], [h])
  {
  }

  lemma ReplaysMore(g: Net, huge: nat, window: nat, order: seq<nat>, heaps: seq<HeapView>, v: nat, next: HeapView)
    requires Replays(g, huge, window, order, heaps) && |heaps| == |order|
    requires Gives(g, window, order + [v], heaps[|heaps| - 1])
    ensures Replays(g, huge, window, order + [v], heaps)
    ensures next == Slid(g, huge, window, order + [v], Taken(heaps[|heaps| - 1])) ==>
              Replays(g, huge, window, order + [v], heaps + [next])
  {
    hide Gives, Slid, Taken, Begins;
    var order', heaps', n := order + [v], heaps + [next], |order|;
    assert order'[..n + 1] == order';
    forall k | 1 <= k < n
      ensures RoundAt(g, huge, window, order', heaps, k) && RoundAt(g, huge, window, order', heaps', k)
    {
      assert RoundAt(g, huge, window, order, heaps, k);
      assert order'[..k + 1] == order[..k + 1];
    }
  }
}
