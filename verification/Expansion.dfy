/** Blocks of consecutive vertices: from an order of the blocks back to an order of the vertices. */
module Expansion {
  import opened Permutations

  /** Where block b starts: b times the block size. */
  function Base(size: nat, b: nat): nat {
    if b == 0 then 0 else Base(size, b - 1) + size
  }

  /** The block of vertex v: v divided by the block size. */
  function BlockOf(size: nat, v: nat): nat
    requires size > 0
    decreases v
  {
    if v < size then 0 else BlockOf(size, v - size) + 1
  }

  lemma {:induction false} BaseIsProduct(size: nat, b: nat)
    ensures Base(size, b) == b * size
  {
    if b > 0 {
      BaseIsProduct(size, b - 1);
      assert b * size == (b - 1) * size + size;
    }
  }

  /** n vertices in blocks of `size`; the last block may be shorter. */
  function NumBlocks(n: nat, size: nat): (k: nat)
    requires n > 0 && size > 0
    ensures k > 0
  {
    BlockOf(size, n - 1) + 1
  }

  function BlockSize(n: nat, size: nat, b: nat): int
    requires n > 0 && size > 0
  {
    if b == NumBlocks(n, size) - 1 then n - Base(size, b) else size
  }

  lemma {:induction false} BaseMonotone(size: nat, a: nat, b: nat)
    requires a < b
    ensures Base(size, a) + size == Base(size, a + 1) <= Base(size, b)
    decreases b
  {
    if a + 1 < b {
      BaseMonotone(size, a, b - 1);
    }
  }

  lemma {:induction false} BlockOfBounds(size: nat, v: nat)
    requires size > 0
    ensures Base(size, BlockOf(size, v)) <= v < Base(size, BlockOf(size, v)) + size
    decreases v
  {
    if v >= size {
      BlockOfBounds(size, v - size);
    }
  }

  lemma BlockOfIs(size: nat, v: nat, b: nat)
    requires size > 0 && Base(size, b) <= v < Base(size, b) + size
    ensures BlockOf(size, v) == b
  {
    var q := BlockOf(size, v);
    BlockOfBounds(size, v);
    hide Base, BlockOf;
    if q < b {
      BaseMonotone(size, q, b);
    } else if b < q {
      BaseMonotone(size, b, q);
    }
  }

  lemma BlockOfIsQuotient(size: nat, v: nat)
    requires size > 0
    ensures BlockOf(size, v) == v / size
  {
    BaseIsProduct(size, v / size);
    BlockOfIs(size, v, v / size);
  }

  /** A block lies inside 0..n-1 and is never empty. */
  lemma BlockInside(n: nat, size: nat, b: nat)
    requires n > 0 && size > 0 && b < NumBlocks(n, size)
    ensures 1 <= BlockSize(n, size, b) <= size && Base(size, b) + BlockSize(n, size, b) <= n
  {
    hide Base, BlockOf;
    BlockOfBounds(size, n - 1);
    if b < NumBlocks(n, size) - 1 {
      BaseMonotone(size, b, NumBlocks(n, size) - 1);
    }
  }

  /** Every vertex is in exactly the block its number says. */
  lemma InBlock(n: nat, size: nat, v: nat)
    requires n > 0 && size > 0 && v < n
    ensures
      var b := BlockOf(size, v);
      b < NumBlocks(n, size) && Base(size, b) <= v < Base(size, b) + BlockSize(n, size, b)
  {
    hide Base, BlockOf;
    BlockOfBounds(size, v);
    BlockOfBounds(size, n - 1);
    if NumBlocks(n, size) - 1 < BlockOf(size, v) {
      BaseMonotone(size, NumBlocks(n, size) - 1, BlockOf(size, v));
    }
  }

  /** The vertices of block b, in order. */
  function BlockVertices(n: nat, size: nat, b: nat): (r: seq<nat>)
    requires n > 0 && size > 0 && b < NumBlocks(n, size)
    ensures |r| == BlockSize(n, size, b)
    ensures forall j :: 0 <= j < |r| ==> r[j] == Base(size, b) + j
  {
    BlockInside(n, size, b);
    seq(BlockSize(n, size, b), j => Base(size, b) + j)
  }

  ghost predicate AreBlocks(n: nat, size: nat, nodeId: seq<nat>)
    requires n > 0 && size > 0
  {
    Below(nodeId, NumBlocks(n, size))
  }

  /** The vertices of the first k blocks of an order. */
  function Expanded(n: nat, size: nat, nodeId: seq<nat>, k: nat): seq<nat>
    requires n > 0 && size > 0 && AreBlocks(n, size, nodeId) && k <= |nodeId|
  {
    if k == 0 then [] else Expanded(n, size, nodeId, k - 1) + BlockVertices(n, size, nodeId[k - 1])
  }

  /** An expanded list holds the vertices of its blocks and nothing else, each once. */
  lemma {:induction false} ExpandedHolds(n: nat, size: nat, nodeId: seq<nat>, k: nat)
    requires n > 0 && size > 0 && AreBlocks(n, size, nodeId) && k <= |nodeId| && Distinct(nodeId)
    ensures Distinct(Expanded(n, size, nodeId, k)) && Below(Expanded(n, size, nodeId, k), n)
    ensures forall v: nat :: v in Expanded(n, size, nodeId, k) <==> v < n && BlockOf(size, v) in nodeId[..k]
  {
    if k > 0 {
      ExpandedHolds(n, size, nodeId, k - 1);
      var front, b := Expanded(n, size, nodeId, k - 1), nodeId[k - 1];
      assert nodeId[..k] == nodeId[..k - 1] + [b];
      assert b !in nodeId[..k - 1];
      BlockHolds(n, size, b);
      hide Base, BlockOf, BlockVertices;
      DistinctConcat(front, BlockVertices(n, size, b), n);
    }
  }

  lemma BlockHolds(n: nat, size: nat, b: nat)
    requires n > 0 && size > 0 && b < NumBlocks(n, size)
    ensures Distinct(BlockVertices(n, size, b)) && Below(BlockVertices(n, size, b), n)
    ensures forall v: nat :: v in BlockVertices(n, size, b) <==> v < n && BlockOf(size, v) == b
  {
    BlockInside(n, size, b);
    var r := BlockVertices(n, size, b);
    hide BlockVertices, Base, BlockOf;
    forall v: nat ensures v in r <==> v < n && BlockOf(size, v) == b {
      if v in r {
        BlockOfIs(size, v, b);
      }
      if v < n && BlockOf(size, v) == b {
        InBlock(n, size, v);
        assert r[v - Base(size, b)] == v;
      }
    }
  }

  lemma DistinctConcat(a: seq<nat>, b: seq<nat>, n: nat)
    requires Distinct(a) && Distinct(b) && Below(a, n) && Below(b, n) && forall v: nat :: v in a ==> v !in b
    ensures Distinct(a + b) && Below(a + b, n)
    ensures forall v: nat :: v in a + b <==> v in a || v in b
  {
    var r := a + b;
    forall i, j | 0 <= i < j < |r| ensures r[i] != r[j] {
      if i < |a| <= j {
        assert r[i] in a && r[j] in b;
      }
    }
  }

  /** Expanding a permutation of all blocks gives a permutation of all vertices. */
  lemma ExpandedPermutes(n: nat, size: nat, nodeId: seq<nat>)
    requires n > 0 && size > 0 && IsPermutation(nodeId, NumBlocks(n, size))
    ensures IsPermutation(Expanded(n, size, nodeId, |nodeId|), n)
  {
    hide Base, BlockOf;
    ExpandedHolds(n, size, nodeId, |nodeId|);
    assert nodeId[..|nodeId|] == nodeId;
    forall v: nat | v < n ensures v in Expanded(n, size, nodeId, |nodeId|) {
      InBlock(n, size, v);
      Onto(nodeId, NumBlocks(n, size), BlockOf(size, v));
    }
    FullLength(Expanded(n, size, nodeId, |nodeId|), n);
  }

  lemma {:induction false} ExpandedPrefix(n: nat, size: nat, nodeId: seq<nat>, i: nat, k: nat)
    requires n > 0 && size > 0 && AreBlocks(n, size, nodeId) && i <= k <= |nodeId|
    ensures Expanded(n, size, nodeId, i) <= Expanded(n, size, nodeId, k)
  {
    if i < k {
      ExpandedPrefix(n, size, nodeId, i, k - 1);
    }
  }

  /** The block at position i stays together, in order, right behind the blocks before it. */
  lemma BlockStaysTogether(n: nat, size: nat, nodeId: seq<nat>, i: nat, j: nat)
    requires n > 0 && size > 0 && AreBlocks(n, size, nodeId) && i < |nodeId|
    requires j < BlockSize(n, size, nodeId[i])
    ensures
      var start := |Expanded(n, size, nodeId, i)|;
      && start + j < |Expanded(n, size, nodeId, |nodeId|)|
      && Expanded(n, size, nodeId, |nodeId|)[start + j] == Base(size, nodeId[i]) + j
  {
    ExpandedPrefix(n, size, nodeId, i + 1, |nodeId|);
  }

  // ---------- The program ----------

  /** Appends the vertices of one block. */
  method ExpandBlock(n: nat, size: nat, clId: nat, newNodeId: array<nat>, from: nat, ghost front: seq<nat>)
    returns (nodeExpCount: nat)
    requires n > 0 && size > 0 && clId < NumBlocks(n, size)
    requires newNodeId.Length == n && from == |front| <= n && newNodeId[..from] == front
    requires |front + BlockVertices(n, size, clId)| <= n
    modifies newNodeId
    ensures nodeExpCount == |front + BlockVertices(n, size, clId)|
    ensures newNodeId[..nodeExpCount] == front + BlockVertices(n, size, clId)
  {
    BlockInside(n, size, clId);
    nodeExpCount := from;
    var baseNode := clId * size;
    BaseIsProduct(size, clId);
    var numNodes := if clId == NumBlocks(n, size) - 1 then n - baseNode else size;
    ghost var block := BlockVertices(n, size, clId);
    for j := 0 to numNodes
      invariant nodeExpCount == from + j
      invariant newNodeId[..nodeExpCount] == front + block[..j]
    {
      newNodeId[nodeExpCount] := baseNode + j;
      nodeExpCount := nodeExpCount + 1;
      assert newNodeId[..nodeExpCount] == newNodeId[..nodeExpCount - 1] + [baseNode + j];
      assert block[..j + 1] == block[..j] + [block[j]];
    }
    assert block[..numNodes] == block;
  }

  lemma ExpandedNext(n: nat, size: nat, nodeId: seq<nat>, i: nat)
    requires n > 0 && size > 0 && IsPermutation(nodeId, NumBlocks(n, size)) && i < |nodeId|
    ensures Expanded(n, size, nodeId, 0) == []
    ensures Expanded(n, size, nodeId, i + 1) == Expanded(n, size, nodeId, i) + BlockVertices(n, size, nodeId[i])
    ensures |Expanded(n, size, nodeId, i)| <= |Expanded(n, size, nodeId, i + 1)| <= n
  {
    hide BlockOf, BlockVertices;
    ExpandedHolds(n, size, nodeId, i + 1);
    Pigeonhole(Expanded(n, size, nodeId, i + 1), n);
  }

  /** The first loop of the expansion: the vertices in the order of their blocks. */
  method ExpandBlocks(n: nat, size: nat, nodeId: seq<nat>) returns (newNodeId: array<nat>)
    requires n > 0 && size > 0 && IsPermutation(nodeId, NumBlocks(n, size))
    ensures fresh(newNodeId) && newNodeId.Length == n && newNodeId[..] == Expanded(n, size, nodeId, |nodeId|)
  {
    hide BlockOf, BlockVertices, Expanded, Distinct;
    newNodeId := new nat[n];
    var nodeExpCount := 0;
    ExpandedNext(n, size, nodeId, 0);
    for i := 0 to |nodeId|
      invariant nodeExpCount == |Expanded(n, size, nodeId, i)| <= n
      invariant newNodeId[..nodeExpCount] == Expanded(n, size, nodeId, i)
    {
      ExpandedNext(n, size, nodeId, i);
      nodeExpCount := ExpandBlock(n, size, nodeId[i], newNodeId, nodeExpCount, Expanded(n, size, nodeId, i));
    }
    ExpandedPermutes(n, size, nodeId);
  }

  method Expand(n: nat, size: nat, nodeId: seq<nat>) returns (newNodeId: array<nat>, newNodeMap: array<nat>)
    requires n > 0 && size > 0 && IsPermutation(nodeId, NumBlocks(n, size))
    ensures fresh(newNodeId) && fresh(newNodeMap) && newNodeId != newNodeMap
    ensures newNodeId[..] == Expanded(n, size, nodeId, |nodeId|)
    ensures Inverse(newNodeMap[..], newNodeId[..], n)
  {
    hide NumBlocks, Expanded, Inverse;
    newNodeId := ExpandBlocks(n, size, nodeId);
    ExpandedPermutes(n, size, nodeId);
    ghost var order := newNodeId[..];
    newNodeMap := new nat[n];
    for i := 0 to n
      invariant newNodeId[..] == order
      invariant forall k :: 0 <= k < i ==> newNodeMap[newNodeId[k]] == k
    {
      assert forall k :: 0 <= k < i ==> order[k] != order[i];
      newNodeMap[newNodeId[i]] := i;
    }
    TableInverts(order, newNodeMap[..], n);
  }

  // ---------- Keeping vertex 0 first ----------

  /** f after number 0 and whatever was mapped to 0 have traded places. */
  function ZeroFirst(f: seq<nat>, g: seq<nat>): seq<nat>
    requires 0 < |f| == |g| && g[0] < |f|
  {
    if f[0] == 0 then f else f[0 := 0][g[0] := f[0]]
  }

  /** `final` is `order` after 0 has traded places with the first entry. */
  ghost predicate TradedFirst(order: seq<nat>, final: seq<nat>) {
    && |final| == |order|
    && forall i :: 0 <= i < |order| ==>
         final[i] == if i == 0 then 0 else if order[i] == 0 then order[0] else order[i]
  }

  lemma ZeroFirstTrades(order: seq<nat>, map0: seq<nat>, n: nat)
    requires n > 0 && Inverse(map0, order, n)
    ensures TradedFirst(order, ZeroFirst(order, map0))
  {
    assert order[map0[0]] == 0;
    forall i | 0 <= i < n && order[i] == 0 ensures i == map0[0] {
      assert map0[order[i]] == i;
    }
  }

  /** The `maintain` fix-up: vertex (or block) 0 trades places with the one that came first. The
      search for that one runs up to `limit`, which may lie beyond the arrays, but it stops inside. */
  method MaintainZero(nodeMap: array<nat>, nodeId: array<nat>, limit: nat)
    requires nodeMap != nodeId && 0 < nodeMap.Length == nodeId.Length <= limit
    requires Inverse(nodeMap[..], nodeId[..], nodeMap.Length)
    modifies nodeMap, nodeId
    ensures Inverse(nodeMap[..], nodeId[..], nodeMap.Length) && nodeMap[0] == 0 == nodeId[0]
    ensures nodeMap[..] == old(ZeroFirst(nodeMap[..], nodeId[..]))
    ensures nodeId[..] == old(ZeroFirst(nodeId[..], nodeMap[..]))
  {
    ghost var f, g := nodeMap[..], nodeId[..];
    assert g[f[0]] == 0 && f[g[0]] == 0;
    if nodeMap[0] != 0 {
      var zerosMap := nodeMap[0];
      nodeMap[0] := 0;
      nodeId[0] := 0;
      var i := 1;
      while i < limit && nodeMap[i] != 0
        invariant 1 <= i <= g[0]
      {
        assert f[i] == nodeMap[i];
        i := i + 1;
      }
      assert g[f[i]] == i && f[i] == nodeMap[i];
      if i < limit {
        nodeMap[i] := zerosMap;
        nodeId[zerosMap] := i;
      }
      SwapKeepsInverse(f, g, nodeMap.Length, 0, 0);
      assert nodeMap[..] == f[0 := 0][g[0] := f[0]];
      assert nodeId[..] == g[0 := 0][f[0] := g[0]];
    }
  }

  /** With block 0 first, vertex 0 is first: the second fix-up has nothing to do. */
  lemma SecondFixUpNeverFires(n: nat, size: nat, nodeId: seq<nat>, newNodeMap: seq<nat>)
    requires n > 0 && size > 0 && IsPermutation(nodeId, NumBlocks(n, size)) && nodeId[0] == 0
    requires Inverse(newNodeMap, Expanded(n, size, nodeId, |nodeId|), n)
    ensures newNodeMap[0] == 0
  {
    BlockStaysTogether(n, size, nodeId, 0, 0);
  }

  /** What the second fix-up would do if it fired: it writes the displaced vertex into the slot
      named by the vertex that came first instead of the slot vertex 0 had. */
  function SecondFixUpIds(f: seq<nat>, g: seq<nat>): seq<nat>
    requires 0 < |f| == |g| && g[0] < |f|
  {
    g[0 := 0][g[0] := g[0]]
  }

  /** It would leave inverse tables only if the two slots happen to coincide. */
  lemma SecondFixUpWouldBreak(f: seq<nat>, g: seq<nat>, n: nat)
    requires n > 0 && Inverse(f, g, n) && f[0] != 0
    ensures Inverse(ZeroFirst(f, g), SecondFixUpIds(f, g), n) <==> f[0] == g[0]
  {
    var f', g' := ZeroFirst(f, g), SecondFixUpIds(f, g);
    assert g[f[0]] == 0 && f[g[0]] == 0 && g[0] != 0;
    if f[0] == g[0] {
      SwapKeepsInverse(f, g, n, 0, 0);
      assert g' == g[0 := 0][f[0] := g[0]];
    } else {
      assert f'[g[0]] == f[0];
      assert g'[f[0]] == 0;
    }
  }
}
