/** The two cache-model reorderings from graph to graph: by blocks of vertices, and by vertices. */
module Reordering {
  import opened Permutations
  import opened Csr
  import opened CacheSpec
  import opened Transpose
  import opened Expansion
  import opened Compaction
  import opened ApplyOrder
  import opened Placement
  import CM = CacheModel

  /** The row lengths; the last row ends at numEdges. */
  method RowLengths(g: Csr) returns (deg: seq<nat>)
    requires |g.VI| >= g.numVertex && |g.EI| == g.numEdges && forall v :: 0 <= v < g.numVertex ==> HasRow(g, v)
    ensures |deg| == g.numVertex && forall v :: 0 <= v < g.numVertex ==> HasRow(g, v) && deg[v] == Degree(g, v)
  {
    deg := [];
    var i := 0;
    while i + 1 < g.numVertex
      invariant |deg| == i <= g.numVertex && forall v :: 0 <= v < i ==> deg[v] == Degree(g, v)
      invariant i + 1 > g.numVertex ==> i == 0
    {
      assert HasRow(g, i);
      deg := deg + [g.VI[i + 1] - g.VI[i]];
      i := i + 1;
    }
    if g.numVertex > 0 {
      assert HasRow(g, g.numVertex - 1);
      deg := deg + [g.numEdges - g.VI[g.numVertex - 1]];
    }
  }

  /** A node repeats no parent. */
  ghost predicate NoRepeatedParents(g: Csr) {
    forall c, p: nat :: 0 <= c < g.numVertex ==> HasRow(g, c) && Times(g, c, p) <= 1
  }

  /** Then no parent has more children than there are nodes: a threshold of that size ignores nobody. */
  lemma AllParentsLight(q: Problem)
    requires Sensible(q) && NoRepeatedParents(q.parents)
    requires Nodes(q) <= q.thresh
    ensures forall p: nat :: p < |q.outDeg| ==> p in LightParents(q)
    ensures forall c :: 0 <= c < Nodes(q) ==> HasRow(q.parents, c) && LightDeg(q, c) == Degree(q.parents, c)
  {
    forall p: nat | p < |q.outDeg| ensures p in LightParents(q) {
      ChildrenAtMost(q, p);
    }
    forall c | 0 <= c < Nodes(q) ensures HasRow(q.parents, c) && LightDeg(q, c) == Degree(q.parents, c) {
      assert HasRow(q.parents, c);
      HotEntriesAll(q.parents.EI, q.parents.VI[c], RowEnd(q.parents, c), LightParents(q));
    }
  }

  lemma ChildrenAtMost(q: Problem, p: nat)
    requires Sensible(q) && NoRepeatedParents(q.parents) && p < q.children.numVertex && HasRow(q.children, p)
    ensures Degree(q.children, p) <= Nodes(q)
  {
    var r := Row(q.children, p);
    forall i, j | 0 <= i < j < |r| ensures r[i] != r[j] {
      if r[i] == r[j] {
        assert HasRow(q.parents, r[i]) && Times(q.children, p, r[i]) == Times(q.parents, r[i], p);
        TwiceCounts(q.children.EI, q.children.VI[p], RowEnd(q.children, p), i, j);
      }
    }
    Pigeonhole(r, Nodes(q));
  }

  lemma TwiceCounts(s: seq<nat>, lo: nat, hi: nat, i: nat, j: nat)
    requires lo <= hi <= |s| && lo + i < lo + j < hi && s[lo + i] == s[lo + j]
    ensures Occurrences(s, lo, hi, s[lo + i]) >= 2
  {
    var x := s[lo + i];
    OccurrencesSplit(s, lo, lo + i + 1, hi, x);
    OccursIff(s, lo, lo + i + 1, x);
    OccursIff(s, lo + i + 1, hi, x);
    assert Occurrences(s, lo, lo + i + 1, x) > 0 && Occurrences(s, lo + i + 1, hi, x) > 0;
  }

  lemma DownHasNoRepeats(compG: Csr, g: Csr, size: nat)
    requires g.numVertex > 0 && size > 0 && Compacts(compG, g, size)
    ensures NoRepeatedParents(compG)
  {
    forall c, p: nat | 0 <= c < compG.numVertex ensures HasRow(compG, c) && Times(compG, c, p) <= 1 {
      assert HasRow(compG, c) && StrictlyDown(Row(compG, c));
      DownOnce(compG.EI, compG.VI[c], RowEnd(compG, c), p);
    }
  }

  lemma {:induction false} DownOnce(s: seq<nat>, lo: nat, hi: nat, x: nat)
    requires lo <= hi <= |s| && StrictlyDown(s[lo..hi])
    ensures Occurrences(s, lo, hi, x) <= 1
    decreases hi - lo
  {
    if lo < hi {
      assert s[lo..hi - 1] == s[lo..hi][..hi - 1 - lo];
      DownOnce(s, lo, hi - 1, x);
      OccursIff(s, lo, hi - 1, x);
      if Occurrences(s, lo, hi - 1, x) > 0 {
        var i :| lo <= i < hi - 1 && s[i] == x;
        assert s[lo..hi][i - lo] > s[lo..hi][hi - 1 - lo];
      }
    }
  }

  /** The order of the cache model for a prepared problem. */
  method CacheOrder(q: Problem, inDeg: seq<nat>)
    returns (nodeMap: array<nat>, nodeId: array<nat>, ghost starts: seq<nat>)
    requires Sensible(q) && Nodes(q) < CM.UINT_RANGE && q.guard < CM.UINT_RANGE && q.tail < CM.UINT_RANGE
    requires q.tail <= Nodes(q)
    requires |inDeg| == Nodes(q)
    requires forall c :: 0 <= c < Nodes(q) ==> HasRow(q.parents, c) && inDeg[c] == Degree(q.parents, c)
    ensures fresh(nodeMap) && fresh(nodeId) && nodeMap != nodeId && nodeMap.Length == nodeId.Length == Nodes(q)
    ensures Inverse(nodeMap[..], nodeId[..], Nodes(q))
    ensures Greedy(q, nodeId[..Nodes(q) - q.tail], starts) && Trailing(q, nodeId[..], starts)
    ensures Nodes(q) > q.tail ==> MostParents(q, nodeId[0])
  {
    hide CM.CacheModel.Ready, ByDegree, Inverse, Greedy, Trailing, MostParents, Sensible;
    var model := new CM.CacheModel(q, inDeg);
    model.ReadyMeans([], 0, 0);
    if Nodes(q) > 0 {
      FirstHasMostParents(q, model.nodeId[..]);
    }
    starts := model.Reorder();
    nodeMap, nodeId := model.nodeMap, model.nodeId;
  }

  /** The problem the block program solves: nodes are blocks, parents are vertices, nobody is ignored. */
  function BlockProblem(compG: Csr, children: Csr, outDeg: seq<nat>, n: nat, cacheSize: nat): (q: Problem)
    ensures q.parents == compG && q.children == children && q.outDeg == outDeg && q.cacheSize == cacheSize
    ensures q.thresh > n && q.guard == 3 && q.tail == 0
  {
    Problem(compG, children, outDeg, n + 1, cacheSize, 3, 0)
  }

  /** The problem the vertex program solves: parents with more than degThresh children are ignored,
      and the last two places are filled as they come. */
  function VertexProblem(g: Csr, children: Csr, outDeg: seq<nat>, degThresh: nat, cacheSize: nat): (q: Problem)
    ensures q.parents == g && q.children == children && q.outDeg == outDeg && q.cacheSize == cacheSize
    ensures q.thresh == degThresh && q.guard == 5 && q.tail == 2
  {
    Problem(g, children, outDeg, degThresh, cacheSize, 5, 2)
  }

  /** Blocks of `size` vertices in greedy order; with `maintain`, block 0 is put first. */
  method BlockReorder(g: Csr, size: nat, cacheSize: nat, maintain: bool)
    returns (h: Csr, newMap: seq<nat>, ghost q: Problem,
             ghost order: seq<nat>, ghost starts: seq<nat>, ghost blocks: seq<nat>)
    requires Whole(g, g.numVertex) && 0 < g.numVertex < CM.UINT_RANGE && size > 0 && BlockStart(g, size, 1) > 0
    ensures Sensible(q) && Compacts(q.parents, g, size) && Greedy(q, order, starts)
    ensures q == BlockProblem(q.parents, q.children, q.outDeg, g.numVertex, cacheSize)
    ensures |order| > 0 && MostParents(q, order[0])
    ensures IsPermutation(order, NumBlocks(g.numVertex, size)) && IsPermutation(blocks, NumBlocks(g.numVertex, size))
    ensures forall c :: 0 <= c < Nodes(q) ==> HasRow(q.parents, c) && LightDeg(q, c) == Degree(q.parents, c)
    ensures if maintain then TradedFirst(order, blocks) else blocks == order
    ensures Inverse(newMap, Expanded(g.numVertex, size, blocks, |blocks|), g.numVertex)
    ensures maintain ==> blocks[0] == 0 == newMap[0]
    ensures RowsRenamed(g, h, Expanded(g.numVertex, size, blocks, |blocks|), newMap) && Relabelled(g, h, newMap)
  {
    var n := g.numVertex;
    var EI := new nat[|g.EI|](i requires 0 <= i < |g.EI| => g.EI[i]);
    assert EI[..] == g.EI;
    var compG := Compact(g, EI, size);
    OwnersOf(compG, n);
    NumBlocksAtMost(n, size);
    var children := CreateReverseCsr(compG, n);
    var inDeg := Lengths(compG, n);
    var outDeg := Lengths(children, compG.numVertex);
    var problem := BlockProblem(compG, children, outDeg, n, cacheSize);
    q := problem;
    DownHasNoRepeats(compG, g, size);
    AllParentsLight(q);
    var nodeMap, nodeId;
    nodeMap, nodeId, starts := CacheOrder(problem, inDeg);
    order := nodeId[..];
    assert nodeId[..Nodes(q) - 0] == order;
    InversePermutations(nodeMap[..], order, Nodes(q));
    if maintain {
      ZeroFirstTrades(order, nodeMap[..], Nodes(q));
      MaintainZero(nodeMap, nodeId, n);
      InversePermutations(nodeMap[..], nodeId[..], Nodes(q));
    }
    blocks := nodeId[..];
    var newNodeId, newNodeMap := Expand(n, size, nodeId[..]);
    newMap := newNodeMap[..];
    if maintain {
      SecondFixUpNeverFires(n, size, blocks, newMap);
    }
    h := Apply(g, newNodeId[..], newMap);
  }

  /** Row lengths of any graph whose rows cover its entries. */
  method Lengths(g: Csr, targets: nat) returns (deg: seq<nat>)
    requires Whole(g, targets)
    ensures |deg| == g.numVertex && forall v :: 0 <= v < g.numVertex ==> HasRow(g, v) && deg[v] == Degree(g, v)
  {
    OwnersOf(g, targets);
    deg := RowLengths(g);
  }

  lemma {:induction false} BaseAtLeast(size: nat, b: nat)
    requires size > 0
    ensures b <= Base(size, b)
  {
    if b > 0 {
      BaseAtLeast(size, b - 1);
      BaseMonotone(size, b - 1, b);
    }
  }

  lemma NumBlocksAtMost(n: nat, size: nat)
    requires n > 0 && size > 0
    ensures NumBlocks(n, size) <= n
  {
    BlockOfBounds(size, n - 1);
    BaseAtLeast(size, BlockOf(size, n - 1));
    hide BlockOf, Base;
  }

  /** Vertices in greedy order; with `maintain`, vertex 0 is put first. */
  method VertexReorder(g: Csr, degThresh: nat, cacheSize: nat, maintain: bool)
    returns (h: Csr, newMap: seq<nat>, ghost q: Problem,
             ghost order: seq<nat>, ghost starts: seq<nat>, ghost final: seq<nat>)
    requires Whole(g, g.numVertex) && 2 <= g.numVertex < CM.UINT_RANGE
    ensures Sensible(q) && q == VertexProblem(g, q.children, q.outDeg, degThresh, cacheSize)
    ensures |order| == g.numVertex && Greedy(q, order[..g.numVertex - 2], starts) && Trailing(q, order, starts)
    ensures g.numVertex > 2 ==> MostParents(q, order[0])
    ensures IsPermutation(order, g.numVertex) && IsPermutation(newMap, g.numVertex)
    ensures if maintain then TradedFirst(order, final) else final == order
    ensures Inverse(newMap, final, g.numVertex) && RowsRenamed(g, h, final, newMap)
    ensures maintain ==> newMap[0] == 0
    ensures Relabelled(g, h, newMap)
  {
    var n := g.numVertex;
    var children := CreateReverseCsr(g, n);
    var inDeg := Lengths(g, n);
    var outDeg := Lengths(children, n);
    var problem := VertexProblem(g, children, outDeg, degThresh, cacheSize);
    q := problem;
    var nodeMap, nodeId;
    nodeMap, nodeId, starts := CacheOrder(problem, inDeg);
    order := nodeId[..];
    assert order[..n - 2] == nodeId[..n - 2];
    InversePermutations(nodeMap[..], order, n);
    if maintain {
      ZeroFirstTrades(order, nodeMap[..], n);
      MaintainZero(nodeMap, nodeId, n);
      InversePermutations(nodeMap[..], nodeId[..], n);
    }
    newMap, final := nodeMap[..], nodeId[..];
    h := Apply(g, nodeId[..], newMap);
  }
}
