/** The lazily updated cache model of the block and pH reorderings. */
module CacheModel {
  import opened Permutations
  import opened Csr
  import opened CacheSpec
  import Placement

  const UINT_RANGE: nat := 0x1_0000_0000

  /** Unsigned subtraction as the loop guard performs it: it wraps below zero. */
  function UnsignedMinus(a: nat, b: nat): nat
    requires a < UINT_RANGE && b < UINT_RANGE
  {
    if a >= b then a - b else UINT_RANGE + a - b
  }

  /** Lowering one node of cost k: it moves to the front of its bucket, which shrinks by one. */
  lemma LowerKeepsRanked(cost: seq<nat>, CI: seq<nat>, start: nat, at: nat)
    requires Ranked(cost, CI, start) && start <= at < |cost| && cost[at] > 0
    ensures
      var k := cost[at];
      var front := Max(CI[k], start);
      && 0 < k < |CI| && CI[k] <= |cost| && start <= front <= at && cost[front] == k
      && (forall i :: start <= i < front ==> cost[i] < k)
      && Ranked(cost[front := k - 1], CI[k - 1 := Max(CI[k - 1], start)][k := front + 1], start)
  {
    var k := cost[at];
    RankedFirst(cost, CI, start, k);
  }

  /** Raising the first node of the suffix: it moves to the end of its bucket. */
  lemma RaiseKeepsRanked(cost: seq<nat>, CI: seq<nat>, start: nat)
    requires Ranked(cost, CI, start) && start < |cost| && cost[start] + 1 < |CI|
    ensures
      var k := cost[start];
      && start < CI[k + 1] <= |cost| && k < |CI|
      && cost[CI[k + 1] - 1] == k && (forall i :: CI[k + 1] <= i < |cost| ==> cost[i] > k)
      && Ranked(cost[CI[k + 1] - 1 := k + 1], CI[k + 1 := CI[k + 1] - 1], start)
  {
    var k := cost[start];
    RankedFirst(cost, CI, start, k + 1);
    assert CI[k + 1] > start;
    assert cost[CI[k + 1] - 1] >= cost[start];
  }

  /** Exchanging two equally expensive nodes of the suffix and repricing position i changes the
      cost of the moved node only, and nobody enters or leaves the suffix. */
  lemma ExchangeKeepsCosts(cost: seq<nat>, f: seq<nat>, g: seq<nat>, start: nat, x: nat, i: nat, v: nat)
    requires Inverse(f, g, |cost|) && x < |cost| && i < |cost|
    requires start <= i && start <= f[x] && cost[i] == cost[f[x]]
    ensures
      var f', g' := f[x := i][g[i] := f[x]], g[i := x][f[x] := g[i]];
      && Inverse(f', g', |cost|)
      && f'[x] == i && g[f[x]] == x
      && (forall c :: 0 <= c < |cost| ==> f'[c] < |cost| && f[c] < |cost|)
      && (forall c :: 0 <= c < |cost| && c != x ==> cost[i := v][f'[c]] == cost[f[c]])
      && (forall c :: 0 <= c < |cost| ==> (f'[c] < start <==> f[c] < start))
      && g'[..start] == g[..start]
  {
    SwapKeepsInverse(f, g, |cost|, x, i);
  }

  /** The nodes at two positions of the same cost have traded places, and the cost at the second one has
      changed by `step`; nothing else has. */
  ghost predicate Traded(cost: seq<nat>, nodes: seq<nat>, cost': seq<nat>, nodes': seq<nat>, from: nat, to: nat,
                         step: int) {
    && from < |cost| == |nodes| && to < |cost| && cost[from] == cost[to] && cost[to] + step >= 0
    && cost' == cost[to := cost[to] + step]
    && nodes' == nodes[to := nodes[from]][from := nodes[to]]
  }

  /** The lower of the two, everywhere. */
  function Lowered(floor: seq<nat>, price: seq<int>): (r: seq<nat>)
    requires |floor| == |price| && forall c :: 0 <= c < |price| ==> price[c] >= 0
    ensures |r| == |floor|
    ensures forall c :: 0 <= c < |r| ==> r[c] <= floor[c] && r[c] <= price[c] && (r[c] == floor[c] || r[c] == price[c])
  {
    seq(|floor|, c requires 0 <= c < |floor| => if price[c] < floor[c] then price[c] else floor[c])
  }

  class CacheModel {
    const q: Problem
    const maxCost: nat
    const inDeg: seq<nat>
    ghost var floor: seq<nat>  // no cost has been lowered past the price its node had after some load
    ghost var discounts: seq<nat>  // whose price has fallen so far, in order
    const cost: array<nat>
    const CI: array<nat>
    const nodeMap: array<nat>
    const nodeId: array<nat>
    const updates: array<nat>
    const cachePresence: array<nat>
    const isPlaced: array<bool>

    /** Everything is uncached, unplaced and equally expensive; the nodes stand by descending
        number of light parents, equal ones by node number. */
    constructor (q: Problem, inDeg: seq<nat>)
      requires Sensible(q) && Nodes(q) < UINT_RANGE && q.guard < UINT_RANGE && q.tail < UINT_RANGE
      requires |inDeg| == Nodes(q) && forall c :: 0 <= c < Nodes(q) ==> inDeg[c] == Degree(q.parents, c)
      ensures this.q == q && Ready([], 0, 0) && Floored([], []) && Placement.ByDegree(q, nodeId[..])
      ensures discounts == [] && forall c :: 0 <= c < Nodes(q) ==> updates[c] == 0
      ensures fresh(cost) && fresh(CI) && fresh(nodeMap) && fresh(nodeId)
      ensures fresh(updates) && fresh(cachePresence) && fresh(isPlaced)
    {
      var maxCost, cost, CI, nodeId, nodeMap := Placement.Prepare(q);
      this.q, this.inDeg, this.maxCost := q, inDeg, maxCost;
      this.floor := seq(Nodes(q), _ => maxCost);
      this.discounts := [];
      this.cost, this.CI, this.nodeMap, this.nodeId := cost, CI, nodeMap, nodeId;
      this.updates := new nat[Nodes(q)](_ => 0);
      this.cachePresence := new nat[q.children.numVertex](_ => 0);
      this.isPlaced := new bool[Nodes(q)](_ => false);
      new;
      StartsReady();
    }

    lemma StartsReady()
      requires Shape() && Tables()
      requires Inverse(nodeMap[..], nodeId[..], Nodes(q)) && Ranked(cost[..], CI[..], 0)
      requires forall c :: 0 <= c < Nodes(q) ==> cost[c] == maxCost && updates[c] == 0 && !isPlaced[c]
      requires |floor| == Nodes(q) && forall c :: 0 <= c < Nodes(q) ==> floor[c] == maxCost
      requires forall p :: 0 <= p < cachePresence.Length ==> cachePresence[p] == 0
      ensures Ready([], 0, 0) && Floored([], [])
    {
      assert Hot() == {};
      CountsWindowIff(q, cachePresence[..], cachePresence.Length, [], 0, 0);
      forall c | 0 <= c < Nodes(q)
        ensures NodeCost(c) == maxCost && Prices(q, maxCost, {})[c] == maxCost
      {
        HotEntriesNone(q.parents.EI, q.parents.VI[c], RowEnd(q.parents, c));
      }
    }

    /** What the tables that are never written hold. */
    ghost predicate Tables() {
      && Sensible(q)
      && |inDeg| == Nodes(q) && (forall c :: 0 <= c < Nodes(q) ==> inDeg[c] == Degree(q.parents, c))
      && forall c :: 0 <= c < Nodes(q) ==> LightDeg(q, c) <= maxCost
    }

    /** Sizes, and no array stands for two things. */
    ghost predicate Shape() {
      && WellFormed(q.children, Nodes(q))
      && Nodes(q) < UINT_RANGE && q.guard < UINT_RANGE && q.tail < UINT_RANGE
      && cost.Length == nodeMap.Length == nodeId.Length == isPlaced.Length == updates.Length == Nodes(q)
      && CI.Length == maxCost + 1
      && cachePresence.Length == q.children.numVertex
      && cost != CI && cost != nodeMap && cost != nodeId && cost != updates && cost != cachePresence
      && CI != nodeMap && CI != nodeId && CI != updates && CI != cachePresence
      && nodeMap != nodeId && nodeMap != updates && nodeMap != cachePresence
      && nodeId != updates && nodeId != cachePresence
      && updates != cachePresence
    }

    /** nodeMap and nodeId are inverse, exactly the positions before `start` are placed, and the
        positions from `start` on are ranked by cost. */
    ghost predicate Valid(start: nat)
      reads cost, CI, nodeMap, nodeId, isPlaced
    {
      && Shape()
      && start <= Nodes(q)
      && Inverse(nodeMap[..], nodeId[..], Nodes(q))
      && (forall c :: 0 <= c < Nodes(q) ==> (isPlaced[c] <==> nodeMap[c] < start))
      && Ranked(cost[..], CI[..], start)
    }

    lemma ValidMeans(start: nat)
      requires Valid(start)
      ensures Shape() && nodeId.Length == nodeMap.Length == isPlaced.Length == updates.Length == Nodes(q)
      ensures start <= Nodes(q) && forall k :: 0 <= k < Nodes(q) ==> nodeId[k] < Nodes(q)
    {
    }

    ghost function NodeCost(c: nat): nat
      requires Shape() && c < Nodes(q)
      reads cost, nodeMap
    {
      if nodeMap[c] < cost.Length then cost[nodeMap[c]] else 0
    }

    /** The parents that are in the cache; none of them is heavy. */
    ghost function Hot(): set<nat>
      reads cachePresence
    {
      HotOf(cachePresence[..])
    }

    /** Cost plus queued increases of every unplaced node is its price, and no cost is below its floor. */
    ghost predicate Owed(price: seq<int>)
      requires Shape()
      reads `floor, cost, nodeMap, updates, isPlaced
    {
      && |price| == |floor| == Nodes(q)
      && (forall c: nat :: c < Nodes(q) && !isPlaced[c] ==>
            NodeCost(c) + updates[c] == price[c] && NodeCost(c) >= floor[c])
    }

    /** Nodes `id` and the one at position `at` trade places. */
    method Exchange(id: nat, at: nat)
      requires Shape() && Inverse(nodeMap[..], nodeId[..], Nodes(q))
      requires id < Nodes(q) && at < Nodes(q)
      modifies nodeMap, nodeId
      ensures nodeMap[..] == old(nodeMap[..][id := at][nodeId[at] := nodeMap[id]])
      ensures nodeId[..] == old(nodeId[..][at := id][nodeMap[id] := nodeId[at]])
    {
      var temp := nodeMap[id];
      var replacedNode := nodeId[at];
      nodeMap[id] := at;
      nodeMap[replacedNode] := temp;
      nodeId[at] := id;
      nodeId[temp] := replacedNode;
    }

    method MoveRight(id: nat, minPtr: nat)
      requires Valid(minPtr) && minPtr < Nodes(q)
      requires id < Nodes(q) && nodeMap[id] == minPtr && NodeCost(id) < maxCost
      modifies cost, CI, nodeMap, nodeId
      ensures Valid(minPtr)
      ensures NodeCost(id) == old(NodeCost(id)) + 1
      ensures forall c :: 0 <= c < Nodes(q) && c != id && !isPlaced[c] ==> NodeCost(c) == old(NodeCost(c))
      ensures nodeId[..minPtr] == old(nodeId[..minPtr])
      ensures Traded(old(cost[..]), old(nodeId[..]), cost[..], nodeId[..], minPtr, nodeMap[id], 1)
      ensures forall i :: nodeMap[id] < i < Nodes(q) ==> old(cost[i]) > old(NodeCost(id))
    {
      hide Ranked, Inverse;
      ghost var cost0, CI0, map0, id0 := cost[..], CI[..], nodeMap[..], nodeId[..];
      RaiseKeepsRanked(cost0, CI0, minPtr);
      var nodeCost := cost[nodeMap[id]];
      var last := CI[nodeCost + 1] - 1;
      ExchangeKeepsCosts(cost0, map0, id0, minPtr, id, last, nodeCost + 1);
      Exchange(id, last);
      cost[last] := cost[last] + 1;
      CI[nodeCost + 1] := last;
      assert cost[..] == cost0[last := nodeCost + 1];
      assert CI[..] == CI0[nodeCost + 1 := last];
    }

    /** A bucket cannot begin among the placed positions. */
    method LiftBucket(v: nat, minPtr: nat)
      requires Shape() && v < CI.Length
      modifies CI
      ensures CI[..] == old(CI[..][v := Max(CI[v], minPtr + 1)])
    {
      if CI[v] <= minPtr {
        CI[v] := minPtr + 1;
      }
    }

    method MoveLeft(id: nat, minPtr: nat)
      requires Valid(minPtr + 1)
      requires id < Nodes(q) && !isPlaced[id] && NodeCost(id) > 0
      modifies cost, CI, nodeMap, nodeId
      ensures Valid(minPtr + 1)
      ensures NodeCost(id) == old(NodeCost(id)) - 1
      ensures forall c :: 0 <= c < Nodes(q) && c != id && !isPlaced[c] ==> NodeCost(c) == old(NodeCost(c))
      ensures nodeId[..minPtr + 1] == old(nodeId[..minPtr + 1])
      ensures Traded(old(cost[..]), old(nodeId[..]), cost[..], nodeId[..], old(nodeMap[id]), nodeMap[id], -1)
      ensures forall i :: minPtr < i < nodeMap[id] ==> old(cost[i]) < old(NodeCost(id))
    {
      hide Ranked, Inverse;
      ghost var cost0, CI0, map0, id0 := cost[..], CI[..], nodeMap[..], nodeId[..];
      LowerKeepsRanked(cost0, CI0, minPtr + 1, nodeMap[id]);
      var nodeCost := cost[nodeMap[id]];
      LiftBucket(nodeCost, minPtr);
      var first := CI[nodeCost];
      ExchangeKeepsCosts(cost0, map0, id0, minPtr + 1, id, first, nodeCost - 1);
      Exchange(id, first);
      cost[first] := cost[first] - 1;
      LiftBucket(nodeCost - 1, minPtr);
      CI[nodeCost] := first + 1;
      assert cost[..] == cost0[first := nodeCost - 1];
      assert CI[..] == CI0[nodeCost - 1 := Max(CI0[nodeCost - 1], minPtr + 1)][nodeCost := first + 1];
    }

    /** A child costs one less: an increase queued for it is dropped, or else it moves left. */
    method DiscountChild(childId: nat, minPtr: nat, ghost price: seq<int>)
      requires Valid(minPtr + 1) && Owed(price) && childId < Nodes(q)
      requires price[childId] > floor[childId]
      modifies `discounts, cost, CI, nodeMap, nodeId, updates
      ensures Valid(minPtr + 1) && Owed(price[childId := price[childId] - 1])
      ensures discounts == old(discounts) + [childId]
      ensures nodeId[..minPtr + 1] == old(nodeId[..minPtr + 1])
    {
      discounts := discounts + [childId];
      if !isPlaced[childId] {
        if updates[childId] > 0 {
          updates[childId] := updates[childId] - 1;
        } else {
          MoveLeft(childId, minPtr);
        }
      }
    }

    /** The children of a parent that has just entered the cache become one cheaper. */
    method DiscountChildren(parentId: nat, minPtr: nat, ghost price: seq<int>, ghost price': seq<int>)
      requires Valid(minPtr + 1) && Owed(price) && parentId < q.children.numVertex
      requires |price| == |price'| == |floor| == Nodes(q)
      requires forall c :: 0 <= c < Nodes(q) ==>
                 price'[c] == price[c] - Times(q.children, parentId, c) && price'[c] >= floor[c]
      modifies `discounts, cost, CI, nodeMap, nodeId, updates
      ensures Valid(minPtr + 1) && Owed(price')
      ensures HasRow(q.children, parentId) && discounts == old(discounts) + Row(q.children, parentId)
      ensures nodeId[..minPtr + 1] == old(nodeId[..minPtr + 1])
    {
      hide Valid, Owed;
      ValidMeans(minPtr + 1);
      var childIdStart := q.children.VI[parentId];
      var childIdEnd := RowEnd(q.children, parentId);
      SliceNone(q.children.EI, childIdStart);
      ghost var now := price;
      for j := childIdStart to childIdEnd
        invariant |now| == Nodes(q)
        invariant forall c :: 0 <= c < Nodes(q) ==> now[c] == price[c] - Occurrences(q.children.EI, childIdStart, j, c)
        invariant Valid(minPtr + 1) && Owed(now)
        invariant discounts == old(discounts) + q.children.EI[childIdStart..j]
        invariant nodeId[..minPtr + 1] == old(nodeId[..minPtr + 1])
      {
        var childId := q.children.EI[j];
        assert now[childId] > floor[childId] by {
          OccurrencesSplit(q.children.EI, childIdStart, j + 1, childIdEnd, childId);
        }
        SliceMore(q.children.EI, childIdStart, j);
        ghost var before := discounts;
        DiscountChild(childId, minPtr, now);
        assert discounts == before + [childId];
        now := now[childId := now[childId] - 1];
      }
      assert now == price';
    }

    /** The children of a parent that has just left the cache are queued for a price increase. */
    method QueueChildren(parentId: nat, ghost price: seq<int>, ghost price': seq<int>)
      requires Shape() && Owed(price) && parentId < q.children.numVertex
      requires |price| == |price'| == Nodes(q)
      requires forall c :: 0 <= c < Nodes(q) ==> price'[c] == price[c] + Times(q.children, parentId, c)
      modifies updates
      ensures Owed(price')
    {
      var childIdStart := q.children.VI[parentId];
      var childIdEnd := RowEnd(q.children, parentId);
      ghost var now := price;
      for j := childIdStart to childIdEnd
        invariant |now| == Nodes(q)
        invariant forall c :: 0 <= c < Nodes(q) ==> now[c] == price[c] + Occurrences(q.children.EI, childIdStart, j, c)
        invariant Owed(now)
      {
        var childId := q.children.EI[j];
        if !isPlaced[childId] {
          updates[childId] := updates[childId] + 1;
        }
        now := now[childId := now[childId] + 1];
      }
      assert now == price';
    }

    /** Costs, queued increases and presence counters agree with the graph. */
    ghost predicate Settled()
      requires Shape()
      reads `floor, cost, nodeMap, updates, isPlaced, cachePresence
    {
      Tables() && Hot() <= LightParents(q) && Owed(Prices(q, maxCost, Hot()))
    }

    /** No floor is above the price that caching all of `most` leaves. */
    ghost predicate Lowest(most: set<nat>)
      reads `floor
    {
      && Tables() && |floor| == Nodes(q)
      && forall c :: 0 <= c < Nodes(q) ==> floor[c] <= Prices(q, maxCost, most)[c]
    }

    method LoadParent(parentId: nat, minPtr: nat, ghost most: set<nat>) returns (loaded: nat)
      requires Valid(minPtr + 1) && Settled() && Lowest(most) && Hot() <= most && parentId in most
      requires parentId < q.children.numVertex && Light(q, parentId)
      modifies `discounts, cost, CI, nodeMap, nodeId, updates, cachePresence
      ensures Valid(minPtr + 1) && Settled()
      ensures HasRow(q.children, parentId)
           && discounts == old(discounts) + if old(cachePresence[parentId]) == 0 then Row(q.children, parentId) else []
      ensures nodeId[..minPtr + 1] == old(nodeId[..minPtr + 1])
      ensures cachePresence[..] == old(cachePresence[..][parentId := cachePresence[parentId] + 1])
      ensures |Hot()| == |old(Hot())| + loaded && Hot() <= most
    {
      hide Valid, Owed, Tables, Prices, HotOf, LightParents;
      ValidMeans(minPtr + 1);
      ghost var presence := cachePresence[..];
      ghost var hot := Hot();
      SettledMeans();
      cachePresence[parentId] := cachePresence[parentId] + 1;
      assert Hot() == hot + {parentId} && (parentId in hot <==> presence[parentId] > 0) by {
        HotOfUpdate(presence, parentId, presence[parentId] + 1);
        assert cachePresence[..] == presence[parentId := presence[parentId] + 1];
      }
      loaded := 0;
      if cachePresence[parentId] == 1 {
        LoadedPrices(hot, parentId, most);
        DiscountChildren(parentId, minPtr, Prices(q, maxCost, hot), Prices(q, maxCost, hot + {parentId}));
        loaded := loaded + 1;
      } else {
        assert hot + {parentId} == hot;
      }
    }

    lemma SettledMeans()
      requires Shape() && Settled()
      ensures Sensible(q) && |q.outDeg| == q.children.numVertex == cachePresence.Length
      ensures WellFormed(q.parents, q.children.numVertex) && WellFormed(q.children, Nodes(q))
      ensures forall p: nat :: p < |q.outDeg| && Light(q, p) ==> p in LightParents(q)
    {
    }

    lemma HotMeans()
      ensures forall p :: 0 <= p < cachePresence.Length ==> (p in Hot() <==> cachePresence[p] > 0)
    {
    }

    /** Caching one more parent lowers the prices of its children, and none below its floor. */
    lemma LoadedPrices(hot: set<nat>, parentId: nat, most: set<nat>)
      requires Shape() && Lowest(most) && hot <= most && parentId in most && parentId < q.children.numVertex
      requires parentId !in hot
      ensures Sensible(q) && HasRow(q.children, parentId)
      ensures forall c :: 0 <= c < Nodes(q) ==>
                Prices(q, maxCost, hot + {parentId})[c]
                  == Prices(q, maxCost, hot)[c] - Times(q.children, parentId, c)
                && Prices(q, maxCost, hot + {parentId})[c] >= floor[c]
    {
      PricesWithOneMore(q, maxCost, hot, parentId);
      PricesWithMore(q, maxCost, hot + {parentId}, most);
    }

    method EvictParent(parentId: nat) returns (evicted: nat)
      requires Shape() && Settled()
      requires parentId < q.children.numVertex && cachePresence[parentId] > 0
      modifies updates, cachePresence
      ensures Settled()
      ensures cachePresence[..] == old(cachePresence[..][parentId := cachePresence[parentId] - 1])
      ensures |Hot()| + evicted == |old(Hot())|
    {
      hide Owed, HotOf, LightParents, HotEntries;
      ghost var presence := cachePresence[..];
      ghost var hot := Hot();
      cachePresence[parentId] := cachePresence[parentId] - 1;
      assert Hot() == (if cachePresence[parentId] == 0 then hot - {parentId} else hot + {parentId})
          && parentId in hot by {
        HotOfUpdate(presence, parentId, presence[parentId] - 1);
        assert cachePresence[..] == presence[parentId := presence[parentId] - 1];
      }
      evicted := 0;
      if cachePresence[parentId] == 0 {
        ghost var rest := hot - {parentId};
        assert rest + {parentId} == hot;
        ghost var price, price' := Prices(q, maxCost, hot), Prices(q, maxCost, rest);
        assert forall c :: 0 <= c < Nodes(q) ==> price'[c] == price[c] + Times(q.children, parentId, c) by {
          PricesWithOneMore(q, maxCost, rest, parentId);
        }
        QueueChildren(parentId, price, price');
        evicted := evicted + 1;
      } else {
        assert hot + {parentId} == hot;
      }
    }

    /** How much loading the parents of c adds to the counter of p. */
    ghost function Share(c: nat, p: nat): nat
      requires HasRow(q.parents, c) && p < |q.outDeg|
    {
      if Light(q, p) then Times(q.parents, c, p) else 0
    }

    /** Puts the parents of the node at `nodePtr`, the position being filled, into the cache. */
    method LoadParents(nodePtr: nat, minPtr: nat, ghost most: set<nat>) returns (numParentsLoaded: nat)
      requires nodePtr == minPtr < Nodes(q)
      requires Valid(minPtr + 1) && Settled() && Lowest(most) && Hot() <= most
      requires forall p :: 0 <= p < cachePresence.Length && Share(nodeId[minPtr], p) > 0 ==> p in most
      modifies `discounts, cost, CI, nodeMap, nodeId, updates, cachePresence
      ensures Valid(minPtr + 1) && Settled()
      ensures Sensible(q) && HasRow(q.parents, old(nodeId[minPtr]))
           && discounts == old(discounts)
                + Discounted(q, old(nodeId[minPtr]), old(Hot()), RowEnd(q.parents, old(nodeId[minPtr])))
      ensures nodeId[..minPtr + 1] == old(nodeId[..minPtr + 1])
      ensures forall p :: 0 <= p < cachePresence.Length ==>
                cachePresence[p] == old(cachePresence[p]) + Share(old(nodeId[minPtr]), p)
      ensures |Hot()| == |old(Hot())| + numParentsLoaded
    {
      hide Valid, Settled, HotOf, Lowest, Discounted, Row, Sensible;
      ValidMeans(minPtr + 1);
      SettledMeans();
      HotMeans();
      numParentsLoaded := 0;
      var origId := nodeId[nodePtr];
      DiscountedNone(q, origId, Hot());
      var parentIdStart := q.parents.VI[origId];
      var parentIdEnd := RowEnd(q.parents, origId);
      for i := parentIdStart to parentIdEnd
        invariant Valid(minPtr + 1) && Settled()
        invariant discounts == old(discounts) + Discounted(q, origId, old(Hot()), i)
        invariant nodeId[..minPtr + 1] == old(nodeId[..minPtr + 1])
        invariant forall p {:trigger cachePresence[p]} :: 0 <= p < cachePresence.Length ==>
                    cachePresence[p] == old(cachePresence[p])
                      + (if Light(q, p) then Occurrences(q.parents.EI, parentIdStart, i, p) else 0)
        invariant |Hot()| == |old(Hot())| + numParentsLoaded && Hot() <= most
      {
        var parentId := q.parents.EI[i];
        DiscountedNext(q, origId, old(Hot()), i, cachePresence[parentId] > 0);
        if q.outDeg[parentId] > q.thresh {
          continue;
        }
        assert Share(origId, parentId) > 0 by {
          OccursIff(q.parents.EI, parentIdStart, parentIdEnd, parentId);
        }
        var loaded := LoadParent(parentId, minPtr, most);
        numParentsLoaded := numParentsLoaded + loaded;
      }
    }

    /** Takes the parents of the placed node at position `node` out of the cache again. */
    method EvictParents(node: nat) returns (numParentsEvicted: nat)
      requires Shape() && Settled() && node < Nodes(q) && nodeId[node] < Nodes(q)
      requires forall p :: 0 <= p < cachePresence.Length ==> Share(nodeId[node], p) <= cachePresence[p]
      modifies updates, cachePresence
      ensures Settled()
      ensures forall p :: 0 <= p < cachePresence.Length ==>
                cachePresence[p] + Share(nodeId[node], p) == old(cachePresence[p])
      ensures |Hot()| + numParentsEvicted == |old(Hot())|
    {
      hide Settled, HotOf;
      SettledMeans();
      numParentsEvicted := 0;
      var origId := nodeId[node];
      var parentStartId := q.parents.VI[origId];
      var parentEndId := RowEnd(q.parents, origId);
      for i := parentStartId to parentEndId
        invariant Settled()
        invariant forall p {:trigger cachePresence[p]} :: 0 <= p < cachePresence.Length ==>
                    cachePresence[p] + (if Light(q, p) then Occurrences(q.parents.EI, parentStartId, i, p) else 0)
                      == old(cachePresence[p])
        invariant |Hot()| + numParentsEvicted == |old(Hot())|
      {
        var parentId := q.parents.EI[i];
        if q.outDeg[parentId] > q.thresh {
          continue;
        }
        assert cachePresence[parentId] > 0 by {
          OccurrencesSplit(q.parents.EI, parentStartId, i + 1, parentEndId, parentId);
        }
        var evicted := EvictParent(parentId);
        numParentsEvicted := numParentsEvicted + evicted;
      }
    }

    /** The counters record exactly the loads of the window placed[start..], and winCost
        counts the parents it holds. */
    ghost predicate Windowed(placed: seq<nat>, start: nat, winCost: nat)
      requires Shape()
      reads nodeId, cachePresence
    {
      && start <= |placed| <= Nodes(q)
      && nodeId[..|placed|] == placed
      && AreNodes(q, placed)
      && cachePresence.Length == |q.outDeg|
      && CountsWindow(q, cachePresence[..], cachePresence.Length, placed, start, |placed|)
      && winCost == |Hot()|
    }

    /** The state between two steps of the placement loop. */
    ghost predicate Ready(placed: seq<nat>, start: nat, winCost: nat)
      reads `floor, cost, CI, nodeMap, nodeId, updates, cachePresence, isPlaced
    {
      Valid(|placed|) && Settled() && Windowed(placed, start, winCost)
    }

    /** The node at the front has no queued increases. */
    ghost predicate Front(minPtr: nat, origId: nat)
      requires Shape()
      reads nodeId, updates
    {
      minPtr < Nodes(q) && origId == nodeId[minPtr] && origId < Nodes(q) && updates[origId] == 0
    }

    /** The number of increases still queued. */
    ghost function Queued(): nat
      reads updates
    {
      SumNonNegative(updates[..]);
      Sum(updates[..])
    }

    /** Applies the increases queued for whichever node is first, until a node without any is. */
    method Settle(minPtr: nat, ghost placed: seq<nat>, ghost start: nat, ghost winCost: nat)
      returns (origId: nat)
      requires minPtr == |placed| < Nodes(q) && Ready(placed, start, winCost)
      modifies cost, CI, nodeMap, nodeId, updates
      ensures Ready(placed, start, winCost)
      ensures Front(minPtr, origId)
      ensures cost[minPtr] + Cached(q.parents, origId, Hot()) == maxCost
      ensures old(updates[nodeId[minPtr]]) == 0 ==> nodeId[minPtr] == old(nodeId[minPtr])
    {
      hide Ranked, Tables, HotOf, Sum;
      SettledMeans();
      origId := nodeId[minPtr];
      ghost var price := Prices(q, maxCost, Hot());
      while updates[origId] > 0
        invariant Valid(minPtr) && Owed(price)
        invariant nodeId[..minPtr] == old(nodeId[..minPtr])
        invariant origId == nodeId[minPtr] < Nodes(q)
        invariant old(updates[nodeId[minPtr]]) == 0 ==> nodeId[minPtr] == old(nodeId[minPtr]) && updates[origId] == 0
        decreases Queued()
      {
        SettleStep(origId, minPtr, price);
        origId := nodeId[minPtr];
      }
      assert NodeCost(origId) == cost[minPtr];
    }

    method SettleStep(origId: nat, minPtr: nat, ghost price: seq<int>)
      requires minPtr < Nodes(q) && Valid(minPtr) && Owed(price)
      requires origId == nodeId[minPtr] && updates[origId] > 0 && price[origId] <= maxCost
      modifies cost, CI, nodeMap, nodeId, updates
      ensures Valid(minPtr) && Owed(price)
      ensures nodeId[..minPtr] == old(nodeId[..minPtr])
      ensures Queued() == old(Queued()) - 1
    {
      hide Ranked, Sum;
      ghost var queued := updates[..];
      updates[origId] := updates[origId] - 1;
      assert Queued() == old(Queued()) - 1 by {
        SumOfUpdate(queued, origId, queued[origId] - 1);
        assert updates[..] == queued[origId := queued[origId] - 1];
      }
      MoveRight(origId, minPtr);
    }

    /** A settled first node has the most cached parents of all unplaced nodes. */
    lemma FirstIsBest(minPtr: nat)
      requires minPtr < Nodes(q) && Valid(minPtr) && Settled() && updates[nodeId[minPtr]] == 0
      ensures Best(q, Hot(), nodeId[..minPtr], minPtr, nodeId[minPtr])
    {
      var first := nodeId[minPtr];
      assert nodeMap[first] == minPtr && NodeCost(first) == cost[minPtr];
      RankedFirst(cost[..], CI[..], minPtr, 0);
      assert nodeId[..minPtr][..minPtr] == nodeId[..minPtr];
      assert forall i :: 0 <= i < minPtr ==> nodeId[..minPtr][i] == nodeId[i];
      forall c: nat | HasRow(q.parents, c) && c !in nodeId[..minPtr][..minPtr]
        ensures Cached(q.parents, c, Hot()) <= Cached(q.parents, first, Hot())
      {
        assert nodeId[nodeMap[c]] == c;
        assert NodeCost(c) >= cost[minPtr];
      }
    }

    /** Drops the oldest node of the window. */
    method EvictOldest(minPtr: nat, ghost placed: seq<nat>, currWinStartId: nat, currWinCost: nat)
      returns (winCost: nat)
      requires minPtr == |placed| && Shape() && Settled()
      requires Windowed(placed, currWinStartId, currWinCost) && currWinStartId < minPtr
      modifies updates, cachePresence
      ensures Settled() && Windowed(placed, currWinStartId + 1, winCost)
      ensures currWinStartId + 1 == minPtr ==> winCost == 0
    {
      var oldest := nodeId[currWinStartId];
      assert placed[currWinStartId] == oldest;
      CountsWindowIff(q, cachePresence[..], cachePresence.Length, placed, currWinStartId, minPtr);
      forall p | 0 <= p < cachePresence.Length
        ensures WindowLoad(q, placed, currWinStartId, minPtr, p)
             == (if Fits(q, oldest) then Share(oldest, p) else 0) + WindowLoad(q, placed, currWinStartId + 1, minPtr, p)
      {
        LoadsFront(q, placed, currWinStartId, minPtr, p);
      }
      winCost := currWinCost;
      if inDeg[oldest] <= q.cacheSize {
        var evicted := EvictParents(currWinStartId);
        winCost := winCost - evicted;
      }
      CountsWindowIff(q, cachePresence[..], cachePresence.Length, placed, currWinStartId + 1, minPtr);
      assert currWinStartId + 1 == minPtr ==> Hot() == {} by {
        HotOfWindow(q, cachePresence[..], placed, currWinStartId + 1, minPtr);
      }
    }

    /** Drops the oldest node, settles, and reprices the node that is first now. */
    method EvictStep(minPtr: nat, ghost placed: seq<nat>, currWinStartId: nat, currWinCost: nat)
      returns (origId: nat, nodeCost: nat, winCost: nat)
      requires minPtr == |placed| < Nodes(q) && Ready(placed, currWinStartId, currWinCost) && currWinStartId < minPtr
      modifies cost, CI, nodeMap, nodeId, updates, cachePresence
      ensures Ready(placed, currWinStartId + 1, winCost)
      ensures Front(minPtr, origId)
      ensures HasRow(q.parents, origId) && nodeCost == Missing(origId)
      ensures currWinStartId + 1 == minPtr ==> winCost == 0
    {
      winCost := EvictOldest(minPtr, placed, currWinStartId, currWinCost);
      origId := Settle(minPtr, placed, currWinStartId + 1, winCost);
      nodeCost := inDeg[origId] - (maxCost - cost[minPtr]);
    }

    lemma ReadyDegrees(placed: seq<nat>, start: nat, winCost: nat)
      requires Ready(placed, start, winCost)
      ensures |inDeg| == Nodes(q)
      ensures forall c :: 0 <= c < Nodes(q) ==> HasRow(q.parents, c) && inDeg[c] == Degree(q.parents, c)
    {
    }

    /** The unplaced nodes stand by cost: none has more cached parents than one further ahead once had. */
    lemma StandsByCost(placed: seq<nat>, starts: seq<nat>, start: nat, winCost: nat, i: nat, j: nat)
      requires Ready(placed, start, winCost) && Floored(placed, starts) && |placed| <= i <= j < Nodes(q)
      ensures nodeId[i] < Nodes(q) && nodeId[j] < Nodes(q)
      ensures HasRow(q.parents, nodeId[i]) && HasRow(q.parents, nodeId[j])
      ensures Cached(q.parents, nodeId[j], HotSet(q, placed, start, |placed|))
           <= PeakCached(q, placed, starts, nodeId[i], |placed|)
    {
      HotOfWindow(q, cachePresence[..], placed, start, |placed|);
      hide HotSet, HotOf, PeakCached, CountsWindow, Inverse;
      UnplacedCost(|placed|, i);
      UnplacedCost(|placed|, j);
      RankedFirst(cost[..], CI[..], |placed|, 0);
    }

    lemma UnplacedCost(start: nat, i: nat)
      requires Valid(start) && Settled() && start <= i < Nodes(q)
      ensures nodeId[i] < Nodes(q) && !isPlaced[nodeId[i]] && NodeCost(nodeId[i]) == cost[i]
    {
      assert nodeMap[nodeId[i]] == i;
    }

    /** So the first of them is foremost. */
    lemma FrontIsForemost(placed: seq<nat>, starts: seq<nat>, winCost: nat)
      requires |placed| < Nodes(q) && Ready(placed, Before(starts, |starts|), winCost) && Floored(placed, starts)
      ensures HasRow(q.parents, nodeId[|placed|])
      ensures Foremost(q, HeldBefore(q, placed, starts, |placed|), placed, starts, |placed|, nodeId[|placed|])
    {
      hide HotSet, PeakCached;
      var n := |placed|;
      forall c: nat | HasRow(q.parents, c) && c !in placed[..n]
        ensures Cached(q.parents, c, HeldBefore(q, placed, starts, n)) <= PeakCached(q, placed, starts, nodeId[n], n)
      {
        assert forall i :: 0 <= i < n ==> placed[..n][i] == nodeId[..n][i] == nodeId[i];
        assert nodeId[nodeMap[c]] == c && nodeMap[c] >= n;
        StandsByCost(placed, starts, Before(starts, n), winCost, n, nodeMap[c]);
      }
      FrontWaits(placed, Before(starts, n), winCost);
      assert placed[..n] == placed;
      StandsByCost(placed, starts, Before(starts, n), winCost, n, n);
    }

    lemma FrontWaits(placed: seq<nat>, start: nat, winCost: nat)
      requires |placed| < Nodes(q) && Ready(placed, start, winCost)
      ensures nodeId[|placed|] !in placed
    {
      assert nodeMap[nodeId[|placed|]] == |placed|;
      assert forall i :: 0 <= i < |placed| ==> placed[i] == nodeId[..|placed|][i] && nodeMap[nodeId[i]] == i;
    }

    /** How many parents of u are not in the cache. */
    ghost function Missing(u: nat): nat
      requires HasRow(q.parents, u)
      reads cachePresence
    {
      Degree(q.parents, u) - Cached(q.parents, u, Hot())
    }

    /** A node without room beside the window justifies moving the window: the foremost one at first, the one
        settled at the front later. */
    lemma MovesOn(placed: seq<nat>, starts: seq<nat>, start: nat, winCost: nat, w: nat)
      requires |placed| == |starts| < Nodes(q) && Ready(placed, start, winCost) && NotAhead(starts)
      requires Before(starts, |starts|) <= start < |placed| && MayMove(q, placed, starts, |placed|, start)
      requires q.guard <= |placed| ==> start + q.guard < |placed|
      requires HasRow(q.parents, w)
      requires
        if Before(starts, |starts|) < start then Front(|placed|, w) && Fits(q, w)
        else Foremost(q, HeldBefore(q, placed, starts, |placed|), placed, starts, |placed|, w)
      requires winCost + Missing(w) > q.cacheSize
      ensures MayMove(q, placed, starts, |placed|, start + 1)
    {
      hide Foremost, HotSet, HotOf, Degree, CountsWindow;
      HotOfWindow(q, cachePresence[..], placed, start, |placed|);
      if Before(starts, |starts|) < start {
        FirstIsBest(|placed|);
        assert nodeId[..|placed|][..|placed|] == placed == placed[..|placed|];
        FrontWaits(placed, start, winCost);
        assert Crowded(q, placed, |placed|, start);
      }
    }

    /** The state of the eviction loop of one step; u was the first node when nodeCost was computed for
        the first time, and `exact` says whether that first value was right. */
    ghost predicate Making(minPtr: nat, placed: seq<nat>, starts: seq<nat>, start: nat, winCost: nat, nodeCost: int,
                           origId: nat, u: nat, exact: bool)
      reads `floor, cost, CI, nodeMap, nodeId, updates, cachePresence, isPlaced
    {
      && minPtr == |placed| == |starts| < Nodes(q) && NotAhead(starts) && Before(starts, minPtr) <= start
      && Ready(placed, start, winCost) && Front(minPtr, origId) && HasRow(q.parents, origId)
      && HasRow(q.parents, u) && Foremost(q, HeldBefore(q, placed, starts, minPtr), placed, starts, minPtr, u)
      && MayMove(q, placed, starts, minPtr, start)
      && nodeCost <= Missing(if start == Before(starts, minPtr) then u else origId)
      && (exact || Before(starts, minPtr) < start ==> nodeCost == Missing(origId))
      && (start == minPtr && Fits(q, origId) ==> winCost + nodeCost <= q.cacheSize)
    }

    lemma MakingFacts(minPtr: nat, placed: seq<nat>, starts: seq<nat>, start: nat, winCost: nat, nodeCost: int,
                      origId: nat, u: nat, exact: bool)
      requires Making(minPtr, placed, starts, start, winCost, nodeCost, origId, u, exact)
      ensures Shape() && minPtr == |placed| == |starts| < Nodes(q) && HasRow(q.parents, u) && AreNodes(q, placed)
      ensures origId < Nodes(q) == |inDeg| && inDeg[origId] == Degree(q.parents, origId) && HasRow(q.parents, origId)
      ensures minPtr < UINT_RANGE && q.guard < UINT_RANGE && start <= minPtr
      ensures start == minPtr && Fits(q, origId) ==> winCost + nodeCost <= q.cacheSize
      ensures Ready(placed, start, winCost) && Front(minPtr, origId)
      ensures NotAhead(starts) && Before(starts, minPtr) <= start && MayMove(q, placed, starts, minPtr, start)
      ensures Foremost(q, HeldBefore(q, placed, starts, minPtr), placed, starts, minPtr, u)
      ensures (exact || Before(starts, minPtr) < start) && winCost + nodeCost <= q.cacheSize ==>
                HasRoom(q, Hot(), origId)
      ensures nodeCost <= Missing(if start == Before(starts, minPtr) then u else origId)
    {
      hide MayMove, Foremost;
      ReadyDegrees(placed, start, winCost);
    }

    lemma MakingNext(minPtr: nat, placed: seq<nat>, starts: seq<nat>, start: nat, winCost: nat, nodeCost: int,
                     origId: nat, u: nat, exact: bool)
      requires minPtr == |placed| == |starts| < Nodes(q) && NotAhead(starts) && Before(starts, minPtr) < start
      requires Ready(placed, start, winCost) && Front(minPtr, origId) && HasRow(q.parents, origId)
      requires HasRow(q.parents, u) && Foremost(q, HeldBefore(q, placed, starts, minPtr), placed, starts, minPtr, u)
      requires MayMove(q, placed, starts, minPtr, start)
      requires nodeCost == Missing(origId) && (start == minPtr ==> winCost == 0)
      ensures Making(minPtr, placed, starts, start, winCost, nodeCost, origId, u, exact)
    {
      hide MayMove, Foremost;
    }

    /** One round of the eviction loop. */
    method MakeStep(minPtr: nat, ghost placed: seq<nat>, ghost starts: seq<nat>, start: nat, oldCost: nat,
                    ghost oldNodeCost: int, ghost oldId: nat, ghost u: nat, ghost exact: bool)
      returns (origId: nat, nodeCost: nat, winCost: nat)
      requires Making(minPtr, placed, starts, start, oldCost, oldNodeCost, oldId, u, exact) && Fits(q, oldId)
      requires oldCost + oldNodeCost > q.cacheSize && (q.guard <= minPtr ==> start + q.guard < minPtr)
      modifies cost, CI, nodeMap, nodeId, updates, cachePresence
      ensures Making(minPtr, placed, starts, start + 1, winCost, nodeCost, origId, u, exact)
    {
      hide Making, Ready, MayMove, Foremost, Front, Missing, Shape, HasRoom, HeldBefore;
      MakingFacts(minPtr, placed, starts, start, oldCost, oldNodeCost, oldId, u, exact);
      MovesOn(placed, starts, start, oldCost, if start == Before(starts, minPtr) then u else oldId);
      origId, nodeCost, winCost := EvictStep(minPtr, placed, start, oldCost);
      MakingNext(minPtr, placed, starts, start + 1, winCost, nodeCost, origId, u, exact);
    }

    /** Shrinks the window until the first node fits, or only `guard` nodes are left in it, or
        settling has brought a node to the front that fits in no cache. */
    method MakeRoom(minPtr: nat, ghost placed: seq<nat>, ghost starts: seq<nat>, initialCost: nat,
                    currWinStartId: nat, currWinCost: nat, ghost u: nat, ghost exact: bool)
      returns (origId: nat, start: nat, winCost: nat)
      requires minPtr < nodeId.Length && HasRow(q.parents, nodeId[minPtr]) && Fits(q, nodeId[minPtr])
      requires minPtr == |starts| && currWinStartId == Before(starts, minPtr)
      requires Making(minPtr, placed, starts, currWinStartId, currWinCost, initialCost, nodeId[minPtr], u, exact)
      modifies cost, CI, nodeMap, nodeId, updates, cachePresence
      ensures Ready(placed, start, winCost) && Front(minPtr, origId)
      ensures currWinStartId <= start <= minPtr == |placed|
      ensures start == currWinStartId ==> origId == old(nodeId[minPtr])
      ensures start == currWinStartId ==>
                && winCost == currWinCost
                && (winCost + initialCost <= q.cacheSize || minPtr - start <= q.guard <= minPtr)
      ensures currWinStartId < start ==> currWinCost + initialCost > q.cacheSize
      ensures currWinStartId < start && q.guard <= minPtr ==> start + q.guard <= minPtr
      ensures AreNodes(q, placed) && NotAhead(starts) && MayMove(q, placed, starts, minPtr, start)
      ensures exact || currWinStartId < start ==>
                !Fits(q, origId) || HasRoom(q, Hot(), origId) || minPtr - start <= q.guard <= minPtr
    {
      hide Making, Ready, Front, HasRoom, Degree, Hot, MayMove, Foremost;
      origId, start, winCost := nodeId[minPtr], currWinStartId, currWinCost;
      var nodeCost := initialCost;
      MakingFacts(minPtr, placed, starts, start, winCost, nodeCost, origId, u, exact);
      while winCost + nodeCost > q.cacheSize && start < UnsignedMinus(minPtr, q.guard)
        invariant Making(minPtr, placed, starts, start, winCost, nodeCost, origId, u, exact)
        invariant HasRow(q.parents, origId) && Fits(q, origId) && start <= minPtr
        invariant minPtr < UINT_RANGE && q.guard < UINT_RANGE
        invariant start == minPtr ==> winCost + nodeCost <= q.cacheSize
        invariant currWinStartId <= start && (start == currWinStartId ==> origId == old(nodeId[minPtr]))
        invariant start == currWinStartId ==> winCost == currWinCost && nodeCost == initialCost
        invariant currWinStartId < start ==> currWinCost + initialCost > q.cacheSize
        invariant currWinStartId < start && q.guard <= minPtr ==> start + q.guard <= minPtr
        decreases minPtr - start
      {
        origId, nodeCost, winCost :=
          MakeStep(minPtr, placed, starts, start, winCost, nodeCost, origId, u, exact);
        start := start + 1;
        MakingFacts(minPtr, placed, starts, start, winCost, nodeCost, origId, u, exact);
        if inDeg[origId] > q.cacheSize {
          break;
        }
      }
      MakingFacts(minPtr, placed, starts, start, winCost, nodeCost, origId, u, exact);
    }

    /** Marks the first node as placed: the suffix now starts one position later. */
    method MarkPlaced(minPtr: nat, origId: nat)
      requires minPtr < Nodes(q) && Valid(minPtr) && Settled() && Front(minPtr, origId)
      modifies isPlaced
      ensures Valid(minPtr + 1) && Settled()
    {
      hide Ranked, Prices, Tables, HotOf;
      RankedShrinks(cost[..], CI[..], minPtr);
      isPlaced[origId] := true;
    }

    /** Fills position minPtr without loading anything: no cache could hold the parents. */
    method PlaceUnloaded(minPtr: nat, origId: nat, ghost placed: seq<nat>, ghost start: nat, ghost winCost: nat)
      requires minPtr == |placed| < Nodes(q) && Ready(placed, start, winCost)
      requires Front(minPtr, origId) && !Fits(q, origId)
      modifies isPlaced
      ensures Ready(placed + [origId], start, winCost)
    {
      hide Inverse, Ranked, Owed, HotOf;
      ghost var placed' := placed + [origId];
      MarkPlaced(minPtr, origId);
      CountsWindowIff(q, cachePresence[..], cachePresence.Length, placed, start, minPtr);
      forall p | 0 <= p < cachePresence.Length
        ensures WindowLoad(q, placed', start, minPtr + 1, p) == WindowLoad(q, placed, start, minPtr, p)
      {
        LoadsSame(q, placed', placed, start, minPtr, p);
      }
      CountsWindowIff(q, cachePresence[..], cachePresence.Length, placed', start, minPtr + 1);
    }

    /** Before parents are loaded, the floors go down to the prices that will then hold. */
    ghost method LowerFloor(most: set<nat>)
      requires Shape() && Settled() && most <= LightParents(q)
      modifies `floor
      ensures Settled() && Lowest(most)
      ensures |floor| == Nodes(q) == |old(floor)|
      ensures forall c :: 0 <= c < Nodes(q) ==> floor[c] == old(floor)[c] || floor[c] == Prices(q, maxCost, most)[c]
    {
      hide LightParents, HotOf;
      PricesWithMore(q, maxCost, most, LightParents(q));
      forall c | 0 <= c < Nodes(q) ensures Prices(q, maxCost, most)[c] >= 0 {
        assert LightDeg(q, c) <= maxCost;
      }
      floor := Lowered(floor, Prices(q, maxCost, most));
    }

    /** What the window will hold once c has been placed in it. */
    lemma NextHot(placed: seq<nat>, start: nat, winCost: nat, c: nat)
      requires Ready(placed, start, winCost) && HasRow(q.parents, c) && Fits(q, c)
      ensures AreNodes(q, placed + [c])
      ensures
        var most := HotSet(q, placed + [c], start, |placed| + 1);
        && Hot() <= most <= LightParents(q)
        && forall p :: 0 <= p < |q.outDeg| && Share(c, p) > 0 ==> p in most
    {
      HotOfWindow(q, cachePresence[..], placed, start, |placed|);
      forall p | 0 <= p < |q.outDeg|
        ensures Loads(q, placed + [c], start, |placed| + 1, p)
             == Loads(q, placed, start, |placed|, p) + Times(q.parents, c, p)
      {
        LoadsSame(q, placed + [c], placed, start, |placed|, p);
      }
    }

    /** Fills position minPtr and loads the parents of the node put there. */
    method PlaceLoaded(minPtr: nat, origId: nat, ghost placed: seq<nat>, ghost start: nat, winCost: nat)
      returns (newCost: nat)
      requires minPtr == |placed| < Nodes(q) && Ready(placed, start, winCost)
      requires Front(minPtr, origId) && Fits(q, origId)
      modifies `floor, `discounts, cost, CI, nodeMap, nodeId, updates, cachePresence, isPlaced
      ensures Ready(placed + [origId], start, newCost)
      ensures Sensible(q) && AreNodes(q, placed) && HasRow(q.parents, origId)
           && discounts == old(discounts)
                + Discounted(q, origId, HotSet(q, placed, start, |placed|), RowEnd(q.parents, origId))
      ensures |floor| == Nodes(q) == |old(floor)| && Sensible(q)
      ensures
        var price := Prices(q, maxCost, HotSet(q, placed + [origId], start, |placed| + 1));
        forall c :: 0 <= c < Nodes(q) ==> floor[c] == old(floor)[c] || floor[c] == price[c]
    {
      hide Valid, Settled, HotOf, CountsWindow, Share, Lowest, HotSet, Prices, Discounted;
      ReadyMeans(placed, start, winCost);
      HotOfWindow(q, cachePresence[..], placed, start, |placed|);
      ReadyDegrees(placed, start, winCost);
      ghost var presence := cachePresence[..];
      NextHot(placed, start, winCost, origId);
      ghost var most := HotSet(q, placed + [origId], start, |placed| + 1);
      SettledMeans();
      MarkPlaced(minPtr, origId);
      LowerFloor(most);
      var loaded := LoadParents(minPtr, minPtr, most);
      newCost := winCost + loaded;
      ValidMeans(minPtr + 1);
      assert nodeId[..minPtr + 1] == placed + [origId];
      WindowGrows(placed, start, origId, presence, cachePresence[..]);
    }

    lemma WindowGrows(placed: seq<nat>, start: nat, c: nat, presence: seq<nat>, presence': seq<nat>)
      requires AreNodes(q, placed) && start <= |placed| && HasRow(q.parents, c) && Fits(q, c)
      requires |presence| == |presence'| == |q.outDeg|
      requires CountsWindow(q, presence, |presence|, placed, start, |placed|)
      requires forall p :: 0 <= p < |presence| ==> presence'[p] == presence[p] + Share(c, p)
      ensures AreNodes(q, placed + [c])
      ensures CountsWindow(q, presence', |presence'|, placed + [c], start, |placed| + 1)
    {
      hide CountsWindow;
      CountsWindowIff(q, presence, |presence|, placed, start, |placed|);
      forall p | 0 <= p < |presence|
        ensures WindowLoad(q, placed + [c], start, |placed| + 1, p)
             == WindowLoad(q, placed, start, |placed|, p) + Share(c, p)
      {
        LoadsSame(q, placed + [c], placed, start, |placed|, p);
      }
      CountsWindowIff(q, presence', |presence'|, placed + [c], start, |placed| + 1);
    }

    /** A settled front node extends the greedy run. */
    lemma FrontExtends(placed: seq<nat>, starts: seq<nat>, before: nat, start: nat, winCost: nat, v: nat)
      requires |placed| < Nodes(q) && Ready(placed, start, winCost) && Front(|placed|, v)
      requires Anchored(placed, starts, before) && before <= start <= |placed|
      requires MayMove(q, placed, starts, |placed|, start)
      requires
        || !Fits(q, v) || |placed| - start <= q.guard <= |placed|
        || if before < start then HasRoom(q, Hot(), v) else HadRoom(q, placed, starts, |placed|)
      ensures Anchored(placed + [v], starts + [start], start)
    {
      FirstIsBest(|placed|);
      HotOfWindow(q, cachePresence[..], placed, start, |placed|);
      assert nodeId[..|placed|][..|placed|] == placed[..|placed|];
      GreedyExtend(q, placed, starts, v, start);
    }

    /** The run so far is greedy and the window still starts where the last step left it. */
    ghost predicate Anchored(placed: seq<nat>, starts: seq<nat>, start: nat) {
      && Greedy(q, placed, starts)
      && start == Before(starts, |starts|) && (placed != [] ==> start < |placed|)
    }

    /** No floor is below the lowest price a node has had just after a placement. */
    ghost predicate Floored(placed: seq<nat>, starts: seq<nat>)
      reads `floor
    {
      && AreNodes(q, placed) && NotAhead(starts) && |placed| == |starts| && |floor| == Nodes(q)
      && forall c {:trigger floor[c]} :: 0 <= c < Nodes(q) && HasRow(q.parents, c) ==>
           floor[c] + PeakCached(q, placed, starts, c, |placed|) >= maxCost
    }

    lemma FlooredMeans(placed: seq<nat>, starts: seq<nat>, start: nat, winCost: nat, v: nat)
      requires Floored(placed, starts) && Ready(placed, start, winCost) && HasRow(q.parents, v)
      ensures AreNodes(q, placed + [v]) && AreNodes(q, placed) && NotAhead(starts) && |placed| == |starts|
      ensures start <= |placed| && Sensible(q) && |floor| == Nodes(q) && NotAhead(starts + [start])
      ensures forall c {:trigger floor[c]} :: 0 <= c < Nodes(q) && HasRow(q.parents, c) ==>
                floor[c] + PeakCached(q, placed, starts, c, |placed|) >= maxCost
    {
    }

    /** So it stays when the floors have followed one more placement. */
    lemma FlooredNext(placed: seq<nat>, starts: seq<nat>, v: nat, start: nat, floor0: seq<nat>)
      requires AreNodes(q, placed + [v]) && AreNodes(q, placed) && NotAhead(starts) && |placed| == |starts|
      requires start <= |placed| && Sensible(q) && |floor| == |floor0| == Nodes(q)
      requires forall c {:trigger floor0[c]} :: 0 <= c < Nodes(q) && HasRow(q.parents, c) ==>
                 floor0[c] + PeakCached(q, placed, starts, c, |placed|) >= maxCost
      requires
        var price := Prices(q, maxCost, HotSet(q, placed + [v], start, |placed| + 1));
        forall c :: 0 <= c < Nodes(q) ==> floor[c] == floor0[c] || floor[c] == price[c]
      ensures Floored(placed + [v], starts + [start])
    {
      hide HotSet, Cached, PeakCached, Sensible, HasRow, AreNodes;
      forall c | 0 <= c < Nodes(q) && HasRow(q.parents, c)
        ensures floor[c] + PeakCached(q, placed + [v], starts + [start], c, |placed| + 1) >= maxCost
      {
        PeakGrows(q, placed, starts, v, start, c);
        assert floor0[c] + PeakCached(q, placed, starts, c, |placed|) >= maxCost;
      }
    }

    /** A node whose cost allowed the window to stay would have had room with what it ever had cached. */
    lemma StayedWithRoom(placed: seq<nat>, starts: seq<nat>, start: nat, winCost: nat, u: nat, nodeCost: nat)
      requires NotAhead(starts) && |placed| == |starts| && start == Before(starts, |starts|)
      requires Ready(placed, start, winCost) && HasRow(q.parents, u)
      requires Foremost(q, HeldBefore(q, placed, starts, |placed|), placed, starts, |placed|, u)
      requires nodeCost + PeakCached(q, placed, starts, u, |placed|) >= Degree(q.parents, u)
      requires winCost + nodeCost <= q.cacheSize
      ensures HadRoom(q, placed, starts, |placed|)
    {
      hide Foremost, Valid, Settled, Degree, HotSet, HotOf, PeakCached, CountsWindow;
      HotOfWindow(q, cachePresence[..], placed, start, |placed|);
      assert placed[..|placed|] == placed;
    }

    /** The cache has room for v, or no cache has, or the window is down to `guard` nodes. */
    ghost predicate Roomy(placed: seq<nat>, start: nat, v: nat) {
      && AreNodes(q, placed) && start <= |placed| && HasRow(q.parents, v)
      && (!Fits(q, v) || HasRoom(q, HotSet(q, placed, start, |placed|), v) || |placed| - start <= q.guard <= |placed|)
    }

    lemma RoomyNow(placed: seq<nat>, start: nat, winCost: nat, v: nat)
      requires |placed| < Nodes(q) && Ready(placed, start, winCost) && HasRow(q.parents, v)
      requires !Fits(q, v) || HasRoom(q, Hot(), v) || |placed| - start <= q.guard <= |placed|
      ensures Roomy(placed, start, v)
    {
      HotOfWindow(q, cachePresence[..], placed, start, |placed|);
    }

    lemma ReadyMeans(placed: seq<nat>, start: nat, winCost: nat)
      requires Ready(placed, start, winCost)
      ensures Shape() && Valid(|placed|) && Settled() && start <= |placed| <= Nodes(q)
      ensures nodeId.Length == updates.Length == Nodes(q)
      ensures |placed| < Nodes(q) ==> nodeId[|placed|] < Nodes(q)
      ensures nodeId[..|placed|] == placed && Inverse(nodeMap[..], nodeId[..], Nodes(q))
    {
    }

    lemma AnchoredMeans(placed: seq<nat>, starts: seq<nat>, start: nat)
      requires Anchored(placed, starts, start)
      ensures Greedy(q, placed, starts) && (placed != [] ==> start < |placed|)
      ensures |starts| == |placed| && NotAhead(starts) && start == Before(starts, |starts|)
    {
    }

    lemma FrontMeans(minPtr: nat, origId: nat)
      requires Shape() && Front(minPtr, origId)
      ensures minPtr < Nodes(q) == nodeId.Length && origId == nodeId[minPtr] < Nodes(q)
    {
    }

    /** The eviction loop may begin: nodeCost was right if `exact`, and an empty window leaves room. */
    lemma MakingStart(minPtr: nat, placed: seq<nat>, starts: seq<nat>, start: nat, winCost: nat, nodeCost: int,
                      origId: nat, u: nat, exact: bool)
      requires minPtr == |placed| == |starts| < Nodes(q) && NotAhead(starts) && start == Before(starts, minPtr)
      requires Ready(placed, start, winCost) && Front(minPtr, origId) && HasRow(q.parents, origId)
      requires HasRow(q.parents, u) && Foremost(q, HeldBefore(q, placed, starts, minPtr), placed, starts, minPtr, u)
      requires nodeCost <= Missing(u) && (exact ==> u == origId && nodeCost == Missing(u))
      requires start == minPtr ==> exact && winCost == 0
      ensures Making(minPtr, placed, starts, start, winCost, nodeCost, origId, u, exact)
    {
      hide Foremost;
    }

    /** The first look of a step: nothing is evicted unless the window had no room for what the node u that was
        first misses by its cost before settling; and if it had none, something is, unless the settled node v
        fits in no cache or `guard` nodes are left. */
    ghost predicate LooksFirst(u: nat, uCost: nat, minPtr: nat, before: nat, winCost: nat, start: nat, v: nat) {
      && HasRow(q.parents, u) && HasRow(q.parents, v) && before <= start
      && var full := winCost + Degree(q.parents, u) + uCost - maxCost > q.cacheSize;
         if before < start then full else !full || !Fits(q, v) || minPtr - start <= q.guard <= minPtr
    }

    /** The first half of a step: settle the front and make room for it. When the node that stood
        there had nothing queued, nodeCost was right from the start, and the room guarantee holds
        whether the window moved or not. */
    method ChooseNext(minPtr: nat, ghost placed: seq<nat>, ghost starts: seq<nat>,
                      currWinStartId: nat, currWinCost: nat)
      returns (origId: nat, start: nat, winCost: nat)
      requires minPtr == |placed| < Nodes(q) && Ready(placed, currWinStartId, currWinCost)
      requires Anchored(placed, starts, currWinStartId) && Floored(placed, starts)
      requires minPtr == 0 ==> currWinCost == 0 && forall c :: 0 <= c < Nodes(q) ==> updates[c] == 0
      modifies cost, CI, nodeMap, nodeId, updates, cachePresence
      ensures Ready(placed, start, winCost) && Front(minPtr, origId)
      ensures Anchored(placed + [origId], starts + [start], start)
      ensures old(nodeId[minPtr]) < Nodes(q) && (old(updates[nodeId[minPtr]]) == 0 ==> Roomy(placed, start, origId))
      ensures minPtr == 0 ==> origId == old(nodeId[minPtr])
      ensures LooksFirst(old(nodeId[minPtr]), old(cost[minPtr]), minPtr, currWinStartId, currWinCost, start, origId)
    {
      hide Ready, Valid, Settled, Shape, Anchored, Making, Foremost, Front, Missing, HasRoom, Roomy, Hot;
      hide Floored, HadRoom, HotSet, HeldBefore, Degree;
      ReadyMeans(placed, currWinStartId, currWinCost);
      AnchoredMeans(placed, starts, currWinStartId);
      start, winCost := currWinStartId, currWinCost;
      origId := nodeId[minPtr];
      var nodeCost := FrontCost(minPtr, origId, placed, starts);
      ghost var u, exact := origId, updates[origId] == 0;
      FrontIsForemost(placed, starts, winCost);
      origId := Settle(minPtr, placed, start, winCost);
      ReadyDegrees(placed, start, winCost);
      FrontMeans(minPtr, origId);
      if inDeg[origId] <= q.cacheSize {
        MakingStart(minPtr, placed, starts, start, winCost, nodeCost, origId, u, exact);
        origId, start, winCost := MakeRoom(minPtr, placed, starts, nodeCost, start, winCost, u, exact);
        FrontMeans(minPtr, origId);
        if start == currWinStartId && winCost + nodeCost <= q.cacheSize {
          StayedWithRoom(placed, starts, start, winCost, u, nodeCost);
        }
      }
      FrontExtends(placed, starts, currWinStartId, start, winCost, origId);
      if exact {
        RoomyNow(placed, start, winCost, origId);
      }
    }

    /** Fills position minPtr: settle, make room, settle, load. */
    method PlaceNext(minPtr: nat, ghost placed: seq<nat>, ghost starts: seq<nat>,
                     currWinStartId: nat, currWinCost: nat)
      returns (start: nat, winCost: nat, ghost v: nat)
      requires minPtr == |placed| < Nodes(q) && Ready(placed, currWinStartId, currWinCost)
      requires Anchored(placed, starts, currWinStartId) && Floored(placed, starts)
      requires minPtr == 0 ==> currWinCost == 0 && forall c :: 0 <= c < Nodes(q) ==> updates[c] == 0
      modifies `floor, `discounts, cost, CI, nodeMap, nodeId, updates, cachePresence, isPlaced
      ensures v < Nodes(q) && Ready(placed + [v], start, winCost)
      ensures Anchored(placed + [v], starts + [start], start) && Floored(placed + [v], starts + [start])
      ensures Sensible(q) && AreNodes(q, placed + [v]) && NotAhead(starts + [start]) && |starts| == |placed|
           && discounts == old(discounts) + DiscountedAt(q, placed + [v], starts + [start], |placed|)
      ensures old(nodeId[minPtr]) < Nodes(q) && (old(updates[nodeId[minPtr]]) == 0 ==> Roomy(placed, start, v))
      ensures minPtr == 0 ==> v == old(nodeId[minPtr])
      ensures LooksFirst(old(nodeId[minPtr]), old(cost[minPtr]), minPtr, currWinStartId, currWinCost, start, v)
    {
      var origId;
      origId, start, winCost := ChooseNext(minPtr, placed, starts, currWinStartId, currWinCost);
      v := origId;
      ReadyDegrees(placed, start, winCost);
      hide Anchored, Roomy, HotSet, Prices, PeakCached, LooksFirst, Discounted, DiscountedAt;
      ghost var floor0 := floor;
      FlooredMeans(placed, starts, start, winCost, v);
      DiscountedLast(q, placed, starts, v, start);
      if inDeg[origId] > q.cacheSize {
        PlaceUnloaded(minPtr, origId, placed, start, winCost);
        FlooredNext(placed, starts, v, start, floor0);
        return;
      }
      origId := Settle(minPtr, placed, start, winCost);
      winCost := PlaceLoaded(minPtr, origId, placed, start, winCost);
      FlooredNext(placed, starts, v, start, floor0);
    }

    /** How many parents of the front node are missing, as far as its cost tells. */
    method FrontCost(minPtr: nat, origId: nat, ghost placed: seq<nat>, ghost starts: seq<nat>) returns (nodeCost: nat)
      requires minPtr < Nodes(q) && Valid(minPtr) && Settled() && origId == nodeId[minPtr] < Nodes(q)
      requires Floored(placed, starts)
      ensures HasRow(q.parents, origId) && nodeCost <= Missing(origId)
      ensures updates[origId] == 0 ==> nodeCost == Missing(origId)
      ensures nodeCost + maxCost == Degree(q.parents, origId) + cost[minPtr]
      ensures nodeCost + PeakCached(q, placed, starts, origId, |placed|) >= Degree(q.parents, origId)
    {
      assert NodeCost(origId) == cost[minPtr] >= floor[origId];
      nodeCost := inDeg[origId] - (maxCost - cost[minPtr]);
    }

    /** What holds between two rounds of the placement loop. */
    ghost predicate Going(placed: seq<nat>, starts: seq<nat>, start: nat, winCost: nat)
      reads `floor, `discounts, cost, CI, nodeMap, nodeId, updates, cachePresence, isPlaced
    {
      && Ready(placed, start, winCost) && Anchored(placed, starts, start) && Floored(placed, starts)
      && Sensible(q) && discounts == DiscountedTo(q, placed, starts, |placed|)
      && (placed == [] ==> winCost == 0 && forall c :: 0 <= c < Nodes(q) ==> updates[c] == 0)
    }

    lemma StartsGoing()
      requires Ready([], 0, 0) && Floored([], []) && discounts == []
      requires forall c :: 0 <= c < updates.Length ==> updates[c] == 0
      ensures Going([], [], 0, 0)
    {
    }

    lemma GoingMeans(placed: seq<nat>, starts: seq<nat>, start: nat, winCost: nat)
      requires Going(placed, starts, start, winCost)
      ensures Ready(placed, start, winCost) && Anchored(placed, starts, start) && Floored(placed, starts)
      ensures Sensible(q) && AreNodes(q, placed) && NotAhead(starts) && |starts| == |placed|
      ensures discounts == DiscountedTo(q, placed, starts, |placed|)
      ensures updates.Length == Nodes(q)
      ensures placed == [] ==> winCost == 0 && forall c :: 0 <= c < Nodes(q) ==> updates[c] == 0
    {
    }

    lemma GoesOn(placed: seq<nat>, starts: seq<nat>, v: nat, start: nat, winCost: nat)
      requires Ready(placed + [v], start, winCost) && Anchored(placed + [v], starts + [start], start)
      requires Floored(placed + [v], starts + [start]) && Sensible(q) && |starts| == |placed|
      requires AreNodes(q, placed + [v]) && NotAhead(starts + [start])
      requires discounts == DiscountedTo(q, placed + [v], starts + [start], |placed| + 1)
      ensures Going(placed + [v], starts + [start], start, winCost) && nodeId.Length == Nodes(q)
    {
      hide Ready, Anchored, Floored, Sensible, DiscountedTo;
      ReadyMeans(placed + [v], start, winCost);
    }

    /** The placement loop. The order it leaves in nodeId is greedy, up to the `tail` last positions, and
        it starts with the node that stood first. */
    method Reorder() returns (ghost starts: seq<nat>)
      requires Ready([], 0, 0) && Floored([], []) && q.tail <= Nodes(q)
      requires discounts == [] && forall c :: 0 <= c < Nodes(q) ==> updates[c] == 0
      modifies `floor, `discounts, cost, CI, nodeMap, nodeId, updates, cachePresence, isPlaced
      ensures Inverse(nodeMap[..], nodeId[..], Nodes(q))
      ensures Greedy(q, nodeId[..Nodes(q) - q.tail], starts) && Trailing(q, nodeId[..], starts)
      ensures Sensible(q) && discounts == DiscountedTo(q, nodeId[..Nodes(q) - q.tail], starts, |starts|)
      ensures Nodes(q) > q.tail ==> nodeId[0] == old(nodeId[0])
      ensures q.tail <= 2 && Nodes(q) > 0 ==> forall c :: 0 <= c < Nodes(q) ==> isPlaced[c]
    {
      hide Going, Ready, Valid, Shape, Anchored, Greedy, Roomy, Inverse, Floored, Trailing, Before, NotAhead;
      hide Sensible, AreNodes, DiscountedAt, DiscountedTo, LooksFirst;
      var minPtr, currWinCost, currWinStartId := 0, 0, 0;
      ReadyMeans([], 0, 0);
      StartsGoing();
      ghost var placed: seq<nat> := [];
      starts := [];
      while minPtr < Nodes(q)
        invariant minPtr == |placed| <= Nodes(q) && q.tail + minPtr <= Nodes(q)
        invariant Going(placed, starts, currWinStartId, currWinCost) && nodeId.Length == Nodes(q)
        invariant Nodes(q) > 0 ==> (if minPtr == 0 then nodeId[0] else placed[0]) == old(nodeId[0])
      {
        if q.tail > 0 && minPtr >= UnsignedMinus(Nodes(q), q.tail) {
          break;
        }
        GoingMeans(placed, starts, currWinStartId, currWinCost);
        ghost var v;
        currWinStartId, currWinCost, v := PlaceNext(minPtr, placed, starts, currWinStartId, currWinCost);
        DiscountedMore(q, placed, starts, v, currWinStartId);
        GoesOn(placed, starts, v, currWinStartId, currWinCost);
        placed, starts := placed + [v], starts + [currWinStartId];
        minPtr := minPtr + 1;
      }
      GoingMeans(placed, starts, currWinStartId, currWinCost);
      Finished(placed, starts, currWinStartId, currWinCost);
      FlagRest(minPtr);
    }

    /** What the loop leaves is what Reorder promises. */
    lemma Finished(placed: seq<nat>, starts: seq<nat>, start: nat, winCost: nat)
      requires Ready(placed, start, winCost) && Anchored(placed, starts, start) && Floored(placed, starts)
      requires q.tail + |placed| == Nodes(q) && Sensible(q) && AreNodes(q, placed) && NotAhead(starts)
      requires |starts| == |placed| && discounts == DiscountedTo(q, placed, starts, |placed|)
      ensures Valid(|placed|) && Inverse(nodeMap[..], nodeId[..], Nodes(q)) && nodeId.Length == Nodes(q)
      ensures placed == nodeId[..Nodes(q) - q.tail]
      ensures Greedy(q, nodeId[..Nodes(q) - q.tail], starts) && Trailing(q, nodeId[..], starts)
      ensures discounts == DiscountedTo(q, nodeId[..Nodes(q) - q.tail], starts, |starts|)
    {
      hide Valid, Settled, Greedy, Inverse, Floored, Trailing, Before, Sensible, DiscountedTo, DiscountedAt;
      ReadyMeans(placed, start, winCost);
      AnchoredMeans(placed, starts, start);
      RestTrails(placed, starts, winCost);
    }

    lemma RestTrails(placed: seq<nat>, starts: seq<nat>, winCost: nat)
      requires |starts| == |placed| && Ready(placed, Before(starts, |starts|), winCost) && Floored(placed, starts)
      ensures Trailing(q, nodeId[..], starts)
    {
      hide HotSet, PeakCached, Cached;
      var n, order := |placed|, nodeId[..];
      assert placed <= order;
      forall i | 0 <= i < |order| ensures HasRow(q.parents, order[i]) {
        assert order[i] == nodeId[i] < Nodes(q);
      }
      HotSetSame(q, placed, order, Before(starts, n), n);
      forall i, j | n <= i < j < |order|
        ensures Cached(q.parents, order[j], HeldBefore(q, order, starts, n))
             <= PeakCached(q, order, starts, order[i], n)
      {
        StandsByCost(placed, starts, Before(starts, n), winCost, i, j);
        PeakCachedSame(q, placed, starts, order, starts, order[i], n);
      }
    }

    /** The last two positions count as placed in any case. */
    method FlagRest(minPtr: nat)
      requires Valid(minPtr)
      modifies isPlaced
      ensures Nodes(q) > 0 && minPtr + 2 >= Nodes(q) ==> forall c :: 0 <= c < Nodes(q) ==> isPlaced[c]
    {
      var n := Nodes(q);
      if n > 1 {
        isPlaced[nodeId[n - 2]] := true;
      }
      if n > 0 {
        isPlaced[nodeId[n - 1]] := true;
      }
      forall c | 0 <= c < n && minPtr + 2 >= n ensures isPlaced[c] {
        assert nodeId[nodeMap[c]] == c;
      }
    }
  }
}
