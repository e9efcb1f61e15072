/** Setting up the cache model: initial costs, initial order and the bucket index. */
module Placement {
  import opened Permutations
  import opened Csr
  import opened CacheSpec
  import opened KeyedSort

  /** The cost of a node is the number of its parents under the degree threshold. */
  method InitialCosts(q: Problem) returns (cost: array<nat>, maxCost: nat)
    requires Sensible(q)
    ensures fresh(cost) && cost.Length == Nodes(q)
    ensures forall c :: 0 <= c < Nodes(q) ==> cost[c] == LightDeg(q, c) <= maxCost
    ensures if Nodes(q) == 0 then maxCost == 0 else exists c :: 0 <= c < Nodes(q) && cost[c] == maxCost
  {
    cost := new nat[Nodes(q)](_ => 0);
    maxCost := 0;
    for i := 0 to Nodes(q)
      invariant forall c :: 0 <= c < i ==> cost[c] == LightDeg(q, c) <= maxCost
      invariant forall c :: i <= c < Nodes(q) ==> cost[c] == 0
      invariant if i == 0 then maxCost == 0 else exists c :: 0 <= c < i && cost[c] == maxCost
    {
      var end := RowEnd(q.parents, i);
      ghost var before := cost[..];
      for j := q.parents.VI[i] to end
        invariant cost[i] == HotEntries(q.parents.EI, q.parents.VI[i], j, LightParents(q))
        invariant forall c :: 0 <= c < Nodes(q) && c != i ==> cost[c] == before[c]
      {
        if q.outDeg[q.parents.EI[j]] <= q.thresh {
          cost[i] := cost[i] + 1;
        }
      }
      if cost[i] > maxCost {
        maxCost := cost[i];
      }
      assert i == 0 ==> cost[i] == maxCost;
    }
  }

  /** The node order the loop starts from: by descending cost, ties by node number. */
  method InitialOrder(cost: array<nat>) returns (nodeId: array<nat>)
    modifies cost
    ensures fresh(nodeId) && IsPermutation(nodeId[..], cost.Length)
    ensures forall i :: 0 <= i < cost.Length ==> cost[i] == old(cost[..])[nodeId[i]]
    ensures forall i, j :: 0 <= i < j < cost.Length ==> cost[i] >= cost[j]
  {
    var n := cost.Length;
    nodeId := new nat[n](i => i);
    ghost var s := Entries(cost[..], nodeId[..], 0, n);
    if n > 0 {
      MergeSort(cost, nodeId, 0, n - 1);
    }
    ghost var t := Entries(cost[..], nodeId[..], 0, n);
    forall i | 0 <= i < n ensures nodeId[i] < n && cost[i] == old(cost[..])[nodeId[i]] {
      SortKeepsEntries(s, t, t[i]);
      assert t[i] in s;
    }
    forall v | 0 <= v < n ensures v in nodeId[..] {
      SortKeepsEntries(s, t, s[v]);
      assert s[v] in t;
      var i :| 0 <= i < n && t[i] == s[v];
      assert nodeId[..][i] == v;
    }
    OntoIsPermutation(nodeId[..], n);
    forall i, j | 0 <= i < j < n ensures cost[i] >= cost[j] {
      assert t[i].value >= t[j].value;
    }
  }

  /** CI[v] becomes the first position whose cost is at least v, for any ascending cost array
      that ends in maxCost. */
  method BuildIndex(cost: array<nat>, maxCost: nat) returns (CI: array<nat>)
    requires forall i, j :: 0 <= i <= j < cost.Length ==> cost[i] <= cost[j]
    requires if cost.Length == 0 then maxCost == 0 else cost[cost.Length - 1] == maxCost
    ensures fresh(CI) && CI.Length == maxCost + 1
    ensures Ranked(cost[..], CI[..], 0)
  {
    CI := new nat[maxCost + 1](_ => 0);
    var val, myId := 0, 0;
    while val < maxCost
      invariant 0 <= val <= maxCost && 0 <= myId <= cost.Length
      invariant forall i :: 0 <= i < myId ==> cost[i] <= val
      invariant forall i :: myId <= i < cost.Length ==> cost[i] >= val
      invariant forall v :: 0 <= v <= val ==> CI[v] <= cost.Length
      invariant forall v, i :: 0 <= v <= val && 0 <= i < cost.Length ==> (v <= cost[i] <==> CI[v] <= i)
    {
      while cost[myId] == val
        invariant 0 <= myId < cost.Length
        invariant forall i :: 0 <= i < myId ==> cost[i] <= val
        decreases cost.Length - myId
      {
        myId := myId + 1;
      }
      ghost var seen := val;
      while cost[myId] != val
        invariant seen <= val <= cost[myId] && seen < cost[myId]
        invariant forall v :: 0 <= v <= val ==> CI[v] <= cost.Length
        invariant forall v, i :: 0 <= v <= val && 0 <= i < cost.Length ==> (v <= cost[i] <==> CI[v] <= i)
        decreases cost[myId] - val
      {
        val := val + 1;
        CI[val] := myId;
      }
      myId := myId + 1;
    }
  }

  method InvertOrder(nodeId: array<nat>) returns (nodeMap: array<nat>)
    requires IsPermutation(nodeId[..], nodeId.Length)
    ensures fresh(nodeMap) && Inverse(nodeMap[..], nodeId[..], nodeId.Length)
  {
    nodeMap := new nat[nodeId.Length];
    for i := 0 to nodeId.Length
      invariant forall k :: 0 <= k < i ==> nodeMap[nodeId[k]] == k
    {
      assert forall k :: 0 <= k < i ==> nodeId[..][k] != nodeId[..][i];
      nodeMap[nodeId[i]] := i;
    }
    TableInverts(nodeId[..], nodeMap[..], nodeId.Length);
  }

  /** The starting order puts nodes with more light parents first. */
  ghost predicate ByDegree(q: Problem, order: seq<nat>)
    requires Sensible(q)
  {
    IsPermutation(order, Nodes(q))
    && forall i, j :: 0 <= i < j < Nodes(q) ==> LightDeg(q, order[i]) >= LightDeg(q, order[j])
  }

  /** No node has more light parents than v. */
  ghost predicate MostParents(q: Problem, v: nat)
    requires Sensible(q)
  {
    v < Nodes(q) && forall c :: 0 <= c < Nodes(q) ==> LightDeg(q, c) <= LightDeg(q, v)
  }

  lemma FirstHasMostParents(q: Problem, order: seq<nat>)
    requires Sensible(q) && ByDegree(q, order) && order != []
    ensures MostParents(q, order[0])
  {
    forall c | 0 <= c < Nodes(q) ensures LightDeg(q, c) <= LightDeg(q, order[0]) {
      Onto(order, Nodes(q), c);
    }
  }

  method DegreeOrder(q: Problem) returns (maxCost: nat, cost: array<nat>, nodeId: array<nat>)
    requires Sensible(q)
    ensures fresh(cost) && fresh(nodeId) && cost != nodeId && cost.Length == nodeId.Length == Nodes(q)
    ensures forall c :: 0 <= c < Nodes(q) ==> LightDeg(q, c) <= maxCost
    ensures Nodes(q) == 0 ==> maxCost == 0
    ensures ByDegree(q, nodeId[..])
  {
    cost, maxCost := InitialCosts(q);
    ghost var degrees := cost[..];
    nodeId := InitialOrder(cost);
    forall i, j | 0 <= i < j < Nodes(q)
      ensures LightDeg(q, nodeId[..][i]) >= LightDeg(q, nodeId[..][j])
    {
      assert cost[i] == degrees[nodeId[..][i]] && cost[j] == degrees[nodeId[..][j]];
    }
  }

  /** All that is computed before the placement loop starts. */
  method Prepare(q: Problem)
    returns (maxCost: nat, cost: array<nat>, CI: array<nat>, nodeId: array<nat>, nodeMap: array<nat>)
    requires Sensible(q)
    ensures fresh(cost) && fresh(CI) && fresh(nodeId) && fresh(nodeMap)
    ensures cost != CI && cost != nodeId && cost != nodeMap && CI != nodeId && CI != nodeMap && nodeId != nodeMap
    ensures cost.Length == nodeId.Length == nodeMap.Length == Nodes(q) && CI.Length == maxCost + 1
    ensures forall c :: 0 <= c < Nodes(q) ==> LightDeg(q, c) <= maxCost && cost[c] == maxCost
    ensures Ranked(cost[..], CI[..], 0)
    ensures Inverse(nodeMap[..], nodeId[..], Nodes(q)) && ByDegree(q, nodeId[..])
  {
    maxCost, cost, nodeId := DegreeOrder(q);
    ghost var order := nodeId[..];
    for i := 0 to cost.Length
      invariant forall k :: 0 <= k < i ==> cost[k] == maxCost
      invariant nodeId[..] == order
    {
      cost[i] := maxCost;
    }
    CI := BuildIndex(cost, maxCost);
    nodeMap := InvertOrder(nodeId);
  }
}
