/** The reverse Cuthill-McKee order: breadth-first searches, sparse vertices first, turned around. */
module Rcm {
  import opened Permutations
  import opened Csr
  import opened GorderSpec
  import StdSort

  ghost predicate Usable(g: Net) {
    && g.inn.numVertex == g.out.numVertex
    && WellFormed(g.out, Vertices(g)) && WellFormed(g.inn, Vertices(g))
  }

  lemma HasRows(g: Net, v: nat)
    requires Usable(g) && v < Vertices(g)
    ensures HasRow(g.out, v) && HasRow(g.inn, v)
  {
    assert g.out.VI[v] <= RowEnd(g.out, v) && g.inn.VI[v] <= RowEnd(g.inn, v);
  }

  /** Out-degree plus in-degree of every vertex. */
  function Degrees(g: Net): (d: seq<int>)
    requires Usable(g)
    ensures |d| == Vertices(g)
    ensures forall v :: 0 <= v < |d| ==>
              HasRow(g.out, v) && HasRow(g.inn, v) && d[v] == Degree(g.out, v) + Degree(g.inn, v)
  {
    seq(Vertices(g), v requires 0 <= v < Vertices(g) => HasRows(g, v); Degree(g.out, v) + Degree(g.inn, v))
  }

  ghost predicate Arc(g: Net, u: nat, v: nat) {
    HasRow(g.out, u) && Edge(g, u, v)
  }

  // ---------- What the order is ----------

  /** par[k] is where order[k] was discovered: the first position with an edge to it, or k itself
      when no earlier position has one. */
  ghost predicate Discovered(g: Net, order: seq<nat>, par: seq<nat>, k: nat)
    requires k < |order| == |par|
  {
    && par[k] <= k
    && (par[k] < k ==> Arc(g, order[par[k]], order[k]))
    && forall j :: 0 <= j < par[k] ==> !Arc(g, order[j], order[k])
  }

  /** The positions of the discoverers never decrease, so every search goes level by level. Vertices
      with the same discoverer come by ascending degree. */
  ghost predicate InLevels(deg: seq<int>, order: seq<nat>, par: seq<nat>)
    requires |order| == |par| && Below(order, |deg|)
  {
    && (forall j, k :: 0 <= j < k < |order| ==> par[j] <= par[k])
    && (forall j, k :: 0 <= j < k < |order| && par[j] == par[k] < j ==> deg[order[j]] <= deg[order[k]])
  }

  /** A search starts at a vertex of least degree among all that are left. */
  ghost predicate RootAt(deg: seq<int>, order: seq<nat>, par: seq<nat>, k: nat)
    requires k < |order| == |par| && Below(order, |deg|)
  {
    par[k] == k ==> forall v: nat :: v < |deg| && v !in order[..k] ==> deg[order[k]] <= deg[v]
  }

  ghost predicate BreadthFirst(g: Net, deg: seq<int>, order: seq<nat>, par: seq<nat>) {
    && |order| == |par| && Below(order, |deg|) && Distinct(order)
    && InLevels(deg, order, par)
    && (forall k :: 0 <= k < |order| ==> Discovered(g, order, par, k))
    && (forall k :: 0 <= k < |order| ==> RootAt(deg, order, par, k))
  }

  // ---------- The state of the search ----------

  /** The targets of the first `done` vertices have all been reached. */
  ghost predicate Closed(g: Net, order: seq<nat>, done: nat)
    requires done <= |order|
  {
    forall j, t: nat :: 0 <= j < done && Arc(g, order[j], t) ==> t in order
  }

  /** Between two vertices taken from the queue: those still queued are order[done..]. */
  ghost predicate Searching(g: Net, deg: seq<int>, order: seq<nat>, par: seq<nat>, done: nat) {
    && BreadthFirst(g, deg, order, par) && done <= |order| && Closed(g, order, done)
    && forall k :: 0 <= k < |order| ==> par[k] <= done && (par[k] == done ==> k == done)
  }

  /** While the targets of order[at] are looked at: `limit` bounds the degrees of those already added. */
  ghost predicate Adding(g: Net, deg: seq<int>, order: seq<nat>, par: seq<nat>, at: nat, limit: int) {
    && BreadthFirst(g, deg, order, par) && at < |order| && Closed(g, order, at)
    && (forall k :: 0 <= k < |order| ==> par[k] <= at)
    && (forall k :: 0 <= k < |order| && par[k] == at < k ==> deg[order[k]] <= limit)
  }

  lemma AddTarget(g: Net, deg: seq<int>, order: seq<nat>, par: seq<nat>, at: nat, limit: int, x: nat)
    requires Adding(g, deg, order, par, at, limit) && x < |deg| && x !in order && Arc(g, order[at], x)
    requires limit <= deg[x]
    ensures Adding(g, deg, order + [x], par + [at], at, deg[x])
  {
    var order', par' := order + [x], par + [at];
    forall k | 0 <= k < |order'| ensures Discovered(g, order', par', k) {
      if k < |order| {
        assert Discovered(g, order, par, k);
      }
    }
    forall k | 0 <= k < |order'| ensures RootAt(deg, order', par', k) {
      if k < |order| {
        assert RootAt(deg, order, par, k);
        assert order'[..k] == order[..k];
      }
    }
  }

  lemma AddRoot(g: Net, deg: seq<int>, order: seq<nat>, par: seq<nat>, x: nat)
    requires Searching(g, deg, order, par, |order|) && x < |deg| && x !in order
    requires forall v: nat :: v < |deg| && v !in order ==> deg[x] <= deg[v]
    ensures Searching(g, deg, order + [x], par + [|order|], |order|)
  {
    var order', par' := order + [x], par + [|order|];
    forall k | 0 <= k < |order'| ensures Discovered(g, order', par', k) {
      if k < |order| {
        assert Discovered(g, order, par, k);
      }
    }
    forall k | 0 <= k < |order'| ensures RootAt(deg, order', par', k) {
      if k < |order| {
        assert RootAt(deg, order, par, k);
        assert order'[..k] == order[..k];
      } else {
        assert order'[..k] == order;
      }
    }
  }

  // ---------- The program ----------

  ghost predicate Flags(flag: seq<bool>, order: seq<nat>) {
    forall v: nat :: v < |flag| ==> (flag[v] <==> v in order)
  }

  /** The targets of a vertex by ascending degree. */
  method SortedTargets(g: Net, deg: seq<int>, now: nat) returns (tmp: seq<nat>)
    requires Usable(g) && HasRow(g.out, now) && |deg| == Vertices(g)
    ensures Below(tmp, Vertices(g)) && forall t: nat :: t in tmp <==> Arc(g, now, t)
    ensures forall i, j :: 0 <= i < j < |tmp| ==> deg[tmp[i]] <= deg[tmp[j]]
  {
    var row := Row(g.out, now);
    tmp := StdSort.Sort(row, (a: nat, b: nat) => StdSort.KeyAt(deg, a) < StdSort.KeyAt(deg, b));
    forall t: nat ensures t in tmp <==> Arc(g, now, t) {
      assert t in tmp <==> t in multiset(row);
      RowMembers(g.out, now, t);
    }
    forall i | 0 <= i < |tmp| ensures tmp[i] < Vertices(g) {
      assert tmp[i] in multiset(row);
    }
  }

  lemma RowMembers(g: Csr, v: nat, t: nat)
    requires HasRow(g, v)
    ensures t in Row(g, v) <==> Times(g, v, t) > 0
  {
    OccursIff(g.EI, g.VI[v], RowEnd(g, v), t);
    if i :| g.VI[v] <= i < RowEnd(g, v) && g.EI[i] == t {
      assert Row(g, v)[i - g.VI[v]] == t;
    }
  }

  lemma StartTargets(g: Net, deg: seq<int>, order: seq<nat>, par: seq<nat>, at: nat, least: int)
    requires Searching(g, deg, order, par, at) && at < |order|
    ensures Adding(g, deg, order, par, at, least)
  {
  }

  lemma EndTargets(g: Net, deg: seq<int>, order: seq<nat>, par: seq<nat>, at: nat, limit: int)
    requires Adding(g, deg, order, par, at, limit)
    requires forall t: nat :: Arc(g, order[at], t) ==> t in order
    ensures Searching(g, deg, order, par, at + 1)
  {
  }

  lemma AddingBounds(g: Net, deg: seq<int>, order: seq<nat>, par: seq<nat>, at: nat, limit: int)
    requires Adding(g, deg, order, par, at, limit)
    ensures at < |order| == |par| && Below(order, |deg|) && |order| <= |deg|
  {
    Pigeonhole(order, |deg|);
  }

  lemma FlagsAppend(flag: seq<bool>, order: seq<nat>, x: nat)
    requires Flags(flag, order) && x < |flag|
    ensures Flags(flag[x := true], order + [x])
  {
  }

  /** Queues the targets of order[at] that have not been reached. */
  method VisitTargets(g: Net, deg: seq<int>, order: seq<nat>, que: seq<nat>, flag: array<bool>, now: nat,
                      ghost par: seq<nat>, ghost at: nat)
    returns (order': seq<nat>, que': seq<nat>, ghost par': seq<nat>)
    requires Usable(g) && |deg| == Vertices(g) == flag.Length
    requires Searching(g, deg, order, par, at) && at < |order| && now == order[at] && que == order[at + 1..]
    requires Flags(flag[..], order)
    modifies flag
    ensures Searching(g, deg, order', par', at + 1) && que' == order'[at + 1..]
    ensures Flags(flag[..], order') && order <= order'
  {
    HasRows(g, now);
    var tmp := SortedTargets(g, deg, now);
    order', que', par' := order, que, par;
    ghost var limit := if tmp == [] then 0 else deg[tmp[0]];
    StartTargets(g, deg, order, par, at, limit);
    hide Searching, Adding, Arc, Flags;
    for i := 0 to |tmp|
      invariant Adding(g, deg, order', par', at, limit) && at < |order'| && order <= order'
      invariant que' == order'[at + 1..]
      invariant i < |tmp| ==> limit <= deg[tmp[i]]
      invariant forall j :: 0 <= j < i ==> tmp[j] in order'
      invariant Flags(flag[..], order')
    {
      AddingBounds(g, deg, order', par', at, limit);
      FlagAt(flag[..], order', tmp[i]);
      if !flag[tmp[i]] {
        AddTarget(g, deg, order', par', at, limit, tmp[i]);
        FlagsAppend(flag[..], order', tmp[i]);
        que' := que' + [tmp[i]];
        flag[tmp[i]] := true;
        order', par' := order' + [tmp[i]], par' + [at];
        limit := deg[tmp[i]];
      }
    }
    assert order'[at] == order[at];
    EndTargets(g, deg, order', par', at, limit);
  }

  lemma FlagAt(flag: seq<bool>, order: seq<nat>, x: nat)
    requires Flags(flag, order) && x < |flag|
    ensures flag[x] <==> x in order
  {
  }

  lemma SearchingBounds(g: Net, deg: seq<int>, order: seq<nat>, par: seq<nat>, done: nat)
    requires Searching(g, deg, order, par, done)
    ensures done <= |order| <= |deg| && Below(order, |deg|) && Distinct(order)
  {
    Pigeonhole(order, |deg|);
  }

  /** One search: everything that can be reached from i and has not been reached before. */
  method Search(g: Net, deg: seq<int>, order: seq<nat>, flag: array<bool>, i: nat, ghost par: seq<nat>)
    returns (order': seq<nat>, ghost par': seq<nat>)
    requires Usable(g) && |deg| == Vertices(g) == flag.Length && i < Vertices(g) && i !in order
    requires Searching(g, deg, order, par, |order|) && Flags(flag[..], order)
    requires forall v: nat :: v < |deg| && v !in order ==> deg[i] <= deg[v]
    modifies flag
    ensures Searching(g, deg, order', par', |order'|) && Flags(flag[..], order')
    ensures order + [i] <= order'
  {
    AddRoot(g, deg, order, par, i);
    FlagsAppend(flag[..], order, i);
    var que := [i];
    flag[i] := true;
    order', par' := order + [i], par + [|order|];
    ghost var at := |order|;
    hide Searching, Flags;
    SearchingBounds(g, deg, order', par', at);
    while que != []
      invariant at <= |order'| <= Vertices(g) && que == order'[at..] && order + [i] <= order'
      invariant Searching(g, deg, order', par', at) && Flags(flag[..], order')
      decreases Vertices(g) - at
    {
      SearchingBounds(g, deg, order', par', at);
      var now := que[0];
      assert now == order'[at];
      order', que, par' := VisitTargets(g, deg, order', que[1..], flag, now, par', at);
      at := at + 1;
      SearchingBounds(g, deg, order', par', at);
    }
  }

  /** The sparsest vertex not reached yet. */
  lemma SparsestLeft(deg: seq<int>, degreevertex: seq<nat>, order: seq<nat>, k: nat, v: nat)
    requires IsPermutation(degreevertex, |deg|) && k < |deg| && v < |deg| && v !in order
    requires forall i, j :: 0 <= i < j < |deg| ==> deg[degreevertex[i]] <= deg[degreevertex[j]]
    requires forall j :: 0 <= j < k ==> degreevertex[j] in order
    ensures deg[degreevertex[k]] <= deg[v]
  {
    Onto(degreevertex, |deg|, v);
    var j :| 0 <= j < |deg| && degreevertex[j] == v;
  }

  function Reversed(s: seq<nat>): (r: seq<nat>)
    ensures |r| == |s| && forall i :: 0 <= i < |r| ==> r[i] == s[|s| - 1 - i]
  {
    seq(|s|, i requires 0 <= i < |s| => s[|s| - 1 - i])
  }

  /** All searches, one after the other. */
  method CuthillMcKee(g: Net) returns (order: seq<nat>, ghost par: seq<nat>)
    requires Usable(g)
    ensures IsPermutation(order, Vertices(g)) && BreadthFirst(g, Degrees(g), order, par)
  {
    var n := Vertices(g);
    var deg := Degrees(g);
    var flag := new bool[n](_ => false);
    var degreevertex := StdSort.SortByKey(n, deg);
    order, par := [], [];
    for k := 0 to n
      invariant Searching(g, deg, order, par, |order|) && Flags(flag[..], order)
      invariant forall j :: 0 <= j < k ==> degreevertex[j] in order
    {
      var i := degreevertex[k];
      FlagAt(flag[..], order, i);
      if !flag[i] {
        forall v: nat | v < |deg| && v !in order ensures deg[i] <= deg[v] {
          SparsestLeft(deg, degreevertex, order, k, v);
        }
        ghost var before := order;
        order, par := Search(g, deg, order, flag, i, par);
        StillReached(degreevertex, before, i, order, k);
      }
    }
    forall v: nat | v < n ensures v in order {
      Onto(degreevertex, n, v);
    }
    FullLength(order, n);
  }

  lemma StillReached(degreevertex: seq<nat>, before: seq<nat>, i: nat, order: seq<nat>, k: nat)
    requires k < |degreevertex| && degreevertex[k] == i && before + [i] <= order
    requires forall j :: 0 <= j < k ==> degreevertex[j] in before
    ensures forall j :: 0 <= j < k + 1 ==> degreevertex[j] in order
  {
    forall j | 0 <= j < k + 1 ensures degreevertex[j] in order {
      if j < k {
        var p :| 0 <= p < |before| && before[p] == degreevertex[j];
        assert order[p] == (before + [i])[p];
      } else {
        assert order[|before|] == (before + [i])[|before|];
      }
    }
  }

  /** The new number of every vertex: its position counted from the end of the search order. */
  method RcmOrder(g: Net) returns (retorder: seq<nat>, ghost order: seq<nat>, ghost par: seq<nat>)
    requires Usable(g)
    ensures BreadthFirst(g, Degrees(g), order, par) && IsPermutation(order, Vertices(g))
    ensures Inverse(retorder, Reversed(order), Vertices(g))
    ensures IsPermutation(retorder, Vertices(g))
  {
    var n := Vertices(g);
    var found;
    found, par := CuthillMcKee(g);
    order := found;
    retorder := seq(n, _ => 0);
    for i := 0 to n
      invariant |retorder| == n && forall j :: 0 <= j < i ==> retorder[found[j]] == n - 1 - j
    {
      retorder := retorder[found[i] := n - 1 - i];
    }
    forall i, j | 0 <= i < j < n ensures Reversed(order)[i] != Reversed(order)[j] {
      assert order[n - 1 - j] != order[n - 1 - i];
    }
    TableInverts(Reversed(order), retorder, n);
    InversePermutations(retorder, Reversed(order), n);
  }
}
