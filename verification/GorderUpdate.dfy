/** Updating the scores when one vertex leaves the window and another enters it. */
module GorderUpdate {
  import opened Csr
  import opened UnitHeapSpec
  import opened GorderSpec
  import opened GorderHeap
  import opened RowSearch
  import UH = UnitHeap

  function Marked(popvexist: seq<bool>): set<nat> {
    set u | 0 <= u < |popvexist| && popvexist[u]
  }

  ghost predicate Fitting(g: Net, b: Book) {
    Simple(g) && |b.val| == |b.fixed| == |b.peak| == Vertices(g)
  }

  /** b with other values. */
  function With(b: Book, val: seq<int>): Book { b.(val := val) }

  /** A value raised or lowered by some amount. */
  function Changed(value: int, up: bool, amount: nat): int { if up then value + amount else value - amount }

  /** No deleted vertex may be brought down to its sentinel. */
  ghost predicate Protected(b: Book, val: seq<int>)
    requires |val| == |b.val| == |b.fixed|
  {
    forall x :: 0 <= x < |val| ==> val[x] > b.fixed[x] || x in b.live
  }

  /** The vertices that one in-neighbour u raises, in the order of the program; a spared one only itself. */
  function ParentSteps(g: Net, huge: nat, u: nat, spared: bool): seq<nat>
    requires HasRow(g.out, u)
  {
    if !LightVertex(g, huge, u) then []
    else [u] + if Degree(g.out, u) > 1 && !spared then Row(g.out, u) else []
  }

  /** Those that the in-neighbours of x up to index i raise. */
  ghost function ParentsSteps(g: Net, huge: nat, x: nat, i: nat, spared: set<nat>): seq<nat>
    requires Simple(g) && HasRow(g.inn, x) && g.inn.VI[x] <= i <= RowEnd(g.inn, x)
    decreases i
  {
    if i == g.inn.VI[x] then []
    else
      assert HasRow(g.out, g.inn.EI[i - 1]);
      ParentsSteps(g, huge, x, i - 1, spared) + ParentSteps(g, huge, g.inn.EI[i - 1], g.inn.EI[i - 1] in spared)
  }

  function ChildSteps(g: Net, huge: nat, v: nat): seq<nat>
    requires HasRow(g.out, v)
  {
    if LightVertex(g, huge, v) then Row(g.out, v) else []
  }

  lemma ParentsNext(g: Net, huge: nat, x: nat, i: nat, spared: set<nat>)
    requires Simple(g) && HasRow(g.inn, x) && g.inn.VI[x] <= i < RowEnd(g.inn, x)
    ensures HasRow(g.out, g.inn.EI[i])
    ensures ParentsSteps(g, huge, x, i + 1, spared)
         == ParentsSteps(g, huge, x, i, spared) + ParentSteps(g, huge, g.inn.EI[i], g.inn.EI[i] in spared)
  {
    assert HasRow(g.out, g.inn.EI[i]);
    hide Row, StrictRows;
  }

  lemma {:induction false} ParentsStepsGrow(g: Net, huge: nat, x: nat, i: nat, k: nat, spared: set<nat>)
    requires Simple(g) && HasRow(g.inn, x) && g.inn.VI[x] <= i <= k <= RowEnd(g.inn, x)
    ensures ParentsSteps(g, huge, x, i, spared) <= ParentsSteps(g, huge, x, k, spared)
    decreases k
  {
    hide Simple, ParentsSteps, ParentSteps;
    if i < k {
      ParentsStepsGrow(g, huge, x, i, k - 1, spared);
      ParentsNext(g, huge, x, k - 1, spared);
    }
  }

  /** Following all in-neighbours means following the one at index i at its turn. */
  lemma FollowsParent(g: Net, huge: nat, x: nat, i: nat, r: Raising, j: nat)
    requires Simple(g) && HasRow(g.inn, x) && g.inn.VI[x] <= i < RowEnd(g.inn, x)
    requires Follows(r, j, ParentsSteps(g, huge, x, RowEnd(g.inn, x), {}))
    ensures HasRow(g.out, g.inn.EI[i])
    ensures Follows(r, j + |ParentsSteps(g, huge, x, i, {})|, ParentSteps(g, huge, g.inn.EI[i], false))
    ensures |ParentsSteps(g, huge, x, i + 1, {})|
         == |ParentsSteps(g, huge, x, i, {})| + |ParentSteps(g, huge, g.inn.EI[i], false)|
  {
    hide Simple, ParentsSteps, ParentSteps, Follows;
    ParentsNext(g, huge, x, i, {});
    ParentsStepsGrow(g, huge, x, i + 1, RowEnd(g.inn, x), {});
    var all, next := ParentsSteps(g, huge, x, RowEnd(g.inn, x), {}), ParentsSteps(g, huge, x, i + 1, {});
    assert all == next + all[|next|..];
    FollowsBoth(r, j, next, all[|next|..]);
    FollowsBoth(r, j, ParentsSteps(g, huge, x, i, {}), ParentSteps(g, huge, g.inn.EI[i], false));
  }

  method AddChildren(g: Net, huge: nat, heap: UH.UnitHeap, v: nat, ghost b: Book, ghost val': seq<int>,
                     ghost room: Room, ghost r: Raising, ghost j: nat)
    returns (ok: bool)
    requires Fitting(g, b) && Holds(heap, b) && HasRow(g.out, v) && |val'| == |b.val|
    requires forall w :: 0 <= w < |b.val| ==>
               val'[w] == b.val[w] + (if LightVertex(g, huge, v) then Times(g.out, v, w) else 0)
    requires Peaked(b, val') && Spare(heap, room.safe)
    modifies heap, heap.update, heap.LinkedList
    ensures ok ==> Holds(heap, With(b, val')) && |heap.Header| >= old(|heap.Header|)
    ensures ok ==> heap.View() == BumpedBy(old(heap.View()), ChildSteps(g, huge, v))
    ensures if ok then Spare(heap, room.safe) else Reached(b, val', old(|heap.Header|), room.safe)
    ensures ok && old(Full(heap, room)) && Low(b.live, val', room) ==> Full(heap, room)
    ensures old(Track(heap, b, r, j)) && Follows(r, j, ChildSteps(g, huge, v)) ==>
              if ok then Track(heap, With(b, val'), r, j + |ChildSteps(g, huge, v)|) else Quits(r)
  {
    hide Holds, Spare, Full, Track, Quits, Follows, BumpedBy;
    if Degree(g.out, v) <= huge {
      ok := BumpRow(heap, g.out.EI, g.out.VI[v], RowEnd(g.out, v), b, val', room, r, j);
    } else {
      BumpedByMore(heap.View(), [], 0);
      assert val' == b.val;
      ok := true;
    }
  }

  method DropChildren(g: Net, huge: nat, heap: UH.UnitHeap, v: nat, ghost b: Book, ghost val': seq<int>)
    requires Fitting(g, b) && Holds(heap, b) && HasRow(g.out, v) && |val'| == |b.val|
    requires forall w :: 0 <= w < |b.val| ==>
               val'[w] == b.val[w] - (if LightVertex(g, huge, v) then Times(g.out, v, w) else 0)
    requires Protected(b, val')
    modifies heap.update
    ensures Holds(heap, With(b, val'))
  {
    if Degree(g.out, v) <= huge {
      DropRow(heap, g.out.EI, g.out.VI[v], RowEnd(g.out, v), b, val');
    } else {
      assert val' == b.val;
    }
  }

  /** One in-neighbour of the new vertex; a marked one only loses its mark instead of its row. */
  method AddParent(g: Net, huge: nat, heap: UH.UnitHeap, u: nat, popvexist: seq<bool>,
                   ghost b: Book, ghost val': seq<int>, ghost room: Room, ghost r: Raising, ghost j: nat)
    returns (ok: bool, marks: seq<bool>)
    requires Fitting(g, b) && Holds(heap, b) && u < Vertices(g) && HasRow(g.out, u)
    requires |val'| == |b.val| == |popvexist|
    requires forall w :: 0 <= w < |b.val| ==> val'[w] == b.val[w] + FromParent(g, huge, u, Marked(popvexist), w)
    requires Peaked(b, val') && Spare(heap, room.safe)
    modifies heap, heap.update, heap.LinkedList
    ensures ok ==> Holds(heap, With(b, val')) && |heap.Header| >= old(|heap.Header|)
    ensures if ok then Spare(heap, room.safe) else Reached(b, val', old(|heap.Header|), room.safe)
    ensures ok && old(Full(heap, room)) && Low(b.live, val', room) ==> Full(heap, room)
    ensures ok ==> heap.View() == BumpedBy(old(heap.View()), ParentSteps(g, huge, u, popvexist[u]))
    ensures old(Track(heap, b, r, j)) && Follows(r, j, ParentSteps(g, huge, u, false)) && !popvexist[u] ==>
              if ok then Track(heap, With(b, val'), r, j + |ParentSteps(g, huge, u, false)|) else Quits(r)
    ensures marks == if LightVertex(g, huge, u) then popvexist[u := false] else popvexist
  {
    hide Holds, Spare, Full, Track, Quits, Feeders, Bumped, BumpedBy;
    BumpedByMore(heap.View(), [], u);
    marks := if Degree(g.out, u) <= huge then popvexist[u := false] else popvexist;
    if Degree(g.out, u) > huge {
      assert val' == b.val;
      return true, marks;
    }
    ghost var rest := ParentSteps(g, huge, u, popvexist[u])[1..];
    FollowsBoth(r, j, [u], rest);
    BumpedByBoth(heap.View(), [u], rest);
    assert ParentSteps(g, huge, u, popvexist[u]) == [u] + rest && [] + [u] == [u];
    ok := Bump(heap, u, b, room, r, j);
    if !ok {
      return;
    }
    ghost var bumped := b.val[u := b.val[u] + 1];
    forall w | 0 <= w < |b.val|
      ensures val'[w] == bumped[w]
                         + (if !popvexist[u] && Degree(g.out, u) > 1
                            then Occurrences(g.out.EI, g.out.VI[u], RowEnd(g.out, u), w) else 0)
    {
      RowBrings(g, huge, u, w);
    }
    if !popvexist[u] && Degree(g.out, u) > 1 {
      ok := BumpRow(heap, g.out.EI, g.out.VI[u], RowEnd(g.out, u), With(b, bumped), val', room, r, j + 1);
    } else {
      assert val' == bumped;
      BumpedByMore(heap.View(), [], u);
    }
  }

  /** One in-neighbour of the popped vertex; when the new vertex v is in its row, too, it is marked. */
  method DropParent(g: Net, huge: nat, heap: UH.UnitHeap, u: nat, v: nat, popvexist: seq<bool>,
                    ghost b: Book, ghost val': seq<int>)
    returns (marks: seq<bool>)
    requires Fitting(g, b) && Holds(heap, b) && u < Vertices(g) && v < Vertices(g) && HasRow(g.out, u)
    requires |val'| == |b.val| == |popvexist|
    requires forall w :: 0 <= w < |b.val| ==> val'[w] == b.val[w] - FromParent(g, huge, u, SourcesOf(g, v), w)
    requires Protected(b, val')
    modifies heap.update
    ensures Holds(heap, With(b, val'))
    ensures marks == if LightVertex(g, huge, u) && Degree(g.out, u) > 1 && Edge(g, u, v)
                     then popvexist[u := true] else popvexist
  {
    hide Holds, Feeders;
    marks := popvexist;
    if Degree(g.out, u) > huge {
      assert val' == b.val;
      return;
    }
    Drop(heap, u, b);
    ghost var dropped := b.val[u := b.val[u] - 1];
    forall w | 0 <= w < |b.val|
      ensures val'[w] == dropped[w]
                         - (if Degree(g.out, u) > 1 && !Edge(g, u, v)
                            then Occurrences(g.out.EI, g.out.VI[u], RowEnd(g.out, u), w) else 0)
    {
      RowBrings(g, huge, u, w);
    }
    if Degree(g.out, u) > 1 {
      assert Strict(g.out.EI, g.out.VI[u], RowEnd(g.out, u));
      var found := BinarySearch(g.out.EI, g.out.VI[u], RowEnd(g.out, u), v);
      if !found {
        DropRow(heap, g.out.EI, g.out.VI[u], RowEnd(g.out, u), With(b, dropped), val');
      } else {
        marks := popvexist[u := true];
        assert val' == dropped;
      }
    } else {
      assert val' == dropped;
    }
  }

  /** b after the in-neighbours of x up to index i have been added (up) or dropped (not up). */
  ghost function Walked(g: Net, huge: nat, x: nat, i: nat, spared: set<nat>, b: Book, up: bool): (val: seq<int>)
    requires Fitting(g, b) && HasRow(g.inn, x) && g.inn.VI[x] <= i <= RowEnd(g.inn, x)
    ensures |val| == |b.val|
    ensures forall w :: 0 <= w < |val| ==>
              HasRow(g.out, w) && val[w] == Changed(b.val[w], up, FromParents(g, huge, x, i, spared, w))
  {
    seq(|b.val|, w requires 0 <= w < |b.val| =>
      assert HasRow(g.out, w); Changed(b.val[w], up, FromParents(g, huge, x, i, spared, w)))
  }

  lemma WalkedStep(g: Net, huge: nat, x: nat, i: nat, spared: set<nat>, b: Book, up: bool)
    requires Fitting(g, b) && HasRow(g.inn, x) && g.inn.VI[x] <= i < RowEnd(g.inn, x)
    ensures g.inn.EI[i] < Vertices(g) && HasRow(g.out, g.inn.EI[i])
    ensures
      var before, after := Walked(g, huge, x, i, spared, b, up), Walked(g, huge, x, i + 1, spared, b, up);
      forall w :: 0 <= w < |b.val| ==> after[w] == Changed(before[w], up, FromParent(g, huge, g.inn.EI[i], spared, w))
  {
    assert HasRow(g.out, g.inn.EI[i]);
    var before, after := Walked(g, huge, x, i, spared, b, up), Walked(g, huge, x, i + 1, spared, b, up);
    forall w | 0 <= w < |b.val|
      ensures after[w] == Changed(before[w], up, FromParent(g, huge, g.inn.EI[i], spared, w))
    {
      assert HasRow(g.out, w);
      FromParentsStep(g, huge, x, i, spared, w);
    }
  }

  lemma WalkedGrows(g: Net, huge: nat, x: nat, i: nat, j: nat, spared: set<nat>, b: Book)
    requires Fitting(g, b) && HasRow(g.inn, x) && g.inn.VI[x] <= i <= j <= RowEnd(g.inn, x)
    ensures forall w :: 0 <= w < |b.val| ==>
              Walked(g, huge, x, i, spared, b, true)[w] <= Walked(g, huge, x, j, spared, b, true)[w]
    ensures forall w :: 0 <= w < |b.val| ==>
              Walked(g, huge, x, i, spared, b, false)[w] >= Walked(g, huge, x, j, spared, b, false)[w]
  {
    forall w | 0 <= w < |b.val|
      ensures Walked(g, huge, x, i, spared, b, true)[w] <= Walked(g, huge, x, j, spared, b, true)[w]
      ensures Walked(g, huge, x, i, spared, b, false)[w] >= Walked(g, huge, x, j, spared, b, false)[w]
    {
      assert HasRow(g.out, w);
      FromParentsGrow(g, huge, x, i, j, spared, w);
    }
  }

  /** What holds of the whole walk holds of its next step. */
  lemma WalkedWithin(g: Net, huge: nat, x: nat, i: nat, spared: set<nat>, b: Book, room: Room)
    requires Fitting(g, b) && HasRow(g.inn, x) && g.inn.VI[x] <= i < RowEnd(g.inn, x)
    ensures Peaked(b, Walked(g, huge, x, RowEnd(g.inn, x), spared, b, true)) ==>
              Peaked(With(b, Walked(g, huge, x, i, spared, b, true)), Walked(g, huge, x, i + 1, spared, b, true))
    ensures Low(b.live, Walked(g, huge, x, RowEnd(g.inn, x), spared, b, true), room) ==>
              Low(b.live, Walked(g, huge, x, i + 1, spared, b, true), room)
    ensures Protected(b, Walked(g, huge, x, RowEnd(g.inn, x), spared, b, false)) ==>
              Protected(With(b, Walked(g, huge, x, i, spared, b, false)), Walked(g, huge, x, i + 1, spared, b, false))
  {
    WalkedGrows(g, huge, x, i + 1, RowEnd(g.inn, x), spared, b);
    hide Walked, Simple;
  }

  lemma WalkedStart(g: Net, huge: nat, x: nat, spared: set<nat>, b: Book, up: bool)
    requires Fitting(g, b) && HasRow(g.inn, x)
    ensures Walked(g, huge, x, g.inn.VI[x], spared, b, up) == b.val
  {
  }

  /** The marked in-neighbours from index i on; a mark is taken away when its vertex is reached. */
  ghost predicate MarksFrom(g: Net, x: nat, i: nat, marks: seq<bool>, marked: set<nat>)
    requires HasRow(g.inn, x) && g.inn.VI[x] <= i <= RowEnd(g.inn, x)
  {
    forall u: nat :: u < |marks| ==>
      (marks[u] <==> u in marked && Occurrences(g.inn.EI, g.inn.VI[x], i, u) == 0)
  }

  /** At the moment u is reached, sparing the vertices still marked and sparing all that ever
      were is the same for u; and giving up its mark keeps the book. */
  lemma MarkedHere(g: Net, huge: nat, v: nat, i: nat, marks: seq<bool>, marked: set<nat>)
    requires Simple(g) && HasRow(g.inn, v) && v < Vertices(g) && g.inn.VI[v] <= i < RowEnd(g.inn, v)
    requires |marks| == Vertices(g) && MarksFrom(g, v, i, marks, marked)
    requires forall u: nat :: u in marked ==> u < |marks| && HasRow(g.out, u) && LightVertex(g, huge, u)
    ensures g.inn.EI[i] < |marks| && HasRow(g.out, g.inn.EI[i]) && (marks[g.inn.EI[i]] <==> g.inn.EI[i] in marked)
    ensures forall w :: 0 <= w < Vertices(g) ==>
              FromParent(g, huge, g.inn.EI[i], Marked(marks), w) == FromParent(g, huge, g.inn.EI[i], marked, w)
    ensures
      var u := g.inn.EI[i];
      MarksFrom(g, v, i + 1, if LightVertex(g, huge, u) then marks[u := false] else marks, marked)
  {
    var u := g.inn.EI[i];
    assert HasRow(g.out, u);
    OccursIff(g.inn.EI, g.inn.VI[v], i, u);
  }

  /** What AddParents may be handed as marks: some of the in-neighbours of v. */
  ghost predicate MarksParents(g: Net, huge: nat, v: nat, popvexist: seq<bool>)
    requires HasRow(g.inn, v)
  {
    forall u: nat :: u < |popvexist| && popvexist[u] ==>
      HasRow(g.out, u) && LightVertex(g, huge, u) && Times(g.inn, v, u) > 0
  }

  lemma MarksAtStart(g: Net, huge: nat, v: nat, popvexist: seq<bool>)
    requires HasRow(g.inn, v) && MarksParents(g, huge, v, popvexist)
    ensures MarksFrom(g, v, g.inn.VI[v], popvexist, Marked(popvexist))
    ensures forall u: nat :: u in Marked(popvexist) ==>
              u < |popvexist| && HasRow(g.out, u) && LightVertex(g, huge, u)
  {
  }

  /** Every mark belonged to an in-neighbour, so all are gone at the end of the row. */
  lemma MarksGone(g: Net, huge: nat, v: nat, popvexist: seq<bool>, marks: seq<bool>)
    requires HasRow(g.inn, v) && MarksParents(g, huge, v, popvexist)
    requires MarksFrom(g, v, RowEnd(g.inn, v), marks, Marked(popvexist))
    ensures forall u :: 0 <= u < |marks| ==> !marks[u]
  {
  }

  lemma NoStepsYet(g: Net, huge: nat, v: nat, b: Book, spared: set<nat>)
    requires Fitting(g, b) && HasRow(g.inn, v)
    ensures Simple(g) && ParentsSteps(g, huge, v, g.inn.VI[v], spared) == [] && With(b, b.val) == b
  {
  }

  /** The in-neighbours of the new vertex v; afterwards no vertex is marked. */
  method AddParents(g: Net, huge: nat, heap: UH.UnitHeap, v: nat, popvexist: seq<bool>,
                    ghost b: Book, ghost room: Room, ghost r: Raising, ghost j: nat)
    returns (ok: bool, marks: seq<bool>)
    requires Fitting(g, b) && Holds(heap, b) && v < Vertices(g) && HasRow(g.inn, v)
    requires |popvexist| == |b.val| && MarksParents(g, huge, v, popvexist)
    requires Peaked(b, Walked(g, huge, v, RowEnd(g.inn, v), Marked(popvexist), b, true)) && Spare(heap, room.safe)
    modifies heap, heap.update, heap.LinkedList
    ensures ok ==> Holds(heap, With(b, Walked(g, huge, v, RowEnd(g.inn, v), Marked(popvexist), b, true)))
    ensures ok ==> |heap.Header| >= old(|heap.Header|)
    ensures
      var steps := ParentsSteps(g, huge, v, RowEnd(g.inn, v), Marked(popvexist));
      ok ==> heap.View() == BumpedBy(old(heap.View()), steps)
    ensures ok ==> |marks| == |popvexist| && forall u :: 0 <= u < |marks| ==> !marks[u]
    ensures
      var all := Walked(g, huge, v, RowEnd(g.inn, v), Marked(popvexist), b, true);
      && (if ok then Spare(heap, room.safe) else Reached(b, all, old(|heap.Header|), room.safe))
      && (ok && old(Full(heap, room)) && Low(b.live, all, room) ==> Full(heap, room))
    ensures
      var steps := ParentsSteps(g, huge, v, RowEnd(g.inn, v), {});
      old(Track(heap, b, r, j)) && Follows(r, j, steps) && Marked(popvexist) == {} ==>
        if ok then Track(heap, With(b, Walked(g, huge, v, RowEnd(g.inn, v), {}, b, true)), r, j + |steps|) else Quits(r)
  {
    hide MarksFrom, MarksParents, Marked, RowEnd, Fitting, Holds, Spare, Full, Low, Track, Quits, Follows, Peaked;
    hide Walked, ParentsSteps, ParentSteps, BumpedBy;
    var lo, hi := g.inn.VI[v], RowEnd(g.inn, v);
    marks := popvexist;
    ok := true;
    ghost var marked := Marked(popvexist);
    assert Walked(g, huge, v, lo, marked, b, true) == b.val by {
      WalkedStart(g, huge, v, marked, b, true);
    }
    MarksAtStart(g, huge, v, popvexist);
    NoStepsYet(g, huge, v, b, marked);
    BumpedByMore(heap.View(), [], 0);
    for i := lo to hi
      invariant |marks| == |popvexist| && MarksFrom(g, v, i, marks, marked)
      invariant Holds(heap, With(b, Walked(g, huge, v, i, marked, b, true)))
      invariant |heap.Header| >= old(|heap.Header|) && Spare(heap, room.safe)
      invariant heap.View() == BumpedBy(old(heap.View()), ParentsSteps(g, huge, v, i, marked))
      invariant old(Full(heap, room)) && Low(b.live, Walked(g, huge, v, hi, marked, b, true), room) ==>
                  Full(heap, room)
      invariant old(Track(heap, b, r, j)) && Follows(r, j, ParentsSteps(g, huge, v, hi, {})) && marked == {} ==>
                  Track(heap, With(b, Walked(g, huge, v, i, marked, b, true)), r,
                        j + |ParentsSteps(g, huge, v, i, {})|)
    {
      if Follows(r, j, ParentsSteps(g, huge, v, hi, {})) {
        FollowsParent(g, huge, v, i, r, j);
      }
      ParentsNext(g, huge, v, i, marked);
      BumpedByBoth(old(heap.View()), ParentsSteps(g, huge, v, i, marked),
                   ParentSteps(g, huge, g.inn.EI[i], g.inn.EI[i] in marked));
      ok, marks := AddParentAt(g, huge, heap, v, i, marks, b, marked, room, r,
                               j + |ParentsSteps(g, huge, v, i, {})|);
      if !ok {
        return;
      }
    }
    MarksGone(g, huge, v, popvexist, marks);
  }

  method AddParentAt(g: Net, huge: nat, heap: UH.UnitHeap, v: nat, i: nat, popvexist: seq<bool>,
                     ghost b: Book, ghost marked: set<nat>, ghost room: Room, ghost r: Raising, ghost j: nat)
    returns (ok: bool, marks: seq<bool>)
    requires Fitting(g, b) && v < Vertices(g)
    requires HasRow(g.inn, v) && g.inn.VI[v] <= i < RowEnd(g.inn, v)
    requires |popvexist| == |b.val| && MarksFrom(g, v, i, popvexist, marked)
    requires forall u: nat :: u in marked ==> u < |popvexist| && HasRow(g.out, u) && LightVertex(g, huge, u)
    requires Holds(heap, With(b, Walked(g, huge, v, i, marked, b, true)))
    requires Peaked(b, Walked(g, huge, v, RowEnd(g.inn, v), marked, b, true)) && Spare(heap, room.safe)
    modifies heap, heap.update, heap.LinkedList
    ensures ok ==> Holds(heap, With(b, Walked(g, huge, v, i + 1, marked, b, true)))
    ensures ok ==> |heap.Header| >= old(|heap.Header|)
    ensures ok ==> |marks| == |popvexist| && MarksFrom(g, v, i + 1, marks, marked)
    ensures HasRow(g.out, g.inn.EI[i])
    ensures
      var steps := ParentSteps(g, huge, g.inn.EI[i], g.inn.EI[i] in marked);
      ok ==> heap.View() == BumpedBy(old(heap.View()), steps)
    ensures
      var all := Walked(g, huge, v, RowEnd(g.inn, v), marked, b, true);
      && (if ok then Spare(heap, room.safe) else Reached(b, all, old(|heap.Header|), room.safe))
      && (ok && old(Full(heap, room)) && Low(b.live, all, room) ==> Full(heap, room))
    ensures old(Track(heap, With(b, Walked(g, huge, v, i, marked, b, true)), r, j)) && marked == {}
            && HasRow(g.out, g.inn.EI[i]) && Follows(r, j, ParentSteps(g, huge, g.inn.EI[i], false)) ==>
              if ok then
                Track(heap, With(b, Walked(g, huge, v, i + 1, marked, b, true)), r,
                      j + |ParentSteps(g, huge, g.inn.EI[i], false)|)
              else Quits(r)
  {
    hide Holds, Spare, Full, Track, Quits, Follows, ParentSteps, Peaked, Walked, MarksFrom, Simple, FromParent, Marked;
    hide BumpedBy;
    ghost var now := With(b, Walked(g, huge, v, i, marked, b, true));
    ghost var next := Walked(g, huge, v, i + 1, marked, b, true);
    WalkedWithin(g, huge, v, i, marked, b, room);
    WalkedStep(g, huge, v, i, marked, b, true);
    MarkedHere(g, huge, v, i, popvexist, marked);
    ok, marks := AddParent(g, huge, heap, g.inn.EI[i], popvexist, now, next, room, r, j);
    if !ok {
      WalkedGrows(g, huge, v, i + 1, RowEnd(g.inn, v), marked, b);
    }
  }

  /** The vertices marked after the in-neighbours of popv up to index i. */
  ghost predicate MarksTo(g: Net, huge: nat, popv: nat, i: nat, v: nat, marks: seq<bool>)
    requires HasRow(g.inn, popv) && g.inn.VI[popv] <= i <= RowEnd(g.inn, popv)
  {
    forall u: nat :: u < |marks| ==>
      (marks[u] <==> HasRow(g.out, u) && Occurrences(g.inn.EI, g.inn.VI[popv], i, u) > 0
                     && LightVertex(g, huge, u) && Degree(g.out, u) > 1 && Edge(g, u, v))
  }

  lemma MarksToStep(g: Net, huge: nat, popv: nat, i: nat, v: nat, marks: seq<bool>, marks': seq<bool>)
    requires HasRow(g.inn, popv) && g.inn.VI[popv] <= i < RowEnd(g.inn, popv) && HasRow(g.out, g.inn.EI[i])
    requires MarksTo(g, huge, popv, i, v, marks) && g.inn.EI[i] < |marks|
    requires
      var u := g.inn.EI[i];
      marks' == if LightVertex(g, huge, u) && Degree(g.out, u) > 1 && Edge(g, u, v) then marks[u := true] else marks
    ensures MarksTo(g, huge, popv, i + 1, v, marks')
  {
  }

  lemma MarksToStart(g: Net, huge: nat, popv: nat, v: nat, popvexist: seq<bool>)
    requires HasRow(g.inn, popv) && forall u :: 0 <= u < |popvexist| ==> !popvexist[u]
    ensures MarksTo(g, huge, popv, g.inn.VI[popv], v, popvexist)
  {
  }

  lemma MarksToEnd(g: Net, huge: nat, popv: nat, v: nat, marks: seq<bool>, b: Book)
    requires Fitting(g, b) && |marks| == |b.val| && HasRow(g.inn, popv) && popv < Vertices(g)
    requires MarksTo(g, huge, popv, RowEnd(g.inn, popv), v, marks)
    ensures Marked(marks) == Shared(g, huge, popv, v)
  {
  }

  /** The in-neighbours of the popped vertex; the shared ones are left to be cancelled. */
  method DropParents(g: Net, huge: nat, heap: UH.UnitHeap, popv: nat, v: nat, popvexist: seq<bool>, ghost b: Book)
    returns (marks: seq<bool>)
    requires Fitting(g, b) && Holds(heap, b) && popv < Vertices(g) && v < Vertices(g) && HasRow(g.inn, popv)
    requires |popvexist| == |b.val| && forall u :: 0 <= u < |popvexist| ==> !popvexist[u]
    requires Protected(b, Walked(g, huge, popv, RowEnd(g.inn, popv), SourcesOf(g, v), b, false))
    modifies heap.update
    ensures Holds(heap, With(b, Walked(g, huge, popv, RowEnd(g.inn, popv), SourcesOf(g, v), b, false)))
    ensures |marks| == |popvexist| && Marked(marks) == Shared(g, huge, popv, v)
  {
    hide MarksTo, Marked, RowEnd, Fitting, Holds, Protected, Walked;
    var lo, hi := g.inn.VI[popv], RowEnd(g.inn, popv);
    marks := popvexist;
    assert Walked(g, huge, popv, lo, SourcesOf(g, v), b, false) == b.val by {
      WalkedStart(g, huge, popv, SourcesOf(g, v), b, false);
    }
    MarksToStart(g, huge, popv, v, popvexist);
    for i := lo to hi
      invariant |marks| == |popvexist| && MarksTo(g, huge, popv, i, v, marks)
      invariant Holds(heap, With(b, Walked(g, huge, popv, i, SourcesOf(g, v), b, false)))
    {
      marks := DropParentAt(g, huge, heap, popv, v, i, marks, b);
    }
    MarksToEnd(g, huge, popv, v, marks, b);
  }

  method DropParentAt(g: Net, huge: nat, heap: UH.UnitHeap, popv: nat, v: nat, i: nat, popvexist: seq<bool>,
                      ghost b: Book)
    returns (marks: seq<bool>)
    requires Fitting(g, b) && popv < Vertices(g) && v < Vertices(g)
    requires HasRow(g.inn, popv) && g.inn.VI[popv] <= i < RowEnd(g.inn, popv)
    requires |popvexist| == |b.val| && MarksTo(g, huge, popv, i, v, popvexist)
    requires Holds(heap, With(b, Walked(g, huge, popv, i, SourcesOf(g, v), b, false)))
    requires Protected(b, Walked(g, huge, popv, RowEnd(g.inn, popv), SourcesOf(g, v), b, false))
    modifies heap.update
    ensures Holds(heap, With(b, Walked(g, huge, popv, i + 1, SourcesOf(g, v), b, false)))
    ensures |marks| == |popvexist| && MarksTo(g, huge, popv, i + 1, v, marks)
  {
    hide Holds, Protected, Walked, MarksTo, Simple, FromParent, SourcesOf;
    ghost var now := With(b, Walked(g, huge, popv, i, SourcesOf(g, v), b, false));
    ghost var next := Walked(g, huge, popv, i + 1, SourcesOf(g, v), b, false);
    WalkedWithin(g, huge, popv, i, SourcesOf(g, v), b, Room({}, {}, 0));
    WalkedStep(g, huge, popv, i, SourcesOf(g, v), b, false);
    marks := DropParent(g, huge, heap, g.inn.EI[i], v, popvexist, now, next);
    MarksToStep(g, huge, popv, i, v, popvexist, marks);
  }

  /** b after x has entered (up) or left (not up) the window. */
  ghost function Moved(g: Net, huge: nat, x: nat, b: Book, up: bool): (val: seq<int>)
    requires Fitting(g, b) && x < Vertices(g)
    ensures |val| == |b.val|
    ensures forall w :: 0 <= w < |val| ==>
              HasRow(g.out, w) && HasRow(g.out, x) && HasRow(g.inn, x)
              && val[w] == Changed(b.val[w], up, Contribution(g, huge, x, w))
  {
    assert HasRow(g.out, x) && HasRow(g.inn, x);
    seq(|b.val|, w requires 0 <= w < |b.val| =>
      assert HasRow(g.out, w); Changed(b.val[w], up, Contribution(g, huge, x, w)))
  }

  /** The part of a move that concerns the targets of x. */
  ghost function ByChildren(g: Net, huge: nat, x: nat, b: Book, up: bool): (val: seq<int>)
    requires Fitting(g, b) && HasRow(g.out, x)
    ensures |val| == |b.val|
    ensures forall w :: 0 <= w < |val| ==>
              val[w] == Changed(b.val[w], up, if LightVertex(g, huge, x) then Times(g.out, x, w) else 0)
  {
    seq(|b.val|, w requires 0 <= w < |b.val| =>
      Changed(b.val[w], up, if LightVertex(g, huge, x) then Times(g.out, x, w) else 0))
  }

  /** Both parts of a move, with the rows of spared in-neighbours left out. */
  ghost function Spared(g: Net, huge: nat, x: nat, spared: set<nat>, b: Book, up: bool): (val: seq<int>)
    requires Fitting(g, b) && HasRow(g.out, x) && HasRow(g.inn, x)
    ensures |val| == |b.val|
    ensures forall w :: 0 <= w < |val| ==>
              HasRow(g.out, w) && val[w] == Changed(b.val[w], up, Partly(g, huge, x, spared, w))
  {
    seq(|b.val|, w requires 0 <= w < |b.val| =>
      assert HasRow(g.out, w); Changed(b.val[w], up, Partly(g, huge, x, spared, w)))
  }

  lemma SparedInTwoParts(g: Net, huge: nat, x: nat, spared: set<nat>, b: Book, up: bool)
    requires Fitting(g, b) && HasRow(g.out, x) && HasRow(g.inn, x)
    ensures Spared(g, huge, x, spared, b, up)
         == Walked(g, huge, x, RowEnd(g.inn, x), spared, With(b, ByChildren(g, huge, x, b, up)), up)
  {
    var parts := Walked(g, huge, x, RowEnd(g.inn, x), spared, With(b, ByChildren(g, huge, x, b, up)), up);
    forall w | 0 <= w < |b.val| ensures Spared(g, huge, x, spared, b, up)[w] == parts[w] {
      assert HasRow(g.out, w);
    }
  }

  /** popv leaves the window. */
  method PopVertex(g: Net, huge: nat, heap: UH.UnitHeap, popv: nat, v: nat, popvexist: seq<bool>, ghost b: Book)
    returns (marks: seq<bool>)
    requires Fitting(g, b) && Holds(heap, b) && popv < Vertices(g) && v < Vertices(g)
    requires |popvexist| == |b.val| && forall u :: 0 <= u < |popvexist| ==> !popvexist[u]
    requires Protected(b, Moved(g, huge, popv, b, false))
    modifies heap.update
    ensures HasRow(g.out, popv) && HasRow(g.inn, popv)
    ensures Holds(heap, With(b, Spared(g, huge, popv, SourcesOf(g, v), b, false)))
    ensures |marks| == |popvexist| && Marked(marks) == Shared(g, huge, popv, v)
  {
    assert HasRow(g.out, popv) && HasRow(g.inn, popv);
    ghost var p := SourcesOf(g, v);
    ghost var b1 := With(b, ByChildren(g, huge, popv, b, false));
    forall w | 0 <= w < |b.val|
      ensures b1.val[w] >= Spared(g, huge, popv, p, b, false)[w] >= Moved(g, huge, popv, b, false)[w]
    {
      PartlyAtMost(g, huge, popv, p, w);
    }
    SparedInTwoParts(g, huge, popv, p, b, false);
    DropChildren(g, huge, heap, popv, b, b1.val);
    marks := DropParents(g, huge, heap, popv, v, popvexist, b1);
  }

  lemma PartlyAtMost(g: Net, huge: nat, x: nat, spared: set<nat>, w: nat)
    requires HasRow(g.out, x) && HasRow(g.inn, x) && HasRow(g.out, w)
    ensures Partly(g, huge, x, spared, w) <= Contribution(g, huge, x, w)
    ensures spared == {} ==> Partly(g, huge, x, spared, w) == Contribution(g, huge, x, w)
  {
    var f := Feeders(g, huge, w);
    HotEntriesMonotone(g.inn.EI, g.inn.VI[x], RowEnd(g.inn, x), f - spared, f);
    assert spared == {} ==> f - spared == f;
  }

  /** Whom v raises when it enters the window, in the order of the program: its targets, then what its
      in-neighbours raise. */
  ghost function PushSteps(g: Net, huge: nat, v: nat, spared: set<nat>): seq<nat>
    requires Simple(g) && HasRow(g.out, v) && HasRow(g.inn, v)
  {
    ChildSteps(g, huge, v) + ParentsSteps(g, huge, v, RowEnd(g.inn, v), spared)
  }

  /** v enters the window; the rows that were not dropped are not added either. */
  method PushVertex(g: Net, huge: nat, heap: UH.UnitHeap, v: nat, popvexist: seq<bool>, ghost b: Book,
                    ghost room: Room)
    returns (ok: bool, marks: seq<bool>)
    requires Fitting(g, b) && Holds(heap, b) && v < Vertices(g) && HasRow(g.out, v) && HasRow(g.inn, v)
    requires |popvexist| == |b.val| && MarksParents(g, huge, v, popvexist)
    requires Peaked(b, Spared(g, huge, v, Marked(popvexist), b, true)) && Spare(heap, room.safe)
    modifies heap, heap.update, heap.LinkedList
    ensures ok ==> Holds(heap, With(b, Spared(g, huge, v, Marked(popvexist), b, true)))
    ensures ok ==> heap.View() == BumpedBy(old(heap.View()), PushSteps(g, huge, v, Marked(popvexist)))
    ensures ok ==> |heap.Header| >= old(|heap.Header|)
    ensures ok ==> |marks| == |popvexist| && forall u :: 0 <= u < |marks| ==> !marks[u]
    ensures
      var all := Spared(g, huge, v, Marked(popvexist), b, true);
      && (if ok then Spare(heap, room.safe) else Reached(b, all, old(|heap.Header|), room.safe))
      && (ok && old(Full(heap, room)) && Low(b.live, all, room) ==> Full(heap, room))
  {
    hide BumpedBy, ParentsSteps, ChildSteps;
    ghost var b1 := With(b, ByChildren(g, huge, v, b, true));
    marks := popvexist;
    BumpedByBoth(heap.View(), ChildSteps(g, huge, v), ParentsSteps(g, huge, v, RowEnd(g.inn, v), Marked(popvexist)));
    SparedInTwoParts(g, huge, v, Marked(popvexist), b, true);
    ok := AddChildren(g, huge, heap, v, b, b1.val, room, Raising([], [], 0, v), 0);
    if ok {
      ok, marks := AddParents(g, huge, heap, v, popvexist, b1, room, Raising([], [], 0, v), 0);
    }
  }
}
