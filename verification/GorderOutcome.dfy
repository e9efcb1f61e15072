/** What a run of Gorder's greedy ordering promises, and when it ends the program, stated on the graph. */
module GorderOutcome {
  import opened Permutations
  import opened Csr
  import opened EdgeLists
  import opened GorderSpec
  import opened GorderHeap
  import opened GorderUpdate
  import opened GorderStep
  import UH = UnitHeap

  // ---------- What the run promises ----------

  predicate Isolated(g: Net, v: nat)
    requires HasRow(g.out, v) && HasRow(g.inn, v)
  {
    Degree(g.inn, v) + Degree(g.out, v) == 0
  }

  /** The isolated vertices below i, in order; vertex 0 is never taken for one. */
  ghost function Zeros(g: Net, i: nat): (zero: seq<nat>)
    requires Simple(g) && i <= Vertices(g)
    ensures Below(zero, i) && Distinct(zero) && Ascending(zero)
    ensures forall v: nat :: v in zero <==>
              0 < v < i && HasRow(g.out, v) && HasRow(g.inn, v) && Isolated(g, v)
  {
    if i <= 1 then []
    else
      assert HasRow(g.out, i - 1) && HasRow(g.inn, i - 1);
      Zeros(g, i - 1) + (if Isolated(g, i - 1) then [i - 1] else [])
  }

  /** The first vertex of largest in-degree among those below i. */
  ghost predicate Leads(g: Net, v: nat, i: nat) {
    && v < i <= g.inn.numVertex && HasRow(g.inn, v)
    && forall u {:trigger HasRow(g.inn, u)} :: 0 <= u < i && HasRow(g.inn, u) ==>
         Degree(g.inn, u) <= Degree(g.inn, v) && (u < v ==> Degree(g.inn, u) < Degree(g.inn, v))
  }

  /** No vertex left has a score above that of order[k] by more than half of what order[k] has lost
      since its peak. So order[k] is best whenever it stands at its peak. */
  ghost predicate Chosen(g: Net, huge: nat, window: nat, zero: seq<nat>, order: seq<nat>, k: nat)
    requires AreVertices(g, order) && k < |order|
  {
    var score := Score(g, huge, order, WindowStart(window, k), k, order[k]);
    forall w: nat :: w < Vertices(g) && HasRow(g.out, w) && w !in zero && w !in order[..k] ==>
      Score(g, huge, order, WindowStart(window, k), k, w)
      <= score + (PeakOf(g, huge, window, order, k, order[k]) - score) / 2
  }

  /** Every vertex after the first is chosen that way; gains are the scores it had. */
  ghost predicate NearGreedy(g: Net, huge: nat, window: nat, zero: seq<nat>, order: seq<nat>,
                             gains: seq<int>) {
    && |order| == |gains| && AreVertices(g, order)
    && (order != [] ==> gains[0] == 0)
    && forall k :: 1 <= k < |order| ==>
         && Chosen(g, huge, window, zero, order, k)
         && gains[k] == Score(g, huge, order, WindowStart(window, k), k, order[k])
  }

  /** A longer order changes nothing about the choices before. */
  lemma ChosenSame(g: Net, huge: nat, window: nat, zero: seq<nat>, order: seq<nat>, order': seq<nat>, k: nat)
    requires AreVertices(g, order) && AreVertices(g, order') && order <= order' && k < |order|
    requires Chosen(g, huge, window, zero, order, k)
    ensures Chosen(g, huge, window, zero, order', k) && HasRow(g.out, order[k])
    ensures Score(g, huge, order', WindowStart(window, k), k, order[k])
         == Score(g, huge, order, WindowStart(window, k), k, order[k])
  {
    hide PeakOf, Score;
    assert order'[..k] == order[..k];
    forall w: nat | w < Vertices(g) && HasRow(g.out, w)
      ensures Score(g, huge, order', WindowStart(window, k), k, w)
           == Score(g, huge, order, WindowStart(window, k), k, w)
    {
      ScoreSame(g, huge, order', order, WindowStart(window, k), k, w);
    }
    assert HasRow(g.out, order[k]) && HasRow(g.inn, order[k]);
    PeakSame(g, huge, window, order', order, k, order[k]);
    ScoreSame(g, huge, order', order, WindowStart(window, k), k, order[k]);
  }

  lemma NearGreedyExtend(g: Net, huge: nat, window: nat, zero: seq<nat>, order: seq<nat>,
                         gains: seq<int>, v: nat, gain: int)
    requires NearGreedy(g, huge, window, zero, order, gains) && order != []
    requires AreVertices(g, order + [v]) && Chosen(g, huge, window, zero, order + [v], |order|)
    requires HasRow(g.out, v)
    requires gain == Score(g, huge, order + [v], WindowStart(window, |order|), |order|, v)
    ensures NearGreedy(g, huge, window, zero, order + [v], gains + [gain])
  {
    hide Chosen, Score;
    forall k | 1 <= k < |order|
      ensures Chosen(g, huge, window, zero, order + [v], k)
      ensures gains[k] == Score(g, huge, order + [v], WindowStart(window, k), k, order[k])
    {
      ChosenSame(g, huge, window, zero, order, order + [v], k);
    }
  }

  /** The isolated vertices go in front of the last placed one. */
  function Spliced(order: seq<nat>, zero: seq<nat>): seq<nat>
    requires order != []
  {
    order[..|order| - 1] + zero + [order[|order| - 1]]
  }

  /** What a vertex is numbered: the placed ones by their place, but the last of them with the last number,
      and the isolated ones in between. */
  ghost predicate NumberedBy(retorder: seq<nat>, order: seq<nat>, zero: seq<nat>) {
    && order != [] && |retorder| == |order| + |zero|
    && Below(order, |retorder|) && Below(zero, |retorder|)
    && (forall i :: 0 <= i < |order| - 1 ==> retorder[order[i]] == i)
    && (forall j :: 0 <= j < |zero| ==> retorder[zero[j]] == |order| - 1 + j)
    && retorder[order[|order| - 1]] == |retorder| - 1
  }

  lemma SplicedNumbers(retorder: seq<nat>, order: seq<nat>, zero: seq<nat>, n: nat)
    requires order != [] && Inverse(retorder, Spliced(order, zero), n)
    ensures NumberedBy(retorder, order, zero)
  {
    var s, m := Spliced(order, zero), |order| - 1;
    forall i | 0 <= i < m ensures order[i] < n && retorder[order[i]] == i {
      assert s[i] == order[i];
    }
    forall j | 0 <= j < |zero| ensures zero[j] < n && retorder[zero[j]] == m + j {
      assert s[m + j] == zero[j];
    }
    assert s[n - 1] == order[m];
  }

  lemma SplicedNothing(order: seq<nat>)
    requires order != []
    ensures Spliced(order, []) == order
  {
  }

  lemma SplicedPermutes(order: seq<nat>, zero: seq<nat>, n: nat)
    requires order != [] && IsPermutation(zero + order, n)
    ensures IsPermutation(Spliced(order, zero), n)
  {
    var a, s := zero + order, Spliced(order, zero);
    forall v: nat | v < n ensures v in s {
      Onto(a, n, v);
      var i :| 0 <= i < n && a[i] == v;
      var m := |order| - 1;
      assert s[if i < |zero| then m + i else if i == n - 1 then n - 1 else i - |zero|] == v;
    }
    forall i | 0 <= i < |s| ensures s[i] < n {
      var m := |order| - 1;
      assert s[i] == a[if i < m then |zero| + i else if i == n - 1 then n - 1 else i - m];
    }
    OntoIsPermutation(s, n);
  }

  // ---------- When the program quits ----------

  /** The largest in-degree among the vertices below i. */
  ghost function MostIn(g: Net, i: nat): nat
    requires Simple(g) && i <= Vertices(g)
  {
    if i == 0 then 0
    else
      assert HasRow(g.inn, i - 1);
      Larger(MostIn(g, i - 1), Degree(g.inn, i - 1))
  }

  /** No vertex below i has more, and some vertex m has that many. */
  lemma {:induction false} MostInBounds(g: Net, i: nat) returns (m: nat)
    requires Simple(g) && i <= Vertices(g)
    ensures forall u {:trigger HasRow(g.inn, u)} :: 0 <= u < i && HasRow(g.inn, u) ==> Degree(g.inn, u) <= MostIn(g, i)
    ensures i > 0 ==> m < i && HasRow(g.inn, m) && Degree(g.inn, m) == MostIn(g, i)
  {
    m := 0;
    if i > 0 {
      assert HasRow(g.inn, i - 1);
      hide Simple, Degree;
      m := MostInBounds(g, i - 1);
      if i == 1 || MostIn(g, i - 1) < Degree(g.inn, i - 1) {
        m := i - 1;
      }
    }
  }

  lemma LeaderHasMost(g: Net, v: nat, i: nat)
    requires Simple(g) && i <= Vertices(g) && Leads(g, v, i)
    ensures HasRow(g.inn, v) && Degree(g.inn, v) == MostIn(g, i)
  {
    hide Simple, MostIn;
    var m := MostInBounds(g, i);
  }

  /** The length of the run index when the run starts. */
  ghost function RunSlots(g: Net): nat
    requires Simple(g)
  {
    UH.Slots(UH.FirstSlots(Vertices(g)), MostIn(g, Vertices(g)))
  }

  /** The run index has a slot for one more increment of everybody but v. */
  ghost predicate SpareBeside(g: Net, v: nat, slots: nat) {
    forall x {:trigger HasRow(g.inn, x)} :: 0 <= x < g.inn.numVertex && x != v && HasRow(g.inn, x) ==>
      Degree(g.inn, x) + 1 < slots
  }

  /** The vertices that it has such a slot for. */
  ghost function Slotted(g: Net): set<nat>
    requires Simple(g)
  {
    set x | 0 <= x < Vertices(g) && HasRow(g.inn, x) && Degree(g.inn, x) + 1 < RunSlots(g)
  }

  /** Everybody but the first vertex can be incremented once. */
  ghost predicate Spacious(g: Net)
    requires Simple(g)
  {
    forall v {:trigger Leads(g, v, Vertices(g))} :: Leads(g, v, Vertices(g)) ==> SpareBeside(g, v, RunSlots(g))
  }

  ghost predicate HasMost(g: Net, v: nat)
    requires Simple(g)
  {
    v < Vertices(g) && HasRow(g.inn, v) && Degree(g.inn, v) == MostIn(g, Vertices(g))
  }

  /** That is so exactly when the initial run index was long enough or the largest in-degree is unique. */
  lemma SpaciousIff(g: Net)
    requires Simple(g) && Vertices(g) > 0
    ensures Spacious(g) <==>
            || MostIn(g, Vertices(g)) + 1 < UH.FirstSlots(Vertices(g))
            || (forall u, v :: HasMost(g, u) && HasMost(g, v) ==> u == v)
  {
    hide MostIn;
    var n := Vertices(g);
    var m := MostInBounds(g, n);
    var v := Leader(g, n);
    LeaderHasMost(g, v, n);
    assert HasMost(g, v);
    if Spacious(g) {
      assert SpareBeside(g, v, RunSlots(g));
    } else {
      assert !SpareBeside(g, v, RunSlots(g));
      var x :| 0 <= x < n && x != v && HasRow(g.inn, x) && Degree(g.inn, x) + 1 >= RunSlots(g);
      assert HasMost(g, x);
    }
  }

  /** There is exactly one first vertex of largest in-degree. */
  lemma {:induction false} Leader(g: Net, i: nat) returns (v: nat)
    requires Simple(g) && 0 < i <= Vertices(g)
    ensures Leads(g, v, i)
    ensures forall u {:trigger Leads(g, u, i)} :: Leads(g, u, i) ==> u == v
  {
    assert HasRow(g.inn, i - 1);
    if i == 1 {
      v := 0;
    } else {
      v := Leader(g, i - 1);
      if Degree(g.inn, i - 1) > Degree(g.inn, v) {
        v := i - 1;
      }
    }
    assert forall u :: Leads(g, u, i) ==> HasRow(g.inn, u) && HasRow(g.inn, v);
  }

  ghost function InDegrees(g: Net): (d: seq<int>)
    requires Simple(g)
    ensures |d| == Vertices(g) && forall v :: 0 <= v < |d| ==> HasRow(g.inn, v) && d[v] == Degree(g.inn, v)
  {
    seq(Vertices(g), v requires 0 <= v < Vertices(g) => assert HasRow(g.inn, v); Degree(g.inn, v))
  }

  /** All that placing v first raises, in the order of the program. */
  ghost function FirstSteps(g: Net, huge: nat, v: nat): seq<nat>
    requires Simple(g) && HasRow(g.out, v) && HasRow(g.inn, v)
  {
    ParentsSteps(g, huge, v, RowEnd(g.inn, v), {}) + ChildSteps(g, huge, v)
  }

  ghost function FirstRaising(g: Net, huge: nat, v: nat): Raising
    requires Simple(g) && HasRow(g.out, v) && HasRow(g.inn, v)
  {
    Raising(FirstSteps(g, huge, v), InDegrees(g), RunSlots(g), v)
  }

  /** Placing the first vertex ends the program. */
  ghost predicate Overflows(g: Net, huge: nat)
    requires Simple(g)
  {
    exists v {:trigger Leads(g, v, Vertices(g))} ::
      Leads(g, v, Vertices(g)) && HasRow(g.out, v) && Quits(FirstRaising(g, huge, v))
  }

  /** Placing the first vertex makes the run index longer. */
  ghost predicate Relieved(g: Net, huge: nat)
    requires Simple(g)
  {
    exists v {:trigger Leads(g, v, Vertices(g))} ::
      Leads(g, v, Vertices(g)) && HasRow(g.out, v) && Grows(FirstRaising(g, huge, v))
  }

  /** A vertex that is neither placed nor safe has a score that reaches the number of slots. */
  ghost predicate Outgrown(g: Net, huge: nat, window: nat, zero: seq<nat>, order: seq<nat>, slots: nat,
                           safe: set<nat>) {
    && AreVertices(g, order)
    && exists w: nat :: w < Vertices(g) && HasRow(g.out, w) && w !in zero && w !in order && w !in safe
                        && Score(g, huge, order, WindowStart(window, |order|), |order|, w) >= slots
  }

  /** No vertex brings more than `each` to another one that is not safe. */
  ghost predicate BringsAtMost(g: Net, huge: nat, safe: set<nat>, each: nat)
    requires Simple(g)
  {
    forall x: nat, w: nat {:trigger Contribution(g, huge, x, w)} ::
      x < Vertices(g) && w < Vertices(g) && x != w && w !in safe && HasRow(g.out, x) && HasRow(g.inn, x)
      && HasRow(g.out, w) ==>
        Contribution(g, huge, x, w) <= each
  }

  /** No window can bring to a vertex without a slot a score that the run index is too short for. */
  ghost predicate Modest(g: Net, huge: nat, window: nat)
    requires Simple(g)
  {
    exists each: nat :: BringsAtMost(g, huge, Slotted(g), each) && window * each < RunSlots(g)
  }

  /** So it is when the vertices without a slot share few in-neighbours with others. */
  lemma FewSharedIsModest(g: Net, huge: nat, window: nat, shared: nat)
    requires Simple(g) && window * (shared + 2) < RunSlots(g)
    requires forall x: nat, w: nat {:trigger CommonSources(g, huge, x, w)} ::
               x < Vertices(g) && w < Vertices(g) && x != w && w !in Slotted(g) ==>
                 |CommonSources(g, huge, x, w)| <= shared
    ensures Modest(g, huge, window)
  {
    hide Simple, RunSlots, Slotted, Contribution, CommonSources;
    forall x: nat, w: nat {:trigger Contribution(g, huge, x, w)} |
      x < Vertices(g) && w < Vertices(g) && x != w && w !in Slotted(g) && HasRow(g.out, x) && HasRow(g.inn, x)
      && HasRow(g.out, w)
      ensures Contribution(g, huge, x, w) <= shared + 2
    {
      ContributionMeaning(g, huge, x, w);
    }
    assert BringsAtMost(g, huge, Slotted(g), shared + 2);
  }

  lemma ModestNotOutgrown(g: Net, huge: nat, window: nat, zero: seq<nat>, order: seq<nat>)
    requires Simple(g) && Modest(g, huge, window) && Below(order, Vertices(g))
    ensures !Outgrown(g, huge, window, zero, order, RunSlots(g), Slotted(g))
  {
    hide Simple, RunSlots, Slotted, Contribution, Score;
    var each: nat :| BringsAtMost(g, huge, Slotted(g), each) && window * each < RunSlots(g);
    if Outgrown(g, huge, window, zero, order, RunSlots(g), Slotted(g)) {
      var k := |order|;
      var lo := WindowStart(window, k);
      var w: nat :| w < Vertices(g) && HasRow(g.out, w) && w !in zero && w !in order && w !in Slotted(g)
                    && Score(g, huge, order, lo, k, w) >= RunSlots(g);
      ScoreWithin(g, huge, order, lo, k, w, each);
      WindowProduct(k - lo, window, each);
    }
  }

  lemma SpaciousNotOutgrown(g: Net, huge: nat, window: nat, zero: seq<nat>, order: seq<nat>)
    requires Simple(g) && order != [] && SpareBeside(g, order[0], RunSlots(g))
    ensures !Outgrown(g, huge, window, zero, order, RunSlots(g), Slotted(g))
  {
    hide RunSlots, Score;
    forall w: nat | w < Vertices(g) && w !in order ensures w in Slotted(g) {
      assert HasRow(g.inn, w);
    }
  }

  /** w is worth as much as it ever was, and that is the last key an index of this length has a slot for. */
  ghost predicate AtTop(g: Net, huge: nat, window: nat, order: seq<nat>, k: nat, w: nat, slots: nat)
    requires AreVertices(g, order) && k <= |order| && HasRow(g.out, w) && HasRow(g.inn, w)
  {
    && Score(g, huge, order, WindowStart(window, k), k, w) + 1 == slots
    && PeakOf(g, huge, window, order, k, w) + 1 == slots
  }

  /** Of those left when order[k] enters the window, only who was at the top gets near the end of the index. */
  ghost predicate Calm(g: Net, huge: nat, window: nat, zero: seq<nat>, order: seq<nat>, k: nat, slots: nat)
    requires AreVertices(g, order) && k < |order|
  {
    forall w: nat :: w < Vertices(g) && HasRow(g.out, w) && HasRow(g.inn, w) && w !in zero && w !in order[..k + 1] ==>
      || AtTop(g, huge, window, order, k, w, slots)
      || Score(g, huge, order, WindowStart(window, k + 1), k + 1, w) + 4 < slots
  }

  ghost predicate CalmTo(g: Net, huge: nat, window: nat, zero: seq<nat>, order: seq<nat>, n: nat, slots: nat)
    requires AreVertices(g, order) && n <= |order|
  {
    forall k :: 1 <= k < n ==> Calm(g, huge, window, zero, order, k, slots)
  }

  /** As long as all rounds are calm, the run ends in the first one in which somebody outgrows the index, and
      in no other. */
  ghost predicate EndsExactly(g: Net, huge: nat, window: nat, zero: seq<nat>, order: seq<nat>, slots: nat, ok: bool) {
    && AreVertices(g, order)
    && forall n :: 2 <= n <= |order| && CalmTo(g, huge, window, zero, order, n, slots) ==>
         (Outgrown(g, huge, window, zero, order[..n], slots, {}) <==> !ok && n == |order|)
  }

  lemma CalmSame(g: Net, huge: nat, window: nat, zero: seq<nat>, a: seq<nat>, b: seq<nat>, k: nat, slots: nat)
    requires AreVertices(g, a) && AreVertices(g, b) && k < |a| && k < |b| && a[..k + 1] == b[..k + 1]
    requires Calm(g, huge, window, zero, b, k, slots)
    ensures Calm(g, huge, window, zero, a, k, slots)
  {
    assert forall i :: 0 <= i <= k ==> a[..k + 1][i] == a[i] && b[..k + 1][i] == b[i];
    forall w: nat | w < Vertices(g) && HasRow(g.out, w) && HasRow(g.inn, w) && w !in zero && w !in a[..k + 1]
      ensures || AtTop(g, huge, window, a, k, w, slots)
              || Score(g, huge, a, WindowStart(window, k + 1), k + 1, w) + 4 < slots
    {
      ScoreSame(g, huge, a, b, WindowStart(window, k), k, w);
      PeakSame(g, huge, window, a, b, k, w);
      ScoreSame(g, huge, a, b, WindowStart(window, k + 1), k + 1, w);
    }
  }

  lemma CalmPrefix(g: Net, huge: nat, window: nat, zero: seq<nat>, order: seq<nat>, v: nat, n: nat, slots: nat)
    requires AreVertices(g, order) && AreVertices(g, order + [v]) && n <= |order|
    requires CalmTo(g, huge, window, zero, order + [v], n, slots)
    ensures CalmTo(g, huge, window, zero, order, n, slots)
  {
    forall k | 1 <= k < n ensures Calm(g, huge, window, zero, order, k, slots) {
      assert (order + [v])[..k + 1] == order[..k + 1];
      CalmSame(g, huge, window, zero, order, order + [v], k, slots);
    }
  }

  /** Calm up to this round means calm before it and in it. */
  lemma CalmAgain(g: Net, huge: nat, window: nat, zero: seq<nat>, order: seq<nat>, v: nat, slots: nat)
    requires AreVertices(g, order) && AreVertices(g, order + [v]) && order != []
    ensures CalmTo(g, huge, window, zero, order + [v], |order| + 1, slots) ==>
              && CalmTo(g, huge, window, zero, order, |order|, slots)
              && Calm(g, huge, window, zero, order + [v], |order|, slots)
  {
    hide Calm;
    if CalmTo(g, huge, window, zero, order + [v], |order| + 1, slots) {
      CalmPrefix(g, huge, window, zero, order, v, |order|, slots);
    }
  }

  /** One more round. */
  lemma EndsExactlyNext(g: Net, huge: nat, window: nat, zero: seq<nat>, order: seq<nat>, v: nat, slots: nat, ok: bool)
    requires EndsExactly(g, huge, window, zero, order, slots, true) && AreVertices(g, order + [v])
    requires CalmTo(g, huge, window, zero, order + [v], |order| + 1, slots) ==>
               (ok <==> !Outgrown(g, huge, window, zero, order + [v], slots, {}))
    ensures EndsExactly(g, huge, window, zero, order + [v], slots, ok)
  {
    hide CalmTo, Outgrown;
    var order' := order + [v];
    forall n | 2 <= n <= |order'| && CalmTo(g, huge, window, zero, order', n, slots)
      ensures Outgrown(g, huge, window, zero, order'[..n], slots, {}) <==> !ok && n == |order'|
    {
      if n <= |order| {
        CalmPrefix(g, huge, window, zero, order, v, n, slots);
        assert order'[..n] == order[..n];
      } else {
        assert order'[..n] == order';
      }
    }
  }

  /** All these conditions are about the first vertex that the scan finds. */
  lemma FirstDecides(g: Net, huge: nat, v: nat)
    requires Simple(g) && Leads(g, v, Vertices(g))
    ensures HasRow(g.out, v) && HasRow(g.inn, v)
    ensures Spacious(g) ==> SpareBeside(g, v, RunSlots(g))
    ensures Overflows(g, huge) <==> Quits(FirstRaising(g, huge, v))
    ensures Relieved(g, huge) <==> Grows(FirstRaising(g, huge, v))
  {
    hide SpareBeside, RunSlots, Quits, Grows, FirstRaising;
    assert HasRow(g.out, v);
    var only := Leader(g, Vertices(g));
  }

  // ---------- What the first placement raises, counted ----------

  lemma ParentStepsCount(g: Net, huge: nat, u: nat, x: nat)
    requires Simple(g) && u < Vertices(g) && x < Vertices(g) && HasRow(g.out, u)
    ensures Occurrences(ParentSteps(g, huge, u, false), 0, |ParentSteps(g, huge, u, false)|, x)
         == FromParent(g, huge, u, {}, x)
  {
    RowBrings(g, huge, u, x);
    if LightVertex(g, huge, u) {
      var more := if Degree(g.out, u) > 1 then Row(g.out, u) else [];
      OccurrencesConcat([u], more, x);
      OccurrencesSlice(g.out.EI, g.out.VI[u], RowEnd(g.out, u), x);
      assert Occurrences([u], 0, 0, x) == 0;
    }
  }

  lemma {:induction false} ParentsStepsCount(g: Net, huge: nat, v: nat, i: nat, x: nat)
    requires Simple(g) && v < Vertices(g) && x < Vertices(g) && HasRow(g.out, x)
    requires HasRow(g.inn, v) && g.inn.VI[v] <= i <= RowEnd(g.inn, v)
    ensures Occurrences(ParentsSteps(g, huge, v, i, {}), 0, |ParentsSteps(g, huge, v, i, {})|, x)
         == FromParents(g, huge, v, i, {}, x)
    decreases i
  {
    hide Simple, ParentSteps, FromParent, Feeders;
    if i > g.inn.VI[v] {
      ParentsStepsCount(g, huge, v, i - 1, x);
      ParentsNext(g, huge, v, i - 1, {});
      var u := g.inn.EI[i - 1];
      ParentStepsCount(g, huge, u, x);
      OccurrencesConcat(ParentsSteps(g, huge, v, i - 1, {}), ParentSteps(g, huge, u, false), x);
      FromParentsStep(g, huge, v, i - 1, {}, x);
    }
  }

  lemma ChildStepsCount(g: Net, huge: nat, v: nat, x: nat)
    requires HasRow(g.out, v)
    ensures Occurrences(ChildSteps(g, huge, v), 0, |ChildSteps(g, huge, v)|, x)
         == if LightVertex(g, huge, v) then Times(g.out, v, x) else 0
  {
    OccurrencesSlice(g.out.EI, g.out.VI[v], RowEnd(g.out, v), x);
  }

  lemma PartsOfContribution(g: Net, huge: nat, v: nat, x: nat)
    requires HasRow(g.out, v) && HasRow(g.inn, v) && HasRow(g.out, x)
    ensures Contribution(g, huge, v, x)
         == FromParents(g, huge, v, RowEnd(g.inn, v), {}, x) + if LightVertex(g, huge, v) then Times(g.out, v, x) else 0
  {
    assert Feeders(g, huge, x) - {} == Feeders(g, huge, x);
    hide Feeders;
  }

  /** Placing v first raises every vertex as often as v contributes to its score. */
  lemma FirstStepsCount(g: Net, huge: nat, v: nat, x: nat)
    requires Simple(g) && v < Vertices(g) && x < Vertices(g)
    ensures HasRow(g.out, v) && HasRow(g.inn, v) && HasRow(g.out, x)
    ensures Occurrences(FirstSteps(g, huge, v), 0, |FirstSteps(g, huge, v)|, x) == Contribution(g, huge, v, x)
  {
    hide ParentsSteps, ChildSteps, Contribution, FromParents, LightVertex, Times, Occurrences;
    assert HasRow(g.out, v) && HasRow(g.inn, v) && HasRow(g.out, x);
    ParentsStepsCount(g, huge, v, RowEnd(g.inn, v), x);
    ChildStepsCount(g, huge, v, x);
    OccurrencesConcat(ParentsSteps(g, huge, v, RowEnd(g.inn, v), {}), ChildSteps(g, huge, v), x);
    PartsOfContribution(g, huge, v, x);
  }

  /** The first placement neither quits nor makes the index longer if it brings nobody more than its in-degree,
      or near the end of the index. */
  lemma QuietWhenLow(g: Net, huge: nat, v: nat)
    requires Simple(g) && Leads(g, v, Vertices(g)) && HasRow(g.out, v) && HasRow(g.inn, v)
    requires forall x: nat {:trigger Contribution(g, huge, v, x)} :: x < Vertices(g) && x != v && HasRow(g.out, x) ==>
               Contribution(g, huge, v, x) <= InDegrees(g)[x] || Contribution(g, huge, v, x) + 4 < RunSlots(g)
    ensures !Overflows(g, huge) && !Relieved(g, huge)
  {
    hide Simple, Leads, RunSlots, FirstSteps, Contribution, Occurrences;
    FirstDecides(g, huge, v);
    var r := FirstRaising(g, huge, v);
    forall j | 0 <= j < |r.names| ensures !Critical(r, j) {
      var x := r.names[j];
      if x != v && x < Vertices(g) {
        FirstStepsCount(g, huge, v, x);
        BeforeAll(r.names, j);
      }
    }
    EitherQuitsOrGrows(r);
  }

  lemma BeforeAll(s: seq<nat>, j: nat)
    requires j < |s|
    ensures Occurrences(s, 0, j, s[j]) < Occurrences(s, 0, |s|, s[j])
  {
    OccurrencesSplit(s, 0, j + 1, |s|, s[j]);
  }
}
