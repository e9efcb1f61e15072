/** The unit heap of Gorder: linked cells, run index, top pointer and pending decrements. */
module UnitHeap {
  import opened Permutations
  import opened UnitHeapSpec
  import opened UnitHeapLinks
  import StdSort

  /** How many slots a new run index has. */
  function FirstSlots(size: nat): (n: nat)
    ensures if size < 80 then n == 4 else 16 * n <= size < 16 * n + 16
  {
    if size / 16 > 4 then size / 16 else 4
  }

  /** How many slots the run index has after rebuilding: room for the largest key, not for the next one. */
  function Slots(before: nat, largest: int): (n: nat)
    ensures n >= before && n > largest && (n == before || n == largest + 1)
  {
    if largest + 1 > before then largest + 1 else before
  }

  /** How many slots it has after an increment to `key`: half as many again when fewer than four are left. */
  function Grown(before: nat, key: int): (n: nat)
    ensures n >= before
  {
    if key + 4 >= before then before * 3 / 2 else before
  }

  class UnitHeap {
    const heapsize: nat
    const update: array<int>
    const LinkedList: array<ListElement>
    var Header: seq<HeadEnd>
    var top: int
    ghost var list: seq<nat>

    /** The heap without its pointers. */
    ghost function View(): HeapView
      reads this, update, LinkedList
    {
      HeapView(list, Keys(LinkedList[..]), update[..])
    }

    ghost predicate Sized() {
      LinkedList.Length == update.Length == heapsize
    }

    ghost predicate Valid()
      reads this, update, LinkedList
    {
      Sized() && Represents(LinkedList[..], Header, top, View())
    }

    constructor (size: nat)
      requires size > 0
      ensures heapsize == size && Valid()
      ensures View() == HeapView(seq(size, i => i), seq(size, _ => 0), seq(size, _ => 0))
      ensures fresh(update) && fresh(LinkedList)
      ensures |Header| == FirstSlots(size)
    {
      heapsize := size;
      LinkedList := new ListElement[size](i => ListElement(0, i - 1, if i + 1 < size then i + 1 else -1));
      update := new int[size](_ => 0);
      Header := seq(FirstSlots(size), k => if k == 0 then HeadEnd(0, size - 1) else NO_RUN);
      top := 0;
      list := seq(size, i => i);
      new;
      InitRepresents(LinkedList[..], Header, View(), size);
    }

    method DecrementKey(index: nat)
      requires Sized() && index < heapsize
      modifies update
      ensures update[..] == old(update[..])[index := old(update[index]) - 1]
    {
      update[index] := update[index] - 1;
    }

    method DeleteElement(index: nat)
      requires Valid() && index in list
      modifies this, LinkedList
      ensures Valid() && View() == Deleted(old(View()), index)
      ensures |Header| == old(|Header|)
    {
      hide Represents, IndexFrom, IndexOf, RemoveAt, RunWithout;
      ghost var cells, h := LinkedList[..], View();
      RepresentsMeans(cells, Header, top, h);
      DeleteRepresents(cells, Header, top, h, index);
      var prev := LinkedList[index].prev;
      var next := LinkedList[index].next;
      var key := LinkedList[index].key;
      if prev >= 0 {
        LinkedList[prev] := LinkedList[prev].(next := next);
      }
      if next >= 0 {
        LinkedList[next] := LinkedList[next].(prev := prev);
      }
      assert LinkedList[..] == Unlinked(cells, index);
      RemoveFromRun(key, index, prev, next);
      if top == index {
        top := LinkedList[top].next;
      }
      LinkedList[index] := LinkedList[index].(prev := -1, next := -1);
      assert LinkedList[..] == Detached(cells, index);
      list := Deleted(h, index).list;
    }

    /** Rebuilds the whole structure from the keys; equal keys end up in any order. */
    method ReConstruct()
      requires Sized() && heapsize >= 2
      requires forall i :: 0 <= i < heapsize ==> LinkedList[i].key >= 0
      modifies this, LinkedList
      ensures Valid() && View() == HeapView(list, old(Keys(LinkedList[..])), update[..])
      ensures IsPermutation(list, heapsize)
      ensures |Header| == Slots(old(|Header|), View().key[list[0]])
    {
      var keys := Keys(LinkedList[..]);
      var tmp := StdSort.SortByKey(heapsize, seq(heapsize, i requires 0 <= i < heapsize => -keys[i]));
      Rebuild(tmp);
    }

    /** ReConstruct after its sort. */
    method Rebuild(tmp: seq<nat>)
      requires Sized() && heapsize >= 2 && IsPermutation(tmp, heapsize)
      requires forall i :: 0 <= i < heapsize ==> LinkedList[i].key >= 0
      requires forall i, j :: 0 <= i < j < heapsize ==> LinkedList[tmp[i]].key >= LinkedList[tmp[j]].key
      modifies this, LinkedList
      ensures Valid() && View() == HeapView(tmp, old(Keys(LinkedList[..])), update[..])
      ensures |Header| == Slots(old(|Header|), View().key[list[0]])
    {
      hide Indexed, Sorted, Linked, LinkedPart, IndexedOpen;
      ghost var keys := Keys(LinkedList[..]);
      var n := |tmp|;
      var key := LinkedList[tmp[0]].key;
      LinkEnds(tmp);
      Header := seq(Slots(|Header|, key), _ => NO_RUN);
      OpenFirst(|Header|, keys, tmp[0]);
      Header := Header[key := Header[key].(first := tmp[0])];
      assert tmp[..1] == [tmp[0]];
      for i := 1 to n - 1
        invariant Keys(LinkedList[..]) == keys && LinkedPart(LinkedList[..], tmp, i)
        invariant IndexedOpen(Header, tmp[..i], keys) && key == keys[tmp[i - 1]]
        invariant |Header| == Slots(old(|Header|), keys[tmp[0]])
      {
        key := AppendCell(tmp, i, key, keys);
      }
      CloseRuns(tmp, key, keys);
      top := tmp[0];
      list := tmp;
      AllLinked(tmp);
    }

    /** One element of the sorted order gets its links and extends the open run, or starts its own. */
    method AppendCell(tmp: seq<nat>, i: nat, oldkey: nat, ghost keys: seq<int>) returns (key: nat)
      requires Sized() && Distinct(tmp) && Below(tmp, heapsize) && 1 <= i < |tmp| - 1
      requires keys == Keys(LinkedList[..]) && LinkedPart(LinkedList[..], tmp, i)
      requires IndexedOpen(Header, tmp[..i], keys) && oldkey == keys[tmp[i - 1]] >= keys[tmp[i]] >= 0
      modifies `Header, LinkedList
      ensures Keys(LinkedList[..]) == keys && LinkedPart(LinkedList[..], tmp, i + 1)
      ensures IndexedOpen(Header, tmp[..i + 1], keys) && key == keys[tmp[i]]
      ensures |Header| == old(|Header|)
    {
      key := oldkey;
      var prev, v, next := tmp[i - 1], tmp[i], tmp[i + 1];
      LinkStep(LinkedList[..], tmp, i);
      ghost var cells := LinkedList[..];
      LinkedList[v] := LinkedList[v].(prev := prev, next := next);
      assert LinkedList[..] == cells[v := ListElement(cells[v].key, prev, next)];
      assert v !in tmp[..i];
      OpenNext(Header, tmp[..i], keys, v);
      assert tmp[..i + 1] == tmp[..i] + [v];
      var tmpkey := LinkedList[v].key;
      if tmpkey != key {
        Header := Header[key := Header[key].(second := prev)];
        Header := Header[tmpkey := HeadEnd(v, -1)];
        key := tmpkey;
      }
    }

    /** The last element stays in the open run or is a run of its own. */
    method CloseRuns(tmp: seq<nat>, key: nat, ghost keys: seq<int>)
      requires Sized() && |tmp| >= 2 && Distinct(tmp) && tmp[|tmp| - 1] < heapsize
      requires keys == Keys(LinkedList[..]) && IndexedOpen(Header, tmp[..|tmp| - 1], keys)
      requires key == keys[tmp[|tmp| - 2]] && 0 <= keys[tmp[|tmp| - 1]] <= key
      modifies `Header
      ensures Sorted(tmp, keys) && Indexed(Header, tmp, keys) && |Header| == old(|Header|)
    {
      var n := |tmp|;
      var lastone := tmp[n - 1];
      assert lastone !in tmp[..n - 1];
      OpenNext(Header, tmp[..n - 1], keys, lastone);
      assert tmp[..n - 1] + [lastone] == tmp;
      var lastkey := LinkedList[lastone].key;
      if key == lastkey {
        CloseLast(Header, tmp, keys);
        Header := Header[key := Header[key].(second := lastone)];
      } else {
        Header := Header[key := Header[key].(second := tmp[n - 2])];
        CloseLast(Header[lastkey := HeadEnd(lastone, -1)], tmp, keys);
        Header := Header[lastkey := HeadEnd(lastone, lastone)];
      }
    }

    lemma AllLinked(tmp: seq<nat>)
      requires |tmp| >= 1 && LinkedPart(LinkedList[..], tmp, |tmp| - 1)
      ensures Linked(LinkedList[..], tmp)
    {
      forall j ensures LinkedAt(LinkedList[..], tmp, j) {
        if 0 <= j < |tmp| - 1 || j == |tmp| - 1 {
          assert LinkedAt(LinkedList[..], tmp, j);
        }
      }
    }

    /** The links of the first and of the last cell. */
    method LinkEnds(tmp: seq<nat>)
      requires Sized() && heapsize >= 2 && IsPermutation(tmp, heapsize)
      modifies LinkedList
      ensures Keys(LinkedList[..]) == old(Keys(LinkedList[..])) && LinkedPart(LinkedList[..], tmp, 1)
    {
      var n := |tmp|;
      assert tmp[0] != tmp[n - 1];
      LinkedList[tmp[0]] := LinkedList[tmp[0]].(next := tmp[1]);
      LinkedList[tmp[0]] := LinkedList[tmp[0]].(prev := -1);
      LinkedList[tmp[n - 1]] := LinkedList[tmp[n - 1]].(next := -1);
      LinkedList[tmp[n - 1]] := LinkedList[tmp[n - 1]].(prev := tmp[n - 2]);
      assert LinkedAt(LinkedList[..], tmp, 0) && LinkedAt(LinkedList[..], tmp, n - 1);
    }

    /** Relinks the element in front of its run and raises its key in the cell. */
    method Climb(index: nat, key: nat, ghost without: seq<HeadEnd>)
      requires Valid() && index in list && index < LinkedList.Length && key == LinkedList[index].key
      requires key < |Header|
      requires without == Header[key := RunWithout(Header[key], index, LinkedList[index].prev, LinkedList[index].next)]
      modifies LinkedList
      ensures 0 <= top < heapsize
      ensures key + 1 < |Header| ==>
                Represents(LinkedList[..], without[key + 1 := RunWith(without[key + 1], index)],
                           if LinkedList[top].key < key + 1 then index else top, Incremented(old(View()), index))
    {
      hide Represents, Unlinked, RunWithout, RunWith, Rekeyed, IndexOf;
      ghost var cells, h := LinkedList[..], View();
      RepresentsMeans(cells, Header, top, h);
      IncrementCanRelink(cells, Header, top, h, index);
      var head := Header[key].first;
      ghost var moved := MovedToHead(cells, index, head);
      if key + 1 < |Header| {
        IncrementRepresents(cells, Header, top, h, index, moved, without, key);
      }
      MoveToHead(index, head);
      LinkedList[index] := LinkedList[index].(key := key + 1);
      assert LinkedList[..] == WithKey(moved, index, key + 1);
    }

    /** Raises the key by one. `ok` is false when the run index has no slot for the new key:
        the program quits then, and nothing is promised about the heap. */
    method IncrementKey(index: nat) returns (ok: bool)
      requires Valid() && index in list
      modifies this, LinkedList
      ensures ok <==> old(View()).key[index] + 1 < old(|Header|)
      ensures ok ==> Valid() && View() == Incremented(old(View()), index)
      ensures ok ==> |Header| == Grown(old(|Header|), old(View()).key[index] + 1)
      ensures ok ==>
                if old(View()).key[index] + 5 < old(|Header|) then |Header| == old(|Header|)
                else 2 * |Header| <= 3 * old(|Header|) < 2 * |Header| + 2
      ensures ok ==> |Header| >= old(|Header|) && View().key[index] + 1 < |Header|
    {
      hide Represents, WellFormedHeap, Placed, Unlinked, RunWithout, RunWith;
      RepresentsMeans(LinkedList[..], Header, top, View());
      IncrementCanRelink(LinkedList[..], Header, top, View(), index);
      var key := LinkedList[index].key;
      var prev := LinkedList[index].prev;
      var next := LinkedList[index].next;
      ghost var h := View();
      ghost var without := Header[key := RunWithout(Header[key], index, prev, next)];
      Climb(index, key, without);
      if key + 1 >= |Header| {
        return false;
      }
      Reindex(index, key, prev, next, h, without);
      assert View().key[index] == key + 1;
      if key + 5 >= |Header| {
        GrowHeader();
      }
      ok := true;
    }

    /** The run index and the top pointer follow the element that has just been incremented. */
    method Reindex(index: nat, key: nat, prev: int, next: int, ghost h: HeapView, ghost without: seq<HeadEnd>)
      requires Sized() && key + 1 < |Header| && 0 <= top < heapsize && update[..] == h.pending
      requires WellFormedHeap(h) && index in h.list
      requires without == Header[key := RunWithout(Header[key], index, prev, next)]
      requires Represents(LinkedList[..], without[key + 1 := RunWith(without[key + 1], index)],
                          if LinkedList[top].key < key + 1 then index else top, Incremented(h, index))
      modifies this
      ensures Valid() && View() == Incremented(h, index) && |Header| == old(|Header|)
    {
      RemoveFromRun(key, index, prev, next);
      AddToRun(key + 1, index);
      if LinkedList[top].key < key + 1 {
        top := index;
      }
      list := Incremented(h, index).list;
    }

    /** Header.resize(Header.size() * 1.5) */
    method GrowHeader()
      requires Valid() && |Header| > 1
      modifies `Header
      ensures Valid() && View() == old(View()) && |Header| == old(|Header|) * 3 / 2
    {
      IndexedGrows(Header, list, View().key, |Header| * 3 / 2 - |Header|);
      Header := Header + seq(|Header| * 3 / 2 - |Header|, _ => NO_RUN);
    }

    /** Relinks a cell in front of `head`, unless it is `head` itself. */
    method MoveToHead(index: nat, head: nat)
      requires index < LinkedList.Length && head < LinkedList.Length
      requires LinkedList[index].prev < LinkedList.Length && LinkedList[index].next < LinkedList.Length
      requires Unlinked(LinkedList[..], index)[head].prev < LinkedList.Length
      requires head != index ==> LinkedList[index].prev >= 0
      modifies LinkedList
      ensures LinkedList[..] == old(MovedToHead(LinkedList[..], index, head))
    {
      hide Keys;
      ghost var cells := LinkedList[..];
      if head != index {
        var prev := LinkedList[index].prev;
        var next := LinkedList[index].next;
        LinkedList[prev] := LinkedList[prev].(next := next);
        if next >= 0 {
          LinkedList[next] := LinkedList[next].(prev := prev);
        }
        ghost var a := Unlinked(cells, index);
        assert LinkedList[..] == a;
        var headprev := LinkedList[head].prev;
        LinkedList[index] := LinkedList[index].(prev := headprev);
        LinkedList[index] := LinkedList[index].(next := head);
        LinkedList[head] := LinkedList[head].(prev := index);
        if headprev >= 0 {
          LinkedList[headprev] := LinkedList[headprev].(next := index);
        }
        assert LinkedList[..] == Relinked(a, index, headprev, head);
      }
    }

    /** From any element to the key of its run and to what follows the run. */
    method AfterRun(v: nat, ghost i: nat) returns (p: nat, tmp: int, ghost e: nat)
      requires Valid() && i < |list| && v == list[i]
      ensures i < e <= |list| && e == Position(list, View().key, p) && p < |Header|
      ensures v < LinkedList.Length && p == LinkedList[v].key == View().key[list[e - 1]]
      ensures Header[p].second == list[e - 1] < LinkedList.Length
      ensures tmp == At(list, e) && tmp < LinkedList.Length
    {
      ghost var h := View();
      NextRun(LinkedList[..], Header, top, h, i);
      p := LinkedList[v].key;
      e := Position(list, h.key, p);
      tmp := LinkedList[Header[p].second].next;
    }

    /** Where a key below that of the second element belongs: behind the last element whose key is
        at least newkey. */
    method FindSpot(newkey: int) returns (psecond: nat, ghost e: nat)
      requires Valid() && |list| > 1 && 0 <= newkey < View().key[list[1]]
      ensures 2 <= e <= |list| && e == Position(list, View().key, newkey)
      ensures psecond == list[e - 1] < LinkedList.Length
      ensures
        var p := Position(list, View().key, newkey);
        2 <= p <= |list| && psecond == list[p - 1]
    {
      hide Represents, Sorted, ByKey, Position;
      RepresentsMeans(LinkedList[..], Header, top, View());
      ghost var key := View().key;
      FrontByKey(list, key);
      var p, tmp;
      p, tmp, e := AfterRun(top, 0);
      while tmp >= 0 && LinkedList[tmp].key >= newkey
        invariant Valid() && 1 <= e <= |list| && 0 <= p < |Header| && newkey <= p
        invariant Header[p].second == list[e - 1] < LinkedList.Length && key[list[e - 1]] == p
        invariant tmp == At(list, e) && tmp < LinkedList.Length
        decreases |list| - e
      {
        p, tmp, e := AfterRun(tmp, e);
      }
      assert e == Position(list, key, newkey) by {
        PositionIs(list, key, newkey, e);
      }
      psecond := Header[p].second;
    }

    lemma TopCell()
      requires Valid() && list != []
      ensures Sized() && list[0] < heapsize && top == list[0] && WellFormedHeap(View())
      ensures LinkedList[list[0]].next == if |list| > 1 then list[1] else -1
      ensures |list| > 1 ==> list[1] < heapsize && LinkedList[list[1]].key <= LinkedList[list[0]].key
      ensures LinkedList[list[0]].key >= 0
    {
      assert LinkedAt(LinkedList[..], list, 0);
      SortedMeans(list, View().key);
    }

    /** Applies about half of the pending decrement of the top, but only if that costs it its place. */
    method DecreaseTop()
      requires Valid() && list != [] && Value(View(), list[0]) >= 0
      modifies this, LinkedList, update
      ensures Valid() && View() == TopDecreased(old(View()))
      ensures top == old(top) <==> !Moves(old(View()))
      ensures
        var t, owed := old(list[0]), -old(update[list[0]]);
        var newkey := old(LinkedList[list[0]].key) - (owed - owed / 2);
        if owed > 0 && old(|list|) > 1 && newkey < old(LinkedList[list[1]].key) then
          && top == old(list[1]) && LinkedList[t].key == newkey
          && update[..] == old(update[..])[t := -(owed / 2)]
        else View() == old(View())
      ensures |Header| == old(|Header|)
    {
      hide Represents, Indexed, TopDecreased, Rekeyed, SortedTo;
      TopCell();
      TopDecreasedHalves(View());
      var key := LinkedList[top].key;
      var next := LinkedList[top].next;
      var newkey := key + update[top] - Half(update[top]);
      if next >= 0 && newkey < LinkedList[next].key {
        MoveTopDown(key, next, newkey);
      }
    }

    /** The part of DecreaseTop that moves the top. */
    method MoveTopDown(key: nat, next: nat, newkey: nat)
      requires Valid() && list != [] && Moves(View()) && newkey == NewKey(View())
      requires key == View().key[list[0]] && next == list[1]
      modifies this, LinkedList, update
      ensures Valid() && View() == TopDecreased(old(View())) && top == next != old(top)
      ensures |Header| == old(|Header|)
    {
      hide Represents, Unlinked, Relinked, RunWithout, RunWith, Placed, RemoveAt, Linked, Position;
      ghost var cells, header, h := LinkedList[..], Header, View();
      RepresentsMeans(cells, header, top, h);
      var tmptop := top;
      var psecond, e := FindSpot(newkey);
      TopDownLinks(cells, header, tmptop, h, e);
      MoveTopBehind(tmptop, psecond);
      ghost var after := WithKey(LinkedList[..], tmptop, newkey);
      top := next;
      RemoveFromRun(key, tmptop, -1, next);
      assert Represents(after, Header[newkey := RunWith(Header[newkey], tmptop)], next, TopDecreased(h)) by {
        TopDownRepresents(cells, header, tmptop, h, e, after, Header);
      }
      Rekey(tmptop, newkey);
      AddToRun(newkey, tmptop);
      list := TopDecreased(h).list;
    }

    /** The new key, and the half of the pending decrement that is left. */
    method Rekey(index: nat, newkey: int)
      requires Sized() && index < heapsize
      modifies LinkedList, update
      ensures LinkedList[..] == WithKey(old(LinkedList[..]), index, newkey)
      ensures update[..] == old(update[..])[index := Half(old(update[index]))]
    {
      LinkedList[index] := LinkedList[index].(key := newkey);
      update[index] := Half(update[index]);
    }

    /** Unlinks the first cell and relinks it behind psecond. */
    method MoveTopBehind(tmptop: nat, psecond: nat)
      requires tmptop < LinkedList.Length && psecond < LinkedList.Length && tmptop != psecond
      requires LinkedList[tmptop].prev == -1 && 0 <= LinkedList[tmptop].next < LinkedList.Length
      requires LinkedList[psecond].next < LinkedList.Length
      requires LinkedList[tmptop].next != tmptop
      modifies LinkedList
      ensures LinkedList[..]
           == old(Relinked(Unlinked(LinkedList[..], tmptop), tmptop, psecond, LinkedList[psecond].next))
    {
      ghost var cells := LinkedList[..];
      var next := LinkedList[tmptop].next;
      LinkedList[next] := LinkedList[next].(prev := -1);
      ghost var a := Unlinked(cells, tmptop);
      assert LinkedList[..] == a;
      var tailnext := LinkedList[psecond].next;
      LinkedList[tmptop] := LinkedList[tmptop].(prev := psecond);
      LinkedList[tmptop] := LinkedList[tmptop].(next := tailnext);
      LinkedList[psecond] := LinkedList[psecond].(next := tmptop);
      if tailnext >= 0 {
        LinkedList[tailnext] := LinkedList[tailnext].(prev := tmptop);
      }
      assert LinkedList[..] == Relinked(a, tmptop, psecond, tailnext);
    }

    /** Settles the top and takes it out. */
    method ExtractMax() returns (v: nat)
      requires Valid() && list != []
      requires forall x :: x in list ==> Value(View(), x) >= 0
      modifies this, LinkedList, update
      ensures Valid()
      ensures WellFormedHeap(old(View())) && v == Settled(old(View())).list[0]
      ensures View() == Deleted(Settled(old(View())), v)
      ensures |Header| == old(|Header|)
    {
      hide Linked, Indexed, SortedTo, Settled, TopDecreased, Moves, Debt, Keys;
      ghost var settled := Settled(View());
      while true
        invariant Valid() && list != [] && |Header| == old(|Header|)
        invariant Settled(View()) == settled
        invariant forall x :: x in list ==> Value(View(), x) >= 0
        decreases Debt(View())
      {
        ghost var h := View();
        var tmptop := top;
        SettleOnce(h);
        if update[top] < 0 {
          DecreaseTop();
        }
        if top == tmptop {
          break;
        }
      }
      v := top;
      DeleteElement(v);
    }

    /** The run index loses an element with the given neighbours. */
    method RemoveFromRun(key: nat, index: nat, prev: int, next: int)
      requires key < |Header|
      modifies `Header
      ensures Header == old(Header)[key := RunWithout(old(Header)[key], index, prev, next)]
    {
      if Header[key].first == Header[key].second {
        Header := Header[key := NO_RUN];
      } else if Header[key].first == index {
        Header := Header[key := Header[key].(first := next)];
      } else if Header[key].second == index {
        Header := Header[key := Header[key].(second := prev)];
      }
    }

    /** The run index gains an element at the end of a run. */
    method AddToRun(key: nat, index: nat)
      requires key < |Header|
      modifies `Header
      ensures Header == old(Header)[key := RunWith(old(Header)[key], index)]
    {
      Header := Header[key := Header[key].(second := index)];
      if Header[key].first < 0 {
        Header := Header[key := Header[key].(first := index)];
      }
    }
  }

  lemma InitRepresents(cells: seq<ListElement>, header: seq<HeadEnd>, h: HeapView, size: nat)
    requires size > 0 && |cells| == size && |header| >= 4
    requires forall i :: 0 <= i < size ==> cells[i] == ListElement(0, i - 1, if i + 1 < size then i + 1 else -1)
    requires forall k :: 0 <= k < |header| ==> header[k] == if k == 0 then HeadEnd(0, size - 1) else NO_RUN
    requires h.list == seq(size, i => i) && h.key == Keys(cells) && |h.pending| == size
    ensures Represents(cells, header, 0, h)
  {
    hide SortedTo, PositionFrom;
    SortedMeans(h.list, h.key);
    forall i ensures LinkedAt(cells, h.list, i) {
    }
    forall k | 0 <= k < |header| ensures header[k] == Run(h.list, h.key, k) {
      PositionIs(h.list, h.key, k, if k == 0 then size else 0);
      PositionIs(h.list, h.key, k + 1, 0);
    }
  }

  /** A rebuild makes room for the largest key and not for the next one: an element can then be
      incremented exactly when the index was long enough before, or some other key is larger. */
  method IncrementRebuilt(heap: UnitHeap, v: nat, ghost largest: nat) returns (ok: bool)
    requires heap.Sized() && heap.heapsize >= 2 && v < heap.heapsize
    requires forall i :: 0 <= i < heap.heapsize ==> 0 <= heap.LinkedList[i].key <= largest
    requires exists i :: 0 <= i < heap.heapsize && heap.LinkedList[i].key == largest
    modifies heap, heap.LinkedList
    ensures ok <==> old(heap.LinkedList[v].key) + 1 < old(|heap.Header|) || old(heap.LinkedList[v].key) < largest
  {
    heap.ReConstruct();
    ghost var h := heap.View();
    ghost var i :| 0 <= i < heap.heapsize && h.key[i] == largest;
    Onto(h.list, heap.heapsize, i);
    Onto(h.list, heap.heapsize, v);
    SortedMeans(h.list, h.key);
    ok := heap.IncrementKey(v);
  }
}
