/** The k-way merge of sorted runs: one reader and at most one heap entry for each run. */
module RunMerge {
  import opened Sequences
  import opened Utf8Order
  import opened NameOrder
  import opened MergeHeap

  /** All names of several lists. */
  ghost function All(lists: seq<seq<string>>): multiset<string> {
    if lists == [] then multiset{} else All(Closed(lists)) + multiset(Last(lists))
  }

  ghost function Head(list: seq<string>, index: nat): multiset<Item> {
    if list == [] then multiset{} else multiset{Item(list[0], index)}
  }

  /** One heap entry for every list that still has names. */
  ghost function Heads(lists: seq<seq<string>>): multiset<Item> {
    if lists == [] then multiset{} else Heads(Closed(lists)) + Head(Last(lists), |lists| - 1)
  }

  lemma AddBoth<T>(a: multiset<T>, b: multiset<T>, c: multiset<T>, d: multiset<T>, e: multiset<T>)
    requires a + b == c + d
    ensures (a + e) + b == (c + e) + d
  {
    assert (a + e) + b == (a + b) + e;
    assert (c + e) + d == (c + d) + e;
  }

  lemma TakeAway<T>(a: multiset<T>, b: multiset<T>, c: multiset<T>, d: multiset<T>)
    requires a + b == c + d
    ensures a == c - b + d || !(b <= c)
  {
    if b <= c {
      assert (c - b) + b == c;
      forall x
        ensures a[x] == (c - b + d)[x]
      {
        assert (a + b)[x] == (c + d)[x];
      }
    }
  }

  lemma {:induction false} AllUpdate(lists: seq<seq<string>>, i: nat, list: seq<string>)
    requires i < |lists|
    ensures All(lists[i := list]) + multiset(lists[i]) == All(lists) + multiset(list)
  {
    var changed := lists[i := list];
    if i == |lists| - 1 {
      assert Closed(changed) == Closed(lists);
    } else {
      AllUpdate(Closed(lists), i, list);
      assert Closed(changed) == Closed(lists)[i := list];
      assert Closed(lists)[i] == lists[i];
      AddBoth(All(Closed(changed)), multiset(lists[i]), All(Closed(lists)), multiset(list), multiset(Last(lists)));
    }
  }

  lemma HeadsLast(lists: seq<seq<string>>)
    requires lists != []
    ensures Heads(lists) == Heads(Closed(lists)) + Head(Last(lists), |lists| - 1)
  {}

  lemma SwapLast<T>(a: multiset<T>, b: multiset<T>, c: multiset<T>)
    ensures a + b + c == a + c + b
  {}

  lemma {:induction false} HeadsUpdate(lists: seq<seq<string>>, i: nat, list: seq<string>)
    requires i < |lists|
    ensures Heads(lists[i := list]) + Head(lists[i], i) == Heads(lists) + Head(list, i)
  {
    hide Heads, Head;
    var changed := lists[i := list];
    HeadsLast(lists);
    HeadsLast(changed);
    if i == |lists| - 1 {
      assert Closed(changed) == Closed(lists);
      SwapLast(Heads(Closed(lists)), Head(list, i), Head(lists[i], i));
    } else {
      HeadsUpdate(Closed(lists), i, list);
      assert Closed(changed) == Closed(lists)[i := list];
      assert Closed(lists)[i] == lists[i];
      AddBoth(Heads(Closed(changed)), Head(lists[i], i), Heads(Closed(lists)), Head(list, i),
              Head(Last(lists), |lists| - 1));
    }
  }

  lemma {:induction false} HeadsMember(lists: seq<seq<string>>, item: Item)
    ensures item in Heads(lists) <==>
              item.index < |lists| && lists[item.index] != [] && item.name == lists[item.index][0]
  {
    if lists != [] {
      HeadsMember(Closed(lists), item);
    }
  }

  lemma {:induction false} AllMember(lists: seq<seq<string>>, name: string)
    ensures name in All(lists) <==> exists i :: 0 <= i < |lists| && name in lists[i]
  {
    if lists != [] {
      AllMember(Closed(lists), name);
      assert lists == Closed(lists) + [Last(lists)];
      if name in Last(lists) {
        assert name in lists[|lists| - 1];
      }
      if i :| 0 <= i < |lists| - 1 && name in lists[i] {
        assert name in Closed(lists)[i];
      }
    }
  }

  lemma {:induction false} AllOfEmpty(lists: seq<seq<string>>)
    requires forall i :: 0 <= i < |lists| ==> lists[i] == []
    ensures All(lists) == multiset{} && Heads(lists) == multiset{}
  {
    if lists != [] {
      AllOfEmpty(Closed(lists));
    }
  }

  lemma {:induction false} AllConcat(a: seq<seq<string>>, b: seq<seq<string>>)
    ensures All(a + b) == All(a) + All(b)
  {
    if b == [] {
      assert a + b == a;
    } else {
      AllConcat(a, Closed(b));
      assert Closed(a + b) == a + Closed(b);
    }
  }

  /** An item that is least among the heads is least among all names of sorted lists. */
  lemma {:induction false} LeastHeadIsLeast(lists: seq<seq<string>>, least: string, name: string)
    requires forall i :: 0 <= i < |lists| ==> Sorted(lists[i])
    requires forall item :: item in Heads(lists) ==> Leq(least, item.name)
    requires name in All(lists)
    ensures Leq(least, name)
  {
    AllMember(lists, name);
    var i :| 0 <= i < |lists| && name in lists[i];
    var j :| 0 <= j < |lists[i]| && lists[i][j] == name;
    var item := Item(lists[i][0], i);
    HeadsMember(lists, item);
    if j > 0 {
      LeqIsTotalOrder(least, lists[i][0], name);
    }
  }

  /**
   A reader that delivered `delivered` names leaves `pending`: the last delivered name and what
   follows, or nothing.
  */
  ghost predicate ReaderAt(run: seq<string>, delivered: nat, pending: seq<string>) {
    && delivered <= |run|
    && Sorted(pending)
    && if pending == [] then delivered == |run| else delivered > 0 && pending == run[delivered - 1..]
  }

  ghost predicate ReadersAt(runs: seq<seq<string>>, delivered: seq<nat>, pending: seq<seq<string>>) {
    && |runs| == |delivered| == |pending|
    && forall i :: 0 <= i < |runs| ==> ReaderAt(runs[i], delivered[i], pending[i])
  }

  /** The reader whose name left the heap delivers its next name, or is done. */
  lemma ReaderAdvances(runs: seq<seq<string>>, delivered: seq<nat>, pending: seq<seq<string>>, i: nat)
    requires ReadersAt(runs, delivered, pending) && i < |runs| && pending[i] != []
    ensures var rest := pending[i][1..];
            if delivered[i] < |runs[i]|
            then rest != [] && rest[0] == runs[i][delivered[i]]
                 && ReadersAt(runs, delivered[i := delivered[i] + 1], pending[i := rest])
            else rest == [] && ReadersAt(runs, delivered, pending[i := rest])
  {
    var rest := pending[i][1..];
    assert rest == runs[i][delivered[i]..];
    assert Sorted(rest);
  }

  lemma EveryReaderStarted(runs: seq<seq<string>>, delivered: seq<nat>)
    requires |delivered| == |runs| && forall i :: 0 <= i < |runs| ==> Sorted(runs[i])
    requires forall i :: 0 <= i < |runs| ==> delivered[i] == if runs[i] != [] then 1 else 0
    ensures ReadersAt(runs, delivered, runs)
  {
  }

  /** The generator `mergeRuns`, with the position of every reader. */
  class RunMerger {
    const runs: seq<seq<string>>
    var delivered: seq<nat>
    const heap: MinHeap
    ghost var pending: seq<seq<string>>

    /** `pending[i]` is what run `i` still has to yield; its first name sits in the heap. */
    ghost predicate Valid()
      reads this, heap
    {
      && heap.Valid()
      && ReadersAt(runs, delivered, pending)
      && multiset(heap.heap) == Heads(pending)
    }

    ghost function Remaining(): multiset<string>
      reads this
    {
      All(pending)
    }

    constructor (runs: seq<seq<string>>)
      requires forall i :: 0 <= i < |runs| ==> Sorted(runs[i])
      ensures Valid() && fresh(heap) && this.runs == runs
      ensures Remaining() == All(runs)
    {
      this.runs := runs;
      heap := new MinHeap();
      delivered := seq(|runs|, i => 0);
      pending := runs;
      new;
      Start();
      EveryReaderStarted(runs, delivered);
    }

    /** Asks every reader for its first name. */
    method Start()
      requires heap.Valid() && heap.heap == [] && pending == runs
      requires delivered == seq(|runs|, i => 0)
      modifies this`delivered, heap
      ensures heap.Valid() && multiset(heap.heap) == Heads(runs)
      ensures |delivered| == |runs|
      ensures forall i :: 0 <= i < |runs| ==> delivered[i] == if runs[i] != [] then 1 else 0
    {
      hide MinHeap.Valid, Heads;
      var k := 0;
      NoHeads(runs);
      while k < |runs|
        invariant 0 <= k <= |runs| && |delivered| == |runs|
        invariant heap.Valid()
        invariant forall i :: 0 <= i < |runs| ==> delivered[i] == if i < k && runs[i] != [] then 1 else 0
        invariant multiset(heap.heap) == Heads(runs[..k])
      {
        OneMoreHead(runs, k);
        if delivered[k] < |runs[k]| {
          heap.Push(Item(runs[k][delivered[k]], k));
          delivered := delivered[k := delivered[k] + 1];
        }
        k := k + 1;
      }
      assert runs[..|runs|] == runs;
    }

    /** Yields the next name, the least of all that remain; `None` when every reader is done. */
    method Next() returns (name: Option<string>)
      requires Valid()
      modifies this, heap
      ensures Valid()
      ensures name.None? <==> old(Remaining()) == multiset{}
      ensures name.None? ==> Remaining() == old(Remaining())
      ensures name.Some? ==>
                && name.value in old(Remaining())
                && Remaining() == old(Remaining()) - multiset{name.value}
                && forall x :: x in old(Remaining()) ==> Leq(name.value, x)
    {
      hide MinHeap.Valid, Heads, Leq, All;
      if heap.heap == [] {
        NoHeadsNothingLeft(pending);
        return None;
      }
      var item := Take();
      var i := item.index;
      if delivered[i] < |runs[i]| {
        heap.Push(Item(runs[i][delivered[i]], i));
        delivered := delivered[i := delivered[i] + 1];
      }
      name := Some(item.name);
    }

    /** Takes the least item from the heap; its reader is due to advance. */
    method Take() returns (item: Item)
      requires Valid() && heap.heap != []
      modifies this`pending, heap
      ensures heap.Valid()
      ensures item.index < |runs| == |delivered| == |pending|
      ensures multiset(heap.heap) + Head(pending[item.index], item.index) == Heads(pending)
      ensures var i := item.index;
              if delivered[i] < |runs[i]|
              then pending[i] != [] && pending[i][0] == runs[i][delivered[i]]
                   && ReadersAt(runs, delivered[i := delivered[i] + 1], pending)
              else pending[i] == [] && ReadersAt(runs, delivered, pending)
      ensures item.name in old(Remaining())
      ensures Remaining() == old(Remaining()) - multiset{item.name}
      ensures forall x :: x in old(Remaining()) ==> Leq(item.name, x)
    {
      hide Heads, Head, All, Leq, ReadersAt;
      ghost var before := heap.heap;
      item := heap.Pop();
      Taken(runs, delivered, pending, before, item, heap.heap);
      pending := pending[item.index := pending[item.index][1..]];
    }
  }

  lemma NoHeads(runs: seq<seq<string>>)
    ensures Heads(runs[..0]) == multiset{}
  {}

  lemma OneMoreHead(runs: seq<seq<string>>, k: nat)
    requires k < |runs|
    ensures Heads(runs[..k + 1]) == Heads(runs[..k]) + Head(runs[k], k)
  {
    assert Closed(runs[..k + 1]) == runs[..k];
  }

  /** The state after the least item left the heap, on values. */
  lemma Taken(runs: seq<seq<string>>, delivered: seq<nat>, pending: seq<seq<string>>,
              before: seq<Item>, item: Item, after: seq<Item>)
    requires ReadersAt(runs, delivered, pending)
    requires multiset(before) == Heads(pending) && item in before
    requires multiset(after) == multiset(before) - multiset{item}
    requires forall i :: 0 <= i < |before| ==> Leq(item.name, before[i].name)
    ensures item.index < |runs| == |delivered| == |pending| && pending[item.index] != []
    ensures item.name in All(pending)
    ensures forall x :: x in All(pending) ==> Leq(item.name, x)
    ensures var i := item.index;
            var rest := pending[i][1..];
            && All(pending[i := rest]) == All(pending) - multiset{item.name}
            && multiset(after) + Head(rest, i) == Heads(pending[i := rest])
            && if delivered[i] < |runs[i]|
               then rest != [] && rest[0] == runs[i][delivered[i]]
                    && ReadersAt(runs, delivered[i := delivered[i] + 1], pending[i := rest])
               else rest == [] && ReadersAt(runs, delivered, pending[i := rest])
  {
    assert item in multiset(before);
    TakeHead(pending, item);
    LeastOfAll(pending, item.name, before);
    ReaderAdvances(runs, delivered, pending, item.index);
  }

  /** Taking the head of one list away. */
  lemma {:induction false} TakeHead(lists: seq<seq<string>>, item: Item)
    requires item in Heads(lists)
    ensures item.index < |lists| && lists[item.index] != [] && lists[item.index][0] == item.name
    ensures item.name in All(lists)
    ensures var shorter := lists[item.index := lists[item.index][1..]];
            && All(shorter) == All(lists) - multiset{item.name}
            && Heads(shorter) == Heads(lists) - multiset{item} + Head(lists[item.index][1..], item.index)
  {
    HeadsMember(lists, item);
    var i := item.index;
    var rest := lists[i][1..];
    assert lists[i] == [item.name] + rest;
    HeadIsThere(lists, i);
    TakeName(lists, i);
    HeadsUpdate(lists, i, rest);
    TakeAway(Heads(lists[i := rest]), multiset{item}, Heads(lists), Head(rest, i));
  }

  lemma TakeName(lists: seq<seq<string>>, i: nat)
    requires i < |lists| && lists[i] != []
    ensures All(lists[i := lists[i][1..]]) == All(lists) - multiset{lists[i][0]}
  {
    var rest := lists[i][1..];
    assert lists[i] == [lists[i][0]] + rest;
    AllUpdate(lists, i, rest);
    var a := All(lists[i := rest]);
    assert a + multiset{lists[i][0]} + multiset(rest) == All(lists) + multiset(rest);
    assert a + multiset{lists[i][0]} == All(lists) by {
      forall x
        ensures (a + multiset{lists[i][0]})[x] == All(lists)[x]
      {
        assert (a + multiset{lists[i][0]} + multiset(rest))[x] == (All(lists) + multiset(rest))[x];
      }
    }
  }

  lemma {:induction false} LeastOfAll(lists: seq<seq<string>>, least: string, heap: seq<Item>)
    requires forall i :: 0 <= i < |lists| ==> Sorted(lists[i])
    requires multiset(heap) == Heads(lists)
    requires forall i :: 0 <= i < |heap| ==> Leq(least, heap[i].name)
    ensures forall x :: x in All(lists) ==> Leq(least, x)
  {
    forall item | item in Heads(lists)
      ensures Leq(least, item.name)
    {
      assert item in multiset(heap);
    }
    forall x | x in All(lists)
      ensures Leq(least, x)
    {
      LeastHeadIsLeast(lists, least, x);
    }
  }

  lemma NoHeadsNothingLeft(lists: seq<seq<string>>)
    requires Heads(lists) == multiset{}
    ensures All(lists) == multiset{}
  {
    forall i | 0 <= i < |lists|
      ensures lists[i] == []
    {
      if lists[i] != [] {
        HeadsMember(lists, Item(lists[i][0], i));
      }
    }
    AllOfEmpty(lists);
  }

  lemma HeadIsThere(lists: seq<seq<string>>, i: nat)
    requires i < |lists| && lists[i] != []
    ensures lists[i][0] in All(lists)
  {
    AllMember(lists, lists[i][0]);
    assert lists[i][0] in lists[i];
  }
}
