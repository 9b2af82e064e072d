/** The binary heap of the run merge, kept in one growing list. */
module MergeHeap {
  import opened Utf8Order

  datatype Item = Item(name: string, index: nat)

  function Parent(j: nat): (p: nat)
    ensures j > 0 ==> p < j
  {
    if j == 0 then 0 else (j - 1) / 2
  }

  predicate Below(h: seq<Item>, a: nat, b: nat)
    requires a < |h| && b < |h|
  {
    Leq(h[a].name, h[b].name)
  }

  predicate IsHeap(h: seq<Item>) {
    forall j: nat :: 0 < j < |h| ==> Below(h, Parent(j), j)
  }

  /** A heap but for the link above `k`; the children of `k` respect the parent of `k`. */
  ghost predicate HeapButAbove(h: seq<Item>, k: nat) {
    && (forall j: nat :: 0 < j < |h| && j != k ==> Below(h, Parent(j), j))
    && (forall j: nat :: 0 < k && 0 < j < |h| && Parent(j) == k ==> Below(h, Parent(k), j))
  }

  /** A heap but for the links below `k`; the children of `k` respect the parent of `k`. */
  ghost predicate HeapButBelow(h: seq<Item>, k: nat) {
    && (forall j: nat :: 0 < j < |h| && Parent(j) != k ==> Below(h, Parent(j), j))
    && (forall j: nat :: 0 < k && 0 < j < |h| && Parent(j) == k ==> Below(h, Parent(k), j))
  }

  function Swap(h: seq<Item>, i: nat, j: nat): seq<Item>
    requires i < |h| && j < |h|
  {
    h[i := h[j]][j := h[i]]
  }

  lemma SwapKeepsItems(h: seq<Item>, i: nat, j: nat)
    requires i < j < |h|
    ensures multiset(Swap(h, i, j)) == multiset(h)
  {
    assert h == h[..i] + [h[i]] + h[i + 1..j] + [h[j]] + h[j + 1..];
    assert Swap(h, i, j) == h[..i] + [h[j]] + h[i + 1..j] + [h[i]] + h[j + 1..];
  }

  /** Moving an item up one level repairs the link above it. */
  lemma {:induction false} SwapUp(h: seq<Item>, k: nat)
    requires 0 < k < |h| && HeapButAbove(h, k) && !Below(h, Parent(k), k)
    ensures HeapButAbove(Swap(h, Parent(k), k), Parent(k))
  {
    var p := Parent(k);
    var g := Swap(h, p, k);
    LeqIsTotalOrder(h[p].name, h[k].name, h[p].name);
    forall j: nat | 0 < j < |g| && j != p
      ensures Below(g, Parent(j), j)
    {
      if j != k && Parent(j) == p {
        assert Below(h, p, j);
        LeqIsTotalOrder(h[k].name, h[p].name, h[j].name);
      }
    }
    forall j: nat | 0 < p && 0 < j < |g| && Parent(j) == p
      ensures Below(g, Parent(p), j)
    {
      assert Below(h, Parent(p), p);
      if j != k {
        assert Below(h, p, j);
        LeqIsTotalOrder(h[Parent(p)].name, h[p].name, h[j].name);
      }
    }
  }

  /** Moving an item down to its smallest child repairs the links below it. */
  lemma SwapDown(h: seq<Item>, k: nat, c: nat)
    requires k < |h| && HeapButBelow(h, k)
    requires 0 < c < |h| && Parent(c) == k && Below(h, c, k)
    requires forall j: nat :: 0 < j < |h| && Parent(j) == k ==> Below(h, c, j)
    ensures HeapButBelow(Swap(h, k, c), c)
  {
    var g := Swap(h, k, c);
    forall j: nat | 0 < j < |g| && Parent(j) != c
      ensures Below(g, Parent(j), j)
    {
      if j == k {
        assert Below(h, Parent(k), c);
      } else if Parent(j) != k {
        assert Below(h, Parent(j), j);
      }
    }
    forall j: nat | 0 < j < |g| && Parent(j) == c
      ensures Below(g, Parent(c), j)
    {
      assert Below(h, Parent(j), j);
    }
  }

  lemma {:induction false} RootIsLeast(h: seq<Item>, j: nat)
    requires IsHeap(h) && j < |h|
    ensures Leq(h[0].name, h[j].name)
  {
    if j == 0 {
      LeqReflexive(h[0].name);
    } else {
      RootIsLeast(h, Parent(j));
      assert Below(h, Parent(j), j);
      LeqIsTotalOrder(h[0].name, h[Parent(j)].name, h[j].name);
    }
  }

  lemma NoneIsLess(h: seq<Item>)
    requires IsHeap(h)
    ensures forall i :: 0 <= i < |h| ==> Leq(h[0].name, h[i].name)
  {
    forall i | 0 <= i < |h|
      ensures Leq(h[0].name, h[i].name)
    {
      RootIsLeast(h, i);
    }
  }

  class MinHeap {
    var heap: seq<Item>

    ghost predicate Valid()
      reads this
    {
      IsHeap(heap)
    }

    constructor ()
      ensures Valid() && heap == []
    {
      heap := [];
    }

    method Push(item: Item)
      requires Valid()
      modifies this
      ensures Valid()
      ensures multiset(heap) == old(multiset(heap)) + multiset{item}
    {
      heap := heap + [item];
      var index := |heap| - 1;
      while index > 0
        invariant 0 <= index < |heap|
        invariant HeapButAbove(heap, index)
        invariant multiset(heap) == old(multiset(heap)) + multiset{item}
      {
        var parent := Parent(index);
        if Leq(heap[parent].name, heap[index].name) {
          assert Below(heap, Parent(index), index);
          break;
        }
        SwapUp(heap, index);
        SwapKeepsItems(heap, parent, index);
        heap := Swap(heap, parent, index);
        index := parent;
      }
    }

    method Pop() returns (first: Item)
      requires Valid() && heap != []
      modifies this
      ensures Valid()
      ensures first in old(heap) && multiset(heap) == old(multiset(heap)) - multiset{first}
      ensures forall i :: 0 <= i < old(|heap|) ==> Leq(first.name, old(heap[i]).name)
    {
      hide Leq, Below, HeapButBelow;
      first := heap[0];
      NoneIsLess(heap);
      RemoveRoot(heap);
      var last := heap[|heap| - 1];
      heap := heap[..|heap| - 1];
      if heap != [] {
        heap := heap[0 := last];
        NewRoot(old(heap), last);
        SiftDown();
      }
    }

    method SiftDown()
      requires heap != [] && HeapButBelow(heap, 0)
      modifies this
      ensures Valid() && multiset(heap) == old(multiset(heap))
    {
      var index := 0;
      while true
        invariant 0 <= index < |heap|
        invariant HeapButBelow(heap, index)
        invariant multiset(heap) == old(multiset(heap))
        decreases |heap| - index
      {
        var smallest := SmallestChild(heap, index);
        if smallest == index {
          break;
        }
        SwapDown(heap, index, smallest);
        SwapKeepsItems(heap, index, smallest);
        heap := Swap(heap, index, smallest);
        index := smallest;
      }
    }
  }

  /** The smallest of an entry and its children, as the sift-down loop picks it. */
  method SmallestChild(h: seq<Item>, index: nat) returns (smallest: nat)
    requires index < |h|
    ensures smallest < |h| && (smallest == index || (smallest > index && Parent(smallest) == index))
    ensures Below(h, smallest, index)
    ensures forall j: nat :: 0 < j < |h| && Parent(j) == index ==> Below(h, smallest, j)
  {
    var left := index * 2 + 1;
    var right := left + 1;
    LeqReflexive(h[index].name);
    smallest := index;
    if left < |h| {
      LeqIsTotalOrder(h[left].name, h[smallest].name, h[left].name);
      LeqReflexive(h[left].name);
      if CompareUtf8(h[left].name, h[smallest].name) < 0 {
        smallest := left;
      }
    }
    if right < |h| {
      LeqIsTotalOrder(h[right].name, h[smallest].name, h[right].name);
      LeqReflexive(h[right].name);
      if CompareUtf8(h[right].name, h[smallest].name) < 0 {
        LeqIsTotalOrder(h[right].name, h[smallest].name, h[index].name);
        LeqIsTotalOrder(h[right].name, h[smallest].name, h[left].name);
        smallest := right;
      }
    }
    forall j: nat | 0 < j < |h| && Parent(j) == index
      ensures Below(h, smallest, j)
    {
      assert j == left || j == right;
    }
  }

  /** Whatever takes the place of the root, only the links below it can break. */
  lemma NewRoot(h: seq<Item>, root: Item)
    requires |h| > 1 && IsHeap(h)
    ensures HeapButBelow(h[..|h| - 1][0 := root], 0)
  {
    var g := h[..|h| - 1][0 := root];
    forall j: nat | 0 < j < |g| && Parent(j) != 0
      ensures Below(g, Parent(j), j)
    {
      assert Below(h, Parent(j), j);
    }
  }

  lemma RemoveRoot(h: seq<Item>)
    requires h != []
    ensures var short := h[..|h| - 1];
            multiset(if short == [] then short else short[0 := h[|h| - 1]]) == multiset(h) - multiset{h[0]}
  {
    var last := h[|h| - 1];
    var short := h[..|h| - 1];
    assert h == short + [last];
    if short != [] {
      assert short == [h[0]] + short[1..];
      assert short[0 := last] == [last] + short[1..];
    }
  }
}
