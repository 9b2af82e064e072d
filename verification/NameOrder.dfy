/** Sorted name lists, and why a sorted list is determined by its names. */
module NameOrder {
  import opened Utf8Order

  ghost predicate Sorted(names: seq<string>) {
    forall i, j :: 0 <= i < j < |names| ==> Leq(names[i], names[j])
  }

  function Insert(name: string, sorted: seq<string>): seq<string> {
    if sorted == [] || Leq(name, sorted[0]) then [name] + sorted
    else [sorted[0]] + Insert(name, sorted[1..])
  }

  /** `names.sort(compareUtf8)`, as a value. */
  function SortNames(names: seq<string>): seq<string> {
    if names == [] then [] else Insert(names[0], SortNames(names[1..]))
  }

  lemma {:induction false} InsertKeepsNames(name: string, sorted: seq<string>)
    ensures multiset(Insert(name, sorted)) == multiset{name} + multiset(sorted)
  {
    if sorted != [] && !Leq(name, sorted[0]) {
      InsertKeepsNames(name, sorted[1..]);
      assert sorted == [sorted[0]] + sorted[1..];
    }
  }

  lemma {:induction false} InsertKeepsOrder(name: string, sorted: seq<string>)
    requires Sorted(sorted)
    ensures Sorted(Insert(name, sorted))
  {
    if sorted == [] {
    } else if Leq(name, sorted[0]) {
      forall j | 0 <= j < |sorted|
        ensures Leq(name, sorted[j])
      {
        LeqIsTotalOrder(name, sorted[0], sorted[j]);
      }
    } else {
      var rest := Insert(name, sorted[1..]);
      InsertKeepsOrder(name, sorted[1..]);
      InsertKeepsNames(name, sorted[1..]);
      LeqIsTotalOrder(name, sorted[0], name);
      forall x | x in rest
        ensures Leq(sorted[0], x)
      {
        assert x in multiset(rest);
        assert x == name || x in sorted[1..];
      }
    }
  }

  lemma {:induction false} SortNamesSorts(names: seq<string>)
    ensures Sorted(SortNames(names))
    ensures multiset(SortNames(names)) == multiset(names)
  {
    if names != [] {
      SortNamesSorts(names[1..]);
      InsertKeepsOrder(names[0], SortNames(names[1..]));
      InsertKeepsNames(names[0], SortNames(names[1..]));
      assert names == [names[0]] + names[1..];
    }
  }

  /** Two sorted lists of the same names are the same list. */
  lemma {:induction false} SortedIsUnique(a: seq<string>, b: seq<string>)
    requires Sorted(a) && Sorted(b) && multiset(a) == multiset(b)
    ensures a == b
  {
    assert |a| == |multiset(a)| == |multiset(b)| == |b|;
    if a != [] {
      assert a[0] in multiset(b);
      assert b[0] in multiset(a);
      assert Leq(a[0], b[0]) by {
        var i :| 0 <= i < |a| && a[i] == b[0];
        LeqReflexive(a[0]);
      }
      assert Leq(b[0], a[0]) by {
        var i :| 0 <= i < |b| && b[i] == a[0];
        LeqReflexive(b[0]);
      }
      LeqIsTotalOrder(a[0], b[0], a[0]);
      assert a == [a[0]] + a[1..] && b == [b[0]] + b[1..];
      assert multiset(a[1..]) == multiset(a) - multiset{a[0]};
      assert multiset(b[1..]) == multiset(b) - multiset{b[0]};
      SortedIsUnique(a[1..], b[1..]);
    }
  }

  /** The sorted list does not depend on the order in which the names arrived. */
  lemma {:induction false} SortIgnoresArrival(a: seq<string>, b: seq<string>)
    requires multiset(a) == multiset(b)
    ensures SortNames(a) == SortNames(b)
  {
    SortNamesSorts(a);
    SortNamesSorts(b);
    SortedIsUnique(SortNames(a), SortNames(b));
  }
}
