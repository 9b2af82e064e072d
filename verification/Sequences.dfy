/** Splitting and joining of sequences, shared by the path, line and archive models. */
module Sequences {

  datatype Option<+T> = None | Some(value: T)

  datatype Result<+T, +E> = Ok(value: T) | Err(error: E)

  /** `text.split(sep)`: always at least one part. */
  function SplitOn<T(==)>(s: seq<T>, sep: T): (parts: seq<seq<T>>)
    ensures |parts| >= 1
  {
    if s == [] then [[]]
    else
      var rest := SplitOn(s[1..], sep);
      if s[0] == sep then [[]] + rest
      else [[s[0]] + rest[0]] + rest[1..]
  }

  /** `parts.join(sep)`. */
  function Join<T>(parts: seq<seq<T>>, sep: T): seq<T> {
    if |parts| == 0 then []
    else if |parts| == 1 then parts[0]
    else parts[0] + [sep] + Join(parts[1..], sep)
  }

  function Flatten<T>(pieces: seq<seq<T>>): seq<T> {
    if pieces == [] then [] else pieces[0] + Flatten(pieces[1..])
  }

  predicate Free<T(==)>(parts: seq<seq<T>>, sep: T) {
    forall i :: 0 <= i < |parts| ==> sep !in parts[i]
  }

  /** No part produced by splitting holds the separator, and joining undoes splitting. */
  lemma {:induction false} SplitThenJoin<T>(s: seq<T>, sep: T)
    ensures Free(SplitOn(s, sep), sep)
    ensures Join(SplitOn(s, sep), sep) == s
  {
    if s != [] {
      SplitThenJoin(s[1..], sep);
      var rest := SplitOn(s[1..], sep);
      var parts := SplitOn(s, sep);
      if s[0] == sep {
        assert parts[1..] == rest;
      } else {
        assert parts[0] == [s[0]] + rest[0] && parts[1..] == rest[1..];
        assert Join(parts, sep) == [s[0]] + Join(rest, sep);
      }
      assert s == [s[0]] + s[1..];
    }
  }

  lemma {:induction false} SplitFree<T>(s: seq<T>, sep: T)
    requires sep !in s
    ensures SplitOn(s, sep) == [s]
  {
    if s != [] {
      SplitFree(s[1..], sep);
      assert s == [s[0]] + s[1..];
    }
  }

  /** What splitting does with one more element in front. */
  function Prepend<T(==)>(x: T, parts: seq<seq<T>>, sep: T): seq<seq<T>>
    requires |parts| >= 1
  {
    if x == sep then [[]] + parts else [[x] + parts[0]] + parts[1..]
  }

  lemma SplitCons<T>(x: T, s: seq<T>, sep: T)
    ensures SplitOn([x] + s, sep) == Prepend(x, SplitOn(s, sep), sep)
  {
    assert ([x] + s)[1..] == s;
  }

  lemma PrependAppend<T>(x: T, p: seq<seq<T>>, q: seq<seq<T>>, sep: T)
    requires |p| >= 1
    ensures Prepend(x, p + q, sep) == Prepend(x, p, sep) + q
  {
    assert (p + q)[1..] == p[1..] + q;
  }

  /** Splitting distributes over a separator in the middle. */
  lemma {:induction false} SplitAtSeparator<T>(a: seq<T>, b: seq<T>, sep: T)
    ensures SplitOn(a + [sep] + b, sep) == SplitOn(a, sep) + SplitOn(b, sep)
  {
    if a == [] {
      assert a + [sep] + b == [sep] + b;
      SplitCons(sep, b, sep);
    } else {
      var rest := a[1..] + [sep] + b;
      assert a + [sep] + b == [a[0]] + rest;
      SplitCons(a[0], rest, sep);
      SplitAtSeparator(a[1..], b, sep);
      PrependAppend(a[0], SplitOn(a[1..], sep), SplitOn(b, sep), sep);
      SplitCons(a[0], a[1..], sep);
      assert a == [a[0]] + a[1..];
    }
  }

  /** Splitting undoes joining when no part holds the separator. */
  lemma {:induction false} JoinThenSplit<T>(parts: seq<seq<T>>, sep: T)
    requires |parts| >= 1 && Free(parts, sep)
    ensures SplitOn(Join(parts, sep), sep) == parts
  {
    SplitFree(parts[0], sep);
    if |parts| > 1 {
      JoinThenSplit(parts[1..], sep);
      SplitAtSeparator(parts[0], Join(parts[1..], sep), sep);
      assert parts == [parts[0]] + parts[1..];
    }
  }

  /** Everything but the last part. */
  function Closed<T>(parts: seq<T>): seq<T>
    requires |parts| >= 1
  {
    parts[..|parts| - 1]
  }

  function Last<T>(parts: seq<T>): T
    requires |parts| >= 1
  {
    parts[|parts| - 1]
  }

  /** Splitting a text that grew: the last part of the old split is reopened. */
  lemma {:induction false} SplitGrown<T>(a: seq<T>, b: seq<T>, sep: T)
    ensures var p := SplitOn(a, sep);
            SplitOn(a + b, sep) == Closed(p) + SplitOn(Last(p) + b, sep)
  {
    if a == [] {
      assert a + b == b && [] + b == b;
      assert Closed(SplitOn(a, sep)) == [];
    } else {
      var x, q := a[0], SplitOn(a[1..], sep);
      var tail := SplitOn(Last(q) + b, sep);
      SplitGrown(a[1..], b, sep);
      assert a == [x] + a[1..] && a + b == [x] + (a[1..] + b);
      SplitCons(x, a[1..], sep);
      SplitCons(x, a[1..] + b, sep);
      if x != sep && |q| == 1 {
        assert Closed(q) + tail == tail;
        assert Last(Prepend(x, q, sep)) + b == [x] + (q[0] + b);
        SplitCons(x, q[0] + b, sep);
        assert Closed(Prepend(x, q, sep)) == [];
      } else {
        PrependClosed(x, q, tail, sep);
      }
    }
  }

  lemma PrependClosed<T>(x: T, q: seq<seq<T>>, tail: seq<seq<T>>, sep: T)
    requires |q| >= 1 && |tail| >= 1 && (x == sep || |q| > 1)
    ensures Prepend(x, Closed(q) + tail, sep) == Closed(Prepend(x, q, sep)) + tail
    ensures Last(Prepend(x, q, sep)) == Last(q)
  {
    if |q| > 1 {
      PrependAppend(x, Closed(q), tail, sep);
      ClosedPrepend(x, q, sep);
    } else {
      assert Closed(q) + tail == tail;
      assert Closed([[]] + q) == [[]];
    }
  }

  lemma ClosedPrepend<T>(x: T, q: seq<seq<T>>, sep: T)
    requires |q| > 1
    ensures Prepend(x, Closed(q), sep) == Closed(Prepend(x, q, sep))
    ensures Last(Prepend(x, q, sep)) == Last(q)
  {}
}
