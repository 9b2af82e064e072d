/**
 The workspace walk and the text whose digest is the workspace fingerprint.
*/
module Traversal {
  import opened Sequences
  import opened HexDigests
  import opened CapturePolicy
  import opened NameOrder
  import Glob
  import Utf8Order
  import ExternalSort

  /** A static tree; a link is a leaf, and a directory lists its entries in some order. */
  datatype Node =
    | File(digest: string)
    | Link(mode: nat, target: string)
    | Special(mode: nat)
    | Directory(mode: nat, entries: seq<Entry>)
  datatype Entry = Entry(name: string, node: Node)

  datatype Visit = Visit(relative: string, fingerprint: string)

  function Decimal(n: nat): string {
    if n < 10 then [('0' as int + n) as char] else Decimal(n / 10) + [('0' as int + n % 10) as char]
  }

  /** `fingerprintFile`; the digest of a file covers its size, mode and bytes. */
  function Fingerprint(node: Node): string {
    match node
    case File(digest) => "file:" + digest
    case Link(mode, target) => "link:" + Decimal(mode) + ":" + target
    case Special(mode) => "special:" + Decimal(mode)
    case Directory(mode, _) => "directory:" + Decimal(mode)
  }

  function Names(entries: seq<Entry>): (names: seq<string>)
    ensures |names| == |entries|
    ensures forall i :: 0 <= i < |entries| ==> names[i] == entries[i].name
  {
    seq(|entries|, i requires 0 <= i < |entries| => entries[i].name)
  }

  function IndexOf(entries: seq<Entry>, name: string): (i: nat)
    requires name in Names(entries)
    ensures i < |entries| && entries[i].name == name
  {
    if entries[0].name == name then 0
    else
      NamesFrom(entries, name);
      IndexOf(entries[1..], name) + 1
  }

  lemma {:induction false} NamesFrom(entries: seq<Entry>, name: string)
    requires name in Names(entries) && entries[0].name != name
    ensures name in Names(entries[1..])
  {
    var i: nat :| i < |entries| && Names(entries)[i] == name;
    assert Names(entries[1..])[i - 1] == name;
  }

  function Child(node: Node, name: string): (child: Node)
    requires node.Directory? && name in Names(node.entries)
    ensures child < node
  {
    node.entries[IndexOf(node.entries, name)].node
  }

  /** The names of a directory in the order in which the walk takes them. */
  function Order(node: Node): (names: seq<string>)
    requires node.Directory?
    ensures forall name :: name in names ==> name in Names(node.entries)
  {
    SortNamesSorts(Names(node.entries));
    var names := SortNames(Names(node.entries));
    assert forall name :: name in names ==> name in multiset(names);
    names
  }

  function Relative(prefix: string, name: string): string {
    if prefix != "" then prefix + "/" + name else name
  }

  // ----- Which paths count -----

  function ForwardSlashes(path: string): string {
    if path == "" then ""
    else [if path[0] == '\\' then '/' else path[0]] + ForwardSlashes(path[1..])
  }

  /** Forward slashes, and no leading "./". */
  function RelativeForm(path: string): string {
    var slashed := ForwardSlashes(path);
    if "./" <= slashed then slashed[2..] else slashed
  }

  predicate ShouldMarkDirty(policy: Policy, path: string) {
    var normalized := RelativeForm(path);
    normalized != "" && normalized != ".." && !("../" <= normalized) && !IsExcluded(policy, normalized)
  }

  lemma {:induction false} SlashesKept(path: string)
    requires '\\' !in path
    ensures ForwardSlashes(path) == path
  {
    if path != "" {
      SlashesKept(path[1..]);
      assert path == [path[0]] + path[1..];
    }
  }

  lemma HeadPart(path: string, head: string)
    requires '/' !in head
    ensures head + "/" <= path ==> SplitOn(path, '/')[0] == head
    ensures path == head ==> SplitOn(path, '/')[0] == head
  {
    SplitFree(head, '/');
    if head + "/" <= path {
      var rest := path[|head| + 1..];
      assert path == head + ['/'] + rest;
      SplitAtSeparator(head, rest, '/');
    }
  }

  /** On normalized paths marking is the opposite of exclusion. */
  lemma MarkedUnlessExcluded(policy: Policy, path: string)
    requires Normalized(path)
    ensures ShouldMarkDirty(policy, path) <==> !IsExcluded(policy, path)
  {
    hide IsExcluded, SplitOn;
    SlashesKept(path);
    HeadPart(path, ".");
    HeadPart(path, "..");
    assert GoodName(SplitOn(path, '/')[0]);
    assert "./" == "." + "/" && "../" == ".." + "/";
  }

  // ----- The walk -----

  /** `traverseWorkspace`: an excluded entry is skipped with everything below it. */
  function Walk(policy: Policy, node: Node, prefix: string): seq<Visit>
    requires node.Directory?
    decreases node, |Order(node)| + 1
  {
    WalkNames(policy, node, prefix, Order(node))
  }

  function WalkNames(policy: Policy, node: Node, prefix: string, names: seq<string>): seq<Visit>
    requires node.Directory? && forall name :: name in names ==> name in Names(node.entries)
    decreases node, |names|
  {
    if names == [] then []
    else
      var relative := Relative(prefix, names[0]);
      var child := Child(node, names[0]);
      (if !ShouldMarkDirty(policy, relative) then []
       else [Visit(relative, Fingerprint(child))] + (if child.Directory? then Walk(policy, child, relative) else []))
      + WalkNames(policy, node, prefix, names[1..])
  }

  /** The full preorder traversal, which skips nothing. */
  function Preorder(node: Node, prefix: string): seq<Visit>
    requires node.Directory?
    decreases node, |Order(node)| + 1
  {
    PreorderNames(node, prefix, Order(node))
  }

  function PreorderNames(node: Node, prefix: string, names: seq<string>): seq<Visit>
    requires node.Directory? && forall name :: name in names ==> name in Names(node.entries)
    decreases node, |names|
  {
    if names == [] then []
    else
      var relative := Relative(prefix, names[0]);
      var child := Child(node, names[0]);
      [Visit(relative, Fingerprint(child))] + (if child.Directory? then Preorder(child, relative) else [])
      + PreorderNames(node, prefix, names[1..])
  }

  function Marked(policy: Policy, visits: seq<Visit>): seq<Visit> {
    if visits == [] then []
    else (if ShouldMarkDirty(policy, visits[0].relative) then [visits[0]] else []) + Marked(policy, visits[1..])
  }

  lemma {:induction false} MarkedAppend(policy: Policy, a: seq<Visit>, b: seq<Visit>)
    ensures Marked(policy, a + b) == Marked(policy, a) + Marked(policy, b)
  {
    if a == [] {
      assert a + b == b;
    } else {
      assert (a + b)[1..] == a[1..] + b;
      MarkedAppend(policy, a[1..], b);
    }
  }

  lemma {:induction false} NoneMarked(policy: Policy, visits: seq<Visit>)
    requires forall v :: v in visits ==> !ShouldMarkDirty(policy, v.relative)
    ensures Marked(policy, visits) == []
  {
    if visits != [] {
      NoneMarked(policy, visits[1..]);
    }
  }

  /**
   A tree as a file system can hold it: names and link targets have no NUL, names
   are entry names, and no backslash occurs in them.
  */
  ghost predicate WellNamed(node: Node) {
    match node
    case File(digest) => HexDigest(digest)
    case Link(_, target) => '\0' !in target
    case Special(_) => true
    case Directory(_, entries) =>
      forall i :: 0 <= i < |entries| ==>
        && entries[i].name !in {"", ".", ".."} && '/' !in entries[i].name && '\\' !in entries[i].name
        && '\0' !in entries[i].name && WellNamed(entries[i].node)
  }

  lemma ChildWellNamed(node: Node, name: string)
    requires node.Directory? && WellNamed(node) && name in Names(node.entries)
    ensures EntryName(name) && '\0' !in name && WellNamed(Child(node, name))
  {
    var i := IndexOf(node.entries, name);
    assert EntryName(node.entries[i].name);
  }

  /** The root, or a path the walk can reach. */
  ghost predicate GoodPrefix(prefix: string) {
    prefix == "" || Normalized(prefix)
  }

  lemma RelativeIsNormalized(prefix: string, name: string)
    requires GoodPrefix(prefix) && EntryName(name)
    ensures Normalized(Relative(prefix, name))
  {
    if prefix == "" {
      SplitFree(name, '/');
      assert name[0] in name;
    } else {
      ChildNormalized(prefix, name);
    }
  }

  /** Below an excluded directory nothing is marked. */
  lemma {:induction false} NothingMarkedBelow(policy: Policy, node: Node, prefix: string, names: seq<string>)
    requires Valid(policy) && node.Directory? && WellNamed(node)
    requires Normalized(prefix) && IsExcluded(policy, prefix)
    requires forall name :: name in names ==> name in Names(node.entries)
    ensures forall v :: v in PreorderNames(node, prefix, names) ==> !ShouldMarkDirty(policy, v.relative)
    decreases node, |names|
  {
    if names != [] {
      var relative := Relative(prefix, names[0]);
      var child := Child(node, names[0]);
      ChildWellNamed(node, names[0]);
      RelativeIsNormalized(prefix, names[0]);
      ExclusionDescends(policy, prefix, names[0]);
      MarkedUnlessExcluded(policy, relative);
      if child.Directory? {
        NothingMarkedBelow(policy, child, relative, Order(child));
      }
      NothingMarkedBelow(policy, node, prefix, names[1..]);
    }
  }

  /** Pruning is sound: the walk is the full preorder traversal without the excluded paths. */
  lemma {:induction false} PruningIsFiltering(policy: Policy, node: Node, prefix: string, names: seq<string>)
    requires Valid(policy) && node.Directory? && WellNamed(node) && GoodPrefix(prefix)
    requires forall name :: name in names ==> name in Names(node.entries)
    ensures WalkNames(policy, node, prefix, names) == Marked(policy, PreorderNames(node, prefix, names))
    decreases node, |names|
  {
    if names != [] {
      var relative := Relative(prefix, names[0]);
      var child := Child(node, names[0]);
      ChildWellNamed(node, names[0]);
      RelativeIsNormalized(prefix, names[0]);
      MarkedUnlessExcluded(policy, relative);
      var below := if child.Directory? then Preorder(child, relative) else [];
      if child.Directory? {
        if ShouldMarkDirty(policy, relative) {
          PruningIsFiltering(policy, child, relative, Order(child));
        } else {
          NothingMarkedBelow(policy, child, relative, Order(child));
          NoneMarked(policy, below);
        }
      }
      PruningIsFiltering(policy, node, prefix, names[1..]);
      var first := Visit(relative, Fingerprint(child));
      MarkedAppend(policy, [first] + below, PreorderNames(node, prefix, names[1..]));
      MarkedAppend(policy, [first], below);
      MarkedOne(policy, first);
    }
  }

  lemma MarkedOne(policy: Policy, v: Visit)
    ensures Marked(policy, [v]) == if ShouldMarkDirty(policy, v.relative) then [v] else []
  {
    assert [v][1..] == [];
  }

  /** The walk of a whole workspace visits exactly the paths that are not excluded, in preorder. */
  lemma WalkVisitsTheUnexcluded(policy: Policy, root: Node)
    requires Valid(policy) && root.Directory? && WellNamed(root)
    ensures Walk(policy, root, "") == Marked(policy, Preorder(root, ""))
  {
    PruningIsFiltering(policy, root, "", Order(root));
  }

  /** What the walk visits for one entry. */
  function EntryVisits(policy: Policy, node: Node, prefix: string, name: string): seq<Visit>
    requires node.Directory? && name in Names(node.entries)
  {
    var relative := Relative(prefix, name);
    var child := Child(node, name);
    if !ShouldMarkDirty(policy, relative) then []
    else [Visit(relative, Fingerprint(child))] + (if child.Directory? then Walk(policy, child, relative) else [])
  }

  lemma WalkStep(policy: Policy, node: Node, prefix: string, names: seq<string>, i: nat, before: seq<Visit>)
    requires node.Directory? && i < |names|
    requires forall name :: name in names ==> name in Names(node.entries)
    ensures before + WalkNames(policy, node, prefix, names[i..])
         == before + EntryVisits(policy, node, prefix, names[i]) + WalkNames(policy, node, prefix, names[i + 1..])
  {
    assert names[i..][0] == names[i] && names[i..][1..] == names[i + 1..];
  }

  method VisitEntry(policy: Policy, node: Node, prefix: string, name: string) returns (visits: seq<Visit>)
    requires node.Directory? && name in Names(node.entries)
    ensures visits == EntryVisits(policy, node, prefix, name)
    decreases node, 0
  {
    hide WalkNames, ShouldMarkDirty, Relative;
    var relative := Relative(prefix, name);
    if !ShouldMarkDirty(policy, relative) {
      return [];
    }
    var child := Child(node, name);
    visits := [Visit(relative, Fingerprint(child))];
    if child.Directory? {
      var below := TraverseWorkspace(policy, child, relative);
      visits := visits + below;
    }
  }

  /** The walk as the source runs it: sort the names of a directory, then go through them. */
  method TraverseWorkspace(policy: Policy, node: Node, prefix: string) returns (visits: seq<Visit>)
    requires node.Directory?
    ensures visits == Walk(policy, node, prefix)
    decreases node, 1
  {
    hide WalkNames, EntryVisits;
    var names, _ := ExternalSort.SortedDirectoryNames(Names(node.entries));
    assert names == Order(node);
    visits := [];
    var i := 0;
    assert names[0..] == names;
    while i < |names|
      invariant 0 <= i <= |names|
      invariant visits + WalkNames(policy, node, prefix, names[i..]) == Walk(policy, node, prefix)
    {
      WalkStep(policy, node, prefix, names, i, visits);
      var entry := VisitEntry(policy, node, prefix, names[i]);
      visits := visits + entry;
      i := i + 1;
    }
    NoNames(policy, node, prefix, names[i..]);
  }

  lemma NoNames(policy: Policy, node: Node, prefix: string, names: seq<string>)
    requires node.Directory? && names == []
    ensures WalkNames(policy, node, prefix, names) == []
  {}

  // ----- The fingerprint -----

  /** The same tree, with directories listed in another order. */
  ghost predicate SameTree(a: Node, b: Node)
    decreases a
  {
    && Fingerprint(a) == Fingerprint(b)
    && a.Directory? == b.Directory?
    && (a.Directory? ==>
          && multiset(Names(a.entries)) == multiset(Names(b.entries))
          && forall name :: name in Names(a.entries) && name in Names(b.entries)
              ==> SameTree(Child(a, name), Child(b, name)))
  }

  lemma SameOrder(a: Node, b: Node)
    requires a.Directory? && b.Directory? && multiset(Names(a.entries)) == multiset(Names(b.entries))
    ensures Order(a) == Order(b)
    ensures forall name :: name in Order(a) ==> name in Names(a.entries) && name in Names(b.entries)
  {
    SortIgnoresArrival(Names(a.entries), Names(b.entries));
  }

  lemma {:induction false} WalkIgnoresListing(policy: Policy, a: Node, b: Node, prefix: string, names: seq<string>)
    requires a.Directory? && b.Directory? && SameTree(a, b)
    requires forall name :: name in names ==> name in Names(a.entries) && name in Names(b.entries)
    ensures WalkNames(policy, a, prefix, names) == WalkNames(policy, b, prefix, names)
    decreases a, |names|
  {
    if names != [] {
      var (x, y) := (Child(a, names[0]), Child(b, names[0]));
      assert SameTree(x, y);
      if x.Directory? {
        SameOrder(x, y);
        WalkIgnoresListing(policy, x, y, Relative(prefix, names[0]), Order(x));
      }
      WalkIgnoresListing(policy, a, b, prefix, names[1..]);
    }
  }

  /** The text of one visit, and of all visits, that goes into the digest. */
  function Record(v: Visit): string {
    v.relative + ['\0'] + v.fingerprint + ['\n']
  }

  function Records(visits: seq<Visit>): string {
    if visits == [] then "" else Record(visits[0]) + Records(visits[1..])
  }

  function FingerprintInput(policy: Policy, sha256: string, root: Node): string
    requires root.Directory?
  {
    (if policy.mode == SourceOnly then "source-only" + ['\0'] + sha256 + ['\0'] else "")
    + Records(Walk(policy, root, ""))
  }

  /** The fingerprint does not depend on the order in which the file system lists directories. */
  lemma FingerprintIgnoresListing(policy: Policy, sha256: string, a: Node, b: Node)
    requires a.Directory? && b.Directory? && SameTree(a, b)
    ensures FingerprintInput(policy, sha256, a) == FingerprintInput(policy, sha256, b)
  {
    SameOrder(a, b);
    WalkIgnoresListing(policy, a, b, "", Order(a));
    assert Walk(policy, a, "") == Walk(policy, b, "");
  }

  ghost predicate NulFree(visits: seq<Visit>) {
    forall v :: v in visits ==> '\0' !in v.relative && '\0' !in v.fingerprint
  }

  /** Between the NUL after one path and the NUL after the next, the only line feed ends the first record. */
  ghost predicate OneBreak(visits: seq<Visit>) {
    forall k: nat :: k + 1 < |visits| ==> CleanBoundary(visits, k)
  }

  predicate CleanBoundary(visits: seq<Visit>, k: nat)
    requires k + 1 < |visits|
  {
    '\n' !in visits[k].fingerprint && '\n' !in visits[k + 1].relative
  }

  function FirstAt(s: string, c: char): nat {
    if s == "" || s[0] == c then 0 else FirstAt(s[1..], c) + 1
  }

  lemma {:induction false} FirstAtCut(a: string, x: string, c: char)
    requires c !in a
    ensures FirstAt(a + [c] + x, c) == |a|
  {
    if a != "" {
      assert (a + [c] + x)[1..] == a[1..] + [c] + x;
      FirstAtCut(a[1..], x, c);
    }
  }

  /** The first occurrence of a character cuts a text in one way only. */
  lemma SameCut(a: string, x: string, b: string, y: string, c: char)
    requires c !in a && c !in b && a + [c] + x == b + [c] + y
    ensures a == b && x == y
  {
    FirstAtCut(a, x, c);
    FirstAtCut(b, y, c);
    assert (a + [c] + x)[..|a|] == a && (b + [c] + y)[..|a|] == b;
    assert (a + [c] + x)[|a| + 1..] == x && (b + [c] + y)[|a| + 1..] == y;
  }

  /** A text with one occurrence of a character is cut there in one way only. */
  lemma OnlyCut(a: string, x: string, b: string, y: string, c: char)
    requires c !in a && c !in x && a + [c] + x == b + [c] + y
    ensures a == b && x == y
  {
    var whole := a + [c] + x;
    assert whole[|b|] == (b + [c] + y)[|b|] == c;
    assert forall i :: 0 <= i < |whole| && i != |a| ==> whole[i] != c;
    assert whole[..|a|] == a && (b + [c] + y)[..|a|] == b;
    assert whole[|a| + 1..] == x && (b + [c] + y)[|a| + 1..] == y;
  }

  lemma {:induction false} RecordsAppend(a: seq<Visit>, b: seq<Visit>)
    ensures Records(a + b) == Records(a) + Records(b)
  {
    if a == [] {
      assert a + b == b;
    } else {
      assert (a + b)[1..] == a[1..] + b;
      RecordsAppend(a[1..], b);
    }
  }

  lemma NulMeansRecord(visits: seq<Visit>)
    ensures '\0' in Records(visits) <==> visits != []
  {
    if visits != [] {
      assert Records(visits)[|visits[0].relative|] == '\0';
    }
  }

  /** The text of a list of visits from its first fingerprint on. */
  function AfterPath(fingerprint: string, rest: seq<Visit>): string {
    fingerprint + ['\n'] + Records(rest)
  }

  lemma RecordsStart(a: seq<Visit>)
    requires a != []
    ensures Records(a) == a[0].relative + ['\0'] + AfterPath(a[0].fingerprint, a[1..])
  {
    hide Records;
    RecordsCons(a);
    var (r, f, rest) := (a[0].relative, a[0].fingerprint, Records(a[1..]));
    assert (r + ['\0'] + f + ['\n']) + rest == r + ['\0'] + (f + ['\n'] + rest);
  }

  lemma RecordsCons(a: seq<Visit>)
    requires a != []
    ensures Records(a) == Record(a[0]) + Records(a[1..])
  {}

  lemma NulFreeAt(a: seq<Visit>, i: nat)
    requires NulFree(a) && i < |a|
    ensures '\0' !in a[i].relative && '\0' !in a[i].fingerprint
    ensures NulFree(a[1..])
  {
    assert a[i] in a;
  }

  lemma {:induction false} FirstPathReads(a: seq<Visit>, b: seq<Visit>)
    requires a != [] && b != [] && NulFree(a) && NulFree(b) && Records(a) == Records(b)
    ensures a[0].relative == b[0].relative
    ensures AfterPath(a[0].fingerprint, a[1..]) == AfterPath(b[0].fingerprint, b[1..])
  {
    hide Records, NulFree, AfterPath;
    NulFreeAt(a, 0);
    NulFreeAt(b, 0);
    RecordsStart(a);
    RecordsStart(b);
    SameCut(a[0].relative, AfterPath(a[0].fingerprint, a[1..]), b[0].relative, AfterPath(b[0].fingerprint, b[1..]),
        '\0');
  }

  lemma InTail(g: string, r: string, c: char)
    ensures c in r ==> c in g + ['\n'] + r
  {
    if c in r {
      var i :| 0 <= i < |r| && r[i] == c;
      assert (g + ['\n'] + r)[|g| + 1 + i] == c;
    }
  }

  lemma LastRecordReads(f: string, g: string, rest: seq<Visit>)
    requires '\0' !in f && AfterPath(f, []) == AfterPath(g, rest)
    ensures rest == [] && f == g
  {
    NulMeansRecord(rest);
    InTail(g, Records(rest), '\0');
    assert AfterPath(f, []) == f + ['\n'];
    assert (f + ['\n'])[..|f|] == f && (g + ['\n'] + [])[..|g|] == g;
  }

  /** The next path follows a fingerprint without a line feed; both read back, and so does what follows. */
  lemma {:induction false} NextRecordReads(f: string, p: seq<Visit>, g: string, q: seq<Visit>)
    requires p != [] && NulFree(p) && NulFree(q) && '\0' !in f && '\0' !in g
    requires '\n' !in f && '\n' !in p[0].relative
    requires AfterPath(f, p) == AfterPath(g, q)
    ensures f == g && q != [] && Records(p) == Records(q)
  {
    SomeRecord(f, p, g, q);
    hide Records, NulFree;
    NulFreeAt(p, 0);
    NulFreeAt(q, 0);
    RecordsStart(p);
    RecordsStart(q);
    var (r, t) := (p[0].relative, q[0].relative);
    var (x, y) := (AfterPath(p[0].fingerprint, p[1..]), AfterPath(q[0].fingerprint, q[1..]));
    MoveCut(f, r, x);
    MoveCut(g, t, y);
    hide AfterPath;
    SameCut(f + ['\n'] + r, x, g + ['\n'] + t, y, '\0');
    OnlyCut(f, r, g, t, '\n');
  }

  lemma MoveCut(f: string, r: string, x: string)
    ensures f + ['\n'] + (r + ['\0'] + x) == (f + ['\n'] + r) + ['\0'] + x
  {}

  lemma SomeRecord(f: string, p: seq<Visit>, g: string, q: seq<Visit>)
    requires p != [] && '\0' !in g && AfterPath(f, p) == AfterPath(g, q)
    ensures q != []
  {
    NulMeansRecord(p);
    InTail(f, Records(p), '\0');
    NulMeansRecord(q);
    assert q == [] ==> AfterPath(g, q) == g + ['\n'];
  }

  /** With one line feed between neighbouring paths, the text determines the visits. */
  lemma {:induction false} RecordsDetermineVisits(a: seq<Visit>, b: seq<Visit>)
    requires NulFree(a) && NulFree(b) && OneBreak(a) && Records(a) == Records(b)
    ensures a == b
  {
    NulMeansRecord(a);
    NulMeansRecord(b);
    if a != [] {
      assert a[0] in a && b[0] in b;
      FirstPathReads(a, b);
      if |a| == 1 {
        assert a[1..] == [];
        LastRecordReads(a[0].fingerprint, b[0].fingerprint, b[1..]);
      } else {
        assert a[1..][0] == a[1] && CleanBoundary(a, 0);
        NextRecordReads(a[0].fingerprint, a[1..], b[0].fingerprint, b[1..]);
        OneBreakBelow(a);
        RecordsDetermineVisits(a[1..], b[1..]);
      }
      assert a == [a[0]] + a[1..] && b == [b[0]] + b[1..];
    }
  }

  lemma OneBreakBelow(a: seq<Visit>)
    requires a != [] && OneBreak(a)
    ensures OneBreak(a[1..])
  {
    forall k: nat | k + 1 < |a[1..]|
      ensures CleanBoundary(a[1..], k)
    {
      assert CleanBoundary(a, k + 1);
    }
  }

  lemma Occurs(s: string, c: char) returns (u: string, v: string)
    requires c in s
    ensures s == u + [c] + v
  {
    var i :| 0 <= i < |s| && s[i] == c;
    u, v := s[..i], s[i + 1..];
  }

  /** One more line feed near a record boundary lets the same text be read in another way. */
  lemma AnotherReading(a: seq<Visit>, k: nat) returns (b: seq<Visit>)
    requires NulFree(a) && k + 1 < |a|
    requires '\n' in a[k].fingerprint || '\n' in a[k + 1].relative
    ensures NulFree(b) && b != a && Records(b) == Records(a)
  {
    var (x, y) := (a[k], a[k + 1]);
    assert x in a && y in a;
    var (f, r) := (x.fingerprint, y.relative);
    var g, q;
    if '\n' in x.fingerprint {
      g, q := Occurs(x.fingerprint, '\n');
      assert x.fingerprint + ['\n'] + y.relative == g + ['\n'] + (q + ['\n'] + y.relative);
      q := q + ['\n'] + y.relative;
    } else {
      g, q := Occurs(y.relative, '\n');
      assert x.fingerprint + ['\n'] + y.relative == (x.fingerprint + ['\n'] + g) + ['\n'] + q;
      g := x.fingerprint + ['\n'] + g;
    }
    b := Reread(a, k, g, q);
    NulFreeParts(f, r, g, q);
    RereadIsNulFree(a, k, g, q);
    RereadRecords(a, k, g, q);
    assert b[k].fingerprint == g;
  }

  function Reread(a: seq<Visit>, k: nat, g: string, q: string): seq<Visit>
    requires k + 1 < |a|
  {
    a[..k] + [Visit(a[k].relative, g), Visit(q, a[k + 1].fingerprint)] + a[k + 2..]
  }

  lemma NulFreeParts(f: string, r: string, g: string, q: string)
    requires '\0' !in f && '\0' !in r && f + ['\n'] + r == g + ['\n'] + q
    ensures '\0' !in g && '\0' !in q
  {
    var whole := f + ['\n'] + r;
    assert '\0' !in whole;
    assert forall i :: 0 <= i < |g| ==> (g + ['\n'] + q)[i] == g[i];
    assert forall i :: 0 <= i < |q| ==> (g + ['\n'] + q)[|g| + 1 + i] == q[i];
  }

  lemma RereadIsNulFree(a: seq<Visit>, k: nat, g: string, q: string)
    requires NulFree(a) && k + 1 < |a| && '\0' !in g && '\0' !in q
    ensures NulFree(Reread(a, k, g, q))
  {
    assert a[k] in a && a[k + 1] in a;
  }

  lemma {:induction false} RereadRecords(a: seq<Visit>, k: nat, g: string, q: string)
    requires k + 1 < |a| && a[k].fingerprint + ['\n'] + a[k + 1].relative == g + ['\n'] + q
    ensures Records(Reread(a, k, g, q)) == Records(a)
  {
    hide Records;
    var (x, y) := (a[k], a[k + 1]);
    assert a == a[..k] + [x, y] + a[k + 2..];
    RecordsAround(a[..k], x, y, a[k + 2..]);
    RecordsAround(a[..k], Visit(x.relative, g), Visit(q, y.fingerprint), a[k + 2..]);
  }

  lemma RecordsAround(front: seq<Visit>, x: Visit, y: Visit, back: seq<Visit>)
    ensures Records(front + [x, y] + back)
         == Records(front)
            + (x.relative + ['\0'] + (x.fingerprint + ['\n'] + y.relative) + ['\0'] + y.fingerprint + ['\n'])
            + Records(back)
  {
    hide Records;
    RecordsAppend(front + [x, y], back);
    RecordsAppend(front, [x, y]);
    RecordsOfTwo(x, y);
  }

  /** The text of two records, around the break between them. */
  lemma RecordsOfTwo(x: Visit, y: Visit)
    ensures Records([x, y])
         == x.relative + ['\0'] + (x.fingerprint + ['\n'] + y.relative) + ['\0'] + y.fingerprint + ['\n']
  {
    assert [x, y][1..] == [y] && [y][1..] == [];
    assert Records([y]) == Record(y);
  }

  /**
   The text of NUL-free visits can be read in one way only if and only if no line feed stands
   near a record boundary.
  */
  lemma TextIsUnambiguousExactly(a: seq<Visit>)
    requires NulFree(a)
    ensures (forall b :: NulFree(b) && Records(b) == Records(a) ==> b == a) <==> OneBreak(a)
  {
    if OneBreak(a) {
      forall b | NulFree(b) && Records(b) == Records(a)
        ensures b == a
      {
        RecordsDetermineVisits(a, b);
      }
    } else {
      var k: nat :| k + 1 < |a| && !CleanBoundary(a, k);
      var b := AnotherReading(a, k);
    }
  }

  // ----- The visits of a tree -----

  lemma {:induction false} DecimalIsPlain(n: nat)
    ensures '\0' !in Decimal(n)
  {
    if n >= 10 {
      DecimalIsPlain(n / 10);
    }
  }

  lemma FingerprintHasNoNul(node: Node)
    requires WellNamed(node)
    ensures '\0' !in Fingerprint(node)
  {
    if !node.File? {
      DecimalIsPlain(node.mode);
    }
  }

  lemma {:induction false} PreorderIsNulFree(node: Node, prefix: string, names: seq<string>)
    requires node.Directory? && WellNamed(node) && '\0' !in prefix
    requires forall name :: name in names ==> name in Names(node.entries)
    ensures NulFree(PreorderNames(node, prefix, names))
    decreases node, |names|
  {
    if names != [] {
      var child := Child(node, names[0]);
      ChildWellNamed(node, names[0]);
      FingerprintHasNoNul(child);
      if child.Directory? {
        PreorderIsNulFree(child, Relative(prefix, names[0]), Order(child));
      }
      PreorderIsNulFree(node, prefix, names[1..]);
    }
  }

  lemma {:induction false} MarkedAmong(policy: Policy, visits: seq<Visit>)
    ensures forall v :: v in Marked(policy, visits) ==> v in visits
  {
    if visits != [] {
      MarkedAmong(policy, visits[1..]);
    }
  }

  /** The visits of a workspace that are not excluded. */
  function Unexcluded(policy: Policy, root: Node): seq<Visit>
    requires root.Directory?
  {
    Marked(policy, Preorder(root, ""))
  }

  lemma UnexcludedIsNulFree(policy: Policy, root: Node)
    requires root.Directory? && WellNamed(root)
    ensures NulFree(Unexcluded(policy, root))
  {
    PreorderIsNulFree(root, "", Order(root));
    MarkedAmong(policy, Preorder(root, ""));
  }

  /**
   When the unexcluded part of one workspace has no line feed near a record
   boundary, another workspace has the same text just when its unexcluded part is the same.
  */
  lemma FingerprintSeesTheUnexcluded(policy: Policy, sha256: string, a: Node, b: Node)
    requires Valid(policy) && a.Directory? && b.Directory? && WellNamed(a) && WellNamed(b)
    requires OneBreak(Unexcluded(policy, a))
    ensures FingerprintInput(policy, sha256, a) == FingerprintInput(policy, sha256, b)
       <==> Unexcluded(policy, a) == Unexcluded(policy, b)
  {
    hide Preorder, Marked, Records, OneBreak, NulFree, WellNamed;
    WalkVisitsTheUnexcluded(policy, a);
    WalkVisitsTheUnexcluded(policy, b);
    UnexcludedIsNulFree(policy, a);
    UnexcludedIsNulFree(policy, b);
    var (x, y) := (Records(Unexcluded(policy, a)), Records(Unexcluded(policy, b)));
    var head := if policy.mode == SourceOnly then "source-only" + ['\0'] + sha256 + ['\0'] else "";
    if head + x == head + y {
      assert (head + x)[|head|..] == x && (head + y)[|head|..] == y;
      RecordsDetermineVisits(Unexcluded(policy, a), Unexcluded(policy, b));
    }
  }

  // ----- Two workspaces with one text -----

  function Zeros(n: nat): (digits: string)
    ensures |digits| == n && forall i :: 0 <= i < n ==> digits[i] == '0'
  {
    seq(n, _ => '0')
  }

  function SomeDigest(): (digest: string)
    ensures HexDigest(digest)
  {
    Zeros(64)
  }

  /** A workspace with a link `l` and a file. */
  function LinkAndFile(target: string, name: string): Node {
    Directory(16877, [Entry("l", Link(41471, target)), Entry(name, File(SomeDigest()))])
  }

  lemma WalkOfTwo(target: string, name: string)
    requires EntryName(name) && name != GIT && name != VENV && name[0] > 'l'
    ensures Walk(VENV_POLICY, LinkAndFile(target, name), "")
         == [Visit("l", Fingerprint(Link(41471, target))), Visit(name, Fingerprint(File(SomeDigest())))]
  {
    hide Order, WalkNames, ShouldMarkDirty, SortNames, Fingerprint, IsExcluded, Child;
    var node := LinkAndFile(target, name);
    MarkedAlone("l");
    MarkedAlone(name);
    ChildOf(node, 0);
    ChildOf(node, 1);
    WalkOrder(target, name);
    var link := [Visit("l", Fingerprint(Link(41471, target)))];
    var file := [Visit(name, Fingerprint(File(SomeDigest())))];
    assert node.entries[0].name == "l" && node.entries[1].name == name;
    assert EntryVisits(VENV_POLICY, node, "", "l") == link && EntryVisits(VENV_POLICY, node, "", name) == file;
    var names := ["l", name];
    WalkStep(VENV_POLICY, node, "", names, 0, []);
    WalkStep(VENV_POLICY, node, "", names, 1, []);
    NoNames(VENV_POLICY, node, "", names[2..]);
    assert names[0..] == names;
    assert [] + WalkNames(VENV_POLICY, node, "", names) == WalkNames(VENV_POLICY, node, "", names);
    assert [] + WalkNames(VENV_POLICY, node, "", names[1..]) == WalkNames(VENV_POLICY, node, "", names[1..]);
    assert WalkNames(VENV_POLICY, node, "", names[1..]) == file;
    assert link + file == [link[0], file[0]];
  }

  lemma MarkedAlone(name: string)
    requires EntryName(name) && name != GIT && name != VENV
    ensures ShouldMarkDirty(VENV_POLICY, name)
  {
    OtherNamesAreKept(name);
    MarkedUnlessExcluded(VENV_POLICY, name);
  }

  lemma WalkOrder(target: string, name: string)
    requires name != "" && name[0] > 'l'
    ensures var node := LinkAndFile(target, name);
            Names(node.entries) == ["l", name] && Order(node) == ["l", name]
  {
    assert Names(LinkAndFile(target, name).entries) == ["l", name];
    OrderOfTwo("l", name);
  }

  lemma ChildOf(node: Node, i: nat)
    requires node.Directory? && |node.entries| == 2 && i < 2 && node.entries[0].name != node.entries[1].name
    ensures Child(node, node.entries[i].name) == node.entries[i].node
  {
    assert Names(node.entries)[i] == node.entries[i].name;
  }

  lemma OrderOfTwo(a: string, b: string)
    requires a != "" && b != "" && a[0] < b[0]
    ensures SortNames([a, b]) == [a, b]
  {
    var names := [a, b];
    Utf8Order.Utf8OrderIsCodePointOrder(a, b);
    Utf8Order.LeqReflexive(a);
    Utf8Order.LeqReflexive(b);
    assert Utf8Order.Leq(a, b);
    assert Sorted(names);
    SortNamesSorts(names);
    SortedIsUnique(SortNames(names), names);
  }

  /** A link target with a line feed imitates the start of the next path: two workspaces, one text. */
  lemma {:induction false} LineFeedInLinkTargetIsAmbiguous(sha256: string)
    ensures var (a, b) := (LinkAndFile("t", "m\nn"), LinkAndFile("t\nm", "n"));
            && WellNamed(a) && WellNamed(b) && Compile(["**/venv"], None, None) == Ok(VENV_POLICY)
            && Unexcluded(VENV_POLICY, a) != Unexcluded(VENV_POLICY, b)
            && FingerprintInput(VENV_POLICY, sha256, a) == FingerprintInput(VENV_POLICY, sha256, b)
  {
    var (a, b) := (LinkAndFile("t", "m\nn"), LinkAndFile("t\nm", "n"));
    VenvPolicyIsCompiled();
    TwoAreWellNamed();
    WalkOfTwo("t", "m\nn");
    WalkOfTwo("t\nm", "n");
    WalkVisitsTheUnexcluded(VENV_POLICY, a);
    WalkVisitsTheUnexcluded(VENV_POLICY, b);
    SameTwoRecords();
  }

  lemma TwoAreWellNamed()
    ensures WellNamed(LinkAndFile("t", "m\nn")) && WellNamed(LinkAndFile("t\nm", "n"))
    ensures EntryName("m\nn") && EntryName("n")
  {
    assert WellNamed(File(SomeDigest()));
    assert WellNamed(Link(41471, "t")) && WellNamed(Link(41471, "t\nm"));
  }

  lemma SameTwoRecords()
    ensures var digest := Fingerprint(File(SomeDigest()));
            var (a, b) := ([Visit("l", Fingerprint(Link(41471, "t"))), Visit("m\nn", digest)],
                           [Visit("l", Fingerprint(Link(41471, "t\nm"))), Visit("n", digest)]);
            a != b && Records(a) == Records(b)
  {
    hide Decimal;
    var digest := Fingerprint(File(SomeDigest()));
    var (x, y) := (Visit("l", Fingerprint(Link(41471, "t"))), Visit("m\nn", digest));
    var (v, w) := (Visit("l", Fingerprint(Link(41471, "t\nm"))), Visit("n", digest));
    RecordsOfTwo(x, y);
    RecordsOfTwo(v, w);
    assert x.fingerprint + ['\n'] + y.relative == v.fingerprint + ['\n'] + w.relative;
    assert |x.fingerprint| != |v.fingerprint|;
  }
}
