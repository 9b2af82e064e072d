/** Which files the walk sees, and what their fingerprints tell apart. */
module WorkspaceNodes {
  import opened Sequences
  import opened CapturePolicy
  import opened NameOrder
  import opened Traversal

  // ----- Fingerprints tell nodes apart -----

  lemma {:induction false} DecimalIsDigits(n: nat)
    ensures Decimal(n) != "" && forall i :: 0 <= i < |Decimal(n)| ==> '0' <= Decimal(n)[i] <= '9'
  {
    if n >= 10 {
      DecimalIsDigits(n / 10);
    }
  }

  lemma {:induction false} DecimalDiffers(m: nat, n: nat)
    requires Decimal(m) == Decimal(n)
    ensures m == n
  {
    DecimalIsDigits(m / 10);
    DecimalIsDigits(n / 10);
    var (a, b) := (Decimal(m), Decimal(n));
    assert a[|a| - 1] == ('0' as int + m % 10) as char && b[|b| - 1] == ('0' as int + n % 10) as char;
    if m >= 10 && n >= 10 {
      assert Decimal(m / 10) == a[..|a| - 1] == b[..|b| - 1] == Decimal(n / 10);
      DecimalDiffers(m / 10, n / 10);
    }
  }

  /** Two nodes of one kind with the same digest, the same mode, or the same mode and target. */
  predicate Alike(a: Node, b: Node) {
    match (a, b)
    case (File(x), File(y)) => x == y
    case (Link(m, s), Link(n, t)) => m == n && s == t
    case (Special(m), Special(n)) => m == n
    case (Directory(m, _), Directory(n, _)) => m == n
    case _ => false
  }

  lemma TailOf(head: string, a: string, b: string)
    requires head + a == head + b
    ensures a == b
  {
    assert (head + a)[|head|..] == a && (head + b)[|head|..] == b;
  }

  lemma KindOf(node: Node)
    ensures Fingerprint(node) != ""
    ensures Fingerprint(node)[0]
         == if node.File? then 'f' else if node.Link? then 'l' else if node.Special? then 's' else 'd'
  {
    hide Decimal;
  }

  lemma LinksDiffer(m: nat, s: string, n: nat, t: string)
    requires Fingerprint(Link(m, s)) == Fingerprint(Link(n, t))
    ensures m == n && s == t
  {
    DecimalIsDigits(m);
    DecimalIsDigits(n);
    var (a, b) := (Decimal(m), Decimal(n));
    assert "link:" + a + ":" + s == "link:" + (a + [':'] + s);
    assert "link:" + b + ":" + t == "link:" + (b + [':'] + t);
    TailOf("link:", a + [':'] + s, b + [':'] + t);
    SameCut(a, s, b, t, ':');
    DecimalDiffers(m, n);
  }

  /** Equal fingerprints come from nodes of one kind with the same content, and only from them. */
  lemma FingerprintSaysExactly(a: Node, b: Node)
    ensures Fingerprint(a) == Fingerprint(b) <==> Alike(a, b)
  {
    if Fingerprint(a) == Fingerprint(b) {
      KindOf(a);
      KindOf(b);
      hide Decimal;
      match (a, b)
      case (File(x), File(y)) => TailOf("file:", x, y);
      case (Link(m, s), Link(n, t)) => LinksDiffer(m, s, n, t);
      case (Special(m), Special(n)) =>
        TailOf("special:", Decimal(m), Decimal(n));
        DecimalDiffers(m, n);
      case (Directory(m, _), Directory(n, _)) =>
        TailOf("directory:", Decimal(m), Decimal(n));
        DecimalDiffers(m, n);
      case _ =>
    }
  }

  // ----- The walk sees every node that is not excluded -----

  /** Following the names from a directory leads to a node. */
  ghost predicate Reaches(node: Node, parts: seq<string>, found: Node)
    decreases |parts|
  {
    if parts == [] then found == node
    else node.Directory? && parts[0] in Names(node.entries) && Reaches(Child(node, parts[0]), parts[1..], found)
  }

  function Below(prefix: string, parts: seq<string>): string
    decreases |parts|
  {
    if parts == [] then prefix
    else Below(if prefix == "" then parts[0] else prefix + "/" + parts[0], parts[1..])
  }

  lemma {:induction false} BelowIsJoin(prefix: string, parts: seq<string>)
    requires parts != [] && forall i :: 0 <= i < |parts| ==> parts[i] != ""
    ensures Below(prefix, parts) == if prefix == "" then Join(parts, '/') else prefix + "/" + Join(parts, '/')
    decreases |parts|
  {
    var next := if prefix == "" then parts[0] else prefix + "/" + parts[0];
    assert next != "";
    if |parts| > 1 {
      BelowIsJoin(next, parts[1..]);
      assert next + "/" + Join(parts[1..], '/')
          == if prefix == "" then Join(parts, '/') else prefix + "/" + Join(parts, '/');
    } else {
      assert parts[1..] == [];
    }
  }

  /** The visit is that of a node reached through one of the names. */
  ghost predicate Seen(node: Node, prefix: string, names: seq<string>, parts: seq<string>, found: Node, v: Visit) {
    && parts != [] && parts[0] in names && Reaches(node, parts, found)
    && v == Visit(Below(prefix, parts), Fingerprint(found))
  }

  lemma {:induction false} PreorderSees(node: Node, prefix: string, names: seq<string>, v: Visit)
    requires node.Directory? && forall name :: name in names ==> name in Names(node.entries)
    requires GoodPrefix(prefix) && WellNamed(node)
    ensures v in PreorderNames(node, prefix, names)
       <==> exists parts, found :: Seen(node, prefix, names, parts, found, v)
    decreases node, |names|
  {
    if names != [] {
      var (name, rest) := (names[0], names[1..]);
      var (relative, child) := (Relative(prefix, name), Child(node, name));
      ChildWellNamed(node, name);
      RelativeIsNormalized(prefix, name);
      PreorderSees(node, prefix, rest, v);
      if child.Directory? {
        PreorderSees(child, relative, Order(child), v);
      }
      FirstNameSees(node, prefix, name, v);
      NamesSplit(node, prefix, names, v);
    }
  }

  /** What is seen through one name: its node, and what is seen below it. */
  lemma FirstNameSees(node: Node, prefix: string, name: string, v: Visit)
    requires node.Directory? && name in Names(node.entries)
    ensures var (relative, child) := (Relative(prefix, name), Child(node, name));
            (exists parts, found :: Seen(node, prefix, [name], parts, found, v))
            <==> || v == Visit(relative, Fingerprint(child))
                 || (child.Directory? && exists parts, found :: Seen(child, relative, Order(child), parts, found, v))
  {
    var (relative, child) := (Relative(prefix, name), Child(node, name));
    hide Fingerprint;
    if parts, found :| Seen(node, prefix, [name], parts, found, v) {
      assert Reaches(child, parts[1..], found);
      if parts[1..] != [] {
        InOrder(child, parts[1..][0]);
        assert Seen(child, relative, Order(child), parts[1..], found, v);
      }
    }
    if v == Visit(relative, Fingerprint(child)) {
      assert [name][1..] == [] && Reaches(child, [], child);
      assert Below(relative, []) == relative;
      assert Seen(node, prefix, [name], [name], child, v);
    }
    if child.Directory? {
      if parts, found :| Seen(child, relative, Order(child), parts, found, v) {
        assert ([name] + parts)[1..] == parts;
        assert Seen(node, prefix, [name], [name] + parts, found, v);
      }
    }
  }

  lemma InOrder(node: Node, name: string)
    requires node.Directory? && name in Names(node.entries)
    ensures name in Order(node)
  {
    SortNamesSorts(Names(node.entries));
    assert name in multiset(Names(node.entries));
  }

  lemma NamesSplit(node: Node, prefix: string, names: seq<string>, v: Visit)
    requires names != []
    ensures (exists parts, found :: Seen(node, prefix, names, parts, found, v))
       <==> || (exists parts, found :: Seen(node, prefix, [names[0]], parts, found, v))
            || (exists parts, found :: Seen(node, prefix, names[1..], parts, found, v))
  {
    hide Reaches, Below, Fingerprint;
    assert forall name :: name in names <==> name == names[0] || name in names[1..];
    if parts, found :| Seen(node, prefix, names, parts, found, v) {
      assert Seen(node, prefix, [names[0]], parts, found, v) || Seen(node, prefix, names[1..], parts, found, v);
    }
    if parts, found :| Seen(node, prefix, [names[0]], parts, found, v) {
      assert Seen(node, prefix, names, parts, found, v);
    }
    if parts, found :| Seen(node, prefix, names[1..], parts, found, v) {
      assert Seen(node, prefix, names, parts, found, v);
    }
  }

  lemma {:induction false} PartsAreNames(node: Node, parts: seq<string>, found: Node)
    requires WellNamed(node) && Reaches(node, parts, found)
    ensures forall i :: 0 <= i < |parts| ==> EntryName(parts[i])
    decreases |parts|
  {
    if parts != [] {
      ChildWellNamed(node, parts[0]);
      PartsAreNames(Child(node, parts[0]), parts[1..], found);
    }
  }

  /** The visit of the node that the names `parts` lead to. */
  ghost predicate VisitOf(root: Node, parts: seq<string>, found: Node, v: Visit) {
    parts != [] && Reaches(root, parts, found) && v == Visit(Join(parts, '/'), Fingerprint(found))
  }

  /**
   The walk of a workspace visits exactly the nodes that some path of names leads to and that are not
   excluded, with their fingerprints.
  */
  lemma WalkSeesExactly(policy: Policy, root: Node, v: Visit)
    requires Valid(policy) && root.Directory? && WellNamed(root)
    ensures v in Walk(policy, root, "") <==>
            !IsExcluded(policy, v.relative) && exists parts, found :: VisitOf(root, parts, found, v)
  {
    hide IsExcluded, ShouldMarkDirty, Valid, Seen, VisitOf, WellNamed, Normalized;
    WalkVisitsTheUnexcluded(policy, root);
    MarkedExactly(policy, Preorder(root, ""), v);
    PreorderSees(root, "", Order(root), v);
    forall parts, found
      ensures Seen(root, "", Order(root), parts, found, v) <==> VisitOf(root, parts, found, v)
    {
      SeenFromTheRoot(root, parts, found, v);
    }
    if parts, found :| VisitOf(root, parts, found, v) {
      SeenFromTheRoot(root, parts, found, v);
      MarkedUnlessExcluded(policy, v.relative);
    }
  }

  lemma {:induction false} SeenFromTheRoot(root: Node, parts: seq<string>, found: Node, v: Visit)
    requires root.Directory? && WellNamed(root)
    ensures Seen(root, "", Order(root), parts, found, v) <==> VisitOf(root, parts, found, v)
    ensures VisitOf(root, parts, found, v) ==> Normalized(v.relative)
  {
    hide WellNamed, Reaches, Below, Join, Normalized;
    if parts != [] && Reaches(root, parts, found) {
      ReachedIsNormalized(root, parts, found);
    }
  }

  lemma {:induction false} MarkedExactly(policy: Policy, visits: seq<Visit>, v: Visit)
    ensures v in Marked(policy, visits) <==> v in visits && ShouldMarkDirty(policy, v.relative)
  {
    if visits != [] {
      MarkedExactly(policy, visits[1..], v);
      assert visits == [visits[0]] + visits[1..];
    }
  }

  lemma ReachedIsNormalized(root: Node, parts: seq<string>, found: Node)
    requires root.Directory? && WellNamed(root) && parts != [] && Reaches(root, parts, found)
    ensures Below("", parts) == Join(parts, '/') && Normalized(Join(parts, '/')) && parts[0] in Order(root)
  {
    PartsAreNames(root, parts, found);
    BelowIsJoin("", parts);
    InOrder(root, parts[0]);
    JoinThenSplit(parts, '/');
    JoinKeepsElements(parts, '/', '\\');
    FirstOfJoin(parts);
  }

  lemma FirstOfJoin(parts: seq<string>)
    requires parts != [] && parts[0] != ""
    ensures Join(parts, '/') != "" && Join(parts, '/')[0] == parts[0][0]
  {}

  // ----- The policy in the hashed text -----

  /** In source-only mode the digest of the policy is part of the hashed text, in full-repository mode it is not. */
  lemma {:induction false} PolicyIsHashedExactly(policy: Policy, x: string, y: string, root: Node)
    requires root.Directory?
    ensures FingerprintInput(policy, x, root) == FingerprintInput(policy, y, root)
       <==> policy.mode == FullRepository || x == y
    ensures policy.mode == SourceOnly ==> "source-only" + ['\0'] + x + ['\0'] <= FingerprintInput(policy, x, root)
    ensures policy.mode == FullRepository ==> FingerprintInput(policy, x, root) == Records(Walk(policy, root, ""))
  {
    hide FingerprintInput;
    var records := Records(Walk(policy, root, ""));
    TextIs(policy, x, root);
    TextIs(policy, y, root);
    hide *;
    SameMiddle("source-only" + ['\0'], x, y, ['\0'] + records);
    Grouped(x, records);
    Grouped(y, records);
  }

  lemma TextIs(policy: Policy, sha256: string, root: Node)
    requires root.Directory?
    ensures var records := Records(Walk(policy, root, ""));
            FingerprintInput(policy, sha256, root)
            == if policy.mode == SourceOnly then "source-only" + ['\0'] + sha256 + ['\0'] + records else records
  {
    hide Records, Walk;
    var records := Records(Walk(policy, root, ""));
    assert "" + records == records;
  }

  lemma Grouped(x: string, records: string)
    ensures "source-only" + ['\0'] + x + ['\0'] + records == "source-only" + ['\0'] + x + (['\0'] + records)
    ensures "source-only" + ['\0'] + x + ['\0'] <= "source-only" + ['\0'] + x + ['\0'] + records
  {}

  lemma SameMiddle(head: string, x: string, y: string, tail: string)
    ensures head + x + tail == head + y + tail ==> x == y
  {
    if head + x + tail == head + y + tail {
      assert |x| == |y|;
      assert (head + x + tail)[|head|..|head| + |x|] == x && (head + y + tail)[|head|..|head| + |y|] == y;
    }
  }

  // ----- Which paths are looked at -----

  /** Backslashes count as slashes, and a leading dot with a slash is dropped. */
  lemma RelativeFormIs(path: string, slashed: string)
    requires |slashed| == |path|
    requires forall i :: 0 <= i < |path| ==> slashed[i] == if path[i] == '\\' then '/' else path[i]
    ensures RelativeForm(path)
         == if |path| >= 2 && path[0] == '.' && path[1] in {'/', '\\'} then slashed[2..] else slashed
  {
    SlashesAre(path, slashed);
  }

  lemma {:induction false} SlashesAre(path: string, slashed: string)
    requires |slashed| == |path|
    requires forall i :: 0 <= i < |path| ==> slashed[i] == if path[i] == '\\' then '/' else path[i]
    ensures ForwardSlashes(path) == slashed
  {
    if path != "" {
      SlashesAre(path[1..], slashed[1..]);
      assert slashed == [slashed[0]] + slashed[1..];
    }
  }

  /** A path that leaves the workspace is never marked, and neither is the workspace itself. */
  lemma OutsideIsNotMarked(policy: Policy, rest: string)
    requires '\\' !in rest
    ensures !ShouldMarkDirty(policy, "") && !ShouldMarkDirty(policy, "..") && !ShouldMarkDirty(policy, "../" + rest)
  {
    hide IsExcluded;
    RelativeFormIs("", "");
    RelativeFormIs("..", "..");
    RelativeFormIs("../" + rest, "../" + rest);
  }
}
