/**
 The archive reader in bytes: which members it refuses, where each type of member goes, how its
 fields are read, and the tree that an ordinary archive becomes.
*/
module TarMembers {
  import opened Sequences
  import opened TarReader
  import opened TarWriter

  // ----- Which members are refused -----

  /** How many `..` find no name before them to drop; `names` names are there already. */
  function Unmatched(parts: Path, names: nat): nat
    decreases |parts|
  {
    if parts == [] then 0
    else if parts[0] == [] || parts[0] == [46] then Unmatched(parts[1..], names)
    else if parts[0] != [46, 46] then Unmatched(parts[1..], names + 1)
    else if names == 0 then 1 + Unmatched(parts[1..], 0)
    else Unmatched(parts[1..], names - 1)
  }

  /** How many names are left in the end. */
  function Left(parts: Path, names: nat): nat
    decreases |parts|
  {
    if parts == [] then names
    else if parts[0] == [] || parts[0] == [46] then Left(parts[1..], names)
    else if parts[0] != [46, 46] then Left(parts[1..], names + 1)
    else Left(parts[1..], if names == 0 then 0 else names - 1)
  }

  function Ups(n: nat): (ups: Path)
    ensures |ups| == n && forall i :: 0 <= i < n ==> ups[i] == [46, 46]
  {
    seq(n, i => [46, 46])
  }

  lemma {:induction false} NormalizeCounts(parts: Path, ups: nat, names: Path) returns (rest: Path)
    requires [46, 46] !in names
    ensures Normalize(parts, Ups(ups) + names) == Ups(ups + Unmatched(parts, |names|)) + rest
    ensures |rest| == Left(parts, |names|) && [46, 46] !in rest
    decreases |parts|
  {
    var done := Ups(ups) + names;
    if parts == [] {
      rest := names;
    } else if parts[0] == [] || parts[0] == [46] {
      rest := NormalizeCounts(parts[1..], ups, names);
    } else if parts[0] != [46, 46] {
      assert done + [parts[0]] == Ups(ups) + (names + [parts[0]]);
      rest := NormalizeCounts(parts[1..], ups, names + [parts[0]]);
    } else if names == [] {
      assert done + [parts[0]] == Ups(ups + 1) + [];
      rest := NormalizeCounts(parts[1..], ups + 1, []);
    } else {
      assert Last(done) == Last(names) && Last(names) in names;
      assert Closed(done) == Ups(ups) + Closed(names);
      rest := NormalizeCounts(parts[1..], ups, Closed(names));
    }
  }

  /**
   A member is refused exactly when it is empty, holds a NUL, is absolute, or climbs: some `..` is
   unmatched and something, a slash at least, follows it.
  */
  lemma {:induction false} UnsafeExactly(member: Bytes)
    ensures var parts := SplitOn(member, 47);
            UnsafeMember(member) <==>
              || member == [] || 0 in member || member[0] == 47
              || (Unmatched(parts, 0) > 0
                  && (Unmatched(parts, 0) + Left(parts, 0) > 1 || member[|member| - 1] == 47))
  {
    hide SplitOn, Normalize;
    var parts := SplitOn(member, 47);
    var rest := NormalizeCounts(parts, 0, []);
    var none: Path := [];
    assert Ups(0) + none == none;
    if rest != [] {
      assert rest[0] in rest;
    }
  }

  /** The error that a refused member at the front of any archive ends the reading with. */
  lemma {:induction false} UnsafeMemberEndsReading(dest: Path, m: Member, rest: seq<Member>, tree: Tree)
    requires Encodable(m) && forall i :: 0 <= i < |rest| ==> Encodable(rest[i])
    requires UnsafeMember(MemberPath(m))
    ensures Ends(dest, Archive([m] + rest), tree, Err(UnsafePath))
  {
    hide Ends, Encodable, Archive, UnsafeMember;
    var members := [m] + rest;
    assert members[0] == m && members[1..] == rest;
    assert forall i :: 0 < i < |members| ==> members[i] == rest[i - 1];
    ReadingUndoesWriting(dest, members, tree);
  }

  /** `../x` is refused, and so is every absolute member. */
  lemma RefusedMembers(rest: Bytes)
    ensures UnsafeMember([46, 46, 47, 120])
    ensures UnsafeMember([47] + rest)
  {
    var up: Bytes := [46, 46];
    var x: Bytes := [120];
    assert [46, 46, 47, 120] == up + [47] + x;
    SplitAtSeparator(up, x, 47);
    SplitFree(up, 47);
    SplitFree(x, 47);
    var parts := [up, x];
    assert SplitOn([46, 46, 47, 120], 47) == parts;
    assert parts[1..] == [x] && [x][1..] == [];
    assert Unmatched([x], 0) == 0 && Left([x], 0) == 1;
    UnsafeExactly([46, 46, 47, 120]);
  }

  // ----- What a member becomes -----

  lemma {:induction false} PrefixesAre(path: Path, p: Path)
    ensures p in Prefixes(path) <==> p != [] && p <= path
  {
    if path != [] {
      PrefixesAre(Closed(path), p);
      assert path == Closed(path) + [Last(path)];
      if p <= path {
        assert p == path[..|p|] && path[..|path|] == path;
        assert |p| < |path| ==> p == Closed(path)[..|p|];
      }
    }
  }

  /** The directories that lead to a file. */
  lemma ParentsAre(path: Path, p: Path)
    requires path != []
    ensures p in Prefixes(Closed(path)) <==> p != [] && p < path
  {
    PrefixesAre(Closed(path), p);
    assert path == Closed(path) + [Last(path)];
    if p < path {
      assert p == path[..|p|] == Closed(path)[..|p|];
    }
  }

  /**
   An accepted member on an empty file system, by its type byte: `0` and NUL are a file with exactly
   the data, unless the name ends in a slash; `5` is a directory; everything else is an error.
  */
  lemma MemberBecomes(dest: Path, member: Bytes, typeflag: byte, data: Bytes)
    requires !UnsafeMember(member) && Stripped(member) != []
    ensures var (target, slash) := (Target(dest, member), Stripped(member)[|Stripped(member)| - 1] == 47);
            var placed := Place(dest, Tree(map[], {}), member, Some(typeflag), data);
            if typeflag == 53 then
              && placed.Ok? && placed.value.files == map[]
              && forall p :: p in placed.value.dirs <==> p != [] && p <= target
            else if typeflag != 0 && typeflag != 48 then placed == Err(UnsupportedType)
            else if slash || target == [] then placed == Err(DirectoryInTheWay)
            else
              && placed.Ok? && placed.value.files == map[target := data]
              && forall p :: p in placed.value.dirs <==> p != [] && p < target
  {
    hide UnsafeMember, Stripped, Target, Prefixes;
    var target := Target(dest, member);
    forall p
      ensures p in Prefixes(target) <==> p != [] && p <= target
      ensures target != [] ==> (p in Prefixes(Closed(target)) <==> p != [] && p < target)
    {
      PrefixesAre(target, p);
      if target != [] {
        ParentsAre(target, p);
      }
    }
    assert {} + Prefixes(target) == Prefixes(target);
  }

  /** A member of one component becomes nothing, whatever its type and data. */
  lemma TopMemberBecomesNothing(dest: Path, tree: Tree, member: Bytes, typeflag: byte, data: Bytes)
    requires !UnsafeMember(member) && 47 !in member
    ensures Place(dest, tree, member, Some(typeflag), data) == Ok(tree)
  {
    SplitFree(member, 47);
    assert SplitOn(member, 47)[1..] == [];
    hide UnsafeMember;
  }

  // ----- How fields are read -----

  /** A text field ends at the first NUL that no line break follows. */
  lemma {:induction false} CutExactly(s: Bytes)
    ensures var cut := CutAtNul(s);
            && cut <= s
            && (|cut| < |s| ==> s[|cut|] == 0 && LineBreakFree(s[|cut| + 1..]))
            && forall i :: 0 <= i < |cut| && s[i] == 0 ==> !LineBreakFree(s[i + 1..])
  {
    if s != [] && !(s[0] == 0 && LineBreakFree(s[1..])) {
      CutExactly(s[1..]);
      var (rest, cut) := (CutAtNul(s[1..]), CutAtNul(s));
      assert cut == [s[0]] + rest && s == [s[0]] + s[1..];
      assert s[|cut| ..] == s[1..][|rest|..];
      if |cut| < |s| {
        assert s[|cut| + 1..] == s[1..][|rest| + 1..];
      }
      forall i | 0 < i < |cut| && s[i] == 0
        ensures !LineBreakFree(s[i + 1..])
      {
        assert s[i + 1..] == s[1..][i - 1 + 1..];
      }
    }
  }

  /** Line breaks are LF, CR, and U+2028 and U+2029 in UTF-8. */
  lemma LineBreaks(a: Bytes, b: Bytes, u: byte)
    ensures !LineBreakFree(a + [10] + b) && !LineBreakFree(a + [13] + b)
    ensures u == 168 || u == 169 ==> !LineBreakFree(a + [226, 128, u] + b)
    ensures 10 !in a && 13 !in a && 226 !in a ==> LineBreakFree(a)
  {
    var (n, s) := (|a|, a + [226, 128, u] + b);
    assert (a + [10] + b)[n] == 10 && (a + [13] + b)[n] == 13;
    assert s[n] == 226 && s[n + 1] == 128 && s[n + 2] == u;
  }

  predicate Blanks(s: Bytes) {
    forall i :: 0 <= i < |s| ==> s[i] == 32 || 9 <= s[i] <= 13
  }

  lemma {:induction false} TrimLeftDrops(a: Bytes, s: Bytes)
    requires Blanks(a) && (s != [] ==> 32 < s[0])
    ensures TrimLeft(a + s) == s
  {
    if a == [] {
      assert a + s == s;
    } else {
      assert (a + s)[1..] == a[1..] + s && a[0] in a;
      TrimLeftDrops(a[1..], s);
    }
  }

  lemma {:induction false} TrimRightDrops(s: Bytes, b: Bytes)
    requires Blanks(b) && (s != [] ==> 32 < Last(s))
    ensures TrimRight(s + b) == s
  {
    if b == [] {
      assert s + b == s;
    } else {
      assert (s + b)[..|s + b| - 1] == s + Closed(b) && Last(b) in b;
      TrimRightDrops(s, Closed(b));
    }
  }

  /**
   A size field: blanks around the text are dropped, everything from a NUL on too, and the top bit
   of every byte does not count.
  */
  lemma SizeField(field: Bytes, a: Bytes, text: Bytes, b: Bytes, zeros: Bytes)
    requires Blanks(a) && Blanks(b) && AllZero(zeros)
    requires forall i :: 0 <= i < |text| ==> 32 < text[i] < 128
    requires |field| == |a + text + b + zeros|
    requires forall i :: 0 <= i < |field| ==> field[i] % 128 == (a + text + b + zeros)[i]
    ensures SizeOf(field) == if text == [] then Some(0) else ParseOctal(text)
  {
    hide TrimLeft, TrimRight, ParseOctal, CutAtNul, Ascii;
    var whole := a + text + b;
    AsciiIs(field, whole + zeros);
    NoNul(a, text, b);
    CutField(whole, zeros);
    TrimDrops(a, text, b);
  }

  lemma NoNul(a: Bytes, text: Bytes, b: Bytes)
    requires Blanks(a) && Blanks(b) && forall i :: 0 <= i < |text| ==> 32 < text[i] < 128
    ensures 0 !in a + text + b
  {}

  lemma {:induction false} TrimDrops(a: Bytes, text: Bytes, b: Bytes)
    requires Blanks(a) && Blanks(b) && forall i :: 0 <= i < |text| ==> 32 < text[i] < 128
    ensures TrimRight(TrimLeft(a + text + b)) == text
  {
    if text == [] {
      assert a + text + b == (a + b) + [];
      TrimLeftDrops(a + b, []);
      assert TrimRight([]) == [];
    } else {
      hide TrimLeft, TrimRight;
      assert a + text + b == a + (text + b);
      TrimLeftDrops(a, text + b);
      TrimRightDrops(text, b);
    }
  }

  lemma {:induction false} AsciiIs(s: Bytes, t: Bytes)
    requires |s| == |t| && forall i :: 0 <= i < |s| ==> s[i] % 128 == t[i]
    ensures Ascii(s) == t
  {
    if s != [] {
      AsciiIs(s[1..], t[1..]);
      assert t == [t[0]] + t[1..];
    }
  }

  /** Octal digits count up to the first other byte, after a sign; without a digit there is no number. */
  lemma {:induction false} NumberExactly(digits: Bytes, rest: Bytes)
    requires forall i :: 0 <= i < |digits| ==> 48 <= digits[i] <= 55
    requires rest != [] ==> !(48 <= rest[0] <= 55) && (digits == [] ==> rest[0] != 43 && rest[0] != 45)
    ensures var (body, value) := (digits + rest, if digits == [] then None else Some(OctalValue(digits)));
            && ParseOctal(body) == value && ParseOctal([43] + body) == value
            && ParseOctal([45] + body) == if value.None? then None else Some(-value.value)
  {
    hide *;
    var body := digits + rest;
    PrefixIs(digits, rest);
    FirstOf(digits, rest);
    UnsignedNumber(body);
    SignedNumber([43] + body, body);
    SignedNumber([45] + body, body);
  }

  lemma FirstOf(digits: Bytes, rest: Bytes)
    ensures digits + rest != [] ==> (digits + rest)[0] == if digits != [] then digits[0] else rest[0]
    ensures ([43] + (digits + rest))[0] == 43 && ([45] + (digits + rest))[0] == 45
  {}

  lemma UnsignedNumber(body: Bytes)
    requires body != [] ==> body[0] != 43 && body[0] != 45
    ensures ParseOctal(body) == if OctalPrefix(body) == [] then None else Some(OctalValue(OctalPrefix(body)))
  {
    hide OctalValue, OctalPrefix;
  }

  lemma SignedNumber(text: Bytes, body: Bytes)
    requires text == [43] + body || text == [45] + body
    ensures var value := OctalValue(OctalPrefix(body));
            ParseOctal(text)
            == if OctalPrefix(body) == [] then None else Some(if text[0] == 45 then -value else value)
  {
    hide OctalValue, OctalPrefix;
    assert text[1..] == body;
  }

  lemma {:induction false} PrefixIs(digits: Bytes, rest: Bytes)
    requires forall i :: 0 <= i < |digits| ==> 48 <= digits[i] <= 55
    requires rest != [] ==> !(48 <= rest[0] <= 55)
    ensures OctalPrefix(digits + rest) == digits
  {
    if digits == [] {
      assert digits + rest == rest;
    } else {
      assert (digits + rest)[1..] == digits[1..] + rest;
      PrefixIs(digits[1..], rest);
      assert digits == [digits[0]] + digits[1..];
    }
  }

  /** The reader skips data up to the next multiple of 512. */
  lemma RoundsUp(size: int)
    ensures Padded(size) % 512 == 0 && size <= Padded(size) < size + 512
  {
    var q := (size + BLOCK - 1) / BLOCK;
    assert Padded(size) == 512 * q;
  }

  /** A member whose size is no number becomes an empty file or a directory, and is the last one. */
  lemma SizelessMemberIsLast(dest: Path, content: Bytes, offset: nat, tree: Tree)
    requires !Stops(content, offset) && HeaderSize(HeaderAt(content, offset)).None?
    ensures var header := HeaderAt(content, offset);
            Visit(dest, content, offset, tree) == Over(Place(dest, tree, MemberName(header), HeaderType(header), []))
  {
    hide HeaderAt, HeaderSize, MemberName, HeaderType, Place;
    assert DataAt(content, offset, None) == [];
  }

  // ----- The tree of an ordinary archive -----

  /** A plain file name. */
  predicate IsName(part: Bytes) {
    part != [] && part != [46] && part != [46, 46] && 47 !in part && 0 !in part
  }

  /** A member of an ordinary archive: `path` below a first component, as a file or a directory. */
  predicate Ordinary(m: Member, top: Bytes, path: Path, slash: bool) {
    && Encodable(m)
    && (top == [46] || IsName(top)) && (forall i :: 0 <= i < |path| ==> IsName(path[i]))
    && (if m.prefix == [] then m.name else m.prefix + [47] + m.name)
       == Join([top] + path, 47) + (if slash then [47] else [])
    && (path == [] || m.typeflag == 53 || ((m.typeflag == 0 || m.typeflag == 48) && !slash))
  }

  ghost predicate AllOrdinary(members: seq<Member>, tops: seq<Bytes>, paths: seq<Path>, slashes: seq<bool>) {
    && |members| == |tops| == |paths| == |slashes|
    && forall i :: 0 <= i < |members| ==> Ordinary(members[i], tops[i], paths[i], slashes[i])
  }

  predicate IsFile(m: Member, path: Path) {
    path != [] && m.typeflag != 53
  }

  /** The directories a member needs: a directory itself, and whatever leads to it or to a file. */
  predicate Needs(m: Member, path: Path, dest: Path, p: Path) {
    path != [] && p != [] && if m.typeflag == 53 then p <= dest + path else p < dest + path
  }

  /** Some path is a file for one member and a directory for another. */
  ghost predicate Clash(members: seq<Member>, paths: seq<Path>, dest: Path)
    requires |members| == |paths|
  {
    exists i, j :: 0 <= i < |members| && 0 <= j < |members| && IsFile(members[i], paths[i])
        && Needs(members[j], paths[j], dest, dest + paths[i])
  }

  /** Member `i` is the last one for the file at `p`. */
  ghost predicate LastFor(members: seq<Member>, paths: seq<Path>, dest: Path, p: Path, i: int)
    requires |members| == |paths|
  {
    && 0 <= i < |members| && IsFile(members[i], paths[i]) && dest + paths[i] == p
    && forall j :: i < j < |members| && IsFile(members[j], paths[j]) ==> dest + paths[j] != p
  }

  /** The tree holds, below the destination, the last data of each file and exactly the directories needed. */
  ghost predicate Holds(tree: Tree, members: seq<Member>, paths: seq<Path>, dest: Path)
    requires |members| == |paths|
  {
    && (forall p :: p in tree.files <==> exists i :: LastFor(members, paths, dest, p, i))
    && (forall p, i :: 0 <= i < |members| && LastFor(members, paths, dest, p, i) && p in tree.files ==>
          tree.files[p] == members[i].data)
    && (forall p :: p in tree.dirs <==> exists i :: 0 <= i < |members| && Needs(members[i], paths[i], dest, p))
  }

  lemma OrdinaryIsWritten(m: Member, top: Bytes, path: Path, slash: bool)
    requires Ordinary(m, top, path, slash)
    ensures GoodTop(top) && GoodPath(path) && MemberPath(m) == Written(top, path, slash)
  {
    hide Join, Encodable;
  }

  lemma NeedsAre(m: Member, path: Path, dest: Path, p: Path)
    ensures p in DirsOfItem(ItemAt(dest, path, m)) <==> Needs(m, path, dest, p)
  {
    hide Prefixes;
    if path != [] {
      PrefixesAre(dest + path, p);
      ParentsAre(dest + path, p);
    }
  }

  lemma ClashExactly(members: seq<Member>, paths: seq<Path>, dest: Path)
    requires |members| == |paths|
    ensures Compatible(ItemsAt(dest, paths, members)) <==> !Clash(members, paths, dest)
  {
    hide DirsOfItem, Needs;
    var items := ItemsAt(dest, paths, members);
    forall i, j | 0 <= i < |members| && 0 <= j < |members| && items[i].FileItem?
      ensures items[i].path in DirsOfItem(items[j]) <==> Needs(members[j], paths[j], dest, dest + paths[i])
    {
      NeedsAre(members[j], paths[j], dest, dest + paths[i]);
    }
  }

  lemma {:induction false} FilesHold(members: seq<Member>, paths: seq<Path>, dest: Path, p: Path)
    requires |members| == |paths|
    ensures p in FilesOf(ItemsAt(dest, paths, members)) <==> exists i :: LastFor(members, paths, dest, p, i)
    ensures forall i :: LastFor(members, paths, dest, p, i) && p in FilesOf(ItemsAt(dest, paths, members)) ==>
              FilesOf(ItemsAt(dest, paths, members))[p] == members[i].data
  {
    if members != [] {
      var (n, items) := (|members| - 1, ItemsAt(dest, paths, members));
      var (ms, ps) := (members[..n], paths[..n]);
      FilesHold(ms, ps, dest, p);
      assert Closed(items) == ItemsAt(dest, ps, ms);
      if IsFile(members[n], paths[n]) && dest + paths[n] == p {
        assert LastFor(members, paths, dest, p, n);
      } else {
        forall i
          ensures LastFor(members, paths, dest, p, i) <==> LastFor(ms, ps, dest, p, i)
        {
          LastForLess(members, paths, dest, p, i);
        }
      }
    }
  }

  lemma LastForLess(members: seq<Member>, paths: seq<Path>, dest: Path, p: Path, i: int)
    requires |members| == |paths| > 0
    requires var n := |members| - 1; !(IsFile(members[n], paths[n]) && dest + paths[n] == p)
    ensures var n := |members| - 1;
            LastFor(members, paths, dest, p, i) <==> LastFor(members[..n], paths[..n], dest, p, i)
  {
    var n := |members| - 1;
    assert forall j :: 0 <= j < n ==> members[..n][j] == members[j] && paths[..n][j] == paths[j];
  }

  /**
   For any ordinary members, directories with or without a closing slash: when no path is both a
   file and a directory, the archive becomes exactly the tree of its files and the directories they
   need, without the first components; otherwise reading it is an error.
  */
  lemma {:induction false} OrdinaryArchiveBecomes(dest: Path, members: seq<Member>, tops: seq<Bytes>, paths: seq<Path>,
                               slashes: seq<bool>)
    requires AllOrdinary(members, tops, paths, slashes)
    ensures forall i :: 0 <= i < |members| ==> Encodable(members[i])
    ensures !Clash(members, paths, dest) ==>
              exists tree ::
                Ends(dest, Archive(members), Tree(map[], {}), Ok(tree)) && Holds(tree, members, paths, dest)
    ensures Clash(members, paths, dest) ==> exists e :: Ends(dest, Archive(members), Tree(map[], {}), Err(e))
  {
    hide Ends, Compatible, Represents, Encodable, Archive, Clash, LastFor, Needs, FilesOf, DirsOf, Written, Join;
    var items := ItemsAt(dest, paths, members);
    forall i | 0 <= i < |members|
      ensures Encodable(members[i]) && Represents(dest, members[i], items[i])
    {
      OrdinaryIsWritten(members[i], tops[i], paths[i], slashes[i]);
      WrittenRepresents(dest, members[i], tops[i], paths[i], slashes[i]);
    }
    RestoresTree(dest, members, items);
    ClashExactly(members, paths, dest);
    ItemsHold(members, paths, dest);
    var tree := Tree(FilesOf(items), DirsOf(items));
    assert Holds(tree, members, paths, dest);
  }

  lemma ItemsHold(members: seq<Member>, paths: seq<Path>, dest: Path)
    requires |members| == |paths|
    ensures var items := ItemsAt(dest, paths, members);
            Holds(Tree(FilesOf(items), DirsOf(items)), members, paths, dest)
  {
    hide FilesOf, DirsOf, LastFor, Needs, DirsOfItem;
    var items := ItemsAt(dest, paths, members);
    forall p
      ensures p in FilesOf(items) <==> exists i :: LastFor(members, paths, dest, p, i)
      ensures forall i :: 0 <= i < |members| && LastFor(members, paths, dest, p, i) && p in FilesOf(items) ==>
                FilesOf(items)[p] == members[i].data
      ensures p in DirsOf(items) <==> exists i :: 0 <= i < |members| && Needs(members[i], paths[i], dest, p)
    {
      FilesHold(members, paths, dest, p);
      DirsAre(items, p);
      forall i | 0 <= i < |members|
        ensures p in DirsOfItem(items[i]) <==> Needs(members[i], paths[i], dest, p)
      {
        NeedsAre(members[i], paths[i], dest, p);
      }
    }
  }
}
