/** A ustar writer, and the round trip through the reader. */
module TarWriter {
  import opened Sequences
  import opened TarReader

  /** Header bytes that the reader ignores, between the fields it reads. */
  datatype Ignored = Ignored(ids: Bytes, times: Bytes, link: Bytes, tail: Bytes)

  /** One archive member: its name, possibly split over the prefix field, its type and its data. */
  datatype Member = Member(prefix: Bytes, name: Bytes, typeflag: byte, data: Bytes, ignored: Ignored)

  /** What the ustar format can hold (the ustar Interchange Format of the pax utility, IEEE Std 1003.1). */
  predicate Encodable(m: Member) {
    && 0 < |m.name| <= 100 && 0 !in m.name
    && |m.prefix| <= 155 && 0 !in m.prefix
    && |m.data| < 0x2_0000_0000
    && |m.ignored.ids| == 24 && |m.ignored.times| == 20 && |m.ignored.link| == 188 && |m.ignored.tail| == 12
  }

  function MemberPath(m: Member): Bytes {
    if m.prefix != [] then m.prefix + [SLASH] + m.name else m.name
  }

  function Field(text: Bytes, width: nat): (f: Bytes)
    requires |text| <= width
    ensures |f| == width
  {
    text + Zeros(width - |text|)
  }

  function OctalDigits(n: nat, width: nat): (s: Bytes)
    ensures |s| == width && forall i :: 0 <= i < width ==> IsOctal(s[i])
  {
    if width == 0 then [] else OctalDigits(n / 8, width - 1) + [48 + n % 8]
  }

  function Header(m: Member): (h: Bytes)
    requires Encodable(m)
    ensures |h| == BLOCK
  {
    Field(m.name, 100) + m.ignored.ids
    + (OctalDigits(|m.data|, 11) + [0]) + m.ignored.times
    + [m.typeflag] + m.ignored.link
    + Field(m.prefix, 155) + m.ignored.tail
  }

  function Entry(m: Member): Bytes
    requires Encodable(m)
  {
    Header(m) + m.data + Zeros(Padded(|m.data|) - |m.data|)
  }

  /** The archive: every member, then two zero blocks. */
  function Archive(members: seq<Member>): Bytes
    requires forall i :: 0 <= i < |members| ==> Encodable(members[i])
  {
    if members == [] then Zeros(2 * BLOCK) else Entry(members[0]) + Archive(members[1..])
  }

  /** What the archive means: its members, placed one after the other. */
  function Replay(dest: Path, members: seq<Member>, tree: Tree): Result<Tree, Fault> {
    if members == [] then Ok(tree)
    else
      match Place(dest, tree, MemberPath(members[0]), Some(members[0].typeflag), members[0].data)
      case Err(e) => Err(e)
      case Ok(placed) => Replay(dest, members[1..], placed)
  }

  // ----- Reading back what was written -----

  function Pow8(k: nat): nat {
    if k == 0 then 1 else 8 * Pow8(k - 1)
  }

  lemma {:induction false} OctalRoundTrip(n: nat, width: nat)
    requires n < Pow8(width)
    ensures OctalValue(OctalDigits(n, width)) == n
  {
    if width > 0 {
      OctalRoundTrip(n / 8, width - 1);
      assert Closed(OctalDigits(n, width)) == OctalDigits(n / 8, width - 1);
    }
  }

  lemma Pow8Eleven()
    ensures Pow8(11) == 0x2_0000_0000
  {
    assert Pow8(3) == 512;
    assert Pow8(6) == 0x4_0000;
    assert Pow8(9) == 0x800_0000;
  }

  lemma SizeFieldReadsBack(n: nat)
    requires n < 0x2_0000_0000
    ensures SizeOf(OctalDigits(n, 11) + [0]) == Some(n)
  {
    var digits := OctalDigits(n, 11);
    SizeOfText(digits, [0]);
    OctalPrefixOfDigits(digits);
    Pow8Eleven();
    OctalRoundTrip(n, 11);
  }

  /** The part of a concatenation that starts at `n`. */
  lemma Slice<T>(a: seq<T>, b: seq<T>, c: seq<T>, n: nat)
    requires |a| == n
    ensures (a + b + c)[n..n + |b|] == b
  {
  }

  lemma HeaderFields(m: Member)
    requires Encodable(m)
    ensures Header(m)[0..100] == Field(m.name, 100)
    ensures Header(m)[124..136] == OctalDigits(|m.data|, 11) + [0]
    ensures Header(m)[156] == m.typeflag
    ensures Header(m)[345..500] == Field(m.prefix, 155)
  {
    var (name, size) := (Field(m.name, 100), OctalDigits(|m.data|, 11) + [0]);
    var prefix := Field(m.prefix, 155);
    var front := name + m.ignored.ids + size + m.ignored.times;
    var back := [m.typeflag] + m.ignored.link + prefix + m.ignored.tail;
    assert Header(m) == front + back;
    hide Header, Field, OctalDigits;
    FrontFields(name, m.ignored.ids, size, m.ignored.times, back);
    BackFields(front, m.typeflag, m.ignored.link, prefix, m.ignored.tail);
  }

  lemma FrontFields(name: Bytes, ids: Bytes, size: Bytes, times: Bytes, back: Bytes)
    requires |name| == 100 && |ids| == 24 && |size| == 12 && |times| == 20
    ensures var h := name + ids + size + times + back; h[0..100] == name && h[124..136] == size
  {
    var h := name + ids + size + times + back;
    assert h == [] + name + (ids + size + times + back);
    assert h == (name + ids) + size + (times + back);
    Slice(name + ids, size, times + back, 124);
  }

  lemma BackFields(front: Bytes, flag: byte, link: Bytes, prefix: Bytes, tail: Bytes)
    requires |front| == 156 && |link| == 188 && |prefix| == 155 && |tail| == 12
    ensures var h := front + ([flag] + link + prefix + tail); h[156] == flag && h[345..500] == prefix
  {
    var h := front + ([flag] + link + prefix + tail);
    assert h == (front + [flag] + link) + prefix + tail;
    Slice(front + [flag] + link, prefix, tail, 345);
  }

  /** Every field of a written header reads back. */
  lemma HeaderReadsBack(m: Member)
    requires Encodable(m)
    ensures MemberName(Header(m)) == MemberPath(m)
    ensures HeaderSize(Header(m)) == Some(|m.data|)
    ensures HeaderType(Header(m)) == Some(m.typeflag)
    ensures !AllZero(Header(m))
  {
    HeaderFields(m);
    FieldReadsBack(m.name, 100);
    FieldReadsBack(m.prefix, 155);
    SizeFieldReadsBack(|m.data|);
    hide Header, Field;
    assert Header(m)[0] == Header(m)[0..100][0] == m.name[0];
    assert m.name[0] in m.name;
  }

  lemma FieldReadsBack(text: Bytes, width: nat)
    requires |text| <= width && 0 !in text
    ensures CutAtNul(Field(text, width)) == text
    ensures text != [] ==> Field(text, width)[0] == text[0]
  {
    CutField(text, Zeros(width - |text|));
  }

  /** A written member, with anything before and after it, where the reader looks for it. */
  lemma EntryReadsBack(before: Bytes, m: Member, rest: Bytes)
    requires Encodable(m)
    ensures var (content, offset) := (before + Entry(m) + rest, |before|);
            && offset + BLOCK <= |content|
            && HeaderAt(content, offset) == Header(m)
            && DataAt(content, offset, Some(|m.data|)) == m.data
            && |Entry(m)| == BLOCK + Padded(|m.data|)
  {
    hide Header, Zeros;
    var n := |m.data|;
    PaddedHolds(n);
    var pad := Zeros(Padded(n) - n);
    hide Padded;
    PartsReadBack(before, Header(m), m.data, pad, rest);
  }

  lemma PaddedHolds(n: nat)
    ensures Padded(n) >= n
  {}

  lemma PartsReadBack(before: Bytes, header: Bytes, data: Bytes, pad: Bytes, rest: Bytes)
    requires |header| == BLOCK
    ensures var (content, offset) := (before + (header + data + pad) + rest, |before|);
            && offset + BLOCK <= |content|
            && HeaderAt(content, offset) == header
            && DataAt(content, offset, Some(|data|)) == data
  {
    var (content, offset) := (before + (header + data + pad) + rest, |before|);
    Regroup(before, header, data, pad, rest);
    Slice(before, header, data + pad + rest, offset);
    Slice(before + header, data, pad + rest, offset + BLOCK);
  }

  lemma Regroup(before: Bytes, header: Bytes, data: Bytes, pad: Bytes, rest: Bytes)
    ensures before + (header + data + pad) + rest == before + header + (data + pad + rest)
    ensures before + (header + data + pad) + rest == (before + header) + data + (pad + rest)
  {}

  /** One round of the reader takes one written member. */
  lemma VisitWritten(dest: Path, before: Bytes, m: Member, rest: Bytes, tree: Tree)
    requires Encodable(m)
    ensures var placed := Place(dest, tree, MemberPath(m), Some(m.typeflag), m.data);
            Visit(dest, before + Entry(m) + rest, |before|, tree)
            == match placed case Err(e) => Over(Err(e)) case Ok(t) => At(|before| + |Entry(m)|, t)
  {
    hide Place, MemberPath, MemberName, HeaderSize, HeaderType, HeaderAt, DataAt, Header, Entry, Padded, AllZero,
        Encodable;
    EntryReadsBack(before, m, rest);
    HeaderReadsBack(m);
  }

  lemma {:induction false} ReadFirst(dest: Path, content: Bytes, offset: int, tree: Tree, n: nat)
    ensures Read(dest, content, offset, tree, n + 1)
         == match Visit(dest, content, offset, tree)
            case Over(r) => Over(r)
            case At(o, t) => Read(dest, content, o, t, n)
  {
    hide Visit;
    if n > 0 {
      ReadFirst(dest, content, offset, tree, n - 1);
    }
  }

  lemma VisitZeros(dest: Path, before: Bytes, tree: Tree)
    ensures Visit(dest, before + Zeros(2 * BLOCK), |before|, tree) == Over(Ok(tree))
  {
    var content := before + Zeros(2 * BLOCK);
    assert forall i :: 0 <= i < |HeaderAt(content, |before|)| ==> HeaderAt(content, |before|)[i] == 0;
  }

  /** From the start of the members on, the reader replays them and stops at the zero blocks. */
  lemma {:induction false} ReadsMembers(dest: Path, before: Bytes, members: seq<Member>, tree: Tree)
    requires forall i :: 0 <= i < |members| ==> Encodable(members[i])
    ensures Read(dest, before + Archive(members), |before|, tree, |members| + 1) == Over(Replay(dest, members, tree))
    decreases |members|
  {
    hide Visit, Place, MemberPath, Entry, Encodable, Zeros;
    var content := before + Archive(members);
    ReadFirst(dest, content, |before|, tree, |members|);
    if members == [] {
      VisitZeros(dest, before, tree);
    } else {
      var m, rest := members[0], Archive(members[1..]);
      assert content == before + Entry(m) + rest;
      VisitWritten(dest, before, m, rest, tree);
      var placed := Place(dest, tree, MemberPath(m), Some(m.typeflag), m.data);
      if placed.Ok? {
        ReadsMembers(dest, before + Entry(m), members[1..], placed.value);
        assert before + Entry(m) + rest == content;
      }
    }
  }

  /** Reading undoes writing, from any state of the destination. */
  lemma ReadingUndoesWriting(dest: Path, members: seq<Member>, tree: Tree)
    requires forall i :: 0 <= i < |members| ==> Encodable(members[i])
    ensures Ends(dest, Archive(members), tree, Replay(dest, members, tree))
  {
    hide Read;
    ReadsMembers(dest, [], members, tree);
    assert [] + Archive(members) == Archive(members);
  }

  /** In a written archive every round moves the offset forward. */
  lemma {:induction false} WrittenArchiveMovesForward(dest: Path, before: Bytes, m: Member, rest: Bytes, tree: Tree)
    requires Encodable(m)
    ensures var next := Visit(dest, before + Entry(m) + rest, |before|, tree);
            next.At? ==> next.offset >= |before| + BLOCK
  {
    hide Visit, Entry;
    VisitWritten(dest, before, m, rest, tree);
    EntryReadsBack(before, m, rest);
  }

  // ----- The tree that comes out -----

  /** What a member stands for, with its absolute path; a member of one component stands for nothing. */
  datatype Item = FileItem(path: Path, data: Bytes) | DirItem(path: Path) | NoItem

  /** The item of a member: any accepted regular file without a closing slash, any accepted directory. */
  predicate Represents(dest: Path, m: Member, item: Item) {
    var member := MemberPath(m);
    && !UnsafeMember(member)
    && match item
       case NoItem => Stripped(member) == []
       case FileItem(path, data) =>
         Stripped(member) != [] && Target(dest, member) == path && path != []
         && m.typeflag in {0, 48} && !ClosingSlash(member) && m.data == data
       case DirItem(path) =>
         Stripped(member) != [] && Target(dest, member) == path && m.typeflag == 53
  }

  predicate GoodComponent(part: Bytes) {
    part != [] && part != DOT && part != DOTDOT && SLASH !in part && 0 !in part
  }

  predicate GoodPath(path: Path) {
    forall i :: 0 <= i < |path| ==> GoodComponent(path[i])
  }

  /** A first component: a name, or the dot of a relative archive. */
  predicate GoodTop(top: Bytes) {
    top == DOT || GoodComponent(top)
  }

  lemma {:induction false} NormalizeGood(parts: Path, done: Path)
    requires GoodPath(parts)
    ensures Normalize(parts, done) == done + parts
    decreases |parts|
  {
    if parts != [] {
      NormalizeGood(parts[1..], done + [parts[0]]);
      assert parts == [parts[0]] + parts[1..];
    }
  }

  lemma {:induction false} ResolveGood(parts: Path, done: Path)
    requires GoodPath(parts)
    ensures Resolve(parts, done) == done + parts
    ensures Resolve(parts + [[]], done) == done + parts
    decreases |parts|
  {
    if parts == [] {
      var last: Path := [[]];
      assert parts + [[]] == last && last[1..] == [];
    } else {
      assert (parts + [[]])[1..] == parts[1..] + [[]];
      ResolveGood(parts[1..], done + [parts[0]]);
      assert parts == [parts[0]] + parts[1..];
    }
  }

  lemma {:induction false} NormalizeTrailing(parts: Path, done: Path)
    requires GoodPath(parts)
    ensures Normalize(parts + [[]], done) == done + parts
    decreases |parts|
  {
    if parts == [] {
      var last: Path := [[]];
      assert parts + [[]] == last && last[1..] == [];
    } else {
      assert (parts + [[]])[1..] == parts[1..] + [[]];
      NormalizeTrailing(parts[1..], done + [parts[0]]);
      assert parts == [parts[0]] + parts[1..];
    }
  }

  /** A component that can be written at all. */
  predicate PlainComponent(part: Bytes) {
    part != [] && SLASH !in part && 0 !in part
  }

  predicate PlainPath(path: Path) {
    forall i :: 0 <= i < |path| ==> PlainComponent(path[i])
  }

  lemma {:induction false} JoinPlain(parts: Path)
    requires parts != [] && PlainPath(parts)
    ensures var s := Join(parts, SLASH); s != [] && s[0] != SLASH && 0 !in s
    ensures SplitOn(Join(parts, SLASH), SLASH) == parts
    ensures SplitOn(Join(parts, SLASH) + [SLASH], SLASH) == parts + [[]]
  {
    var s := Join(parts, SLASH);
    JoinThenSplit(parts, SLASH);
    SplitAtSeparator(s, [], SLASH);
    assert s + [SLASH] + [] == s + [SLASH];
    assert parts[0][0] in parts[0];
    if |parts| > 1 {
      JoinPlain(parts[1..]);
    }
  }

  lemma {:induction false} JoinEndsPlain(parts: Path)
    requires parts != [] && PlainPath(parts)
    ensures Join(parts, SLASH) != [] && Last(Join(parts, SLASH)) != SLASH
  {
    if |parts| == 1 {
      assert Last(parts[0]) in parts[0];
    } else {
      JoinEndsPlain(parts[1..]);
    }
  }

  lemma JoinGood(parts: Path)
    requires parts != [] && GoodPath(parts)
    ensures Join(parts, SLASH) != [] && Last(Join(parts, SLASH)) != SLASH
    ensures SplitOn(Join(parts, SLASH), SLASH) == parts
    ensures SplitOn(Join(parts, SLASH) + [SLASH], SLASH) == parts + [[]]
  {
    forall i | 0 <= i < |parts|
      ensures PlainComponent(parts[i])
    {
      assert GoodComponent(parts[i]);
    }
    JoinPlain(parts);
    JoinEndsPlain(parts);
  }

  lemma DropFirst(first: Bytes, middle: Path, last: Path)
    ensures ([first] + middle + last)[1..] == middle + last
  {}

  /** How an archiver writes a path below a first component; directories may end in a slash. */
  function Written(top: Bytes, path: Path, slash: bool): Bytes {
    Join([top] + path, SLASH) + if slash then [SLASH] else []
  }

  /** A written path is accepted, and its target is the path without the first component, below the destination. */
  lemma WrittenTarget(dest: Path, top: Bytes, path: Path, slash: bool)
    requires GoodTop(top) && GoodPath(path)
    ensures var member := Written(top, path, slash);
            && !UnsafeMember(member)
            && (Stripped(member) == [] <==> path == [])
            && (path != [] ==> Target(dest, member) == dest + path && (ClosingSlash(member) <==> slash))
  {
    var whole := [top] + path;
    WrittenParts(top, path, slash);
    WrittenIsSafe(top, path, slash);
    hide UnsafeMember, SplitOn, Written, Target, ClosingSlash;
    if path == [] {
      var one: Path := [[]];
      assert one[1..] == [] && (whole + [[]])[1..] == one && whole[1..] == [];
      assert Join(one, SLASH) == [];
    } else {
      StrippedPath(dest, top, path, slash);
    }
  }

  lemma WrittenParts(top: Bytes, path: Path, slash: bool)
    requires GoodTop(top) && GoodPath(path)
    ensures SplitOn(Written(top, path, slash), SLASH) == if slash then [top] + path + [[]] else [top] + path
    ensures var s := Written(top, path, slash); s != [] && s[0] != SLASH && 0 !in s
  {
    hide GoodComponent;
    var whole := [top] + path;
    TopIsPlain(top, path);
    JoinPlain(whole);
    assert Join(whole, SLASH) + [] == Join(whole, SLASH);
  }

  lemma TopIsPlain(top: Bytes, path: Path)
    requires GoodTop(top) && GoodPath(path)
    ensures PlainPath([top] + path)
  {
    forall i | 0 <= i < |path| + 1
      ensures PlainComponent(([top] + path)[i])
    {
      if i > 0 {
        assert GoodComponent(path[i - 1]);
      }
    }
  }

  lemma WrittenIsSafe(top: Bytes, path: Path, slash: bool)
    requires GoodTop(top) && GoodPath(path)
    ensures !UnsafeMember(Written(top, path, slash))
  {
    WrittenParts(top, path, slash);
    NormalizeWritten(top, path, slash);
    hide SplitOn, Written, Normalize;
    var parts := if top == DOT then path else [top] + path;
    assert parts != [] && top == DOT ==> GoodComponent(path[0]);
  }

  lemma NormalizeWritten(top: Bytes, path: Path, slash: bool)
    requires GoodTop(top) && GoodPath(path)
    ensures Normalize(if slash then [top] + path + [[]] else [top] + path, [])
         == if top == DOT then path else [top] + path
  {
    var whole := if slash then [top] + path + [[]] else [top] + path;
    var rest := if slash then path + [[]] else path;
    assert whole[1..] == rest;
    var done: Path := if top == DOT then [] else [top];
    assert [] + [top] == [top];
    NormalizeGood(path, done);
    NormalizeTrailing(path, done);
    assert Normalize(whole, []) == Normalize(rest, done);
  }

  lemma StrippedPath(dest: Path, top: Bytes, path: Path, slash: bool)
    requires GoodTop(top) && GoodPath(path) && path != []
    ensures var member := Written(top, path, slash);
            && Stripped(member) != []
            && Target(dest, member) == dest + path
            && (ClosingSlash(member) <==> slash)
  {
    WrittenParts(top, path, slash);
    var member := Written(top, path, slash);
    hide Written, GoodComponent;
    var rest := if slash then path + [[]] else path;
    DropFirst(top, path, [[]]);
    assert ([top] + path)[1..] == path;
    assert SplitOn(member, SLASH)[1..] == rest;
    JoinGood(path);
    JoinTrailing(path);
    ResolveGood(path, dest);
  }

  lemma {:induction false} JoinTrailing(parts: Path)
    requires parts != []
    ensures Join(parts + [[]], SLASH) == Join(parts, SLASH) + [SLASH]
  {
    if |parts| == 1 {
      var last: Path := [[]];
      assert (parts + [[]])[1..] == last;
      assert Join(last, SLASH) == [];
    } else {
      assert (parts + [[]])[1..] == parts[1..] + [[]];
      JoinTrailing(parts[1..]);
    }
  }

  /** The directories that an item needs. */
  function DirsOfItem(item: Item): set<Path> {
    match item
    case NoItem => {}
    case FileItem(path, _) => if path == [] then {} else Prefixes(Closed(path))
    case DirItem(path) => Prefixes(path)
  }

  function FilesOf(items: seq<Item>): map<Path, Bytes> {
    if items == [] then map[]
    else
      var before := FilesOf(Closed(items));
      if Last(items).FileItem? then before[Last(items).path := Last(items).data] else before
  }

  function DirsOf(items: seq<Item>): set<Path> {
    if items == [] then {} else DirsOf(Closed(items)) + DirsOfItem(Last(items))
  }

  function TreeOf(items: seq<Item>): Tree {
    Tree(FilesOf(items), DirsOf(items))
  }

  /** No path is a file for one item and a directory for another. */
  ghost predicate Compatible(items: seq<Item>) {
    forall i, j :: 0 <= i < |items| && 0 <= j < |items| && items[i].FileItem? ==> items[i].path !in DirsOfItem(items[j])
  }

  lemma {:induction false} FilesAre(items: seq<Item>, path: Path)
    ensures path in FilesOf(items) <==> exists i :: 0 <= i < |items| && items[i].FileItem? && items[i].path == path
  {
    if items != [] {
      var init := Closed(items);
      FilesAre(init, path);
      assert forall i :: 0 <= i < |init| ==> init[i] == items[i];
      assert Last(items) == items[|items| - 1];
    }
  }

  lemma {:induction false} DirsAre(items: seq<Item>, path: Path)
    ensures path in DirsOf(items) <==> exists i :: 0 <= i < |items| && path in DirsOfItem(items[i])
  {
    if items != [] {
      var init := Closed(items);
      DirsAre(init, path);
      assert forall i :: 0 <= i < |init| ==> init[i] == items[i];
      assert Last(items) == items[|items| - 1];
    }
  }

  /** One more item fits the items before it. */
  ghost predicate Fits(before: seq<Item>, item: Item) {
    && (forall p :: p in DirsOfItem(item) ==> p !in FilesOf(before))
    && (item.FileItem? ==> item.path !in DirsOf(before))
  }

  lemma FitsExactly(before: seq<Item>, item: Item)
    requires Compatible(before) && (item.FileItem? ==> item.path != [])
    ensures Compatible(before + [item]) <==> Fits(before, item)
  {
    var items := before + [item];
    if Compatible(items) {
      FitsFrom(before, item);
    }
    if Fits(before, item) {
      forall i, j | 0 <= i < |items| && 0 <= j < |items| && items[i].FileItem?
        ensures items[i].path !in DirsOfItem(items[j])
      {
        PairFits(before, item, i, j);
      }
    }
  }

  lemma PairFits(before: seq<Item>, item: Item, i: nat, j: nat)
    requires Compatible(before) && (item.FileItem? ==> item.path != []) && Fits(before, item)
    requires i <= |before| && j <= |before| && (before + [item])[i].FileItem?
    ensures (before + [item])[i].path !in DirsOfItem((before + [item])[j])
  {
    var items := before + [item];
    assert items[|before|] == item;
    assert forall k :: 0 <= k < |before| ==> items[k] == before[k];
    FilesAre(before, items[i].path);
    if item.FileItem? {
      DirsAre(before, item.path);
      PrefixesAreShort(Closed(item.path));
    }
  }

  lemma FitsFrom(before: seq<Item>, item: Item)
    requires Compatible(before + [item])
    ensures Fits(before, item)
  {
    var items := before + [item];
    assert items[|before|] == item;
    assert forall i :: 0 <= i < |before| ==> items[i] == before[i];
    forall p | p in DirsOfItem(item)
      ensures p !in FilesOf(before)
    {
      FilesAre(before, p);
    }
    if item.FileItem? {
      DirsAre(before, item.path);
    }
  }

  /** Placing one more member works exactly when its item fits, and adds just that item. */
  lemma PlaceOne(dest: Path, before: seq<Item>, m: Member, item: Item)
    requires Represents(dest, m, item)
    ensures var placed := Place(dest, TreeOf(before), MemberPath(m), Some(m.typeflag), m.data);
            if Fits(before, item) then placed == Ok(TreeOf(before + [item])) else placed.Err?
  {
    hide UnsafeMember, Stripped, Target, ClosingSlash;
    assert Closed(before + [item]) == before && Last(before + [item]) == item;
    assert DirsOf(before) + {} == DirsOf(before);
    if item.FileItem? {
      PrefixesAreShort(Closed(item.path));
    }
  }

  lemma {:induction false} ReplayRestores(dest: Path, done: seq<Item>, todo: seq<Item>, members: seq<Member>)
    requires Compatible(done) && |members| == |todo|
    requires forall i :: 0 <= i < |todo| ==> Represents(dest, members[i], todo[i])
    ensures var end := Replay(dest, members, TreeOf(done));
            if Compatible(done + todo) then end == Ok(TreeOf(done + todo)) else end.Err?
    decreases |todo|
  {
    hide Place, Fits, Represents, TreeOf;
    if todo == [] {
      assert done + todo == done;
    } else {
      var next := done + [todo[0]];
      assert done + todo == next + todo[1..];
      FileHasPath(dest, members[0], todo[0]);
      FitsExactly(done, todo[0]);
      PlaceOne(dest, done, members[0], todo[0]);
      if Compatible(next) {
        ReplayRestores(dest, next, todo[1..], members[1..]);
      } else {
        PartsAreCompatible(next, todo[1..]);
      }
    }
  }

  lemma FileHasPath(dest: Path, m: Member, item: Item)
    requires Represents(dest, m, item)
    ensures item.FileItem? ==> item.path != []
  {}

  lemma PartsAreCompatible(a: seq<Item>, b: seq<Item>)
    ensures Compatible(a + b) ==> Compatible(a)
  {
    hide DirsOfItem;
    if Compatible(a + b) {
      forall i, j | 0 <= i < |a| && 0 <= j < |a| && a[i].FileItem?
        ensures a[i].path !in DirsOfItem(a[j])
      {
        assert (a + b)[i] == a[i] && (a + b)[j] == a[j];
      }
    }
  }

  /**
   For any list of regular files without a closing slash and of directories that the
   reader accepts: when no path is both a file and a directory, reading the archive
   yields exactly the files that went in and the directories they need, below the
   destination and without the first components; when some path is both, reading is
   an error.
  */
  lemma {:induction false} RestoresTree(dest: Path, members: seq<Member>, items: seq<Item>)
    requires |members| == |items|
    requires forall i :: 0 <= i < |members| ==> Encodable(members[i]) && Represents(dest, members[i], items[i])
    ensures Compatible(items) ==> Ends(dest, Archive(members), EMPTY, Ok(Tree(FilesOf(items), DirsOf(items))))
    ensures !Compatible(items) ==> exists e :: Ends(dest, Archive(members), EMPTY, Err(e))
  {
    hide Ends, Compatible, Represents, Encodable, Archive, Replay;
    ReadingUndoesWriting(dest, members, EMPTY);
    NothingIsCompatible();
    assert [] + items == items;
    ReplayRestores(dest, [], items, members);
  }

  lemma NothingIsCompatible()
    ensures Compatible([]) && TreeOf([]) == EMPTY
  {}

  /** A member stands for an item exactly when placing it can succeed at all. */
  lemma RepresentedExactly(dest: Path, m: Member)
    ensures (exists item :: Represents(dest, m, item))
       <==> exists tree :: Consistent(tree) && Place(dest, tree, MemberPath(m), Some(m.typeflag), m.data).Ok?
  {
    hide UnsafeMember, Stripped, Target, ClosingSlash, MemberPath;
    var (member, target) := (MemberPath(m), Target(dest, MemberPath(m)));
    assert Consistent(EMPTY);
    if target != [] {
      PrefixesAreShort(Closed(target));
    }
    if item :| Represents(dest, m, item) {
      assert Place(dest, EMPTY, member, Some(m.typeflag), m.data).Ok?;
    }
    if tree :| Consistent(tree) && Place(dest, tree, member, Some(m.typeflag), m.data).Ok? {
      var item := if Stripped(member) == [] then NoItem
                  else if m.typeflag == 53 then DirItem(target)
                  else FileItem(target, m.data);
      assert Represents(dest, m, item);
    }
  }

  /** A regular file whose name ends in a slash, as older archives write a directory, ends the reading with an error. */
  lemma {:induction false} ClosingSlashEndsReading(dest: Path, m: Member, rest: seq<Member>, tree: Tree)
    requires Encodable(m) && forall i :: 0 <= i < |rest| ==> Encodable(rest[i])
    requires ClosingSlash(MemberPath(m)) && m.typeflag in {0, 48}
    ensures exists e :: Ends(dest, Archive([m] + rest), tree, Err(e))
  {
    hide Ends, Encodable, Archive, UnsafeMember, Target;
    var members := [m] + rest;
    assert members[0] == m && members[1..] == rest;
    assert forall i :: 0 < i < |members| ==> members[i] == rest[i - 1];
    assert Replay(dest, members, tree).Err?;
    ReadingUndoesWriting(dest, members, tree);
  }

  /** Such a member: `a/d/`, of type NUL, with no data. */
  function OldDirectory(): Member {
    Member([], [97, 47, 100, 47], 0, [], Ignored(Zeros(24), Zeros(20), Zeros(188), Zeros(12)))
  }

  lemma {:induction false} OldDirectoryEndsReading(dest: Path, rest: seq<Member>, tree: Tree)
    requires forall i :: 0 <= i < |rest| ==> Encodable(rest[i])
    ensures Encodable(OldDirectory()) && exists e :: Ends(dest, Archive([OldDirectory()] + rest), tree, Err(e))
  {
    hide Ends, Archive, ClosingSlash, Written;
    OldDirectoryIsWritten();
    WrittenRepresents(dest, OldDirectory(), [97], [[100]], true);
    ClosingSlashEndsReading(dest, OldDirectory(), rest, tree);
  }

  lemma OldDirectoryIsWritten()
    ensures Written([97], [[100]], true) == [97, 47, 100, 47]
    ensures GoodTop([97]) && GoodPath([[100]])
  {
    var top: Bytes := [97];
    var path: Path := [[100]];
    var whole := [top] + path;
    assert whole[1..] == path;
    assert Join(path, SLASH) == [100];
    assert Join(whole, SLASH) == top + [SLASH] + Join(path, SLASH);
    assert path[0] == [100];
  }

  /** The item of a plainly written member: its path below the destination, without its own first component. */
  lemma WrittenRepresents(dest: Path, m: Member, top: Bytes, path: Path, slash: bool)
    requires GoodTop(top) && GoodPath(path) && MemberPath(m) == Written(top, path, slash)
    ensures path == [] ==> Represents(dest, m, NoItem)
    ensures path != [] && m.typeflag in {0, 48} && !slash ==> Represents(dest, m, FileItem(dest + path, m.data))
    ensures path != [] && m.typeflag in {0, 48} && slash ==> ClosingSlash(MemberPath(m))
    ensures path != [] && m.typeflag == 53 ==> Represents(dest, m, DirItem(dest + path))
  {
    hide UnsafeMember, Stripped, Target, ClosingSlash, Written, GoodTop, GoodPath;
    WrittenTarget(dest, top, path, slash);
  }

  /** The item of a path below the destination, or none when the path is only a first component. */
  function ItemAt(dest: Path, path: Path, m: Member): Item {
    if path == [] then NoItem
    else if m.typeflag == 53 then DirItem(dest + path)
    else FileItem(dest + path, m.data)
  }

  function ItemsAt(dest: Path, paths: seq<Path>, members: seq<Member>): (items: seq<Item>)
    requires |paths| == |members|
    ensures |items| == |members| && forall i :: 0 <= i < |members| ==> items[i] == ItemAt(dest, paths[i], members[i])
  {
    seq(|members|, i requires 0 <= i < |members| => ItemAt(dest, paths[i], members[i]))
  }

  /**
   In particular: files and directories written with plain names, each below a first
   component of its own, directories with or without a closing slash, and members that
   are just a first component, such as the entry of a top directory, whatever their type.
  */
  lemma {:induction false} RestoresWrittenTree(dest: Path, members: seq<Member>, tops: seq<Bytes>, paths: seq<Path>,
                                                 slashes: seq<bool>)
    requires |members| == |tops| == |paths| == |slashes|
    requires forall i :: 0 <= i < |members| ==>
      && Encodable(members[i]) && GoodTop(tops[i]) && GoodPath(paths[i])
      && MemberPath(members[i]) == Written(tops[i], paths[i], slashes[i])
      && (paths[i] == [] || members[i].typeflag == 53 || (members[i].typeflag in {0, 48} && !slashes[i]))
    requires Compatible(ItemsAt(dest, paths, members))
    ensures var items := ItemsAt(dest, paths, members);
            Ends(dest, Archive(members), EMPTY, Ok(Tree(FilesOf(items), DirsOf(items))))
  {
    var items := ItemsAt(dest, paths, members);
    forall i | 0 <= i < |members|
      ensures Represents(dest, members[i], items[i])
    {
      WrittenRepresents(dest, members[i], tops[i], paths[i], slashes[i]);
    }
    hide Ends, Compatible, Represents, Encodable, Archive;
    RestoresTree(dest, members, items);
  }
}
