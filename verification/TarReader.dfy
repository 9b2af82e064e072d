/**
 The source-archive reader: 512-byte ustar headers, found by an offset that the
 size fields drive, replayed into a destination directory.
*/
module TarReader {
  import opened Sequences

  type byte = x: int | 0 <= x < 256
  type Bytes = seq<byte>
  type Path = seq<Bytes>

  const BLOCK := 512
  const SLASH: byte := 47
  const DOT: Bytes := [46]
  const DOTDOT: Bytes := [46, 46]
  const DIRECTORY: byte := 53

  // ----- Header fields -----

  /** The bytes that `.` of a regular expression does not match (U+2028 and U+2029 in their UTF-8 form). */
  predicate LineBreakFree(s: Bytes) {
    && 10 !in s && 13 !in s
    && forall i :: 0 <= i < |s| - 2 ==> !(s[i] == 0xE2 && s[i + 1] == 0x80 && (s[i + 2] == 0xA8 || s[i + 2] == 0xA9))
  }

  /** `replace(/\0.*$/, "")`. */
  function CutAtNul(s: Bytes): Bytes {
    if s == [] then []
    else if s[0] == 0 && LineBreakFree(s[1..]) then []
    else [s[0]] + CutAtNul(s[1..])
  }

  /** Decoding as ASCII drops the top bit. */
  function Ascii(s: Bytes): Bytes {
    if s == [] then [] else [s[0] % 128] + Ascii(s[1..])
  }

  predicate IsBlank(b: byte) {
    9 <= b <= 13 || b == 32
  }

  function TrimLeft(s: Bytes): Bytes {
    if s != [] && IsBlank(s[0]) then TrimLeft(s[1..]) else s
  }

  function TrimRight(s: Bytes): Bytes {
    if s != [] && IsBlank(s[|s| - 1]) then TrimRight(s[..|s| - 1]) else s
  }

  predicate IsOctal(b: byte) {
    48 <= b <= 55
  }

  function OctalPrefix(s: Bytes): Bytes {
    if s == [] || !IsOctal(s[0]) then [] else [s[0]] + OctalPrefix(s[1..])
  }

  function OctalValue(digits: Bytes): int {
    if digits == [] then 0
    else
      var digit: int := Last(digits);
      8 * OctalValue(Closed(digits)) + digit - 48
  }

  /** `parseInt(text, 8)`; `None` stands for NaN. */
  function ParseOctal(text: Bytes): Option<int> {
    var negative := text != [] && text[0] == 45;
    var body := if text != [] && (text[0] == 45 || text[0] == 43) then text[1..] else text;
    var digits := OctalPrefix(body);
    if digits == [] then None
    else Some(if negative then -OctalValue(digits) else OctalValue(digits))
  }

  function SizeOf(field: Bytes): Option<int> {
    var text := TrimRight(TrimLeft(CutAtNul(Ascii(field))));
    if text == [] then Some(0) else ParseOctal(text)
  }

  /** Where `Buffer.subarray` takes a bound to be: a negative one counts from the end, and both ends clamp. */
  function Bound(length: nat, n: int): (b: nat)
    ensures b <= length
  {
    if n < 0 then if length + n < 0 then 0 else length + n
    else if n > length then length
    else n
  }

  function Subarray(s: Bytes, begin: int, end: int): Bytes {
    var (b, e) := (Bound(|s|, begin), Bound(|s|, end));
    if b < e then s[b..e] else []
  }

  function MemberName(header: Bytes): Bytes {
    var name := CutAtNul(Subarray(header, 0, 100));
    var prefix := CutAtNul(Subarray(header, 345, 500));
    if prefix != [] then prefix + [SLASH] + name else name
  }

  function HeaderSize(header: Bytes): Option<int> {
    SizeOf(Subarray(header, 124, 136))
  }

  function HeaderType(header: Bytes): Option<byte> {
    if |header| > 156 then Some(header[156]) else None
  }

  /** `Math.ceil(size / 512) * 512`, for any size. */
  function Padded(size: int): int {
    (size + BLOCK - 1) / BLOCK * BLOCK
  }

  // ----- Where a member goes -----

  /** `path.posix.normalize` on the components of a relative path. */
  function Normalize(parts: Path, done: Path): Path
    decreases |parts|
  {
    if parts == [] then done
    else if parts[0] == [] || parts[0] == DOT then Normalize(parts[1..], done)
    else if parts[0] == DOTDOT && done != [] && Last(done) != DOTDOT then Normalize(parts[1..], Closed(done))
    else Normalize(parts[1..], done + [parts[0]])
  }

  /** The normalized member starts with `../`. */
  predicate Climbs(member: Bytes) {
    var parts := Normalize(SplitOn(member, SLASH), []);
    parts != [] && parts[0] == DOTDOT && (|parts| > 1 || (member != [] && Last(member) == SLASH))
  }

  predicate UnsafeMember(member: Bytes) {
    member == [] || 0 in member || Climbs(member) || member[0] == SLASH
  }

  /** The file system: its files and its directories, by the components of their absolute paths. */
  datatype Tree = Tree(files: map<Path, Bytes>, dirs: set<Path>)

  datatype Fault = UnsafePath | UnsupportedType | FileInTheWay | DirectoryInTheWay

  /** Every directory on the way down to `path`, itself included. */
  function Prefixes(path: Path): set<Path> {
    if path == [] then {} else Prefixes(Closed(path)) + {path}
  }

  /** `mkdir` with `recursive`. */
  function MakeDirs(tree: Tree, path: Path): Result<Tree, Fault> {
    if exists p :: p in Prefixes(path) && p in tree.files then Err(FileInTheWay)
    else Ok(tree.(dirs := tree.dirs + Prefixes(path)))
  }

  function WriteFile(tree: Tree, path: Path, data: Bytes): Result<Tree, Fault> {
    if path == [] then Err(DirectoryInTheWay)
    else
      match MakeDirs(tree, Closed(path))
      case Err(e) => Err(e)
      case Ok(made) =>
        if path in made.dirs then Err(DirectoryInTheWay)
        else Ok(made.(files := made.files[path := data]))
  }

  /** The member without its first component. */
  function Stripped(member: Bytes): Bytes {
    Join(SplitOn(member, SLASH)[1..], SLASH)
  }

  /** `path.join` of an absolute path, given by its components, with more components. */
  function Resolve(parts: Path, done: Path): Path
    decreases |parts|
  {
    if parts == [] then done
    else if parts[0] == [] || parts[0] == DOT then Resolve(parts[1..], done)
    else if parts[0] == DOTDOT then Resolve(parts[1..], if done == [] then [] else Closed(done))
    else Resolve(parts[1..], done + [parts[0]])
  }

  /** Where the stripped member is; `path.join` keeps a closing slash, which the components do not show. */
  function Target(dest: Path, member: Bytes): Path {
    Resolve(SplitOn(Stripped(member), SLASH), dest)
  }

  predicate IsFileType(typeflag: Option<byte>) {
    typeflag == Some(0) || typeflag == Some(48)
  }

  /** The stripped member ends in a slash, under which no file can be opened. */
  predicate ClosingSlash(member: Bytes) {
    Stripped(member) != [] && Last(Stripped(member)) == SLASH
  }

  /** Opening a path with a closing slash for writing is an error, after its parent was made. */
  function OpenAsDirectory(tree: Tree, path: Path): Result<Tree, Fault> {
    if path == [] then Err(DirectoryInTheWay)
    else
      match MakeDirs(tree, Closed(path))
      case Err(e) => Err(e)
      case Ok(_) => Err(DirectoryInTheWay)
  }

  /** What one member does to the file system: it goes below `dest`, without its first component. */
  function Place(dest: Path, tree: Tree, member: Bytes, typeflag: Option<byte>, data: Bytes): Result<Tree, Fault> {
    if UnsafeMember(member) then Err(UnsafePath)
    else if Stripped(member) == [] then Ok(tree)
    else
      var target := Target(dest, member);
      if typeflag == Some(DIRECTORY) then MakeDirs(tree, target)
      else if !IsFileType(typeflag) then Err(UnsupportedType)
      else if ClosingSlash(member) then OpenAsDirectory(tree, target)
      else WriteFile(tree, target, data)
  }

  // ----- Reading -----

  predicate AllZero(s: Bytes) {
    forall i :: 0 <= i < |s| ==> s[i] == 0
  }

  /** The reader stands at an offset, or the loop is over. */
  datatype Reading = At(offset: int, tree: Tree) | Over(result: Result<Tree, Fault>)

  function HeaderAt(content: Bytes, offset: int): Bytes {
    Subarray(content, offset, offset + BLOCK)
  }

  /** The loop ends at this offset; an empty header counts as a zero block. */
  predicate Stops(content: Bytes, offset: int) {
    offset + BLOCK > |content| || AllZero(HeaderAt(content, offset))
  }

  /** The bytes that go into the file; a size that is not a number ends them at 0. */
  function DataAt(content: Bytes, offset: int, size: Option<int>): Bytes {
    Subarray(content, offset + BLOCK, if size.Some? then offset + BLOCK + size.value else 0)
  }

  /** One round of the loop. A size that is not a number makes the offset one too, which ends the loop. */
  function Visit(dest: Path, content: Bytes, offset: int, tree: Tree): Reading {
    if Stops(content, offset) then Over(Ok(tree))
    else
      var header := HeaderAt(content, offset);
      var size := HeaderSize(header);
      match Place(dest, tree, MemberName(header), HeaderType(header), DataAt(content, offset, size))
      case Err(e) => Over(Err(e))
      case Ok(placed) => if size.None? then Over(Ok(placed)) else At(offset + BLOCK + Padded(size.value), placed)
  }

  /** Where the reader is after `n` rounds. */
  function Read(dest: Path, content: Bytes, offset: int, tree: Tree, n: nat): Reading {
    if n == 0 then At(offset, tree)
    else
      match Read(dest, content, offset, tree, n - 1)
      case Over(r) => Over(r)
      case At(o, t) => Visit(dest, content, o, t)
  }

  lemma ReadNext(dest: Path, content: Bytes, offset: int, tree: Tree, n: nat)
    ensures var r := Read(dest, content, offset, tree, n);
            Read(dest, content, offset, tree, n + 1) == if r.At? then Visit(dest, content, r.offset, r.tree) else r
  {
    hide Visit;
  }

  ghost predicate Ends(dest: Path, content: Bytes, tree: Tree, result: Result<Tree, Fault>) {
    exists n: nat :: Read(dest, content, 0, tree, n) == Over(result)
  }

  ghost predicate Endless(dest: Path, content: Bytes, tree: Tree) {
    forall n: nat :: Read(dest, content, 0, tree, n).At?
  }

  /** The reader moves forward exactly when the size is above -512. */
  lemma OffsetAdvances(size: int)
    ensures BLOCK + Padded(size) > 0 <==> size > -512
    ensures BLOCK + Padded(size) == 0 <==> -1024 < size <= -512
  {
    var q := (size + BLOCK - 1) / BLOCK;
    assert q * BLOCK <= size + BLOCK - 1 < q * BLOCK + BLOCK;
  }

  // ----- What placing a member leaves behind -----

  /** No path is a file and a directory. */
  predicate Consistent(tree: Tree) {
    forall p :: p in tree.files ==> p !in tree.dirs
  }

  predicate Grown(tree: Tree, later: Tree) {
    tree.files.Keys <= later.files.Keys && tree.dirs <= later.dirs
  }

  /** The member is placed already, whatever is in its file. */
  predicate Placed(dest: Path, tree: Tree, member: Bytes, typeflag: Option<byte>) {
    && !UnsafeMember(member)
    && (Stripped(member) == []
        || (var target := Target(dest, member);
            || (typeflag == Some(DIRECTORY) && Prefixes(target) <= tree.dirs)
            || (IsFileType(typeflag) && !ClosingSlash(member) && target != []
                && Prefixes(Closed(target)) <= tree.dirs && target in tree.files)))
  }

  lemma {:induction false} PrefixesAreShort(path: Path)
    ensures forall p :: p in Prefixes(path) ==> |p| <= |path|
  {
    if path != [] {
      PrefixesAreShort(Closed(path));
    }
  }

  /** A member that was placed once can be placed again, at any later time. */
  lemma PlacingSettles(dest: Path, tree: Tree, member: Bytes, typeflag: Option<byte>, data: Bytes)
    requires Consistent(tree) && Place(dest, tree, member, typeflag, data).Ok?
    ensures var placed := Place(dest, tree, member, typeflag, data).value;
            Consistent(placed) && Grown(tree, placed) && Placed(dest, placed, member, typeflag)
  {
    hide UnsafeMember, Stripped, Target, ClosingSlash;
    var target := Target(dest, member);
    if target != [] {
      PrefixesAreShort(Closed(target));
    }
  }

  lemma PlacesAgain(dest: Path, tree: Tree, member: Bytes, typeflag: Option<byte>, data: Bytes)
    requires Consistent(tree) && Placed(dest, tree, member, typeflag)
    ensures Place(dest, tree, member, typeflag, data).Ok?
  {
    hide UnsafeMember, Stripped, Target, ClosingSlash;
    var target := Target(dest, member);
    if target != [] {
      PrefixesAreShort(Closed(target));
    }
  }

  // ----- When the loop goes round for ever -----

  /** The offsets of the first `n` rounds. */
  ghost function Offsets(dest: Path, content: Bytes, tree: Tree, n: nat): set<int> {
    if n == 0 then {}
    else
      match Read(dest, content, 0, tree, n - 1)
      case Over(_) => Offsets(dest, content, tree, n - 1)
      case At(o, _) => Offsets(dest, content, tree, n - 1) + {o}
  }

  ghost function Between(low: int, count: nat): (offsets: set<int>)
    ensures forall o :: o in offsets <==> low <= o < low + count
  {
    if count == 0 then {} else Between(low, count - 1) + {low + count - 1}
  }

  /** Every offset at which a header can be read at all. */
  ghost function Window(length: nat): set<int> {
    var low: int := 0 - (length + BLOCK);
    Between(low, 2 * length + BLOCK + 1)
  }

  lemma ReadableIsInWindow(content: Bytes, offset: int)
    requires !Stops(content, offset)
    ensures offset in Window(|content|)
  {}

  /** The header at an offset has been read and placed. */
  predicate Passed(dest: Path, content: Bytes, offset: int, tree: Tree) {
    var header := HeaderAt(content, offset);
    && !Stops(content, offset)
    && HeaderSize(header).Some?
    && Placed(dest, tree, MemberName(header), HeaderType(header))
  }

  function NextOffset(content: Bytes, offset: int): int {
    var size := HeaderSize(HeaderAt(content, offset));
    offset + BLOCK + if size.Some? then Padded(size.value) else 0
  }

  /** All offsets in `seen` are passed, and lead to `seen` or to where the reader is. */
  ghost predicate AllPassed(dest: Path, content: Bytes, seen: set<int>, offset: int, tree: Tree) {
    && Consistent(tree)
    && forall o :: o in seen ==>
         Passed(dest, content, o, tree) && (NextOffset(content, o) in seen || NextOffset(content, o) == offset)
  }

  lemma VisitPasses(dest: Path, content: Bytes, offset: int, tree: Tree)
    requires Consistent(tree) && Visit(dest, content, offset, tree).At?
    ensures var next := Visit(dest, content, offset, tree);
            && next.offset == NextOffset(content, offset)
            && Consistent(next.tree) && Grown(tree, next.tree) && Passed(dest, content, offset, next.tree)
  {
    var header := HeaderAt(content, offset);
    var data := DataAt(content, offset, HeaderSize(header));
    hide Place, Placed, Consistent, Grown, MemberName, HeaderType, HeaderSize, DataAt, HeaderAt, AllZero, Padded;
    PlacingSettles(dest, tree, MemberName(header), HeaderType(header), data);
  }

  lemma PassedStays(dest: Path, content: Bytes, offset: int, tree: Tree, later: Tree)
    requires Passed(dest, content, offset, tree) && Grown(tree, later)
    ensures Passed(dest, content, offset, later)
  {
    hide UnsafeMember, Stripped, Target, ClosingSlash, MemberName, HeaderType, HeaderSize, HeaderAt, Stops, Prefixes,
        IsFileType;
  }

  lemma PassesAgain(dest: Path, content: Bytes, offset: int, tree: Tree)
    requires Consistent(tree) && Passed(dest, content, offset, tree)
    ensures Visit(dest, content, offset, tree).At?
  {
    var header := HeaderAt(content, offset);
    hide Place, Placed, Consistent, MemberName, HeaderType, HeaderSize, HeaderAt, AllZero;
    PlacesAgain(dest, tree, MemberName(header), HeaderType(header), DataAt(content, offset, HeaderSize(header)));
  }

  /** One more round, at a new offset or at one that was seen. */
  lemma {:induction false} RoundPasses(dest: Path, content: Bytes, seen: set<int>, offset: int, tree: Tree)
    requires AllPassed(dest, content, seen, offset, tree) && Visit(dest, content, offset, tree).At?
    ensures var next := Visit(dest, content, offset, tree);
            AllPassed(dest, content, seen + {offset}, next.offset, next.tree)
  {
    hide Passed, Visit, NextOffset, Consistent, Grown;
    VisitPasses(dest, content, offset, tree);
    var next := Visit(dest, content, offset, tree);
    forall o | o in seen
      ensures Passed(dest, content, o, next.tree)
    {
      PassedStays(dest, content, o, tree, next.tree);
    }
  }

  lemma {:induction false} RoundsPass(dest: Path, content: Bytes, tree: Tree, n: nat)
    requires Consistent(tree) && Read(dest, content, 0, tree, n).At?
    ensures var r := Read(dest, content, 0, tree, n);
            AllPassed(dest, content, Offsets(dest, content, tree, n), r.offset, r.tree)
  {
    hide Visit, Passed, Consistent;
    if n > 0 {
      var before := Read(dest, content, 0, tree, n - 1);
      RoundsPass(dest, content, tree, n - 1);
      RoundPasses(dest, content, Offsets(dest, content, tree, n - 1), before.offset, before.tree);
    }
  }

  /** From an offset that was seen the reader never leaves the seen offsets. */
  lemma {:induction false} SeenForEver(dest: Path, content: Bytes, tree: Tree, n: nat, m: nat)
    requires Consistent(tree) && Read(dest, content, 0, tree, n).At?
    requires Read(dest, content, 0, tree, n).offset in Offsets(dest, content, tree, n)
    ensures var (seen, r) := (Offsets(dest, content, tree, n), Read(dest, content, 0, tree, n + m));
            r.At? && r.offset in seen && AllPassed(dest, content, seen, r.offset, r.tree)
  {
    hide Visit, Passed, Consistent, Read, Offsets, AllPassed;
    var seen := Offsets(dest, content, tree, n);
    if m == 0 {
      RoundsPass(dest, content, tree, n);
    } else {
      SeenForEver(dest, content, tree, n, m - 1);
      var before := Read(dest, content, 0, tree, n + (m - 1));
      SeenGoesOn(dest, content, seen, before.offset, before.tree);
      ReadNext(dest, content, 0, tree, n + (m - 1));
      assert seen + {before.offset} == seen;
    }
  }

  lemma {:induction false} SeenGoesOn(dest: Path, content: Bytes, seen: set<int>, offset: int, tree: Tree)
    requires offset in seen && AllPassed(dest, content, seen, offset, tree)
    ensures var next := Visit(dest, content, offset, tree);
            next.At? && next.offset in seen && AllPassed(dest, content, seen + {offset}, next.offset, next.tree)
  {
    hide Passed, Visit, Consistent, Grown;
    PassesAgain(dest, content, offset, tree);
    RoundPasses(dest, content, seen, offset, tree);
    VisitPasses(dest, content, offset, tree);
  }

  lemma {:induction false} OverStays(dest: Path, content: Bytes, tree: Tree, n: nat, m: nat)
    ensures Read(dest, content, 0, tree, n + m).At? ==> Read(dest, content, 0, tree, n).At?
  {
    hide Visit;
    if m > 0 {
      OverStays(dest, content, tree, n, m - 1);
    }
  }

  lemma {:induction false} RepeatIsEndless(dest: Path, content: Bytes, tree: Tree, n: nat)
    requires Consistent(tree) && Read(dest, content, 0, tree, n).At?
    requires Read(dest, content, 0, tree, n).offset in Offsets(dest, content, tree, n)
    ensures Endless(dest, content, tree)
  {
    forall k: nat
      ensures Read(dest, content, 0, tree, k).At?
    {
      SeenForEver(dest, content, tree, n, k);
      OverStays(dest, content, tree, k, n);
    }
  }

  /** The reader stands where it stood in an earlier round. */
  ghost predicate ComesBack(dest: Path, content: Bytes, tree: Tree, n: nat) {
    var now := Read(dest, content, 0, tree, n);
    now.At? && now.offset in Offsets(dest, content, tree, n)
  }

  /** An endless reader passes through finitely many offsets, so one of them comes back. */
  lemma EndlessRepeats(dest: Path, content: Bytes, tree: Tree, n: nat) returns (k: nat)
    requires Endless(dest, content, tree) && |Offsets(dest, content, tree, n)| == n
        && Offsets(dest, content, tree, n) <= Window(|content|)
    ensures ComesBack(dest, content, tree, k)
    decreases Window(|content|) - Offsets(dest, content, tree, n)
  {
    hide Window, Visit, Stops;
    var (seen, now, next) := (Offsets(dest, content, tree, n), Read(dest, content, 0, tree, n),
        Read(dest, content, 0, tree, n + 1));
    assert now.At? && next.At?;
    if now.offset in seen {
      k := n;
    } else {
      AtMeansReadable(dest, content, now.offset, now.tree);
      ReadableIsInWindow(content, now.offset);
      assert Offsets(dest, content, tree, n + 1) == seen + {now.offset};
      k := EndlessRepeats(dest, content, tree, n + 1);
    }
  }

  lemma AtMeansReadable(dest: Path, content: Bytes, offset: int, tree: Tree)
    requires Visit(dest, content, offset, tree).At?
    ensures !Stops(content, offset)
  {}

  /** The loop goes round for ever if and only if it comes back to an offset. */
  lemma EndlessExactly(dest: Path, content: Bytes, tree: Tree)
    requires Consistent(tree)
    ensures Endless(dest, content, tree) <==>
            exists n: nat :: ComesBack(dest, content, tree, n)
  {
    if Endless(dest, content, tree) {
      var _ := EndlessRepeats(dest, content, tree, 0);
    }
    if n: nat :| ComesBack(dest, content, tree, n) {
      RepeatIsEndless(dest, content, tree, n);
    }
  }

  /** A size from -512 down to -1023 in any header that is placed keeps the reader there for ever. */
  lemma {:induction false} StandingStillIsEndless(dest: Path, content: Bytes, tree: Tree, n: nat)
    requires Consistent(tree) && Read(dest, content, 0, tree, n).At? && Read(dest, content, 0, tree, n + 1).At?
    requires HeaderSize(HeaderAt(content, Read(dest, content, 0, tree, n).offset)).Some?
    requires -1024 < HeaderSize(HeaderAt(content, Read(dest, content, 0, tree, n).offset)).value <= -512
    ensures Endless(dest, content, tree)
  {
    hide Visit, Read, HeaderSize, HeaderAt, Consistent, Padded;
    var now := Read(dest, content, 0, tree, n);
    OffsetAdvances(HeaderSize(HeaderAt(content, now.offset)).value);
    ReadNext(dest, content, 0, tree, n);
    VisitMoves(dest, content, now.offset, now.tree);
    RepeatIsEndless(dest, content, tree, n + 1);
  }

  /** A size from -1024 down to -1535 in the first header takes the reader to an empty header, which ends the loop. */
  lemma {:induction false} SteppingBackOverTheStartEnds(dest: Path, content: Bytes, tree: Tree)
    requires Visit(dest, content, 0, tree).At?
    requires HeaderSize(HeaderAt(content, 0)).Some? && -1536 < HeaderSize(HeaderAt(content, 0)).value <= -1024
    ensures Ends(dest, content, tree, Ok(Visit(dest, content, 0, tree).tree))
  {
    hide Visit, Read, HeaderSize, HeaderAt, Padded, Stops;
    var (size, next) := (HeaderSize(HeaderAt(content, 0)).value, Visit(dest, content, 0, tree));
    TwoBlocksBack(size);
    ReadNone(dest, content, tree);
    ReadNext(dest, content, 0, tree, 0);
    ReadNext(dest, content, 0, tree, 1);
    VisitMoves(dest, content, 0, tree);
    StopsBefore(content);
    VisitStopped(dest, content, -BLOCK, next.tree);
    assert Read(dest, content, 0, tree, 2) == Over(Ok(next.tree));
  }

  lemma ReadNone(dest: Path, content: Bytes, tree: Tree)
    ensures Read(dest, content, 0, tree, 0) == At(0, tree)
  {}

  lemma TwoBlocksBack(size: int)
    requires -1536 < size <= -1024
    ensures Padded(size) == -1024
  {
    var q := (size + BLOCK - 1) / BLOCK;
    assert q * BLOCK <= size + BLOCK - 1 < q * BLOCK + BLOCK;
  }

  lemma StopsBefore(content: Bytes)
    ensures Stops(content, -BLOCK)
  {
    assert HeaderAt(content, -BLOCK) == [];
  }

  lemma VisitStopped(dest: Path, content: Bytes, offset: int, tree: Tree)
    requires Stops(content, offset)
    ensures Visit(dest, content, offset, tree) == Over(Ok(tree))
  {}

  lemma VisitMoves(dest: Path, content: Bytes, offset: int, tree: Tree)
    requires Visit(dest, content, offset, tree).At?
    ensures Visit(dest, content, offset, tree).offset == NextOffset(content, offset)
    ensures HeaderSize(HeaderAt(content, offset)).Some?
  {
    hide Place, Stops, HeaderSize;
  }

  lemma {:induction false} AsciiKeeps(s: Bytes)
    requires forall i :: 0 <= i < |s| ==> s[i] < 128
    ensures Ascii(s) == s
  {
    if s != [] {
      AsciiKeeps(s[1..]);
      assert s == [s[0]] + s[1..];
    }
  }

  /** A field that a writer filled with text and NULs reads back as the text. */
  lemma {:induction false} CutField(text: Bytes, zeros: Bytes)
    requires 0 !in text && AllZero(zeros)
    ensures CutAtNul(text + zeros) == text
  {
    if text == [] {
      assert text + zeros == zeros;
      if zeros != [] {
        assert zeros[0] == 0;
        assert LineBreakFree(zeros[1..]);
      }
    } else {
      assert (text + zeros)[1..] == text[1..] + zeros;
      assert (text + zeros)[0] == text[0] && text[0] in text;
      CutField(text[1..], zeros);
      assert text == [text[0]] + text[1..];
    }
  }

  lemma {:induction false} OctalPrefixOfDigits(s: Bytes)
    requires forall i :: 0 <= i < |s| ==> IsOctal(s[i])
    ensures OctalPrefix(s) == s
  {
    if s != [] {
      OctalPrefixOfDigits(s[1..]);
      assert s == [s[0]] + s[1..];
    }
  }

  /** Reading a size field of plain text, padded with NULs. */
  lemma SizeOfText(text: Bytes, zeros: Bytes)
    requires text != [] && AllZero(zeros)
    requires forall i :: 0 <= i < |text| ==> 33 <= text[i] < 128
    ensures SizeOf(text + zeros) == ParseOctal(text)
  {
    AsciiKeeps(text + zeros);
    CutField(text, zeros);
  }

  const MINUS_512: Bytes := [45, 49, 48, 48, 48]

  /** A size field that reads `-1000` is -512. */
  lemma NegativeSizeParses()
    ensures SizeOf(MINUS_512 + [0, 0, 0, 0, 0, 0, 0]) == Some(-512)
  {
    SizeOfText(MINUS_512, [0, 0, 0, 0, 0, 0, 0]);
    var digits: Bytes := [49, 48, 48, 48];
    assert MINUS_512[1..] == digits;
    OctalPrefixOfDigits(digits);
    OneThousandOctal();
  }

  lemma OneThousandOctal()
    ensures OctalValue([49, 48, 48, 48]) == 512
  {
    var digits: Bytes := [49, 48, 48, 48];
    assert Closed(digits) == digits[..3];
    assert Closed(digits[..3]) == digits[..2];
    assert Closed(digits[..2]) == digits[..1];
    assert Closed(digits[..1]) == [];
    assert OctalValue(digits[..1]) == 1;
    assert OctalValue(digits[..2]) == 8;
    assert OctalValue(digits[..3]) == 64;
  }

  // ----- A guard, and an archive that never ends -----

  /** No header at a block boundary inside the content has a size of -512 or less. */
  ghost predicate NoBackwardSize(content: Bytes) {
    forall k: nat :: BLOCK * k + BLOCK <= |content| ==> ForwardSize(content, BLOCK * k)
  }

  predicate ForwardSize(content: Bytes, offset: int) {
    var size := HeaderSize(HeaderAt(content, offset));
    size.Some? ==> size.value > -512
  }

  lemma PaddedIsBlocks(size: int)
    requires size > -512
    ensures exists q: nat :: Padded(size) == BLOCK * q
  {
    var q := (size + BLOCK - 1) / BLOCK;
    assert q >= 0 && Padded(size) == BLOCK * q;
  }

  /** From a block boundary on, forward sizes lead to an end. */
  lemma {:induction false} ForwardEnds(dest: Path, content: Bytes, tree: Tree, n: nat, k: nat) returns (m: nat)
    requires NoBackwardSize(content)
    requires Read(dest, content, 0, tree, n).At? && Read(dest, content, 0, tree, n).offset == BLOCK * k
    ensures Read(dest, content, 0, tree, m).Over?
    decreases |content| - BLOCK * k + BLOCK
  {
    hide Visit, Read, HeaderSize, HeaderAt, Padded, Stops;
    var now := Read(dest, content, 0, tree, n);
    ReadNext(dest, content, 0, tree, n);
    var next := Read(dest, content, 0, tree, n + 1);
    if next.Over? {
      m := n + 1;
    } else {
      AtMeansReadable(dest, content, now.offset, now.tree);
      ReadableIsInside(content, now.offset);
      VisitMoves(dest, content, now.offset, now.tree);
      assert ForwardSize(content, BLOCK * k);
      PaddedIsBlocks(HeaderSize(HeaderAt(content, BLOCK * k)).value);
      var q: nat :| Padded(HeaderSize(HeaderAt(content, BLOCK * k)).value) == BLOCK * q;
      assert next.offset == BLOCK * (k + 1 + q);
      m := ForwardEnds(dest, content, tree, n + 1, k + 1 + q);
    }
  }

  lemma ReadableIsInside(content: Bytes, offset: int)
    requires !Stops(content, offset)
    ensures offset + BLOCK <= |content|
  {}

  /** What a caller can check: without a size of -512 or less at a block boundary the loop ends. */
  lemma ForwardSizesEnd(dest: Path, content: Bytes, tree: Tree)
    requires NoBackwardSize(content)
    ensures exists result :: Ends(dest, content, tree, result)
  {
    hide Read;
    ReadNone(dest, content, tree);
    var m := ForwardEnds(dest, content, tree, 0, 0);
    assert Ends(dest, content, tree, Read(dest, content, 0, tree, m).result);
  }

  function Zeros(n: nat): (z: Bytes)
    ensures |z| == n && AllZero(z)
  {
    seq(n, i => 0)
  }

  /** One header: the name `t`, the size field `-1000`, zeros elsewhere. */
  function Stalled(): (content: Bytes)
    ensures |content| == BLOCK
  {
    [116] + Zeros(123) + (MINUS_512 + Zeros(7)) + Zeros(376)
  }

  lemma {:induction false} StalledSize()
    ensures HeaderSize(Stalled()) == Some(-512)
  {
    hide SizeOf;
    NegativeSizeParses();
    assert MINUS_512 + Zeros(7) == MINUS_512 + [0, 0, 0, 0, 0, 0, 0];
    var (front, field, back) := ([116] + Zeros(123), MINUS_512 + Zeros(7), Zeros(376));
    assert (front + field + back)[124..136] == field;
  }

  lemma StalledName()
    ensures MemberName(Stalled()) == [116]
  {
    var content := Stalled();
    CutField([116], Zeros(99));
    assert content[0..100] == [116] + Zeros(99);
    CutField([], Zeros(155));
    assert content[345..500] == [] + Zeros(155);
    hide CutAtNul;
  }

  lemma OneComponentIsNothing(dest: Path, tree: Tree, typeflag: Option<byte>, data: Bytes)
    ensures Place(dest, tree, [116], typeflag, data) == Ok(tree)
  {
    var t: Bytes := [116];
    var parts: Path := [t];
    SplitFree(t, SLASH);
    assert parts[1..] == [] && Normalize(parts, []) == [] + parts;
    assert Stripped(t) == [];
  }

  /** The loop never ends on this archive, whatever the destination holds. */
  lemma StalledIsEndless(dest: Path, tree: Tree)
    requires Consistent(tree)
    ensures Endless(dest, Stalled(), tree)
  {
    var content := Stalled();
    StalledSize();
    StalledName();
    OneComponentIsNothing(dest, tree, HeaderType(content), DataAt(content, 0, Some(-512)));
    StalledHeader();
    hide Place, HeaderSize, MemberName, HeaderType, DataAt, Stalled, HeaderAt, AllZero, Padded, Consistent;
    ReadNone(dest, content, tree);
    ReadNext(dest, content, 0, tree, 0);
    hide Read;
    StandingStillIsEndless(dest, content, tree, 0);
  }

  lemma StalledHeader()
    ensures HeaderAt(Stalled(), 0) == Stalled() && !AllZero(Stalled())
  {
    assert Stalled()[0] == 116;
  }

  // ----- Leaving the destination -----

  /** Going down the path, `..` never outnumbers the names before it. */
  predicate NeverAbove(parts: Path, depth: nat)
    decreases |parts|
  {
    if parts == [] then true
    else if parts[0] == [] || parts[0] == DOT then NeverAbove(parts[1..], depth)
    else if parts[0] == DOTDOT then depth > 0 && NeverAbove(parts[1..], depth - 1)
    else NeverAbove(parts[1..], depth + 1)
  }

  lemma {:induction false} StaysBelow(parts: Path, dest: Path, done: Path)
    requires dest <= done && NeverAbove(parts, |done| - |dest|)
    ensures dest <= Resolve(parts, done)
    decreases |parts|
  {
    if parts != [] {
      if parts[0] == [] || parts[0] == DOT {
        StaysBelow(parts[1..], dest, done);
      } else if parts[0] == DOTDOT {
        StaysBelow(parts[1..], dest, Closed(done));
      } else {
        StaysBelow(parts[1..], dest, done + [parts[0]]);
      }
    }
  }

  /** A name that is not on the way can not come back. */
  lemma {:induction false} NeverBack(parts: Path, done: Path, name: Bytes)
    requires name !in parts && name !in done
    ensures name !in Resolve(parts, done)
    decreases |parts|
  {
    if parts != [] {
      if parts[0] == [] || parts[0] == DOT {
        NeverBack(parts[1..], done, name);
      } else if parts[0] == DOTDOT {
        NeverBack(parts[1..], if done == [] then [] else Closed(done), name);
      } else {
        assert name !in done + [parts[0]];
        NeverBack(parts[1..], done + [parts[0]], name);
      }
    }
  }

  lemma {:induction false} LeavesAName(parts: Path, name: Bytes, below: Path)
    requires name !in parts && name !in below && !NeverAbove(parts, |below|)
    ensures name !in Resolve(parts, [name] + below)
    decreases |parts|
  {
    var done := [name] + below;
    if parts[0] == [] || parts[0] == DOT {
      LeavesAName(parts[1..], name, below);
    } else if parts[0] != DOTDOT {
      assert done + [parts[0]] == [name] + (below + [parts[0]]);
      LeavesAName(parts[1..], name, below + [parts[0]]);
    } else if below == [] {
      assert Closed(done) == [];
      NeverBack(parts[1..], [], name);
    } else {
      assert Closed(done) == [name] + Closed(below);
      LeavesAName(parts[1..], name, Closed(below));
    }
  }

  /** The components of the stripped member. */
  lemma StrippedParts(member: Bytes)
    requires Stripped(member) != []
    ensures SplitOn(Stripped(member), SLASH) == SplitOn(member, SLASH)[1..]
  {
    SplitThenJoin(member, SLASH);
    var parts := SplitOn(member, SLASH)[1..];
    assert Free(parts, SLASH);
    JoinThenSplit(parts, SLASH);
  }

  /** Some component is longer than all of these. */
  function LongName(parts: Path): (name: Bytes)
    ensures name !in parts && forall p :: p in parts ==> |p| < |name|
  {
    if parts == [] then [120]
    else
      var rest := LongName(parts[1..]);
      var name := if |rest| > |parts[0]| then rest else parts[0] + [120];
      assert forall p :: p in parts ==> p == parts[0] || p in parts[1..];
      name
  }

  /**
   A member stays in the destination, whatever that is, exactly when `..` never outnumbers the
   names after the first component.
  */
  lemma MemberStaysInsideExactly(member: Bytes)
    requires Stripped(member) != []
    ensures (forall dest: Path :: dest <= Target(dest, member)) <==> NeverAbove(SplitOn(member, SLASH)[1..], 0)
  {
    hide SplitOn, Stripped, Resolve, NeverAbove;
    StrippedParts(member);
    var parts := SplitOn(member, SLASH)[1..];
    if NeverAbove(parts, 0) {
      forall dest: Path
        ensures dest <= Target(dest, member)
      {
        StaysBelow(parts, dest, dest);
      }
    } else {
      var name := LongName(parts);
      LeavesAName(parts, name, []);
      assert [name] + [] == [name];
      assert name in [name] && name !in Target([name], member);
      assert !([name] <= Target([name], member));
    }
  }

  /** The safety test looks at the whole member, the destination at the stripped one. */
  lemma AcceptedMemberCanLeave(dest: Path)
    requires dest != [] && Last(dest) != [120]
    ensures var member: Bytes := [97, 47, 46, 46, 47, 120];
            !UnsafeMember(member) && Target(dest, member) == Closed(dest) + [[120]] && !(dest <= Target(dest, member))
  {
    var member: Bytes := [97, 47, 46, 46, 47, 120];
    LeavingSplits();
    hide SplitOn, Join, Normalize, Resolve, Stripped;
    NormalizesToX([97], [120]);
    LeavingStripped();
    StrippedParts(member);
    UpAndX(dest, [120]);
  }

  lemma LeavingSplits()
    ensures SplitOn([97, 47, 46, 46, 47, 120], SLASH) == [[97], DOTDOT, [120]]
    ensures SplitOn([97, 47, 46, 46, 47, 120], SLASH)[1..] == [DOTDOT, [120]]
  {
    var member: Bytes := [97, 47, 46, 46, 47, 120];
    var a: Bytes := [97];
    var x: Bytes := [120];
    assert member == a + [SLASH] + (DOTDOT + [SLASH] + x);
    SplitAtSeparator(a, DOTDOT + [SLASH] + x, SLASH);
    SplitAtSeparator(DOTDOT, x, SLASH);
    SplitFree(a, SLASH);
    SplitFree(DOTDOT, SLASH);
    SplitFree(x, SLASH);
  }

  lemma LeavingStripped()
    ensures Stripped([97, 47, 46, 46, 47, 120]) != []
  {
    hide SplitOn, Join;
    LeavingSplits();
    JoinIsLong([120]);
  }

  lemma NormalizesToX(a: Bytes, x: Bytes)
    requires a == [97] && x == [120]
    ensures Normalize([a, DOTDOT, x], []) == [x]
  {
    assert [a, DOTDOT, x][1..] == [DOTDOT, x] && [DOTDOT, x][1..] == [x];
    var none: Path := [];
    assert [x][1..] == none && Closed(none + [a]) == none;
    assert Normalize([x], none) == [x];
    assert Normalize([DOTDOT, x], none + [a]) == [x];
  }

  lemma UpAndX(dest: Path, x: Bytes)
    requires dest != [] && x == [120] && Last(dest) != x
    ensures Resolve([DOTDOT, x], dest) == Closed(dest) + [x] && !(dest <= Closed(dest) + [x])
  {
    var none: Path := [];
    var one: Path := [x];
    assert [DOTDOT, x][1..] == one && one[1..] == none;
    assert Resolve(one, Closed(dest)) == Resolve(none, Closed(dest) + [x]) == Closed(dest) + [x];
    assert Resolve([DOTDOT, x], dest) == Resolve(one, Closed(dest));
    var target := Closed(dest) + [x];
    assert target[|dest| - 1] == x;
  }

  lemma JoinIsLong(x: Bytes)
    ensures Join([DOTDOT, x], SLASH) != []
  {}

  // ----- The loop -----

  const EMPTY := Tree(map[], {})

  /**
   `extractGzipTar` after gunzip: makes the destination and runs the offset-driven
   loop. The source keeps no set of offsets; where it would go round for ever, this
   returns nothing.
  */
  method ExtractTar(content: Bytes, dest: Path, disk: Tree) returns (outcome: Option<Result<Tree, Fault>>)
    requires Consistent(disk)
    ensures match MakeDirs(disk, dest)
            case Err(e) => outcome == Some(Err(e))
            case Ok(start) =>
              && (outcome.Some? ==> Ends(dest, content, start, outcome.value))
              && (outcome.None? ==> Endless(dest, content, start))
  {
    hide Place, MemberName, HeaderType, HeaderSize, HeaderAt, DataAt, Padded, AllZero, Window, Subarray;
    var made := MakeDirs(disk, dest);
    if made.Err? {
      return Some(made);
    }
    ghost var start := made.value;
    var tree := made.value;
    var offset := 0;
    var seen: set<int> := {};
    ghost var n := 0;
    while offset + BLOCK <= |content|
      invariant Read(dest, content, 0, start, n) == At(offset, tree)
      invariant seen == Offsets(dest, content, start, n)
      decreases Window(|content|) - seen
    {
      var header := HeaderAt(content, offset);
      if AllZero(header) {
        assert Read(dest, content, 0, start, n + 1) == Over(Ok(tree));
        return Some(Ok(tree));
      }
      if offset in seen {
        RepeatIsEndless(dest, content, start, n);
        return None;
      }
      ReadableIsInWindow(content, offset);
      var size := HeaderSize(header);
      var placed := Place(dest, tree, MemberName(header), HeaderType(header), DataAt(content, offset, size));
      if placed.Err? {
        assert Read(dest, content, 0, start, n + 1) == Over(placed);
        return Some(placed);
      }
      if size.None? {
        assert Read(dest, content, 0, start, n + 1) == Over(placed);
        return Some(placed);
      }
      seen := seen + {offset};
      tree := placed.value;
      offset := offset + BLOCK + Padded(size.value);
      n := n + 1;
    }
    assert Read(dest, content, 0, start, n + 1) == Over(Ok(tree));
    outcome := Some(Ok(tree));
  }
}
