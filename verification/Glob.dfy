/**
 The glob engine of the capture policy: pattern components, the matcher for one
 component, and the memoized matcher for whole paths.
*/
module Glob {
  import opened Sequences

  const MAX_RULE_LENGTH := 1024
  const MAX_PATTERN_SEGMENTS := 128
  const ANY: string := "**"

  type Pattern = seq<string>
  type Path = seq<string>

  datatype PatternError = Invalid | TooManyComponents | UnsupportedGlob | WholeWorkspace

  // ----- One component -----

  /** Does the regular expression built from `pattern` match the whole of `value`? */
  predicate SegmentMatches(value: string, pattern: string)
    decreases |pattern|, |value|
  {
    if pattern == "" then value == ""
    else if pattern[0] == '*' then
      || SegmentMatches(value, pattern[1..])
      || (value != "" && value[0] != '/' && SegmentMatches(value[1..], pattern))
    else
      && value != ""
      && CharMatches(value[0], pattern[0])
      && SegmentMatches(value[1..], pattern[1..])
  }

  predicate CharMatches(c: char, p: char) {
    if p == '?' then c != '/' else c == p
  }

  /** What one pattern character stands for: a run without `/`, one character that is not `/`, or itself. */
  ghost predicate CharPiece(piece: string, p: char) {
    if p == '*' then '/' !in piece
    else if p == '?' then |piece| == 1 && piece[0] != '/'
    else piece == [p]
  }

  ghost predicate SegmentSplit(pieces: seq<string>, pattern: string, value: string) {
    && |pieces| == |pattern|
    && Flatten(pieces) == value
    && forall i :: 0 <= i < |pieces| ==> CharPiece(pieces[i], pattern[i])
  }

  /** The matcher accepts exactly the values that can be cut into one piece for each pattern character. */
  lemma SegmentMeaning(value: string, pattern: string)
    ensures SegmentMatches(value, pattern) <==> exists pieces :: SegmentSplit(pieces, pattern, value)
  {
    if SegmentMatches(value, pattern) {
      var pieces := SegmentPieces(value, pattern);
    }
    if pieces :| SegmentSplit(pieces, pattern, value) {
      SegmentComplete(pieces, pattern, value);
    }
  }

  lemma {:induction false} SegmentPieces(value: string, pattern: string) returns (pieces: seq<string>)
    requires SegmentMatches(value, pattern)
    ensures SegmentSplit(pieces, pattern, value)
    decreases |pattern|, |value|
  {
    if pattern == "" {
      pieces := [];
    } else if pattern[0] == '*' {
      if SegmentMatches(value, pattern[1..]) {
        var rest := SegmentPieces(value, pattern[1..]);
        pieces := [""] + rest;
        assert pieces[1..] == rest && Flatten(pieces) == "" + value;
      } else {
        var rest := SegmentPieces(value[1..], pattern);
        pieces := [[value[0]] + rest[0]] + rest[1..];
        assert pieces[1..] == rest[1..];
        assert Flatten(pieces) == [value[0]] + Flatten(rest);
      }
    } else {
      var rest := SegmentPieces(value[1..], pattern[1..]);
      pieces := [[value[0]]] + rest;
      assert pieces[1..] == rest && Flatten(pieces) == [value[0]] + value[1..];
    }
  }

  lemma {:induction false} SegmentComplete(pieces: seq<string>, pattern: string, value: string)
    requires SegmentSplit(pieces, pattern, value)
    ensures SegmentMatches(value, pattern)
    decreases |pattern|, |value|
  {
    if pattern != "" {
      var first, rest := pieces[0], pieces[1..];
      assert value == first + Flatten(rest);
      if pattern[0] == '*' && first != "" {
        var shorter := [first[1..]] + rest;
        assert shorter[1..] == rest;
        assert value[1..] == first[1..] + Flatten(rest);
        SegmentComplete(shorter, pattern, value[1..]);
      } else {
        assert value[|first|..] == Flatten(rest);
        SegmentComplete(rest, pattern[1..], value[|first|..]);
      }
    }
  }

  predicate Literal(pattern: string) {
    '*' !in pattern && '?' !in pattern
  }

  /** A component without wildcards matches itself only. */
  lemma {:induction false} LiteralMatchesItself(value: string, pattern: string)
    requires Literal(pattern)
    ensures SegmentMatches(value, pattern) <==> value == pattern
  {
    if pattern != "" && value != "" {
      LiteralMatchesItself(value[1..], pattern[1..]);
      assert value == [value[0]] + value[1..] && pattern == [pattern[0]] + pattern[1..];
    }
  }

  // ----- Whole paths -----

  /** The matcher without its memo. */
  predicate GlobAccepts(pattern: Pattern, value: Path)
    decreases |pattern|, |value|
  {
    if pattern == [] then value == []
    else if pattern[0] == ANY then
      || GlobAccepts(pattern[1..], value)
      || (value != [] && GlobAccepts(pattern, value[1..]))
    else
      && value != []
      && SegmentMatches(value[0], pattern[0])
      && GlobAccepts(pattern[1..], value[1..])
  }

  /** `**` stands for any number of components, every other pattern component for exactly one. */
  ghost predicate ComponentPiece(piece: Path, p: string) {
    p == ANY || (|piece| == 1 && SegmentMatches(piece[0], p))
  }

  ghost predicate GlobSplit(pieces: seq<Path>, pattern: Pattern, value: Path) {
    && |pieces| == |pattern|
    && Flatten(pieces) == value
    && forall i :: 0 <= i < |pieces| ==> ComponentPiece(pieces[i], pattern[i])
  }

  /** The declarative reading of a pattern. */
  ghost predicate Denotes(pattern: Pattern, value: Path) {
    exists pieces :: GlobSplit(pieces, pattern, value)
  }

  lemma GlobMeaning(pattern: Pattern, value: Path)
    ensures GlobAccepts(pattern, value) <==> Denotes(pattern, value)
  {
    if GlobAccepts(pattern, value) {
      var pieces := GlobPieces(pattern, value);
    }
    if pieces :| GlobSplit(pieces, pattern, value) {
      GlobComplete(pieces, pattern, value);
    }
  }

  lemma {:induction false} GlobPieces(pattern: Pattern, value: Path) returns (pieces: seq<Path>)
    requires GlobAccepts(pattern, value)
    ensures GlobSplit(pieces, pattern, value)
    decreases |pattern|, |value|
  {
    if pattern == [] {
      pieces := [];
    } else if pattern[0] == ANY {
      if GlobAccepts(pattern[1..], value) {
        var rest := GlobPieces(pattern[1..], value);
        pieces := [[]] + rest;
        assert pieces[1..] == rest && Flatten(pieces) == [] + value;
      } else {
        var rest := GlobPieces(pattern, value[1..]);
        pieces := [[value[0]] + rest[0]] + rest[1..];
        assert pieces[1..] == rest[1..];
        assert Flatten(pieces) == [value[0]] + Flatten(rest);
      }
    } else {
      var rest := GlobPieces(pattern[1..], value[1..]);
      pieces := [[value[0]]] + rest;
      assert pieces[1..] == rest && Flatten(pieces) == [value[0]] + value[1..];
    }
  }

  lemma {:induction false} GlobComplete(pieces: seq<Path>, pattern: Pattern, value: Path)
    requires GlobSplit(pieces, pattern, value)
    ensures GlobAccepts(pattern, value)
    decreases |pattern|, |value|
  {
    if pattern != [] {
      var first, rest := pieces[0], pieces[1..];
      assert value == first + Flatten(rest);
      if pattern[0] == ANY && first != [] {
        var shorter := [first[1..]] + rest;
        assert shorter[1..] == rest;
        assert value[1..] == first[1..] + Flatten(rest);
        GlobComplete(shorter, pattern, value[1..]);
      } else {
        assert value[|first|..] == Flatten(rest);
        GlobComplete(rest, pattern[1..], value[|first|..]);
      }
    }
  }

  /** A concatenated pattern accepts exactly the concatenations. */
  lemma {:induction false} GlobConcat(p: Pattern, q: Pattern, value: Path)
    ensures GlobAccepts(p + q, value)
       <==> exists k :: 0 <= k <= |value| && GlobAccepts(p, value[..k]) && GlobAccepts(q, value[k..])
  {
    hide GlobAccepts;
    if GlobAccepts(p + q, value) {
      var k := GlobCut(p, q, value);
    }
    if k :| 0 <= k <= |value| && GlobAccepts(p, value[..k]) && GlobAccepts(q, value[k..]) {
      GlobPaste(p, q, value[..k], value[k..]);
      assert value == value[..k] + value[k..];
    }
  }

  lemma {:induction false} GlobCut(p: Pattern, q: Pattern, value: Path) returns (k: nat)
    requires GlobAccepts(p + q, value)
    ensures k <= |value| && GlobAccepts(p, value[..k]) && GlobAccepts(q, value[k..])
    decreases |p|, |value|
  {
    if p == [] {
      k := 0;
      assert p + q == q;
    } else {
      assert (p + q)[1..] == p[1..] + q;
      if p[0] == ANY && GlobAccepts(p[1..] + q, value) {
        k := GlobCut(p[1..], q, value);
      } else {
        k := GlobCut(if p[0] == ANY then p else p[1..], q, value[1..]);
        assert value[1..][..k] == value[..k + 1][1..];
        assert value[1..][k..] == value[k + 1..];
        k := k + 1;
      }
    }
  }

  lemma {:induction false} GlobPaste(p: Pattern, q: Pattern, a: Path, b: Path)
    requires GlobAccepts(p, a) && GlobAccepts(q, b)
    ensures GlobAccepts(p + q, a + b)
    decreases |p|, |a|
  {
    if p == [] {
      assert p + q == q && a + b == b;
    } else {
      assert (p + q)[1..] == p[1..] + q;
      if p[0] == ANY && GlobAccepts(p[1..], a) {
        GlobPaste(p[1..], q, a, b);
      } else {
        assert (a + b)[1..] == a[1..] + b;
        GlobPaste(if p[0] == ANY then p else p[1..], q, a[1..], b);
      }
    }
  }

  lemma {:induction false} AnyAcceptsAll(value: Path)
    ensures GlobAccepts([ANY], value)
  {
    if value != [] {
      AnyAcceptsAll(value[1..]);
    }
  }

  /** A trailing `**` accepts every path below an accepted one, and nothing else. */
  lemma TrailingAny(p: Pattern, value: Path)
    ensures GlobAccepts(p + [ANY], value) <==> exists k :: 0 <= k <= |value| && GlobAccepts(p, value[..k])
  {
    GlobConcat(p, [ANY], value);
    forall k | 0 <= k <= |value|
      ensures GlobAccepts([ANY], value[k..])
    {
      AnyAcceptsAll(value[k..]);
    }
  }

  /** A leading `**` accepts every path that ends in an accepted one. */
  lemma LeadingAny(p: Pattern, value: Path)
    ensures GlobAccepts([ANY] + p, value) <==> exists k :: 0 <= k <= |value| && GlobAccepts(p, value[k..])
  {
    GlobConcat([ANY], p, value);
    forall k | 0 <= k <= |value|
      ensures GlobAccepts([ANY], value[..k])
    {
      AnyAcceptsAll(value[..k]);
    }
  }

  /** A pattern with at least one component other than `**` never accepts the empty path. */
  lemma {:induction false} NonEmptyMatch(p: Pattern, i: nat)
    requires i < |p| && p[i] != ANY
    ensures !GlobAccepts(p, [])
  {
    if i > 0 {
      NonEmptyMatch(p[1..], i - 1);
    }
  }

  // ----- The memoized matcher -----

  /** The reading of the rest of a pattern on the rest of a path. */
  lemma AcceptsAt(pattern: Pattern, value: Path, p: nat, v: nat)
    requires p <= |pattern| && v <= |value|
    ensures GlobAccepts(pattern[p..], value[v..])
         == if p == |pattern| then v == |value|
            else if pattern[p] == ANY then
              GlobAccepts(pattern[p + 1..], value[v..]) || (v < |value| && GlobAccepts(pattern[p..], value[v + 1..]))
            else
              v < |value| && SegmentMatches(value[v], pattern[p]) && GlobAccepts(pattern[p + 1..], value[v + 1..])
  {
    if p < |pattern| {
      assert pattern[p..][1..] == pattern[p + 1..];
      if v < |value| {
        assert value[v..][1..] == value[v + 1..];
      }
    }
  }

  /** One run of `globMatches`: the pattern, the path, and the memo that the recursion shares. */
  class GlobRun {
    const pattern: Pattern
    const value: Path
    var memo: map<(nat, nat), bool>

    ghost predicate Valid()
      reads this
    {
      forall key :: key in memo ==>
        && key.0 <= |pattern| && key.1 <= |value|
        && memo[key] == GlobAccepts(pattern[key.0..], value[key.1..])
    }

    constructor (pattern: Pattern, value: Path)
      ensures Valid() && this.pattern == pattern && this.value == value && memo == map[]
    {
      this.pattern, this.value, memo := pattern, value, map[];
    }

    method Match(patternIndex: nat, valueIndex: nat) returns (result: bool)
      requires Valid() && patternIndex <= |pattern| && valueIndex <= |value|
      modifies this
      ensures Valid()
      ensures result == GlobAccepts(pattern[patternIndex..], value[valueIndex..])
      ensures (patternIndex, valueIndex) in memo
      ensures forall key :: key in old(memo) ==> key in memo && memo[key] == old(memo[key])
      decreases |pattern| - patternIndex, |value| - valueIndex
    {
      hide GlobAccepts, SegmentMatches;
      var key := (patternIndex, valueIndex);
      if key in memo {
        return memo[key];
      }
      AcceptsAt(pattern, value, patternIndex, valueIndex);
      if patternIndex == |pattern| {
        result := valueIndex == |value|;
      } else if pattern[patternIndex] == ANY {
        result := Match(patternIndex + 1, valueIndex);
        if !result && valueIndex < |value| {
          result := Match(patternIndex, valueIndex + 1);
        }
      } else {
        result := valueIndex < |value| && SegmentMatches(value[valueIndex], pattern[patternIndex]);
        if result {
          result := Match(patternIndex + 1, valueIndex + 1);
        }
      }
      memo := memo[key := result];
    }
  }

  /** `globMatches`: the memoized recursion decides the declarative reading. */
  method GlobMatches(pattern: Pattern, value: Path) returns (result: bool)
    ensures result <==> Denotes(pattern, value)
  {
    var run := new GlobRun(pattern, value);
    result := run.Match(0, 0);
    assert pattern[0..] == pattern && value[0..] == value;
    GlobMeaning(pattern, value);
  }

  // ----- Accepting a pattern -----

  /** Number of UTF-16 code units, which is what the length limit counts. */
  function Utf16Length(s: string): nat {
    if s == "" then 0 else (if s[0] as int < 0x10000 then 1 else 2) + Utf16Length(s[1..])
  }

  predicate StartsWithDrive(s: string) {
    && |s| >= 3
    && ('A' <= s[0] <= 'Z' || 'a' <= s[0] <= 'z')
    && s[1] == ':' && s[2] == '/'
  }

  /** Drops every `**` that directly follows another one. */
  function Collapse(raw: Pattern): Pattern {
    if raw == [] then []
    else
      var n := |raw| - 1;
      if raw[n] != ANY || n == 0 || raw[n - 1] != ANY then Collapse(raw[..n]) + [raw[n]]
      else Collapse(raw[..n])
  }

  predicate GoodComponent(part: string) {
    part != "" && part != "." && part != ".." && '!' !in part && '[' !in part && ']' !in part
  }

  predicate HoldsAny(part: string) {
    exists i :: 0 <= i < |part| - 1 && part[i] == '*' && part[i + 1] == '*'
  }

  predicate SomeBad(parts: Pattern) {
    exists part :: part in parts && !GoodComponent(part)
  }

  predicate SomeHalf(parts: Pattern) {
    exists part :: part in parts && HoldsAny(part) && part != ANY
  }

  function PatternParts(pattern: string): Result<Pattern, PatternError> {
    if pattern == "" || pattern[0] == '/' || StartsWithDrive(pattern) || '\\' in pattern
       || Utf16Length(pattern) > MAX_RULE_LENGTH
    then Err(Invalid)
    else
      var raw := SplitOn(pattern, '/');
      if |raw| > MAX_PATTERN_SEGMENTS then Err(TooManyComponents)
      else
        var parts := Collapse(raw);
        if SomeBad(parts) then Err(Invalid)
        else if SomeHalf(parts) then Err(UnsupportedGlob)
        else if parts == [ANY] then Err(WholeWorkspace)
        else Ok(parts)
  }

  /** What every accepted pattern looks like. */
  ghost predicate WellFormed(p: Pattern) {
    && p != []
    && (forall i :: 0 <= i < |p| ==> GoodComponent(p[i]) && '/' !in p[i] && '\\' !in p[i])
    && (forall i :: 0 <= i < |p| - 1 ==> !(p[i] == ANY && p[i + 1] == ANY))
    && exists i :: 0 <= i < |p| && p[i] != ANY
  }

  lemma AcceptedIsWellFormed(pattern: string)
    requires PatternParts(pattern).Ok?
    ensures WellFormed(PatternParts(pattern).value)
    ensures var p := PatternParts(pattern).value;
            && (forall i :: 0 <= i < |p| ==> Named(p[i]) && '/' !in p[i] && '\\' !in p[i])
            && (forall i :: 0 <= i < |p| - 1 ==> p[i] != "**" || p[i + 1] != "**")
            && exists i :: 0 <= i < |p| && p[i] != "**"
  {
    var raw := SplitOn(pattern, '/');
    var p := Collapse(raw);
    SplitThenJoin(pattern, '/');
    SplitKeepsElements(pattern, '/', '\\');
    CollapseFacts(raw);
    forall i | 0 <= i < |p|
      ensures GoodComponent(p[i]) && '/' !in p[i] && '\\' !in p[i]
    {
      assert p[i] in p;
    }
    if |p| == 1 {
      assert p == [p[0]];
      assert p[0] != ANY;
    } else {
      assert !(p[0] == ANY && p[1] == ANY);
    }
  }

  lemma {:induction false} SplitKeepsElements(s: string, sep: char, c: char)
    requires c !in s
    ensures forall i :: 0 <= i < |SplitOn(s, sep)| ==> c !in SplitOn(s, sep)[i]
  {
    if s != "" {
      SplitKeepsElements(s[1..], sep, c);
    }
  }

  /** Collapsing keeps only components that were there, the last one among them, and leaves no adjacent `**`. */
  lemma {:induction false} CollapseFacts(raw: Pattern)
    ensures forall part :: part in Collapse(raw) ==> part in raw
    ensures raw != [] ==> Collapse(raw) != [] && Last(Collapse(raw)) == Last(raw)
    ensures var p := Collapse(raw); forall i :: 0 <= i < |p| - 1 ==> !(p[i] == ANY && p[i + 1] == ANY)
  {
    if raw != [] {
      CollapseFacts(raw[..|raw| - 1]);
    }
  }

  /** Only `**` is dropped. */
  lemma {:induction false} CollapseKeepsOthers(raw: Pattern, part: string)
    requires part in raw && part != "**"
    ensures part in Collapse(raw)
  {
    var n := |raw| - 1;
    assert raw == raw[..n] + [raw[n]];
    if part in raw[..n] {
      CollapseKeepsOthers(raw[..n], part);
    }
  }

  /** The length limit counts two for each character outside the basic multilingual plane. */
  lemma {:induction false} Utf16LengthCounts(a: string, c: char, b: string)
    ensures Utf16Length(a + b) == Utf16Length(a) + Utf16Length(b)
    ensures Utf16Length([c]) == if c as int > 65535 then 2 else 1
    ensures Utf16Length([]) == 0
  {
    if a == [] {
      assert a + b == b;
    } else {
      assert (a + b)[1..] == a[1..] + b;
      Utf16LengthCounts(a[1..], c, b);
    }
    assert [c][1..] == [];
  }

  /** Not empty, at most 1024 code units, no backslash, no drive. */
  predicate Portable(text: string) {
    && text != "" && Utf16Length(text) <= 1024 && '\\' !in text
    && !(|text| >= 3 && ('a' <= text[0] <= 'z' || 'A' <= text[0] <= 'Z') && text[1..3] == ":/")
  }

  /** A component that is a name and holds none of the three characters that rules do not support. */
  predicate Named(part: string) {
    part !in {"", ".", ".."} && '!' !in part && '[' !in part && ']' !in part
  }

  predicate AllNamed(parts: seq<string>) {
    forall i :: 0 <= i < |parts| ==> Named(parts[i])
  }

  /** The component holds two stars in a row and more. */
  ghost predicate HalfAny(part: string) {
    part != "**" && exists a: string, b: string :: part == a + "**" + b
  }

  ghost predicate AllWhole(parts: seq<string>) {
    forall i :: 0 <= i < |parts| ==> !HalfAny(parts[i])
  }

  /** Which patterns are accepted, said on the components as they are written, and why others are not. */
  lemma {:induction false} AcceptedExactly(pattern: string)
    ensures var (result, parts) := (PatternParts(pattern), SplitOn(pattern, '/'));
            if !Portable(pattern) then result == Err(Invalid)
            else if |parts| > 128 then result == if pattern[0] == '/' then Err(Invalid) else Err(TooManyComponents)
            else if !AllNamed(parts) then result == Err(Invalid)
            else if !AllWhole(parts) then result == Err(UnsupportedGlob)
            else if forall i :: 0 <= i < |parts| ==> parts[i] == "**" then result == Err(WholeWorkspace)
            else result.Ok?
  {
    var raw := SplitOn(pattern, '/');
    if pattern != "" && pattern[0] == '/' {
      assert raw[0] == "";
    }
    hide SplitOn, Collapse, Utf16Length, AllNamed, AllWhole, SomeBad, SomeHalf;
    OnlyAny(raw);
    SameComponents(raw);
  }

  /** Dropping repeated `**` drops no component that decides. */
  lemma SameComponents(raw: Pattern)
    ensures SomeBad(Collapse(raw)) <==> !AllNamed(raw)
    ensures SomeHalf(Collapse(raw)) <==> !AllWhole(raw)
  {
    hide Collapse, HoldsAny, HalfAny;
    CollapseFacts(raw);
    assert Named("**");
    forall i | 0 <= i < |raw|
      ensures HalfAny(raw[i]) <==> HoldsAny(raw[i]) && raw[i] != ANY
      ensures raw[i] in Collapse(raw) || raw[i] == "**"
    {
      HalfAnyIs(raw[i]);
      if raw[i] != "**" {
        CollapseKeepsOthers(raw, raw[i]);
      }
    }
    if part :| part in Collapse(raw) && !GoodComponent(part) {
      assert part in raw;
    }
    if part :| part in Collapse(raw) && HoldsAny(part) && part != ANY {
      assert part in raw;
    }
  }

  lemma HalfAnyIs(part: string)
    ensures HalfAny(part) <==> HoldsAny(part) && part != ANY
  {
    if a: string, b: string :| part == a + "**" + b {
      assert part[|a|] == '*' && part[|a| + 1] == '*';
    }
    if j :| 0 <= j < |part| - 1 && part[j] == '*' && part[j + 1] == '*' {
      assert part == part[..j] + "**" + part[j + 2..];
    }
  }

  /** What collapses to one `**` is a list of them. */
  lemma {:induction false} OnlyAny(raw: Pattern)
    requires raw != []
    ensures Collapse(raw) == ["**"] <==> forall i :: 0 <= i < |raw| ==> raw[i] == "**"
  {
    if forall i :: 0 <= i < |raw| ==> raw[i] == "**" {
      AllAny(raw);
    } else {
      var i :| 0 <= i < |raw| && raw[i] != "**";
      CollapseKeepsOthers(raw, raw[i]);
    }
  }

  lemma {:induction false} AllAny(raw: Pattern)
    requires raw != [] && forall i :: 0 <= i < |raw| ==> raw[i] == "**"
    ensures Collapse(raw) == ["**"]
  {
    if |raw| > 1 {
      AllAny(raw[..|raw| - 1]);
    }
  }

  /** Collapsing adjacent `**` changes no match. */
  lemma {:induction false} CollapseKeepsMeaning(raw: Pattern, value: Path)
    ensures GlobAccepts(Collapse(raw), value) <==> GlobAccepts(raw, value)
    decreases |raw|
  {
    if raw != [] {
      var n := |raw| - 1;
      var init, last := raw[..n], [raw[n]];
      assert raw == init + last;
      GlobConcat(init, last, value);
      forall k | 0 <= k <= |value|
        ensures GlobAccepts(Collapse(init), value[..k]) <==> GlobAccepts(init, value[..k])
      {
        CollapseKeepsMeaning(init, value[..k]);
      }
      if raw[n] != ANY || n == 0 || raw[n - 1] != ANY {
        GlobConcat(Collapse(init), last, value);
      } else {
        assert value[..|value|] == value && init == init[..n - 1] + [ANY];
        EndingInAny(init[..n - 1], value);
        AnyAcceptsAll([]);
        assert value[|value|..] == [];
      }
    }
  }

  /** Accepting a pattern never changes which paths it stands for. */
  lemma AcceptedKeepsLanguage(pattern: string, value: Path)
    requires PatternParts(pattern).Ok?
    ensures Denotes(PatternParts(pattern).value, value) <==> Denotes(SplitOn(pattern, '/'), value)
  {
    CollapseKeepsMeaning(SplitOn(pattern, '/'), value);
    GlobMeaning(PatternParts(pattern).value, value);
    GlobMeaning(SplitOn(pattern, '/'), value);
  }

  /** A pattern that ends in `**` accepts everything below what it accepts. */
  lemma EndingInAny(p: Pattern, value: Path)
    ensures forall k :: 0 <= k <= |value| && GlobAccepts(p + [ANY], value[..k]) ==> GlobAccepts(p + [ANY], value)
  {
    forall k | 0 <= k <= |value| && GlobAccepts(p + [ANY], value[..k])
      ensures GlobAccepts(p + [ANY], value)
    {
      TrailingAny(p, value[..k]);
      var j :| 0 <= j <= k && GlobAccepts(p, value[..k][..j]);
      assert value[..k][..j] == value[..j];
      TrailingAny(p, value);
    }
  }
}
