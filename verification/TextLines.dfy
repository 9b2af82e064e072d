/** Text as UTF-16 code units, and its lines: what the two incremental readers have in common. */
module TextLines {
  import opened Sequences

  type Unit = x: int | 0 <= x < 0x10000
  type Text = seq<Unit>

  const NEWLINE: Unit := 10
  const RETURN: Unit := 13

  /** White space of `trim` and of `\s`. */
  predicate IsSpace(n: Unit) {
    || 9 <= n <= 13 || n == 0x20 || n == 0xA0 || n == 0x1680 || 0x2000 <= n <= 0x200A
    || n == 0x2028 || n == 0x2029 || n == 0x202F || n == 0x205F || n == 0x3000 || n == 0xFEFF
  }

  /** The white space and line ends of ECMAScript, by code unit. */
  lemma SpacesAre(u: Unit)
    ensures IsSpace(u) <==>
            u in {9, 10, 11, 12, 13, 32, 160, 5760, 8232, 8233, 8239, 8287, 12288, 65279} || 8192 <= u <= 8202
  {}

  /** Drops the one carriage return that belongs to the line break. */
  function StripReturn(line: Text): Text {
    if line != [] && Last(line) == RETURN then Closed(line) else line
  }

  function StripAll(lines: seq<Text>): (stripped: seq<Text>)
    ensures |stripped| == |lines|
  {
    seq(|lines|, i requires 0 <= i < |lines| => StripReturn(lines[i]))
  }

  /** The raw text after the last newline. */
  function Open(text: Text): Text {
    Last(SplitOn(text, NEWLINE))
  }

  /** The raw complete lines. */
  function RawLines(text: Text): seq<Text> {
    Closed(SplitOn(text, NEWLINE))
  }

  /** All complete lines of a text: `split(/\r?\n/)` without its last part. */
  function CompleteLines(text: Text): seq<Text> {
    StripAll(RawLines(text))
  }

  lemma StripAllAppend(a: seq<Text>, b: seq<Text>)
    ensures StripAll(a + b) == StripAll(a) + StripAll(b)
  {
  }

  /** Lines of a text that grew: the open line is continued. */
  lemma LinesGrow(text: Text, more: Text)
    ensures RawLines(text + more) == RawLines(text) + RawLines(Open(text) + more)
    ensures CompleteLines(text + more) == CompleteLines(text) + CompleteLines(Open(text) + more)
    ensures Open(text + more) == Open(Open(text) + more)
  {
    var p, q := SplitOn(text, NEWLINE), SplitOn(Open(text) + more, NEWLINE);
    SplitGrown(text, more, NEWLINE);
    assert Closed(Closed(p) + q) == Closed(p) + Closed(q);
    StripAllAppend(RawLines(text), RawLines(Open(text) + more));
  }

  /** The first line ends at the first line feed, without one carriage return before it. */
  lemma FirstLine(line: Text, rest: Text)
    requires 10 !in line
    ensures CompleteLines(line + [10] + rest)
         == [if line != [] && Last(line) == 13 then Closed(line) else line] + CompleteLines(rest)
    ensures Open(line + [10] + rest) == Open(rest)
    ensures CompleteLines(line) == [] && Open(line) == line
  {
    SplitAtSeparator(line, rest, 10);
    SplitFree(line, 10);
    var parts := SplitOn(rest, 10);
    hide SplitOn;
    assert Closed([line] + parts) == [line] + Closed(parts) && Last([line] + parts) == Last(parts);
    StripAllAppend([line], Closed(parts));
  }

  lemma OpenHoldsNoNewline(text: Text)
    ensures NEWLINE !in Open(text)
    ensures SplitOn(Open(text), NEWLINE) == [Open(text)]
  {
    SplitThenJoin(text, NEWLINE);
    SplitFree(Open(text), NEWLINE);
  }
}
