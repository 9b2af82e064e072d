/** The bounded reader of the runtime's stderr: it never keeps more than 4096 code units of an open line. */
module StderrReader {
  import opened Sequences
  import opened TextLines

  const LIMIT := 4096

  /** `kept` lists the lines that pass the length test, in order. */
  datatype State = State(pending: Text, discardLine: bool, kept: seq<Text>)

  const INITIAL := State([], false, [])

  function Short(lines: seq<Text>): seq<Text> {
    if lines == [] then []
    else Short(Closed(lines)) + if |Last(lines)| <= LIMIT then [Last(lines)] else []
  }

  /** Position of the first newline, or the length. */
  function FindNewline(text: Text): (i: nat)
    ensures i <= |text|
    ensures i < |text| ==> text[i] == NEWLINE
    ensures NEWLINE !in text[..i]
  {
    if text == [] || text[0] == NEWLINE then 0
    else
      var i := FindNewline(text[1..]) + 1;
      assert text[..i] == [text[0]] + text[1..][..i - 1];
      i
  }

  /** The state after text arrived while no line is being discarded. */
  function Accept(s: State, text: Text): State {
    var all := s.pending + text;
    var open := Open(all);
    var kept := s.kept + Short(CompleteLines(all));
    if |open| > LIMIT then State([], true, kept) else State(open, false, kept)
  }

  /** The state after one chunk. */
  function Received(s: State, chunk: Text): State {
    if s.discardLine then
      var newline := FindNewline(chunk);
      if newline == |chunk| then s
      else Accept(s.(discardLine := false), chunk[newline + 1..])
    else Accept(s, chunk)
  }

  // ----- The handler -----

  /** The line opens like structured output: a bracket, a brace or a quote after white space. */
  predicate Structured(line: Text) {
    line != [] && (line[0] == 0x5B || line[0] == 0x7B || line[0] == 0x22 || line[0] == 0x7D
                   || (IsSpace(line[0]) && Structured(line[1..])))
  }

  /** What the log shows for the kept lines. */
  function Reported(lines: seq<Text>, sanitize: Text -> Text): seq<Text> {
    if lines == [] then []
    else
      var line := Last(lines);
      Reported(Closed(lines), sanitize)
      + if !Structured(line) && sanitize(line) != [] then [sanitize(line)] else []
  }

  /** Structured lines have white space and then one of `[`, `{`, a double quote and `}`. */
  lemma {:induction false} StructuredExactly(line: Text)
    ensures Structured(line) <==> exists i :: OpensAt(line, i)
  {
    if line != [] {
      StructuredExactly(line[1..]);
      forall i
        ensures OpensAt(line, i) <==>
                if i == 0 then line[0] in {91, 123, 34, 125} else IsSpace(line[0]) && OpensAt(line[1..], i - 1)
      {
        OpensLater(line, i);
      }
      if line[0] in {91, 123, 34, 125} {
        assert OpensAt(line, 0);
      } else if Structured(line) {
        var i :| OpensAt(line[1..], i);
        assert OpensAt(line, i + 1);
      }
    }
  }

  predicate OpensAt(line: Text, i: int) {
    0 <= i < |line| && line[i] in {91, 123, 34, 125} && forall j :: 0 <= j < i ==> IsSpace(line[j])
  }

  lemma OpensLater(line: Text, i: int)
    requires line != []
    ensures OpensAt(line, i) <==>
            if i == 0 then line[0] in {91, 123, 34, 125} else IsSpace(line[0]) && OpensAt(line[1..], i - 1)
  {
    hide IsSpace;
    assert forall j :: 0 <= j < |line| - 1 ==> line[1..][j] == line[j + 1];
    assert forall j :: 0 < j < |line| ==> line[j] == line[1..][j - 1];
  }

  /** The report is made line by line: a line that is not structured shows up as its sanitized form, if any. */
  lemma {:induction false} ReportedByLine(a: seq<Text>, line: Text, b: seq<Text>, sanitize: Text -> Text)
    ensures Reported(a + b, sanitize) == Reported(a, sanitize) + Reported(b, sanitize)
    ensures Reported([line], sanitize) == if Structured(line) || sanitize(line) == [] then [] else [sanitize(line)]
  {
    hide Structured;
    assert Closed([line]) == [];
    if b == [] {
      assert a + b == a;
    } else {
      ReportedByLine(a, line, Closed(b), sanitize);
      assert Closed(a + b) == a + Closed(b);
    }
  }

  class OutputHandler {
    const sanitize: Text -> Text
    var pending: Text
    var discardLine: bool
    var reported: seq<Text>
    ghost var kept: seq<Text>

    ghost function Now(): State
      reads this
    {
      State(pending, discardLine, kept)
    }

    ghost predicate Valid()
      reads this
    {
      reported == Reported(kept, sanitize)
    }

    constructor (sanitize: Text -> Text)
      ensures Valid() && Now() == INITIAL && this.sanitize == sanitize
    {
      this.sanitize := sanitize;
      pending, discardLine, reported, kept := [], false, [], [];
    }

    method OnOutput(isStderr: bool, chunk: Text)
      requires Valid()
      modifies this
      ensures Valid()
      ensures Now() == if isStderr then Received(old(Now()), chunk) else old(Now())
    {
      hide FindNewline, CompleteLines, Open, Short, Reported;
      if !isStderr {
        return;
      }
      var text := chunk;
      if discardLine {
        var newline := FindNewline(text);
        if newline == |text| {
          return;
        }
        text := text[newline + 1..];
        discardLine := false;
      }
      var all := pending + text;
      var lines := CompleteLines(all);
      pending := Open(all);
      if |pending| > LIMIT {
        pending := [];
        discardLine := true;
      }
      ReportLines(lines);
    }

    method ReportLines(lines: seq<Text>)
      requires Valid()
      modifies this`reported, this`kept
      ensures Valid() && kept == old(kept) + Short(lines)
    {
      var i := 0;
      while i < |lines|
        invariant 0 <= i <= |lines|
        invariant Valid() && kept == old(kept) + Short(lines[..i])
      {
        var line := lines[i];
        assert Closed(lines[..i + 1]) == lines[..i];
        i := i + 1;
        if |line| <= LIMIT {
          ghost var before := kept;
          kept := kept + [line];
          assert Closed(kept) == before;
          if !Structured(line) {
            var message := sanitize(line);
            if message != [] {
              reported := reported + [message];
            }
          }
        }
      }
      assert lines[..|lines|] == lines;
    }
  }

  // ----- Any chunking -----

  function AllText(chunks: seq<Text>): Text {
    if chunks == [] then [] else AllText(Closed(chunks)) + Last(chunks)
  }

  /** The state after all chunks. */
  function Run(chunks: seq<Text>): State {
    if chunks == [] then INITIAL else Received(Run(Closed(chunks)), Last(chunks))
  }

  /**
   A chunk boundary that costs a line: it falls between the carriage return and
   the newline after a line of exactly 4096 code units.
  */
  predicate Hazard(before: Text, chunk: Text) {
    && chunk != [] && chunk[0] == NEWLINE
    && |Open(before)| == LIMIT + 1 && Last(Open(before)) == RETURN
  }

  function Hazards(chunks: seq<Text>): nat {
    if chunks == [] then 0
    else Hazards(Closed(chunks)) + if Hazard(AllText(Closed(chunks)), Last(chunks)) then 1 else 0
  }

  /** The reader's memory is determined by the text so far. */
  ghost predicate InStep(s: State, text: Text) {
    if s.discardLine then s.pending == [] && |Open(text)| > LIMIT
    else s.pending == Open(text) && |Open(text)| <= LIMIT
  }

  lemma {:induction false} ShortAppend(a: seq<Text>, b: seq<Text>)
    ensures Short(a + b) == Short(a) + Short(b)
  {
    if b == [] {
      assert a + b == a;
    } else {
      ShortAppend(a, Closed(b));
      assert Closed(a + b) == a + Closed(b);
    }
  }

  /** A line break closes the open line. */
  lemma FirstLineCloses(open: Text, chunk: Text, i: nat)
    requires NEWLINE !in open && i < |chunk| && chunk[i] == NEWLINE && NEWLINE !in chunk[..i]
    ensures var first := open + chunk[..i];
            && CompleteLines(open + chunk) == [StripReturn(first)] + CompleteLines(chunk[i + 1..])
            && Open(open + chunk) == Open(chunk[i + 1..])
  {
    var first, rest := open + chunk[..i], chunk[i + 1..];
    assert open + chunk == first + [NEWLINE] + rest;
    SplitAtSeparator(first, rest, NEWLINE);
    SplitFree(first, NEWLINE);
    var q := SplitOn(rest, NEWLINE);
    assert Closed([first] + q) == [first] + Closed(q);
    StripAllAppend([first], Closed(q));
  }

  /** While a line is discarded, a chunk loses a short line exactly at a hazard. */
  lemma DiscardStep(s: State, before: Text, chunk: Text)
    requires s.discardLine && InStep(s, before)
    ensures InStep(Received(s, chunk), before + chunk)
    ensures var s' := Received(s, chunk);
            var all := Short(CompleteLines(Open(before) + chunk));
            if Hazard(before, chunk) then
              exists more :: s'.kept == s.kept + more && all == [StripReturn(Open(before))] + more
            else s'.kept == s.kept + all
  {
    var i := FindNewline(chunk);
    LinesGrow(before, chunk);
    OpenHoldsNoNewline(before);
    if i == |chunk| {
      assert chunk[..i] == chunk;
      SplitFree(Open(before) + chunk, NEWLINE);
      assert RawLines(Open(before) + chunk) == [];
      assert s.kept + [] == s.kept;
    } else {
      DiscardedLineEnds(s, before, chunk, i);
    }
  }

  lemma {:induction false} ReceivedAfterNewline(s: State, chunk: Text, i: nat)
    requires s.discardLine && i == FindNewline(chunk) < |chunk|
    ensures Received(s, chunk) == Accept(s.(discardLine := false), chunk[i + 1..])
  {
    hide Accept, FindNewline;
  }

  lemma {:induction false} DiscardedLineEnds(s: State, before: Text, chunk: Text, i: nat)
    requires s.discardLine && InStep(s, before) && i == FindNewline(chunk) < |chunk|
    requires NEWLINE !in Open(before) && Open(before + chunk) == Open(Open(before) + chunk)
    ensures InStep(Received(s, chunk), before + chunk)
    ensures var s' := Received(s, chunk);
            var all := Short(CompleteLines(Open(before) + chunk));
            if Hazard(before, chunk) then
              exists more :: s'.kept == s.kept + more && all == [StripReturn(Open(before))] + more
            else s'.kept == s.kept + all
  {
    hide SplitOn, Short, CompleteLines, Received;
    var open, rest := Open(before), chunk[i + 1..];
    var raw := open + chunk[..i];
    var first := StripReturn(raw);
    var more := Short(CompleteLines(rest));
    FirstLineCloses(open, chunk, i);
    ShortAppend([first], CompleteLines(rest));
    ShortOne(first);
    assert s.pending + rest == rest;
    ReceivedAfterNewline(s, chunk, i);
    if Hazard(before, chunk) {
      assert i == 0 && raw == open;
    } else {
      LongLineStaysLong(before, chunk, i);
      assert [] + more == more;
    }
  }

  lemma LongLineStaysLong(before: Text, chunk: Text, i: nat)
    requires |Open(before)| > LIMIT && i == FindNewline(chunk) < |chunk| && !Hazard(before, chunk)
    ensures |StripReturn(Open(before) + chunk[..i])| > LIMIT
  {
    if i == 0 {
      assert Open(before) + chunk[..0] == Open(before);
    }
  }

  lemma ShortOne(line: Text)
    ensures Short([line]) == if |line| <= 4096 then [line] else []
  {
    assert Closed([line]) == [];
  }

  lemma AcceptStep(s: State, before: Text, chunk: Text)
    requires !s.discardLine && InStep(s, before)
    ensures var s' := Received(s, chunk);
            && InStep(s', before + chunk)
            && s'.kept == s.kept + Short(CompleteLines(Open(before) + chunk))
            && !Hazard(before, chunk)
  {
    LinesGrow(before, chunk);
  }

  /** After any chunks: one short line is missing for every hazard, and none without hazards. */
  lemma {:induction false} RunMeaning(chunks: seq<Text>)
    ensures InStep(Run(chunks), AllText(chunks))
    ensures |Run(chunks).kept| + Hazards(chunks) == |Short(CompleteLines(AllText(chunks)))|
    ensures Hazards(chunks) == 0 ==> Run(chunks).kept == Short(CompleteLines(AllText(chunks)))
  {
    if chunks == [] {
      assert SplitOn(AllText(chunks), NEWLINE) == [[]];
    } else {
      var init, chunk := Closed(chunks), Last(chunks);
      var s, before := Run(init), AllText(init);
      RunMeaning(init);
      LinesGrow(before, chunk);
      ShortAppend(CompleteLines(before), CompleteLines(Open(before) + chunk));
      if s.discardLine {
        DiscardStep(s, before, chunk);
      } else {
        AcceptStep(s, before, chunk);
      }
    }
  }

  /** The reader keeps exactly the short complete lines if and only if no chunk boundary is a hazard. */
  lemma {:induction false} KeepsShortLinesExactly(chunks: seq<Text>)
    ensures Run(chunks).kept == Short(CompleteLines(AllText(chunks))) <==> Hazards(chunks) == 0
    ensures |Run(chunks).pending| <= 4096
  {
    RunMeaning(chunks);
  }

  /** Without carriage returns no boundary is a hazard: any chunking gives the same lines. */
  lemma {:induction false} LineFeedsAreSafe(chunks: seq<Text>)
    requires RETURN !in AllText(chunks)
    ensures Hazards(chunks) == 0
    ensures Run(chunks).kept == Short(CompleteLines(AllText(chunks)))
  {
    NoReturnsNoHazards(chunks);
    RunMeaning(chunks);
  }

  lemma {:induction false} NoReturnsNoHazards(chunks: seq<Text>)
    requires RETURN !in AllText(chunks)
    ensures Hazards(chunks) == 0
  {
    if chunks != [] {
      var before := AllText(Closed(chunks));
      NoReturnsNoHazards(Closed(chunks));
      OpenKeepsElements(before, RETURN);
    }
  }

  lemma {:induction false} OpenKeepsElements(text: Text, u: Unit)
    requires u !in text
    ensures u !in Open(text)
  {
    if text != [] {
      OpenKeepsElements(text[1..], u);
      var rest := SplitOn(text[1..], NEWLINE);
      assert Open(text) == if text[0] != NEWLINE && |rest| == 1 then [text[0]] + rest[0] else Last(rest);
    }
  }

  /** A line of 4096 code units survives in one chunk, and is lost when the chunk ends after its carriage return. */
  lemma ReturnAtChunkEndLosesALine(line: Text)
    requires |line| == LIMIT && NEWLINE !in line
    ensures line in Short(CompleteLines(line + [RETURN] + [NEWLINE]))
    ensures Run([line + [RETURN], [NEWLINE]]).kept == []
  {
    hide SplitOn, Open, Hazards, Run, Short, CompleteLines, AllText, Received;
    var chunks := [line + [RETURN], [NEWLINE]];
    OneShortLine(line);
    TheHazard(line);
    RunMeaning(chunks);
  }

  lemma OneShortLine(line: Text)
    requires |line| == LIMIT && NEWLINE !in line
    ensures Short(CompleteLines(line + [RETURN] + [NEWLINE])) == [line]
  {
    hide SplitOn, Open, FindNewline;
    var whole := line + [RETURN];
    var none: Text := [];
    FirstLineCloses(whole, [NEWLINE], 0);
    assert whole + [] == whole && Closed(whole) == line && [NEWLINE][1..] == none;
    SplitFree(none, NEWLINE);
    assert CompleteLines(none) == [];
    ShortOne(line);
  }

  lemma TheHazard(line: Text)
    requires |line| == LIMIT && NEWLINE !in line
    ensures var chunks := [line + [RETURN], [NEWLINE]];
            AllText(chunks) == line + [RETURN] + [NEWLINE] && Hazards(chunks) >= 1
  {
    hide SplitOn;
    var whole := line + [RETURN];
    var chunks := [whole, [NEWLINE]];
    assert Closed(chunks) == [whole] && Closed([whole]) == [];
    assert AllText([whole]) == whole;
    SplitFree(whole, NEWLINE);
  }
}
