/** The log follower: polls a file, and emits each complete line once, cleaned. */
module LogFollower {
  import opened Sequences
  import opened TextLines

  const ESCAPE: Unit := 0x1B

  // ----- Cleaning one line -----

  predicate IsParameter(u: Unit) { 0x30 <= u <= 0x3F }

  predicate IsIntermediate(u: Unit) { 0x20 <= u <= 0x2F }

  predicate IsFinal(u: Unit) { 0x40 <= u <= 0x7E }

  function Skip(s: Text, i: nat, ok: Unit -> bool): (j: nat)
    requires i <= |s|
    ensures i <= j <= |s|
    decreases |s| - i
  {
    if i < |s| && ok(s[i]) then Skip(s, i + 1, ok) else i
  }

  /** Length of the escape sequence at the front, or 0. */
  function EscapeLength(s: Text): (n: nat)
    ensures n <= |s|
  {
    if |s| < 2 || s[0] != ESCAPE || s[1] != 0x5B then 0
    else
      var end := Skip(s, Skip(s, 2, (u: Unit) => IsParameter(u)), (u: Unit) => IsIntermediate(u));
      if end < |s| && IsFinal(s[end]) then end + 1 else 0
  }

  function RemoveEscapes(s: Text): Text
    decreases |s|
  {
    if s == [] then []
    else if EscapeLength(s) > 0 then RemoveEscapes(s[EscapeLength(s)..])
    else [s[0]] + RemoveEscapes(s[1..])
  }

  function TrimStart(s: Text): Text {
    if s != [] && IsSpace(s[0]) then TrimStart(s[1..]) else s
  }

  function TrimEnd(s: Text): Text {
    if s != [] && IsSpace(Last(s)) then TrimEnd(Closed(s)) else s
  }

  function CleanLogLine(line: Text): Text {
    TrimEnd(TrimStart(RemoveEscapes(line)))
  }

  /** A control sequence: escape, bracket, parameters `0` to `?`, intermediates space to `/`, a final `@` to `~`. */
  predicate IsSequence(s: Text, parameters: Text, between: Text, final: Unit) {
    && s == [27, 91] + parameters + between + [final]
    && (forall i :: 0 <= i < |parameters| ==> 48 <= parameters[i] <= 63)
    && (forall i :: 0 <= i < |between| ==> 32 <= between[i] <= 47)
    && 64 <= final <= 126
  }

  lemma {:induction false} SkipStops(s: Text, i: nat, run: Text, rest: Text, ok: Unit -> bool)
    requires i <= |s| && s[..i] + run + rest == s
    requires (forall k :: 0 <= k < |run| ==> ok(run[k])) && (rest != [] ==> !ok(rest[0]))
    ensures Skip(s, i, ok) == i + |run|
    decreases |run|
  {
    assert s[i..] == run + rest;
    if run == [] {
      assert rest != [] ==> s[i] == s[i..][0] == rest[0];
    } else {
      assert s[i] == s[i..][0] == run[0];
      assert s[..i + 1] == s[..i] + [run[0]];
      assert run == [run[0]] + run[1..];
      SkipStops(s, i + 1, run[1..], rest, ok);
    }
  }

  /** The length of a control sequence at the front of a text. */
  lemma SequenceLength(sequence: Text, parameters: Text, between: Text, final: Unit, rest: Text)
    requires IsSequence(sequence, parameters, between, final)
    ensures EscapeLength(sequence + rest) == |sequence|
  {
    var s := sequence + rest;
    var (n, m) := (2 + |parameters|, 2 + |parameters| + |between|);
    assert s[..2] == [27, 91] && s == [27, 91] + parameters + (between + [final] + rest);
    SkipStops(s, 2, parameters, between + [final] + rest, (u: Unit) => IsParameter(u));
    assert s[..n] == [27, 91] + parameters && s == s[..n] + between + ([final] + rest);
    SkipStops(s, n, between, [final] + rest, (u: Unit) => IsIntermediate(u));
    assert s[m] == final;
  }

  /** A text has a control sequence at its front only when it starts with one. */
  lemma NoSequence(s: Text)
    requires EscapeLength(s) > 0
    ensures exists parameters, between, final :: IsSequence(s[..EscapeLength(s)], parameters, between, final)
  {
    var n := Skip(s, 2, (u: Unit) => IsParameter(u));
    var m := Skip(s, n, (u: Unit) => IsIntermediate(u));
    SkipAll(s, 2, (u: Unit) => IsParameter(u));
    SkipAll(s, n, (u: Unit) => IsIntermediate(u));
    assert s[..m + 1] == [27, 91] + s[2..n] + s[n..m] + [s[m]];
    assert IsSequence(s[..m + 1], s[2..n], s[n..m], s[m]);
  }

  lemma {:induction false} SkipAll(s: Text, i: nat, ok: Unit -> bool)
    requires i <= |s|
    ensures forall k :: i <= k < Skip(s, i, ok) ==> ok(s[k])
    decreases |s| - i
  {
    if i < |s| && ok(s[i]) {
      SkipAll(s, i + 1, ok);
    }
  }

  /** Control sequences go, wherever they are; every unit that starts none stays. */
  lemma EscapesGo(sequence: Text, parameters: Text, between: Text, final: Unit, u: Unit, rest: Text)
    requires IsSequence(sequence, parameters, between, final)
    ensures RemoveEscapes(sequence + rest) == RemoveEscapes(rest)
    ensures EscapeLength([u] + rest) == 0 ==> RemoveEscapes([u] + rest) == [u] + RemoveEscapes(rest)
    ensures RemoveEscapes([]) == []
  {
    SequenceLength(sequence, parameters, between, final, rest);
    assert (sequence + rest)[|sequence|..] == rest && ([u] + rest)[1..] == rest;
    hide EscapeLength;
  }

  predicate Blank(text: Text) {
    forall i :: 0 <= i < |text| ==> IsSpace(text[i])
  }

  lemma {:induction false} TrimStartDrops(a: Text, s: Text)
    requires Blank(a) && (s != [] ==> !IsSpace(s[0]))
    ensures TrimStart(a + s) == s
  {
    if a == [] {
      assert a + s == s;
    } else {
      assert (a + s)[1..] == a[1..] + s;
      TrimStartDrops(a[1..], s);
    }
  }

  lemma {:induction false} TrimEndDrops(s: Text, b: Text)
    requires Blank(b) && (s != [] ==> !IsSpace(Last(s)))
    ensures TrimEnd(s + b) == s
  {
    if b == [] {
      assert s + b == s;
    } else {
      assert Closed(s + b) == s + Closed(b) && Last(s + b) == Last(b);
      TrimEndDrops(s, Closed(b));
    }
  }

  /** What is left of a line without its control sequences is trimmed on both sides. */
  lemma CleanedIs(line: Text, a: Text, body: Text, b: Text)
    requires RemoveEscapes(line) == a + body + b && Blank(a) && Blank(b)
    requires body != [] ==> !IsSpace(body[0]) && !IsSpace(Last(body))
    ensures CleanLogLine(line) == body
  {
    if body == [] {
      assert a + body + b == a + b && (a + b) + [] == a + b;
      TrimStartDrops(a + b, []);
    } else {
      assert a + body + b == a + (body + b);
      TrimStartDrops(a, body + b);
      TrimEndDrops(body, b);
    }
  }

  /** The lines that reach the listener. */
  function Emitted(lines: seq<Text>): seq<Text> {
    if lines == [] then []
    else
      var cleaned := CleanLogLine(Last(lines));
      Emitted(Closed(lines)) + if cleaned != [] then [cleaned] else []
  }

  lemma {:induction false} EmittedAppend(a: seq<Text>, b: seq<Text>)
    ensures Emitted(a + b) == Emitted(a) + Emitted(b)
  {
    if b == [] {
      assert a + b == a;
    } else {
      EmittedAppend(a, Closed(b));
      assert Closed(a + b) == a + Closed(b);
    }
  }

  /** A line that is not empty once cleaned reaches the listener; every other line does not. */
  lemma OneEmitted(line: Text)
    ensures Emitted([line]) == if CleanLogLine(line) == [] then [] else [CleanLogLine(line)]
  {
    hide CleanLogLine;
    assert Closed([line]) == [];
  }

  // ----- Following -----

  /** One attempt to read the file. */
  datatype Reading = Missing | Failed(message: Text) | Content(text: Text)

  datatype State = State(previous: Text, pending: Text, emitted: seq<Text>)

  /** The state after one poll. */
  function Polled(s: State, reading: Reading): State {
    match reading
    case Missing => s
    case Failed(message) => s.(emitted := s.emitted + [message])
    case Content(current) =>
      if current == s.previous then s
      else
        var added := if s.previous <= current then current[|s.previous|..] else current;
        var text := s.pending + added;
        State(current, Open(text), s.emitted + Emitted(CompleteLines(text)))
  }

  class Follower {
    var previous: Text
    var pending: Text
    var emitted: seq<Text>

    function Now(): State
      reads this
    {
      State(previous, pending, emitted)
    }

    constructor (first: Reading)
      requires !first.Failed?
      ensures Now() == State(if first.Content? then first.text else [], [], [])
    {
      previous := if first.Content? then first.text else [];
      pending, emitted := [], [];
    }

    method Poll(reading: Reading)
      modifies this
      ensures Now() == Polled(old(Now()), reading)
      ensures reading.Missing? ==> unchanged(this)
      ensures reading.Failed? ==> emitted == old(emitted) + [reading.message] && unchanged(`previous, `pending)
      ensures reading.Content? && !(old(previous) <= reading.text) ==>
                && previous == reading.text && pending == Open(old(pending) + reading.text)
                && emitted == old(emitted) + Emitted(CompleteLines(old(pending) + reading.text))
    {
      hide Emitted, CleanLogLine, SplitOn;
      if reading.Missing? {
        return;
      }
      if reading.Failed? {
        emitted := emitted + [reading.message];
        return;
      }
      var current := reading.text;
      if current == previous {
        return;
      }
      var added := if previous <= current then current[|previous|..] else current;
      previous := current;
      var lines := CompleteLines(pending + added);
      pending := Open(pending + added);
      var emits := EmitAll(lines);
      emitted := emitted + emits;
    }
  }

  /** The loop that hands cleaned, non-empty lines to the listener. */
  method EmitAll(lines: seq<Text>) returns (emits: seq<Text>)
    ensures emits == Emitted(lines)
  {
    emits := [];
    var i := 0;
    while i < |lines|
      invariant 0 <= i <= |lines|
      invariant emits == Emitted(lines[..i])
    {
      var cleaned := CleanLogLine(lines[i]);
      if cleaned != [] {
        emits := emits + [cleaned];
      }
      assert Closed(lines[..i + 1]) == lines[..i];
      i := i + 1;
    }
    assert lines[..|lines|] == lines;
  }

  /** The state after a list of polls. */
  function Follow(s: State, readings: seq<Reading>): State
    decreases |readings|
  {
    if readings == [] then s else Follow(Polled(s, readings[0]), readings[1..])
  }

  /** Each reading fails, or finds the file absent or grown, and the last content read is `last`. */
  ghost predicate Grows(from: Text, readings: seq<Reading>, last: Text)
    decreases |readings|
  {
    if readings == [] then from == last
    else
      match readings[0]
      case Missing => Grows(from, readings[1..], last)
      case Failed(_) => Grows(from, readings[1..], last)
      case Content(text) => from <= text && Grows(text, readings[1..], last)
  }

  lemma {:induction false} GrowsExtends(from: Text, readings: seq<Reading>, last: Text)
    requires Grows(from, readings, last)
    ensures from <= last
    decreases |readings|
  {
    if readings != [] {
      var next := if readings[0].Content? then readings[0].text else from;
      GrowsExtends(next, readings[1..], last);
    }
  }

  /** One poll of a grown file continues the open line. */
  lemma PollGrown(s: State, text: Text)
    requires s.previous <= text && NEWLINE !in s.pending
    ensures var added := text[|s.previous|..];
            Polled(s, Content(text)) == State(text, Open(s.pending + added),
                s.emitted + Emitted(CompleteLines(s.pending + added)))
  {
    if text == s.previous {
      assert s.pending + text[|s.previous|..] == s.pending;
      SplitFree(s.pending, NEWLINE);
      assert RawLines(s.pending) == [];
      assert s.emitted + [] == s.emitted;
    }
  }

  /** What a listener hears of a text: its cleaned, non-empty complete lines. */
  function Heard(text: Text): seq<Text> {
    Emitted(CompleteLines(text))
  }

  /** What `longer` holds beyond as many lines as `shorter` has. */
  function Beyond(shorter: seq<Text>, longer: seq<Text>): seq<Text> {
    if |shorter| <= |longer| then longer[|shorter|..] else []
  }

  /**
   What a listener should hear: at each reading that works, the lines of all text
   appended since the start beyond those of the text read before; at each reading that
   fails, its message.
  */
  function Expected(initial: Text, now: Text, readings: seq<Reading>): seq<Text>
    requires initial <= now
    decreases |readings|
  {
    if readings == [] then []
    else
      match readings[0]
      case Missing => Expected(initial, now, readings[1..])
      case Failed(message) => [message] + Expected(initial, now, readings[1..])
      case Content(text) =>
        if now <= text then
          Beyond(Heard(now[|initial|..]), Heard(text[|initial|..])) + Expected(initial, text, readings[1..])
        else []
  }

  /** One reading of a grown file brings the lines beyond those that were heard. */
  lemma ReadingBrings(initial: Text, s: State, text: Text)
    requires initial <= s.previous <= text && s.pending == Open(s.previous[|initial|..])
    ensures Polled(s, Content(text))
         == State(text, Open(text[|initial|..]),
                  s.emitted + Beyond(Heard(s.previous[|initial|..]), Heard(text[|initial|..])))
  {
    hide CompleteLines, Emitted, SplitOn, Open;
    var first, second := s.previous[|initial|..], text[|s.previous|..];
    OpenHoldsNoNewline(first);
    PollGrown(s, text);
    assert text[|initial|..] == first + second;
    assert [] + first == first && [] + (first + second) == first + second;
    TwoGrowths([], first, second, []);
    assert [] + Heard(first) + Heard(s.pending + second) == Heard(first) + Heard(s.pending + second);
    assert [] + Heard(first + second) == Heard(first + second);
    assert Beyond(Heard(first), Heard(first) + Heard(s.pending + second)) == Heard(s.pending + second);
  }

  /** Whatever the polls, the listener hears what it should. */
  lemma {:induction false} FollowGrown(initial: Text, s: State, readings: seq<Reading>, last: Text)
    requires initial <= s.previous && s.pending == Open(s.previous[|initial|..])
    requires Grows(s.previous, readings, last)
    ensures initial <= last
    ensures Follow(s, readings)
         == State(last, Open(last[|initial|..]), s.emitted + Expected(initial, s.previous, readings))
    decreases |readings|
  {
    hide Open, Heard, Beyond;
    GrowsExtends(s.previous, readings, last);
    if readings == [] {
      assert s.emitted + [] == s.emitted;
    } else if readings[0].Missing? {
      FollowGrown(initial, s, readings[1..], last);
    } else if readings[0].Failed? {
      var told := Polled(s, readings[0]);
      FollowGrown(initial, told, readings[1..], last);
      Regroup(s.emitted, [readings[0].message], Expected(initial, s.previous, readings[1..]));
    } else {
      var text := readings[0].text;
      ReadingBrings(initial, s, text);
      hide Polled;
      FollowGrown(initial, Polled(s, readings[0]), readings[1..], last);
      Regroup(s.emitted, Beyond(Heard(s.previous[|initial|..]), Heard(text[|initial|..])),
              Expected(initial, text, readings[1..]));
    }
  }

  lemma Regroup(a: seq<Text>, b: seq<Text>, c: seq<Text>)
    ensures a + b + c == a + (b + c)
  {}

  /** Lines of text that arrived in two parts. */
  lemma TwoGrowths(pending: Text, first: Text, second: Text, emitted: seq<Text>)
    ensures var open := Open(pending + first);
            && Open(open + second) == Open(pending + (first + second))
            && emitted + Emitted(CompleteLines(pending + first)) + Emitted(CompleteLines(open + second))
               == emitted + Emitted(CompleteLines(pending + (first + second)))
  {
    hide *;
    assert pending + first + second == pending + (first + second);
    LinesGrow(pending + first, second);
    var a, b := Emitted(CompleteLines(pending + first)), Emitted(CompleteLines(Open(pending + first) + second));
    assert emitted + a + b == emitted + (a + b);
    EmittedAppend(CompleteLines(pending + first), CompleteLines(Open(pending + first) + second));
  }

  /** A follower that starts at `initial` tells its listener what `Expected` says, failures included. */
  lemma EmitsWithFailures(initial: Text, readings: seq<Reading>, last: Text)
    requires Grows(initial, readings, last)
    ensures initial <= last
    ensures Follow(State(initial, [], []), readings)
         == State(last, Open(last[|initial|..]), Expected(initial, initial, readings))
  {
    SplitFree(initial[|initial|..], NEWLINE);
    FollowGrown(initial, State(initial, [], []), readings, last);
    assert [] + Expected(initial, initial, readings) == Expected(initial, initial, readings);
  }

  predicate AllWork(readings: seq<Reading>) {
    forall r :: r in readings ==> !r.Failed?
  }

  lemma HeardGrows(initial: Text, now: Text, later: Text)
    requires initial <= now <= later
    ensures Heard(now[|initial|..]) <= Heard(later[|initial|..])
  {
    hide CompleteLines, Emitted, SplitOn, Open;
    var first, second := now[|initial|..], later[|now|..];
    assert later[|initial|..] == first + second;
    assert [] + first == first && [] + (first + second) == first + second;
    TwoGrowths([], first, second, []);
    assert [] + Heard(first) + Heard(Open(first) + second) == Heard(first) + Heard(Open(first) + second);
    assert [] + Heard(first + second) == Heard(first + second);
  }

  /** Without failures the pieces add up to the lines of all appended text. */
  lemma {:induction false} PiecesAddUp(initial: Text, now: Text, readings: seq<Reading>, last: Text)
    requires initial <= now && Grows(now, readings, last) && AllWork(readings)
    ensures initial <= last
    ensures Heard(now[|initial|..]) + Expected(initial, now, readings) == Heard(last[|initial|..])
    decreases |readings|
  {
    hide Heard;
    GrowsExtends(now, readings, last);
    if readings == [] {
      assert Heard(now[|initial|..]) + [] == Heard(now[|initial|..]);
    } else {
      assert readings[0] in readings;
      if readings[0].Missing? {
        PiecesAddUp(initial, now, readings[1..], last);
      } else {
        var text := readings[0].text;
        HeardGrows(initial, now, text);
        PiecesAddUp(initial, text, readings[1..], last);
        var (a, b) := (Heard(now[|initial|..]), Heard(text[|initial|..]));
        assert a + Beyond(a, b) == b;
        Regroup(a, Beyond(a, b), Expected(initial, text, readings[1..]));
      }
    }
  }

  /** Without failures the emitted lines are the cleaned, non-empty complete lines of the text that was appended. */
  lemma {:induction false} EmitsAppendedLines(initial: Text, readings: seq<Reading>, last: Text)
    requires Grows(initial, readings, last) && AllWork(readings)
    ensures initial <= last
    ensures Follow(State(initial, [], []), readings)
         == State(last, Open(last[|initial|..]), Emitted(CompleteLines(last[|initial|..])))
  {
    hide SplitOn;
    EmitsWithFailures(initial, readings, last);
    PiecesAddUp(initial, initial, readings, last);
    NothingHeard();
    assert initial[|initial|..] == [];
    assert [] + Expected(initial, initial, readings) == Expected(initial, initial, readings);
  }

  lemma NothingHeard()
    ensures Heard([]) == []
  {
    SplitFree([], NEWLINE);
    assert RawLines([]) == [];
  }

  /** Two followers of the same growth emit the same, however often they polled. */
  lemma {:induction false} PollTimingIsIrrelevant(initial: Text, a: seq<Reading>, b: seq<Reading>, last: Text)
    requires Grows(initial, a, last) && Grows(initial, b, last) && AllWork(a) && AllWork(b)
    ensures Follow(State(initial, [], []), a) == Follow(State(initial, [], []), b)
  {
    EmitsAppendedLines(initial, a, last);
    EmitsAppendedLines(initial, b, last);
  }
}
