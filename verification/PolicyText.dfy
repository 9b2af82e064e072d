/**
 What an ignore file means, read off its text: which lines are rules, which capture mode it asks
 for, and why a policy does not compile.
*/
module PolicyText {
  import opened Sequences
  import opened Glob
  import opened CapturePolicy
  import Utf8Order

  // ----- White space -----

  /** The white space and line ends of ECMAScript, by code point. */
  predicate White(c: char) {
    var n := c as int;
    n in {9, 10, 11, 12, 13, 32, 160, 5760, 8232, 8233, 8239, 8287, 12288, 65279} || 8192 <= n <= 8202
  }

  predicate AllWhite(s: string) {
    forall i :: 0 <= i < |s| ==> White(s[i])
  }

  /** Nothing, or a text that begins and ends with something else than white space. */
  predicate Tight(s: string) {
    s != "" ==> !White(s[0]) && !White(s[|s| - 1])
  }

  lemma {:induction false} TrimStartDrops(a: string, s: string)
    requires AllWhite(a) && (s != "" ==> !White(s[0]))
    ensures TrimStart(a + s) == s
  {
    if a == "" {
      assert a + s == s;
    } else {
      assert (a + s)[1..] == a[1..] + s;
      TrimStartDrops(a[1..], s);
    }
  }

  lemma {:induction false} TrimEndDrops(s: string, b: string)
    requires AllWhite(b) && (s != "" ==> !White(s[|s| - 1]))
    ensures TrimEnd(s + b) == s
  {
    if b == "" {
      assert s + b == s;
    } else {
      var n := |b| - 1;
      assert (s + b)[..|s + b| - 1] == s + b[..n] && (s + b)[|s + b| - 1] == b[n];
      TrimEndDrops(s, b[..n]);
    }
  }

  /** Trimming drops the white space around a text, and only that. */
  lemma TrimIs(a: string, body: string, b: string)
    requires AllWhite(a) && AllWhite(b) && Tight(body)
    ensures Trim(a + body + b) == body
  {
    if body == "" {
      var s := a + b;
      assert s + "" == s && a + body + b == s;
      TrimStartDrops(s, "");
      assert TrimEnd("") == "";
    } else {
      assert a + body + b == a + (body + b);
      TrimStartDrops(a, body + b);
      TrimEndDrops(body, b);
    }
  }

  /** Every text is cut that way. */
  lemma TrimCuts(s: string) returns (a: string, b: string)
    ensures s == a + Trim(s) + b && AllWhite(a) && AllWhite(b) && Tight(Trim(s))
  {
    hide Trim;
    var body;
    a, body, b := Cut(s);
    TrimIs(a, body, b);
  }

  /** White space, a tight text, white space. */
  lemma {:induction false} Cut(s: string) returns (a: string, body: string, b: string)
    ensures s == a + body + b && AllWhite(a) && AllWhite(b) && Tight(body)
  {
    a, body, b := "", s, "";
    if s != "" && White(s[0]) {
      a, body, b := Cut(s[1..]);
      a := [s[0]] + a;
    } else if s != "" && White(s[|s| - 1]) {
      a, body, b := Cut(s[..|s| - 1]);
      b := b + [s[|s| - 1]];
    }
  }

  // ----- Rules -----

  /** The rules of an ignore file are its trimmed lines, in order, but for blank lines and comments. */
  lemma {:induction false} RulesAreLines(a: seq<string>, line: string, b: seq<string>)
    ensures RulesOf(a + b) == RulesOf(a) + RulesOf(b)
    ensures RulesOf([line]) == if Trim(line) == "" || Trim(line)[0] == '#' then [] else [Trim(line)]
    ensures RulesOf([]) == []
  {
    hide Trim;
    assert [line][1..] == [];
    if a == [] {
      assert a + b == b;
    } else {
      assert (a + b)[1..] == a[1..] + b;
      RulesAreLines(a[1..], line, b);
    }
  }

  // ----- The capture mode -----

  /** The line asks for a capture mode. */
  predicate AsksForMode(line: string) {
    "# josh-room capture-mode:" <= Trim(line)
  }

  /** The mode it asks for. */
  function AskedMode(line: string): string
    requires AsksForMode(line)
  {
    Trim(Trim(line)[25..])
  }

  ghost predicate OnlyAsk(lines: seq<string>, i: int) {
    && 0 <= i < |lines| && AsksForMode(lines[i])
    && forall j :: 0 <= j < |lines| && AsksForMode(lines[j]) ==> j == i
  }

  ghost predicate NoAsk(lines: seq<string>) {
    forall i :: 0 <= i < |lines| ==> !AsksForMode(lines[i])
  }

  lemma {:induction false} DirectivesAre(lines: seq<string>)
    ensures Directives(lines) == [] <==> NoAsk(lines)
    ensures |Directives(lines)| == 1 <==> exists i :: OnlyAsk(lines, i)
    ensures forall i :: OnlyAsk(lines, i) ==> Directives(lines) == [Trim(lines[i])]
  {
    hide Trim;
    if lines != [] {
      var rest := lines[1..];
      DirectivesAre(rest);
      assert forall j :: 0 <= j < |rest| ==> rest[j] == lines[j + 1];
      forall i
        ensures OnlyAsk(lines, i) <==>
                if i == 0 then AsksForMode(lines[0]) && NoAsk(rest) else !AsksForMode(lines[0]) && OnlyAsk(rest, i - 1)
      {
        FirstLineAsks(lines, i);
      }
      if AsksForMode(lines[0]) && NoAsk(rest) {
        assert OnlyAsk(lines, 0);
      }
      if !AsksForMode(lines[0]) && exists i :: OnlyAsk(rest, i) {
        var i :| OnlyAsk(rest, i);
        assert OnlyAsk(lines, i + 1);
      }
    }
  }

  lemma FirstLineAsks(lines: seq<string>, i: int)
    requires lines != []
    ensures OnlyAsk(lines, i) <==>
            if i == 0 then AsksForMode(lines[0]) && NoAsk(lines[1..])
            else !AsksForMode(lines[0]) && OnlyAsk(lines[1..], i - 1)
  {
    hide AsksForMode;
    var rest := lines[1..];
    assert forall j :: 0 <= j < |rest| ==> rest[j] == lines[j + 1];
    assert forall j :: 0 < j < |lines| ==> lines[j] == rest[j - 1];
  }

  lemma AfterSeparator(head: string, rest: string, sep: char)
    requires sep !in head
    ensures Join(SplitOn(head + [sep] + rest, sep)[1..], sep) == rest
  {
    SplitAtSeparator(head, rest, sep);
    SplitFree(head, sep);
    SplitThenJoin(rest, sep);
    assert ([head] + SplitOn(rest, sep))[1..] == SplitOn(rest, sep);
  }

  /** What follows the first colon of a directive. */
  lemma AfterColon(directive: string)
    requires "# josh-room capture-mode:" <= directive
    ensures Join(SplitOn(directive, ':')[1..], ':') == directive[25..]
  {
    hide *;
    var (head, rest) := (directive[..24], directive[25..]);
    assert directive[24] == ':' && ':' !in head by {
      assert forall i :: 0 <= i < 25 ==> directive[i] == "# josh-room capture-mode:"[i];
    }
    assert directive == head + [':'] + rest;
    AfterSeparator(head, rest, ':');
  }

  lemma CaptureModeIs(lines: seq<string>)
    ensures NoAsk(lines) ==> CaptureMode(lines) == Ok(FullRepository)
    ensures forall i :: OnlyAsk(lines, i) ==>
              var mode := AskedMode(lines[i]);
              CaptureMode(lines) == if mode == "source-only" then Ok(SourceOnly)
                                    else if mode == "full-repository" then Ok(FullRepository)
                                    else Err(UnsupportedMode)
    ensures !NoAsk(lines) && (forall i :: !OnlyAsk(lines, i)) ==> CaptureMode(lines) == Err(ModeGivenTwice)
  {
    DirectivesAre(lines);
    hide Directives, Trim, SplitOn, Join;
    forall i | OnlyAsk(lines, i)
      ensures var mode := AskedMode(lines[i]);
              CaptureMode(lines) == if mode == "source-only" then Ok(SourceOnly)
                                    else if mode == "full-repository" then Ok(FullRepository)
                                    else Err(UnsupportedMode)
    {
      AfterColon(Trim(lines[i]));
    }
  }

  /** The lines of an ignore file; a missing one has none. */
  function Lines(ignoreText: Option<string>): seq<string> {
    if ignoreText.Some? then SplitOn(ignoreText.value, '\n') else []
  }

  /**
   The mode of a compiled policy, from the text alone: source-only exactly when a single line asks
   for a mode and names that one, full-repository when no line asks or a single one names that; with
   anything else nothing compiles.
  */
  lemma ModeFromText(defaults: seq<string>, ignoreText: Option<string>, runtime: Option<string>)
    ensures var (compiled, lines) := (Compile(defaults, ignoreText, runtime), Lines(ignoreText));
            compiled.Ok? ==>
              && (compiled.value.mode == SourceOnly
                  <==> exists i :: OnlyAsk(lines, i) && AskedMode(lines[i]) == "source-only")
              && (compiled.value.mode == FullRepository
                  <==> NoAsk(lines) || exists i :: OnlyAsk(lines, i) && AskedMode(lines[i]) == "full-repository")
  {
    var lines := Lines(ignoreText);
    CaptureModeIs(lines);
    hide CaptureMode, UserPatterns, DefaultPatterns, RuntimePath, SplitOn, AskedMode, NoAsk, OnlyAsk;
  }

  // ----- Why a policy does not compile -----

  /** A rule that is refused after `count` others, and the error. */
  function Refusal(rule: string, count: nat): Option<PolicyError> {
    if "!" <= rule then Some(Reinclusion)
    else if count >= 128 then Some(TooManyUserRules)
    else if PatternParts(rule).Err? then Some(BadPattern(PatternParts(rule).error))
    else None
  }

  ghost predicate FirstRefused(rules: seq<string>, count: nat, i: nat) {
    && i < |rules| && Refusal(rules[i], count + i).Some?
    && forall j: nat :: j < i ==> Refusal(rules[j], count + j).None?
  }

  /** The first refused rule decides the error. */
  lemma {:induction false} UserRulesFail(lines: seq<string>, patterns: seq<Pattern>, count: nat, i: nat)
    requires FirstRefused(RulesOf(lines), count, i)
    ensures UserPatterns(lines, patterns, count) == Err(Refusal(RulesOf(lines)[i], count + i).value)
  {
    hide PatternParts, Trim;
    var (rule, rest) := (Trim(lines[0]), lines[1..]);
    var rules := RulesOf(rest);
    if rule == "" || rule[0] == '#' {
      assert RulesOf(lines) == rules;
      UserRulesFail(rest, patterns, count, i);
    } else {
      assert RulesOf(lines) == [rule] + rules;
      if i > 0 {
        assert RulesOf(lines)[0] == rule;
        forall j: nat | j < i - 1
          ensures Refusal(rules[j], count + 1 + j).None?
        {
          assert rules[j] == RulesOf(lines)[j + 1] && count + 1 + j == count + (j + 1);
        }
        UserRulesFail(rest, patterns + [PatternParts(rule).value], count + 1, i - 1);
      }
    }
  }

  ghost predicate FirstBadDefault(defaults: seq<string>, i: nat) {
    && i < |defaults| && PatternParts(defaults[i]).Err?
    && forall j: nat :: j < i ==> PatternParts(defaults[j]).Ok?
  }

  lemma {:induction false} DefaultsFail(defaults: seq<string>, i: nat)
    requires FirstBadDefault(defaults, i)
    ensures DefaultPatterns(defaults) == Err(BadPattern(PatternParts(defaults[i]).error))
  {
    hide PatternParts;
    var n := |defaults| - 1;
    if i < n {
      DefaultsFail(defaults[..n], i);
    } else {
      DefaultsExactly(defaults[..n]);
      assert forall r :: r in defaults[..n] ==> PatternParts(r).Ok?;
    }
  }

  /** Inputs whose defaults and ignore file are in bounds, and whose defaults are all accepted. */
  predicate GoodStart(defaults: seq<string>, ignoreText: Option<string>) {
    && 1 <= |defaults| <= 128 && AllAccepted(defaults)
    && (ignoreText.Some? ==> |Utf8Order.Encode(ignoreText.value)| <= 65536)
  }

  /** Each error, with the inputs that lead to it. */
  lemma CompileFails(defaults: seq<string>, ignoreText: Option<string>, runtime: Option<string>, i: nat)
    ensures var compiled := Compile(defaults, ignoreText, runtime);
            && (defaults == [] ==> compiled == Err(UnsupportedDefaults))
            && (|defaults| > 128 ==> compiled == Err(TooManyDefaults))
            && (|defaults| <= 128 && FirstBadDefault(defaults, i) ==>
                  compiled == Err(BadPattern(PatternParts(defaults[i]).error)))
            && (1 <= |defaults| <= 128 && AllAccepted(defaults) && !GoodStart(defaults, ignoreText) ==>
                  compiled == Err(IgnoreFileTooLarge))
    ensures var (compiled, rules) := (Compile(defaults, ignoreText, runtime), RulesOf(Lines(ignoreText)));
            GoodStart(defaults, ignoreText) && FirstRefused(rules, 0, i) ==>
              compiled == Err(Refusal(rules[i], i).value)
  {
    hide UserPatterns, DefaultPatterns, RuntimePath, CaptureMode, SplitOn, RulesOf, PatternParts, FirstRefused;
    DefaultsExactly(defaults);
    if FirstBadDefault(defaults, i) {
      DefaultsFail(defaults, i);
    }
    if GoodStart(defaults, ignoreText) && FirstRefused(RulesOf(Lines(ignoreText)), 0, i) {
      UserRulesFail(Lines(ignoreText), PartsOf(defaults), 0, i);
    }
  }

  /** With good defaults and rules: the runtime path, and then the mode, decide. */
  lemma {:induction false} RuntimeOrModeFails(defaults: seq<string>, ignoreText: Option<string>,
                                                runtime: Option<string>)
    requires GoodStart(defaults, ignoreText) && GoodRules(RulesOf(Lines(ignoreText)), 0)
    ensures var (compiled, lines) := (Compile(defaults, ignoreText, runtime), Lines(ignoreText));
            if runtime.Some? && PatternParts(runtime.value).Err? then
              compiled == Err(BadPattern(PatternParts(runtime.value).error))
            else if runtime.Some? && ('*' in runtime.value || '?' in runtime.value) then
              compiled == Err(RuntimeHasWildcards)
            else if NoAsk(lines) then compiled.Ok?
            else if forall i :: !OnlyAsk(lines, i) then compiled == Err(ModeGivenTwice)
            else forall i :: OnlyAsk(lines, i) ==>
                   if AskedMode(lines[i]) in {"source-only", "full-repository"} then compiled.Ok?
                   else compiled == Err(UnsupportedMode)
  {
    var lines := Lines(ignoreText);
    CaptureModeIs(lines);
    hide UserPatterns, DefaultPatterns, CaptureMode, SplitOn, RulesOf, PatternParts, OnlyAsk, NoAsk, AskedMode,
        GoodRules;
    DefaultsExactly(defaults);
    UserRulesExactly(lines, PartsOf(defaults), 0);
    if runtime.Some? && PatternParts(runtime.value).Ok? {
      WildcardsOf(runtime.value);
    }
  }

  /** The wildcards of an accepted text are those of its components. */
  lemma WildcardsOf(text: string)
    requires PatternParts(text).Ok?
    ensures (exists part :: part in PatternParts(text).value && !Literal(part)) <==> '*' in text || '?' in text
  {
    var raw := SplitOn(text, '/');
    ElementsOf(text, '*');
    ElementsOf(text, '?');
    hide SplitOn, Collapse;
    CollapseFacts(raw);
    if '*' in text || '?' in text {
      var i :| 0 <= i < |raw| && ('*' in raw[i] || '?' in raw[i]);
      if raw[i] == "**" {
        AnyStays(raw);
      } else {
        CollapseKeepsOthers(raw, raw[i]);
      }
    }
    if part :| part in Collapse(raw) && !Literal(part) {
      assert part in raw;
    }
  }

  lemma {:induction false} ElementsOf(text: string, c: char)
    requires c != '/'
    ensures c in text <==> exists i :: 0 <= i < |SplitOn(text, '/')| && c in SplitOn(text, '/')[i]
  {
    if c !in text {
      SplitKeepsElements(text, '/', c);
    } else {
      SplitThenJoin(text, '/');
      if forall i :: 0 <= i < |SplitOn(text, '/')| ==> c !in SplitOn(text, '/')[i] {
        JoinKeepsElements(SplitOn(text, '/'), '/', c);
      }
    }
  }

  lemma {:induction false} AnyStays(raw: Pattern)
    requires "**" in raw
    ensures "**" in Collapse(raw)
  {
    var n := |raw| - 1;
    assert raw == raw[..n] + [raw[n]];
    if "**" in raw[..n] {
      AnyStays(raw[..n]);
    }
  }

  // ----- A file of one line -----

  /** What the file says. */
  const ASKING: string := "# josh-room capture-mode: source-only"

  /** This one line turns the capture of `.git` off. */
  lemma OneLineAsks()
    ensures Compile(["**/venv"], Some("# josh-room capture-mode: source-only"), None)
         == Ok(Policy(SourceOnly, [["**", "venv"]], None))
  {
    hide PatternParts, Compile, DefaultPatterns, UserPatterns, CaptureMode, SplitOn, RulesOf, GoodRules, PartsOf, Trim,
        Utf8Order.Encode;
    var defaults := ["**/venv"];
    OneLine();
    VenvRuleIsAccepted();
    VenvPatterns(defaults);
    var patterns: seq<Pattern> := [["**", "venv"]];
    UserRulesExactly([ASKING], patterns, 0);
    NoRulesAreGood(0);
    assert patterns + [] == patterns;
    OnlyLineAsks();
    CompileParts(defaults, ASKING, patterns);
  }

  lemma VenvPatterns(defaults: seq<string>)
    requires defaults == ["**/venv"] && PatternParts("**/venv") == Ok(["**", "venv"])
    ensures DefaultPatterns(defaults) == Ok([["**", "venv"]])
  {
    hide PatternParts;
    DefaultsExactly(defaults);
    assert PartsOf(defaults) == [["**", "venv"]];
  }

  /** With everything known but the runtime path, of which there is none. */
  lemma CompileParts(defaults: seq<string>, text: string, patterns: seq<Pattern>)
    requires 1 <= |defaults| <= 128 && |Utf8Order.Encode(text)| <= 65536
    requires DefaultPatterns(defaults).Ok? && CaptureMode(SplitOn(text, '\n')).Ok?
    requires UserPatterns(SplitOn(text, '\n'), DefaultPatterns(defaults).value, 0) == Ok(patterns)
    ensures Compile(defaults, Some(text), None)
         == Ok(Policy(CaptureMode(SplitOn(text, '\n')).value, patterns, None))
  {
    hide DefaultPatterns, CaptureMode, UserPatterns, SplitOn;
  }

  lemma {:induction false} OneLine()
    ensures SplitOn(ASKING, '\n') == [ASKING] && RulesOf([ASKING]) == [] && |Utf8Order.Encode(ASKING)| <= 65536
  {
    hide Trim, SplitOn, RulesOf, Utf8Order.Encode;
    assert '\n' !in ASKING;
    SplitFree(ASKING, '\n');
    AskingIsTight();
    RulesAreLines([], ASKING, []);
    EncodingIsShort(ASKING);
  }

  lemma AskingIsTight()
    ensures Trim(ASKING) == ASKING
  {
    hide Trim;
    assert "" + ASKING + "" == ASKING;
    TrimIs("", ASKING, "");
  }

  lemma {:induction false} EncodingIsShort(text: string)
    ensures |Utf8Order.Encode(text)| <= 4 * |text|
  {
    if text != "" {
      EncodingIsShort(text[1..]);
    }
  }

  lemma OnlyLineAsks()
    ensures CaptureMode([ASKING]) == Ok(SourceOnly)
  {
    hide CaptureMode, Trim;
    AskingIsTight();
    AskedSourceOnly();
    assert OnlyAsk([ASKING], 0);
    CaptureModeIs([ASKING]);
  }

  lemma AskedSourceOnly()
    requires Trim(ASKING) == ASKING
    ensures AsksForMode(ASKING) && AskedMode(ASKING) == "source-only"
  {
    hide Trim;
    assert ASKING[25..] == " " + "source-only" + "";
    TrimIs(" ", "source-only", "");
  }
}
