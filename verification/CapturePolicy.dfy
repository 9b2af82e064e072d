/**
 The compiled capture policy: which workspace paths are excluded, and the same
 rules rendered as exclude patterns.
*/
module CapturePolicy {
  import opened Sequences
  import opened Glob
  import Utf8Order

  const MAX_IGNORE_BYTES := 64 * 1024
  const MAX_IGNORE_RULES := 128
  const GIT: string := ".git"
  const DIRECTIVE: string := "# josh-room capture-mode:"

  datatype Mode = FullRepository | SourceOnly

  datatype Policy = Policy(mode: Mode, patterns: seq<Pattern>, runtime: Option<string>)

  datatype PolicyError =
    | UnsupportedDefaults
    | TooManyDefaults
    | BadPattern(error: PatternError)
    | IgnoreFileTooLarge
    | Reinclusion
    | TooManyUserRules
    | RuntimeHasWildcards
    | ModeGivenTwice
    | UnsupportedMode

  // ----- Compiling -----

  predicate IsSpace(c: char) {
    var n := c as int;
    || 9 <= n <= 13 || n == 0x20 || n == 0xA0 || n == 0x1680 || 0x2000 <= n <= 0x200A
    || n == 0x2028 || n == 0x2029 || n == 0x202F || n == 0x205F || n == 0x3000 || n == 0xFEFF
  }

  function TrimStart(s: string): string {
    if s != "" && IsSpace(s[0]) then TrimStart(s[1..]) else s
  }

  function TrimEnd(s: string): string {
    if s != "" && IsSpace(s[|s| - 1]) then TrimEnd(s[..|s| - 1]) else s
  }

  function Trim(s: string): string {
    TrimEnd(TrimStart(s))
  }

  function AddPattern(patterns: seq<Pattern>, rule: string): Result<seq<Pattern>, PolicyError> {
    match PatternParts(rule)
    case Ok(parts) => Ok(patterns + [parts])
    case Err(e) => Err(BadPattern(e))
  }

  function DefaultPatterns(defaults: seq<string>): Result<seq<Pattern>, PolicyError> {
    if defaults == [] then Ok([])
    else
      match DefaultPatterns(defaults[..|defaults| - 1])
      case Err(e) => Err(e)
      case Ok(patterns) => AddPattern(patterns, Last(defaults))
  }

  /** Adds the rules of the ignore file, line after line. */
  function UserPatterns(lines: seq<string>, patterns: seq<Pattern>, count: nat): Result<seq<Pattern>, PolicyError> {
    if lines == [] then Ok(patterns)
    else
      var rule := Trim(lines[0]);
      if rule == "" || rule[0] == '#' then UserPatterns(lines[1..], patterns, count)
      else if rule[0] == '!' then Err(Reinclusion)
      else if count >= MAX_IGNORE_RULES then Err(TooManyUserRules)
      else
        match AddPattern(patterns, rule)
        case Err(e) => Err(e)
        case Ok(more) => UserPatterns(lines[1..], more, count + 1)
  }

  function RuntimePath(runtime: Option<string>): Result<Option<string>, PolicyError> {
    match runtime
    case None => Ok(None)
    case Some(text) =>
      match PatternParts(text)
      case Err(e) => Err(BadPattern(e))
      case Ok(parts) =>
        if exists part :: part in parts && !Literal(part) then Err(RuntimeHasWildcards)
        else Ok(Some(Join(parts, '/')))
  }

  function Directives(lines: seq<string>): seq<string> {
    if lines == [] then []
    else
      var line := Trim(lines[0]);
      (if DIRECTIVE <= line then [line] else []) + Directives(lines[1..])
  }

  function CaptureMode(lines: seq<string>): Result<Mode, PolicyError> {
    var found := Directives(lines);
    if found == [] then Ok(FullRepository)
    else if |found| != 1 then Err(ModeGivenTwice)
    else
      var name := Trim(Join(SplitOn(found[0], ':')[1..], ':'));
      if name == "full-repository" then Ok(FullRepository)
      else if name == "source-only" then Ok(SourceOnly)
      else Err(UnsupportedMode)
  }

  /** `compileCapturePolicy` after the defaults were parsed; the digest is left out. */
  function Compile(defaults: seq<string>, ignoreText: Option<string>, runtime: Option<string>)
    : Result<Policy, PolicyError>
  {
    if defaults == [] then Err(UnsupportedDefaults)
    else if |defaults| > MAX_IGNORE_RULES then Err(TooManyDefaults)
    else
      match DefaultPatterns(defaults)
      case Err(e) => Err(e)
      case Ok(base) =>
        if ignoreText.Some? && |Utf8Order.Encode(ignoreText.value)| > MAX_IGNORE_BYTES then Err(IgnoreFileTooLarge)
        else
          var lines := if ignoreText.Some? then SplitOn(ignoreText.value, '\n') else [];
          match UserPatterns(lines, base, 0)
          case Err(e) => Err(e)
          case Ok(patterns) =>
            match RuntimePath(runtime)
            case Err(e) => Err(e)
            case Ok(active) =>
              match CaptureMode(lines)
              case Err(e) => Err(e)
              case Ok(mode) => Ok(Policy(mode, patterns, active))
  }

  ghost predicate AllWellFormed(patterns: seq<Pattern>) {
    forall p :: p in patterns ==> WellFormed(p)
  }

  /** What holds of every compiled policy. */
  ghost predicate Valid(policy: Policy) {
    && AllWellFormed(policy.patterns)
    && (policy.runtime.Some? ==>
          forall i :: 0 <= i < |SplitOn(policy.runtime.value, '/')| ==>
            var part := SplitOn(policy.runtime.value, '/')[i];
            Literal(part) && part != ANY)
  }

  lemma CompiledIsValid(defaults: seq<string>, ignoreText: Option<string>, runtime: Option<string>)
    requires Compile(defaults, ignoreText, runtime).Ok?
    ensures Valid(Compile(defaults, ignoreText, runtime).value)
  {
    var policy := Compile(defaults, ignoreText, runtime).value;
    DefaultsAreWellFormed(defaults);
    var lines := if ignoreText.Some? then SplitOn(ignoreText.value, '\n') else [];
    UserRulesAreWellFormed(lines, DefaultPatterns(defaults).value, 0);
    if runtime.Some? {
      AcceptedIsWellFormed(runtime.value);
      var parts := PatternParts(runtime.value).value;
      JoinThenSplit(parts, '/');
      forall i | 0 <= i < |parts|
        ensures Literal(parts[i]) && parts[i] != ANY
      {
        assert parts[i] in parts;
        assert ANY[0] == '*';
      }
    }
  }

  /** The rules of the ignore file: its lines without blank ones and comments. */
  function RulesOf(lines: seq<string>): (rules: seq<string>)
    ensures forall r :: r in rules ==> r != ""
  {
    if lines == [] then []
    else
      var rule := Trim(lines[0]);
      (if rule == "" || rule[0] == '#' then [] else [rule]) + RulesOf(lines[1..])
  }

  predicate AllAccepted(rules: seq<string>) {
    forall r :: r in rules ==> PatternParts(r).Ok?
  }

  function PartsOf(rules: seq<string>): (parts: seq<Pattern>)
    requires AllAccepted(rules)
    ensures |parts| == |rules|
    ensures forall i :: 0 <= i < |rules| ==> parts[i] == PatternParts(rules[i]).value
  {
    seq(|rules|, i requires 0 <= i < |rules| => PatternParts(rules[i]).value)
  }

  lemma {:induction false} DefaultsExactly(defaults: seq<string>)
    ensures DefaultPatterns(defaults).Ok? <==> AllAccepted(defaults)
    ensures DefaultPatterns(defaults).Ok? ==> DefaultPatterns(defaults).value == PartsOf(defaults)
  {
    hide PatternParts;
    if defaults != [] {
      var n := |defaults| - 1;
      DefaultsExactly(defaults[..n]);
      assert defaults == defaults[..n] + [defaults[n]];
    }
  }

  /** Rules that can follow `count` others. */
  predicate GoodRules(rules: seq<string>, count: nat)
    requires forall r :: r in rules ==> r != ""
  {
    AllAccepted(rules) && (forall r :: r in rules ==> r[0] != '!') && count + |rules| <= 128
  }

  lemma GoodRulesCons(rule: string, rest: seq<string>, count: nat)
    requires rule != "" && forall r :: r in rest ==> r != ""
    ensures var rules := [rule] + rest;
            GoodRules(rules, count)
            <==> RuleFits(rule, count) && GoodRules(rest, count + 1)
    ensures GoodRules([rule] + rest, count) ==> PartsOf([rule] + rest) == [PatternParts(rule).value] + PartsOf(rest)
  {
    hide PatternParts;
    var rules := [rule] + rest;
    assert rule in rules && forall r :: r in rest ==> r in rules;
  }

  lemma {:induction false} UserRulesExactly(lines: seq<string>, patterns: seq<Pattern>, count: nat)
    requires count <= MAX_IGNORE_RULES
    ensures UserPatterns(lines, patterns, count).Ok? <==> GoodRules(RulesOf(lines), count)
    ensures GoodRules(RulesOf(lines), count) ==>
              UserPatterns(lines, patterns, count).value == patterns + PartsOf(RulesOf(lines))
  {
    hide PatternParts, Trim, PartsOf, UserPatterns, RulesOf, AllAccepted;
    if lines == [] {
      NoRulesAreGood(count);
      UserRulesStart(lines, patterns, count);
    } else {
      var (rule, rest) := (Trim(lines[0]), RulesOf(lines[1..]));
      UserRulesStart(lines, patterns, count);
      if rule == "" || rule[0] == '#' {
        UserRulesExactly(lines[1..], patterns, count);
      } else {
        GoodRulesCons(rule, rest, count);
        if RuleFits(rule, count) {
          UserRulesExactly(lines[1..], patterns + [PatternParts(rule).value], count + 1);
          if GoodRules(rest, count + 1) {
            Regroup(patterns, PatternParts(rule).value, PartsOf(rest));
          }
        }
      }
    }
  }

  predicate RuleFits(rule: string, count: nat) {
    rule != "" && PatternParts(rule).Ok? && rule[0] != '!' && count < MAX_IGNORE_RULES
  }

  lemma Regroup(a: seq<Pattern>, x: Pattern, b: seq<Pattern>)
    ensures a + [x] + b == a + ([x] + b)
  {}

  /** The first line of the ignore file. */
  lemma UserRulesStart(lines: seq<string>, patterns: seq<Pattern>, count: nat)
    requires count <= MAX_IGNORE_RULES
    ensures lines == [] ==> UserPatterns(lines, patterns, count) == Ok(patterns) && RulesOf(lines) == []
    ensures lines != [] ==>
              var (rule, rest) := (Trim(lines[0]), lines[1..]);
              if rule == "" || rule[0] == '#' then
                RulesOf(lines) == RulesOf(rest)
                    && UserPatterns(lines, patterns, count) == UserPatterns(rest, patterns, count)
              else
                && RulesOf(lines) == [rule] + RulesOf(rest)
                && (!RuleFits(rule, count) ==> UserPatterns(lines, patterns, count).Err?)
                && (RuleFits(rule, count) ==>
                      count + 1 <= MAX_IGNORE_RULES
                      && UserPatterns(lines, patterns, count)
                          == UserPatterns(rest, patterns + [PatternParts(rule).value], count + 1))
  {
    hide PatternParts, Trim;
  }

  lemma NoRulesAreGood(count: nat)
    requires count <= MAX_IGNORE_RULES
    ensures GoodRules([], count) && PartsOf([]) == []
  {}

  /** The mode that a directive names. */
  function NamedMode(directive: string): Option<Mode> {
    var name := Trim(Join(SplitOn(directive, ':')[1..], ':'));
    if name == "full-repository" then Some(FullRepository)
    else if name == "source-only" then Some(SourceOnly)
    else None
  }

  predicate GoodRuntime(runtime: string) {
    PatternParts(runtime).Ok? && forall part :: part in PatternParts(runtime).value ==> Literal(part)
  }

  lemma ModeExactly(lines: seq<string>)
    ensures var found := Directives(lines);
            CaptureMode(lines).Ok? <==> |found| == 0 || (|found| == 1 && NamedMode(found[0]).Some?)
    ensures CaptureMode(lines).Ok? ==>
              CaptureMode(lines).value
              == if Directives(lines) == [] then FullRepository else NamedMode(Directives(lines)[0]).value
  {
    hide Directives, Trim, SplitOn;
  }

  /** Which inputs compile, and to what; everything else is an error. */
  lemma CompilesExactly(defaults: seq<string>, ignoreText: Option<string>, runtime: Option<string>)
    ensures var lines := if ignoreText.Some? then SplitOn(ignoreText.value, '\n') else [];
            var (rules, found) := (RulesOf(lines), Directives(lines));
            Compile(defaults, ignoreText, runtime).Ok?
            <==> && 1 <= |defaults| <= 128 && AllAccepted(defaults)
                 && (ignoreText.Some? ==> |Utf8Order.Encode(ignoreText.value)| <= 65536)
                 && GoodRules(rules, 0)
                 && (runtime.Some? ==> GoodRuntime(runtime.value))
                 && (|found| == 0 || (|found| == 1 && NamedMode(found[0]).Some?))
    ensures var lines := if ignoreText.Some? then SplitOn(ignoreText.value, '\n') else [];
            Compile(defaults, ignoreText, runtime).Ok? ==>
              && AllAccepted(defaults) && AllAccepted(RulesOf(lines))
              && (runtime.Some? ==> PatternParts(runtime.value).Ok?)
              && (Directives(lines) != [] ==> NamedMode(Directives(lines)[0]).Some?)
              && Compile(defaults, ignoreText, runtime).value
                 == Policy(if Directives(lines) == [] then FullRepository else NamedMode(Directives(lines)[0]).value,
                           PartsOf(defaults) + PartsOf(RulesOf(lines)),
                           if runtime.Some? then Some(Join(PatternParts(runtime.value).value, '/')) else None)
  {
    hide PatternParts, RulesOf, CaptureMode, NamedMode, Directives, UserPatterns, DefaultPatterns, SplitOn;
    var lines := if ignoreText.Some? then SplitOn(ignoreText.value, '\n') else [];
    DefaultsExactly(defaults);
    ModeExactly(lines);
    if AllAccepted(defaults) {
      UserRulesExactly(lines, PartsOf(defaults), 0);
    }
  }

  lemma {:induction false} DefaultsAreWellFormed(defaults: seq<string>)
    requires DefaultPatterns(defaults).Ok?
    ensures AllWellFormed(DefaultPatterns(defaults).value)
  {
    if defaults != [] {
      DefaultsAreWellFormed(defaults[..|defaults| - 1]);
      AcceptedIsWellFormed(Last(defaults));
    }
  }

  lemma {:induction false} UserRulesAreWellFormed(lines: seq<string>, patterns: seq<Pattern>, count: nat)
    requires AllWellFormed(patterns) && UserPatterns(lines, patterns, count).Ok?
    ensures AllWellFormed(UserPatterns(lines, patterns, count).value)
  {
    if lines != [] {
      var rule := Trim(lines[0]);
      if rule == "" || rule[0] == '#' {
        UserRulesAreWellFormed(lines[1..], patterns, count);
      } else {
        AcceptedIsWellFormed(rule);
        UserRulesAreWellFormed(lines[1..], patterns + [PatternParts(rule).value], count + 1);
      }
    }
  }

  // ----- Deciding exclusion -----

  /** A rule of one component matches any component; a longer rule matches some leading part of the path. */
  predicate RuleMatches(parts: Path, pattern: Pattern) {
    if |pattern| == 1 && pattern[0] != ANY then
      exists i :: 0 <= i < |parts| && GlobAccepts(pattern, [parts[i]])
    else
      exists length :: 1 <= length <= |parts| && GlobAccepts(pattern, parts[..length])
  }

  predicate GoodName(part: string) {
    part != "" && part != "." && part != ".."
  }

  predicate Normalized(path: string) {
    && path != "" && path[0] != '/' && '\\' !in path
    && forall i :: 0 <= i < |SplitOn(path, '/')| ==> GoodName(SplitOn(path, '/')[i])
  }

  /** Position of the first `.git` component, or the length when there is none. */
  function GitIndex(parts: Path): (g: nat)
    ensures g <= |parts|
    ensures g < |parts| ==> parts[g] == GIT
    ensures GIT !in parts[..g]
  {
    if parts == [] || parts[0] == GIT then 0
    else
      var g := GitIndex(parts[1..]) + 1;
      assert parts[..g] == [parts[0]] + parts[1..][..g - 1];
      g
  }

  predicate UnderRuntime(policy: Policy, parts: Path) {
    policy.runtime.Some? && SplitOn(policy.runtime.value, '/') <= parts
  }

  /** Some rule, or the active runtime, covers the path. */
  predicate Covered(policy: Policy, parts: Path) {
    || UnderRuntime(policy, parts)
    || exists p :: p in policy.patterns && RuleMatches(parts, p)
  }

  predicate IsExcluded(policy: Policy, path: string)
    decreases |SplitOn(path, '/')|
  {
    if !Normalized(path) then false
    else
      var parts := SplitOn(path, '/');
      var g := GitIndex(parts);
      if g < |parts| then
        policy.mode == SourceOnly
        || (g > 0 && (HeadSplit(path, g); IsExcluded(policy, Join(parts[..g], '/'))))
      else Covered(policy, parts)
  }

  lemma {:induction false} HeadSplit(path: string, g: nat)
    requires 0 < g <= |SplitOn(path, '/')|
    ensures SplitOn(Join(SplitOn(path, '/')[..g], '/'), '/') == SplitOn(path, '/')[..g]
  {
    SplitThenJoin(path, '/');
    JoinThenSplit(SplitOn(path, '/')[..g], '/');
  }

  /** Odd paths are never excluded: the empty one, and those with a backslash or a part that is no name. */
  lemma OtherPathsAreKept(policy: Policy, path: string)
    ensures var parts := SplitOn(path, '/');
            Normalized(path) <==>
            path != "" && '\\' !in path && forall i :: 0 <= i < |parts| ==> parts[i] !in {"", ".", ".."}
    ensures !Normalized(path) ==> !IsExcluded(policy, path)
  {
    hide SplitOn;
    if path != "" && path[0] == '/' {
      LeadingSlash(path);
    }
  }

  lemma LeadingSlash(path: string)
    requires path != "" && path[0] == '/'
    ensures SplitOn(path, '/')[0] == ""
  {}

  /** A leading part of a normalized path is normalized. */
  lemma HeadNormalized(path: string, g: nat)
    requires Normalized(path) && 0 < g <= |SplitOn(path, '/')|
    ensures Normalized(Join(SplitOn(path, '/')[..g], '/'))
  {
    HeadSplit(path, g);
    var parts := SplitOn(path, '/');
    var head := Join(parts[..g], '/');
    SplitThenJoin(path, '/');
    SplitKeepsElements(path, '/', '\\');
    JoinKeepsElements(parts[..g], '/', '\\');
    assert parts[..g][0] == parts[0];
    assert SplitOn(head, '/')[0] != "";
  }

  lemma {:induction false} JoinKeepsElements(parts: seq<string>, sep: char, c: char)
    requires c != sep && forall i :: 0 <= i < |parts| ==> c !in parts[i]
    ensures c !in Join(parts, sep)
  {
    if |parts| > 1 {
      JoinKeepsElements(parts[1..], sep, c);
    }
  }

  /** Exclusion of a normalized path, said on its components: the part above the first `.git` decides. */
  lemma ExclusionByComponents(policy: Policy, path: string)
    requires Valid(policy) && Normalized(path)
    ensures var parts := SplitOn(path, '/');
            IsExcluded(policy, path) <==>
            (policy.mode == SourceOnly && GIT in parts) || Covered(policy, parts[..GitIndex(parts)])
  {
    var parts := SplitOn(path, '/');
    var g := GitIndex(parts);
    if g == |parts| {
      assert parts[..g] == parts;
    } else if g == 0 {
      NothingCoversTheRoot(policy);
      assert parts[..g] == [];
    } else if policy.mode == FullRepository {
      HeadSplit(path, g);
      HeadNormalized(path, g);
      var head := parts[..g];
      assert GitIndex(head) == |head|;
    }
  }

  lemma NothingCoversTheRoot(policy: Policy)
    ensures !Covered(policy, [])
  {
    if policy.runtime.Some? {
      assert |SplitOn(policy.runtime.value, '/')| >= 1;
    }
  }

  lemma CoveredBelow(policy: Policy, parts: Path, below: Path)
    requires Covered(policy, parts)
    ensures Covered(policy, parts + below)
  {
    if !UnderRuntime(policy, parts) {
      var p :| p in policy.patterns && RuleMatches(parts, p);
      RuleMatchesBelow(parts, below, p);
    }
  }

  lemma RuleMatchesBelow(parts: Path, below: Path, p: Pattern)
    requires RuleMatches(parts, p)
    ensures RuleMatches(parts + below, p)
  {
    if |p| == 1 && p[0] != ANY {
      var i :| 0 <= i < |parts| && GlobAccepts(p, [parts[i]]);
      assert (parts + below)[i] == parts[i];
    } else {
      var length :| 1 <= length <= |parts| && GlobAccepts(p, parts[..length]);
      assert (parts + below)[..length] == parts[..length];
    }
  }

  /** A name that a directory entry can have and that keeps a path normalized. */
  predicate EntryName(name: string) {
    GoodName(name) && '/' !in name && '\\' !in name
  }

  lemma ChildSplit(path: string, name: string)
    requires EntryName(name)
    ensures SplitOn(path + "/" + name, '/') == SplitOn(path, '/') + [name]
  {
    SplitAtSeparator(path, name, '/');
    SplitFree(name, '/');
  }

  lemma ChildNormalized(path: string, name: string)
    requires Normalized(path) && EntryName(name)
    ensures Normalized(path + "/" + name)
  {
    ChildSplit(path, name);
  }

  /** Exclusion is closed under descent, in both modes and through `.git`. */
  lemma {:induction false} ExclusionDescends(policy: Policy, path: string, name: string)
    requires Valid(policy) && IsExcluded(policy, path)
    requires name !in {"", ".", ".."} && '/' !in name && '\\' !in name
    ensures IsExcluded(policy, path + "/" + name)
  {
    ChildSplit(path, name);
    ChildNormalized(path, name);
    ExclusionByComponents(policy, path);
    ExclusionByComponents(policy, path + "/" + name);
    CoverDescends(policy, SplitOn(path, '/'), name);
  }

  lemma CoverDescends(policy: Policy, parts: Path, name: string)
    ensures var child := parts + [name];
            Covered(policy, parts[..GitIndex(parts)]) ==> Covered(policy, child[..GitIndex(child)])
  {
    var child := parts + [name];
    GitIndexBelow(parts, [name]);
    if Covered(policy, parts[..GitIndex(parts)]) {
      var g, h := GitIndex(parts), GitIndex(child);
      assert child[..h] == parts[..g] + child[g..h];
      CoveredBelow(policy, parts[..g], child[g..h]);
    }
  }

  lemma {:induction false} GitIndexBelow(parts: Path, below: Path)
    ensures GitIndex(parts) < |parts| ==> GitIndex(parts + below) == GitIndex(parts)
    ensures GitIndex(parts) == |parts| ==> GitIndex(parts + below) == |parts| + GitIndex(below)
  {
    if parts == [] {
      assert parts + below == below;
    } else {
      assert (parts + below)[1..] == parts[1..] + below;
      GitIndexBelow(parts[1..], below);
    }
  }

  // ----- Rendering the excludes -----

  /** The excludes of one rule. */
  function Rendered(pattern: Pattern): seq<string> {
    var raw := Join(pattern, '/');
    var rendered := if |pattern| == 1 && pattern[0] != ANY then "**/" + raw else raw;
    [rendered] +
    if pattern != [] && Last(pattern) == ANY then
      var base := Join(Closed(pattern), '/');
      if base != "" then [base] else []
    else [rendered + "/**"]
  }

  function RenderedAll(patterns: seq<Pattern>): seq<string>
  {
    if patterns == [] then [] else RenderedAll(Closed(patterns)) + Rendered(Last(patterns))
  }

  /** Keeps the first occurrence of every element. */
  function Distinct(s: seq<string>): seq<string> {
    if s == [] then []
    else
      var init := Distinct(Closed(s));
      if Last(s) in init then init else init + [Last(s)]
  }

  function ResticExcludes(policy: Policy): seq<string>
  {
    Distinct(
      RenderedAll(policy.patterns)
      + (if policy.mode == SourceOnly then ["**/.git", "**/.git/**"] else [])
      + (if policy.runtime.Some? then [policy.runtime.value, policy.runtime.value + "/**"] else []))
  }

  /** Some exclude, anchored at the workspace root, accepts the path. */
  predicate ExcludeMatches(excludes: seq<string>, parts: Path) {
    exists e :: e in excludes && GlobAccepts(SplitOn(e, '/'), parts)
  }

  lemma {:induction false} DistinctKeepsMembers(s: seq<string>)
    ensures forall e :: e in Distinct(s) <==> e in s
    ensures forall i, j :: 0 <= i < j < |Distinct(s)| ==> Distinct(s)[i] != Distinct(s)[j]
  {
    if s != [] {
      DistinctKeepsMembers(Closed(s));
      assert s == Closed(s) + [Last(s)];
    }
  }

  /** The excludes come rule by rule, in the order of the rules. */
  lemma {:induction false} RenderedInOrder(a: seq<Pattern>, p: Pattern, b: seq<Pattern>)
    ensures RenderedAll(a + b) == RenderedAll(a) + RenderedAll(b)
    ensures RenderedAll([p]) == Rendered(p)
  {
    hide Rendered;
    assert Closed([p]) == [];
    if b == [] {
      assert a + b == a;
    } else {
      RenderedInOrder(a, p, Closed(b));
      assert Closed(a + b) == a + Closed(b);
    }
  }

  /** Removing duplicates appends what is new, and otherwise changes nothing. */
  lemma {:induction false} DistinctInOrder(s: seq<string>, x: string)
    ensures Distinct(s + [x]) == if x in s then Distinct(s) else Distinct(s) + [x]
  {
    assert Closed(s + [x]) == s;
    DistinctKeepsMembers(s);
  }

  lemma {:induction false} RenderedAllMembers(patterns: seq<Pattern>)
    ensures forall e :: e in RenderedAll(patterns) <==> exists p :: p in patterns && e in Rendered(p)
  {
    if patterns != [] {
      RenderedAllMembers(Closed(patterns));
      assert patterns == Closed(patterns) + [Last(patterns)];
    }
  }

  lemma {:induction false} JoinAppend<T>(parts: seq<seq<T>>, x: seq<T>, sep: T)
    requires parts != []
    ensures Join(parts + [x], sep) == Join(parts, sep) + [sep] + x
  {
    if |parts| == 1 {
      assert (parts + [x])[1..] == [x];
    } else {
      JoinAppend(parts[1..], x, sep);
      assert (parts + [x])[1..] == parts[1..] + [x];
    }
  }

  /** The components of the rendered excludes. */
  function RenderedParts(pattern: Pattern): seq<Pattern>
    requires pattern != []
  {
    var head := if |pattern| == 1 && pattern[0] != ANY then [ANY] + pattern else pattern;
    if Last(pattern) == ANY then [head, Closed(pattern)] else [head, head + [ANY]]
  }

  lemma RenderedSplits(pattern: Pattern)
    requires WellFormed(pattern)
    ensures |Rendered(pattern)| == 2
    ensures SplitOn(Rendered(pattern)[0], '/') == RenderedParts(pattern)[0]
    ensures SplitOn(Rendered(pattern)[1], '/') == RenderedParts(pattern)[1]
  {
    hide SplitOn, Free;
    HeadSplits(pattern);
    var head := RenderedParts(pattern)[0];
    if Last(pattern) == ANY {
      BaseSplits(pattern);
    } else {
      SplitBelow(Join(head, '/'));
    }
  }

  lemma {:induction false} HeadSplits(pattern: Pattern)
    requires WellFormed(pattern)
    ensures Rendered(pattern)[0] == Join(RenderedParts(pattern)[0], '/')
    ensures SplitOn(Rendered(pattern)[0], '/') == RenderedParts(pattern)[0]
  {
    var head := RenderedParts(pattern)[0];
    assert '/' !in ANY;
    if |pattern| == 1 {
      JoinAppend([ANY], pattern[0], '/');
      assert head == [ANY] + [pattern[0]];
      assert "**/" == ANY + ['/'];
    }
    JoinThenSplit(head, '/');
  }

  lemma BaseSplits(pattern: Pattern)
    requires WellFormed(pattern) && Last(pattern) == ANY
    ensures Join(Closed(pattern), '/') != ""
    ensures SplitOn(Join(Closed(pattern), '/'), '/') == Closed(pattern)
  {
    var base := Closed(pattern);
    assert |base| >= 1;
    assert base[0] == pattern[0] != "";
    JoinThenSplit(base, '/');
    if Join(base, '/') == "" {
      SplitFree(Join(base, '/'), '/');
    }
  }

  lemma EitherExclude(excludes: seq<string>, parts: Path)
    requires |excludes| == 2
    ensures ExcludeMatches(excludes, parts)
       <==> GlobAccepts(SplitOn(excludes[0], '/'), parts) || GlobAccepts(SplitOn(excludes[1], '/'), parts)
  {
    hide GlobAccepts, SplitOn;
    assert excludes[0] in excludes && excludes[1] in excludes;
  }

  /** One rule and its excludes mean the same. */
  lemma RuleRenders(pattern: Pattern, parts: Path)
    requires WellFormed(pattern)
    ensures RuleMatches(parts, pattern) <==> ExcludeMatches(Rendered(pattern), parts)
  {
    hide GlobAccepts, RuleMatches, Rendered, WellFormed, SplitOn, ExcludeMatches;
    RenderedSplits(pattern);
    EitherExclude(Rendered(pattern), parts);
    if |pattern| == 1 {
      SingleRuleRenders(pattern, parts);
    } else {
      LongRuleRenders(pattern, parts);
    }
  }

  lemma SingleRuleRenders(pattern: Pattern, parts: Path)
    requires WellFormed(pattern) && |pattern| == 1
    ensures RuleMatches(parts, pattern)
       <==> GlobAccepts([ANY] + pattern, parts) || GlobAccepts([ANY] + pattern + [ANY], parts)
  {
    LeadingAny(pattern, parts);
    TrailingAny([ANY] + pattern, parts);
    if RuleMatches(parts, pattern) {
      var i :| 0 <= i < |parts| && GlobAccepts(pattern, [parts[i]]);
      LeadingAny(pattern, parts[..i + 1]);
      assert parts[..i + 1][i..] == [parts[i]];
    }
    if k :| 0 <= k <= |parts| && GlobAccepts([ANY] + pattern, parts[..k]) {
      LeadingAny(pattern, parts[..k]);
      var j :| 0 <= j <= k && GlobAccepts(pattern, parts[..k][j..]);
      SingleAcceptsOne(pattern, parts[..k][j..]);
      assert parts[..k][j..] == [parts[j]];
    }
    if GlobAccepts([ANY] + pattern, parts) {
      assert parts[..|parts|] == parts;
    }
  }

  lemma SingleAcceptsOne(pattern: Pattern, value: Path)
    requires |pattern| == 1 && pattern[0] != ANY && GlobAccepts(pattern, value)
    ensures |value| == 1
  {
    assert pattern[1..] == [];
    assert value[1..] == [];
  }

  lemma LongRuleRenders(pattern: Pattern, parts: Path)
    requires WellFormed(pattern) && |pattern| > 1
    ensures RuleMatches(parts, pattern)
       <==> GlobAccepts(RenderedParts(pattern)[0], parts) || GlobAccepts(RenderedParts(pattern)[1], parts)
  {
    var i :| 0 <= i < |pattern| && pattern[i] != ANY;
    NonEmptyMatch(pattern, i);
    assert parts[..|parts|] == parts;
    if Last(pattern) == ANY {
      var base := Closed(pattern);
      assert pattern == base + [ANY];
      EndingInAny(base, parts);
      TrailingAny(base, parts);
      if parts == [] {
        NonEmptyMatch(base, i);
      }
    } else {
      TrailingAny(pattern, parts);
      assert parts[..0] == [];
    }
  }

  lemma {:induction false} LiteralPath(p: Pattern, value: Path)
    requires forall i :: 0 <= i < |p| ==> Literal(p[i]) && p[i] != ANY
    ensures GlobAccepts(p, value) <==> value == p
  {
    if p != [] && value != [] {
      LiteralPath(p[1..], value[1..]);
      LiteralMatchesItself(value[0], p[0]);
      assert value == [value[0]] + value[1..] && p == [p[0]] + p[1..];
    }
  }

  lemma RuntimeRenders(policy: Policy, parts: Path)
    requires Valid(policy) && policy.runtime.Some?
    ensures UnderRuntime(policy, parts)
       <==> ExcludeMatches([policy.runtime.value, policy.runtime.value + "/**"], parts)
  {
    hide GlobAccepts, SplitOn, ExcludeMatches;
    var text := policy.runtime.value;
    var p := SplitOn(text, '/');
    SplitBelow(text);
    EitherExclude([text, text + "/**"], parts);
    LiteralPath(p, parts);
    BelowLiteral(p, parts);
  }

  lemma SplitBelow(text: string)
    ensures SplitOn(text + "/**", '/') == SplitOn(text, '/') + [ANY]
  {
    assert text + "/**" == text + "/" + ANY;
    SplitAtSeparator(text, ANY, '/');
    SplitFree(ANY, '/');
  }

  lemma BelowLiteral(p: Pattern, parts: Path)
    requires forall i :: 0 <= i < |p| ==> Literal(p[i])
    ensures GlobAccepts(p + [ANY], parts) <==> p <= parts
  {
    hide GlobAccepts;
    TrailingAny(p, parts);
    forall k | 0 <= k <= |parts|
      ensures GlobAccepts(p, parts[..k]) <==> parts[..k] == p
    {
      LiteralPath(p, parts[..k]);
    }
    if p <= parts {
      assert parts[..|p|] == p;
    }
  }

  lemma GitRenders(parts: Path)
    ensures GIT in parts <==> ExcludeMatches(["**/.git", "**/.git/**"], parts)
  {
    var rule := [GIT];
    assert rule[0] != ANY;
    assert WellFormed(rule);
    assert Join(rule, '/') == GIT;
    assert "**/" + GIT == "**/.git" && "**/.git" + "/**" == "**/.git/**";
    assert Rendered(rule) == ["**/.git", "**/.git/**"];
    RuleRenders(rule, parts);
    forall i | 0 <= i < |parts|
      ensures GlobAccepts(rule, [parts[i]]) <==> parts[i] == GIT
    {
      LiteralPath(rule, [parts[i]]);
    }
  }

  lemma MatchesAppend(a: seq<string>, b: seq<string>, parts: Path)
    ensures ExcludeMatches(a + b, parts) <==> ExcludeMatches(a, parts) || ExcludeMatches(b, parts)
  {
  }

  /** All rendered excludes together, on any list of components. */
  lemma ExcludesMeaning(policy: Policy, parts: Path)
    requires Valid(policy)
    ensures ExcludeMatches(ResticExcludes(policy), parts)
       <==> Covered(policy, parts) || (policy.mode == SourceOnly && GIT in parts)
  {
    var rules := RenderedAll(policy.patterns);
    var git := if policy.mode == SourceOnly then ["**/.git", "**/.git/**"] else [];
    var active := if policy.runtime.Some? then [policy.runtime.value, policy.runtime.value + "/**"] else [];
    DistinctKeepsMembers(rules + git + active);
    MatchesAppend(rules + git, active, parts);
    MatchesAppend(rules, git, parts);
    GitRenders(parts);
    if policy.runtime.Some? {
      RuntimeRenders(policy, parts);
    }
    RulesRender(policy, parts);
  }

  lemma RulesRender(policy: Policy, parts: Path)
    requires Valid(policy)
    ensures ExcludeMatches(RenderedAll(policy.patterns), parts)
       <==> exists p :: p in policy.patterns && RuleMatches(parts, p)
  {
    RenderedAllMembers(policy.patterns);
    forall p | p in policy.patterns
      ensures RuleMatches(parts, p) <==> ExcludeMatches(Rendered(p), parts)
    {
      RuleRenders(p, parts);
    }
    if e :| e in RenderedAll(policy.patterns) && GlobAccepts(SplitOn(e, '/'), parts) {
      var p :| p in policy.patterns && e in Rendered(p);
      assert ExcludeMatches(Rendered(p), parts);
    }
  }

  // ----- The two readings agree -----

  /** In source-only mode a path is excluded exactly when some exclude matches it. */
  lemma SourceOnlyAgrees(policy: Policy, path: string)
    requires Valid(policy) && Normalized(path) && policy.mode == SourceOnly
    ensures IsExcluded(policy, path) <==> ExcludeMatches(ResticExcludes(policy), SplitOn(path, '/'))
  {
    hide ExcludeMatches, ResticExcludes, SplitOn, IsExcluded, Covered, Valid, Normalized;
    var parts := SplitOn(path, '/');
    ExclusionByComponents(policy, path);
    ExcludesMeaning(policy, parts);
    if GIT !in parts {
      assert parts[..GitIndex(parts)] == parts;
    }
  }

  /** In full-repository mode the excludes speak about the part of the path above its first `.git`. */
  lemma FullRepositoryAgreesAboveGit(policy: Policy, path: string)
    requires Valid(policy) && Normalized(path) && policy.mode == FullRepository
    ensures var parts := SplitOn(path, '/');
            IsExcluded(policy, path) <==> ExcludeMatches(ResticExcludes(policy), parts[..GitIndex(parts)])
  {
    hide ExcludeMatches, ResticExcludes, SplitOn, IsExcluded, Covered, Valid, Normalized;
    var parts := SplitOn(path, '/');
    ExclusionByComponents(policy, path);
    ExcludesMeaning(policy, parts[..GitIndex(parts)]);
  }

  /** Every excluded path is matched by some exclude. */
  lemma ExcludedIsMatched(policy: Policy, path: string)
    requires Valid(policy) && Normalized(path) && IsExcluded(policy, path)
    ensures ExcludeMatches(ResticExcludes(policy), SplitOn(path, '/'))
  {
    hide ExcludeMatches, ResticExcludes, SplitOn, IsExcluded, Covered, Valid, Normalized;
    var parts := SplitOn(path, '/');
    var g := GitIndex(parts);
    ExclusionByComponents(policy, path);
    ExcludesMeaning(policy, parts);
    if Covered(policy, parts[..g]) {
      CoveredBelow(policy, parts[..g], parts[g..]);
      assert parts == parts[..g] + parts[g..];
    }
  }

  /** Without a `.git` component the two readings agree in full-repository mode as well. */
  lemma AgreesWithoutGit(policy: Policy, path: string)
    requires Valid(policy) && Normalized(path) && GIT !in SplitOn(path, '/')
    ensures IsExcluded(policy, path) <==> ExcludeMatches(ResticExcludes(policy), SplitOn(path, '/'))
  {
    hide ExcludeMatches, ResticExcludes, SplitOn, IsExcluded, Covered, Valid, Normalized;
    var parts := SplitOn(path, '/');
    ExclusionByComponents(policy, path);
    ExcludesMeaning(policy, parts);
    assert parts[..GitIndex(parts)] == parts;
  }

  /**
   In full-repository mode the two readings agree on a path exactly when no rule
   and no runtime path reaches it only at or below its first `.git`.
  */
  lemma {:induction false} FullRepositoryAgreesExactly(policy: Policy, path: string)
    requires Valid(policy) && Normalized(path) && policy.mode == FullRepository
    ensures var parts := SplitOn(path, '/');
            (IsExcluded(policy, path) <==> ExcludeMatches(ResticExcludes(policy), parts))
            <==> (Covered(policy, parts) ==> Covered(policy, parts[..GitIndex(parts)]))
  {
    hide ExcludeMatches, ResticExcludes, SplitOn, IsExcluded, Covered, Valid, Normalized;
    var parts := SplitOn(path, '/');
    ExclusionByComponents(policy, path);
    ExcludesMeaning(policy, parts);
    if Covered(policy, parts[..GitIndex(parts)]) {
      CoveredBelow(policy, parts[..GitIndex(parts)], parts[GitIndex(parts)..]);
      assert parts == parts[..GitIndex(parts)] + parts[GitIndex(parts)..];
    }
  }

  const VENV: string := "venv"

  /** What the one rule for a `venv` at any depth compiles to. */
  const VENV_POLICY := Policy(FullRepository, [[ANY, VENV]], None)

  lemma VenvRuleIsAccepted()
    ensures PatternParts("**/venv") == Ok([ANY, VENV])
  {
    hide SplitOn, Collapse, GoodComponent, HoldsAny, Utf16Length;
    VenvRuleSplits();
    VenvRuleCollapses();
    VenvComponents();
    ShortText("**/venv");
  }

  lemma VenvRuleSplits()
    ensures SplitOn("**/venv", '/') == [ANY, VENV]
  {
    assert "**/venv" == ANY + ['/'] + VENV;
    SplitAtSeparator(ANY, VENV, '/');
    SplitFree(ANY, '/');
    SplitFree(VENV, '/');
  }

  lemma VenvRuleCollapses()
    ensures Collapse([ANY, VENV]) == [ANY, VENV]
  {
    var raw: Pattern := [ANY, VENV];
    var none: Pattern := [];
    assert raw[..1] == [ANY] && raw[..1][..0] == none;
    assert Collapse(raw[..1]) == [ANY];
  }

  lemma VenvComponents()
    ensures GoodComponent(ANY) && GoodComponent(VENV) && !HoldsAny(VENV)
  {}

  lemma {:induction false} ShortText(text: string)
    ensures Utf16Length(text) <= 2 * |text|
  {
    if text != "" {
      ShortText(text[1..]);
    }
  }

  lemma {:induction false} VenvPolicyIsCompiled()
    ensures Compile(["**/venv"], None, None) == Ok(VENV_POLICY) && Valid(VENV_POLICY)
  {
    var defaults := ["**/venv"];
    VenvRuleIsAccepted();
    DefaultsExactly(defaults);
    assert PartsOf(defaults) == [[ANY, VENV]];
    CompiledIsValid(defaults, None, None);
  }

  /** It keeps every other name at the top of the workspace. */
  lemma OtherNamesAreKept(name: string)
    requires EntryName(name) && name != GIT && name != VENV
    ensures Normalized(name) && !IsExcluded(VENV_POLICY, name)
  {
    SplitFree(name, '/');
    assert name[0] in name;
    VenvPolicyIsCompiled();
    ExclusionByComponents(VENV_POLICY, name);
    NotCoveredByVenv(name);
    var g := GitIndex([name]);
    assert [name][..g] == if g == 0 then [] else [name];
    NothingCoversTheRoot(VENV_POLICY);
  }

  lemma NotCoveredByVenv(name: string)
    requires name != VENV
    ensures !Covered(VENV_POLICY, [name])
  {
    var rule: Pattern := [ANY, VENV];
    var parts: Path := [name];
    assert rule == [ANY] + [VENV];
    LeadingAny([VENV], parts);
    LiteralPath([VENV], parts);
    LiteralPath([VENV], []);
    assert parts[0..] == parts && parts[1..] == [];
    assert parts[..1] == parts;
    assert forall j :: 0 <= j <= |parts| ==> !GlobAccepts([VENV], parts[j..]);
    assert !RuleMatches(parts, rule);
  }

  lemma RuleForVenv()
    ensures WellFormed([ANY, VENV])
    ensures RuleMatches([GIT, VENV], [ANY, VENV])
  {
    var rule: Pattern := [ANY, VENV];
    var parts: Path := [GIT, VENV];
    assert rule[1] != ANY;
    LeadingAny([VENV], parts);
    assert parts[1..] == [VENV];
    LiteralPath([VENV], parts[1..]);
    assert rule == [ANY] + [VENV];
    assert parts[..2] == parts;
  }

  /** The converse fails inside a repository: `.git/venv` is kept, yet the rendered exclude matches it. */
  lemma {:induction false} RepositoryInsidesAreKept()
    ensures Compile(["**/venv"], None, None) == Ok(VENV_POLICY)
    ensures var path := GIT + "/" + VENV;
            && Normalized(path)
            && !IsExcluded(VENV_POLICY, path)
            && ExcludeMatches(ResticExcludes(VENV_POLICY), SplitOn(path, '/'))
  {
    var policy := VENV_POLICY;
    VenvPolicyIsCompiled();
    var path := GIT + "/" + VENV;
    var parts: Path := [GIT, VENV];
    VenvPath();
    RuleForVenv();
    assert [ANY, VENV] in policy.patterns;
    assert Covered(policy, parts);
    ExcludesMeaning(policy, parts);
    ExclusionByComponents(policy, path);
    assert parts[..0] == [];
    NothingCoversTheRoot(policy);
  }

  lemma VenvPath()
    ensures var path := GIT + "/" + VENV;
            SplitOn(path, '/') == [GIT, VENV] && Normalized(path) && GitIndex([GIT, VENV]) == 0
  {
    var path := GIT + "/" + VENV;
    SplitAtSeparator(GIT, VENV, '/');
    SplitFree(GIT, '/');
    SplitFree(VENV, '/');
    assert SplitOn(path, '/') == [GIT, VENV];
    assert GoodName(GIT) && GoodName(VENV);
    assert '\\' !in path;
  }
}
