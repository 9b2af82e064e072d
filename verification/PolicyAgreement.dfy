/** For which rules the exclusion test and the rendered excludes agree on every path of a full repository. */
module PolicyAgreement {
  import opened Sequences
  import opened Glob
  import opened CapturePolicy

  /** The two readings agree on every normalized path. */
  ghost predicate AgreesEverywhere(policy: Policy) {
    forall path :: Normalized(path) ==>
      (IsExcluded(policy, path) <==> ExcludeMatches(ResticExcludes(policy), SplitOn(path, '/')))
  }

  /**
   A rule that reaches nothing through `.git`: it has more than one component, `**` is
   at most its last, and no other component matches `.git`.
  */
  predicate ShunsGit(p: Pattern) {
    |p| > 1 && forall i :: 0 <= i < |p| ==> ShunsAt(p, i)
  }

  predicate ShunsAt(p: Pattern, i: nat)
    requires i < |p|
  {
    if p[i] == ANY then i == |p| - 1 else !SegmentMatches(GIT, p[i])
  }

  // ----- Enough: rules that shun `.git` -----

  lemma {:induction false} PlainAccepts(p: Pattern, value: Path)
    requires ANY !in p && GlobAccepts(p, value)
    ensures |value| == |p| && forall i :: 0 <= i < |p| ==> SegmentMatches(value[i], p[i])
  {
    if p != [] {
      assert p[0] in p;
      PlainAccepts(p[1..], value[1..]);
      forall i | 0 <= i < |p|
        ensures SegmentMatches(value[i], p[i])
      {
        if i > 0 {
          assert SegmentMatches(value[1..][i - 1], p[1..][i - 1]);
        }
      }
    }
  }

  /** A rule without its closing `**`. */
  function Base(p: Pattern): Pattern
    requires p != []
  {
    if Last(p) == ANY then Closed(p) else p
  }

  lemma BaseIsPlain(p: Pattern)
    requires ShunsGit(p)
    ensures Base(p) != [] && ANY !in Base(p)
    ensures forall i :: 0 <= i < |Base(p)| ==> !SegmentMatches(GIT, Base(p)[i])
  {
    forall i | 0 <= i < |Base(p)|
      ensures Base(p)[i] != ANY && !SegmentMatches(GIT, Base(p)[i])
    {
      assert ShunsAt(p, i);
    }
  }

  lemma BaseAccepts(p: Pattern, value: Path) returns (k: nat)
    requires p != [] && GlobAccepts(p, value)
    ensures k <= |value| && GlobAccepts(Base(p), value[..k])
  {
    if Last(p) == ANY {
      assert p == Closed(p) + [ANY];
      TrailingAny(Closed(p), value);
      k :| 0 <= k <= |value| && GlobAccepts(Closed(p), value[..k]);
    } else {
      k := |value|;
      assert value[..k] == value;
    }
  }

  lemma BaseIsEnough(p: Pattern, value: Path)
    requires p != [] && GlobAccepts(Base(p), value)
    ensures GlobAccepts(p, value)
  {
    if Last(p) == ANY {
      assert p == Closed(p) + [ANY];
      assert value[..|value|] == value;
      TrailingAny(Closed(p), value);
    }
  }

  lemma {:induction false} GitIsLater(parts: Path, k: nat)
    requires k <= |parts| && GIT !in parts[..k]
    ensures GitIndex(parts) >= k
  {
    if k > 0 {
      assert parts[..k][0] in parts[..k] && parts[..k][1..] == parts[1..][..k - 1];
      GitIsLater(parts[1..], k - 1);
    }
  }

  lemma RuleShuns(p: Pattern, parts: Path)
    requires ShunsGit(p) && RuleMatches(parts, p)
    ensures RuleMatches(parts[..GitIndex(parts)], p)
  {
    hide GlobAccepts, SegmentMatches, GitIndex;
    var n :| 1 <= n <= |parts| && GlobAccepts(p, parts[..n]);
    var k := BaseAccepts(p, parts[..n]);
    assert parts[..n][..k] == parts[..k];
    BaseIsPlain(p);
    PlainAccepts(Base(p), parts[..k]);
    assert GIT !in parts[..k];
    GitIsLater(parts, k);
    BaseIsEnough(p, parts[..k]);
    assert parts[..GitIndex(parts)][..k] == parts[..k];
  }

  /** Every rule shuns `.git`, and so does the path of the runtime. */
  predicate AllShunGit(policy: Policy) {
    && (forall p :: p in policy.patterns ==> ShunsGit(p))
    && (policy.runtime.Some? ==> GIT !in SplitOn(policy.runtime.value, '/'))
  }

  lemma CoverShuns(policy: Policy, parts: Path)
    requires AllShunGit(policy) && Covered(policy, parts)
    ensures Covered(policy, parts[..GitIndex(parts)])
  {
    hide RuleMatches, GitIndex, SplitOn, ShunsGit;
    if UnderRuntime(policy, parts) {
      var runtime := SplitOn(policy.runtime.value, '/');
      assert parts[..|runtime|] == runtime;
      GitIsLater(parts, |runtime|);
    } else {
      var p :| p in policy.patterns && RuleMatches(parts, p);
      RuleShuns(p, parts);
    }
  }

  /** What a caller can check on the rules: when all of them shun `.git`, the readings agree on every path. */
  lemma {:induction false} ShunningAgrees(policy: Policy)
    requires Valid(policy) && policy.mode == FullRepository && AllShunGit(policy)
    ensures AgreesEverywhere(policy)
  {
    forall path | Normalized(path)
      ensures IsExcluded(policy, path) <==> ExcludeMatches(ResticExcludes(policy), SplitOn(path, '/'))
    {
      hide IsExcluded, ExcludeMatches, ResticExcludes, Covered, Valid, AllShunGit, Normalized, SplitOn;
      FullRepositoryAgreesExactly(policy, path);
      if Covered(policy, SplitOn(path, '/')) {
        CoverShuns(policy, SplitOn(path, '/'));
      }
    }
  }

  // ----- Needed: a single rule that does not -----

  /** A name that a component of a rule matches. */
  function Sample(pattern: string): (name: string)
    ensures |name| == |pattern|
  {
    if pattern == "" then ""
    else [if pattern[0] == '*' || pattern[0] == '?' then 'a' else pattern[0]] + Sample(pattern[1..])
  }

  lemma {:induction false} SampleMatches(pattern: string)
    requires '/' !in pattern
    ensures SegmentMatches(Sample(pattern), pattern)
  {
    if pattern != "" {
      var name := Sample(pattern);
      assert name[1..] == Sample(pattern[1..]);
      SampleMatches(pattern[1..]);
      assert pattern[0] in pattern;
      if pattern[0] == '*' {
        assert SegmentMatches(name[1..], pattern);
      }
    }
  }

  lemma {:induction false} SampleHolds(pattern: string, c: char)
    requires c != 'a' && c !in pattern
    ensures c !in Sample(pattern)
  {
    if pattern != "" {
      assert pattern[0] in pattern;
      SampleHolds(pattern[1..], c);
    }
  }

  lemma SampleOfShort(pattern: string)
    requires Sample(pattern) == "." || Sample(pattern) == ".."
    ensures pattern == Sample(pattern)
  {
    assert Sample(pattern)[0] == '.';
    if |pattern| == 2 {
      assert Sample(pattern)[1..] == Sample(pattern[1..]);
      assert Sample(pattern[1..])[0] == '.';
      assert pattern == [pattern[0]] + pattern[1..];
    }
  }

  lemma {:induction false} SampleIsName(pattern: string)
    requires GoodComponent(pattern) && '/' !in pattern && '\\' !in pattern
    ensures EntryName(Sample(pattern)) && SegmentMatches(Sample(pattern), pattern)
  {
    SampleMatches(pattern);
    SampleHolds(pattern, '/');
    SampleHolds(pattern, '\\');
    if Sample(pattern) == "." || Sample(pattern) == ".." {
      SampleOfShort(pattern);
    }
  }

  /** The shortest path of sample names that a pattern accepts. */
  function Samples(p: Pattern): Path {
    if p == [] then []
    else (if p[0] == ANY then [] else [Sample(p[0])]) + Samples(p[1..])
  }

  /** Components as an accepted rule has them. */
  predicate GoodParts(p: Pattern) {
    forall i :: 0 <= i < |p| ==> GoodComponent(p[i]) && '/' !in p[i] && '\\' !in p[i]
  }

  predicate EntryNames(parts: Path) {
    forall i :: 0 <= i < |parts| ==> EntryName(parts[i])
  }

  lemma {:induction false} SamplesAccepted(p: Pattern)
    requires GoodParts(p)
    ensures GlobAccepts(p, Samples(p)) && EntryNames(Samples(p))
  {
    hide SegmentMatches, GoodComponent, EntryName;
    if p != [] {
      SamplesAccepted(p[1..]);
      if p[0] != ANY {
        SampleIsName(p[0]);
        assert Samples(p)[1..] == Samples(p[1..]);
      } else {
        assert Samples(p) == Samples(p[1..]);
      }
    }
  }

  lemma {:induction false} SamplesAreShortest(p: Pattern, value: Path)
    requires GlobAccepts(p, value)
    ensures |value| >= |Samples(p)|
    decreases |p|, |value|
  {
    if p != [] {
      if p[0] != ANY {
        SamplesAreShortest(p[1..], value[1..]);
      } else if GlobAccepts(p[1..], value) {
        SamplesAreShortest(p[1..], value);
      } else {
        SamplesAreShortest(p, value[1..]);
      }
    }
  }

  lemma {:induction false} SamplesAppend(p: Pattern, q: Pattern)
    ensures Samples(p + q) == Samples(p) + Samples(q)
  {
    if p == [] {
      assert p + q == q;
    } else {
      assert (p + q)[1..] == p[1..] + q;
      SamplesAppend(p[1..], q);
    }
  }

  /** Where a rule does not shun `.git`, a path through `.git` takes its place. */
  function Through(p: Pattern, i: nat): Path
    requires i < |p|
  {
    Samples(p[..i]) + [GIT] + Samples(p[i + 1..])
  }

  lemma {:induction false} ThroughAccepted(p: Pattern, i: nat)
    requires GoodParts(p) && i < |p| && (p[i] == ANY || SegmentMatches(GIT, p[i]))
    ensures GlobAccepts(p, Through(p, i)) && EntryNames(Through(p, i))
  {
    hide GlobAccepts, SegmentMatches, Samples, GoodParts, EntryNames;
    PartsAreGood(p, i);
    SamplesAccepted(p[..i]);
    SamplesAccepted(p[i + 1..]);
    OneAcceptsGit(p[i]);
    assert p == p[..i] + [p[i]] + p[i + 1..];
    GlobPaste(p[..i], [p[i]], Samples(p[..i]), [GIT]);
    GlobPaste(p[..i] + [p[i]], p[i + 1..], Samples(p[..i]) + [GIT], Samples(p[i + 1..]));
    NamesAround(Samples(p[..i]), Samples(p[i + 1..]));
  }

  lemma PartsAreGood(p: Pattern, i: nat)
    requires GoodParts(p) && i < |p|
    ensures GoodParts(p[..i]) && GoodParts(p[i + 1..])
  {
    hide GoodComponent;
  }

  lemma NamesAround(front: Path, back: Path)
    requires EntryNames(front) && EntryNames(back)
    ensures EntryNames(front + [GIT] + back)
  {
    assert EntryName(GIT);
    hide EntryName;
  }

  lemma OneAcceptsGit(part: string)
    requires part == ANY || SegmentMatches(GIT, part)
    ensures GlobAccepts([part], [GIT])
  {
    hide SegmentMatches;
    var one: Path := [GIT];
    var none: Path := [];
    assert one[1..] == none && [part][1..] == [];
    if part == ANY {
      assert GlobAccepts([part], none);
    }
  }

  /** The part of that path above its first `.git` is too short for the rule. */
  lemma HeadIsShort(p: Pattern, i: nat)
    requires i < |p| && (p[i] == ANY ==> i + 1 < |p| && p[i + 1] != ANY)
    ensures GitIndex(Through(p, i)) < |Samples(p)|
  {
    var path := Through(p, i);
    var k := |Samples(p[..i])|;
    assert path[k] == GIT;
    AtOrBefore(path, k);
    hide GitIndex;
    assert p == p[..i] + [p[i]] + p[i + 1..];
    SamplesAppend(p[..i] + [p[i]], p[i + 1..]);
    SamplesAppend(p[..i], [p[i]]);
    SamplesOfOne(p[i]);
    if p[i] == ANY {
      assert p[i + 1..][0] == p[i + 1];
      assert |Samples(p[i + 1..])| >= 1;
    }
  }

  lemma SamplesOfOne(part: string)
    ensures |Samples([part])| == if part == ANY then 0 else 1
  {
    assert [part][1..] == [];
  }

  lemma {:induction false} AtOrBefore(parts: Path, k: nat)
    requires k < |parts| && parts[k] == GIT
    ensures GitIndex(parts) <= k
  {
    if k > 0 && parts[0] != GIT {
      AtOrBefore(parts[1..], k - 1);
    }
  }

  /** Good names make a normalized path. */
  lemma JoinIsNormalized(parts: Path)
    requires parts != [] && EntryNames(parts)
    ensures Normalized(Join(parts, '/')) && SplitOn(Join(parts, '/'), '/') == parts
  {
    forall i | 0 <= i < |parts|
      ensures '/' !in parts[i] && '\\' !in parts[i] && GoodName(parts[i])
    {
      assert EntryName(parts[i]);
    }
    assert Free(parts, '/');
    JoinThenSplit(parts, '/');
    JoinKeepsElements(parts, '/', '\\');
    hide SplitOn;
    assert Join(parts, '/')[..|parts[0]|] == parts[0];
    assert parts[0][0] in parts[0];
  }

  function OneRule(p: Pattern): Policy {
    Policy(FullRepository, [p], None)
  }

  lemma OneRuleCovers(p: Pattern, parts: Path)
    ensures Covered(OneRule(p), parts) <==> RuleMatches(parts, p)
  {
    hide RuleMatches;
    assert p in OneRule(p).patterns;
  }

  /** A path that the rule reaches only at or below its first `.git`. */
  lemma PathThroughGit(p: Pattern) returns (parts: Path)
    requires WellFormed(p) && !ShunsGit(p)
    ensures parts != [] && EntryNames(parts)
    ensures RuleMatches(parts, p) && !RuleMatches(parts[..GitIndex(parts)], p)
  {
    if |p| == 1 {
      SampleIsName(p[0]);
      parts := [GIT, Sample(p[0])];
      var one := [Sample(p[0])];
      assert one[1..] == [] && p[1..] == [];
      assert GlobAccepts(p, [parts[1]]);
      assert parts[..0] == [];
    } else {
      var i: nat :| i < |p| && !ShunsAt(p, i);
      parts := Through(p, i);
      assert GoodParts(p);
      ThroughAccepted(p, i);
      HeadIsShort(p, i);
      hide GlobAccepts, GitIndex, ShunsAt, Samples, Through;
      assert parts[..|parts|] == parts;
      TooShort(p, parts[..GitIndex(parts)]);
      NotEmptyThrough(p, i);
    }
  }

  lemma NotEmptyThrough(p: Pattern, i: nat)
    requires i < |p|
    ensures |Through(p, i)| >= 1
  {}

  lemma TooShort(p: Pattern, parts: Path)
    requires |p| > 1 && |parts| < |Samples(p)|
    ensures !RuleMatches(parts, p)
  {
    hide GlobAccepts, Samples;
    forall n | 1 <= n <= |parts|
      ensures !GlobAccepts(p, parts[..n])
    {
      if GlobAccepts(p, parts[..n]) {
        SamplesAreShortest(p, parts[..n]);
      }
    }
  }

  /**
   A full-repository policy of one rule agrees with its excludes on every path if and only if
   the rule shuns `.git`.
  */
  lemma OneRuleAgreesExactly(p: Pattern)
    requires WellFormed(p)
    ensures AgreesEverywhere(OneRule(p)) <==> ShunsGit(p)
  {
    var policy := OneRule(p);
    assert Valid(policy);
    if ShunsGit(p) {
      ShunningAgrees(policy);
    } else {
      var parts := PathThroughGit(p);
      hide ShunsGit, RuleMatches, GitIndex, WellFormed, Covered, IsExcluded, ExcludeMatches, ResticExcludes, Valid,
          SplitOn;
      JoinIsNormalized(parts);
      OneRuleCovers(p, parts);
      OneRuleCovers(p, parts[..GitIndex(parts)]);
      FullRepositoryAgreesExactly(policy, Join(parts, '/'));
    }
  }
}
