/**
 The baseline that says whether a workspace differs from what was saved.

 A check records a number for its path, computes a fingerprint, and uses the result
 only if the number of its path is still its own. The numbers live in a map that
 keeps the order of first insertion and forgets its oldest key above a limit.
*/
module Baseline {
  import opened Sequences
  import opened CapturePolicy
  import opened Traversal

  const MAX_PENDING_EVENTS := 128

  // ----- A map in insertion order -----

  datatype Numbered = Numbered(key: string, number: nat)

  function Lookup(m: seq<Numbered>, key: string): Option<nat> {
    if m == [] then None else if m[0].key == key then Some(m[0].number) else Lookup(m[1..], key)
  }

  /** Setting a key that is there keeps its place. */
  function Put(m: seq<Numbered>, key: string, number: nat): seq<Numbered> {
    if m == [] then [Numbered(key, number)]
    else if m[0].key == key then [Numbered(key, number)] + m[1..]
    else [m[0]] + Put(m[1..], key, number)
  }

  predicate Distinct(m: seq<Numbered>) {
    m == [] || (Lookup(m[1..], m[0].key).None? && Distinct(m[1..]))
  }

  /** The number of keys before `key`. */
  function Place(m: seq<Numbered>, key: string): nat {
    if m == [] || m[0].key == key then 0 else Place(m[1..], key) + 1
  }

  lemma {:induction false} PutReads(m: seq<Numbered>, key: string, number: nat, other: string)
    ensures Lookup(Put(m, key, number), other) == if other == key then Some(number) else Lookup(m, other)
    ensures |Put(m, key, number)| == |m| + if Lookup(m, key).None? then 1 else 0
    ensures other != key && Lookup(m, other).Some? ==> Place(Put(m, key, number), other) == Place(m, other)
  {
    if m != [] {
      var put := Put(m, key, number);
      assert put[1..] == if m[0].key == key then m[1..] else Put(m[1..], key, number);
      PutReads(m[1..], key, number, other);
    }
  }

  lemma {:induction false} PutKeepsDistinct(m: seq<Numbered>, key: string, number: nat)
    requires Distinct(m)
    ensures Distinct(Put(m, key, number))
  {
    if m != [] {
      var put := Put(m, key, number);
      assert put[1..] == if m[0].key == key then m[1..] else Put(m[1..], key, number);
      PutKeepsDistinct(m[1..], key, number);
      PutReads(m[1..], key, number, m[0].key);
    }
  }

  function NextSequence(m: seq<Numbered>, key: string, counter: nat): (seq<Numbered>, nat) {
    var put := Put(m, key, counter + 1);
    (if |put| > MAX_PENDING_EVENTS then put[1..] else put, counter + 1)
  }

  /** A full map meets a new key. */
  predicate Evicts(m: seq<Numbered>, key: string) {
    |m| == MAX_PENDING_EVENTS && Lookup(m, key).None?
  }

  predicate Bounded(m: seq<Numbered>) {
    Distinct(m) && |m| <= MAX_PENDING_EVENTS
  }

  /** The new number is in the map; only a full map that meets a new key forgets one, its first. */
  lemma {:induction false} NextSequenceKeeps(m: seq<Numbered>, key: string, counter: nat, other: string)
    requires Bounded(m)
    ensures var next := NextSequence(m, key, counter).0;
            && Bounded(next)
            && Lookup(next, key) == Some(counter + 1)
            && (other != key ==>
                  Lookup(next, other) == if Evicts(m, key) && other == m[0].key then None else Lookup(m, other))
            && (other != key && Lookup(next, other).Some? ==>
                  Place(next, other) == Place(m, other) - if Evicts(m, key) then 1 else 0)
  {
    PutKeepsDistinct(m, key, counter + 1);
    PutReads(m, key, counter + 1, key);
    PutReads(m, key, counter + 1, other);
  }

  // ----- The numbers after many checks -----

  function Recorded(m: seq<Numbered>, counter: nat, keys: seq<string>): seq<Numbered>
    decreases |keys|
  {
    if keys == [] then m else Recorded(NextSequence(m, keys[0], counter).0, counter + 1, keys[1..])
  }

  /** How often the map forgets a key. */
  function Evictions(m: seq<Numbered>, counter: nat, keys: seq<string>): nat
    decreases |keys|
  {
    if keys == [] then 0
    else (if Evicts(m, keys[0]) then 1 else 0) + Evictions(NextSequence(m, keys[0], counter).0, counter + 1, keys[1..])
  }

  lemma {:induction false} RecordedAppend(m: seq<Numbered>, counter: nat, a: seq<string>, b: seq<string>)
    ensures Recorded(m, counter, a + b) == Recorded(Recorded(m, counter, a), counter + |a|, b)
    decreases |a|
  {
    if a == [] {
      assert a + b == b;
    } else {
      assert (a + b)[1..] == a[1..] + b;
      RecordedAppend(NextSequence(m, a[0], counter).0, counter + 1, a[1..], b);
    }
  }

  lemma {:induction false} RecordedIsBounded(m: seq<Numbered>, counter: nat, keys: seq<string>)
    requires Bounded(m)
    ensures Bounded(Recorded(m, counter, keys))
    decreases |keys|
  {
    if keys != [] {
      NextSequenceKeeps(m, keys[0], counter, keys[0]);
      RecordedIsBounded(NextSequence(m, keys[0], counter).0, counter + 1, keys[1..]);
    }
  }

  lemma {:induction false} ForgottenStaysForgotten(m: seq<Numbered>, counter: nat, keys: seq<string>, key: string)
    requires Bounded(m) && key !in keys && Lookup(m, key).None?
    ensures Lookup(Recorded(m, counter, keys), key) == None
    decreases |keys|
  {
    if keys != [] {
      NextSequenceKeeps(m, keys[0], counter, key);
      ForgottenStaysForgotten(NextSequence(m, keys[0], counter).0, counter + 1, keys[1..], key);
    }
  }

  /** A number survives other checks exactly while the evictions have not passed its place. */
  lemma {:induction false} NumberSurvives(m: seq<Numbered>, counter: nat, keys: seq<string>, key: string)
    requires Bounded(m) && key !in keys && Lookup(m, key).Some?
    ensures Lookup(Recorded(m, counter, keys), key)
         == if Evictions(m, counter, keys) <= Place(m, key) then Lookup(m, key) else None
    decreases |keys|
  {
    if keys != [] {
      var next := NextSequence(m, keys[0], counter).0;
      NextSequenceKeeps(m, keys[0], counter, key);
      if Evicts(m, keys[0]) && m[0].key == key {
        ForgottenStaysForgotten(next, counter + 1, keys[1..], key);
      } else {
        NumberSurvives(next, counter + 1, keys[1..], key);
      }
    }
  }

  // ----- The baseline -----

  datatype State = State(dirty: set<string>, sequence: seq<Numbered>, eventSequence: nat,
                         saved: Option<string>, current: Option<string>, policy: Policy)

  /** An empty fingerprint counts as none. */
  predicate IsSet(fingerprint: Option<string>) {
    fingerprint.Some? && fingerprint.value != ""
  }

  function CheckStarted(s: State, relative: string): State {
    var (sequence, number) := NextSequence(s.sequence, relative, s.eventSequence);
    s.(sequence := sequence, eventSequence := number)
  }

  predicate Accepts(s: State, relative: string, number: nat) {
    Lookup(s.sequence, relative) == Some(number)
  }

  function CheckFinished(s: State, relative: string, number: nat, current: string): State {
    if !Accepts(s, relative, number) then s
    else
      var dirty := if IsSet(s.saved) && s.saved == Some(current) then {} else s.dirty + {"."};
      s.(current := Some(current), dirty := dirty)
  }

  function Compared(s: State, current: string): State {
    s.(current := Some(current), dirty := if IsSet(s.saved) && s.saved != Some(current) then {"."} else {})
  }

  function Captured(s: State, saved: Option<string>, given: Option<string>, computed: string): State {
    var wanted := if saved.Some? then saved else s.saved;
    var known := if given.Some? then given else s.current;
    var current := if IsSet(known) then known.value else computed;
    var settled := if IsSet(wanted) then wanted else Some(current);
    State(if settled != Some(current) then {"."} else {}, [], 0, settled, Some(current), s.policy)
  }

  function Reset(s: State, saved: Option<string>, given: Option<string>): State {
    State({}, [], 0, saved, if IsSet(given) then given else saved, s.policy)
  }

  class AuthoritativeWorkspaceBaseline {
    var dirty: set<string>
    var sequence: seq<Numbered>
    var eventSequence: nat
    var savedFingerprint: Option<string>
    var currentFingerprint: Option<string>
    var capturePolicy: Policy

    ghost function Now(): State
      reads this
    {
      State(dirty, sequence, eventSequence, savedFingerprint, currentFingerprint, capturePolicy)
    }

    constructor (saved: Option<string>, current: Option<string>, policy: Policy)
      ensures Now() == State({}, [], 0, saved, current, policy)
    {
      dirty, sequence, eventSequence := {}, [], 0;
      savedFingerprint, currentFingerprint, capturePolicy := saved, current, policy;
    }

    /** The part of `check` before the fingerprint is computed; no number means that the path does not count. */
    method StartCheck(path: string) returns (started: Option<(string, nat)>)
      modifies this
      ensures var relative := RelativeForm(path);
              if ShouldMarkDirty(capturePolicy, relative)
              then started == Some((relative, old(eventSequence) + 1)) && Now() == CheckStarted(old(Now()), relative)
              else started == None && Now() == old(Now())
      ensures old(Bounded(sequence)) ==> Bounded(sequence)
      ensures old(Bounded(sequence)) && started.Some? ==> Lookup(sequence, started.value.0) == Some(started.value.1)
    {
      var relative := RelativeForm(path);
      if !ShouldMarkDirty(capturePolicy, relative) {
        return None;
      }
      if Bounded(sequence) {
        NextSequenceKeeps(sequence, relative, eventSequence, relative);
      }
      var number := eventSequence + 1;
      sequence := Put(sequence, relative, number);
      if |sequence| > MAX_PENDING_EVENTS {
        sequence := sequence[1..];
      }
      eventSequence := number;
      return Some((relative, number));
    }

    method FinishCheck(relative: string, number: nat, current: string) returns (isDirty: bool)
      modifies this
      ensures Now() == CheckFinished(old(Now()), relative, number, current)
      ensures isDirty <==> dirty != {}
      ensures old(Lookup(sequence, relative)) != Some(number) ==> unchanged(this)
      ensures old(Lookup(sequence, relative)) == Some(number) ==>
                currentFingerprint == Some(current)
                    && (isDirty <==> savedFingerprint in {None, Some("")} || savedFingerprint != Some(current))
    {
      if Lookup(sequence, relative) != Some(number) {
        return |dirty| > 0;
      }
      currentFingerprint := Some(current);
      if IsSet(savedFingerprint) && savedFingerprint == Some(current) {
        dirty := {};
      } else {
        dirty := dirty + {"."};
      }
      return |dirty| > 0;
    }

    method Compare(current: string) returns (isDirty: bool)
      modifies this
      ensures Now() == Compared(old(Now()), current)
      ensures isDirty <==> dirty != {}
      ensures isDirty <==> savedFingerprint !in {None, Some("")} && savedFingerprint != Some(current)
      ensures currentFingerprint == Some(current) && unchanged(`sequence, `eventSequence, `savedFingerprint)
    {
      currentFingerprint := Some(current);
      dirty := {};
      if IsSet(savedFingerprint) && currentFingerprint != savedFingerprint {
        dirty := dirty + {"."};
      }
      return |dirty| > 0;
    }

    method Capture(saved: Option<string>, given: Option<string>, computed: string)
      modifies this
      ensures Now() == Captured(old(Now()), saved, given, computed)
      ensures currentFingerprint == (if given !in {None, Some("")} then given
                                     else if given == None && old(currentFingerprint) !in {None, Some("")}
                                     then old(currentFingerprint) else Some(computed))
      ensures savedFingerprint == (if saved !in {None, Some("")} then saved
                                   else if saved == None && old(savedFingerprint) !in {None, Some("")}
                                   then old(savedFingerprint) else currentFingerprint)
      ensures dirty == (if savedFingerprint == currentFingerprint then {} else {"."})
      ensures sequence == [] && eventSequence == 0 && unchanged(`capturePolicy)
    {
      if saved.Some? { savedFingerprint := saved; }
      if given.Some? { currentFingerprint := given; }
      dirty, sequence, eventSequence := {}, [], 0;
      var current := if IsSet(currentFingerprint) then currentFingerprint.value else computed;
      currentFingerprint := Some(current);
      if !IsSet(savedFingerprint) { savedFingerprint := Some(current); }
      if Some(current) != savedFingerprint { dirty := dirty + {"."}; }
    }

    method ResetTo(saved: Option<string>, given: Option<string>)
      modifies this
      ensures Now() == Reset(old(Now()), saved, given)
      ensures savedFingerprint == saved && currentFingerprint == if given in {None, Some("")} then saved else given
      ensures dirty == {} && sequence == [] && eventSequence == 0 && unchanged(`capturePolicy)
    {
      savedFingerprint := saved;
      currentFingerprint := if IsSet(given) then given else saved;
      dirty, sequence, eventSequence := {}, [], 0;
    }
  }

  // ----- Interleaved checks -----

  datatype Check = Check(relative: string, number: nat)

  /** Checks start and finish in any order; `Finish` names a check by the order of the starts. */
  datatype Action = Start(path: string) | Finish(check: nat, current: string)

  datatype World = World(state: State, checks: seq<Check>)

  predicate Begins(w: World, a: Action) {
    a.Start? && ShouldMarkDirty(w.state.policy, RelativeForm(a.path))
  }

  function Step(w: World, a: Action): World {
    if Begins(w, a) then
      var relative := RelativeForm(a.path);
      World(CheckStarted(w.state, relative), w.checks + [Check(relative, w.state.eventSequence + 1)])
    else if a.Finish? && a.check < |w.checks| then
      World(CheckFinished(w.state, w.checks[a.check].relative, w.checks[a.check].number, a.current), w.checks)
    else w
  }

  function Run(s: State, actions: seq<Action>): World {
    if actions == [] then World(s, []) else Step(Run(s, actions[..|actions| - 1]), actions[|actions| - 1])
  }

  /** A baseline right after it is made, captured or reset. */
  predicate Fresh(s: State) {
    s.sequence == [] && s.eventSequence == 0 && s.dirty <= {"."}
  }

  function Keys(checks: seq<Check>): (keys: seq<string>)
    ensures |keys| == |checks| && forall i :: 0 <= i < |checks| ==> keys[i] == checks[i].relative
  {
    seq(|checks|, i requires 0 <= i < |checks| => checks[i].relative)
  }

  /** The checks are numbered in order, and the map is the record of their paths. */
  predicate WellNumbered(w: World) {
    && w.state.eventSequence == |w.checks|
    && (forall i :: 0 <= i < |w.checks| ==> w.checks[i].number == i + 1)
    && w.state.sequence == Recorded([], 0, Keys(w.checks))
  }

  lemma NumberedStep(w: World, a: Action)
    requires WellNumbered(w)
    ensures WellNumbered(Step(w, a))
  {
    if Begins(w, a) {
      var next := Step(w, a);
      var relative := RelativeForm(a.path);
      RecordedAppend([], 0, Keys(w.checks), [relative]);
      assert Keys(next.checks) == Keys(w.checks) + [relative];
      RecordedOne(w.state.sequence, |w.checks|, relative);
    }
  }

  lemma {:induction false} RunIsNumbered(s: State, actions: seq<Action>)
    requires Fresh(s)
    ensures WellNumbered(Run(s, actions))
  {
    if actions == [] {
      assert Keys([]) == [];
    } else {
      RunIsNumbered(s, actions[..|actions| - 1]);
      NumberedStep(Run(s, actions[..|actions| - 1]), actions[|actions| - 1]);
    }
  }

  /** The map never holds more than the limit, and always holds the number of the check that started last. */
  lemma LastCheckIsRemembered(s: State, actions: seq<Action>)
    requires Fresh(s)
    ensures var w := Run(s, actions);
            && Bounded(w.state.sequence)
            && (w.checks != [] ==> Accepts(w.state, Last(w.checks).relative, Last(w.checks).number))
  {
    RunIsNumbered(s, actions);
    var w := Run(s, actions);
    RecordedIsBounded([], 0, Keys(w.checks));
    if w.checks != [] {
      SplitAtCheck(w.checks, |w.checks| - 1);
      assert w.checks[|w.checks|..] == [];
    }
  }

  /** The map right after check number `k` (from 0) started, and the rest of the record. */
  lemma {:induction false} SplitAtCheck(checks: seq<Check>, k: nat)
    requires k < |checks|
    ensures var recorded := Recorded([], 0, Keys(checks[..k + 1]));
            && Bounded(recorded)
            && Lookup(recorded, checks[k].relative) == Some(k + 1)
            && Recorded([], 0, Keys(checks)) == Recorded(recorded, k + 1, Keys(checks[k + 1..]))
  {
    hide Recorded, Keys, Bounded, NextSequence, Lookup;
    var (before, relative) := (Keys(checks[..k]), checks[k].relative);
    KeysSplit(checks, k);
    EmptyIsBounded();
    RecordedIsBounded([], 0, before);
    RecordedAppend([], 0, before, [relative]);
    RecordedOne(Recorded([], 0, before), k, relative);
    NextSequenceKeeps(Recorded([], 0, before), relative, k, relative);
    RecordedAppend([], 0, Keys(checks[..k + 1]), Keys(checks[k + 1..]));
  }

  lemma EmptyIsBounded()
    ensures Bounded([])
  {}

  lemma KeysSplit(checks: seq<Check>, k: nat)
    requires k < |checks|
    ensures Keys(checks[..k + 1]) == Keys(checks[..k]) + [checks[k].relative]
    ensures Keys(checks) == Keys(checks[..k + 1]) + Keys(checks[k + 1..])
  {}

  lemma RecordedOne(m: seq<Numbered>, counter: nat, key: string)
    ensures Recorded(m, counter, [key]) == NextSequence(m, key, counter).0
  {
    assert [key][1..] == [];
  }

  /** No later check has the path of check `k`. */
  predicate Newest(checks: seq<Check>, k: nat) {
    k < |checks| && forall j :: k < j < |checks| ==> checks[j].relative != checks[k].relative
  }

  lemma LaterKeysDiffer(checks: seq<Check>, k: nat)
    requires Newest(checks, k)
    ensures checks[k].relative !in Keys(checks[k + 1..])
  {
    var rest := checks[k + 1..];
    forall i | 0 <= i < |rest|
      ensures Keys(rest)[i] != checks[k].relative
    {
      assert rest[i] == checks[k + 1 + i];
    }
  }

  /** The number of a path is the number of its newest check, or forgotten. */
  lemma OnlyTheNewestIsRemembered(checks: seq<Check>, k: nat, newest: nat)
    requires k < |checks| && Newest(checks, newest) && checks[newest].relative == checks[k].relative
    ensures Lookup(Recorded([], 0, Keys(checks)), checks[k].relative) in {None, Some(newest + 1)}
  {
    hide Recorded, Evictions, Keys, Bounded, Lookup;
    SplitAtCheck(checks, newest);
    LaterKeysDiffer(checks, newest);
    NumberSurvives(Recorded([], 0, Keys(checks[..newest + 1])), newest + 1, Keys(checks[newest + 1..]),
        checks[k].relative);
  }

  lemma {:induction false} NewestExists(checks: seq<Check>, k: nat) returns (newest: nat)
    requires k < |checks|
    ensures k <= newest && Newest(checks, newest) && checks[newest].relative == checks[k].relative
    decreases |checks| - k
  {
    if Newest(checks, k) {
      newest := k;
    } else {
      var j :| k < j < |checks| && checks[j].relative == checks[k].relative;
      newest := NewestExists(checks, j);
    }
  }

  // ----- Main results -----

  /** A finished check changes the baseline only if it is the newest check on its path. */
  lemma {:induction false} OnlyTheNewestCheckCounts(s: State, actions: seq<Action>, k: nat, current: string)
    requires Fresh(s)
    ensures var w := Run(s, actions);
            k < |w.checks| && Step(w, Finish(k, current)) != w ==> Newest(w.checks, k)
  {
    RunIsNumbered(s, actions);
    var w := Run(s, actions);
    if k < |w.checks| {
      var newest := NewestExists(w.checks, k);
      OnlyTheNewestIsRemembered(w.checks, k, newest);
    }
  }

  /**
   The newest check on a path counts exactly while the evictions since its start have not
   passed its place in the map.
  */
  lemma NewestCheckCountsExactly(s: State, actions: seq<Action>, k: nat)
    requires Fresh(s) && Newest(Run(s, actions).checks, k)
    ensures var w := Run(s, actions);
            var recorded := Recorded([], 0, Keys(w.checks[..k + 1]));
            Accepts(w.state, w.checks[k].relative, w.checks[k].number)
            <==> Evictions(recorded, k + 1, Keys(w.checks[k + 1..])) <= Place(recorded, w.checks[k].relative)
  {
    hide Run, Recorded, Evictions, Keys, Bounded, Lookup;
    RunIsNumbered(s, actions);
    var w := Run(s, actions);
    SplitAtCheck(w.checks, k);
    LaterKeysDiffer(w.checks, k);
    NumberSurvives(Recorded([], 0, Keys(w.checks[..k + 1])), k + 1, Keys(w.checks[k + 1..]), w.checks[k].relative);
  }

  /** After a check that counts, the baseline is dirty exactly when the fingerprint is not the saved one. */
  lemma DirtyMeansDifferent(s: State, relative: string, number: nat, current: string)
    requires Accepts(s, relative, number)
    ensures var next := CheckFinished(s, relative, number, current);
            && next.current == Some(current)
            && (next.dirty != {} <==> s.saved in {None, Some("")} || s.saved != Some(current))
  {
    assert "." in s.dirty + {"."};
  }

  /** A check and a comparison with one fingerprint agree exactly when a saved fingerprint is set. */
  lemma CheckAgreesWithCompare(s: State, relative: string, number: nat, current: string)
    requires Accepts(s, relative, number)
    ensures (CheckFinished(s, relative, number, current).dirty != {} <==> Compared(s, current).dirty != {})
        <==> s.saved !in {None, Some("")}
  {
    DirtyMeansDifferent(s, relative, number, current);
    assert "." in {"."};
  }

  /** Check number `number` of these is on this path, is the newest there, and is not forgotten. */
  ghost predicate StillCounts(checks: seq<Check>, relative: string, number: nat) {
    && 0 < number <= |checks|
    && checks[number - 1].relative == relative
    && Newest(checks, number - 1)
    && var recorded := Recorded([], 0, Keys(checks[..number]));
    Evictions(recorded, number, Keys(checks[number..])) <= Place(recorded, relative)
  }

  lemma NothingToLookUp(key: string)
    ensures Lookup([], key) == None
  {}

  lemma OneNewest(checks: seq<Check>, i: nat, j: nat)
    requires Newest(checks, i) && Newest(checks, j) && checks[i].relative == checks[j].relative
    ensures i == j
  {}

  /** Exactly which numbers are accepted, for any path and any number, whoever holds it. */
  lemma AcceptsExactly(s: State, actions: seq<Action>, relative: string, number: nat)
    requires Fresh(s)
    ensures var w := Run(s, actions);
            Accepts(w.state, relative, number) <==> StillCounts(w.checks, relative, number)
  {
    hide Run, Recorded, Evictions, Keys, Lookup, Bounded;
    var w := Run(s, actions);
    RunIsNumbered(s, actions);
    if k: nat :| k < |w.checks| && w.checks[k].relative == relative {
      var newest := NewestExists(w.checks, k);
      OnlyTheNewestIsRemembered(w.checks, k, newest);
      NewestCheckCountsExactly(s, actions, newest);
      if 0 < number <= |w.checks| && Newest(w.checks, number - 1) && w.checks[number - 1].relative == relative {
        OneNewest(w.checks, number - 1, newest);
      }
    } else {
      EmptyIsBounded();
      NothingToLookUp(relative);
      ForgottenStaysForgotten([], 0, Keys(w.checks), relative);
    }
  }

  /**
   Numbers start again at a reset and at a capture. A check that was in flight then
   counts afterwards exactly when the check with its number since the restart is on the
   same path, is the newest there, and is not forgotten.
  */
  lemma StaleCheckCountsExactly(before: State, saved: Option<string>, given: Option<string>, computed: string,
                                restarted: State, actions: seq<Action>, stale: Check, current: string)
    requires restarted == Reset(before, saved, given) || restarted == Captured(before, saved, given, computed)
    ensures var w := Run(restarted, actions);
            && (Accepts(w.state, stale.relative, stale.number) <==> StillCounts(w.checks, stale.relative, stale.number))
            && (!StillCounts(w.checks, stale.relative, stale.number) ==>
                  CheckFinished(w.state, stale.relative, stale.number, current) == w.state)
  {
    hide StillCounts;
    AcceptsExactly(restarted, actions, stale.relative, stale.number);
  }

  /** One reset and one later check on the path are enough for a stale result to make the baseline dirty. */
  lemma StaleCheckCountsAfterReset(s: State, relative: string, saved: string, stale: string)
    requires Fresh(s) && saved != "" && saved != stale
    ensures var inFlight := CheckStarted(s, relative);
            var later := CheckStarted(Reset(inFlight, Some(saved), None), relative);
            && Accepts(later, relative, inFlight.eventSequence)
            && CheckFinished(later, relative, inFlight.eventSequence, stale).dirty != {}
  {
    var later := CheckStarted(Reset(CheckStarted(s, relative), Some(saved), None), relative);
    NextSequenceKeeps([], relative, 0, relative);
    DirtyMeansDifferent(later, relative, 1, stale);
  }

  // ----- A newest check that loses its result -----

  predicate AllDifferent(keys: seq<string>) {
    forall i, j :: 0 <= i < j < |keys| ==> keys[i] != keys[j]
  }

  /** New paths forget one key each as soon as the map is full. */
  lemma {:induction false} NewKeysEvict(m: seq<Numbered>, counter: nat, keys: seq<string>)
    requires Bounded(m) && AllDifferent(keys) && forall k :: k in keys ==> Lookup(m, k).None?
    ensures Evictions(m, counter, keys)
         == if |m| + |keys| > MAX_PENDING_EVENTS then |m| + |keys| - MAX_PENDING_EVENTS else 0
    decreases |keys|
  {
    if keys != [] {
      var (key, rest) := (keys[0], keys[1..]);
      var next := NextSequence(m, key, counter).0;
      NextSequenceKeeps(m, key, counter, key);
      PutReads(m, key, counter + 1, key);
      forall k | k in rest
        ensures Lookup(next, k).None?
      {
        var i :| 0 <= i < |rest| && rest[i] == k;
        assert keys[i + 1] == k && keys[i + 1] in keys;
        NextSequenceKeeps(m, key, counter, k);
      }
      NewKeysEvict(next, counter + 1, rest);
    }
  }

  function Starts(paths: seq<string>): (actions: seq<Action>)
    ensures |actions| == |paths| && forall i :: 0 <= i < |paths| ==> actions[i] == Start(paths[i])
  {
    seq(|paths|, i requires 0 <= i < |paths| => Start(paths[i]))
  }

  predicate Plain(policy: Policy, paths: seq<string>) {
    forall p :: p in paths ==> RelativeForm(p) == p && ShouldMarkDirty(policy, p)
  }

  lemma {:induction false} StartsAreChecks(s: State, paths: seq<string>)
    requires Plain(s.policy, paths)
    ensures var w := Run(s, Starts(paths));
            w.state.policy == s.policy && Keys(w.checks) == paths
  {
    hide ShouldMarkDirty, RelativeForm, NextSequence, Accepts, IsSet;
    if paths != [] {
      var n := |paths| - 1;
      StartsAreChecks(s, paths[..n]);
      assert Starts(paths)[..n] == Starts(paths[..n]);
      assert paths[n] in paths && paths == paths[..n] + [paths[n]];
    }
  }

  /**
   A check, and then checks on other, different paths: the first loses its result exactly when
   there are 128 others or more.
  */
  lemma OthersForgetExactly(s: State, path: string, others: seq<string>)
    requires Fresh(s) && Plain(s.policy, [path] + others) && AllDifferent([path] + others)
    ensures var w := Run(s, Starts([path] + others));
            && w.checks != [] && Newest(w.checks, 0) && w.checks[0].relative == path
            && (Accepts(w.state, path, w.checks[0].number) <==> |others| < 128)
  {
    hide Run, Recorded, Evictions, Lookup, Place, NextSequence, ShouldMarkDirty, RelativeForm, Bounded, Newest,
        AllDifferent, Keys;
    var actions := Starts([path] + others);
    var w := Run(s, actions);
    StartsAreChecks(s, [path] + others);
    FirstIsNewest(w.checks, path, others);
    NewestCheckCountsExactly(s, actions, 0);
    OthersEvict(path, others);
  }

  lemma FirstIsNewest(checks: seq<Check>, path: string, others: seq<string>)
    requires Keys(checks) == [path] + others && AllDifferent([path] + others)
    ensures checks != [] && Newest(checks, 0) && checks[0].relative == path
    ensures Keys(checks[..0 + 1]) == [path] && Keys(checks[0 + 1..]) == others
  {
    var paths := [path] + others;
    assert forall i :: 0 <= i < |checks| ==> checks[i].relative == paths[i];
  }

  lemma OthersDiffer(path: string, others: seq<string>)
    requires AllDifferent([path] + others)
    ensures AllDifferent(others) && path !in others
  {
    var paths := [path] + others;
    assert paths[0] == path && forall i :: 0 <= i < |others| ==> paths[i + 1] == others[i];
  }

  lemma {:induction false} OthersEvict(path: string, others: seq<string>)
    requires AllDifferent([path] + others)
    ensures var recorded := Recorded([], 0, [path]);
            Evictions(recorded, 0 + 1, others) <= Place(recorded, path) <==> |others| < MAX_PENDING_EVENTS
  {
    hide Recorded, Evictions, Lookup, Place, NextSequence, Bounded, AllDifferent;
    OneRecorded(path);
    OthersDiffer(path, others);
    forall k | k in others
      ensures Lookup(Recorded([], 0, [path]), k).None?
    {
      NotRecorded(path, k);
    }
    NewKeysEvict(Recorded([], 0, [path]), 1, others);
  }

  lemma OneRecorded(path: string)
    ensures Recorded([], 0, [path]) == [Numbered(path, 1)]
    ensures Bounded([Numbered(path, 1)]) && Place([Numbered(path, 1)], path) == 0
  {
    RecordedOne([], 0, path);
    var one := [Numbered(path, 1)];
    assert one[1..] == [];
  }

  lemma NotRecorded(path: string, key: string)
    requires path != key
    ensures Lookup(Recorded([], 0, [path]), key).None?
  {
    OneRecorded(path);
    var one := [Numbered(path, 1)];
    assert one[1..] == [];
  }

  function Name(length: nat): (name: string)
    ensures |name| == length && forall i :: 0 <= i < length ==> name[i] == 'a'
  {
    seq(length, _ => 'a')
  }

  function ManyNames(count: nat): (names: seq<string>)
    ensures |names| == count && forall i :: 0 <= i < count ==> names[i] == Name(i + 1)
  {
    seq(count, i requires 0 <= i < count => Name(i + 1))
  }

  lemma NamesArePlain(length: nat)
    requires length > 0
    ensures RelativeForm(Name(length)) == Name(length) && ShouldMarkDirty(VENV_POLICY, Name(length))
  {
    var name := Name(length);
    SlashesKept(name);
    assert name[0] == 'a';
    assert EntryName(name);
    OtherNamesAreKept(name);
    MarkedUnlessExcluded(VENV_POLICY, name);
  }

  /** A run in which the only check on its path loses its result: 128 checks on other files start before it finishes. */
  lemma SomeNewestCheckIsLost()
    ensures var s := State({}, [], 0, None, None, VENV_POLICY);
            var w := Run(s, Starts([Name(129)] + ManyNames(128)));
            && Fresh(s) && w.checks != [] && Newest(w.checks, 0)
            && !Accepts(w.state, w.checks[0].relative, w.checks[0].number)
  {
    var s := State({}, [], 0, None, None, VENV_POLICY);
    var paths := [Name(129)] + ManyNames(128);
    forall p | p in paths
      ensures RelativeForm(p) == p && ShouldMarkDirty(VENV_POLICY, p)
    {
      var i :| 0 <= i < |paths| && paths[i] == p;
      NamesArePlain(if i == 0 then 129 else i);
    }
    assert forall i :: 0 <= i < |paths| ==> |paths[i]| == if i == 0 then 129 else i;
    hide Run, ShouldMarkDirty, RelativeForm;
    OthersForgetExactly(s, Name(129), ManyNames(128));
  }
}
