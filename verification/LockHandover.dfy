/**
 Giving the process lock back and waiting for it: what the release leaves behind, who gets
 the lock next, and whose markers are in the directory at any time.
*/
module LockHandover {
  import opened Sequences
  import opened ProcessLock

  /** One more step of a process that runs alone. */
  lemma SoloTo(s: State, p: nat, cs: seq<Choice>, k: nat, now: State, next: State)
    requires p < |s.procs| && p < |now.procs| && k < |cs|
    requires Solo(s, p, cs[..k]) == now && Advance(now, p, cs[k]) == next
    ensures Solo(s, p, cs[..k + 1]) == next
  {
    hide Advance;
    SoloOne(s, p, cs[..k], cs[k]);
    assert cs[..k] + [cs[k]] == cs[..k + 1];
  }

  // ----- The release -----

  /** The directory after the holder of marker `t`, who saw inode `i`, has released. */
  function Released(dir: Option<Dir>, t: Token, i: Inode, now: nat): Option<Dir> {
    if dir.None? || t !in dir.value.markers then dir
    else if dir.value.markers.Keys == {t} && dir.value.ino == i then None
    else Some(Dir(dir.value.ino, now, dir.value.markers - {t}, true))
  }

  /** The state with another directory and process `p` somewhere else. */
  function With(s: State, dir: Option<Dir>, p: nat, pc: Pc): State
    requires p < |s.procs|
  {
    Go(s.(dir := dir), p, pc)
  }

  /**
   Whatever is in the directory, within four steps a holder alone has taken its marker away, and the
   directory too when that is empty now and still its own.
  */
  lemma {:induction false} ReleaseExactly(s: State, p: nat, t: Token, i: Inode, cs: seq<Choice>) returns (n: nat)
    requires Alive(s, p) && s.procs[p].pc == Holding(t, i) && |cs| == 4
    ensures 0 < n <= 4 && Solo(s, p, cs[..n]) == With(s, Released(s.dir, t, i, s.now), p, Idle)
    ensures s.dir.Some? && s.dir.value.ino == i && s.dir.value.markers.Keys == {t} ==> n == 4
  {
    hide Solo;
    StaysPut(s, p, cs);
    if Has(s, t) {
      n := MarkedRelease(s, p, t, i, cs);
    } else {
      n := 1;
      SoloTo(s, p, cs, 0, s, With(s, s.dir, p, Idle));
    }
  }

  lemma StaysPut(s: State, p: nat, cs: seq<Choice>)
    requires p < |s.procs|
    ensures Solo(s, p, cs[..0]) == s && s.(dir := s.dir) == s
  {}

  lemma {:induction false} MarkedRelease(s: State, p: nat, t: Token, i: Inode, cs: seq<Choice>) returns (n: nat)
    requires Alive(s, p) && s.procs[p].pc == Holding(t, i) && |cs| == 4 && Has(s, t) && Solo(s, p, cs[..0]) == s
    ensures 0 < n <= 4 && Solo(s, p, cs[..n]) == With(s, Released(s.dir, t, i, s.now), p, Idle)
    ensures s.dir.value.ino == i && s.dir.value.markers.Keys == {t} ==> n == 4
  {
    hide Solo, Advance;
    var left := Some(Dir(s.dir.value.ino, s.now, s.dir.value.markers - {t}, true));
    OnlyMarkerGoes(s.dir.value.markers, t);
    var empty := left.value.markers == map[];
    ReleaseSteps(s, p, t, i, left, cs[0], cs[1]);
    SoloTo(s, p, cs, 0, s, With(s, left, p, ReleaseReaddir(i)));
    SoloTo(s, p, cs, 1, With(s, left, p, ReleaseReaddir(i)), With(s, left, p, ReleaseStat(i, empty)));
    ReleaseEnds(s, p, i, left, cs[2], cs[3]);
    if empty && left.value.ino == i {
      SoloTo(s, p, cs, 2, With(s, left, p, ReleaseStat(i, empty)), With(s, left, p, ReleaseRmdir(i)));
      SoloTo(s, p, cs, 3, With(s, left, p, ReleaseRmdir(i)), With(s, None, p, Idle));
      n := 4;
    } else {
      SoloTo(s, p, cs, 2, With(s, left, p, ReleaseStat(i, empty)), With(s, left, p, Idle));
      n := 3;
    }
  }

  lemma ReleaseSteps(s: State, p: nat, t: Token, i: Inode, left: Option<Dir>, c: Choice, d: Choice)
    requires Alive(s, p) && s.procs[p].pc == Holding(t, i) && Has(s, t)
    requires left == Some(Dir(s.dir.value.ino, s.now, s.dir.value.markers - {t}, true))
    ensures Advance(s, p, c) == With(s, left, p, ReleaseReaddir(i))
    ensures Advance(With(s, left, p, ReleaseReaddir(i)), p, d)
         == With(s, left, p, ReleaseStat(i, left.value.markers == map[]))
  {}

  lemma ReleaseEnds(s: State, p: nat, i: Inode, left: Option<Dir>, c: Choice, d: Choice)
    requires Alive(s, p) && left.Some?
    ensures var empty := left.value.markers == map[];
            Advance(With(s, left, p, ReleaseStat(i, empty)), p, c)
            == With(s, left, p, if empty && left.value.ino == i then ReleaseRmdir(i) else Idle)
    ensures left.value.markers == map[] ==>
              Advance(With(s, left, p, ReleaseRmdir(i)), p, d) == With(s, None, p, Idle)
  {}

  lemma OnlyMarkerGoes(m: map<Token, Marker>, t: Token)
    requires t in m
    ensures m - {t} == map[] <==> m.Keys == {t}
  {
    assert (m - {t}).Keys == m.Keys - {t};
    if m - {t} == map[] {
      assert m.Keys - {t} == {};
    }
  }

  /** A holder whose marker is the only one leaves no directory, and is idle. */
  lemma ReleaseFreesTheLock(s: State, p: nat, cs: seq<Choice>)
    requires Holds(s, p) && |cs| == 4
    requires s.dir.Some? && s.dir.value.ino == s.procs[p].pc.ino && s.dir.value.markers.Keys == {s.procs[p].pc.token}
    ensures Solo(s, p, cs).dir == None && Solo(s, p, cs).procs == s.procs[p := Proc(true, Idle)]
  {
    hide Solo;
    var n := ReleaseExactly(s, p, s.procs[p].pc.token, s.procs[p].pc.ino, cs);
    assert cs[..4] == cs;
  }

  /** After such a release a waiting process holds the lock within four steps of its own. */
  lemma WaiterGetsTheLock(s: State, p: nat, q: nat, cs: seq<Choice>, ds: seq<Choice>) returns (n: nat)
    requires Holds(s, p) && |cs| == 4
    requires s.dir.Some? && s.dir.value.ino == s.procs[p].pc.ino && s.dir.value.markers.Keys == {s.procs[p].pc.token}
    requires q != p && Alive(s, q) && s.procs[q].pc.Mkdir? && |ds| == 4
    ensures n <= 4 && q < |Solo(s, p, cs).procs| && Holds(Solo(Solo(s, p, cs), q, ds[..n]), q)
  {
    ReleaseFreesTheLock(s, p, cs);
    n := SoloAcquires(Solo(s, p, cs), q, ds);
  }

  // ----- Waiting -----

  /** A contender waits for a live owner: it comes back to `mkdir`, or gives up at its deadline. */
  lemma {:induction false} LiveOwnerIsWaitedFor(s: State, p: nat, t: Token, pid: nat, cs: seq<Choice>)
    requires Alive(s, p) && s.procs[p].pc == Mkdir && |cs| == 4
    requires s.dir.Some? && s.dir.value.markers == map[t := Complete(pid, t)] && Alive(s, pid)
    ensures Solo(s, p, cs) == Go(s, p, if cs[3].deadline then Idle else Mkdir)
  {
    hide Solo;
    StaysPut(s, p, cs);
    assert cs[..4] == cs;
    SoloTo(s, p, cs, 0, s, Go(s, p, StaleReaddir));
    assert Has(s, t);
    SoloTo(s, p, cs, 1, Go(s, p, StaleReaddir), Go(s, p, StaleRead(t)));
    SoloTo(s, p, cs, 2, Go(s, p, StaleRead(t)), Go(s, p, StaleKill(pid)));
    SoloTo(s, p, cs, 3, Go(s, p, StaleKill(pid)), Go(s, p, if cs[3].deadline then Idle else Mkdir));
  }

  /** So it does for a directory that has no marker yet and is less than 30 seconds old. */
  lemma YoungDirectoryIsWaitedFor(s: State, p: nat, cs: seq<Choice>)
    requires Alive(s, p) && s.procs[p].pc == Mkdir && |cs| == 3
    requires IsEmpty(s) && s.now - s.dir.value.mtime < 30000
    ensures Solo(s, p, cs) == Go(s, p, if cs[2].deadline then Idle else Mkdir)
  {
    hide Solo;
    StaysPut(s, p, cs);
    assert cs[..3] == cs;
    SoloTo(s, p, cs, 0, s, Go(s, p, StaleReaddir));
    SoloTo(s, p, cs, 1, Go(s, p, StaleReaddir), Go(s, p, StaleAge));
    SoloTo(s, p, cs, 2, Go(s, p, StaleAge), Go(s, p, if cs[2].deadline then Idle else Mkdir));
  }

  /** And for a half-written marker in such a directory. */
  lemma YoungMarkerIsWaitedFor(s: State, p: nat, t: Token, cs: seq<Choice>)
    requires Alive(s, p) && s.procs[p].pc == Mkdir && |cs| == 4
    requires s.dir.Some? && s.dir.value.markers == map[t := Half] && s.now - s.dir.value.mtime < 30000
    ensures Solo(s, p, cs) == Go(s, p, if cs[3].deadline then Idle else Mkdir)
  {
    hide Solo;
    StaysPut(s, p, cs);
    assert cs[..4] == cs;
    SoloTo(s, p, cs, 0, s, Go(s, p, StaleReaddir));
    assert Has(s, t);
    SoloTo(s, p, cs, 1, Go(s, p, StaleReaddir), Go(s, p, StaleRead(t)));
    SoloTo(s, p, cs, 2, Go(s, p, StaleRead(t)), Go(s, p, StaleAge));
    SoloTo(s, p, cs, 3, Go(s, p, StaleAge), Go(s, p, if cs[3].deadline then Idle else Mkdir));
  }

  // ----- Recovering a half-written marker -----

  /** The state after a marker and its directory were removed. */
  function Cleared(s: State): State {
    s.(dir := None)
  }

  /** From 30 seconds on, a lone contender gets past a half-written marker in seventeen steps at most. */
  lemma OldMarkerIsRecovered(s: State, p: nat, t: Token, cs: seq<Choice>) returns (n: nat)
    requires Alive(s, p) && s.procs[p].pc == Mkdir && |cs| == 17
    requires s.dir.Some? && s.dir.value.markers == map[t := Half] && s.now - s.dir.value.mtime >= 30000
    ensures n <= 17 && Holds(Solo(s, p, cs[..n]), p)
  {
    hide Solo, Advance;
    OldMarkerIsJudged(s, p, t, cs);
    OldMarkerGoes(s, p, t, cs);
    var next := Go(Cleared(s), p, Mkdir);
    var m := SoloAcquires(next, p, cs[13..]);
    n := 13 + m;
    SoloPlus(s, p, cs[..13], cs[13..][..m]);
    assert cs[..n] == cs[..13] + cs[13..][..m];
  }

  lemma OldMarkerIsJudged(s: State, p: nat, t: Token, cs: seq<Choice>)
    requires Alive(s, p) && s.procs[p].pc == Mkdir && |cs| == 17
    requires s.dir.Some? && s.dir.value.markers == map[t := Half] && s.now - s.dir.value.mtime >= 30000
    ensures Solo(s, p, cs[..8]) == Go(s, p, DirStat(t))
  {
    hide Solo;
    OldMarkerIsFound(s, p, t, cs);
    assert Has(s, t);
    SoloTo(s, p, cs, 4, Go(s, p, Readdir), Go(s, p, Read(t)));
    SoloTo(s, p, cs, 5, Go(s, p, Read(t)), Go(s, p, Age(t, s.now)));
    SoloTo(s, p, cs, 6, Go(s, p, Age(t, s.now)), Go(s, p, Reread(t)));
    SoloTo(s, p, cs, 7, Go(s, p, Reread(t)), Go(s, p, DirStat(t)));
  }

  lemma OldMarkerIsFound(s: State, p: nat, t: Token, cs: seq<Choice>)
    requires Alive(s, p) && s.procs[p].pc == Mkdir && |cs| == 17
    requires s.dir.Some? && s.dir.value.markers == map[t := Half] && s.now - s.dir.value.mtime >= 30000
    ensures Solo(s, p, cs[..4]) == Go(s, p, Readdir)
  {
    hide Solo;
    StaysPut(s, p, cs);
    SoloTo(s, p, cs, 0, s, Go(s, p, StaleReaddir));
    assert Has(s, t);
    SoloTo(s, p, cs, 1, Go(s, p, StaleReaddir), Go(s, p, StaleRead(t)));
    SoloTo(s, p, cs, 2, Go(s, p, StaleRead(t)), Go(s, p, StaleAge));
    SoloTo(s, p, cs, 3, Go(s, p, StaleAge), Go(s, p, Readdir));
  }

  lemma OldMarkerGoes(s: State, p: nat, t: Token, cs: seq<Choice>)
    requires Alive(s, p) && s.procs[p].pc == Mkdir && |cs| == 17
    requires s.dir.Some? && s.dir.value.markers == map[t := Half]
    requires Solo(s, p, cs[..8]) == Go(s, p, DirStat(t))
    ensures Solo(s, p, cs[..13]) == Go(Cleared(s), p, Mkdir)
  {
    hide Solo;
    var i := s.dir.value.ino;
    var left := Some(Dir(i, s.now, map[], true));
    assert s.dir.value.markers - {t} == map[];
    SoloTo(s, p, cs, 8, Go(s, p, DirStat(t)), Go(s, p, Unlink(t, i)));
    SoloTo(s, p, cs, 9, Go(s, p, Unlink(t, i)), With(s, left, p, Readdir2(i)));
    SoloTo(s, p, cs, 10, With(s, left, p, Readdir2(i)), With(s, left, p, Stat2(i, true)));
    SoloTo(s, p, cs, 11, With(s, left, p, Stat2(i, true)), With(s, left, p, Rmdir(i)));
    SoloTo(s, p, cs, 12, With(s, left, p, Rmdir(i)), Go(Cleared(s), p, Mkdir));
  }

  /** A marker that does not carry its own name stays, even when its owner is dead. */
  lemma ForeignMarkerStays(s: State, p: nat, t: Token, pid: nat, u: Token, cs: seq<Choice>)
    requires Alive(s, p) && s.procs[p].pc == Mkdir && |cs| == 8
    requires s.dir.Some? && s.dir.value.markers == map[t := Complete(pid, u)] && u != t && !Alive(s, pid)
    ensures Solo(s, p, cs) == s
  {
    hide Solo, Advance;
    assert cs[..8] == cs && Go(s, p, Mkdir) == s;
    DeadOwnerIsFound(s, p, t, pid, u, cs);
    ForeignMarkerIsRead(s, p, t, pid, u, cs[4], cs[5]);
    ForeignMarkerIsLeft(s, p, t, pid, u, cs[6], cs[7]);
    SoloTo(s, p, cs, 4, Go(s, p, Readdir), Go(s, p, Read(t)));
    SoloTo(s, p, cs, 5, Go(s, p, Read(t)), Go(s, p, Kill(t, pid)));
    SoloTo(s, p, cs, 6, Go(s, p, Kill(t, pid)), Go(s, p, Reread(t)));
    SoloTo(s, p, cs, 7, Go(s, p, Reread(t)), Go(s, p, Mkdir));
  }

  lemma ForeignMarkerIsRead(s: State, p: nat, t: Token, pid: nat, u: Token, c: Choice, d: Choice)
    requires Alive(s, p) && s.dir.Some? && s.dir.value.markers == map[t := Complete(pid, u)]
    ensures Advance(Go(s, p, Readdir), p, c) == Go(s, p, Read(t))
    ensures Advance(Go(s, p, Read(t)), p, d) == Go(s, p, Kill(t, pid))
  {
    assert Has(s, t);
  }

  lemma ForeignMarkerIsLeft(s: State, p: nat, t: Token, pid: nat, u: Token, c: Choice, d: Choice)
    requires Alive(s, p) && s.dir.Some? && s.dir.value.markers == map[t := Complete(pid, u)]
    requires u != t && !Alive(s, pid)
    ensures Advance(Go(s, p, Kill(t, pid)), p, c) == Go(s, p, Reread(t))
    ensures Advance(Go(s, p, Reread(t)), p, d) == Go(s, p, Mkdir)
  {
    assert Has(s, t);
  }

  lemma DeadOwnerIsFound(s: State, p: nat, t: Token, pid: nat, u: Token, cs: seq<Choice>)
    requires Alive(s, p) && s.procs[p].pc == Mkdir && |cs| == 8
    requires s.dir.Some? && s.dir.value.markers == map[t := Complete(pid, u)] && !Alive(s, pid)
    ensures Solo(s, p, cs[..4]) == Go(s, p, Readdir)
  {
    hide Solo;
    StaysPut(s, p, cs);
    SoloTo(s, p, cs, 0, s, Go(s, p, StaleReaddir));
    assert Has(s, t);
    SoloTo(s, p, cs, 1, Go(s, p, StaleReaddir), Go(s, p, StaleRead(t)));
    SoloTo(s, p, cs, 2, Go(s, p, StaleRead(t)), Go(s, p, StaleKill(pid)));
    SoloTo(s, p, cs, 3, Go(s, p, StaleKill(pid)), Go(s, p, Readdir));
  }

  // ----- Whose markers are there -----

  /** Every marker in the directory belongs to a dead process, or to one that wrote it and has not released yet. */
  ghost predicate Owned(s: State) {
    s.dir.Some? ==> forall t :: t in s.dir.value.markers ==> OwnedMarker(s, t)
  }

  predicate OwnedMarker(s: State, t: Token)
    requires Has(s, t)
  {
    var m := s.dir.value.markers[t];
    && m.Complete?
    && (Alive(s, m.pid) ==> Marked(s.procs[m.pid].pc) && s.procs[m.pid].pc.token == t)
  }

  lemma OwnedRun(s: State, p: nat, c: Choice)
    requires WholeInv(s) && Owned(s) && Alive(s, p) && c.whole
    ensures Owned(Advance(s, p, c))
  {
    WholeHolds(s, p);
    hide WholeInv, Owned, CheckStale, ReclaimEmpty, ReclaimMarked, Own;
    var pc := s.procs[p].pc;
    if InReclaim(pc) {
      OwnedReclaim(s, p);
    } else if Marked(pc) || pc.Create? {
      OwnedOwner(s, p, c);
    } else {
      OwnedMoves(s, p, c);
    }
  }

  lemma OwnedReclaim(s: State, p: nat)
    requires WholeInv(s) && Owned(s) && Alive(s, p) && InReclaim(s.procs[p].pc)
    ensures Owned(ReclaimMarked(s, p))
  {}

  lemma OwnedOwner(s: State, p: nat, c: Choice)
    requires WholeInv(s) && Owned(s) && Alive(s, p) && c.whole && (Marked(s.procs[p].pc) || s.procs[p].pc.Create?)
    ensures Owned(Own(s, p, c))
  {}

  /** A step that writes no marker. */
  lemma OwnedMoves(s: State, p: nat, c: Choice)
    requires WholeInv(s) && Owned(s) && Alive(s, p) && c.whole
    requires var pc := s.procs[p].pc; !InReclaim(pc) && !Marked(pc) && !pc.Create?
    ensures Owned(Advance(s, p, c))
  {
    WholeHolds(s, p);
    hide WholeInv;
  }

  lemma {:induction false} OwnedAlways(s: State, actions: seq<Action>)
    requires WholeInv(s) && Owned(s) && AnyRun(s, actions) && WholeWrites(actions)
    ensures WholeInv(Final(s, actions)) && Owned(Final(s, actions))
    decreases |actions|
  {
    hide WholeInv, Owned, Advance;
    if actions != [] {
      WholeStep(s, actions[0]);
      OwnedStep(s, actions[0]);
      assert forall k :: 0 <= k < |actions| - 1 ==> actions[1..][k] == actions[k + 1];
      OwnedAlways(Apply(s, actions[0]), actions[1..]);
    }
  }

  lemma OwnedStep(s: State, a: Action)
    requires WholeInv(s) && Owned(s) && Enabled(s, a) && (a.Run? ==> a.c.whole)
    ensures Owned(Apply(s, a))
  {
    hide Advance;
    if a.Run? {
      OwnedRun(s, a.p, a.c);
    }
  }

  /**
   In any interleaving, however long processes stall: a live process has a marker in the directory
   exactly while it is between writing it and releasing, and only that one.
  */
  lemma MarkedExactly(s: State, actions: seq<Action>, p: nat, t: Token)
    requires Init(s) && AnyRun(s, actions) && WholeWrites(actions)
    ensures var end := Final(s, actions);
            Alive(end, p) ==>
              (OwnsMarker(end, p, t) <==> Marked(end.procs[p].pc) && end.procs[p].pc.token == t)
  {
    OwnedAlways(s, actions);
    var end := Final(s, actions);
    if Alive(end, p) {
      assert WholeProcInv(end, p);
    }
  }

  // ----- Every step, in any state -----

  /** Between `acquireProcessLock` and the lock. */
  predicate Acquiring(pc: Pc) {
    !pc.Idle? && !pc.Holding? && !pc.ReleaseReaddir? && !pc.ReleaseStat? && !pc.ReleaseRmdir?
  }

  /** Where one call can take a contender. */
  predicate GoesOn(before: Pc, after: Pc, deadline: bool) {
    && (after.Idle? ==> deadline && (before.StaleKill? || before.StaleAge?))
    && (after.Holding? ==> before.Stat?)
    && (Acquiring(after) || after.Idle? || after.Holding?)
  }

  /** Whatever the others do, a contender gives up only at its deadline, after it found that the lock is not stale. */
  lemma GivesUpOnlyAtDeadline(s: State, p: nat, c: Choice)
    requires p < |s.procs| && Acquiring(s.procs[p].pc)
    ensures var (before, after) := (s.procs[p].pc, Advance(s, p, c).procs[p].pc);
            && (after.Idle? ==> c.deadline && (before.StaleKill? || before.StaleAge?))
            && (after.Holding? ==> before.Stat?)
            && (Acquiring(after) || after.Idle? || after.Holding?)
  {
    hide Own, CheckStale, ReclaimEmpty, ReclaimMarked, Pick, RemoveDir, MakeDir, Remove, SetMarker;
    OwnGoesOn(s, p, c);
    CheckGoesOn(s, p, c);
    EmptyGoesOn(s, p);
    MarkedGoesOn(s, p);
  }

  lemma OwnGoesOn(s: State, p: nat, c: Choice)
    requires p < |s.procs|
    ensures var pc := s.procs[p].pc;
            pc.Mkdir? || pc.Create? || pc.Fill? || pc.Stat? ==> GoesOn(pc, Own(s, p, c).procs[p].pc, c.deadline)
  {}

  lemma CheckGoesOn(s: State, p: nat, c: Choice)
    requires p < |s.procs|
    ensures GoesOn(StaleAge, CheckStale(s, p, c).procs[p].pc, c.deadline)
    ensures s.procs[p].pc.StaleReaddir? || s.procs[p].pc.StaleRead? ==> Acquiring(CheckStale(s, p, c).procs[p].pc)
  {}

  lemma EmptyGoesOn(s: State, p: nat)
    requires p < |s.procs|
    ensures Acquiring(ReclaimEmpty(s, p).procs[p].pc)
  {}

  lemma MarkedGoesOn(s: State, p: nat)
    requires p < |s.procs|
    ensures Acquiring(ReclaimMarked(s, p).procs[p].pc)
  {
    match s.procs[p].pc
    case Read(_) =>
    case Kill(_, _) =>
    case Age(_, _) =>
    case Reread(_) =>
    case DirStat(_) =>
    case Unlink(_, _) =>
    case Readdir2(_) =>
    case Stat2(_, _) =>
    case _ =>
  }

  /** How many calls are left at most in one pass of the loop. */
  function CallsLeft(pc: Pc): nat {
    match pc
    case Create(_) => 3
    case Fill(_, _) => 2
    case Stat(_, _) => 1
    case StaleReaddir => 13
    case StaleRead(_) => 12
    case StaleKill(_) => 11
    case StaleAge => 10
    case Readdir => 9
    case Read(_) => 8
    case Kill(_, _) => 7
    case Age(_, _) => 7
    case Reread(_) => 6
    case DirStat(_) => 5
    case Unlink(_, _) => 4
    case Readdir2(_) => 3
    case Stat2(_, _) => 2
    case Rmdir(_) => 1
    case EmptyAge => 4
    case EmptyReaddir(_) => 3
    case EmptyAgain(_) => 2
    case EmptyRmdir => 1
    case _ => 0
  }

  /** Whatever the others do, a pass of the loop ends: after thirteen calls at most `mkdir` is tried again. */
  lemma PassEnds(s: State, p: nat, c: Choice)
    requires p < |s.procs| && Acquiring(s.procs[p].pc) && !s.procs[p].pc.Mkdir?
    ensures CallsLeft(Advance(s, p, c).procs[p].pc) < CallsLeft(s.procs[p].pc) <= 13
  {
    hide Own, CheckStale, ReclaimEmpty, ReclaimMarked, Pick, RemoveDir, MakeDir, Remove, SetMarker;
    var pc := s.procs[p].pc;
    if pc.Create? || pc.Fill? || pc.Stat? {
      OwnPass(s, p, c);
    } else if InReclaim(pc) {
      MarkedPass(s, p);
    } else {
      CheckPass(s, p, c);
      EmptyPass(s, p);
    }
  }

  lemma OwnPass(s: State, p: nat, c: Choice)
    requires p < |s.procs|
    requires var pc := s.procs[p].pc; pc.Create? || pc.Fill? || pc.Stat?
    ensures CallsLeft(Own(s, p, c).procs[p].pc) < CallsLeft(s.procs[p].pc)
  {}

  lemma CheckPass(s: State, p: nat, c: Choice)
    requires p < |s.procs|
    ensures var (pc, after) := (s.procs[p].pc, CheckStale(s, p, c).procs[p].pc);
            pc.StaleReaddir? || pc.StaleRead? || pc.StaleKill? || pc.StaleAge? ==> CallsLeft(after) < CallsLeft(pc)
  {}

  lemma EmptyPass(s: State, p: nat)
    requires p < |s.procs|
    ensures var (pc, after) := (s.procs[p].pc, ReclaimEmpty(s, p).procs[p].pc);
            pc.EmptyAge? || pc.EmptyReaddir? || pc.EmptyAgain? || pc.EmptyRmdir? ==> CallsLeft(after) < CallsLeft(pc)
  {}

  lemma MarkedPass(s: State, p: nat)
    requires p < |s.procs| && InReclaim(s.procs[p].pc)
    ensures CallsLeft(ReclaimMarked(s, p).procs[p].pc) < CallsLeft(s.procs[p].pc)
  {}

  /** The directory of `next` is that of `s`, or made by `mkdir`, or gone while it was empty. */
  ghost predicate DirectoryEffect(s: State, next: State, pc: Pc) {
    && (s.dir.None? && next.dir.Some? ==> pc.Mkdir? && IsEmpty(next) && next.dir.value.ino == s.nextIno)
    && (s.dir.Some? && next.dir.None? ==> IsEmpty(s) && (pc.ReleaseRmdir? || pc.EmptyRmdir? || pc.Rmdir?))
    && (s.dir.Some? && next.dir.Some? ==> next.dir.value.ino == s.dir.value.ino)
  }

  /** Marker `t` is as it was, or `p` wrote it, or a holder or a reclaimer of just this marker took it away. */
  ghost predicate MarkerEffect(s: State, next: State, p: nat, pc: Pc, t: Token) {
    if !Has(next, t) then
      Has(s, t) && next.dir.Some? ==> (pc.Holding? || pc.Unlink?) && pc.token == t
    else
      var m := next.dir.value.markers[t];
      || (Has(s, t) && m == s.dir.value.markers[t])
      || (pc.Create? && t == s.nextToken && m in {Half, Complete(p, t)})
      || (pc.Fill? && t == pc.token && Has(s, t) && m == Complete(p, t))
  }

  /**
   What a step can do in any state: make a directory where there is none, write a marker of its own,
   take away its own marker or one it judged, and remove an empty directory; other processes stay.
  */
  lemma StepEffects(s: State, p: nat, c: Choice, t: Token, q: nat)
    requires p < |s.procs|
    ensures DirectoryEffect(s, Advance(s, p, c), s.procs[p].pc)
    ensures MarkerEffect(s, Advance(s, p, c), p, s.procs[p].pc, t)
    ensures q < |s.procs| && q != p ==> q < |Advance(s, p, c).procs| && Advance(s, p, c).procs[q] == s.procs[q]
  {
    hide Own, CheckStale, ReclaimEmpty, ReclaimMarked, DirectoryEffect, MarkerEffect;
    var pc := s.procs[p].pc;
    if InReclaim(pc) {
      MarkedEffects(s, p, t, q);
    } else if pc.StaleReaddir? || pc.StaleRead? || pc.StaleKill? || pc.StaleAge? || pc.Readdir? {
      LookingChangesNothing(s, p, c, t, q);
    } else if pc.EmptyAge? || pc.EmptyReaddir? || pc.EmptyAgain? || pc.EmptyRmdir? {
      EmptyEffects(s, p, t, q);
    } else {
      OwnEffects(s, p, c, t, q);
    }
  }

  lemma MarkedEffects(s: State, p: nat, t: Token, q: nat)
    requires p < |s.procs| && InReclaim(s.procs[p].pc)
    ensures var next := ReclaimMarked(s, p);
            && DirectoryEffect(s, next, s.procs[p].pc) && MarkerEffect(s, next, p, s.procs[p].pc, t)
            && (q < |s.procs| && q != p ==> q < |next.procs| && next.procs[q] == s.procs[q])
  {}

  lemma EmptyEffects(s: State, p: nat, t: Token, q: nat)
    requires p < |s.procs|
    requires var pc := s.procs[p].pc; pc.EmptyAge? || pc.EmptyReaddir? || pc.EmptyAgain? || pc.EmptyRmdir?
    ensures var next := ReclaimEmpty(s, p);
            && DirectoryEffect(s, next, s.procs[p].pc) && MarkerEffect(s, next, p, s.procs[p].pc, t)
            && (q < |s.procs| && q != p ==> q < |next.procs| && next.procs[q] == s.procs[q])
  {}

  lemma LookingChangesNothing(s: State, p: nat, c: Choice, t: Token, q: nat)
    requires p < |s.procs|
    requires var pc := s.procs[p].pc;
             pc.StaleReaddir? || pc.StaleRead? || pc.StaleKill? || pc.StaleAge? || pc.Readdir?
    ensures var next := Advance(s, p, c);
            && next == Go(s, p, next.procs[p].pc)
            && DirectoryEffect(s, next, s.procs[p].pc) && MarkerEffect(s, next, p, s.procs[p].pc, t)
            && (q < |s.procs| && q != p ==> next.procs[q] == s.procs[q])
  {}

  lemma OwnEffects(s: State, p: nat, c: Choice, t: Token, q: nat)
    requires p < |s.procs|
    ensures var next := Own(s, p, c);
            && DirectoryEffect(s, next, s.procs[p].pc) && MarkerEffect(s, next, p, s.procs[p].pc, t)
            && (q < |s.procs| && q != p ==> q < |next.procs| && next.procs[q] == s.procs[q])
  {}
}
