/**
 The cross-process lock: a directory made with one `mkdir`, a marker file named
 after a token, liveness of the owner's pid, and reclaim of stale locks.

 Every file-system call is one step; any number of processes interleave, die and
 let time pass.
*/
module ProcessLock {
  import opened Sequences

  const STALE_AFTER_MS := 30 * 1000

  type Token = nat
  type Inode = nat

  /** A marker file is empty until its content is written. */
  datatype Marker = Half | Complete(pid: nat, token: Token)

  /** The lock directory; `spent` records that a marker was removed from it. */
  datatype Dir = Dir(ino: Inode, mtime: nat, markers: map<Token, Marker>, spent: bool)

  datatype Pc =
    | Idle
    // acquireProcessLock; `made` is the directory that this process made
    | Mkdir
    | Create(made: Inode)
    | Fill(token: Token, made: Inode)
    | Stat(token: Token, made: Inode)
    | Holding(token: Token, ino: Inode)
    // the release closure
    | ReleaseReaddir(ino: Inode)
    | ReleaseStat(ino: Inode, empty: bool)
    | ReleaseRmdir(ino: Inode)
    // processLockIsStale
    | StaleReaddir
    | StaleRead(token: Token)
    | StaleKill(pid: nat)
    | StaleAge
    // reclaimStaleProcessLock
    | Readdir
    | EmptyAge
    | EmptyReaddir(ino: Inode)
    | EmptyAgain(ino: Inode)
    | EmptyRmdir
    | Read(token: Token)
    | Kill(token: Token, pid: nat)
    | Age(token: Token, readAt: nat)
    | Reread(token: Token)
    | DirStat(token: Token)
    | Unlink(token: Token, ino: Inode)
    | Readdir2(ino: Inode)
    | Stat2(ino: Inode, empty: bool)
    | Rmdir(ino: Inode)

  datatype Proc = Proc(alive: bool, pc: Pc)

  datatype State = State(dir: Option<Dir>, procs: seq<Proc>, now: nat, nextIno: Inode, nextToken: Token)

  /** What a step leaves open: the entry `readdir` lists first, whether a write shows up at once, the deadline. */
  datatype Choice = Choice(entry: Token, whole: bool, deadline: bool)

  datatype Action = Run(p: nat, c: Choice) | Cancel(p: nat) | Die(p: nat) | Tick(ms: nat)

  predicate Has(s: State, t: Token) {
    s.dir.Some? && t in s.dir.value.markers
  }

  predicate IsEmpty(s: State) {
    s.dir.Some? && s.dir.value.markers == map[]
  }

  predicate Alive(s: State, p: nat) {
    p < |s.procs| && s.procs[p].alive
  }

  predicate Old(s: State) {
    s.dir.Some? && s.now - s.dir.value.mtime >= STALE_AFTER_MS
  }

  ghost function Pick(markers: map<Token, Marker>, entry: Token): (t: Token)
    requires markers != map[]
    ensures t in markers
  {
    if entry in markers then entry
    else
      assert markers.Keys != {};
      var t :| t in markers; t
  }

  function Go(s: State, p: nat, pc: Pc): State
    requires p < |s.procs|
  {
    s.(procs := s.procs[p := s.procs[p].(pc := pc)])
  }

  function SetMarker(s: State, t: Token, m: Marker, mtime: nat): State
    requires s.dir.Some?
  {
    s.(dir := Some(s.dir.value.(markers := s.dir.value.markers[t := m], mtime := mtime)))
  }

  function Remove(s: State, t: Token): State
    requires s.dir.Some?
  {
    s.(dir := Some(s.dir.value.(markers := s.dir.value.markers - {t}, mtime := s.now, spent := true)))
  }

  /** `rmdir` succeeds on an empty directory only. */
  function RemoveDir(s: State): State {
    if IsEmpty(s) then s.(dir := None) else s
  }

  function MakeDir(s: State): State {
    s.(dir := Some(Dir(s.nextIno, s.now, map[], false)), nextIno := s.nextIno + 1)
  }

  /** The loop goes round: it waits, or gives up at the deadline. */
  function Retry(s: State, p: nat, c: Choice): State
    requires p < |s.procs|
  {
    Go(s, p, if c.deadline then Idle else Mkdir)
  }

  /** Acquiring and releasing, one file-system call at a time. */
  ghost function Own(s: State, p: nat, c: Choice): State
    requires p < |s.procs|
  {
    match s.procs[p].pc
    case Mkdir => if s.dir.None? then Go(MakeDir(s), p, Create(s.nextIno)) else Go(s, p, StaleReaddir)
    case Create(m) =>
      if s.dir.None? then Go(s, p, Mkdir)
      else
        var t := s.nextToken;
        var s' := s.(nextToken := t + 1);
        if c.whole then Go(SetMarker(s', t, Complete(p, t), s.now), p, Stat(t, m))
        else Go(SetMarker(s', t, Half, s.now), p, Fill(t, m))
    case Fill(t, m) =>
      Go(if Has(s, t) then SetMarker(s, t, Complete(p, t), s.dir.value.mtime) else s, p, Stat(t, m))
    case Stat(t, _) => Go(s, p, if s.dir.None? then Mkdir else Holding(t, s.dir.value.ino))
    case Holding(t, i) => if Has(s, t) then Go(Remove(s, t), p, ReleaseReaddir(i)) else Go(s, p, Idle)
    case ReleaseReaddir(i) => Go(s, p, if s.dir.None? then Idle else ReleaseStat(i, IsEmpty(s)))
    case ReleaseStat(i, e) => Go(s, p, if s.dir.None? || !e || s.dir.value.ino != i then Idle else ReleaseRmdir(i))
    case ReleaseRmdir(_) => Go(RemoveDir(s), p, Idle)
    case _ => Go(s, p, Mkdir)
  }

  /** `processLockIsStale`. */
  ghost function CheckStale(s: State, p: nat, c: Choice): State
    requires p < |s.procs|
  {
    match s.procs[p].pc
    case StaleReaddir =>
      Go(s, p, if s.dir.None? || IsEmpty(s) then StaleAge else StaleRead(Pick(s.dir.value.markers, c.entry)))
    case StaleRead(t) =>
      Go(s, p, if Has(s, t) && s.dir.value.markers[t].Complete? then StaleKill(s.dir.value.markers[t].pid)
          else StaleAge)
    case StaleKill(pid) => if Alive(s, pid) then Retry(s, p, c) else Go(s, p, Readdir)
    case _ => if Old(s) then Go(s, p, Readdir) else Retry(s, p, c)
  }

  /** The branch of `reclaimStaleProcessLock` for a directory without a marker. */
  ghost function ReclaimEmpty(s: State, p: nat): State
    requires p < |s.procs|
  {
    match s.procs[p].pc
    case EmptyAge => Go(s, p, if Old(s) then EmptyReaddir(s.dir.value.ino) else Mkdir)
    case EmptyReaddir(i) => Go(s, p, if IsEmpty(s) then EmptyAgain(i) else Mkdir)
    case EmptyAgain(i) => Go(s, p, if Old(s) && s.dir.value.ino == i then EmptyRmdir else Mkdir)
    case _ => Go(RemoveDir(s), p, Mkdir)
  }

  /** The branch of `reclaimStaleProcessLock` for a directory with a marker. */
  ghost function ReclaimMarked(s: State, p: nat): State
    requires p < |s.procs|
  {
    match s.procs[p].pc
    case Read(t) =>
      Go(s, p, if !Has(s, t) then Mkdir
               else match s.dir.value.markers[t]
                    case Half => Age(t, s.now)
                    case Complete(pid, _) => Kill(t, pid))
    case Kill(t, pid) => Go(s, p, if Alive(s, pid) then Mkdir else Reread(t))
    case Age(t, _) => Go(s, p, if Old(s) then Reread(t) else Mkdir)
    case Reread(t) =>
      Go(s, p, if !Has(s, t) || (s.dir.value.markers[t].Complete? && s.dir.value.markers[t].token != t)
               then Mkdir else DirStat(t))
    case DirStat(t) => Go(s, p, if s.dir.None? then Mkdir else Unlink(t, s.dir.value.ino))
    case Unlink(t, i) => if Has(s, t) then Go(Remove(s, t), p, Readdir2(i)) else Go(s, p, Mkdir)
    case Readdir2(i) => Go(s, p, Stat2(i, IsEmpty(s)))
    case Stat2(i, e) => Go(s, p, if s.dir.Some? && e && s.dir.value.ino == i then Rmdir(i) else Mkdir)
    case _ => Go(RemoveDir(s), p, Mkdir)
  }

  /** One step of process `p`. */
  ghost function Advance(s: State, p: nat, c: Choice): State
    requires p < |s.procs|
  {
    var pc := s.procs[p].pc;
    if pc.StaleReaddir? || pc.StaleRead? || pc.StaleKill? || pc.StaleAge? then CheckStale(s, p, c)
    else if pc.Readdir? then
      Go(s, p, if s.dir.None? then Mkdir
               else if IsEmpty(s) then EmptyAge
               else Read(Pick(s.dir.value.markers, c.entry)))
    else if pc.EmptyAge? || pc.EmptyReaddir? || pc.EmptyAgain? || pc.EmptyRmdir? then ReclaimEmpty(s, p)
    else if InReclaim(pc) then ReclaimMarked(s, p)
    else Own(s, p, c)
  }

  predicate InReclaim(pc: Pc) {
    || pc.Read? || pc.Kill? || pc.Age? || pc.Reread? || pc.DirStat? || pc.Unlink?
    || pc.Readdir2? || pc.Stat2? || pc.Rmdir?
  }

  ghost function Apply(s: State, a: Action): State
    requires Enabled(s, a)
  {
    match a
    case Run(p, c) => Advance(s, p, c)
    case Cancel(p) => Go(s, p, Idle)
    case Die(p) => s.(procs := s.procs[p := s.procs[p].(alive := false)])
    case Tick(ms) => s.(now := s.now + ms)
  }

  predicate Enabled(s: State, a: Action) {
    match a
    case Run(p, _) => Alive(s, p)
    case Cancel(p) => Alive(s, p) && s.procs[p].pc.Mkdir?
    case Die(p) => p < |s.procs|
    case Tick(_) => true
  }

  ghost predicate Init(s: State) {
    s.dir.None? && forall p :: 0 <= p < |s.procs| ==> s.procs[p] == Proc(true, Idle)
  }

  // ----- Timing -----

  /** No marker in the directory is complete. */
  ghost predicate Unmarked(d: Dir) {
    forall t :: t in d.markers ==> d.markers[t].Half?
  }

  /**
   The timing hypothesis. A directory without a complete marker is at most `w`
   old; a reclaimer that failed to parse a marker checks its age at most `d` later.
  */
  ghost predicate Prompt(s: State, w: nat, d: nat) {
    && (s.dir.Some? && Unmarked(s.dir.value) ==> s.now - s.dir.value.mtime <= w)
    && forall p :: 0 <= p < |s.procs| && s.procs[p].alive && s.procs[p].pc.Age? ==> s.now - s.procs[p].pc.readAt <= d
  }

  /** A run from `s` in which the timing hypothesis holds in every state. */
  ghost predicate PromptRun(s: State, actions: seq<Action>, w: nat, d: nat)
    decreases |actions|
  {
    && Prompt(s, w, d)
    && (actions != [] ==> Enabled(s, actions[0]) && PromptRun(Apply(s, actions[0]), actions[1..], w, d))
  }

  /** A run from `s` without any timing hypothesis. */
  ghost predicate AnyRun(s: State, actions: seq<Action>)
    decreases |actions|
  {
    actions != [] ==> Enabled(s, actions[0]) && AnyRun(Apply(s, actions[0]), actions[1..])
  }

  ghost function Final(s: State, actions: seq<Action>): State
    requires AnyRun(s, actions)
    decreases |actions|
  {
    if actions == [] then s else Final(Apply(s, actions[0]), actions[1..])
  }

  lemma {:induction false} PromptRunIsRun(s: State, actions: seq<Action>, w: nat, d: nat)
    requires PromptRun(s, actions, w, d)
    ensures AnyRun(s, actions)
    decreases |actions|
  {
    if actions != [] {
      PromptRunIsRun(Apply(s, actions[0]), actions[1..], w, d);
    }
  }

  /** A live process between acquire and release. */
  predicate Holds(s: State, p: nat) {
    Alive(s, p) && s.procs[p].pc.Holding?
  }

  ghost predicate MutualExclusion(s: State) {
    forall p: nat, q: nat :: Holds(s, p) && Holds(s, q) ==> p == q
  }

  // ----- The invariant under the timing hypothesis -----

  function Claim(pc: Pc): Option<Inode> {
    match pc
    case Create(m) => Some(m)
    case Fill(_, m) => Some(m)
    case Stat(_, m) => Some(m)
    case Holding(_, i) => Some(i)
    case _ => None
  }

  /** The directory whose last marker this process removed. */
  function Spends(pc: Pc): Option<Inode> {
    match pc
    case ReleaseReaddir(i) => Some(i)
    case ReleaseStat(i, _) => Some(i)
    case ReleaseRmdir(i) => Some(i)
    case Readdir2(i) => Some(i)
    case Stat2(i, _) => Some(i)
    case Rmdir(i) => Some(i)
    case _ => None
  }

  predicate Bounded(pc: Pc, ino: Inode, token: Token) {
    && (Claim(pc).Some? ==> Claim(pc).value < ino)
    && (Spends(pc).Some? ==> Spends(pc).value < ino)
    && (pc.EmptyReaddir? || pc.EmptyAgain? || pc.Unlink? ==> pc.ino < ino)
    && (pc.Kill? || pc.Age? || pc.Reread? || pc.DirStat? || pc.Unlink? ==> pc.token < token)
  }

  /** The directory is the one with inode `i`, its marker is gone and nobody will write another. */
  predicate Spent(s: State, i: Inode) {
    s.dir.Some? && s.dir.value.ino == i && s.dir.value.spent && s.dir.value.markers == map[]
  }

  predicate Sole(s: State, i: Inode, t: Token, m: Marker) {
    Current(s, i) && Has(s, t) && s.dir.value.markers == map[t := m]
  }

  predicate Current(s: State, i: Inode) {
    s.dir.Some? && s.dir.value.ino == i
  }

  /** If marker `t` is still there, its owner is dead. */
  predicate Condemned(s: State, t: Token) {
    Has(s, t) ==>
      s.dir.value.markers[t].Complete? && s.dir.value.markers[t].token == t && !Alive(s, s.dir.value.markers[t].pid)
  }

  ghost predicate Settled(d: Dir) {
    d.spent || !Unmarked(d)
  }

  ghost predicate ProcInv(s: State, w: nat, p: nat)
    requires p < |s.procs|
  {
    var proc := s.procs[p];
    && Bounded(proc.pc, s.nextIno, s.nextToken)
    && match proc.pc
       case Create(m) => Current(s, m) && IsEmpty(s) && !s.dir.value.spent
       case Fill(t, m) => Sole(s, m, t, Half)
       case Stat(t, m) => proc.alive ==> Sole(s, m, t, Complete(p, t))
       case Holding(t, i) => proc.alive ==> Sole(s, i, t, Complete(p, t))
       case ReleaseReaddir(i) => Current(s, i) ==> Spent(s, i)
       case ReleaseStat(i, _) => Current(s, i) ==> Spent(s, i)
       case ReleaseRmdir(i) => Spent(s, i)
       case Readdir2(i) => Current(s, i) ==> Spent(s, i)
       case Stat2(i, _) => Current(s, i) ==> Spent(s, i)
       case Rmdir(i) => Spent(s, i)
       case EmptyReaddir(i) => Current(s, i) ==> Settled(s.dir.value)
       case EmptyAgain(i) => Current(s, i) ==> Spent(s, i)
       case EmptyRmdir => false
       case Kill(t, pid) => Has(s, t) ==> s.dir.value.markers[t] == Complete(pid, t)
       case Age(t, readAt) => readAt <= s.now && (Has(s, t) ==> readAt - s.dir.value.mtime <= w)
       case Reread(t) => Condemned(s, t)
       case DirStat(t) => Condemned(s, t)
       case Unlink(t, i) => Condemned(s, t) && (Has(s, t) ==> Current(s, i))
       case _ => true
  }

  /** At most one marker, and none in a spent directory. */
  ghost predicate DirInv(s: State) {
    s.dir.Some? ==>
      var d := s.dir.value;
      && d.ino < s.nextIno
      && d.mtime <= s.now
      && (d.spent ==> d.markers == map[])
      && (forall t, u :: t in d.markers && u in d.markers ==> t == u)
      && (forall t :: t in d.markers ==> t < s.nextToken && (d.markers[t].Complete? ==> d.markers[t].token == t))
  }

  ghost predicate Apart(s: State) {
    forall p, q :: 0 <= p < |s.procs| && 0 <= q < |s.procs| && p != q ==>
      PairApart(s.procs[p].pc, s.procs[q].pc)
  }

  predicate PairApart(a: Pc, b: Pc) {
    && (Claim(a).Some? && Claim(b).Some? ==> Claim(a) != Claim(b))
    && (Spends(a).Some? && Spends(b).Some? ==> Spends(a) != Spends(b))
  }

  ghost predicate Inv(s: State, w: nat) {
    && DirInv(s)
    && Apart(s)
    && forall p :: 0 <= p < |s.procs| ==> ProcInv(s, w, p)
  }

  /** The invariant gives mutual exclusion: two live holders would share one directory. */
  lemma InvExcludes(s: State, w: nat)
    requires Inv(s, w)
    ensures MutualExclusion(s)
  {
    forall p: nat, q: nat | Holds(s, p) && Holds(s, q)
      ensures p == q
    {
      HoldersShareTheDirectory(s, w, p, q);
    }
  }

  lemma HoldersShareTheDirectory(s: State, w: nat, p: nat, q: nat)
    requires Inv(s, w) && Holds(s, p) && Holds(s, q)
    ensures Claim(s.procs[p].pc) == Claim(s.procs[q].pc)
    ensures !PairApart(s.procs[p].pc, s.procs[q].pc)
  {
    assert ProcInv(s, w, p) && ProcInv(s, w, q);
  }

  /** What one step may do to the directory, seen from another process. */
  ghost predicate Undisturbed(s: State, s': State, w: nat, p: nat) {
    && |s'.procs| == |s.procs|
    && (forall q :: 0 <= q < |s.procs| && q != p ==> s'.procs[q] == s.procs[q])
    && forall q :: 0 <= q < |s.procs| && q != p ==> ProcInv(s', w, q)
  }

  /** Assembles the invariant after a step of `p`. */
  lemma Reassemble(s: State, s': State, w: nat, p: nat)
    requires Inv(s, w) && p < |s.procs| && Undisturbed(s, s', w, p) && DirInv(s') && ProcInv(s', w, p)
    requires forall q :: 0 <= q < |s.procs| && q != p ==> PairApart(s'.procs[p].pc, s.procs[q].pc)
    ensures Inv(s', w)
  {
    forall q, r | 0 <= q < |s'.procs| && 0 <= r < |s'.procs| && q != r
      ensures PairApart(s'.procs[q].pc, s'.procs[r].pc)
    {
      if q != p && r != p {
        assert PairApart(s.procs[q].pc, s.procs[r].pc);
      } else if r == p {
        assert PairApart(s'.procs[p].pc, s.procs[q].pc);
      }
    }
  }

  predicate Inherits(pc': Pc, pc: Pc) {
    && (Claim(pc').Some? ==> Claim(pc') == Claim(pc))
    && (Spends(pc').Some? ==> Spends(pc') == Spends(pc))
  }

  /** A step that only moves `p`, without a new claim. */
  lemma Moves(s: State, w: nat, p: nat, pc: Pc)
    requires Inv(s, w) && p < |s.procs| && Inherits(pc, s.procs[p].pc)
    requires ProcInv(Go(s, p, pc), w, p)
    ensures Inv(Go(s, p, pc), w)
  {
    var s' := Go(s, p, pc);
    forall q | 0 <= q < |s.procs| && q != p
      ensures ProcInv(s', w, q) && PairApart(pc, s.procs[q].pc)
    {
      assert ProcInv(s, w, q);
      assert PairApart(s.procs[p].pc, s.procs[q].pc);
    }
    Reassemble(s, s', w, p);
  }

  lemma MkdirKeeps(s: State, w: nat, p: nat)
    requires Inv(s, w) && p < |s.procs| && s.dir.None?
    ensures Inv(Go(MakeDir(s), p, Create(s.nextIno)), w)
  {
    var s' := Go(MakeDir(s), p, Create(s.nextIno));
    forall q | 0 <= q < |s.procs| && q != p
      ensures ProcInv(s', w, q) && PairApart(s'.procs[p].pc, s.procs[q].pc)
    {
      assert ProcInv(s, w, q);
    }
    Reassemble(s, s', w, p);
  }

  /** Writing the marker, at once or empty first. */
  lemma CreateKeeps(s: State, w: nat, p: nat, c: Choice)
    requires Inv(s, w) && p < |s.procs| && s.procs[p].pc.Create?
    ensures Inv(Own(s, p, c), w)
  {
    var s' := Own(s, p, c);
    assert ProcInv(s, w, p);
    forall q | 0 <= q < |s.procs| && q != p
      ensures ProcInv(s', w, q) && PairApart(s'.procs[p].pc, s.procs[q].pc)
    {
      assert ProcInv(s, w, q);
      assert PairApart(s.procs[p].pc, s.procs[q].pc);
    }
    assert s'.dir.value.markers == map[s.nextToken := s'.dir.value.markers[s.nextToken]];
    Reassemble(s, s', w, p);
  }

  lemma FillKeeps(s: State, w: nat, p: nat, c: Choice)
    requires Inv(s, w) && p < |s.procs| && s.procs[p].pc.Fill?
    ensures Inv(Own(s, p, c), w)
  {
    var s' := Own(s, p, c);
    var t := s.procs[p].pc.token;
    assert ProcInv(s, w, p);
    assert s'.dir.value.markers == map[t := Complete(p, t)];
    forall q | 0 <= q < |s.procs| && q != p
      ensures ProcInv(s', w, q) && PairApart(s'.procs[p].pc, s.procs[q].pc)
    {
      assert ProcInv(s, w, q);
      assert PairApart(s.procs[p].pc, s.procs[q].pc);
    }
    Reassemble(s, s', w, p);
  }

  /** Removing the one marker, by its live owner or after its owner died. */
  lemma RemoveKeeps(s: State, w: nat, p: nat, t: Token, pc: Pc)
    requires Inv(s, w) && p < |s.procs| && Has(s, t)
    requires s.dir.value.markers[t].Complete?
    requires s.dir.value.markers[t].pid == p || !Alive(s, s.dir.value.markers[t].pid)
    requires Claim(pc).None? && Spends(pc) == Some(s.dir.value.ino) && (pc.ReleaseReaddir? || pc.Readdir2?)
    ensures Inv(Go(Remove(s, t), p, pc), w)
  {
    var s' := Go(Remove(s, t), p, pc);
    assert s'.dir.value.markers == map[];
    forall q | 0 <= q < |s.procs| && q != p
      ensures ProcInv(s', w, q) && PairApart(pc, s.procs[q].pc)
    {
      assert ProcInv(s, w, q);
    }
    Reassemble(s, s', w, p);
  }

  lemma RmdirKeeps(s: State, w: nat, p: nat, i: Inode, pc: Pc)
    requires Inv(s, w) && p < |s.procs| && Spent(s, i) && Spends(s.procs[p].pc) == Some(i)
    requires pc.Idle? || pc.Mkdir?
    ensures Inv(Go(RemoveDir(s), p, pc), w)
  {
    var s' := Go(RemoveDir(s), p, pc);
    forall q | 0 <= q < |s.procs| && q != p
      ensures ProcInv(s', w, q) && PairApart(pc, s.procs[q].pc)
    {
      assert ProcInv(s, w, q);
      assert PairApart(s.procs[p].pc, s.procs[q].pc);
    }
    Reassemble(s, s', w, p);
  }

  lemma ProcHolds(s: State, w: nat, p: nat)
    requires Inv(s, w) && p < |s.procs|
    ensures ProcInv(s, w, p)
  {}

  lemma AcquireKeeps(s: State, w: nat, p: nat, c: Choice)
    requires Inv(s, w) && Alive(s, p)
    requires var pc := s.procs[p].pc; pc.Mkdir? || pc.Create? || pc.Fill? || pc.Stat?
    ensures Inv(Own(s, p, c), w)
  {
    hide Inv;
    ProcHolds(s, w, p);
    var pc := s.procs[p].pc;
    if pc.Mkdir? {
      if s.dir.None? {
        MkdirKeeps(s, w, p);
      } else {
        Moves(s, w, p, StaleReaddir);
      }
    } else if pc.Create? {
      CreateKeeps(s, w, p, c);
    } else if pc.Fill? {
      FillKeeps(s, w, p, c);
    } else {
      Moves(s, w, p, if s.dir.None? then Mkdir else Holding(pc.token, s.dir.value.ino));
    }
  }

  lemma ReleaseKeeps(s: State, w: nat, p: nat, c: Choice)
    requires Inv(s, w) && Alive(s, p)
    requires var pc := s.procs[p].pc; pc.Holding? || pc.ReleaseReaddir? || pc.ReleaseStat? || pc.ReleaseRmdir?
    ensures Inv(Own(s, p, c), w)
  {
    hide Inv;
    ProcHolds(s, w, p);
    var pc := s.procs[p].pc;
    if pc.Holding? {
      RemoveKeeps(s, w, p, pc.token, ReleaseReaddir(pc.ino));
    } else if pc.ReleaseReaddir? {
      Moves(s, w, p, if s.dir.None? then Idle else ReleaseStat(pc.ino, IsEmpty(s)));
    } else if pc.ReleaseStat? {
      Moves(s, w, p, if s.dir.None? || !pc.empty || s.dir.value.ino != pc.ino then Idle else ReleaseRmdir(pc.ino));
    } else {
      RmdirKeeps(s, w, p, pc.ino, Idle);
    }
  }

  lemma OwnKeeps(s: State, w: nat, p: nat, c: Choice)
    requires Inv(s, w) && Alive(s, p)
    requires !s.procs[p].pc.Rmdir? && !InReclaim(s.procs[p].pc)
    ensures Inv(Own(s, p, c), w)
  {
    hide Inv;
    var pc := s.procs[p].pc;
    if pc.Mkdir? || pc.Create? || pc.Fill? || pc.Stat? {
      AcquireKeeps(s, w, p, c);
    } else if pc.Holding? || pc.ReleaseReaddir? || pc.ReleaseStat? || pc.ReleaseRmdir? {
      ReleaseKeeps(s, w, p, c);
    } else {
      ProcHolds(s, w, p);
      Moves(s, w, p, Mkdir);
    }
  }

  lemma CheckStaleKeeps(s: State, w: nat, p: nat, c: Choice)
    requires Inv(s, w) && p < |s.procs|
    requires var pc := s.procs[p].pc; pc.StaleReaddir? || pc.StaleRead? || pc.StaleKill? || pc.StaleAge?
    ensures Inv(CheckStale(s, p, c), w)
  {
    var pc := CheckStale(s, p, c).procs[p].pc;
    assert CheckStale(s, p, c) == Go(s, p, pc);
    Moves(s, w, p, pc);
  }

  lemma ReclaimEmptyKeeps(s: State, w: nat, d: nat, p: nat)
    requires Inv(s, w) && p < |s.procs| && Prompt(s, w, d) && w < STALE_AFTER_MS
    requires var pc := s.procs[p].pc; pc.EmptyAge? || pc.EmptyReaddir? || pc.EmptyAgain? || pc.EmptyRmdir?
    ensures Inv(ReclaimEmpty(s, p), w)
  {
    assert ProcInv(s, w, p);
    match s.procs[p].pc
    case EmptyAge => Moves(s, w, p, if Old(s) then EmptyReaddir(s.dir.value.ino) else Mkdir);
    case EmptyReaddir(i) => Moves(s, w, p, if IsEmpty(s) then EmptyAgain(i) else Mkdir);
    case EmptyAgain(i) => Moves(s, w, p, Mkdir);
  }

  /** Judging a marker. */
  lemma JudgeKeeps(s: State, w: nat, d: nat, p: nat)
    requires Inv(s, w) && Alive(s, p) && Prompt(s, w, d) && w + d < STALE_AFTER_MS
    requires var pc := s.procs[p].pc; pc.Read? || pc.Kill? || pc.Age? || pc.Reread? || pc.DirStat?
    ensures Inv(ReclaimMarked(s, p), w)
  {
    assert ProcInv(s, w, p);
    var pc := ReclaimMarked(s, p).procs[p].pc;
    assert ReclaimMarked(s, p) == Go(s, p, pc);
    if s.procs[p].pc.Read? && pc.Age? {
      assert Unmarked(s.dir.value);
    }
    assert ProcInv(Go(s, p, pc), w, p);
    Moves(s, w, p, pc);
  }

  /** Removing a condemned marker and then the directory. */
  lemma ReclaimKeeps(s: State, w: nat, p: nat)
    requires Inv(s, w) && Alive(s, p)
    requires var pc := s.procs[p].pc; pc.Unlink? || pc.Readdir2? || pc.Stat2? || pc.Rmdir?
    ensures Inv(ReclaimMarked(s, p), w)
  {
    assert ProcInv(s, w, p);
    match s.procs[p].pc
    case Unlink(t, i) =>
      if Has(s, t) {
        RemoveKeeps(s, w, p, t, Readdir2(i));
      } else {
        Moves(s, w, p, Mkdir);
      }
    case Readdir2(i) => Moves(s, w, p, Stat2(i, IsEmpty(s)));
    case Stat2(i, e) => Moves(s, w, p, if s.dir.Some? && e && s.dir.value.ino == i then Rmdir(i) else Mkdir);
    case Rmdir(i) => RmdirKeeps(s, w, p, i, Mkdir);
  }

  lemma DieKeeps(s: State, w: nat, p: nat)
    requires Inv(s, w) && p < |s.procs|
    ensures Inv(Apply(s, Die(p)), w)
  {
    var s' := Apply(s, Die(p));
    forall q | 0 <= q < |s.procs|
      ensures ProcInv(s', w, q)
    {
      assert ProcInv(s, w, q);
    }
    forall q, r | 0 <= q < |s.procs| && 0 <= r < |s.procs| && q != r
      ensures PairApart(s'.procs[q].pc, s'.procs[r].pc)
    {
      assert PairApart(s.procs[q].pc, s.procs[r].pc);
    }
  }

  lemma TickKeeps(s: State, w: nat, ms: nat)
    requires Inv(s, w)
    ensures Inv(Apply(s, Tick(ms)), w)
  {
    forall q | 0 <= q < |s.procs|
      ensures ProcInv(Apply(s, Tick(ms)), w, q)
    {
      assert ProcInv(s, w, q);
    }
  }

  /** Every step keeps the invariant. */
  lemma StepKeeps(s: State, a: Action, w: nat, d: nat)
    requires Inv(s, w) && Prompt(s, w, d) && w + d < STALE_AFTER_MS && Enabled(s, a)
    ensures Inv(Apply(s, a), w)
  {
    match a
    case Run(p, c) =>
      var pc := s.procs[p].pc;
      if pc.StaleReaddir? || pc.StaleRead? || pc.StaleKill? || pc.StaleAge? {
        CheckStaleKeeps(s, w, p, c);
      } else if pc.Readdir? {
        Moves(s, w, p, Advance(s, p, c).procs[p].pc);
      } else if pc.EmptyAge? || pc.EmptyReaddir? || pc.EmptyAgain? || pc.EmptyRmdir? {
        ReclaimEmptyKeeps(s, w, d, p);
      } else if InReclaim(pc) {
        if pc.Unlink? || pc.Readdir2? || pc.Stat2? || pc.Rmdir? {
          ReclaimKeeps(s, w, p);
        } else {
          JudgeKeeps(s, w, d, p);
        }
      } else {
        OwnKeeps(s, w, p, c);
      }
    case Cancel(p) => Moves(s, w, p, Idle);
    case Die(p) => DieKeeps(s, w, p);
    case Tick(ms) => TickKeeps(s, w, ms);
  }

  lemma {:induction false} RunKeeps(s: State, actions: seq<Action>, w: nat, d: nat)
    requires Inv(s, w) && PromptRun(s, actions, w, d) && w + d < STALE_AFTER_MS
    ensures AnyRun(s, actions) && Inv(Final(s, actions), w)
    decreases |actions|
  {
    PromptRunIsRun(s, actions, w, d);
    if actions != [] {
      StepKeeps(s, actions[0], w, d);
      RunKeeps(Apply(s, actions[0]), actions[1..], w, d);
    }
  }

  /**
   Mutual exclusion in every interleaving of any number of processes, with owners
   that die holding the lock, as long as markers are written and failed reads are
   followed up within times that add up to less than the stale age.
  */
  lemma MutualExclusionHolds(s: State, actions: seq<Action>, w: nat, d: nat)
    requires Init(s) && PromptRun(s, actions, w, d) && w + d < STALE_AFTER_MS
    ensures AnyRun(s, actions) && MutualExclusion(Final(s, actions))
  {
    RunKeeps(s, actions, w, d);
    InvExcludes(Final(s, actions), w);
  }

  // ----- The bound is exact -----

  /** One more step of a run. */
  lemma {:induction false} Extend(s: State, actions: seq<Action>, a: Action, w: nat, d: nat)
    requires PromptRun(s, actions, w, d) && AnyRun(s, actions)
    requires Enabled(Final(s, actions), a) && Prompt(Apply(Final(s, actions), a), w, d)
    ensures PromptRun(s, actions + [a], w, d) && AnyRun(s, actions + [a])
    ensures Final(s, actions + [a]) == Apply(Final(s, actions), a)
    decreases |actions|
  {
    if actions == [] {
      assert [a][1..] == [];
      assert PromptRun(Apply(s, a), [], w, d);
    } else {
      assert (actions + [a])[1..] == actions[1..] + [a];
      Extend(Apply(s, actions[0]), actions[1..], a, w, d);
    }
  }

  /** A state that some prompt run from `start` reaches. */
  ghost predicate Reached(start: State, s: State, w: nat, d: nat) {
    exists actions :: PromptRun(start, actions, w, d) && AnyRun(start, actions) && Final(start, actions) == s
  }

  lemma StepTo(start: State, s: State, a: Action, s': State, w: nat, d: nat)
    requires Reached(start, s, w, d) && Enabled(s, a) && Apply(s, a) == s' && Prompt(s', w, d)
    ensures Reached(start, s', w, d)
  {
    var actions :| PromptRun(start, actions, w, d) && AnyRun(start, actions) && Final(start, actions) == s;
    Extend(start, actions, a, w, d);
  }

  const WHOLE := Choice(0, true, false)
  const HALF := Choice(0, false, false)

  /** A step that only moves `p` needs no look at the clock. */
  lemma Walk(start: State, s: State, p: nat, pc: Pc, w: nat, d: nat)
    requires Reached(start, s, w, d) && Alive(s, p) && !pc.Age?
    requires Advance(s, p, WHOLE) == Go(s, p, pc)
    ensures Reached(start, Go(s, p, pc), w, d)
  {
    ReachedIsPrompt(start, s, w, d);
    StepTo(start, s, Run(p, WHOLE), Go(s, p, pc), w, d);
  }

  lemma ReachedIsPrompt(start: State, s: State, w: nat, d: nat)
    requires Reached(start, s, w, d)
    ensures Prompt(s, w, d)
  {
    var actions :| PromptRun(start, actions, w, d) && AnyRun(start, actions) && Final(start, actions) == s;
    EndIsPrompt(start, actions, w, d);
  }

  lemma {:induction false} EndIsPrompt(s: State, actions: seq<Action>, w: nat, d: nat)
    requires PromptRun(s, actions, w, d) && AnyRun(s, actions)
    ensures Prompt(Final(s, actions), w, d)
    decreases |actions|
  {
    if actions != [] {
      EndIsPrompt(Apply(s, actions[0]), actions[1..], w, d);
    }
  }

  lemma GoTwice(s: State, p: nat, a: Pc, b: Pc)
    requires p < |s.procs|
    ensures Go(Go(s, p, a), p, b) == Go(s, p, b)
  {
  }

  /** The lock with one complete marker. */
  function Locked(s: State, owner: nat): State {
    s.(dir := Some(Dir(s.nextIno, s.now, map[s.nextToken := Complete(owner, s.nextToken)], false)),
       nextIno := s.nextIno + 1, nextToken := s.nextToken + 1)
  }

  lemma {:induction false} TakesLock(start: State, s: State, p: nat, w: nat, d: nat)
    requires Reached(start, s, w, d) && Alive(s, p) && s.procs[p].pc.Mkdir? && s.dir.None?
    ensures Reached(start, Go(Locked(s, p), p, Holding(s.nextToken, s.nextIno)), w, d)
  {
    ReachedIsPrompt(start, s, w, d);
    hide Reached;
    var s1 := Go(MakeDir(s), p, Create(s.nextIno));
    StepTo(start, s, Run(p, WHOLE), s1, w, d);
    var s2 := Go(Locked(s, p), p, Stat(s.nextToken, s.nextIno));
    StepTo(start, s1, Run(p, WHOLE), s2, w, d);
    var pc := Holding(s.nextToken, s.nextIno);
    Walk(start, s2, p, pc, w, d);
    GoTwice(Locked(s, p), p, Stat(s.nextToken, s.nextIno), pc);
  }

  /** The lock directory holds one complete marker of a dead process. */
  predicate DeadLock(s: State, t: Token, owner: nat) {
    s.dir.Some? && s.dir.value.markers == map[t := Complete(owner, t)] && Has(s, t) && !Alive(s, owner)
  }

  lemma FindsStale(start: State, s: State, p: nat, t: Token, owner: nat, w: nat, d: nat)
    requires Reached(start, s, w, d) && Alive(s, p) && s.procs[p].pc.Mkdir? && DeadLock(s, t, owner)
    ensures Reached(start, Go(s, p, Readdir), w, d)
  {
    hide Reached;
    Walk(start, s, p, StaleReaddir, w, d);
    Walk(start, Go(s, p, StaleReaddir), p, StaleRead(t), w, d);
    GoTwice(s, p, StaleReaddir, StaleRead(t));
    Walk(start, Go(s, p, StaleRead(t)), p, StaleKill(owner), w, d);
    GoTwice(s, p, StaleRead(t), StaleKill(owner));
    Walk(start, Go(s, p, StaleKill(owner)), p, Readdir, w, d);
    GoTwice(s, p, StaleKill(owner), Readdir);
  }

  lemma JudgesDead(start: State, s: State, p: nat, t: Token, owner: nat, w: nat, d: nat)
    requires Reached(start, s, w, d) && Alive(s, p) && s.procs[p].pc.Readdir? && DeadLock(s, t, owner)
    ensures Reached(start, Go(s, p, Reread(t)), w, d)
  {
    hide Reached;
    Walk(start, s, p, Read(t), w, d);
    Walk(start, Go(s, p, Read(t)), p, Kill(t, owner), w, d);
    GoTwice(s, p, Read(t), Kill(t, owner));
    Walk(start, Go(s, p, Kill(t, owner)), p, Reread(t), w, d);
    GoTwice(s, p, Kill(t, owner), Reread(t));
  }

  /** From the second read on the reclaimer trusts its verdict, whoever owns the marker by now. */
  lemma Unlinks(start: State, s: State, p: nat, t: Token, owner: nat, w: nat, d: nat)
    requires Reached(start, s, w, d) && Alive(s, p) && s.procs[p].pc == Reread(t)
    requires s.dir.Some? && s.dir.value.markers == map[t := Complete(owner, t)] && Has(s, t)
    ensures Reached(start, Go(Remove(s, t), p, Readdir2(s.dir.value.ino)), w, d)
  {
    hide Reached;
    var i := s.dir.value.ino;
    Walk(start, s, p, DirStat(t), w, d);
    Walk(start, Go(s, p, DirStat(t)), p, Unlink(t, i), w, d);
    GoTwice(s, p, DirStat(t), Unlink(t, i));
    var s1 := Go(s, p, Unlink(t, i));
    ReachedIsPrompt(start, s1, w, d);
    var s2 := Go(Remove(s1, t), p, Readdir2(i));
    assert s2 == Go(Remove(s, t), p, Readdir2(i)) by {
      GoTwice(Remove(s, t), p, Unlink(t, i), Readdir2(i));
    }
    StepTo(start, s1, Run(p, WHOLE), s2, w, d);
  }

  lemma Wipes(start: State, s: State, p: nat, w: nat, d: nat)
    requires Reached(start, s, w, d) && Alive(s, p) && IsEmpty(s)
    requires s.procs[p].pc == Readdir2(s.dir.value.ino)
    ensures Reached(start, Go(s.(dir := None), p, Mkdir), w, d)
  {
    hide Reached;
    var i := s.dir.value.ino;
    Walk(start, s, p, Stat2(i, true), w, d);
    Walk(start, Go(s, p, Stat2(i, true)), p, Rmdir(i), w, d);
    GoTwice(s, p, Stat2(i, true), Rmdir(i));
    var s1 := Go(s, p, Rmdir(i));
    ReachedIsPrompt(start, s1, w, d);
    GoTwice(s.(dir := None), p, Rmdir(i), Mkdir);
    StepTo(start, s1, Run(p, WHOLE), Go(s.(dir := None), p, Mkdir), w, d);
  }

  // Three processes: 0 takes the lock and dies, 1 recovers it, 2 is slow.

  const DEAD := Proc(false, Holding(0, 0))

  function Three(dir: Option<Dir>, a: Proc, b: Pc, c: Pc, now: nat, ino: nat, token: nat): State {
    State(dir, [a, Proc(true, b), Proc(true, c)], now, ino, token)
  }

  function Start(): State {
    Three(None, Proc(true, Idle), Idle, Idle, 0, 0, 0)
  }

  function Left(): Option<Dir> {
    Some(Dir(0, 0, map[0 := Complete(0, 0)], false))
  }

  lemma OwnerDies(w: nat, d: nat)
    ensures Reached(Start(), Three(Left(), DEAD, Idle, Idle, 0, 1, 1), w, d)
  {
    var s := Start();
    assert PromptRun(s, [], w, d) && AnyRun(s, []) && Final(s, []) == s;
    assert Reached(s, s, w, d);
    hide Reached;
    Walk(s, s, 0, Mkdir, w, d);
    var s1 := Go(s, 0, Mkdir);
    TakesLock(s, s1, 0, w, d);
    var s2 := Go(Locked(s1, 0), 0, Holding(0, 0));
    ReachedIsPrompt(s, s2, w, d);
    assert s2 == Three(Left(), Proc(true, Holding(0, 0)), Idle, Idle, 0, 1, 1);
    StepTo(s, s2, Die(0), Three(Left(), DEAD, Idle, Idle, 0, 1, 1), w, d);
  }

  /** Process 2 finds the lock stale and stalls before it reclaims. */
  lemma SlowOneLooks(w: nat, d: nat)
    ensures Reached(Start(), Three(Left(), DEAD, Idle, Readdir, 0, 1, 1), w, d)
  {
    OwnerDies(w, d);
    hide Reached;
    var s := Three(Left(), DEAD, Idle, Idle, 0, 1, 1);
    Walk(Start(), s, 2, Mkdir, w, d);
    assert Go(s, 2, Mkdir) == Three(Left(), DEAD, Idle, Mkdir, 0, 1, 1);
    FindsStale(Start(), Go(s, 2, Mkdir), 2, 0, 0, w, d);
    assert Go(Go(s, 2, Mkdir), 2, Readdir) == Three(Left(), DEAD, Idle, Readdir, 0, 1, 1);
  }

  /** Process 1 reclaims the lock of the dead owner. */
  lemma FastOneReclaims(w: nat, d: nat)
    ensures Reached(Start(), Three(None, DEAD, Mkdir, Readdir, 0, 1, 1), w, d)
  {
    SlowOneLooks(w, d);
    hide Reached;
    var s := Three(Left(), DEAD, Idle, Readdir, 0, 1, 1);
    Walk(Start(), s, 1, Mkdir, w, d);
    var s1 := Three(Left(), DEAD, Mkdir, Readdir, 0, 1, 1);
    assert Go(s, 1, Mkdir) == s1;
    FindsStale(Start(), s1, 1, 0, 0, w, d);
    JudgesDead(Start(), Go(s1, 1, Readdir), 1, 0, 0, w, d);
    GoTwice(s1, 1, Readdir, Reread(0));
    var s2 := Three(Left(), DEAD, Reread(0), Readdir, 0, 1, 1);
    assert Go(s1, 1, Reread(0)) == s2;
    FastOneWipes(s2, w, d);
  }

  lemma FastOneWipes(s: State, w: nat, d: nat)
    requires s == Three(Left(), DEAD, Reread(0), Readdir, 0, 1, 1) && Reached(Start(), s, w, d)
    ensures Reached(Start(), Three(None, DEAD, Mkdir, Readdir, 0, 1, 1), w, d)
  {
    hide Reached;
    Unlinks(Start(), s, 1, 0, 0, w, d);
    var s1 := Go(Remove(s, 0), 1, Readdir2(0));
    assert s1.dir.value.markers == map[];
    Wipes(Start(), s1, 1, w, d);
    assert Go(s1.(dir := None), 1, Mkdir) == Three(None, DEAD, Mkdir, Readdir, 0, 1, 1);
  }

  function Fresh(m: Marker): Option<Dir> {
    Some(Dir(1, 0, map[1 := m], false))
  }

  /** Process 1 makes the directory again and has created, but not yet filled, its marker. */
  lemma FastOneMarks(w: nat, d: nat)
    ensures Reached(Start(), Three(Fresh(Half), DEAD, Fill(1, 1), Readdir, 0, 2, 2), w, d)
  {
    FastOneReclaims(w, d);
    hide Reached;
    var s := Three(None, DEAD, Mkdir, Readdir, 0, 1, 1);
    var s1 := Three(Some(Dir(1, 0, map[], false)), DEAD, Create(1), Readdir, 0, 2, 1);
    StepTo(Start(), s, Run(1, HALF), s1, w, d);
    StepTo(Start(), s1, Run(1, HALF), Three(Fresh(Half), DEAD, Fill(1, 1), Readdir, 0, 2, 2), w, d);
  }

  /** `a` later process 2 reads the unfinished marker. */
  lemma SlowOneReads(a: nat, w: nat, d: nat)
    requires a <= w
    ensures Reached(Start(), Three(Fresh(Half), DEAD, Fill(1, 1), Age(1, a), a, 2, 2), w, d)
  {
    FastOneMarks(w, d);
    hide Reached;
    var s := Three(Fresh(Half), DEAD, Fill(1, 1), Readdir, 0, 2, 2);
    var s1 := Three(Fresh(Half), DEAD, Fill(1, 1), Readdir, a, 2, 2);
    StepTo(Start(), s, Tick(a), s1, w, d);
    assert 1 in map[1 := Half];
    assert Pick(map[1 := Half], 0) == 1;
    Walk(Start(), s1, 2, Read(1), w, d);
    var s2 := Three(Fresh(Half), DEAD, Fill(1, 1), Read(1), a, 2, 2);
    assert Go(s1, 2, Read(1)) == s2;
    StepTo(Start(), s2, Run(2, WHOLE), Three(Fresh(Half), DEAD, Fill(1, 1), Age(1, a), a, 2, 2), w, d);
  }

  /** Process 1 finishes its marker and holds the lock. */
  lemma FastOneHolds(a: nat, w: nat, d: nat)
    requires a <= w
    ensures Reached(Start(), Three(Fresh(Complete(1, 1)), DEAD, Holding(1, 1), Age(1, a), a, 2, 2), w, d)
  {
    SlowOneReads(a, w, d);
    hide Reached;
    var s := Three(Fresh(Half), DEAD, Fill(1, 1), Age(1, a), a, 2, 2);
    var s1 := Three(Fresh(Complete(1, 1)), DEAD, Stat(1, 1), Age(1, a), a, 2, 2);
    assert SetMarker(s, 1, Complete(1, 1), 0).dir == Fresh(Complete(1, 1)) by {
      assert map[1 := Half][1 := Complete(1, 1)] == map[1 := Complete(1, 1)];
    }
    StepTo(Start(), s, Run(1, WHOLE), s1, w, d);
    Walk(Start(), s1, 1, Holding(1, 1), w, d);
    assert Go(s1, 1, Holding(1, 1)) == Three(Fresh(Complete(1, 1)), DEAD, Holding(1, 1), Age(1, a), a, 2, 2);
  }

  /** `b` later the directory is old enough, and process 2 condemns the marker it could not parse. */
  lemma SlowOneCondemns(a: nat, b: nat, w: nat, d: nat)
    requires a <= w && b <= d && a + b == STALE_AFTER_MS
    ensures Reached(Start(), Three(Fresh(Complete(1, 1)), DEAD, Holding(1, 1), Reread(1), a + b, 2, 2), w, d)
  {
    FastOneHolds(a, w, d);
    hide Reached;
    var s := Three(Fresh(Complete(1, 1)), DEAD, Holding(1, 1), Age(1, a), a, 2, 2);
    var s1 := Three(Fresh(Complete(1, 1)), DEAD, Holding(1, 1), Age(1, a), a + b, 2, 2);
    assert 1 in s.dir.value.markers;
    StepTo(Start(), s, Tick(b), s1, w, d);
    Walk(Start(), s1, 2, Reread(1), w, d);
    assert Go(s1, 2, Reread(1)) == Three(Fresh(Complete(1, 1)), DEAD, Holding(1, 1), Reread(1), a + b, 2, 2);
  }

  /** Process 2 removes the live holder's marker and takes the lock as well. */
  lemma SlowOneRobs(s: State, w: nat, d: nat) returns (s': State)
    requires |s.procs| == 3 && Reached(Start(), s, w, d)
    requires s.dir == Fresh(Complete(1, 1)) && Has(s, 1)
    requires s.procs[1] == Proc(true, Holding(1, 1)) && s.procs[2] == Proc(true, Reread(1))
    ensures Reached(Start(), s', w, d) && Holds(s', 1) && Holds(s', 2)
  {
    hide Reached;
    Unlinks(Start(), s, 2, 1, 1, w, d);
    var s1 := Go(Remove(s, 1), 2, Readdir2(1));
    assert s1.dir.value.markers == map[];
    Wipes(Start(), s1, 2, w, d);
    var s2 := Go(s1.(dir := None), 2, Mkdir);
    TakesLock(Start(), s2, 2, w, d);
    s' := Go(Locked(s2, 2), 2, Holding(s2.nextToken, s2.nextIno));
  }

  /** Beyond the bound some run that keeps the timing hypothesis has two live holders. */
  lemma MutualExclusionFails(w: nat, d: nat) returns (s: State)
    requires w + d >= STALE_AFTER_MS
    ensures Reached(Start(), s, w, d) && !MutualExclusion(s)
  {
    var a := if w < STALE_AFTER_MS then w else STALE_AFTER_MS;
    SlowOneCondemns(a, STALE_AFTER_MS - a, w, d);
    var s1 := Three(Fresh(Complete(1, 1)), DEAD, Holding(1, 1), Reread(1), STALE_AFTER_MS, 2, 2);
    s := SlowOneRobs(s1, w, d);
  }

  /** Mutual exclusion is safe under the bounds `w` and `d`: in every run that keeps them. */
  ghost predicate Safe(w: nat, d: nat) {
    forall s, actions :: Init(s) && PromptRun(s, actions, w, d) && AnyRun(s, actions)
        ==> MutualExclusion(Final(s, actions))
  }

  /** The lock excludes exactly when the two bounds add up to less than the stale age. */
  lemma SafeExactly(w: nat, d: nat)
    ensures Safe(w, d) <==> w + d < STALE_AFTER_MS
  {
    if w + d < STALE_AFTER_MS {
      forall s, actions | Init(s) && PromptRun(s, actions, w, d) && AnyRun(s, actions)
        ensures MutualExclusion(Final(s, actions))
      {
        MutualExclusionHolds(s, actions, w, d);
      }
    } else {
      var s := MutualExclusionFails(w, d);
      var actions :| PromptRun(Start(), actions, w, d) && AnyRun(Start(), actions) && Final(Start(), actions) == s;
      assert Init(Start());
    }
  }

  // ----- A live holder is never robbed, whatever the clock says -----

  /** The marker is written in one step. */
  ghost predicate WholeWrites(actions: seq<Action>) {
    forall k :: 0 <= k < |actions| && actions[k].Run? ==> actions[k].c.whole
  }

  ghost predicate OwnsMarker(s: State, p: nat, t: Token) {
    Has(s, t) && s.dir.value.markers[t] == Complete(p, t)
  }

  ghost predicate WholeProcInv(s: State, p: nat)
    requires p < |s.procs|
  {
    var proc := s.procs[p];
    && Bounded(proc.pc, s.nextIno, s.nextToken)
    && match proc.pc
       case Fill(_, _) => false
       case Stat(t, _) => proc.alive ==> OwnsMarker(s, p, t)
       case Holding(t, _) => proc.alive ==> OwnsMarker(s, p, t)
       case Kill(t, pid) => Has(s, t) ==> s.dir.value.markers[t] == Complete(pid, t)
       case Age(_, _) => false
       case Reread(t) => Condemned(s, t)
       case DirStat(t) => Condemned(s, t)
       case Unlink(t, _) => Condemned(s, t)
       case _ => true
  }

  /** Several markers may share the directory, but each is complete and names its owner. */
  ghost predicate WholeInv(s: State) {
    && (s.dir.Some? ==>
          && s.dir.value.ino < s.nextIno
          && forall t :: t in s.dir.value.markers ==>
               t < s.nextToken && s.dir.value.markers[t].Complete? && s.dir.value.markers[t].token == t)
    && forall p :: 0 <= p < |s.procs| ==> WholeProcInv(s, p)
  }

  /** A process between writing its marker and releasing. */
  predicate Marked(pc: Pc) {
    pc.Stat? || pc.Holding?
  }

  /** What a step of `p` leaves standing for the others. */
  lemma OthersKeep(s: State, s': State, p: nat)
    requires WholeInv(s) && p < |s.procs| && |s'.procs| == |s.procs|
    requires forall q :: 0 <= q < |s.procs| && q != p ==> s'.procs[q] == s.procs[q]
    requires s'.procs[p].alive == s.procs[p].alive
    requires s'.nextIno >= s.nextIno && s'.nextToken >= s.nextToken
    requires forall t: Token :: t < s.nextToken && Has(s', t) ==>
               Has(s, t) && s'.dir.value.markers[t] == s.dir.value.markers[t]
    requires forall t: Token :: Has(s, t) && !Has(s', t) ==>
               s.dir.value.markers[t].pid == p || !Alive(s, s.dir.value.markers[t].pid)
    ensures forall q :: 0 <= q < |s.procs| && q != p ==> WholeProcInv(s', q)
  {
    forall q | 0 <= q < |s.procs| && q != p
      ensures WholeProcInv(s', q)
    {
      assert WholeProcInv(s, q);
    }
  }

  lemma WholeMoves(s: State, p: nat, pc: Pc)
    requires WholeInv(s) && p < |s.procs| && WholeProcInv(Go(s, p, pc), p)
    ensures WholeInv(Go(s, p, pc))
  {
    OthersKeep(s, Go(s, p, pc), p);
  }

  lemma WholeRmdir(s: State, p: nat, pc: Pc)
    requires WholeInv(s) && p < |s.procs| && (pc.Idle? || pc.Mkdir?)
    ensures WholeInv(Go(RemoveDir(s), p, pc))
  {
    OthersKeep(s, Go(RemoveDir(s), p, pc), p);
  }

  lemma WholeRemove(s: State, p: nat, t: Token, pc: Pc)
    requires WholeInv(s) && p < |s.procs| && Has(s, t)
    requires s.dir.value.markers[t].pid == p || !Alive(s, s.dir.value.markers[t].pid)
    requires (pc.ReleaseReaddir? || pc.Readdir2?) && pc.ino < s.nextIno
    ensures WholeInv(Go(Remove(s, t), p, pc))
  {
    OthersKeep(s, Go(Remove(s, t), p, pc), p);
  }

  lemma WholeOwn(s: State, p: nat, c: Choice)
    requires WholeInv(s) && Alive(s, p) && c.whole
    requires Advance(s, p, c) == Own(s, p, c) && !InReclaim(s.procs[p].pc)
    ensures WholeInv(Own(s, p, c))
  {
    var pc := s.procs[p].pc;
    assert WholeProcInv(s, p);
    if pc.Mkdir? || pc.Create? {
      OthersKeep(s, Own(s, p, c), p);
    } else {
      WholeOwnMoves(s, p, c);
    }
  }

  lemma WholeHolds(s: State, p: nat)
    requires WholeInv(s) && p < |s.procs|
    ensures WholeProcInv(s, p) && (s.dir.Some? ==> s.dir.value.ino < s.nextIno)
  {}

  lemma WholeOwnMoves(s: State, p: nat, c: Choice)
    requires WholeInv(s) && Alive(s, p) && c.whole
    requires var pc := s.procs[p].pc; !InReclaim(pc) && !pc.Mkdir? && !pc.Create?
    ensures WholeInv(Own(s, p, c))
  {
    hide WholeInv;
    WholeHolds(s, p);
    var pc := s.procs[p].pc;
    if pc.Holding? {
      WholeRemove(s, p, pc.token, ReleaseReaddir(pc.ino));
    } else if pc.ReleaseRmdir? {
      WholeRmdir(s, p, Idle);
    } else {
      WholeMoves(s, p, Own(s, p, c).procs[p].pc);
    }
  }

  lemma WholeReclaim(s: State, p: nat)
    requires WholeInv(s) && Alive(s, p) && InReclaim(s.procs[p].pc)
    ensures WholeInv(ReclaimMarked(s, p))
  {
    assert WholeProcInv(s, p);
    var s' := ReclaimMarked(s, p);
    var pc := s.procs[p].pc;
    if pc.Unlink? && Has(s, pc.token) {
      WholeRemove(s, p, pc.token, Readdir2(pc.ino));
    } else if pc.Rmdir? {
      WholeRmdir(s, p, Mkdir);
    } else {
      WholeMoves(s, p, s'.procs[p].pc);
    }
  }

  lemma WholeCheck(s: State, p: nat, c: Choice)
    requires WholeInv(s) && p < |s.procs|
    requires var pc := s.procs[p].pc; pc.StaleReaddir? || pc.StaleRead? || pc.StaleKill? || pc.StaleAge?
    ensures WholeInv(CheckStale(s, p, c))
  {
    var pc := CheckStale(s, p, c).procs[p].pc;
    assert CheckStale(s, p, c) == Go(s, p, pc);
    WholeMoves(s, p, pc);
  }

  lemma WholeEmpty(s: State, p: nat)
    requires WholeInv(s) && p < |s.procs|
    requires var pc := s.procs[p].pc; pc.EmptyAge? || pc.EmptyReaddir? || pc.EmptyAgain? || pc.EmptyRmdir?
    ensures WholeInv(ReclaimEmpty(s, p))
  {
    assert WholeProcInv(s, p);
    if s.procs[p].pc.EmptyRmdir? {
      WholeRmdir(s, p, Mkdir);
    } else {
      WholeMoves(s, p, ReclaimEmpty(s, p).procs[p].pc);
    }
  }

  lemma WholeStep(s: State, a: Action)
    requires WholeInv(s) && Enabled(s, a) && (a.Run? ==> a.c.whole)
    ensures WholeInv(Apply(s, a))
  {
    match a
    case Run(p, c) =>
      var pc := s.procs[p].pc;
      if pc.StaleReaddir? || pc.StaleRead? || pc.StaleKill? || pc.StaleAge? {
        WholeCheck(s, p, c);
      } else if pc.Readdir? {
        WholeMoves(s, p, Advance(s, p, c).procs[p].pc);
      } else if pc.EmptyAge? || pc.EmptyReaddir? || pc.EmptyAgain? || pc.EmptyRmdir? {
        WholeEmpty(s, p);
      } else if InReclaim(pc) {
        WholeReclaim(s, p);
      } else {
        WholeOwn(s, p, c);
      }
    case Cancel(p) => WholeMoves(s, p, Idle);
    case Die(p) =>
      var s' := Apply(s, a);
      forall q | 0 <= q < |s.procs|
        ensures WholeProcInv(s', q)
      {
        assert WholeProcInv(s, q);
      }
    case Tick(_) =>
      forall q | 0 <= q < |s.procs|
        ensures WholeProcInv(Apply(s, a), q)
      {
        assert WholeProcInv(s, q);
      }
  }

  lemma {:induction false} WholeRun(s: State, actions: seq<Action>)
    requires WholeInv(s) && AnyRun(s, actions) && WholeWrites(actions)
    ensures WholeInv(Final(s, actions))
    decreases |actions|
  {
    if actions != [] {
      WholeStep(s, actions[0]);
      assert forall k :: 0 <= k < |actions| - 1 ==> actions[1..][k] == actions[k + 1];
      WholeRun(Apply(s, actions[0]), actions[1..]);
    }
  }

  /**
   In any interleaving, however long processes stall, a step of another process
   leaves a live holder's marker and directory where they are; so no `mkdir`
   of another process succeeds either.
  */
  lemma {:induction false} LiveHolderIsNotRobbed(s: State, actions: seq<Action>, a: Action, p: nat)
    requires Init(s) && AnyRun(s, actions) && WholeWrites(actions)
    requires var now := Final(s, actions); Enabled(now, a) && Holds(now, p)
    requires a.Run? ==> a.p != p && a.c.whole
    ensures var now, next := Final(s, actions), Apply(Final(s, actions), a);
            var t := now.procs[p].pc.token;
            && OwnsMarker(now, p, t)
            && OwnsMarker(next, p, t)
            && next.dir.value.ino == now.dir.value.ino
            && (a.Run? ==> !(now.procs[a.p].pc.Mkdir? && next.procs[a.p].pc.Create?))
  {
    WholeRun(s, actions);
    var now := Final(s, actions);
    assert WholeProcInv(now, p);
    WholeStep(now, a);
    if a.Run? {
      StepOfAnother(now, a.p, a.c, p, now.procs[p].pc.token);
    }
  }

  lemma StepOfAnother(s: State, q: nat, c: Choice, p: nat, t: Token)
    requires WholeInv(s) && Alive(s, q) && Alive(s, p) && OwnsMarker(s, p, t) && q != p && c.whole
    ensures OwnsMarker(Advance(s, q, c), p, t)
    ensures Advance(s, q, c).dir.value.ino == s.dir.value.ino
    ensures !(s.procs[q].pc.Mkdir? && Advance(s, q, c).procs[q].pc.Create?)
  {
    assert WholeProcInv(s, q);
  }

  // ----- Recovery from dead owners -----

  /** Every marker in the directory is complete and belongs to a dead process. */
  ghost predicate DeadMarkers(s: State) {
    s.dir.Some? ==> forall t :: t in s.dir.value.markers ==>
      && s.dir.value.markers[t].Complete?
      && s.dir.value.markers[t].token == t
      && !Alive(s, s.dir.value.markers[t].pid)
  }

  function MarkersLeft(s: State): nat {
    if s.dir.Some? then |s.dir.value.markers| else 0
  }

  /** Where a contender that runs alone can be, and what it knows. */
  ghost predicate Alone(s: State, p: nat) {
    && Alive(s, p)
    && match s.procs[p].pc
       case Mkdir => DeadMarkers(s) && (s.dir.Some? ==> !IsEmpty(s))
       case Create(_) => s.dir.Some?
       case Fill(_, _) => s.dir.Some?
       case Stat(_, _) => s.dir.Some?
       case Holding(_, _) => true
       case StaleReaddir => DeadMarkers(s) && s.dir.Some? && !IsEmpty(s)
       case StaleRead(t) => DeadMarkers(s) && Has(s, t)
       case StaleKill(pid) => DeadMarkers(s) && s.dir.Some? && !IsEmpty(s) && !Alive(s, pid)
       case Readdir => DeadMarkers(s) && s.dir.Some? && !IsEmpty(s)
       case Read(t) => DeadMarkers(s) && Has(s, t)
       case Kill(t, pid) => DeadMarkers(s) && Has(s, t) && !Alive(s, pid)
       case Reread(t) => DeadMarkers(s) && Has(s, t)
       case DirStat(t) => DeadMarkers(s) && Has(s, t)
       case Unlink(t, i) => DeadMarkers(s) && Has(s, t) && Current(s, i)
       case Readdir2(i) => DeadMarkers(s) && Current(s, i)
       case Stat2(i, e) => DeadMarkers(s) && Current(s, i) && e == IsEmpty(s)
       case Rmdir(i) => IsEmpty(s)
       case _ => false
  }

  /** Steps left until the contender holds the lock. */
  function Rank(pc: Pc, free: bool, left: nat): int {
    match pc
    case Holding(_, _) => 0
    case Stat(_, _) => 1
    case Fill(_, _) => 2
    case Create(_) => 3
    case Mkdir => if free then 4 else 12 * left + 5
    case Rmdir(_) => 5
    case Stat2(_, _) => 12 * left + 6
    case Readdir2(_) => 12 * left + 7
    case Unlink(_, _) => 12 * left - 4
    case DirStat(_) => 12 * left - 3
    case Reread(_) => 12 * left - 2
    case Kill(_, _) => 12 * left - 1
    case Read(_) => 12 * left
    case Readdir => 12 * left + 1
    case StaleKill(_) => 12 * left + 2
    case StaleRead(_) => 12 * left + 3
    case StaleReaddir => 12 * left + 4
    case _ => 0
  }

  ghost function StepsLeft(s: State, p: nat): int
    requires p < |s.procs|
  {
    Rank(s.procs[p].pc, s.dir.None?, MarkersLeft(s))
  }

  lemma EmptyMeansNone(s: State)
    requires s.dir.Some?
    ensures IsEmpty(s) <==> MarkersLeft(s) == 0
  {
  }

  lemma OneMarkerLess(s: State, t: Token)
    requires Has(s, t)
    ensures MarkersLeft(Remove(s, t)) == MarkersLeft(s) - 1
  {
    var m := s.dir.value.markers;
    assert (m - {t}).Keys == m.Keys - {t};
  }

  /** Every step of a lone contender brings it one step closer to the lock. */
  lemma AloneOwn(s: State, p: nat, c: Choice)
    requires Alone(s, p) && !s.procs[p].pc.Holding?
    requires var pc := s.procs[p].pc; pc.Mkdir? || pc.Create? || pc.Fill? || pc.Stat?
    ensures Alone(Advance(s, p, c), p) && StepsLeft(Advance(s, p, c), p) < StepsLeft(s, p)
  {
  }

  lemma AloneLooks(s: State, p: nat, c: Choice)
    requires Alone(s, p)
    requires var pc := s.procs[p].pc;
             pc.StaleReaddir? || pc.StaleRead? || pc.StaleKill? || pc.Readdir?
    ensures Alone(Advance(s, p, c), p) && StepsLeft(Advance(s, p, c), p) < StepsLeft(s, p)
  {
    EmptyMeansNone(s);
  }

  lemma AloneJudges(s: State, p: nat, c: Choice)
    requires Alone(s, p)
    requires var pc := s.procs[p].pc; pc.Read? || pc.Kill? || pc.Reread? || pc.DirStat?
    ensures Alone(Advance(s, p, c), p) && StepsLeft(Advance(s, p, c), p) < StepsLeft(s, p)
  {
  }

  lemma AloneUnlinks(s: State, p: nat, c: Choice)
    requires Alone(s, p) && s.procs[p].pc.Unlink?
    ensures Alone(Advance(s, p, c), p) && StepsLeft(Advance(s, p, c), p) < StepsLeft(s, p)
  {
    OneMarkerLess(s, s.procs[p].pc.token);
  }

  lemma AloneClears(s: State, p: nat, c: Choice)
    requires Alone(s, p)
    requires var pc := s.procs[p].pc; pc.Readdir2? || pc.Stat2? || pc.Rmdir?
    ensures Alone(Advance(s, p, c), p) && StepsLeft(Advance(s, p, c), p) < StepsLeft(s, p)
  {
    EmptyMeansNone(s);
  }

  lemma AloneSteps(s: State, p: nat, c: Choice)
    requires Alone(s, p) && !s.procs[p].pc.Holding?
    ensures Alone(Advance(s, p, c), p) && StepsLeft(Advance(s, p, c), p) < StepsLeft(s, p)
  {
    var pc := s.procs[p].pc;
    if pc.Mkdir? || pc.Create? || pc.Fill? || pc.Stat? {
      AloneOwn(s, p, c);
    } else if pc.StaleReaddir? || pc.StaleRead? || pc.StaleKill? || pc.Readdir? {
      AloneLooks(s, p, c);
    } else if pc.Read? || pc.Kill? || pc.Reread? || pc.DirStat? {
      AloneJudges(s, p, c);
    } else if pc.Unlink? {
      AloneUnlinks(s, p, c);
    } else {
      AloneClears(s, p, c);
    }
  }

  /** The state after process `p` alone took one step for each choice. */
  ghost function Solo(s: State, p: nat, choices: seq<Choice>): State
    requires p < |s.procs|
    decreases |choices|
  {
    if choices == [] then s else Solo(Advance(s, p, choices[0]), p, choices[1..])
  }

  lemma {:induction false} SoloAcquires(s: State, p: nat, choices: seq<Choice>) returns (n: nat)
    requires Alone(s, p) && StepsLeft(s, p) <= |choices|
    ensures n <= |choices| && Holds(Solo(s, p, choices[..n]), p)
    decreases |choices|
  {
    if s.procs[p].pc.Holding? {
      n := 0;
    } else {
      AloneSteps(s, p, choices[0]);
      EventuallyPositive(s, p);
      n := SoloAcquires(Advance(s, p, choices[0]), p, choices[1..]);
      assert choices[..n + 1][1..] == choices[1..][..n];
      n := n + 1;
    }
  }

  lemma EventuallyPositive(s: State, p: nat)
    requires Alone(s, p) && !s.procs[p].pc.Holding?
    ensures StepsLeft(s, p) > 0
  {
    if s.dir.Some? {
      EmptyMeansNone(s);
    }
  }

  /**
   However its readers list the directory, a contender that runs alone against
   the markers of dead processes holds the lock after at most twelve steps for
   each marker and five more.
  */
  lemma DeadOwnersAreRecovered(s: State, p: nat, choices: seq<Choice>) returns (n: nat)
    requires Alive(s, p) && s.procs[p].pc.Mkdir? && DeadMarkers(s)
    requires s.dir.Some? ==> !IsEmpty(s)
    requires |choices| == 12 * MarkersLeft(s) + 5
    ensures n <= |choices| && Holds(Solo(s, p, choices[..n]), p)
  {
    n := SoloAcquires(s, p, choices);
  }

  lemma {:induction false} SoloPlus(s: State, p: nat, a: seq<Choice>, b: seq<Choice>)
    requires p < |s.procs|
    ensures p < |Solo(s, p, a).procs|
    ensures Solo(s, p, a + b) == Solo(Solo(s, p, a), p, b)
    decreases |a|
  {
    if a == [] {
      assert a + b == b;
    } else {
      assert (a + b)[1..] == a[1..] + b;
      SoloPlus(Advance(s, p, a[0]), p, a[1..], b);
    }
  }

  lemma {:induction false} SoloOne(s: State, p: nat, a: seq<Choice>, c: Choice)
    requires p < |s.procs|
    ensures p < |Solo(s, p, a).procs|
    ensures Solo(s, p, a + [c]) == Advance(Solo(s, p, a), p, c)
  {
    SoloPlus(s, p, a, [c]);
    assert [c][1..] == [];
  }

  /** Eight steps remove a directory that was left without a marker long enough ago. */
  lemma EmptyDirectoryGoes(s: State, p: nat, cs: seq<Choice>)
    requires Alive(s, p) && s.procs[p].pc.Mkdir? && IsEmpty(s) && Old(s) && |cs| == 8
    ensures Solo(s, p, cs) == s.(dir := None)
  {
    var i := s.dir.value.ino;
    EmptyStep(s, p, cs, 0, Mkdir, StaleReaddir);
    EmptyStep(s, p, cs, 1, StaleReaddir, StaleAge);
    EmptyStep(s, p, cs, 2, StaleAge, Readdir);
    EmptyStep(s, p, cs, 3, Readdir, EmptyAge);
    EmptyStep(s, p, cs, 4, EmptyAge, EmptyReaddir(i));
    EmptyStep(s, p, cs, 5, EmptyReaddir(i), EmptyAgain(i));
    EmptyStep(s, p, cs, 6, EmptyAgain(i), EmptyRmdir);
    SoloOne(s, p, cs[..7], cs[7]);
    assert cs[..7] + [cs[7]] == cs;
    assert Go(s.(dir := None), p, Mkdir) == s.(dir := None);
  }

  lemma EmptyStep(s: State, p: nat, cs: seq<Choice>, k: nat, pc: Pc, next: Pc)
    requires p < |s.procs| && k < |cs|
    requires Solo(s, p, cs[..k]) == Go(s, p, pc)
    requires Advance(Go(s, p, pc), p, cs[k]) == Go(s, p, next)
    ensures Solo(s, p, cs[..k + 1]) == Go(s, p, next)
  {
    hide Advance;
    SoloOne(s, p, cs[..k], cs[k]);
    assert cs[..k] + [cs[k]] == cs[..k + 1];
  }

  /** A directory without a marker that is old enough holds a lone contender up for eight steps only. */
  lemma OldEmptyDirectoryIsRecovered(s: State, p: nat, choices: seq<Choice>) returns (n: nat)
    requires Alive(s, p) && s.procs[p].pc.Mkdir? && IsEmpty(s) && Old(s)
    requires |choices| == 13
    ensures n <= |choices| && Holds(Solo(s, p, choices[..n]), p)
  {
    var (front, back) := (choices[..8], choices[8..]);
    EmptyDirectoryGoes(s, p, front);
    var m := DeadOwnersAreRecovered(s.(dir := None), p, back);
    n := 8 + m;
    SoloPlus(s, p, front, back[..m]);
    assert choices[..n] == front + back[..m];
  }
}
