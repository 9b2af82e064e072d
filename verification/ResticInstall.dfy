/**
 The on-demand installer of the pinned restic binary, run by any number of
 processes on one runtime root, each of which may crash at any point.

 One step is one access to the shared directory or one piece of private work; the
 temporary directory of a process is private, so its files appear in its own state.
*/
module ResticInstall {
  import opened Sequences
  import opened HexDigests

  const MAX_BINARY_SIZE := 128 * 1024 * 1024

  /** The digest function, decompression as a function of the archive, and the pin. */
  datatype Setting = Setting(hash: string -> string, unpack: string -> Option<string>, sha256: string, size: nat)

  /** The managed executable and the digest marker beside it. */
  datatype Cache = Cache(executable: Option<string>, marker: Option<string>)

  datatype Error =
    | MissingDigest | ChecksumMismatch | UnsafeType
    | SizeMismatch | ArchiveMismatch | BadArchive | BadBinarySize | WrongVersion

  /** Where an installer stands. */
  datatype Installer =
    | Start
    | LookForMarker | ReadMarker | CompareDigest(text: string) | ProbeCached
    | LookAgain
    | Download | HashArchive(archive: string) | Extract(archive: string)
    | ProbeExtracted(binary: string) | WriteMarker(binary: string)
    | ReplaceMarker(binary: string, text: string) | ReplaceExecutable(binary: string)
    | Done(cached: bool) | Failed(error: Error) | Crashed

  /** What the outside decides in a step: the downloaded bytes, what the binary answers, or a crash. */
  datatype Input = Input(bytes: string, versionMatches: bool, crash: bool)

  predicate IsSpace(c: char) {
    c == ' ' || '\t' <= c <= '\r' || '\U{1C}' <= c <= '\U{1F}'
  }

  function Strip(s: string): string {
    if s == "" then ""
    else if IsSpace(s[0]) then Strip(s[1..])
    else if IsSpace(s[|s| - 1]) then Strip(s[..|s| - 1])
    else s
  }

  predicate DigestMatches(s: Setting, text: string, binary: string) {
    HexDigest(Strip(text)) && s.hash(binary) == Strip(text)
  }

  function Advance(s: Setting, cache: Cache, installer: Installer, input: Input): (Cache, Installer) {
    if input.crash then (cache, if installer.Done? || installer.Failed? then installer else Crashed)
    else
      match installer
      case Start => (cache, if cache.executable.Some? then LookForMarker else LookAgain)
      case LookForMarker => (cache, if cache.marker.Some? then ReadMarker else Failed(MissingDigest))
      case ReadMarker => (cache, if cache.marker.Some? then CompareDigest(cache.marker.value)
          else Failed(MissingDigest))
      case CompareDigest(text) =>
        (cache, if cache.executable.Some? && DigestMatches(s, text, cache.executable.value) then ProbeCached
                else Failed(ChecksumMismatch))
      case ProbeCached => (cache, if input.versionMatches then Done(true) else Failed(WrongVersion))
      case LookAgain => (cache, if cache.executable.Some? then Failed(UnsafeType) else Download)
      case Download => (cache, if |input.bytes| == s.size then HashArchive(input.bytes) else Failed(SizeMismatch))
      case HashArchive(archive) => (cache, if s.hash(archive) == s.sha256 then Extract(archive)
          else Failed(ArchiveMismatch))
      case Extract(archive) =>
        (cache, match s.unpack(archive)
                case None => Failed(BadArchive)
                case Some(binary) => if 0 < |binary| <= MAX_BINARY_SIZE then ProbeExtracted(binary)
                    else Failed(BadBinarySize))
      case ProbeExtracted(binary) => (cache, if input.versionMatches then WriteMarker(binary) else Failed(WrongVersion))
      case WriteMarker(binary) => (cache, ReplaceMarker(binary, s.hash(binary) + "\n"))
      case ReplaceMarker(binary, text) => (cache.(marker := Some(text)), ReplaceExecutable(binary))
      case ReplaceExecutable(binary) => (cache.(executable := Some(binary)), Done(false))
      case _ => (cache, installer)
  }

  // ----- Many installers -----

  datatype World = World(cache: Cache, installers: seq<Installer>)

  datatype Action = Action(who: nat, input: Input)

  function Step(s: Setting, w: World, a: Action): World {
    if a.who >= |w.installers| then w
    else
      var (cache, installer) := Advance(s, w.cache, w.installers[a.who], a.input);
      World(cache, w.installers[a.who := installer])
  }

  function Run(s: Setting, w: World, actions: seq<Action>): World {
    if actions == [] then w else Step(s, Run(s, w, actions[..|actions| - 1]), actions[|actions| - 1])
  }

  // ----- What the pin gives -----

  /** Digests are digests, and no second archive of the pinned size has the pinned digest. */
  ghost predicate CollisionFree(s: Setting) {
    && (forall x :: HexDigest(s.hash(x)))
    && (forall x, y :: |x| == |y| == s.size && s.hash(x) == s.hash(y) == s.sha256 ==> x == y)
  }

  predicate OfficialArchive(s: Setting, archive: string) {
    |archive| == s.size && s.hash(archive) == s.sha256
  }

  /** The binary that the pinned archive unpacks to. */
  ghost predicate Official(s: Setting, binary: string) {
    exists archive :: OfficialArchive(s, archive) && s.unpack(archive) == Some(binary)
  }

  lemma OfficialIsUnique(s: Setting, a: string, b: string)
    requires CollisionFree(s) && Official(s, a) && Official(s, b)
    ensures a == b
  {
    var x :| OfficialArchive(s, x) && s.unpack(x) == Some(a);
    var y :| OfficialArchive(s, y) && s.unpack(y) == Some(b);
    assert x == y;
  }

  lemma StripHex(digest: string)
    requires HexDigest(digest)
    ensures Strip(digest + "\n") == digest
  {
    assert (digest + "\n")[..64] == digest;
    assert (digest + "\n")[0] == digest[0];
    assert Strip(digest + "\n") == Strip(digest);
  }

  // ----- The invariant -----

  /** An executable always has a marker that holds its digest. */
  predicate Paired(s: Setting, cache: Cache) {
    cache.executable.Some? ==> cache.marker.Some? && DigestMatches(s, cache.marker.value, cache.executable.value)
  }

  /** The cache once the official binary is installed by this code, or before any. */
  ghost predicate Pinned(s: Setting, cache: Cache) {
    cache.executable.Some? ==>
      Official(s, cache.executable.value) && cache.marker == Some(s.hash(cache.executable.value) + "\n")
  }

  /** What an installer in progress knows when the cache may be written. */
  ghost predicate Progress(s: Setting, cache: Cache, i: Installer) {
    match i
    case LookForMarker => cache.executable.Some?
    case ReadMarker => cache.executable.Some?
    case CompareDigest(text) => cache.executable.Some? && cache.marker == Some(text)
    case HashArchive(archive) => |archive| == s.size
    case Extract(archive) => OfficialArchive(s, archive)
    case ProbeExtracted(binary) => Official(s, binary)
    case WriteMarker(binary) => Official(s, binary)
    case ReplaceMarker(binary, text) => Official(s, binary) && text == s.hash(binary) + "\n"
    case ReplaceExecutable(binary) => Official(s, binary) && cache.marker == Some(s.hash(binary) + "\n")
    case Failed(error) => error != MissingDigest && error != ChecksumMismatch
    case _ => true
  }

  /** An installer that only ever found the executable there. */
  predicate OnlyCached(cache: Cache, i: Installer) {
    match i
    case Start => true
    case LookForMarker => true
    case ReadMarker => true
    case CompareDigest(text) => cache.marker == Some(text)
    case ProbeCached => true
    case Done(cached) => cached
    case Failed(error) => error == WrongVersion
    case Crashed => true
    case _ => false
  }

  /**
   Either the executable was there from the start and nobody writes, or everything in the cache
   comes from the pin.
  */
  ghost predicate Invariant(s: Setting, w: World) {
    || (w.cache.executable.Some? && Paired(s, w.cache)
        && forall p :: 0 <= p < |w.installers| ==> OnlyCached(w.cache, w.installers[p]))
    || (Pinned(s, w.cache) && forall p :: 0 <= p < |w.installers| ==> Progress(s, w.cache, w.installers[p]))
  }

  lemma {:induction false} PinnedIsPaired(s: Setting, cache: Cache)
    requires CollisionFree(s) && Pinned(s, cache)
    ensures Paired(s, cache)
  {
    if cache.executable.Some? {
      StripHex(s.hash(cache.executable.value));
    }
  }

  lemma CachedStep(s: Setting, cache: Cache, i: Installer, input: Input)
    requires cache.executable.Some? && Paired(s, cache) && OnlyCached(cache, i)
    ensures Advance(s, cache, i, input).0 == cache && OnlyCached(cache, Advance(s, cache, i, input).1)
  {}

  lemma {:induction false} PinnedStep(s: Setting, cache: Cache, i: Installer, input: Input)
    requires CollisionFree(s) && Pinned(s, cache) && Progress(s, cache, i)
    ensures var (next, j) := Advance(s, cache, i, input);
            Pinned(s, next) && Progress(s, next, j)
  {
    PinnedIsPaired(s, cache);
    if cache.executable.Some? {
      if i.ReplaceMarker? || i.ReplaceExecutable? {
        OfficialIsUnique(s, i.binary, cache.executable.value);
      }
    }
  }

  /** A step of one installer leaves what the others know true. */
  lemma OthersKeep(s: Setting, cache: Cache, i: Installer, other: Installer, input: Input)
    requires CollisionFree(s) && Pinned(s, cache) && Progress(s, cache, i) && Progress(s, cache, other)
    ensures Progress(s, Advance(s, cache, i, input).0, other)
  {
    if i.ReplaceMarker? {
      if other.ReplaceExecutable? {
        OfficialIsUnique(s, i.binary, other.binary);
      }
      if cache.executable.Some? {
        OfficialIsUnique(s, i.binary, cache.executable.value);
      }
    }
  }

  lemma StepKeepsInvariant(s: Setting, w: World, a: Action)
    requires CollisionFree(s) && Invariant(s, w)
    ensures Invariant(s, Step(s, w, a))
  {
    hide OnlyCached, Progress, Pinned, Paired, Advance, CollisionFree;
    if a.who < |w.installers| {
      var i := w.installers[a.who];
      if w.cache.executable.Some? && Paired(s, w.cache)
         && forall p :: 0 <= p < |w.installers| ==> OnlyCached(w.cache, w.installers[p]) {
        CachedStep(s, w.cache, i, a.input);
      } else {
        PinnedStep(s, w.cache, i, a.input);
        forall p | 0 <= p < |w.installers| && p != a.who
          ensures Progress(s, Advance(s, w.cache, i, a.input).0, w.installers[p])
        {
          OthersKeep(s, w.cache, i, w.installers[p], a.input);
        }
      }
    }
  }

  /** Installers that have just started on a cache that is empty, half-written by an earlier crash, or complete. */
  ghost predicate Initial(s: Setting, w: World) {
    Paired(s, w.cache) && forall p :: 0 <= p < |w.installers| ==> w.installers[p] == Start
  }

  lemma {:induction false} InvariantHolds(s: Setting, w: World, actions: seq<Action>)
    requires CollisionFree(s) && Initial(s, w)
    ensures Invariant(s, Run(s, w, actions))
  {
    if actions != [] {
      var before := actions[..|actions| - 1];
      InvariantHolds(s, w, before);
      StepKeepsInvariant(s, Run(s, w, before), actions[|actions| - 1]);
    }
  }

  // ----- Main results -----

  /** In every reachable state, after any crashes, an executable has a marker with its own digest. */
  lemma ExecutableAlwaysHasItsDigest(s: Setting, w: World, actions: seq<Action>)
    requires CollisionFree(s) && Initial(s, w)
    ensures Paired(s, Run(s, w, actions).cache)
  {
    InvariantHolds(s, w, actions);
    var end := Run(s, w, actions);
    if Pinned(s, end.cache) {
      PinnedIsPaired(s, end.cache);
    }
  }

  /** No installer ever fails the digest check of a cached executable. */
  lemma CachedCheckNeverFails(s: Setting, w: World, actions: seq<Action>, p: nat)
    requires CollisionFree(s) && Initial(s, w) && p < |w.installers|
    ensures |Run(s, w, actions).installers| == |w.installers|
    ensures Run(s, w, actions).installers[p] != Failed(MissingDigest)
    ensures Run(s, w, actions).installers[p] != Failed(ChecksumMismatch)
  {
    SameInstallers(s, w, actions);
    InvariantHolds(s, w, actions);
  }

  lemma {:induction false} SameInstallers(s: Setting, w: World, actions: seq<Action>)
    ensures |Run(s, w, actions).installers| == |w.installers|
  {
    if actions != [] {
      SameInstallers(s, w, actions[..|actions| - 1]);
    }
  }

  /** What an installer installs is the binary of the pinned archive. */
  lemma InstalledIsOfficial(s: Setting, w: World, actions: seq<Action>)
    requires CollisionFree(s) && Initial(s, w) && w.cache.executable.None?
    requires Run(s, w, actions).cache.executable.Some?
    ensures Official(s, Run(s, w, actions).cache.executable.value)
  {
    PinnedHolds(s, w, actions);
  }

  lemma {:induction false} PinnedHolds(s: Setting, w: World, actions: seq<Action>)
    requires CollisionFree(s) && Initial(s, w) && w.cache.executable.None?
    ensures var end := Run(s, w, actions);
            Pinned(s, end.cache) && forall p :: 0 <= p < |end.installers| ==> Progress(s, end.cache, end.installers[p])
  {
    if actions != [] {
      var before := actions[..|actions| - 1];
      PinnedHolds(s, w, before);
      PinnedWorldStep(s, Run(s, w, before), actions[|actions| - 1]);
    }
  }

  lemma PinnedWorldStep(s: Setting, w: World, a: Action)
    requires CollisionFree(s) && Pinned(s, w.cache)
    requires forall p :: 0 <= p < |w.installers| ==> Progress(s, w.cache, w.installers[p])
    ensures var end := Step(s, w, a);
            Pinned(s, end.cache) && forall p :: 0 <= p < |end.installers| ==> Progress(s, end.cache, end.installers[p])
  {
    hide Progress, Pinned, Advance, CollisionFree;
    if a.who < |w.installers| {
      var i := w.installers[a.who];
      PinnedStep(s, w.cache, i, a.input);
      forall p | 0 <= p < |w.installers| && p != a.who
        ensures Progress(s, Advance(s, w.cache, i, a.input).0, w.installers[p])
      {
        OthersKeep(s, w.cache, i, w.installers[p], a.input);
      }
    }
  }

  // ----- A later install -----

  function Alone(s: Setting, cache: Cache, i: Installer, input: Input, steps: nat): (Cache, Installer)
    decreases steps
  {
    if steps == 0 then (cache, i)
    else
      var (next, j) := Advance(s, cache, i, input);
      Alone(s, next, j, input, steps - 1)
  }

  /** After any run, a fresh install alone uses the cached binary, or installs the official one. */
  lemma {:induction false} LaterInstallSucceeds(s: Setting, w: World, actions: seq<Action>, archive: string,
                                                  binary: string)
    requires CollisionFree(s) && Initial(s, w)
    requires OfficialArchive(s, archive) && s.unpack(archive) == Some(binary) && 0 < |binary| <= MAX_BINARY_SIZE
    ensures var cache := Run(s, w, actions).cache;
            var (end, i) := Alone(s, cache, Start, Input(archive, true, false), 9);
            && i == Done(cache.executable.Some?)
            && end.executable == (if cache.executable.Some? then cache.executable else Some(binary))
            && Paired(s, end)
  {
    hide Alone, Run, CollisionFree, Initial, DigestMatches, OfficialArchive;
    ExecutableAlwaysHasItsDigest(s, w, actions);
    var cache := Run(s, w, actions).cache;
    if cache.executable.Some? {
      AloneUsesTheCache(s, cache, Input(archive, true, false));
    } else {
      AloneInstalls(s, cache, Input(archive, true, false), binary);
    }
  }

  lemma AloneNext(s: Setting, cache: Cache, i: Installer, input: Input, next: Cache, j: Installer,
                  end: (Cache, Installer), steps: nat)
    requires Advance(s, cache, i, input) == (next, j) && Alone(s, next, j, input, steps) == end
    ensures Alone(s, cache, i, input, steps + 1) == end
  {
    hide Advance;
  }

  lemma AloneUsesTheCache(s: Setting, cache: Cache, input: Input)
    requires cache.executable.Some? && Paired(s, cache) && input.versionMatches && !input.crash
    ensures Alone(s, cache, Start, input, 9) == (cache, Done(true))
  {
    var (text, end) := (cache.marker.value, (cache, Done(true)));
    Repeat(s, cache, Done(true), input, 4);
    hide Alone, DigestMatches;
    AloneNext(s, cache, ProbeCached, input, cache, Done(true), end, 4);
    AloneNext(s, cache, CompareDigest(text), input, cache, ProbeCached, end, 5);
    AloneNext(s, cache, ReadMarker, input, cache, CompareDigest(text), end, 6);
    AloneNext(s, cache, LookForMarker, input, cache, ReadMarker, end, 7);
    AloneNext(s, cache, Start, input, cache, LookForMarker, end, 8);
  }

  lemma AloneInstalls(s: Setting, cache: Cache, input: Input, binary: string)
    requires CollisionFree(s) && cache.executable.None? && input.versionMatches && !input.crash
    requires OfficialArchive(s, input.bytes) && s.unpack(input.bytes) == Some(binary) && 0 < |binary| <= MAX_BINARY_SIZE
    ensures var text := s.hash(binary) + "\n";
            var end := Cache(Some(binary), Some(text));
            Alone(s, cache, Start, input, 9) == (end, Done(false)) && Paired(s, end)
  {
    var text := s.hash(binary) + "\n";
    var marked := cache.(marker := Some(text));
    var last := Cache(Some(binary), Some(text));
    var end := (last, Done(false));
    StripHex(s.hash(binary));
    Repeat(s, last, Done(false), input, 0);
    hide Alone, CollisionFree;
    AloneNext(s, marked, ReplaceExecutable(binary), input, last, Done(false), end, 0);
    AloneNext(s, cache, ReplaceMarker(binary, text), input, marked, ReplaceExecutable(binary), end, 1);
    AloneNext(s, cache, WriteMarker(binary), input, cache, ReplaceMarker(binary, text), end, 2);
    AloneNext(s, cache, ProbeExtracted(binary), input, cache, WriteMarker(binary), end, 3);
    AloneNext(s, cache, Extract(input.bytes), input, cache, ProbeExtracted(binary), end, 4);
    AloneNext(s, cache, HashArchive(input.bytes), input, cache, Extract(input.bytes), end, 5);
    AloneNext(s, cache, Download, input, cache, HashArchive(input.bytes), end, 6);
    AloneNext(s, cache, LookAgain, input, cache, Download, end, 7);
    AloneNext(s, cache, Start, input, cache, LookAgain, end, 8);
  }

  lemma {:induction false} Repeat(s: Setting, cache: Cache, i: Installer, input: Input, steps: nat)
    requires i.Done?
    ensures Alone(s, cache, i, input, steps) == (cache, i)
  {
    if steps != 0 {
      Repeat(s, cache, i, input, steps - 1);
    }
  }

  // ----- When an install with good inputs can fail -----

  /** The pinned archive is really there and unpacks to a binary of an allowed size. */
  predicate GoodArchive(s: Setting, archive: string) {
    && OfficialArchive(s, archive)
    && s.unpack(archive).Some? && 0 < |s.unpack(archive).value| <= MAX_BINARY_SIZE
  }

  /** A download gives the pinned archive, and the binary answers with its version; crashes are allowed. */
  predicate GoodInput(s: Setting, input: Input) {
    input.crash || (input.versionMatches && GoodArchive(s, input.bytes))
  }

  predicate GoodInputs(s: Setting, actions: seq<Action>) {
    forall k :: 0 <= k < |actions| ==> GoodInput(s, actions[k].input)
  }

  /** With good inputs an installer knows more, and can have failed in one way only. */
  ghost predicate GoodProgress(s: Setting, cache: Cache, i: Installer) {
    && Progress(s, cache, i)
    && (i.HashArchive? ==> OfficialArchive(s, i.archive))
    && (i.Failed? ==> i.error == UnsafeType)
  }

  ghost predicate GoodWorld(s: Setting, w: World) {
    || (w.cache.executable.Some? && Paired(s, w.cache)
        && forall p :: 0 <= p < |w.installers| ==> OnlyCached(w.cache, w.installers[p]) && !w.installers[p].Failed?)
    || (Pinned(s, w.cache) && forall p :: 0 <= p < |w.installers| ==> GoodProgress(s, w.cache, w.installers[p]))
  }

  /** In such a step an installer fails exactly when it looks a second time and finds the executable. */
  lemma GoodStep(s: Setting, cache: Cache, i: Installer, input: Input, archive: string)
    requires CollisionFree(s) && GoodArchive(s, archive) && GoodInput(s, input)
    requires Pinned(s, cache) && GoodProgress(s, cache, i) && !i.Failed?
    ensures var (next, j) := Advance(s, cache, i, input);
            && GoodProgress(s, next, j)
            && (j.Failed? <==> i.LookAgain? && cache.executable.Some? && !input.crash)
  {
    PinnedIsPaired(s, cache);
    PinnedStep(s, cache, i, input);
    if i.Extract? {
      assert i.archive == archive;
    }
  }

  lemma FailedStays(s: Setting, cache: Cache, i: Installer, input: Input)
    requires i.Failed?
    ensures Advance(s, cache, i, input) == (cache, i)
  {}

  lemma GoodCachedStep(s: Setting, cache: Cache, i: Installer, input: Input)
    requires GoodInput(s, input)
    requires cache.executable.Some? && Paired(s, cache) && OnlyCached(cache, i) && !i.Failed?
    ensures Advance(s, cache, i, input).0 == cache
    ensures OnlyCached(cache, Advance(s, cache, i, input).1) && !Advance(s, cache, i, input).1.Failed?
  {}

  lemma {:induction false} GoodWorldStep(s: Setting, w: World, a: Action, archive: string)
    requires CollisionFree(s) && GoodArchive(s, archive) && GoodInput(s, a.input) && GoodWorld(s, w)
    ensures GoodWorld(s, Step(s, w, a))
    ensures forall p :: 0 <= p < |w.installers| && !w.installers[p].Failed? ==>
      (Step(s, w, a).installers[p].Failed?
       <==> a.who == p && w.installers[p].LookAgain? && w.cache.executable.Some? && !a.input.crash)
  {
    hide OnlyCached, Progress, Pinned, Paired, Advance, CollisionFree, GoodArchive, GoodInput;
    if a.who < |w.installers| {
      var i := w.installers[a.who];
      if w.cache.executable.Some? && Paired(s, w.cache)
         && forall p :: 0 <= p < |w.installers| ==> OnlyCached(w.cache, w.installers[p]) && !w.installers[p].Failed? {
        GoodCachedStep(s, w.cache, i, a.input);
        OnlyCachedNeverLooksAgain(w.cache, i);
      } else if i.Failed? {
        FailedStays(s, w.cache, i, a.input);
      } else {
        GoodStep(s, w.cache, i, a.input, archive);
        PinnedStep(s, w.cache, i, a.input);
        forall p | 0 <= p < |w.installers| && p != a.who
          ensures Progress(s, Advance(s, w.cache, i, a.input).0, w.installers[p])
        {
          OthersKeep(s, w.cache, i, w.installers[p], a.input);
        }
      }
    }
  }

  lemma OnlyCachedNeverLooksAgain(cache: Cache, i: Installer)
    requires OnlyCached(cache, i)
    ensures !i.LookAgain?
  {}

  lemma InitialIsGood(s: Setting, w: World)
    requires Initial(s, w)
    ensures GoodWorld(s, w)
  {}

  lemma {:induction false} GoodRun(s: Setting, w: World, actions: seq<Action>, archive: string)
    requires CollisionFree(s) && Initial(s, w) && GoodArchive(s, archive) && GoodInputs(s, actions)
    ensures GoodWorld(s, Run(s, w, actions))
    ensures |Run(s, w, actions).installers| == |w.installers|
  {
    SameInstallers(s, w, actions);
    if actions == [] {
      InitialIsGood(s, w);
    } else {
      GoodRun(s, w, actions[..|actions| - 1], archive);
      GoodWorldStep(s, Run(s, w, actions[..|actions| - 1]), actions[|actions| - 1], archive);
    }
  }

  /**
   In any run with good inputs, an installer fails at exactly one kind of step: it
   found no executable, looks a second time, and finds the one another installer placed.
  */
  lemma {:induction false} FailsExactlyAtTheSecondLook(s: Setting, w: World, actions: seq<Action>, a: Action, p: nat,
                                                         archive: string)
    requires CollisionFree(s) && Initial(s, w) && GoodArchive(s, archive)
    requires GoodInputs(s, actions) && GoodInput(s, a.input) && p < |w.installers|
    ensures |Run(s, w, actions).installers| == |w.installers|
    ensures var now := Run(s, w, actions);
            !now.installers[p].Failed? ==>
              (Step(s, now, a).installers[p].Failed?
               <==> a.who == p && now.installers[p].LookAgain? && now.cache.executable.Some? && !a.input.crash)
  {
    GoodRun(s, w, actions, archive);
    GoodWorldStep(s, Run(s, w, actions), a, archive);
  }

  /** A lone installer never finds at the second look what was not there at the first. */
  lemma {:induction false} LoneNeverFails(s: Setting, w: World, actions: seq<Action>, archive: string)
    requires CollisionFree(s) && Initial(s, w) && GoodArchive(s, archive) && GoodInputs(s, actions)
        && |w.installers| == 1
    ensures var end := Run(s, w, actions);
            |end.installers| == 1 && !end.installers[0].Failed?
                && (end.installers[0].LookAgain? ==> end.cache.executable.None?)
  {
    SameInstallers(s, w, actions);
    if actions != [] {
      var (init, a) := (actions[..|actions| - 1], actions[|actions| - 1]);
      LoneNeverFails(s, w, init, archive);
      GoodRun(s, w, init, archive);
      GoodWorldStep(s, Run(s, w, init), a, archive);
      LooksAgainAtNothing(s, Run(s, w, init), a);
    }
  }

  lemma LooksAgainAtNothing(s: Setting, w: World, a: Action)
    requires |w.installers| == 1 && (w.installers[0].LookAgain? ==> w.cache.executable.None?)
    ensures Step(s, w, a).installers[0].LookAgain? ==> Step(s, w, a).cache.executable.None?
  {}

  lemma {:induction false} CachedNeverFails(s: Setting, w: World, actions: seq<Action>)
    requires Initial(s, w) && w.cache.executable.Some? && GoodInputs(s, actions)
    ensures var end := Run(s, w, actions);
            && end.cache == w.cache && |end.installers| == |w.installers|
            && forall p :: 0 <= p < |end.installers| ==>
                 OnlyCached(end.cache, end.installers[p]) && !end.installers[p].Failed?
  {
    if actions != [] {
      var (before, a) := (Run(s, w, actions[..|actions| - 1]), actions[|actions| - 1]);
      CachedNeverFails(s, w, actions[..|actions| - 1]);
      hide OnlyCached, Paired, Advance, GoodInput;
      if a.who < |before.installers| {
        GoodCachedStep(s, before.cache, before.installers[a.who], a.input);
      }
    }
  }

  /** No installer of the world fails in any run with good inputs. */
  ghost predicate NeverFails(s: Setting, w: World) {
    forall actions, p :: GoodInputs(s, actions) && 0 <= p < |Run(s, w, actions).installers| ==>
      !Run(s, w, actions).installers[p].Failed?
  }

  /**
   With good inputs no install fails if and only if there is one installer at most, or the
   executable is there already.
  */
  lemma NeverFailsExactly(s: Setting, w: World, archive: string)
    requires CollisionFree(s) && Initial(s, w) && GoodArchive(s, archive)
    ensures NeverFails(s, w) <==> |w.installers| <= 1 || w.cache.executable.Some?
  {
    if |w.installers| <= 1 || w.cache.executable.Some? {
      forall actions, p | GoodInputs(s, actions) && 0 <= p < |Run(s, w, actions).installers|
        ensures !Run(s, w, actions).installers[p].Failed?
      {
        SameInstallers(s, w, actions);
        if w.cache.executable.Some? {
          CachedNeverFails(s, w, actions);
        } else {
          LoneNeverFails(s, w, actions, archive);
        }
      }
    } else {
      var actions := FirstFails(s, w, archive);
      assert Run(s, w, actions).installers[0].Failed?;
    }
  }

  /**
   Two of the installers collide: the first finds nothing, the second finishes, and the first
   calls the new file unsafe.
  */
  lemma FirstFails(s: Setting, w: World, archive: string) returns (actions: seq<Action>)
    requires Initial(s, w) && GoodArchive(s, archive) && |w.installers| >= 2 && w.cache.executable.None?
    ensures GoodInputs(s, actions)
    ensures |Run(s, w, actions).installers| == |w.installers|
    ensures Run(s, w, actions).installers[0] == Failed(UnsafeType) && Run(s, w, actions).installers[1] == Done(false)
  {
    var input := Input(archive, true, false);
    RunStep(s, w, [], Action(0, input));
    var ready := w.installers[0 := LookAgain];
    assert ready[1 := Start] == ready;
    actions := SecondFinishes(s, w, ready, [Action(0, input)], archive);
    RunStep(s, w, actions, Action(0, input));
    actions := actions + [Action(0, input)];
  }

  /** The second installer goes from start to end while the first waits. */
  lemma SecondFinishes(s: Setting, w: World, ready: seq<Installer>, before: seq<Action>, archive: string)
    returns (actions: seq<Action>)
    requires |ready| >= 2 && ready[0] == LookAgain && w.cache.executable.None?
    requires Run(s, w, before) == World(w.cache, ready[1 := Start])
    requires GoodArchive(s, archive) && GoodInputs(s, before)
    ensures GoodInputs(s, actions) && Run(s, w, actions).cache.executable.Some?
    ensures Run(s, w, actions).installers == ready[1 := Done(false)]
  {
    hide Run, GoodInputs;
    var binary := s.unpack(archive).value;
    var text := s.hash(binary) + "\n";
    var cache := w.cache;
    var marked := cache.(marker := Some(text));
    actions := SecondSteps(s, w, ready, before, archive, cache, Start, cache, LookAgain);
    actions := SecondSteps(s, w, ready, actions, archive, cache, LookAgain, cache, Download);
    actions := SecondSteps(s, w, ready, actions, archive, cache, Download, cache, HashArchive(archive));
    actions := SecondSteps(s, w, ready, actions, archive, cache, HashArchive(archive), cache, Extract(archive));
    actions := SecondSteps(s, w, ready, actions, archive, cache, Extract(archive), cache, ProbeExtracted(binary));
    actions := SecondSteps(s, w, ready, actions, archive, cache, ProbeExtracted(binary), cache, WriteMarker(binary));
    actions := SecondSteps(s, w, ready, actions, archive, cache, WriteMarker(binary), cache,
        ReplaceMarker(binary, text));
    actions := SecondSteps(s, w, ready, actions, archive, cache, ReplaceMarker(binary, text), marked,
        ReplaceExecutable(binary));
    actions := SecondSteps(s, w, ready, actions, archive, marked, ReplaceExecutable(binary),
                           marked.(executable := Some(binary)), Done(false));
  }

  lemma SecondSteps(s: Setting, w: World, ready: seq<Installer>, before: seq<Action>, archive: string,
                    cache: Cache, i: Installer, next: Cache, j: Installer)
    returns (actions: seq<Action>)
    requires |ready| >= 2 && Run(s, w, before) == World(cache, ready[1 := i])
    requires GoodArchive(s, archive) && GoodInputs(s, before)
    requires Advance(s, cache, i, Input(archive, true, false)) == (next, j)
    ensures GoodInputs(s, actions) && Run(s, w, actions) == World(next, ready[1 := j])
  {
    var a := Action(1, Input(archive, true, false));
    hide Advance, GoodArchive;
    actions := before + [a];
    RunStep(s, w, before, a);
    assert ready[1 := i][1 := j] == ready[1 := j];
  }

  lemma RunStep(s: Setting, w: World, actions: seq<Action>, a: Action)
    ensures Run(s, w, actions + [a]) == Step(s, Run(s, w, actions), a)
  {
    assert (actions + [a])[..|actions|] == actions;
  }
}
