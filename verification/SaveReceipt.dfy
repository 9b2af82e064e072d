/**
 When may the extension answer "already saved" from the receipt of an earlier Save?

 The module variables of the extension are the fields of `SaveTracker`; each
 handler, up to its next `await`, is one method, and each method is proved against
 a function on `Room`. A run is any sequence of handlers, with any number of Saves
 and tracking restarts in flight at once.
*/
module SaveReceipt {
  import opened Sequences

  datatype Kind = Unknown | Clean | Dirty | SavedButStillDirty

  /** A canonical directory and the digest of its path. */
  datatype Place = Place(path: string, sha256: string)

  datatype Baseline = Baseline(root: string, policy: string)

  /** The committed Room marker of a workspace. */
  datatype Marker = Marker(formatVersion: nat, path: string, policy: string, signature: string, algorithm: string,
                           project: string, dimension: string, domain: string, snapshot: string)

  datatype Receipt = Receipt(path: string, project: string, dimension: string, domain: string, snapshot: string,
                             signature: string, algorithm: string, policy: string, eventGeneration: nat,
                             allImages: bool)

  datatype Room = Room(kind: Kind, generation: nat, cleanGeneration: int, trusted: bool, receipt: Option<Receipt>,
                       baseline: Option<Baseline>, policy: Option<string>, buffers: set<string>, tracking: nat)

  const INITIAL := Room(Unknown, 0, -1, false, None, None, None, {}, 0)
  const SIGNATURE_ALGORITHM := "josh-room-stat-v1"

  // ----- Room state -----

  function WithState(r: Room, kind: Kind, trusted: Option<bool>): Room {
    var bound := r.(receipt := if kind != Clean then None else r.receipt,
                    trusted := if trusted.Some? then trusted.value else r.trusted);
    if r.kind == kind then bound
    else bound.(kind := kind, cleanGeneration := if kind == Clean then r.generation else -1)
  }

  function WithDirty(r: Room, dirty: bool): Room {
    WithState(r, if dirty then Dirty else if r.trusted then Clean else Unknown, None)
  }

  // ----- Workspace and editor events -----

  /**
   What a changed path is: the ignore file, with the policy that then loads if it is valid, a
   captured path, or nothing that counts.
  */
  datatype Change = PolicyFile(loaded: Option<string>) | Captured(relative: string) | Ignored

  function Changed(r: Room, change: Change): Room {
    match change
    case PolicyFile(None) =>
      WithState(r.(generation := r.generation + 1, policy := None, baseline := None), Unknown, Some(false))
    case PolicyFile(Some(policy)) =>
      WithState(r.(generation := r.generation + 1, policy := Some(policy),
                   baseline := if r.baseline.Some? then Some(r.baseline.value.(policy := policy)) else None),
                Dirty, Some(true))
    case Captured(_) => WithState(r.(generation := r.generation + 1), Dirty, None)
    case Ignored => r
  }

  function TextChanged(r: Room, relative: Option<string>, unsaved: bool): Room {
    if relative.None? then r
    else
      var counted := r.(generation := r.generation + 1,
                        buffers := if unsaved then r.buffers + {relative.value} else r.buffers - {relative.value});
      if unsaved then WithState(counted, Dirty, None) else counted
  }

  /** A document was saved to disk or closed. */
  function Settled(r: Room, relative: Option<string>, change: Change): Room {
    if relative.None? then r
    else
      var closed := r.(buffers := r.buffers - {relative.value});
      if r.baseline.Some? then Changed(closed, change) else closed
  }

  // ----- Save -----

  datatype SaveStatus = Saved | SavedButDirty | AlreadySaved

  datatype SaveResult = SaveResult(status: SaveStatus, dimension: string, domain: string, project: string,
                                   snapshot: string,
                                   signature: Option<string>, algorithm: string, policy: string, external: bool)

  /**
   What the end of a Save reads: the directories if both resolve, the policy if it loads, the
   marker, the controller's answer.
  */
  datatype SaveSight = SaveSight(places: Option<(Place, string)>, loaded: Option<string>, marker: Option<Marker>,
                                 result: SaveResult, allImages: bool)

  /** A native Save of the open folder reloads the policy and lists the unsaved documents. */
  function SaveStarted(r: Room, active: Option<(string, set<string>)>): Room {
    if active.None? then r else r.(policy := Some(active.value.0), buffers := active.value.1)
  }

  predicate BindingMatches(result: SaveResult, marker: Option<Marker>, place: Place, policy: string) {
    && marker.Some?
    && var m := marker.value;
    && m.formatVersion == 3
    && m.algorithm == SIGNATURE_ALGORITHM
    && result.dimension == m.dimension && result.domain == m.domain && result.project == m.project
    && result.algorithm == m.algorithm
    && result.signature == Some(m.signature)
    && result.policy == m.policy == policy
    && m.path == place.sha256
    && result.snapshot == m.snapshot
  }

  function SavePolicy(r: Room, sight: SaveSight): Option<string> {
    if r.policy.Some? then r.policy else sight.loaded
  }

  function ReceiptFor(m: Marker, place: Place, generation: nat, allImages: bool): Receipt {
    Receipt(place.path, m.project, m.dimension, m.domain, m.snapshot, m.signature, m.algorithm, m.policy, generation,
        allImages)
  }

  /** A Save of the open folder that nothing speaks against. */
  function SaveCompleted(r: Room, place: Place, policy: string, marker: Marker, more: bool, allImages: bool): Room {
    var settled := r.(policy := Some(policy), baseline := Some(Baseline(place.path, policy)), buffers := {});
    WithState(settled, Clean, Some(true)).(
      receipt := if more then None else Some(ReceiptFor(marker, place, r.generation, allImages)))
  }

  function SaveFinished(r: Room, saveGeneration: nat, sight: SaveSight): Room {
    if sight.places.None? then WithState(r, Unknown, Some(false))
    else
      var (place, workspace) := sight.places.value;
      if place.path != workspace then r
      else if SavePolicy(r, sight).None? then WithState(r, Unknown, Some(false))
      else
        var policy := SavePolicy(r, sight).value;
        var matches := BindingMatches(sight.result, sight.marker, place, policy);
        if sight.result.status == SavedButDirty || r.buffers != {} || saveGeneration != r.generation then
          WithState(r, SavedButStillDirty, Some(matches))
        else if !matches then WithState(r, Unknown, Some(false))
        else
          SaveCompleted(r, place, policy, sight.marker.value, sight.allImages || sight.result.external, sight.allImages)
  }

  // ----- Using a receipt -----

  /**
   What a check reads: source, current and baseline directories if all resolve, the policy if
   it loads, the marker.
  */
  datatype CheckSight = CheckSight(places: Option<(Place, string, string)>, loaded: Option<string>,
                                   marker: Option<Marker>)

  predicate ReceiptFits(receipt: Receipt, generation: nat, place: Place, policy: string, marker: Option<Marker>) {
    && receipt.path == place.path && receipt.eventGeneration == generation && receipt.policy == policy
    && marker.Some?
    && var m := marker.value;
    && m.formatVersion == 3 && m.path == place.sha256 && m.policy == policy
    && m.signature == receipt.signature && m.algorithm == receipt.algorithm
    && m.project == receipt.project && m.dimension == receipt.dimension && m.domain == receipt.domain
    && m.snapshot == receipt.snapshot
  }

  predicate MayCheck(r: Room) {
    r.kind == Clean && r.trusted && r.baseline.Some? && r.cleanGeneration == r.generation && r.receipt.Some?
  }

  // What lets a receipt answer, field by field: the Room, the directories, the marker.

  predicate Ready(r: Room) {
    r.kind == Clean && r.trusted && r.baseline.Some? && r.receipt.Some? && r.cleanGeneration == r.generation
  }

  predicate Resolved(sight: CheckSight) {
    sight.places.Some? && sight.loaded.Some?
  }

  predicate OneDirectory(sight: CheckSight)
    requires Resolved(sight)
  {
    sight.places.value.0.path == sight.places.value.1 == sight.places.value.2
  }

  /** The marker names the recovery point of the receipt. */
  predicate SameRecoveryPoint(m: Marker, receipt: Receipt) {
    && m.signature == receipt.signature && m.algorithm == receipt.algorithm && m.project == receipt.project
    && m.dimension == receipt.dimension && m.domain == receipt.domain && m.snapshot == receipt.snapshot
  }

  /** The marker is in the current format, bound to this directory and captured under this policy. */
  predicate BoundHere(m: Marker, place: Place, policy: string) {
    m.formatVersion == 3 && m.path == place.sha256 && m.policy == policy
  }

  /** The receipt was stored for this directory, this policy and the present generation. */
  predicate StoredFor(receipt: Receipt, place: Place, policy: string, generation: nat) {
    receipt.path == place.path && receipt.policy == policy && receipt.eventGeneration == generation
  }

  predicate Answers(r: Room, sight: CheckSight) {
    && Ready(r) && Resolved(sight) && OneDirectory(sight) && sight.marker.Some?
    && StoredFor(r.receipt.value, sight.places.value.0, sight.loaded.value, r.generation)
    && BoundHere(sight.marker.value, sight.places.value.0, sight.loaded.value)
    && SameRecoveryPoint(sight.marker.value, r.receipt.value)
  }

  /** The receipt that may be trusted now, if any. */
  function Trusted(r: Room, sight: CheckSight): Option<Receipt> {
    if !MayCheck(r) || sight.places.None? || sight.loaded.None? then None
    else
      var (source, cwd, baseline) := sight.places.value;
      if source.path == cwd == baseline
         && ReceiptFits(r.receipt.value, r.generation, source, sight.loaded.value, sight.marker)
      then r.receipt else None
  }

  function Checked(r: Room, sight: CheckSight): Room {
    if !MayCheck(r) then r
    else if sight.places.None? || sight.loaded.None? then r.(receipt := None)
    else
      var (source, cwd, baseline) := sight.places.value;
      if source.path != cwd || baseline != source.path then r
      else if !ReceiptFits(r.receipt.value, r.generation, source, sight.loaded.value, sight.marker)
          then r.(receipt := None)
      else if r.policy == sight.loaded then r
      else r.(policy := sight.loaded, baseline := Some(r.baseline.value.(policy := sight.loaded.value)))
  }

  // ----- Tracking restarts and baseline resets -----

  /** A folder that is not a Room. */
  function TrackingWithoutRoom(r: Room): Room {
    WithDirty(r.(tracking := r.tracking + 1, baseline := None, policy := None, buffers := {}), false)
  }

  function TrackingStarted(r: Room, root: string, loaded: Option<string>, unsaved: set<string>): Room {
    var started := r.(tracking := r.tracking + 1, trusted := false, buffers := r.buffers + unsaved,
                    policy := loaded, baseline := if loaded.Some? then Some(Baseline(root, loaded.value)) else None);
    if loaded.Some? then started else WithState(started, Unknown, Some(false))
  }

  function TrackingBound(r: Room, tracking: nat, trusted: bool): Room {
    if tracking != r.tracking then r else r.(trusted := trusted)
  }

  /** The controller's status of the workspace, as far as the last step of a restart looks at it. */
  datatype StatusSight = StatusSight(known: bool, currentFormat: bool, signatureChanged: bool, clean: bool)

  function TrackingEnded(r: Room, tracking: nat, generationAtStart: nat, sight: StatusSight): Room {
    if tracking != r.tracking then r
    else if r.generation != generationAtStart || r.buffers != {} then WithState(r, Dirty, None)
    else if !sight.known || !r.trusted then WithState(r, Unknown, Some(false))
    else if sight.currentFormat then WithState(r, if sight.signatureChanged then Dirty else Unknown, None)
    else WithState(r, if sight.clean then Clean else Dirty, None)
  }

  function BaselineReset(r: Room, trusted: bool): Room {
    if r.baseline.None? then r else WithState(r.(buffers := {}), Unknown, Some(trusted))
  }

  function LegacyResetStarted(r: Room): Room {
    if r.baseline.None? then r else r.(trusted := true)
  }

  function LegacyResetEnded(r: Room): Room {
    WithDirty(r.(buffers := {}), false)
  }

  // ----- The handlers, as the source runs them -----

  class SaveTracker {
    var kind: Kind
    var generation: nat
    var cleanGeneration: int
    var trusted: bool
    var receipt: Option<Receipt>
    var baseline: Option<Baseline>
    var policy: Option<string>
    var buffers: set<string>
    var tracking: nat

    ghost function Now(): Room
      reads this
    {
      Room(kind, generation, cleanGeneration, trusted, receipt, baseline, policy, buffers, tracking)
    }

    constructor ()
      ensures Now() == INITIAL
    {
      kind, generation, cleanGeneration, trusted, receipt := Unknown, 0, -1, false, None;
      baseline, policy, buffers, tracking := None, None, {}, 0;
    }

    method SetRoomState(next: Kind, bindingTrusted: Option<bool>)
      modifies this
      ensures Now() == WithState(old(Now()), next, bindingTrusted)
      ensures old(Honest(Now())) ==> Honest(Now())
      ensures kind == next && receipt == (if next == Clean then old(receipt) else None)
      ensures trusted == if bindingTrusted.Some? then bindingTrusted.value else old(trusted)
      ensures cleanGeneration == if old(kind) == next then old(cleanGeneration)
                                 else if next == Clean then old(generation) else -1
      ensures unchanged(`generation, `baseline, `policy, `buffers, `tracking)
    {
      if next != Clean { receipt := None; }
      if bindingTrusted.Some? { trusted := bindingTrusted.value; }
      if kind == next {
        return;
      }
      kind := next;
      if next == Clean { cleanGeneration := generation; } else { cleanGeneration := -1; }
    }

    method SetRoomDirty(dirty: bool)
      modifies this
      ensures Now() == WithDirty(old(Now()), dirty)
      ensures old(Honest(Now())) ==> Honest(Now())
      ensures kind == if dirty then Dirty else if old(trusted) then Clean else Unknown
      ensures unchanged(`generation, `trusted, `baseline, `policy, `buffers, `tracking)
    {
      if dirty {
        SetRoomState(Dirty, None);
      } else if trusted {
        SetRoomState(Clean, None);
      } else {
        SetRoomState(Unknown, None);
      }
    }

    method HandleCapturePolicyChange(loaded: Option<string>)
      modifies this
      ensures Now() == Changed(old(Now()), PolicyFile(loaded))
      ensures old(Honest(Now())) ==> Honest(Now())
      ensures receipt.None? && kind == (if loaded.Some? then Dirty else Unknown) && trusted == loaded.Some?
      ensures generation == old(generation) + 1 && policy == loaded && unchanged(`buffers, `tracking)
      ensures baseline == if loaded.Some? && old(baseline).Some?
                          then Some(Baseline(old(baseline).value.root, loaded.value)) else None
    {
      generation := generation + 1;
      if loaded.None? {
        policy, baseline := None, None;
        SetRoomState(Unknown, Some(false));
        return;
      }
      policy := loaded;
      if baseline.Some? { baseline := Some(baseline.value.(policy := loaded.value)); }
      SetRoomState(Dirty, Some(true));
    }

    method MarkWorkspaceChange(change: Change)
      modifies this
      ensures Now() == Changed(old(Now()), change)
      ensures old(Honest(Now())) ==> Honest(Now())
      ensures !change.Ignored? ==> generation == old(generation) + 1 && receipt.None? && kind != Clean
      ensures change.Captured? ==> kind == Dirty && unchanged(`trusted, `baseline, `policy, `buffers, `tracking)
      ensures change.Ignored? ==> unchanged(this)
    {
      if change.PolicyFile? {
        HandleCapturePolicyChange(change.loaded);
        return;
      }
      if change.Ignored? {
        return;
      }
      generation := generation + 1;
      SetRoomState(Dirty, None);
    }

    method OnDidChangeTextDocument(relative: Option<string>, unsaved: bool)
      modifies this
      ensures Now() == TextChanged(old(Now()), relative, unsaved)
      ensures old(Honest(Now())) ==> Honest(Now())
      ensures relative.Some? ==>
                && generation == old(generation) + 1
                && buffers == if unsaved then old(buffers) + {relative.value} else old(buffers) - {relative.value}
      ensures relative.Some? && unsaved ==> receipt.None? && kind == Dirty
      ensures relative.Some? && !unsaved ==> unchanged(`kind, `cleanGeneration, `receipt)
      ensures if relative.Some? then unchanged(`trusted, `baseline, `policy, `tracking) else unchanged(this)
    {
      if relative.None? {
        return;
      }
      generation := generation + 1;
      if unsaved {
        buffers := buffers + {relative.value};
        SetRoomState(Dirty, None);
      } else {
        buffers := buffers - {relative.value};
      }
    }

    method OnDidSettleTextDocument(relative: Option<string>, change: Change)
      modifies this
      ensures Now() == Settled(old(Now()), relative, change)
      ensures old(Honest(Now())) ==> Honest(Now())
      ensures relative.None? ==> unchanged(this)
      ensures relative.Some? ==> buffers == old(buffers) - {relative.value}
      ensures relative.Some? && old(baseline).Some? && !change.Ignored? ==>
                generation == old(generation) + 1 && kind != Clean && receipt.None?
      ensures old(baseline).None? ==> unchanged(`kind, `generation, `cleanGeneration, `trusted, `receipt, `policy)
    {
      if relative.None? {
        return;
      }
      buffers := buffers - {relative.value};
      if baseline.Some? { MarkWorkspaceChange(change); }
    }

    /** The generation a Save remembers when it starts. */
    method StartSave(active: Option<(string, set<string>)>) returns (saveGeneration: nat)
      modifies this
      ensures Now() == SaveStarted(old(Now()), active)
      ensures old(Honest(Now())) ==> Honest(Now())
      ensures saveGeneration == old(generation) == generation && unchanged(`kind, `trusted, `receipt, `baseline)
      ensures active.Some? ==> policy == Some(active.value.0) && buffers == active.value.1
      ensures active.None? ==> unchanged(this)
    {
      if active.Some? {
        policy, buffers := Some(active.value.0), active.value.1;
      }
      saveGeneration := generation;
    }

    method FinishRoomStoreSave(saveGeneration: nat, sight: SaveSight)
      modifies this
      ensures Now() == SaveFinished(old(Now()), saveGeneration, sight)
      ensures old(Honest(Now())) ==> Honest(Now())
      ensures receipt.Some? && receipt != old(receipt) ==>
                && saveGeneration == old(generation) == receipt.value.eventGeneration && old(buffers) == {}
                && sight.result.status != SavedButDirty && !sight.allImages && !sight.result.external
                && kind == Clean && trusted && baseline.Some?
                && sight.marker.Some? && receipt.value.snapshot == sight.marker.value.snapshot == sight.result.snapshot
      ensures generation == old(generation)
    {
      hide Honest, ReceiptFor, SaveCompleted, WithState;
      if Honest(Now()) {
        SaveIsHonest(Now(), saveGeneration, sight);
      }
      SaveStoresOnly(Now(), saveGeneration, sight);
      if sight.places.None? {
        SetRoomState(Unknown, Some(false));
        return;
      }
      var (place, workspace) := sight.places.value;
      if place.path != workspace {
        return;
      }
      var loaded := if policy.Some? then policy else sight.loaded;
      if loaded.None? {
        SetRoomState(Unknown, Some(false));
        return;
      }
      var matches := BindingMatches(sight.result, sight.marker, place, loaded.value);
      if sight.result.status == SavedButDirty || buffers != {} || saveGeneration != generation {
        SetRoomState(SavedButStillDirty, Some(matches));
        return;
      }
      if !matches {
        SetRoomState(Unknown, Some(false));
        return;
      }
      var more := sight.allImages || sight.result.external;
      CompleteSave(place, loaded.value, sight.marker.value, more, sight.allImages);
    }

    method CompleteSave(place: Place, loaded: string, marker: Marker, more: bool, allImages: bool)
      modifies this
      ensures Now() == SaveCompleted(old(Now()), place, loaded, marker, more, allImages)
    {
      policy, baseline := Some(loaded), Some(Baseline(place.path, loaded));
      trusted, buffers := true, {};
      SetRoomState(Clean, Some(true));
      receipt := if more then None else Some(ReceiptFor(marker, place, generation, allImages));
    }

    method TrustedLocalSaveReceipt(sight: CheckSight) returns (r: Option<Receipt>)
      modifies this
      ensures Now() == Checked(old(Now()), sight)
      ensures old(Honest(Now())) ==> Honest(Now())
      ensures r == Trusted(old(Now()), sight)
      ensures r == if old(Answers(Now(), sight)) then old(receipt) else None
      ensures old(Ready(Now())) && Resolved(sight) && OneDirectory(sight) && r.None? ==> receipt.None?
      ensures old(Ready(Now())) && !Resolved(sight) ==> receipt.None?
      ensures Resolved(sight) && !OneDirectory(sight) ==> unchanged(this)
      ensures unchanged(`kind, `generation, `cleanGeneration, `trusted, `buffers, `tracking)
      ensures r.Some? ==>
                && r == receipt == old(receipt) && kind == Clean && trusted
                && r.value.eventGeneration == generation == cleanGeneration
                && policy == sight.loaded == Some(r.value.policy)
    {
      if kind != Clean || !trusted || baseline.None? || cleanGeneration != generation || receipt.None? {
        return None;
      }
      if sight.places.None? || sight.loaded.None? {
        receipt := None;
        return None;
      }
      var (source, cwd, baselinePath) := sight.places.value;
      if source.path != cwd || baselinePath != source.path {
        return None;
      }
      if !ReceiptFits(receipt.value, generation, source, sight.loaded.value, sight.marker) {
        receipt := None;
        return None;
      }
      if policy != sight.loaded {
        policy := sight.loaded;
        baseline := Some(baseline.value.(policy := sight.loaded.value));
      }
      return receipt;
    }

    method DropReceipt()
      modifies this
      ensures Now() == old(Now()).(receipt := None)
      ensures old(Honest(Now())) ==> Honest(Now())
    {
      receipt := None;
    }

    method TrackWithoutRoom()
      modifies this
      ensures Now() == TrackingWithoutRoom(old(Now()))
      ensures old(Honest(Now())) ==> Honest(Now())
      ensures baseline == None && policy == None && buffers == {} && tracking == old(tracking) + 1
      ensures kind == (if old(trusted) then Clean else Unknown) && unchanged(`generation, `trusted)
    {
      tracking := tracking + 1;
      baseline, policy, buffers := None, None, {};
      SetRoomDirty(false);
    }

    method StartTracking(root: string, loaded: Option<string>, unsaved: set<string>)
      returns (restart: nat, generationAtStart: nat)
      modifies this
      ensures Now() == TrackingStarted(old(Now()), root, loaded, unsaved)
      ensures old(Honest(Now())) ==> Honest(Now())
      ensures restart == tracking == old(tracking) + 1 && generationAtStart == generation == old(generation)
      ensures !trusted && policy == loaded && buffers == old(buffers) + unsaved
      ensures if loaded.Some? then baseline == Some(Baseline(root, loaded.value)) && unchanged(`kind, `receipt)
              else baseline == None && kind == Unknown && receipt == None
    {
      tracking := tracking + 1;
      restart, generationAtStart := tracking, generation;
      trusted := false;
      if loaded.Some? {
        policy, baseline := loaded, Some(Baseline(root, loaded.value));
      } else {
        policy, baseline := None, None;
        SetRoomState(Unknown, Some(false));
      }
      buffers := buffers + unsaved;
      if baseline.None? {
        SetRoomState(Unknown, Some(false));
      }
    }

    method BindTracking(restart: nat, bindingMatches: bool)
      modifies this
      ensures Now() == TrackingBound(old(Now()), restart, bindingMatches)
      ensures old(Honest(Now())) ==> Honest(Now())
      ensures if restart == old(tracking) then trusted == bindingMatches else unchanged(this)
    {
      if restart != tracking {
        return;
      }
      trusted := bindingMatches;
    }

    method EndTracking(restart: nat, generationAtStart: nat, sight: StatusSight)
      modifies this
      ensures Now() == TrackingEnded(old(Now()), restart, generationAtStart, sight)
      ensures old(Honest(Now())) ==> Honest(Now())
      ensures if restart == old(tracking) then unchanged(`generation, `baseline, `policy, `buffers, `tracking)
              else unchanged(this)
      ensures restart == tracking ==>
                var quiet := generation == generationAtStart && buffers == {};
                var judged := quiet && sight.known && old(trusted);
                && (kind == Clean <==> judged && !sight.currentFormat && sight.clean)
                && (kind == Unknown <==> quiet && (judged ==> sight.currentFormat && !sight.signatureChanged))
                && (kind == Dirty <==> !quiet || (judged && (if sight.currentFormat then sight.signatureChanged
                                                             else !sight.clean)))
                && trusted == (old(trusted) && (quiet ==> sight.known))
    {
      if restart != tracking {
        return;
      }
      if generation != generationAtStart || buffers != {} {
        SetRoomState(Dirty, Some(trusted));
      } else if !sight.known || !trusted {
        SetRoomState(Unknown, Some(false));
      } else if sight.currentFormat {
        SetRoomState(if sight.signatureChanged then Dirty else Unknown, Some(trusted));
      } else {
        SetRoomState(if sight.clean then Clean else Dirty, Some(trusted));
      }
    }

    method ResetNativeBaseline(bindingMatches: bool)
      modifies this
      ensures Now() == BaselineReset(old(Now()), bindingMatches)
      ensures old(Honest(Now())) ==> Honest(Now())
      ensures if old(baseline).None? then unchanged(this)
              else kind == Unknown && trusted == bindingMatches && buffers == {} && receipt == None
    {
      if baseline.None? {
        return;
      }
      buffers := {};
      SetRoomState(Unknown, Some(bindingMatches));
    }

    /** The reset of an older marker format runs in two steps, around a capture of the workspace. */
    method StartLegacyReset()
      modifies this
      ensures Now() == LegacyResetStarted(old(Now()))
      ensures if old(baseline).Some? then trusted else unchanged(this)
      ensures old(Honest(Now())) ==> Honest(Now())
    {
      if baseline.Some? { trusted := true; }
    }

    method EndLegacyReset()
      modifies this
      ensures Now() == LegacyResetEnded(old(Now()))
      ensures buffers == {} && kind == if old(trusted) then Clean else Unknown
      ensures old(Honest(Now())) ==> Honest(Now())
    {
      buffers := {};
      SetRoomDirty(false);
    }
  }

  // ----- Runs -----

  datatype Action =
    | Event(change: Change)
    | TextChange(relative: Option<string>, unsaved: bool)
    | Settle(relative: Option<string>, change: Change)
    | StartSave(active: Option<(string, set<string>)>)
    | FinishSave(save: nat, sight: SaveSight)
    | Check(check: CheckSight)
    | Drop
    | TrackNothing
    | StartTracking(root: string, loaded: Option<string>, unsavedDocuments: set<string>)
    | BindTracking(tracking: nat, trusted: bool)
    | EndTracking(tracking: nat, generationAtStart: nat, status: StatusSight)
    | ResetBaseline(trusted: bool)
    | StartLegacyReset
    | EndLegacyReset

  /** The module variables, and the generation each Save remembered when it started. */
  datatype World = World(room: Room, saves: seq<nat>)

  function After(w: World, a: Action): Room {
    match a
    case Event(change) => Changed(w.room, change)
    case TextChange(relative, unsaved) => TextChanged(w.room, relative, unsaved)
    case Settle(relative, change) => Settled(w.room, relative, change)
    case StartSave(active) => SaveStarted(w.room, active)
    case FinishSave(save, sight) => if save < |w.saves| then SaveFinished(w.room, w.saves[save], sight) else w.room
    case Check(sight) => Checked(w.room, sight)
    case Drop => w.room.(receipt := None)
    case TrackNothing => TrackingWithoutRoom(w.room)
    case StartTracking(root, loaded, unsaved) => TrackingStarted(w.room, root, loaded, unsaved)
    case BindTracking(tracking, trusted) => TrackingBound(w.room, tracking, trusted)
    case EndTracking(tracking, generationAtStart, sight) => TrackingEnded(w.room, tracking, generationAtStart, sight)
    case ResetBaseline(trusted) => BaselineReset(w.room, trusted)
    case StartLegacyReset => LegacyResetStarted(w.room)
    case EndLegacyReset => LegacyResetEnded(w.room)
  }

  function Step(w: World, a: Action): World {
    World(After(w, a), if a.StartSave? then w.saves + [w.room.generation] else w.saves)
  }

  function Run(actions: seq<Action>): World {
    if actions == [] then World(INITIAL, []) else Step(Run(actions[..|actions| - 1]), actions[|actions| - 1])
  }

  function RoomAt(actions: seq<Action>, i: nat): Room
    requires i <= |actions|
  {
    Run(actions[..i]).room
  }

  /** The workspace, editor and policy events that count as a change. */
  predicate Counts(r: Room, a: Action) {
    match a
    case Event(change) => !change.Ignored?
    case TextChange(relative, _) => relative.Some?
    case Settle(relative, change) => relative.Some? && r.baseline.Some? && !change.Ignored?
    case _ => false
  }

  // ----- One step -----

  lemma GenerationCounts(w: World, a: Action)
    ensures After(w, a).generation == w.room.generation + if Counts(w.room, a) then 1 else 0
  {}

  /** What keeps a receipt honest in one room. */
  predicate Honest(r: Room) {
    && (r.receipt.Some? ==>
          r.kind == Clean && r.receipt.value.eventGeneration <= r.generation && !r.receipt.value.allImages)
    && r.cleanGeneration <= r.generation
    && (r.kind != Clean ==> r.cleanGeneration == -1)
  }

  /** When the end of a Save stores a new receipt. */
  lemma SaveStoresOnly(r: Room, saveGeneration: nat, sight: SaveSight)
    ensures var saved := SaveFinished(r, saveGeneration, sight);
            && saved.generation == r.generation
            && (saved.receipt.Some? && saved.receipt != r.receipt ==>
                  && saveGeneration == r.generation == saved.receipt.value.eventGeneration && r.buffers == {}
                  && sight.result.status != SavedButDirty && !sight.allImages && !sight.result.external
                  && saved.kind == Clean && saved.trusted && saved.baseline.Some?
                  && sight.marker.Some?
                  && saved.receipt.value.snapshot == sight.marker.value.snapshot == sight.result.snapshot)
  {}

  lemma SaveIsHonest(r: Room, saveGeneration: nat, sight: SaveSight)
    requires Honest(r)
    ensures Honest(SaveFinished(r, saveGeneration, sight))
  {}

  lemma ChangeIsHonest(r: Room, change: Change)
    requires Honest(r)
    ensures Honest(Changed(r, change))
  {}

  lemma StepIsHonest(w: World, a: Action)
    requires Honest(w.room)
    ensures Honest(After(w, a))
  {
    hide SaveFinished, Changed;
    if a.FinishSave? && a.save < |w.saves| {
      SaveIsHonest(w.room, w.saves[a.save], a.sight);
    }
    if a.Event? {
      ChangeIsHonest(w.room, a.change);
    }
    if a.Settle? && a.relative.Some? {
      ChangeIsHonest(w.room.(buffers := w.room.buffers - {a.relative.value}), a.change);
    }
  }

  /** Only the end of a Save stores a receipt, and then the remembered generation is still the current one. */
  lemma ReceiptsComeFromSaves(w: World, a: Action)
    requires After(w, a).receipt.Some? && After(w, a).receipt != w.room.receipt
    ensures a.FinishSave? && a.save < |w.saves|
    ensures After(w, a).receipt.value.eventGeneration == w.saves[a.save]
  {}

  /** A receipt is returned exactly when Room, directories, policy and marker all answer for it. */
  lemma TrustedExactly(r: Room, sight: CheckSight)
    ensures Trusted(r, sight) == if Answers(r, sight) then r.receipt else None
    ensures Checked(r, sight).receipt ==
            if Ready(r) && (!Resolved(sight) || OneDirectory(sight)) && !Answers(r, sight) then None else r.receipt
  {}

  /** The controller's result and the marker agree on the recovery point that was saved. */
  predicate SavedPoint(result: SaveResult, m: Marker) {
    && result.project == m.project && result.dimension == m.dimension && result.domain == m.domain
    && result.snapshot == m.snapshot && result.policy == m.policy
    && result.signature == Some(m.signature) && result.algorithm == m.algorithm == "josh-room-stat-v1"
  }

  /** Nothing came in between: the Save is complete, no document is unsaved, and no event counted since it started. */
  predicate Undisturbed(r: Room, saveGeneration: nat, sight: SaveSight) {
    sight.result.status != SavedButDirty && r.buffers == {} && saveGeneration == r.generation
  }

  /** What the end of a Save of the open folder leaves, in each of its outcomes. */
  lemma SaveFinishesExactly(r: Room, saveGeneration: nat, sight: SaveSight, place: Place, policy: string)
    requires sight.places == Some((place, place.path))
    requires (if r.policy.Some? then r.policy else sight.loaded) == Some(policy)
    ensures var (saved, m) := (SaveFinished(r, saveGeneration, sight), sight.marker);
            var good := m.Some? && SavedPoint(sight.result, m.value) && BoundHere(m.value, place, policy);
            && (saved.kind == SavedButStillDirty <==> !Undisturbed(r, saveGeneration, sight))
            && (saved.kind == Clean <==> Undisturbed(r, saveGeneration, sight) && good)
            && (saved.kind == Unknown <==> Undisturbed(r, saveGeneration, sight) && !good)
            && (saved.trusted <==> good)
            && (saved.receipt.Some? <==> saved.kind == Clean && !sight.allImages && !sight.result.external)
            && (saved.receipt.Some? ==>
                  && StoredFor(saved.receipt.value, place, policy, r.generation)
                  && SameRecoveryPoint(m.value, saved.receipt.value) && !saved.receipt.value.allImages)
            && (saved.kind == Clean ==>
                  && saved.buffers == {} && saved.policy == Some(policy)
                  && saved.baseline == Some(Baseline(place.path, policy)))
            && (saved.kind != Clean ==>
                  saved.buffers == r.buffers && saved.policy == r.policy && saved.baseline == r.baseline)
            && saved.generation == r.generation && saved.tracking == r.tracking
  {}

  /** Without directories or policy a Save ends as unknown; a Save of another folder changes nothing. */
  lemma OtherSavesFinish(r: Room, saveGeneration: nat, sight: SaveSight)
    ensures var saved := SaveFinished(r, saveGeneration, sight);
            if sight.places.None? then saved == WithState(r, Unknown, Some(false))
            else if sight.places.value.0.path != sight.places.value.1 then saved == r
            else r.policy.None? && sight.loaded.None? ==> saved == WithState(r, Unknown, Some(false))
  {}

  // ----- Every run -----

  /** In every reachable state a stored receipt means that the Room is clean. */
  lemma {:induction false} StoredReceiptMeansClean(actions: seq<Action>)
    ensures Honest(Run(actions).room)
    ensures var r := Run(actions).room;
            && (r.receipt.Some? ==>
                  r.kind == Clean && r.receipt.value.eventGeneration <= r.generation && !r.receipt.value.allImages)
            && (if r.kind == Clean then r.cleanGeneration <= r.generation else r.cleanGeneration == -1)
  {
    if actions != [] {
      var before := actions[..|actions| - 1];
      StoredReceiptMeansClean(before);
      StepIsHonest(Run(before), actions[|actions| - 1]);
    }
  }

  lemma PrefixStep(actions: seq<Action>, i: nat)
    requires i < |actions|
    ensures Run(actions[..i + 1]) == Step(Run(actions[..i]), actions[i])
  {
    assert actions[..i + 1][..i] == actions[..i];
  }

  lemma {:induction false} GenerationGrows(actions: seq<Action>, i: nat, j: nat)
    requires i <= j <= |actions|
    ensures RoomAt(actions, i).generation <= RoomAt(actions, j).generation
  {
    if i < j {
      GenerationGrows(actions, i, j - 1);
      PrefixStep(actions, j - 1);
      GenerationCounts(Run(actions[..j - 1]), actions[j - 1]);
    }
  }

  /** No event counts between two moments of one generation. */
  lemma QuietBetween(actions: seq<Action>, i: nat, j: nat)
    requires i <= j <= |actions|
    requires RoomAt(actions, i).generation == RoomAt(actions, j).generation
    ensures forall p: nat :: i <= p < j ==> !Counts(RoomAt(actions, p), actions[p])
  {
    forall p: nat | i <= p < j
      ensures !Counts(RoomAt(actions, p), actions[p])
    {
      GenerationGrows(actions, i, p);
      GenerationGrows(actions, p + 1, j);
      PrefixStep(actions, p);
      GenerationCounts(Run(actions[..p]), actions[p]);
    }
  }

  /** Save number `save` started at step `i`, when the generation was `generation`. */
  predicate StartedAt(actions: seq<Action>, i: nat, save: nat, generation: nat) {
    i < |actions| && actions[i].StartSave? && |Run(actions[..i]).saves| == save
        && RoomAt(actions, i).generation == generation
  }

  lemma {:induction false} EverySaveStarted(actions: seq<Action>, save: nat) returns (i: nat)
    requires save < |Run(actions).saves|
    ensures StartedAt(actions, i, save, Run(actions).saves[save])
  {
    var n := |actions| - 1;
    var before := actions[..n];
    if save < |Run(before).saves| {
      i := EverySaveStarted(before, save);
      assert actions[..i] == before[..i];
    } else {
      i := n;
    }
  }

  /** The receipt was stored by the end, at step `j`, of the Save that started at step `i`. */
  predicate MintedBy(actions: seq<Action>, i: nat, j: nat, receipt: Receipt) {
    && i < j < |actions|
    && actions[j].FinishSave?
    && StartedAt(actions, i, actions[j].save, receipt.eventGeneration)
    && RoomAt(actions, j + 1).receipt == Some(receipt)
  }

  lemma {:induction false} EveryReceiptWasMinted(actions: seq<Action>) returns (i: nat, j: nat)
    requires Run(actions).room.receipt.Some?
    ensures MintedBy(actions, i, j, Run(actions).room.receipt.value)
  {
    var n := |actions| - 1;
    var before := actions[..n];
    if Run(before).room.receipt == Run(actions).room.receipt {
      i, j := EveryReceiptWasMinted(before);
      assert actions[..i] == before[..i] && actions[..j + 1] == before[..j + 1];
    } else {
      ReceiptsComeFromSaves(Run(before), actions[n]);
      i := EverySaveStarted(before, actions[n].save);
      j := n;
      assert actions[..i] == before[..i] && actions[..n + 1] == actions;
    }
  }

  /**
   A trusted receipt means that no workspace, editor or policy event counted since the start of
   the Save that stored it.
  */
  lemma TrustedReceiptMeansQuiet(actions: seq<Action>, sight: CheckSight) returns (start: nat, finish: nat)
    requires Trusted(Run(actions).room, sight).Some?
    ensures MintedBy(actions, start, finish, Trusted(Run(actions).room, sight).value)
    ensures forall p: nat :: start <= p < |actions| ==> !Counts(RoomAt(actions, p), actions[p])
    ensures !Trusted(Run(actions).room, sight).value.allImages
  {
    start, finish := EveryReceiptWasMinted(actions);
    assert actions[..|actions|] == actions;
    QuietBetween(actions, start, |actions|);
    StoredReceiptMeansClean(actions);
  }

  // ----- A receipt that is stored and still not used -----

  /** Reads the same directories, policy and marker as the end of the Save. */
  predicate SameSight(r: Room, sight: SaveSight, check: CheckSight) {
    && sight.places.Some? && SavePolicy(r, sight).Some?
    && var (place, workspace) := sight.places.value;
    && check.places == Some((place, workspace, workspace))
    && check.loaded == SavePolicy(r, sight)
    && check.marker == sight.marker
  }

  /** A new receipt can be used at once exactly when the Room was not already clean with an older clean generation. */
  lemma MintedReceiptIsTrustedExactly(r: Room, saveGeneration: nat, sight: SaveSight, check: CheckSight)
    requires Honest(r) && SameSight(r, sight, check)
    requires sight.places.value.0.path == sight.places.value.1
    requires BindingMatches(sight.result, sight.marker, sight.places.value.0, SavePolicy(r, sight).value)
    requires sight.result.status != SavedButDirty && r.buffers == {} && saveGeneration == r.generation
    requires !sight.allImages && !sight.result.external
    ensures SaveFinished(r, saveGeneration, sight).receipt.Some?
    ensures Trusted(SaveFinished(r, saveGeneration, sight), check).Some?
       <==> (r.kind == Clean ==> r.cleanGeneration == r.generation)
  {}

  /** While the Room stays clean, a clean generation that is behind stays behind, and no receipt is used. */
  lemma {:induction false} StaleCleanIsNeverTrusted(actions: seq<Action>, i: nat, j: nat, sight: CheckSight)
    requires i <= j <= |actions|
    requires forall p: nat :: i <= p <= j ==> RoomAt(actions, p).kind == Clean
    requires RoomAt(actions, i).cleanGeneration != RoomAt(actions, i).generation
    ensures RoomAt(actions, j).cleanGeneration < RoomAt(actions, j).generation
    ensures Trusted(RoomAt(actions, j), sight) == None
  {
    StoredReceiptMeansClean(actions[..i]);
    if i < j {
      StaleCleanIsNeverTrusted(actions, i, j - 1, sight);
      PrefixStep(actions, j - 1);
      assert RoomAt(actions, j - 1).kind == Clean && RoomAt(actions, j).kind == Clean;
      CleanGenerationStays(Run(actions[..j - 1]), actions[j - 1]);
      GenerationCounts(Run(actions[..j - 1]), actions[j - 1]);
    }
  }

  lemma CleanGenerationStays(w: World, a: Action)
    requires w.room.kind == Clean && After(w, a).kind == Clean
    ensures After(w, a).cleanGeneration == w.room.cleanGeneration
  {}

  // One Room, one successful Save of it, and a look at what that Save left.
  const ROOM := Marker(3, "d", "p", "s", SIGNATURE_ALGORITHM, "r", "x", "e", "1")
  const RESULT := SaveResult(Saved, "x", "e", "r", "1", Some("s"), SIGNATURE_ALGORITHM, "p", false)
  const SAVE_SIGHT := SaveSight(Some((Place("/w", "d"), "/w")), Some("p"), Some(ROOM), RESULT, false)
  const CHECK_SIGHT := CheckSight(Some((Place("/w", "d"), "/w", "/w")), Some("p"), Some(ROOM))
  const START := StartSave(Some(("p", {})))
  const RELOAD := TextChange(Some("a"), false)

  /** The Room after a successful Save at a generation. */
  function AfterSave(generation: nat, cleanGeneration: int): Room {
    Room(Clean, generation, cleanGeneration, true, Some(ReceiptFor(ROOM, Place("/w", "d"), generation, false)),
         Some(Baseline("/w", "p")), Some("p"), {}, 0)
  }

  lemma RunStep(actions: seq<Action>, a: Action)
    ensures Run(actions + [a]) == Step(Run(actions), a)
  {
    assert (actions + [a])[..|actions|] == actions;
  }

  lemma FirstSave()
    ensures Run([START, FinishSave(0, SAVE_SIGHT)]) == World(AfterSave(0, 0), [0])
  {
    RunStep([], START);
    RunStep([START], FinishSave(0, SAVE_SIGHT));
    assert Run([START]) == World(INITIAL.(policy := Some("p")), [0]);
    assert [START] + [FinishSave(0, SAVE_SIGHT)] == [START, FinishSave(0, SAVE_SIGHT)];
  }

  lemma SaveAgain(before: seq<Action>)
    requires Run(before) == World(AfterSave(0, 0), [0])
    ensures Run(before + [RELOAD, START, FinishSave(1, SAVE_SIGHT)]) == World(AfterSave(1, 0), [0, 1])
  {
    RunStep(before, RELOAD);
    RunStep(before + [RELOAD], START);
    RunStep(before + [RELOAD] + [START], FinishSave(1, SAVE_SIGHT));
    assert Run(before + [RELOAD] + [START]) == World(AfterSave(0, 0).(generation := 1), [0, 1]);
    assert before + [RELOAD] + [START] + [FinishSave(1, SAVE_SIGHT)]
        == before + [RELOAD, START, FinishSave(1, SAVE_SIGHT)];
  }

  /**
   A run in which a successful Save leaves a receipt that the next Save cannot use, though no
   event counted since it started.
  */
  lemma ReceiptAfterReloadIsNotTrusted()
    ensures var first := [START, FinishSave(0, SAVE_SIGHT)];
            var second := first + [RELOAD, START, FinishSave(1, SAVE_SIGHT)];
            && Trusted(Run(first).room, CHECK_SIGHT).Some?
            && Run(second).room.receipt.Some?
            && Trusted(Run(second).room, CHECK_SIGHT) == None
  {
    hide Run;
    FirstSave();
    SaveAgain([START, FinishSave(0, SAVE_SIGHT)]);
  }
}
