/**
 Switching a Room to another recovery point: hydrate next to it, set the old tree
 aside, put the new tree in its place and bind its marker to the folder.

 Every file system operation can fail, and a recursive removal or a hydration that
 fails can leave any partial tree behind. `history` records the directories after
 each operation, so a statement about it also covers a crash between two operations.
*/
module RoomSwitch {
  import opened Sequences
  import opened HexDigests

  /** The fields of a marker that the switch looks at, and the rest of it. */
  datatype Marker = Marker(formatVersion: nat, dimension: string, project: string, snapshot: string,
                           fingerprint: string, path: string, rest: string)

  /** A directory tree; `T` is everything in it but the marker file and its temporary. */
  datatype Tree<T> = Tree(content: T, marker: Option<Marker>, temporary: Option<Marker>)

  datatype Place = RoomPath | Stage | Backup

  type Directories<T> = map<Place, Tree<T>>

  /** The operations of a switch in program order; each runs at most once. */
  datatype Operation =
    | MakeStage | Hydrate | SetAside | Promote | ReadMarker | WriteMarker | ProtectMarker | PlaceMarker
    | DropRoom | Restore | DropBackup | Remember | DropStage | DropBackupAgain

  datatype Answer = Confirm | SaveFirst | Dismiss
  datatype Outcome = Switched | Cancelled | SaveFirstAsked | Failed

  datatype Target = Target(dimension: string, project: string, snapshot: string)

  /** The hydrated marker is the one the user selected. */
  predicate Corroborated(marker: Option<Marker>, target: Target) {
    && marker.Some?
    && var m := marker.value;
    && m.formatVersion == 2 && m.dimension == target.dimension && m.project == target.project
    && m.snapshot == target.snapshot && HexDigest(m.fingerprint)
  }

  /** The hydrated tree with its marker bound to the folder whose path has this digest. */
  function Rebound<T>(tree: Tree<T>, digest: string): Tree<T> {
    if tree.marker.None? then tree else Tree(tree.content, Some(tree.marker.value.(path := digest)), None)
  }

  /** Operations that bring the new tree in, operations that undo that. */
  const FORWARD := {MakeStage, Hydrate, SetAside, Promote, ReadMarker, WriteMarker, ProtectMarker, PlaceMarker}
  const ROLLBACK := {DropRoom, Restore, DropStage}

  /** The complete old tree is in its place or set aside. */
  ghost predicate OldKept<T(!new)>(was: Tree<T>, d: Directories<T>) {
    || (RoomPath in d && d[RoomPath] == was)
    || (Backup in d && d[Backup] == was)
  }

  ghost predicate OldKeptIn<T(!new)>(was: Tree<T>, history: seq<Directories<T>>) {
    forall i :: 0 <= i < |history| ==> OldKept(was, history[i])
  }

  ghost predicate InPlaceIn<T(!new)>(now: Tree<T>, history: seq<Directories<T>>) {
    forall i :: 0 <= i < |history| ==> RoomPath in history[i] && history[i][RoomPath] == now
  }

  class Disk<T(!new)> {
    /**
     The tree before the switch, a new empty one, the one that a hydration produces, and the
     digest of the Room path.
    */
    const was: Tree<T>
    const empty: Tree<T>
    const hydrated: Tree<T>
    const digest: string
    /** What goes wrong, and what a failed recursive operation leaves behind. */
    const faults: set<Operation>
    const leftovers: Operation -> Option<Tree<T>>

    var trees: Directories<T>
    var promoted: bool
    /** The directories after each operation before, and after, the new tree is promoted. */
    ghost var history: seq<Directories<T>>
    ghost var afterwards: seq<Directories<T>>

    constructor (was: Tree<T>, empty: Tree<T>, hydrated: Tree<T>, digest: string,
                 faults: set<Operation>, leftovers: Operation -> Option<Tree<T>>)
      ensures Fresh() && this.was == was && this.hydrated == hydrated && this.digest == digest && this.faults == faults
    {
      this.was, this.empty, this.hydrated, this.digest := was, empty, hydrated, digest;
      this.faults, this.leftovers := faults, leftovers;
      trees, promoted := map[RoomPath := was], false;
      history, afterwards := [map[RoomPath := was]], [];
    }

    ghost predicate Fresh()
      reads this
    {
      trees == map[RoomPath := was] && !promoted && history == [trees] && afterwards == []
    }

    /** No recorded state has lost the old tree before promotion, nor the new tree after it. */
    ghost predicate NothingLost()
      reads this
    {
      OldKeptIn(was, history) && InPlaceIn(Rebound(hydrated, digest), afterwards)
    }

    /** The new tree, bound to its folder, is at the Room path. */
    ghost predicate InPlace()
      reads this
    {
      RoomPath in trees && trees[RoomPath] == Rebound(hydrated, digest)
    }

    method Rename(operation: Operation, from: Place, to: Place) returns (ok: bool)
      modifies `trees, `history
      ensures ok <==> operation !in faults && from in old(trees) && to !in old(trees)
      ensures trees == if ok then old(trees)[to := old(trees)[from]] - {from} else old(trees)
      ensures history == old(history) + [trees]
    {
      ok := operation !in faults && from in trees && to !in trees;
      if ok {
        trees := trees[to := trees[from]] - {from};
      }
      history := history + [trees];
    }

    /** Recursive removal; a missing tree is no error. */
    method Remove(operation: Operation, place: Place) returns (ok: bool)
      modifies `trees, `history, `afterwards
      ensures ok <==> operation !in faults
      ensures ok ==> trees == old(trees) - {place}
      ensures forall p :: p != place ==> (p in trees <==> p in old(trees)) && (p in trees ==> trees[p] == old(trees)[p])
      ensures history == if promoted then old(history) else old(history) + [trees]
      ensures afterwards == if promoted then old(afterwards) + [trees] else old(afterwards)
    {
      ok := operation !in faults;
      if ok {
        trees := trees - {place};
      } else if place in trees {
        trees := WithLeftover(trees, place, leftovers(operation));
      }
      if promoted {
        afterwards := afterwards + [trees];
      } else {
        history := history + [trees];
      }
    }

    /** The restore command fills the stage. */
    method RunHydrate() returns (ok: bool)
      modifies `trees, `history
      ensures ok <==> Hydrate !in faults
      ensures ok ==> trees == old(trees)[Stage := hydrated]
      ensures forall p :: p != Stage ==> (p in trees <==> p in old(trees)) && (p in trees ==> trees[p] == old(trees)[p])
      ensures history == old(history) + [trees]
    {
      ok := Hydrate !in faults;
      trees := WithLeftover(trees, Stage, if ok then Some(hydrated) else leftovers(Hydrate));
      history := history + [trees];
    }

    /** Reads the marker, checks it, and replaces it by one bound to this folder. */
    method RebindHydratedMarker(target: Target) returns (ok: bool)
      requires trees.Keys == {RoomPath, Backup} && trees[Backup] == was && NothingLost()
      modifies `trees, `history
      ensures ok <==> {ReadMarker, WriteMarker, ProtectMarker, PlaceMarker} !! faults
                      && Corroborated(old(trees)[RoomPath].marker, target)
      ensures trees.Keys == {RoomPath, Backup} && trees[Backup] == was && NothingLost()
      ensures ok ==> trees[RoomPath] == Rebound(old(trees)[RoomPath], digest)
      ensures Corroborated(old(trees)[RoomPath].marker, target) <==>
                && old(trees)[RoomPath].marker.Some?
                && var m := old(trees)[RoomPath].marker.value;
                && m.formatVersion == 2 && m.dimension == target.dimension && m.project == target.project
                && m.snapshot == target.snapshot && |m.fingerprint| == 64
                && forall i :: 0 <= i < 64 ==> m.fingerprint[i] in "0123456789abcdef"
      ensures ok ==>
                && trees[RoomPath].content == old(trees)[RoomPath].content && trees[RoomPath].temporary.None?
                && trees[RoomPath].marker == Some(old(trees)[RoomPath].marker.value.(path := digest))
    {
      ghost var found := trees[RoomPath].marker;
      if found.Some? {
        HexDigestIs(found.value.fingerprint);
      }
      hide HexDigest;
      var tree := trees[RoomPath];
      if ReadMarker in faults || !Corroborated(tree.marker, target) {
        return false;
      }
      var marker := tree.marker.value.(path := digest);
      trees := trees[RoomPath := tree.(temporary := Some(marker))];
      history := history + [trees];
      if WriteMarker in faults || ProtectMarker in faults || PlaceMarker in faults {
        return false;
      }
      trees := trees[RoomPath := Tree(tree.content, Some(marker), None)];
      history := history + [trees];
      return true;
    }

    /** Removes what is at the Room path and puts the old tree back. */
    method Undo()
      requires Backup in trees && trees[Backup] == was && !promoted && NothingLost()
      modifies `trees, `history, `afterwards
      ensures NothingLost() && afterwards == old(afterwards) && OldKept(was, trees)
      ensures {DropRoom, Restore} !! faults ==> trees == (old(trees) - {Backup})[RoomPath := was]
    {
      var dropped := Remove(DropRoom, RoomPath);
      if dropped && Backup in trees {
        var _ := Rename(Restore, Backup, RoomPath);
      }
    }

    /** Puts the hydrated tree in place; on an error the old tree comes back. */
    method Exchange(target: Target)
      requires trees == map[RoomPath := was, Stage := hydrated] && !promoted && afterwards == [] && NothingLost()
      modifies `trees, `history, `promoted, `afterwards
      ensures promoted <==> {SetAside, Promote, ReadMarker, WriteMarker, ProtectMarker, PlaceMarker} !! faults
                            && Corroborated(hydrated.marker, target)
      ensures NothingLost() && afterwards == []
      ensures promoted ==> trees == map[RoomPath := Rebound(hydrated, digest), Backup := was]
      ensures !promoted ==> OldKept(was, trees)
      ensures !promoted && {DropRoom, Restore} !! faults ==> trees - {Stage} == map[RoomPath := was]
    {
      var aside := Rename(SetAside, RoomPath, Backup);
      if !aside {
        return;
      }
      assert trees == map[Stage := hydrated, Backup := was];
      var bound := Rename(Promote, Stage, RoomPath);
      if bound {
        assert trees == map[RoomPath := hydrated, Backup := was];
        bound := RebindHydratedMarker(target);
      }
      if bound {
        promoted := true;
      } else {
        Undo();
      }
    }

    method SwitchMaterialization(target: Target, clean: bool, answer: Answer) returns (outcome: Outcome)
      requires Fresh()
      modifies this
      ensures clean && answer != Confirm ==> outcome == Cancelled
      ensures !clean && answer == SaveFirst ==> outcome == SaveFirstAsked
      ensures !clean && answer == Dismiss ==> outcome == Cancelled
      ensures outcome in {Cancelled, SaveFirstAsked} ==> Fresh()
      ensures NothingLost()
      ensures forall i :: 0 <= i < |history| ==>
                || (RoomPath in history[i] && history[i][RoomPath] == was)
                || (Backup in history[i] && history[i][Backup] == was)
      ensures forall i :: 0 <= i < |afterwards| ==>
                RoomPath in afterwards[i] && afterwards[i][RoomPath] == Rebound(hydrated, digest)
      ensures promoted <==> answer == Confirm && FORWARD !! faults && Corroborated(hydrated.marker, target)
      ensures outcome == Switched <==> promoted && {DropBackup, Remember} !! faults
      ensures if promoted then InPlace() else OldKept(was, trees)
      ensures outcome == Switched ==> trees == map[RoomPath := Rebound(hydrated, digest)]
      ensures promoted && DropBackupAgain !in faults ==> trees == map[RoomPath := Rebound(hydrated, digest)]
      ensures !promoted && ROLLBACK !! faults ==> trees == map[RoomPath := was]
    {
      hide Corroborated, Rebound, HexDigest;
      if clean && answer != Confirm {
        return Cancelled;
      }
      if !clean && answer == SaveFirst {
        return SaveFirstAsked;
      }
      if !clean && answer != Confirm {
        return Cancelled;
      }
      outcome := Switch(target);
    }

    /** The confirmed switch. */
    method Switch(target: Target) returns (outcome: Outcome)
      requires Fresh()
      modifies this
      ensures NothingLost() && (outcome == Switched || outcome == Failed)
      ensures promoted <==> FORWARD !! faults && Corroborated(hydrated.marker, target)
      ensures outcome == Switched <==> promoted && {DropBackup, Remember} !! faults
      ensures if promoted then InPlace() else OldKept(was, trees)
      ensures outcome == Switched ==> trees == map[RoomPath := Rebound(hydrated, digest)]
      ensures promoted && DropBackupAgain !in faults ==> trees == map[RoomPath := Rebound(hydrated, digest)]
      ensures !promoted && ROLLBACK !! faults ==> trees == map[RoomPath := was]
    {
      hide Corroborated, Rebound, InPlace;
      if MakeStage in faults {
        return Failed;
      }
      var ok := Prepare();
      if ok {
        Exchange(target);
      }
      outcome := Failed;
      if promoted {
        outcome := Finish();
      }
      CleanUp();
    }

    /** Makes the stage and fills it. */
    method Prepare() returns (ok: bool)
      requires Fresh()
      modifies `trees, `history
      ensures NothingLost() && OldKept(was, trees) && trees - {Stage} == map[RoomPath := was]
      ensures ok <==> Hydrate !in faults
      ensures ok ==> trees == map[RoomPath := was, Stage := hydrated]
    {
      hide Rebound;
      trees := trees[Stage := empty];
      history := history + [trees];
      ok := RunHydrate();
      assert trees - {Stage} == map[RoomPath := was];
    }

    /** Drops the backup of a promoted Room and remembers the folder. */
    method Finish() returns (outcome: Outcome)
      requires promoted && NothingLost() && afterwards == []
      requires trees == map[RoomPath := Rebound(hydrated, digest), Backup := was]
      modifies `trees, `history, `afterwards
      ensures NothingLost() && InPlace() && trees - {Backup} == map[RoomPath := Rebound(hydrated, digest)]
      ensures outcome == if {DropBackup, Remember} !! faults then Switched else Failed
      ensures outcome == Switched ==> trees == map[RoomPath := Rebound(hydrated, digest)]
    {
      hide Rebound, OldKept;
      var dropped := Remove(DropBackup, Backup);
      outcome := if dropped && Remember !in faults then Switched else Failed;
    }

    /** The `finally` block. */
    method CleanUp()
      requires NothingLost()
      requires if promoted then InPlace() else OldKept(was, trees)
      modifies `trees, `history, `afterwards
      ensures NothingLost()
      ensures if promoted then InPlace() else OldKept(was, trees)
      ensures !promoted && DropStage !in faults ==> trees == old(trees) - {Stage}
      ensures promoted && Backup !in old(trees) ==> trees == old(trees)
      ensures promoted && DropBackupAgain !in faults ==> trees == old(trees) - {Backup}
    {
      if !promoted && Stage in trees {
        var _ := Remove(DropStage, Stage);
      }
      if promoted && Backup in trees {
        var _ := Remove(DropBackupAgain, Backup);
      }
    }
  }

  function WithLeftover<T>(trees: Directories<T>, place: Place, left: Option<Tree<T>>): (r: Directories<T>)
    ensures forall p :: p != place ==> (p in r <==> p in trees) && (p in r ==> r[p] == trees[p])
  {
    if left.Some? then trees[place := left.value] else trees - {place}
  }
}
