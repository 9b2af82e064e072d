/**
 The external merge sort of directory names: sorted runs on disk, manifests that
 list them, and merge passes of bounded fan-in.
*/
module ExternalSort {
  import opened Sequences
  import opened Utf8Order
  import opened NameOrder
  import opened RunMerge

  const SORT_RUN_SIZE := 256
  const SORT_MERGE_FAN_IN := 16

  /** The files of the sort directory; their names are injective in these parameters. */
  datatype File =
    | Run(index: nat)
    | Merged(pass: nat, index: nat)
    | Manifest(pass: nat)

  datatype Content = Names(names: seq<string>) | Files(files: seq<File>)

  type Disk = map<File, Content>

  ghost predicate Distinct(live: seq<File>) {
    forall i, j :: 0 <= i < j < |live| ==> live[i] != live[j]
  }

  ghost predicate Disjoint(a: seq<File>, b: seq<File>) {
    forall f :: f in a ==> f !in b
  }

  lemma {:induction false} DistinctConcat(a: seq<File>, b: seq<File>)
    ensures Distinct(a + b) <==> Distinct(a) && Distinct(b) && Disjoint(a, b)
  {
    var c := a + b;
    if Distinct(c) {
      forall i, j | 0 <= i < j < |a|
        ensures a[i] != a[j]
      {
        assert c[i] == a[i] && c[j] == a[j];
      }
      forall i, j | 0 <= i < j < |b|
        ensures b[i] != b[j]
      {
        assert c[|a| + i] == b[i] && c[|a| + j] == b[j];
      }
      forall f | f in a
        ensures f !in b
      {
        var i :| 0 <= i < |a| && a[i] == f;
        forall j | 0 <= j < |b|
          ensures b[j] != f
        {
          assert c[i] != c[|a| + j];
        }
      }
    }
    if Distinct(a) && Distinct(b) && Disjoint(a, b) {
      forall i, j | 0 <= i < j < |c|
        ensures c[i] != c[j]
      {
        if i < |a| <= j {
          assert c[i] in a && c[j] in b;
        }
      }
    }
  }

  /** Sorted runs, each listed once. */
  ghost predicate RunsOn(disk: Disk, live: seq<File>) {
    && Distinct(live)
    && forall f :: f in live ==> !f.Manifest? && f in disk && disk[f].Names? && Sorted(disk[f].names)
  }

  function Load(disk: Disk, live: seq<File>): (runs: seq<seq<string>>)
    requires forall i :: 0 <= i < |live| ==> live[i] in disk && disk[live[i]].Names?
    ensures |runs| == |live|
  {
    seq(|live|, i requires 0 <= i < |live| => disk[live[i]].names)
  }

  /** The names held by the live runs. */
  ghost function NamesIn(disk: Disk, live: seq<File>): multiset<string>
    requires RunsOn(disk, live)
  {
    All(Load(disk, live))
  }

  lemma {:induction false} LoadUnchanged(disk: Disk, disk': Disk, live: seq<File>)
    requires RunsOn(disk, live)
    requires forall f :: f in live && f in disk ==> f in disk' && disk'[f] == disk[f]
    ensures RunsOn(disk', live) && NamesIn(disk', live) == NamesIn(disk, live)
  {
    assert Load(disk', live) == Load(disk, live);
  }

  lemma {:induction false} NamesInConcat(disk: Disk, a: seq<File>, b: seq<File>)
    requires RunsOn(disk, a + b)
    ensures RunsOn(disk, a) && RunsOn(disk, b) && Disjoint(a, b)
    ensures NamesIn(disk, a + b) == NamesIn(disk, a) + NamesIn(disk, b)
  {
    DistinctConcat(a, b);
    RunsConcat(disk, a, b);
    assert Load(disk, a + b) == Load(disk, a) + Load(disk, b);
    AllConcat(Load(disk, a), Load(disk, b));
  }

  lemma RunsConcat(disk: Disk, a: seq<File>, b: seq<File>)
    ensures RunsOn(disk, a + b) <==> RunsOn(disk, a) && RunsOn(disk, b) && Disjoint(a, b)
  {
    DistinctConcat(a, b);
    if RunsOn(disk, a + b) {
      forall f | f in a || f in b
        ensures f in a + b
      {
      }
    }
  }

  lemma RunsAreSorted(disk: Disk, live: seq<File>)
    requires RunsOn(disk, live)
    ensures forall i :: 0 <= i < |live| ==> Sorted(Load(disk, live)[i])
    ensures All(Load(disk, live)) == NamesIn(disk, live)
  {
    forall i | 0 <= i < |live|
      ensures Sorted(Load(disk, live)[i])
    {
      assert live[i] in live;
    }
  }

  lemma NamesInOne(disk: Disk, file: File)
    requires file in disk && disk[file].Names? && RunsOn(disk, [file])
    ensures NamesIn(disk, [file]) == multiset(disk[file].names)
  {
    var runs := Load(disk, [file]);
    assert runs == [disk[file].names];
    assert Closed(runs) == [];
    assert All(Closed(runs)) == multiset{};
  }

  /**
   The temporary directory. `live` lists the runs that hold the names at this
   moment; every file operation keeps `Conserved`, so no step loses a name.
  */
  class SortDirectory {
    var disk: Disk
    ghost var live: seq<File>
    ghost var total: multiset<string>
    ghost var widest: nat

    ghost predicate Conserved()
      reads this`disk, this`live, this`total
    {
      RunsOn(disk, live) && NamesIn(disk, live) == total
    }

    constructor ()
      ensures Conserved() && disk == map[] && live == [] && total == multiset{} && widest == 0
    {
      disk, live, total, widest := map[], [], multiset{}, 0;
    }

    /** Writes a file that is not a live run. */
    method Write(file: File, content: Content)
      requires Conserved() && file !in live
      modifies this`disk
      ensures Conserved() && disk == old(disk)[file := content]
    {
      LoadUnchanged(disk, disk[file := content], live);
      disk := disk[file := content];
    }

    /** Removes a file that is not a live run. */
    method Remove(file: File)
      requires Conserved() && file !in live
      modifies this`disk
      ensures Conserved() && disk == old(disk) - {file}
    {
      LoadUnchanged(disk, disk - {file}, live);
      disk := disk - {file};
    }

    /** `writeRun`: the names, sorted, become one more live run. */
    method WriteRun(names: seq<string>, index: nat) returns (file: File)
      requires Conserved() && Run(index) !in live
      modifies this`disk, this`live, this`total
      ensures Conserved() && file == Run(index) && live == old(live) + [file]
      ensures total == old(total) + multiset(names)
      ensures disk == old(disk)[file := Names(SortNames(names))]
    {
      file := Run(index);
      Write(file, Names(SortNames(names)));
      SortNamesSorts(names);
      Admit(file);
    }

    /** A written run starts to count. */
    ghost method Admit(file: File)
      requires Conserved() && file !in live && !file.Manifest?
      requires file in disk && disk[file].Names? && Sorted(disk[file].names)
      modifies this`live, this`total
      ensures Conserved() && live == old(live) + [file]
      ensures total == old(total) + multiset(disk[file].names)
    {
      live := live + [file];
      total := total + multiset(disk[file].names);
      NamesInConcat(disk, old(live), [file]);
      NamesInOne(disk, file);
    }

    /**
     `mergeRunGroup`: merges the runs of `group` into a new file, and only then
     removes them. `before` and `after` are the other live runs.
    */
    method MergeRunGroup(ghost before: seq<File>, group: seq<File>, ghost after: seq<File>, file: File)
      requires Conserved() && live == before + group + after
      requires file.Merged? && file !in live
      modifies this
      ensures Conserved() && live == before + [file] + after
      ensures total == old(total)
      ensures widest == if old(widest) < |group| then |group| else old(widest)
      ensures forall f :: f in disk <==> f == file || (f in old(disk) && f !in group)
      ensures forall f :: f in disk && f != file ==> disk[f] == old(disk[f])
    {
      hide *;
      GroupIsApart(before, group, after, file);
      WriteMerged(group, file);
      Replace(before, group, after, file);
      RemoveAll(group);
    }

    lemma GroupIsApart(before: seq<File>, group: seq<File>, after: seq<File>, file: File)
      requires Conserved() && live == before + group + after && file !in live
      ensures file !in group && RunsOn(disk, group) && Disjoint(group, before + [file] + after)
    {
      NamesInConcat(disk, before + group, after);
      NamesInConcat(disk, before, group);
    }

    method RemoveAll(group: seq<File>)
      requires Conserved() && Disjoint(group, live)
      modifies this`disk
      ensures Conserved() && disk == old(disk) - (set f | f in group)
    {
      var k := 0;
      while k < |group|
        invariant 0 <= k <= |group|
        invariant Conserved() && disk == old(disk) - (set f | f in group[..k])
      {
        Remove(group[k]);
        assert group[..k + 1] == group[..k] + [group[k]];
        k := k + 1;
      }
      assert group[..|group|] == group;
    }

    /** Streams the merge of the group into a file, name after name. */
    method WriteMerged(group: seq<File>, file: File)
      requires Conserved() && file !in live && file !in group && RunsOn(disk, group)
      modifies this`disk, this`widest
      ensures Conserved() && RunsOn(disk, group)
      ensures file in disk && disk == old(disk)[file := disk[file]]
      ensures disk[file].Names? && Sorted(disk[file].names)
      ensures multiset(disk[file].names) == NamesIn(disk, group)
      ensures widest == if old(widest) < |group| then |group| else old(widest)
    {
      hide *;
      RunsAreSorted(disk, group);
      var runs := LoadRuns(group);
      Write(file, Names([]));
      var merger := new RunMerger(runs);
      widest := if widest < |group| then |group| else widest;
      ghost var merged := Stream(merger, file);
      LoadUnchanged(old(disk), disk, group);
    }

    /** What the readers of the group will deliver. */
    method LoadRuns(group: seq<File>) returns (runs: seq<seq<string>>)
      requires RunsOn(disk, group)
      ensures All(runs) == NamesIn(disk, group)
      ensures forall i :: 0 <= i < |runs| ==> Sorted(runs[i])
    {
      runs := Load(disk, group);
      RunsAreSorted(disk, group);
    }

    /** Appends a name to a file that holds `written`. */
    method Append(file: File, name: string, ghost was: Disk, ghost written: seq<string>)
      requires Conserved() && file !in live && disk == was[file := Names(written)]
      modifies this`disk
      ensures Conserved() && disk == was[file := Names(written + [name])]
    {
      hide Conserved;
      Write(file, Names(disk[file].names + [name]));
      Overwrite(was, file, Names(written), Names(written + [name]));
    }

    method Stream(merger: RunMerger, file: File) returns (ghost merged: seq<string>)
      requires merger.Valid() && Conserved() && file !in live
      requires file in disk && disk[file] == Names([])
      modifies this`disk, merger, merger.heap
      ensures Conserved() && disk == old(disk)[file := Names(merged)]
      ensures Sorted(merged) && multiset(merged) == old(merger.Remaining())
    {
      hide *;
      ghost var input := merger.Remaining();
      merged := [];
      var next := merger.Next();
      StreamStart(next, input, merger.Remaining());
      while next.Some?
        invariant merger.Valid() && Conserved()
        invariant disk == old(disk)[file := Names(merged)]
        invariant Streaming(merged, next, merger.Remaining(), input)
        decreases merger.Remaining(), next.Some?
      {
        ghost var written := merged;
        merged := merged + [next.value];
        next := WriteAndPull(merger, file, next.value, old(disk), written, input);
      }
      StreamEnd(merged, merger.Remaining(), input);
    }

    /** Writes one name and asks the merger for the next. */
    method WriteAndPull(merger: RunMerger, file: File, name: string,
                        ghost was: Disk, ghost written: seq<string>, ghost input: multiset<string>)
      returns (next: Option<string>)
      requires merger.Valid() && Conserved() && file !in live && disk == was[file := Names(written)]
      requires Streaming(written, Some(name), merger.Remaining(), input)
      modifies this`disk, merger, merger.heap
      ensures merger.Valid() && Conserved() && disk == was[file := Names(written + [name])]
      ensures Streaming(written + [name], next, merger.Remaining(), input)
      ensures if next.Some? then merger.Remaining() < old(merger.Remaining())
              else merger.Remaining() == old(merger.Remaining())
    {
      hide *;
      ghost var left := merger.Remaining();
      Append(file, name, was, written);
      next := merger.Next();
      StreamStep(written, Some(name), left, next, merger.Remaining(), input);
    }

    /** The merged file takes the place of its inputs. */
    ghost method Replace(before: seq<File>, group: seq<File>, after: seq<File>, file: File)
      requires Conserved() && live == before + group + after
      requires file !in live && !file.Manifest?
      requires file in disk && disk[file].Names? && Sorted(disk[file].names)
      requires RunsOn(disk, group) && multiset(disk[file].names) == NamesIn(disk, group)
      modifies this`live
      ensures Conserved() && live == before + [file] + after
    {
      NamesInConcat(disk, before + group, after);
      NamesInConcat(disk, before, group);
      live := before + [file] + after;
      StillRuns(disk, before, group, after, file);
      NamesInConcat(disk, before + [file], after);
      NamesInConcat(disk, before, [file]);
      NamesInOne(disk, file);
    }
  }

  /** Every live run was written before pass `pass`. */
  ghost predicate OlderThan(live: seq<File>, pass: nat) {
    forall f :: f in live && f.Merged? ==> f.pass < pass
  }

  /** The runs merged so far in a pass. */
  function MergedFiles(pass: nat, count: nat): (files: seq<File>)
    ensures |files| == count
    ensures forall f :: f in files ==> f.Merged? && f.pass == pass && f.index < count
  {
    seq(count, i requires 0 <= i < count => Merged(pass, i))
  }

  lemma MergedOneMore(pass: nat, count: nat)
    ensures MergedFiles(pass, count + 1) == MergedFiles(pass, count) + [Merged(pass, count)]
  {
  }

  /** Number of runs after one pass. */
  function Groups(count: nat): nat {
    (count + SORT_MERGE_FAN_IN - 1) / SORT_MERGE_FAN_IN
  }

  /** Forms sorted runs of 256 names and lists them in manifest 0. */
  method FormRuns(d: SortDirectory, entries: seq<string>) returns (runCount: nat)
    requires d.Conserved() && d.live == [] && d.total == multiset{}
    modifies d
    ensures d.Conserved() && d.total == multiset(entries) && d.widest == old(d.widest)
    ensures |d.live| == runCount && OlderThan(d.live, 0)
    ensures Manifest(0) in d.disk && d.disk[Manifest(0)] == Files(d.live)
    ensures runCount == (|entries| + 255) / 256
    ensures forall f :: f in d.live ==> f in d.disk && d.disk[f].Names? && |d.disk[f].names| <= 256
  {
    hide SortDirectory.Conserved, Formed, OlderThan, Collected, ShortRuns;
    NoManifest(d);
    CollectedNone(entries);
    d.Write(Manifest(0), Files([]));
    NoRunIsLong(d.disk);
    var names := [];
    var runIndex := 0;
    var k := 0;
    while k < |entries|
      invariant 0 <= k <= |entries|
      invariant |names| < SORT_RUN_SIZE
      invariant d.Conserved() && d.widest == old(d.widest)
      invariant Collected(d.total, names, entries, k)
      invariant Formed(d.live, runIndex)
      invariant k == 256 * runIndex + |names| && ShortRuns(d.disk, d.live)
      invariant Manifest(0) in d.disk && d.disk[Manifest(0)] == Files(d.live)
    {
      CollectedOne(d.total, names, entries, k);
      names := names + [entries[k]];
      k := k + 1;
      if |names| == SORT_RUN_SIZE {
        CollectedRun(d.total, names, entries, k);
        ListRun(d, names, runIndex);
        runIndex := runIndex + 1;
        names := [];
      }
    }
    CollectedAll(d.total, names, entries);
    runCount := runIndex;
    if names != [] {
      ListRun(d, names, runIndex);
      runCount := runCount + 1;
    }
    FormedIsOlder(d.live, runCount);
    RunsAreShort(d.disk, d.live);
  }

  /** The first `k` entries are in runs or waiting for one. */
  ghost predicate Collected(total: multiset<string>, names: seq<string>, entries: seq<string>, k: nat) {
    k <= |entries| && total + multiset(names) == multiset(entries[..k])
  }

  lemma CollectedNone(entries: seq<string>)
    ensures Collected(multiset{}, [], entries, 0)
  {
    assert entries[..0] == [];
  }

  lemma CollectedOne(total: multiset<string>, names: seq<string>, entries: seq<string>, k: nat)
    requires Collected(total, names, entries, k) && k < |entries|
    ensures Collected(total, names + [entries[k]], entries, k + 1)
  {
    assert entries[..k + 1] == entries[..k] + [entries[k]];
    assert multiset(names + [entries[k]]) == multiset(names) + multiset{entries[k]};
  }

  lemma CollectedRun(total: multiset<string>, names: seq<string>, entries: seq<string>, k: nat)
    requires Collected(total, names, entries, k)
    ensures Collected(total + multiset(names), [], entries, k)
  {}

  lemma CollectedAll(total: multiset<string>, names: seq<string>, entries: seq<string>)
    requires Collected(total, names, entries, |entries|)
    ensures total + multiset(names) == multiset(entries)
    ensures names == [] ==> total == multiset(entries)
  {
    assert entries[..|entries|] == entries;
  }

  /** Every run holds at most 256 names. */
  ghost predicate ShortRuns(disk: Disk, live: seq<File>) {
    forall f :: f in live ==> f in disk && disk[f].Names? && |disk[f].names| <= 256
  }

  lemma RunsAreShort(disk: Disk, live: seq<File>)
    requires ShortRuns(disk, live)
    ensures forall f :: f in live ==> f in disk && disk[f].Names? && |disk[f].names| <= 256
  {}

  lemma NoRunIsLong(disk: Disk)
    ensures ShortRuns(disk, [])
  {}

  lemma SortKeepsLength(names: seq<string>)
    ensures |SortNames(names)| == |names|
  {
    SortNamesSorts(names);
    assert |multiset(names)| == |names|;
    assert |multiset(SortNames(names))| == |SortNames(names)|;
  }

  /** The runs formed so far. */
  ghost predicate Formed(live: seq<File>, count: nat) {
    |live| == count && forall f :: f in live ==> f.Run? && f.index < count
  }

  lemma FormedIsOlder(live: seq<File>, count: nat)
    requires Formed(live, count)
    ensures |live| == count && OlderThan(live, 0)
  {
  }

  lemma {:induction false} NoManifest(d: SortDirectory)
    requires d.Conserved()
    ensures forall p :: Manifest(p) !in d.live
    ensures d.live == [] ==> Formed(d.live, 0)
  {
  }

  /** Writes one run and appends its path to the manifest. */
  method ListRun(d: SortDirectory, names: seq<string>, index: nat)
    requires d.Conserved() && Formed(d.live, index)
    requires Manifest(0) in d.disk && d.disk[Manifest(0)] == Files(d.live)
    requires |names| <= 256 && ShortRuns(d.disk, d.live)
    modifies d`disk, d`live, d`total
    ensures ShortRuns(d.disk, d.live)
    ensures d.Conserved() && Formed(d.live, index + 1)
    ensures d.total == old(d.total) + multiset(names)
    ensures Manifest(0) in d.disk && d.disk[Manifest(0)] == Files(d.live)
  {
    SortKeepsLength(names);
    var file := d.WriteRun(names, index);
    d.Write(Manifest(0), Files(d.disk[Manifest(0)].files + [file]));
  }

  /**
   Half way through a pass: `k` lines of the manifest are read, the last few of
   them wait in `group`, the others were merged sixteen at a time.
  */
  ghost predicate PassState(live: seq<File>, lines: seq<File>, pass: nat, k: nat, group: seq<File>, mergedIndex: nat) {
    && |group| <= k <= |lines|
    && group == lines[k - |group|..k]
    && live == MergedFiles(pass, mergedIndex) + group + lines[k..]
    && k == mergedIndex * SORT_MERGE_FAN_IN + |group|
    && OlderThan(lines, pass)
    && forall p :: Manifest(p) !in live
  }

  lemma PassStarts(lines: seq<File>, pass: nat)
    requires OlderThan(lines, pass) && forall p :: Manifest(p) !in lines
    ensures PassState(lines, lines, pass, 0, [], 0)
  {
    assert MergedFiles(pass, 0) + [] + lines[0..] == lines;
  }

  lemma LineRead(live: seq<File>, lines: seq<File>, pass: nat, k: nat, group: seq<File>, mergedIndex: nat)
    requires PassState(live, lines, pass, k, group, mergedIndex) && k < |lines|
    ensures PassState(live, lines, pass, k + 1, group + [lines[k]], mergedIndex)
  {
    var longer := group + [lines[k]];
    assert lines[k..] == [lines[k]] + lines[k + 1..];
    assert MergedFiles(pass, mergedIndex) + group + lines[k..]
        == MergedFiles(pass, mergedIndex) + longer + lines[k + 1..];
  }

  /** A file of this pass is not among the live runs before it is written. */
  lemma TargetIsFresh(live: seq<File>, lines: seq<File>, pass: nat, k: nat, group: seq<File>, mergedIndex: nat)
    requires PassState(live, lines, pass, k, group, mergedIndex)
    ensures live == MergedFiles(pass, mergedIndex) + group + lines[k..]
    ensures Merged(pass, mergedIndex) !in live
    ensures forall p :: Manifest(p) !in group && Manifest(p) !in live
  {
    forall f | f in group || f in lines[k..]
      ensures f in lines
    {
    }
  }

  lemma GroupMerged(live: seq<File>, lines: seq<File>, pass: nat, k: nat, group: seq<File>, mergedIndex: nat)
    requires PassState(live, lines, pass, k, group, mergedIndex)
    requires |group| == SORT_MERGE_FAN_IN
    ensures PassState(MergedFiles(pass, mergedIndex) + [Merged(pass, mergedIndex)] + lines[k..],
                      lines, pass, k, [], mergedIndex + 1)
  {
    MergedOneMore(pass, mergedIndex);
    var live' := MergedFiles(pass, mergedIndex) + [Merged(pass, mergedIndex)] + lines[k..];
    assert live' == MergedFiles(pass, mergedIndex + 1) + [] + lines[k..];
    forall p
      ensures Manifest(p) !in live'
    {
      assert forall f :: f in lines[k..] ==> f in live;
    }
  }

  /** When all lines are read and the last group is merged, only files of this pass are live. */
  lemma PassEnds(live: seq<File>, lines: seq<File>, pass: nat, group: seq<File>, mergedIndex: nat)
    requires PassState(live, lines, pass, |lines|, group, mergedIndex) && |group| < SORT_MERGE_FAN_IN
    ensures group == [] ==> live == MergedFiles(pass, mergedIndex) && mergedIndex == Groups(|lines|)
    ensures group != [] ==>
              && MergedFiles(pass, mergedIndex) + [Merged(pass, mergedIndex)] + lines[|lines|..]
                 == MergedFiles(pass, mergedIndex + 1)
              && mergedIndex + 1 == Groups(|lines|)
  {
    MergedOneMore(pass, mergedIndex);
    assert live == MergedFiles(pass, mergedIndex) + group;
  }

  /** The next manifest lists what this pass merged. */
  ghost predicate Listed(disk: Disk, pass: nat, mergedIndex: nat) {
    Manifest(pass + 1) in disk && disk[Manifest(pass + 1)] == Files(MergedFiles(pass, mergedIndex))
  }

  lemma ListedNone(disk: Disk, pass: nat)
    requires Manifest(pass + 1) in disk && disk[Manifest(pass + 1)] == Files([])
    ensures Listed(disk, pass, 0)
  {}

  /** Merges one group and appends its path to the next manifest. */
  method MergeAndList(d: SortDirectory, ghost lines: seq<File>, pass: nat, ghost k: nat,
                      group: seq<File>, mergedIndex: nat)
    requires d.Conserved() && PassState(d.live, lines, pass, k, group, mergedIndex)
    requires Listed(d.disk, pass, mergedIndex)
    modifies d
    ensures d.Conserved() && d.total == old(d.total)
    ensures k <= |lines| && d.live == MergedFiles(pass, mergedIndex) + [Merged(pass, mergedIndex)] + lines[k..]
    ensures Listed(d.disk, pass, mergedIndex + 1)
    ensures d.widest == Max(old(d.widest), |group|)
  {
    var file := Merged(pass, mergedIndex);
    TargetIsFresh(d.live, lines, pass, k, group, mergedIndex);
    MergedOneMore(pass, mergedIndex);
    hide SortDirectory.Conserved, PassState;
    d.MergeRunGroup(MergedFiles(pass, mergedIndex), group, lines[k..], file);
    NoManifest(d);
    d.Write(Manifest(pass + 1), Files(d.disk[Manifest(pass + 1)].files + [file]));
  }

  method MergeFullGroup(d: SortDirectory, ghost lines: seq<File>, pass: nat, ghost k: nat,
                      group: seq<File>, mergedIndex: nat)
    requires d.Conserved() && PassState(d.live, lines, pass, k, group, mergedIndex)
    requires Listed(d.disk, pass, mergedIndex) && |group| == SORT_MERGE_FAN_IN
    modifies d
    ensures d.Conserved() && d.total == old(d.total)
    ensures PassState(d.live, lines, pass, k, [], mergedIndex + 1) && Listed(d.disk, pass, mergedIndex + 1)
    ensures d.widest == Max(old(d.widest), SORT_MERGE_FAN_IN)
  {
    hide SortDirectory.Conserved, PassState, Listed, MergedFiles;
    GroupMerged(d.live, lines, pass, k, group, mergedIndex);
    MergeAndList(d, lines, pass, k, group, mergedIndex);
  }

  /** What is left when the manifest ends, fewer than sixteen runs. */
  method MergeLastGroup(d: SortDirectory, ghost lines: seq<File>, pass: nat, group: seq<File>, mergedIndex: nat)
    returns (count: nat)
    requires d.Conserved() && PassState(d.live, lines, pass, |lines|, group, mergedIndex)
    requires Listed(d.disk, pass, mergedIndex) && |group| < SORT_MERGE_FAN_IN
    modifies d
    ensures d.Conserved() && d.total == old(d.total)
    ensures d.live == MergedFiles(pass, count) && Listed(d.disk, pass, count) && count == Groups(|lines|)
    ensures d.widest <= Max(old(d.widest), SORT_MERGE_FAN_IN)
  {
    hide SortDirectory.Conserved, PassState, Listed, MergedFiles, Groups;
    count := mergedIndex;
    PassEnds(d.live, lines, pass, group, mergedIndex);
    if group != [] {
      MergeAndList(d, lines, pass, |lines|, group, mergedIndex);
      count := mergedIndex + 1;
    }
  }

  lemma PassLeaves(d: SortDirectory, pass: nat, mergedIndex: nat)
    requires d.Conserved() && d.live == MergedFiles(pass, mergedIndex) && Listed(d.disk, pass, mergedIndex)
    ensures OlderThan(d.live, pass + 1) && |d.live| == mergedIndex && Manifest(pass) !in d.live
    ensures Manifest(pass + 1) in d.disk && d.disk[Manifest(pass + 1)] == Files(d.live)
  {
  }

  /** Merges the rest and removes the manifest of the pass. */
  method EndPass(d: SortDirectory, ghost lines: seq<File>, pass: nat, group: seq<File>, mergedIndex: nat)
    returns (count: nat)
    requires d.Conserved() && PassState(d.live, lines, pass, |lines|, group, mergedIndex)
    requires Listed(d.disk, pass, mergedIndex) && |group| < SORT_MERGE_FAN_IN
    modifies d
    ensures d.Conserved() && d.total == old(d.total) && OlderThan(d.live, pass + 1)
    ensures |d.live| == count == Groups(|lines|)
    ensures Manifest(pass + 1) in d.disk && d.disk[Manifest(pass + 1)] == Files(d.live)
    ensures d.widest <= Max(old(d.widest), SORT_MERGE_FAN_IN)
  {
    hide SortDirectory.Conserved, PassState, OlderThan, Listed, MergedFiles, Groups, Max;
    count := MergeLastGroup(d, lines, pass, group, mergedIndex);
    PassLeaves(d, pass, count);
    d.Remove(Manifest(pass));
  }

  /** One line of the manifest joins the group; a full group is merged. */
  method ReadLine(d: SortDirectory, lines: seq<File>, pass: nat, k: nat, waiting: seq<File>, merged: nat)
    returns (group: seq<File>, mergedIndex: nat)
    requires d.Conserved() && PassState(d.live, lines, pass, k, waiting, merged) && Listed(d.disk, pass, merged)
    requires k < |lines| && |waiting| < SORT_MERGE_FAN_IN
    modifies d
    ensures d.Conserved() && d.total == old(d.total) && |group| < SORT_MERGE_FAN_IN
    ensures PassState(d.live, lines, pass, k + 1, group, mergedIndex) && Listed(d.disk, pass, mergedIndex)
    ensures d.widest <= Max(old(d.widest), SORT_MERGE_FAN_IN)
  {
    hide SortDirectory.Conserved, PassState, Listed;
    LineRead(d.live, lines, pass, k, waiting, merged);
    group, mergedIndex := waiting + [lines[k]], merged;
    if |group| == SORT_MERGE_FAN_IN {
      MergeFullGroup(d, lines, pass, k + 1, group, merged);
      return [], merged + 1;
    }
  }

  /** One merge pass: every live run is merged once, at most sixteen at a time. */
  method MergePass(d: SortDirectory, pass: nat) returns (mergedIndex: nat)
    requires d.Conserved() && OlderThan(d.live, pass)
    requires Manifest(pass) in d.disk && d.disk[Manifest(pass)] == Files(d.live)
    modifies d
    ensures d.Conserved() && d.total == old(d.total) && OlderThan(d.live, pass + 1)
    ensures |d.live| == mergedIndex == (|old(d.live)| + 15) / 16
    ensures Manifest(pass + 1) in d.disk && d.disk[Manifest(pass + 1)] == Files(d.live)
    ensures d.widest <= Max(old(d.widest), SORT_MERGE_FAN_IN)
  {
    hide SortDirectory.Conserved, PassState, OlderThan, Listed, MergedFiles;
    NoManifest(d);
    var lines := d.disk[Manifest(pass)].files;
    d.Write(Manifest(pass + 1), Files([]));
    var group := [];
    mergedIndex := 0;
    var k := 0;
    PassStarts(lines, pass);
    ListedNone(d.disk, pass);
    while k < |lines|
      invariant 0 <= k <= |lines| && |group| < SORT_MERGE_FAN_IN
      invariant d.Conserved() && d.total == old(d.total)
      invariant PassState(d.live, lines, pass, k, group, mergedIndex)
      invariant Listed(d.disk, pass, mergedIndex)
      invariant d.widest <= Max(old(d.widest), SORT_MERGE_FAN_IN)
    {
      group, mergedIndex := ReadLine(d, lines, pass, k, group, mergedIndex);
      k := k + 1;
    }
    mergedIndex := EndPass(d, lines, pass, group, mergedIndex);
  }

  lemma FewerGroups(count: nat)
    requires count > SORT_MERGE_FAN_IN
    ensures 0 < (count + 15) / 16 < count
  {
  }

  /**
   `sortedDirectoryNames`: whatever the number of entries and the order in which
   the directory lists them, the names come out sorted, each as often as it went
   in, and no merge ever opens more than sixteen readers.
  */
  method SortedDirectoryNames(entries: seq<string>) returns (names: seq<string>, ghost widest: nat)
    ensures Sorted(names) && multiset(names) == multiset(entries)
    ensures names == SortNames(entries)
    ensures forall i, j :: 0 <= i < j < |names| ==> Precedes(names[i], names[j])
    ensures widest <= 16
  {
    hide SortDirectory.Conserved, OlderThan, Groups, Sorted, SortNames, RunMerger.Valid, RunMerger.Remaining;
    var d := new SortDirectory();
    var runCount := FormRuns(d, entries);
    var pass := 0;
    while runCount > SORT_MERGE_FAN_IN
      invariant d.Conserved() && d.total == multiset(entries)
      invariant |d.live| == runCount && OlderThan(d.live, pass)
      invariant Manifest(pass) in d.disk && d.disk[Manifest(pass)] == Files(d.live)
      invariant d.widest <= SORT_MERGE_FAN_IN
      decreases runCount
    {
      FewerGroups(runCount);
      runCount := MergePass(d, pass);
      pass := pass + 1;
    }
    ConservedRuns(d);
    names := YieldMerge(d, d.disk[Manifest(pass)].files);
    widest := Max(d.widest, runCount);
    SortNamesSorts(entries);
    SortedIsUnique(names, SortNames(entries));
    NamesPrecede(names);
  }

  lemma NamesPrecede(names: seq<string>)
    requires Sorted(names)
    ensures forall i, j :: 0 <= i < j < |names| ==> Precedes(names[i], names[j])
  {
    hide Leq, Precedes;
    forall i, j | 0 <= i < j < |names|
      ensures Precedes(names[i], names[j])
    {
      LeqIsPrecedes(names[i], names[j]);
    }
  }

  lemma ConservedRuns(d: SortDirectory)
    requires d.Conserved()
    ensures RunsOn(d.disk, d.live) && NamesIn(d.disk, d.live) == d.total
  {
  }

  /** The last merge, whose names go to the caller. */
  method YieldMerge(d: SortDirectory, finalRuns: seq<File>) returns (names: seq<string>)
    requires RunsOn(d.disk, finalRuns)
    ensures Sorted(names) && multiset(names) == NamesIn(d.disk, finalRuns)
  {
    hide *;
    var runs := d.LoadRuns(finalRuns);
    var merger := new RunMerger(runs);
    ghost var input := merger.Remaining();
    names := [];
    var next := merger.Next();
    StreamStart(next, input, merger.Remaining());
    while next.Some?
      invariant fresh(merger) && fresh(merger.heap) && merger.Valid()
      invariant Streaming(names, next, merger.Remaining(), input)
      decreases merger.Remaining(), next.Some?
    {
      ghost var yielded, left, before := next, merger.Remaining(), names;
      names := names + [next.value];
      next := merger.Next();
      StreamStep(before, yielded, left, next, merger.Remaining(), input);
    }
    StreamEnd(names, merger.Remaining(), input);
  }

  lemma StillRuns(disk: Disk, before: seq<File>, group: seq<File>, after: seq<File>, file: File)
    requires RunsOn(disk, before + group + after) && file !in before + group + after
    requires !file.Manifest? && file in disk && disk[file].Names? && Sorted(disk[file].names)
    ensures RunsOn(disk, before + [file] + after)
  {
    RunsConcat(disk, before + group, after);
    RunsConcat(disk, before, group);
    assert file !in before && file !in after && file !in group;
    assert forall f :: f in before ==> f in before + group;
    RunsConcat(disk, before, [file]);
    RunsConcat(disk, before + [file], after);
  }

  function Max(a: nat, b: nat): nat {
    if a < b then b else a
  }

  /** Half way through a merge: `merged` is written, `next` is at hand, `left` is still to come. */
  ghost predicate Streaming(merged: seq<string>, next: Option<string>, left: multiset<string>,
      input: multiset<string>) {
    && Sorted(merged)
    && match next
       case None => multiset(merged) == input
       case Some(name) =>
         && multiset(merged) + multiset{name} + left == input
         && (forall x :: x in left ==> Leq(name, x))
         && forall i :: 0 <= i < |merged| ==> Leq(merged[i], name)
  }

  lemma Overwrite(disk: Disk, file: File, a: Content, b: Content)
    ensures disk[file := a][file := b] == disk[file := b]
  {}

  lemma StreamStart(next: Option<string>, input: multiset<string>, left: multiset<string>)
    requires next.None? ==> input == multiset{}
    requires next.Some? ==> next.value in input && left == input - multiset{next.value}
    requires next.Some? ==> forall x :: x in input ==> Leq(next.value, x)
    ensures Streaming([], next, left, input)
  {
  }

  lemma StreamEnd(merged: seq<string>, left: multiset<string>, input: multiset<string>)
    requires Streaming(merged, None, left, input)
    ensures Sorted(merged) && multiset(merged) == input
  {
  }

  lemma {:induction false} StreamStep(merged: seq<string>, next: Option<string>, left: multiset<string>,
                   next': Option<string>, left': multiset<string>, input: multiset<string>)
    requires next.Some? && Streaming(merged, next, left, input)
    requires next'.None? ==> left == multiset{}
    requires next'.Some? ==> next'.value in left && left' == left - multiset{next'.value}
    requires next'.Some? ==> forall x :: x in left ==> Leq(next'.value, x)
    ensures Streaming(merged + [next.value], next', left', input)
  {
    var grown := merged + [next.value];
    assert multiset(grown) == multiset(merged) + multiset{next.value};
    if next'.Some? {
      assert left == multiset{next'.value} + left';
      assert multiset(grown) + multiset{next'.value} + left' == multiset(grown) + left;
    }
    Extends(merged, next.value, next');
  }

  /** Appending the next name of a merge keeps the written list sorted. */
  lemma Extends(written: seq<string>, name: string, next: Option<string>)
    requires Sorted(written)
    requires forall i :: 0 <= i < |written| ==> Leq(written[i], name)
    requires next.Some? ==> Leq(name, next.value)
    ensures Sorted(written + [name])
    ensures next.Some? ==> forall i :: 0 <= i <= |written| ==> Leq((written + [name])[i], next.value)
  {
    if next.Some? {
      forall i | 0 <= i < |written|
        ensures Leq(written[i], next.value)
      {
        LeqIsTotalOrder(written[i], name, next.value);
      }
    }
  }
}
