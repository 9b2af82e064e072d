# Josh Room verification model

Josh Room saves a workspace folder as a "Room" and brings it back elsewhere. Most of the logic that
must not go wrong lives in the VS Code extension and in one installer script. This project models
that logic in Dafny and proves what the code promises about it, for every input, every run and every
interleaving. Where a promise turns out to be false of the code, the model keeps the code as it is,
shows a concrete failing input, and proves the exact condition under which the promise holds.

`dafny verify dfyconfig.toml` checks the whole project. One file is one module:

- `Sequences`: splitting and joining on a separator, and what growth does to a split.
- `Glob`: `*`, `?` and `**` with their declarative meaning, the memoized matcher, accepted patterns.
- `CapturePolicy`: compiled ignore rules, the exclusion test with its `.git` override, the rendered excludes.
- `PolicyText`: the same policy read off the text of the ignore file, and why one does not compile.
- `PolicyAgreement`: for which rules the exclusion test and the excludes agree on every path.
- `Utf8Order`, `NameOrder`: byte order of UTF-8 names, and sorted lists as a function of their names.
- `MergeHeap`, `RunMerge`, `ExternalSort`: the external merge sort of directory names, bottom up:
  the heap, the merge of sorted runs, then runs, manifests and passes on a directory of temporary files.
- `Traversal`, `WorkspaceNodes`: the pruned workspace walk, the text of the workspace fingerprint, and what it tells apart.
- `Baseline`: the dirty check with its numbered, interleaved fingerprint computations.
- `ProcessLock`: the lock directory, as steps of any number of processes that stall, die and race.
- `LockHandover`: releasing the lock, waiting for it, and whose markers are there at any time.
- `TarReader`, `TarWriter`: the source archive reader, and the ustar writer that it undoes
  ("ustar Interchange Format" in the pax utility of IEEE Std 1003.1).
- `TarMembers`: the reader in bytes: refused members, member types, field formats, and the tree of an ordinary archive.
- `TextLines`, `LogFollower`, `StderrReader`: the two incremental line readers.
- `SaveReceipt`: the module variables that decide whether "already saved" may be answered.
- `RoomSwitch`: exchanging a Room folder for another recovery point, with a fault at any operation.
- `ResticInstall`, `LoneInstall`: concurrent, crashing installers of the pinned restic binary; one of them alone.
- `HexDigests`: digests as text.

Code that updates variables, objects or files in place is a class or a method with loops, proved
against functions on values; code made of expressions is functions. The lock and the installer, whose
processes interleave, are step functions on a shared state, and their results are about all runs.

## What the proofs found

- **Lock.** Bounding how long a directory stays without a complete marker (`w`) is not enough. A
  reclaimer that reads a half-written marker looks at the directory's age only later (`d`); by then
  the marker may be complete and its owner alive. `ProcessLock.SafeExactly`: the lock excludes if
  and only if `w + d` is below the stale age of 30 seconds. When a marker is written in one step,
  `ProcessLock.LiveHolderIsNotRobbed` needs no timing at all.
- **Excludes.** In full-repository mode the policy that `**/venv` compiles to also renders an exclude for
  `.git/venv`, which the direct test keeps (`CapturePolicy.RepositoryInsidesAreKept`).
  `CapturePolicy.FullRepositoryAgreesExactly`: the two readings agree on a path if and only if no rule
  reaches it only at or below its first `.git`. `PolicyAgreement.OneRuleAgreesExactly`: a single rule makes
  them agree on every path if and only if it has more than one component, `**` at most at its end, and no
  other component that matches `.git`.
- **Fingerprint.** A line feed in a symbolic link's target can make two different workspaces hash the
  same text (`Traversal.LineFeedInLinkTargetIsAmbiguous`). `Traversal.TextIsUnambiguousExactly`: the text
  can be read in one way only if and only if no fingerprint but the last, and no path but the first,
  holds a line feed.
- **Save receipt.** `setRoomState` returns early when the Room is already clean, so an edit event
  for a document without unsaved changes (the editor reloads a file, say) makes the clean generation lag.
  The next successful Save stores a receipt that is not used while the Room stays clean (`SaveReceipt.StaleCleanIsNeverTrusted`);
  `SaveReceipt.MintedReceiptIsTrustedExactly` gives the exact condition. The error is on the safe side.
- **Folder switch.** A failure reported after the new tree is in place (removing the backup, writing the index)
  leaves the new tree, not the old one; the contract of `RoomSwitch.Disk.SwitchMaterialization`
  separates the two cases by `promoted`.
- **Archive reader: files with a closing slash.** Archives older than ustar mark a directory by type NUL
  and a closing slash. The reader takes such a member for a regular file, cannot open it, and stops with an
  error (`TarWriter.ClosingSlashEndsReading`, `TarWriter.OldDirectoryEndsReading`).
  `TarWriter.RepresentedExactly` says which members can be placed at all, and for exactly those the round
  trip is proved.
- **Archive reader: sizes.** A size field such as `-1000` (octal, -512) makes the offset stand still, so the
  loop never ends; `TarReader.StalledIsEndless` is a whole archive of that kind. The loop goes round for ever
  if and only if it comes back to an offset (`TarReader.EndlessExactly`), and it always ends when no header
  at a block boundary has a size of -512 or less (`TarReader.ForwardSizesEnd`). Sizes from -1024 to -1535 in
  the first header lead to an empty header, and the loop ends.
- **Archive reader: destination.** The safety test looks at the whole member and the destination at the
  stripped one, so `a/../x` is accepted and placed outside (`TarReader.AcceptedMemberCanLeave`). A member
  stays inside whatever the destination is if and only if, after its first component, `..` never outnumbers
  the names before it (`TarReader.MemberStaysInsideExactly`).
- **Stderr reader.** A line of 4096 code units is lost when a chunk ends between its carriage return and
  its line feed; `StderrReader.KeepsShortLinesExactly` shows that this is the only case.
- **Baseline.** A check in flight loses its result when enough other paths are checked meanwhile, even if
  it is the newest on its path: `Baseline.NewestCheckCountsExactly` counts how many, and
  `Baseline.SomeNewestCheckIsLost` is a run. `check` and `compare` disagree exactly when no saved
  fingerprint is set. After a reset or a capture the numbers start again, and a check that was in flight counts if and
  only if the check with its number since then is on the same path, is the newest there and is not
  forgotten (`Baseline.StaleCheckCountsExactly`).
- **Installer.** Two first installs can collide: one reports the executable that the other just
  placed as an unsafe type. `ResticInstall.NeverFailsExactly`: with good inputs no install ever fails if
  and only if there is one installer at most or the executable is there already. The digest check itself
  never fails.

## Model

| member | source | states |
|---|---|---|
| Glob.SegmentMeaning | vscode-extension/dirty.js:38-46 | a path component matches iff it can be cut into pieces, one per pattern character: any slash-free text for `*`, one character for `?`, itself otherwise |
| Glob.LiteralMatchesItself | vscode-extension/dirty.js:38-46 | a pattern component without wildcards matches exactly itself |
| Glob.GlobMeaning | vscode-extension/dirty.js:48-67 | the recursive matcher accepts a path iff the path can be cut into one piece per pattern component, any piece for `**` and one matching component otherwise |
| Glob.GlobRun.Match | vscode-extension/dirty.js:49-65 | every memo entry ever stored is the right answer for its two indices, the answer returned is right, and no entry is lost or changed |
| Glob.GlobMatches | vscode-extension/dirty.js:48-67 | the memoized matcher decides the declarative meaning, for all patterns and paths |
| Glob.AcceptedIsWellFormed | vscode-extension/dirty.js:20-36 | an accepted pattern has good components only, no two adjacent `**`, and at least one component other than `**` |
| Glob.AcceptedKeepsLanguage | vscode-extension/dirty.js:25-35 | dropping repeated `**` changes no accepted path: the compiled components mean what the written pattern means |
| Glob.AcceptedExactly | vscode-extension/dirty.js:20-36 | which rule texts are accepted, on the components as written, and the error of every other one: not empty, at most 1024 code units, no backslash or drive, at most 128 components, each a name without `!`, `[` and `]`, two stars in a row only as a whole component, and not only such components |
| Glob.Utf16LengthCounts | vscode-extension/dirty.js:22 | the length limit counts code units: two for characters outside the basic plane |
| Glob.CollapseKeepsOthers | vscode-extension/dirty.js:27 | collapsing drops nothing but `**` |
| CapturePolicy.CompiledIsValid | vscode-extension/dirty.js:79-121 | whatever compiles has well-formed patterns and a literal runtime path |
| CapturePolicy.CompilesExactly | vscode-extension/dirty.js:87-121 | which inputs compile: counts, sizes, accepted rules, no reinclusion, a literal runtime path, and no mode directive or one that names a mode; what they compile to: that mode, the patterns of the defaults and then of the rules, in order, and the normalized runtime path; everything else is an error |
| PolicyText.ModeFromText | vscode-extension/dirty.js:114-121 | the mode of a compiled policy from the text alone: source-only iff exactly one line, trimmed, starts with the directive and names that mode after the colon; full-repository iff no line does or the only one names that |
| PolicyText.RuntimeOrModeFails | vscode-extension/dirty.js:105-121 | with good defaults and rules: a refused runtime path, a wildcard in it, more than one directive or another mode name is its own error, and everything else compiles |
| PolicyText.CompileFails | vscode-extension/dirty.js:87-104 | no defaults, too many, the first refused default, too long a file, the first refused rule: each with its own error |
| PolicyText.OneLineAsks | vscode-extension/dirty.js:114-121 | a file of the one line `# josh-room capture-mode: source-only` compiles to a source-only policy |
| PolicyText.RulesAreLines | vscode-extension/dirty.js:97-99 | the rules are the trimmed lines in order, without blank lines and comments |
| PolicyText.TrimIs | vscode-extension/dirty.js:98-114 | trimming drops exactly the ECMAScript white space on both sides |
| CapturePolicy.ExclusionByComponents | vscode-extension/dirty.js:130-142 | the `.git` recursion in closed form: a path is excluded iff it has a `.git` component in source-only mode, or a rule or the runtime covers its part above the first `.git` |
| CapturePolicy.OtherPathsAreKept | vscode-extension/dirty.js:131-134 | a path is never excluded when it is empty, holds a backslash, or has a part that is empty, `.` or `..` |
| CapturePolicy.ExclusionDescends | vscode-extension/dirty.js:130-142 | in both modes everything below an excluded path is excluded |
| CapturePolicy.RuleRenders | vscode-extension/dirty.js:69-77 | one rule covers a path iff one of the two excludes rendered from it matches the whole path |
| CapturePolicy.DistinctKeepsMembers | vscode-extension/dirty.js:156 | removing duplicates keeps every exclude, once |
| CapturePolicy.RenderedInOrder | vscode-extension/dirty.js:144-153 | the excludes come rule by rule, in the order of the rules |
| CapturePolicy.DistinctInOrder | vscode-extension/dirty.js:156 | an exclude is appended iff it is new |
| CapturePolicy.ExcludesMeaning | vscode-extension/dirty.js:143-157 | the rendered list as a whole matches a path iff a rule or the runtime covers it, or it has a `.git` component in source-only mode |
| CapturePolicy.SourceOnlyAgrees | vscode-extension/dirty.js:130-157 | source-only mode: a normalized path is excluded iff some exclude matches it |
| CapturePolicy.AgreesWithoutGit | vscode-extension/dirty.js:130-157 | the same in either mode for paths without a `.git` component |
| CapturePolicy.ExcludedIsMatched | vscode-extension/dirty.js:130-157 | every excluded path is matched by some exclude, in either mode |
| CapturePolicy.FullRepositoryAgreesAboveGit | vscode-extension/dirty.js:135-136 | full-repository mode, exactly: excluded iff the excludes match the part above the first `.git` |
| CapturePolicy.FullRepositoryAgreesExactly | vscode-extension/dirty.js:130-157 | full-repository mode: exclusion and the excludes agree on a path iff no rule or runtime path covers it without covering its part above the first `.git` |
| PolicyAgreement.ShunningAgrees | vscode-extension/dirty.js:130-157 | full-repository mode: when every rule has more than one component, `**` at most at its end and no other component that matches `.git`, and the runtime path has no `.git`, exclusion and the excludes agree on every path |
| PolicyAgreement.OneRuleAgreesExactly | vscode-extension/dirty.js:69-157 | for a policy of one accepted rule, exclusion and the excludes agree on every path iff the rule is of that kind |
| CapturePolicy.RepositoryInsidesAreKept | vscode-extension/dirty.js:143-157 | a compiled policy and a path below `.git` that an exclude matches and the direct test keeps |
| Utf8Order.Utf8OrderIsCodePointOrder | vscode-extension/dirty.js:278-280 | comparing UTF-8 encodings byte by byte is comparing code points (RFC 3629, sections 1 and 3) |
| Utf8Order.LeqIsTotalOrder | vscode-extension/dirty.js:278-280 | the comparison is total, antisymmetric and transitive, and zero only for equal names |
| Utf8Order.LeqIsPrecedes | vscode-extension/dirty.js:278-280 | a name comes before another iff it is its beginning or has the smaller code point where they first differ |
| Utf8Order.EncodingReadsBack | vscode-extension/dirty.js:279 | the bytes of a code point read back by the table of RFC 3629 section 3 |
| NameOrder.SortedIsUnique | vscode-extension/dirty.js:294 | a sorted list is determined by its names, so "sorted permutation" names one list |
| NameOrder.SortIgnoresArrival | vscode-extension/dirty.js:294 | the sorted list does not depend on the order of arrival |
| MergeHeap.SwapUp | vscode-extension/dirty.js:307-312 | one upward swap repairs the link above an item and breaks none elsewhere |
| MergeHeap.SwapDown | vscode-extension/dirty.js:320-329 | one downward swap with the smallest child repairs the links below an item |
| MergeHeap.RootIsLeast | vscode-extension/dirty.js:315 | no item of a heap is less than its root |
| MergeHeap.SmallestChild | vscode-extension/dirty.js:321-325 | the chosen index holds the least of an item and its children |
| MergeHeap.MinHeap.Push | vscode-extension/dirty.js:304-313 | stays a heap and gains exactly the new item |
| MergeHeap.MinHeap.Pop | vscode-extension/dirty.js:314-332 | stays a heap, loses exactly the returned item, and that item was least |
| RunMerge.RunMerger.Next | vscode-extension/dirty.js:338-343 | yields the least remaining name and removes one occurrence of it; ends only when nothing remains |
| RunMerge.RunMerger.Start | vscode-extension/dirty.js:334-337 | the heap starts with one entry, the first name, for every non-empty run |
| RunMerge.Taken | vscode-extension/dirty.js:338-342 | taking the heap's least item keeps one heap entry per unfinished run and the position of every reader |
| ExternalSort.SortDirectory.WriteRun | vscode-extension/dirty.js:293-299 | the new run holds its names sorted and overwrites no live run; the names of all live runs grow by exactly its names |
| ExternalSort.SortDirectory.MergeRunGroup | vscode-extension/dirty.js:349-359 | the merged file replaces its inputs among the live runs, the names of all live runs stay the same as a multiset, exactly the inputs are deleted, no other file changes, and as many readers are open as the group has runs |
| ExternalSort.SortDirectory.WriteMerged | vscode-extension/dirty.js:351-353 | the merged file is sorted and holds the names of its inputs, which are still there while it is written |
| ExternalSort.FormRuns | vscode-extension/dirty.js:368-396 | the live runs hold the directory's names, at most 256 each and as few runs as that takes, and the first manifest lists them in order |
| ExternalSort.MergePass | vscode-extension/dirty.js:400-426 | a pass conserves the names, lists its results in the next manifest, opens at most 16 readers and leaves one run per started group of 16 |
| ExternalSort.FewerGroups | vscode-extension/dirty.js:400-427 | a pass over more than 16 runs leaves fewer runs, and at least one |
| ExternalSort.SortedDirectoryNames | vscode-extension/dirty.js:361-436 | for any number of entries in any order: the names come out in code point order, each as often as it went in, with at most 16 readers open at any time |
| Traversal.MarkedUnlessExcluded | vscode-extension/dirty.js:225-229 | on normalized paths "counts as a change" is the opposite of "excluded" |
| Traversal.TraverseWorkspace | vscode-extension/dirty.js:258-276 | the recursive walk over externally sorted names visits what the walk function says, in that order |
| Traversal.PruningIsFiltering | vscode-extension/dirty.js:258-276 | below any prefix, skipping an excluded entry with everything under it gives the full preorder traversal without the excluded paths |
| Traversal.WalkVisitsTheUnexcluded | vscode-extension/dirty.js:258-276 | the walk of a workspace is its full preorder traversal filtered by exclusion |
| WorkspaceNodes.WalkSeesExactly | vscode-extension/dirty.js:258-276 | the walk visits exactly the nodes that a path of names leads to and that are not excluded, each with its fingerprint |
| WorkspaceNodes.FingerprintSaysExactly | vscode-extension/dirty.js:231-256 | two nodes have one fingerprint iff they are of one kind with the same file digest, the same mode, or the same mode and link target |
| WorkspaceNodes.PolicyIsHashedExactly | vscode-extension/dirty.js:440 | the policy digest is part of the hashed text in source-only mode and not in full-repository mode |
| WorkspaceNodes.RelativeFormIs | vscode-extension/dirty.js:226 | backslashes count as slashes and one leading `./` is dropped |
| WorkspaceNodes.OutsideIsNotMarked | vscode-extension/dirty.js:227 | the empty path, `..` and everything below `../` never count as a change |
| Traversal.FingerprintIgnoresListing | vscode-extension/dirty.js:438-449 | the hashed text is the same however the file system lists each directory |
| Traversal.RecordsDetermineVisits | vscode-extension/dirty.js:441-447 | when no line feed stands near a record boundary of the first list, equal texts come from equal visits |
| Traversal.TextIsUnambiguousExactly | vscode-extension/dirty.js:441-447 | the text of NUL-free visits can be read in one way only iff no fingerprint but the last and no path but the first holds a line feed |
| Traversal.FingerprintSeesTheUnexcluded | vscode-extension/dirty.js:438-449 | when the unexcluded part of one workspace has no such line feed, any other workspace has its hashed text iff their unexcluded paths and contents are the same |
| Traversal.LineFeedInLinkTargetIsAmbiguous | vscode-extension/dirty.js:231-449 | two workspaces with different unexcluded parts and one hashed text, by a line feed in a link target |
| Baseline.AuthoritativeWorkspaceBaseline.StartCheck | vscode-extension/dirty.js:495-499 | ignored paths change nothing; others record the next number for their path, which the map then holds |
| Baseline.AuthoritativeWorkspaceBaseline.FinishCheck | vscode-extension/dirty.js:503-507 | a result counts only under its own number, and then fixes the current fingerprint and the dirty set |
| Baseline.AuthoritativeWorkspaceBaseline.Capture | vscode-extension/dirty.js:482-493 | numbers restart; a given fingerprint wins over the kept one and a set one over an empty one, the current one is computed when there is none, and a missing saved one becomes the current one; dirty iff they differ |
| Baseline.AuthoritativeWorkspaceBaseline.Compare | vscode-extension/dirty.js:510-517 | dirty iff a saved fingerprint is set and differs |
| Baseline.AuthoritativeWorkspaceBaseline.ResetTo | vscode-extension/dirty.js:519-526 | clean with restarted numbers; an empty current fingerprint falls back to the saved one |
| Baseline.NextSequenceKeeps | vscode-extension/dirty.js:451-456 | the new number is recorded, at most 128 keys stay, and only a full map that meets a new key forgets one, its oldest |
| Baseline.NumberSurvives | vscode-extension/dirty.js:451-456 | a number survives any series of other checks exactly while the evictions have not passed its place |
| Baseline.LastCheckIsRemembered | vscode-extension/dirty.js:451-456 | in every interleaving the map is bounded and still holds the check that started last |
| Baseline.OnlyTheNewestCheckCounts | vscode-extension/dirty.js:495-507 | in every interleaving a finished check that changes anything is the newest on its path |
| Baseline.NewestCheckCountsExactly | vscode-extension/dirty.js:451-503 | in every interleaving the newest check on a path counts iff the evictions since its start have not passed its place in the map |
| Baseline.DirtyMeansDifferent | vscode-extension/dirty.js:504-507 | after a check that counts: dirty iff the fingerprint is not the saved one, or none is saved |
| Baseline.CheckAgreesWithCompare | vscode-extension/dirty.js:504-517 | a check and a comparison with one fingerprint agree iff a saved fingerprint is set |
| Baseline.OthersForgetExactly | vscode-extension/dirty.js:451-503 | the only check on its path counts after checks on other, different paths iff these are fewer than 128 |
| Baseline.SomeNewestCheckIsLost | vscode-extension/dirty.js:451-503 | a run, under a compiled policy, in which the newest check on a path loses its result |
| Baseline.AcceptsExactly | vscode-extension/dirty.js:451-503 | in every interleaving a number is accepted for a path iff the check with that number is on the path, is the newest there and is not forgotten |
| Baseline.StaleCheckCountsExactly | vscode-extension/dirty.js:482-526 | a check in flight across a reset or a capture counts afterwards iff the check with its number since then is on the same path, is the newest there and is not forgotten; otherwise it changes nothing |
| Baseline.StaleCheckCountsAfterReset | vscode-extension/dirty.js:495-526 | one reset and one later check on the path make a stale result count |
| ProcessLock.MutualExclusionHolds | vscode-extension/runtime.js:386-575 | any number of processes, any interleaving, deaths included: at most one live process is between acquire and release, when marker window plus reclaimer delay stay below the stale age |
| ProcessLock.MutualExclusionFails | vscode-extension/runtime.js:415-528 | for all bounds that add up to the stale age or more, a run that keeps them and ends with two live holders |
| ProcessLock.SafeExactly | vscode-extension/runtime.js:386-575 | the lock excludes under the bounds iff they add up to less than the stale age |
| ProcessLock.LiveHolderIsNotRobbed | vscode-extension/runtime.js:415-575 | with one-step marker writes and no timing assumption: no step of another process removes a live holder's marker or directory, and no other `mkdir` succeeds |
| LockHandover.ReleaseExactly | vscode-extension/runtime.js:548-562 | whatever is in the directory: within four steps a holder alone has removed its own marker and no other, and the directory iff it is empty then and still its own |
| LockHandover.ReleaseFreesTheLock | vscode-extension/runtime.js:548-562 | a holder whose marker is the only one leaves no directory and is idle |
| LockHandover.WaiterGetsTheLock | vscode-extension/runtime.js:530-572 | after such a release a waiting process holds the lock within four steps |
| LockHandover.MarkedExactly | vscode-extension/runtime.js:528-562 | in any interleaving with one-step marker writes: a live process has a marker in the directory iff it is between writing it and releasing, and only that one |
| LockHandover.LiveOwnerIsWaitedFor | vscode-extension/runtime.js:395-572 | a contender that finds a live owner comes back to `mkdir`, or gives up at its deadline |
| LockHandover.YoungDirectoryIsWaitedFor | vscode-extension/runtime.js:408-572 | so it does for a directory without a marker below 30 seconds of age |
| LockHandover.YoungMarkerIsWaitedFor | vscode-extension/runtime.js:406-572 | and for a half-written marker there |
| LockHandover.OldMarkerIsRecovered | vscode-extension/runtime.js:453-519 | from 30 seconds on a half-written marker costs a lone contender at most 17 steps |
| LockHandover.ForeignMarkerStays | vscode-extension/runtime.js:485-491 | a marker whose content has another token stays, even when its owner is dead |
| LockHandover.GivesUpOnlyAtDeadline | vscode-extension/runtime.js:522-574 | whatever the others do: a contender gives up only at its deadline, after it found that the lock is not stale, and holds the lock only after its own marker was written |
| LockHandover.PassEnds | vscode-extension/runtime.js:386-574 | whatever the others do: after at most 13 calls a contender tries `mkdir` again, gives up or holds the lock |
| LockHandover.StepEffects | vscode-extension/runtime.js:386-574 | in any state: a step makes a directory only where there is none, writes only a marker of its own, takes away only its own marker or the one it judged, and removes only an empty directory |
| ProcessLock.DeadOwnersAreRecovered | vscode-extension/runtime.js:386-575 | against complete markers of dead processes a lone contender holds the lock within 12 steps per marker and 5 more |
| ProcessLock.OldEmptyDirectoryIsRecovered | vscode-extension/runtime.js:408-452 | a directory left without a marker long enough costs a lone contender at most 13 steps |
| ProcessLock.AloneSteps | vscode-extension/runtime.js:386-575 | every step of the lone contender brings it strictly closer to the lock |
| TarReader.ExtractTar | vscode-extension/runtime.js:1227-1262 | makes the destination on any file system, then runs the offset-driven loop over any bytes, negative and missing sizes and offsets before the start included: its result when it ends, and nothing exactly when it goes round for ever |
| TarReader.EndlessExactly | vscode-extension/runtime.js:1234-1261 | the loop goes round for ever iff it comes back to an offset |
| TarReader.StandingStillIsEndless | vscode-extension/runtime.js:1241-1260 | a size from -512 to -1023 in any header whose member is placed never lets the loop end |
| TarReader.StalledIsEndless | vscode-extension/runtime.js:1234-1261 | an archive of one header with the size field `-1000` on which the loop never ends, whatever the file system holds |
| TarReader.ForwardSizesEnd | vscode-extension/runtime.js:1234-1261 | when no header at a block boundary inside the content has a size of -512 or less, the loop ends |
| TarReader.SteppingBackOverTheStartEnds | vscode-extension/runtime.js:1234-1260 | a size from -1024 to -1535 in the first header ends the loop with that one member |
| TarReader.OffsetAdvances | vscode-extension/runtime.js:1260 | the offset grows iff the size is above -512, and stands still iff it is from -512 to -1023 |
| TarReader.NegativeSizeParses | vscode-extension/runtime.js:1241-1242 | the size field `-1000` is -512 |
| TarReader.MemberStaysInsideExactly | vscode-extension/runtime.js:1244-1249 | a member stays in the destination, whatever that is, iff after its first component `..` never outnumbers the names before it |
| TarReader.AcceptedMemberCanLeave | vscode-extension/runtime.js:1244-1249 | `a/../x` passes the safety test and goes to `x` beside the destination |
| TarMembers.UnsafeExactly | vscode-extension/runtime.js:1244-1246 | a member is refused iff it is empty, holds a NUL, is absolute, or has a `..` without a name before it to drop and something after it |
| TarMembers.UnsafeMemberEndsReading | vscode-extension/runtime.js:1244-1246 | a refused member at the front of any archive ends the reading with that error |
| TarMembers.RefusedMembers | vscode-extension/runtime.js:1244-1246 | `../x` and every absolute member are refused |
| TarMembers.MemberBecomes | vscode-extension/runtime.js:1247-1258 | an accepted member on an empty file system, by its type byte: 0 and 48 put exactly the data at the target unless the name ends in a slash, 53 makes the directory, every other type is an error |
| TarMembers.TopMemberBecomesNothing | vscode-extension/runtime.js:1247-1248 | a member of one component becomes nothing, whatever its type |
| TarMembers.CutExactly | vscode-extension/runtime.js:1238-1239 | a text field ends at the first NUL that no line break follows |
| TarMembers.SizeField | vscode-extension/runtime.js:1241-1242 | blanks around the size, everything from a NUL on and the top bit of each byte are dropped; an empty size is zero |
| TarMembers.NumberExactly | vscode-extension/runtime.js:1242 | octal digits count up to the first other byte, after a sign; without a digit there is no number |
| TarMembers.RoundsUp | vscode-extension/runtime.js:1260 | the reader goes on at the next multiple of 512 |
| TarMembers.SizelessMemberIsLast | vscode-extension/runtime.js:1255-1260 | a member whose size is no number gets no data, and is the last one |
| TarMembers.OrdinaryArchiveBecomes | vscode-extension/runtime.js:1227-1262 | files of type 0 or 48 and directories of type 53 with plain names, each below a first component: the tree holds exactly the last data of each file and the directories they need, below the destination; a path that is both is an error |
| TarWriter.HeaderReadsBack | vscode-extension/runtime.js:1236-1243 | name, prefix, octal size and type of a written header read back |
| TarWriter.OctalRoundTrip | vscode-extension/runtime.js:1241-1242 | octal digits of any width read back as the number |
| TarWriter.ReadingUndoesWriting | vscode-extension/runtime.js:1234-1262 | reading any written archive replays its members in order on any destination, through padding, and ends at the zero blocks |
| TarWriter.WrittenArchiveMovesForward | vscode-extension/runtime.js:1260 | at every written member the offset grows by a block at least |
| TarWriter.RestoresTree | vscode-extension/runtime.js:1227-1262 | for any members that stand for an item, of one component included: when no path is both a file and a directory, extraction yields exactly the files that went in and the directories they need, below the destination and without first components; when some path is both, it is an error |
| TarWriter.RepresentedExactly | vscode-extension/runtime.js:1244-1258 | a member stands for an item iff placing it succeeds on some file system |
| TarWriter.ClosingSlashEndsReading | vscode-extension/runtime.js:1252-1255 | a regular file whose name ends in a slash at the front of any archive ends the reading with an error |
| TarWriter.OldDirectoryEndsReading | vscode-extension/runtime.js:1252-1255 | such a member: `a/d/` of type NUL |
| TarWriter.WrittenRepresents | vscode-extension/runtime.js:1240-1258 | a plainly named member below a first component of its own or `.` stands for its path below the destination without that component: a directory with or without a closing slash, a regular file without one; with no more components it stands for nothing |
| TarWriter.RestoresWrittenTree | vscode-extension/runtime.js:1227-1262 | the same result for plainly named files and directories, each below a first component of its own, closing slashes on directories allowed |
| TextLines.FirstLine | vscode-extension/registry.js:114-115 | a line ends at a line feed and loses one carriage return before it; text without a line feed has no complete line |
| LogFollower.Follower.Poll | vscode-extension/registry.js:102-119 | one poll: unchanged, missing, unreadable, grown or replaced file |
| LogFollower.EscapesGo | vscode-extension/registry.js:78-80 | every control sequence goes, wherever it is, and every unit that starts none stays |
| LogFollower.SequenceLength | vscode-extension/registry.js:79 | escape, bracket, parameters, intermediates and a final byte are one control sequence, to its end |
| LogFollower.NoSequence | vscode-extension/registry.js:79 | nothing else is one |
| LogFollower.CleanedIs | vscode-extension/registry.js:78-80 | what is left is trimmed on both sides |
| LogFollower.EmitsWithFailures | vscode-extension/registry.js:94-119 | for a growing file with any failed readings in between: the listener hears, in order, each failure's message and, at each reading that works, the lines of all appended text beyond those of the reading before |
| LogFollower.EmitsAppendedLines | vscode-extension/registry.js:94-119 | without failed readings, however the file is polled, the emitted lines are the cleaned non-empty complete lines of all appended text, also when a line break falls across two polls |
| LogFollower.PollTimingIsIrrelevant | vscode-extension/registry.js:94-119 | two ways of polling the same growth end in the same state |
| StderrReader.OutputHandler.OnOutput | vscode-extension/extension.js:561-581 | one chunk moves pending text, discard flag and kept lines as specified; structured lines and empty messages are not reported |
| StderrReader.StructuredExactly | vscode-extension/extension.js:575 | a line is structured iff after white space it opens with a bracket, a brace, a closing brace or a double quote |
| StderrReader.ReportedByLine | vscode-extension/extension.js:574-579 | each kept line that is not structured is reported in its sanitized form, unless that is empty |
| StderrReader.RunMeaning | vscode-extension/extension.js:555-583 | after any chunks the reader is in step with the whole text, and one short line is missing per hazard |
| StderrReader.KeepsShortLinesExactly | vscode-extension/extension.js:561-576 | the kept lines are exactly the complete lines of at most 4096 code units iff no chunk boundary is a hazard; pending text never exceeds 4096 |
| StderrReader.LineFeedsAreSafe | vscode-extension/extension.js:561-576 | without carriage returns every chunking keeps exactly the short complete lines |
| StderrReader.ReturnAtChunkEndLosesALine | vscode-extension/extension.js:571-573 | a line of 4096 code units that is kept in one chunk and lost in two |
| SaveReceipt.SaveTracker.SetRoomState | vscode-extension/extension.js:1613-1626 | leaving clean drops the receipt; entering clean records the generation; staying changes neither |
| SaveReceipt.SaveTracker.SetRoomDirty | vscode-extension/extension.js:1628-1632 | not dirty is clean only under a trusted binding |
| SaveReceipt.SaveTracker.HandleCapturePolicyChange | vscode-extension/extension.js:1655-1668 | a policy change always counts; an invalid policy drops baseline and trust |
| SaveReceipt.SaveTracker.MarkWorkspaceChange | vscode-extension/extension.js:1670-1685 | a captured path counts and makes the Room dirty; others change nothing |
| SaveReceipt.SaveTracker.OnDidChangeTextDocument | vscode-extension/extension.js:5140-5147 | every tracked edit counts; only an unsaved one makes the Room dirty |
| SaveReceipt.SaveTracker.OnDidSettleTextDocument | vscode-extension/extension.js:5148-5159 | a saved or closed document counts only with a baseline |
| SaveReceipt.SaveTracker.StartSave | vscode-extension/extension.js:2248-2258 | a Save remembers the generation at its start |
| SaveReceipt.SaveTracker.FinishRoomStoreSave | vscode-extension/extension.js:1877-1935 | all outcomes of a finished Save; a new receipt is stored only for an unchanged generation, no unsaved buffers, a matching marker and a plain workspace capture |
| SaveReceipt.SaveTracker.TrustedLocalSaveReceipt | vscode-extension/extension.js:1823-1865 | which receipt is returned, which one is dropped, and when the policy is refreshed; a returned one is the stored one, and one is returned iff Room, directories, policy and marker all answer for it, field by field; when the marker names another recovery point the stored one is gone |
| SaveReceipt.TrustedExactly | vscode-extension/extension.js:1823-1865 | field by field: a receipt is returned iff the Room may be checked, the three directories agree, the policy loads, and receipt and current-format marker both name this directory, this policy and one recovery point; otherwise, unless the directories differ, a Room that may be checked loses it |
| SaveReceipt.SaveFinishesExactly | vscode-extension/extension.js:1805-1935 | field by field: clean iff the Save was undisturbed and result, marker, directory and policy agree; a receipt with the marker's fields iff also the capture was plain |
| SaveReceipt.SaveTracker.StartTracking | vscode-extension/extension.js:4642-4667 | a restart distrusts the binding and replaces policy and baseline, or gives up as unknown |
| SaveReceipt.SaveTracker.BindTracking | vscode-extension/extension.js:4675-4690 | only the latest restart sets the binding |
| SaveReceipt.SaveTracker.EndTracking | vscode-extension/extension.js:4692-4707 | only the latest restart sets the state: dirty iff an event arrived, or status and binding are known and report a difference; clean iff none arrived, they are known, and an older format is clean; unknown otherwise |
| SaveReceipt.SaveTracker.TrackWithoutRoom | vscode-extension/extension.js:1687-1705 | a folder that is no Room forgets baseline, policy and buffers |
| SaveReceipt.SaveTracker.ResetNativeBaseline | vscode-extension/extension.js:4712-4731 | a reset of a current-format Room ends as unknown with the observed binding |
| SaveReceipt.GenerationCounts | vscode-extension/extension.js:1656-1683 | the event generation grows by one at each counted event and at nothing else |
| SaveReceipt.StoredReceiptMeansClean | vscode-extension/extension.js:1613-1626 | in every reachable state a stored receipt means a clean Room, an event generation not ahead of the current one, and a plain workspace capture |
| SaveReceipt.EveryReceiptWasMinted | vscode-extension/extension.js:1877-1935 | every stored receipt was stored by the end of a Save that started earlier in the run, at the generation the receipt carries |
| SaveReceipt.TrustedReceiptMeansQuiet | vscode-extension/extension.js:1823-1865 | if a receipt is returned, no workspace, editor or policy event counted between the start of the Save that stored it and now, in any run with any number of Saves in flight |
| SaveReceipt.MintedReceiptIsTrustedExactly | vscode-extension/extension.js:1616-1622 | a new receipt can be used at once iff the Room was not already clean with an older clean generation |
| SaveReceipt.StaleCleanIsNeverTrusted | vscode-extension/extension.js:1616-1825 | once the clean generation lags, no receipt is used for as long as the Room stays clean |
| SaveReceipt.ReceiptAfterReloadIsNotTrusted | vscode-extension/extension.js:1877-1935 | a run in which a successful Save leaves a receipt that is refused |
| RoomSwitch.Disk.RebindHydratedMarker | vscode-extension/extension.js:217-247 | succeeds iff no operation fails and the marker names the selected recovery point; then only the marker's path digest changed |
| RoomSwitch.Disk.Undo | vscode-extension/extension.js:304-308 | the old tree stays complete at one of its two places, and is back at the Room path if both operations work |
| RoomSwitch.Disk.Exchange | vscode-extension/extension.js:299-308 | promoted iff every operation works and the marker is the selected one; otherwise the old tree is kept |
| RoomSwitch.Disk.SwitchMaterialization | vscode-extension/extension.js:249-316 | for every set of failing operations: in every state before promotion the complete old tree is at the Room path or the backup, in every state after it the bound new tree is in place; success leaves nothing else; failure before promotion with a working rollback leaves exactly the old tree |
| ResticInstall.ExecutableAlwaysHasItsDigest | scripts/install_restic.py:264-302 | across all interleavings and crashes, an executable at the managed path has a marker with its digest |
| ResticInstall.CachedCheckNeverFails | scripts/install_restic.py:266-274 | no installer ever fails for a missing or wrong cached digest |
| ResticInstall.InstalledIsOfficial | scripts/install_restic.py:284-300 | what gets installed is the binary of the pinned archive |
| ResticInstall.LaterInstallSucceeds | scripts/install_restic.py:264-302 | after any run a fresh install alone uses the cached executable, or installs the pinned one and leaves a matching marker |
| LoneInstall.ExecutableIsVouchedFor | scripts/install_restic.py:264-302 | in every reachable state the marker beside an executable holds its digest and nothing else but white space |
| LoneInstall.CachedInstallExactly | scripts/install_restic.py:264-277 | an executable that is there is used iff it has a marker, the marker is its digest within white space, and the version fits; otherwise each case has its error |
| LoneInstall.FreshInstallExactly | scripts/install_restic.py:280-302 | without an executable: a wrong size, digest, archive, binary size or version is its own error and changes nothing, and any other download is installed with its digest |
| LoneInstall.VouchesExactly | scripts/install_restic.py:269-274 | the digest test is met iff the marker is the 64-digit digest of the binary within white space |
| ResticInstall.FailsExactlyAtTheSecondLook | scripts/install_restic.py:266-278 | in any run with good inputs, crashes included, an installer fails in a step iff it found no executable, looks again and finds one |
| ResticInstall.NeverFailsExactly | scripts/install_restic.py:264-302 | with good inputs no installer fails in any run iff there is one at most or the executable is there from the start |

## Left out

- ProcessLock.MutualExclusionHolds: assumes the two timing bounds, which the code does not enforce; pid reuse, `EPERM` from the liveness probe, the older `owner.json` marker, permission bits, and inode numbers used again after a removal are not part of this model.
- ProcessLock.DeadOwnersAreRecovered: starts where the directory is gone or holds complete markers; a directory without one is `OldEmptyDirectoryIsRecovered`, a half-written one `LockHandover.OldMarkerIsRecovered`, and while these are young the contender waits by design.
- TarReader.ExtractTar: keeps a set of offsets, which the code does not, to return where the code would loop for ever; the file system has no symbolic links and nobody else changes it, the destination is an absolute path, opening a path with a closing slash for writing fails as on Linux; names are bytes, so the decoding of malformed UTF-8 is not captured, nor are gunzip and cancellation.
- TarWriter.RestoresTree: starts from an empty file system (`ReadingUndoesWriting` from any); pax extension records below the top and links are errors of the reader, which `ReadingUndoesWriting` covers.
- CapturePolicy.CompiledIsValid: the JSON of the defaults is already parsed into a list of strings, and the policy digest is left to the caller.
- Glob.SegmentMeaning: the regular expression engine is replaced by its meaning on strings of Unicode scalar values; lone surrogates do not occur.
- Utf8Order.Utf8OrderIsCodePointOrder: strings of Unicode scalar values only.
- ExternalSort.SortedDirectoryNames: run files are lists of names and file names are values, so JSON, line framing, handles, temporary directories and I/O errors are not captured.
- Traversal.TraverseWorkspace: the tree does not change during the walk, so an entry that vanishes between listing and inspection is not captured; the digest of a file is given as a string.
- Baseline.AuthoritativeWorkspaceBaseline.Capture: one step, as no other call overlaps it.
- Baseline.OnlyTheNewestCheckCounts: no capture or reset in between; `StaleCheckCountsExactly` says what happens across one.
- LogFollower.EmitsWithFailures: the file grows by whole characters.
- StderrReader.OutputHandler.OnOutput: the message sanitizer is an arbitrary function.
- SaveReceipt.SaveTracker.BindTracking: the comparison of marker and controller status is one observed truth value.
- SaveReceipt.SaveTracker.TrustedLocalSaveReceipt: what the file system and the controller answer is given as input; the second, controller-side confirmation of a receipt is not modelled.
- SaveReceipt.TrustedReceiptMeansQuiet: speaks of events the editor delivered; a change for which no event arrives cannot be seen by this code.
- RoomSwitch.Disk.SwitchMaterialization: no other process touches the three paths; the status query before the question to the user is one truth value.
- ResticInstall.ExecutableAlwaysHasItsDigest: takes the pinned digest to identify one archive and extraction to be a function of it; loss of unsynced writes in a power failure, file types and permissions are not captured.
- Restic's own pattern language, SHA-256, encryption, storage providers, HTTP downloads, the runtime manager, the UI and the release scripts are outside the model.
- The progress and presentation state of the extension would only add easy members.
