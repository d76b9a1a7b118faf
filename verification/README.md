# Beacon daemon: a verified model

Beacon runs game servers on a node. This project models the parts of it that carry a guarantee: the
journaled restore swap and its crash recovery, backup and restore of a tree, the per-namespace lock, the
ignore-pattern compiler, the configuration patchers, the crash-loop breaker, the signed-request encoding with
its replay cache, the console fan-out, the retention policy, version precedence and disk-usage accounting.

Code that works step by step is modelled step by step, as classes and loops, and tied to specification
functions; the theorems are about those functions and about whole runs. `dafny verify dfyconfig.toml` checks
everything.

| module | what it models |
|---|---|
| RestoreSwap, BootRecovery, RestoreBackup | `Restore` with `truncate`, `recoverInterruptedRestore`, `RecoverRestoreJournals`, and validation and extraction feeding the swap |
| Rootfs, Archive, Extract, Backup, BackupIgnore | names the rooted filesystem admits, walk, archive validation, extraction, round trip, which paths an ignore file keeps |
| NamespaceLock | `lockNamespace` as interleaved steps |
| Ignore | the glob compiler, a denotation of its regular expressions, last-match-wins lists |
| NestedPatch, PatchDocument, Properties | nested paths as values, `setNestedValue` in place, properties files |
| CrashBreaker | `CrashDetector` as a timed state machine |
| Hmac, NonceCache | `CanonicalString`, `NonceCache.Use` |
| Console | producer, replay window, subscriber queues |
| Retention, Versions, Usage | `RetentionPolicy.Apply`, the two version comparators, `usageDir` |
| FileTree, Paths, Strings, Strconv, Enumeration, Wrappers | trees, `path.Clean`, `path.Dir`, `strings.*`, `strconv.Atoi`, ranging over a map |

## How the environment enters

Every filesystem call of `RestoreSwap.Host` may succeed, fail or be cut off by a crash, by nondeterministic
choice, unless the filesystem `works` for the moment. So a contract of `Restore` or `Recover` is a statement about
every run with a failure or crash at any call; a deletion may stop half-way. `disk` is what a crash of the process
leaves: effects in program order. `images` is every disk a power loss can leave when any subset of the directory
operations since the last sync is lost; `Operate` runs over commands of both kinds. File contents count as durable
once extracted. `Exposed` says that since the last sync a tree was moved back and a journal removed, or that recovery
touched the old tree before the activation of its replacement was synced. `CalmIsExact` shows that between any two
calls of a run this is so exactly when some crash image is beyond recovery.
Clocks, `Lstat` failures (`misread`), the answers of `MatchString` (`found`), whether `strconv.ParseFloat`
accepts a text (`parsesAsFloat`) and an archive that cannot be opened or fails its checksum (`Refused`) are
parameters. Go's map iteration order is an arbitrary pick.

## What turned out false of the code

- **Old-or-new under lost directory operations.** When `live-moved` cannot be journaled, or the staged tree
  cannot be renamed, `Restore` moves the old tree back and removes the journal without a sync in between. If the
  rename is lost and the removal kept, no tree is live and nothing says where it went
  (`CompensationCanLoseTheLiveTree`). Recovery does the same when it moves a tree back
  (`RecoveryCanLoseTheLiveTree`). `Restore` and `Recover` prove the guarantee for every crash image exactly while no
  tree has been moved back and no journal removed since the last sync.
- **Recovering an activation that was never synced.** Recovery deletes the rollback tree at once, while the
  `activated` journal may still be lost (`RushedRecoveryCanLoseBothTrees`). `RushedRecoveryIff` gives the exact
  condition: the deletion is safe exactly when every crash image has the `activated` journal and the live tree. Every
  other recovery that begins unsynced keeps the guarantee (`Recover`).
- **`pathExists` reads every `Lstat` error as absence.** A misread rollback tree makes recovery complete with a tree
  that was never journaled as activated (`Host.MisreadRun`); `Recover` states what it does with and without misreads.
- **A backup that cannot be restored.** On Linux `validateRelativePath` refuses any character before a colon in
  second place, wider than the drive prefix `Clean` refuses. The directory `1:` can be archived, never restored;
  a file of that name cannot be archived (`OneColonExample`). `BackupThenRestore` states the exact condition.
- **Retention is not an intersection of rules**, whatever the comment says: the period rule only adds to the kept
  set. The model follows the code. Nor does a repeated run always keep the same backups: a deleted backup can make
  room for one the limit had cut off (`RetryKeepsMoreExample`). `RetryAgreesIff` gives the exact condition.
- **Semantic Versioning.** `comparePrereleaseIdentifier` uses `strconv.Atoi`, so an identifier such as `-1` or a
  digit string beyond the int range is misplaced (`SignedExample`, `OutOfRangeExample`). `OrdinaryIff` gives the
  exact condition.
- **Properties.** A replacement whose key has an `=`, a line break, surrounding space or a comment mark is not
  read back under that key (`ReplacementsReadBackIff`); one with an `=` changes the value of another key
  (`SeparatorMovesValue`, `BadKeyExample`).
- **Nested paths.** A patch need not give one document: two scalar sets commute exactly when the paths are divergent
  or the two sets are the same (`SetsCommuteIff`), and a patch of scalars at paths that can be set whole is free of
  Go's map order exactly when that holds of any two of its keys (`OrderFreeIff`).

## Model

| member | source | states |
|---|---|---|
| RestoreSwap.ImagesAreSubsets | beacon/internal/backup/local.go:1098-1105 | the lossy crash model: a disk is a crash image iff it replays some subset of the operations since the last sync |
| RestoreSwap.Host.RemoveAll | beacon/internal/backup/local.go:1084-1086 | deletion is not atomic: untouched, torn or gone, in every crash image |
| RestoreSwap.Host.WriteJournal | beacon/internal/backup/local.go:991-1021 | the journal changes as a whole or not at all; success leaves only one crash image; a failing sync may leave the new journal in place |
| RestoreSwap.Host.PutBack | beacon/internal/backup/local.go:1059-1061 | a tree set aside is found wherever the move back left it, in every crash image; once moved, some image has no live tree |
| RestoreSwap.Host.SettleTree | beacon/internal/backup/local.go:1051-1083 | the phase switch, on any disk, makes live the slot that counts (after activation a live tree, before it the one set aside), refuses with nothing changed when there is none or the phase is unknown, and otherwise only fails when a call fails; in every failing or crashing run it keeps the tree recovery will make live, and from any calm state every crash image recovers unless exposed |
| RestoreSwap.Host.DropSettled | beacon/internal/backup/local.go:1087-1089 | removing the journal keeps the tree in every crash image exactly when nothing was moved back since the last sync |
| RestoreSwap.Host.ClearRollback | beacon/internal/backup/local.go:1062-1066 | recovery's deletion of the old tree: nothing changes or, during an unsynced activation, some crash image is beyond recovery, and it is marked as such exactly then |
| RestoreSwap.Host.CloseJournal | beacon/internal/backup/local.go:1084-1091 | removing staging and journal touches no other directory; success is durable |
| RestoreSwap.Host.Recover | beacon/internal/backup/local.go:1023-1091 | a journal with a staging or rollback name of the wrong form, an unknown phase, or neither tree is refused with exactly that error and nothing changed; recovery interrupted anywhere keeps the outcome in order of effects, so it may be repeated; under lost operations it keeps `Calm` from any calm state, synced or not, and unless exposed leaves no outcome that was not possible before; when done no journal, rollback or staging is left and all is durable; on a disk that can be recovered it only fails when a call fails; a misread rollback is the one case where another tree wins |
| RestoreSwap.Host.CalmIsExact | beacon/internal/backup/local.go:1023-1105 | between two calls `Exposed` holds iff some crash image is beyond recovery; otherwise every image recovers, to one tree unless an activation is unsynced |
| RestoreSwap.Host.Prepare | beacon/internal/backup/local.go:597-618 | until `prepared` is durable every crash image has the old tree live |
| RestoreSwap.Host.MoveAside | beacon/internal/backup/local.go:624-627 | after the rename every crash image has the old tree live or set aside under a journal that says so |
| RestoreSwap.Host.RecordMove | beacon/internal/backup/local.go:628-635 | `live-moved` durable, or the old tree moved back, and which of the two |
| RestoreSwap.Host.Activate | beacon/internal/backup/local.go:636-655 | every crash image keeps the old tree aside, and the new one live or staged, until activation is durable |
| RestoreSwap.Host.Finish | beacon/internal/backup/local.go:656-663 | dropping rollback and journal leaves the new tree live in every crash image |
| RestoreSwap.Host.Install | beacon/internal/backup/local.go:636-663 | from a durable `live-moved` on, in every failing or crashing run, the old tree until activation is journaled and the new one after |
| RestoreSwap.Host.Unwind | beacon/internal/backup/local.go:591-596 | the deferred clean-up, last registered first, removes the journal when it can, asks for the staging directory's removal, and never changes which tree is recovered in order of effects; and says when the journal removal can leave the live tree lost |
| RestoreSwap.Host.RetractJournal | beacon/internal/backup/local.go:618-623 | the deferred journal removal: safe when the tree was never moved, able to lose the live tree when it was moved back |
| RestoreSwap.Host.MoveTrees | beacon/internal/backup/local.go:612-663 | where the swap stops, the old or the new tree is recoverable, and which one |
| RestoreSwap.Host.Restore | beacon/internal/backup/local.go:508-664 | every run keeps the old tree or installs the restored one, the latter iff `activated` was journaled; success is durable; with working calls it succeeds; a failed call leaves no staging directory whose removal was not asked for; under lost operations it keeps `Calm`, adds no possible outcome but its own tree, and, when it begins neither exposed nor with an unsynced activation, old-or-new holds in every crash image iff it is not exposed at the end |
| RestoreSwap.Host.PowerLoss | beacon/internal/backup/local.go:1098-1105 | each operation since the last sync took place or was lost; what is left is one of the crash images |
| RestoreSwap.Host.Operate | beacon/internal/backup/local.go:508-1091 | over any sequence of boots, restores and power losses, with failures and crashes anywhere, each boot keeps the tree, each restore keeps it or installs its own, a power loss while not exposed leaves one of the trees that were possible and never none, and a boot whose calls work completes |
| RestoreSwap.StagesAreSafe | beacon/internal/backup/local.go:612-664 | every disk of every stage is recoverable to the old or the new tree |
| RestoreSwap.ActivatedWithoutLive | beacon/internal/backup/local.go:1054-1061 | the "activated but no live root" branch is necessary: such a crash image exists |
| RestoreSwap.ActivatedWithoutLiveHasRollback | beacon/internal/backup/local.go:1054-1061 | and sufficient: whenever it is taken the rollback tree is the whole old tree |
| RestoreSwap.CompensationCanLoseTheLiveTree | beacon/internal/backup/local.go:628-645 | a crash image of the compensating branch has no journal and no live tree |
| RestoreSwap.RecoveryCanLoseTheLiveTree | beacon/internal/backup/local.go:1075-1090 | a crash image of recovery has no journal and no live tree |
| RestoreSwap.RushedRecoveryCanLoseBothTrees | beacon/internal/backup/local.go:1062-1066 | deleting the rollback tree after an unsynced activation leaves a crash image that cannot be recovered |
| RestoreSwap.RushedRecoveryIff | beacon/internal/backup/local.go:1062-1066 | deleting the rollback tree during an unsynced activation keeps old-or-new in every crash image iff every image has the `activated` journal and the live tree |
| RestoreSwap.Host.MisreadRun | beacon/internal/backup/local.go:1051-1096 | a run in which only the `Lstat` of the rollback tree fails: recovery succeeds with the tree that was not activated, where the old one was promised |
| BootRecovery.JournalNameIsRead | beacon/internal/backup/local.go:971-975 | the name Restore gives a journal is read back as its namespace |
| BootRecovery.OnlyJournalNames | beacon/internal/backup/local.go:971-979 | and no other directory entry is read as a valid namespace |
| BootRecovery.EntryIsRead | beacon/internal/backup/local.go:971-979 | an entry is read as a valid namespace iff it is the journal of that namespace, spelled letter by letter |
| BootRecovery.RecoverEntry | beacon/internal/backup/local.go:970-983 | one entry settles or reports its own server and leaves every other untouched; a misnamed journal is reported |
| BootRecovery.RecoverRestoreJournals | beacon/internal/backup/local.go:959-985 | every server, whatever its journal says, is settled or reported; one failing server does not stop the others, no server that can be recovered changes outcome, one whose journal must not be acted on does not change at all; errors are exactly misnamed files, failed calls and servers that cannot be recovered, and every misnamed file is among them |
| NamespaceLock.RunKeepsInv | beacon/internal/backup/local.go:90-109 | the invariant over every interleaving of any threads and namespaces |
| NamespaceLock.AdvanceKeepsInv | beacon/internal/backup/local.go:90-109 | each statement of lock and unlock keeps it |
| NamespaceLock.MutualExclusion | beacon/internal/backup/local.go:90-109 | at most one thread is in the critical section of a namespace |
| NamespaceLock.SharedLockCounts | beacon/internal/backup/local.go:90-101 | all threads inside or waiting on a namespace share one lock object whose `refs` is their number |
| NamespaceLock.EntryIffPresent | beacon/internal/backup/local.go:101-109 | with the registry free, the map has an entry iff some thread holds or waits |
| NamespaceLock.SomeoneCanStep | beacon/internal/backup/local.go:90-109 | no reachable state with a thread in it is stuck |
| NamespaceLock.WasInside | beacon/internal/backup/local.go:96-109 | a thread on its way out held the lock earlier in the same call |
| NamespaceLock.WaiterCanEnter | beacon/internal/backup/local.go:98-100 | a waiter whose lock is free has a step to being inside and the holder |
| NamespaceLock.CallsAreBounded | beacon/internal/backup/local.go:90-109 | without new calls every schedule is finite: no scheduler can keep the calls in progress busy |
| NamespaceLock.EveryCallEnters | beacon/internal/backup/local.go:90-109 | a run that cannot go on has let in every call that was under way |
| NamespaceLock.EveryCallCanEnter | beacon/internal/backup/local.go:90-109 | from every reachable state a run can go on until a given call holds its lock |
| Archive.CheckName | beacon/internal/backup/local.go:697-721 | a name passes iff it is written as plain components joined by slashes, with no backslash or NUL, and ends in a slash iff it is a directory |
| Archive.FileAbove | beacon/internal/backup/local.go:725-729 | the ancestor loop finds a file iff an earlier file is a proper ancestor |
| Archive.EntryBelow | beacon/internal/backup/local.go:730-737 | the prefix scan finds an entry iff an earlier entry lies below |
| Archive.ValidateArchive | beacon/internal/backup/local.go:694-741 | accepted iff all names are good, distinct once cleaned, and no file is a proper ancestor of another entry; a name with a backslash or a NUL is always refused |
| Archive.AcceptanceIgnoresOrder | beacon/internal/backup/local.go:694-741 | permuting the entries keeps acceptance |
| Rootfs.ValidOfPlain | beacon/internal/rootfs/rootfs_linux.go:266-297 | of a clean name `validateRelativePath` refuses nothing but the colon in second place |
| Rootfs.CleanThenValid | beacon/internal/rootfs/rootfs.go:55-76 | what `Clean` followed by `validateRelativePath` lets through: no NUL, backslash, leading slash, drive prefix or `..`, and no colon in second place once cleaned; what is passed on is the cleaned path |
| Rootfs.AdmittedSpelt | beacon/internal/rootfs/rootfs.go:55-76 | the names that are refused, character by character, and that all others are admitted |
| Extract.Root.MkdirAll | beacon/internal/rootfs/rootfs.go:108-117 | succeeds iff the name is admitted and no component is something else than a directory, and then makes exactly the missing directories |
| Extract.Root.WriteFile | beacon/internal/rootfs/rootfs.go:82-88 | opening a file for writing succeeds iff the name is admitted, names something, its parent is a directory and nothing but a file is there; then exactly that file changes |
| Extract.SinkName | beacon/internal/backup/local.go:752-764 | the sink's own check accepts a validated name iff it has no drive prefix |
| Extract.ExtractFile | beacon/internal/backup/local.go:771-796 | parents are made, then the file is written, or the name is refused |
| Extract.ExtractArchive | beacon/internal/backup/local.go:743-799 | an accepted archive extracts iff no name has a colon in second place, and the tree is exactly the archive's contents with their parent directories |
| Extract.ContentsIgnoreOrder | beacon/internal/backup/local.go:743-799 | the extracted tree does not depend on the order of the entries |
| Backup.Visit | beacon/internal/backup/local.go:338-417 | one walk callback: prunes, archives or skips; fails iff a file below cannot be opened |
| Backup.WalkDir | beacon/internal/backup/local.go:338-417 | the walk lists each backed-up path once, and nothing else |
| Backup.Create | beacon/internal/backup/local.go:338-420 | the archive holds exactly the directories and files with no ignored, symlinked or set-aside ancestor-or-self; it fails iff some backed-up file has a backslash, a NUL or a colon in second place in its path |
| Backup.ArchiveIsAcceptable | beacon/internal/backup/local.go:694-741 | validation accepts the walk's archive iff no archived path has a backslash or NUL |
| Backup.ContentsAreTheBackup | beacon/internal/backup/local.go:743-799 | whatever tree has the archive's contents is the backed-up part of the source tree |
| Backup.BackupThenRestore | beacon/internal/backup/local.go:743-799 | backup then restore into an empty root is the identity on the backed-up part, and succeeds iff no backed-up path has a backslash, a NUL or a colon in second place |
| Backup.OneColonExample | beacon/internal/rootfs/rootfs_linux.go:279-281 | the directory `1:` is backed up and cannot be opened again; a file of that name cannot be archived |
| RestoreBackup.RestoreArchive | beacon/internal/backup/local.go:541-664 | a restorable archive becomes the live tree on success and otherwise at most by an interrupted activation; one that is refused or cannot be extracted leaves the outcome alone |
| RestoreBackup.RestoreItsBackup | beacon/internal/backup/local.go:278-664 | backing up a tree and restoring it leaves the live tree as it was or equal to the backed-up part, the latter on success; with working calls and a free staging name it succeeds iff every backed-up path can be opened |
| BackupIgnore.BackedUpByPatterns | beacon/internal/backup/local.go:337-362 | under supported patterns a path is archived iff neither it nor an ancestor is set aside, excluded or a symlink |
| BackupIgnore.OneMoreLineIsAnswered | beacon/internal/ignore/ignore.go:80-166 | what one more line of the ignore file, as text, does to a path of the walk |
| BackupIgnore.BadPatternBacksUpAll | beacon/internal/ignore/ignore.go:58-64 | one bad pattern and everything not set aside by the daemon is archived |
| Ignore.TailMatches | beacon/internal/ignore/ignore.go:106-145 | the translated expression matches a suffix iff the pattern does, character by character |
| Ignore.RestCovers | beacon/internal/ignore/ignore.go:106-145 | the character-level meaning is the segment-level glob: `**/` is any number of segments, `*` and `?` stay inside one |
| Ignore.SearchStarts | beacon/internal/ignore/ignore.go:100-105 | an unanchored search starts at a component for a slash-free pattern and only at the root otherwise |
| Ignore.ScanPiece | beacon/internal/ignore/ignore.go:106-140 | one turn of the scanner consumes one pattern piece and emits its expression |
| Ignore.CompileRule | beacon/internal/ignore/ignore.go:80-152 | comments, escapes, negation, anchors, trailing slash, unterminated brackets and the other errors of a pattern line |
| Ignore.CompiledMeansPattern | beacon/internal/ignore/ignore.go:80-152 | for supported patterns and clean paths the compiled expression matches iff the glob semantics does |
| Ignore.CompileIgnoreList | beacon/internal/ignore/ignore.go:66-78 | one bad pattern breaks the list; blank ones make no rule; a closed class is told apart from both |
| Ignore.NewIgnoreList | beacon/internal/ignore/ignore.go:58-64 | a broken list has no rules, so nothing is ignored |
| Ignore.OneBadPattern | beacon/internal/ignore/ignore.go:66-78 | a bad pattern anywhere breaks the whole list |
| Ignore.IsIgnored | beacon/internal/ignore/ignore.go:154-166 | ignored iff some positive rule matches with no later negated match, on cleaned paths inside the root |
| Ignore.RulesMeanPatterns | beacon/internal/ignore/ignore.go:66-166 | for a whole list, compiled rules decide as the patterns do: the last pattern that matches wins |
| Ignore.OneMoreLine | beacon/internal/ignore/ignore.go:80-166 | appending a line to a list, on the text: `!` re-includes what the rest matches, anything else excludes it, other paths keep their answer; which paths, for every combination of backslash escape, leading and trailing slash and surrounding white space |
| Ignore.BlankLine | beacon/internal/ignore/ignore.go:80-85 | white space and lines with `#` change nothing, and no lines ignore nothing |
| Ignore.BadLine | beacon/internal/ignore/ignore.go:97-123 | a NUL or an open bracket in any line breaks the list |
| Ignore.EmptyLine | beacon/internal/ignore/ignore.go:86-99 | so do markers around nothing |
| Ignore.WildcardsMean | beacon/internal/ignore/ignore.go:106-136 | `?` stands for exactly one character and `*` for any run, between literal texts |
| Ignore.DoubleStarMeans | beacon/internal/ignore/ignore.go:108-118 | `**` stands for any number of components between literal ones, at the end for at least one |
| Paths.CleanDropsDetours | beacon/internal/ignore/ignore.go:155 | `path.Clean` drops doubled slashes, single dots, and a component with the dot-dot after it |
| NestedPatch.GetAfterSet | beacon/internal/server/config_patcher.go:533-590 | reading a path after setting it gives the value set |
| NestedPatch.SetKeepsDivergent | beacon/internal/server/config_patcher.go:533-590 | setting a path leaves every divergent path's reading alone |
| NestedPatch.DivergentSetsCommute | beacon/internal/server/config_patcher.go:533-590 | sets at divergent paths commute |
| NestedPatch.ReadableTogether | beacon/internal/server/config_patcher.go:533-590 | two scalars can only be read back from one document when the paths diverge or the reads are the same |
| NestedPatch.SetsCommuteIff | beacon/internal/server/config_patcher.go:533-590 | the exact condition for two scalar sets to commute |
| NestedPatch.OrderDoesNotMatter | beacon/internal/server/config_patcher.go:515-521 | a patch whose keys pairwise diverge, or parse to one path with one value, gives one document for every map order |
| NestedPatch.LastIsReadBack | beacon/internal/server/config_patcher.go:533-590 | whatever was set before, the path set last reads its own value |
| NestedPatch.OrderFreeIff | beacon/internal/server/config_patcher.go:515-521 | for scalars at paths that can be set whole, every map order gives one document iff any two keys agree in that sense |
| NestedPatch.PatchIsReadBack | beacon/internal/server/config_patcher.go:515-521 | every patched path reads its value, every divergent path what it read before |
| NestedPatch.PatchIsOrderFree | beacon/internal/server/config_patcher.go:465-480 | both together, for whatever enumeration the loop took |
| NestedPatch.PathIsRead | beacon/internal/server/config_patcher.go:534-537 | a path is read part by part between its dots |
| NestedPatch.PartIsRead | beacon/internal/server/config_patcher.go:539-548 | a part without brackets is a key, with a number in them an item, with anything else broken |
| NestedPatch.KeyIsSet | beacon/internal/server/config_patcher.go:571-589 | setting under a key: the value at the end, and on the way whatever is no object becomes one |
| NestedPatch.ItemIsSet | beacon/internal/server/config_patcher.go:549-568 | setting at an index changes that item only, after filling the array up with empty objects |
| NestedPatch.BrokenIsNotSet | beacon/internal/server/config_patcher.go:545-548 | a broken part ends the walk |
| NestedPatch.ValueIsCoerced | beacon/internal/server/config_patcher.go:593-612 | numerals within 64 bits, `true` and `false` in any case, floats, and text, as written |
| PatchDocument.EnterItem | beacon/internal/server/config_patcher.go:549-568 | growing a slice in place and entering the object at an index, as a change of the one object walked on |
| PatchDocument.PlugValue | beacon/internal/server/config_patcher.go:533-590 | a set at the object a path leads to is a set of the whole path from the root |
| PatchDocument.WholeStored | beacon/internal/server/config_patcher.go:533-590 | changing one object of an unshared document changes the document there and nowhere else |
| PatchDocument.SetNestedValue | beacon/internal/server/config_patcher.go:533-590 | the in-place loop leaves a document whose value is `Set` of the old one, still unshared, touching only its own objects |
| PatchDocument.ApplyPatch | beacon/internal/server/config_patcher.go:474-480 | the patch loop, in any order, sets every path that has no wildcard exactly once, and no other |
| Properties.RewriteLines | beacon/internal/server/config_patcher.go:401-432 | the first loop: each line replaced or kept, and the keys it replaced |
| Properties.AppendMissing | beacon/internal/server/config_patcher.go:433-439 | the second loop appends each missing key once, in any order |
| Properties.ApplyPropertiesPatch | beacon/internal/server/config_patcher.go:395-445 | the file written, for some order of the missing keys |
| Properties.PatchedReading | beacon/internal/server/config_patcher.go:395-445 | the new file reads as the old reading overridden by the replacements |
| Properties.OtherLinesStay | beacon/internal/server/config_patcher.go:406-432 | lines not replaced stay, unchanged and in place |
| Properties.PatchIsIdempotent | beacon/internal/server/config_patcher.go:395-445 | patching again changes nothing, whichever orders the maps took |
| Properties.ReplacementsReadBackIff | beacon/internal/server/config_patcher.go:395-445 | for newline-free values, all replacements read back iff their keys are ones a line can carry |
| Properties.SeparatorMovesValue | beacon/internal/server/config_patcher.go:412-437 | a key with a separator is appended and then read as a new value of the key before it |
| Properties.BadKeyExample | beacon/internal/server/config_patcher.go:406-437 | keys with `=`, a comment mark or leading space; patching `a=1` with the key `a=b` changes `a` |
| Properties.LineIsRead | beacon/internal/server/config_patcher.go:406-423 | key and value of a line, with any white space around the key: the first `=`, or without one the first `:`, separates them |
| Properties.BareLineIsRead | beacon/internal/server/config_patcher.go:420-423 | a line without separators is a key |
| Properties.CommentIsRead | beacon/internal/server/config_patcher.go:407-411 | blank lines and lines with `#` or `!` are kept |
| Properties.OneLineIsReplaced | beacon/internal/server/config_patcher.go:395-445 | a file of one line, patched under its key, as text |
| CrashBreaker.CrashDetector.RecordCrash | beacon/internal/server/crash_detector.go:76-108 | the record is appended and old ones trimmed, for this server only |
| CrashBreaker.CrashDetector.ShouldAutoRestart | beacon/internal/server/crash_detector.go:114-151 | the answer and the whole new guard of this server, no other server touched (what they are in terms of the history: `AskIsJudged`) |
| CrashBreaker.CrashDetector.constructor | beacon/internal/server/crash_detector.go:55-74 | unusable thresholds are replaced by defaults, usable ones kept, every guard starts fresh |
| CrashBreaker.CrashDetector.MarkHealthyObserved | beacon/internal/server/crash_detector.go:207-213 | this server's guard is fresh again (so too `Reset`, whose body is the same), no other touched |
| CrashBreaker.CrashDetector.EscalatedCooldown | beacon/internal/server/crash_detector.go:155-171 | min(cooldown * 2^(trips-1), 6h); every value the local takes stays within max(cooldown, 6h) and within 64 bits |
| CrashBreaker.RunIsPossible | beacon/internal/server/crash_detector.go:76-151 | over any run escalations stay within the ceiling and never go down |
| CrashBreaker.OpenStaysOpen | beacon/internal/server/crash_detector.go:118-120 | once the ceiling is reached no later ask is granted |
| CrashBreaker.AskIsJudged | beacon/internal/server/crash_detector.go:76-151 | after any run with a monotone clock, an ask outside a cooldown and below the ceiling is granted iff fewer than the threshold of the crashes since a cooldown last ran out are inside the window and unclean, or clean exits count; a refusal is a trip and sets the next cooldown |
| CrashBreaker.CooldownDoubles | beacon/internal/server/crash_detector.go:155-171 | the first cooldown is the configured one and each further trip doubles it, up to six hours |
| CrashBreaker.GrantsWithinBudget | beacon/internal/server/crash_detector.go:76-151 | in a window the grants are bounded by what trips and recent crashes have left |
| CrashBreaker.GrantBound | beacon/internal/server/crash_detector.go:76-151 | at most MaxCrashesInWindow * MaxCooldownEscalations - 1 crash-then-ask pairs are granted in any interval no longer than the window |
| CrashBreaker.GrantBoundIsTight | beacon/internal/server/crash_detector.go:76-151 | when the cooldowns fit into the window, a run with a clock that never goes back, from a fresh detector, is granted exactly that many |
| CrashBreaker.CooldownHolds | beacon/internal/server/crash_detector.go:122-131 | no ask before the cooldown ends clears it or trips again |
| CrashBreaker.TripsAreSpaced | beacon/internal/server/crash_detector.go:142-148 | consecutive trips are at least the escalated cooldown apart |
| Hmac.CanonicalString | beacon/internal/crypto/hmac.go:88-100 | the append loop builds the length-prefixed encoding |
| Hmac.CanonicalIsSpelt | beacon/internal/crypto/hmac.go:88-100 | the encoding in full: domain, then verb, URI, timestamp, nonce and body, each behind its decimal length and a colon |
| Hmac.DecodeIff | beacon/internal/crypto/hmac.go:88-100 | a decoder recovers the request from its encoding and from nothing else |
| Hmac.CanonicalIsInjective | beacon/internal/crypto/hmac.go:84-100 | distinct requests never share a MAC input |
| NonceCache.NonceCache.Use | beacon/internal/crypto/hmac.go:222-248 | accepts iff the nonce is 32 hexadecimal digits, has no unexpired earlier acceptance, and there is room; an acceptance runs out a window after the request was issued, or after now if that has passed; keeps every live entry; sets overflow exactly when it refuses for room |
| NonceCache.NonceCache.Sweep | beacon/internal/crypto/hmac.go:260-266 | drops exactly the expired entries |
| NonceCache.LiveAreLatest | beacon/internal/crypto/hmac.go:222-248 | a nonce is live in the unbounded log iff its last acceptance has not run out |
| NonceCache.SweptAreLive | beacon/internal/crypto/hmac.go:260-266 | after a sweep the cache's keys are exactly the live nonces of the unbounded log |
| NonceCache.AcceptedIsRepresented | beacon/internal/crypto/hmac.go:242-247 | recording an acceptance keeps cache and log in agreement and free of replays |
| NonceCache.ReplayIsRefused | beacon/internal/crypto/hmac.go:236-238 | an accepted nonce is refused until its acceptance runs out, whatever is accepted in between |
| NonceCache.RunOutIsForgotten | beacon/internal/crypto/hmac.go:236-248 | once it has run out the nonce is accepted again if there is room |
| Console.Producer.Remember | beacon/internal/server/console.go:146-152 | the replay is always the longest suffix of the history within both limits, `bytes` its total; the trim never indexes an empty slice |
| Console.AppendDominates | beacon/internal/server/console.go:146-147 | appending keeps every fitting suffix inside the replay |
| Console.DropDominates | beacon/internal/server/console.go:148-152 | dropping the oldest entry of a replay that does not fit loses no fitting suffix |
| Console.Deliver | beacon/internal/server/console.go:154-166 | with a receiver running at any point, the queue holds exactly what was offered and neither received nor dropped; the new message is queued or received, and at most one older message is dropped, only when the queue was full |
| Console.Broadcast | beacon/internal/server/console.go:153-167 | that holds of every subscriber, none of them closed |
| Console.Producer.Publish | beacon/internal/server/console.go:139-168 | that holds of every subscriber unless the producer is closed, the history grows by the message, and other channels do not change |
| Console.Producer.Subscribe | beacon/internal/server/console.go:180-192 | a new channel starts with the replay queued and nothing dropped; refused once closed |
| Console.Producer.Unsubscribe | beacon/internal/server/console.go:193-203 | closes the channel unless it is already closed |
| Console.Producer.CloseSubscribers | beacon/internal/server/console.go:238-249 | every channel ever subscribed is closed, each at most once |
| Retention.Apply | beacon/internal/backup/retention.go:35-134 | deletes exactly what is not kept, and is done when the deletes work; a failed delete loses no kept backup; negative settings change nothing |
| Retention.KeepSet | beacon/internal/backup/retention.go:58-122 | the kept set: (age rule plus period rules) within the newest N, plus the newest |
| Retention.KeepPeriod | beacon/internal/backup/retention.go:90-101 | the counting loop keeps the first N of a period |
| Retention.KeptIff | beacon/internal/backup/retention.go:57-122 | which backups are kept, with the hours written out: the newest, and of those young enough or among the first of the last day, week or month, the newest N |
| Retention.SortIsStable | beacon/internal/backup/retention.go:53-55 | backups completed at the same time keep their order |
| Retention.SortIsNewestFirst | beacon/internal/backup/retention.go:53-55 | the stable sort is a newest-first permutation |
| Retention.SortOnly | beacon/internal/backup/retention.go:53-55 | sorting commutes with removing backups, so ranks survive deletions |
| Retention.KeptIsBounded | beacon/internal/backup/retention.go:105-122 | at most MaxBackups are kept when that is positive, the newest among them |
| Retention.RerunKeeps | beacon/internal/backup/retention.go:57-134 | re-running on any superset of the kept set keeps all of it |
| Retention.KeptIsStable | beacon/internal/backup/retention.go:57-134 | on the kept set nothing more is deleted |
| Retention.RetryIsSafe | beacon/internal/backup/retention.go:125-131 | a run stopped by a failed delete can be repeated without losing a kept backup |
| Retention.RetryAgrees | beacon/internal/backup/retention.go:57-134 | when the limit cut off nothing wanted, or leaves no room for what it cut off, a retry keeps exactly the same backups |
| Retention.RetryAgreesIff | beacon/internal/backup/retention.go:57-134 | with distinct ids every retry agrees iff that holds |
| Retention.RetryKeepsMoreExample | beacon/internal/backup/retention.go:105-131 | four backups of which the first run keeps one, and its retry after two deletes keeps two |
| Versions.ParseVersion | beacon/cmd/daemon/update.go:515-549 | the loops compute the parse that `Versions.ParseIff` characterises |
| Versions.ParseIff | beacon/cmd/daemon/update.go:515-549 | a text parses to a version iff it is, trimmed, an optional v, three numerals without leading zeros in range, optional valid identifiers and optional metadata spelling that version |
| Versions.ParseShown | beacon/cmd/daemon/update.go:515-549 | a version in writing parses back to itself |
| Versions.CheckIdentifiers | beacon/cmd/daemon/update.go:539-546 | the identifier loop accepts iff every identifier is non-empty, made of letters, digits, `_`, `.` and `-`, and no number with a leading zero |
| Strconv.AtoiOfNumeral | beacon/cmd/daemon/update.go:527-530 | numerals with or without a sign are read as far as they fit into 64 bits |
| Strconv.NumberIsDecimal | beacon/cmd/daemon/update.go:527-530 | digits are read in base ten |
| Versions.LexicographicChains | beacon/cmd/daemon/update.go:577-589 | the prerelease rule is transitive for any preorder on identifiers |
| Versions.IdentifierIsPreorder | beacon/cmd/daemon/update.go:592-615 | identifiers form a total preorder |
| Versions.CompareIsPreorder | beacon/cmd/daemon/update.go:551-590 | versions form a total preorder, antisymmetric in sign and transitive |
| Versions.ComparedAsWritten | beacon/cmd/daemon/update.go:551-559 | on texts: an error unless both are versions, otherwise the order of what they spell |
| Versions.SmallerCoreIsEarlier | beacon/cmd/daemon/update.go:560-567 | the first number that differs decides, whatever follows |
| Versions.MoreIdentifiersAreLater | beacon/cmd/daemon/update.go:568-589 | a release comes after its prereleases, and more identifiers after fewer of the same |
| Versions.SmallerIdentifierIsEarlier | beacon/cmd/daemon/update.go:577-581 | the first identifier that differs decides |
| Versions.IdentifierOrder | beacon/cmd/daemon/update.go:592-615 | numerals by value, numerals before words, words by their first different character and then by length |
| Versions.FollowsSemVer | beacon/cmd/daemon/update.go:551-615 | the order is item 11 of Semantic Versioning 2.0.0 when all identifiers are ordinary |
| Versions.OrdinaryIff | beacon/cmd/daemon/update.go:592-615 | and an identifier agrees with item 11 against all ordinary ones only if it is ordinary |
| Versions.SignedExample | beacon/cmd/daemon/update.go:592-615 | `-1` against `0`: the comparator and item 11 differ |
| Versions.OutOfRangeExample | beacon/cmd/daemon/update.go:592-615 | the first number beyond int64 against `-`: they differ |
| Versions.ParseReleaseVersion | beacon/internal/server/capabilities.go:432-449 | the comparator's own parser, with its own order of tests |
| Versions.SameNumbers | beacon/internal/server/capabilities.go:441-447 | it reads the same numbers as `parseVersion` |
| Versions.ReleaseIff | beacon/internal/server/capabilities.go:432-449 | the release parser accepts exactly three numerals in range, whatever stands behind a plus or dash |
| Versions.ReleasesAsWritten | beacon/internal/server/capabilities.go:431-467 | the release comparator orders the three numbers alone, and is undefined when either side does not parse |
| Versions.ReleasesAgree | beacon/internal/server/capabilities.go:431-467 | whenever the release comparator is non-zero on versions the updater accepts, both comparators agree |
| Usage.Scan.UsageDir | beacon/internal/rootfs/rootfs.go:295-338 | the subtotal is the sum over files not seen before; it fails iff that sum exceeds int64 or a size is negative |
| Usage.Scan.Usage | beacon/internal/rootfs/rootfs.go:290-293 | the total is the sum over distinct file identities, failing iff it does not fit |
| Usage.SumUnion | beacon/internal/rootfs/rootfs.go:311-336 | subtotals with a shared `seen` add up to the total |
| Usage.RelistingKeepsUsage | beacon/internal/rootfs/rootfs.go:295-338 | the result does not depend on the order in which directories list their entries |

## Left out

- Runtime adapters, HTTP handlers, S3 and remote clients, installer, CLI: foreign calls.
- File modes, timestamps, zip encoding, checksums, rate limiting, cancellation: contents are opaque bytes and a failing step is a failing call.
- `Restore` without `truncate` and with selected paths (`selectRestoreEntries`); metadata files; legacy migration.
- RestoreSwap.Host.Restore: it starts on a disk that can be recovered; `Recover` states the refusal on others, which Restore hands on unchanged. Its own recovery step takes `Lstat` to report correctly; `Recover` states the effect of misreads. The rollback name, which carries the time in nanoseconds, is new on disk and, for the claims about lost operations, in every crash image.
- RestoreSwap.Host.Operate: a run ends at a power loss while exposed, since then some crash image has no tree to go on with.
- RestoreSwap.Host.WriteJournal: the temporary file is not in the model; a write that fails before the rename changes nothing.
- Journal paths are names of one parent directory with a recognised prefix; resolving symbolic links in them is not modelled.
- RestoreBackup.RestoreArchive: validation and extraction are computed before the swap starts instead of after recovery; they touch only the staging root.
- BootRecovery.RecoverRestoreJournals: the directory listing is read once and taken to be true; symbolic links and directories bearing a journal's name are skipped or absent as in the listing.
- Files that change while `Create` walks them, and directory read errors.
- Rootfs: the Linux filesystem only; names have no length limit and symbolic links are not followed. `rootfs_fallback.go` and its lock registry are not part of this model.
- NamespaceLock.EveryCallCanEnter: a particular waiter may be overtaken for as long as new calls keep arriving; fairness of Go's mutexes is not modelled.
- Ignore.CompileRule: what a bracket class matches, and whether its text compiles, is not modelled; a pattern whose brackets are all closed is reported as such.
- Ignore.CompiledMeansPattern: patterns with bracket classes, and with `**` inside a longer segment, have no segment-level meaning here; non-ASCII patterns are compiled byte by byte by the source and are not modelled.
- Ignore.IsIgnored: the regular-expression engine is a denotation; its answers come in as `found`.
- PatchDocument.SetNestedValue: a negative array index panics in the source and is excluded; decoded documents are taken to share no object; slices are values because the source stores them back whole.
- Wildcard paths are skipped, as the callers do; decoding and encoding of JSON and YAML and file size limits are not modelled; `strconv.ParseFloat` is a parameter and floats are kept as text.
- Properties.ApplyPropertiesPatch: ASCII white space only.
- CrashBreaker: thresholds and clock readings are integers; a clock that jumps back is admitted by the step functions, and the theorems about runs say which readings they need ordered. `GetCrashHistory` and `CooldownUntil` only read.
- Hmac: the strength of HMAC and SHA-256 and timing. Bytes are characters; `ValidTimestamp` is left out.
- NonceCache.NonceCache.Use: the clock does not go back; a nil cache is not modelled.
- Console: the manager's map of producers, sessions, `Write` and the throttle. Receivers run at any point between two channel operations of `publish`.
- Retention.Apply: a failing `List` and the saturation of `time.Time.Sub`; time is unbounded.
- Versions: only ASCII white space is trimmed.
- Usage.Scan.UsageDir: read errors are left out; `seen` is a set of file identities instead of a list searched with `os.SameFile`.
