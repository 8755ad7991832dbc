# myVault: a verified model of its file-safety core

myVault keeps notes as ordinary files and moves them through short sequences of atomic steps:
renames, hard links, unlinks and directory syncs on disk, and requests to Google Drive. Any step
may fail, be cut off, or be repeated. This project models those sequences in Dafny and proves what
they promise over every input, every run and every interruption.

| file | what it models |
|---|---|
| `Tree.dfy`, `Paths.dfy`, `Order.dfy`, `Wrappers.dfy` | directory trees as maps from exact names, path texts, collision keys, text order |
| `Disk.dfy`, `VaultCore.dfy` | error and sync values; the vault object, its filesystem calls, the revision-bound content move |
| `Durability.dfy`, `TrashDurability.dfy` | what of a content move, a stage, a publish or a restore survives a crash after each of its disk steps |
| `CaseRenaming.dfy` | the two-step rename to another spelling, fresh and resumed |
| `Mutations.dfy` | directory creation, create, atomic write, compare-and-replace, general move |
| `TrashProtocol.dfy`, `TrashCalls.dfy` | prepare, stage, publish, restore as steps and as calls |
| `TrashRepeats.dfy`, `TrashRuns.dfy`, `TrashListing.dfy` | calls made again for one id, runs of calls over all ids, pages of published items |
| `Inventories.dfy`, `Index.dfy`, `ContentRuns.dfy` | the bounded inventory, the derived index, runs of content operations |
| `Service.dfy`, `Saving.dfy`, `Paging.dfy` | the service object, interleaved saves, pages and the explorer |
| `PrivateStore.dfy`, `TransferRuns.dfy` | the private transfer store and its runs |
| `Encoding.dfy`, `Transfers.dfy`, `Uploads.dfy`, `Reconciling.dfy`, `Ancestry.dfy` | revision texts, provider files, resumable upload, create reconciliation, ancestry walks |
| `Bursts.dfy`, `Suppression.dfy` | burst normalizer and self-write suppressor |

How the model speaks about the system:

- A failure or a stop may happen at every filesystem call. `Vault.Fault` decides, and `Stopped` is a
  call that was cut off and returned nothing. Contracts guarded by `calm` say what happens when
  nothing fails, so every success condition is stated next to every failure condition.
- A file is an object with bytes and a link count; directories hold names. `At(root, p)` is the
  view of one path, and the laws in `Tree.dfy` say what each change shows at every path.
- `Vault.steps` records every flush, with its path and result, and every rename, link, unlink and new
  directory, in order. A new file is written and flushed in one step, which is not recorded.
  The logs and durabilities that calls return are tied to it, so what they report is what they did.
- Hashes, NFKC with case folding, JSON, and the name checks of one component are function-typed
  parameters. Injectivity is assumed only where a lemma says so.
- Provider answers, clocks and crash points are parameters or nondeterministic choices.

Where the code and a plausible claim about it differ, the code is modelled and the exact condition
is proved:

- The source directory is synced even when the destination sync failed, so a content move that goes
  on to report full durability can be lost to a crash between two sync rounds
  (`Durability.LostBetweenRounds`); `Durability.MoveCrashSafe` and `Durability.WholeMoveSafe` give the
  exact condition for every outcome. A call that stops inside a round has done a prefix of its steps,
  and the condition speaks about every prefix. Stage, publish and restore run the same rounds, and
  the same condition is exact for them (`TrashDurability.StageDurably`,
  `TrashDurability.PublishDurably`, `TrashDurability.RestoreDurably`).
- A staging directory left without a manifest (`TrashCalls.CutOffPrepare`) is never prepared again
  (`TrashCalls.TrashStore.PrepareManifest`).
- A stage result folds the durability of the container sync and of the last round only; the
  endpoint sync before publication is not part of it (`TrashCalls.TrashStore.StagePayload`). With the
  sync results of `TrashDurability.StageReportHidesEndpoints` the report is full, and a source entry
  that was not durable before is lost to a crash right after the rename.
- A collision key may contain `/`, and then distinct siblings do not imply distinct paths
  (`Inventories.SolidusCollides`). They do when no name in the tree has such a key
  (`Inventories.SiblingsGivePaths`), and over names closed under the pieces of their keys exactly then
  (`Inventories.SeparatorFreeExactly`). A caller checks it name by name, and the operations keep it
  (`ContentRuns.PerformAll`).
- A save that was published but reported as unknown breaks the chain of *reported* saves
  (`Saving.HiddenSaveBreaksChain`); *published* saves always chain (`Saving.PublicationsChain`), and
  `Saving.ReportedSavesChain` says exactly when reported ones do.
- `publish_base` fails after removing its stage exactly when another stage still links the object
  (`PrivateStore.PrivateTransferStore.PublishBase`); `PrivateStore.LinkedByAnother` is such a state, one
  cut-off publish away from two finished stages of one stream.
- An accepted stream is lost by `discard_incomplete_stage` only to a caller that expects more bytes
  than were accepted (`PrivateStore.PrivateTransferStore.DiscardIncomplete`), and then it can be
  (`PrivateStore.AcceptedIsDropped`).
- A non-empty upload at `next_offset == size` accepts no chunk; only a status query finishes it
  (`Uploads.StuckAtTheEnd`, `Uploads.UploadSession.QueryStatus`).
- If a request took effect after its session was given up, two files could carry one marker
  (`Reconciling.LateRequestDuplicates`).

## Model

| member | source | states |
|---|---|---|
| `TrashProtocol.RunKeepsFile` | crates/myvault-core/src/vault.rs:2636-3705 | in every run over any ids, calls cut off anywhere, a content file is always at exactly one path, its own or a payload whose manifest names it; bytes never change; no id has two item directories |
| `TrashProtocol.RunKeepsInv` | crates/myvault-core/src/vault.rs:2636-2797 | every state of a run has at most one of staging and items per id, and a valid manifest beside every payload |
| `TrashProtocol.RunKeepsHomes` | crates/myvault-core/src/vault.rs:2941-3195 | which file belongs to which content path is the same in every state of a run |
| `TrashProtocol.RunKeepsPublished` | crates/myvault-core/src/vault.rs:3378-3489 | once published, a manifest is the same file with the same bytes for ever |
| `TrashProtocol.RestoredRunIsIdentity` | crates/myvault-core/src/vault.rs:3535-3705 | any calls over any ids on a vault with any trash: if at the end the trash holds the same files for the same paths as at the start, the tree outside `.trash` is exactly what it was |
| `TrashProtocol.IdentityExactly` | crates/myvault-core/src/vault.rs:2636-3705 | and only then: an if-and-only-if when files in the trash and content files are at one path each |
| `TrashProtocol.StepKeeps` | crates/myvault-core/src/vault.rs:2636-3705 | one call, wherever it stops, keeps the invariant, every home, every published manifest and all bytes |
| `TrashCalls.TrashStore.PrepareManifest` | crates/myvault-core/src/vault.rs:2636-2797 | only adds what a prepare may add; success binds the manifest, and its last steps flush the item directory, the manifest and the directory again; a repeat is recognised and changes nothing; a directory without a manifest is never prepared; exact outcome when nothing fails, another manifest and two directories included |
| `TrashCalls.CutOffPrepare` | crates/myvault-core/src/vault.rs:2739-2766 | a prepare cut off after its mkdir is a step of the protocol that leaves a directory without a manifest |
| `TrashCalls.TrashStore.StagePayload` | crates/myvault-core/src/vault.rs:2941-3195 | moves exactly the bound source file or nothing; after the rename only success or an unknown outcome is reported; exact outcome when nothing fails; every flush and the rename, in order and by directory, with the durability they give |
| `TrashCalls.TrashStore.PublishItem` | crates/myvault-core/src/vault.rs:3378-3489 | moves exactly the complete staging directory or nothing, with the same honesty about outcomes and steps; exact outcome when nothing fails |
| `TrashCalls.TrashStore.RestoreItem` | crates/myvault-core/src/vault.rs:3535-3705 | moves exactly the payload to the path its manifest names or nothing; honest about outcomes and steps; exact outcome when nothing fails |
| `TrashCalls.TrashStore.ConfirmPublishedStage` | crates/myvault-core/src/vault.rs:3198-3257 | a stage repeated after publishing is confirmed only when the published item is complete and the source is gone |
| `TrashCalls.TrashStore.ConfirmManifest` | crates/myvault-core/src/vault.rs:2799-2873 | success means the exact manifest is in place and was flushed with its directory before and after; a failed check after the rename is an unknown outcome; another manifest is a collision |
| `TrashCalls.TrashStore.ReadManifest` | crates/myvault-core/src/vault.rs:4198-4247 | reads exactly a canonical, bounded, single-link manifest that is valid for its id; what valid means, field by field; every refusal but a failed read means there is none |
| `TrashCalls.TrashStore.ScanItem` | crates/myvault-core/src/vault.rs:4014-4096 | accepts exactly the item directories with allowed names and at most 32 temporaries |
| `TrashCalls.TrashStore.ConfirmRestored` | crates/myvault-core/src/vault.rs:3749-3807 | reports success only for a payload-free item whose exact file is at the destination |
| `TrashRuns.RunCalls` | crates/myvault-core/src/vault.rs:2636-3705 | every sequence of store calls is a run of the protocol and keeps its invariant |
| `TrashRuns.RunCallsKeepsFiles` | crates/myvault-core/src/vault.rs:2636-3705 | the same for the calls themselves: each content file stays at one place that belongs to it, and the same files in the trash mean an unchanged content tree |
| `TrashRuns.RoundTrip` | crates/myvault-core/src/vault.rs:2636-3705 | when prepare, stage, publish and restore of an item all succeed, the tree outside `.trash` ends as it began; and they do succeed when nothing fails, the file is where the manifest says, the id is new and nothing is in the way |
| `TrashRuns.ThereAndBack` | crates/myvault-core/src/vault.rs:2941-3705 | the three moves of one item compose to no change outside `.trash` |
| `TrashRepeats.StageAgain` | crates/myvault-core/src/vault.rs:2941-3195 | staging a prepared item twice, the first call with any result or cut off: the second succeeds, both together move the source exactly once; after a success the second says AlreadyStaged and changes nothing, after an error other than unknown it stages |
| `TrashRepeats.PublishAgain` | crates/myvault-core/src/vault.rs:3378-3489 | the same for publishing a staged item |
| `TrashRepeats.RestoreAgain` | crates/myvault-core/src/vault.rs:3535-3705 | the same for restoring a published item |
| `TrashRepeats.PrepareAgain` | crates/myvault-core/src/vault.rs:2636-2797 | once a prepare succeeded, an undisturbed one recognises it and changes nothing |
| `TrashRepeats.RepeatAfterPublish` | crates/myvault-core/src/vault.rs:2655-3257 | after a publish, preparing, staging and publishing again give the three Already outcomes and an unchanged tree |
| `TrashRepeats.FinishAfterCuts` | crates/myvault-core/src/vault.rs:2636-3489 | after any number of prepares, stages and publishes of a prepared item, each failed or cut off anywhere, one undisturbed stage and publish put the very file into the items container, fully synced |
| `TrashRepeats.PreparedPhase` | crates/myvault-core/src/vault.rs:2739-2797 | a fresh prepare of an ordinary file leaves an item that is ready to be staged, with every way clear |
| `TrashRepeats.StageMoved` | crates/myvault-core/src/vault.rs:3063-3093 | only a prepared item can be staged; the rename leaves it staged, the file the same, and no way blocked |
| `TrashRepeats.PublishMoved` | crates/myvault-core/src/vault.rs:3378-3489 | only a staged item can be published; the rename leaves it published, the file the same, and no way blocked |
| `TrashDurability.StageDurably` | crates/myvault-core/src/vault.rs:2941-3195 | a durable payload survives every crash point of a stage exactly when the source directory is not the first one fully synced after the rename; a full report puts it durably into staging alone |
| `TrashDurability.PublishDurably` | crates/myvault-core/src/vault.rs:3378-3489 | the same for the item directory of a publish |
| `TrashDurability.RestoreDurably` | crates/myvault-core/src/vault.rs:3535-3705 | the same for the payload of a restore |
| `TrashDurability.StageReportHidesEndpoints` | crates/myvault-core/src/vault.rs:3018-3195 | sync results with a full report although the endpoints were not synced before the rename, and a crash point that loses the file |
| `VaultCore.Vault.MoveContent` | crates/myvault-core/src/vault.rs:837-995 | moves exactly the expected single-link file to an empty, collision-free place or nothing; errors other than an unknown outcome mean no rename; resuming never renames; the outcome decided by the two ends when nothing fails; for every outcome the flushes and the rename that really happened, in order and by directory |
| `VaultCore.Vault.SettleMove` | crates/myvault-core/src/vault.rs:951-992 | after the rename: success or an unknown outcome only, with the rounds that happened and the durability they allow |
| `VaultCore.Vault.ConfirmContentMove` | crates/myvault-core/src/vault.rs:1459-1548 | after a failed sync round: success with a clean second round and the exact file at the destination alone, and only then |
| `VaultCore.Vault.RejectSiblingCollision` | crates/myvault-core/src/vault.rs:2237-2259 | accepts a name exactly when no other name of the directory shares its key |
| `VaultCore.Vault.OpenParentChecked` | crates/myvault-core/src/vault.rs:2106-2123 | opens a parent exactly when every step is a directory and no component collides |
| `VaultCore.Vault.VerifyExpected` | crates/myvault-core/src/vault.rs:1827-1847 | accepts exactly a regular file at the expected revision within the limit |
| `Disk.MoveSyncReport.IntoResult` | crates/myvault-core/src/vault.rs:4322-4333 | a result exists exactly without a failed sync, and is full exactly when every sync was full |
| `Disk.RevisionForm` | crates/myvault-core/src/revision.rs:34-45 | a revision is well formed exactly when its hash is 64 lower-case hex digits |
| `Durability.MoveCrashSafe` | crates/myvault-core/src/vault.rs:872-992 | for every renaming cross-directory move, whatever it returned or wherever it stopped, and any durability of the source at the start: from the rename on every crash point is safe exactly when the source was durable before it and is not the first directory fully synced after it; a full first destination sync makes it so |
| `Durability.SourceFirst` | crates/myvault-core/src/vault.rs:958-968 | which sync results make the source the first directory fully synced |
| `Durability.WholeMoveSafe` | crates/myvault-core/src/vault.rs:837-995 | over a whole call, with or without a rename, a durable source file survives every crash point exactly under that condition |
| `Durability.MoveDurably` | crates/myvault-core/src/vault.rs:837-995 | the same for the call itself, over the steps it really did; `Moved(FullySynced)` leaves the file durably at the destination alone |
| `Durability.SafeAfterRename` | crates/myvault-core/src/vault.rs:958-968 | after the rename every crash point is safe exactly when the source is not the first directory fully synced |
| `Durability.FullySyncedMove` | crates/myvault-core/src/vault.rs:1525-1547 | `Moved(FullySynced)` means full classification and last rounds, and the file durably at the destination only |
| `Durability.LostBetweenRounds` | crates/myvault-core/src/vault.rs:965-968 | sync results the code can meet that report full durability and yet lose the file at a crash point |
| `CaseRenaming.CaseRename` | crates/myvault-core/src/vault.rs:1047-1219 | each call does one of the allowed renames or nothing, each rename only after a successful flush; success reports what all its flushes gave; resuming never acts while the source exists; the outcome decided by the ends and the mode when nothing fails |
| `CaseRenaming.CaseRenameState` | crates/myvault-core/src/vault.rs:1256-1303 | reports exactly which ends exist and refuses exactly a third name with one of their keys |
| `CaseRenaming.SyncCaseRenamePhase` | crates/myvault-core/src/vault.rs:1316-1385 | success means the exact file is at the expected end alone; every error is an unknown outcome |
| `CaseRenaming.CaseRunKeeps` | crates/myvault-core/src/vault.rs:1047-1219 | any number of calls in any modes, cut off anywhere, keep the object at exactly one end and touch no other path |
| `CaseRenaming.CaseStepSettled` | crates/myvault-core/src/vault.rs:1047-1219 | a call cut off anywhere leaves the exact file at one end alone, with every check ready to pass again |
| `CaseRenaming.FinishAfterCuts` | crates/myvault-core/src/vault.rs:1047-1219 | after any calls in any modes cut off anywhere, one call without a failure ends at the destination: resumed once the source is gone, fresh otherwise |
| `Mutations.CreateDirectories` | crates/myvault-core/src/vault.rs:595-613 | adds only missing directories on the way and nothing if all exist, and flushes the parent of each; keeps siblings distinct; succeeds without a failure whenever nothing on the way collides or is not a directory |
| `Mutations.CreateDirectoriesFor` | crates/myvault-core/src/vault.rs:589-593 | the same behind the policy: refuses the trash, and metadata to an automatic writer, and changes nothing then |
| `Mutations.CreateContent` | crates/myvault-core/src/vault.rs:424-518 | success creates exactly one new file with the declared bytes and replaces nothing, flushed after the link and after the unlink; other errors leave the place as it was, and without a failure no temporary file; a stream that is not the declared one is told apart; siblings stay distinct; succeeds without a failure at every free place, also behind missing parents |
| `Mutations.AtomicWrite` | crates/myvault-core/src/vault.rs:1939-1974 | either only a leftover temporary is new or the file has exactly the new bytes, renamed and flushed; any spelling of `.trash` is refused, and of `.obsidian` to an automatic writer, each with its own error and no change; succeeds without a failure on every other collision-free name that no directory or link holds |
| `Mutations.ReplaceContent` | crates/myvault-core/src/vault.rs:1976-2090 | replaces exactly the expected revision or nothing, with one rename and one flush whose result it reports; says unknown only after the swap; another revision is refused as stale; without a failure no refusal leaves anything behind |
| `Mutations.AtomicMoveLocked` | crates/myvault-core/src/vault.rs:1550-1625 | renames a file or directory to an empty, collision-free place or does nothing |
| `Mutations.AtomicMove` | crates/myvault-core/src/vault.rs:1387-1402 | rewrites the source prefix to the destination prefix or does nothing; either end in the trash, or in metadata for an automatic caller, is refused with its own error and no change; one rename, then one flush of each directory, whose results are the durability; siblings stay distinct |
| `Mutations.MovesByPrefix` | crates/myvault-core/src/vault.rs:1550-1625 | the move is a bijection of paths: no entry is lost, merged or changed |
| `Mutations.MoveKeepsDistinct` | crates/myvault-core/src/vault.rs:2237-2259 | moving a whole subtree to a collision-free name keeps siblings distinct everywhere |
| `Mutations.AddKeepsDistinct` | crates/myvault-core/src/vault.rs:595-613 | adding one collision-free entry keeps siblings distinct |
| `Mutations.WriteKeepsDistinct` | crates/myvault-core/src/vault.rs:1939-1974 | writing to a collision-free name keeps siblings distinct |
| `ContentRuns.PerformAll` | crates/myvault-core/src/vault.rs:2237-2259 | every run of successful directory creations, creates, writes, replaces, moves, case renames and restores on paths of plain names keeps siblings distinct and all names plain, hence file keys distinct |
| `ContentRuns.MovedStaysPlain` | crates/myvault-core/src/vault.rs:1550-1625 | moving a subtree keeps every name in the vault plain |
| `ContentRuns.RespellKeepsDistinct` | crates/myvault-core/src/vault.rs:1256-1303 | a finished case rename keeps siblings distinct |
| `ContentRuns.SameLeafKey` | crates/myvault-core/src/vault.rs:1221-1254 | paths of one parent with one full key have one leaf key |
| `Inventories.Inventory` | crates/myvault-core/src/vault.rs:565-581 | succeeds exactly when depth, count, names, links and file keys meet the limits, and then lists exactly the content files of the vault in strictly increasing order, each with its length and kind |
| `Inventories.InventoryDir` | crates/myvault-core/src/vault.rs:2125-2212 | the walk of one directory: the same condition below it, an exact count and an exact listing |
| `Inventories.VisitEntry` | crates/myvault-core/src/vault.rs:2164-2210 | one entry is accepted exactly when it and everything below it may be |
| `Inventories.RejectEqualKeys` | crates/myvault-core/src/vault.rs:570-579 | refuses exactly listings in which two entries share a key |
| `Inventories.SortEntries` | crates/myvault-core/src/vault.rs:569-569 | strictly increasing path order with the same entries |
| `Inventories.SiblingsGivePaths` | crates/myvault-core/src/path.rs:142-148 | when no name in the tree has a key with a separator, distinct siblings make the keys of all paths distinct |
| `Inventories.SiblingsGiveKeysDistinct` | crates/myvault-core/src/vault.rs:570-579 | so an inventory of such a vault never reports a collision |
| `Inventories.SeparatorFreeExactly` | crates/myvault-core/src/path.rs:164-166 | over any set of names closed under the pieces of their keys: every tree with distinct siblings has distinct file keys if and only if no key of a name contains a separator |
| `Inventories.SolidusCollides` | crates/myvault-core/src/path.rs:164-166 | with a name that holds the fullwidth solidus, a tree with distinct siblings has two files with one key |
| `Inventories.CollidingCollides` | crates/myvault-core/src/path.rs:164-166 | the tree that fails, for any name whose key contains a separator |
| `Paths.FromPortable` | crates/myvault-core/src/path.rs:50-79 | returns the canonical components of a text, and refuses exactly the empty, absolute, dot-led, nameless and too long ones and those with a backslash, a parent or a name that is not portable |
| `Paths.KeptInsert` | crates/myvault-core/src/path.rs:62-71 | an empty segment or a single dot anywhere in a text makes no difference |
| `Paths.CanonicalRoundTrip` | crates/myvault-core/src/path.rs:112-129 | parsing the text of a vault path gives the path back |
| `Paths.JoinInjective` | crates/myvault-core/src/path.rs:112-125 | paths of separator-free components are told apart by their text |
| `Paths.JoinSplit` | crates/myvault-core/src/path.rs:112-125 | joining undoes splitting on every text |
| `Index.DerivedIndex.InsertRecord` | crates/myvault-core/src/index.rs:375-431 | stores a record exactly when it is valid and no other path has its key; invalid are exactly internal paths, missing hashes and lengths beyond the table |
| `Index.DerivedIndex.Upsert` | crates/myvault-core/src/index.rs:102-107 | all or nothing, with the exact condition for success |
| `Index.DerivedIndex.Remove` | crates/myvault-core/src/index.rs:114-119 | removes exactly the row of the path or nothing |
| `Index.DerivedIndex.Rebuild` | crates/myvault-core/src/index.rs:129-137 | replaces all rows by the last record of each path or keeps all; succeeds exactly on records that can live together |
| `Index.FindCollision` | crates/myvault-core/src/index.rs:433-445 | finds exactly another path with the same key |
| `Index.LatestIsLast` | crates/myvault-core/src/index.rs:129-137 | the row of a path after a rebuild is its last record |
| `Index.InventoryIsRebuildable` | crates/myvault-core/src/index.rs:375-392 | records made from a successful inventory always rebuild, and the index then has exactly the content files |
| `Index.RebuildFromVault` | crates/myvault-core/src/index.rs:129-137 | on a vault with distinct siblings within the limits, inventory and rebuild go through |
| `Service.AppService.SaveNote` | crates/myvault-app-service/src/lib.rs:1059-1141 | only the requested session's note at the expected revision is replaced, and its old bytes are in the snapshot store by then; which names, texts and sessions are refused, with no change; a note with another text is reported as stale and kept; exact success condition, with the durability the flush gave |
| `Service.AppService.ReadExpected` | crates/myvault-core/src/vault.rs:268-333 | reads exactly a single-link note at the expected revision |
| `Service.AppService.Close` | crates/myvault-app-service/src/lib.rs:394-405 | closes exactly the requested session |
| `Saving.OverwrittenIsSnapshotted` | crates/myvault-app-service/src/lib.rs:1091-1127 | in every interleaving, with injective revisions, every overwritten byte string is in the snapshot store |
| `Saving.PublicationsChain` | crates/myvault-core/src/vault.rs:2007-2053 | consecutive published saves of a note: each expects, and replaces, exactly what the previous one wrote |
| `Saving.ChainExactly` | crates/myvault-core/src/vault.rs:2007-2053 | for any two published saves of a note: the later expects what the earlier wrote if and only if nothing touched the note in between or the last thing that did left that revision |
| `Saving.ReportedSavesChain` | crates/myvault-app-service/src/lib.rs:1122-1141 | consecutive reported saves chain if and only if no hidden change lies in between or the last one left the first save's revision |
| `Saving.NoLostUpdate` | crates/myvault-core/src/vault.rs:2007-2053 | two saves expecting one revision cannot both win unless the note got that revision again in between |
| `Saving.PublishedInItsSession` | crates/myvault-app-service/src/lib.rs:1081-1090 | a save takes effect only while the session it was meant for is active |
| `Saving.HiddenSaveBreaksChain` | crates/myvault-core/src/vault.rs:2077-2090 | a run in which an unreported publication breaks the chain of reported saves |
| `Saving.RunKeeps` | crates/myvault-app-service/src/lib.rs:1081-1127 | the invariant of all interleavings: callers, contents by replay, soundness of every publication |
| `Paging.CutPage` | crates/myvault-app-service/src/lib.rs:1011-1031 | the binary-searched window is the first entries behind the cursor, by plain selection, and full unless nothing is left |
| `Paging.PartitionPoint` | crates/myvault-app-service/src/lib.rs:1011-1013 | the first entry strictly behind the cursor |
| `Paging.ListExplorer` | crates/myvault-app-service/src/lib.rs:974-1034 | succeeds exactly for a valid limit, a canonical cursor and an acceptable vault; the page is cut from the full listing |
| `Paging.BrowseExplorer` | crates/myvault-app-service/src/lib.rs:974-1034 | asking for page after page of an unchanged vault with each returned cursor ends, succeeds exactly for a valid limit and an acceptable vault, and returns the whole listing in order |
| `Paging.CursorAccepted` | crates/myvault-app-service/src/lib.rs:986-1002 | every cursor the explorer hands out is the text of a canonical path, so the next call accepts it |
| `Paging.StableReturnedOnce` | crates/myvault-core/src/vault.rs:2420-2471 | however the listing changes between pages, an entry present at every call is returned exactly once |
| `Paging.CursorsIncrease` | crates/myvault-app-service/src/lib.rs:1011-1031 | cursors strictly increase, whatever changes |
| `TrashListing.ListPage` | crates/myvault-core/src/vault.rs:2394-2471 | the page is cut from the canonical ids in order and full unless nothing is left, other names are counted, each entry is truthful about its item; exact success condition when nothing fails |
| `TrashListing.ListTrash` | crates/myvault-app-service/src/lib.rs:933-966 | a page of truthful entries cut from the canonical ids in order, only for a cursor that is an id; exact success condition when nothing fails |
| `TrashListing.BrowseTrash` | crates/myvault-app-service/src/lib.rs:933-966 | asking for page after page of an unchanged trash ends with one truthful entry for every canonical id, in order; no call fails when nothing fails |
| `TrashListing.InspectItem` | crates/myvault-core/src/vault.rs:2514-2610 | an item is supported only when names, manifest, link count and length fit; it is called opaque only when they do not, whatever fails, and always then when nothing fails |
| `TrashListing.FindItems` | crates/myvault-core/src/vault.rs:2474-2494 | tells whether the items directory exists, refusing collisions and non-directories on the way |
| `PrivateStore.PrivateTransferStore.BeginStage` | crates/myvault-app-service/src/transfer.rs:185-220 | adds exactly one empty stage for a new operation or nothing |
| `PrivateStore.PrivateTransferStore.Write` | crates/myvault-app-service/src/transfer.rs:48-67 | appends a prefix of the bytes to an open stage within its limit, all of them when nothing fails, and nothing beyond the limit |
| `PrivateStore.PrivateTransferStore.FinishStage` | crates/myvault-app-service/src/transfer.rs:222-251 | closes the writer; accepts a stream only with the declared digest and length, and then always when nothing fails and the stage is in place |
| `PrivateStore.PrivateTransferStore.LoadStage` | crates/myvault-app-service/src/transfer.rs:253-276 | loads exactly a stage with the declared digest and length |
| `PrivateStore.PrivateTransferStore.DiscardIncomplete` | crates/myvault-app-service/src/transfer.rs:278-315 | removes exactly a too short, unlinked stage; accepted streams are lost only to a caller that expects more; a complete stage is told apart from one with other bytes |
| `PrivateStore.PrivateTransferStore.PublishBase` | crates/myvault-app-service/src/transfer.rs:337-392 | leaves nothing, the link, or the link without the stage; with no failure the stage goes and success holds exactly when no other stage links the object |
| `PrivateStore.PrivateTransferStore.OpenBase` | crates/myvault-app-service/src/transfer.rs:394-411 | opens an object only with the named digest and length, and always when nothing fails and no stage links it |
| `PrivateStore.LinkedByAnother` | crates/myvault-app-service/src/transfer.rs:337-392 | two finished stages of one stream, and the state after a publish of the first was cut off behind its link: the second is publishable and its object stays linked by another stage |
| `PrivateStore.AcceptedIsDropped` | crates/myvault-app-service/src/transfer.rs:278-315 | an accepted, unpublished stream is no longer kept once its stage is dropped |
| `TransferRuns.PublishStage` | crates/myvault-app-service/src/transfer.rs:445-485 | nothing reaches the vault before an object with the bytes exists; an existing-target request never changes the vault; with no failure a finished stage that no other shares becomes the new vault file at every free content path |
| `TransferRuns.RunAll` | crates/myvault-app-service/src/transfer.rs:185-392 | in every run of calls each object is what its name says and stays, and every stream ever accepted stays readable unless a discard expected more bytes of it, byte for byte when digests do not collide |
| `Uploads.PlanPassesGuard` | crates/myvault-drive/src/transfer.rs:129-144 | planning succeeds exactly while something is left, and every plan passes the upload guard |
| `Uploads.PlanAll` | crates/myvault-drive/src/transfer.rs:129-144 | following the plan tiles the file from 0 to its size |
| `Uploads.StuckAtTheEnd` | crates/myvault-drive/src/transfer.rs:129-132 | a non-empty session at its size accepts no chunk |
| `Uploads.RangeRoundTrip` | crates/myvault-drive/src/transfer.rs:1305-1315 | a truly reported prefix is read back as it is |
| `Uploads.ContentRangeReadBack` | crates/myvault-drive/src/transfer.rs:770-779 | the header of every chunk is parsed back to its first byte, its last byte and the length of the file; an empty file announces no bytes |
| `Uploads.ResumeRangeForm` | crates/myvault-drive/src/transfer.rs:1305-1315 | only a header that starts at byte 0 is read, as one more than its last byte |
| `Uploads.UploadSession.DecodeResponse` | crates/myvault-drive/src/transfer.rs:1040-1091 | errors leave the offset; a 308 is taken exactly within bounds; completion names only a file that matched twice at no lower version |
| `Uploads.UploadSession.UploadChunk` | crates/myvault-drive/src/transfer.rs:750-783 | sends exactly the final chunks and the multiples of 256 KiB up to 8 MiB; a server reads from the header exactly the first and last byte and the length of the file; every true 308 within what was sent is taken over; completes exactly on a confirmed file; the error of every other reply |
| `Uploads.UploadSession.QueryStatus` | crates/myvault-drive/src/transfer.rs:789-793 | asks with a header that announces no bytes; takes over every true report; never lowers the offset; completes exactly on a confirmed file, also a stuck session |
| `Uploads.RunSession` | crates/myvault-drive/src/transfer.rs:750-1091 | over any calls and replies the offset is monotone, bounded by the size, unchanged by errors and growing with each acknowledged chunk |
| `Uploads.UploadRunSafe` | crates/myvault-drive/src/transfer.rs:1040-1091 | against a truthful server with lost replies, client offset is at most the stored length and stored bytes are a prefix of the file |
| `Uploads.QueryCatchesUp` | crates/myvault-drive/src/transfer.rs:789-793 | one delivered status query brings the client level with the server |
| `Uploads.ChunkMovesOn` | crates/myvault-drive/src/transfer.rs:750-783 | a chunk stored in full and acknowledged moves the client to its end |
| `Transfers.DescribeObject` | crates/myvault-drive/src/transfer.rs:1246-1281 | describes exactly matching files with a valid version, truthfully |
| `Transfers.RecheckExisting` | crates/myvault-drive/src/transfer.rs:1122-1136 | returns the file read back exactly when it is the same file and still matches |
| `Transfers.MatchesExactly` | crates/myvault-drive/src/transfer.rs:704-713 | a file matches an intent exactly when it is, up to id and version, the file that the metadata of the create request makes |
| `Reconciling.ReconcileCreate` | crates/myvault-drive/src/transfer.rs:591-649 | each of the six answers exactly under its own condition: a permit when both queries were complete and empty, an existing file when it was seen alone and read back with equal content, either mismatch when the only file does not fit at once or on reading back, either duplicate |
| `Reconciling.RetryAfterLostReply` | crates/myvault-drive/src/transfer.rs:591-610 | a retry after a lost completion reply recognises the created file |
| `Reconciling.VerifyCreatedUpload` | crates/myvault-drive/src/transfer.rs:658-689 | succeeds exactly when marker and name each matched only the created file and reading it back still does |
| `Reconciling.QueryFiles` | crates/myvault-drive/src/transfer.rs:988-1025 | accepts exactly complete answers of valid, live files of the folder |
| `Reconciling.AtMostOneCarrier` | crates/myvault-drive/src/transfer.rs:591-742 | in every run with lost replies and restarts at most one live file carries the marker |
| `Reconciling.LateRequestDuplicates` | crates/myvault-drive/src/transfer.rs:697-742 | a run with a late request that ends with two carriers |
| `Reconciling.VerifyUnique` | crates/myvault-drive/src/transfer.rs:658-689 | with exact answers, a successfully verified upload was the only live file of its folder with the marker and the only one with the name when each was asked, and in a run without other markers the only carrier anywhere |
| `Ancestry.EnsureFolderBelowRoot` | crates/myvault-drive/src/transfer.rs:959-982 | accepts exactly folders at most 128 live single-parent hops below the root |
| `Ancestry.ResolveChange` | crates/myvault-drive/src/client.rs:343-403 | exactly one answer is explained by hops and the scan, and it is given: the scanned path if it is accepted, outside when fewer than 64 hops lead to the top of a drive, malformed when they lead to broken metadata or the path is refused, ambiguous otherwise |
| `Ancestry.ExplainedExactly` | crates/myvault-drive/src/client.rs:343-403 | exactly one answer fits hops and scan: the one of the plain walk |
| `Ancestry.WalkEnds` | crates/myvault-drive/src/client.rs:376-401 | the walk ends outside exactly when it climbs to a live folder without parents, and malformed exactly when it climbs to broken metadata |
| `Ancestry.InsideMeansReaches` | crates/myvault-drive/src/client.rs:372-402 | a change is inside exactly when its parent reaches the root in fewer than 64 hops |
| `Ancestry.ResolvedAsScanned` | crates/myvault-drive/src/client.rs:503-514 | the resolved path is exactly the path the level-by-level scan gives |
| `Ancestry.ScannedPathUnique` | crates/myvault-drive/src/client.rs:503-514 | within reach of the walk a file has one scanned path |
| `Ancestry.ReachesOnce` | crates/myvault-drive/src/client.rs:372-402 | the distance to the root is unique |
| `Encoding.EncodeDecode` | crates/myvault-drive/src/transfer.rs:1406-1428 | decoding then encoding is the identity on every accepted revision |
| `Encoding.DecodeEncode` | crates/myvault-drive/src/transfer.rs:1406-1428 | encoding then decoding gives the decimal without leading zeros |
| `Encoding.EncodeMonotone` | crates/myvault-drive/src/transfer.rs:1391-1428 | numeric order is text order of the encodings, equality too, and the regression check agrees with it |
| `Encoding.EncodeInjective` | crates/myvault-drive/src/transfer.rs:1422-1428 | equal encodings mean versions equal up to leading zeros |
| `Encoding.DecodeAccepts` | crates/myvault-drive/src/transfer.rs:1406-1420 | accepts exactly encodings of numbers below 2^64; the final comparison never rejects |
| `Encoding.ScannerAgrees` | crates/myvault-drive/src/model.rs:77-110 | the scanner attaches the same revision wherever both accept, and accepts more exactly by a plus sign or more than twenty characters |
| `Bursts.Normalize` | crates/myvault-core/src/watcher.rs:33-55 | first all renames in order, then in path order exactly one event for each path whose last event is no rename: a delete for a delete, an upsert for a create or modify; on every set of existing paths that has the effect of the raw events |
| `Bursts.SameEffect` | crates/myvault-core/src/watcher.rs:33-55 | the same for every possible output of the normalizer |
| `Bursts.OncePerPath` | crates/myvault-core/src/watcher.rs:33-55 | at most one non-rename event per path |
| `Bursts.Idempotent` | crates/myvault-core/src/watcher.rs:33-55 | normalizing an output again returns it unchanged |
| `Bursts.BurstNormalizer.Push` | crates/myvault-core/src/watcher.rs:33-49 | the new table and renames after one event |
| `Bursts.BurstNormalizer.Finish` | crates/myvault-core/src/watcher.rs:52-55 | renames in order, then the kept events in path order |
| `Suppression.HiddenExactly` | crates/myvault-core/src/watcher.rs:91-109 | an observation is hidden exactly when it equals the latest record of its path, unexpired and not used before |
| `Suppression.PrunesNeverMatter` | crates/myvault-core/src/watcher.rs:111-114 | traces that differ only in prune calls give the same answers |
| `Suppression.HiddenAtMostRecords` | crates/myvault-core/src/watcher.rs:81-109 | per path, hidden observations and live tokens never exceed records |
| `Suppression.RunSuppressor` | crates/myvault-core/src/watcher.rs:81-114 | running the object over any calls: with a clock that never goes back it hides exactly the echoes of unexpired, unused latest records; per path never more than were recorded; and prunes never change an answer |

## Left out

- Operating-system details: permissions, symlink and reparse races, mount and handle identity, Windows code paths. Renames are atomic and never replace unless asked to, and directories keep their identity.
- Locks and threads of the vault: the mutation lock makes each call one sequence of steps. Interleaving is modelled where callers really interleave, in `Saving.dfy`.
- `hard_link` meeting an object that appeared in between (`publish_base` calls itself again): store calls run one after the other.
- Writers outside the system during a call, and the test hooks that stand for them.
- Hash functions, Unicode normalization, JSON, UUIDs and SQLite internals: opaque functions, texts and a keyed table.
- `create_new`, `read`, `read_bounded` and `revision`: they would only add easy members.
- Transport, OAuth, tokens, redirects and URL checks: a provider reply is a value, and a failed request is one value for all reasons. `ensure_binding` and the folder check before each request are taken as passed.
- Downloads (`download_blob_to`, `verify_download` and the candidate checks): only the revision conversion they use is modelled.
- The frontend, error texts and error mapping tables, the recovery journal, the mutation service, the sync engine's store and the prototype crate.
- VaultCore.Vault.ConfirmContentMove: a parent sync that was not attempted counts as failed; the status text that tells the two apart is not modelled.
- Reconciling.AtMostOneCarrier: assumes that no one else hands out the marker, revives a trashed file that has it or moves such a file away, and that a request given up has no later effect.
- Ancestry.ResolvedAsScanned: the scan does not list the root again below itself.
- TransferRuns.RunAll: publishes only stages whose writer is closed, as callers do.
- TrashListing.ListPage: ids are compared by their text, which for canonical ids is the order of their bytes; the reopening of each item directory to compare identities is not modelled.
- Index.DerivedIndex.Rebuild: rows are keyed by path components instead of path text; `Paths.CanonicalRoundTrip` makes the two the same.
