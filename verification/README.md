# Verified model of the advisory feed

OpenAssetWatch receives vulnerability advisories as signed catalogs. A catalog is downloaded or read from a
reviewed local bundle, verified, previewed, approved by an administrator, and activated; activation replaces one
source's advisories in the database and starts a targeted reevaluation of the asset matches that may have
changed. An operator may roll back to an earlier catalog. Publishers build signed static mirrors of catalogs.
This project models that machinery in Dafny 4.11 and proves what holds over every run of it.

Verify with `dafny verify dfyconfig.toml`.

## How it is built

The Python code works by transactions on tables, so the model has two layers for it. `AdvisoryStore.dfy` and
`SyncStore.dfy` are classes whose methods update the tables statement by statement, in the order of the source;
each method is proved against a function of the old contents. `AdvisoryTables.dfy` and `SyncState.dfy` hold those
functions, and every further result is about them.

`Lifecycle.dfy` is the transition system: the store's tables, what the sync service holds in memory about each
run, the reevaluation workers, and the match state of every advisory. Any number of sources, runs, operators and
workers take steps in any order. `Exec(actions)` is the state after a sequence of actions; a theorem over all
action sequences is a theorem over every reachable state. An action that is not enabled changes nothing. Saving
a bundle is three steps (the checks, the read of the active catalog, the insert), because the save transaction
does not hold the activation lock; `SaveIsThreeSteps` shows that uninterrupted they are the store's one call.
Reevaluating a chunk is two steps for the same reason: the query that reads the chunk's rows, and the evaluation's
write; `Reevaluation.WorkerReconciles` shows what they come to uninterrupted.

| file | content |
|---|---|
| `Prelude`, `Ordering` | options, results, distinctness; sorted enumeration of finite sets, code-point order |
| `Catalogs`, `IdentifierText` | catalog content, its validators, advisory identifiers and why they may be tuples |
| `AdvisoryTables`, `AdvisoryStore` | the advisory tables, one import on them, what a reader sees |
| `CatalogDiffs`, `PreviewLaws` | the preview diff and the reevaluation diff; what a preview says of the two catalogs' records |
| `SyncState`, `SyncStore` | the synchronization tables and their transactions |
| `StoreLaws` | what each of these transactions does to the rows, and exactly when each is refused |
| `Matching`, `MatchLaws` | the match rows of the evaluation engine, what one reconciliation writes to them, and what a sequence of writes leaves |
| `Lifecycle`, `RunInvariants`, `RunTheorems` | the transition system, its invariant, and what it guarantees |
| `StepLaws` | the exact outcome of the operator's steps in every reachable state |
| `TableInvariants`, `CurrentImports`, `Restoration`, `ReadBack` | the advisory tables over a run, and a reader that puts records back together from their rows |
| `Debt`, `Reevaluation` | out-of-date matches over a run, and the writes that may cause them; the chunk loop |
| `PreviewFidelity` | what an approver was shown |
| `Publications`, `Witnesses`, `StalePreview`, `LateWrites`, `SharedNames` | concrete runs: publications and reevaluations as sequences of actions, a stale preview, a late write, sources that share a name |
| `BoundedGzip`, `BundlePolicy`, `Acceptance`, `AcceptanceLaws` | decompression, bundle acceptance and its link to the lifecycle; what acceptance and each refusal mean |
| `MirrorPaths`, `MirrorIndex`, `MirrorBuild`, `MirrorTheorems`, `MirrorRetention`, `FutureDated` | mirror paths, index, builder, round trip, retention, a build ahead of the clock |
| `MirrorLaws`, `BuildLaws` | what it means that a path, an index or a tree is accepted, when a build succeeds and what it writes, and what each refusal means |

The files named `...Laws`, and `ReadBack`, say what an operation does without naming the functions it is made of: on the
rows before and after, on the bytes of a bundle or a tree, or by reading back what was written. Where an operation can be
refused they give the exact condition, and say that the refusal reported is the first that applies.

Modelling decisions that every result shares:

- A SHA-256 digest stands for what was digested, and generated identifiers are insertion positions, so neither
  collides. `IdentifierText.dfy` proves that the texts hashed into advisory, component and range identifiers
  determine their parts.
- Unicode case folding, the database's `LOWER`, package URL identities and token normalization are function
  parameters (`Text`); nothing is assumed about them. Signature checking, JSON parsing and base64 are
  parameters as well (`Library`, `Codec`); what a theorem assumes of them is a named predicate in its `requires`.
- Times are integers (microseconds). The order of the activation log is commit order, not `created_at` order:
  activations never compare clocks.
- The evaluation engine is a function from what the tables show of an advisory to a status for each component it
  identifies. Match rows carry their evaluation time, and a write leaves rows that were evaluated later alone, as the
  code does. A match that is resolved is as good as none.
- Results about the advisory tables and about reevaluation assume that different sources have catalog names that
  differ both under case folding and under `LOWER` (`DistinctNames`). The assumption is exact: see below.

Five places where the code and a natural reading of it part:

- The check that an approver's preview is not stale compares the activation with the catalog the store read when
  it saved the bundle, not with the one the service read when it computed the preview. Over every run,
  `PreviewFidelity.ActivationsAreFaithful` gives the exact condition: the two reads agree if and only if what the
  source logged in between (only rollbacks can be) ended on the catalog the service had read. It is also
  a guard that the save could check, `activeBefore == baseline`; under it the stored preview is that of exactly the
  activated change and lists, in order, what its reevaluation walks through. `StalePreview.PreviewCanBeStale` gives a
  run in which the guard fails: the stored preview promises no change and the activation changes a record.
- A reevaluation reads a chunk's rows in one transaction and writes its matches in a later one, and nothing locks both.
  `LateWrites.LateRunLosesDebt` gives, for every configuration and whatever the evaluation times, a run in which an
  activation and its whole reevaluation come in between: the late write inserts a match of replaced rows, and
  every entry that owes the advisory is completed. So that out-of-date matches are owed holds of all runs under no
  configuration (`DebtNeedsFreshWrites`). `Debt.WriteKeepsDebt` gives the exact condition, known before the write: the
  debt for an advisory survives its write if and only if the rows read still give the match of the rows
  now, as do rows evaluated later, or another entry is the last that owes it and still has to process it
  (`SafeWrite`). A guard the write could check is that the rows are unchanged since the read and no match
  row is newer (`FreshWrite`). Over every run, with no assumption on the writes, `Debt.OutdatedIsOwed` says that an
  out-of-date match is owed, or that its last write was unsafe and nothing logged since owes it.
- The registry does not reject two sources with one catalog name. `SharedNames` gives, for any two sources whose
  names agree under `LOWER`, a run in which the second retires the first's advisory, and for any two whose folded names
  agree, a run in which the second overwrites it; in both the match ends out of date although every entry that
  owes the advisory is completed, although every write is fresh. So for every configuration the debt is kept in all
  runs with fresh writes if and only if the names are distinct (`DebtNeedsDistinctNames`), and likewise the tables
  show each source's active catalog in all runs (`TablesNeedDistinctNames`).
- Match rows keep their evaluation time so that an older evaluation never overwrites a newer one. But a row that an
  evaluation would resolve and that already is resolved in that way keeps its old time, and a component without a row has
  none. `MatchLaws.OlderWriteYields` gives the exact condition under which an older evaluation, written after a newer
  one, leaves a component's status alone; `OlderWriteCanWin` is an input on which it does not.
- Bundle acceptance allows a creation time up to five minutes ahead of the clock; a mirror index does not. A bundle
  accepted while ahead of the clock is loaded, and a build with it as the latest fails in the index validator,
  whatever is retained beside it (`FutureDated.AheadLoads`, `AheadIsNotPublished`); `OneBuildFails` is such an
  input, within the registry's bounds. When the index is publishable is exact in `MirrorIndex.BuiltIndexIsValid`.

## Model

| member | source | states |
|---|---|---|
| Catalogs.NormalizeIdentifiers | backend/app/advisory_catalog.py:289-297 | the alias validator accepts exactly when every normalized value has 1 to 120 characters and no two values normalize alike, reports a length first, and returns the normalized values in order |
| Catalogs.ValidateCatalogUniqueness | backend/app/advisory_catalog.py:356-369 | the folded-id check and the alias-owner dictionary accept exactly when folded ids are distinct and records sharing an alias share an id |
| IdentifierText.AdvisoryTextIsInjective | backend/app/advisory_store.py:147-149 | the text hashed into an advisory id determines folded source and folded record id |
| IdentifierText.AffectedTextIsInjective | backend/app/advisory_store.py:152-160 | the text hashed into a component id determines advisory, ecosystem, identity and ordinal |
| IdentifierText.RangeTextIsInjective | backend/app/advisory_store.py:395-415 | the text hashed into a range id determines component and ordinal |
| IdentifierText.RecordIdExactly | backend/app/advisory_catalog.py:252 | the pattern of record ids, and that an id that matches it contains no separator of the hashed texts |
| IdentifierText.IdentityTellsApart | backend/app/advisory_store.py:357-371 | components without a package URL identity are told apart by exactly vendor, namespace and normalized name, an absent one counting as empty, where vendor and namespace do not contain the separator |
| AdvisoryStores.AdvisoryStore.ImportCatalog | backend/app/advisory_store.py:173-466 | the statement-by-statement import is the function `Import` of the old tables, breaks no key, reports a duplicate exactly when the snapshot is known, and returns its import row |
| AdvisoryStores.AdvisoryStore.ImportRecord | backend/app/advisory_store.py:256-416 | upsert, child deletion and nested inserts of one record equal `UpsertRecord`; every insert meets its primary, unique and foreign keys |
| AdvisoryTables.ImportKeepsKeys | backend/app/advisory_store.py:173-466 | from any tables whose keys hold, importing any catalog keeps every primary, unique and foreign key |
| AdvisoryTables.ImportView | backend/app/advisory_store.py:173-466 | for every advisory id: an imported id shows exactly its record with all children, an unimported id of the source is retired, every other id is as before |
| AdvisoryTables.UpsertAllHits | backend/app/advisory_store.py:256-416 | no later record of the catalog overwrites an earlier one |
| AdvisoryTables.UpsertAllSources | backend/app/advisory_store.py:256-300 | a row keeps the source it was first written with |
| AdvisoryTables.SourceRecordIsUnique | backend/app/advisory_store.py:147-149 | the unique constraint on source and record id follows from the advisory id |
| CatalogDiffs.DiffsAgree | backend/app/advisory_bundle.py:481-505 | the preview's changed set and the reevaluation's changed set, written separately, are equal for all pairs of catalogs |
| CatalogDiffs.DiffAlgebra | backend/app/advisory_bundle.py:481-538 | changed = added + updated + removed, withdrawn = removed + explicit withdrawals, new total = old total + added − removed, and an untruncated preview lists the whole changed set |
| CatalogDiffs.WithdrawalsAreChanges | backend/app/advisory_bundle.py:492-505 | every explicit withdrawal is an addition or an update |
| CatalogDiffs.ChangedScopeFits | backend/app/advisory_sync_service.py:141-167 | catalogs within the validators' size never exceed the reevaluation scope limit |
| CatalogDiffs.ServerIdsAreChangedIds | backend/app/advisory_sync_service.py:658-665 | the ids handed to the matcher are the changed keys under the folded source name, each once |
| CatalogDiffs.WorkIsKeyed | backend/app/advisory_sync_service.py:141-167 | the matcher's ids follow the preview's full key list in order |
| CatalogDiffs.IndexHoldsRecords | backend/app/advisory_sync_service.py:146-152 | with distinct folded ids the dictionary holds exactly the records |
| CatalogDiffs.UnchangedRecord | backend/app/advisory_sync_service.py:152-166 | an id outside the changed set has the same record in both catalogs or in neither |
| SyncState.Prior | backend/app/advisory_sync_store.py:502-519 | the prior is a logged catalog of the source of highest sequence, and there is none exactly when no catalog of the source is logged |
| RunInvariants.CreateKeepsInv | backend/app/advisory_sync_store.py:265-341 | a run request, granted or refused, keeps the whole invariant: still one active run per source |
| RunInvariants.MoveKeepsInv | backend/app/advisory_sync_store.py:383-450 | every legal state change of an unlocked run, failing included, keeps the whole invariant |
| SyncStores.SyncStore.Save | backend/app/advisory_sync_store.py:461-637 | checks, insert and run update of a save, with every refusal, are `SaveVerifiedBundle` on the old tables |
| SyncStores.SyncStore.HighestActivated | backend/app/advisory_sync_store.py:502-519 | the loop over the catalogs finds `Prior` |
| SyncStores.SyncStore.ActivateApproved | backend/app/advisory_sync_store.py:709-835 | activation with every refusal is `ActivateRun` on the old tables, and the advisory keys hold |
| SyncStores.SyncStore.RollBack | backend/app/advisory_sync_store.py:837-929 | rollback with every refusal is `RollbackCatalog` on the old tables, and the advisory keys hold |
| RunInvariants.MarkKeepsInv | backend/app/advisory_sync_store.py:931-989 | marking a reevaluation keeps the whole invariant; every activated run still shows its own entry's status |
| SyncStores.SyncStore.SwitchTo | backend/app/advisory_sync_store.py:771-788 | clearing the source's flag and setting the chosen one is `SwitchActive` |
| RunInvariants.ReachableInv | backend/app/advisory_sync_store.py:265-989 | every action sequence keeps the whole run, session, catalog and log invariant |
| RunInvariants.CheckedAboveLog | backend/app/advisory_sync_store.py:502-545 | passing the save checks puts the bundle above every logged catalog of its source and below the retention limit |
| RunInvariants.SlotIsTaken | backend/app/advisory_sync_store.py:114-121 | while a run is approved no other run of its source waits for approval or is being saved |
| RunInvariants.SwitchKeepsOrder | backend/app/advisory_sync_store.py:740-821 | an activation or rollback keeps sequences rising and everything waiting above the log |
| RunInvariants.ActiveIsLast | backend/app/advisory_sync_store.py:452-459 | reading the active flag is reading the last log entry of the source |
| RunTheorems.ActivationsRise | backend/app/advisory_sync_store.py:502-533 | over every run, an activation has a higher sequence than every earlier entry of its source, rollbacks included |
| RunTheorems.RollbacksReturn | backend/app/advisory_sync_store.py:858-861 | every rollback goes to a catalog some earlier entry of its source activated |
| RunTheorems.LogDeterminesActive | backend/app/advisory_sync_store.py:756-821 | per source the one active catalog is that of the last log entry, and each entry's previous catalog is that of the source's entry before it |
| RunTheorems.EverActivatedAgrees | backend/app/advisory_sync_store.py:776-821 | a catalog is in the log exactly when its activation count is positive, the count is its number of entries, and exactly one of them is an activation |
| RunTheorems.RunsAreOrderly | backend/app/advisory_sync_store.py:18-45 | one active run per source, no transient state committed, an activated run shows its own entry's reevaluation status, at most 100 catalogs per source |
| RunTheorems.EndStatesStay | backend/app/advisory_sync_store.py:383-450 | whatever follows, rejected, failed and expired runs keep their state and activated runs stay activated or degraded |
| RunTheorems.HistoryStays | backend/app/advisory_sync_store.py:801-821 | the log is append-only apart from reevaluation status, and retained catalogs keep their content |
| RunTheorems.ActivationIsAllOrNothing | backend/app/advisory_sync_store.py:718-835 | an activation attempt does all four effects, or only expires this run, or nothing, each under an exact condition |
| RunTheorems.SaveIsThreeSteps | backend/app/advisory_sync_store.py:461-637 | the three steps of a save taken in a row are the store's one transaction |
| TableInvariants.ReachableTables | backend/app/advisory_sync_store.py:765-788 | in every reachable state the advisory keys hold and each source's view is exactly its active catalog |
| TableInvariants.ImportAgrees | backend/app/advisory_store.py:173-466 | after an import the source's view is exactly the catalog |
| TableInvariants.ImportSparesOthers | backend/app/advisory_store.py:418-436 | an import leaves every advisory of other sources as it was |
| TableInvariants.ImportChangesOnlyChanged | backend/app/advisory_sync_service.py:141-167 | replacing the active catalog changes the view of no advisory outside the changed set |
| Restoration.ShownIsActive | backend/app/advisory_store.py:544-652 | the current advisories of a source are exactly its active catalog's records, as a function of that catalog alone |
| Restoration.RollbackRestores | backend/app/advisory_sync_store.py:875-917 | whenever the same catalog is active again, every advisory of the source shows exactly what it showed before |
| Restoration.OthersAreSpared | backend/app/advisory_store.py:418-436 | a step that logs nothing for a source leaves all its advisories untouched, retired ones included |
| Restoration.SharedNamesRetire | backend/app/advisory_store.py:173-466 | an import changes what is shown of an advisory exactly when it writes another record over it or retires it; only ids under the catalog's folded name are written, and only rows whose source name equals the catalog's under `LOWER` are retired |
| CurrentImports.ReachableImports | backend/app/advisory_store.py:173-300 | in every reachable state a current advisory row carries the source version of its source's active catalog and refers to the import of that catalog |
| SharedNames.DebtNeedsDistinctNames | backend/app/advisory_feed_registry.py:184 | for every configuration: in all runs whose writes are fresh, or safe, every out-of-date match is owed by an entry that is not completed, if and only if the source names are distinct |
| LateWrites.LateRunLosesDebt | backend/app/advisory_sync_service.py:681-693 | for every configuration, source and pair of evaluation times, a run: a chunk read before an activation is written after that activation's reevaluation; the match is out of date and every entry is completed |
| LateWrites.DebtNeedsFreshWrites | backend/app/advisory_sync_service.py:681-693 | under every configuration some run leaves an out-of-date match that no entry that is not completed owes |
| SharedNames.TablesNeedDistinctNames | backend/app/advisory_feed_registry.py:184 | for every configuration: in all runs the tables show each source's active catalog, if and only if the source names are distinct |
| SharedNames.RetiringRunLosesDebt | backend/app/advisory_store.py:418-436 | two sources whose names agree under `LOWER`, a run with fresh writes: the second's empty first catalog retires the first's advisory, its match stays out of date, and every entry that owes it is completed |
| SharedNames.ReturningRunLosesDebt | backend/app/advisory_store.py:147-149 | two sources whose folded names agree, a run with fresh writes: the second overwrites the advisory, the first restores it with a change that owes nothing, and its match stays that of the other's record |
| Debt.ReachableDebt | backend/app/advisory_sync_service.py:587-743 | in every reachable state and for every advisory: if its match is out of date, the last entry that owes it is not completed and no worker of that entry has processed it; or the last write of its match was unsafe and nothing logged since owes it |
| Debt.WriteKeepsDebt | backend/app/vulnerability_store.py:339-560 | the exact condition of a write: after it the debt for a written advisory holds if and only if the write was safe, whatever held before, and the debt for every other advisory is as it was |
| Debt.OutdatedIsOwed | backend/app/advisory_sync_service.py:587-743 | in every reachable state an out-of-date match lies in the changed set of an activation or rollback whose reevaluation is not completed, namely the last one that owes it; or its last write was unsafe and nothing logged since owes it |
| Debt.SafeRunKeepsDebt | backend/app/advisory_sync_service.py:587-743 | in every run without unsafe writes every out-of-date match is owed by the last entry that owes it, which is not completed |
| Debt.FreshIsSafe | backend/app/advisory_sync_service.py:681-693 | a write that finds the rows it read unchanged and no newer match row is safe |
| Debt.AllSettledIsCurrent | backend/app/advisory_sync_service.py:587-743 | once every reevaluation is completed every match is what the engine says of the rows, but for those whose last write was unsafe |
| Debt.FinishedIsFresh | backend/app/advisory_sync_service.py:716-726 | where the debt for an advisory holds and its match is out of date, a worker that has walked its whole list is not of the last entry that owes it |
| Debt.LastOwingAppend | backend/app/advisory_sync_store.py:801-821 | a new entry becomes the last owing entry of exactly what it owes |
| Reevaluation.Chunks | backend/app/advisory_sync_service.py:666-670 | chunks are nonempty, bounded, and join to the whole list |
| Reevaluation.Evaluator.ReevaluateInChunks | backend/app/advisory_sync_service.py:666-714 | whatever each chunk reads and finds, each listed advisory's match rows are written exactly once, by its own chunk, no other rows change, and the findings are updated exactly once, from the final matches |
| Matching.WrittenShows | backend/app/vulnerability_store.py:339-560 | a write leaves an advisory's match what the engine says of its rows now if and only if later rows agree with that and so do the rows read wherever there is no later row |
| Reevaluation.WorkerReconciles | backend/app/advisory_sync_service.py:680-714 | the lifecycle's read and write steps, taken in a row, come to one reconciliation of the rest of the list |
| Reevaluation.TargetedIsFull | backend/app/advisory_sync_service.py:657-714 | reconciling some ids makes all matches current exactly when nothing outside them is out of date and no later row of theirs disagrees, and then shows the same as reconciling any larger set |
| Reevaluation.IncrementalIsEnough | backend/app/advisory_sync_service.py:604-726 | if all matches were current before a switch, reconciling its changed ids makes all current again exactly when no later row of theirs disagrees |
| PreviewFidelity.ReachableFidelity | backend/app/advisory_sync_service.py:440-464 | every action sequence keeps what each session read and when, and that activations replace the catalog their run was saved against |
| PreviewFidelity.ActivationsAreFaithful | backend/app/advisory_sync_store.py:546-549 | over every run and for every activation: the store's recorded baseline is the catalog it replaces; it is the catalog the service read if and only if the last entry of the source between the reads, if any, is on that catalog; only rollbacks lie between; and if they agree, the stored preview is that of exactly this change and covers its reevaluation |
| PreviewFidelity.FaithfulCoversWork | backend/app/advisory_bundle.py:474-540 | a preview of exactly an entry's change has as its full key list, in order, what the entry's reevaluation walks through |
| StalePreview.PreviewCanBeStale | backend/app/advisory_sync_store.py:546-549 | a concrete run: with a rollback between the reads, a preview promising no change passes the check and a record changes |
| BoundedGzip.DecompressGzip | backend/app/advisory_bundle.py:293-316 | terminates; every request is positive and at most one byte over the maximum, as is the output held before the flush; succeeds exactly for one complete member with nothing after it within both limits |
| BoundedGzip.Decompressor.Decompress | backend/app/advisory_bundle.py:294-302 | what the loop relies on of zlib: outputs in order and within the limit, and progress: a call gives some output or has taken all its input |
| BundlePolicy.SignatureSpellings | backend/app/advisory_bundle.py:221-233 | a signature is accepted in exactly three spellings: its base64 text, bare or with one line end |
| BundlePolicy.PolicyWindow | backend/app/advisory_bundle.py:236-290 | the policy passes at a clock exactly when it passes at the creation time and the clock is in one interval |
| BundlePolicy.AcceptanceWindow | backend/app/advisory_bundle.py:360-461 | a bundle is accepted at a clock exactly when accepted at its creation time with the clock in the interval, and always with the same result |
| BundlePolicy.AcceptedAtCreation | backend/app/advisory_bundle.py:360-461 | whatever was accepted at some clock is accepted at its creation time, even if expired since |
| Acceptance.AcceptedIsVerified | backend/app/advisory_bundle.py:319-430 | an accepted bundle has what the lifecycle assumes: a valid catalog with the source's name, the manifest's version and its own checksum |
| MirrorPaths.ArtifactStaysBelow | backend/app/advisory_feed_registry.py:117-129 | every valid relative path gives, below the index directory, a reviewed URL path that dot-segment removal (section 5.2.4 of RFC 3986) does not change |
| MirrorPaths.ArtifactIsInjective | backend/app/advisory_feed_registry.py:127-129 | different relative paths give different artifact paths |
| MirrorPaths.LayoutParent | backend/app/advisory_feed_registry.py:56-72 | the directory of a reviewed layout has no query, fragment, escape or dot segment |
| MirrorPaths.NothingToRemove | backend/app/advisory_feed_registry.py:56-72 | an absolute path without dot segments is left as it is by the removal algorithm |
| MirrorPaths.PaddedSequences | backend/app/advisory_mirror.py:515-517 | padded sequences have twenty digits and are distinct and ordered as the sequences over the whole allowed range |
| MirrorPaths.DirectoriesAreOrdered | backend/app/advisory_mirror.py:515-526 | catalog directories of different sequences differ and sort as the sequences |
| MirrorPaths.DirectoryPath | backend/app/advisory_transport.py:419-435 | a catalog directory with any reviewed name in it is a valid relative path and splits back into the two |
| MirrorIndex.EntryIsValid | backend/app/advisory_mirror.py:111-125 | an entry made from an accepted bundle meets every entry constraint exactly when the payload's name is free |
| MirrorIndex.BuiltIndexIsValid | backend/app/advisory_mirror.py:151-194 | a built index meets every constraint exactly when the payload's name is free, the latest bundle is not newer than the publication, and one license covers all |
| FutureDated.AheadLoads | backend/app/advisory_mirror.py:492-512 | a bundle accepted while its creation time is ahead of the clock is loaded from disk as that bundle |
| FutureDated.AheadIsNotPublished | backend/app/advisory_mirror.py:151-194 | whatever is retained beside it, a publication whose latest bundle is ahead of the clock fails with the index schema error |
| FutureDated.AheadFailsToBuild | backend/app/advisory_mirror.py:660-747 | a first build of just such a bundle, with a permitted key and retention, fails with that error |
| FutureDated.OneBuildFails | backend/app/advisory_mirror.py:660-747 | one concrete bundle of a source within the registry's bounds: loaded at clock zero, its build fails, and at its creation time the same index is valid |
| MirrorIndex.BuiltIndexVerifies | backend/app/advisory_mirror.py:388-442 | a built, unexpired index verifies exactly when it is valid, within its size limit, and the signing key works; verification gives it back |
| MirrorIndex.EntriesAreDistinct | backend/app/advisory_mirror.py:152-166 | entries of distinct bundles have rising sequences, distinct versions and disjoint paths |
| MirrorBuild.MergeBundles | backend/app/advisory_mirror.py:690-703 | the merge loop is `MergeAll`, error by error |
| MirrorBuild.MergeAllIs | backend/app/advisory_mirror.py:687-703 | the merge succeeds exactly when no two bundles share a sequence or a version, and then holds them all |
| MirrorBuild.KeptIsTop | backend/app/advisory_mirror.py:704-706 | the kept sequences are the highest `retain_prior + 1`, in increasing order |
| MirrorBuild.LoadExistingMirror | backend/app/advisory_mirror.py:557-600 | the loading loop is `LoadedMirror`, error by error |
| MirrorTheorems.PublishSucceeds | backend/app/advisory_mirror.py:708-747 | a build gets to its tree exactly when the latest has not expired, the index is publishable and small enough, and the key works |
| MirrorTheorems.WrittenTreeLoadsBack | backend/app/advisory_mirror.py:749-774 | whatever tree is written loads back as exactly the retained bundles in increasing sequence |
| MirrorTheorems.LocalsAreAccepted | backend/app/advisory_mirror.py:492-512 | every locally loaded bundle is accepted at its own creation time |
| MirrorRetention.WriteTree | backend/app/advisory_mirror.py:752-764 | every file is created exclusively, none twice, and the result is the tree of the retained bundles |
| MirrorRetention.PublishMirror | backend/app/advisory_mirror.py:708-774 | from the retained bundles on, only the expiry, the validators, the size and the signature can fail; the re-verification never does |
| MirrorRetention.BuildMirror | backend/app/advisory_mirror.py:660-774 | the whole builder, with every refusal in order, is `Build` |
| MirrorRetention.BuildSucceeds | backend/app/advisory_mirror.py:660-774 | a successful build retains the newest of what it merged, advances the latest, and its tree loads back as that |
| MirrorRetention.ChainRetainsNewest | backend/app/advisory_mirror.py:687-718 | a chain of builds retains exactly the highest `retain_prior + 1` of all sequences ever given |
| MirrorRetention.LatestRises | backend/app/advisory_mirror.py:682-686 | each build of a chain publishes a strictly higher latest sequence |
| MirrorRetention.RemovedNeverReappears | backend/app/advisory_mirror.py:704-707 | a sequence given and removed never reappears, even if given again |
| MirrorIndex.IndexWindow | backend/app/advisory_mirror.py:388-442 | an index that verifies at some clock verifies at another exactly when that lies in one interval (future skew, age limit, latest expiry, signing key), with the same result |
| MirrorRetention.LoadIsTimeless | backend/app/advisory_mirror.py:557-600 | a tree that loads at some clock loads at another exactly when that lies in its index's interval, and then as the same bundles |
| MirrorRetention.WrittenTreeLoadsUntil | backend/app/advisory_mirror.py:557-600 | a written tree loads at a clock exactly when that is within the skew and age limit of its publication, before the latest bundle's expiry and within the signing key's validity, and then as exactly the retained bundles |
| MirrorRetention.SnapshotCatalogs | backend/app/advisory_mirror.py:841-885 | claimed sizes are charged before fetching, so the bytes kept never exceed the limit; it succeeds exactly when every catalog verifies and all claims fit, and otherwise stops at the first catalog whose claim is too much or that does not load |
| PreviewLaws.PreviewMeans | backend/app/advisory_bundle.py:474-540 | over the records of the two catalogs: the preview counts the new, the rewritten, the dropped or newly withdrawn and the exploited records and the aliases that come and go, warns exactly within seven days of expiry, and lists in order the first hundred changed and the first hundred withdrawn ids |
| PreviewLaws.ChangedIdsMean | backend/app/advisory_sync_service.py:141-167 | over the records of the two catalogs: the ids handed on are those of the new, rewritten and dropped records, each once, ordered by folded id, and more than forty thousand are refused |
| StoreLaws.RequestLaw | backend/app/advisory_sync_store.py:265-341 | a run is granted exactly when every run of its source is finished and at least the interval old; each refusal has its exact condition and changes nothing; the new row, column by column |
| StoreLaws.DecisionLaw | backend/app/advisory_sync_store.py:640-707 | an approval makes a run that is pending approval approved, a rejection rejected, nothing else changes, and every other run is refused |
| StoreLaws.FailureLaw | backend/app/advisory_sync_store.py:435-450 | a failure ends an unfinished run and changes nothing else; a finished run stays |
| StoreLaws.SaveLaw | backend/app/advisory_sync_store.py:461-637 | where the unique keys hold, a save is accepted exactly when its run awaits a bundle of the source, there is room, no catalog of the source that was ever activated is as new, and nothing retained of the source shares a sequence, version, manifest or payload; each refusal with its exact condition in order; what is written, column by column |
| StoreLaws.MarkLaw | backend/app/advisory_sync_store.py:931-989 | exactly which marks are refused, and what a mark writes to the entry and to its run |
| StoreLaws.ActivationRefusals | backend/app/advisory_sync_store.py:709-771 | each refusal of an activation with its exact condition, in order |
| StoreLaws.RollbackRefusals | backend/app/advisory_sync_store.py:837-875 | each refusal of a rollback with its exact condition, in order |
| StepLaws.ReachableKeys | backend/app/advisory_sync_store.py:125-154 | in every reachable state two retained catalogs have different runs, and two of one source differ in sequence, version, manifest digest and payload digest |
| StepLaws.RollbackIsAllOrNothing | backend/app/advisory_sync_store.py:837-929 | in every reachable state a rollback does import, switch and log entry together exactly when its catalog is in the log, is not the source's last entry, and every entry of the source is at least the cooldown old; otherwise it changes nothing |
| StepLaws.RequestStep | backend/app/advisory_sync_store.py:265-341 | in every reachable state a request adds a run exactly when every run of the source is finished and at least the interval old, and otherwise changes nothing |
| StepLaws.DecisionStep | backend/app/advisory_sync_store.py:640-707 | in every reachable state an approval leaves a pending run approved, a rejection rejected, and nothing else changes; for any other run nothing does |
| StepLaws.EndedIsNeverLogged | backend/app/advisory_sync_store.py:684-707 | a rejected, failed or expired run has no log entry, now or after any further actions |
| StepLaws.FailureStep | backend/app/advisory_sync_store.py:435-450 | a failure of an unlocked unfinished run ends it, and once the interval has passed the next request of its source is granted |
| StepLaws.RetryCompletes | backend/app/advisory_sync_service.py:587-743 | from every reachable state, retrying a failed reevaluation and letting its worker run completes the entry and reconciles exactly the advisories it owes |
| StepLaws.WorkerSteps | backend/app/advisory_sync_service.py:587-743 | in every reachable state a worker begins with exactly the advisories its entry owes and marks it running, marks it completed at the end of its list, and marks it failed if it breaks off; the run of an activation follows; nothing else changes |
| StepLaws.BaselineStep | backend/app/advisory_sync_service.py:440-464 | in every reachable state a verified bundle of a run that awaits one opens its session, with a preview that says what it changes of the catalog active now; otherwise nothing happens |
| ReadBack.ReadsOnce | backend/app/advisory_store.py:544-652 | rows ordered by their ordinals read back in one way only |
| ReadBack.ImportReadsBack | backend/app/advisory_store.py:173-466 | after any import every record reads back from the rows: facts, aliases, references, and each component's columns and ranges in order |
| ReadBack.ReachableReads | backend/app/advisory_store.py:544-652 | in every reachable state, where catalog names are distinct, every record of a source's active catalog reads back from the rows |
| ReadBack.RowOrigins | backend/app/advisory_store.py:256-300 | a row keeps the source and record id it was first written with, and the rest is of the last import that wrote it |
| ReadBack.ImportRows | backend/app/advisory_store.py:196-255 | an import adds an import row exactly when the snapshot is not known, with the catalog's fields; a known snapshot changes nothing unless it is reactivated |
| MatchLaws.RowAfterWrite | backend/app/vulnerability_store.py:339-600 | one write: a component's row is what the write says of it at its time (the engine's status; else not affected, or withdrawn if the advisory is retired), unless the write is older or already agrees; no time decreases |
| MatchLaws.RowsHaveWriters | backend/app/vulnerability_store.py:339-600 | after any sequence of writes a component has a row exactly when some write named it, and the row is what one of them said, at that one's time, with every later write older, about other advisories, or in agreement |
| MatchLaws.OlderWriteYields | backend/app/vulnerability_store.py:553-584 | an older evaluation written after a newer one leaves a component's status alone if and only if the newer one left a trace or the two agree |
| MatchLaws.OlderWriteCanWin | backend/app/vulnerability_store.py:553-584 | an input on which an older evaluation reopens what a newer one confirmed as resolved |
| AcceptanceLaws.AcceptedExactly | backend/app/advisory_bundle.py:221-461 | a bundle is accepted, as this result, if and only if its manifest is well formed, within the source's policy and timely, its key is known, trusted, active and in force now and at creation, the signature file spells 64 bytes that hold for exactly the manifest bytes under that key, the payload has the signed size and digest and unpacks to the signed size, and the catalog has the signed version, source, license and counts |
| AcceptanceLaws.CountsExactly | backend/app/advisory_bundle.py:340-358 | the alias and reference counts are the numbers of alias and reference places in the catalog |
| AcceptanceLaws.ValidCountsFit | backend/app/advisory_feed_registry.py:131-150 | the alias and reference counts of every valid catalog are within the largest limits the registry lets a source have |
| AcceptanceLaws.FirstFaultIsReported | backend/app/advisory_bundle.py:221-461 | a refused bundle is refused with the first thing that is wrong with it, in the order of manifest size, schema, key, policy, signature, payload size, digest, decompression and catalog, and within these of each check |
| MirrorLaws.RelativePathExactly | backend/app/advisory_transport.py:419-435 | a relative path is valid exactly when it has at most 500 printable characters of the allowed kind and no piece between slashes is empty or made of dots |
| MirrorLaws.EntryExactly | backend/app/advisory_mirror.py:75-125 | the entry validators accept exactly the entries with bounded fields whose three artifacts lie in one directory below `catalogs/` under the fixed names |
| MirrorLaws.IndexExactly | backend/app/advisory_mirror.py:128-194 | the index validators accept exactly 1 to 32 sound entries in rising sequence, with distinct versions and paths, that agree with the index, whose own fields are the last one's |
| MirrorLaws.IndexVerifiesExactly | backend/app/advisory_mirror.py:336-442 | an index verifies, as this index, if and only if the bytes are its canonical text, it is sound, within policy and fresh, and signed under a listed, active key in force now and at publication |
| MirrorLaws.RefusedKeysNeverVerify | backend/app/advisory_mirror.py:358-385 | under a key that is unlisted, unknown, retired or revoked no index ever verifies |
| MirrorLaws.IndexReportsFirst | backend/app/advisory_mirror.py:336-442 | a refused index is refused with the first thing that is wrong with it, in the order of size, schema, canonical text, key, signature and policy, and within these of each check and entry |
| MirrorLaws.EntryLoadsExactly | backend/app/advisory_mirror.py:445-478 | a catalog of a mirror loads exactly when its three files are there, with the claimed sizes and digests, the bundle is accepted at its creation time, and the entry agrees with it in every field |
| MirrorLaws.MirrorLoadsExactly | backend/app/advisory_mirror.py:557-600 | a tree loads exactly when its index is accepted and every entry loads, and then as these bundles in order |
| MirrorLaws.MirrorReportsFirst | backend/app/advisory_mirror.py:557-600 | a refused tree is refused with the first thing that is wrong with its index, or with the first entry of the accepted index that does not load: file by file, size before digest, then the bundle, then the metadata |
| BuildLaws.FeedPathExactly | backend/app/advisory_feed_registry.py:56-72 | a reviewed path is accepted exactly when it starts with one slash, has no query or fragment, no blank, backslash or escape, and no piece of dots |
| BuildLaws.LayoutExactly | backend/app/advisory_feed_registry.py:117-125 | a layout is accepted exactly when its two paths are reviewed ones under the fixed names in one directory |
| BuildLaws.ArtifactPathIs | backend/app/advisory_feed_registry.py:127-129 | an artifact's path is the index's directory followed by the relative path |
| BuildLaws.DirectoryIs | backend/app/advisory_mirror.py:515-526 | a catalog directory is `catalogs/`, twenty digits whose value is the sequence, a dash and the digest's first sixteen characters |
| BuildLaws.IndexIs | backend/app/advisory_mirror.py:515-539 | a built index lists the bundles in order, each entry with the values of its manifest and files, and describes the last one |
| BuildLaws.MergeReportsFirst | backend/app/advisory_mirror.py:690-703 | a refused merge is refused with the first bundle that clashes with one before it: by sequence, told apart by the manifests, and only then by version |
| BuildLaws.NewestIsUnique | backend/app/advisory_mirror.py:704-706 | which bundles are the newest, and their order, is determined |
| BuildLaws.BuildsExactly | backend/app/advisory_mirror.py:660-774 | a build succeeds if and only if the request is allowed, the existing mirror and every directory load, something added is above all that was there, no two bundles share a sequence or a version, and the newest can be published; it then writes their index, its signature and their files at their paths, and nothing else |
| BuildLaws.BuildReportsFirst | backend/app/advisory_mirror.py:660-774 | a refused build is refused with the first thing that is wrong: with the request, the existing mirror, the first directory that does not load, or with all of them together (nothing newer, a clash, the publication) |

## Left out

- The CISA KEV branches: their importer, parser and diff are not part of this model; sources here deliver advisory catalogs.
- The evaluation, finding and risk engines, version comparison and package URL parsing: the engine's statuses are a function of what the tables show of an advisory (its facts, aliases, references, components and ranges, not the row's source version, import or update times; `CurrentImports` says what the first two are); the findings are a function of all matches.
- Ed25519, SHA-256, base64, JSON text and model coercion: functions with the assumptions named in `DigestsAreHex`, `Sound`, `Base64Sound` and `ParserValidates`.
- Reading and writing files, staging directories, links, modes, owners and atomic renames; HTTPS transport and time limits. A mirror tree is a map from path to bytes.
- Operator identity, rejection reasons, error summaries, timestamps kept only for display, pagination, projections and status views.
- Changes to the reviewed registry during a run of the system, and the publisher check made just before an activation or rollback, which only refuses more.
- Evaluations started for other reasons than a catalog change (inventory, requests for one site or component): their reads and writes are not steps here, and the components stay as they are over a run. What a write of theirs does to an advisory's match is what `Matching.WrittenShows` says.
- Debt.OutdatedIsOwed: does not promise that every out-of-date match is owed, because the code does not; the exception is an unsafe last write.
- Debt.AllSettledIsCurrent: excepts matches whose last write was unsafe, for the same reason.
- Version order within affected ranges, and the text length bounds and character patterns of catalog and manifest fields other than those in `ValidRecord`, `ValidManifest` and `ValidSource`.
- The standalone catalog import command and its `reactivate_existing=False` calls are modelled as one import, not as lifecycle steps.
- Liveness: a worker that stops without recording a failure leaves its entry running forever, and only failed reevaluations can be retried. The debt theorem still counts that entry as not completed.
- The counters a reevaluation reports (components, candidates, changes), and the continuity report between a snapshot and a published checkpoint.
- BoundedGzip.DecompressGzip: for input that is corrupt after more output than allowed, either of the two errors may be reported, because zlib may detect the corruption before or after filling its buffer.
