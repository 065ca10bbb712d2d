# Omnia Reader: a verified model of its library and synchronization

Omnia Reader keeps a library of publications in the browser, restores it from backups and
synchronizes it through a gateway. This project models the parts of it that are hardest to get
right and proves what they promise, for all inputs, all runs and all interleavings.

**The logical library.** A logical book owns at most one EPUB and one PDF variant. Adding,
associating, detaching, deleting, reconciling, synchronizing and restoring each rewrite several
object stores in one transaction, and some record a change in an outbox.

- `LogicalBooks.dfy` and `LibraryTransactions.dfy` hold the records and every transaction as a
  function from stores to stores. `LibraryInvariant.dfy` proves what each keeps and exactly which
  membership rows it moves; `TransactionEffects.dfy` what it answers and what it does to every other
  store; `LibraryIndexes.dfy` what the database keeps by itself.
- `Reconciling.dfy` resolves membership conflicts.
- `LibraryBackup.dfy`, `LibraryRestore.dfy` and `RestoreTwice.dfy` parse archives, collect
  conflicts, merge, commit, and do it all again. `RestoreEffects.dfy` says which side of a merge
  decides; `BackupRoundTrip.dfy` restores a library's own backup.
- `LibraryRuns.dfy` is the library as a state machine whose adds, associations and restores read in
  one step and commit in a later one. `Outbox.dfy`, `FormatPreferences.dfy` and
  `PublicationOwners.dfy` prove properties of its runs; `LibraryWitnesses.dfy` has the runs in which a
  promise with a condition fails.
- `LibraryRepository.dfy` is the repository as an object whose methods update five stores in place,
  each proved to be its transaction; `LibrarySession.dfy` proves that a session of calls is a run.
- `ReadingProgress.dfy` merges progress documents.

**Synchronization.** `MegaFolder.dfy` has the staged write and the batch delete of the MEGA adapter
over a bridge whose calls can fail; `BrokerTransfers.dfy` and `DownloadStream.dfy` the transfer slots
and the chunked download of the native broker; `SessionStores.dfy` the encrypted session stores;
`MapConcurrent.dfy` and `GitAttributes.dfy` two helpers of the GitHub adapter; `Base64Url.dfy` the
codec of the bridge; `SyncPaths.dfy` three path validators in three languages.

## What the proofs found

Some promises hold only under a condition. The condition is proved as an equivalence, for all inputs,
and a concrete run reaches a case where it fails.

- The pending list drops a reconciliation's change when more than two books will remain or more than
  two will be gone: the change lists every book of the library, while the validator that reads it back
  accepts at most two. It drops a preference's change when earlier heads and new parents are more than
  32 (`Outbox.StepReadable`, `Outbox.LogIsReadable`, `Outbox.PendingListReplays`).
- A second restore of the same archive can change a preferred format: the first one may join more than
  32 heads into a preference that cannot be read again (`RestoreTwice.RestoringTwice`).
- Removing a publication can leave a format preference that names it
  (`FormatPreferences.RemovalAndPreferences`), and importing one can overwrite a book that has taken
  its canonical identifier, together with that book's membership
  (`FormatPreferences.ImportAndPreferences`, `PublicationOwners.ImportAndOwners`).
- A reconciliation leaves a stored publication without an owner when it is affected and not selected
  (`PublicationOwners.ReconcileAndOwners`), and leaves a preference it cannot read even when it takes
  away its format (`FormatPreferences.ReconcileAndAllPreferences`).
- A library's own backup is refused once a conflict has been resolved against its accepted side: the
  record stays in the archive, and its accepted rows are no longer there
  (`BackupRoundTrip.ExportAccepted`, `BackupRoundTrip.BackupAfterReconciling`).
- A restore is safe exactly when the archive gives its publications the formats they are stored under
  (`LibraryRuns.RestoreStepNeedsAgreement`).
- A session value within 28 bytes of one mebibyte is accepted and lost on the next read: the limit
  is compared without the seal on the way in and with it on the way out
  (`SessionStores.SealRoundTrip`, `SessionStores.SessionsNearTheLimitAreLost`).

The concurrent map is complete exactly when there is a worker or nothing to do
(`MapConcurrent.SuccessIsComplete`); its one caller asks for eight. The merge of progress documents does
not depend on their order when the latest documents of a device differ only in how far they got
(`ReadingProgress.MergeIgnoresOrder`). This is a sufficient condition;
`ReadingProgress.MergeOrderCanMatter` is a case beyond it where the order decides.

## Assumptions

- Identifiers are SHA-256 digests of content. A canonical book identifier is the variant's digest under
  another name. That identifiers determine formats is not assumed:
  `LibraryRuns.ContentAddressingAgrees` derives the condition on restores from it.
- An object-store transaction is atomic: it commits or leaves every store as it was.
- `localeCompare` is a total order. The comparison of JSON texts is a parameter (`text`).
- Each step of a broker command is what it does under one lock or in one atomic update; transfer
  identifiers are new, as random UUIDs are.
- Encryption is a seal that opens under its key, for its session. Storage keys are one-to-one.
- A bridge call fails before its effect, after it, or not at all; an upload reported with the right
  size and digest holds the uploaded bytes; one writer at a time works on a MEGA path.

## Model

| member | source | states |
|---|---|---|
| LibraryRuns.MembershipInEveryRun | libs/library/data-access/src/lib/browser-library-repository.ts:338-1161 | In every run from an empty library, with any steps between the reads and the commit of an add, an association or a restore: each variant has one owner, its slot matches the format of its stored publication, books sit under their own identifier and none is empty. The one condition is that a restore finds its publications under the formats it archived |
| LibraryRuns.RunKeepsMembership | libs/library/data-access/src/lib/browser-library-repository.ts:338-1580 | The same from any consistent library, together with what a pending commit relies on |
| LibraryRuns.StepKeepsMembership | libs/library/data-access/src/lib/browser-library-repository.ts:338-1580 | Each of the seventeen steps keeps the system consistent, pending operations included |
| LibraryRuns.RestoreAtTheEndOfARun | libs/library/data-access/src/lib/library-backup.service.ts:603-704 | A restore begun anywhere in a run and committed at its end adds exactly the archived rows when the revision is the one it read, and does nothing otherwise |
| LibraryRuns.RestoreStepNeedsAgreement | libs/library/data-access/src/lib/library-backup.service.ts:939-952 | The condition on restores is exact: the step that commits one keeps the library consistent if and only if the formats agree |
| LibraryRuns.ContentAddressingAgrees | libs/library/data-access/src/lib/library-backup.service.ts:939-952 | Where identifiers determine formats, as digests of content do, every restore of every run agrees |
| LibraryRuns.AddAtOnce | libs/library/data-access/src/lib/browser-library-repository.ts:527-638 | An add whose reading part is ready and whose publication is not stored goes through when it is committed at once; the library, the pending operations and the history are then those of its transaction |
| LibraryRuns.AssociateAtOnce | libs/library/data-access/src/lib/browser-library-repository.ts:652-736 | So does an association of two books that can be associated |
| LibraryWitnesses.MisnamedPublicationBreaksRestore | libs/library/data-access/src/lib/library-backup.service.ts:939-952 | A file imported as a PDF and archived as an EPUB: the accepted, conflict-free restore puts one variant in both slots |
| LogicalBooks.ConsistentIsOneOwner | libs/library/data-access/src/lib/browser-library-repository.ts:2137-2142 | The two unique indexes and slots that match the stored formats give one owner per variant |
| LogicalBooks.IndexesAloneAllowTwoOwners | libs/library/data-access/src/lib/browser-library-repository.ts:2137-2142 | The unique indexes alone do not |
| LogicalBooks.ConsistentIsWellFormed | libs/reader/domain/src/lib/logical-book.ts:247-273 | In a consistent library every logical book passes its validator |
| LogicalBooks.OneOwnerIsUnique | libs/library/data-access/src/lib/browser-library-repository.ts:2137-2142 | With one owner per variant no put is ever refused |
| LibraryTransactions.FindOwnerFinds | libs/library/data-access/src/lib/browser-library-repository.ts:209-223 | The EPUB-then-PDF lookup finds an owner exactly when there is one |
| LibraryInvariant.AddCommitRows | libs/library/data-access/src/lib/browser-library-repository.ts:617-634 | An add commits exactly when its destination is as it was read and the publication is not stored, and then adds one row and nothing else |
| LibraryInvariant.AddCommitValid | libs/library/data-access/src/lib/browser-library-repository.ts:527-650 | An add keeps the library consistent |
| LibraryInvariant.AssociateRows | libs/library/data-access/src/lib/browser-library-repository.ts:652-736 | An association commits exactly when both books are as they were read; every row of the source moves under the destination and all others stay |
| LibraryInvariant.AssociateValid | libs/library/data-access/src/lib/browser-library-repository.ts:652-736 | An association keeps the library consistent |
| LibraryInvariant.DetachRows | libs/library/data-access/src/lib/browser-library-repository.ts:738-831 | A detach commits exactly on a two-format book that holds the variant when the new identifier is free, and moves that one row |
| LibraryInvariant.DetachValid | libs/library/data-access/src/lib/browser-library-repository.ts:738-831 | A detach keeps the library consistent |
| LibraryInvariant.DeleteRows | libs/library/data-access/src/lib/browser-library-repository.ts:833-962 | A delete commits exactly when its targets are members, and removes exactly their rows and publications |
| LibraryInvariant.DeleteValid | libs/library/data-access/src/lib/browser-library-repository.ts:833-962 | A delete keeps the library consistent |
| LibraryInvariant.RemoveValid | libs/library/data-access/src/lib/browser-library-repository.ts:1518-1580 | Removing a publication always goes through, removes exactly its rows and its record, and keeps the library consistent |
| LibraryInvariant.ImportValid | libs/library/data-access/src/lib/browser-library-repository.ts:1341-1399 | An import keeps the library consistent, also when the publication is already stored |
| LibraryInvariant.StoreNewValid | libs/library/data-access/src/lib/browser-library-repository.ts:1401-1447 | Storing a synchronized publication keeps the library consistent |
| LibraryInvariant.ReplaceValid | libs/library/data-access/src/lib/browser-library-repository.ts:338-410 | A synchronized replacement that passes its checks is consistent, even when it repeats a book identifier |
| LibraryInvariant.StoreNewRows | libs/library/data-access/src/lib/browser-library-repository.ts:1384-1390 | A publication that is not stored always goes in: it replaces the rows of its canonical book with its own and leaves all others |
| LibraryInvariant.ImportOwns | libs/library/data-access/src/lib/browser-library-repository.ts:1341-1399 | After its import a publication is stored and owned, whether it was new, already stored, or stored without an owner |
| TransactionEffects.AddReplies | libs/library/data-access/src/lib/browser-library-repository.ts:527-559 | Each reply of the reading part of an add, both ways and told in rows: no such book; the book holds the publication; another, named book holds it; nobody holds it and the slot has the named variant; nobody holds it, the slot is free and this is the stored book |
| TransactionEffects.AddEffects | libs/library/data-access/src/lib/browser-library-repository.ts:594-638 | A committed add stores the publication, keeps the catalog entry of its destination, and touches no other book, preference or conflict |
| TransactionEffects.AssociableBooks | libs/library/data-access/src/lib/browser-library-repository.ts:652-689 | Two books can be associated exactly when both are there, they differ and no format has a row in both |
| TransactionEffects.AssociateEffects | libs/library/data-access/src/lib/browser-library-repository.ts:690-736 | An association removes the source and its preference, keeps the catalog entry of the destination and touches nothing else |
| TransactionEffects.DetachEffects | libs/library/data-access/src/lib/browser-library-repository.ts:738-831 | The detached format gets the canonical identifier of its publication whenever that is free and the derived one otherwise, with the catalog entry of the publication; the other format keeps the book, and the preference follows it |
| TransactionEffects.DeleteBookEffects | libs/library/data-access/src/lib/browser-library-repository.ts:833-962 | Deleting a whole book goes through exactly when it is there: the book, its preference and every publication it held are gone, and nothing else |
| TransactionEffects.DeleteFormatEffects | libs/library/data-access/src/lib/browser-library-repository.ts:833-962 | Deleting one format goes through exactly when the book holds it: its row and its publication go, all others stay, and the book goes exactly when no row is left |
| TransactionEffects.DeletePreferences | libs/library/data-access/src/lib/browser-library-repository.ts:900-947 | After a delete the preference of the book names the format that is left, is unchanged if it already did, and is dropped if it cannot be read |
| TransactionEffects.PreferEffects | libs/library/data-access/src/lib/browser-library-repository.ts:964-1009 | A saved choice is the only head and the winner of its preference; the parents of its change are the given ones and the earlier heads, exactly |
| TransactionEffects.StoreNewEffects | libs/library/data-access/src/lib/browser-library-repository.ts:1384-1390 | A new publication is stored as it is, in a book of its own digest with its catalog entry |
| TransactionEffects.ImportEffects | libs/library/data-access/src/lib/browser-library-repository.ts:1341-1399 | What an import does in each case: new and supported, unsupported, already owned, stored without an owner |
| TransactionEffects.SyncStoreEffects | libs/library/data-access/src/lib/browser-library-repository.ts:1401-1447 | A synchronized copy is stored exactly when it is new and intact |
| TransactionEffects.RemoveEffects | libs/library/data-access/src/lib/browser-library-repository.ts:1518-1580 | A removal touches its owner only, which keeps its catalog entry; a preference goes exactly with its book |
| TransactionEffects.ReplaceEffects | libs/library/data-access/src/lib/browser-library-repository.ts:338-410 | A replacement stores listed books only and at least one under each listed identifier, exactly the given preferences and conflicts, and nothing that cannot be read back |
| Reconciling.ReconcileMembershipLaw | libs/library/data-access/src/lib/browser-library-repository.ts:1030-1100 | Membership after a committed reconciliation is the old membership without the rows of the affected variants, plus exactly the selected rows, for all three decisions; emptied books are gone |
| Reconciling.ReconcileCommits | libs/library/data-access/src/lib/browser-library-repository.ts:1020-1100 | A reconciliation goes through if and only if the conflict is open, the decision can be taken, every chosen row has its publication, and no slot and no variant is asked for twice, all told from the library before; the rows afterwards are those that stay and those that are chosen |
| Reconciling.SelectedRows | libs/library/data-access/src/lib/browser-library-repository.ts:1030-1057 | Which rows each decision selects; a standalone publication gets the canonical identifier when that is free |
| Reconciling.ReconcileValid | libs/library/data-access/src/lib/browser-library-repository.ts:1011-1161 | A reconciliation keeps the library consistent, even if the derived identifier is already taken |
| Reconciling.StripVariant | libs/library/data-access/src/lib/browser-library-repository.ts:1059-1070 | The inner loop takes one variant off every book and drops the emptied ones |
| Reconciling.StripAffected | libs/library/data-access/src/lib/browser-library-repository.ts:1058-1071 | The loop over the affected variants removes all of them at once |
| Reconciling.PutSelected | libs/library/data-access/src/lib/browser-library-repository.ts:1072-1097 | The loop over the selected rows adds them in order and stops at an invalid variant or an occupied slot |
| Reconciling.AddRowsRows | libs/library/data-access/src/lib/browser-library-repository.ts:1072-1097 | Selected rows go in exactly as listed; an occupied slot is refused, never overwritten |
| TransactionEffects.ReconcileResolves | libs/library/data-access/src/lib/browser-library-repository.ts:1101-1143 | A committed reconciliation leaves its own record resolved by this change and otherwise as it was, touches no other, and no later decision on it does anything |
| TransactionEffects.ReconcilePreferences | libs/library/data-access/src/lib/browser-library-repository.ts:1120-1148 | Exactly the preferences that cannot be read or name a row of the new shelf are kept, unchanged |
| TransactionEffects.ReconcileEntries | libs/library/data-access/src/lib/browser-library-repository.ts:1058-1097 | A book that keeps an unaffected variant keeps its catalog entry; any other has that of a publication chosen for it |
| TransactionEffects.AddRowsEntries | libs/library/data-access/src/lib/browser-library-repository.ts:1072-1097 | A book that is there keeps its catalog entry when a row is added; a new one takes that of a selected publication |
| LibraryIndexes.DetachIndexed | libs/library/data-access/src/lib/browser-library-repository.ts:738-831 | The keys and unique indexes hold after a detach whatever its arguments |
| LibraryIndexes.ReconcileIndexed | libs/library/data-access/src/lib/browser-library-repository.ts:1011-1161 | The keys and unique indexes hold after a reconciliation |
| LibraryIndexes.ReplaceIndexed | libs/library/data-access/src/lib/browser-library-repository.ts:338-410 | The keys and unique indexes hold after a synchronized replacement |
| LibraryIndexes.RestoreIndexed | libs/library/data-access/src/lib/browser-library-repository.ts:447-509 | The keys and unique indexes hold after a restore, also for archives in conflict |
| LibraryIndexes.ReplaceRows | libs/library/data-access/src/lib/browser-library-repository.ts:338-410 | A replacement with distinct identifiers makes membership exactly what it lists |
| LibraryRepository.Repository.LookUp | libs/library/data-access/src/lib/browser-library-repository.ts:209-223 | Scanning one index finds the one book that holds the variant in that slot |
| LibraryRepository.Repository.FindLogicalBookByVariant | libs/library/data-access/src/lib/browser-library-repository.ts:209-223 | The owner by the EPUB index, then by the PDF index |
| LibraryRepository.Repository.ReadForAdd | libs/library/data-access/src/lib/browser-library-repository.ts:527-559 | The reading part of an add gives the reply that TransactionEffects.AddReplies tells in rows |
| LibraryRepository.Repository.CommitAdd | libs/library/data-access/src/lib/browser-library-repository.ts:594-638 | The commit of an add is its transaction; an aborted put leaves every store as it was |
| LibraryRepository.Repository.CommitAssociate | libs/library/data-access/src/lib/browser-library-repository.ts:652-736 | The commit of an association is its transaction |
| LibraryRepository.Repository.Detach | libs/library/data-access/src/lib/browser-library-repository.ts:738-831 | A detach is its transaction and keeps the indexes |
| LibraryRepository.Repository.Delete | libs/library/data-access/src/lib/browser-library-repository.ts:833-962 | A delete is its transaction, of which DeleteBookEffects and DeleteFormatEffects say what goes, and keeps the indexes |
| LibraryRepository.Repository.SaveFormatPreference | libs/library/data-access/src/lib/browser-library-repository.ts:964-1009 | Saving a preference is its transaction; the earlier heads become parents |
| LibraryRepository.Repository.ReadFormatPreference | libs/library/data-access/src/lib/browser-library-repository.ts:245-256 | Reading a preference returns it when it can be read and moves it to the quarantine otherwise |
| LibraryRepository.Repository.Reconcile | libs/library/data-access/src/lib/browser-library-repository.ts:1011-1161 | A reconciliation, clear and rewrite included, is its transaction, which resolves the conflict (ReconcileResolves) |
| LibraryRepository.Repository.RewriteShelf | libs/library/data-access/src/lib/browser-library-repository.ts:1130-1150 | Clearing and putting books back in any order succeeds exactly when the whole result has unique indexes |
| LibraryRepository.Repository.ImportPublication | libs/library/data-access/src/lib/browser-library-repository.ts:1341-1399 | An import is its transaction |
| LibraryRepository.Repository.StoreSyncedBook | libs/library/data-access/src/lib/browser-library-repository.ts:1401-1447 | A synchronized copy is its transaction |
| LibraryRepository.Repository.RemovePublication | libs/library/data-access/src/lib/browser-library-repository.ts:1518-1580 | A removal is its transaction |
| LibraryRepository.Repository.CheckMembership | libs/library/data-access/src/lib/browser-library-repository.ts:351-367 | The membership loop accepts exactly the lists with each variant once, stored, and of the format of its slot |
| LibraryRepository.Repository.ReplaceLogicalBookState | libs/library/data-access/src/lib/browser-library-repository.ts:338-410 | A synchronized replacement is its transaction; ill-formed books are refused |
| LibraryRepository.Repository.RestoreAtomically | libs/library/data-access/src/lib/browser-library-repository.ts:412-525 | The restore compares the revision, puts the publications and rewrites the logical state, or leaves everything as it was |
| LibraryRepository.Repository.ListPendingChanges | libs/library/data-access/src/lib/browser-library-repository.ts:310-321 | Reading the outbox lists its readable changes in order and leaves exactly those behind |
| LibrarySession.Session.Perform | libs/library/data-access/src/lib/browser-library-repository.ts:338-1580 | A session of calls of these methods, in any order and with operations that read in one call and commit in a later one, is the run of its steps and keeps the library consistent |
| LibrarySession.Session.Commit | libs/library/data-access/src/lib/library-backup.service.ts:453-475 | A restore is committed after both reads and only without conflicts; adds and associations after their read |
| LibraryBackup.ParseManifest | libs/library/data-access/src/lib/library-backup.service.ts:1138-1220 | A manifest is accepted exactly when its logical state is: one owner for every publication and nothing pointing outside the archive; older manifests get one book per publication |
| LibraryBackup.IndexBooks | libs/library/data-access/src/lib/library-backup.service.ts:1138-1153 | The publication loop stops exactly at a repeated publication |
| LibraryBackup.ClaimVariants | libs/library/data-access/src/lib/library-backup.service.ts:1161-1174 | The slots of one book are claimed exactly when each is backed by a publication of its format and unclaimed |
| LibraryBackup.ClaimAll | libs/library/data-access/src/lib/library-backup.service.ts:1154-1175 | The logical-book loop succeeds exactly when identifiers differ and each variant is backed and claimed once |
| LibraryBackup.OlderManifestAccepted | libs/library/data-access/src/lib/library-backup.service.ts:1329-1346 | A manifest without logical books is accepted exactly when its publications are distinct |
| LibraryBackup.OlderManifestRows | libs/library/data-access/src/lib/library-backup.service.ts:1329-1346 | It has one row for each publication: the book of its digest, the slot of its format |
| BackupRoundTrip.Export | libs/library/data-access/src/lib/library-backup.service.ts:287-375 | A backup lists every publication, every logical book and every readable preference and conflict, once each |
| BackupRoundTrip.ExportAccepted | libs/library/data-access/src/lib/library-backup.service.ts:1138-1220 | The backup of a consistent library is accepted again if and only if every publication has an owner, every readable preference names a held format, and every readable conflict is about stored publications and lists rows that are current as its accepted side |
| BackupRoundTrip.BackupAfterReconciling | libs/library/data-access/src/lib/library-backup.service.ts:1138-1220 | A library whose backups are accepted stays one through a reconciliation if and only if every stored affected publication is chosen and no readable conflict loses a row of its accepted side, all told before the call |
| BackupRoundTrip.OtherSideBlocksBackup | libs/library/data-access/src/lib/library-backup.service.ts:1138-1220 | A reconciliation that gives up a row of its accepted side leaves a library whose backups are refused |
| LibraryWitnesses.ResolvedConflictBlocksBackup | libs/library/data-access/src/lib/library-backup.service.ts:1138-1220 | A run whose backup is accepted while the conflict is open and refused once it is resolved for the other side |
| BackupRoundTrip.RestoredElsewhere | libs/library/data-access/src/lib/library-backup.service.ts:603-704 | Restored into an empty library, a backup meets no conflict and gives the library back, but for preferences and conflicts that cannot be read and pending changes |
| BackupRoundTrip.RestoredInPlace | libs/library/data-access/src/lib/library-backup.service.ts:603-704 | Restored where it was made, it meets no conflict and changes nothing but to drop what cannot be read |
| BackupRoundTrip.ReplacedInPlace | libs/library/data-access/src/lib/browser-library-repository.ts:338-410 | So does putting a library in its own place by a synchronized replacement |
| LibraryRestore.RestoreIsUnion | libs/library/data-access/src/lib/library-backup.service.ts:603-704 | An accepted archive without conflicts always commits on an unchanged revision; membership is then exactly the union, one-to-one, and backed by stored publications, whatever ran between the reads and the commit |
| LibraryRestore.MergedUnique | libs/library/data-access/src/lib/library-backup.service.ts:827-899 | Without conflicts the merged shelf satisfies the unique indexes whatever the formats, so an unchanged revision is never refused |
| LibraryRestore.RestoreNeedsAgreement | libs/library/data-access/src/lib/library-backup.service.ts:939-952 | A restore on an unchanged revision that leaves the library consistent had agreeing formats |
| LibraryRestore.CollectRestoreConflicts | libs/library/data-access/src/lib/library-backup.service.ts:827-877 | The collected conflicts are exactly the conflicts |
| LibraryRestore.NoConflictsMeansNone | libs/library/data-access/src/lib/library-backup.service.ts:827-877 | No conflict is collected exactly when every archived row fits the current rows |
| LibraryRestore.MergeLogicalBooks | libs/library/data-access/src/lib/library-backup.service.ts:879-899 | The merge loop over logical books |
| LibraryRestore.MergedRows | libs/library/data-access/src/lib/library-backup.service.ts:879-899 | Without conflicts the merged rows are the union: no slot is overwritten |
| LibraryRestore.UnionOneOwner | libs/library/data-access/src/lib/library-backup.service.ts:827-899 | The union of current and archived rows is one-to-one and matches formats |
| LibraryRestore.MergeLogicalPreferences | libs/library/data-access/src/lib/library-backup.service.ts:901-937 | The merge loop over preferences; RestoreEffects.PreferenceDecides says which one it keeps |
| LibraryRestore.MergePreferenceTwice | libs/library/data-access/src/lib/library-backup.service.ts:901-937 | Merging a preference a second time changes nothing |
| RestoreEffects.PreferenceDecides | libs/library/data-access/src/lib/library-backup.service.ts:913-932 | Of two preferences the one that has seen the choice of the other, and is not seen by it, is kept; otherwise the one with the greater change is; the heads are those of both |
| RestoreEffects.PreferenceSides | libs/library/data-access/src/lib/library-backup.service.ts:913-932 | Which of two different choices is the archived one does not matter |
| RestoreEffects.RestoredPreferences | libs/library/data-access/src/lib/library-backup.service.ts:901-937 | After a restore a book the archive does not mention keeps its readable preference, one without a readable preference takes the archived one, and the others take the merge |
| RestoreEffects.RestoredAlike | libs/library/data-access/src/lib/library-backup.service.ts:901-937 | Two devices that restore each other's archives agree on the preference of every book for which they had made different choices |
| LibraryRestore.MergeReconciliations | libs/library/data-access/src/lib/library-backup.service.ts:954-973 | The merge loop over reconciliations |
| LibraryRestore.ResolvedStaysResolved | libs/library/data-access/src/lib/library-backup.service.ts:954-973 | A resolved reconciliation never reopens |
| RestoreEffects.ReconciliationDecides | libs/library/data-access/src/lib/library-backup.service.ts:954-973 | Of two records of a conflict the resolved one is kept, and of two alike the one with the later text |
| RestoreEffects.ReconciliationSides | libs/library/data-access/src/lib/library-backup.service.ts:954-973 | Which of the two is the archived one does not matter |
| RestoreEffects.RestoredReconciliations | libs/library/data-access/src/lib/library-backup.service.ts:954-973 | After a restore each archived conflict is there, merged with the readable one it meets; the others are as they could be read |
| RestoreEffects.RestoredBooks | libs/library/data-access/src/lib/library-backup.service.ts:879-899 | An archived book brings its own catalog entry and time; books that are not archived are untouched |
| LibraryRestore.PublicationsAre | libs/library/data-access/src/lib/library-backup.service.ts:939-952 | Exactly the archived publications are put; stored ones keep their file and format and take the archived catalog entry |
| RestoreEffects.RestoredPublications | libs/library/data-access/src/lib/library-backup.service.ts:939-952 | A publication the restore found keeps its file, format and import time under the archived catalog entry; a new one is stored as archived; others are untouched |
| RestoreTwice.RestoringTwice | libs/library/data-access/src/lib/library-backup.service.ts:603-704 | Restoring the same archive again meets no conflicts and commits; shelf, publications and reconciliations are as the first restore left them, and so are the preferences if and only if no archived preference and the one it meets have more than 32 heads together |
| LibraryWitnesses.RestoringTwiceCanDiffer | libs/library/data-access/src/lib/library-backup.service.ts:927-932 | One head meets 32 others: the first restore keeps the format, the second one changes it |
| RestoreTwice.ShelfTwice | libs/library/data-access/src/lib/library-backup.service.ts:879-899 | Merging logical books twice is merging once |
| RestoreTwice.PreferencesTwice | libs/library/data-access/src/lib/library-backup.service.ts:901-937 | Merging preferences twice, reading them in between, is merging once if and only if every merged preference can be read |
| RestoreTwice.PreferenceTwiceAt | libs/library/data-access/src/lib/library-backup.service.ts:901-937 | A merged preference that cannot be read is replaced by the archived one the second time |
| RestoreTwice.ReconciliationsTwice | libs/library/data-access/src/lib/library-backup.service.ts:954-973 | Merging reconciliations twice is merging once |
| RestoreTwice.PublicationsTwice | libs/library/data-access/src/lib/library-backup.service.ts:939-952 | Putting the publications twice is putting them once |
| Outbox.CommittedChangesReplay | libs/library/data-access/src/lib/browser-library-repository.ts:582-1119 | In every run of recording mutations, from any library, replaying the changes it commits in order over the starting shelf gives the current shelf, and the outbox holds them on top of what was pending |
| Outbox.StepIsExplained | libs/library/data-access/src/lib/browser-library-repository.ts:2568-2585 | Every recording step either records one change that explains the new shelf or leaves shelf, outbox and history alone |
| Outbox.ChangesAreSigned | libs/library/data-access/src/lib/browser-library-repository.ts:2568-2585 | The change a step records carries the identifier, time and parents it was made with, and the kind of what was done; a delete that leaves nothing is a delete of the book |
| Outbox.ReconcileRecords | libs/library/data-access/src/lib/browser-library-repository.ts:1098-1119 | The change of a reconciliation, which lists every book, explains the new shelf |
| Outbox.ListPending | libs/library/data-access/src/lib/browser-library-repository.ts:310-321 | The list holds exactly the stored changes the validator accepts, ordered by creation time and identifier; the others are quarantined |
| Outbox.OrderedIsUnique | libs/library/data-access/src/lib/browser-library-repository.ts:310-321 | Order and contents determine the pending list |
| Outbox.PendingListReplays | libs/library/data-access/src/lib/browser-library-repository.ts:310-321 | With increasing (creation time, identifier) the pending list is the changes, earlier and new, without the unreadable ones. It is all of them if and only if the earlier ones can be read and every committing step fits the library it finds, and then it replays to the shelf |
| Outbox.StepReadable | libs/reader/domain/src/lib/logical-book.ts:141-169 | The change a step records can be read back if and only if the step fits: parents bounded and unrepeated for every kind, heads and parents together bounded for a preference, books bounded for a reconciliation, all told from the state before |
| Outbox.LogIsReadable | libs/reader/domain/src/lib/logical-book.ts:141-169 | In every run all changes it commits can be read back if and only if every committing step fits |
| Outbox.PreferReadable | libs/library/data-access/src/lib/browser-library-repository.ts:981-1000 | A preference whose heads and new parents are more than 32 together records a change that cannot be read back |
| Outbox.ReconciledBooks | libs/library/data-access/src/lib/browser-library-repository.ts:1058-1100 | The books a committed reconciliation leaves: those that keep an unaffected variant and those the decision puts rows into |
| Outbox.ReconcileReadable | libs/reader/domain/src/lib/logical-book.ts:141-169 | The change of a reconciliation can be read back if and only if at most two such books will remain, at most two of the present ones will be gone, and the parents fit |
| LibraryWitnesses.ReconcilingThreeBooksIsNotReplayed | libs/library/data-access/src/lib/browser-library-repository.ts:1098-1119 | A run to a library of three books in which a resolved conflict is never listed, and the listed changes do not give the shelf |
| LibraryWitnesses.CrowdedChoiceIsNotListed | libs/library/data-access/src/lib/browser-library-repository.ts:981-1000 | A run in which a choice on a preference with 32 heads is never listed; the shelf replays all the same, so replaying does not imply that the list is complete |
| FormatPreferences.RunKeepsPreferences | libs/library/data-access/src/lib/browser-library-repository.ts:710-1148 | From valid preferences, every run of add, associate, detach, delete, prefer, reconcile and restore keeps each preference that can be read naming an existing book and a format it holds |
| FormatPreferences.RunKeepsAllPreferences | libs/library/data-access/src/lib/browser-library-repository.ts:710-1009 | Without reconciliations such a run keeps every stored preference valid, whether it can be read or not |
| FormatPreferences.ReconcileAndAllPreferences | libs/library/data-access/src/lib/browser-library-repository.ts:1120-1148 | A reconciliation keeps every stored preference valid unless it goes through and takes away the format of one that cannot be read |
| LibraryWitnesses.UnreadPreferenceDangles | libs/library/data-access/src/lib/browser-library-repository.ts:1120-1148 | A run in which a restore leaves a preference with 33 heads and a reconciliation leaves it dangling |
| LibraryWitnesses.FullExists | libs/reader/domain/src/lib/logical-book.ts:275-292 | There are preferences with exactly 32 heads, as the three runs that start from one need |
| FormatPreferences.RestoreKeepsPreferences | libs/library/data-access/src/lib/library-backup.service.ts:901-937 | A restore of an accepted archive keeps preferences valid |
| FormatPreferences.SavedPreference | libs/library/data-access/src/lib/browser-library-repository.ts:964-1009 | A saved choice is in force whenever the book holds the format, supersedes every earlier head, and changes no other preference |
| FormatPreferences.RepairsNoMoreThanNeeded | libs/library/data-access/src/lib/browser-library-repository.ts:784-1148 | Add, associate, detach, delete and reconcile leave alone every preference the new shelf still allows |
| FormatPreferences.RemovalAndPreferences | libs/library/data-access/src/lib/browser-library-repository.ts:1518-1580 | A removal keeps preferences valid exactly when the publication is not the preferred format of a book that keeps its other format |
| LibraryWitnesses.RemovalLeavesPreference | libs/library/data-access/src/lib/browser-library-repository.ts:1518-1580 | A run that ends with a dangling preference by a removal |
| FormatPreferences.ImportAndPreferences | libs/library/data-access/src/lib/browser-library-repository.ts:1341-1390 | An import keeps preferences valid exactly when it writes no book, or its canonical book has no preference for the other format; a publication stored without an owner is written too |
| LibraryWitnesses.ImportLeavesPreference | libs/library/data-access/src/lib/browser-library-repository.ts:1384-1390 | A run that ends with a dangling preference by an import |
| LibraryWitnesses.ImportOfStoredLeavesPreference | libs/library/data-access/src/lib/browser-library-repository.ts:1351-1353 | The same by importing a publication that is stored without an owner |
| FormatPreferences.SyncStoreAndPreferences | libs/library/data-access/src/lib/browser-library-repository.ts:1401-1447 | A synchronized copy keeps preferences valid exactly when it stores nothing or its canonical book has no preference for the other format |
| PublicationOwners.RunKeepsOwners | libs/library/data-access/src/lib/browser-library-repository.ts:338-1580 | Every run of add, associate, detach, delete, remove, prefer and restore keeps an owner for every stored publication |
| PublicationOwners.ImportAndOwners | libs/library/data-access/src/lib/browser-library-repository.ts:1341-1390 | An import keeps every owner exactly when it stores nothing new or the canonical book of the new publication is absent |
| PublicationOwners.SyncStoreAndOwners | libs/library/data-access/src/lib/browser-library-repository.ts:1401-1447 | A synchronized copy keeps every owner exactly when it stores nothing or its canonical book is absent |
| LibraryWitnesses.ImportLosesOwner | libs/library/data-access/src/lib/browser-library-repository.ts:1384-1390 | A run in which importing a deleted EPUB again leaves its PDF stored without an owner |
| PublicationOwners.ReconcileAndOwners | libs/library/data-access/src/lib/browser-library-repository.ts:1030-1100 | A reconciliation keeps every owner unless it goes through and leaves out a stored affected variant |
| LibraryWitnesses.ReconcilingLosesOwner | libs/library/data-access/src/lib/browser-library-repository.ts:1030-1100 | A run in which it does not |
| ReadingProgress.MergeProgressDocuments | libs/library/data-access/src/lib/library-backup.service.ts:1366-1383 | The merge loop over progress documents |
| ReadingProgress.MergedSummarizes | libs/library/data-access/src/lib/library-backup.service.ts:1348-1411 | One document for each (book, device) that occurs: the latest time, the furthest progression, and the other fields of an input at that time |
| ReadingProgress.RecencyDecides | libs/library/data-access/src/lib/library-backup.service.ts:1348-1411 | Of two positions the later is kept; at equal times that of the greater device, and on one device that with the greater text; the furthest progression of both is kept |
| ReadingProgress.MergeIgnoresOrder | libs/library/data-access/src/lib/library-backup.service.ts:1366-1383 | The merge does not depend on order or repetition when the latest inputs of a key differ only in progression |
| ReadingProgress.MergeOrderCanMatter | libs/library/data-access/src/lib/library-backup.service.ts:1397-1407 | Without that condition the order can matter, because merging raises a field of the text that breaks ties |
| MegaFolder.Folder.WriteDocument | apps/sync-gateway/src/mega-adapter.ts:385-501 | At every moment of a write, with every bridge call free to fail before or after its effect, the old content exists or the path holds the new one, and other paths are untouched; success means every node at the path has the new content. When no call fails, the write succeeds exactly when the document resolves and has the expected revision, and replaces it by one node. When one call fails, other than the move of the current node aside, a write that reports failure leaves the old content at its path |
| MegaFolder.Folder.Stage | apps/sync-gateway/src/mega-adapter.ts:408-432 | Uploading beside the path and looking again keeps every state safe; without a failing call and with an unchanged path it always goes on |
| MegaFolder.Folder.SwapIn | apps/sync-gateway/src/mega-adapter.ts:434-468 | Moving the current node aside and the staged one in succeeds exactly when neither move fails, and keeps every state safe; if only the second move fails the current node is back at its path |
| MegaFolder.Folder.RollBack | apps/sync-gateway/src/mega-adapter.ts:462-467 | The recovery branch, when its calls do not fail, takes the staged node away and puts the current one back |
| MegaFolder.Folder.Publish | apps/sync-gateway/src/mega-adapter.ts:434-501 | Swapping in and verifying together: no failing call means success with exactly the swapped nodes, and one survivable failure leaves the old content at the path |
| MegaFolder.Folder.Verify | apps/sync-gateway/src/mega-adapter.ts:470-501 | The backup goes only once another node holds the path; success means the path was read back with the new content |
| MegaFolder.Folder.TakeBack | apps/sync-gateway/src/mega-adapter.ts:487-500 | The recovery of a write that could not be verified: when its calls do not fail, the path holds the old content again |
| MegaFolder.Folder.ResolveDocument | apps/sync-gateway/src/mega-adapter.ts:791-826 | Duplicates are tolerated only with equal content; the smallest handle wins |
| MegaFolder.WritingIsSafe | apps/sync-gateway/src/mega-adapter.ts:385-501 | What a write in progress keeps implies that nothing is lost |
| MegaFolder.BackupMayGo | apps/sync-gateway/src/mega-adapter.ts:487-500 | When removing the backup loses nothing |
| MegaFolder.Folder.DeleteEntries | apps/sync-gateway/src/mega-adapter.ts:319-368 | Nothing is removed when a present path has other revisions than expected; otherwise, without failures, exactly the nodes at the requested paths go. A failure is reported only when a call failed, and costs no other node |
| MegaFolder.Folder.PlanRemovals | apps/sync-gateway/src/mega-adapter.ts:342-358 | The comparison loop plans exactly the nodes at the requested paths, or names a changed one |
| MegaFolder.CommonSyncPathPrefix | apps/sync-gateway/src/mega-adapter.ts:1068-1080 | For paths under one root: a common prefix, and the longest |
| MegaFolder.PopToShared | apps/sync-gateway/src/mega-adapter.ts:1072-1077 | The popping loop ends at the shared segments, and never below one |
| BrokerTransfers.EveryInterleavingIsAccounted | src-tauri/src/sync_broker.rs:728-744 | In every interleaving the slot counter is stored downloads plus stored uploads plus slots held by running commands, and never exceeds eight |
| BrokerTransfers.ReleaseNeverSaturates | src-tauri/src/sync_broker.rs:738-744 | A command that holds a slot never meets an empty counter |
| BrokerTransfers.StepAccounted | src-tauri/src/sync_broker.rs:1238-1506 | Each step of begin, chunk, finish and cancel keeps the account |
| BrokerTransfers.CancellingAccounted | src-tauri/src/sync_broker.rs:821-851 | Cancelling releases as many slots as transfers were removed |
| BrokerTransfers.CancelDownloadsStep | src-tauri/src/sync_broker.rs:821-835 | The first sweep of a cancel removes exactly the downloads stored under its request and counts them |
| BrokerTransfers.CancelUploadsStep | src-tauri/src/sync_broker.rs:836-851 | The second removes exactly the uploads stored under its request and counts them |
| BrokerTransfers.CancelSweeps | src-tauri/src/sync_broker.rs:821-851 | A cancel with any steps of other commands between its two sweeps: what is stored under its request when a sweep comes is gone, every other transfer stays, and it releases one slot for each that went |
| BrokerTransfers.StoresItsOwn | src-tauri/src/sync_broker.rs:1238-1506 | A begin stores its transfer under its own request and a chunk puts it back under the request it came from; no other step adds a transfer, and nothing but a cancel takes one away |
| BrokerTransfers.ChunkGoesOn | src-tauri/src/sync_broker.rs:1311-1361 | A chunk goes on exactly when the transfer belongs to its caller and the request is still registered |
| BrokerTransfers.RequestsFollow | src-tauri/src/sync_broker.rs:1238-1506 | A request is registered exactly when there is room and no other of its name, and forgotten by the end of its command |
| BrokerTransfers.CallsBegin | src-tauri/src/sync_broker.rs:1238-1506 | What each command takes before it first waits |
| BrokerTransfers.NoSlotLeaks | src-tauri/src/sync_broker.rs:728-744 | When all commands have returned, exactly the stored transfers hold slots |
| DownloadStream.DownloadTransfer.DownloadChunk | src-tauri/src/sync_broker.rs:1607-1648 | A chunk is the next slice of the body, however the network cut it; delivered, queued and unread bytes remain the body, and progress stays within the size |
| DownloadStream.DownloadTransfer.Collect | src-tauri/src/sync_broker.rs:1615-1638 | The refill loop loses, repeats and reorders nothing |
| DownloadStream.DownloadTransfer.Finish | src-tauri/src/sync_broker.rs:1363-1391 | Finishing succeeds exactly when the declared size was delivered and the queue is empty |
| DownloadStream.ServedIsAPrefix | src-tauri/src/sync_broker.rs:1607-1648 | For any list of requested sizes the chunks are a prefix of the body of the right length |
| DownloadStream.DownloadAll | src-tauri/src/sync_broker.rs:1311-1361 | A client asking for one chunk after another is handed exactly that prefix; on a well-behaved network that carries the declared size no request fails |
| SessionStores.FileStoreRefines | apps/sync-gateway/src/session-store.ts:274-415 | For every sequence of requests under a clock that does not go back, with restarts that keep the keys of live records, the file store answers as a plain expiring map |
| SessionStores.ServeFile | apps/sync-gateway/src/session-store.ts:274-415 | A client of the file store, restarts included, gets the answers of the plain map |
| SessionStores.ServeMemory | apps/sync-gateway/src/session-store.ts:77-168 | So does a client of the memory store |
| SessionStores.MemoryStoreRefines | apps/sync-gateway/src/session-store.ts:77-168 | The memory store answers as the same map |
| SessionStores.StepStandsFor | apps/sync-gateway/src/session-store.ts:94-168 | One request: both stores answer as the map and go on standing for it, lazy expiry or eager |
| SessionStores.RotationKeepsSessions | apps/sync-gateway/src/session-store.ts:296-323 | Sealing again under a newer key changes neither value nor expiry |
| SessionStores.RetiringKeys | apps/sync-gateway/src/session-store.ts:296-323 | Reading every live session once is enough to retire all keys but the first: under that key alone the store stands for the same sessions |
| SessionStores.DeadSessionsGo | apps/sync-gateway/src/session-store.ts:94-163 | A record that has expired, is sealed under a key that is gone or belongs to another session is never answered; get, take and move remove it, in both stores, and leave all others |
| SessionStores.SealRoundTrip | apps/sync-gateway/src/session-store.ts:486-578 | A sealed value opens again exactly when it leaves 28 bytes below the limit |
| SessionStores.SessionsNearTheLimitAreLost | apps/sync-gateway/src/session-store.ts:551-561 | Values within 28 bytes of the limit are accepted and lost on the next read |
| SessionStores.MemoryStore.Get | apps/sync-gateway/src/session-store.ts:94-114 | Reading, with lazy expiry, refusal and rotation |
| SessionStores.MemoryStore.Move | apps/sync-gateway/src/session-store.ts:138-163 | Moving a session to a new identifier |
| SessionStores.FileStore.Set | apps/sync-gateway/src/session-store.ts:325-336 | Setting, with the eager purge |
| SessionStores.FileStore.RemoveExpired | apps/sync-gateway/src/session-store.ts:408-415 | The purge keeps exactly the live records |
| SessionStores.FileStore.Move | apps/sync-gateway/src/session-store.ts:360-392 | Moving a session in the file |
| MapConcurrent.SuccessIsComplete | apps/sync-gateway/src/github-adapter.ts:2276-2301 | When all workers return, the output is complete and right exactly when there was a worker, or nothing to do |
| MapConcurrent.ClaimedOnceAndBounded | apps/sync-gateway/src/github-adapter.ts:2276-2301 | In every schedule each index is claimed at most once and at most min(concurrency, n) transforms are in flight |
| MapConcurrent.NoClaimAfterFailure | apps/sync-gateway/src/github-adapter.ts:2283-2297 | No index is claimed after a failure |
| MapConcurrent.RunConsistent | apps/sync-gateway/src/github-adapter.ts:2276-2301 | In every schedule each claimed index is awaited once, or its output is in place, or a worker threw |
| GitAttributes.ReconciledGitAttributes | apps/sync-gateway/src/github-adapter.ts:2203-2221 | A text is written exactly when a legacy line is present or a required one missing |
| GitAttributes.ReconciledContents | apps/sync-gateway/src/github-adapter.ts:2203-2221 | Read back, it has every required line, no legacy line and every other line once, in order |
| GitAttributes.ReconciledOnce | apps/sync-gateway/src/github-adapter.ts:2203-2221 | One step reaches the fixed point |
| GitAttributes.CollectedInOrder | apps/sync-gateway/src/github-adapter.ts:2204-2209 | Lines are collected in the order of their first occurrence |
| GitAttributes.ParsedRendered | apps/sync-gateway/src/github-adapter.ts:2203-2221 | Clean distinct lines that are written are read back unchanged |
| Base64Url.EncodeThenDecode | tools/mega-sdk-bridge/src/bridge_core.cpp:208-269 | Decoding an encoding gives the bytes back exactly for 1 to 24576 bytes, and is refused otherwise |
| Base64Url.DecodeThenEncode | tools/mega-sdk-bridge/src/bridge_core.cpp:208-269 | Every accepted text is the encoding of what it decodes to |
| Base64Url.EncodeBase64Url | tools/mega-sdk-bridge/src/bridge_core.cpp:245-269 | The loop over a wrapping 32-bit accumulator yields the digits of the bytes (RFC 4648, section 5) |
| Base64Url.DigitGroups | tools/mega-sdk-bridge/src/bridge_core.cpp:245-269 | Three bytes are one number whose four digits follow, most significant first; a last pair and a last byte are padded with two and four zero bits (RFC 4648, section 4) |
| Base64Url.DecodeBase64Url | tools/mega-sdk-bridge/src/bridge_core.cpp:208-243 | The decoder, with its refusals |
| Base64Url.DecodeDigits | tools/mega-sdk-bridge/src/bridge_core.cpp:222-243 | The decoding loop yields the octets of the digits, or refuses set pad bits (RFC 4648, section 3.5) |
| Base64Url.AlphabetIsOneToOne | tools/mega-sdk-bridge/src/bridge_core.cpp:90-113 | The URL-safe alphabet and the value function are inverse |
| SyncPaths.BrokerWithinGateway | src-tauri/src/sync_broker.rs:1944-1966 | Every path or prefix the broker accepts is accepted by the gateway; the broker only adds its length limit and, for paths, something below the root |
| SyncPaths.BridgeIsGatewayWithoutEscapes | apps/sync-gateway/src/security.ts:45-70 | The bridge accepts exactly the gateway paths without a percent sign |
| SyncPaths.BridgeSegmentsRoundTrip | tools/mega-sdk-bridge/src/bridge_core.cpp:134-169 | The segments of an accepted path join back to it |
| SyncPaths.ContainsUnsafePercentEncoding | src-tauri/src/sync_broker.rs:1968-2000 | The scanner of the broker finds exactly the unsafe escapes |
| SyncPaths.HasUnsafePercentEncoding | apps/sync-gateway/src/security.ts:72-88 | The scanner of the gateway finds exactly the same |
| SyncPaths.HexDigits | src-tauri/src/sync_broker.rs:1993-2000 | Exactly the hexadecimal digits of either case have a value, and which |
| SyncPaths.ParseLogicalPath | tools/mega-sdk-bridge/src/bridge_core.cpp:134-169 | The parser of the bridge accepts exactly its paths and returns their segments |
| SyncPaths.CutSegments | tools/mega-sdk-bridge/src/bridge_core.cpp:146-168 | The cutting loop returns the segments, or stops at an empty, "." or ".." segment |

## Left out

- IndexedDB and file-system plumbing, schema upgrades, quarantine of other kinds of records, covers, hashing and ZIP archives: platform calls.
- Record schemas, bounds on strings, timestamps and sizes, and archive paths: easy checks on single records.
- The variant, preference and conflict effects a change carries beside its books: they do not touch membership here.
- The import fallback without atomic restore: it replaces the logical state instead of merging.
- The merging of bookmarks, annotations and reader preferences, the progress stored per book, and catalog edits: they leave membership alone.
- LibraryRepository.Repository.Detach: one atomic step, as are Delete, Reconcile, RemovePublication and ReplaceLogicalBookState; the source reads before its write transaction and does not check again, so two tabs racing between the two are not modelled. A refused detach has already moved an unreadable preference to the quarantine; here that is a step of its own, ReadPreference.
- Reconciling.ReconcileMembershipLaw: for a standalone book it takes the derived identifier as new, as a hash is; that consistency survives even a taken identifier is ReconcileValid, and which books are left does not depend on it either (Outbox.ReconciledBooks).
- LibraryRepository.Repository.ListPendingChanges: a change unreadable for a reason other than its books' or parents' number (a malformed record) is not modelled; the books of a consistent library are well formed.
- LibraryBackup.ParseManifest: the logical state and the publications only; progress, bookmarks, annotations, preferences and covers of a manifest are not modelled.
- MegaFolder.Folder.WriteDocument: concurrent writers to one path are not modelled, because recovery is best effort; after a move aside that took effect and was reported as failed, the old content is only known to exist, at its backup path, since the source does not move it back; staging and backup paths are taken to differ from the document's.
- MegaFolder.Folder.DeleteEntries: the paths are the validated ones the gateway passes on, all below the synchronization root; the bridge's listing is taken at its word (tools/mega-sdk-bridge/src/mega_client.cpp is not part of this model).
- BrokerTransfers.EveryInterleavingIsAccounted: the broker is open and no lock is poisoned; teardown, the ownership of requests and the bytes of an upload are not modelled.
- DownloadStream.DownloadTransfer.Finish: the comparison of request and provider is part of the command, not of this model.
- SessionStores.FileStoreRefines: the 16 MiB limit of the file, the validation of session identifiers and the serialization of operations are not modelled; empty session values, which no JSON object is, are excluded.
- The Redis session store: its atomicity lies in scripts run by the server.
- SyncPaths.BrokerWithinGateway: strings are ASCII, so that lengths in bytes and in UTF-16 units agree.
- HTTP routing, cookies, OAuth, keyrings, Git calls, the user interface, platform adapters, observability and configuration: foreign libraries or easy checks.
