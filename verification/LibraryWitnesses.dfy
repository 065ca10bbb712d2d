/** Runs in which a promise with a condition fails. Every library below is reached from the empty one by
    the steps listed. */
module LibraryWitnesses {
  import opened Common
  import opened LogicalBooks
  import opened LibraryTransactions
  import opened LibraryInvariant
  import opened Reconciling
  import opened LibraryBackup
  import opened LibraryRestore
  import opened RestoreTwice
  import opened LibraryRuns
  import opened Outbox
  import opened FormatPreferences
  import opened PublicationOwners
  import opened BackupRoundTrip

  const V1 := VariantId(1)
  const V2 := VariantId(2)
  const V3 := VariantId(3)
  const One := LogicalBookId(1)
  const Two := LogicalBookId(2)
  const Three := LogicalBookId(3)

  function Who(n: nat): Identity {
    Identity(n, [], n)
  }

  function Publication(n: nat, f: Format): BookRecord {
    BookRecord(VariantId(n), f, 0, "", "")
  }

  function Single(n: nat, f: Format): LogicalBook {
    LogicalBook(LogicalBookId(n), "", 0, map[f := VariantId(n)])
  }

  function Holding(records: Records, shelf: Shelf): System {
    System(Store(records, shelf, map[], map[], map[]), map[], [])
  }

  lemma ImportNew(sys: System, record: BookRecord, text: Reconciliation -> nat)
    requires record.id !in sys.store.records
    requires IndexAllows(sys.store.shelf, LogicalBookFromVariant(record, record.importedAt))
    ensures Apply(sys, Import(record, true), text)
         == sys.(store := sys.store.(
                   records := sys.store.records[record.id := record],
                   shelf := sys.store.shelf[SingletonLogicalBookId(record.id) :=
                              LogicalBookFromVariant(record, record.importedAt)]))
  {
    assert sys.log + [] == sys.log;
  }

  // ----- one book in two formats -----

  const EpubRecord := Publication(1, Epub)
  const PdfRecord := Publication(2, Pdf)

  const Pair := LogicalBook(One, "", 1, map[Epub := V1, Pdf := V2])

  const Imported := Holding(map[V1 := EpubRecord, V2 := PdfRecord], map[One := Single(1, Epub), Two := Single(2, Pdf)])

  const ImportBoth := [Import(EpubRecord, true), Import(PdfRecord, true)]

  lemma ImportedRun(text: Reconciliation -> nat)
    ensures Run(EmptyLibrary, ImportBoth, text) == Imported
  {
    var first := Holding(map[V1 := EpubRecord], map[One := Single(1, Epub)]);
    ImportNew(EmptyLibrary, EpubRecord, text);
    RunNext(EmptyLibrary, [], Import(EpubRecord, true), text);
    assert Run(EmptyLibrary, [], text) == EmptyLibrary;
    assert [] + [Import(EpubRecord, true)] == [Import(EpubRecord, true)];
    assert Run(EmptyLibrary, [Import(EpubRecord, true)], text) == first;
    ImportNew(first, PdfRecord, text);
    RunNext(EmptyLibrary, [Import(EpubRecord, true)], Import(PdfRecord, true), text);
    assert [Import(EpubRecord, true)] + [Import(PdfRecord, true)] == ImportBoth;
  }

  const Joined := ImportBoth + [BeginAssociate(0, One, Two, Who(1))] + [CommitAssociate(0)]

  const PairedChange := LogicalChange(Associate, Who(1), map[One := Pair], {Two})

  const Paired := System(
    Store(map[V1 := EpubRecord, V2 := PdfRecord], map[One := Pair], map[], map[], map[1 := PairedChange]),
    map[], [PairedChange])

  const Begun := Imported.(pending := map[0 := PendingAssociate(Single(1, Epub), Single(2, Pdf), Who(1))])

  lemma BegunStep(text: Reconciliation -> nat)
    ensures Apply(Imported, BeginAssociate(0, One, Two, Who(1)), text) == Begun
  {
    assert Imported.log + [] == Imported.log;
  }

  lemma BegunRun(text: Reconciliation -> nat)
    ensures Run(EmptyLibrary, ImportBoth + [BeginAssociate(0, One, Two, Who(1))], text) == Begun
  {
    ImportedRun(text);
    BegunStep(text);
    RunNext(EmptyLibrary, ImportBoth, BeginAssociate(0, One, Two, Who(1)), text);
  }

  lemma AssociatedStore(s: Store)
    requires s == Imported.store
    ensures AssociateCommit(s, Single(1, Epub), Single(2, Pdf), Who(1)) == Committed(Paired.store)
  {
    assert Single(1, Epub).variants + Single(2, Pdf).variants == Pair.variants;
    assert s.shelf - {Two} == map[One := Single(1, Epub)];
    assert map[One := Single(1, Epub)][One := Pair] == map[One := Pair];
    assert s.preferences - {Two} == map[];
  }

  lemma AssociatedStep(text: Reconciliation -> nat)
    ensures Apply(Begun, CommitAssociate(0), text) == Paired
  {
    AssociatedStore(Imported.store);
    assert Begun.pending - {0} == map[];
    assert Transaction(Begun, CommitAssociate(0), text) == Committed(Paired.store);
  }

  lemma PairedRun(text: Reconciliation -> nat)
    ensures Run(EmptyLibrary, Joined, text) == Paired
  {
    BegunRun(text);
    AssociatedStep(text);
    RunNext(EmptyLibrary, ImportBoth + [BeginAssociate(0, One, Two, Who(1))], CommitAssociate(0), text);
  }

  lemma ReachedIsValid(actions: seq<Action>, text: Reconciliation -> nat)
    requires forall i | 0 <= i < |actions| :: !actions[i].CommitRestore?
    ensures SystemValid(Run(EmptyLibrary, actions, text))
  {
    NoRestoreAgrees(EmptyLibrary, actions, text);
    RunKeepsMembership(EmptyLibrary, actions, text);
  }

  lemma PreferStep(sys: System, book: LogicalBookId, f: Format, who: Identity, text: Reconciliation -> nat)
    requires book in sys.store.shelf && f in sys.store.shelf[book].variants && book !in sys.store.preferences
    ensures var s' := Apply(sys, Prefer(book, f, who), text).store;
            && s'.records == sys.store.records && s'.shelf == sys.store.shelf
            && s'.preferences == sys.store.preferences[book := Preference(book, f, who.changeId, {who.changeId}, who.createdAt)]
            && s'.reconciliations == sys.store.reconciliations
            && Apply(sys, Prefer(book, f, who), text).pending == sys.pending
  {
  }

  /** Two formats in one book, the EPUB preferred; the EPUB is removed. */
  lemma RemovalLeavesPreference(text: Reconciliation -> nat)
    ensures var actions := Joined + [Prefer(One, Epub, Who(2))];
            && Preferring(Run(EmptyLibrary, actions, text).store)
            && !Preferring(Run(EmptyLibrary, actions + [Remove(V1, 3)], text).store)
  {
    var actions := Joined + [Prefer(One, Epub, Who(2))];
    PairedRun(text);
    RunNext(EmptyLibrary, Joined, Prefer(One, Epub, Who(2)), text);
    PreferStep(Paired, One, Epub, Who(2), text);
    ReachedIsValid(actions, text);
    var s := Run(EmptyLibrary, actions, text).store;
    assert HasRow(s.shelf, Row(One, Epub, V1)) && Prefers(s.preferences, One, Epub);
    RunNext(EmptyLibrary, actions, Remove(V1, 3), text);
    RemovalAndPreferences(s, V1, 3);
  }

  // ----- the canonical book of a deleted publication -----

  const Deleted := Joined + [Delete(One, Some(V1), Who(2))]

  const Remaining := LogicalBook(One, "", 2, map[Pdf := V2])

  lemma DeletedRun(text: Reconciliation -> nat)
    ensures var s := Run(EmptyLibrary, Deleted, text).store;
            s.records == map[V2 := PdfRecord] && s.shelf == map[One := Remaining] && s.preferences == map[]
  {
    PairedRun(text);
    RunNext(EmptyLibrary, Joined, Delete(One, Some(V1), Who(2)), text);
    DeleteFromPair(Paired.store);
    assert Apply(Paired, Delete(One, Some(V1), Who(2)), text).store
        == After(Paired.store, DeleteVariants(Paired.store, One, Some(V1), Who(2)));
  }

  lemma DeleteFromPair(s: Store)
    requires s.shelf == map[One := Pair] && s.records == map[V1 := EpubRecord, V2 := PdfRecord] && s.preferences == map[]
    ensures var s' := After(s, DeleteVariants(s, One, Some(V1), Who(2)));
            s'.records == map[V2 := PdfRecord] && s'.shelf == map[One := Remaining] && s'.preferences == map[]
  {
    assert Pair.variants[Epub] == V1 && V1 in Pair.variants.Values;
    assert Without(Pair, {V1}) == map[Pdf := V2];
    assert s.records - {V1} == map[V2 := PdfRecord];
  }

  /** Importing the EPUB again overwrites the book that still carries its identifier: the PDF, stored, has
      no owner any more. */
  lemma ImportLosesOwner(text: Reconciliation -> nat)
    ensures AllOwned(Run(EmptyLibrary, Deleted, text).store)
    ensures !AllOwned(Run(EmptyLibrary, Deleted + [Import(EpubRecord, true)], text).store)
  {
    DeletedRun(text);
    ReachedIsValid(Deleted, text);
    var s := Run(EmptyLibrary, Deleted, text).store;
    assert HasRow(s.shelf, Row(One, Pdf, V2));
    RunNext(EmptyLibrary, Deleted, Import(EpubRecord, true), text);
    ImportAndOwners(s, EpubRecord, true);
  }

  const DeletedPreferring := Deleted + [Prefer(One, Pdf, Who(3))]

  lemma DeletedPrefers(text: Reconciliation -> nat)
    ensures var s := Run(EmptyLibrary, DeletedPreferring, text).store;
            V1 !in s.records && Preferring(s) && Prefers(s.preferences, One, Pdf)
  {
    DeletedRun(text);
    RunNext(EmptyLibrary, Deleted, Prefer(One, Pdf, Who(3)), text);
    PreferStep(Run(EmptyLibrary, Deleted, text), One, Pdf, Who(3), text);
  }

  /** With a preference for the PDF, that import leaves the preference dangling too. */
  lemma ImportLeavesPreference(text: Reconciliation -> nat)
    ensures Preferring(Run(EmptyLibrary, DeletedPreferring, text).store)
    ensures !Preferring(Run(EmptyLibrary, DeletedPreferring + [Import(EpubRecord, true)], text).store)
  {
    DeletedPrefers(text);
    ReachedIsValid(DeletedPreferring, text);
    ImportAndPreferences(Run(EmptyLibrary, DeletedPreferring, text).store, EpubRecord, true);
    ImportStep(Run(EmptyLibrary, DeletedPreferring, text), EpubRecord, text);
    RunNext(EmptyLibrary, DeletedPreferring, Import(EpubRecord, true), text);
  }

  // ----- conflicts -----

  lemma ReplaceStep(
      sys: System, books: seq<LogicalBook>, prefs: Preferences, recs: Reconciliations, text: Reconciliation -> nat)
    requires Replaceable(books, prefs, recs) && ListedOnce(books) && ListedStored(books, sys.store.records)
    ensures Apply(sys, SyncReplace(books, prefs, recs), text)
         == sys.(store := sys.store.(shelf := Shelved(books), preferences := prefs, reconciliations := recs))
  {
    assert sys.log + [] == sys.log;
  }

  lemma PairReplaced(prefs: Preferences, recs: Reconciliations, text: Reconciliation -> nat)
    requires Replaceable([Pair], prefs, recs)
    ensures Apply(Imported, SyncReplace([Pair], prefs, recs), text)
         == System(Store(Imported.store.records, map[One := Pair], prefs, recs, map[]), map[], [])
  {
    PairListed();
    ReplaceStep(Imported, [Pair], prefs, recs, text);
    assert [Pair][..|[Pair]| - 1] == [];
    assert Shelved([Pair][..|[Pair]| - 1]) == map[];
  }

  lemma PairListed()
    ensures ListedOnce([Pair]) && ListedStored([Pair], Imported.store.records)
  {
  }

  /** A synchronized library of one book in two formats. */
  function Synced(prefs: Preferences, recs: Reconciliations): seq<Action> {
    ImportBoth + [SyncReplace([Pair], prefs, recs)]
  }

  lemma SyncedRun(prefs: Preferences, recs: Reconciliations, text: Reconciliation -> nat)
    requires Replaceable([Pair], prefs, recs)
    ensures Run(EmptyLibrary, Synced(prefs, recs), text)
         == System(Store(Imported.store.records, map[One := Pair], prefs, recs, map[]), map[], [])
  {
    ImportedRun(text);
    PairReplaced(prefs, recs, text);
    RunNext(EmptyLibrary, ImportBoth, SyncReplace([Pair], prefs, recs), text);
  }

  /** Both publications are in dispute; only the PDF is in the accepted rows. */
  const BothDisputed := Reconciliation(
    9, Open, [V1, V2], [Row(One, Pdf, V2)], [Row(One, Epub, V1)])

  const Disputing := Synced(map[], map[9 := BothDisputed])

  lemma DisputingRun(text: Reconciliation -> nat)
    ensures var s := Run(EmptyLibrary, Disputing, text).store;
            && s.records == map[V1 := EpubRecord, V2 := PdfRecord] && s.shelf == map[One := Pair]
            && s.preferences == map[] && s.reconciliations == map[9 := BothDisputed]
  {
    SyncedRun(map[], map[9 := BothDisputed], text);
  }

  lemma PairIsOwned(s: Store)
    requires s.records.Keys == {V1, V2} && s.shelf == map[One := Pair]
    ensures AllOwned(s)
  {
    assert HasRow(s.shelf, Row(One, Epub, V1)) && HasRow(s.shelf, Row(One, Pdf, V2));
  }

  /** `other` is in dispute with `row` and not selected. */
  ghost predicate LeavesOut(s: Store, conflict: ConflictId, row: Row, other: VariantId) {
    && OneRowSettles(s, conflict, row)
    && other in s.reconciliations[conflict].affected && other != row.variant && other in s.records
  }

  lemma OneRowOnly(s: Store, conflict: ConflictId, row: Row, other: VariantId, derived: LogicalBookId, who: Identity)
    requires Valid(s) && LeavesOut(s, conflict, row, other)
    ensures var o := Reconciling.ReconcileMembership(s, conflict, KeepAccepted, derived, who);
            o.Committed? && HasRow(o.store.shelf, row) && !Owned(o.store.shelf, other) && !AllOwned(o.store)
  {
    OneRowReconciles(s, conflict, row, derived, who);
    ReconcileMembershipLaw(s, conflict, KeepAccepted, derived, who);
    assert row in [row];
  }

  lemma PairLeavesOut(s: Store)
    requires s.shelf == map[One := Pair] && s.reconciliations == map[9 := BothDisputed]
    requires s.records == map[V1 := EpubRecord, V2 := PdfRecord]
    ensures LeavesOut(s, 9, Row(One, Pdf, V2), V1)
  {
    assert BothDisputed.affected[0] == V1 && BothDisputed.affected[1] == V2;
  }

  lemma DisputingOwned(text: Reconciliation -> nat)
    ensures var s := Run(EmptyLibrary, Disputing, text).store;
            AllOwned(s) && s.preferences == map[] && V1 in s.records && s.records[V1].format == Epub
  {
    DisputingRun(text);
    PairIsOwned(Run(EmptyLibrary, Disputing, text).store);
  }

  lemma DisputingLeavesOut(text: Reconciliation -> nat)
    ensures LeavesOut(Run(EmptyLibrary, Disputing, text).store, 9, Row(One, Pdf, V2), V1)
  {
    DisputingRun(text);
    PairLeavesOut(Run(EmptyLibrary, Disputing, text).store);
  }

  /** Keeping the accepted side commits and leaves the other publication without an owner. */
  lemma DisputeSettles(text: Reconciliation -> nat)
    ensures var s := Run(EmptyLibrary, Disputing, text).store;
            var o := Reconciling.ReconcileMembership(s, 9, KeepAccepted, Three, Who(5));
            o.Committed? && HasRow(o.store.shelf, Row(One, Pdf, V2)) && !Owned(o.store.shelf, V1) && !AllOwned(o.store)
  {
    DisputingLeavesOut(text);
    ReachedIsValid(Disputing, text);
    OneRowOnly(Run(EmptyLibrary, Disputing, text).store, 9, Row(One, Pdf, V2), V1, Three, Who(5));
  }

  lemma ReconcileStep(
      sys: System, conflict: ConflictId, decision: Decision, derived: LogicalBookId, who: Identity,
      text: Reconciliation -> nat)
    ensures var o := Reconciling.ReconcileMembership(sys.store, conflict, decision, derived, who);
            Apply(sys, Reconcile(conflict, decision, derived, who), text) ==
            System(After(sys.store, o), sys.pending, sys.log + Logged(o, Some(who)))
  {
  }

  /** Keeping the accepted side leaves the other publication stored without an owner. */
  lemma ReconcilingLosesOwner(text: Reconciliation -> nat)
    ensures AllOwned(Run(EmptyLibrary, Disputing, text).store)
    ensures !AllOwned(Run(EmptyLibrary, Disputing + [Reconcile(9, KeepAccepted, Three, Who(5))], text).store)
  {
    DisputingOwned(text);
    DisputeSettles(text);
    ReconcileStep(Run(EmptyLibrary, Disputing, text), 9, KeepAccepted, Three, Who(5), text);
    RunNext(EmptyLibrary, Disputing, Reconcile(9, KeepAccepted, Three, Who(5)), text);
  }

  lemma ReconcileOnly(s: Store, conflict: ConflictId, decision: Decision, derived: LogicalBookId, who: Identity)
    requires Reconciling.ReconcileMembership(s, conflict, decision, derived, who).Committed? && s.preferences == map[]
    ensures var s' := Reconciling.ReconcileMembership(s, conflict, decision, derived, who).store;
            s'.records == s.records && s'.preferences == map[]
  {
  }

  const DisputeSettled := Disputing + [Reconcile(9, KeepAccepted, Three, Who(5))]

  /** The EPUB is stored without an owner, and its canonical book prefers the PDF. */
  lemma SettledForPdf(text: Reconciliation -> nat)
    ensures var s := Run(EmptyLibrary, DisputeSettled + [Prefer(One, Pdf, Who(6))], text).store;
            && V1 in s.records && s.records[V1].format == Epub && !Owned(s.shelf, V1)
            && Prefers(s.preferences, One, Pdf) && Preferring(s)
  {
    var a, b := Reconcile(9, KeepAccepted, Three, Who(5)), Prefer(One, Pdf, Who(6));
    DisputingOwned(text);
    DisputeSettles(text);
    var s := Run(EmptyLibrary, Disputing, text).store;
    ReconcileOnly(s, 9, KeepAccepted, Three, Who(5));
    ReconcileStep(Run(EmptyLibrary, Disputing, text), 9, KeepAccepted, Three, Who(5), text);
    RunNext(EmptyLibrary, Disputing, a, text);
    RunNext(EmptyLibrary, DisputeSettled, b, text);
    PreferStep(Run(EmptyLibrary, DisputeSettled, text), One, Pdf, Who(6), text);
  }

  /** Importing that EPUB, which is stored already, leaves the preference dangling. */
  lemma ImportOfStoredLeavesPreference(text: Reconciliation -> nat)
    ensures var actions := DisputeSettled + [Prefer(One, Pdf, Who(6))];
            && Preferring(Run(EmptyLibrary, actions, text).store)
            && !Preferring(Run(EmptyLibrary, actions + [Import(EpubRecord, true)], text).store)
  {
    var actions := DisputeSettled + [Prefer(One, Pdf, Who(6))];
    SettledForPdf(text);
    ReachedIsValid(actions, text);
    ImportAndPreferences(Run(EmptyLibrary, actions, text).store, EpubRecord, true);
    ImportStep(Run(EmptyLibrary, actions, text), EpubRecord, text);
    RunNext(EmptyLibrary, actions, Import(EpubRecord, true), text);
  }

  lemma ImportStep(sys: System, record: BookRecord, text: Reconciliation -> nat)
    ensures Apply(sys, Import(record, true), text).store == After(sys.store, ImportBook(sys.store, record, true))
  {
  }

  // ----- a backup that is refused -----

  /** Two devices disagree about which book the EPUB belongs to. */
  const Claimed := Reconciliation(9, Open, [V1], [Row(One, Epub, V1)], [Row(Two, Epub, V1)])

  ghost predicate Claiming(s: Store) {
    && s.records == Imported.store.records && s.shelf == Imported.store.shelf
    && s.preferences == map[] && s.reconciliations == map[9 := Claimed]
  }

  const ClaimedLibrary := ImportBoth + [SyncReplace([Single(1, Epub), Single(2, Pdf)], map[], map[9 := Claimed])]

  lemma TwoListed()
    ensures ListedOnce([Single(1, Epub), Single(2, Pdf)])
    ensures ListedStored([Single(1, Epub), Single(2, Pdf)], Imported.store.records)
    ensures Shelved([Single(1, Epub), Single(2, Pdf)]) == Imported.store.shelf
  {
    var books := [Single(1, Epub), Single(2, Pdf)];
    assert books[..1] == [Single(1, Epub)] && [Single(1, Epub)][..0] == [];
    assert Shelved([Single(1, Epub)][..0]) == map[];
    assert Shelved(books[..1]) == map[One := Single(1, Epub)];
  }

  lemma ClaimedRun(text: Reconciliation -> nat)
    ensures Claiming(Run(EmptyLibrary, ClaimedLibrary, text).store)
  {
    var books := [Single(1, Epub), Single(2, Pdf)];
    ImportedRun(text);
    TwoListed();
    ReplaceStep(Imported, books, map[], map[9 := Claimed], text);
    RunNext(EmptyLibrary, ImportBoth, SyncReplace(books, map[], map[9 := Claimed]), text);
  }

  lemma ClaimSettles(s: Store)
    requires Claiming(s)
    ensures Settles(s, 9, AcceptRejected(Two), Three)
    ensures !RowAfter(s, Claimed, AcceptRejected(Two), Three, Row(One, Epub, V1))
  {
    assert Claimed.affected[0] == V1 && Claimed.rejected[0] == Row(Two, Epub, V1);
    forall r | RowAfter(s, Claimed, AcceptRejected(Two), Three, r)
      ensures r == Row(Two, Epub, V1) || r == Row(Two, Pdf, V2)
    {
    }
  }

  lemma ClaimedBackup(s: Store, a: Archive)
    requires Valid(s) && Claiming(s) && Exports(a, s)
    ensures Accepted(a)
  {
    ClaimIsCurrent(s);
    ExportAccepted(a, s);
  }

  lemma ClaimIsCurrent(s: Store)
    requires Claiming(s)
    ensures Current(s, Claimed) && AllOwned(s) && StateKeyed(s) && Preferring(s)
  {
    assert HasRow(s.shelf, Row(One, Epub, V1)) && HasRow(s.shelf, Row(Two, Pdf, V2));
    assert Claimed.affected[0] == V1;
    forall r | r in Claimed.accepted + Claimed.rejected ensures r.variant == V1 && r.format == Epub {
    }
  }

  /** The library's backups are accepted while the conflict is open, and refused once it has been resolved
      in favour of the rejected side. */
  lemma ResolvedConflictBlocksBackup(a: Archive, a': Archive, text: Reconciliation -> nat)
    requires Exports(a, Run(EmptyLibrary, ClaimedLibrary, text).store)
    requires Exports(a', Run(EmptyLibrary, ClaimedLibrary + [Reconcile(9, AcceptRejected(Two), Three, Who(5))], text).store)
    ensures Accepted(a) && !Accepted(a')
  {
    ClaimReached(text);
    ClaimReconciled(text);
    var s := Run(EmptyLibrary, ClaimedLibrary, text).store;
    ClaimedBackup(s, a);
    ClaimBlocks(s, a');
  }

  lemma ClaimReached(text: Reconciliation -> nat)
    ensures Claiming(Run(EmptyLibrary, ClaimedLibrary, text).store) && Valid(Run(EmptyLibrary, ClaimedLibrary, text).store)
  {
    ClaimedRun(text);
    ReachedIsValid(ClaimedLibrary, text);
  }

  lemma ClaimReconciled(text: Reconciliation -> nat)
    ensures Run(EmptyLibrary, ClaimedLibrary + [Reconcile(9, AcceptRejected(Two), Three, Who(5))], text).store
         == After(Run(EmptyLibrary, ClaimedLibrary, text).store,
                  Reconciling.ReconcileMembership(Run(EmptyLibrary, ClaimedLibrary, text).store, 9, AcceptRejected(Two), Three, Who(5)))
  {
    ReconcileStep(Run(EmptyLibrary, ClaimedLibrary, text), 9, AcceptRejected(Two), Three, Who(5), text);
    RunNext(EmptyLibrary, ClaimedLibrary, Reconcile(9, AcceptRejected(Two), Three, Who(5)), text);
  }

  lemma ClaimBlocks(s: Store, a: Archive)
    requires Valid(s) && Claiming(s)
    requires Exports(a, After(s, Reconciling.ReconcileMembership(s, 9, AcceptRejected(Two), Three, Who(5))))
    ensures !Accepted(a)
  {
    ClaimSettles(s);
    ClaimKeyed(s);
    assert Claimed.accepted[0] == Row(One, Epub, V1);
    OtherSideBlocksBackup(s, 9, AcceptRejected(Two), Three, Who(5), Row(One, Epub, V1), a);
  }

  lemma ClaimKeyed(s: Store)
    requires Claiming(s)
    ensures StateKeyed(s)
  {
  }

  // ----- changes too large to be read back -----

  const ThreeRecords: Records := map[V1 := Publication(1, Epub), V2 := Publication(2, Epub), V3 := Publication(3, Epub)]

  const ThreeBooks: Shelf := map[One := Single(1, Epub), Two := Single(2, Epub), Three := Single(3, Epub)]

  const ImportThree := [Import(Publication(1, Epub), true), Import(Publication(2, Epub), true), Import(Publication(3, Epub), true)]

  lemma ThreeImported(text: Reconciliation -> nat)
    ensures Run(EmptyLibrary, ImportThree, text) == Holding(ThreeRecords, ThreeBooks)
  {
    var one, two, three := Import(Publication(1, Epub), true), Import(Publication(2, Epub), true), Import(Publication(3, Epub), true);
    var first := Holding(map[V1 := Publication(1, Epub)], map[One := Single(1, Epub)]);
    var second := Holding(map[V1 := Publication(1, Epub), V2 := Publication(2, Epub)],
                          map[One := Single(1, Epub), Two := Single(2, Epub)]);
    assert ImportThree[..2] == [one, two] && [one, two][..1] == [one] && [one][..0] == [];
    assert Run(EmptyLibrary, [one][..0], text) == EmptyLibrary;
    ImportNew(EmptyLibrary, Publication(1, Epub), text);
    assert Run(EmptyLibrary, [one], text) == first;
    ImportNew(first, Publication(2, Epub), text);
    assert Run(EmptyLibrary, [one, two], text) == second;
    ImportNew(second, Publication(3, Epub), text);
  }

  /** Two devices disagree about where the first publication belongs. */
  const OneDisputed := Reconciliation(9, Open, [V1], [Row(One, Epub, V1)], [Row(Two, Epub, V1)])

  const ThreeSynced := ImportThree
    + [SyncReplace([Single(1, Epub), Single(2, Epub), Single(3, Epub)], map[], map[9 := OneDisputed])]

  lemma ThreeShelved()
    ensures Shelved([Single(1, Epub), Single(2, Epub), Single(3, Epub)]) == ThreeBooks
  {
    var books := [Single(1, Epub), Single(2, Epub), Single(3, Epub)];
    assert books[..2] == [Single(1, Epub), Single(2, Epub)];
    assert books[..2][..1] == [Single(1, Epub)] && [Single(1, Epub)][..0] == [];
    assert Shelved([Single(1, Epub)][..0]) == map[];
    assert Shelved(books[..2][..1]) == map[One := Single(1, Epub)];
    assert Shelved(books[..2]) == map[One := Single(1, Epub), Two := Single(2, Epub)];
  }

  lemma ThreeSyncedRun(text: Reconciliation -> nat)
    ensures Run(EmptyLibrary, ThreeSynced, text)
         == System(Store(ThreeRecords, ThreeBooks, map[], map[9 := OneDisputed], map[]), map[], [])
  {
    var books := [Single(1, Epub), Single(2, Epub), Single(3, Epub)];
    ThreeImported(text);
    RunNext(EmptyLibrary, ImportThree, SyncReplace(books, map[], map[9 := OneDisputed]), text);
    ThreeReplaced(text);
  }

  lemma ThreeReplaced(text: Reconciliation -> nat)
    ensures Apply(Holding(ThreeRecords, ThreeBooks),
                  SyncReplace([Single(1, Epub), Single(2, Epub), Single(3, Epub)], map[], map[9 := OneDisputed]), text)
         == System(Store(ThreeRecords, ThreeBooks, map[], map[9 := OneDisputed], map[]), map[], [])
  {
    var books := [Single(1, Epub), Single(2, Epub), Single(3, Epub)];
    ThreeListed();
    ReplaceStep(Holding(ThreeRecords, ThreeBooks), books, map[], map[9 := OneDisputed], text);
    ThreeShelved();
  }

  lemma ThreeListed()
    ensures var books := [Single(1, Epub), Single(2, Epub), Single(3, Epub)];
            && Replaceable(books, map[], map[9 := OneDisputed])
            && ListedOnce(books) && ListedStored(books, ThreeRecords)
  {
    var books := [Single(1, Epub), Single(2, Epub), Single(3, Epub)];
    forall i | 0 <= i < |books| ensures books[i] == Single(i + 1, Epub) {
    }
    SinglesListed(books);
    assert ListedStored(books, ThreeRecords);
  }

  lemma SinglesListed(books: seq<LogicalBook>)
    requires forall i | 0 <= i < |books| :: books[i] == Single(i + 1, Epub)
    ensures ListedOnce(books)
  {
    forall i, f | 0 <= i < |books| && f in books[i].variants ensures books[i].variants[f] == VariantId(i + 1) && f == Epub {
    }
  }

  lemma ThreeDoNotFit(s: Store)
    requires s.shelf == ThreeBooks && s.reconciliations == map[9 := OneDisputed]
    ensures !BooksFit(s, 9, KeepAccepted, LogicalBookId(0))
  {
    assert OneDisputed.accepted[0].book == One;
    KeepsBook(s.shelf, OneDisputed.affected, Two, Epub);
    KeepsBook(s.shelf, OneDisputed.affected, Three, Epub);
    TooManyBooks(s, 9, LogicalBookId(0), One, Two, Three);
  }

  lemma KeepsBook(m: Shelf, affected: seq<VariantId>, id: LogicalBookId, f: Format)
    requires id in m && f in m[id].variants && m[id].variants[f] !in affected
    ensures id in BooksKept(m, affected)
  {
  }

  lemma TooManyBooks(
      s: Store, conflict: ConflictId, derived: LogicalBookId, a: LogicalBookId, b: LogicalBookId, c: LogicalBookId)
    requires conflict in s.reconciliations && a != b && b != c && a != c
    requires {a, b, c} <= BooksAfter(s, s.reconciliations[conflict], KeepAccepted, derived)
    ensures !BooksFit(s, conflict, KeepAccepted, derived)
  {
    SubsetSize({a, b, c}, BooksAfter(s, s.reconciliations[conflict], KeepAccepted, derived));
    assert |{a, b, c}| == 3;
  }

  /** Keeping `row` goes through, and `kept` stays on a book of its own. */
  ghost predicate KeepsRow(s: Store, conflict: ConflictId, row: Row, kept: Row, who: Identity) {
    && OneRowSettles(s, conflict, row)
    && HasRow(s.shelf, kept) && kept.variant !in s.reconciliations[conflict].affected && kept.book != row.book
    && s.shelf[kept.book].updatedAt != who.createdAt
  }

  /** In a library too large for it, a reconciliation commits, changes the shelf, and records a change
      that cannot be read back. */
  lemma OneRowUnlisted(
      s: Store, conflict: ConflictId, row: Row, kept: Row, derived: LogicalBookId, who: Identity)
    requires Valid(s) && KeepsRow(s, conflict, row, kept, who) && !BooksFit(s, conflict, KeepAccepted, derived)
    ensures var o := Reconciling.ReconcileMembership(s, conflict, KeepAccepted, derived, who);
            && o.Committed? && o.store.shelf != s.shelf
            && who.changeId in o.store.outbox && !Readable(o.store.outbox[who.changeId])
  {
    OneRowReconciles(s, conflict, row, derived, who);
    ReconcileReadable(s, conflict, KeepAccepted, derived, who);
    ReconcileMembershipLaw(s, conflict, KeepAccepted, derived, who);
    var s' := Reconciling.ReconcileMembership(s, conflict, KeepAccepted, derived, who).store;
    assert HasRow(s'.shelf, kept);
  }

  lemma ThreeKeepRow(s: Store)
    requires s.records == ThreeRecords && s.shelf == ThreeBooks && s.reconciliations == map[9 := OneDisputed]
    ensures KeepsRow(s, 9, Row(One, Epub, V1), Row(Two, Epub, V2), Who(5))
  {
    assert OneDisputed.affected[0] == V1;
  }

  lemma ThreeSyncedKeepRow(text: Reconciliation -> nat)
    ensures var before := Run(EmptyLibrary, ThreeSynced, text);
            before.log == [] && KeepsRow(before.store, 9, Row(One, Epub, V1), Row(Two, Epub, V2), Who(5))
  {
    ThreeSyncedRun(text);
    ThreeKeepRow(Run(EmptyLibrary, ThreeSynced, text).store);
  }

  lemma ThreeSyncedDoNotFit(text: Reconciliation -> nat)
    ensures !BooksFit(Run(EmptyLibrary, ThreeSynced, text).store, 9, KeepAccepted, LogicalBookId(0))
  {
    ThreeSyncedRun(text);
    ThreeDoNotFit(Run(EmptyLibrary, ThreeSynced, text).store);
  }

  lemma UnreadableIsNotListed(m: Shelf, change: Change)
    requires !Readable(change)
    ensures Readables([change]) == [] && Replay(m, []) == m
  {
    assert [change][..|[change]| - 1] == [];
  }

  lemma OneUnreadable(before: System, o: Outcome, who: Identity)
    requires before.log == [] && o.Committed?
    requires who.changeId in o.store.outbox && !Readable(o.store.outbox[who.changeId])
    ensures var log := before.log + Logged(o, Some(who));
            && |log| == 1 && Readables(log) == []
            && Replay(before.store.shelf, Readables(log)) == before.store.shelf
  {
    var change := o.store.outbox[who.changeId];
    assert before.log + [change] == [change];
    UnreadableIsNotListed(before.store.shelf, change);
  }

  lemma ThreeSyncedUnlisted(text: Reconciliation -> nat)
    ensures var before := Run(EmptyLibrary, ThreeSynced, text);
            var o := Reconciling.ReconcileMembership(before.store, 9, KeepAccepted, LogicalBookId(0), Who(5));
            && SystemValid(before) && before.log == []
            && o.Committed? && o.store.shelf != before.store.shelf && 5 in o.store.outbox && !Readable(o.store.outbox[5])
  {
    ThreeSyncedKeepRow(text);
    ThreeSyncedDoNotFit(text);
    ReachedIsValid(ThreeSynced, text);
    OneRowUnlisted(Run(EmptyLibrary, ThreeSynced, text).store, 9, Row(One, Epub, V1), Row(Two, Epub, V2), LogicalBookId(0), Who(5));
  }

  /** A conflict resolved in a library of three books commits a change that is never listed: what is
      listed does not give the shelf. */
  lemma ReconcilingThreeBooksIsNotReplayed(text: Reconciliation -> nat)
    ensures var before := Run(EmptyLibrary, ThreeSynced, text);
            var after := Run(EmptyLibrary, ThreeSynced + [Reconcile(9, KeepAccepted, LogicalBookId(0), Who(5))], text);
            && SystemValid(before) && before.log == [] && |after.log| == 1
            && Readables(after.log) == []
            && Replay(before.store.shelf, Readables(after.log)) != after.store.shelf
  {
    var before := Run(EmptyLibrary, ThreeSynced, text);
    ThreeSyncedUnlisted(text);
    ReconcileStep(before, 9, KeepAccepted, LogicalBookId(0), Who(5), text);
    OneUnreadable(before, Reconciling.ReconcileMembership(before.store, 9, KeepAccepted, LogicalBookId(0), Who(5)), Who(5));
    RunNext(EmptyLibrary, ThreeSynced, Reconcile(9, KeepAccepted, LogicalBookId(0), Who(5)), text);
  }

  // ----- preferences with as many heads as can be read -----

  lemma {:induction false} HeadsBelow(n: nat) returns (heads: set<ChangeId>)
    ensures |heads| == n && (forall h | h in heads :: h < n) && (n > 0 ==> 0 in heads)
  {
    if n == 0 {
      heads := {};
    } else {
      var rest := HeadsBelow(n - 1);
      heads := rest + {n - 1};
    }
  }

  /** As many heads as can be read, all of them early changes. */
  predicate Full(heads: set<ChangeId>) {
    |heads| == MAX_HEADS && 0 in heads && forall h | h in heads :: h < 100
  }

  lemma FullExists()
    ensures exists heads :: Full(heads)
  {
    var heads := HeadsBelow(MAX_HEADS);
    assert Full(heads);
  }

  function Crowded(heads: set<ChangeId>, f: Format): Preference {
    Preference(One, f, 0, heads, 0)
  }

  function CrowdedLibrary(heads: set<ChangeId>): seq<Action> {
    Synced(map[One := Crowded(heads, Epub)], map[])
  }

  const NewChoice := Identity(200, [300], 200)

  lemma CrowdedRun(heads: set<ChangeId>, text: Reconciliation -> nat)
    requires Full(heads)
    ensures var before := Run(EmptyLibrary, CrowdedLibrary(heads), text);
            && before.log == [] && before.store.shelf == map[One := Pair]
            && before.store.preferences == map[One := Crowded(heads, Epub)]
  {
    SyncedRun(map[One := Crowded(heads, Epub)], map[], text);
  }

  lemma CrowdedOverflows(heads: set<ChangeId>, s: Store)
    requires Full(heads) && s.shelf == map[One := Pair] && s.preferences == map[One := Crowded(heads, Epub)]
    ensures var o := SavePreference(s, One, Pdf, NewChoice);
            && o.Committed? && o.store.shelf == s.shelf
            && 200 in o.store.outbox && !Readable(o.store.outbox[200])
  {
    var parents := (set p | p in NewChoice.parents) + HeadsOf(s.preferences, One);
    assert NewChoice.parents[0] == 300;
    assert parents == heads + {300};
    PreferReadable(s, One, Pdf, NewChoice);
  }

  /** Choosing another format when the preference has 32 heads and the change a parent of its own: the
      change is not listed. The shelf is none the worse, so a list can replay without being complete. */
  lemma CrowdedChoiceIsNotListed(heads: set<ChangeId>, text: Reconciliation -> nat)
    requires Full(heads)
    ensures var before := Run(EmptyLibrary, CrowdedLibrary(heads), text);
            var after := Run(EmptyLibrary, CrowdedLibrary(heads) + [Prefer(One, Pdf, NewChoice)], text);
            && |after.log| == 1 && Readables(after.log) == []
            && Replay(before.store.shelf, Readables(after.log)) == after.store.shelf
  {
    var before := Run(EmptyLibrary, CrowdedLibrary(heads), text);
    CrowdedRunOverflows(heads, text);
    PreferLogged(before, One, Pdf, NewChoice, text);
    OneUnreadable(before, SavePreference(before.store, One, Pdf, NewChoice), NewChoice);
    RunNext(EmptyLibrary, CrowdedLibrary(heads), Prefer(One, Pdf, NewChoice), text);
  }

  lemma CrowdedRunOverflows(heads: set<ChangeId>, text: Reconciliation -> nat)
    requires Full(heads)
    ensures var before := Run(EmptyLibrary, CrowdedLibrary(heads), text);
            var o := SavePreference(before.store, One, Pdf, NewChoice);
            && before.log == [] && o.Committed? && o.store.shelf == before.store.shelf
            && 200 in o.store.outbox && !Readable(o.store.outbox[200])
  {
    CrowdedRun(heads, text);
    CrowdedOverflows(heads, Run(EmptyLibrary, CrowdedLibrary(heads), text).store);
  }

  lemma PreferLogged(sys: System, book: LogicalBookId, f: Format, who: Identity, text: Reconciliation -> nat)
    ensures var o := SavePreference(sys.store, book, f, who);
            Apply(sys, Prefer(book, f, who), text) ==
            System(After(sys.store, o), sys.pending, sys.log + Logged(o, Some(who)))
  {
  }

  /** An archive of the same book, whose preference for the PDF has 32 heads of its own. */
  function CrowdedArchive(heads: set<ChangeId>): Archive {
    Archive([EpubRecord, PdfRecord], [Pair], [Crowded(heads, Pdf)], [])
  }

  const PreferringEpub := Joined + [Prefer(One, Epub, Who(100))]

  lemma PreferringEpubRun(text: Reconciliation -> nat)
    ensures var sys := Run(EmptyLibrary, PreferringEpub, text);
            && sys.store.records == Imported.store.records && sys.store.shelf == map[One := Pair]
            && sys.store.preferences == map[One := Preference(One, Epub, 100, {100}, 100)]
            && sys.store.reconciliations == map[] && sys.pending == map[]
  {
    PairedRun(text);
    RunNext(EmptyLibrary, Joined, Prefer(One, Epub, Who(100)), text);
    PreferStep(Paired, One, Epub, Who(100), text);
  }

  lemma CrowdedAccepted(heads: set<ChangeId>)
    requires Full(heads)
    ensures Accepted(CrowdedArchive(heads))
  {
    assert HasBook(CrowdedArchive(heads).books, V1, Epub) by { assert CrowdedArchive(heads).books[0].id == V1; }
    assert HasBook(CrowdedArchive(heads).books, V2, Pdf) by { assert CrowdedArchive(heads).books[1].id == V2; }
    assert CrowdedArchive(heads).logical[0].variants[Epub] == V1 && CrowdedArchive(heads).logical[0].variants[Pdf] == V2;
    assert Listed(CrowdedArchive(heads).logical, V1) && Listed(CrowdedArchive(heads).logical, V2);
  }

  lemma CrowdedFits(heads: set<ChangeId>, s: Store)
    requires s.records == Imported.store.records && s.shelf == map[One := Pair]
    ensures NoConflicts(CrowdedArchive(heads).logical, s.shelf) && FormatsAgree(CrowdedArchive(heads), s.records, s.shelf)
  {
  }

  /** The format the user reads changes between two restores of one archive: the first leaves a
      preference with 33 heads, which the second no longer sees. */
  lemma RestoringTwiceCanDiffer(heads: set<ChangeId>, text: Reconciliation -> nat)
    requires Full(heads)
    ensures var s := Run(EmptyLibrary, PreferringEpub, text).store;
            var first := RestoreCommit(s, CrowdedArchive(heads), s.records, SnapshotOf(s), text);
            && Valid(s) && Accepted(CrowdedArchive(heads)) && NoConflicts(CrowdedArchive(heads).logical, s.shelf)
            && first.Committed?
            && var s' := first.store;
               var second := RestoreCommit(s', CrowdedArchive(heads), s'.records, SnapshotOf(s'), text);
               && second.Committed?
               && One in s'.preferences && s'.preferences[One].preferred == Epub
               && One in second.store.preferences && second.store.preferences[One].preferred == Pdf
  {
    PreferringEpubRun(text);
    ReachedIsValid(PreferringEpub, text);
    CrowdedAccepted(heads);
    CrowdedTwice(heads, Run(EmptyLibrary, PreferringEpub, text).store, text);
  }

  lemma RestoredPreferences(s: Store, archive: Archive, text: Reconciliation -> nat)
    requires RestoreCommit(s, archive, s.records, SnapshotOf(s), text).Committed?
    ensures var s' := RestoreCommit(s, archive, s.records, SnapshotOf(s), text).store;
            var second := RestoreCommit(s', archive, s'.records, SnapshotOf(s'), text);
            && s'.preferences == MergedPreferences(ReadablePreferences(s.preferences), archive.preferences)
            && (second.Committed? ==>
                  second.store.preferences == MergedPreferences(ReadablePreferences(s'.preferences), archive.preferences))
  {
  }

  lemma CrowdedTwice(heads: set<ChangeId>, s: Store, text: Reconciliation -> nat)
    requires Full(heads) && Valid(s) && Accepted(CrowdedArchive(heads))
    requires s.records == Imported.store.records && s.shelf == map[One := Pair]
    requires s.preferences == map[One := Preference(One, Epub, 100, {100}, 100)]
    ensures NoConflicts(CrowdedArchive(heads).logical, s.shelf)
    ensures var first := RestoreCommit(s, CrowdedArchive(heads), s.records, SnapshotOf(s), text);
            && first.Committed?
            && var s' := first.store;
               var second := RestoreCommit(s', CrowdedArchive(heads), s'.records, SnapshotOf(s'), text);
               && second.Committed?
               && One in s'.preferences && s'.preferences[One].preferred == Epub
               && One in second.store.preferences && second.store.preferences[One].preferred == Pdf
  {
    CrowdedFits(heads, s);
    RestoringTwice(s, CrowdedArchive(heads), text);
    RestoredPreferences(s, CrowdedArchive(heads), text);
    CrowdedPreference(heads, ReadablePreferences(s.preferences), CrowdedArchive(heads).preferences);
  }

  lemma CrowdedPreference(heads: set<ChangeId>, current: Preferences, archived: seq<Preference>)
    requires current == map[One := Preference(One, Epub, 100, {100}, 100)]
    requires Full(heads) && archived == [Crowded(heads, Pdf)]
    ensures var once := MergedPreferences(current, archived);
            var twice := MergedPreferences(ReadablePreferences(once), archived);
            && One in once && once[One].preferred == Epub
            && One in twice && twice[One].preferred == Pdf
  {
    assert |{100} + heads| == 33;
    PreferenceTwiceAt(current, archived, 0);
    MergedPreferenceAt(current, archived, 0);
  }

  // ----- a preference that cannot be read -----

  lemma BeginStep(sys: System, op: nat, archive: Archive, text: Reconciliation -> nat)
    requires Accepted(archive)
    ensures Apply(sys, BeginRestore(op, WithLogicalBooks(archive)), text)
         == sys.(pending := sys.pending[op := PendingRestore(archive, None, None)])
  {
    assert sys.log + [] == sys.log;
  }

  lemma RecordsStep(sys: System, op: nat, archive: Archive, text: Reconciliation -> nat)
    requires op in sys.pending && sys.pending[op] == PendingRestore(archive, None, None)
    ensures Apply(sys, ReadRecords(op), text)
         == sys.(pending := sys.pending[op := PendingRestore(archive, Some(sys.store.records), None)])
  {
    assert sys.log + [] == sys.log;
  }

  lemma SnapshotStep(sys: System, op: nat, p: Pending, text: Reconciliation -> nat)
    requires op in sys.pending && sys.pending[op] == p && p.PendingRestore? && p.snapshot.None?
    ensures Apply(sys, ReadSnapshot(op), text)
         == sys.(pending := sys.pending[op := p.(snapshot := Some(SnapshotOf(sys.store)))])
  {
    assert sys.log + [] == sys.log;
  }

  lemma CommitStep(sys: System, op: nat, p: Pending, text: Reconciliation -> nat)
    requires op in sys.pending && sys.pending[op] == p && Committable(p)
    ensures Apply(sys, CommitRestore(op), text) ==
            System(After(sys.store, RestoreCommit(sys.store, p.archive, p.existing.value, p.snapshot.value, text)),
                   sys.pending - {op}, sys.log)
  {
    assert sys.log + [] == sys.log;
  }

  lemma Overwritten(pending: map<nat, Pending>, op: nat, p: Pending, p': Pending)
    ensures pending[op := p][op := p'] == pending[op := p']
    ensures op !in pending ==> pending[op := p] - {op} == pending
  {
  }

  lemma Extended(start: System, actions: seq<Action>, before: System, a: Action, after: System, text: Reconciliation -> nat)
    requires Run(start, actions, text) == before && Apply(before, a, text) == after
    ensures Run(start, actions + [a], text) == after
  {
    RunNext(start, actions, a, text);
  }

  /** The two reads of a restore that follows some actions. */
  lemma RestoreRead(
      start: System, actions: seq<Action>, sys: System, op: nat, archive: Archive, text: Reconciliation -> nat)
    requires Run(start, actions, text) == sys && Accepted(archive)
    ensures var p := PendingRestore(archive, Some(sys.store.records), Some(SnapshotOf(sys.store)));
            Run(start, actions + [BeginRestore(op, WithLogicalBooks(archive))] + [ReadRecords(op)] + [ReadSnapshot(op)], text)
            == sys.(pending := sys.pending[op := p])
  {
    var p0, p1 := PendingRestore(archive, None, None), PendingRestore(archive, Some(sys.store.records), None);
    var p2 := p1.(snapshot := Some(SnapshotOf(sys.store)));
    var begun, read, ready := sys.(pending := sys.pending[op := p0]), sys.(pending := sys.pending[op := p1]), sys.(pending := sys.pending[op := p2]);
    Overwritten(sys.pending, op, p0, p1);
    Overwritten(sys.pending, op, p1, p2);
    var one := actions + [BeginRestore(op, WithLogicalBooks(archive))];
    BeginStep(sys, op, archive, text);
    Extended(start, actions, sys, BeginRestore(op, WithLogicalBooks(archive)), begun, text);
    RecordsStep(begun, op, archive, text);
    Extended(start, one, begun, ReadRecords(op), read, text);
    SnapshotStep(read, op, p1, text);
    Extended(start, one + [ReadRecords(op)], read, ReadSnapshot(op), ready, text);
  }

  function RestoreAfter(actions: seq<Action>, op: nat, archive: Archive): seq<Action> {
    actions + [BeginRestore(op, WithLogicalBooks(archive))] + [ReadRecords(op)] + [ReadSnapshot(op)] + [CommitRestore(op)]
  }

  /** A restore with nothing in between its steps. */
  lemma RestoreAtOnce(
      start: System, actions: seq<Action>, sys: System, op: nat, archive: Archive, text: Reconciliation -> nat)
    requires Run(start, actions, text) == sys && op !in sys.pending
    requires Accepted(archive) && NoConflicts(archive.logical, sys.store.shelf)
    ensures var s := sys.store;
            Run(start, RestoreAfter(actions, op, archive), text) ==
            System(After(s, RestoreCommit(s, archive, s.records, SnapshotOf(s), text)), sys.pending, sys.log)
  {
    var s := sys.store;
    var p := PendingRestore(archive, Some(s.records), Some(SnapshotOf(s)));
    RestoreRead(start, actions, sys, op, archive, text);
    Overwritten(sys.pending, op, p, p);
    var ready := sys.(pending := sys.pending[op := p]);
    CommitStep(ready, op, p, text);
    Extended(start, actions + [BeginRestore(op, WithLogicalBooks(archive))] + [ReadRecords(op)] + [ReadSnapshot(op)],
             ready, CommitRestore(op),
             System(After(s, RestoreCommit(s, archive, s.records, SnapshotOf(s), text)), sys.pending, sys.log), text);
  }

  /** The crowded archive with a conflict over the book's publications. */
  function DisputedArchive(heads: set<ChangeId>): Archive {
    CrowdedArchive(heads).(reconciliations := [BothDisputed])
  }

  lemma DisputedAccepted(heads: set<ChangeId>)
    requires Full(heads)
    ensures Accepted(DisputedArchive(heads))
  {
    CrowdedAccepted(heads);
    DisputeBacked(DisputedArchive(heads));
    AcceptedWith(CrowdedArchive(heads), [BothDisputed]);
  }

  lemma AcceptedWith(a: Archive, recs: seq<Reconciliation>)
    requires Accepted(a) && ReconciliationsBacked(a.(reconciliations := recs))
    requires forall i | 0 <= i < |recs| :: ReadableReconciliation(recs[i])
    ensures Accepted(a.(reconciliations := recs))
  {
  }

  lemma DisputeBacked(a: Archive)
    requires a.books == [EpubRecord, PdfRecord] && a.logical == [Pair] && a.reconciliations == [BothDisputed]
    ensures ReconciliationsBacked(a)
  {
    assert a.books[0] == EpubRecord && a.books[1] == PdfRecord && a.logical[0] == Pair;
    assert HasBook(a.books, V1, Epub) && HasBook(a.books, V2, Pdf);
    assert BothDisputed.affected[0] == V1 && BothDisputed.affected[1] == V2;
    assert ArchiveRow(a.logical, Row(One, Pdf, V2));
    assert ReconciliationBacked(a, BothDisputed);
  }

  lemma SamePublications(records: Records, books: seq<BookRecord>)
    requires DistinctBooks(books) && forall k | 0 <= k < |books| :: books[k].id in records && records[books[k].id] == books[k]
    ensures records + Publications(records, books) == records
  {
    var pubs := Publications(records, books);
    forall v | v in pubs ensures v in records && pubs[v] == records[v] {
      PublicationFrom(records, books, v);
      var k :| 0 <= k < |books| && books[k].id == v;
      PublicationAt(records, books, k);
    }
  }

  lemma OneMergedReconciliation(rec: Reconciliation, text: Reconciliation -> nat)
    ensures MergedReconciliations(map[], [rec], text) == map[rec.id := rec]
  {
    assert [rec][..|[rec]| - 1] == [];
    assert MergedReconciliations(map[], [rec][..|[rec]| - 1], text) == map[];
  }

  /** A preference for the EPUB that nobody can read, and a conflict the PDF wins. */
  ghost predicate Unread(s: Store) {
    && Valid(s) && s.shelf == map[One := Pair] && s.records == map[V1 := EpubRecord, V2 := PdfRecord]
    && s.reconciliations == map[9 := BothDisputed]
    && s.preferences.Keys == {One} && !ReadablePreference(s.preferences[One])
    && s.preferences[One].book == One && s.preferences[One].preferred == Epub
  }

  lemma DisputedRestored(heads: set<ChangeId>, s: Store, text: Reconciliation -> nat)
    requires Full(heads) && Valid(s) && s.records == Imported.store.records && s.shelf == map[One := Pair]
    requires s.preferences == map[One := Preference(One, Epub, 100, {100}, 100)] && s.reconciliations == map[]
    ensures NoConflicts(DisputedArchive(heads).logical, s.shelf)
    ensures var o := RestoreCommit(s, DisputedArchive(heads), s.records, SnapshotOf(s), text);
            o.Committed? && Unread(o.store)
  {
    var a := DisputedArchive(heads);
    CrowdedFits(heads, s);
    DisputedAccepted(heads);
    RestoreIsUnion(s, a, s.records, SnapshotOf(s), text);
    RestoredStores(s, a, text);
    PairMerged(s.shelf);
    PairPublications(s.records);
    assert ReadableReconciliations(s.reconciliations) == map[];
    OneMergedReconciliation(BothDisputed, text);
    UnreadableHeads(heads, ReadablePreferences(s.preferences), a.preferences);
  }

  lemma RestoredStores(s: Store, archive: Archive, text: Reconciliation -> nat)
    requires RestoreCommit(s, archive, s.records, SnapshotOf(s), text).Committed?
    ensures var s' := RestoreCommit(s, archive, s.records, SnapshotOf(s), text).store;
            && s'.shelf == MergedShelf(s.shelf, archive.logical)
            && s'.records == s.records + Publications(s.records, archive.books)
            && s'.preferences == MergedPreferences(ReadablePreferences(s.preferences), archive.preferences)
            && s'.reconciliations
               == MergedReconciliations(ReadableReconciliations(s.reconciliations), archive.reconciliations, text)
  {
  }

  lemma PairMerged(m: Shelf)
    requires m == map[One := Pair]
    ensures MergedShelf(m, [Pair]) == m
  {
    MergedOne(m, Pair);
    assert Pair.variants + Pair.variants == Pair.variants;
  }

  lemma PairPublications(records: Records)
    requires records == Imported.store.records
    ensures records + Publications(records, [EpubRecord, PdfRecord]) == records
  {
    assert records[EpubRecord.id] == EpubRecord && records[PdfRecord.id] == PdfRecord;
    SamePublications(records, [EpubRecord, PdfRecord]);
  }

  lemma UnreadableHeads(heads: set<ChangeId>, current: Preferences, archived: seq<Preference>)
    requires Full(heads) && archived == [Crowded(heads, Pdf)]
    requires current == map[One := Preference(One, Epub, 100, {100}, 100)]
    ensures var prefs := MergedPreferences(current, archived);
            && prefs.Keys == {One} && !ReadablePreference(prefs[One])
            && prefs[One].book == One && prefs[One].preferred == Epub
  {
    assert archived[..|archived| - 1] == [];
    assert MergedPreferences(current, archived[..|archived| - 1]) == current;
    assert |{100} + heads| == 33;
  }

  lemma UnreadDangles(s: Store, who: Identity)
    requires Unread(s)
    ensures AllPreferring(s)
    ensures !AllPreferring(After(s, Reconciling.ReconcileMembership(s, 9, KeepAccepted, Three, who)))
  {
    PairLeavesOut(s);
    OneRowOnly(s, 9, Row(One, Pdf, V2), V1, Three, who);
    ReconcileCommits(s, 9, KeepAccepted, Three, who);
    NotPreferable(s);
    ReconcileAndAllPreferences(s, 9, KeepAccepted, Three, who);
  }

  lemma NotPreferable(s: Store)
    requires Unread(s)
    ensures !StaysPreferable(s, BothDisputed, KeepAccepted, Three, s.preferences[One])
  {
    assert BothDisputed.affected[0] == V1;
    forall r | RowAfter(s, BothDisputed, KeepAccepted, Three, r) && r.book == One ensures r.format != Epub {
    }
  }

  lemma UnreadReached(heads: set<ChangeId>, text: Reconciliation -> nat)
    requires Full(heads)
    ensures Unread(Run(EmptyLibrary, RestoreAfter(PreferringEpub, 1, DisputedArchive(heads)), text).store)
  {
    var sys := Run(EmptyLibrary, PreferringEpub, text);
    PreferringEpubRun(text);
    ReachedIsValid(PreferringEpub, text);
    DisputedAccepted(heads);
    DisputedRestored(heads, sys.store, text);
    RestoreAtOnce(EmptyLibrary, PreferringEpub, sys, 1, DisputedArchive(heads), text);
  }

  /** A restore leaves a preference with 33 heads; a reconciliation, which cannot read it, takes its format
      away and leaves it in the store. */
  lemma UnreadPreferenceDangles(heads: set<ChangeId>, text: Reconciliation -> nat)
    requires Full(heads)
    ensures var actions := RestoreAfter(PreferringEpub, 1, DisputedArchive(heads));
            && AllPreferring(Run(EmptyLibrary, actions, text).store)
            && !AllPreferring(Run(EmptyLibrary, actions + [Reconcile(9, KeepAccepted, Three, Who(200))], text).store)
  {
    var actions := RestoreAfter(PreferringEpub, 1, DisputedArchive(heads));
    UnreadReached(heads, text);
    UnreadDangles(Run(EmptyLibrary, actions, text).store, Who(200));
    ReconcileStep(Run(EmptyLibrary, actions, text), 9, KeepAccepted, Three, Who(200), text);
    RunNext(EmptyLibrary, actions, Reconcile(9, KeepAccepted, Three, Who(200)), text);
  }

  // ----- a publication stored under another format -----

  lemma MergedOne(m: Shelf, b: LogicalBook)
    ensures MergedShelf(m, [b]) == MergeBook(m, b)
  {
    assert [b][..|[b]| - 1] == [];
    assert MergedShelf(m, [b][..|[b]| - 1]) == m;
  }

  /** Without agreement of formats the restore is not safe: a file that was imported as a PDF and archived
      as an EPUB ends in both slots of its book. */
  lemma MisnamedPublicationBreaksRestore(text: Reconciliation -> nat)
    ensures var s := Run(EmptyLibrary, [Import(Publication(1, Pdf), true)], text).store;
            var archive := SingletonState([Publication(1, Epub)]);
            && Valid(s) && Accepted(archive) && NoConflicts(archive.logical, s.shelf)
            && !FormatsAgree(archive, s.records, s.shelf)
            && RestoreCommit(s, archive, s.records, SnapshotOf(s), text).Committed?
            && !OneOwner(RestoreCommit(s, archive, s.records, SnapshotOf(s), text).store.shelf)
  {
    var a := Import(Publication(1, Pdf), true);
    ImportNew(EmptyLibrary, Publication(1, Pdf), text);
    RunNext(EmptyLibrary, [], a, text);
    assert [] + [a] == [a] && Run(EmptyLibrary, [], text) == EmptyLibrary;
    ReachedIsValid([a], text);
    OlderManifestAccepted([Publication(1, Epub)]);
    Misnamed(Run(EmptyLibrary, [a], text).store, text);
  }

  lemma Misnamed(s: Store, text: Reconciliation -> nat)
    requires s.records == map[V1 := Publication(1, Pdf)] && s.shelf == map[One := Single(1, Pdf)]
    ensures var archive := SingletonState([Publication(1, Epub)]);
            && NoConflicts(archive.logical, s.shelf) && !FormatsAgree(archive, s.records, s.shelf)
            && RestoreCommit(s, archive, s.records, SnapshotOf(s), text).Committed?
            && !OneOwner(RestoreCommit(s, archive, s.records, SnapshotOf(s), text).store.shelf)
  {
    var archive := SingletonState([Publication(1, Epub)]);
    assert archive.books[0].id == V1;
    assert archive.logical == [Single(1, Epub)];
    MergedOne(s.shelf, Single(1, Epub));
    var m := MergedShelf(s.shelf, archive.logical);
    assert m == map[One := Single(1, Epub).(variants := map[Pdf := V1] + map[Epub := V1])];
    assert UniqueIndexes(m);
    assert HasRow(m, Row(One, Pdf, V1)) && HasRow(m, Row(One, Epub, V1));
  }
}
