/** Stored format preferences name a format their book holds: which steps keep this promise, and exactly
    when the others do. */
module FormatPreferences {
  import opened Common
  import opened LogicalBooks
  import opened LibraryTransactions
  import opened LibraryInvariant
  import opened Reconciling
  import opened LibraryBackup
  import opened LibraryRestore
  import opened RestoreTwice
  import opened LibraryRuns

  /** Stored preferences name an existing logical book and a format it holds: all of them, or those that
      can be read. */
  predicate PreferencesHold(prefs: Preferences, m: Shelf, all: bool) {
    forall b | b in prefs && (all || ReadablePreference(prefs[b])) ::
      prefs[b].book == b && b in m && prefs[b].preferred in m[b].variants
  }

  ghost predicate Holding(s: Store, all: bool) {
    PreferencesHold(s.preferences, s.shelf, all)
  }

  /** Every preference that can be read is valid. */
  ghost predicate Preferring(s: Store) {
    Holding(s, false)
  }

  /** Every stored preference is valid, whether it can be read or not. */
  ghost predicate AllPreferring(s: Store) {
    Holding(s, true)
  }

  // ----- the steps that keep preferences valid -----

  lemma DetachKeepsPreferences(
      s: Store, book: LogicalBookId, v: VariantId, derived: LogicalBookId, who: Identity, all: bool)
    requires Holding(s, all) && Keyed(s.shelf)
    ensures Holding(After(s, DetachVariant(s, book, v, derived, who)), all)
  {
  }

  lemma DeleteKeepsPreferences(s: Store, book: LogicalBookId, target: Option<VariantId>, who: Identity, all: bool)
    requires Holding(s, all) && Keyed(s.shelf)
    ensures Holding(After(s, DeleteVariants(s, book, target, who)), all)
  {
    if DeleteVariants(s, book, target, who).Committed? {
      var remaining := Without(s.shelf[book], DeleteTargets(s.shelf[book], target));
      assert Filled(remaining) ==> FirstFormat(remaining) in remaining;
    }
  }

  lemma ReconcileKeepsPreferences(
      s: Store, conflict: ConflictId, decision: Decision, derived: LogicalBookId, who: Identity)
    requires Preferring(s)
    ensures Preferring(After(s, Reconciling.ReconcileMembership(s, conflict, decision, derived, who)))
  {
  }

  lemma AddKeepsPreferences(s: Store, destination: LogicalBook, variant: BookRecord, who: Identity, all: bool)
    requires Holding(s, all)
    ensures Holding(After(s, AddCommit(s, destination, variant, who)), all)
  {
  }

  lemma AssociateKeepsPreferences(s: Store, destination: LogicalBook, source: LogicalBook, who: Identity, all: bool)
    requires Holding(s, all) && destination.id != source.id
    ensures Holding(After(s, AssociateCommit(s, destination, source, who)), all)
  {
  }

  lemma MergedHoldsMore(m: Shelf, archived: seq<LogicalBook>, b: LogicalBookId, f: Format)
    requires DistinctLogical(archived)
    requires || (b in m && f in m[b].variants)
             || exists k | 0 <= k < |archived| :: archived[k].id == b && f in archived[k].variants
    ensures b in MergedShelf(m, archived) && f in MergedShelf(m, archived)[b].variants
  {
    if k :| 0 <= k < |archived| && archived[k].id == b {
      MergedBookAt(m, archived, k);
    } else {
      MergedBookElsewhere(m, archived, b);
    }
  }

  lemma MergedPreferencesFrom(prefs: Preferences, archived: seq<Preference>, b: LogicalBookId)
    requires forall i, j | 0 <= i < j < |archived| :: archived[i].book != archived[j].book
    requires forall c | c in prefs :: prefs[c].book == c
    requires b in MergedPreferences(prefs, archived)
    ensures var p := MergedPreferences(prefs, archived)[b];
            && p.book == b
            && ((b in prefs && p.preferred == prefs[b].preferred)
                || exists i | 0 <= i < |archived| :: archived[i].book == b && archived[i].preferred == p.preferred)
  {
    if i :| 0 <= i < |archived| && archived[i].book == b {
      MergedPreferenceAt(prefs, archived, i);
    } else {
      MergedPreferenceElsewhere(prefs, archived, b);
    }
  }

  lemma RestoreKeepsPreferences(
      s: Store, archive: Archive, existing: Records, snapshot: Snapshot, text: Reconciliation -> nat, all: bool)
    requires Holding(s, all) && Accepted(archive)
    ensures Holding(After(s, RestoreCommit(s, archive, existing, snapshot, text)), all)
  {
    if RestoreCommit(s, archive, existing, snapshot, text).Committed? {
      var m := MergedShelf(s.shelf, archive.logical);
      var current := ReadablePreferences(s.preferences);
      var prefs := MergedPreferences(current, archive.preferences);
      forall b | b in prefs ensures prefs[b].book == b && b in m && prefs[b].preferred in m[b].variants {
        MergedPreferencesFrom(current, archive.preferences, b);
        MergedHolds(s.shelf, archive, b, prefs[b].preferred);
      }
    }
  }

  lemma MergedHolds(m: Shelf, archive: Archive, b: LogicalBookId, f: Format)
    requires Accepted(archive)
    requires || (b in m && f in m[b].variants)
             || exists i | 0 <= i < |archive.preferences| ::
                  archive.preferences[i].book == b && archive.preferences[i].preferred == f
    ensures b in MergedShelf(m, archive.logical) && f in MergedShelf(m, archive.logical)[b].variants
  {
    if !(b in m && f in m[b].variants) {
      var i :| 0 <= i < |archive.preferences| && archive.preferences[i].book == b
               && archive.preferences[i].preferred == f;
      assert PreferenceBacked(archive.logical, archive.preferences[i]);
    }
    MergedHoldsMore(m, archive.logical, b, f);
  }

  /** All runs without imports, synchronized copies, removals and synchronized replacement. */
  predicate Careful(a: Action) {
    !a.Import? && !a.SyncStore? && !a.Remove? && !a.SyncReplace?
  }

  lemma PreferKeepsPreferences(s: Store, book: LogicalBookId, f: Format, who: Identity, all: bool)
    requires Holding(s, all)
    ensures Holding(After(s, SavePreference(s, book, f, who)), all)
  {
  }

  lemma CommitKeepsPreferences(sys: System, a: Action, text: Reconciliation -> nat, all: bool)
    requires SystemValid(sys) && Holding(sys.store, all) && (a.CommitAdd? || a.CommitAssociate?)
    ensures Holding(After(sys.store, Transaction(sys, a, text)), all)
  {
    if a.op in sys.pending {
      var p := sys.pending[a.op];
      if p.PendingAdd? { AddKeepsPreferences(sys.store, p.destination, p.variant, p.who, all); }
      if p.PendingAssociate? { AssociateKeepsPreferences(sys.store, p.destination, p.source, p.who, all); }
    }
  }

  lemma CommitRestoreKeepsPreferences(sys: System, op: nat, text: Reconciliation -> nat, all: bool)
    requires SystemValid(sys) && Holding(sys.store, all)
    ensures Holding(After(sys.store, Transaction(sys, CommitRestore(op), text)), all)
  {
    if op in sys.pending && Committable(sys.pending[op]) {
      var p := sys.pending[op];
      RestoreKeepsPreferences(sys.store, p.archive, p.existing.value, p.snapshot.value, text, all);
    }
  }

  lemma StepKeepsPreferences(sys: System, a: Action, text: Reconciliation -> nat, all: bool)
    requires SystemValid(sys) && Holding(sys.store, all) && Careful(a) && (a.Reconcile? ==> !all)
    ensures Holding(After(sys.store, Transaction(sys, a, text)), all)
  {
    var s := sys.store;
    if a.CommitAdd? || a.CommitAssociate? {
      CommitKeepsPreferences(sys, a, text, all);
    } else if a.DetachFormat? {
      DetachKeepsPreferences(s, a.book, a.variant, a.derived, a.who, all);
    } else if a.Delete? {
      DeleteKeepsPreferences(s, a.book, a.target, a.who, all);
    } else if a.Prefer? {
      PreferKeepsPreferences(s, a.book, a.format, a.who, all);
    } else if a.ReadPreference? {
      assert Transaction(sys, a, text) == Committed(s.(preferences := Checked(s.preferences, a.book)));
    } else if a.Reconcile? {
      ReconcileKeepsPreferences(s, a.conflict, a.decision, a.derived, a.who);
    } else if a.CommitRestore? {
      CommitRestoreKeepsPreferences(sys, a.op, text, all);
    } else {
      assert Transaction(sys, a, text) == Unchanged;
    }
  }

  lemma {:induction false} RunHolds(sys: System, actions: seq<Action>, text: Reconciliation -> nat, all: bool)
    requires SystemValid(sys) && Holding(sys.store, all) && AgreeingRun(sys, actions, text)
    requires forall i | 0 <= i < |actions| :: Careful(actions[i]) && (actions[i].Reconcile? ==> !all)
    ensures Holding(Run(sys, actions, text).store, all)
  {
    if actions != [] {
      var n := |actions| - 1;
      RunHolds(sys, actions[..n], text, all);
      RunKeepsMembership(sys, actions[..n], text);
      StepKeepsPreferences(Run(sys, actions[..n], text), actions[n], text, all);
    }
  }

  /** Starting from valid preferences, every run of adding, associating, detaching, deleting,
      preferring, reconciling and restoring keeps those that can be read valid. */
  lemma RunKeepsPreferences(sys: System, actions: seq<Action>, text: Reconciliation -> nat)
    requires SystemValid(sys) && Preferring(sys.store) && AgreeingRun(sys, actions, text)
    requires forall i | 0 <= i < |actions| :: Careful(actions[i])
    ensures Preferring(Run(sys, actions, text).store)
  {
    RunHolds(sys, actions, text, false);
  }

  /** Without reconciliations it keeps every stored preference valid. */
  lemma RunKeepsAllPreferences(sys: System, actions: seq<Action>, text: Reconciliation -> nat)
    requires SystemValid(sys) && AllPreferring(sys.store) && AgreeingRun(sys, actions, text)
    requires forall i | 0 <= i < |actions| :: Careful(actions[i]) && !actions[i].Reconcile?
    ensures AllPreferring(Run(sys, actions, text).store)
  {
    RunHolds(sys, actions, text, true);
  }

  /** A row that will be there backs the preference. */
  ghost predicate StaysPreferable(
      s: Store, raw: Reconciliation, decision: Decision, derived: LogicalBookId, p: Preference) {
    exists r :: RowAfter(s, raw, decision, derived, r) && r.book == p.book && r.format == p.preferred
  }

  /** A reconciliation deletes only what it can read. It keeps every stored preference valid unless it
      settles and takes away the format of one that cannot be read. */
  lemma ReconcileAndAllPreferences(
      s: Store, conflict: ConflictId, decision: Decision, derived: LogicalBookId, who: Identity)
    requires Valid(s) && AllPreferring(s)
    requires decision.MakeStandalone? ==> derived !in s.shelf
    ensures AllPreferring(After(s, Reconciling.ReconcileMembership(s, conflict, decision, derived, who))) <==>
              (Settles(s, conflict, decision, derived) ==>
                 forall b | b in s.preferences && !ReadablePreference(s.preferences[b]) ::
                   StaysPreferable(s, s.reconciliations[conflict], decision, derived, s.preferences[b]))
  {
    ReconcileCommits(s, conflict, decision, derived, who);
    if Settles(s, conflict, decision, derived) {
      SettledPreferences(s, conflict, decision, derived,
                         Reconciling.ReconcileMembership(s, conflict, decision, derived, who).store);
    }
  }

  lemma SettledPreferences(s: Store, conflict: ConflictId, decision: Decision, derived: LogicalBookId, s': Store)
    requires AllPreferring(s) && conflict in s.reconciliations
    requires s'.preferences == KeptPreferences(s.preferences, s'.shelf)
    requires forall r :: HasRow(s'.shelf, r) <==> RowAfter(s, s.reconciliations[conflict], decision, derived, r)
    ensures AllPreferring(s') <==>
              forall b | b in s.preferences && !ReadablePreference(s.preferences[b]) ::
                StaysPreferable(s, s.reconciliations[conflict], decision, derived, s.preferences[b])
  {
    var raw := s.reconciliations[conflict];
    forall b | b in s.preferences
      ensures StaysPreferable(s, raw, decision, derived, s.preferences[b]) <==>
                b in s'.shelf && s.preferences[b].preferred in s'.shelf[b].variants
    {
      var p := s.preferences[b];
      if b in s'.shelf && p.preferred in s'.shelf[b].variants {
        RowOf(s'.shelf, b, p.preferred);
      }
    }
  }

  /** A saved choice is in force whenever the book holds the format, written or not; it supersedes
      every earlier head, and no other preference and no book changes. */
  lemma SavedPreference(s: Store, book: LogicalBookId, f: Format, who: Identity)
    requires book in s.shelf && f in s.shelf[book].variants
    ensures var s' := After(s, SavePreference(s, book, f, who));
            && book in s'.preferences && s'.preferences[book].preferred == f
            && s'.preferences - {book} == s.preferences - {book}
            && s'.shelf == s.shelf && s'.records == s.records
            && (s' != s && book in ReadablePreferences(s.preferences) ==>
                  && who.changeId in s'.outbox
                  && forall h | h in s.preferences[book].heads :: h in s'.outbox[who.changeId].parents)
  {
    var s' := After(s, SavePreference(s, book, f, who));
    assert s'.preferences - {book} == s.preferences - {book};
  }

  /** A readable preference that the new shelf still allows has not been touched. */
  ghost predicate KeptWhereAllowed(s: Store, s': Store) {
    forall b | b in s.preferences && ReadablePreference(s.preferences[b])
               && b in s'.shelf && s.preferences[b].preferred in s'.shelf[b].variants ::
      b in s'.preferences && s'.preferences[b] == s.preferences[b]
  }

  lemma DetachTouchesNoMore(
      s: Store, book: LogicalBookId, v: VariantId, derived: LogicalBookId, who: Identity)
    requires Preferring(s) && Keyed(s.shelf)
    ensures KeptWhereAllowed(s, After(s, DetachVariant(s, book, v, derived, who)))
  {
  }

  lemma DeleteTouchesNoMore(
      s: Store, book: LogicalBookId, target: Option<VariantId>, who: Identity)
    requires Preferring(s) && Valid(s)
    ensures KeptWhereAllowed(s, After(s, DeleteVariants(s, book, target, who)))
  {
    if DeleteVariants(s, book, target, who).Committed? {
      var b := s.shelf[book];
      var targets := DeleteTargets(b, target);
      var remaining := Without(b, targets);
      if Filled(remaining) {
        var updated := b.(variants := remaining, updatedAt := who.createdAt);
        assert b.variants[FirstFormat(b.variants)] in b.variants.Values;
        OneFormatLeft(b, targets);
        RepointTouchesNoMore(s.preferences, s.shelf, updated, FirstFormat(remaining), who);
      }
    }
  }

  lemma RepointTouchesNoMore(prefs: Preferences, m: Shelf, updated: LogicalBook, left: Format, who: Identity)
    requires PreferencesHold(prefs, m, false) && forall g | g in updated.variants :: g == left
    ensures var prefs', m' := Repointed(prefs, updated.id, left, who), m[updated.id := updated];
            forall b | b in prefs && ReadablePreference(prefs[b])
                       && b in m' && prefs[b].preferred in m'[b].variants ::
              b in prefs' && prefs'[b] == prefs[b]
  {
  }

  /** Deleting something from a book leaves at most one format. */
  lemma OneFormatLeft(b: LogicalBook, targets: set<VariantId>)
    requires targets != {} && targets <= b.variants.Values
    ensures forall g | g in Without(b, targets) :: FirstFormat(Without(b, targets)) == g
  {
    var v :| v in targets;
    var f :| f in b.variants && b.variants[f] == v;
    forall g | g in Without(b, targets) ensures FirstFormat(Without(b, targets)) == g {
      assert g == Other(f) && (g == Epub || f == Epub);
    }
  }

  lemma AddTouchesNoMore(s: Store, destination: LogicalBook, variant: BookRecord, who: Identity)
    ensures KeptWhereAllowed(s, After(s, AddCommit(s, destination, variant, who)))
  {
  }

  lemma AssociateTouchesNoMore(s: Store, destination: LogicalBook, source: LogicalBook, who: Identity)
    requires destination.id != source.id
    ensures KeptWhereAllowed(s, After(s, AssociateCommit(s, destination, source, who)))
  {
  }

  lemma ReconcileTouchesNoMore(
      s: Store, conflict: ConflictId, decision: Decision, derived: LogicalBookId, who: Identity)
    requires Preferring(s)
    ensures KeptWhereAllowed(s, After(s, Reconciling.ReconcileMembership(s, conflict, decision, derived, who)))
  {
  }

  lemma CommitsTouchNoMore(sys: System, a: Action, text: Reconciliation -> nat)
    requires SystemValid(sys) && (a.CommitAdd? || a.CommitAssociate?)
    ensures KeptWhereAllowed(sys.store, After(sys.store, Transaction(sys, a, text)))
  {
    if a.op in sys.pending {
      var p := sys.pending[a.op];
      if p.PendingAdd? { AddTouchesNoMore(sys.store, p.destination, p.variant, p.who); }
      if p.PendingAssociate? { AssociateTouchesNoMore(sys.store, p.destination, p.source, p.who); }
    }
  }

  /** The mutations that repair preferences repair no more than they must. */
  lemma RepairsNoMoreThanNeeded(sys: System, a: Action, text: Reconciliation -> nat)
    requires SystemValid(sys) && Preferring(sys.store)
    requires Careful(a) && !a.Prefer? && !a.CommitRestore?
    ensures KeptWhereAllowed(sys.store, After(sys.store, Transaction(sys, a, text)))
  {
    var s := sys.store;
    if a.CommitAdd? || a.CommitAssociate? {
      CommitsTouchNoMore(sys, a, text);
    } else if a.DetachFormat? {
      DetachTouchesNoMore(s, a.book, a.variant, a.derived, a.who);
    } else if a.Delete? {
      DeleteTouchesNoMore(s, a.book, a.target, a.who);
    } else if a.Reconcile? {
      ReconcileTouchesNoMore(s, a.conflict, a.decision, a.derived, a.who);
    } else if a.ReadPreference? {
      assert Transaction(sys, a, text) == Committed(s.(preferences := Checked(s.preferences, a.book)));
    } else {
      assert Transaction(sys, a, text) == Unchanged;
    }
  }

  // ----- the steps that may not -----

  /** A stored preference that can be read names this format for this book. */
  predicate Prefers(prefs: Preferences, book: LogicalBookId, f: Format) {
    book in prefs && ReadablePreference(prefs[book]) && prefs[book].preferred == f
  }

  /** `v` is the preferred format of a book that also holds the other format. */
  ghost predicate PreferredOfTwo(s: Store, v: VariantId) {
    exists r :: HasRow(s.shelf, r) && r.variant == v
                && Prefers(s.preferences, r.book, r.format)
                && Other(r.format) in s.shelf[r.book].variants
  }

  lemma ShrunkPreferences(prefs: Preferences, m: Shelf, book: LogicalBookId, f: Format, b': LogicalBook)
    requires PreferencesHold(prefs, m, false) && book in m
    requires forall g :: g in b'.variants <==> g in m[book].variants && g != f
    ensures PreferencesHold(prefs, m[book := b'], false) <==> !Prefers(prefs, book, f)
  {
  }

  /** Removing a publication leaves a preference dangling exactly when it was the preferred format of
      a book that keeps its other format: unlike a deletion, a removal does not repoint. */
  lemma RemovalAndPreferences(s: Store, v: VariantId, now: Time)
    requires Valid(s) && Preferring(s)
    ensures Preferring(After(s, RemoveBook(s, v, now))) <==> !PreferredOfTwo(s, v)
  {
    RemoveValid(s, v, now);
    FindOwnerFinds(s.shelf, v);
    var owner := FindOwner(s.shelf, v);
    if owner.Some? {
      var f :| HasRow(s.shelf, Row(owner.value, f, v));
      RemovalFromOwner(s, Row(owner.value, f, v), now);
    }
  }

  lemma RemovalFromOwner(s: Store, row: Row, now: Time)
    requires Valid(s) && Preferring(s) && HasRow(s.shelf, row)
    requires FindOwner(s.shelf, row.variant) == Some(row.book)
    requires RemoveBook(s, row.variant, now).Committed?
    ensures Preferring(RemoveBook(s, row.variant, now).store) <==> !PreferredOfTwo(s, row.variant)
  {
    ConsistentIsOneOwner(s.shelf, s.records);
    var b := s.shelf[row.book];
    var left := Without(b, {row.variant});
    forall g ensures g in left <==> g in b.variants && g != row.format {
      if g in b.variants { RowOf(s.shelf, row.book, g); }
    }
    assert row.format == Epub || row.format == Pdf;
    assert Filled(left) <==> Other(row.format) in b.variants;
    assert PreferredOfTwo(s, row.variant) <==>
             Prefers(s.preferences, row.book, row.format) && Filled(left);
    if Filled(left) {
      ShrunkPreferences(s.preferences, s.shelf, row.book, row.format, b.(variants := left, updatedAt := now));
    }
  }

  lemma SingletonPreferences(prefs: Preferences, m: Shelf, record: BookRecord, now: Time)
    requires PreferencesHold(prefs, m, false)
    ensures var b := LogicalBookFromVariant(record, now);
            PreferencesHold(prefs, m[b.id := b], false) <==> !Prefers(prefs, b.id, Other(record.format))
  {
    var b := LogicalBookFromVariant(record, now);
    assert b.variants.Keys == {record.format};
    if Prefers(prefs, b.id, Other(record.format)) {
      assert prefs[b.id].preferred !in m[b.id := b][b.id].variants;
    }
  }

  /** An import writes the canonical book of a publication that is new, or stored without an owner. */
  ghost predicate ImportWrites(s: Store, record: BookRecord, supported: bool) {
    if record.id in s.records then !Owned(s.shelf, record.id) else supported
  }

  /** The format the book is written under: the stored one if there is one. */
  function ImportFormat(s: Store, record: BookRecord): Format {
    if record.id in s.records then s.records[record.id].format else record.format
  }

  /** The canonical book is written without looking at its preference, which is left dangling exactly
      when it names the other format. */
  lemma ImportAndPreferences(s: Store, record: BookRecord, supported: bool)
    requires Valid(s) && Preferring(s)
    ensures Preferring(After(s, ImportBook(s, record, supported))) <==>
              !(ImportWrites(s, record, supported)
                && Prefers(s.preferences, SingletonLogicalBookId(record.id), Other(ImportFormat(s, record))))
  {
    FindOwnerFinds(s.shelf, record.id);
    if record.id !in s.records {
      StoreNewRows(s, record);
      SingletonPreferences(s.preferences, s.shelf, record, record.importedAt);
    } else if !Owned(s.shelf, record.id) {
      var existing := s.records[record.id];
      UnownedIsAllowed(s, existing);
      SingletonPreferences(s.preferences, s.shelf, existing, existing.importedAt);
    }
  }

  /** The same for a synchronized copy. */
  lemma SyncStoreAndPreferences(s: Store, record: BookRecord, intact: bool)
    requires Valid(s) && Preferring(s)
    ensures Preferring(After(s, StoreSynced(s, record, intact))) <==>
              !(record.id !in s.records && intact
                && Prefers(s.preferences, SingletonLogicalBookId(record.id), Other(record.format)))
  {
    if record.id !in s.records {
      StoreNewRows(s, record);
      SingletonPreferences(s.preferences, s.shelf, record, record.importedAt);
    }
  }
}
