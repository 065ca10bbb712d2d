/** An archive made from a library: exactly when it is accepted again, and what restoring it gives. */
module BackupRoundTrip {
  import opened Common
  import opened LogicalBooks
  import opened LibraryTransactions
  import opened LibraryInvariant
  import opened Reconciling
  import opened LibraryBackup
  import opened LibraryRestore
  import opened RestoreTwice
  import opened FormatPreferences
  import opened PublicationOwners
  import opened TransactionEffects

  /** The archive lists every publication, every logical book and every preference and conflict that can
      be read, once each, in some order. */
  ghost predicate Exports(a: Archive, s: Store) {
    && DistinctBooks(a.books) && DistinctLogical(a.logical)
    && (forall i, j | 0 <= i < j < |a.preferences| :: a.preferences[i].book != a.preferences[j].book)
    && (forall i, j | 0 <= i < j < |a.reconciliations| :: a.reconciliations[i].id != a.reconciliations[j].id)
    && (forall r :: r in a.books <==> r.id in s.records && s.records[r.id] == r)
    && (forall b :: b in a.logical <==> b.id in s.shelf && s.shelf[b.id] == b)
    && (forall p :: p in a.preferences <==>
          p.book in s.preferences && s.preferences[p.book] == p && ReadablePreference(p))
    && (forall r :: r in a.reconciliations <==>
          r.id in s.reconciliations && s.reconciliations[r.id] == r && ReadableReconciliation(r))
  }

  /** Preferences and conflicts sit under their own keys. */
  predicate StateKeyed(s: Store) {
    && (forall b | b in s.preferences :: s.preferences[b].book == b)
    && (forall c | c in s.reconciliations :: s.reconciliations[c].id == c)
  }

  /** The values of a store, once each. */
  method ListValues<K(==), V(==)>(m: map<K, V>, keyOf: V -> K) returns (values: seq<V>)
    requires forall k | k in m :: keyOf(m[k]) == k
    ensures forall i, j | 0 <= i < j < |values| :: keyOf(values[i]) != keyOf(values[j])
    ensures forall v :: v in values <==> keyOf(v) in m && m[keyOf(v)] == v
  {
    values := [];
    var todo := m.Keys;
    while todo != {}
      invariant todo <= m.Keys
      invariant forall i, j | 0 <= i < j < |values| :: keyOf(values[i]) != keyOf(values[j])
      invariant forall v :: v in values <==> keyOf(v) in m && m[keyOf(v)] == v && keyOf(v) !in todo
      decreases todo
    {
      var k :| k in todo;
      forall i | 0 <= i < |values| ensures keyOf(values[i]) != k {
        assert values[i] in values;
      }
      values := values + [m[k]];
      todo := todo - {k};
    }
  }

  /** What a backup lists. */
  method Export(s: Store) returns (a: Archive)
    requires RecordsKeyed(s.records) && Keyed(s.shelf) && StateKeyed(s)
    ensures Exports(a, s)
  {
    var books := ListValues(s.records, (r: BookRecord) => r.id);
    var logical := ListValues(s.shelf, (b: LogicalBook) => b.id);
    var prefs := ListValues(ReadablePreferences(s.preferences), (p: Preference) => p.book);
    var recs := ListValues(ReadableReconciliations(s.reconciliations), (r: Reconciliation) => r.id);
    a := Archive(books, logical, prefs, recs);
  }

  /** The conflict is about stored publications, and its accepted side is how things are. */
  ghost predicate Current(s: Store, rec: Reconciliation) {
    && (forall v | v in rec.affected :: v in s.records)
    && (forall r | r in rec.accepted + rec.rejected ::
          r.variant in s.records && s.records[r.variant].format == r.format)
    && (forall r | r in rec.accepted :: HasRow(s.shelf, r))
    && DistinctRows(rec.accepted + rec.rejected)
  }

  lemma ExportedBook(a: Archive, s: Store, v: VariantId, f: Format)
    requires Exports(a, s) && RecordsKeyed(s.records)
    ensures HasBook(a.books, v, f) <==> v in s.records && s.records[v].format == f
  {
    if HasBook(a.books, v, f) {
      var k :| 0 <= k < |a.books| && a.books[k].id == v && a.books[k].format == f;
      assert a.books[k] in a.books;
    }
    if v in s.records {
      assert s.records[v] in a.books;
      var k :| 0 <= k < |a.books| && a.books[k] == s.records[v];
    }
  }

  lemma ExportedRow(a: Archive, s: Store, r: Row)
    requires Exports(a, s) && Keyed(s.shelf)
    ensures ArchiveRow(a.logical, r) <==> HasRow(s.shelf, r)
  {
    if ArchiveRow(a.logical, r) {
      var i :| 0 <= i < |a.logical| && a.logical[i].id == r.book && r.format in a.logical[i].variants
               && a.logical[i].variants[r.format] == r.variant;
      assert a.logical[i] in a.logical;
    }
    if HasRow(s.shelf, r) {
      assert s.shelf[r.book] in a.logical;
      var i :| 0 <= i < |a.logical| && a.logical[i] == s.shelf[r.book];
    }
  }

  lemma ExportedShape(a: Archive, s: Store)
    requires Exports(a, s) && Valid(s)
    ensures WellFormed(a) && RowsBacked(a) && ListedOnce(a.logical)
  {
    ConsistentIsWellFormed(s.shelf, s.records);
    forall i | 0 <= i < |a.logical| ensures WellFormedBook(a.logical[i]) { assert a.logical[i] in a.logical; }
    forall i | 0 <= i < |a.preferences| ensures ReadablePreference(a.preferences[i]) {
      assert a.preferences[i] in a.preferences;
    }
    forall i | 0 <= i < |a.reconciliations| ensures ReadableReconciliation(a.reconciliations[i]) {
      assert a.reconciliations[i] in a.reconciliations;
    }
    forall i, f | 0 <= i < |a.logical| && f in a.logical[i].variants
      ensures HasBook(a.books, a.logical[i].variants[f], f)
    {
      assert a.logical[i] in a.logical;
      RowOf(s.shelf, a.logical[i].id, f);
      ExportedBook(a, s, a.logical[i].variants[f], f);
    }
    ExportedOnce(a, s);
  }

  lemma ExportedOnce(a: Archive, s: Store)
    requires Exports(a, s) && Valid(s)
    ensures ListedOnce(a.logical)
  {
    ConsistentIsOneOwner(s.shelf, s.records);
    forall i, j, f, g | 0 <= i < |a.logical| && 0 <= j < |a.logical|
                        && f in a.logical[i].variants && g in a.logical[j].variants
                        && a.logical[i].variants[f] == a.logical[j].variants[g]
      ensures i == j && f == g
    {
      assert a.logical[i] in a.logical && a.logical[j] in a.logical;
      RowOf(s.shelf, a.logical[i].id, f);
      RowOf(s.shelf, a.logical[j].id, g);
    }
  }

  lemma ExportedOwners(a: Archive, s: Store)
    requires Exports(a, s) && Valid(s)
    ensures EveryBookListed(a) <==> AllOwned(s)
  {
    forall v ensures Listed(a.logical, v) <==> Owned(s.shelf, v) {
      if Listed(a.logical, v) {
        var i, f :| 0 <= i < |a.logical| && f in a.logical[i].variants && a.logical[i].variants[f] == v;
        ExportedRow(a, s, Row(a.logical[i].id, f, v));
      }
      if Owned(s.shelf, v) {
        var r: Row :| HasRow(s.shelf, r) && r.variant == v;
        ExportedRow(a, s, r);
      }
    }
    if EveryBookListed(a) {
      forall v | v in s.records ensures Owned(s.shelf, v) {
        assert s.records[v] in a.books;
        var k :| 0 <= k < |a.books| && a.books[k] == s.records[v];
        assert Listed(a.logical, a.books[k].id);
      }
    }
    if AllOwned(s) {
      forall k | 0 <= k < |a.books| ensures Listed(a.logical, a.books[k].id) {
        assert a.books[k] in a.books;
      }
    }
  }

  lemma ExportedPreference(a: Archive, s: Store, p: Preference)
    requires Exports(a, s) && Keyed(s.shelf)
    ensures PreferenceBacked(a.logical, p) <==> p.book in s.shelf && p.preferred in s.shelf[p.book].variants
  {
    if PreferenceBacked(a.logical, p) {
      var k :| 0 <= k < |a.logical| && a.logical[k].id == p.book && p.preferred in a.logical[k].variants;
      assert a.logical[k] in a.logical;
    }
    if p.book in s.shelf && p.preferred in s.shelf[p.book].variants {
      assert s.shelf[p.book] in a.logical;
      var k :| 0 <= k < |a.logical| && a.logical[k] == s.shelf[p.book];
    }
  }

  lemma ExportedPreferences(a: Archive, s: Store)
    requires Exports(a, s) && Keyed(s.shelf) && StateKeyed(s)
    ensures PreferencesBacked(a) <==> Preferring(s)
  {
    if PreferencesBacked(a) {
      forall b | b in s.preferences && ReadablePreference(s.preferences[b])
        ensures b in s.shelf && s.preferences[b].preferred in s.shelf[b].variants
      {
        assert s.preferences[b] in a.preferences;
        var i :| 0 <= i < |a.preferences| && a.preferences[i] == s.preferences[b];
        ExportedPreference(a, s, a.preferences[i]);
      }
    }
    if Preferring(s) {
      forall i | 0 <= i < |a.preferences| ensures PreferenceBacked(a.logical, a.preferences[i]) {
        assert a.preferences[i] in a.preferences;
        ExportedPreference(a, s, a.preferences[i]);
      }
    }
  }

  lemma ExportedReconciliation(a: Archive, s: Store, rec: Reconciliation)
    requires Exports(a, s) && Valid(s)
    ensures ReconciliationBacked(a, rec) <==> Current(s, rec)
  {
    forall v ensures Archived(a.books, v) <==> v in s.records {
      if f :| HasBook(a.books, v, f) { ExportedBook(a, s, v, f); }
      if v in s.records { ExportedBook(a, s, v, s.records[v].format); }
    }
    forall r: Row ensures HasBook(a.books, r.variant, r.format) <==>
        r.variant in s.records && s.records[r.variant].format == r.format {
      ExportedBook(a, s, r.variant, r.format);
    }
    forall r ensures ArchiveRow(a.logical, r) <==> HasRow(s.shelf, r) {
      ExportedRow(a, s, r);
    }
    if ReconciliationBacked(a, rec) {
      forall v | v in rec.affected ensures v in s.records {
        var i :| 0 <= i < |rec.affected| && rec.affected[i] == v;
      }
    }
  }

  lemma ExportedReconciliations(a: Archive, s: Store)
    requires Exports(a, s) && Valid(s) && StateKeyed(s)
    ensures ReconciliationsBacked(a) <==>
              forall c | c in s.reconciliations && ReadableReconciliation(s.reconciliations[c]) :: Current(s, s.reconciliations[c])
  {
    if ReconciliationsBacked(a) {
      forall c | c in s.reconciliations && ReadableReconciliation(s.reconciliations[c])
        ensures Current(s, s.reconciliations[c])
      {
        assert s.reconciliations[c] in a.reconciliations;
        var i :| 0 <= i < |a.reconciliations| && a.reconciliations[i] == s.reconciliations[c];
        ExportedReconciliation(a, s, a.reconciliations[i]);
      }
    }
    if forall c | c in s.reconciliations && ReadableReconciliation(s.reconciliations[c]) :: Current(s, s.reconciliations[c]) {
      forall i | 0 <= i < |a.reconciliations| ensures ReconciliationBacked(a, a.reconciliations[i]) {
        assert a.reconciliations[i] in a.reconciliations;
        ExportedReconciliation(a, s, a.reconciliations[i]);
      }
    }
  }

  /** A backup is accepted again if and only if every publication has an owner, every readable preference
      names a format its book holds, and every readable conflict is current: a conflict resolved against
      its accepted side makes the library's own backup unusable. */
  lemma ExportAccepted(a: Archive, s: Store)
    requires Exports(a, s) && Valid(s) && StateKeyed(s)
    ensures Accepted(a) <==>
              && AllOwned(s) && Preferring(s)
              && forall c | c in s.reconciliations && ReadableReconciliation(s.reconciliations[c]) ::
                   Current(s, s.reconciliations[c])
  {
    ExportedShape(a, s);
    ExportedOwners(a, s);
    ExportedPreferences(a, s);
    ExportedReconciliations(a, s);
  }

  /** Every readable conflict keeps the rows of its accepted side, told before the reconciliation. */
  ghost predicate AcceptedSidesStay(s: Store, conflict: ConflictId, decision: Decision, derived: LogicalBookId)
    requires conflict in s.reconciliations
  {
    forall c, r | c in s.reconciliations && ReadableReconciliation(s.reconciliations[c]) && r in s.reconciliations[c].accepted ::
      RowAfter(s, s.reconciliations[conflict], decision, derived, r)
  }

  lemma ReconciledState(
      s: Store, conflict: ConflictId, decision: Decision, derived: LogicalBookId, who: Identity)
    requires StateKeyed(s) && Reconciling.ReconcileMembership(s, conflict, decision, derived, who).Committed?
    ensures var s' := Reconciling.ReconcileMembership(s, conflict, decision, derived, who).store;
            && StateKeyed(s') && s'.records == s.records && s'.reconciliations.Keys == s.reconciliations.Keys
            && forall c | c in s.reconciliations ::
                 && s'.reconciliations[c].affected == s.reconciliations[c].affected
                 && s'.reconciliations[c].accepted == s.reconciliations[c].accepted
                 && s'.reconciliations[c].rejected == s.reconciliations[c].rejected
                 && ReadableReconciliation(s'.reconciliations[c]) == ReadableReconciliation(s.reconciliations[c])
  {
    ReconcileResolves(s, conflict, decision, derived, who);
    ReconcilePreferences(s, conflict, decision, derived, who);
  }

  /** A reconciliation that gives up a row of its accepted side leaves a library whose backups are
      refused, however the library was before. */
  lemma OtherSideBlocksBackup(
      s: Store, conflict: ConflictId, decision: Decision, derived: LogicalBookId, who: Identity, r: Row, a: Archive)
    requires Valid(s) && StateKeyed(s) && (decision.MakeStandalone? ==> derived !in s.shelf)
    requires Settles(s, conflict, decision, derived)
    requires r in s.reconciliations[conflict].accepted && !RowAfter(s, s.reconciliations[conflict], decision, derived, r)
    requires Exports(a, After(s, Reconciling.ReconcileMembership(s, conflict, decision, derived, who)))
    ensures !Accepted(a)
  {
    ReconcileCommits(s, conflict, decision, derived, who);
    var s' := Reconciling.ReconcileMembership(s, conflict, decision, derived, who).store;
    ReconcileValid(s, conflict, decision, derived, who);
    ReconciledState(s, conflict, decision, derived, who);
    ExportAccepted(a, s');
    assert ReadableReconciliation(s'.reconciliations[conflict]);
    assert !HasRow(s'.shelf, r);
  }

  /** A library whose backups are accepted stays one through a reconciliation if and only if every stored
      affected publication is chosen and no readable conflict loses a row of its accepted side. */
  lemma BackupAfterReconciling(
      s: Store, conflict: ConflictId, decision: Decision, derived: LogicalBookId, who: Identity, a: Archive, a': Archive)
    requires Valid(s) && StateKeyed(s) && (decision.MakeStandalone? ==> derived !in s.shelf)
    requires Settles(s, conflict, decision, derived)
    requires Exports(a, s) && Accepted(a)
    requires Exports(a', After(s, Reconciling.ReconcileMembership(s, conflict, decision, derived, who)))
    ensures Accepted(a') <==>
              && (forall v | v in s.reconciliations[conflict].affected && v in s.records ::
                    exists r: Row :: Chosen(s, s.reconciliations[conflict], decision, derived, r) && r.variant == v)
              && AcceptedSidesStay(s, conflict, decision, derived)
  {
    ReconcileCommits(s, conflict, decision, derived, who);
    var s' := Reconciling.ReconcileMembership(s, conflict, decision, derived, who).store;
    ReconcileValid(s, conflict, decision, derived, who);
    ReconciledState(s, conflict, decision, derived, who);
    ExportAccepted(a, s);
    ExportAccepted(a', s');
    ReconcileAndOwners(s, conflict, decision, derived, who);
    ReconciledPreferring(s, conflict, decision, derived, who);
    CurrentAfter(s, conflict, decision, derived, s');
  }

  lemma ReconciledPreferring(
      s: Store, conflict: ConflictId, decision: Decision, derived: LogicalBookId, who: Identity)
    requires StateKeyed(s) && Reconciling.ReconcileMembership(s, conflict, decision, derived, who).Committed?
    ensures Preferring(Reconciling.ReconcileMembership(s, conflict, decision, derived, who).store)
  {
    ReconcilePreferences(s, conflict, decision, derived, who);
  }

  lemma CurrentAfter(s: Store, conflict: ConflictId, decision: Decision, derived: LogicalBookId, s': Store)
    requires conflict in s.reconciliations
    requires s'.records == s.records && s'.reconciliations.Keys == s.reconciliations.Keys
    requires forall c | c in s.reconciliations ::
               && s'.reconciliations[c].affected == s.reconciliations[c].affected
               && s'.reconciliations[c].accepted == s.reconciliations[c].accepted
               && s'.reconciliations[c].rejected == s.reconciliations[c].rejected
               && ReadableReconciliation(s'.reconciliations[c]) == ReadableReconciliation(s.reconciliations[c])
    requires forall r :: HasRow(s'.shelf, r) <==> RowAfter(s, s.reconciliations[conflict], decision, derived, r)
    requires forall c | c in s.reconciliations && ReadableReconciliation(s.reconciliations[c]) ::
               Current(s, s.reconciliations[c])
    ensures (forall c | c in s'.reconciliations && ReadableReconciliation(s'.reconciliations[c]) ::
               Current(s', s'.reconciliations[c]))
            <==> AcceptedSidesStay(s, conflict, decision, derived)
  {
    forall c | c in s.reconciliations && ReadableReconciliation(s.reconciliations[c])
      ensures Current(s', s'.reconciliations[c]) <==>
                forall r | r in s.reconciliations[c].accepted :: RowAfter(s, s.reconciliations[conflict], decision, derived, r)
    {
      assert Current(s, s.reconciliations[c]);
    }
  }

  // ----- restoring it -----

  const NewLibrary := Store(map[], map[], map[], map[], map[])

  lemma ExportedShelf(a: Archive, s: Store, current: Shelf)
    requires Exports(a, s) && Keyed(s.shelf) && (current == map[] || current == s.shelf)
    ensures MergedShelf(current, a.logical) == s.shelf
  {
    var m := MergedShelf(current, a.logical);
    forall id ensures (id in m <==> id in s.shelf) && (id in m ==> m[id] == s.shelf[id]) {
      assert id in s.shelf ==> s.shelf[id] in a.logical;
      if i :| 0 <= i < |a.logical| && a.logical[i].id == id {
        assert a.logical[i] in a.logical;
        MergedBookAt(current, a.logical, i);
        assert a.logical[i].variants + a.logical[i].variants == a.logical[i].variants;
      } else {
        MergedBookElsewhere(current, a.logical, id);
      }
    }
  }

  lemma ExportedRecords(a: Archive, s: Store, current: Records)
    requires Exports(a, s) && RecordsKeyed(s.records) && (current == map[] || current == s.records)
    ensures current + Publications(current, a.books) == s.records
  {
    var pubs := Publications(current, a.books);
    forall v ensures (v in pubs <==> v in s.records) && (v in pubs ==> pubs[v] == s.records[v]) {
      if v in pubs {
        PublicationFrom(current, a.books, v);
        var k :| 0 <= k < |a.books| && a.books[k].id == v;
        assert a.books[k] in a.books;
        PublicationAt(current, a.books, k);
      }
      if v in s.records {
        assert s.records[v] in a.books;
        var k :| 0 <= k < |a.books| && a.books[k] == s.records[v];
        PublicationAt(current, a.books, k);
      }
    }
  }

  lemma ExportedPrefs(a: Archive, s: Store, current: Preferences)
    requires Exports(a, s) && StateKeyed(s) && (current == map[] || current == ReadablePreferences(s.preferences))
    ensures MergedPreferences(current, a.preferences) == ReadablePreferences(s.preferences)
  {
    var m, read := MergedPreferences(current, a.preferences), ReadablePreferences(s.preferences);
    forall b ensures (b in m <==> b in read) && (b in m ==> m[b] == read[b]) {
      assert b in read ==> read[b] in a.preferences;
      if i :| 0 <= i < |a.preferences| && a.preferences[i].book == b {
        assert a.preferences[i] in a.preferences;
        MergedPreferenceAt(current, a.preferences, i);
        assert a.preferences[i].heads + a.preferences[i].heads == a.preferences[i].heads;
      } else {
        MergedPreferenceElsewhere(current, a.preferences, b);
      }
    }
  }

  lemma ExportedConflicts(a: Archive, s: Store, current: Reconciliations, text: Reconciliation -> nat)
    requires Exports(a, s) && StateKeyed(s) && (current == map[] || current == ReadableReconciliations(s.reconciliations))
    ensures MergedReconciliations(current, a.reconciliations, text) == ReadableReconciliations(s.reconciliations)
  {
    var m, read := MergedReconciliations(current, a.reconciliations, text), ReadableReconciliations(s.reconciliations);
    forall c ensures (c in m <==> c in read) && (c in m ==> m[c] == read[c]) {
      assert c in read ==> read[c] in a.reconciliations;
      if i :| 0 <= i < |a.reconciliations| && a.reconciliations[i].id == c {
        assert a.reconciliations[i] in a.reconciliations;
        MergedReconciliationAt(current, a.reconciliations, text, i);
      } else {
        MergedReconciliationElsewhere(current, a.reconciliations, text, c);
      }
    }
  }

  /** Restoring a library's backup into an empty library gives the library back, but for the preferences
      and conflicts that could not be read and the pending changes, which are not backed up. */
  lemma RestoredElsewhere(a: Archive, s: Store, text: Reconciliation -> nat)
    requires Exports(a, s) && Valid(s) && StateKeyed(s)
    ensures NoConflicts(a.logical, NewLibrary.shelf)
    ensures RestoreCommit(NewLibrary, a, map[], SnapshotOf(NewLibrary), text)
         == Committed(Store(s.records, s.shelf, ReadablePreferences(s.preferences),
                            ReadableReconciliations(s.reconciliations), map[]))
  {
    assert ReadablePreferences(NewLibrary.preferences) == map[];
    assert ReadableReconciliations(NewLibrary.reconciliations) == map[];
    ExportedShelf(a, s, map[]);
    ExportedRecords(a, s, map[]);
    ExportedPrefs(a, s, map[]);
    ExportedConflicts(a, s, map[], text);
  }

  /** Restoring it into the library it was made from changes nothing that can be read. */
  lemma RestoredInPlace(a: Archive, s: Store, text: Reconciliation -> nat)
    requires Exports(a, s) && Valid(s) && StateKeyed(s)
    ensures NoConflicts(a.logical, s.shelf)
    ensures RestoreCommit(s, a, s.records, SnapshotOf(s), text)
         == Committed(s.(preferences := ReadablePreferences(s.preferences),
                         reconciliations := ReadableReconciliations(s.reconciliations)))
  {
    ConsistentIsOneOwner(s.shelf, s.records);
    forall r | ArchiveRow(a.logical, r) ensures HasRow(s.shelf, r) {
      ExportedRow(a, s, r);
    }
    ExportedShelf(a, s, s.shelf);
    ExportedRecords(a, s, s.records);
    ExportedPrefs(a, s, ReadablePreferences(s.preferences));
    ExportedConflicts(a, s, ReadableReconciliations(s.reconciliations), text);
  }

  /** Putting a consistent library's own state in its place is accepted, and drops what cannot be read. */
  lemma ReplacedInPlace(a: Archive, s: Store)
    requires Exports(a, s) && Valid(s) && StateKeyed(s)
    ensures ReplaceState(s, a.logical, ReadablePreferences(s.preferences), ReadableReconciliations(s.reconciliations))
         == Committed(s.(preferences := ReadablePreferences(s.preferences),
                         reconciliations := ReadableReconciliations(s.reconciliations)))
  {
    ExportedShape(a, s);
    ExportedStored(a, s);
    ShelvedFrom(a.logical);
    ShelvedHas(a.logical);
    var m := Shelved(a.logical);
    forall id ensures (id in m <==> id in s.shelf) && (id in m ==> m[id] == s.shelf[id]) {
      assert id in s.shelf ==> s.shelf[id] in a.logical;
    }
    assert m == s.shelf;
  }

  lemma ExportedStored(a: Archive, s: Store)
    requires Exports(a, s) && Valid(s)
    ensures ListedStored(a.logical, s.records)
  {
    forall i, f | 0 <= i < |a.logical| && f in a.logical[i].variants
      ensures a.logical[i].variants[f] in s.records && s.records[a.logical[i].variants[f]].format == f
    {
      assert a.logical[i] in a.logical;
      RowOf(s.shelf, a.logical[i].id, f);
    }
  }
}
