/** What a restore does to catalog entries, publications, preferences and conflicts: which side wins, and
    that it does not matter which side is the archive. */
module RestoreEffects {
  import opened Common
  import opened LogicalBooks
  import opened LibraryTransactions
  import opened LibraryInvariant
  import opened LibraryBackup
  import opened LibraryRestore
  import opened RestoreTwice

  // ----- preferences -----

  /** `a` has seen the choice `b` was made with. */
  predicate Descends(a: Preference, b: Preference) {
    b.winner in a.heads
  }

  /** One of the two is merged as it is, with the heads of both. A preference that has seen the other's
      choice, and is not seen by it, decides; otherwise the greater change does. */
  lemma PreferenceDecides(existing: Preference, imported: Preference)
    ensures var p := MergePreference(existing, imported);
            && p.heads == existing.heads + imported.heads
            && (p == existing.(heads := p.heads) || p == imported.(heads := p.heads))
            && (Descends(imported, existing) && !Descends(existing, imported) ==> p == imported.(heads := p.heads))
            && (Descends(existing, imported) && !Descends(imported, existing) ==> p == existing.(heads := p.heads))
            && (Descends(existing, imported) == Descends(imported, existing) ==>
                  && (imported.winner > existing.winner ==> p == imported.(heads := p.heads))
                  && (existing.winner > imported.winner ==> p == existing.(heads := p.heads)))
  {
  }

  /** It does not matter which of two different choices is the archived one. */
  lemma PreferenceSides(a: Preference, b: Preference)
    requires a.winner != b.winner
    ensures MergePreference(a, b) == MergePreference(b, a)
  {
    assert a.heads + b.heads == b.heads + a.heads;
  }

  /** The preferences after a restore: books the archive does not mention keep what could be read, books
      without a readable preference take the archived one, and the others the merge of the two. */
  lemma RestoredPreferences(s: Store, archive: Archive, existing: Records, text: Reconciliation -> nat)
    requires Accepted(archive) && RestoreCommit(s, archive, existing, SnapshotOf(s), text).Committed?
    ensures var prefs, current := RestoreCommit(s, archive, existing, SnapshotOf(s), text).store.preferences,
                                  ReadablePreferences(s.preferences);
            && (forall p | p in archive.preferences ::
                  && p.book in prefs
                  && prefs[p.book] == if p.book in current then MergePreference(current[p.book], p) else p)
            && (forall b | forall p | p in archive.preferences :: p.book != b ::
                  (b in prefs <==> b in current) && (b in current ==> prefs[b] == current[b]))
  {
    PreferencesMerge(ReadablePreferences(s.preferences), archive.preferences);
  }

  lemma PreferencesMerge(current: Preferences, archived: seq<Preference>)
    requires forall i, j | 0 <= i < j < |archived| :: archived[i].book != archived[j].book
    ensures var prefs := MergedPreferences(current, archived);
            && (forall p | p in archived ::
                  && p.book in prefs
                  && prefs[p.book] == if p.book in current then MergePreference(current[p.book], p) else p)
            && (forall b | forall p | p in archived :: p.book != b ::
                  (b in prefs <==> b in current) && (b in current ==> prefs[b] == current[b]))
  {
    var prefs := MergedPreferences(current, archived);
    forall p | p in archived
      ensures p.book in prefs
      ensures prefs[p.book] == if p.book in current then MergePreference(current[p.book], p) else p
    {
      var i :| 0 <= i < |archived| && archived[i] == p;
      MergedPreferenceAt(current, archived, i);
    }
    forall b | forall p | p in archived :: p.book != b
      ensures (b in prefs <==> b in current) && (b in current ==> prefs[b] == current[b])
    {
      MergedPreferenceElsewhere(current, archived, b);
    }
  }

  /** Two devices exchange their archives: whichever restores the other's, a book both have chosen a format
      for, by different changes, ends with the same choice. */
  lemma RestoredAlike(
      s: Store, s': Store, a: Archive, a': Archive, existing: Records, existing': Records, p: Preference, p': Preference,
      text: Reconciliation -> nat)
    requires Accepted(a) && Accepted(a') && p in a.preferences && p' in a'.preferences
    requires p.book == p'.book && p.winner != p'.winner
    requires p.book in s.preferences && s.preferences[p.book] == p && ReadablePreference(p)
    requires p'.book in s'.preferences && s'.preferences[p'.book] == p' && ReadablePreference(p')
    requires RestoreCommit(s, a', existing, SnapshotOf(s), text).Committed?
    requires RestoreCommit(s', a, existing', SnapshotOf(s'), text).Committed?
    ensures var one, two := RestoreCommit(s, a', existing, SnapshotOf(s), text).store.preferences,
                            RestoreCommit(s', a, existing', SnapshotOf(s'), text).store.preferences;
            p.book in one && p.book in two && one[p.book] == two[p.book]
  {
    RestoredPreferences(s, a', existing, text);
    RestoredPreferences(s', a, existing', text);
    PreferenceSides(p, p');
  }

  // ----- conflicts -----

  function MergeOne(existing: Reconciliation, imported: Reconciliation, text: Reconciliation -> nat): Reconciliation {
    if Replaces(imported, existing, text) then imported else existing
  }

  /** A resolved record beats an open one; of two alike the later text wins. */
  lemma ReconciliationDecides(existing: Reconciliation, imported: Reconciliation, text: Reconciliation -> nat)
    ensures var r := MergeOne(existing, imported, text);
            && (r == existing || r == imported)
            && (existing.status.Open? && imported.status.Resolved? ==> r == imported)
            && (existing.status.Resolved? && imported.status.Open? ==> r == existing)
            && (existing.status.Open? == imported.status.Open? ==> text(r) >= text(existing) && text(r) >= text(imported))
  {
  }

  lemma ReconciliationSides(a: Reconciliation, b: Reconciliation, text: Reconciliation -> nat)
    requires text(a) == text(b) ==> a == b
    ensures MergeOne(a, b, text) == MergeOne(b, a, text)
  {
  }

  lemma RestoredReconciliations(s: Store, archive: Archive, existing: Records, text: Reconciliation -> nat)
    requires Accepted(archive) && RestoreCommit(s, archive, existing, SnapshotOf(s), text).Committed?
    ensures var recs, current := RestoreCommit(s, archive, existing, SnapshotOf(s), text).store.reconciliations,
                                 ReadableReconciliations(s.reconciliations);
            && (forall rec | rec in archive.reconciliations ::
                  && rec.id in recs
                  && recs[rec.id] == if rec.id in current then MergeOne(current[rec.id], rec, text) else rec)
            && (forall c | forall rec | rec in archive.reconciliations :: rec.id != c ::
                  (c in recs <==> c in current) && (c in current ==> recs[c] == current[c]))
  {
    var current := ReadableReconciliations(s.reconciliations);
    forall rec | rec in archive.reconciliations
      ensures rec.id in MergedReconciliations(current, archive.reconciliations, text)
      ensures MergedReconciliations(current, archive.reconciliations, text)[rec.id]
           == if rec.id in current then MergeOne(current[rec.id], rec, text) else rec
    {
      var i :| 0 <= i < |archive.reconciliations| && archive.reconciliations[i] == rec;
      MergedReconciliationAt(current, archive.reconciliations, text, i);
    }
    forall c | forall rec | rec in archive.reconciliations :: rec.id != c
      ensures c in MergedReconciliations(current, archive.reconciliations, text) <==> c in current
      ensures c in current ==> MergedReconciliations(current, archive.reconciliations, text)[c] == current[c]
    {
      MergedReconciliationElsewhere(current, archive.reconciliations, text, c);
    }
  }

  // ----- books and publications -----

  /** An archived book brings its own catalog entry and time; other books are untouched. */
  lemma RestoredBooks(s: Store, archive: Archive, existing: Records, text: Reconciliation -> nat)
    requires Accepted(archive) && RestoreCommit(s, archive, existing, SnapshotOf(s), text).Committed?
    ensures var m := RestoreCommit(s, archive, existing, SnapshotOf(s), text).store.shelf;
            && (forall b | b in archive.logical ::
                  b.id in m && m[b.id].id == b.id && m[b.id].catalog == b.catalog && m[b.id].updatedAt == b.updatedAt)
            && (forall id | forall b | b in archive.logical :: b.id != id ::
                  (id in m <==> id in s.shelf) && (id in s.shelf ==> m[id] == s.shelf[id]))
  {
    BooksMerge(s.shelf, archive.logical);
  }

  lemma BooksMerge(current: Shelf, archived: seq<LogicalBook>)
    requires DistinctLogical(archived)
    ensures var m := MergedShelf(current, archived);
            && (forall b | b in archived ::
                  b.id in m && m[b.id].id == b.id && m[b.id].catalog == b.catalog && m[b.id].updatedAt == b.updatedAt)
            && (forall id | forall b | b in archived :: b.id != id ::
                  (id in m <==> id in current) && (id in current ==> m[id] == current[id]))
  {
    var m := MergedShelf(current, archived);
    forall b | b in archived
      ensures b.id in m && m[b.id].id == b.id && m[b.id].catalog == b.catalog && m[b.id].updatedAt == b.updatedAt
    {
      var i :| 0 <= i < |archived| && archived[i] == b;
      MergedBookAt(current, archived, i);
    }
    forall id | forall b | b in archived :: b.id != id
      ensures (id in m <==> id in current) && (id in current ==> m[id] == current[id])
    {
      MergedBookElsewhere(current, archived, id);
    }
  }

  /** A publication the restore found keeps its file, format and import time and takes the archived catalog
      entry; a new one is stored as archived; publications that are not archived are untouched. */
  lemma RestoredPublications(s: Store, archive: Archive, existing: Records, text: Reconciliation -> nat)
    requires Accepted(archive) && RestoreCommit(s, archive, existing, SnapshotOf(s), text).Committed?
    ensures var records := RestoreCommit(s, archive, existing, SnapshotOf(s), text).store.records;
            && (forall b | b in archive.books ::
                  && b.id in records && records[b.id].catalog == b.catalog
                  && (b.id !in existing ==> records[b.id] == b)
                  && (b.id in existing ==>
                        && records[b.id].id == existing[b.id].id && records[b.id].format == existing[b.id].format
                        && records[b.id].importedAt == existing[b.id].importedAt
                        && records[b.id].file == existing[b.id].file))
            && (forall v | forall b | b in archive.books :: b.id != v ::
                  (v in records <==> v in s.records) && (v in s.records ==> records[v] == s.records[v]))
  {
    var pubs := Publications(existing, archive.books);
    forall b | b in archive.books ensures b.id in pubs && pubs[b.id] == RestoredBook(existing, b) {
      var k :| 0 <= k < |archive.books| && archive.books[k] == b;
      PublicationAt(existing, archive.books, k);
    }
    forall v | v in pubs ensures exists b | b in archive.books :: b.id == v {
      PublicationFrom(existing, archive.books, v);
      var k :| 0 <= k < |archive.books| && archive.books[k].id == v;
      assert archive.books[k] in archive.books;
    }
  }
}
