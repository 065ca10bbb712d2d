/** Restoring the same archive a second time is accepted and changes nothing. */
module RestoreTwice {
  import opened LogicalBooks
  import opened LibraryBackup
  import opened LibraryRestore

  // ----- each merge, entry by entry -----

  lemma {:induction false} MergedBookElsewhere(current: Shelf, archived: seq<LogicalBook>, id: LogicalBookId)
    requires forall i | 0 <= i < |archived| :: archived[i].id != id
    ensures id in MergedShelf(current, archived) <==> id in current
    ensures id in current ==> MergedShelf(current, archived)[id] == current[id]
  {
    if archived != [] {
      MergedBookElsewhere(current, archived[..|archived| - 1], id);
    }
  }

  lemma {:induction false} MergedBookAt(current: Shelf, archived: seq<LogicalBook>, i: nat)
    requires DistinctLogical(archived) && i < |archived|
    ensures var id := archived[i].id;
            id in MergedShelf(current, archived)
            && MergedShelf(current, archived)[id] == MergeBook(current, archived[i])[id]
  {
    var n := |archived| - 1;
    if i < n {
      assert archived[..n][i] == archived[i];
      MergedBookAt(current, archived[..n], i);
    } else {
      MergedBookElsewhere(current, archived[..n], archived[i].id);
    }
  }

  lemma {:induction false} MergedPreferenceElsewhere(current: Preferences, archived: seq<Preference>, id: LogicalBookId)
    requires forall i | 0 <= i < |archived| :: archived[i].book != id
    ensures id in MergedPreferences(current, archived) <==> id in current
    ensures id in current ==> MergedPreferences(current, archived)[id] == current[id]
  {
    if archived != [] {
      MergedPreferenceElsewhere(current, archived[..|archived| - 1], id);
    }
  }

  lemma {:induction false} MergedPreferenceAt(current: Preferences, archived: seq<Preference>, i: nat)
    requires forall i, j | 0 <= i < j < |archived| :: archived[i].book != archived[j].book
    requires i < |archived|
    ensures var id := archived[i].book;
            id in MergedPreferences(current, archived)
            && MergedPreferences(current, archived)[id] == AddPreference(current, archived[i])[id]
  {
    var n := |archived| - 1;
    if i < n {
      assert archived[..n][i] == archived[i];
      MergedPreferenceAt(current, archived[..n], i);
    } else {
      MergedPreferenceElsewhere(current, archived[..n], archived[i].book);
    }
  }

  lemma {:induction false} MergedReconciliationElsewhere(
      current: Reconciliations, archived: seq<Reconciliation>, text: Reconciliation -> nat, id: ConflictId)
    requires forall i | 0 <= i < |archived| :: archived[i].id != id
    ensures id in MergedReconciliations(current, archived, text) <==> id in current
    ensures id in current ==> MergedReconciliations(current, archived, text)[id] == current[id]
  {
    if archived != [] {
      MergedReconciliationElsewhere(current, archived[..|archived| - 1], text, id);
    }
  }

  lemma {:induction false} MergedReconciliationAt(
      current: Reconciliations, archived: seq<Reconciliation>, text: Reconciliation -> nat, i: nat)
    requires forall i, j | 0 <= i < j < |archived| :: archived[i].id != archived[j].id
    requires i < |archived|
    ensures var id := archived[i].id;
            id in MergedReconciliations(current, archived, text)
            && MergedReconciliations(current, archived, text)[id] == AddReconciliation(current, archived[i], text)[id]
  {
    var n := |archived| - 1;
    if i < n {
      assert archived[..n][i] == archived[i];
      MergedReconciliationAt(current, archived[..n], text, i);
    } else {
      MergedReconciliationElsewhere(current, archived[..n], text, archived[i].id);
    }
  }

  // ----- each merge, twice -----

  lemma MergeBookTwice(m: Shelf, once: Shelf, imported: LogicalBook)
    requires imported.id in once && once[imported.id] == MergeBook(m, imported)[imported.id]
    ensures MergeBook(once, imported)[imported.id] == once[imported.id]
  {
  }

  lemma ShelfTwice(current: Shelf, archived: seq<LogicalBook>)
    requires DistinctLogical(archived)
    ensures MergedShelf(MergedShelf(current, archived), archived) == MergedShelf(current, archived)
  {
    var once := MergedShelf(current, archived);
    var twice := MergedShelf(once, archived);
    forall id ensures (id in twice <==> id in once) && (id in once ==> twice[id] == once[id]) {
      if i :| 0 <= i < |archived| && archived[i].id == id {
        MergedBookAt(current, archived, i);
        MergedBookAt(once, archived, i);
        MergeBookTwice(current, once, archived[i]);
      } else {
        MergedBookElsewhere(current, archived, id);
        MergedBookElsewhere(once, archived, id);
      }
    }
  }

  /** Where the archive has a preference for a book that has one, their heads together can be read. */
  predicate HeadsFit(current: Preferences, archived: seq<Preference>) {
    forall i | 0 <= i < |archived| && archived[i].book in current ::
      |current[archived[i].book].heads + archived[i].heads| <= MAX_HEADS
  }

  /** One archived preference. If the merged record can be read, merging again changes nothing; if it
      cannot, the second restore does not see it and the archived preference takes its place. */
  lemma PreferenceTwiceAt(current: Preferences, archived: seq<Preference>, i: nat)
    requires forall i, j | 0 <= i < j < |archived| :: archived[i].book != archived[j].book
    requires i < |archived| && ReadablePreference(archived[i])
    requires forall b | b in current :: ReadablePreference(current[b])
    ensures var id := archived[i].book;
            var once := MergedPreferences(current, archived);
            var twice := MergedPreferences(ReadablePreferences(once), archived);
            && id in once && id in twice
            && (once[id] == twice[id] <==>
                  (id in current ==> |current[id].heads + archived[i].heads| <= MAX_HEADS))
            && (once[id] != twice[id] ==> twice[id] == archived[i])
  {
    var id := archived[i].book;
    var once := MergedPreferences(current, archived);
    MergedPreferenceAt(current, archived, i);
    MergedPreferenceAt(ReadablePreferences(once), archived, i);
    if id in current {
      MergePreferenceTwice(current[id], archived[i]);
    } else {
      assert archived[i].heads + archived[i].heads == archived[i].heads;
    }
  }

  /** Merging preferences twice is merging once exactly when every merged preference can be read. */
  lemma PreferencesTwice(current: Preferences, archived: seq<Preference>)
    requires forall i, j | 0 <= i < j < |archived| :: archived[i].book != archived[j].book
    requires forall i | 0 <= i < |archived| :: ReadablePreference(archived[i])
    requires forall b | b in current :: ReadablePreference(current[b])
    ensures var once := MergedPreferences(current, archived);
            MergedPreferences(ReadablePreferences(once), archived) == once <==> HeadsFit(current, archived)
  {
    var once := MergedPreferences(current, archived);
    var read := ReadablePreferences(once);
    var twice := MergedPreferences(read, archived);
    forall i | 0 <= i < |archived|
      ensures var id := archived[i].book;
              && id in once && id in twice
              && (once[id] == twice[id] <==>
                    (id in current ==> |current[id].heads + archived[i].heads| <= MAX_HEADS))
    {
      PreferenceTwiceAt(current, archived, i);
    }
    forall id | forall i | 0 <= i < |archived| :: archived[i].book != id
      ensures (id in twice <==> id in once) && (id in once ==> twice[id] == once[id])
    {
      MergedPreferenceElsewhere(current, archived, id);
      MergedPreferenceElsewhere(read, archived, id);
    }
    if HeadsFit(current, archived) {
      assert twice == once;
    }
  }

  lemma ReconciliationsTwice(
      current: Reconciliations, archived: seq<Reconciliation>, text: Reconciliation -> nat)
    requires forall i, j | 0 <= i < j < |archived| :: archived[i].id != archived[j].id
    ensures MergedReconciliations(MergedReconciliations(current, archived, text), archived, text)
         == MergedReconciliations(current, archived, text)
  {
    var once := MergedReconciliations(current, archived, text);
    var twice := MergedReconciliations(once, archived, text);
    forall id ensures (id in twice <==> id in once) && (id in once ==> twice[id] == once[id]) {
      if i :| 0 <= i < |archived| && archived[i].id == id {
        MergedReconciliationAt(current, archived, text, i);
        MergedReconciliationAt(once, archived, text, i);
        assert once[id] == archived[i] || !Replaces(archived[i], once[id], text);
      } else {
        MergedReconciliationElsewhere(current, archived, text, id);
        MergedReconciliationElsewhere(once, archived, text, id);
      }
    }
  }

  lemma PublicationsTwice(records: Records, books: seq<BookRecord>)
    requires DistinctBooks(books)
    ensures var once := records + Publications(records, books);
            once + Publications(once, books) == once
  {
    var first := Publications(records, books);
    var once := records + first;
    var second := Publications(once, books);
    PublicationsAre(records, books);
    PublicationsAre(once, books);
    forall v | v in second ensures v in once && second[v] == once[v] {
      var k :| 0 <= k < |books| && books[k].id == v;
      assert second[books[k].id] == RestoredBook(once, books[k]);
      assert first[books[k].id] == RestoredBook(records, books[k]);
    }
  }

  lemma {:induction false} MergedReconciliationsReadable(
      current: Reconciliations, archived: seq<Reconciliation>, text: Reconciliation -> nat)
    requires forall c | c in current :: ReadableReconciliation(current[c])
    requires forall i | 0 <= i < |archived| :: ReadableReconciliation(archived[i])
    ensures ReadableReconciliations(MergedReconciliations(current, archived, text))
         == MergedReconciliations(current, archived, text)
  {
    if archived != [] {
      var n := |archived| - 1;
      MergedReconciliationsReadable(current, archived[..n], text);
      var rest := MergedReconciliations(current, archived[..n], text);
      assert forall c | c in rest :: c in ReadableReconciliations(rest);
    }
  }

  lemma NoConflictsAgain(current: Shelf, m: Shelf, archived: seq<LogicalBook>)
    requires OneOwner(m)
    requires forall r :: HasRow(m, r) <==> HasRow(current, r) || ArchiveRow(archived, r)
    ensures NoConflicts(archived, m)
  {
    forall r | ArchiveRow(archived, r)
      ensures forall r' | HasRow(m, r') && r'.variant == r.variant :: r'.book == r.book
      ensures forall r' | HasRow(m, r') && r'.book == r.book && r'.format == r.format :: r' == r
    {
      assert HasRow(m, r);
    }
  }

  /** The whole restore, twice. The second one meets no conflicts and always commits; shelf,
      publications and reconciliations are as the first one left them. So are the preferences exactly
      when no merged preference has too many heads to be read again. */
  lemma RestoringTwice(s: Store, archive: Archive, text: Reconciliation -> nat)
    requires Valid(s) && Accepted(archive) && NoConflicts(archive.logical, s.shelf)
    requires FormatsAgree(archive, s.records, s.shelf)
    ensures RestoreCommit(s, archive, s.records, SnapshotOf(s), text).Committed?
    ensures var s' := RestoreCommit(s, archive, s.records, SnapshotOf(s), text).store;
            var o := RestoreCommit(s', archive, s'.records, SnapshotOf(s'), text);
            && NoConflicts(archive.logical, s'.shelf)
            && o.Committed?
            && o.store.(preferences := s'.preferences) == s'
            && (o.store == s' <==> HeadsFit(ReadablePreferences(s.preferences), archive.preferences))
  {
    RestoreIsUnion(s, archive, s.records, SnapshotOf(s), text);
    var s' := RestoreCommit(s, archive, s.records, SnapshotOf(s), text).store;
    NoConflictsAgain(s.shelf, s'.shelf, archive.logical);
    ShelfTwice(s.shelf, archive.logical);
    var prefs, recs := ReadablePreferences(s.preferences), ReadableReconciliations(s.reconciliations);
    PreferencesTwice(prefs, archive.preferences);
    ReconciliationsTwice(recs, archive.reconciliations, text);
    MergedReconciliationsReadable(recs, archive.reconciliations, text);
    PublicationsTwice(s.records, archive.books);
  }
}
