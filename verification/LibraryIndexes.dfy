/** What the database promises by itself: books stored under their own identifier and unique
    indexes, after every transaction and for any arguments, also for publications stored under a
    format their bytes do not have. */
module LibraryIndexes {
  import opened Common
  import opened LogicalBooks
  import opened LibraryTransactions
  import opened LibraryInvariant
  import opened Reconciling
  import opened LibraryBackup
  import opened LibraryRestore

  ghost predicate Indexed(s: Store) {
    Keyed(s.shelf) && UniqueIndexes(s.shelf)
  }

  lemma AddIndexed(s: Store, destination: LogicalBook, variant: BookRecord, who: Identity)
    requires Indexed(s)
    ensures Indexed(After(s, AddCommit(s, destination, variant, who)))
  {
  }

  lemma AssociateIndexed(s: Store, destination: LogicalBook, source: LogicalBook, who: Identity)
    requires Indexed(s)
    ensures Indexed(After(s, AssociateCommit(s, destination, source, who)))
  {
    if AssociateCommit(s, destination, source, who).Committed? {
      RemoveKeepsUnique(s.shelf, {source.id});
      PutKeepsUnique(s.shelf - {source.id},
                     destination.(variants := destination.variants + source.variants, updatedAt := who.createdAt));
    }
  }

  lemma PutThenAddIndexed(m: Shelf, updated: LogicalBook, added: LogicalBook)
    requires Keyed(m) && UniqueIndexes(m) && PutThenAdd(m, updated, added).Some?
    ensures Keyed(PutThenAdd(m, updated, added).value) && UniqueIndexes(PutThenAdd(m, updated, added).value)
  {
    PutKeepsUnique(m, updated);
    PutKeepsUnique(m[updated.id := updated], added);
  }

  lemma DetachIndexed(s: Store, book: LogicalBookId, v: VariantId, derived: LogicalBookId, who: Identity)
    requires Indexed(s)
    ensures Indexed(After(s, DetachVariant(s, book, v, derived, who)))
  {
    if DetachVariant(s, book, v, derived, who).Committed? {
      var gone := s.records[v].format;
      var updated := s.shelf[book].(
        variants := map[Other(gone) := s.shelf[book].variants[Other(gone)]], updatedAt := who.createdAt);
      var detached := LogicalBookFromVariant(s.records[v], who.createdAt).(id := DetachedId(s, book, v, derived));
      PutThenAddIndexed(s.shelf, updated, detached);
    }
  }

  lemma DeleteIndexed(s: Store, book: LogicalBookId, target: Option<VariantId>, who: Identity)
    requires Indexed(s)
    ensures Indexed(After(s, DeleteVariants(s, book, target, who)))
  {
    if DeleteVariants(s, book, target, who).Committed? {
      var b := s.shelf[book];
      var remaining := Without(b, DeleteTargets(b, target));
      if Filled(remaining) {
        PutKeepsUnique(s.shelf, b.(variants := remaining, updatedAt := who.createdAt));
      } else {
        RemoveKeepsUnique(s.shelf, {book});
      }
    }
  }

  lemma ReconcileIndexed(
      s: Store, conflict: ConflictId, decision: Decision, derived: LogicalBookId, who: Identity)
    requires Indexed(s)
    ensures Indexed(After(s, Reconciling.ReconcileMembership(s, conflict, decision, derived, who)))
  {
    if Reconciling.ReconcileMembership(s, conflict, decision, derived, who).Committed? {
      var raw := s.reconciliations[conflict];
      var selection := Select(s, raw, decision, derived, who.createdAt).value;
      StrippedAllKeyed(selection.books, raw.affected, who.createdAt);
      AddRowsKeyed(StrippedAll(selection.books, raw.affected, who.createdAt), selection.rows, s.records, who.createdAt);
    }
  }

  lemma StoreNewIndexed(s: Store, record: BookRecord)
    requires Indexed(s)
    ensures Indexed(After(s, StoreNew(s, record)))
  {
    if StoreNew(s, record).Committed? {
      PutKeepsUnique(s.shelf, LogicalBookFromVariant(record, record.importedAt));
    }
  }

  lemma ImportIndexed(s: Store, record: BookRecord, supported: bool)
    requires Indexed(s)
    ensures Indexed(After(s, ImportBook(s, record, supported)))
  {
    StoreNewIndexed(s, record);
    if record.id in s.records && ImportBook(s, record, supported).Committed? {
      PutKeepsUnique(s.shelf, LogicalBookFromVariant(s.records[record.id], s.records[record.id].importedAt));
    }
  }

  lemma RemoveIndexed(s: Store, v: VariantId, now: Time)
    requires Indexed(s)
    ensures Indexed(After(s, RemoveBook(s, v, now)))
  {
    FindOwnerFinds(s.shelf, v);
    var owner := FindOwner(s.shelf, v);
    if owner.Some? {
      var b := s.shelf[owner.value];
      var remaining := Without(b, {v});
      if !Filled(remaining) {
        RemoveKeepsUnique(s.shelf, {owner.value});
      } else if RemoveBook(s, v, now).Committed? {
        PutKeepsUnique(s.shelf, b.(variants := remaining, updatedAt := now));
      }
    }
  }

  lemma {:induction false} ShelvedIndexed(books: seq<LogicalBook>)
    requires ListedOnce(books)
    ensures Keyed(Shelved(books)) && UniqueIndexes(Shelved(books))
  {
    if books != [] {
      var n := |books| - 1;
      ShelvedIndexed(books[..n]);
      ShelvedAllows(books, n);
      PutKeepsUnique(Shelved(books[..n]), books[n]);
    }
  }

  lemma ReplaceIndexed(s: Store, books: seq<LogicalBook>, prefs: Preferences, recs: Reconciliations)
    requires Indexed(s)
    ensures Indexed(After(s, ReplaceState(s, books, prefs, recs)))
  {
    if ReplaceState(s, books, prefs, recs).Committed? {
      ShelvedIndexed(books);
    }
  }

  /** A replacement with distinct identifiers makes membership exactly what it lists. */
  lemma ReplaceRows(s: Store, books: seq<LogicalBook>, prefs: Preferences, recs: Reconciliations)
    requires DistinctLogical(books) && ReplaceState(s, books, prefs, recs).Committed?
    ensures forall r :: HasRow(ReplaceState(s, books, prefs, recs).store.shelf, r) <==> ArchiveRow(books, r)
  {
    var m := Shelved(books);
    forall r | HasRow(m, r) ensures ArchiveRow(books, r) {
      var k := ShelvedIn(books, r.book);
      ShelvedFrom(books);
    }
    forall i | 0 <= i < |books| ensures books[i].id in m && m[books[i].id] == books[i] {
      ShelvedAt(books, i);
    }
  }

  lemma {:induction false} ShelvedAt(books: seq<LogicalBook>, i: nat)
    requires DistinctLogical(books) && i < |books|
    ensures books[i].id in Shelved(books) && Shelved(books)[books[i].id] == books[i]
  {
    var n := |books| - 1;
    if i < n {
      assert books[..n][i] == books[i];
      ShelvedAt(books[..n], i);
    }
  }

  lemma RestoreIndexed(
      s: Store, archive: Archive, existing: Records, snapshot: Snapshot, text: Reconciliation -> nat)
    requires Indexed(s)
    ensures Indexed(After(s, RestoreCommit(s, archive, existing, snapshot, text)))
  {
    if RestoreCommit(s, archive, existing, snapshot, text).Committed? {
      MergedKeyed(snapshot.shelf, archive.logical);
    }
  }

  // ----- helper facts -----

  lemma {:induction false} ShelvedIn(books: seq<LogicalBook>, id: LogicalBookId) returns (k: nat)
    requires id in Shelved(books)
    ensures k < |books| && books[k] == Shelved(books)[id]
  {
    var n := |books| - 1;
    if books[n].id == id {
      k := n;
    } else {
      k := ShelvedIn(books[..n], id);
    }
  }

  /** Variants listed once never collide in an index, even when an identifier is repeated. */
  lemma ShelvedAllows(books: seq<LogicalBook>, i: nat)
    requires i < |books| && ListedOnce(books)
    ensures IndexAllows(Shelved(books[..i]), books[i])
  {
    var m := Shelved(books[..i]);
    forall id, f | id in m && id != books[i].id && f in m[id].variants && f in books[i].variants
      ensures m[id].variants[f] != books[i].variants[f]
    {
      var k := ShelvedIn(books[..i], id);
      assert books[k] == books[..i][k];
    }
  }

  lemma StrippedAllKeyed(m: Shelf, affected: seq<VariantId>, now: Time)
    requires Keyed(m)
    ensures Keyed(StrippedAll(m, affected, now))
  {
  }

  lemma {:induction false} AddRowsKeyed(m: Shelf, rows: seq<Row>, records: Records, now: Time)
    requires Keyed(m) && AddRows(m, rows, records, now).Some?
    ensures Keyed(AddRows(m, rows, records, now).value)
  {
    if rows != [] {
      AddRowsKeyed(m, rows[..|rows| - 1], records, now);
    }
  }

  lemma {:induction false} MergedKeyed(m: Shelf, archived: seq<LogicalBook>)
    requires Keyed(m)
    ensures Keyed(MergedShelf(m, archived))
  {
    if archived != [] {
      MergedKeyed(m, archived[..|archived| - 1]);
    }
  }
}
