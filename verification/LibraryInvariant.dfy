/** Each transaction keeps membership consistent, and says exactly which rows it moves. */
module LibraryInvariant {
  import opened Common
  import opened LogicalBooks
  import opened LibraryTransactions

  // ----- what a put and a delete keep -----

  lemma PutConsistent(m: Shelf, b: LogicalBook, records: Records)
    requires Consistent(m, records) && IndexAllows(m, b) && Filled(b.variants)
    requires forall f | f in b.variants :: b.variants[f] in records && records[b.variants[f]].format == f
    ensures Consistent(m[b.id := b], records)
  {
    PutKeepsUnique(m, b);
    var m' := m[b.id := b];
    forall r | HasRow(m', r) ensures r.variant in records && records[r.variant].format == r.format {
      assert r.book != b.id ==> HasRow(m, r);
    }
  }

  lemma RemoveConsistent(m: Shelf, gone: set<LogicalBookId>, records: Records)
    requires Consistent(m, records)
    ensures Consistent(m - gone, records)
  {
  }

  lemma RecordsConsistent(m: Shelf, records: Records, records': Records)
    requires Consistent(m, records)
    requires forall r | HasRow(m, r) :: r.variant in records' && records'[r.variant].format == records[r.variant].format
    ensures Consistent(m, records')
  {
  }

  /** Under one owner, a book that only lost or gained its own variants is always writable. */
  lemma IndexAllowsOwn(m: Shelf, b: LogicalBook)
    requires Keyed(m) && OneOwner(m)
    requires forall f | f in b.variants :: forall r | HasRow(m, r) && r.variant == b.variants[f] :: r.book == b.id
    ensures IndexAllows(m, b)
  {
    forall id, f | id in m && id != b.id && f in m[id].variants && f in b.variants
      ensures m[id].variants[f] != b.variants[f]
    {
      RowOf(m, id, f);
    }
  }

  // ----- add a format -----

  lemma AddCommitValid(
      s: Store, destination: LogicalBook, variant: BookRecord, who: Identity)
    requires Valid(s)
    ensures Valid(After(s, AddCommit(s, destination, variant, who)))
  {
    if AddCommit(s, destination, variant, who).Committed? {
      var records := s.records[variant.id := variant];
      RecordsConsistent(s.shelf, s.records, records);
      var updated := WithVariant(destination, variant.format, variant.id, who.createdAt);
      forall f | f in destination.variants ensures HasRow(s.shelf, Row(destination.id, f, destination.variants[f])) {
      }
      PutConsistent(s.shelf, updated, records);
    }
  }

  /** With the slot free, as the read found it, adding a format adds one row and nothing else. The
      commit goes through exactly when the destination is as it was read and the publication is not
      stored: the unique index never has the last word. */
  lemma AddCommitRows(
      s: Store, destination: LogicalBook, variant: BookRecord, who: Identity)
    requires Valid(s) && variant.format !in destination.variants
    ensures AddCommit(s, destination, variant, who).Committed? <==>
              destination.id in s.shelf && s.shelf[destination.id] == destination && variant.id !in s.records
    ensures AddCommit(s, destination, variant, who).Committed? ==>
              forall r :: HasRow(AddCommit(s, destination, variant, who).store.shelf, r) <==>
                HasRow(s.shelf, r) || r == Row(destination.id, variant.format, variant.id)
  {
    if destination.id in s.shelf && s.shelf[destination.id] == destination && variant.id !in s.records {
      ConsistentIsOneOwner(s.shelf, s.records);
      var updated := WithVariant(destination, variant.format, variant.id, who.createdAt);
      forall f, r | f in updated.variants && HasRow(s.shelf, r) && r.variant == updated.variants[f]
        ensures r.book == updated.id
      {
        if f != variant.format {
          RowOf(s.shelf, destination.id, f);
        }
      }
      IndexAllowsOwn(s.shelf, updated);
    }
  }

  // ----- associate -----

  lemma AssociateValid(
      s: Store, destination: LogicalBook, source: LogicalBook, who: Identity)
    requires Valid(s)
    ensures Valid(After(s, AssociateCommit(s, destination, source, who)))
  {
    if AssociateCommit(s, destination, source, who).Committed? {
      RemoveConsistent(s.shelf, {source.id}, s.records);
      var updated := destination.(variants := destination.variants + source.variants, updatedAt := who.createdAt);
      forall f | f in updated.variants
        ensures updated.variants[f] in s.records && s.records[updated.variants[f]].format == f
      {
        RowOf(s.shelf, if f in source.variants then source.id else destination.id, f);
      }
      PutConsistent(s.shelf - {source.id}, updated, s.records);
    }
  }

  /** Association moves every row of the source under the destination, keeps all others, and
      commits whenever both books are as they were read. */
  lemma AssociateRows(
      s: Store, destination: LogicalBook, source: LogicalBook, who: Identity)
    requires Valid(s) && destination.id != source.id
    requires destination.variants.Keys !! source.variants.Keys
    ensures AssociateCommit(s, destination, source, who).Committed? <==>
              && destination.id in s.shelf && s.shelf[destination.id] == destination
              && source.id in s.shelf && s.shelf[source.id] == source
    ensures AssociateCommit(s, destination, source, who).Committed? ==>
              forall r :: HasRow(AssociateCommit(s, destination, source, who).store.shelf, r) <==>
                || (r.book != source.id && HasRow(s.shelf, r))
                || (r.book == destination.id && HasRow(s.shelf, r.(book := source.id)))
  {
    if && destination.id in s.shelf && s.shelf[destination.id] == destination
       && source.id in s.shelf && s.shelf[source.id] == source {
      ConsistentIsOneOwner(s.shelf, s.records);
      var updated := destination.(variants := destination.variants + source.variants, updatedAt := who.createdAt);
      MergeAllowed(s.shelf, destination, source, updated);
      MergeTwoRows(s.shelf, destination, source, updated);
    }
  }

  lemma MergeAllowed(m: Shelf, destination: LogicalBook, source: LogicalBook, updated: LogicalBook)
    requires Keyed(m) && OneOwner(m) && destination.id in m && m[destination.id] == destination
    requires source.id in m && m[source.id] == source
    requires updated.id == destination.id && updated.variants == destination.variants + source.variants
    ensures IndexAllows(m - {source.id}, updated)
  {
    var rest := m - {source.id};
    forall id, f | id in rest && id != updated.id && f in rest[id].variants && f in updated.variants
      ensures rest[id].variants[f] != updated.variants[f]
    {
      RowOf(m, id, f);
      RowOf(m, if f in source.variants then source.id else destination.id, f);
    }
  }

  lemma MergeTwoRows(m: Shelf, destination: LogicalBook, source: LogicalBook, updated: LogicalBook)
    requires destination.id in m && m[destination.id] == destination
    requires source.id in m && m[source.id] == source && source.id != destination.id
    requires destination.variants.Keys !! source.variants.Keys
    requires updated.id == destination.id && updated.variants == destination.variants + source.variants
    ensures forall r :: HasRow((m - {source.id})[updated.id := updated], r) <==>
              || (r.book != source.id && HasRow(m, r))
              || (r.book == destination.id && HasRow(m, r.(book := source.id)))
  {
  }

  // ----- detach -----

  lemma DetachValid(
      s: Store, book: LogicalBookId, v: VariantId, derived: LogicalBookId, who: Identity)
    requires Valid(s)
    ensures Valid(After(s, DetachVariant(s, book, v, derived, who)))
  {
    if DetachVariant(s, book, v, derived, who).Committed? {
      var gone := s.records[v].format;
      RowOf(s.shelf, book, Other(gone));
      var updated := s.shelf[book].(
        variants := map[Other(gone) := s.shelf[book].variants[Other(gone)]], updatedAt := who.createdAt);
      PutConsistent(s.shelf, updated, s.records);
      var detached := LogicalBookFromVariant(s.records[v], who.createdAt).(id := DetachedId(s, book, v, derived));
      PutConsistent(s.shelf[updated.id := updated], detached, s.records);
    }
  }

  /** Detaching moves one row to a book of its own. It commits exactly when the book is a
      two-format book holding the variant and the new identifier is free. */
  lemma DetachRows(
      s: Store, book: LogicalBookId, v: VariantId, derived: LogicalBookId, who: Identity)
    requires Valid(s)
    ensures DetachVariant(s, book, v, derived, who).Committed? <==>
              Detachable(s, book, v) && DetachedId(s, book, v, derived) !in s.shelf
    ensures DetachVariant(s, book, v, derived, who).Committed? ==>
              forall r :: HasRow(DetachVariant(s, book, v, derived, who).store.shelf, r) <==>
                || (HasRow(s.shelf, r) && r.variant != v)
                || r == Row(DetachedId(s, book, v, derived), s.records[v].format, v)
  {
    if Detachable(s, book, v) && DetachedId(s, book, v, derived) !in s.shelf {
      ConsistentIsOneOwner(s.shelf, s.records);
      var gone := s.records[v].format;
      RowOf(s.shelf, book, Other(gone));
      var updated := s.shelf[book].(
        variants := map[Other(gone) := s.shelf[book].variants[Other(gone)]], updatedAt := who.createdAt);
      IndexAllowsOwn(s.shelf, updated);
      var shelf := s.shelf[updated.id := updated];
      PutConsistent(s.shelf, updated, s.records);
      ConsistentIsOneOwner(shelf, s.records);
      var detached := LogicalBookFromVariant(s.records[v], who.createdAt).(id := DetachedId(s, book, v, derived));
      DropSlotRows(s.shelf, updated, gone, v);
      IndexAllowsOwn(shelf, detached);
      NewBookRows(shelf, detached, gone, v);
    }
  }

  lemma DropSlotRows(m: Shelf, updated: LogicalBook, gone: Format, v: VariantId)
    requires OneOwner(m) && HasRow(m, Row(updated.id, gone, v))
    requires Other(gone) in m[updated.id].variants
    requires updated.variants == map[Other(gone) := m[updated.id].variants[Other(gone)]]
    ensures forall r :: HasRow(m[updated.id := updated], r) <==> HasRow(m, r) && r.variant != v
  {
    var m' := m[updated.id := updated];
    var kept := Row(updated.id, Other(gone), m[updated.id].variants[Other(gone)]);
    assert HasRow(m, kept) && kept.variant != v;
    forall r ensures HasRow(m', r) <==> HasRow(m, r) && r.variant != v {
      if r.book == updated.id {
        assert HasRow(m', r) <==> r == kept;
        assert r.format == gone || r.format == Other(gone);
      }
    }
  }

  lemma NewBookRows(m: Shelf, b: LogicalBook, f: Format, v: VariantId)
    requires b.id !in m && b.variants == map[f := v]
    ensures forall r :: HasRow(m[b.id := b], r) <==> HasRow(m, r) || r == Row(b.id, f, v)
  {
    forall r ensures HasRow(m[b.id := b], r) <==> HasRow(m, r) || r == Row(b.id, f, v) {
      assert r.book == b.id ==> (HasRow(m[b.id := b], r) <==> r == Row(b.id, f, v));
    }
  }

  // ----- delete and remove -----

  lemma ShrinkValid(s: Store, book: LogicalBookId, gone: set<VariantId>, now: Time)
    requires Valid(s) && book in s.shelf
    requires forall r | HasRow(s.shelf, r) && r.variant in gone :: r.book == book
    ensures var b := s.shelf[book];
            if !Filled(Without(b, gone)) then
              Consistent(s.shelf - {book}, s.records - gone)
            else
              && IndexAllows(s.shelf, b.(variants := Without(b, gone), updatedAt := now))
              && Consistent(s.shelf[book := b.(variants := Without(b, gone), updatedAt := now)],
                            s.records - gone)
  {
    var b := s.shelf[book];
    var rest := s.shelf - {book};
    RemoveConsistent(s.shelf, {book}, s.records);
    forall r | HasRow(rest, r)
      ensures r.variant in s.records - gone && (s.records - gone)[r.variant] == s.records[r.variant]
    {
      assert HasRow(s.shelf, r);
    }
    RecordsConsistent(rest, s.records, s.records - gone);
    if Filled(Without(b, gone)) {
      ConsistentIsOneOwner(s.shelf, s.records);
      var updated := b.(variants := Without(b, gone), updatedAt := now);
      forall f | f in updated.variants ensures HasRow(s.shelf, Row(book, f, updated.variants[f])) {
      }
      IndexAllowsOwn(s.shelf, updated);
      assert IndexAllows(rest, updated);
      PutConsistent(rest, updated, s.records - gone);
      assert rest[book := updated] == s.shelf[book := updated];
    }
  }

  lemma DeleteTargetsOwned(s: Store, book: LogicalBookId, target: Option<VariantId>)
    requires Valid(s) && book in s.shelf
    requires DeleteTargets(s.shelf[book], target) <= s.shelf[book].variants.Values
    ensures forall r | HasRow(s.shelf, r) && r.variant in DeleteTargets(s.shelf[book], target) :: r.book == book
  {
    ConsistentIsOneOwner(s.shelf, s.records);
    forall r | HasRow(s.shelf, r) && r.variant in DeleteTargets(s.shelf[book], target)
      ensures r.book == book
    {
      var f :| f in s.shelf[book].variants && s.shelf[book].variants[f] == r.variant;
      RowOf(s.shelf, book, f);
    }
  }

  lemma DeleteValid(
      s: Store, book: LogicalBookId, target: Option<VariantId>, who: Identity)
    requires Valid(s)
    ensures Valid(After(s, DeleteVariants(s, book, target, who)))
  {
    if DeleteVariants(s, book, target, who).Committed? {
      DeleteTargetsOwned(s, book, target);
      ShrinkValid(s, book, DeleteTargets(s.shelf[book], target), who.createdAt);
    }
  }

  lemma ShrinkRows(m: Shelf, book: LogicalBookId, gone: set<VariantId>, now: Time, m': Shelf)
    requires book in m
    requires forall r | HasRow(m, r) && r.variant in gone :: r.book == book
    requires m' == if Filled(Without(m[book], gone))
                   then m[book := m[book].(variants := Without(m[book], gone), updatedAt := now)]
                   else m - {book}
    ensures forall r :: HasRow(m', r) <==> HasRow(m, r) && r.variant !in gone
  {
    forall r ensures HasRow(m', r) <==> HasRow(m, r) && r.variant !in gone {
      if r.book == book {
        var left := Without(m[book], gone);
        assert r.format == Epub || r.format == Pdf;
        assert r.format in left <==> r.format in m[book].variants && m[book].variants[r.format] !in gone;
      }
    }
  }

  /** Deleting removes exactly the rows and the stored publications of its targets. */
  lemma DeleteRows(
      s: Store, book: LogicalBookId, target: Option<VariantId>, who: Identity)
    requires Valid(s)
    ensures DeleteVariants(s, book, target, who).Committed? <==>
              book in s.shelf && DeleteTargets(s.shelf[book], target) <= s.shelf[book].variants.Values
    ensures DeleteVariants(s, book, target, who).Committed? ==>
              var s' := DeleteVariants(s, book, target, who).store;
              && s'.records == s.records - DeleteTargets(s.shelf[book], target)
              && forall r :: HasRow(s'.shelf, r) <==>
                   HasRow(s.shelf, r) && r.variant !in DeleteTargets(s.shelf[book], target)
  {
    if book in s.shelf && DeleteTargets(s.shelf[book], target) <= s.shelf[book].variants.Values {
      DeleteTargetsOwned(s, book, target);
      var gone := DeleteTargets(s.shelf[book], target);
      ShrinkValid(s, book, gone, who.createdAt);
      ShrinkRows(s.shelf, book, gone, who.createdAt, DeleteVariants(s, book, target, who).store.shelf);
    }
  }

  lemma RemoveValid(s: Store, v: VariantId, now: Time)
    requires Valid(s)
    ensures RemoveBook(s, v, now).Committed?
    ensures var s' := RemoveBook(s, v, now).store;
            && Valid(s')
            && s'.records == s.records - {v}
            && forall r :: HasRow(s'.shelf, r) <==> HasRow(s.shelf, r) && r.variant != v
  {
    FindOwnerFinds(s.shelf, v);
    var owner := FindOwner(s.shelf, v);
    if owner.None? {
      RecordsConsistent(s.shelf, s.records, s.records - {v});
    } else {
      var f :| HasRow(s.shelf, Row(owner.value, f, v));
      ConsistentIsOneOwner(s.shelf, s.records);
      ShrinkValid(s, owner.value, {v}, now);
      ShrinkRows(s.shelf, owner.value, {v}, now, RemoveBook(s, v, now).store.shelf);
    }
  }

  // ----- import and synchronized copies -----

  lemma StoreNewValid(s: Store, record: BookRecord)
    requires Valid(s) && record.id !in s.records
    ensures Valid(After(s, StoreNew(s, record)))
  {
    if StoreNew(s, record).Committed? {
      var records := s.records[record.id := record];
      RecordsConsistent(s.shelf, s.records, records);
      assert record.format == Epub || record.format == Pdf;
      PutConsistent(s.shelf, LogicalBookFromVariant(record, record.importedAt), records);
    }
  }

  lemma ImportValid(s: Store, record: BookRecord, supported: bool)
    requires Valid(s)
    ensures Valid(After(s, ImportBook(s, record, supported)))
  {
    if record.id in s.records {
      if ImportBook(s, record, supported).Committed? {
        var existing := s.records[record.id];
        assert existing.format == Epub || existing.format == Pdf;
        PutConsistent(s.shelf, LogicalBookFromVariant(existing, existing.importedAt), s.records);
      }
    } else {
      StoreNewValid(s, record);
    }
  }

  /** A publication that is not stored yet always goes in. It takes over its canonical book: the rows
      that book had are replaced by the new one, all others stay. */
  lemma StoreNewRows(s: Store, record: BookRecord)
    requires Valid(s) && record.id !in s.records
    ensures StoreNew(s, record).Committed?
    ensures var canonical := SingletonLogicalBookId(record.id);
            forall r :: HasRow(StoreNew(s, record).store.shelf, r) <==>
              (HasRow(s.shelf, r) && r.book != canonical) || r == Row(canonical, record.format, record.id)
  {
    var b := LogicalBookFromVariant(record, record.importedAt);
    ConsistentIsOneOwner(s.shelf, s.records);
    IndexAllowsOwn(s.shelf, b);
    forall r ensures HasRow(s.shelf[b.id := b], r) <==>
        (HasRow(s.shelf, r) && r.book != b.id) || r == Row(b.id, record.format, record.id) {
      if r.book == b.id {
        assert HasRow(s.shelf[b.id := b], r) <==> r == Row(b.id, record.format, record.id);
      }
    }
  }

  lemma UnownedIsAllowed(s: Store, record: BookRecord)
    requires Valid(s) && !Owned(s.shelf, record.id)
    ensures IndexAllows(s.shelf, LogicalBookFromVariant(record, record.importedAt))
  {
    ConsistentIsOneOwner(s.shelf, s.records);
    IndexAllowsOwn(s.shelf, LogicalBookFromVariant(record, record.importedAt));
  }

  /** Whatever was there before, a publication that is stored already or has a supported format is
      stored and owned after its import. */
  lemma ImportOwns(s: Store, record: BookRecord, supported: bool)
    requires Valid(s) && (record.id in s.records || supported)
    ensures var s' := After(s, ImportBook(s, record, supported));
            record.id in s'.records && Owned(s'.shelf, record.id)
  {
    FindOwnerFinds(s.shelf, record.id);
    var canonical := SingletonLogicalBookId(record.id);
    if record.id !in s.records {
      StoreNewRows(s, record);
      assert HasRow(StoreNew(s, record).store.shelf, Row(canonical, record.format, record.id));
    } else if !Owned(s.shelf, record.id) {
      var existing := s.records[record.id];
      UnownedIsAllowed(s, existing);
      var b := LogicalBookFromVariant(existing, existing.importedAt);
      assert HasRow(s.shelf[b.id := b], Row(canonical, existing.format, record.id));
    }
  }

  // ----- synchronized replacement -----

  lemma {:induction false} ShelvedFrom(books: seq<LogicalBook>)
    ensures Keyed(Shelved(books))
    ensures forall id | id in Shelved(books) :: Shelved(books)[id] in books
  {
    if books != [] {
      ShelvedFrom(books[..|books| - 1]);
    }
  }

  lemma ReplaceValid(
      s: Store, books: seq<LogicalBook>, prefs: Preferences,
      recs: Reconciliations)
    requires Valid(s)
    ensures Valid(After(s, ReplaceState(s, books, prefs, recs)))
  {
    if ReplaceState(s, books, prefs, recs).Committed? {
      ShelvedFrom(books);
      var m := Shelved(books);
      assert OneOwner(m) by {
        forall r, r' | HasRow(m, r) && HasRow(m, r') && r.variant == r'.variant ensures r == r' {
          var i :| 0 <= i < |books| && books[i] == m[r.book];
          var j :| 0 <= j < |books| && books[j] == m[r'.book];
          assert i == j && r.format == r'.format;
        }
      }
      OneOwnerIsUnique(m);
      forall r | HasRow(m, r) ensures r.variant in s.records && s.records[r.variant].format == r.format {
        var i :| 0 <= i < |books| && books[i] == m[r.book];
      }
    }
  }
}
