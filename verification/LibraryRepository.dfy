/** The library repository as the object it is: five object stores that its transactions update in
    place. Each method is proved to do what its transaction says and to leave every store as it was
    when it refuses or aborts. */
module LibraryRepository {
  import opened Common
  import opened LogicalBooks
  import opened LibraryTransactions
  import opened Reconciling
  import opened LibraryBackup
  import opened LibraryRestore
  import opened LibraryIndexes
  import Outbox

  class Repository {
    var records: Records
    var shelf: Shelf
    var preferences: Preferences
    var reconciliations: Reconciliations
    var outbox: map<ChangeId, Change>

    /** What the database itself guarantees: books stored under their key, unique indexes. */
    ghost predicate Valid()
      reads this
    {
      Indexed(State())
    }

    function State(): Store
      reads this
    {
      Store(records, shelf, preferences, reconciliations, outbox)
    }

    constructor ()
      ensures State() == Store(map[], map[], map[], map[], map[]) && Valid()
    {
      records, shelf, preferences, reconciliations, outbox := map[], map[], map[], map[], map[];
    }

    // ----- the database -----

    /** Aborting a transaction undoes its writes. */
    method Abort(before: Store)
      modifies this
      ensures State() == before
    {
      records, shelf, preferences := before.records, before.shelf, before.preferences;
      reconciliations, outbox := before.reconciliations, before.outbox;
    }

    method PutBook(b: LogicalBook) returns (ok: bool)
      modifies `shelf
      ensures ok <==> IndexAllows(old(shelf), b)
      ensures shelf == if ok then old(shelf)[b.id := b] else old(shelf)
    {
      ok := IndexAllows(shelf, b);
      if ok {
        shelf := shelf[b.id := b];
      }
    }

    method PutThenAddBook(updated: LogicalBook, added: LogicalBook) returns (ok: bool)
      modifies `shelf
      ensures ok <==> PutThenAdd(old(shelf), updated, added).Some?
      ensures ok ==> PutThenAdd(old(shelf), updated, added) == Some(shelf)
    {
      ok := PutBook(updated);
      if !ok { return; }
      if added.id in shelf { return false; }
      ok := PutBook(added);
    }

    /** Clears the logical books and puts `m` back, book by book, in whatever order. */
    method RewriteShelf(m: Shelf) returns (ok: bool)
      requires Keyed(m)
      modifies `shelf
      ensures ok <==> UniqueIndexes(m)
      ensures ok ==> shelf == m
    {
      shelf := map[];
      var todo := m.Keys;
      while todo != {}
        invariant todo <= m.Keys && shelf == map id | id in m && id !in todo :: m[id]
        invariant Keyed(shelf) && UniqueIndexes(shelf)
        decreases todo
      {
        var id :| id in todo;
        ghost var before := shelf;
        var allowed := PutBook(m[id]);
        if !allowed {
          assert !IndexAllows(m, m[id]);
          return false;
        }
        PutKeepsUnique(before, m[id]);
        todo := todo - {id};
      }
      assert shelf == m;
      return true;
    }

    /** The EPUB index, then the PDF index. */
    method FindLogicalBookByVariant(v: VariantId) returns (owner: Option<LogicalBookId>)
      requires Valid()
      ensures owner == FindOwner(shelf, v)
    {
      owner := LookUp(Epub, v);
      if owner.None? {
        owner := LookUp(Pdf, v);
      }
    }

    method LookUp(f: Format, v: VariantId) returns (owner: Option<LogicalBookId>)
      requires Valid()
      ensures owner == IndexLookup(shelf, f, v)
    {
      var todo := shelf.Keys;
      while todo != {}
        invariant todo <= shelf.Keys
        invariant forall id | HasRow(shelf, Row(id, f, v)) :: id in todo
        decreases todo
      {
        var id :| id in todo;
        if f in shelf[id].variants && shelf[id].variants[f] == v {
          assert HasRow(shelf, Row(id, f, v));
          assert IndexAllows(shelf, shelf[id]);
          return Some(id);
        }
        todo := todo - {id};
      }
      return None;
    }

    // ----- mutations -----

    method ReadForAdd(book: LogicalBookId, variant: BookRecord) returns (reply: AddReply)
      requires Valid()
      ensures reply == AddRead(State(), book, variant)
    {
      if book !in shelf { return NotFound; }
      var owner := FindLogicalBookByVariant(variant.id);
      if owner == Some(book) { return AlreadyMember; }
      if owner.Some? { return BelongsToOther(owner.value); }
      var destination := shelf[book];
      if variant.format in destination.variants {
        return SameFormatConflict(destination.variants[variant.format]);
      }
      return Ready(destination);
    }

    method CommitAdd(destination: LogicalBook, variant: BookRecord, who: Identity)
      requires Valid()
      modifies this
      ensures Valid()
      ensures State() == After(old(State()), AddCommit(old(State()), destination, variant, who))
    {
      var before := State();
      AddIndexed(before, destination, variant, who);
      if destination.id !in shelf || shelf[destination.id] != destination { return; }
      if variant.id in records { return; }
      records := records[variant.id := variant];
      var updated := WithVariant(destination, variant.format, variant.id, who.createdAt);
      var ok := PutBook(updated);
      if !ok { Abort(before); return; }
      outbox := outbox[who.changeId := LogicalChange(AddVariant, who, map[updated.id := updated], {})];
    }

    method CommitAssociate(destination: LogicalBook, source: LogicalBook, who: Identity)
      requires Valid()
      modifies this
      ensures Valid()
      ensures State() == After(old(State()), AssociateCommit(old(State()), destination, source, who))
    {
      var before := State();
      AssociateIndexed(before, destination, source, who);
      if destination.id !in shelf || shelf[destination.id] != destination { return; }
      if source.id !in shelf || shelf[source.id] != source { return; }
      shelf := shelf - {source.id};
      var updated := destination.(variants := destination.variants + source.variants, updatedAt := who.createdAt);
      var ok := PutBook(updated);
      if !ok { Abort(before); return; }
      preferences := preferences - {source.id};
      outbox := outbox[who.changeId := LogicalChange(Associate, who, map[updated.id := updated], {source.id})];
    }

    method Detach(book: LogicalBookId, v: VariantId, derived: LogicalBookId, who: Identity)
      requires Valid()
      modifies this
      ensures Valid()
      ensures State() == After(old(State()), DetachVariant(old(State()), book, v, derived, who))
    {
      DetachIndexed(State(), book, v, derived, who);
      DetachTransaction(book, v, derived, who);
    }

    method DetachTransaction(book: LogicalBookId, v: VariantId, derived: LogicalBookId, who: Identity)
      modifies this
      ensures State() == After(old(State()), DetachVariant(old(State()), book, v, derived, who))
    {
      var before := State();
      if book !in shelf || v !in records { return; }
      var logicalBook, variant := shelf[book], records[v];
      if Epub !in logicalBook.variants || Pdf !in logicalBook.variants { return; }
      assert variant.format == Epub || variant.format == Pdf;
      if logicalBook.variants[variant.format] != v { return; }
      var remaining := Other(variant.format);
      var canonical := SingletonLogicalBookId(v);
      var detachedId := if canonical != book && canonical !in shelf then canonical else derived;
      var updated := logicalBook.(variants := map[remaining := logicalBook.variants[remaining]],
                                  updatedAt := who.createdAt);
      var detached := LogicalBookFromVariant(variant, who.createdAt).(id := detachedId);
      var ok := PutThenAddBook(updated, detached);
      if !ok { Abort(before); return; }
      RepointPreference(book, remaining, who);
      outbox := outbox[who.changeId :=
        LogicalChange(LogicalBooks.Detach, who, map[updated.id := updated, detached.id := detached], {})];
    }

    /** Reading a preference moves one that fails validation to the quarantine. */
    method ReadFormatPreference(book: LogicalBookId) returns (preference: Option<Preference>)
      modifies `preferences
      ensures preferences == Checked(old(preferences), book)
      ensures preference == if book in preferences then Some(preferences[book]) else None
      ensures book in ReadablePreferences(old(preferences)) <==> preference.Some?
    {
      if book !in preferences { return None; }
      if !ReadablePreference(preferences[book]) {
        preferences := preferences - {book};
        return None;
      }
      return Some(preferences[book]);
    }

    method RepointPreference(book: LogicalBookId, left: Format, who: Identity)
      modifies `preferences
      ensures preferences == Repointed(old(preferences), book, left, who)
    {
      var preference := ReadFormatPreference(book);
      if preference.Some? && preference.value.preferred != left {
        preferences := preferences[book := Repoint(preference.value, left, who)];
      }
    }

    method Delete(book: LogicalBookId, target: Option<VariantId>, who: Identity)
      requires Valid()
      modifies this
      ensures Valid()
      ensures State() == After(old(State()), DeleteVariants(old(State()), book, target, who))
    {
      DeleteIndexed(State(), book, target, who);
      DeleteTransaction(book, target, who);
    }

    method DeleteTransaction(book: LogicalBookId, target: Option<VariantId>, who: Identity)
      modifies this
      ensures State() == After(old(State()), DeleteVariants(old(State()), book, target, who))
    {
      var before := State();
      if book !in shelf { return; }
      var logicalBook := shelf[book];
      var members := logicalBook.variants.Values;
      var targets := if target.None? then members else {target.value};
      if exists t | t in targets :: t !in members { return; }
      var remaining := map f | f in logicalBook.variants && logicalBook.variants[f] !in targets ::
                         logicalBook.variants[f];
      records := records - targets;
      if Epub in remaining || Pdf in remaining {
        var updated := logicalBook.(variants := remaining, updatedAt := who.createdAt);
        var ok := PutBook(updated);
        if !ok { Abort(before); return; }
        RepointPreference(book, if Epub in remaining then Epub else Pdf, who);
        outbox := outbox[who.changeId := LogicalChange(DeleteVariant, who, map[updated.id := updated], {})];
      } else {
        shelf := shelf - {book};
        preferences := preferences - {book};
        outbox := outbox[who.changeId := LogicalChange(DeleteBook, who, map[], {book})];
      }
    }

    method SaveFormatPreference(book: LogicalBookId, f: Format, who: Identity)
      requires Valid()
      modifies this
      ensures Valid()
      ensures State() == After(old(State()), SavePreference(old(State()), book, f, who))
    {
      if book !in shelf || f !in shelf[book].variants { return; }
      var current := ReadFormatPreference(book);
      if current.Some? && current.value.preferred == f { return; }
      CheckedThenPut(old(preferences), book, Preference(book, f, who.changeId, {who.changeId}, who.createdAt));
      var heads := if current.Some? then current.value.heads else {};
      var parents := (set p | p in who.parents) + heads;
      preferences := preferences[book := Preference(book, f, who.changeId, {who.changeId}, who.createdAt)];
      outbox := outbox[who.changeId :=
        LogicalChange(PreferFormat, who, map[], {}).(parents := multiset(parents))];
    }

    method SelectRows(raw: Reconciliation, decision: Decision, derived: LogicalBookId, now: Time)
      returns (selection: Option<Selection>)
      requires Valid()
      ensures selection == Select(State(), raw, decision, derived, now)
      ensures selection.Some? ==> Keyed(selection.value.books)
    {
      if decision.KeepAccepted? {
        return Some(Selection(raw.accepted, shelf));
      }
      if decision.AcceptRejected? {
        var selected := RowsOf(raw.rejected, decision.book);
        if selected == [] { return None; }
        return Some(Selection(selected, shelf));
      }
      if decision.variant !in records || decision.variant !in raw.affected { return None; }
      var variant := records[decision.variant];
      var canonical := SingletonLogicalBookId(decision.variant);
      var id := if canonical in shelf then derived else canonical;
      return Some(Selection(
        RowsExcept(raw.accepted, decision.variant) + [Row(id, variant.format, decision.variant)],
        shelf[id := LogicalBookFromVariant(variant, now).(id := id)]));
    }

    method ReconcileShelf(raw: Reconciliation, decision: Decision, derived: LogicalBookId, now: Time)
      returns (after: Option<Shelf>)
      requires Valid()
      ensures after == Reconciled(State(), raw, decision, derived, now)
      ensures after.Some? ==> Keyed(after.value)
    {
      var selection := SelectRows(raw, decision, derived, now);
      if selection.None? { return None; }
      var books := StripAffected(selection.value.books, raw.affected, now);
      StrippedAllKeyed(selection.value.books, raw.affected, now);
      after := PutSelected(books, selection.value.rows, records, now);
      if after.Some? {
        AddRowsKeyed(books, selection.value.rows, records, now);
      }
    }

    method Reconcile(conflict: ConflictId, decision: Decision, derived: LogicalBookId, who: Identity)
      requires Valid()
      modifies this
      ensures Valid()
      ensures State() == After(old(State()),
                Reconciling.ReconcileMembership(old(State()), conflict, decision, derived, who))
    {
      var before := State();
      ReconcileIndexed(before, conflict, decision, derived, who);
      if conflict !in reconciliations { return; }
      if !ReadableReconciliation(reconciliations[conflict]) || !reconciliations[conflict].status.Open? { return; }
      var raw := reconciliations[conflict];
      var after := ReconcileShelf(raw, decision, derived, who.createdAt);
      if after.None? { return; }
      WriteReconciled(raw, after.value, who);
    }

    method WriteReconciled(raw: Reconciliation, after: Shelf, who: Identity)
      requires Keyed(after)
      modifies this
      ensures State() == After(old(State()), ReconcileCommit(old(State()), raw, after, who))
    {
      var before := State();
      var removed := shelf.Keys - after.Keys;
      var ok := RewriteShelf(after);
      if !ok { Abort(before); return; }
      reconciliations := reconciliations[raw.id := raw.(status := Resolved(who.changeId))];
      preferences := KeptPreferences(preferences, after);
      outbox := outbox[who.changeId := LogicalChange(LogicalBooks.ReconcileMembership, who, after, removed)];
    }

    // ----- imports, synchronized copies, removal -----

    method ImportPublication(record: BookRecord, supported: bool)
      requires Valid()
      modifies this
      ensures Valid()
      ensures State() == After(old(State()), ImportBook(old(State()), record, supported))
    {
      ImportIndexed(State(), record, supported);
      if record.id in records {
        var owner := FindLogicalBookByVariant(record.id);
        if owner.None? {
          var existing := records[record.id];
          var _ := PutBook(LogicalBookFromVariant(existing, existing.importedAt));
        }
        return;
      }
      if !supported { return; }
      StorePublication(record);
    }

    method StorePublication(record: BookRecord)
      requires Valid()
      modifies this
      ensures Valid()
      ensures State() == After(old(State()), StoreNew(old(State()), record))
    {
      var before := State();
      StoreNewIndexed(before, record);
      records := records[record.id := record];
      var ok := PutBook(LogicalBookFromVariant(record, record.importedAt));
      if !ok { Abort(before); }
    }

    method StoreSyncedBook(record: BookRecord, intact: bool)
      requires Valid()
      modifies this
      ensures Valid()
      ensures State() == After(old(State()), StoreSynced(old(State()), record, intact))
    {
      if record.id in records || !intact { return; }
      StorePublication(record);
    }

    method RemovePublication(v: VariantId, now: Time)
      requires Valid()
      modifies this
      ensures Valid()
      ensures State() == After(old(State()), RemoveBook(old(State()), v, now))
    {
      RemoveIndexed(State(), v, now);
      RemoveTransaction(v, now);
    }

    method RemoveTransaction(v: VariantId, now: Time)
      requires Valid()
      modifies this
      ensures State() == After(old(State()), RemoveBook(old(State()), v, now))
    {
      var owner := FindLogicalBookByVariant(v);
      FindOwnerFinds(shelf, v);
      records := records - {v};
      if owner.None? { return; }
      var b := shelf[owner.value];
      var remaining := b.variants;
      if Epub in remaining && remaining[Epub] == v { remaining := remaining - {Epub}; }
      if Pdf in remaining && remaining[Pdf] == v { remaining := remaining - {Pdf}; }
      assert remaining == Without(b, {v}) by {
        forall f ensures f in remaining <==> f in Without(b, {v}) {
          assert f == Epub || f == Pdf;
        }
      }
      if Epub in remaining || Pdf in remaining {
        var _ := PutBook(b.(variants := remaining, updatedAt := now));
      } else {
        shelf := shelf - {owner.value};
        preferences := preferences - {owner.value};
      }
    }

    // ----- whole-state writes -----

    /** The loops over the received books: each variant once, stored, and of the slot's format. */
    method CheckMembership(books: seq<LogicalBook>) returns (ok: bool)
      requires forall i | 0 <= i < |books| :: WellFormedBook(books[i])
      ensures ok <==> ListedOnce(books) && ListedStored(books, records)
    {
      var variants: set<VariantId> := {};
      for i := 0 to |books|
        invariant ListedOnce(books[..i]) && ListedStored(books[..i], records)
        invariant variants == VariantsIn(books[..i])
      {
        var next := ClaimVariants(books[i], FormatsOf(records), variants);
        if next.None? {
          ghost var f :| f in books[i].variants
                         && !(SlotBacked(FormatsOf(records), books[i], f) && books[i].variants[f] !in variants);
          if books[i].variants[f] in variants {
            ghost var k, g :| 0 <= k < i && g in books[..i][k].variants
                              && books[..i][k].variants[g] == books[i].variants[f];
            assert books[k].variants[g] == books[i].variants[f] && k != i;
          }
          return false;
        }
        ListOneMore(books, i);
        ListOneMoreStored(books, records, i);
        VariantsInNext(books, i);
        variants := next.value;
      }
      assert books[..|books|] == books;
      return true;
    }

    method ReplaceLogicalBookState(books: seq<LogicalBook>, prefs: Preferences, recs: Reconciliations)
      requires Valid()
      modifies this
      ensures Valid()
      ensures State() == After(old(State()), ReplaceState(old(State()), books, prefs, recs))
    {
      ReplaceIndexed(State(), books, prefs, recs);
      ReplaceTransaction(books, prefs, recs);
    }

    method ReplaceTransaction(books: seq<LogicalBook>, prefs: Preferences, recs: Reconciliations)
      modifies this
      ensures State() == After(old(State()), ReplaceState(old(State()), books, prefs, recs))
    {
      if !Replaceable(books, prefs, recs) { return; }
      var ok := CheckMembership(books);
      if !ok { return; }
      shelf := map[];
      for i := 0 to |books|
        invariant shelf == Shelved(books[..i])
        invariant records == old(records) && outbox == old(outbox)
      {
        ShelvedAllows(books, i);
        var allowed := PutBook(books[i]);
        assert books[..i + 1][..i] == books[..i];
      }
      assert books[..|books|] == books;
      preferences := prefs;
      reconciliations := recs;
    }

    method PutPublications(existing: Records, books: seq<BookRecord>)
      modifies `records
      ensures records == old(records) + Publications(existing, books)
    {
      for i := 0 to |books|
        invariant records == old(records) + Publications(existing, books[..i])
      {
        var record := books[i];
        records := records[record.id := RestoredBook(existing, record)];
        assert books[..i + 1][..i] == books[..i];
      }
      assert books[..|books|] == books;
    }

    /** The restore's commit: compare the revision, put the publications, rewrite the logical state. */
    method RestoreAtomically(archive: Archive, existing: Records, snapshot: Snapshot, text: Reconciliation -> nat)
      requires Valid()
      modifies this
      ensures Valid()
      ensures State() == After(old(State()), RestoreCommit(old(State()), archive, existing, snapshot, text))
    {
      var before := State();
      RestoreIndexed(before, archive, existing, snapshot, text);
      var books := MergeLogicalBooks(snapshot.shelf, archive.logical);
      var prefs := MergeLogicalPreferences(snapshot.preferences, archive.preferences);
      var recs := MergeReconciliations(snapshot.reconciliations, archive.reconciliations, text);
      if SnapshotOf(State()) != snapshot { return; }
      PutPublications(existing, archive.books);
      MergedKeyed(snapshot.shelf, archive.logical);
      var ok := RewriteShelf(books);
      if !ok { Abort(before); return; }
      preferences := prefs;
      reconciliations := recs;
    }

    /** Reading the outbox moves the unreadable changes out of it. */
    method ListPendingChanges() returns (listed: seq<Change>)
      requires forall id | id in outbox :: outbox[id].id == id
      modifies `outbox
      ensures Outbox.Ordered(listed)
      ensures forall c :: c in listed <==> Outbox.Stored(old(outbox), c) && Outbox.Readable(c)
      ensures forall c :: Outbox.Stored(outbox, c) <==> c in listed
    {
      var quarantined;
      listed, quarantined := Outbox.ListPending(outbox);
      var gone := set c | c in quarantined :: c.id;
      forall c ensures Outbox.Stored(outbox - gone, c) <==> c in listed {
        if Outbox.Stored(outbox, c) && !Outbox.Readable(c) {
          assert c in quarantined;
        }
      }
      outbox := outbox - gone;
    }
  }

  // ----- helper facts -----

  function FormatsOf(records: Records): map<VariantId, Format> {
    map v | v in records :: records[v].format
  }

  lemma CheckedThenPut(prefs: Preferences, book: LogicalBookId, p: Preference)
    ensures Checked(prefs, book)[book := p] == prefs[book := p]
  {
  }

  lemma ListOneMoreStored(books: seq<LogicalBook>, records: Records, i: nat)
    requires i < |books| && ListedStored(books[..i], records)
    requires forall f | f in books[i].variants :: SlotBacked(FormatsOf(records), books[i], f)
    ensures ListedStored(books[..i + 1], records)
  {
    var l := books[..i + 1];
    forall a, f | 0 <= a < |l| && f in l[a].variants
      ensures l[a].variants[f] in records && records[l[a].variants[f]].format == f
    {
      if a < i { assert l[a] == books[..i][a]; } else { assert SlotBacked(FormatsOf(records), books[i], f); }
    }
  }
}
