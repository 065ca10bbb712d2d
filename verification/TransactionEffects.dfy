/** What each transaction does to everything it does not say in rows: the entries of the books it
    touches, the books it leaves alone, preferences, conflicts and replies. */
module TransactionEffects {
  import opened Common
  import opened LogicalBooks
  import opened LibraryTransactions
  import opened LibraryInvariant
  import opened Reconciling

  /** Every other book is as it was. */
  ghost predicate TouchesOnly(m: Shelf, m': Shelf, ids: set<LogicalBookId>) {
    forall id | id !in ids :: (id in m' <==> id in m) && (id in m ==> m'[id] == m[id])
  }

  /** The book keeps its identifier and its catalog entry and takes the time of the change. */
  predicate SameEntry(b: LogicalBook, b': LogicalBook, now: Time) {
    b'.id == b.id && b'.catalog == b.catalog && b'.updatedAt == now
  }

  /** A book made for one publication: its catalog entry, in its one slot. */
  predicate MadeFor(b: LogicalBook, id: LogicalBookId, record: BookRecord, now: Time) {
    && b.id == id && b.catalog == record.catalog && b.updatedAt == now
    && b.variants.Keys == {record.format} && b.variants[record.format] == record.id
  }

  // ----- add -----

  ghost predicate HeldBy(m: Shelf, book: LogicalBookId, v: VariantId) {
    exists f :: HasRow(m, Row(book, f, v))
  }

  /** What the reading part of an add answers, told in rows. */
  lemma AddReplies(s: Store, book: LogicalBookId, variant: BookRecord)
    requires Valid(s)
    ensures var reply := AddRead(s, book, variant);
            && (reply.NotFound? <==> book !in s.shelf)
            && (reply.AlreadyMember? <==> HeldBy(s.shelf, book, variant.id))
            && (forall o :: reply == BelongsToOther(o) <==>
                  book in s.shelf && o != book && HeldBy(s.shelf, o, variant.id))
            && (forall w :: reply == SameFormatConflict(w) <==>
                  !Owned(s.shelf, variant.id) && HasRow(s.shelf, Row(book, variant.format, w)))
            && (forall d :: reply == Ready(d) <==>
                  && book in s.shelf && d == s.shelf[book] && !Owned(s.shelf, variant.id)
                  && forall w :: !HasRow(s.shelf, Row(book, variant.format, w)))
  {
    FindOwnerFinds(s.shelf, variant.id);
    ConsistentIsOneOwner(s.shelf, s.records);
    var owner := FindOwner(s.shelf, variant.id);
    if owner.Some? {
      assert HeldBy(s.shelf, owner.value, variant.id);
      forall o | HeldBy(s.shelf, o, variant.id) ensures o == owner.value {
        var f :| HasRow(s.shelf, Row(o, f, variant.id));
        var g :| HasRow(s.shelf, Row(owner.value, g, variant.id));
      }
    } else {
      forall o ensures !HeldBy(s.shelf, o, variant.id) {
      }
      if book in s.shelf && variant.format in s.shelf[book].variants {
        RowOf(s.shelf, book, variant.format);
      }
    }
  }

  lemma AddEffects(s: Store, destination: LogicalBook, variant: BookRecord, who: Identity)
    requires AddCommit(s, destination, variant, who).Committed?
    ensures var s' := AddCommit(s, destination, variant, who).store;
            && s'.records == s.records[variant.id := variant]
            && s'.preferences == s.preferences && s'.reconciliations == s.reconciliations
            && TouchesOnly(s.shelf, s'.shelf, {destination.id})
            && destination.id in s'.shelf && SameEntry(destination, s'.shelf[destination.id], who.createdAt)
  {
  }

  // ----- associate -----

  /** Two books can be associated exactly when they are different books with no format in common. */
  lemma AssociableBooks(m: Shelf, destination: LogicalBookId, source: LogicalBookId)
    ensures Associable(m, destination, source) <==>
              && destination in m && source in m && destination != source
              && forall f, v, w :: !(HasRow(m, Row(destination, f, v)) && HasRow(m, Row(source, f, w)))
  {
    if destination in m && source in m {
      forall f | f in m[destination].variants && f in m[source].variants
        ensures HasRow(m, Row(destination, f, m[destination].variants[f]))
        ensures HasRow(m, Row(source, f, m[source].variants[f]))
      {
      }
    }
  }

  lemma AssociateEffects(s: Store, destination: LogicalBook, source: LogicalBook, who: Identity)
    requires destination.id != source.id && AssociateCommit(s, destination, source, who).Committed?
    ensures var s' := AssociateCommit(s, destination, source, who).store;
            && s'.records == s.records && s'.reconciliations == s.reconciliations
            && s'.preferences == s.preferences - {source.id}
            && TouchesOnly(s.shelf, s'.shelf, {destination.id, source.id})
            && source.id !in s'.shelf
            && destination.id in s'.shelf && SameEntry(destination, s'.shelf[destination.id], who.createdAt)
  {
  }

  // ----- preferences that follow a change of formats -----

  /** A preference for a format that is left stays; one for a format that goes names the one left, with
      the change as its winner and only head; one that cannot be read goes. No other changes. */
  ghost predicate Follows(
      prefs: Preferences, prefs': Preferences, book: LogicalBookId, left: Format, who: Identity) {
    && (forall b | b != book :: (b in prefs' <==> b in prefs) && (b in prefs ==> prefs'[b] == prefs[b]))
    && (book in prefs' <==> book in prefs && ReadablePreference(prefs[book]))
    && (book in prefs' ==>
          if prefs[book].preferred == left then prefs'[book] == prefs[book]
          else
            && prefs'[book].book == prefs[book].book && prefs'[book].preferred == left
            && prefs'[book].winner == who.changeId && prefs'[book].heads == {who.changeId}
            && prefs'[book].updatedAt == who.createdAt)
  }

  // ----- detach -----

  /** The detached format gets the canonical identifier of its publication whenever that is free, and the
      derived one otherwise; its book is made for the publication. */
  lemma DetachEffects(
      s: Store, book: LogicalBookId, v: VariantId, derived: LogicalBookId, who: Identity)
    requires Valid(s) && DetachVariant(s, book, v, derived, who).Committed?
    ensures var s' := DetachVariant(s, book, v, derived, who).store;
            var canonical := LogicalBookId(v.digest);
            var apart := if canonical !in s.shelf then canonical else derived;
            && s'.records == s.records && s'.reconciliations == s.reconciliations
            && TouchesOnly(s.shelf, s'.shelf, {book, apart})
            && apart !in s.shelf && apart in s'.shelf && MadeFor(s'.shelf[apart], apart, s.records[v], who.createdAt)
            && book in s'.shelf && SameEntry(s.shelf[book], s'.shelf[book], who.createdAt)
            && Follows(s.preferences, s'.preferences, book, Other(s.records[v].format), who)
  {
  }

  // ----- delete -----

  /** Deleting the whole book takes every publication it held, its rows and its preference. */
  lemma DeleteBookEffects(s: Store, book: LogicalBookId, who: Identity)
    requires Valid(s)
    ensures DeleteVariants(s, book, None, who).Committed? <==> book in s.shelf
    ensures book in s.shelf ==>
              var s' := DeleteVariants(s, book, None, who).store;
              && (forall v :: v in s'.records <==> v in s.records && !HeldBy(s.shelf, book, v))
              && (forall v | v in s'.records :: s'.records[v] == s.records[v])
              && s'.shelf == s.shelf - {book} && s'.preferences == s.preferences - {book}
              && s'.reconciliations == s.reconciliations
  {
    DeleteRows(s, book, None, who);
    if book in s.shelf {
      var b := s.shelf[book];
      assert DeleteTargets(b, None) == b.variants.Values;
      forall v ensures v in b.variants.Values <==> HeldBy(s.shelf, book, v) {
        if v in b.variants.Values {
          var f :| f in b.variants && b.variants[f] == v;
          RowOf(s.shelf, book, f);
        }
      }
      assert Without(b, b.variants.Values) == map[];
    }
  }

  /** Deleting one format takes that publication and its row; the book goes with its last format. */
  lemma DeleteFormatEffects(s: Store, book: LogicalBookId, v: VariantId, who: Identity)
    requires Valid(s)
    ensures DeleteVariants(s, book, Some(v), who).Committed? <==> HeldBy(s.shelf, book, v)
    ensures HeldBy(s.shelf, book, v) ==>
              var s' := DeleteVariants(s, book, Some(v), who).store;
              && s'.records == s.records - {v} && s'.reconciliations == s.reconciliations
              && (forall r :: HasRow(s'.shelf, r) <==> HasRow(s.shelf, r) && r.variant != v)
              && TouchesOnly(s.shelf, s'.shelf, {book})
              && (book in s'.shelf <==> exists r :: HasRow(s.shelf, r) && r.book == book && r.variant != v)
              && (book in s'.shelf ==> SameEntry(s.shelf[book], s'.shelf[book], who.createdAt))
  {
    DeleteRows(s, book, Some(v), who);
    if book in s.shelf {
      HeldIsValue(s.shelf, book, v);
    }
    if HeldBy(s.shelf, book, v) {
      assert DeleteTargets(s.shelf[book], Some(v)) == {v};
      LeftOver(s, book, v, who);
    }
  }

  lemma HeldIsValue(m: Shelf, book: LogicalBookId, v: VariantId)
    requires book in m
    ensures v in m[book].variants.Values <==> HeldBy(m, book, v)
  {
    if v in m[book].variants.Values {
      var f :| f in m[book].variants && m[book].variants[f] == v;
      RowOf(m, book, f);
    }
  }

  lemma LeftOver(s: Store, book: LogicalBookId, v: VariantId, who: Identity)
    requires Valid(s) && book in s.shelf && v in s.shelf[book].variants.Values
    requires DeleteVariants(s, book, Some(v), who).Committed?
    ensures var s' := DeleteVariants(s, book, Some(v), who).store;
            && TouchesOnly(s.shelf, s'.shelf, {book})
            && (book in s'.shelf <==> exists r :: HasRow(s.shelf, r) && r.book == book && r.variant != v)
            && (book in s'.shelf ==> SameEntry(s.shelf[book], s'.shelf[book], who.createdAt))
            && s'.reconciliations == s.reconciliations
  {
    var b := s.shelf[book];
    var remaining := Without(b, {v});
    if Filled(remaining) {
      var f := FirstFormat(remaining);
      assert HasRow(s.shelf, Row(book, f, b.variants[f]));
    }
    forall r | HasRow(s.shelf, r) && r.book == book && r.variant != v ensures Filled(remaining) {
      assert r.format in remaining && (r.format == Epub || r.format == Pdf);
    }
  }

  /** What a deletion does to preferences: the one of a book that loses a format follows what is left. */
  lemma DeletePreferences(s: Store, book: LogicalBookId, v: VariantId, left: Format, who: Identity)
    requires Valid(s) && DeleteVariants(s, book, Some(v), who).Committed?
    requires exists w :: HasRow(s.shelf, Row(book, left, w)) && w != v
    ensures Follows(s.preferences, DeleteVariants(s, book, Some(v), who).store.preferences, book, left, who)
  {
    var w :| HasRow(s.shelf, Row(book, left, w)) && w != v;
    var b := s.shelf[book];
    var remaining := Without(b, {v});
    assert left in remaining && (left == Epub || left == Pdf);
    var f :| f in b.variants && b.variants[f] == v;
    assert f !in remaining && (f == Epub || f == Pdf);
    assert FirstFormat(remaining) in remaining;
  }

  // ----- preferred format -----

  lemma PreferEffects(s: Store, book: LogicalBookId, f: Format, who: Identity)
    requires SavePreference(s, book, f, who).Committed?
    ensures var s' := SavePreference(s, book, f, who).store;
            && s'.records == s.records && s'.shelf == s.shelf && s'.reconciliations == s.reconciliations
            && s'.preferences.Keys == s.preferences.Keys + {book}
            && (forall b | b in s.preferences && b != book :: s'.preferences[b] == s.preferences[b])
            && s'.preferences[book] == Preference(book, f, who.changeId, {who.changeId}, who.createdAt)
            && who.changeId in s'.outbox
            && forall p :: p in s'.outbox[who.changeId].parents <==>
                 || p in who.parents
                 || (book in s.preferences && ReadablePreference(s.preferences[book]) && p in s.preferences[book].heads)
  {
  }

  // ----- reconciliations -----

  /** A reconciliation resolves its conflict and no other, and cannot be taken again. */
  lemma ReconcileResolves(
      s: Store, conflict: ConflictId, decision: Decision, derived: LogicalBookId, who: Identity)
    requires Reconciling.ReconcileMembership(s, conflict, decision, derived, who).Committed?
    requires s.reconciliations[conflict].id == conflict
    ensures var s' := Reconciling.ReconcileMembership(s, conflict, decision, derived, who).store;
            && s'.reconciliations.Keys == s.reconciliations.Keys
            && (forall c | c in s.reconciliations && c != conflict :: s'.reconciliations[c] == s.reconciliations[c])
            && s'.reconciliations[conflict] == s.reconciliations[conflict].(status := Resolved(who.changeId))
            && (forall decision', derived', who' ::
                  Reconciling.ReconcileMembership(s', conflict, decision', derived', who') == Unchanged)
            && s'.records == s.records
  {
  }

  /** The preferences it keeps are those it cannot read and those the new shelf allows. */
  lemma ReconcilePreferences(
      s: Store, conflict: ConflictId, decision: Decision, derived: LogicalBookId, who: Identity)
    requires Reconciling.ReconcileMembership(s, conflict, decision, derived, who).Committed?
    ensures var s' := Reconciling.ReconcileMembership(s, conflict, decision, derived, who).store;
            && (forall b :: b in s'.preferences <==>
                  && b in s.preferences
                  && (ReadablePreference(s.preferences[b]) ==>
                        exists v :: HasRow(s'.shelf, Row(s.preferences[b].book, s.preferences[b].preferred, v))))
            && (forall b | b in s'.preferences :: s'.preferences[b] == s.preferences[b])
  {
    var s' := Reconciling.ReconcileMembership(s, conflict, decision, derived, who).store;
    forall b | b in s.preferences
      ensures (exists v :: HasRow(s'.shelf, Row(s.preferences[b].book, s.preferences[b].preferred, v))) <==>
                s.preferences[b].book in s'.shelf
                && s.preferences[b].preferred in s'.shelf[s.preferences[b].book].variants
    {
      var p := s.preferences[b];
      if p.book in s'.shelf && p.preferred in s'.shelf[p.book].variants {
        RowOf(s'.shelf, p.book, p.preferred);
      }
    }
  }

  /** A book that loses all its variants and is not chosen is gone; a book that keeps one, or is chosen,
      has the catalog entry it had; a new book has that of a chosen publication. */
  lemma {:induction false} AddRowsEntries(m: Shelf, rows: seq<Row>, records: Records, now: Time)
    requires AddRows(m, rows, records, now).Some?
    ensures var m' := AddRows(m, rows, records, now).value;
            && (forall id | id in m :: id in m' && m'[id].catalog == m[id].catalog)
            && (forall id | id in m' && id !in m ::
                  exists r | r in rows :: r.book == id && r.variant in records && m'[id].catalog == records[r.variant].catalog)
  {
    if rows != [] {
      var n := |rows| - 1;
      AddRowsEntries(m, rows[..n], records, now);
      assert rows == rows[..n] + [rows[n]];
      var before, m' := AddRows(m, rows[..n], records, now).value, AddRows(m, rows, records, now).value;
      forall id | id in m' && id !in m
        ensures exists r | r in rows :: r.book == id && r.variant in records && m'[id].catalog == records[r.variant].catalog
      {
        if id in before {
          var r :| r in rows[..n] && r.book == id && r.variant in records && before[id].catalog == records[r.variant].catalog;
          assert r in rows;
        } else {
          assert rows[n] in rows && rows[n].book == id;
        }
      }
    }
  }

  /** A book that keeps a variant keeps its catalog entry; any other takes that of a chosen publication. */
  lemma ReconcileEntries(
      s: Store, conflict: ConflictId, derived: LogicalBookId, decision: Decision, who: Identity)
    requires Valid(s) && (decision.MakeStandalone? ==> derived !in s.shelf)
    requires Reconciling.ReconcileMembership(s, conflict, decision, derived, who).Committed?
    ensures var s', raw := Reconciling.ReconcileMembership(s, conflict, decision, derived, who).store, s.reconciliations[conflict];
            && (forall r | HasRow(s.shelf, r) && r.variant !in raw.affected ::
                  r.book in s'.shelf && s'.shelf[r.book].catalog == s.shelf[r.book].catalog)
            && (forall id | id in s'.shelf && !KeepsVariant(s.shelf, raw.affected, id) ::
                  exists r :: Chosen(s, raw, decision, derived, r) && r.book == id
                              && r.variant in s.records && s'.shelf[id].catalog == s.records[r.variant].catalog)
  {
    var raw, now := s.reconciliations[conflict], who.createdAt;
    var selection := Select(s, raw, decision, derived, now).value;
    var stripped := StrippedAll(selection.books, raw.affected, now);
    SelectedRows(s, raw, decision, derived, now);
    StrippedEntries(s, raw, decision, derived, now);
    StrippedKeeps(s, raw, decision, derived, now);
    AddRowsEntries(stripped, selection.rows, s.records, now);
  }

  lemma StrippedKeeps(s: Store, raw: Reconciliation, decision: Decision, derived: LogicalBookId, now: Time)
    requires Valid(s) && (decision.MakeStandalone? ==> derived !in s.shelf)
    requires Select(s, raw, decision, derived, now).Some?
    ensures var stripped := StrippedAll(Select(s, raw, decision, derived, now).value.books, raw.affected, now);
            forall id | id in stripped :: KeepsVariant(s.shelf, raw.affected, id)
  {
    var base := Select(s, raw, decision, derived, now).value.books;
    var stripped := StrippedAll(base, raw.affected, now);
    BaseRows(s, raw, decision, derived, now);
    forall id | id in base ensures base[id].id == id && Filled(base[id].variants) {
      if decision.MakeStandalone? && id == StandaloneId(s, decision.variant, derived) {
        assert s.records[decision.variant].format == Epub || s.records[decision.variant].format == Pdf;
      }
    }
    StrippedShape(base, raw.affected, now);
    forall id | id in stripped ensures KeepsVariant(s.shelf, raw.affected, id) {
      RowOf(stripped, id, FirstFormat(stripped[id].variants));
    }
  }

  ghost predicate KeepsVariant(m: Shelf, affected: seq<VariantId>, id: LogicalBookId) {
    exists r :: HasRow(m, r) && r.book == id && r.variant !in affected
  }

  lemma StrippedEntries(s: Store, raw: Reconciliation, decision: Decision, derived: LogicalBookId, now: Time)
    requires Valid(s) && (decision.MakeStandalone? ==> derived !in s.shelf)
    requires Select(s, raw, decision, derived, now).Some?
    ensures var stripped := StrippedAll(Select(s, raw, decision, derived, now).value.books, raw.affected, now);
            forall r | HasRow(s.shelf, r) && r.variant !in raw.affected ::
              r.book in stripped && stripped[r.book].catalog == s.shelf[r.book].catalog
  {
    BaseRows(s, raw, decision, derived, now);
    var base := Select(s, raw, decision, derived, now).value.books;
    forall r | HasRow(s.shelf, r) ensures r.book in base && base[r.book] == s.shelf[r.book] {
    }
  }

  // ----- imports, copies, removal, replacement -----

  /** A new publication is stored as it is and takes the book of its own digest. */
  lemma StoreNewEffects(s: Store, record: BookRecord)
    requires StoreNew(s, record).Committed?
    ensures var s', canonical := StoreNew(s, record).store, LogicalBookId(record.id.digest);
            && s'.records == s.records[record.id := record]
            && TouchesOnly(s.shelf, s'.shelf, {canonical})
            && canonical in s'.shelf && MadeFor(s'.shelf[canonical], canonical, record, record.importedAt)
            && s'.preferences == s.preferences && s'.reconciliations == s.reconciliations && s'.outbox == s.outbox
  {
  }

  /** An import stores what is new and supported, gives an owner to what is stored without one, and does
      nothing else. */
  lemma ImportEffects(s: Store, record: BookRecord, supported: bool)
    requires Valid(s)
    ensures var s', canonical := After(s, ImportBook(s, record, supported)), LogicalBookId(record.id.digest);
            && (record.id !in s.records && supported ==>
                  StoreNew(s, record).Committed? && s' == StoreNew(s, record).store)
            && (record.id !in s.records && !supported ==> s' == s)
            && (record.id in s.records && Owned(s.shelf, record.id) ==> s' == s)
            && (record.id in s.records && !Owned(s.shelf, record.id) ==>
                  && s' == s.(shelf := s'.shelf) && TouchesOnly(s.shelf, s'.shelf, {canonical})
                  && canonical in s'.shelf
                  && MadeFor(s'.shelf[canonical], canonical, s.records[record.id], s.records[record.id].importedAt))
  {
    FindOwnerFinds(s.shelf, record.id);
    if record.id !in s.records {
      StoreNewRows(s, record);
    } else if !Owned(s.shelf, record.id) {
      UnownedIsAllowed(s, s.records[record.id]);
    }
  }

  lemma SyncStoreEffects(s: Store, record: BookRecord, intact: bool)
    requires Valid(s)
    ensures record.id !in s.records && intact ==>
              StoreNew(s, record).Committed? && StoreSynced(s, record, intact) == StoreNew(s, record)
    ensures record.id in s.records || !intact ==> StoreSynced(s, record, intact) == Unchanged
  {
    if record.id !in s.records {
      StoreNewRows(s, record);
    }
  }

  /** A removal touches its owner only; the preference goes with the book and stays otherwise. */
  lemma RemoveEffects(s: Store, v: VariantId, now: Time)
    requires Valid(s)
    ensures RemoveBook(s, v, now).Committed?
    ensures var s' := RemoveBook(s, v, now).store;
            && s'.reconciliations == s.reconciliations && s'.outbox == s.outbox
            && (forall id | id in s.shelf && !HeldBy(s.shelf, id, v) :: id in s'.shelf && s'.shelf[id] == s.shelf[id])
            && (forall id | id in s'.shelf && HeldBy(s.shelf, id, v) ::
                  id in s.shelf && SameEntry(s.shelf[id], s'.shelf[id], now))
            && s'.preferences == s.preferences - (s.shelf.Keys - s'.shelf.Keys)
  {
    RemoveValid(s, v, now);
    FindOwnerFinds(s.shelf, v);
    ConsistentIsOneOwner(s.shelf, s.records);
    var owner := FindOwner(s.shelf, v);
    if owner.Some? {
      var f :| HasRow(s.shelf, Row(owner.value, f, v));
      assert HeldBy(s.shelf, owner.value, v);
      RemoveFromOwner(s, owner.value, v, now);
      forall id | HeldBy(s.shelf, id, v) ensures id == owner.value {
        var g :| HasRow(s.shelf, Row(id, g, v));
      }
    } else {
      assert s.shelf.Keys - s.shelf.Keys == {};
      assert s.preferences - {} == s.preferences;
    }
  }

  lemma RemoveFromOwner(s: Store, owner: LogicalBookId, v: VariantId, now: Time)
    requires Keyed(s.shelf) && owner in s.shelf && FindOwner(s.shelf, v) == Some(owner)
    requires RemoveBook(s, v, now).Committed?
    ensures var s' := RemoveBook(s, v, now).store;
            && s'.reconciliations == s.reconciliations && s'.outbox == s.outbox
            && TouchesOnly(s.shelf, s'.shelf, {owner})
            && (owner in s'.shelf ==> SameEntry(s.shelf[owner], s'.shelf[owner], now))
            && s'.preferences == s.preferences - (s.shelf.Keys - s'.shelf.Keys)
  {
    var s' := RemoveBook(s, v, now).store;
    if owner in s'.shelf {
      assert s.shelf.Keys - s'.shelf.Keys == {};
      assert s.preferences - {} == s.preferences;
    } else {
      assert s.shelf.Keys - s'.shelf.Keys == {owner};
    }
  }

  /** A replacement puts listed books, exactly the given preferences and conflicts, and nothing else; all of
      it can be read back. */
  lemma ReplaceEffects(s: Store, books: seq<LogicalBook>, prefs: Preferences, recs: Reconciliations)
    requires ReplaceState(s, books, prefs, recs).Committed?
    ensures var s' := ReplaceState(s, books, prefs, recs).store;
            && s'.preferences == prefs && s'.reconciliations == recs
            && ReadablePreferences(s'.preferences) == s'.preferences
            && ReadableReconciliations(s'.reconciliations) == s'.reconciliations
            && s'.records == s.records && s'.outbox == s.outbox
            && (forall id | id in s'.shelf :: s'.shelf[id] in books && s'.shelf[id].id == id)
            && (forall b | b in books :: b.id in s'.shelf)
  {
    ShelvedFrom(books);
    ShelvedHas(books);
  }

  lemma {:induction false} ShelvedHas(books: seq<LogicalBook>)
    ensures forall b | b in books :: b.id in Shelved(books)
  {
    if books != [] {
      var n := |books| - 1;
      ShelvedHas(books[..n]);
      assert books == books[..n] + [books[n]];
    }
  }
}
