/** Stored publications keep an owner: which steps keep this promise, and exactly when the others do. */
module PublicationOwners {
  import opened Common
  import opened LogicalBooks
  import opened LibraryTransactions
  import opened LibraryInvariant
  import opened Reconciling
  import opened LibraryBackup
  import opened LibraryRestore
  import opened LibraryRuns

  /** Every stored publication has an owner. */
  ghost predicate AllOwned(s: Store) {
    forall v | v in s.records :: Owned(s.shelf, v)
  }

  lemma OwnedByRow(m: Shelf, r: Row)
    requires HasRow(m, r)
    ensures Owned(m, r.variant)
  {
  }

  lemma AddKeepsOwners(s: Store, p: Pending)
    requires Valid(s) && AllOwned(s) && p.PendingAdd? && PendingValid(p)
    ensures AllOwned(After(s, AddCommit(s, p.destination, p.variant, p.who)))
  {
    AddCommitRows(s, p.destination, p.variant, p.who);
    var o := AddCommit(s, p.destination, p.variant, p.who);
    if o.Committed? {
      forall v | v in o.store.records ensures Owned(o.store.shelf, v) {
        if v == p.variant.id {
          OwnedByRow(o.store.shelf, Row(p.destination.id, p.variant.format, v));
        } else {
          var r: Row :| HasRow(s.shelf, r) && r.variant == v;
          OwnedByRow(o.store.shelf, r);
        }
      }
    }
  }

  lemma AssociateKeepsOwners(s: Store, p: Pending)
    requires Valid(s) && AllOwned(s) && p.PendingAssociate? && PendingValid(p)
    ensures AllOwned(After(s, AssociateCommit(s, p.destination, p.source, p.who)))
  {
    AssociateRows(s, p.destination, p.source, p.who);
    var o := AssociateCommit(s, p.destination, p.source, p.who);
    if o.Committed? {
      forall v | v in o.store.records ensures Owned(o.store.shelf, v) {
        var r: Row :| HasRow(s.shelf, r) && r.variant == v;
        if r.book == p.source.id {
          var moved := r.(book := p.destination.id);
          assert moved.(book := p.source.id) == r;
          OwnedByRow(o.store.shelf, moved);
        } else {
          OwnedByRow(o.store.shelf, r);
        }
      }
    }
  }

  lemma DetachKeepsOwners(
      s: Store, book: LogicalBookId, v: VariantId, derived: LogicalBookId, who: Identity)
    requires Valid(s) && AllOwned(s)
    ensures AllOwned(After(s, DetachVariant(s, book, v, derived, who)))
  {
    DetachRows(s, book, v, derived, who);
    var o := DetachVariant(s, book, v, derived, who);
    if o.Committed? {
      forall w | w in o.store.records ensures Owned(o.store.shelf, w) {
        var r: Row :| HasRow(s.shelf, r) && r.variant == w;
        OwnedByRow(o.store.shelf, if w == v then Row(DetachedId(s, book, v, derived), s.records[v].format, v) else r);
      }
    }
  }

  lemma DeleteKeepsOwners(
      s: Store, book: LogicalBookId, target: Option<VariantId>, who: Identity)
    requires Valid(s) && AllOwned(s)
    ensures AllOwned(After(s, DeleteVariants(s, book, target, who)))
  {
    DeleteRows(s, book, target, who);
    var o := DeleteVariants(s, book, target, who);
    if o.Committed? {
      forall v | v in o.store.records ensures Owned(o.store.shelf, v) {
        var r: Row :| HasRow(s.shelf, r) && r.variant == v;
        OwnedByRow(o.store.shelf, r);
      }
    }
  }

  lemma RemoveKeepsOwners(s: Store, v: VariantId, now: Time)
    requires Valid(s) && AllOwned(s)
    ensures AllOwned(After(s, RemoveBook(s, v, now)))
  {
    RemoveValid(s, v, now);
    var s' := RemoveBook(s, v, now).store;
    forall w | w in s'.records ensures Owned(s'.shelf, w) {
      var r: Row :| HasRow(s.shelf, r) && r.variant == w;
      OwnedByRow(s'.shelf, r);
    }
  }

  lemma RestoreKeepsOwners(s: Store, p: Pending, text: Reconciliation -> nat)
    requires Valid(s) && AllOwned(s) && Committable(p) && PendingValid(p)
    requires SnapshotOf(s) == p.snapshot.value ==> FormatsAgree(p.archive, p.existing.value, s.shelf)
    ensures AllOwned(After(s, RestoreCommit(s, p.archive, p.existing.value, p.snapshot.value, text)))
  {
    if SnapshotOf(s) == p.snapshot.value {
      RestoreIsUnion(s, p.archive, p.existing.value, p.snapshot.value, text);
      var s' := RestoreCommit(s, p.archive, p.existing.value, p.snapshot.value, text).store;
      forall v | v in s'.records ensures Owned(s'.shelf, v) {
        if v in s.records {
          var r: Row :| HasRow(s.shelf, r) && r.variant == v;
          OwnedByRow(s'.shelf, r);
        } else {
          var r := ArchivedOwner(p.archive, p.existing.value, v);
          OwnedByRow(s'.shelf, r);
        }
      }
    }
  }

  lemma ArchivedOwner(archive: Archive, existing: Records, v: VariantId) returns (r: Row)
    requires Accepted(archive) && v in Publications(existing, archive.books)
    ensures ArchiveRow(archive.logical, r) && r.variant == v
  {
    PublicationFrom(existing, archive.books, v);
    var k :| 0 <= k < |archive.books| && archive.books[k].id == v;
    r := ListedRow(archive, k);
  }

  /** The steps that never leave a stored publication without an owner. */
  predicate KeepsOwners(a: Action) {
    !a.Import? && !a.SyncStore? && !a.SyncReplace? && !a.Reconcile?
  }

  lemma CommitKeepsOwners(sys: System, a: Action, text: Reconciliation -> nat)
    requires SystemValid(sys) && AllOwned(sys.store) && Agreeing(sys, a)
    requires a.CommitAdd? || a.CommitAssociate? || a.CommitRestore?
    ensures AllOwned(After(sys.store, Transaction(sys, a, text)))
  {
    if a.op in sys.pending {
      var p := sys.pending[a.op];
      if p.PendingAdd? { AddKeepsOwners(sys.store, p); }
      if p.PendingAssociate? { AssociateKeepsOwners(sys.store, p); }
      if a.CommitRestore? && Committable(p) { RestoreKeepsOwners(sys.store, p, text); }
    }
  }

  lemma StepKeepsOwners(sys: System, a: Action, text: Reconciliation -> nat)
    requires SystemValid(sys) && AllOwned(sys.store) && KeepsOwners(a) && Agreeing(sys, a)
    ensures AllOwned(After(sys.store, Transaction(sys, a, text)))
  {
    var s := sys.store;
    if a.CommitAdd? || a.CommitAssociate? || a.CommitRestore? {
      CommitKeepsOwners(sys, a, text);
    } else if a.DetachFormat? {
      DetachKeepsOwners(s, a.book, a.variant, a.derived, a.who);
    } else if a.Delete? {
      DeleteKeepsOwners(s, a.book, a.target, a.who);
    } else if a.Remove? {
      RemoveKeepsOwners(s, a.variant, a.now);
    } else {
      assert a.Prefer? || a.ReadPreference? || Transaction(sys, a, text) == Unchanged;
    }
  }

  /** Every run of adding, associating, detaching, deleting, removing, preferring and restoring keeps
      an owner for every stored publication. */
  lemma {:induction false} RunKeepsOwners(
      sys: System, actions: seq<Action>, text: Reconciliation -> nat)
    requires SystemValid(sys) && AllOwned(sys.store) && AgreeingRun(sys, actions, text)
    requires forall i | 0 <= i < |actions| :: KeepsOwners(actions[i])
    ensures AllOwned(Run(sys, actions, text).store)
  {
    if actions != [] {
      var n := |actions| - 1;
      RunKeepsOwners(sys, actions[..n], text);
      RunKeepsMembership(sys, actions[..n], text);
      StepKeepsOwners(Run(sys, actions[..n], text), actions[n], text);
    }
  }

  lemma OverwrittenIsLost(m: Shelf, b: LogicalBook, lost: Row)
    requires OneOwner(m) && HasRow(m, lost) && lost.book == b.id && lost.variant !in b.variants.Values
    ensures !Owned(m[b.id := b], lost.variant)
  {
  }

  /** A new publication is put under its canonical identifier without looking: it keeps every owner
      exactly when that book is absent. */
  lemma StoreNewAndOwners(s: Store, record: BookRecord)
    requires Valid(s) && AllOwned(s) && record.id !in s.records
    ensures StoreNew(s, record).Committed?
    ensures AllOwned(StoreNew(s, record).store) <==> SingletonLogicalBookId(record.id) !in s.shelf
  {
    StoreNewRows(s, record);
    var canonical := SingletonLogicalBookId(record.id);
    var s' := StoreNew(s, record).store;
    if canonical in s.shelf {
      ConsistentIsOneOwner(s.shelf, s.records);
      var f := FirstFormat(s.shelf[canonical].variants);
      RowOf(s.shelf, canonical, f);
      var lost := s.shelf[canonical].variants[f];
      OverwrittenIsLost(s.shelf, LogicalBookFromVariant(record, record.importedAt), Row(canonical, f, lost));
      assert lost in s'.records;
    } else {
      NewBookKeepsOwners(s, record);
    }
  }

  /** An import keeps every owner unless it stores a new publication whose canonical identifier another
      logical book has. */
  lemma ImportAndOwners(s: Store, record: BookRecord, supported: bool)
    requires Valid(s) && AllOwned(s)
    ensures AllOwned(After(s, ImportBook(s, record, supported))) <==>
              record.id in s.records || !supported || SingletonLogicalBookId(record.id) !in s.shelf
  {
    FindOwnerFinds(s.shelf, record.id);
    if record.id !in s.records {
      StoreNewAndOwners(s, record);
    }
  }

  lemma NewBookKeepsOwners(s: Store, record: BookRecord)
    requires AllOwned(s) && StoreNew(s, record).Committed? && SingletonLogicalBookId(record.id) !in s.shelf
    ensures AllOwned(StoreNew(s, record).store)
  {
    var s' := StoreNew(s, record).store;
    forall v | v in s'.records ensures Owned(s'.shelf, v) {
      if v == record.id {
        OwnedByRow(s'.shelf, Row(SingletonLogicalBookId(v), record.format, v));
      } else {
        var r: Row :| HasRow(s.shelf, r) && r.variant == v;
        OwnedByRow(s'.shelf, r);
      }
    }
  }

  /** The same for a synchronized copy. */
  lemma SyncStoreAndOwners(s: Store, record: BookRecord, intact: bool)
    requires Valid(s) && AllOwned(s)
    ensures AllOwned(After(s, StoreSynced(s, record, intact))) <==>
              record.id in s.records || !intact || SingletonLogicalBookId(record.id) !in s.shelf
  {
    if record.id !in s.records {
      StoreNewAndOwners(s, record);
    }
  }

  /** A reconciliation keeps every owner unless it settles and leaves out a stored affected variant. */
  lemma ReconcileAndOwners(
      s: Store, conflict: ConflictId, decision: Decision, derived: LogicalBookId, who: Identity)
    requires Valid(s) && AllOwned(s)
    requires decision.MakeStandalone? ==> derived !in s.shelf
    ensures AllOwned(After(s, Reconciling.ReconcileMembership(s, conflict, decision, derived, who))) <==>
              (Settles(s, conflict, decision, derived) ==>
                 forall v | v in s.reconciliations[conflict].affected && v in s.records ::
                   exists r: Row :: Chosen(s, s.reconciliations[conflict], decision, derived, r) && r.variant == v)
  {
    ReconcileCommits(s, conflict, decision, derived, who);
    if Settles(s, conflict, decision, derived) {
      SettledOwners(s, conflict, decision, derived,
                    Reconciling.ReconcileMembership(s, conflict, decision, derived, who).store);
    }
  }

  lemma SettledOwners(s: Store, conflict: ConflictId, decision: Decision, derived: LogicalBookId, s': Store)
    requires AllOwned(s) && Settles(s, conflict, decision, derived) && s'.records == s.records
    requires forall r :: HasRow(s'.shelf, r) <==> RowAfter(s, s.reconciliations[conflict], decision, derived, r)
    ensures AllOwned(s') <==>
              forall v | v in s.reconciliations[conflict].affected && v in s.records ::
                exists r: Row :: Chosen(s, s.reconciliations[conflict], decision, derived, r) && r.variant == v
  {
    var raw := s.reconciliations[conflict];
    if AllOwned(s') {
      forall v | v in raw.affected && v in s.records
        ensures exists r: Row :: Chosen(s, raw, decision, derived, r) && r.variant == v
      {
        var r: Row :| HasRow(s'.shelf, r) && r.variant == v;
      }
    }
    if forall v | v in raw.affected && v in s.records ::
         exists r: Row :: Chosen(s, raw, decision, derived, r) && r.variant == v {
      forall v | v in s'.records ensures Owned(s'.shelf, v) {
        if v in raw.affected {
          var r: Row :| Chosen(s, raw, decision, derived, r) && r.variant == v;
          OwnedByRow(s'.shelf, r);
        } else {
          var r: Row :| HasRow(s.shelf, r) && r.variant == v;
          OwnedByRow(s'.shelf, r);
        }
      }
    }
  }
}
