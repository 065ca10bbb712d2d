/** Whole runs of the library. Transactions are atomic steps; adding a format, associating two books
    and restoring an archive read in one step and commit in a later one, with any other steps in
    between. A restore reads the stored publications and the logical state separately. */
module LibraryRuns {
  import opened Common
  import opened LogicalBooks
  import opened LibraryTransactions
  import opened LibraryInvariant
  import opened Reconciling
  import opened LibraryBackup
  import opened LibraryRestore

  datatype Pending =
    | PendingAdd(destination: LogicalBook, variant: BookRecord, who: Identity)
    | PendingAssociate(destination: LogicalBook, source: LogicalBook, who: Identity)
    | PendingRestore(archive: Archive, existing: Option<Records>, snapshot: Option<Snapshot>)

  /** `log` is the history of committed changes, in commit order. */
  datatype System = System(store: Store, pending: map<nat, Pending>, log: seq<Change>)

  datatype Action =
    | Import(record: BookRecord, supported: bool)
    | SyncStore(record: BookRecord, intact: bool)
    | Remove(variant: VariantId, now: Time)
    | SyncReplace(books: seq<LogicalBook>, preferences: Preferences, reconciliations: Reconciliations)
    | BeginAdd(op: nat, book: LogicalBookId, record: BookRecord, who: Identity)
    | CommitAdd(op: nat)
    | BeginAssociate(op: nat, destination: LogicalBookId, source: LogicalBookId, who: Identity)
    | CommitAssociate(op: nat)
    | DetachFormat(book: LogicalBookId, variant: VariantId, derived: LogicalBookId, who: Identity)
    | Delete(book: LogicalBookId, target: Option<VariantId>, who: Identity)
    | ReadPreference(book: LogicalBookId)
    | Prefer(book: LogicalBookId, format: Format, who: Identity)
    | Reconcile(conflict: ConflictId, decision: Decision, derived: LogicalBookId, who: Identity)
    | BeginRestore(op: nat, manifest: Manifest)
    | ReadRecords(op: nat)
    | ReadSnapshot(op: nat)
    | CommitRestore(op: nat)

  /** The restore is committed only with both reads done and no conflict against the snapshot. */
  ghost predicate Committable(p: Pending) {
    && p.PendingRestore? && p.existing.Some? && p.snapshot.Some?
    && NoConflicts(p.archive.logical, p.snapshot.value.shelf)
  }

  predicate Adding(sys: System, op: nat) {
    op in sys.pending && sys.pending[op].PendingAdd?
  }

  predicate Associating(sys: System, op: nat) {
    op in sys.pending && sys.pending[op].PendingAssociate?
  }

  predicate Restoring(sys: System, op: nat) {
    op in sys.pending && sys.pending[op].PendingRestore?
  }

  // ----- a step, store by store -----

  /** The transaction a step comes down to. */
  ghost function Transaction(sys: System, a: Action, text: Reconciliation -> nat): Outcome {
    var s := sys.store;
    match a
    case Import(record, supported) => ImportBook(s, record, supported)
    case SyncStore(record, intact) => StoreSynced(s, record, intact)
    case Remove(v, now) => RemoveBook(s, v, now)
    case SyncReplace(books, prefs, recs) => ReplaceState(s, books, prefs, recs)
    case CommitAdd(op) =>
      if Adding(sys, op) then
        var p := sys.pending[op];
        AddCommit(s, p.destination, p.variant, p.who)
      else Unchanged
    case CommitAssociate(op) =>
      if Associating(sys, op) then
        var p := sys.pending[op];
        AssociateCommit(s, p.destination, p.source, p.who)
      else Unchanged
    case DetachFormat(book, v, derived, who) => DetachVariant(s, book, v, derived, who)
    case Delete(book, target, who) => DeleteVariants(s, book, target, who)
    case ReadPreference(book) => Committed(s.(preferences := Checked(s.preferences, book)))
    case Prefer(book, f, who) => SavePreference(s, book, f, who)
    case Reconcile(conflict, decision, derived, who) =>
      Reconciling.ReconcileMembership(s, conflict, decision, derived, who)
    case CommitRestore(op) =>
      if op in sys.pending && Committable(sys.pending[op]) then
        var p := sys.pending[op];
        RestoreCommit(s, p.archive, p.existing.value, p.snapshot.value, text)
      else Unchanged
    case _ => Unchanged
  }

  /** What a step begins, reads or ends. */
  ghost function PendingAfter(sys: System, a: Action): map<nat, Pending> {
    var s, pending := sys.store, sys.pending;
    match a
    case BeginAdd(op, book, record, who) =>
      (match AddRead(s, book, record)
       case Ready(destination) => pending[op := PendingAdd(destination, record, who)]
       case _ => pending)
    case BeginAssociate(op, destination, source, who) =>
      if Associable(s.shelf, destination, source)
      then pending[op := PendingAssociate(s.shelf[destination], s.shelf[source], who)]
      else pending
    case BeginRestore(op, manifest) =>
      if Accepted(Normalized(manifest)) then pending[op := PendingRestore(Normalized(manifest), None, None)]
      else pending
    case ReadRecords(op) =>
      if Restoring(sys, op) && pending[op].existing.None?
      then pending[op := pending[op].(existing := Some(s.records))]
      else pending
    case ReadSnapshot(op) =>
      if Restoring(sys, op) && pending[op].snapshot.None?
      then pending[op := pending[op].(snapshot := Some(SnapshotOf(s)))]
      else pending
    case CommitAdd(op) => if Adding(sys, op) then pending - {op} else pending
    case CommitAssociate(op) => if Associating(sys, op) then pending - {op} else pending
    case CommitRestore(op) => if op in pending && Committable(pending[op]) then pending - {op} else pending
    case _ => pending
  }

  /** Whose change a step records, if it records one. */
  function Author(sys: System, a: Action): Option<Identity> {
    match a
    case CommitAdd(op) => if Adding(sys, op) then Some(sys.pending[op].who) else None
    case CommitAssociate(op) => if Associating(sys, op) then Some(sys.pending[op].who) else None
    case DetachFormat(_, _, _, who) => Some(who)
    case Delete(_, _, who) => Some(who)
    case Prefer(_, _, who) => Some(who)
    case Reconcile(_, _, _, who) => Some(who)
    case _ => None
  }

  /** A committed change lands in the outbox and in the history. */
  function Logged(o: Outcome, author: Option<Identity>): seq<Change> {
    if o.Committed? && author.Some? && author.value.changeId in o.store.outbox
    then [o.store.outbox[author.value.changeId]]
    else []
  }

  ghost function Apply(sys: System, a: Action, text: Reconciliation -> nat): System {
    var o := Transaction(sys, a, text);
    System(After(sys.store, o), PendingAfter(sys, a), sys.log + Logged(o, Author(sys, a)))
  }

  ghost function Run(sys: System, actions: seq<Action>, text: Reconciliation -> nat): System {
    if actions == [] then sys else
    Apply(Run(sys, actions[..|actions| - 1], text), actions[|actions| - 1], text)
  }

  const EmptyLibrary := System(Store(map[], map[], map[], map[], map[]), map[], [])

  // ----- the invariant -----

  ghost predicate PendingValid(p: Pending) {
    match p
    case PendingAdd(destination, variant, _) => variant.format !in destination.variants
    case PendingAssociate(destination, source, _) =>
      destination.id != source.id && destination.variants.Keys !! source.variants.Keys
    case PendingRestore(archive, existing, snapshot) =>
      && Accepted(archive) && (existing.Some? ==> RecordsKeyed(existing.value))
      && (snapshot.Some? ==> OneOwner(snapshot.value.shelf))
  }

  ghost predicate SystemValid(sys: System) {
    && Valid(sys.store)
    && forall op | op in sys.pending :: PendingValid(sys.pending[op])
  }

  /** A restore that is about to commit finds its publications under the formats it archived. No other
      step has a condition: a publication may come and go under any format. */
  ghost predicate Agreeing(sys: System, a: Action) {
    a.CommitRestore? && a.op in sys.pending && Committable(sys.pending[a.op])
    && SnapshotOf(sys.store) == sys.pending[a.op].snapshot.value ==>
      FormatsAgree(sys.pending[a.op].archive, sys.pending[a.op].existing.value, sys.store.shelf)
  }

  ghost predicate AgreeingRun(sys: System, actions: seq<Action>, text: Reconciliation -> nat) {
    if actions == [] then true else
    var n := |actions| - 1;
    AgreeingRun(sys, actions[..n], text) && Agreeing(Run(sys, actions[..n], text), actions[n])
  }

  lemma {:induction false} NoRestoreAgrees(sys: System, actions: seq<Action>, text: Reconciliation -> nat)
    requires forall i | 0 <= i < |actions| :: !actions[i].CommitRestore?
    ensures AgreeingRun(sys, actions, text)
  {
    if actions != [] {
      NoRestoreAgrees(sys, actions[..|actions| - 1], text);
    }
  }

  lemma RunNext(sys: System, actions: seq<Action>, a: Action, text: Reconciliation -> nat)
    ensures Run(sys, actions + [a], text) == Apply(Run(sys, actions, text), a, text)
  {
    assert (actions + [a])[..|actions|] == actions;
  }

  lemma RestoreKeepsMembership(sys: System, op: nat, text: Reconciliation -> nat)
    requires SystemValid(sys) && Agreeing(sys, CommitRestore(op))
    ensures Valid(After(sys.store, Transaction(sys, CommitRestore(op), text)))
  {
    if op in sys.pending && Committable(sys.pending[op]) {
      var s, p := sys.store, sys.pending[op];
      if SnapshotOf(s) == p.snapshot.value {
        RestoreIsUnion(s, p.archive, p.existing.value, p.snapshot.value, text);
      }
    }
  }

  lemma CommitKeepsStore(sys: System, a: Action, text: Reconciliation -> nat)
    requires SystemValid(sys) && (a.CommitAdd? || a.CommitAssociate?)
    ensures Valid(After(sys.store, Transaction(sys, a, text)))
  {
    if a.op in sys.pending {
      var p := sys.pending[a.op];
      if p.PendingAdd? { AddCommitValid(sys.store, p.destination, p.variant, p.who); }
      if p.PendingAssociate? { AssociateValid(sys.store, p.destination, p.source, p.who); }
    }
  }

  lemma StepKeepsStore(sys: System, a: Action, text: Reconciliation -> nat)
    requires SystemValid(sys) && Agreeing(sys, a)
    ensures Valid(After(sys.store, Transaction(sys, a, text)))
  {
    var s := sys.store;
    match a
    case Import(record, supported) => ImportValid(s, record, supported);
    case SyncStore(record, intact) =>
      if record.id !in s.records { StoreNewValid(s, record); }
    case Remove(v, now) => RemoveValid(s, v, now);
    case SyncReplace(books, prefs, recs) => ReplaceValid(s, books, prefs, recs);
    case CommitAdd(op) => CommitKeepsStore(sys, a, text);
    case CommitAssociate(op) => CommitKeepsStore(sys, a, text);
    case DetachFormat(book, v, derived, who) => DetachValid(s, book, v, derived, who);
    case Delete(book, target, who) => DeleteValid(s, book, target, who);
    case Reconcile(conflict, decision, derived, who) => ReconcileValid(s, conflict, decision, derived, who);
    case CommitRestore(op) => RestoreKeepsMembership(sys, op, text);
    case _ =>
  }

  lemma StepKeepsPending(sys: System, a: Action)
    requires SystemValid(sys)
    ensures forall op | op in PendingAfter(sys, a) :: PendingValid(PendingAfter(sys, a)[op])
  {
    ConsistentIsOneOwner(sys.store.shelf, sys.store.records);
  }

  lemma StepKeepsMembership(sys: System, a: Action, text: Reconciliation -> nat)
    requires SystemValid(sys) && Agreeing(sys, a)
    ensures SystemValid(Apply(sys, a, text))
  {
    StepKeepsStore(sys, a, text);
    StepKeepsPending(sys, a);
  }

  lemma {:induction false} RunKeepsMembership(sys: System, actions: seq<Action>, text: Reconciliation -> nat)
    requires SystemValid(sys) && AgreeingRun(sys, actions, text)
    ensures SystemValid(Run(sys, actions, text))
  {
    if actions != [] {
      var n := |actions| - 1;
      RunKeepsMembership(sys, actions[..n], text);
      StepKeepsMembership(Run(sys, actions[..n], text), actions[n], text);
    }
  }

  /** The main safety theorem: in every run from an empty library, each variant sits in at most one
      slot of one logical book, the slot matches its format, its publication is stored, and no
      logical book is empty. */
  lemma MembershipInEveryRun(actions: seq<Action>, text: Reconciliation -> nat)
    requires AgreeingRun(EmptyLibrary, actions, text)
    ensures var s := Run(EmptyLibrary, actions, text).store;
            && OneOwner(s.shelf)
            && (forall r | HasRow(s.shelf, r) ::
                  r.variant in s.records && s.records[r.variant].format == r.format)
            && (forall id | id in s.shelf :: s.shelf[id].id == id && Filled(s.shelf[id].variants))
  {
    RunKeepsMembership(EmptyLibrary, actions, text);
    var s := Run(EmptyLibrary, actions, text).store;
    ConsistentIsOneOwner(s.shelf, s.records);
  }

  lemma RestoreKeepsExactlyAgreement(s: Store, p: Pending, text: Reconciliation -> nat)
    requires Valid(s) && Committable(p) && PendingValid(p) && SnapshotOf(s) == p.snapshot.value
    ensures Valid(After(s, RestoreCommit(s, p.archive, p.existing.value, p.snapshot.value, text))) <==>
              FormatsAgree(p.archive, p.existing.value, s.shelf)
  {
    if FormatsAgree(p.archive, p.existing.value, s.shelf) {
      RestoreIsUnion(s, p.archive, p.existing.value, p.snapshot.value, text);
    } else if Valid(After(s, RestoreCommit(s, p.archive, p.existing.value, p.snapshot.value, text))) {
      RestoreNeedsAgreement(s, p.archive, p.existing.value, p.snapshot.value, text);
    }
  }

  /** The condition on restores is exact: the step that commits one keeps the library consistent if and
      only if the formats agree. */
  lemma RestoreStepNeedsAgreement(sys: System, op: nat, text: Reconciliation -> nat)
    requires SystemValid(sys)
    ensures SystemValid(Apply(sys, CommitRestore(op), text)) <==> Agreeing(sys, CommitRestore(op))
  {
    StepKeepsPending(sys, CommitRestore(op));
    if op in sys.pending && Committable(sys.pending[op])
       && SnapshotOf(sys.store) == sys.pending[op].snapshot.value {
      RestoreKeepsExactlyAgreement(sys.store, sys.pending[op], text);
    }
  }

  // ----- content addressing -----

  /** `formatOf` is the format of the bytes an identifier names. */
  ghost predicate Honest(a: Action, formatOf: VariantId -> Format) {
    match a
    case Import(record, _) => record.format == formatOf(record.id)
    case SyncStore(record, _) => record.format == formatOf(record.id)
    case BeginAdd(_, _, record, _) => record.format == formatOf(record.id)
    case BeginRestore(_, manifest) => HonestArchive(Normalized(manifest), formatOf)
    case _ => true
  }

  ghost predicate HonestArchive(a: Archive, formatOf: VariantId -> Format) {
    forall k | 0 <= k < |a.books| :: a.books[k].format == formatOf(a.books[k].id)
  }

  ghost predicate HonestRecords(records: Records, formatOf: VariantId -> Format) {
    forall v | v in records :: records[v].format == formatOf(v)
  }

  ghost predicate HonestPending(p: Pending, formatOf: VariantId -> Format) {
    match p
    case PendingAdd(_, variant, _) => variant.format == formatOf(variant.id)
    case PendingAssociate(_, _, _) => true
    case PendingRestore(archive, existing, _) =>
      HonestArchive(archive, formatOf) && (existing.Some? ==> HonestRecords(existing.value, formatOf))
  }

  ghost predicate HonestSystem(sys: System, formatOf: VariantId -> Format) {
    && HonestRecords(sys.store.records, formatOf)
    && forall op | op in sys.pending :: HonestPending(sys.pending[op], formatOf)
  }

  lemma HonestRestore(s: Store, archive: Archive, existing: Records, formatOf: VariantId -> Format)
    requires HonestRecords(s.records, formatOf) && HonestRecords(existing, formatOf) && HonestArchive(archive, formatOf)
    requires DistinctBooks(archive.books)
    ensures HonestRecords(s.records + Publications(existing, archive.books), formatOf)
  {
    var pubs := Publications(existing, archive.books);
    forall v | v in pubs ensures pubs[v].format == formatOf(v) {
      PublicationFrom(existing, archive.books, v);
      var k :| 0 <= k < |archive.books| && archive.books[k].id == v;
      PublicationAt(existing, archive.books, k);
    }
  }

  /** The steps that store no publication. */
  predicate StoresNothing(a: Action) {
    !a.Import? && !a.SyncStore? && !a.CommitAdd? && !a.CommitRestore?
  }

  lemma NothingNewStored(sys: System, a: Action, text: Reconciliation -> nat)
    requires StoresNothing(a)
    ensures forall v | v in After(sys.store, Transaction(sys, a, text)).records ::
              v in sys.store.records && After(sys.store, Transaction(sys, a, text)).records[v] == sys.store.records[v]
  {
    if a.Remove? {
      assert forall v | v in sys.store.records - {a.variant} :: v in sys.store.records;
    }
  }

  lemma StepStaysHonest(sys: System, a: Action, text: Reconciliation -> nat, formatOf: VariantId -> Format)
    requires SystemValid(sys) && HonestSystem(sys, formatOf) && Honest(a, formatOf)
    ensures HonestRecords(After(sys.store, Transaction(sys, a, text)).records, formatOf)
  {
    if StoresNothing(a) {
      NothingNewStored(sys, a, text);
    } else if a.CommitRestore? && a.op in sys.pending && Committable(sys.pending[a.op]) {
      var p := sys.pending[a.op];
      HonestRestore(sys.store, p.archive, p.existing.value, formatOf);
    }
  }

  lemma PendingStaysHonest(sys: System, a: Action, formatOf: VariantId -> Format)
    requires HonestSystem(sys, formatOf) && Honest(a, formatOf)
    ensures forall op | op in PendingAfter(sys, a) :: HonestPending(PendingAfter(sys, a)[op], formatOf)
  {
  }

  lemma HonestyAgrees(sys: System, a: Action, formatOf: VariantId -> Format)
    requires SystemValid(sys) && HonestSystem(sys, formatOf)
    ensures Agreeing(sys, a)
  {
    if a.CommitRestore? && a.op in sys.pending && Committable(sys.pending[a.op]) {
      var p := sys.pending[a.op];
      assert HonestPending(p, formatOf);
      forall k | 0 <= k < |p.archive.books|
        ensures p.archive.books[k].id in p.existing.value ==>
                  p.existing.value[p.archive.books[k].id].format == p.archive.books[k].format
        ensures forall r | HasRow(sys.store.shelf, r) && r.variant == p.archive.books[k].id ::
                  r.format == p.archive.books[k].format
      {
      }
    }
  }

  /** Identifiers are digests of content. Where they determine the format, every restore agrees. */
  lemma {:induction false} ContentAddressingAgrees(
      sys: System, actions: seq<Action>, text: Reconciliation -> nat, formatOf: VariantId -> Format)
    requires SystemValid(sys) && HonestSystem(sys, formatOf)
    requires forall i | 0 <= i < |actions| :: Honest(actions[i], formatOf)
    ensures AgreeingRun(sys, actions, text) && HonestSystem(Run(sys, actions, text), formatOf)
  {
    if actions != [] {
      var n := |actions| - 1;
      ContentAddressingAgrees(sys, actions[..n], text, formatOf);
      RunKeepsMembership(sys, actions[..n], text);
      var before := Run(sys, actions[..n], text);
      HonestyAgrees(before, actions[n], formatOf);
      StepStaysHonest(before, actions[n], text, formatOf);
      PendingStaysHonest(before, actions[n], formatOf);
    }
  }

  // ----- restores in a run -----

  /** What committing a restore does to a consistent store. */
  ghost predicate RestoredOrUntouched(s: Store, p: Pending, s': Store)
    requires Committable(p)
  {
    if SnapshotOf(s) == p.snapshot.value then
      && OneOwner(s'.shelf)
      && (forall r :: HasRow(s'.shelf, r) <==> HasRow(s.shelf, r) || ArchiveRow(p.archive.logical, r))
      && (forall r | HasRow(s'.shelf, r) :: r.variant in s'.records)
    else
      s' == s
  }

  lemma RestoreDecides(s: Store, p: Pending, text: Reconciliation -> nat)
    requires Valid(s) && Committable(p) && PendingValid(p)
    requires SnapshotOf(s) == p.snapshot.value ==> FormatsAgree(p.archive, p.existing.value, s.shelf)
    ensures RestoredOrUntouched(
              s, p, After(s, RestoreCommit(s, p.archive, p.existing.value, p.snapshot.value, text)))
  {
    if SnapshotOf(s) == p.snapshot.value {
      RestoreIsUnion(s, p.archive, p.existing.value, p.snapshot.value, text);
    }
  }

  /** A restore begun anywhere in a run and committed at its end: if the logical state is the one it
      read, the archive's rows are added and nothing is lost, whatever ran in between; otherwise
      nothing happens. */
  lemma RestoreAtTheEndOfARun(sys: System, actions: seq<Action>, op: nat, text: Reconciliation -> nat)
    requires SystemValid(sys) && AgreeingRun(sys, actions, text)
    requires var sys' := Run(sys, actions, text);
             op in sys'.pending && Committable(sys'.pending[op]) && Agreeing(sys', CommitRestore(op))
    ensures var sys' := Run(sys, actions, text);
            RestoredOrUntouched(sys'.store, sys'.pending[op], Apply(sys', CommitRestore(op), text).store)
  {
    RunKeepsMembership(sys, actions, text);
    RestoreDecides(Run(sys, actions, text).store, Run(sys, actions, text).pending[op], text);
  }

  // ----- operations with nothing in between -----

  /** An add that is ready and finds its publication not stored goes through at once, signed by whoever
      began it. */
  lemma AddAtOnce(sys: System, op: nat, book: LogicalBookId, record: BookRecord, who: Identity, text: Reconciliation -> nat)
    requires Valid(sys.store) && AddRead(sys.store, book, record).Ready? && record.id !in sys.store.records
    ensures var sys' := Apply(Apply(sys, BeginAdd(op, book, record, who), text), CommitAdd(op), text);
            var o := AddCommit(sys.store, sys.store.shelf[book], record, who);
            && o.Committed? && sys'.store == o.store && sys'.pending == sys.pending - {op}
            && sys'.log == sys.log + Logged(o, Some(who))
  {
    var p := PendingAdd(sys.store.shelf[book], record, who);
    AddCommitRows(sys.store, p.destination, record, who);
    BegunAdd(sys, op, book, record, who, text);
    CommittedAdd(sys.(pending := sys.pending[op := p]), op, p, text);
    assert sys.pending[op := p] - {op} == sys.pending - {op};
  }

  lemma BegunAdd(sys: System, op: nat, book: LogicalBookId, record: BookRecord, who: Identity, text: Reconciliation -> nat)
    requires AddRead(sys.store, book, record).Ready?
    ensures Apply(sys, BeginAdd(op, book, record, who), text)
         == sys.(pending := sys.pending[op := PendingAdd(sys.store.shelf[book], record, who)])
  {
    assert sys.log + [] == sys.log;
  }

  lemma CommittedAdd(sys: System, op: nat, p: Pending, text: Reconciliation -> nat)
    requires op in sys.pending && sys.pending[op] == p && p.PendingAdd?
    ensures var o := AddCommit(sys.store, p.destination, p.variant, p.who);
            Apply(sys, CommitAdd(op), text) ==
            System(After(sys.store, o), sys.pending - {op}, sys.log + Logged(o, Some(p.who)))
  {
  }

  /** So does an association of two books that can be associated. */
  lemma AssociateAtOnce(
      sys: System, op: nat, destination: LogicalBookId, source: LogicalBookId, who: Identity, text: Reconciliation -> nat)
    requires Valid(sys.store) && Associable(sys.store.shelf, destination, source)
    ensures var sys' := Apply(Apply(sys, BeginAssociate(op, destination, source, who), text), CommitAssociate(op), text);
            var o := AssociateCommit(sys.store, sys.store.shelf[destination], sys.store.shelf[source], who);
            && o.Committed? && sys'.store == o.store && sys'.pending == sys.pending - {op}
            && sys'.log == sys.log + Logged(o, Some(who))
  {
    var p := PendingAssociate(sys.store.shelf[destination], sys.store.shelf[source], who);
    AssociateRows(sys.store, p.destination, p.source, who);
    BegunAssociation(sys, op, destination, source, who, text);
    CommittedAssociation(sys.(pending := sys.pending[op := p]), op, p, text);
    assert sys.pending[op := p] - {op} == sys.pending - {op};
  }

  lemma BegunAssociation(
      sys: System, op: nat, destination: LogicalBookId, source: LogicalBookId, who: Identity, text: Reconciliation -> nat)
    requires Associable(sys.store.shelf, destination, source)
    ensures Apply(sys, BeginAssociate(op, destination, source, who), text) ==
            sys.(pending := sys.pending[op :=
              PendingAssociate(sys.store.shelf[destination], sys.store.shelf[source], who)])
  {
    assert sys.log + [] == sys.log;
  }

  lemma CommittedAssociation(sys: System, op: nat, p: Pending, text: Reconciliation -> nat)
    requires op in sys.pending && sys.pending[op] == p && p.PendingAssociate?
    ensures var o := AssociateCommit(sys.store, p.destination, p.source, p.who);
            Apply(sys, CommitAssociate(op), text) ==
            System(After(sys.store, o), sys.pending - {op}, sys.log + Logged(o, Some(p.who)))
  {
  }
}
