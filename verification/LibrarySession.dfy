/** A session with the library: calls of the repository's methods, in any order, with operations that
    read in one call and commit in a later one. Every session is a run. */
module LibrarySession {
  import opened Common
  import opened LogicalBooks
  import opened LibraryTransactions
  import opened Reconciling
  import opened LibraryBackup
  import opened LibraryRestore
  import opened LibraryRuns
  import opened LibraryRepository

  class Session {
    const repository: Repository
    /** Operations that have read and not committed. */
    var pending: map<nat, Pending>
    ghost var log: seq<Change>

    constructor (repository: Repository)
      ensures this.repository == repository && pending == map[] && log == []
    {
      this.repository, this.pending, this.log := repository, map[], [];
    }

    ghost function Current(): System
      reads this, repository
    {
      System(repository.State(), pending, log)
    }

    /** The steps that only read. */
    method Begin(a: Action, text: Reconciliation -> nat)
      requires SystemValid(Current())
      requires a.BeginAdd? || a.BeginAssociate? || a.BeginRestore? || a.ReadRecords? || a.ReadSnapshot?
      modifies `pending
      ensures Current() == Apply(old(Current()), a, text)
    {
      assert log + [] == log;
      if a.BeginAdd? {
        var reply := repository.ReadForAdd(a.book, a.record);
        if reply.Ready? { pending := pending[a.op := PendingAdd(reply.destination, a.record, a.who)]; }
      } else if a.BeginAssociate? {
        if Associable(repository.shelf, a.destination, a.source) {
          pending := pending[a.op :=
            PendingAssociate(repository.shelf[a.destination], repository.shelf[a.source], a.who)];
        }
      } else if a.BeginRestore? {
        var archive := ParseManifest(a.manifest);
        if archive.Some? { pending := pending[a.op := PendingRestore(archive.value, None, None)]; }
      } else if a.op in pending && pending[a.op].PendingRestore? {
        var p := pending[a.op];
        if a.ReadRecords? && p.existing.None? {
          pending := pending[a.op := p.(existing := Some(repository.records))];
        }
        if a.ReadSnapshot? && p.snapshot.None? {
          pending := pending[a.op := p.(snapshot := Some(SnapshotOf(repository.State())))];
        }
      }
    }

    /** The commits of operations that have read. */
    method Commit(a: Action, text: Reconciliation -> nat)
      requires SystemValid(Current()) && (a.CommitAdd? || a.CommitAssociate? || a.CommitRestore?)
      modifies this, repository
      ensures Current() == Apply(old(Current()), a, text)
    {
      ghost var before := Current();
      ghost var o := Transaction(before, a, text);
      if a.op in pending {
        var p := pending[a.op];
        if a.CommitAdd? && p.PendingAdd? {
          repository.CommitAdd(p.destination, p.variant, p.who);
          pending := pending - {a.op};
        } else if a.CommitAssociate? && p.PendingAssociate? {
          repository.CommitAssociate(p.destination, p.source, p.who);
          pending := pending - {a.op};
        } else if a.CommitRestore? && p.PendingRestore? && p.existing.Some? && p.snapshot.Some? {
          var conflicts := CollectRestoreConflicts(p.archive.logical, p.snapshot.value.shelf);
          NoConflictsMeansNone(p.archive.logical, p.snapshot.value.shelf);
          if conflicts == {} {
            repository.RestoreAtomically(p.archive, p.existing.value, p.snapshot.value, text);
            pending := pending - {a.op};
          } else {
            ghost var c :| c in conflicts;
            assert IsConflict(c, p.archive.logical, p.snapshot.value.shelf);
          }
        }
      }
      log := log + Logged(o, Author(before, a));
    }

    /** The mutations that read and write at once and record a change. */
    method Mutate(a: Action, text: Reconciliation -> nat)
      requires SystemValid(Current()) && (a.DetachFormat? || a.Delete? || a.Prefer? || a.Reconcile?)
      modifies `log, repository
      ensures Current() == Apply(old(Current()), a, text)
    {
      ghost var before := Current();
      match a {
        case DetachFormat(book, v, derived, who) => repository.Detach(book, v, derived, who);
        case Delete(book, target, who) => repository.Delete(book, target, who);
        case Prefer(book, f, who) => repository.SaveFormatPreference(book, f, who);
        case Reconcile(conflict, decision, derived, who) => repository.Reconcile(conflict, decision, derived, who);
      }
      log := log + Logged(Transaction(before, a, text), Author(before, a));
    }

    /** The steps that record nothing. */
    method Store(a: Action, text: Reconciliation -> nat)
      requires SystemValid(Current())
      requires a.Import? || a.SyncStore? || a.Remove? || a.SyncReplace? || a.ReadPreference?
      modifies repository
      ensures Current() == Apply(old(Current()), a, text)
    {
      assert log + [] == log;
      match a
      case Import(record, supported) => repository.ImportPublication(record, supported);
      case SyncStore(record, intact) => repository.StoreSyncedBook(record, intact);
      case Remove(v, now) => repository.RemovePublication(v, now);
      case SyncReplace(books, prefs, recs) => repository.ReplaceLogicalBookState(books, prefs, recs);
      case ReadPreference(book) => var _ := repository.ReadFormatPreference(book);
    }

    /** Whatever is called, and in whatever order, the session is the run of its calls; with agreeing
        restores the library stays consistent throughout. */
    method Perform(actions: seq<Action>, text: Reconciliation -> nat)
      requires SystemValid(Current()) && AgreeingRun(Current(), actions, text)
      modifies this, repository
      ensures Current() == Run(old(Current()), actions, text) && SystemValid(Current())
      decreases |actions|
    {
      if actions == [] { return; }
      var n := |actions| - 1;
      Perform(actions[..n], text);
      StepKeepsMembership(Current(), actions[n], text);
      Take(actions[n], text);
    }

    method Take(a: Action, text: Reconciliation -> nat)
      requires SystemValid(Current())
      modifies this, repository
      ensures Current() == Apply(old(Current()), a, text)
    {
      if a.BeginAdd? || a.BeginAssociate? || a.BeginRestore? || a.ReadRecords? || a.ReadSnapshot? {
        Begin(a, text);
      } else if a.CommitAdd? || a.CommitAssociate? || a.CommitRestore? {
        Commit(a, text);
      } else if a.DetachFormat? || a.Delete? || a.Prefer? || a.Reconcile? {
        Mutate(a, text);
      } else {
        Store(a, text);
      }
    }
  }
}
