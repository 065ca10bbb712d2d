/** The outbox of logical changes: replaying the committed changes rebuilds the shelf, and the
    pending list is the committed changes exactly when none of them is too large to be read back. */
module Outbox {
  import opened Common
  import opened LogicalBooks
  import opened LibraryTransactions
  import opened Reconciling
  import opened LibraryRuns

  // ----- replay -----

  /** A reader of the outbox drops the removed books and puts the resulting ones. */
  function ApplyChange(m: Shelf, c: Change): Shelf {
    (m - c.removed) + c.resulting
  }

  function Replay(m: Shelf, changes: seq<Change>): Shelf {
    if changes == [] then m else
    ApplyChange(Replay(m, changes[..|changes| - 1]), changes[|changes| - 1])
  }

  lemma ReplayNext(m: Shelf, changes: seq<Change>, c: Change)
    ensures Replay(m, changes + [c]) == ApplyChange(Replay(m, changes), c)
  {
  }

  /** A transaction records its own effect on the shelf. */
  predicate RecordsItself(s: Store, o: Outcome, change: ChangeId) {
    o.Committed? ==>
      && change in o.store.outbox
      && o.store.outbox == s.outbox[change := o.store.outbox[change]]
      && o.store.outbox[change].id == change
      && o.store.shelf == ApplyChange(s.shelf, o.store.outbox[change])
  }

  lemma AddRecords(s: Store, destination: LogicalBook, variant: BookRecord, who: Identity)
    ensures RecordsItself(s, AddCommit(s, destination, variant, who), who.changeId)
  {
    if AddCommit(s, destination, variant, who).Committed? {
      OnePut(s.shelf, WithVariant(destination, variant.format, variant.id, who.createdAt));
    }
  }

  lemma AssociateRecords(s: Store, destination: LogicalBook, source: LogicalBook, who: Identity)
    ensures RecordsItself(s, AssociateCommit(s, destination, source, who), who.changeId)
  {
    if AssociateCommit(s, destination, source, who).Committed? {
      var updated := destination.(variants := destination.variants + source.variants, updatedAt := who.createdAt);
      var rest := s.shelf - {source.id};
      assert rest[updated.id := updated] == rest + map[updated.id := updated];
    }
  }

  lemma OnePut(m: Shelf, a: LogicalBook)
    ensures m[a.id := a] == (m - {}) + map[a.id := a]
  {
  }

  lemma TwoPuts(m: Shelf, a: LogicalBook, b: LogicalBook)
    ensures m[a.id := a][b.id := b] == (m - {}) + map[a.id := a, b.id := b]
  {
  }

  lemma DetachRecords(s: Store, book: LogicalBookId, v: VariantId, derived: LogicalBookId, who: Identity)
    ensures RecordsItself(s, DetachVariant(s, book, v, derived, who), who.changeId)
  {
    if DetachVariant(s, book, v, derived, who).Committed? {
      var gone := s.records[v].format;
      var updated := s.shelf[book].(
        variants := map[Other(gone) := s.shelf[book].variants[Other(gone)]], updatedAt := who.createdAt);
      var detached := LogicalBookFromVariant(s.records[v], who.createdAt).(id := DetachedId(s, book, v, derived));
      TwoPuts(s.shelf, updated, detached);
    }
  }

  lemma DeleteRecords(s: Store, book: LogicalBookId, target: Option<VariantId>, who: Identity)
    ensures RecordsItself(s, DeleteVariants(s, book, target, who), who.changeId)
  {
    var o := DeleteVariants(s, book, target, who);
    if o.Committed? {
      var b := s.shelf[book];
      var remaining := Without(b, DeleteTargets(b, target));
      if Filled(remaining) {
        OnePut(s.shelf, b.(variants := remaining, updatedAt := who.createdAt));
      } else {
        assert s.shelf - {book} == (s.shelf - {book}) + map[];
      }
    }
  }

  lemma PreferRecords(s: Store, book: LogicalBookId, f: Format, who: Identity)
    ensures RecordsItself(s, SavePreference(s, book, f, who), who.changeId)
  {
    var o := SavePreference(s, book, f, who);
    if o.Committed? {
      assert o.store.shelf == ApplyChange(s.shelf, o.store.outbox[who.changeId]);
    }
  }

  lemma ReconcileRecords(
      s: Store, conflict: ConflictId, decision: Decision, derived: LogicalBookId, who: Identity)
    ensures RecordsItself(s, Reconciling.ReconcileMembership(s, conflict, decision, derived, who), who.changeId)
  {
    var o := Reconciling.ReconcileMembership(s, conflict, decision, derived, who);
    if o.Committed? {
      var after := o.store.shelf;
      assert (s.shelf - (s.shelf.Keys - after.Keys)) + after == after;
    }
  }

  /** The runs the outbox can account for: imports, removals, synchronized replacement and restores
      change the shelf without recording a change. */
  predicate Recording(a: Action) {
    !a.Import? && !a.SyncStore? && !a.Remove? && !a.SyncReplace? && !a.CommitRestore?
  }

  predicate RecordingRun(actions: seq<Action>) {
    forall i | 0 <= i < |actions| :: Recording(actions[i])
  }

  /** One step either records one change, which explains the new shelf, or leaves shelf, outbox and
      history alone. */
  ghost predicate Explained(sys: System, sys': System) {
    || (sys'.log == sys.log && sys'.store.shelf == sys.store.shelf && sys'.store.outbox == sys.store.outbox)
    || exists c: Change ::
         && sys'.log == sys.log + [c]
         && sys'.store.shelf == ApplyChange(sys.store.shelf, c)
         && sys'.store.outbox == sys.store.outbox[c.id := c]
  }

  lemma CommitRecords(sys: System, a: Action, text: Reconciliation -> nat)
    requires a.CommitAdd? || a.CommitAssociate?
    ensures Author(sys, a).Some? ==>
              RecordsItself(sys.store, Transaction(sys, a, text), Author(sys, a).value.changeId)
    ensures Author(sys, a).None? ==> Transaction(sys, a, text) == Unchanged
  {
    if a.op in sys.pending {
      var p := sys.pending[a.op];
      if p.PendingAdd? { AddRecords(sys.store, p.destination, p.variant, p.who); }
      if p.PendingAssociate? { AssociateRecords(sys.store, p.destination, p.source, p.who); }
    }
  }

  /** A recording step either records its own effect on the shelf, or leaves shelf and outbox alone. */
  lemma TransactionRecords(sys: System, a: Action, text: Reconciliation -> nat)
    requires Recording(a)
    ensures var o := Transaction(sys, a, text);
            if Author(sys, a).Some? then RecordsItself(sys.store, o, Author(sys, a).value.changeId)
            else After(sys.store, o).shelf == sys.store.shelf && After(sys.store, o).outbox == sys.store.outbox
  {
    var s := sys.store;
    if a.CommitAdd? || a.CommitAssociate? {
      CommitRecords(sys, a, text);
    } else if a.DetachFormat? {
      DetachRecords(s, a.book, a.variant, a.derived, a.who);
    } else if a.Delete? {
      DeleteRecords(s, a.book, a.target, a.who);
    } else if a.Prefer? {
      PreferRecords(s, a.book, a.format, a.who);
    } else if a.Reconcile? {
      ReconcileRecords(s, a.conflict, a.decision, a.derived, a.who);
    } else {
      assert a.ReadPreference? || Transaction(sys, a, text) == Unchanged;
    }
  }

  /** The kind of change a step records: a deletion is of the book when the book is gone. */
  function KindOf(a: Action, after: Shelf): Option<ChangeKind> {
    match a
    case CommitAdd(_) => Some(AddVariant)
    case CommitAssociate(_) => Some(Associate)
    case DetachFormat(_, _, _, _) => Some(Detach)
    case Delete(book, _, _) => if book in after then Some(DeleteVariant) else Some(DeleteBook)
    case Prefer(_, _, _) => Some(PreferFormat)
    case Reconcile(_, _, _, _) => Some(LogicalBooks.ReconcileMembership)
    case _ => None
  }

  /** The outcome's change is its author's, of this kind, made at the author's time; unless it is a
      preference, its parents are the author's. */
  ghost predicate Signed(o: Outcome, who: Identity, kind: Option<ChangeKind>) {
    o.Committed? ==>
      && who.changeId in o.store.outbox
      && var c := o.store.outbox[who.changeId];
         && c.id == who.changeId && c.createdAt == who.createdAt && kind == Some(c.kind)
         && (c.kind != PreferFormat ==> c.parents == multiset(who.parents))
  }

  lemma DeleteSigned(s: Store, book: LogicalBookId, target: Option<VariantId>, who: Identity)
    requires Keyed(s.shelf)
    ensures var o := DeleteVariants(s, book, target, who);
            Signed(o, who, if o.Committed? then KindOf(Delete(book, target, who), o.store.shelf) else None)
  {
  }

  lemma CommitSigned(sys: System, a: Action, text: Reconciliation -> nat)
    requires (a.CommitAdd? || a.CommitAssociate?) && Author(sys, a).Some?
    ensures Signed(Transaction(sys, a, text), Author(sys, a).value, KindOf(a, map[]))
  {
  }

  /** Every recorded change says what was done, by whom and when. */
  lemma ChangesAreSigned(sys: System, a: Action, text: Reconciliation -> nat)
    requires Keyed(sys.store.shelf) && Author(sys, a).Some?
    ensures var o := Transaction(sys, a, text);
            Signed(o, Author(sys, a).value, KindOf(a, After(sys.store, o).shelf))
  {
    if a.CommitAdd? || a.CommitAssociate? {
      CommitSigned(sys, a, text);
    } else if a.Delete? {
      DeleteSigned(sys.store, a.book, a.target, a.who);
    }
  }

  lemma StepIsExplained(sys: System, a: Action, text: Reconciliation -> nat)
    requires Recording(a)
    ensures Explained(sys, Apply(sys, a, text))
  {
    TransactionRecords(sys, a, text);
    var o := Transaction(sys, a, text);
    if Author(sys, a).Some? && o.Committed? {
      var c := o.store.outbox[Author(sys, a).value.changeId];
      assert Apply(sys, a, text).log == sys.log + [c];
    } else {
      assert Apply(sys, a, text).log == sys.log;
    }
  }

  /** An outbox with more changes put into it, a later one over an earlier one with its identifier. */
  function OutboxWith(outbox: map<ChangeId, Change>, changes: seq<Change>): map<ChangeId, Change> {
    if changes == [] then outbox else
    OutboxWith(outbox, changes[..|changes| - 1])[changes[|changes| - 1].id := changes[|changes| - 1]]
  }

  lemma OutboxNext(outbox: map<ChangeId, Change>, changes: seq<Change>, c: Change)
    ensures OutboxWith(outbox, changes + [c]) == OutboxWith(outbox, changes)[c.id := c]
  {
    assert (changes + [c])[..|changes|] == changes;
  }

  /** Two parts one after the other. */
  lemma {:induction false} ReplayInParts(m: Shelf, outbox: map<ChangeId, Change>, first: seq<Change>, second: seq<Change>)
    ensures Replay(m, first + second) == Replay(Replay(m, first), second)
    ensures OutboxWith(outbox, first + second) == OutboxWith(OutboxWith(outbox, first), second)
  {
    if second == [] {
      assert first + second == first;
    } else {
      var n := |second| - 1;
      ReplayInParts(m, outbox, first, second[..n]);
      assert first + second == (first + second[..n]) + [second[n]];
      ReplayNext(m, first + second[..n], second[n]);
      OutboxNext(outbox, first + second[..n], second[n]);
    }
  }

  /** What a run added to the history. */
  ghost function Added(sys: System, actions: seq<Action>, text: Reconciliation -> nat): seq<Change> {
    var log := Run(sys, actions, text).log;
    if |sys.log| <= |log| then log[|sys.log|..] else []
  }

  lemma {:induction false} LogGrows(sys: System, actions: seq<Action>, text: Reconciliation -> nat)
    ensures Run(sys, actions, text).log == sys.log + Added(sys, actions, text)
  {
    if actions != [] {
      LogGrows(sys, actions[..|actions| - 1], text);
    }
  }

  lemma AddedNext(sys: System, actions: seq<Action>, text: Reconciliation -> nat)
    requires actions != []
    ensures var n := |actions| - 1;
            var before := Run(sys, actions[..n], text);
            Added(sys, actions, text) == Added(sys, actions[..n], text)
              + Logged(Transaction(before, actions[n], text), Author(before, actions[n]))
  {
    LogGrows(sys, actions, text);
    LogGrows(sys, actions[..|actions| - 1], text);
  }

  /** The committed changes of a recording run, replayed in commit order over the shelf it started
      from, give exactly the shelf it ended with; the outbox has them on top of what was pending. */
  lemma {:induction false} CommittedChangesReplay(sys: System, actions: seq<Action>, text: Reconciliation -> nat)
    requires RecordingRun(actions)
    ensures var sys', added := Run(sys, actions, text), Added(sys, actions, text);
            && Replay(sys.store.shelf, added) == sys'.store.shelf
            && OutboxWith(sys.store.outbox, added) == sys'.store.outbox
  {
    if actions != [] {
      var n := |actions| - 1;
      CommittedChangesReplay(sys, actions[..n], text);
      var before, a := Run(sys, actions[..n], text), actions[n];
      AddedNext(sys, actions, text);
      TransactionRecords(before, a, text);
      var o := Transaction(before, a, text);
      var logged := Logged(o, Author(before, a));
      if o.Committed? && Author(before, a).Some? {
        var c := o.store.outbox[Author(before, a).value.changeId];
        assert logged == [c];
        ReplayNext(sys.store.shelf, Added(sys, actions[..n], text), c);
        OutboxNext(sys.store.outbox, Added(sys, actions[..n], text), c);
      } else {
        assert Added(sys, actions[..n], text) + logged == Added(sys, actions[..n], text);
      }
    }
  }

  // ----- the pending list -----

  /** The order of the pending list: creation time, then change identifier. */
  predicate Earlier(a: Change, b: Change) {
    a.createdAt < b.createdAt || (a.createdAt == b.createdAt && a.id < b.id)
  }

  predicate Ordered(changes: seq<Change>) {
    forall i, j | 0 <= i < j < |changes| :: Earlier(changes[i], changes[j])
  }

  const MAX_BOOKS := 2
  const MAX_PARENTS := 32

  predicate ReadableParents(parents: multiset<ChangeId>) {
    |parents| <= MAX_PARENTS && forall p | p in parents :: parents[p] == 1
  }

  /** What the validator of stored changes accepts: at most two resulting books, at most two removed
      ones, and at most 32 parents without repetition. */
  predicate Readable(c: Change) {
    |c.resulting| <= MAX_BOOKS && |c.removed| <= MAX_BOOKS && ReadableParents(c.parents)
  }

  function Insert(changes: seq<Change>, c: Change): seq<Change> {
    if changes == [] || Earlier(c, changes[0]) then [c] + changes
    else [changes[0]] + Insert(changes[1..], c)
  }

  lemma {:induction false} InsertOrdered(changes: seq<Change>, c: Change)
    requires Ordered(changes) && forall d | d in changes :: d.id != c.id
    ensures Ordered(Insert(changes, c))
    ensures forall d :: d in Insert(changes, c) <==> d in changes || d == c
  {
    if changes != [] && !Earlier(c, changes[0]) {
      assert changes[0] in changes;
      forall d | d in changes[1..] ensures d.id != c.id { assert d in changes; }
      InsertOrdered(changes[1..], c);
      var rest := Insert(changes[1..], c);
      forall k | 0 <= k < |rest| ensures Earlier(changes[0], rest[k]) {
        assert rest[k] in rest;
        if rest[k] != c {
          var m :| 0 <= m < |changes[1..]| && changes[1..][m] == rest[k];
          assert changes[m + 1] == rest[k];
        }
      }
      forall d ensures d in [changes[0]] + rest <==> d in changes || d == c {
        assert d in changes <==> d == changes[0] || d in changes[1..];
      }
    }
  }

  predicate Stored(outbox: map<ChangeId, Change>, c: Change) {
    c.id in outbox && outbox[c.id] == c
  }

  /** Reading the outbox: unreadable changes are moved out of it, the others are listed in order. */
  method ListPending(outbox: map<ChangeId, Change>) returns (listed: seq<Change>, quarantined: set<Change>)
    requires forall id | id in outbox :: outbox[id].id == id
    ensures Ordered(listed)
    ensures forall c :: c in listed <==> Stored(outbox, c) && Readable(c)
    ensures forall c :: c in quarantined <==> Stored(outbox, c) && !Readable(c)
  {
    listed, quarantined := [], {};
    var todo := outbox.Keys;
    while todo != {}
      invariant todo <= outbox.Keys && Ordered(listed)
      invariant forall c :: c in listed <==> Stored(outbox, c) && c.id !in todo && Readable(c)
      invariant forall c :: c in quarantined <==> Stored(outbox, c) && c.id !in todo && !Readable(c)
      decreases todo
    {
      var id :| id in todo;
      var c := outbox[id];
      if Readable(c) {
        InsertOrdered(listed, c);
        listed := Insert(listed, c);
      } else {
        quarantined := quarantined + {c};
      }
      todo := todo - {id};
    }
  }

  function Readables(changes: seq<Change>): seq<Change> {
    if changes == [] then [] else
    var n := |changes| - 1;
    Readables(changes[..n]) + (if Readable(changes[n]) then [changes[n]] else [])
  }

  lemma {:induction false} ReadablesAre(changes: seq<Change>)
    ensures forall c :: c in Readables(changes) <==> c in changes && Readable(c)
    ensures |Readables(changes)| <= |changes|
  {
    if changes != [] {
      var n := |changes| - 1;
      ReadablesAre(changes[..n]);
      assert changes == changes[..n] + [changes[n]];
    }
  }

  lemma AllReadable(changes: seq<Change>)
    ensures Readables(changes) == changes <==> forall c | c in changes :: Readable(c)
  {
    ReadablesAre(changes);
    if forall c | c in changes :: Readable(c) {
      NothingDropped(changes);
    }
  }

  lemma {:induction false} NothingDropped(changes: seq<Change>)
    requires forall i | 0 <= i < |changes| :: Readable(changes[i])
    ensures Readables(changes) == changes
  {
    if changes != [] {
      var n := |changes| - 1;
      NothingDropped(changes[..n]);
      assert changes == changes[..n] + [changes[n]];
    }
  }

  lemma {:induction false} ReadablesOrdered(changes: seq<Change>)
    requires Ordered(changes)
    ensures Ordered(Readables(changes))
  {
    if changes != [] {
      var n := |changes| - 1;
      var rest := Readables(changes[..n]);
      ReadablesOrdered(changes[..n]);
      ReadablesAre(changes[..n]);
      forall i | 0 <= i < |rest| ensures Earlier(rest[i], changes[n]) {
        assert rest[i] in changes[..n];
        var k :| 0 <= k < n && changes[..n][k] == rest[i];
        assert changes[k] == rest[i];
      }
    }
  }

  lemma {:induction false} OrderedIsUnique(a: seq<Change>, b: seq<Change>)
    requires Ordered(a) && Ordered(b) && forall c :: c in a <==> c in b
    ensures a == b
  {
    if a != [] && b != [] {
      assert a[0] in b && b[0] in a;
      var i :| 0 <= i < |b| && b[i] == a[0];
      var j :| 0 <= j < |a| && a[j] == b[0];
      forall c ensures c in a[1..] <==> c in b[1..] {
        assert c in a <==> c == a[0] || c in a[1..];
        assert c in b <==> c == b[0] || c in b[1..];
        if c in a[1..] { var k :| 0 <= k < |a[1..]| && a[1..][k] == c; assert Earlier(a[0], a[k + 1]); }
        if c in b[1..] { var k :| 0 <= k < |b[1..]| && b[1..][k] == c; assert Earlier(b[0], b[k + 1]); }
      }
      OrderedIsUnique(a[1..], b[1..]);
    } else {
      if a != [] { HasFirst(a); }
      if b != [] { HasFirst(b); }
    }
  }

  lemma HasFirst(changes: seq<Change>)
    requires changes != []
    ensures exists c :: c in changes
  {
    assert changes[0] in changes;
  }

  predicate DistinctChanges(changes: seq<Change>) {
    forall i, j | 0 <= i < j < |changes| :: changes[i].id != changes[j].id
  }

  lemma {:induction false} OutboxHas(changes: seq<Change>)
    requires DistinctChanges(changes)
    ensures forall c :: c in changes <==> Stored(OutboxWith(map[], changes), c)
  {
    if changes != [] {
      var n := |changes| - 1;
      OutboxHas(changes[..n]);
      assert changes == changes[..n] + [changes[n]];
      forall c ensures c in changes <==> Stored(OutboxWith(map[], changes), c) {
        if c in changes[..n] {
          var k :| 0 <= k < n && changes[..n][k] == c;
          assert changes[k].id != changes[n].id;
        }
      }
    }
  }

  // ----- which changes are readable -----

  predicate ParentsFit(parents: seq<ChangeId>) {
    |parents| <= MAX_PARENTS && forall i, j | 0 <= i < j < |parents| :: parents[i] != parents[j]
  }

  lemma {:induction false} CountsAndRepeats(parents: seq<ChangeId>)
    ensures (forall p | p in multiset(parents) :: multiset(parents)[p] == 1) <==>
              forall i, j | 0 <= i < j < |parents| :: parents[i] != parents[j]
  {
    if parents != [] {
      var n := |parents| - 1;
      CountsAndRepeats(parents[..n]);
      assert parents == parents[..n] + [parents[n]];
      assert parents[n] in multiset(parents[..n]) <==> parents[n] in parents[..n];
      LastRepeats(parents);
      if forall p | p in multiset(parents) :: multiset(parents)[p] == 1 {
        forall p | p in multiset(parents[..n]) ensures multiset(parents[..n])[p] == 1 {
          assert p in multiset(parents);
        }
        assert multiset(parents)[parents[n]] == 1;
      }
    }
  }

  lemma LastRepeats(parents: seq<ChangeId>)
    requires parents != []
    ensures var n := |parents| - 1;
            (forall i, j | 0 <= i < j < |parents| :: parents[i] != parents[j]) <==>
              && (forall i, j | 0 <= i < j < n :: parents[..n][i] != parents[..n][j])
              && parents[n] !in parents[..n]
  {
    var n := |parents| - 1;
    if parents[n] in parents[..n] {
      var i :| 0 <= i < n && parents[..n][i] == parents[n];
      assert parents[i] == parents[n];
    }
    if forall i, j | 0 <= i < j < |parents| :: parents[i] != parents[j] {
      forall i, j | 0 <= i < j < n ensures parents[..n][i] != parents[..n][j] {
        assert parents[i] != parents[j];
      }
    }
    if (forall i, j | 0 <= i < j < n :: parents[..n][i] != parents[..n][j]) && parents[n] !in parents[..n] {
      forall i, j | 0 <= i < j < |parents| ensures parents[i] != parents[j] {
        assert parents[..n][i] == parents[i];
        if j < n { assert parents[..n][j] == parents[j]; }
      }
    }
  }

  /** The logical books that keep a variant when the affected ones are taken off. */
  function BooksKept(m: Shelf, affected: seq<VariantId>): set<LogicalBookId> {
    set id | id in m && KeepsSome(m[id], affected)
  }

  predicate KeepsSome(b: LogicalBook, affected: seq<VariantId>) {
    exists f :: f in b.variants && b.variants[f] !in affected
  }

  /** The logical books a decision puts rows into. */
  function BooksChosen(s: Store, raw: Reconciliation, decision: Decision, derived: LogicalBookId)
      : set<LogicalBookId> {
    match decision
    case KeepAccepted => set r | r in raw.accepted :: r.book
    case AcceptRejected(book) => {book}
    case MakeStandalone(v) =>
      (set r | r in raw.accepted && r.variant != v :: r.book) + {StandaloneId(s, v, derived)}
  }

  /** The logical books there will be, told from the library before the reconciliation. */
  function BooksAfter(s: Store, raw: Reconciliation, decision: Decision, derived: LogicalBookId)
      : set<LogicalBookId> {
    BooksKept(s.shelf, raw.affected) + BooksChosen(s, raw, decision, derived)
  }

  function BooksOf(rows: seq<Row>): set<LogicalBookId> {
    set r | r in rows :: r.book
  }

  lemma {:induction false} AddRowsBooks(m: Shelf, rows: seq<Row>, records: Records, now: Time)
    requires AddRows(m, rows, records, now).Some?
    ensures AddRows(m, rows, records, now).value.Keys == m.Keys + BooksOf(rows)
  {
    if rows != [] {
      var n := |rows| - 1;
      AddRowsBooks(m, rows[..n], records, now);
      assert rows == rows[..n] + [rows[n]];
      assert BooksOf(rows) == BooksOf(rows[..n]) + {rows[n].book};
    }
  }

  lemma StrippedBooks(m: Shelf, affected: seq<VariantId>, now: Time)
    requires affected != []
    ensures StrippedAll(m, affected, now).Keys == BooksKept(m, affected)
  {
    var gone := Members(affected);
    forall id | id in m
      ensures Filled(Without(m[id], gone)) <==> KeepsSome(m[id], affected)
    {
      if f :| f in m[id].variants && m[id].variants[f] !in affected {
        assert f in Without(m[id], gone) && (f == Epub || f == Pdf);
      }
    }
  }

  lemma ChosenBooks(s: Store, raw: Reconciliation, decision: Decision, derived: LogicalBookId, now: Time)
    requires Select(s, raw, decision, derived, now).Some?
    ensures BooksOf(Select(s, raw, decision, derived, now).value.rows) == BooksChosen(s, raw, decision, derived)
  {
    SelectedRows(s, raw, decision, derived, now);
    var rows := Select(s, raw, decision, derived, now).value.rows;
    match decision
    case KeepAccepted =>
    case AcceptRejected(book) =>
      assert rows[0] in rows;
      assert rows[0].book == book;
    case MakeStandalone(v) =>
      var row := Row(StandaloneId(s, v, derived), s.records[v].format, v);
      assert row in rows && row.book == StandaloneId(s, v, derived);
  }

  /** A standalone book is written into the working map and stripped again before its row goes in. */
  lemma BaseBooks(s: Store, raw: Reconciliation, decision: Decision, derived: LogicalBookId, now: Time)
    requires RecordsKeyed(s.records) && raw.affected != [] && Select(s, raw, decision, derived, now).Some?
    ensures BooksKept(Select(s, raw, decision, derived, now).value.books, raw.affected)
              + BooksChosen(s, raw, decision, derived)
         == BooksAfter(s, raw, decision, derived)
  {
    var base := Select(s, raw, decision, derived, now).value.books;
    if decision.MakeStandalone? {
      var id := StandaloneId(s, decision.variant, derived);
      assert base[id].variants == map[s.records[decision.variant].format := decision.variant];
      assert id !in BooksKept(base, raw.affected);
      forall b | b != id ensures b in BooksKept(base, raw.affected) <==> b in BooksKept(s.shelf, raw.affected) {
      }
    }
  }

  /** Which books a committed reconciliation leaves. */
  lemma ReconciledBooks(s: Store, conflict: ConflictId, decision: Decision, derived: LogicalBookId, who: Identity)
    requires RecordsKeyed(s.records)
    requires Reconciling.ReconcileMembership(s, conflict, decision, derived, who).Committed?
    ensures Reconciling.ReconcileMembership(s, conflict, decision, derived, who).store.shelf.Keys
         == BooksAfter(s, s.reconciliations[conflict], decision, derived)
  {
    var raw, now := s.reconciliations[conflict], who.createdAt;
    var selection := Select(s, raw, decision, derived, now).value;
    StrippedBooks(selection.books, raw.affected, now);
    AddRowsBooks(StrippedAll(selection.books, raw.affected, now), selection.rows, s.records, now);
    ChosenBooks(s, raw, decision, derived, now);
    BaseBooks(s, raw, decision, derived, now);
  }

  /** At most two books will remain and at most two will be gone. */
  predicate BooksFit(s: Store, conflict: ConflictId, decision: Decision, derived: LogicalBookId) {
    conflict in s.reconciliations ==>
      var after := BooksAfter(s, s.reconciliations[conflict], decision, derived);
      |after| <= MAX_BOOKS && |s.shelf.Keys - after| <= MAX_BOOKS
  }

  lemma ReadableOfSequence(parents: seq<ChangeId>)
    ensures ReadableParents(multiset(parents)) <==> ParentsFit(parents)
  {
    CountsAndRepeats(parents);
  }

  /** A reconciliation lists every logical book, so its change can be read back exactly when the
      library, its conflict and the decision leave few enough of them. */
  lemma ReconcileReadable(
      s: Store, conflict: ConflictId, decision: Decision, derived: LogicalBookId, who: Identity)
    requires RecordsKeyed(s.records)
    requires Reconciling.ReconcileMembership(s, conflict, decision, derived, who).Committed?
    ensures var s' := Reconciling.ReconcileMembership(s, conflict, decision, derived, who).store;
            && who.changeId in s'.outbox
            && (Readable(s'.outbox[who.changeId]) <==> BooksFit(s, conflict, decision, derived) && ParentsFit(who.parents))
  {
    ReconciledBooks(s, conflict, decision, derived, who);
    ReadableOfSequence(who.parents);
    var s' := Reconciling.ReconcileMembership(s, conflict, decision, derived, who).store;
    assert |s'.shelf| == |s'.shelf.Keys|;
  }

  // ----- the other steps -----

  /** A committed outcome records a readable change exactly under the condition. */
  predicate ReadableWhen(o: Outcome, change: ChangeId, condition: bool) {
    o.Committed? ==> change in o.store.outbox && (Readable(o.store.outbox[change]) <==> condition)
  }

  lemma AddReadable(s: Store, destination: LogicalBook, variant: BookRecord, who: Identity)
    ensures ReadableWhen(AddCommit(s, destination, variant, who), who.changeId, ParentsFit(who.parents))
  {
    ReadableOfSequence(who.parents);
  }

  lemma AssociateReadable(s: Store, destination: LogicalBook, source: LogicalBook, who: Identity)
    ensures ReadableWhen(AssociateCommit(s, destination, source, who), who.changeId, ParentsFit(who.parents))
  {
    ReadableOfSequence(who.parents);
  }

  lemma PairIsSmall(m: Shelf, a: LogicalBookId, b: LogicalBookId)
    requires m.Keys == {a, b}
    ensures |m| <= MAX_BOOKS
  {
    assert |m| == |m.Keys|;
    assert a == b ==> m.Keys == {a};
  }

  lemma DetachReadable(s: Store, book: LogicalBookId, v: VariantId, derived: LogicalBookId, who: Identity)
    ensures ReadableWhen(DetachVariant(s, book, v, derived, who), who.changeId, ParentsFit(who.parents))
  {
    ReadableOfSequence(who.parents);
    var o := DetachVariant(s, book, v, derived, who);
    if o.Committed? {
      PairIsSmall(o.store.outbox[who.changeId].resulting, s.shelf[book].id, DetachedId(s, book, v, derived));
    }
  }

  lemma DeleteReadable(s: Store, book: LogicalBookId, target: Option<VariantId>, who: Identity)
    ensures ReadableWhen(DeleteVariants(s, book, target, who), who.changeId, ParentsFit(who.parents))
  {
    ReadableOfSequence(who.parents);
  }

  function HeadsOf(prefs: Preferences, book: LogicalBookId): set<ChangeId> {
    var read := ReadablePreferences(prefs);
    if book in read then read[book].heads else {}
  }

  /** A preference's change takes the earlier heads as parents, each once. */
  predicate HeadsAndParentsFit(s: Store, book: LogicalBookId, who: Identity) {
    |(set p | p in who.parents) + HeadsOf(s.preferences, book)| <= MAX_PARENTS
  }

  lemma PreferReadable(s: Store, book: LogicalBookId, f: Format, who: Identity)
    ensures ReadableWhen(SavePreference(s, book, f, who), who.changeId, HeadsAndParentsFit(s, book, who))
  {
    ReadableOfSet((set p | p in who.parents) + HeadsOf(s.preferences, book));
  }

  lemma ReadableOfSet(parents: set<ChangeId>)
    ensures ReadableParents(multiset(parents)) <==> |parents| <= MAX_PARENTS
  {
    assert |multiset(parents)| == |parents|;
  }

  // ----- whole runs -----

  /** Whether the change a step would record can be read back, told from the system before the step. */
  predicate Fits(sys: System, a: Action) {
    if a.Prefer? then HeadsAndParentsFit(sys.store, a.book, a.who)
    else
      && (Author(sys, a).Some? ==> ParentsFit(Author(sys, a).value.parents))
      && (a.Reconcile? ==> BooksFit(sys.store, a.conflict, a.decision, a.derived))
  }

  lemma CommitReadable(sys: System, a: Action, text: Reconciliation -> nat)
    requires (a.CommitAdd? || a.CommitAssociate?) && Author(sys, a).Some?
    ensures ReadableWhen(Transaction(sys, a, text), Author(sys, a).value.changeId, Fits(sys, a))
  {
    var p := sys.pending[a.op];
    if p.PendingAdd? {
      AddReadable(sys.store, p.destination, p.variant, p.who);
    } else {
      AssociateReadable(sys.store, p.destination, p.source, p.who);
    }
  }

  /** Every step that records a change: the change can be read back exactly when the step fits. Books can
      overflow in a reconciliation only, parents in every kind. */
  lemma StepReadable(sys: System, a: Action, text: Reconciliation -> nat)
    requires RecordsKeyed(sys.store.records) && Author(sys, a).Some?
    ensures ReadableWhen(Transaction(sys, a, text), Author(sys, a).value.changeId, Fits(sys, a))
  {
    var s := sys.store;
    if a.CommitAdd? || a.CommitAssociate? {
      CommitReadable(sys, a, text);
    } else if a.DetachFormat? {
      DetachReadable(s, a.book, a.variant, a.derived, a.who);
    } else if a.Delete? {
      DeleteReadable(s, a.book, a.target, a.who);
    } else if a.Prefer? {
      PreferReadable(s, a.book, a.format, a.who);
    } else if Transaction(sys, a, text).Committed? {
      ReconcileReadable(s, a.conflict, a.decision, a.derived, a.who);
    }
  }

  /** Every step of the run that commits fits the library it finds. */
  ghost predicate FittingRun(sys: System, actions: seq<Action>, text: Reconciliation -> nat) {
    if actions == [] then true else
    var n := |actions| - 1;
    var before := Run(sys, actions[..n], text);
    && FittingRun(sys, actions[..n], text)
    && (Transaction(before, actions[n], text).Committed? ==> Fits(before, actions[n]))
  }

  /** In every run, all changes it commits can be read back if and only if every committing step fits. */
  lemma {:induction false} LogIsReadable(sys: System, actions: seq<Action>, text: Reconciliation -> nat)
    requires SystemValid(sys) && AgreeingRun(sys, actions, text)
    ensures (forall c | c in Added(sys, actions, text) :: Readable(c)) <==> FittingRun(sys, actions, text)
  {
    if actions != [] {
      var n := |actions| - 1;
      var before, a := Run(sys, actions[..n], text), actions[n];
      LogIsReadable(sys, actions[..n], text);
      RunKeepsMembership(sys, actions[..n], text);
      AddedNext(sys, actions, text);
      var o := Transaction(before, a, text);
      StepLogsReadable(before, a, text);
      ReadableParts(Added(sys, actions[..n], text), Logged(o, Author(before, a)));
    } else {
      LogGrows(sys, actions, text);
    }
  }

  lemma StepLogsReadable(sys: System, a: Action, text: Reconciliation -> nat)
    requires RecordsKeyed(sys.store.records)
    ensures var o := Transaction(sys, a, text);
            (forall c | c in Logged(o, Author(sys, a)) :: Readable(c)) <==> (o.Committed? ==> Fits(sys, a))
  {
    if Author(sys, a).Some? {
      StepReadable(sys, a, text);
      var o := Transaction(sys, a, text);
      if o.Committed? {
        assert Logged(o, Author(sys, a)) == [o.store.outbox[Author(sys, a).value.changeId]];
      }
    } else {
      assert !a.Prefer? && !a.Reconcile?;
    }
  }

  lemma ReadableParts(first: seq<Change>, second: seq<Change>)
    ensures (forall c | c in first + second :: Readable(c)) <==>
              (forall c | c in first :: Readable(c)) && (forall c | c in second :: Readable(c))
  {
    assert forall c :: c in first + second <==> c in first || c in second;
  }

  /** The pending list after a recording run, in a library whose pending changes explain its shelf from
      `base` on. The changes have their own identifiers and increase in (creation time, identifier). The
      list is the changes, earlier and new, without the unreadable ones. It is all of them if and only if
      the earlier ones can be read and every committing step fits the library it finds, and then replaying
      it over `base` gives the shelf. */
  lemma PendingListReplays(
      base: Shelf, sys: System, actions: seq<Action>, text: Reconciliation -> nat, listed: seq<Change>)
    requires SystemValid(sys) && RecordingRun(actions)
    requires OutboxWith(map[], sys.log) == sys.store.outbox && Replay(base, sys.log) == sys.store.shelf
    requires DistinctChanges(Run(sys, actions, text).log) && Ordered(Run(sys, actions, text).log)
    requires Ordered(listed)
    requires forall c :: c in listed <==> Stored(Run(sys, actions, text).store.outbox, c) && Readable(c)
    ensures var sys' := Run(sys, actions, text);
            && listed == Readables(sys'.log)
            && (listed == sys'.log <==> (forall c | c in sys.log :: Readable(c)) && FittingRun(sys, actions, text))
            && (listed == sys'.log ==> Replay(base, listed) == sys'.store.shelf)
  {
    var sys', added := Run(sys, actions, text), Added(sys, actions, text);
    LogGrows(sys, actions, text);
    CommittedChangesReplay(sys, actions, text);
    ReplayInParts(base, map[], sys.log, added);
    ListIsReadables(sys'.log, listed);
    AllReadable(sys'.log);
    ReadableParts(sys.log, added);
    NoRestoreAgrees(sys, actions, text);
    LogIsReadable(sys, actions, text);
  }

  lemma ListIsReadables(log: seq<Change>, listed: seq<Change>)
    requires DistinctChanges(log) && Ordered(log) && Ordered(listed)
    requires forall c :: c in listed <==> Stored(OutboxWith(map[], log), c) && Readable(c)
    ensures listed == Readables(log)
  {
    OutboxHas(log);
    ReadablesAre(log);
    ReadablesOrdered(log);
    OrderedIsUnique(listed, Readables(log));
  }
}
