/** Resolving a membership conflict: every affected variant is taken off the shelf and the
    selected rows are put back. */
module Reconciling {
  import opened Common
  import opened LogicalBooks
  import opened LibraryTransactions
  import opened LibraryInvariant

  datatype Decision =
    | KeepAccepted
    | AcceptRejected(book: LogicalBookId)
    | MakeStandalone(variant: VariantId)

  // ----- taking the affected variants off the shelf -----

  function Stripped(m: Shelf, gone: set<VariantId>, now: Time): Shelf {
    map id | id in m && Filled(Without(m[id], gone)) ::
      m[id].(variants := Without(m[id], gone), updatedAt := now)
  }

  lemma WithoutTwice(b: LogicalBook, gone: set<VariantId>, v: VariantId, now: Time)
    ensures Without(b.(variants := Without(b, gone), updatedAt := now), {v}) == Without(b, gone + {v})
  {
  }

  lemma StrippedTwice(m: Shelf, gone: set<VariantId>, v: VariantId, now: Time)
    ensures Stripped(Stripped(m, gone, now), {v}, now) == Stripped(m, gone + {v}, now)
  {
    var once := Stripped(m, gone, now);
    forall id | id in m
      ensures id in Stripped(once, {v}, now) <==> id in Stripped(m, gone + {v}, now)
      ensures id in Stripped(once, {v}, now) ==> Stripped(once, {v}, now)[id] == Stripped(m, gone + {v}, now)[id]
    {
      WithoutTwice(m[id], gone, v, now);
    }
  }

  /** The inner loop: one affected variant, every book of the working map. */
  method StripVariant(m: Shelf, v: VariantId, now: Time) returns (books: Shelf)
    ensures books == Stripped(m, {v}, now)
  {
    books := m;
    var todo := m.Keys;
    while todo != {}
      invariant todo <= m.Keys && books.Keys <= m.Keys
      invariant forall id | id in todo :: id in books && books[id] == m[id]
      invariant forall id | id in m && id !in todo ::
                  (id in books <==> id in Stripped(m, {v}, now))
                  && (id in books ==> books[id] == Stripped(m, {v}, now)[id])
      decreases todo
    {
      var id :| id in todo;
      var book := books[id];
      var variants := book.variants;
      if Epub in variants && variants[Epub] == v { variants := variants - {Epub}; }
      if Pdf in variants && variants[Pdf] == v { variants := variants - {Pdf}; }
      assert variants == Without(m[id], {v}) by {
        forall f ensures f in variants <==> f in Without(m[id], {v}) {
          assert f == Epub || f == Pdf;
        }
      }
      if Epub !in variants && Pdf !in variants {
        books := books - {id};
      } else {
        books := books[id := book.(variants := variants, updatedAt := now)];
      }
      todo := todo - {id};
    }
    assert books.Keys == Stripped(m, {v}, now).Keys;
  }

  function Members(affected: seq<VariantId>): set<VariantId> {
    set v | v in affected
  }

  function StrippedAll(m: Shelf, affected: seq<VariantId>, now: Time): Shelf {
    if affected == [] then m else Stripped(m, Members(affected), now)
  }

  method StripAffected(m: Shelf, affected: seq<VariantId>, now: Time) returns (books: Shelf)
    ensures books == StrippedAll(m, affected, now)
  {
    books := m;
    for i := 0 to |affected|
      invariant books == StrippedAll(m, affected[..i], now)
    {
      books := StripVariant(books, affected[i], now);
      StrippedNext(m, affected, i, now);
    }
    assert affected[..|affected|] == affected;
  }

  lemma StrippedNext(m: Shelf, affected: seq<VariantId>, i: nat, now: Time)
    requires i < |affected|
    ensures StrippedAll(m, affected[..i + 1], now) == Stripped(StrippedAll(m, affected[..i], now), {affected[i]}, now)
  {
    var before := Members(affected[..i]);
    assert Members(affected[..i + 1]) == before + {affected[i]};
    if i == 0 {
      assert before + {affected[i]} == {affected[i]};
    } else {
      StrippedTwice(m, before, affected[i], now);
    }
  }

  lemma StrippedRows(m: Shelf, affected: seq<VariantId>, now: Time)
    ensures forall r :: HasRow(StrippedAll(m, affected, now), r) <==> HasRow(m, r) && r.variant !in affected
  {
    var gone := Members(affected);
    forall r ensures HasRow(StrippedAll(m, affected, now), r) <==> HasRow(m, r) && r.variant !in affected {
      if affected != [] && r.book in m {
        assert r.format == Epub || r.format == Pdf;
        assert r.format in Without(m[r.book], gone) <==>
               r.format in m[r.book].variants && m[r.book].variants[r.format] !in gone;
      }
    }
  }

  // ----- putting the selected rows back -----

  function AddRow(m: Shelf, row: Row, records: Records, now: Time): Option<Shelf> {
    if row.variant !in records || records[row.variant].format != row.format then None
    else if row.book in m then
      if row.format in m[row.book].variants && m[row.book].variants[row.format] != row.variant then None
      else Some(m[row.book := WithVariant(m[row.book], row.format, row.variant, now)])
    else Some(m[row.book := LogicalBookFromVariant(records[row.variant], now).(id := row.book)])
  }

  function AddRows(m: Shelf, rows: seq<Row>, records: Records, now: Time): Option<Shelf> {
    if rows == [] then Some(m) else
    var n := |rows| - 1;
    match AddRows(m, rows[..n], records, now)
    case None => None
    case Some(m') => AddRow(m', rows[n], records, now)
  }

  lemma {:induction false} AddRowsStops(m: Shelf, rows: seq<Row>, records: Records, now: Time, i: nat)
    requires i <= |rows| && AddRows(m, rows[..i], records, now).None?
    ensures AddRows(m, rows, records, now).None?
    decreases |rows| - i
  {
    if i < |rows| {
      assert rows[..i + 1][..i] == rows[..i];
      AddRowsStops(m, rows, records, now, i + 1);
    } else {
      assert rows[..i] == rows;
    }
  }

  /** The loop over the selected rows; it throws on an invalid variant or an occupied slot. */
  method PutSelected(m: Shelf, rows: seq<Row>, records: Records, now: Time) returns (books: Option<Shelf>)
    ensures books == AddRows(m, rows, records, now)
  {
    var current := m;
    for i := 0 to |rows|
      invariant AddRows(m, rows[..i], records, now) == Some(current)
    {
      var row := rows[i];
      assert rows[..i + 1][..i] == rows[..i];
      if row.variant !in records || records[row.variant].format != row.format {
        AddRowsStops(m, rows, records, now, i + 1);
        return None;
      }
      if row.book in current {
        var book := current[row.book];
        if row.format in book.variants && book.variants[row.format] != row.variant {
          AddRowsStops(m, rows, records, now, i + 1);
          return None;
        }
        current := current[row.book := WithVariant(book, row.format, row.variant, now)];
      } else {
        current := current[row.book := LogicalBookFromVariant(records[row.variant], now).(id := row.book)];
      }
    }
    assert rows[..|rows|] == rows;
    return Some(current);
  }

  lemma AddRowRows(m: Shelf, row: Row, records: Records, now: Time)
    requires AddRow(m, row, records, now).Some?
    requires forall v | v in records :: records[v].id == v
    ensures forall r :: HasRow(AddRow(m, row, records, now).value, r) <==> HasRow(m, r) || r == row
  {
  }

  /** Rows go in exactly as listed: an occupied slot is refused, never overwritten. */
  lemma {:induction false} AddRowsRows(m: Shelf, rows: seq<Row>, records: Records, now: Time)
    requires AddRows(m, rows, records, now).Some?
    requires forall v | v in records :: records[v].id == v
    ensures forall r :: HasRow(AddRows(m, rows, records, now).value, r) <==> HasRow(m, r) || r in rows
    ensures forall row | row in rows :: row.variant in records && records[row.variant].format == row.format
  {
    if rows != [] {
      var n := |rows| - 1;
      AddRowsRows(m, rows[..n], records, now);
      AddRowRows(AddRows(m, rows[..n], records, now).value, rows[n], records, now);
      assert rows == rows[..n] + [rows[n]];
    }
  }

  lemma {:induction false} AddRowsShape(m: Shelf, rows: seq<Row>, records: Records, now: Time)
    requires AddRows(m, rows, records, now).Some? && Keyed(m)
    requires forall id | id in m :: Filled(m[id].variants)
    ensures var m' := AddRows(m, rows, records, now).value;
            Keyed(m') && forall id | id in m' :: Filled(m'[id].variants)
  {
    if rows != [] {
      AddRowsShape(m, rows[..|rows| - 1], records, now);
    }
  }

  predicate Backed(records: Records, row: Row) {
    row.variant in records && records[row.variant].format == row.format
  }

  predicate SameSlot(r: Row, r': Row) {
    r.book == r'.book && r.format == r'.format
  }

  /** Every row has its publication, and no slot is asked to hold two variants. */
  ghost predicate RowsFit(m: Shelf, rows: seq<Row>, records: Records) {
    && (forall r | r in rows :: Backed(records, r))
    && (forall r, r' | r in rows && (HasRow(m, r') || r' in rows) && SameSlot(r, r') :: r == r')
  }

  lemma AddRowFits(m: Shelf, row: Row, records: Records, now: Time)
    ensures AddRow(m, row, records, now).Some? <==>
              Backed(records, row) && forall r | HasRow(m, r) && SameSlot(row, r) :: r == row
  {
    if row.book in m && row.format in m[row.book].variants {
      RowOf(m, row.book, row.format);
    }
  }

  /** When the loop over the selected rows goes through. */
  lemma {:induction false} AddRowsFit(m: Shelf, rows: seq<Row>, records: Records, now: Time)
    requires RecordsKeyed(records)
    ensures AddRows(m, rows, records, now).Some? <==> RowsFit(m, rows, records)
  {
    if rows != [] {
      var n := |rows| - 1;
      var rest, row := rows[..n], rows[n];
      AddRowsFit(m, rest, records, now);
      assert rows == rest + [row];
      assert forall r :: r in rows <==> r in rest || r == row;
      if AddRows(m, rest, records, now).Some? {
        var m' := AddRows(m, rest, records, now).value;
        AddRowsRows(m, rest, records, now);
        AddRowFits(m', row, records, now);
      }
    }
  }

  // ----- the three decisions -----

  function RowsOf(rows: seq<Row>, book: LogicalBookId): (kept: seq<Row>)
    ensures forall r :: r in kept <==> r in rows && r.book == book
  {
    if rows == [] then [] else
    var rest := RowsOf(rows[1..], book);
    if rows[0].book == book then [rows[0]] + rest else rest
  }

  function RowsExcept(rows: seq<Row>, v: VariantId): (kept: seq<Row>)
    ensures forall r :: r in kept <==> r in rows && r.variant != v
  {
    if rows == [] then [] else
    var rest := RowsExcept(rows[1..], v);
    if rows[0].variant != v then [rows[0]] + rest else rest
  }

  /** What a decision selects, and the working map it selects from. */
  datatype Selection = Selection(rows: seq<Row>, books: Shelf)

  function StandaloneId(s: Store, v: VariantId, derived: LogicalBookId): LogicalBookId {
    if SingletonLogicalBookId(v) in s.shelf then derived else SingletonLogicalBookId(v)
  }

  function Select(
      s: Store, raw: Reconciliation, decision: Decision, derived: LogicalBookId, now: Time): Option<Selection> {
    match decision
    case KeepAccepted => Some(Selection(raw.accepted, s.shelf))
    case AcceptRejected(book) =>
      var rows := RowsOf(raw.rejected, book);
      if rows == [] then None else Some(Selection(rows, s.shelf))
    case MakeStandalone(v) =>
      if v !in s.records || v !in raw.affected then None else
      var id := StandaloneId(s, v, derived);
      Some(Selection(RowsExcept(raw.accepted, v) + [Row(id, s.records[v].format, v)],
                     s.shelf[id := LogicalBookFromVariant(s.records[v], now).(id := id)]))
  }

  /** Preferences the new shelf does not allow are deleted, if they can be read at all. */
  function KeptPreferences(prefs: Preferences, m: Shelf): Preferences {
    map b | b in prefs
            && (ReadablePreference(prefs[b]) ==>
                  prefs[b].book in m && prefs[b].preferred in m[prefs[b].book].variants) :: prefs[b]
  }

  function Reconciled(
      s: Store, raw: Reconciliation, decision: Decision, derived: LogicalBookId, now: Time): Option<Shelf> {
    match Select(s, raw, decision, derived, now)
    case None => None
    case Some(selection) =>
      AddRows(StrippedAll(selection.books, raw.affected, now), selection.rows, s.records, now)
  }

  predicate Reconcilable(s: Store, conflict: ConflictId) {
    && conflict in s.reconciliations
    && ReadableReconciliation(s.reconciliations[conflict]) && s.reconciliations[conflict].status.Open?
  }

  /** The store is cleared and rewritten, so the unique indexes see the whole result. */
  function ReconcileCommit(s: Store, raw: Reconciliation, after: Shelf, who: Identity): Outcome {
    if !UniqueIndexes(after) then Unchanged else
    Committed(s.(shelf := after,
                 preferences := KeptPreferences(s.preferences, after),
                 reconciliations := s.reconciliations[raw.id := raw.(status := Resolved(who.changeId))],
                 outbox := s.outbox[who.changeId :=
                   LogicalChange(LogicalBooks.ReconcileMembership, who, after, s.shelf.Keys - after.Keys)]))
  }

  function ReconcileMembership(
      s: Store, conflict: ConflictId, decision: Decision, derived: LogicalBookId, who: Identity): Outcome {
    if !Reconcilable(s, conflict) then Unchanged else
    var raw := s.reconciliations[conflict];
    match Reconciled(s, raw, decision, derived, who.createdAt)
    case None => Unchanged
    case Some(after) => ReconcileCommit(s, raw, after, who)
  }

  // ----- the membership law -----

  /** Membership after a committed reconciliation is the old membership without the rows of the
      affected variants, together with exactly the selected rows; no book is left empty. The
      derived identifier of a standalone book is a hash, taken to be new. */
  lemma ReconcileMembershipLaw(
      s: Store, conflict: ConflictId, decision: Decision, derived: LogicalBookId, who: Identity)
    requires Valid(s)
    requires decision.MakeStandalone? ==> derived !in s.shelf
    requires ReconcileMembership(s, conflict, decision, derived, who).Committed?
    ensures var raw := s.reconciliations[conflict];
            var selected := Select(s, raw, decision, derived, who.createdAt).value.rows;
            var s' := ReconcileMembership(s, conflict, decision, derived, who).store;
            && (forall r :: HasRow(s'.shelf, r) <==>
                  (HasRow(s.shelf, r) && r.variant !in raw.affected) || r in selected)
            && Valid(s')
            && s'.records == s.records
  {
    var raw := s.reconciliations[conflict];
    var now := who.createdAt;
    var selection := Select(s, raw, decision, derived, now).value;
    var base := selection.books;
    var stripped := StrippedAll(base, raw.affected, now);
    var after := Reconciled(s, raw, decision, derived, now).value;
    BaseRows(s, raw, decision, derived, now);
    AddRowsRows(stripped, selection.rows, s.records, now);
    ReconcileValid(s, conflict, decision, derived, who);
  }

  /** The rows each decision chooses. */
  predicate Chosen(s: Store, raw: Reconciliation, decision: Decision, derived: LogicalBookId, r: Row) {
    match decision
    case KeepAccepted => r in raw.accepted
    case AcceptRejected(book) => r in raw.rejected && r.book == book
    case MakeStandalone(v) =>
      || (r in raw.accepted && r.variant != v)
      || (v in s.records && r.variant == v && r.format == s.records[v].format
          && r.book == if LogicalBookId(v.digest) in s.shelf then derived else LogicalBookId(v.digest))
  }

  /** The competing rows are there, or the variant is stored and part of the conflict. */
  ghost predicate Selectable(s: Store, raw: Reconciliation, decision: Decision) {
    match decision
    case KeepAccepted => true
    case AcceptRejected(book) => exists r :: r in raw.rejected && r.book == book
    case MakeStandalone(v) => v in s.records && v in raw.affected
  }

  lemma SelectedRows(
      s: Store, raw: Reconciliation, decision: Decision, derived: LogicalBookId, now: Time)
    ensures Select(s, raw, decision, derived, now).Some? <==> Selectable(s, raw, decision)
    ensures Select(s, raw, decision, derived, now).Some? ==>
              forall r :: r in Select(s, raw, decision, derived, now).value.rows <==>
                Chosen(s, raw, decision, derived, r)
  {
    match decision
    case KeepAccepted =>
    case AcceptRejected(book) =>
      var rows := RowsOf(raw.rejected, book);
      if rows != [] { assert rows[0] in rows; }
    case MakeStandalone(v) =>
      if v in s.records && v in raw.affected {
        var row := Row(StandaloneId(s, v, derived), s.records[v].format, v);
        var rows := RowsExcept(raw.accepted, v);
        forall r ensures r in rows + [row] <==> r in rows || r == row {
        }
      }
  }

  /** A row there will be: it stays, or it is chosen. */
  ghost predicate RowAfter(s: Store, raw: Reconciliation, decision: Decision, derived: LogicalBookId, r: Row) {
    (HasRow(s.shelf, r) && r.variant !in raw.affected) || Chosen(s, raw, decision, derived, r)
  }

  /** Told from the library before the call: the conflict is open, the decision can be taken, every chosen
      row has its publication, and no slot and no variant is asked for twice. */
  ghost predicate Settles(s: Store, conflict: ConflictId, decision: Decision, derived: LogicalBookId) {
    Reconcilable(s, conflict) &&
    var raw := s.reconciliations[conflict];
    && Selectable(s, raw, decision)
    && (forall r | Chosen(s, raw, decision, derived, r) :: Backed(s.records, r))
    && (forall r, r' | RowAfter(s, raw, decision, derived, r) && RowAfter(s, raw, decision, derived, r')
                       && (SameSlot(r, r') || r.variant == r'.variant) :: r == r')
  }

  /** The working map has the rows of the library, but for the affected variants. */
  lemma BaseRows(s: Store, raw: Reconciliation, decision: Decision, derived: LogicalBookId, now: Time)
    requires Valid(s) && (decision.MakeStandalone? ==> derived !in s.shelf)
    requires Select(s, raw, decision, derived, now).Some?
    ensures var stripped := StrippedAll(Select(s, raw, decision, derived, now).value.books, raw.affected, now);
            forall r :: HasRow(stripped, r) <==> HasRow(s.shelf, r) && r.variant !in raw.affected
  {
    var base := Select(s, raw, decision, derived, now).value.books;
    StrippedRows(base, raw.affected, now);
    forall r ensures HasRow(base, r) && r.variant !in raw.affected <==> HasRow(s.shelf, r) && r.variant !in raw.affected {
      if decision.MakeStandalone? && r.book == StandaloneId(s, decision.variant, derived) {
        assert r.book !in s.shelf;
        assert HasRow(base, r) ==> r.variant == decision.variant;
      }
    }
  }

  lemma SettlesFits(
      s: Store, conflict: ConflictId, decision: Decision, derived: LogicalBookId, stripped: Shelf, rows: seq<Row>)
    requires Settles(s, conflict, decision, derived)
    requires forall r :: HasRow(stripped, r) <==> HasRow(s.shelf, r) && r.variant !in s.reconciliations[conflict].affected
    requires forall r :: r in rows <==> Chosen(s, s.reconciliations[conflict], decision, derived, r)
    ensures RowsFit(stripped, rows, s.records)
  {
  }

  /** A reconciliation goes through exactly when it settles, and what is there then is what was to be
      there. */
  lemma ReconcileCommits(
      s: Store, conflict: ConflictId, decision: Decision, derived: LogicalBookId, who: Identity)
    requires Valid(s) && (decision.MakeStandalone? ==> derived !in s.shelf)
    ensures ReconcileMembership(s, conflict, decision, derived, who).Committed? <==>
              Settles(s, conflict, decision, derived)
    ensures ReconcileMembership(s, conflict, decision, derived, who).Committed? ==>
              forall r :: HasRow(ReconcileMembership(s, conflict, decision, derived, who).store.shelf, r) <==>
                RowAfter(s, s.reconciliations[conflict], decision, derived, r)
  {
    if ReconcileMembership(s, conflict, decision, derived, who).Committed? {
      CommittedSettles(s, conflict, decision, derived, who);
    } else if Settles(s, conflict, decision, derived) {
      SettlingCommits(s, conflict, decision, derived, who);
    }
  }

  lemma CommittedSettles(
      s: Store, conflict: ConflictId, decision: Decision, derived: LogicalBookId, who: Identity)
    requires Valid(s) && (decision.MakeStandalone? ==> derived !in s.shelf)
    requires ReconcileMembership(s, conflict, decision, derived, who).Committed?
    ensures Settles(s, conflict, decision, derived)
    ensures forall r :: HasRow(ReconcileMembership(s, conflict, decision, derived, who).store.shelf, r) <==>
              RowAfter(s, s.reconciliations[conflict], decision, derived, r)
  {
    var raw, now := s.reconciliations[conflict], who.createdAt;
    ReconcileMembershipLaw(s, conflict, decision, derived, who);
    SelectedRows(s, raw, decision, derived, now);
    var selection := Select(s, raw, decision, derived, now).value;
    AddRowsRows(StrippedAll(selection.books, raw.affected, now), selection.rows, s.records, now);
    var s' := ReconcileMembership(s, conflict, decision, derived, who).store;
    ConsistentIsOneOwner(s'.shelf, s'.records);
    OneOwnerSettles(s, conflict, decision, derived, s'.shelf);
  }

  lemma OneOwnerSettles(s: Store, conflict: ConflictId, decision: Decision, derived: LogicalBookId, after: Shelf)
    requires Reconcilable(s, conflict) && Selectable(s, s.reconciliations[conflict], decision) && OneOwner(after)
    requires forall r | Chosen(s, s.reconciliations[conflict], decision, derived, r) :: Backed(s.records, r)
    requires forall r :: HasRow(after, r) <==> RowAfter(s, s.reconciliations[conflict], decision, derived, r)
    ensures Settles(s, conflict, decision, derived)
  {
  }

  lemma SettlingCommits(
      s: Store, conflict: ConflictId, decision: Decision, derived: LogicalBookId, who: Identity)
    requires Valid(s) && (decision.MakeStandalone? ==> derived !in s.shelf)
    requires Settles(s, conflict, decision, derived)
    ensures ReconcileMembership(s, conflict, decision, derived, who).Committed?
  {
    var raw, now := s.reconciliations[conflict], who.createdAt;
    SelectedRows(s, raw, decision, derived, now);
    var selection := Select(s, raw, decision, derived, now).value;
    var stripped := StrippedAll(selection.books, raw.affected, now);
    BaseRows(s, raw, decision, derived, now);
    SettlesFits(s, conflict, decision, derived, stripped, selection.rows);
    AddRowsFit(stripped, selection.rows, s.records, now);
    AddRowsRows(stripped, selection.rows, s.records, now);
    SelectedShape(s, raw, decision, derived, now);
    SettledUnique(s, conflict, decision, derived, AddRows(stripped, selection.rows, s.records, now).value);
  }

  lemma SelectedShape(s: Store, raw: Reconciliation, decision: Decision, derived: LogicalBookId, now: Time)
    requires Valid(s) && Reconciled(s, raw, decision, derived, now).Some?
    ensures Keyed(Reconciled(s, raw, decision, derived, now).value)
  {
    var selection := Select(s, raw, decision, derived, now).value;
    StrippedShape(selection.books, raw.affected, now);
    AddRowsShape(StrippedAll(selection.books, raw.affected, now), selection.rows, s.records, now);
  }

  lemma SettledUnique(s: Store, conflict: ConflictId, decision: Decision, derived: LogicalBookId, after: Shelf)
    requires Settles(s, conflict, decision, derived) && Keyed(after)
    requires forall r :: HasRow(after, r) <==> RowAfter(s, s.reconciliations[conflict], decision, derived, r)
    ensures UniqueIndexes(after)
  {
    OneOwnerIsUnique(after);
  }

  /** Even a derived identifier that is already in use cannot break consistency. */
  lemma ReconcileValid(
      s: Store, conflict: ConflictId, decision: Decision, derived: LogicalBookId, who: Identity)
    requires Valid(s)
    ensures Valid(After(s, ReconcileMembership(s, conflict, decision, derived, who)))
  {
    if ReconcileMembership(s, conflict, decision, derived, who).Committed? {
      var raw := s.reconciliations[conflict];
      var now := who.createdAt;
      var selection := Select(s, raw, decision, derived, now).value;
      var stripped := StrippedAll(selection.books, raw.affected, now);
      forall r | HasRow(stripped, r) ensures HasRow(s.shelf, r) {
        StrippedRows(selection.books, raw.affected, now);
      }
      StrippedShape(selection.books, raw.affected, now);
      AddRowsRows(stripped, selection.rows, s.records, now);
      AddRowsShape(stripped, selection.rows, s.records, now);
    }
  }

  lemma StrippedShape(m: Shelf, affected: seq<VariantId>, now: Time)
    requires Keyed(m) && forall id | id in m :: Filled(m[id].variants)
    ensures var m' := StrippedAll(m, affected, now);
            Keyed(m') && forall id | id in m' :: Filled(m'[id].variants)
  {
  }

  /** The one accepted row has its publication stored in its format and among the affected ones, and its
      slot holds nothing else that stays. */
  ghost predicate OneRowSettles(s: Store, conflict: ConflictId, row: Row) {
    && Reconcilable(s, conflict) && s.reconciliations[conflict].accepted == [row]
    && row.variant in s.records && s.records[row.variant].format == row.format
    && row.variant in s.reconciliations[conflict].affected
    && forall r | HasRow(s.shelf, r) && r.book == row.book && r.format == row.format ::
         r.variant in s.reconciliations[conflict].affected
  }

  /** Keeping such a row goes through, and touches every other book. */
  lemma OneRowReconciles(s: Store, conflict: ConflictId, row: Row, derived: LogicalBookId, who: Identity)
    requires Valid(s) && OneRowSettles(s, conflict, row)
    ensures var o := ReconcileMembership(s, conflict, KeepAccepted, derived, who);
            && o.Committed?
            && forall id | id in o.store.shelf && id != row.book :: o.store.shelf[id].updatedAt == who.createdAt
  {
    var raw, now := s.reconciliations[conflict], who.createdAt;
    var stripped := StrippedAll(s.shelf, raw.affected, now);
    StrippedRows(s.shelf, raw.affected, now);
    StrippedShape(s.shelf, raw.affected, now);
    OneRow(stripped, row, s.records, now);
    if row.book in stripped && row.format in stripped[row.book].variants {
      RowOf(stripped, row.book, row.format);
    }
    var after := AddRow(stripped, row, s.records, now).value;
    AddRowRows(stripped, row, s.records, now);
    AddRowsShape(stripped, [row], s.records, now);
    ConsistentIsOneOwner(s.shelf, s.records);
    OneOwnerIsUnique(after);
  }

  lemma OneRow(m: Shelf, row: Row, records: Records, now: Time)
    ensures AddRows(m, [row], records, now) == AddRow(m, row, records, now)
  {
    assert [row][..|[row]| - 1] == [];
    assert AddRows(m, [row][..|[row]| - 1], records, now) == Some(m);
  }
}
