/** The optimistic restore: conflicts are collected against a snapshot, the archive is merged into
    it, and the commit goes through only if the logical state is still the snapshot. */
module LibraryRestore {
  import opened LogicalBooks
  import opened LibraryTransactions
  import opened LibraryInvariant
  import opened LibraryBackup

  // ----- conflicts -----

  datatype Conflict =
    | OwnedElsewhere(archiveBook: LogicalBookId, format: Format, variant: VariantId, currentBook: LogicalBookId)
    | SlotOccupied(archiveBook: LogicalBookId, format: Format, variant: VariantId, currentVariant: VariantId)

  function ConflictRow(c: Conflict): Row {
    Row(c.archiveBook, c.format, c.variant)
  }

  /** The archived variant is owned by another book, or its slot holds another variant. */
  ghost predicate Clashes(c: Conflict, current: Shelf) {
    match c
    case OwnedElsewhere(book, f, v, owner) => owner != book && exists g :: HasRow(current, Row(owner, g, v))
    case SlotOccupied(book, f, v, w) => w != v && HasRow(current, Row(book, f, w))
  }

  ghost predicate IsConflict(c: Conflict, archived: seq<LogicalBook>, current: Shelf) {
    ArchiveRow(archived, ConflictRow(c)) && Clashes(c, current)
  }

  ghost predicate NoConflicts(archived: seq<LogicalBook>, current: Shelf) {
    forall r | ArchiveRow(archived, r) ::
      && (forall r' | HasRow(current, r') && r'.variant == r.variant :: r'.book == r.book)
      && (forall r' | HasRow(current, r') && r'.book == r.book && r'.format == r.format :: r' == r)
  }

  lemma NoConflictsMeansNone(archived: seq<LogicalBook>, current: Shelf)
    ensures NoConflicts(archived, current) <==> forall c :: !IsConflict(c, archived, current)
  {
    if c :| IsConflict(c, archived, current) {
      var r := Row(c.archiveBook, c.format, c.variant);
      match c
      case OwnedElsewhere(book, f, v, owner) =>
        var g :| HasRow(current, Row(owner, g, v));
        assert !NoConflicts(archived, current);
      case SlotOccupied(book, f, v, w) =>
        assert HasRow(current, Row(book, f, w));
        assert !NoConflicts(archived, current);
    }
    if forall c :: !IsConflict(c, archived, current) {
      forall r | ArchiveRow(archived, r)
        ensures forall r' | HasRow(current, r') && r'.variant == r.variant :: r'.book == r.book
        ensures forall r' | HasRow(current, r') && r'.book == r.book && r'.format == r.format :: r' == r
      {
        assert r == Row(r.book, r.format, r.variant);
        forall r' | HasRow(current, r') && r'.variant == r.variant ensures r'.book == r.book {
          assert HasRow(current, Row(r'.book, r'.format, r.variant));
          assert r'.book == r.book || IsConflict(OwnedElsewhere(r.book, r.format, r.variant, r'.book), archived, current);
        }
        forall r' | HasRow(current, r') && r'.book == r.book && r'.format == r.format ensures r' == r {
          assert r' == r || IsConflict(SlotOccupied(r.book, r.format, r.variant, r'.variant), archived, current);
        }
      }
    }
  }

  /** The table from variant to owning book. */
  method OwnersByVariant(current: Shelf) returns (owners: map<VariantId, LogicalBookId>)
    ensures forall v | v in owners :: exists f :: HasRow(current, Row(owners[v], f, v))
    ensures forall r | HasRow(current, r) :: r.variant in owners
  {
    owners := map[];
    var todo := current.Keys;
    while todo != {}
      invariant todo <= current.Keys
      invariant forall v | v in owners :: exists f :: HasRow(current, Row(owners[v], f, v))
      invariant forall r | HasRow(current, r) && r.book !in todo :: r.variant in owners
      decreases todo
    {
      var id :| id in todo;
      var variants := current[id].variants;
      if Epub in variants {
        assert HasRow(current, Row(id, Epub, variants[Epub]));
        owners := owners[variants[Epub] := id];
      }
      if Pdf in variants {
        assert HasRow(current, Row(id, Pdf, variants[Pdf]));
        owners := owners[variants[Pdf] := id];
      }
      forall r | HasRow(current, r) && r.book == id ensures r.variant in owners {
        assert r.format == Epub || r.format == Pdf;
      }
      todo := todo - {id};
    }
  }

  /** The conflicts of one archived row. */
  function RowConflicts(
      book: LogicalBookId, f: Format, v: VariantId, owners: map<VariantId, LogicalBookId>, current: Shelf)
      : set<Conflict> {
    (if v in owners && owners[v] != book then {OwnedElsewhere(book, f, v, owners[v])} else {})
    + (if book in current && f in current[book].variants && current[book].variants[f] != v
       then {SlotOccupied(book, f, v, current[book].variants[f])} else {})
  }

  lemma RowConflictsExact(
      r: Row, owners: map<VariantId, LogicalBookId>, current: Shelf, c: Conflict)
    requires OneOwner(current)
    requires forall v | v in owners :: exists f :: HasRow(current, Row(owners[v], f, v))
    requires forall r | HasRow(current, r) :: r.variant in owners
    ensures c in RowConflicts(r.book, r.format, r.variant, owners, current) <==>
              Clashes(c, current) && ConflictRow(c) == r
  {
  }

  function BookConflicts(b: LogicalBook, owners: map<VariantId, LogicalBookId>, current: Shelf): set<Conflict> {
    (if Epub in b.variants then RowConflicts(b.id, Epub, b.variants[Epub], owners, current) else {})
    + (if Pdf in b.variants then RowConflicts(b.id, Pdf, b.variants[Pdf], owners, current) else {})
  }

  lemma BookConflictsExact(
      b: LogicalBook, owners: map<VariantId, LogicalBookId>, current: Shelf, c: Conflict)
    requires OneOwner(current)
    requires forall v | v in owners :: exists f :: HasRow(current, Row(owners[v], f, v))
    requires forall r | HasRow(current, r) :: r.variant in owners
    ensures c in BookConflicts(b, owners, current) <==>
              && Clashes(c, current)
              && c.archiveBook == b.id && c.format in b.variants && b.variants[c.format] == c.variant
  {
    assert c.format == Epub || c.format == Pdf;
    if Epub in b.variants { RowConflictsExact(Row(b.id, Epub, b.variants[Epub]), owners, current, c); }
    if Pdf in b.variants { RowConflictsExact(Row(b.id, Pdf, b.variants[Pdf]), owners, current, c); }
  }

  /** The collected conflicts are exactly the conflicts. A list without repetitions, sorted for
      display, is a set. */
  method CollectRestoreConflicts(archived: seq<LogicalBook>, current: Shelf) returns (conflicts: set<Conflict>)
    ensures OneOwner(current) ==> forall c :: c in conflicts <==> IsConflict(c, archived, current)
  {
    var owners := OwnersByVariant(current);
    conflicts := {};
    for i := 0 to |archived|
      invariant OneOwner(current) ==> forall c :: c in conflicts <==> IsConflict(c, archived[..i], current)
    {
      var found := BookConflicts(archived[i], owners, current);
      if OneOwner(current) {
        forall c ensures c in conflicts + found <==> IsConflict(c, archived[..i + 1], current) {
          ArchiveRowNext(archived, i, ConflictRow(c));
          BookConflictsExact(archived[i], owners, current, c);
        }
      }
      conflicts := conflicts + found;
    }
    assert archived[..|archived|] == archived;
  }

  lemma ArchiveRowNext(archived: seq<LogicalBook>, i: nat, r: Row)
    requires i < |archived|
    ensures ArchiveRow(archived[..i + 1], r) <==>
              || ArchiveRow(archived[..i], r)
              || (archived[i].id == r.book && r.format in archived[i].variants
                  && archived[i].variants[r.format] == r.variant)
  {
  }

  // ----- merging logical books -----

  function MergeBook(m: Shelf, imported: LogicalBook): Shelf {
    m[imported.id :=
      if imported.id in m then imported.(variants := m[imported.id].variants + imported.variants) else imported]
  }

  function MergedShelf(current: Shelf, archived: seq<LogicalBook>): Shelf {
    if archived == [] then current else
    MergeBook(MergedShelf(current, archived[..|archived| - 1]), archived[|archived| - 1])
  }

  method MergeLogicalBooks(current: Shelf, archived: seq<LogicalBook>) returns (merged: Shelf)
    ensures merged == MergedShelf(current, archived)
  {
    merged := current;
    for i := 0 to |archived|
      invariant merged == MergedShelf(current, archived[..i])
    {
      var imported := archived[i];
      if imported.id in merged {
        merged := merged[imported.id := imported.(variants := merged[imported.id].variants + imported.variants)];
      } else {
        merged := merged[imported.id := imported];
      }
      assert archived[..i + 1][..i] == archived[..i];
    }
    assert archived[..|archived|] == archived;
  }

  lemma {:induction false} MergedShape(current: Shelf, archived: seq<LogicalBook>)
    requires Keyed(current) && forall id | id in current :: Filled(current[id].variants)
    requires forall i | 0 <= i < |archived| :: Filled(archived[i].variants)
    ensures var m := MergedShelf(current, archived);
            Keyed(m) && forall id | id in m :: Filled(m[id].variants)
  {
    if archived != [] {
      MergedShape(current, archived[..|archived| - 1]);
    }
  }

  lemma MergeBookRows(m: Shelf, imported: LogicalBook, r: Row)
    requires forall r' | HasRow(m, r') && r'.book == imported.id && r'.format in imported.variants ::
               r'.variant == imported.variants[r'.format]
    ensures HasRow(MergeBook(m, imported), r) <==>
              || HasRow(m, r)
              || (imported.id == r.book && r.format in imported.variants
                  && imported.variants[r.format] == r.variant)
  {
  }

  /** Merging without conflicts is the union of the rows: no slot is overwritten. */
  lemma {:induction false} MergedRows(current: Shelf, archived: seq<LogicalBook>)
    requires DistinctLogical(archived) && NoConflicts(archived, current)
    ensures forall r :: HasRow(MergedShelf(current, archived), r) <==> HasRow(current, r) || ArchiveRow(archived, r)
  {
    if archived != [] {
      var n := |archived| - 1;
      var last := archived[n];
      var m := MergedShelf(current, archived[..n]);
      assert archived[..n + 1] == archived;
      forall r | ArchiveRow(archived[..n], r) ensures ArchiveRow(archived, r) { ArchiveRowNext(archived, n, r); }
      MergedRows(current, archived[..n]);
      forall r' | HasRow(m, r') && r'.book == last.id && r'.format in last.variants
        ensures r'.variant == last.variants[r'.format]
      {
        var r := Row(last.id, r'.format, last.variants[r'.format]);
        ArchiveRowNext(archived, n, r);
        assert !ArchiveRow(archived[..n], r');
        assert HasRow(current, r');
      }
      forall r ensures HasRow(MergedShelf(current, archived), r) <==> HasRow(current, r) || ArchiveRow(archived, r) {
        MergeBookRows(m, last, r);
        ArchiveRowNext(archived, n, r);
      }
    }
  }

  // ----- merging preferences -----

  function WinningPreference(existing: Preference, imported: Preference): Preference {
    var importedDescends := existing.winner in imported.heads;
    var existingDescends := imported.winner in existing.heads;
    if importedDescends && !existingDescends then imported
    else if existingDescends && !importedDescends then existing
    else if imported.winner >= existing.winner then imported
    else existing
  }

  function MergePreference(existing: Preference, imported: Preference): Preference {
    WinningPreference(existing, imported).(heads := existing.heads + imported.heads)
  }

  function AddPreference(m: Preferences, imported: Preference): Preferences {
    m[imported.book := if imported.book in m then MergePreference(m[imported.book], imported) else imported]
  }

  function MergedPreferences(current: Preferences, archived: seq<Preference>): Preferences {
    if archived == [] then current else
    AddPreference(MergedPreferences(current, archived[..|archived| - 1]), archived[|archived| - 1])
  }

  method MergeLogicalPreferences(current: Preferences, archived: seq<Preference>) returns (merged: Preferences)
    ensures merged == MergedPreferences(current, archived)
  {
    merged := current;
    for i := 0 to |archived|
      invariant merged == MergedPreferences(current, archived[..i])
    {
      var imported := archived[i];
      assert archived[..i + 1][..i] == archived[..i];
      if imported.book !in merged {
        merged := merged[imported.book := imported];
      } else {
        var existing := merged[imported.book];
        var importedDescends := existing.winner in imported.heads;
        var existingDescends := imported.winner in existing.heads;
        var winner := existing;
        if importedDescends && !existingDescends {
          winner := imported;
        } else if existingDescends && !importedDescends {
          winner := existing;
        } else if imported.winner >= existing.winner {
          winner := imported;
        }
        merged := merged[imported.book := winner.(heads := existing.heads + imported.heads)];
      }
    }
    assert archived[..|archived|] == archived;
  }

  /** Merging a preference a second time changes nothing: once merged, the imported winner is among
      the heads, so only the tie rule can speak, and it repeats itself. */
  lemma MergePreferenceTwice(existing: Preference, imported: Preference)
    requires imported.winner in imported.heads
    ensures MergePreference(MergePreference(existing, imported), imported) == MergePreference(existing, imported)
  {
    var once := MergePreference(existing, imported);
    assert once.heads + imported.heads == once.heads;
    assert imported.winner in once.heads;
  }

  // ----- merging reconciliations -----

  /** `text` is the place of a record's JSON text in collation order. */
  predicate Replaces(imported: Reconciliation, existing: Reconciliation, text: Reconciliation -> nat) {
    || (existing.status.Open? && imported.status.Resolved?)
    || (existing.status.Open? == imported.status.Open? && text(imported) > text(existing))
  }

  function AddReconciliation(
      m: Reconciliations, imported: Reconciliation, text: Reconciliation -> nat): Reconciliations {
    if imported.id !in m || Replaces(imported, m[imported.id], text) then m[imported.id := imported] else m
  }

  function MergedReconciliations(
      current: Reconciliations, archived: seq<Reconciliation>, text: Reconciliation -> nat): Reconciliations {
    if archived == [] then current else
    AddReconciliation(MergedReconciliations(current, archived[..|archived| - 1], text), archived[|archived| - 1], text)
  }

  method MergeReconciliations(
      current: Reconciliations, archived: seq<Reconciliation>, text: Reconciliation -> nat)
      returns (merged: Reconciliations)
    ensures merged == MergedReconciliations(current, archived, text)
  {
    merged := current;
    for i := 0 to |archived|
      invariant merged == MergedReconciliations(current, archived[..i], text)
    {
      var imported := archived[i];
      assert archived[..i + 1][..i] == archived[..i];
      if imported.id !in merged {
        merged := merged[imported.id := imported];
      } else {
        var existing := merged[imported.id];
        if (existing.status.Open? && imported.status.Resolved?)
           || (existing.status.Open? == imported.status.Open? && text(imported) > text(existing)) {
          merged := merged[imported.id := imported];
        }
      }
    }
    assert archived[..|archived|] == archived;
  }

  /** A conflict that has been resolved stays resolved, whatever the archive says. */
  lemma {:induction false} ResolvedStaysResolved(
      current: Reconciliations, archived: seq<Reconciliation>, text: Reconciliation -> nat, id: ConflictId)
    requires id in current && current[id].status.Resolved?
    ensures id in MergedReconciliations(current, archived, text)
            && MergedReconciliations(current, archived, text)[id].status.Resolved?
  {
    if archived != [] {
      ResolvedStaysResolved(current, archived[..|archived| - 1], text, id);
    }
  }

  // ----- publications -----

  function RestoredBook(existing: Records, archived: BookRecord): BookRecord {
    if archived.id in existing then existing[archived.id].(catalog := archived.catalog) else archived
  }

  function Publications(existing: Records, books: seq<BookRecord>): Records {
    if books == [] then map[] else
    var last := books[|books| - 1];
    Publications(existing, books[..|books| - 1])[last.id := RestoredBook(existing, last)]
  }

  lemma {:induction false} PublicationFrom(existing: Records, books: seq<BookRecord>, v: VariantId)
    requires v in Publications(existing, books)
    ensures exists k | 0 <= k < |books| :: books[k].id == v
  {
    var n := |books| - 1;
    if v != books[n].id {
      PublicationFrom(existing, books[..n], v);
      var k :| 0 <= k < n && books[..n][k].id == v;
      assert books[k].id == v;
    }
  }

  lemma {:induction false} PublicationAt(existing: Records, books: seq<BookRecord>, k: nat)
    requires DistinctBooks(books) && k < |books|
    ensures books[k].id in Publications(existing, books)
            && Publications(existing, books)[books[k].id] == RestoredBook(existing, books[k])
  {
    var n := |books| - 1;
    if k < n {
      assert books[..n][k] == books[k];
      PublicationAt(existing, books[..n], k);
    }
  }

  lemma PublicationsAre(existing: Records, books: seq<BookRecord>)
    requires DistinctBooks(books)
    ensures forall v :: v in Publications(existing, books) <==> exists k | 0 <= k < |books| :: books[k].id == v
    ensures forall k | 0 <= k < |books| ::
              books[k].id in Publications(existing, books)
              && Publications(existing, books)[books[k].id] == RestoredBook(existing, books[k])
  {
    forall k | 0 <= k < |books|
      ensures books[k].id in Publications(existing, books)
              && Publications(existing, books)[books[k].id] == RestoredBook(existing, books[k])
    {
      PublicationAt(existing, books, k);
    }
    forall v | v in Publications(existing, books) ensures exists k | 0 <= k < |books| :: books[k].id == v {
      PublicationFrom(existing, books, v);
    }
  }

  // ----- the commit -----

  /** What the restore read: the logical state, without the preferences and reconciliations that fail
      validation. Its revision is its text, so two revisions are equal when the snapshots are. */
  datatype Snapshot = Snapshot(shelf: Shelf, preferences: Preferences, reconciliations: Reconciliations)

  function SnapshotOf(s: Store): Snapshot {
    Snapshot(s.shelf, ReadablePreferences(s.preferences), ReadableReconciliations(s.reconciliations))
  }

  function RestoreCommit(
      s: Store, archive: Archive, existing: Records, snapshot: Snapshot, text: Reconciliation -> nat): Outcome {
    if SnapshotOf(s) != snapshot then Unchanged else
    var shelf := MergedShelf(snapshot.shelf, archive.logical);
    if !UniqueIndexes(shelf) then Unchanged else
    Committed(s.(records := s.records + Publications(existing, archive.books),
                 shelf := shelf,
                 preferences := MergedPreferences(snapshot.preferences, archive.preferences),
                 reconciliations := MergedReconciliations(snapshot.reconciliations, archive.reconciliations, text)))
  }

  /** The archive gives each of its publications the format it is stored under, as far as the restore
      has seen it, and the format of the slot it sits in. */
  ghost predicate FormatsAgree(a: Archive, existing: Records, current: Shelf) {
    forall k | 0 <= k < |a.books| ::
      && (a.books[k].id in existing ==> existing[a.books[k].id].format == a.books[k].format)
      && (forall r | HasRow(current, r) && r.variant == a.books[k].id :: r.format == a.books[k].format)
  }

  lemma ArchiveRowBacked(a: Archive, r: Row) returns (k: nat)
    requires Accepted(a) && ArchiveRow(a.logical, r)
    ensures k < |a.books| && a.books[k].id == r.variant && a.books[k].format == r.format
  {
    var i :| 0 <= i < |a.logical| && a.logical[i].id == r.book && r.format in a.logical[i].variants
             && a.logical[i].variants[r.format] == r.variant;
    assert HasBook(a.books, a.logical[i].variants[r.format], r.format);
    k :| 0 <= k < |a.books| && a.books[k].id == r.variant && a.books[k].format == r.format;
  }

  lemma ArchivedOnce(a: Archive, r: Row, r': Row)
    requires Accepted(a) && ArchiveRow(a.logical, r) && ArchiveRow(a.logical, r') && r.variant == r'.variant
    ensures r == r'
  {
    var i :| 0 <= i < |a.logical| && a.logical[i].id == r.book && r.format in a.logical[i].variants
             && a.logical[i].variants[r.format] == r.variant;
    var j :| 0 <= j < |a.logical| && a.logical[j].id == r'.book && r'.format in a.logical[j].variants
             && a.logical[j].variants[r'.format] == r'.variant;
    assert i == j;
  }

  lemma FitsArchived(current: Shelf, a: Archive, existing: Records, archived: Row, r: Row)
    requires Accepted(a) && NoConflicts(a.logical, current) && FormatsAgree(a, existing, current)
    requires ArchiveRow(a.logical, archived) && HasRow(current, r) && r.variant == archived.variant
    ensures r == archived
  {
    var k := ArchiveRowBacked(a, archived);
    assert r.format == a.books[k].format;
  }

  /** The rows of an accepted archive are one-to-one among themselves and, without conflicts and with
      agreeing formats, with the rows already there. */
  lemma UnionOneOwner(current: Shelf, a: Archive, existing: Records, records: Records)
    requires Consistent(current, records)
    requires Accepted(a) && NoConflicts(a.logical, current) && FormatsAgree(a, existing, current)
    ensures OneOwner(MergedShelf(current, a.logical))
  {
    MergedRows(current, a.logical);
    ConsistentIsOneOwner(current, records);
    var m := MergedShelf(current, a.logical);
    forall r, r' | HasRow(m, r) && HasRow(m, r') && r.variant == r'.variant ensures r == r' {
      if ArchiveRow(a.logical, r) && ArchiveRow(a.logical, r') {
        ArchivedOnce(a, r, r');
      } else if ArchiveRow(a.logical, r) {
        FitsArchived(current, a, existing, r, r');
      } else if ArchiveRow(a.logical, r') {
        FitsArchived(current, a, existing, r', r);
      }
    }
  }

  lemma RestoredBacked(s: Store, a: Archive, existing: Records, r: Row)
    requires Valid(s) && Accepted(a) && NoConflicts(a.logical, s.shelf) && FormatsAgree(a, existing, s.shelf)
    requires HasRow(s.shelf, r) || ArchiveRow(a.logical, r)
    ensures var records := s.records + Publications(existing, a.books);
            r.variant in records && records[r.variant].format == r.format
  {
    var pubs := Publications(existing, a.books);
    if ArchiveRow(a.logical, r) {
      var k := ArchiveRowBacked(a, r);
      PublicationAt(existing, a.books, k);
    } else if r.variant in pubs {
      PublicationFrom(existing, a.books, r.variant);
      var k :| 0 <= k < |a.books| && a.books[k].id == r.variant;
      PublicationAt(existing, a.books, k);
    }
  }

  /** The restore theorem. Whatever happened between the two reads and the commit: an accepted
      archive without conflicts against the snapshot always commits when the revision is unchanged;
      membership is then the union of what was there and what was archived, still one-to-one, with
      every row backed by a stored publication of its format. */
  lemma RestoreIsUnion(
      s: Store, archive: Archive, existing: Records, snapshot: Snapshot, text: Reconciliation -> nat)
    requires Valid(s) && RecordsKeyed(existing)
    requires Accepted(archive) && NoConflicts(archive.logical, s.shelf) && SnapshotOf(s) == snapshot
    requires FormatsAgree(archive, existing, s.shelf)
    ensures RestoreCommit(s, archive, existing, snapshot, text).Committed?
    ensures var s' := RestoreCommit(s, archive, existing, snapshot, text).store;
            && (forall r :: HasRow(s'.shelf, r) <==> HasRow(s.shelf, r) || ArchiveRow(archive.logical, r))
            && OneOwner(s'.shelf)
            && Valid(s')
            && s'.outbox == s.outbox
  {
    var m := MergedShelf(s.shelf, archive.logical);
    MergedRows(s.shelf, archive.logical);
    MergedShape(s.shelf, archive.logical);
    UnionOneOwner(s.shelf, archive, existing, s.records);
    OneOwnerIsUnique(m);
    RestoredKeyed(s.records, archive, existing);
    var records := s.records + Publications(existing, archive.books);
    forall r | HasRow(m, r) ensures r.variant in records && records[r.variant].format == r.format {
      RestoredBacked(s, archive, existing, r);
    }
  }

  /** Without conflicts the merged shelf never violates the unique indexes, whatever the formats: the
      commit is not refused. */
  lemma MergedUnique(current: Shelf, a: Archive, records: Records)
    requires Consistent(current, records) && Accepted(a) && NoConflicts(a.logical, current)
    ensures Keyed(MergedShelf(current, a.logical)) && UniqueIndexes(MergedShelf(current, a.logical))
  {
    var m := MergedShelf(current, a.logical);
    MergedShape(current, a.logical);
    MergedRows(current, a.logical);
    ConsistentIsOneOwner(current, records);
    forall id, id', f | id in m && id' in m && id' != id && f in m[id'].variants && f in m[id].variants
      ensures m[id'].variants[f] != m[id].variants[f]
    {
      var r, r' := Row(id, f, m[id].variants[f]), Row(id', f, m[id'].variants[f]);
      assert HasRow(m, r) && HasRow(m, r');
      if r.variant == r'.variant && ArchiveRow(a.logical, r) && ArchiveRow(a.logical, r') {
        ArchivedOnce(a, r, r');
      }
    }
    forall id | id in m ensures IndexAllows(m, m[id]) {
    }
  }

  /** The agreement of formats is not only enough: a restore that leaves the library consistent had it. */
  lemma RestoreNeedsAgreement(
      s: Store, archive: Archive, existing: Records, snapshot: Snapshot, text: Reconciliation -> nat)
    requires Valid(s) && Accepted(archive) && NoConflicts(archive.logical, s.shelf) && SnapshotOf(s) == snapshot
    requires Valid(After(s, RestoreCommit(s, archive, existing, snapshot, text)))
    ensures FormatsAgree(archive, existing, s.shelf)
  {
    MergedUnique(s.shelf, archive, s.records);
    var s' := RestoreCommit(s, archive, existing, snapshot, text).store;
    MergedRows(s.shelf, archive.logical);
    forall k | 0 <= k < |archive.books|
      ensures archive.books[k].id in existing ==>
                existing[archive.books[k].id].format == archive.books[k].format
      ensures forall r | HasRow(s.shelf, r) && r.variant == archive.books[k].id :: r.format == archive.books[k].format
    {
      var listed := ListedRow(archive, k);
      assert HasRow(s'.shelf, listed);
      PublicationAt(existing, archive.books, k);
      forall r | HasRow(s.shelf, r) && r.variant == archive.books[k].id ensures r.format == archive.books[k].format {
        assert HasRow(s'.shelf, r);
      }
    }
  }

  lemma ListedRow(a: Archive, k: nat) returns (r: Row)
    requires Accepted(a) && k < |a.books|
    ensures ArchiveRow(a.logical, r) && r.variant == a.books[k].id && r.format == a.books[k].format
  {
    assert Listed(a.logical, a.books[k].id);
    var i, f :| 0 <= i < |a.logical| && f in a.logical[i].variants && a.logical[i].variants[f] == a.books[k].id;
    r := Row(a.logical[i].id, f, a.books[k].id);
    var k' := ArchiveRowBacked(a, r);
    assert k' == k;
  }

  lemma RestoredKeyed(records: Records, archive: Archive, existing: Records)
    requires RecordsKeyed(records) && RecordsKeyed(existing) && DistinctBooks(archive.books)
    ensures RecordsKeyed(records + Publications(existing, archive.books))
  {
    var pubs := Publications(existing, archive.books);
    forall v | v in pubs ensures pubs[v].id == v {
      PublicationFrom(existing, archive.books, v);
      var k :| 0 <= k < |archive.books| && archive.books[k].id == v;
      PublicationAt(existing, archive.books, k);
    }
  }
}
