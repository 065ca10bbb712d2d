/** Every membership operation of the library as the change it makes to the object stores.
    `addVariant`, `associate` and the restore read first and commit later, so they are a
    reading part and a committing part. */
module LibraryTransactions {
  import opened Common
  import opened LogicalBooks

  // ----- owners -----

  ghost function IndexLookup(m: Shelf, f: Format, v: VariantId): Option<LogicalBookId> {
    if exists id :: HasRow(m, Row(id, f, v)) then
      var id :| HasRow(m, Row(id, f, v)); Some(id)
    else None
  }

  /** The EPUB index is consulted before the PDF index. */
  ghost function FindOwner(m: Shelf, v: VariantId): Option<LogicalBookId> {
    var epub := IndexLookup(m, Epub, v);
    if epub.Some? then epub else IndexLookup(m, Pdf, v)
  }

  lemma FindOwnerFinds(m: Shelf, v: VariantId)
    ensures FindOwner(m, v).Some? <==> Owned(m, v)
    ensures FindOwner(m, v).Some? ==>
              exists f :: HasRow(m, Row(FindOwner(m, v).value, f, v))
  {
    if Owned(m, v) {
      var r: Row :| HasRow(m, r) && r.variant == v;
      if r.format == Epub {
        assert HasRow(m, Row(r.book, Epub, v));
      } else {
        assert HasRow(m, Row(r.book, Pdf, v));
      }
    }
  }

  // ----- add a format -----

  datatype AddReply =
    | NotFound | AlreadyMember | BelongsToOther(book: LogicalBookId)
    | SameFormatConflict(existing: VariantId) | Ready(destination: LogicalBook)

  ghost function AddRead(s: Store, book: LogicalBookId, variant: BookRecord): AddReply {
    if book !in s.shelf then NotFound else
    var owner := FindOwner(s.shelf, variant.id);
    if owner == Some(book) then AlreadyMember
    else if owner.Some? then BelongsToOther(owner.value)
    else if variant.format in s.shelf[book].variants then
      SameFormatConflict(s.shelf[book].variants[variant.format])
    else Ready(s.shelf[book])
  }

  function WithVariant(b: LogicalBook, f: Format, v: VariantId, now: Time): LogicalBook {
    b.(variants := b.variants[f := v], updatedAt := now)
  }

  /** The commit compares only the destination with what was read; `add` on the books store
      refuses a publication that is already stored. */
  function AddCommit(s: Store, destination: LogicalBook, variant: BookRecord, who: Identity): Outcome {
    if destination.id !in s.shelf || s.shelf[destination.id] != destination then Unchanged
    else if variant.id in s.records then Unchanged
    else
      var updated := WithVariant(destination, variant.format, variant.id, who.createdAt);
      match Put(s.shelf, updated)
      case None => Unchanged
      case Some(shelf) =>
        Committed(s.(records := s.records[variant.id := variant],
                     shelf := shelf,
                     outbox := s.outbox[who.changeId :=
                       LogicalChange(AddVariant, who, map[updated.id := updated], {})]))
  }

  // ----- associate -----

  predicate Associable(m: Shelf, destination: LogicalBookId, source: LogicalBookId) {
    && destination != source
    && destination in m && source in m
    && m[destination].variants.Keys !! m[source].variants.Keys
  }

  function AssociateCommit(s: Store, destination: LogicalBook, source: LogicalBook, who: Identity): Outcome {
    if destination.id !in s.shelf || s.shelf[destination.id] != destination then Unchanged
    else if source.id !in s.shelf || s.shelf[source.id] != source then Unchanged
    else
      var updated := destination.(variants := destination.variants + source.variants,
                                  updatedAt := who.createdAt);
      match Put(s.shelf - {source.id}, updated)
      case None => Unchanged
      case Some(shelf) =>
        Committed(s.(shelf := shelf,
                     preferences := s.preferences - {source.id},
                     outbox := s.outbox[who.changeId :=
                       LogicalChange(Associate, who, map[updated.id := updated], {source.id})]))
  }

  // ----- detach -----

  function Repoint(p: Preference, f: Format, who: Identity): Preference {
    p.(preferred := f, winner := who.changeId, heads := {who.changeId}, updatedAt := who.createdAt)
  }

  predicate Detachable(s: Store, book: LogicalBookId, v: VariantId) {
    && book in s.shelf && v in s.records
    && Epub in s.shelf[book].variants && Pdf in s.shelf[book].variants
    && HasRow(s.shelf, Row(book, s.records[v].format, v))
  }

  function DetachedId(s: Store, book: LogicalBookId, v: VariantId, derived: LogicalBookId): LogicalBookId {
    var canonical := SingletonLogicalBookId(v);
    if canonical != book && canonical !in s.shelf then canonical else derived
  }

  /** Reading one preference: a record that fails validation is moved to the quarantine. */
  function Checked(prefs: Preferences, book: LogicalBookId): Preferences {
    if book in prefs && !ReadablePreference(prefs[book]) then prefs - {book} else prefs
  }

  /** The preference follows the remaining format when it named another one. */
  function Repointed(prefs: Preferences, book: LogicalBookId, left: Format, who: Identity): Preferences {
    var read := Checked(prefs, book);
    if book in read && read[book].preferred != left then read[book := Repoint(read[book], left, who)] else read
  }

  /** A `put` of one book, then an `add` of a new one. */
  function PutThenAdd(m: Shelf, updated: LogicalBook, added: LogicalBook): Option<Shelf> {
    match Put(m, updated)
    case None => None
    case Some(m') => if added.id in m' then None else Put(m', added)
  }

  /** `derived` is the identifier hashed from the variant and the change. */
  function DetachVariant(
      s: Store, book: LogicalBookId, v: VariantId, derived: LogicalBookId, who: Identity): Outcome {
    if !Detachable(s, book, v) then Unchanged else
    var gone := s.records[v].format;
    var updated := s.shelf[book].(
      variants := map[Other(gone) := s.shelf[book].variants[Other(gone)]], updatedAt := who.createdAt);
    var detached := LogicalBookFromVariant(s.records[v], who.createdAt).(id := DetachedId(s, book, v, derived));
    match PutThenAdd(s.shelf, updated, detached)
    case None => Unchanged
    case Some(shelf) =>
      Committed(s.(shelf := shelf,
                   preferences := Repointed(s.preferences, book, Other(gone), who),
                   outbox := s.outbox[who.changeId :=
                     LogicalChange(Detach, who, map[updated.id := updated, detached.id := detached], {})]))
  }

  // ----- delete -----

  function Without(b: LogicalBook, gone: set<VariantId>): map<Format, VariantId> {
    map f | f in b.variants && b.variants[f] !in gone :: b.variants[f]
  }

  function DeleteTargets(b: LogicalBook, target: Option<VariantId>): set<VariantId> {
    if target.None? then b.variants.Values else {target.value}
  }

  function FirstFormat(variants: map<Format, VariantId>): Format {
    if Epub in variants then Epub else Pdf
  }

  /** No target means the whole logical book. */
  function DeleteVariants(s: Store, book: LogicalBookId, target: Option<VariantId>, who: Identity): Outcome {
    if book !in s.shelf then Unchanged else
    var b := s.shelf[book];
    var targets := DeleteTargets(b, target);
    if !(targets <= b.variants.Values) then Unchanged else
    var remaining := Without(b, targets);
    if Filled(remaining) then
      var updated := b.(variants := remaining, updatedAt := who.createdAt);
      match Put(s.shelf, updated)
      case None => Unchanged
      case Some(shelf) =>
        Committed(s.(records := s.records - targets,
                     shelf := shelf,
                     preferences := Repointed(s.preferences, book, FirstFormat(remaining), who),
                     outbox := s.outbox[who.changeId :=
                       LogicalChange(DeleteVariant, who, map[updated.id := updated], {})]))
    else
      Committed(s.(records := s.records - targets,
                   shelf := s.shelf - {book},
                   preferences := s.preferences - {book},
                   outbox := s.outbox[who.changeId := LogicalChange(DeleteBook, who, map[], {book})]))
  }

  // ----- preferred format -----

  function SavePreference(s: Store, book: LogicalBookId, f: Format, who: Identity): Outcome {
    if book !in s.shelf || f !in s.shelf[book].variants then Unchanged
    else
      var read := Checked(s.preferences, book);
      if book in read && read[book].preferred == f then Unchanged else
      var heads := if book in read then read[book].heads else {};
      var parents := (set p | p in who.parents) + heads;
      Committed(s.(preferences := s.preferences[book :=
                     Preference(book, f, who.changeId, {who.changeId}, who.createdAt)],
                   outbox := s.outbox[who.changeId :=
                     LogicalChange(PreferFormat, who, map[], {}).(parents := multiset(parents))]))
  }

  // ----- import, synchronized copies, removal -----

  /** `format` is what the file name and media type suggest; `record` is what would be stored. */
  ghost function ImportBook(s: Store, record: BookRecord, supported: bool): Outcome {
    if record.id in s.records then
      var existing := s.records[record.id];
      if FindOwner(s.shelf, record.id).Some? then Unchanged else
      match Put(s.shelf, LogicalBookFromVariant(existing, existing.importedAt))
      case None => Unchanged
      case Some(shelf) => Committed(s.(shelf := shelf))
    else if !supported then Unchanged
    else StoreNew(s, record)
  }

  function StoreNew(s: Store, record: BookRecord): Outcome {
    match Put(s.shelf, LogicalBookFromVariant(record, record.importedAt))
    case None => Unchanged
    case Some(shelf) => Committed(s.(records := s.records[record.id := record], shelf := shelf))
  }

  /** A copy that is already stored gets only its bytes replaced. */
  function StoreSynced(s: Store, record: BookRecord, intact: bool): Outcome {
    if record.id in s.records || !intact then Unchanged else StoreNew(s, record)
  }

  ghost function RemoveBook(s: Store, v: VariantId, now: Time): Outcome {
    var owner := FindOwner(s.shelf, v);
    if owner.None? then Committed(s.(records := s.records - {v})) else
    var b := s.shelf[owner.value];
    var remaining := Without(b, {v});
    if Filled(remaining) then
      match Put(s.shelf, b.(variants := remaining, updatedAt := now))
      case None => Unchanged
      case Some(shelf) => Committed(s.(records := s.records - {v}, shelf := shelf))
    else
      Committed(s.(records := s.records - {v},
                   shelf := s.shelf - {owner.value},
                   preferences := s.preferences - {owner.value}))
  }

  // ----- synchronized replacement of the whole logical state -----

  /** The list put into a cleared store: a later book with the same identifier replaces an
      earlier one. */
  function Shelved(books: seq<LogicalBook>): Shelf {
    if books == [] then map[] else
    var last := books[|books| - 1];
    Shelved(books[..|books| - 1])[last.id := last]
  }

  predicate ListedOnce(books: seq<LogicalBook>) {
    forall i, j, f, g |
      0 <= i < |books| && 0 <= j < |books| && f in books[i].variants && g in books[j].variants
      && books[i].variants[f] == books[j].variants[g] :: i == j && f == g
  }

  predicate ListedStored(books: seq<LogicalBook>, records: Records) {
    forall i, f | 0 <= i < |books| && f in books[i].variants ::
      books[i].variants[f] in records && records[books[i].variants[f]].format == f
  }

  /** Every record passes its validator. */
  predicate Replaceable(books: seq<LogicalBook>, prefs: Preferences, recs: Reconciliations) {
    && (forall i | 0 <= i < |books| :: WellFormedBook(books[i]))
    && (forall b | b in prefs :: ReadablePreference(prefs[b]))
    && (forall c | c in recs :: ReadableReconciliation(recs[c]))
  }

  function ReplaceState(s: Store, books: seq<LogicalBook>, prefs: Preferences, recs: Reconciliations): Outcome {
    if !Replaceable(books, prefs, recs) || !ListedOnce(books) || !ListedStored(books, s.records) then Unchanged
    else Committed(s.(shelf := Shelved(books), preferences := prefs, reconciliations := recs))
  }
}
