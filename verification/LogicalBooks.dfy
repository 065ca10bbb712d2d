/** Logical books, the records kept in the library database, and what it means for
    membership to be consistent.

    Identifiers are SHA-256 digests. A variant is `sha256:<hex>` and a logical book is
    `logical:sha256:<hex>`, so both are a digest under a different name; the digest is
    kept as the number it spells. Timestamps and change identifiers are only ever
    compared, so they are numbers too. */
module LogicalBooks {
  import opened Common

  datatype Format = Epub | Pdf

  function Other(f: Format): Format {
    if f == Epub then Pdf else Epub
  }

  datatype VariantId = VariantId(digest: nat)
  datatype LogicalBookId = LogicalBookId(digest: nat)

  type ChangeId = nat
  type ConflictId = nat
  type Time = nat

  /** The canonical book of a variant carries the variant's own digest. */
  function SingletonLogicalBookId(v: VariantId): LogicalBookId {
    LogicalBookId(v.digest)
  }

  /** A stored publication. `catalog` is the title, authors, language, publisher and
      identifier; `file` is everything a restore leaves alone. */
  datatype BookRecord = BookRecord(
    id: VariantId, format: Format, importedAt: Time, file: string, catalog: string)

  /** A logical book owns at most one variant of each format. */
  datatype LogicalBook = LogicalBook(
    id: LogicalBookId, catalog: string, updatedAt: Time, variants: map<Format, VariantId>)

  /** Some slot is filled. */
  predicate Filled(variants: map<Format, VariantId>) {
    Epub in variants || Pdf in variants
  }

  /** No variant fills both slots. */
  predicate SlotsDiffer(b: LogicalBook) {
    Epub in b.variants && Pdf in b.variants ==> b.variants[Epub] != b.variants[Pdf]
  }

  /** What the validator of logical books accepts. */
  predicate WellFormedBook(b: LogicalBook) {
    Filled(b.variants) && SlotsDiffer(b)
  }

  type Shelf = map<LogicalBookId, LogicalBook>
  type Records = map<VariantId, BookRecord>

  function LogicalBookFromVariant(r: BookRecord, now: Time): LogicalBook {
    LogicalBook(SingletonLogicalBookId(r.id), r.catalog, now, map[r.format := r.id])
  }

  /** A membership tuple: the variant sits in this slot of this logical book. */
  datatype Row = Row(book: LogicalBookId, format: Format, variant: VariantId)

  predicate HasRow(m: Shelf, r: Row) {
    && r.book in m
    && r.format in m[r.book].variants
    && m[r.book].variants[r.format] == r.variant
  }

  ghost predicate Owned(m: Shelf, v: VariantId) {
    exists r: Row :: HasRow(m, r) && r.variant == v
  }

  /** Each variant sits in at most one slot of one logical book. */
  ghost predicate OneOwner(m: Shelf) {
    forall r, r' | HasRow(m, r) && HasRow(m, r') && r.variant == r'.variant :: r == r'
  }

  datatype Preference = Preference(
    book: LogicalBookId, preferred: Format, winner: ChangeId, heads: set<ChangeId>, updatedAt: Time)

  const MAX_HEADS := 32

  /** What the validator of preferences accepts. A stored preference that fails it is invisible to
      every reader. */
  predicate ReadablePreference(p: Preference) {
    |p.heads| <= MAX_HEADS && p.winner in p.heads
  }

  type Preferences = map<LogicalBookId, Preference>

  function ReadablePreferences(prefs: Preferences): Preferences {
    map b | b in prefs && ReadablePreference(prefs[b]) :: prefs[b]
  }

  datatype Status = Open | Resolved(change: ChangeId)

  datatype Reconciliation = Reconciliation(
    id: ConflictId, status: Status, affected: seq<VariantId>, accepted: seq<Row>, rejected: seq<Row>)

  const MAX_AFFECTED := 32
  const MAX_MEMBERSHIPS := 4

  /** What the validator of reconciliations accepts: affected variants sorted without repetition, and
      between one and four rows on either side. */
  predicate ReadableReconciliation(rec: Reconciliation) {
    && 0 < |rec.affected| <= MAX_AFFECTED
    && (forall i, j | 0 <= i < j < |rec.affected| :: rec.affected[i].digest < rec.affected[j].digest)
    && 0 < |rec.accepted| <= MAX_MEMBERSHIPS
    && 0 < |rec.rejected| <= MAX_MEMBERSHIPS
  }

  type Reconciliations = map<ConflictId, Reconciliation>

  function ReadableReconciliations(recs: Reconciliations): Reconciliations {
    map c | c in recs && ReadableReconciliation(recs[c]) :: recs[c]
  }

  datatype ChangeKind =
    | AddVariant | Associate | Detach | DeleteVariant | DeleteBook | PreferFormat | ReconcileMembership

  /** A committed logical change as the outbox keeps it. `resulting` is the list of resulting
      books keyed by identifier, `parents` the sorted list of parents. */
  datatype Change = Change(
    id: ChangeId, kind: ChangeKind, parents: multiset<ChangeId>,
    resulting: Shelf, removed: set<LogicalBookId>, createdAt: Time)

  datatype Identity = Identity(changeId: ChangeId, parents: seq<ChangeId>, createdAt: Time)

  function LogicalChange(
      kind: ChangeKind, who: Identity, resulting: Shelf, removed: set<LogicalBookId>): Change {
    Change(who.changeId, kind, multiset(who.parents), resulting, removed, who.createdAt)
  }

  /** The object stores that membership operations read and write. */
  datatype Store = Store(
    records: Records,
    shelf: Shelf,
    preferences: Preferences,
    reconciliations: Reconciliations,
    outbox: map<ChangeId, Change>)

  /** A transaction either commits or leaves every store as it was: a refusal, a conflict found at
      commit, an aborted `put` and a no-op all end in `Unchanged`. */
  datatype Outcome = Committed(store: Store) | Unchanged

  function After(s: Store, o: Outcome): Store {
    match o case Committed(s') => s' case Unchanged => s
  }

  // ----- the unique indexes on variants.epub and variants.pdf -----

  /** A `put` is refused when another book already holds the same variant in the same slot. */
  predicate IndexAllows(m: Shelf, b: LogicalBook) {
    forall id | id in m && id != b.id ::
      forall f | f in m[id].variants && f in b.variants :: m[id].variants[f] != b.variants[f]
  }

  function Put(m: Shelf, b: LogicalBook): Option<Shelf> {
    if IndexAllows(m, b) then Some(m[b.id := b]) else None
  }

  predicate UniqueIndexes(m: Shelf) {
    forall id | id in m :: IndexAllows(m, m[id])
  }

  predicate Keyed(m: Shelf) {
    forall id | id in m :: m[id].id == id
  }

  // ----- the invariant of the library -----

  predicate RecordsKeyed(records: Records) {
    forall v | v in records :: records[v].id == v
  }

  /** Books under their own identifier, none empty, unique indexes, and every row backed by a stored
      publication of the format of its slot. */
  ghost predicate Consistent(m: Shelf, records: Records) {
    && Keyed(m)
    && (forall id | id in m :: Filled(m[id].variants))
    && UniqueIndexes(m)
    && (forall r | HasRow(m, r) :: r.variant in records && records[r.variant].format == r.format)
  }

  ghost predicate Valid(s: Store) {
    RecordsKeyed(s.records) && Consistent(s.shelf, s.records)
  }

  lemma RowOf(m: Shelf, id: LogicalBookId, f: Format)
    requires id in m && f in m[id].variants
    ensures HasRow(m, Row(id, f, m[id].variants[f]))
  {
  }

  /** Together with slots that match the stored formats, the two indexes give one owner. */
  lemma ConsistentIsOneOwner(m: Shelf, records: Records)
    requires Consistent(m, records)
    ensures OneOwner(m)
  {
    forall r, r' | HasRow(m, r) && HasRow(m, r') && r.variant == r'.variant
      ensures r == r'
    {
      assert r.format == records[r.variant].format == r'.format;
      assert IndexAllows(m, m[r.book]);
    }
  }

  /** The indexes alone do not: one variant can sit in an EPUB slot and in a PDF slot. */
  lemma IndexesAloneAllowTwoOwners()
    ensures exists m: Shelf :: Keyed(m) && UniqueIndexes(m) && !OneOwner(m)
  {
    var v, one, two := VariantId(1), LogicalBookId(1), LogicalBookId(2);
    var m: Shelf := map[one := LogicalBook(one, "", 0, map[Epub := v]), two := LogicalBook(two, "", 0, map[Pdf := v])];
    assert HasRow(m, Row(one, Epub, v)) && HasRow(m, Row(two, Pdf, v));
    assert Keyed(m) && UniqueIndexes(m) && !OneOwner(m);
  }

  /** In a consistent library every book passes the validator of logical books. */
  lemma ConsistentIsWellFormed(m: Shelf, records: Records)
    requires Consistent(m, records)
    ensures forall id | id in m :: WellFormedBook(m[id])
  {
    forall id | id in m ensures WellFormedBook(m[id]) {
      if Epub in m[id].variants && Pdf in m[id].variants {
        RowOf(m, id, Epub);
        RowOf(m, id, Pdf);
      }
    }
  }

  /** Writing a book the indexes allow keeps them unique. */
  lemma PutKeepsUnique(m: Shelf, b: LogicalBook)
    requires Keyed(m) && UniqueIndexes(m) && IndexAllows(m, b)
    ensures Keyed(m[b.id := b]) && UniqueIndexes(m[b.id := b])
  {
  }

  lemma RemoveKeepsUnique(m: Shelf, gone: set<LogicalBookId>)
    requires Keyed(m) && UniqueIndexes(m)
    ensures Keyed(m - gone) && UniqueIndexes(m - gone)
  {
  }

  /** One owner is enough for every `put` to be allowed, in any order. */
  lemma OneOwnerIsUnique(m: Shelf)
    requires Keyed(m) && OneOwner(m)
    ensures UniqueIndexes(m)
  {
    forall id | id in m ensures IndexAllows(m, m[id]) {
      forall id', f | id' in m && id' != id && f in m[id'].variants && f in m[id].variants
        ensures m[id'].variants[f] != m[id].variants[f]
      {
        RowOf(m, id, f);
        RowOf(m, id', f);
      }
    }
  }
}
