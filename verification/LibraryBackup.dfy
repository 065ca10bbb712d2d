/** Backup archives: which manifests are accepted, which conflicts stop a restore, and how an
    archive is merged into the library. */
module LibraryBackup {
  import opened Common
  import opened LogicalBooks
  import opened LibraryTransactions

  datatype Archive = Archive(
    books: seq<BookRecord>, logical: seq<LogicalBook>,
    preferences: seq<Preference>, reconciliations: seq<Reconciliation>)

  /** Manifests before version 4 have no logical state of their own. */
  datatype Manifest = BeforeLogicalBooks(books: seq<BookRecord>) | WithLogicalBooks(archive: Archive)

  function SingletonState(books: seq<BookRecord>): Archive {
    Archive(books,
            seq(|books|, i requires 0 <= i < |books| => LogicalBookFromVariant(books[i], books[i].importedAt)),
            [], [])
  }

  function Normalized(m: Manifest): Archive {
    match m
    case BeforeLogicalBooks(books) => SingletonState(books)
    case WithLogicalBooks(archive) => archive
  }

  predicate ArchiveRow(logical: seq<LogicalBook>, r: Row) {
    exists i | 0 <= i < |logical| ::
      logical[i].id == r.book && r.format in logical[i].variants && logical[i].variants[r.format] == r.variant
  }

  // ----- which archives are accepted -----

  /** Every record passes its validator. */
  predicate WellFormed(a: Archive) {
    && (forall i | 0 <= i < |a.logical| :: WellFormedBook(a.logical[i]))
    && (forall i | 0 <= i < |a.preferences| :: ReadablePreference(a.preferences[i]))
    && (forall i | 0 <= i < |a.reconciliations| :: ReadableReconciliation(a.reconciliations[i]))
  }

  predicate DistinctBooks(books: seq<BookRecord>) {
    forall i, j | 0 <= i < j < |books| :: books[i].id != books[j].id
  }

  predicate DistinctLogical(logical: seq<LogicalBook>) {
    forall i, j | 0 <= i < j < |logical| :: logical[i].id != logical[j].id
  }

  predicate HasBook(books: seq<BookRecord>, v: VariantId, f: Format) {
    exists k | 0 <= k < |books| :: books[k].id == v && books[k].format == f
  }

  predicate Archived(books: seq<BookRecord>, v: VariantId) {
    exists f :: HasBook(books, v, f)
  }

  predicate RowsBacked(a: Archive) {
    forall i, f | 0 <= i < |a.logical| && f in a.logical[i].variants ::
      HasBook(a.books, a.logical[i].variants[f], f)
  }

  predicate Listed(logical: seq<LogicalBook>, v: VariantId) {
    exists i, f | 0 <= i < |logical| && f in logical[i].variants :: logical[i].variants[f] == v
  }

  predicate EveryBookListed(a: Archive) {
    forall k | 0 <= k < |a.books| :: Listed(a.logical, a.books[k].id)
  }

  predicate PreferenceBacked(logical: seq<LogicalBook>, p: Preference) {
    exists k | 0 <= k < |logical| :: logical[k].id == p.book && p.preferred in logical[k].variants
  }

  predicate PreferencesBacked(a: Archive) {
    && (forall i | 0 <= i < |a.preferences| :: PreferenceBacked(a.logical, a.preferences[i]))
    && (forall i, j | 0 <= i < j < |a.preferences| :: a.preferences[i].book != a.preferences[j].book)
  }

  predicate DistinctRows(rows: seq<Row>) {
    forall i, j | 0 <= i < j < |rows| :: rows[i] != rows[j]
  }

  predicate ReconciliationBacked(a: Archive, rec: Reconciliation) {
    && (forall i | 0 <= i < |rec.affected| :: Archived(a.books, rec.affected[i]))
    && (forall r | r in rec.accepted + rec.rejected :: HasBook(a.books, r.variant, r.format))
    && (forall r | r in rec.accepted :: ArchiveRow(a.logical, r))
    && DistinctRows(rec.accepted + rec.rejected)
  }

  predicate ReconciliationsBacked(a: Archive) {
    && (forall i | 0 <= i < |a.reconciliations| :: ReconciliationBacked(a, a.reconciliations[i]))
    && (forall i, j | 0 <= i < j < |a.reconciliations| :: a.reconciliations[i].id != a.reconciliations[j].id)
  }

  /** Every publication has one logical owner, and nothing in the archive points outside it. */
  predicate Accepted(a: Archive) {
    && WellFormed(a)
    && DistinctBooks(a.books)
    && DistinctLogical(a.logical)
    && RowsBacked(a)
    && ListedOnce(a.logical)
    && EveryBookListed(a)
    && PreferencesBacked(a)
    && ReconciliationsBacked(a)
  }

  // ----- the parser's two loops -----

  function BooksById(books: seq<BookRecord>): map<VariantId, Format>
  {
    if books == [] then map[] else
    var last := books[|books| - 1];
    BooksById(books[..|books| - 1])[last.id := last.format]
  }

  lemma {:induction false} BooksByIdHas(books: seq<BookRecord>)
    requires DistinctBooks(books)
    ensures forall v, f :: v in BooksById(books) && BooksById(books)[v] == f <==> HasBook(books, v, f)
  {
    if books != [] {
      var n := |books| - 1;
      BooksByIdHas(books[..n]);
      forall v, f ensures v in BooksById(books) && BooksById(books)[v] == f <==> HasBook(books, v, f) {
        if HasBook(books[..n], v, f) {
          var k :| 0 <= k < n && books[..n][k].id == v && books[..n][k].format == f;
          assert books[k].id == v;
        }
        if HasBook(books, v, f) && v != books[n].id {
          var k :| 0 <= k < |books| && books[k].id == v && books[k].format == f;
          assert books[..n][k] == books[k];
        }
      }
    }
  }

  /** The first loop stops at a repeated publication. */
  method IndexBooks(books: seq<BookRecord>) returns (formats: Option<map<VariantId, Format>>)
    ensures formats.Some? <==> DistinctBooks(books)
    ensures formats.Some? ==> formats.value == BooksById(books)
  {
    var found: map<VariantId, Format> := map[];
    for i := 0 to |books|
      invariant DistinctBooks(books[..i]) && found == BooksById(books[..i])
      invariant forall v :: v in found <==> exists k | 0 <= k < i :: books[k].id == v
    {
      assert books[..i + 1][..i] == books[..i];
      if books[i].id in found {
        return None;
      }
      found := found[books[i].id := books[i].format];
      assert DistinctBooks(books[..i + 1]);
      forall v ensures v in found <==> exists k | 0 <= k < i + 1 :: books[k].id == v {
        if v == books[i].id { assert books[i].id == v; }
      }
    }
    assert books[..|books|] == books;
    return Some(found);
  }

  function VariantsIn(logical: seq<LogicalBook>): set<VariantId> {
    set i, f | 0 <= i < |logical| && f in logical[i].variants :: logical[i].variants[f]
  }

  predicate SlotBacked(formats: map<VariantId, Format>, b: LogicalBook, f: Format) {
    f in b.variants ==> b.variants[f] in formats && formats[b.variants[f]] == f
  }

  /** One logical book of the second loop: its variants must be known, of the right format, and
      not claimed before. */
  method ClaimVariants(b: LogicalBook, formats: map<VariantId, Format>, owned: set<VariantId>)
      returns (claimed: Option<set<VariantId>>)
    requires SlotsDiffer(b)
    ensures claimed.Some? <==>
              forall f | f in b.variants :: SlotBacked(formats, b, f) && b.variants[f] !in owned
    ensures claimed.Some? ==> claimed.value == owned + b.variants.Values
  {
    var current := owned;
    if Epub in b.variants {
      var v := b.variants[Epub];
      if v !in formats || formats[v] != Epub || v in current { return None; }
      current := current + {v};
    }
    if Pdf in b.variants {
      var v := b.variants[Pdf];
      if v !in formats || formats[v] != Pdf || v in current { return None; }
      current := current + {v};
    }
    forall f | f in b.variants
      ensures b.variants[f] in current && SlotBacked(formats, b, f) && b.variants[f] !in owned
    {
      assert f == Epub || f == Pdf;
    }
    assert current == owned + b.variants.Values;
    return Some(current);
  }

  /** The membership half of the second loop, as a condition on the list. */
  predicate Claimable(logical: seq<LogicalBook>, formats: map<VariantId, Format>) {
    && DistinctLogical(logical)
    && ListedOnce(logical)
    && forall i, f | 0 <= i < |logical| && f in logical[i].variants :: SlotBacked(formats, logical[i], f)
  }

  /** A book whose variants are new to the list goes on it. */
  lemma ListOneMore(books: seq<LogicalBook>, i: nat)
    requires i < |books| && ListedOnce(books[..i]) && SlotsDiffer(books[i])
    requires forall f | f in books[i].variants :: books[i].variants[f] !in VariantsIn(books[..i])
    ensures ListedOnce(books[..i + 1])
  {
    var l := books[..i + 1];
    forall a, b, f, g | 0 <= a < |l| && 0 <= b < |l| && f in l[a].variants && g in l[b].variants
                        && l[a].variants[f] == l[b].variants[g]
      ensures a == b && f == g
    {
      if a < i { assert l[a] == books[..i][a] && l[a].variants[f] in VariantsIn(books[..i]); }
      if b < i { assert l[b] == books[..i][b] && l[b].variants[g] in VariantsIn(books[..i]); }
      assert f == Epub || f == Pdf;
      assert g == Epub || g == Pdf;
    }
  }

  lemma ClaimOneMore(logical: seq<LogicalBook>, formats: map<VariantId, Format>, i: nat)
    requires i < |logical| && Claimable(logical[..i], formats) && SlotsDiffer(logical[i])
    requires forall k | 0 <= k < i :: logical[k].id != logical[i].id
    requires forall f | f in logical[i].variants ::
               SlotBacked(formats, logical[i], f) && logical[i].variants[f] !in VariantsIn(logical[..i])
    ensures Claimable(logical[..i + 1], formats)
  {
    ListOneMore(logical, i);
  }

  lemma VariantsInNext(logical: seq<LogicalBook>, i: nat)
    requires i < |logical|
    ensures VariantsIn(logical[..i + 1]) == VariantsIn(logical[..i]) + logical[i].variants.Values
  {
  }

  /** The second loop: logical identifiers are new, variants are claimed once. */
  method ClaimAll(logical: seq<LogicalBook>, formats: map<VariantId, Format>)
      returns (owned: Option<set<VariantId>>)
    requires forall i | 0 <= i < |logical| :: SlotsDiffer(logical[i])
    ensures owned.Some? <==> Claimable(logical, formats)
    ensures owned.Some? ==> owned.value == VariantsIn(logical)
  {
    var ids: set<LogicalBookId> := {};
    var claimed: set<VariantId> := {};
    for i := 0 to |logical|
      invariant Claimable(logical[..i], formats)
      invariant claimed == VariantsIn(logical[..i])
      invariant forall id :: id in ids <==> exists k | 0 <= k < i :: logical[k].id == id
    {
      if logical[i].id in ids {
        return None;
      }
      var next := ClaimVariants(logical[i], formats, claimed);
      if next.None? {
        ghost var f :| f in logical[i].variants
                       && !(SlotBacked(formats, logical[i], f) && logical[i].variants[f] !in claimed);
        if logical[i].variants[f] in claimed {
          ghost var k, g :| 0 <= k < i && g in logical[..i][k].variants
                            && logical[..i][k].variants[g] == logical[i].variants[f];
          assert logical[k].variants[g] == logical[i].variants[f] && k != i;
        }
        return None;
      }
      ClaimOneMore(logical, formats, i);
      VariantsInNext(logical, i);
      claimed := next.value;
      ids := ids + {logical[i].id};
      forall id ensures id in ids <==> exists k | 0 <= k < i + 1 :: logical[k].id == id {
        if id == logical[i].id { assert logical[i].id == id; }
      }
    }
    assert logical[..|logical|] == logical;
    return Some(claimed);
  }

  lemma SameSize<T>(a: set<T>, b: set<T>)
    requires a <= b && |a| == |b|
    ensures a == b
  {
    if x :| x in b && x !in a {
      assert a <= b - {x};
      SubsetSize(a, b - {x});
    }
  }

  lemma ClaimedRowsBacked(a: Archive, formats: map<VariantId, Format>)
    requires DistinctBooks(a.books) && formats == BooksById(a.books) && Claimable(a.logical, formats)
    ensures RowsBacked(a)
    ensures VariantsIn(a.logical) <= formats.Keys
  {
    BooksByIdHas(a.books);
    forall i, f | 0 <= i < |a.logical| && f in a.logical[i].variants
      ensures HasBook(a.books, a.logical[i].variants[f], f)
      ensures a.logical[i].variants[f] in formats.Keys
    {
      assert SlotBacked(formats, a.logical[i], f);
    }
  }

  lemma ListedIsVariantIn(logical: seq<LogicalBook>, v: VariantId)
    ensures Listed(logical, v) <==> v in VariantsIn(logical)
  {
  }

  /** Comparing the sizes of the two sets is the same as asking that every publication be owned. */
  lemma OwnedSizes(a: Archive, formats: map<VariantId, Format>)
    requires DistinctBooks(a.books) && formats == BooksById(a.books)
    requires VariantsIn(a.logical) <= formats.Keys
    ensures |VariantsIn(a.logical)| == |formats.Keys| <==> EveryBookListed(a)
  {
    BooksByIdHas(a.books);
    var owned := VariantsIn(a.logical);
    if |owned| == |formats.Keys| {
      SameSize(owned, formats.Keys);
      forall k | 0 <= k < |a.books| ensures Listed(a.logical, a.books[k].id) {
        assert HasBook(a.books, a.books[k].id, a.books[k].format);
        ListedIsVariantIn(a.logical, a.books[k].id);
      }
    }
    if EveryBookListed(a) {
      forall v | v in formats.Keys ensures v in owned {
        assert HasBook(a.books, v, formats[v]);
        ListedIsVariantIn(a.logical, v);
      }
      assert owned == formats.Keys;
    }
  }

  /** The manifest parser after JSON and schema: accepted exactly when `Accepted`. */
  method ParseManifest(m: Manifest) returns (archive: Option<Archive>)
    ensures archive.Some? <==> Accepted(Normalized(m))
    ensures archive.Some? ==> archive.value == Normalized(m)
  {
    var a := Normalized(m);
    if !WellFormed(a) { return None; }
    var formats := IndexBooks(a.books);
    if formats.None? { return None; }
    BooksByIdHas(a.books);
    var owned := ClaimAll(a.logical, formats.value);
    if owned.None? {
      if Accepted(a) {
        forall i, f | 0 <= i < |a.logical| && f in a.logical[i].variants
          ensures SlotBacked(formats.value, a.logical[i], f)
        {
          assert HasBook(a.books, a.logical[i].variants[f], f);
        }
        assert false;
      }
      return None;
    }
    ClaimedRowsBacked(a, formats.value);
    OwnedSizes(a, formats.value);
    if |owned.value| != |formats.value.Keys| { return None; }
    if !PreferencesBacked(a) || !ReconciliationsBacked(a) { return None; }
    return Some(a);
  }

  /** An older archive is accepted exactly when no publication is repeated: its canonical books
      are an owner for each of them. */
  lemma OlderManifestAccepted(books: seq<BookRecord>)
    ensures Accepted(Normalized(BeforeLogicalBooks(books))) <==> DistinctBooks(books)
  {
    var a := SingletonState(books);
    forall i | 0 <= i < |books| ensures a.logical[i] == LogicalBookFromVariant(books[i], books[i].importedAt) {
    }
    if DistinctBooks(books) {
      forall i, f | 0 <= i < |a.logical| && f in a.logical[i].variants
        ensures HasBook(a.books, a.logical[i].variants[f], f)
      {
        assert books[i].id == a.logical[i].variants[f] && books[i].format == f;
      }
      forall k | 0 <= k < |a.books| ensures Listed(a.logical, a.books[k].id) {
        assert books[k].format in a.logical[k].variants;
      }
    }
  }

  /** It puts each publication under the book of its own digest, in the slot of its format. */
  lemma OlderManifestRows(books: seq<BookRecord>, r: Row)
    ensures ArchiveRow(Normalized(BeforeLogicalBooks(books)).logical, r) <==>
              exists k | 0 <= k < |books| :: r == Row(LogicalBookId(books[k].id.digest), books[k].format, books[k].id)
  {
    var logical := SingletonState(books).logical;
    forall i | 0 <= i < |books| ensures logical[i] == LogicalBookFromVariant(books[i], books[i].importedAt) {
    }
    if k :| 0 <= k < |books| && r == Row(LogicalBookId(books[k].id.digest), books[k].format, books[k].id) {
      assert logical[k].id == r.book && r.format in logical[k].variants && logical[k].variants[r.format] == r.variant;
    }
    if ArchiveRow(logical, r) {
      var i :| 0 <= i < |logical| && logical[i].id == r.book && r.format in logical[i].variants
               && logical[i].variants[r.format] == r.variant;
      assert r == Row(LogicalBookId(books[i].id.digest), books[i].format, books[i].id);
    }
  }
}
