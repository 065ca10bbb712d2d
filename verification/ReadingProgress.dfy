/** Merging reading progress: one document per book and device, the latest position, and the
    furthest progression ever seen. */
module ReadingProgress {

  type BookId = nat
  type DeviceId = nat
  type Key = (BookId, DeviceId)

  datatype Progress = Progress(
    book: BookId, device: DeviceId, locator: nat, furthest: real, updatedAt: nat, appVersion: nat)

  function KeyOf(p: Progress): Key {
    (p.book, p.device)
  }

  /** Recency: update time, then device, then the JSON text, whose place in collation order is
      `text`. True when `left` is at least as recent as `right`. */
  predicate AtLeastAsRecent(left: Progress, right: Progress, text: Progress -> real) {
    if left.updatedAt != right.updatedAt then left.updatedAt > right.updatedAt
    else if left.device != right.device then left.device > right.device
    else text(left) >= text(right)
  }

  function Max(a: real, b: real): real {
    if a >= b then a else b
  }

  function PreferredProgress(current: Progress, imported: Progress, text: Progress -> real): Progress {
    var selected := if AtLeastAsRecent(current, imported, text) then current else imported;
    selected.(furthest := Max(current.furthest, imported.furthest))
  }

  function Merged(documents: seq<Progress>, text: Progress -> real): map<Key, Progress> {
    if documents == [] then map[] else
    var n := |documents| - 1;
    var rest := Merged(documents[..n], text);
    var key := KeyOf(documents[n]);
    rest[key := if key in rest then PreferredProgress(rest[key], documents[n], text) else documents[n]]
  }

  method MergeProgressDocuments(documents: seq<Progress>, text: Progress -> real)
      returns (merged: map<Key, Progress>)
    ensures merged == Merged(documents, text)
  {
    merged := map[];
    for i := 0 to |documents|
      invariant merged == Merged(documents[..i], text)
    {
      var progress := documents[i];
      var key := KeyOf(progress);
      if key in merged {
        merged := merged[key := PreferredProgress(merged[key], progress, text)];
      } else {
        merged := merged[key := progress];
      }
      assert documents[..i + 1][..i] == documents[..i];
    }
    assert documents[..|documents|] == documents;
  }

  /** `r` summarizes the documents of its key: no document is later or further, some document got as
      far, and some document at that time carries the other fields. */
  ghost predicate Summarizes(documents: seq<Progress>, key: Key, r: Progress) {
    && KeyOf(r) == key
    && (forall d | d in documents && KeyOf(d) == key :: d.updatedAt <= r.updatedAt && d.furthest <= r.furthest)
    && (exists d :: d in documents && KeyOf(d) == key && d.furthest == r.furthest)
    && (exists d :: d in documents && KeyOf(d) == key && r == d.(furthest := r.furthest))
  }

  lemma PreferredSummarizes(
      documents: seq<Progress>, key: Key, r: Progress, imported: Progress, text: Progress -> real)
    requires Summarizes(documents, key, r) && KeyOf(imported) == key
    ensures Summarizes(documents + [imported], key, PreferredProgress(r, imported, text))
  {
  }

  /** Which of two positions is kept: the later one; at equal times the one of the greater device, and on
      one device the one whose text is greater. How far the reader got is kept from either. */
  lemma RecencyDecides(current: Progress, imported: Progress, text: Progress -> real)
    ensures var p := PreferredProgress(current, imported, text);
            var far := if current.furthest >= imported.furthest then current.furthest else imported.furthest;
            && (current.updatedAt > imported.updatedAt ==> p == current.(furthest := far))
            && (imported.updatedAt > current.updatedAt ==> p == imported.(furthest := far))
            && (current.updatedAt == imported.updatedAt && current.device > imported.device ==> p == current.(furthest := far))
            && (current.updatedAt == imported.updatedAt && imported.device > current.device ==> p == imported.(furthest := far))
            && (current.updatedAt == imported.updatedAt && current.device == imported.device ==>
                  && (text(current) > text(imported) ==> p == current.(furthest := far))
                  && (text(imported) > text(current) ==> p == imported.(furthest := far)))
  {
  }

  /** One document for each key that occurs, and no other; each summarizes its key. */
  lemma {:induction false} MergedSummarizes(documents: seq<Progress>, text: Progress -> real)
    ensures forall key :: key in Merged(documents, text) <==> exists d :: d in documents && KeyOf(d) == key
    ensures forall key | key in Merged(documents, text) :: Summarizes(documents, key, Merged(documents, text)[key])
  {
    if documents != [] {
      var n := |documents| - 1;
      var last := documents[n];
      var before := documents[..n];
      MergedSummarizes(before, text);
      assert documents == before + [last];
      assert forall d :: d in documents <==> d in before || d == last;
      var rest := Merged(before, text);
      forall key | key in Merged(documents, text)
        ensures Summarizes(documents, key, Merged(documents, text)[key])
      {
        if key != KeyOf(last) {
          SummaryIgnores(before, key, rest[key], last);
        } else if key in rest {
          PreferredSummarizes(before, key, rest[key], last, text);
        } else {
          assert last in documents;
        }
      }
    }
  }

  lemma SummaryIgnores(documents: seq<Progress>, key: Key, r: Progress, other: Progress)
    requires Summarizes(documents, key, r) && KeyOf(other) != key
    ensures Summarizes(documents + [other], key, r)
  {
  }

  predicate Latest(documents: seq<Progress>, d: Progress) {
    d in documents && forall e | e in documents && KeyOf(e) == KeyOf(d) :: e.updatedAt <= d.updatedAt
  }

  /** The latest documents of a key differ only in how far they got. */
  ghost predicate Agreeing(documents: seq<Progress>) {
    forall d, e | Latest(documents, d) && Latest(documents, e) && KeyOf(d) == KeyOf(e) ::
      d == e.(furthest := d.furthest)
  }

  lemma SummaryIsUnique(documents: seq<Progress>, key: Key, r: Progress, r': Progress)
    requires Agreeing(documents) && Summarizes(documents, key, r) && Summarizes(documents, key, r')
    ensures r == r'
  {
  }

  predicate Within(a: seq<Progress>, b: seq<Progress>) {
    forall d | d in a :: d in b
  }

  lemma SummaryOfSame(a: seq<Progress>, b: seq<Progress>, key: Key, r: Progress)
    requires Within(a, b) && Within(b, a) && Summarizes(a, key, r)
    ensures Summarizes(b, key, r)
  {
  }

  lemma MergedKeysWithin(a: seq<Progress>, b: seq<Progress>, text: Progress -> real)
    requires Within(a, b)
    ensures Merged(a, text).Keys <= Merged(b, text).Keys
  {
    MergedSummarizes(a, text);
    MergedSummarizes(b, text);
    forall key | key in Merged(a, text) ensures key in Merged(b, text) {
      var d :| d in a && KeyOf(d) == key;
      assert d in b;
    }
  }

  /** The merge does not depend on the order or the repetition of its input. */
  lemma MergeIgnoresOrder(a: seq<Progress>, b: seq<Progress>, text: Progress -> real)
    requires Agreeing(b) && Within(a, b) && Within(b, a)
    ensures Merged(a, text) == Merged(b, text)
  {
    MergedKeysWithin(a, b, text);
    MergedKeysWithin(b, a, text);
    var ma, mb := Merged(a, text), Merged(b, text);
    forall key | key in ma ensures ma[key] == mb[key] {
      MergedSummarizes(a, text);
      MergedSummarizes(b, text);
      SummaryOfSame(a, b, key, ma[key]);
      SummaryIsUnique(b, key, ma[key], mb[key]);
    }
  }

  /** Collation for the example: the locator comes first in the text, then the furthest progression,
      then the app version. */
  function ExampleText(d: Progress): real {
    d.locator as real * 1000.0 + d.furthest * 100.0 + d.appVersion as real
  }

  lemma MergedThree(x: Progress, y: Progress, z: Progress, text: Progress -> real)
    requires KeyOf(x) == KeyOf(y) == KeyOf(z)
    ensures Merged([x, y, z], text) ==
            map[KeyOf(x) := PreferredProgress(PreferredProgress(x, y, text), z, text)]
  {
    assert [x, y, z][..|[x, y, z]| - 1] == [x, y];
    assert [x, y][..|[x, y]| - 1] == [x];
    assert [x][..|[x]| - 1] == [];
    assert Merged([x], text) == map[KeyOf(x) := x];
    assert Merged([x, y], text) == map[KeyOf(x) := PreferredProgress(x, y, text)];
  }

  /** Without agreement the order can matter. The furthest progression is part of the text that breaks
      ties, and merging raises it: two documents at one position, written by different versions of the
      app, change places when a third document gets further. */
  lemma MergeOrderCanMatter()
    ensures var x := Progress(1, 1, 5, 0.1, 7, 9);
            var y := Progress(1, 1, 5, 0.2, 7, 1);
            var w := Progress(1, 1, 4, 0.3, 7, 1);
            Merged([x, y, w], ExampleText) != Merged([x, w, y], ExampleText)
  {
    var x := Progress(1, 1, 5, 0.1, 7, 9);
    var y := Progress(1, 1, 5, 0.2, 7, 1);
    var w := Progress(1, 1, 4, 0.3, 7, 1);
    MergedThree(x, y, w, ExampleText);
    MergedThree(x, w, y, ExampleText);
    assert Merged([x, y, w], ExampleText)[(1, 1)].appVersion == 1;
    assert Merged([x, w, y], ExampleText)[(1, 1)].appVersion == 9;
  }
}
