/** The MEGA folder behind the sync gateway: staged document writes and batch deletes over a bridge
    whose calls can fail before or after they take effect. One writer at a time. */
module MegaFolder {
  import opened Common

  type Handle = nat
  type Revision = nat
  type Content = string

  /** A path as its segments. */
  type Path = seq<string>

  datatype Node = Node(path: Path, content: Content, revision: Revision)
  type Nodes = map<Handle, Node>

  const MAX_DUPLICATE_CANDIDATES := 16

  // ----- what a write must keep at every moment -----

  ghost predicate Published(n: Nodes, path: Path, content: Content) {
    exists h | h in n :: n[h].path == path && n[h].content == content
  }

  ghost predicate Survives(n: Nodes, content: Content) {
    exists h | h in n :: n[h].content == content
  }

  /** Whatever the path held at the start still exists somewhere, or the path holds the new content;
      nodes at other paths are as they were. */
  ghost predicate Safe(start: Nodes, n: Nodes, path: Path, content: Content) {
    && (forall h | h in start && start[h].path == path ::
          Survives(n, start[h].content) || Published(n, path, content))
    && (forall h | h in start && start[h].path != path :: h in n && n[h] == start[h])
  }

  // ----- what a write does when every call works -----

  /** Duplicates are few and carry the same content. */
  predicate Resolvable(n: Nodes, path: Path) {
    |At(n, path)| <= MAX_DUPLICATE_CANDIDATES
    && forall h, h' | h in At(n, path) && h' in At(n, path) :: n[h].content == n[h'].content
  }

  /** Nothing is expected and nothing is there, or the node with the smallest handle has the revision. */
  ghost predicate Expects(n: Nodes, path: Path, expected: Option<Revision>) {
    if At(n, path) == {} then expected.None?
    else exists w :: w in At(n, path) && (forall h | h in At(n, path) :: w <= h) && expected == Some(n[w].revision)
  }

  lemma WinnerDecides(n: Nodes, path: Path, w: Handle, expected: Option<Revision>)
    requires w in At(n, path) && forall h | h in At(n, path) :: w <= h
    ensures Expects(n, path, expected) <==> expected == Some(n[w].revision)
  {
    if Expects(n, path, expected) {
      var w' :| w' in At(n, path) && (forall h | h in At(n, path) :: w' <= h) && expected == Some(n[w'].revision);
      assert w' == w;
    }
  }

  function Held(current: Option<Handle>): set<Handle> {
    if current.Some? then {current.value} else {}
  }

  function RevisionOf(n: Nodes, current: Option<Handle>): Option<Revision> {
    if current.Some? && current.value in n then Some(n[current.value].revision) else None
  }

  /** The current node aside, the staged node in its place. */
  function Swapped(n: Nodes, current: Option<Handle>, staged: Handle, path: Path, backupPath: Path): Nodes
    requires staged in n && (current.Some? ==> current.value in n)
  {
    var aside := if current.Some? then n[current.value := n[current.value].(path := backupPath)] else n;
    aside[staged := aside[staged].(path := path)]
  }

  /** The path's nodes replaced by one new node with the content, all others as they were. */
  ghost predicate Replaced(start: Nodes, n: Nodes, path: Path, content: Content) {
    exists h :: h !in start && h in n && n[h].path == path && n[h].content == content
                && n == (start - At(start, path))[h := n[h]]
  }

  /** Whatever the path held, it holds a node with that content. */
  ghost predicate KeepsAt(start: Nodes, n: Nodes, path: Path) {
    forall h | h in At(start, path) :: HoldsAt(n, path, start[h].content)
  }

  ghost predicate HoldsAt(n: Nodes, path: Path, content: Content) {
    exists g :: g in At(n, path) && n[g].content == content
  }

  /** At most one call failed since, and it was not the move of the current node aside. */
  ghost predicate Survivable(before: seq<Call>, after: seq<Call>, backupPath: Path) {
    && before <= after && |after| <= |before| + 1
    && (|after| > |before| ==> after[|before|] != MoveCall(backupPath))
  }

  lemma OpenedAt(start: Nodes, path: Path, current: Option<Handle>)
    requires Held(current) <= At(start, path)
    ensures At(start - (At(start, path) - Held(current)), path) == Held(current)
  {
  }

  lemma SwappedAt(n: Nodes, path: Path, current: Option<Handle>, staged: Handle, backupPath: Path)
    requires At(n, path) == Held(current) && staged in n && staged !in Held(current) && backupPath != path
    ensures current.Some? ==> current.value in n
    ensures At(Swapped(n, current, staged, path, backupPath), path) == {staged}
  {
    assert current.Some? ==> current.value in At(n, path);
    var after := Swapped(n, current, staged, path, backupPath);
    forall h | h in after && after[h].path == path ensures h == staged {
      assert h != staged && h !in Held(current) ==> h in At(n, path);
    }
  }

  /** Opening, staging, swapping and dropping the backup, end to end. */
  lemma WriteReplaces(
      start: Nodes, n: Nodes, path: Path, content: Content, current: Option<Handle>, staged: Handle, node: Node,
      backupPath: Path)
    requires Held(current) <= At(start, path) && staged !in start && node.content == content
    requires n == (start - (At(start, path) - Held(current)))[staged := node]
    ensures current.Some? ==> current.value in n
    ensures Replaced(start, Swapped(n, current, staged, path, backupPath) - Held(current), path, content)
  {
    var after := Swapped(n, current, staged, path, backupPath) - Held(current);
    assert after[staged] == node.(path := path);
    assert after == (start - At(start, path))[staged := after[staged]];
  }

  // ----- deleting in a batch -----

  datatype DeleteRequest = DeleteRequest(path: Path, revision: Revision)

  function At(n: Nodes, path: Path): set<Handle> {
    set h | h in n && n[h].path == path
  }

  function RevisionsAt(n: Nodes, path: Path): set<Revision> {
    set h | h in n && n[h].path == path :: n[h].revision
  }

  function Expected(requests: seq<DeleteRequest>, path: Path): set<Revision> {
    set i | 0 <= i < |requests| && requests[i].path == path :: requests[i].revision
  }

  predicate Requested(requests: seq<DeleteRequest>, path: Path) {
    exists i | 0 <= i < |requests| :: requests[i].path == path
  }

  /** A requested path that is present with other revisions than the caller expects. */
  predicate Changed(n: Nodes, requests: seq<DeleteRequest>, path: Path) {
    Requested(requests, path) && At(n, path) != {} && RevisionsAt(n, path) != Expected(requests, path)
  }

  function AtRequested(n: Nodes, requests: seq<DeleteRequest>): set<Handle> {
    set h | h in n && Requested(requests, n[h].path)
  }

  // ----- the common prefix of a batch -----

  /** How many leading segments two paths share. */
  function Shared(a: Path, b: Path): (n: nat)
    ensures n <= |a| && n <= |b| && a[..n] == b[..n]
  {
    if a == [] || b == [] || a[0] != b[0] then 0 else 1 + Shared(a[1..], b[1..])
  }

  lemma {:induction false} SharedIsLongest(a: Path, b: Path, n: nat)
    requires n <= |a| && n <= |b| && a[..n] == b[..n]
    ensures n <= Shared(a, b)
  {
    if n > 0 {
      assert a[0] == a[..n][0] && b[0] == b[..n][0];
      assert a[1..][..n - 1] == a[..n][1..] && b[1..][..n - 1] == b[..n][1..];
      SharedIsLongest(a[1..], b[1..], n - 1);
    }
  }

  /** The inner loop pops segments until the rest is a prefix; one segment always remains. */
  method PopToShared(before: Path, segments: Path) returns (common: Path)
    requires |before| > 0
    ensures common == before[..if Shared(before, segments) > 1 then Shared(before, segments) else 1]
  {
    common := before;
    while |common| > 1 && !(common <= segments)
      invariant 1 <= |common| <= |before| && common == before[..|common|]
      invariant Shared(before, segments) <= |common|
      decreases |common|
    {
      var popped := common[..|common| - 1];
      assert Shared(before, segments) != |common|;
      common := popped;
    }
    if common <= segments {
      assert segments[..|common|] == common;
      SharedIsLongest(before, segments, |common|);
    }
  }

  predicate PrefixOfAll(c: Path, paths: seq<Path>) {
    forall i | 0 <= i < |paths| :: c <= paths[i]
  }

  predicate SameRoot(paths: seq<Path>)
    requires forall i | 0 <= i < |paths| :: |paths[i]| > 0
  {
    forall i | 0 <= i < |paths| :: paths[i][0] == paths[0][0]
  }

  lemma PrefixNext(c: Path, paths: seq<Path>, k: nat)
    requires k < |paths|
    ensures PrefixOfAll(c, paths[..k + 1]) <==> PrefixOfAll(c, paths[..k]) && c <= paths[k]
  {
  }

  /** For paths under one root the result is their longest common prefix, so a listing of it covers
      every one of them. */
  method CommonSyncPathPrefix(paths: seq<Path>) returns (common: Path)
    requires |paths| > 0 && (forall i | 0 <= i < |paths| :: |paths[i]| > 0) && SameRoot(paths)
    ensures PrefixOfAll(common, paths)
    ensures forall c | PrefixOfAll(c, paths) :: c <= common
  {
    common := paths[0];
    for k := 1 to |paths|
      invariant 1 <= |common| && common[0] == paths[0][0]
      invariant PrefixOfAll(common, paths[..k])
      invariant forall c | PrefixOfAll(c, paths[..k]) :: c <= common
    {
      var before := common;
      var segments := paths[k];
      assert before[..1] == segments[..1];
      SharedIsLongest(before, segments, 1);
      common := PopToShared(before, segments);
      PrefixNext(common, paths, k);
      forall i | 0 <= i < k ensures common <= paths[..k][i] {
        assert before <= paths[..k][i];
      }
      ghost var next := paths[..k + 1];
      forall c | PrefixOfAll(c, next) ensures c <= common {
        PrefixNext(c, paths, k);
        assert before[..|c|] == c && segments[..|c|] == c;
        SharedIsLongest(before, segments, |c|);
      }
    }
    assert paths[..|paths|] == paths;
  }

  // ----- the state of a write in progress -----

  /** `current` is the node that was resolved at the path, `staged` the node uploaded beside it. */
  ghost predicate Writing(
      start: Nodes, n: Nodes, path: Path, content: Content, current: Option<Handle>, staged: Option<Handle>) {
    && (forall h | h in start && start[h].path != path :: h in n && n[h] == start[h])
    && (forall h | h in n && n[h].path == path ::
          || (h in start && start[h].path == path && n[h].content == start[h].content)
          || (Some(h) == staged && n[h].content == content))
    && (forall h | h in start && start[h].path == path ::
          current.Some? && current.value in start && start[h].content == start[current.value].content)
    && (current.Some? ==>
          && current.value in start && start[current.value].path == path
          && current.value in n && n[current.value].content == start[current.value].content)
    && (staged.Some? ==> staged.value !in start)
  }

  lemma WritingIsSafe(
      start: Nodes, n: Nodes, path: Path, content: Content, current: Option<Handle>, staged: Option<Handle>)
    requires Writing(start, n, path, content, current, staged)
    ensures Safe(start, n, path, content)
  {
    if current.Some? {
      assert Survives(n, start[current.value].content);
    }
  }

  /** The last removal: the kept node may go once the path holds the new content, or another node at
      the path still carries the old one. */
  lemma BackupMayGo(
      start: Nodes, n: Nodes, n': Nodes, path: Path, content: Content, current: Handle, staged: Option<Handle>,
      other: Handle)
    requires Writing(start, n, path, content, Some(current), staged)
    requires n' == n || n' == n - {current}
    requires other in n && n[other].path == path && other != current
    ensures Safe(start, n', path, content)
  {
    assert other in n' && n'[other] == n[other];
    assert start[current].path == path;
    if n[other].content == start[current].content {
      assert Survives(n', start[current].content);
    } else {
      assert Published(n', path, content);
    }
  }

  lemma OpenIsWriting(n: Nodes, path: Path, content: Content, r: Resolution)
    requires r.Missing? ==> At(n, path) == {}
    requires r.Resolved? ==>
               && At(n, path) == {r.winner} + r.duplicates
               && forall h | h in At(n, path) :: n[h].content == r.content
    requires !r.Unreadable?
    ensures Writing(n, n, path, content, if r.Resolved? then Some(r.winner) else None, None)
  {
    assert forall h | h in n && n[h].path == path :: h in At(n, path);
    assert r.Resolved? ==> r.winner in At(n, path);
  }

  /** An upload beside the path, whatever it reports. */
  lemma UploadKeepsWriting(
      start: Nodes, n: Nodes, n': Nodes, path: Path, content: Content, current: Option<Handle>,
      staged: Option<Handle>)
    requires Writing(start, n, path, content, current, None)
    requires forall h | h in n :: h in n' && n'[h] == n[h]
    requires forall h | h in n' && h !in n :: n'[h].path != path
    requires staged.Some? ==> staged.value !in start
    ensures Writing(start, n', path, content, current, staged)
  {
  }

  lemma OnlyHeld(n: Nodes, path: Path, current: Option<Handle>, r: Resolution)
    requires At(n, path) == Held(current)
    requires r.Missing? ==> At(n, path) == {}
    requires r.Resolved? ==> r.winner in At(n, path)
    requires !r.Unreadable?
    ensures r.Resolved? <==> current.Some?
    ensures current.Some? ==> r.winner == current.value && current.value in n
  {
    assert current.Some? ==> current.value in At(n, path);
  }

  lemma UploadedAt(n: Nodes, n': Nodes, path: Path, current: Option<Handle>, staged: Handle)
    requires At(n, path) == Held(current) && staged !in n && staged in n' && n'[staged].path != path
    requires forall h | h in n :: h in n' && n'[h] == n[h]
    requires forall h | h in n' && h !in n :: h == staged
    ensures n' == n[staged := n'[staged]] && At(n', path) == Held(current)
    ensures Resolvable(n', path) && RevisionOf(n', current) == RevisionOf(n, current)
  {
    assert current.Some? ==> current.value in At(n, path);
  }

  /** While the current node is at the path, the path holds what it held. */
  lemma OldStays(
      start: Nodes, n: Nodes, path: Path, content: Content, current: Option<Handle>, staged: Option<Handle>)
    requires Writing(start, n, path, content, current, staged)
    requires current.Some? ==> current.value in n && n[current.value].path == path
    ensures KeepsAt(start, n, path)
  {
    forall h | h in At(start, path) ensures HoldsAt(n, path, start[h].content) {
      assert current.value in At(n, path) && n[current.value].content == start[h].content;
    }
  }

  lemma KeepsMore(start: Nodes, n: Nodes, n': Nodes, path: Path)
    requires KeepsAt(start, n, path) && forall h | h in n :: h in n' && n'[h] == n[h]
    ensures KeepsAt(start, n', path)
  {
    forall h | h in At(start, path) ensures HoldsAt(n', path, start[h].content) {
      var g :| g in At(n, path) && n[g].content == start[h].content;
      assert g in At(n', path);
    }
  }

  lemma OldHeld(
      start: Nodes, before: Nodes, n: Nodes, path: Path, content: Content, current: Handle, staged: Option<Handle>)
    requires Writing(start, before, path, content, Some(current), staged)
    requires HoldsAt(n, path, start[current].content)
    ensures KeepsAt(start, n, path)
  {
    forall h | h in At(start, path) ensures HoldsAt(n, path, start[h].content) {
      assert start[h].content == start[current].content;
    }
  }

  lemma {:induction false} FreshHandle(handles: set<Handle>) returns (bound: Handle)
    ensures forall h | h in handles :: h < bound
  {
    if handles == {} {
      bound := 0;
    } else {
      var h :| h in handles;
      var rest := FreshHandle(handles - {h});
      bound := if rest > h then rest else h + 1;
      assert forall g | g in handles :: g == h || g in handles - {h};
    }
  }

  datatype Call = UploadCall | MoveCall(to: Path) | RemoveCall | ListCall | DownloadCall

  datatype Fault = Works | FailsBefore | FailsAfter | Garbles

  datatype UploadReply = UploadFailed | Uploaded(handle: Handle, reportedRight: bool)

  datatype Resolution =
    | Unreadable | Missing | Resolved(winner: Handle, content: Content, duplicates: set<Handle>)

  datatype DeleteResult = EntryChanged | BridgeFailed | Deleted

  class Folder {
    var nodes: Nodes
    /** Handles are never issued twice. */
    var issued: set<Handle>
    /** Every state the folder has been in. */
    ghost var trace: seq<Nodes>
    /** The bridge calls that failed, and the uploads that reported the wrong size or digest. */
    ghost var failures: seq<Call>

    ghost predicate Valid()
      reads this
    {
      nodes.Keys <= issued
    }

    // ----- the bridge: a call may fail before or after its effect -----

    method UploadFile(path: Path, content: Content) returns (r: UploadReply)
      requires Valid()
      modifies this
      ensures old(failures) <= failures
      ensures failures == old(failures) ==> r.Uploaded? && r.reportedRight
      ensures Valid() && old(issued) <= issued && trace == old(trace) + [nodes]
      ensures forall h | h in old(nodes) :: h in nodes && nodes[h] == old(nodes)[h]
      ensures forall h | h in nodes && h !in old(nodes) :: nodes[h].path == path && h !in old(issued)
      ensures r.Uploaded? ==>
                && r.handle !in old(issued) && r.handle in nodes
                && (forall h | h in nodes && h !in old(nodes) :: h == r.handle)
                && (r.reportedRight ==> nodes[r.handle].content == content)
    {
      var fault: Fault := *;
      var revision: Revision := *;
      var garbled: Content := *;
      ghost var bound := FreshHandle(issued);
      assert bound !in issued;
      var h :| h !in issued;
      issued := issued + {h};
      if fault != FailsBefore {
        nodes := nodes[h := Node(path, if fault == Garbles then garbled else content, revision)];
      }
      trace := trace + [nodes];
      if fault != Works { failures := failures + [UploadCall]; }
      match fault
      case Works => r := Uploaded(h, true);
      case Garbles => r := Uploaded(h, false);
      case _ => r := UploadFailed;
    }

    method MoveFile(h: Handle, path: Path) returns (ok: bool)
      requires Valid()
      modifies `nodes, `trace, `failures
      ensures old(failures) <= failures
      ensures Valid() && trace == old(trace) + [nodes]
      ensures nodes == old(nodes) || (h in old(nodes) && nodes == old(nodes)[h := old(nodes)[h].(path := path)])
      ensures ok ==> h in old(nodes) && nodes == old(nodes)[h := old(nodes)[h].(path := path)]
      ensures failures == old(failures) ==> (ok <==> h in old(nodes))
      ensures ok ==> failures == old(failures)
      ensures !ok && h in old(nodes) ==> failures == old(failures) + [MoveCall(path)]
    {
      var fault: Fault := *;
      if fault != FailsBefore && h in nodes {
        nodes := nodes[h := nodes[h].(path := path)];
        ok := fault == Works;
      } else {
        ok := false;
      }
      trace := trace + [nodes];
      if fault != Works { failures := failures + [MoveCall(path)]; }
    }

    method RemoveFile(h: Handle) returns (ok: bool)
      requires Valid()
      modifies `nodes, `trace, `failures
      ensures old(failures) <= failures
      ensures Valid() && trace == old(trace) + [nodes]
      ensures nodes == old(nodes) || nodes == old(nodes) - {h}
      ensures ok ==> nodes == old(nodes) - {h}
      ensures failures == old(failures) ==> ok
    {
      var fault: Fault := *;
      if fault != FailsBefore {
        nodes := nodes - {h};
      }
      ok := fault == Works;
      trace := trace + [nodes];
      if fault != Works { failures := failures + [RemoveCall]; }
    }

    /** The listing at or below a prefix. */
    method Files(prefix: Path) returns (r: Option<set<Handle>>)
      modifies `failures
      ensures old(failures) <= failures
      ensures failures == old(failures) ==> r.Some?
      ensures r.Some? ==> r.value == set h | h in nodes && prefix <= nodes[h].path
    {
      var fault: Fault := *;
      if fault == Works {
        r := Some(set h | h in nodes && prefix <= nodes[h].path);
      } else {
        r := None;
      }
      if fault != Works { failures := failures + [ListCall]; }
    }

    method DownloadFile(h: Handle) returns (r: Option<Content>)
      modifies `failures
      ensures old(failures) <= failures
      ensures failures == old(failures) ==> (r.Some? <==> h in nodes)
      ensures r.Some? ==> h in nodes && r.value == nodes[h].content
    {
      var fault: Fault := *;
      if fault == Works && h in nodes {
        r := Some(nodes[h].content);
      } else {
        r := None;
      }
      if fault != Works { failures := failures + [DownloadCall]; }
    }

    // ----- resolving a document -----

    method FileCandidates(path: Path) returns (r: Option<set<Handle>>)
      modifies `failures
      ensures old(failures) <= failures
      ensures failures == old(failures) ==> r.Some?
      ensures r.Some? ==> r.value == At(nodes, path)
    {
      var files := Files(path);
      if files.None? { return None; }
      return Some(set h | h in files.value && nodes[h].path == path);
    }

    /** Duplicates are tolerated only when they carry the same content; the smallest handle wins. */
    method ResolveDocument(path: Path) returns (r: Resolution)
      modifies `failures
      ensures old(failures) <= failures
      ensures failures == old(failures) ==> (r.Unreadable? <==> !Resolvable(nodes, path))
      ensures r.Missing? ==> At(nodes, path) == {}
      ensures r.Resolved? ==>
                && At(nodes, path) == {r.winner} + r.duplicates && r.winner !in r.duplicates
                && forall h | h in At(nodes, path) :: nodes[h].content == r.content && r.winner <= h
    {
      var candidates := FileCandidates(path);
      if candidates.None? { return Unreadable; }
      var all := candidates.value;
      if all == {} { return Missing; }
      if |all| > MAX_DUPLICATE_CANDIDATES { return Unreadable; }
      var winner :| winner in all;
      var expected := DownloadFile(winner);
      if expected.None? { return Unreadable; }
      ghost var first := winner;
      var todo := all - {winner};
      while todo != {}
        invariant todo <= all && winner in all && winner !in todo
        invariant old(failures) <= failures
        invariant forall h | h in all - todo :: nodes[h].content == expected.value && winner <= h
        decreases todo
      {
        var h :| h in todo;
        var content := DownloadFile(h);
        if content.None? || content.value != expected.value {
          assert h in At(nodes, path) && first in At(nodes, path);
          return Unreadable;
        }
        if h < winner { winner := h; }
        todo := todo - {h};
      }
      return Resolved(winner, expected.value, all - {winner});
    }

    // ----- the staged write -----

    ghost predicate SafeSince(start: Nodes, from: nat, path: Path, content: Content)
      reads this
    {
      from <= |trace| && forall i | from <= i < |trace| :: Safe(start, trace[i], path, content)
    }

    /** A removal, during a write, of any node but the current one. */
    method Discard(
        h: Handle, ghost start: Nodes, ghost from: nat, ghost path: Path, ghost content: Content,
        ghost current: Option<Handle>, ghost staged: Option<Handle>)
      requires Valid() && Writing(start, nodes, path, content, current, staged)
      requires SafeSince(start, from, path, content)
      requires current != Some(h) && (h in start ==> start[h].path == path)
      modifies `nodes, `trace, `failures
      ensures old(failures) <= failures
      ensures Valid() && Writing(start, nodes, path, content, current, staged)
      ensures SafeSince(start, from, path, content) && old(trace) <= trace
      ensures forall g | g in old(nodes) && g != h :: g in nodes && nodes[g] == old(nodes)[g]
      ensures failures == old(failures) ==> nodes == old(nodes) - {h}
    {
      var _ := RemoveFile(h);
      WritingIsSafe(start, nodes, path, content, current, staged);
    }

    /** A move, during a write, of the current node: aside, or back. */
    method Shift(
        h: Handle, to: Path, ghost start: Nodes, ghost from: nat, ghost path: Path, ghost content: Content,
        ghost staged: Option<Handle>)
        returns (ok: bool)
      requires Valid() && Writing(start, nodes, path, content, Some(h), staged)
      requires SafeSince(start, from, path, content)
      modifies `nodes, `trace, `failures
      ensures old(failures) <= failures
      ensures Valid() && Writing(start, nodes, path, content, Some(h), staged)
      ensures SafeSince(start, from, path, content) && old(trace) <= trace
      ensures nodes.Keys == old(nodes).Keys
      ensures forall g | g in old(nodes) && g != h :: nodes[g] == old(nodes)[g]
      ensures ok ==> nodes[h].path == to
      ensures ok <==> failures == old(failures)
      ensures ok ==> nodes == old(nodes)[h := old(nodes)[h].(path := to)]
      ensures !ok ==> failures == old(failures) + [MoveCall(to)]
    {
      ok := MoveFile(h, to);
      WritingIsSafe(start, nodes, path, content, Some(h), staged);
    }

    /** The staged node taking its place. */
    method Reveal(
        staged: Handle, ghost start: Nodes, ghost from: nat, path: Path, ghost content: Content,
        ghost current: Option<Handle>)
        returns (ok: bool)
      requires Valid() && Writing(start, nodes, path, content, current, Some(staged))
      requires SafeSince(start, from, path, content)
      requires staged in nodes && nodes[staged].content == content
      modifies `nodes, `trace, `failures
      ensures old(failures) <= failures
      ensures Valid() && Writing(start, nodes, path, content, current, Some(staged))
      ensures SafeSince(start, from, path, content) && old(trace) <= trace
      ensures forall g | g in old(nodes) && g != staged :: g in nodes && nodes[g] == old(nodes)[g]
      ensures ok <==> failures == old(failures)
      ensures ok ==> nodes == old(nodes)[staged := old(nodes)[staged].(path := path)]
      ensures !ok ==> failures == old(failures) + [MoveCall(path)]
    {
      ok := MoveFile(staged, path);
      WritingIsSafe(start, nodes, path, content, current, Some(staged));
    }

    /** The backup goes once another node holds the path. */
    method DropBackup(
        h: Handle, ghost start: Nodes, ghost from: nat, ghost path: Path, ghost content: Content,
        ghost staged: Option<Handle>, ghost other: Handle)
      requires Valid() && Writing(start, nodes, path, content, Some(h), staged)
      requires SafeSince(start, from, path, content)
      requires other in nodes && nodes[other].path == path && other != h && nodes[h].path != path
      modifies `nodes, `trace, `failures
      ensures old(failures) <= failures
      ensures Valid() && SafeSince(start, from, path, content) && old(trace) <= trace
      ensures At(nodes, path) == At(old(nodes), path)
      ensures forall g | g in At(nodes, path) :: nodes[g] == old(nodes)[g]
      ensures failures == old(failures) ==> nodes == old(nodes) - {h}
    {
      ghost var before := nodes;
      var _ := RemoveFile(h);
      BackupMayGo(start, before, nodes, path, content, h, staged, other);
    }

    method RemoveDuplicates(
        duplicates: set<Handle>, ghost start: Nodes, ghost from: nat, ghost path: Path, ghost content: Content,
        ghost current: Handle)
      requires Valid() && Writing(start, nodes, path, content, Some(current), None)
      requires SafeSince(start, from, path, content)
      requires current !in duplicates && forall h | h in duplicates :: h in start && start[h].path == path
      modifies `nodes, `trace, `failures
      ensures old(failures) <= failures
      ensures Valid() && Writing(start, nodes, path, content, Some(current), None)
      ensures SafeSince(start, from, path, content) && old(trace) <= trace
      ensures current in nodes && nodes[current] == old(nodes)[current]
      ensures failures == old(failures) ==> nodes == old(nodes) - duplicates
    {
      var todo := duplicates;
      while todo != {}
        invariant todo <= duplicates && old(trace) <= trace && Valid()
        invariant old(failures) <= failures
        invariant current in nodes && nodes[current] == old(nodes)[current]
        invariant failures == old(failures) ==> nodes == old(nodes) - (duplicates - todo)
        invariant Writing(start, nodes, path, content, Some(current), None) && SafeSince(start, from, path, content)
        decreases todo
      {
        var h :| h in todo;
        Discard(h, start, from, path, content, Some(current), None);
        todo := todo - {h};
      }
    }

    /** The beginning of a write: resolve, compare the revision, drop duplicates. */
    method OpenDocument(
        path: Path, expectedRevision: Option<Revision>, ghost content: Content)
        returns (open: bool, current: Option<Handle>, revision: Option<Revision>)
      requires Valid()
      modifies `nodes, `trace, `failures
      ensures old(failures) <= failures
      ensures Valid() && old(trace) <= trace && SafeSince(old(nodes), |old(trace)|, path, content)
      ensures open ==> Writing(old(nodes), nodes, path, content, current, None)
      ensures !open ==> nodes == old(nodes)
      ensures open && current.Some? ==> nodes[current.value].path == path
      ensures failures == old(failures) ==>
                (open <==> Resolvable(old(nodes), path) && Expects(old(nodes), path, expectedRevision))
      ensures failures == old(failures) && open ==>
                && Held(current) <= At(old(nodes), path)
                && nodes == old(nodes) - (At(old(nodes), path) - Held(current))
                && revision == RevisionOf(nodes, current)
    {
      ghost var start, from := nodes, |trace|;
      var resolution := ResolveDocument(path);
      if resolution.Unreadable? { return false, None, None; }
      current := if resolution.Resolved? then Some(resolution.winner) else None;
      assert current.Some? ==> current.value in At(nodes, path);
      revision := if current.Some? then Some(nodes[current.value].revision) else None;
      if current.Some? { WinnerDecides(nodes, path, current.value, expectedRevision); }
      if expectedRevision != revision { return false, None, None; }
      OpenIsWriting(nodes, path, content, resolution);
      if current.Some? {
        assert forall h | h in resolution.duplicates :: h in At(nodes, path);
        assert resolution.duplicates == At(nodes, path) - Held(current);
        RemoveDuplicates(resolution.duplicates, start, from, path, content, current.value);
      }
      open := true;
    }

    /** Uploads beside the path and looks at the path again. */
    method Stage(
        path: Path, content: Content, stagingPath: Path, current: Option<Handle>, revision: Option<Revision>,
        ghost start: Nodes, ghost from: nat)
        returns (staged: Option<Handle>)
      requires Valid() && stagingPath != path && start.Keys <= issued
      requires Writing(start, nodes, path, content, current, None) && SafeSince(start, from, path, content)
      modifies this
      ensures old(failures) <= failures
      ensures Valid() && old(trace) <= trace && SafeSince(start, from, path, content)
      ensures staged.Some? ==>
                && Writing(start, nodes, path, content, current, staged)
                && staged.value !in old(nodes) && staged.value in nodes && nodes[staged.value].content == content
      ensures forall h | h in old(nodes) :: h in nodes && nodes[h] == old(nodes)[h]
      ensures failures == old(failures) && At(old(nodes), path) == Held(current) && revision == RevisionOf(old(nodes), current) ==>
                && staged.Some? && nodes == old(nodes)[staged.value := nodes[staged.value]]
                && At(nodes, path) == Held(current)
    {
      var upload := UploadFile(stagingPath, content);
      UploadKeepsWriting(start, old(nodes), nodes, path, content, current, None);
      WritingIsSafe(start, nodes, path, content, current, None);
      if upload.UploadFailed? { return None; }
      if !upload.reportedRight {
        Discard(upload.handle, start, from, path, content, current, None);
        return None;
      }
      if At(old(nodes), path) == Held(current) { UploadedAt(old(nodes), nodes, path, current, upload.handle); }
      var same := StillAt(path, revision, upload.handle, current, start, from, content);
      if !same { return None; }
      UploadKeepsWriting(start, old(nodes), nodes, path, content, current, Some(upload.handle));
      return Some(upload.handle);
    }

    /** Looks at the path again; another revision costs the staged node. */
    method StillAt(
        path: Path, revision: Option<Revision>, staged: Handle, ghost current: Option<Handle>,
        ghost start: Nodes, ghost from: nat, ghost content: Content)
        returns (same: bool)
      requires Valid() && staged !in start
      requires Writing(start, nodes, path, content, current, None) && SafeSince(start, from, path, content)
      modifies `nodes, `trace, `failures
      ensures old(failures) <= failures
      ensures Valid() && old(trace) <= trace && SafeSince(start, from, path, content)
      ensures same ==> nodes == old(nodes)
      ensures forall g | g in old(nodes) && g != staged :: g in nodes && nodes[g] == old(nodes)[g]
      ensures && failures == old(failures) && At(old(nodes), path) == Held(current) && Resolvable(old(nodes), path)
              && revision == RevisionOf(old(nodes), current)
              ==> same
    {
      var latest := ResolveDocument(path);
      if latest.Unreadable? { return false; }
      assert latest.Resolved? ==> latest.winner in At(nodes, path);
      var latestRevision := if latest.Resolved? then Some(nodes[latest.winner].revision) else None;
      if At(nodes, path) == Held(current) { OnlyHeld(nodes, path, current, latest); }
      same := latestRevision == revision;
      if !same {
        Discard(staged, start, from, path, content, current, None);
      }
    }

    /** Every state the folder passes through is safe, and success means that every node at the path
        carries the new content. When no call fails, the write succeeds exactly when the document could be
        resolved and had the expected revision, and then replaces it by one node and touches nothing else.
        A single failing call, unless it is the move of the current node aside, never costs the path its
        old content: what was there is there again. */
    method WriteDocument(
        path: Path, expectedRevision: Option<Revision>, content: Content, stagingPath: Path, backupPath: Path)
        returns (written: bool)
      requires Valid() && stagingPath != path && backupPath != path
      modifies this
      ensures old(failures) <= failures
      ensures Valid() && old(trace) <= trace
      ensures forall i | |old(trace)| <= i < |trace| :: Safe(old(nodes), trace[i], path, content)
      ensures written ==> At(nodes, path) != {} && forall h | h in At(nodes, path) :: nodes[h].content == content
      ensures failures == old(failures) ==>
                (written <==> Resolvable(old(nodes), path) && Expects(old(nodes), path, expectedRevision))
      ensures failures == old(failures) && written ==> Replaced(old(nodes), nodes, path, content)
      ensures !written && Survivable(old(failures), failures, backupPath) ==> KeepsAt(old(nodes), nodes, path)
    {
      ghost var start, from := nodes, |trace|;
      var open, current, revision := OpenDocument(path, expectedRevision, content);
      if !open { return false; }
      if failures == old(failures) { OpenedAt(start, path, current); }
      ghost var atOpening := nodes;
      OldStays(start, nodes, path, content, current, None);
      var staged := Stage(path, content, stagingPath, current, revision, start, from);
      if staged.None? {
        KeepsMore(start, atOpening, nodes, path);
        return false;
      }
      ghost var before := nodes;
      if failures == old(failures) {
        WriteReplaces(start, before, path, content, current, staged.value, before[staged.value], backupPath);
        SwappedAt(before, path, current, staged.value, backupPath);
      }
      written := Publish(path, content, current, staged.value, backupPath, start, from);
    }

    /** Swaps the staged node in and verifies it. */
    method Publish(
        path: Path, content: Content, current: Option<Handle>, staged: Handle, backupPath: Path,
        ghost start: Nodes, ghost from: nat)
        returns (written: bool)
      requires Valid() && backupPath != path && staged in nodes && nodes[staged].content == content
      requires Writing(start, nodes, path, content, current, Some(staged)) && SafeSince(start, from, path, content)
      modifies `nodes, `trace, `failures
      ensures old(failures) <= failures
      ensures Valid() && old(trace) <= trace && SafeSince(start, from, path, content)
      ensures written ==> At(nodes, path) != {} && forall h | h in At(nodes, path) :: nodes[h].content == content
      ensures failures == old(failures) && At(Swapped(old(nodes), current, staged, path, backupPath), path) == {staged} ==>
                written && nodes == Swapped(old(nodes), current, staged, path, backupPath) - Held(current)
      ensures !written && failures == old(failures) ==> KeepsAt(start, nodes, path)
      ensures !written && Survivable(old(failures), failures, backupPath)
              && At(Swapped(old(nodes), current, staged, path, backupPath), path) == {staged}
              ==> KeepsAt(start, nodes, path)
    {
      var published := SwapIn(path, content, current, staged, backupPath, start, from);
      if !published {
        if Survivable(old(failures), failures, backupPath) { OldStays(start, nodes, path, content, current, Some(staged)); }
        return false;
      }
      ghost var swapped := nodes;
      written := Verify(path, content, current, staged, start, from);
      if current.Some? && HoldsAt(nodes, path, start[current.value].content) {
        OldHeld(start, swapped, nodes, path, content, current.value, Some(staged));
      }
    }

    /** Moves the current node aside and the staged node in; undoes what it can when a move fails. */
    method SwapIn(
        path: Path, ghost content: Content, current: Option<Handle>, staged: Handle, backupPath: Path,
        ghost start: Nodes, ghost from: nat)
        returns (published: bool)
      requires Valid() && backupPath != path && staged in nodes && nodes[staged].content == content
      requires Writing(start, nodes, path, content, current, Some(staged)) && SafeSince(start, from, path, content)
      modifies `nodes, `trace, `failures
      ensures old(failures) <= failures
      ensures Valid() && old(trace) <= trace && SafeSince(start, from, path, content)
      ensures Writing(start, nodes, path, content, current, Some(staged))
      ensures published && current.Some? ==> nodes[current.value].path != path
      ensures published <==> failures == old(failures)
      ensures published ==> nodes == Swapped(old(nodes), current, staged, path, backupPath)
      ensures !published && Survivable(old(failures), failures, backupPath) && current.Some? ==>
                current.value in nodes && nodes[current.value].path == path
    {
      published := false;
      if current.Some? {
        assert current.value != staged;
        var backedUp := Shift(current.value, backupPath, start, from, path, content, Some(staged));
        if !backedUp {
          Discard(staged, start, from, path, content, current, Some(staged));
          return false;
        }
      }
      published := Reveal(staged, start, from, path, content, current);
      if !published {
        RollBack(path, content, current, staged, start, from);
      }
    }

    /** Takes the staged node away and puts the current one back, as far as the bridge allows. */
    method RollBack(
        path: Path, ghost content: Content, current: Option<Handle>, staged: Handle,
        ghost start: Nodes, ghost from: nat)
      requires Valid() && staged !in start
      requires Writing(start, nodes, path, content, current, Some(staged)) && SafeSince(start, from, path, content)
      modifies `nodes, `trace, `failures
      ensures old(failures) <= failures
      ensures Valid() && old(trace) <= trace && SafeSince(start, from, path, content)
      ensures Writing(start, nodes, path, content, current, Some(staged))
      ensures failures == old(failures) ==>
                && staged !in nodes
                && (current.Some? ==> nodes[current.value].path == path)
    {
      Discard(staged, start, from, path, content, current, Some(staged));
      if current.Some? {
        var _ := Shift(current.value, path, start, from, path, content, Some(staged));
      }
    }

    /** Reads the document back. Only a verified path lets the backup go, or a path that is still
        occupied when the published node could not be taken back. */
    method Verify(
        path: Path, content: Content, backup: Option<Handle>, published: Handle,
        ghost start: Nodes, ghost from: nat)
        returns (written: bool)
      requires Valid() && (backup.Some? ==> backup.value in nodes && nodes[backup.value].path != path)
      requires Writing(start, nodes, path, content, backup, Some(published)) && SafeSince(start, from, path, content)
      modifies `nodes, `trace, `failures
      ensures old(failures) <= failures
      ensures Valid() && old(trace) <= trace && SafeSince(start, from, path, content)
      ensures written ==> At(nodes, path) != {} && forall h | h in At(nodes, path) :: nodes[h].content == content
      ensures failures == old(failures) && At(old(nodes), path) == {published} && old(nodes)[published].content == content ==>
                written && nodes == old(nodes) - Held(backup)
      ensures !written && backup.Some? && failures == old(failures) ==>
                HoldsAt(nodes, path, start[backup.value].content)
      ensures !written && backup.Some? && |failures| <= |old(failures)| + 1
              && At(old(nodes), path) == {published} && old(nodes)[published].content == content
              ==> HoldsAt(nodes, path, start[backup.value].content)
    {
      var resolved := ResolveDocument(path);
      if At(nodes, path) == {published} && !resolved.Unreadable? { OnlyHeld(nodes, path, Some(published), resolved); }
      if resolved.Resolved? && resolved.content == content {
        assert resolved.winner in At(nodes, path);
        if backup.None? { assert nodes - Held(backup) == nodes; }
        if backup.Some? {
          DropBackup(backup.value, start, from, path, content, Some(published), resolved.winner);
        }
        return true;
      }
      TakeBack(path, content, backup, published, start, from);
      written := false;
    }

    /** The recovery of a write that could not be verified. */
    method TakeBack(
        path: Path, ghost content: Content, backup: Option<Handle>, published: Handle,
        ghost start: Nodes, ghost from: nat)
      requires Valid() && (backup.Some? ==> backup.value in nodes && nodes[backup.value].path != path)
      requires Writing(start, nodes, path, content, backup, Some(published)) && SafeSince(start, from, path, content)
      modifies `nodes, `trace, `failures
      ensures old(failures) <= failures
      ensures Valid() && old(trace) <= trace && SafeSince(start, from, path, content)
      ensures failures == old(failures) && backup.Some? ==> HoldsAt(nodes, path, start[backup.value].content)
    {
      ghost var before := nodes;
      var _ := RemoveFile(published);
      assert backup.Some? ==> backup.value != published;
      assert Writing(start, nodes, path, content, backup, Some(published));
      WritingIsSafe(start, nodes, path, content, backup, Some(published));
      var remaining := FileCandidates(path);
      if remaining.None? { return; }
      if backup.Some? {
        if remaining.value == {} {
          var _ := Shift(backup.value, path, start, from, path, content, Some(published));
        } else {
          ghost var other :| other in remaining.value;
          DropBackup(backup.value, start, from, path, content, Some(published), other);
        }
      }
    }

    // ----- deleting in a batch -----

    method DeleteAll(handles: set<Handle>) returns (ok: bool)
      requires Valid()
      modifies `nodes, `trace, `failures
      ensures old(failures) <= failures
      ensures Valid()
      ensures ok ==> nodes == old(nodes) - handles
      ensures failures == old(failures) ==> ok
      ensures exists gone: set<Handle> :: gone <= handles && nodes == old(nodes) - gone
    {
      var todo := handles;
      ghost var gone: set<Handle> := {};
      while todo != {}
        invariant todo <= handles && gone == handles - todo && nodes == old(nodes) - gone && Valid()
        invariant old(failures) <= failures
        decreases todo
      {
        var h :| h in todo;
        var removed := RemoveFile(h);
        if !removed {
          assert nodes == old(nodes) - gone || nodes == old(nodes) - (gone + {h});
          return false;
        }
        gone := gone + {h};
        todo := todo - {h};
      }
      return true;
    }

    /** Nothing is removed unless every requested path that is present has exactly the expected
        revisions; then, if no call fails, exactly the nodes at the requested paths are gone. A failure is
        reported only when a call failed, and never costs another node. */
    method DeleteEntries(requests: seq<DeleteRequest>) returns (result: DeleteResult)
      requires Valid()
      requires forall i | 0 <= i < |requests| ::
                 |requests[i].path| > 0 && requests[i].path[0] == ".omnia-reader"
      modifies `nodes, `trace, `failures
      ensures old(failures) <= failures
      ensures Valid()
      ensures result.Deleted? ==>
                && nodes == old(nodes) - AtRequested(old(nodes), requests)
                && forall path :: !Changed(old(nodes), requests, path)
      ensures failures == old(failures) ==> !result.BridgeFailed?
      ensures result.EntryChanged? ==> exists path :: Changed(old(nodes), requests, path)
      ensures (exists path :: Changed(old(nodes), requests, path)) ==> nodes == old(nodes) && !result.Deleted?
      ensures exists gone: set<Handle> :: gone <= AtRequested(old(nodes), requests) && nodes == old(nodes) - gone
    {
      ghost var none: set<Handle> := {};
      assert nodes == nodes - none;
      if requests == [] {
        assert AtRequested(nodes, requests) == {};
        return Deleted;
      }
      var paths := seq(|requests|, i requires 0 <= i < |requests| => requests[i].path);
      var prefix := CommonSyncPathPrefix(paths);
      assert forall i | 0 <= i < |requests| :: prefix <= requests[i].path by {
        forall i | 0 <= i < |requests| ensures prefix <= requests[i].path {
          assert paths[i] == requests[i].path;
        }
      }
      var files := Files(prefix);
      if files.None? { return BridgeFailed; }
      var removals, changed := PlanRemovals(requests, files.value);
      if changed.Some? { return EntryChanged; }
      var ok := DeleteAll(removals);
      return if ok then Deleted else BridgeFailed;
    }

    /** The comparison loop over the requested paths. */
    method PlanRemovals(requests: seq<DeleteRequest>, files: set<Handle>)
        returns (removals: set<Handle>, changed: Option<Path>)
      requires files <= nodes.Keys
      requires forall h | h in nodes && Requested(requests, nodes[h].path) :: h in files
      ensures changed.Some? ==> Changed(nodes, requests, changed.value)
      ensures changed.None? ==>
                removals == AtRequested(nodes, requests) && forall path :: !Changed(nodes, requests, path)
    {
      removals := {};
      for i := 0 to |requests|
        invariant removals == set h | h in nodes && Requested(requests[..i], nodes[h].path)
        invariant forall k | 0 <= k < i :: !Changed(nodes, requests, requests[k].path)
      {
        var path := requests[i].path;
        assert Requested(requests, path);
        var candidates := set h | h in files && nodes[h].path == path;
        assert candidates == At(nodes, path);
        if candidates != {} {
          var current := set h | h in candidates :: nodes[h].revision;
          assert current == RevisionsAt(nodes, path);
          if current != Expected(requests, path) {
            return removals, Some(path);
          }
        }
        RequestedNext(requests, i);
        removals := removals + candidates;
      }
      assert requests[..|requests|] == requests;
      forall path ensures !Changed(nodes, requests, path) {
        if Requested(requests, path) {
          var k :| 0 <= k < |requests| && requests[k].path == path;
        }
      }
      return removals, None;
    }
  }

  lemma RequestedNext(requests: seq<DeleteRequest>, i: nat)
    requires i < |requests|
    ensures forall path :: Requested(requests[..i + 1], path) <==> Requested(requests[..i], path) || path == requests[i].path
  {
  }
}
