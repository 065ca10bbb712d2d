/** The transfer slots of the native broker. Commands run concurrently; each step below is what a
    command does under one lock or in one atomic update, so every interleaving of commands is a run
    of these steps. The broker is open throughout. */
module BrokerTransfers {
  import opened Common

  const MAX_ACTIVE_REQUESTS := 16
  const MAX_ACTIVE_TRANSFERS := 8

  type RequestId = nat
  type TransferId = nat

  datatype Kind = Download | Upload

  /** Where a running command stands. */
  datatype Task =
    /** a begin command: the slot is reserved */
    | Reserved(kind: Kind, request: RequestId)
    /** a begin command: the request is registered, the response or the temporary file is awaited */
    | Registered(kind: Kind, request: RequestId)
    /** a chunk command: the transfer has been taken out of the table */
    | ChunkTaken(id: TransferId, owner: RequestId, caller: RequestId, matches: bool)
    /** a chunk command: bytes are being pulled */
    | Streaming(id: TransferId, owner: RequestId)
    /** the request is to be forgotten, then this many slots released */
    | Finishing(request: RequestId, slots: nat)
    /** an upload finish: the slot goes first, the request is forgotten after the object is sent */
    | UploadTaken(request: RequestId)
    | UploadSending(request: RequestId)
    /** cancel has forgotten the request; downloads are next */
    | CancelDownloads(request: RequestId)
    | CancelUploads(request: RequestId, removed: nat)
    | Releasing(slots: nat)
    | Done

  function Held(t: Task): nat {
    match t
    case Reserved(_, _) => 1
    case Registered(_, _) => 1
    case ChunkTaken(_, _, _, _) => 1
    case Streaming(_, _) => 1
    case Finishing(_, n) => n
    case UploadTaken(_) => 1
    case CancelUploads(_, n) => n
    case Releasing(n) => n
    case _ => 0
  }

  datatype Broker = Broker(
    requests: set<RequestId>,
    downloads: map<TransferId, RequestId>,
    uploads: map<TransferId, RequestId>,
    active: nat,
    tasks: seq<Task>)

  /** What the outside world answers to a waiting command. */
  datatype Answer = Succeeds(id: TransferId) | Fails

  datatype Step =
    | Begin(kind: Kind, request: RequestId)
    | Chunk(id: TransferId, caller: RequestId, matches: bool)
    | DownloadFinish(id: TransferId, caller: RequestId)
    | UploadFinish(id: TransferId, caller: RequestId)
    | Cancel(request: RequestId)
    | Continue(task: nat, answer: Answer)

  function Spawn(b: Broker, t: Task): Broker {
    b.(tasks := b.tasks + [t])
  }

  function Advance(b: Broker, i: nat, t: Task): Broker
    requires i < |b.tasks|
  {
    b.(tasks := b.tasks[i := t])
  }

  function SaturatingSub(n: nat): nat {
    if n == 0 then 0 else n - 1
  }

  function Without(m: map<TransferId, RequestId>, request: RequestId): map<TransferId, RequestId> {
    map id | id in m && m[id] != request :: m[id]
  }

  function RemovedFrom(m: map<TransferId, RequestId>, request: RequestId): nat {
    if |m| >= |Without(m, request)| then |m| - |Without(m, request)| else 0
  }

  /** One step of the command at position `i`. */
  function Continued(b: Broker, i: nat, answer: Answer): Broker
    requires i < |b.tasks|
  {
    match b.tasks[i]
    case Reserved(kind, request) =>
      if |b.requests| >= MAX_ACTIVE_REQUESTS || request in b.requests then Advance(b, i, Releasing(1))
      else Advance(b.(requests := b.requests + {request}), i, Registered(kind, request))
    case Registered(kind, request) =>
      (match answer
       case Fails => Advance(b, i, Finishing(request, 1))
       case Succeeds(id) =>
         if kind == Download then Advance(b.(downloads := b.downloads[id := request]), i, Done)
         else if id in b.uploads then Advance(b, i, Finishing(request, 1))
         else Advance(b.(uploads := b.uploads[id := request]), i, Done))
    case ChunkTaken(id, owner, caller, matches) =>
      if !matches || owner != caller then Advance(b, i, Finishing(owner, 1))
      else if caller !in b.requests then Advance(b, i, Releasing(1))
      else Advance(b, i, Streaming(id, owner))
    case Streaming(id, owner) =>
      (match answer
       case Fails => Advance(b, i, Finishing(owner, 1))
       case Succeeds(_) => Advance(b.(downloads := b.downloads[id := owner]), i, Done))
    case Finishing(request, n) => Advance(b.(requests := b.requests - {request}), i, Releasing(n))
    case UploadTaken(request) => Advance(b.(active := SaturatingSub(b.active)), i, UploadSending(request))
    case UploadSending(request) => Advance(b.(requests := b.requests - {request}), i, Done)
    case CancelDownloads(request) =>
      Advance(b.(downloads := Without(b.downloads, request)), i,
              CancelUploads(request, RemovedFrom(b.downloads, request)))
    case CancelUploads(request, n) =>
      Advance(b.(uploads := Without(b.uploads, request)), i, Releasing(n + RemovedFrom(b.uploads, request)))
    case Releasing(n) =>
      if n == 0 then Advance(b, i, Done)
      else Advance(b.(active := SaturatingSub(b.active)), i, Releasing(n - 1))
    case Done => b
  }

  function Apply(b: Broker, step: Step): Broker {
    match step
    case Begin(kind, request) =>
      if b.active < MAX_ACTIVE_TRANSFERS then
        Spawn(b.(active := b.active + 1), Reserved(kind, request))
      else b
    case Chunk(id, caller, matches) =>
      if id in b.downloads then
        Spawn(b.(downloads := b.downloads - {id}), ChunkTaken(id, b.downloads[id], caller, matches))
      else b
    case DownloadFinish(id, caller) =>
      if id in b.downloads then Spawn(b.(downloads := b.downloads - {id}), Finishing(b.downloads[id], 1))
      else Spawn(b, Finishing(caller, 0))
    case UploadFinish(id, caller) =>
      if id in b.uploads then Spawn(b.(uploads := b.uploads - {id}), UploadTaken(caller)) else b
    case Cancel(request) => Spawn(b.(requests := b.requests - {request}), CancelDownloads(request))
    case Continue(i, answer) => if i < |b.tasks| then Continued(b, i, answer) else b
  }

  // ----- accounting -----

  function Sum(tasks: seq<Task>): nat {
    if tasks == [] then 0 else Sum(tasks[..|tasks| - 1]) + Held(tasks[|tasks| - 1])
  }

  lemma {:induction false} SumAdvance(tasks: seq<Task>, i: nat, t: Task)
    requires i < |tasks|
    ensures Sum(tasks[i := t]) + Held(tasks[i]) == Sum(tasks) + Held(t)
    ensures Sum(tasks) >= Held(tasks[i])
  {
    var n := |tasks| - 1;
    if i < n {
      SumAdvance(tasks[..n], i, t);
      assert tasks[i := t][..n] == tasks[..n][i := t];
    } else {
      assert tasks[i := t][..n] == tasks[..n];
    }
  }

  lemma WithoutSize(m: map<TransferId, RequestId>, request: RequestId)
    ensures |Without(m, request)| + RemovedFrom(m, request) == |m|
  {
    var left := Without(m, request);
    assert left.Keys <= m.Keys;
    SubsetSize(left.Keys, m.Keys);
    assert |left| == |left.Keys| && |m| == |m.Keys|;
  }

  lemma RemoveSize(m: map<TransferId, RequestId>, id: TransferId)
    requires id in m
    ensures |m - {id}| == |m| - 1
  {
  }

  lemma InsertSize(m: map<TransferId, RequestId>, id: TransferId, request: RequestId)
    requires id !in m
    ensures |m[id := request]| == |m| + 1
  {
  }

  /** A running chunk command will put its transfer back under this identifier. */
  predicate Awaits(t: Task, id: TransferId) {
    (t.ChunkTaken? && t.id == id) || (t.Streaming? && t.id == id)
  }

  ghost predicate IdsDistinct(b: Broker) {
    && (forall i, id | 0 <= i < |b.tasks| && Awaits(b.tasks[i], id) :: id !in b.downloads)
    && (forall i, j, id | 0 <= i < |b.tasks| && 0 <= j < |b.tasks|
                          && Awaits(b.tasks[i], id) && Awaits(b.tasks[j], id) :: i == j)
  }

  /** Slots are stored transfers plus what running commands hold; both limits hold. */
  predicate Accounted(b: Broker) {
    && b.active == |b.downloads| + |b.uploads| + Sum(b.tasks)
    && b.active <= MAX_ACTIVE_TRANSFERS
    && |b.requests| <= MAX_ACTIVE_REQUESTS
  }

  /** New transfers get identifiers that are not in use (random UUIDs). */
  predicate FreshIds(b: Broker, step: Step) {
    step.Continue? && step.task < |b.tasks| && b.tasks[step.task].Registered? && step.answer.Succeeds? ==>
      && step.answer.id !in b.downloads
      && forall i | 0 <= i < |b.tasks| :: !Awaits(b.tasks[i], step.answer.id)
  }

  lemma RequestsShrink(requests: set<RequestId>, r: RequestId)
    requires |requests| <= MAX_ACTIVE_REQUESTS
    ensures |requests - {r}| <= MAX_ACTIVE_REQUESTS
  {
  }

  /** Releasing never meets an empty counter. */
  lemma ReleaseNeverSaturates(b: Broker, i: nat)
    requires Accounted(b) && i < |b.tasks| && Held(b.tasks[i]) > 0
    ensures b.active > 0 && SaturatingSub(b.active) == b.active - 1
  {
    SumAdvance(b.tasks, i, Done);
  }

  // ----- identifiers -----

  lemma SpawnDistinct(b: Broker, b': Broker, t: Task)
    requires IdsDistinct(b) && b'.tasks == b.tasks + [t]
    requires forall id | id in b'.downloads :: id in b.downloads
    requires forall id | Awaits(t, id) :: id in b.downloads && id !in b'.downloads
    ensures IdsDistinct(b')
  {
  }

  lemma AdvanceDistinct(b: Broker, b': Broker, i: nat, t: Task)
    requires IdsDistinct(b) && i < |b.tasks| && b'.tasks == b.tasks[i := t]
    requires forall id | Awaits(t, id) :: Awaits(b.tasks[i], id) && id !in b'.downloads
    requires forall id, j | id in b'.downloads && 0 <= j < |b.tasks| && j != i && Awaits(b.tasks[j], id) :: id in b.downloads
    ensures IdsDistinct(b')
  {
  }

  lemma ContinueDistinct(b: Broker, i: nat, answer: Answer)
    requires IdsDistinct(b) && i < |b.tasks| && FreshIds(b, Continue(i, answer))
    ensures IdsDistinct(Continued(b, i, answer))
  {
    var b' := Continued(b, i, answer);
    ContinuedDownloads(b, i, answer);
    assert b'.tasks == b.tasks[i := b'.tasks[i]];
    assert b.tasks[i].Streaming? ==> Awaits(b.tasks[i], b.tasks[i].id);
    AdvanceDistinct(b, b', i, b'.tasks[i]);
  }

  /** What one step of a command can do to the stored downloads. */
  lemma ContinuedDownloads(b: Broker, i: nat, answer: Answer)
    requires i < |b.tasks|
    ensures var b', t := Continued(b, i, answer), b.tasks[i];
            && (forall id | id in b'.downloads ::
                  || id in b.downloads
                  || (t.Registered? && answer == Succeeds(id))
                  || (t.Streaming? && t.id == id))
            && (forall id | Awaits(b'.tasks[i], id) :: Awaits(t, id) && b'.downloads == b.downloads)
  {
  }

  lemma StepDistinct(b: Broker, step: Step)
    requires IdsDistinct(b) && FreshIds(b, step)
    ensures IdsDistinct(Apply(b, step))
  {
    var b' := Apply(b, step);
    match step
    case Continue(i, answer) => if i < |b.tasks| { ContinueDistinct(b, i, answer); }
    case Chunk(id, caller, matches) =>
      if id in b.downloads { SpawnDistinct(b, b', ChunkTaken(id, b.downloads[id], caller, matches)); }
    case _ =>
      if b'.tasks != b.tasks { SpawnDistinct(b, b', b'.tasks[|b.tasks|]); }
  }

  // ----- slots -----

  lemma SpawnAccounted(b: Broker, b': Broker, t: Task)
    requires b'.tasks == b.tasks + [t]
    requires b'.active == |b'.downloads| + |b'.uploads| + Sum(b.tasks) + Held(t) && b'.active <= MAX_ACTIVE_TRANSFERS
    requires |b'.requests| <= MAX_ACTIVE_REQUESTS
    ensures Accounted(b')
  {
  }

  lemma AdvanceAccounted(b: Broker, b': Broker, i: nat, t: Task)
    requires i < |b.tasks| && b'.tasks == b.tasks[i := t]
    requires b'.active + Held(b.tasks[i]) == |b'.downloads| + |b'.uploads| + Sum(b.tasks) + Held(t)
    requires b'.active <= MAX_ACTIVE_TRANSFERS && |b'.requests| <= MAX_ACTIVE_REQUESTS
    ensures Accounted(b')
  {
    SumAdvance(b.tasks, i, t);
  }

  lemma BeginAccounted(b: Broker, kind: Kind, request: RequestId)
    requires Accounted(b)
    ensures Accounted(Apply(b, Begin(kind, request)))
  {
  }

  lemma ChunkAccounted(b: Broker, id: TransferId, caller: RequestId, matches: bool)
    requires Accounted(b)
    ensures Accounted(Apply(b, Chunk(id, caller, matches)))
  {
  }

  lemma DownloadFinishAccounted(b: Broker, id: TransferId, caller: RequestId)
    requires Accounted(b)
    ensures Accounted(Apply(b, DownloadFinish(id, caller)))
  {
    var b' := Apply(b, DownloadFinish(id, caller));
    if id in b.downloads {
      RemoveSize(b.downloads, id);
      SpawnAccounted(b, b', Finishing(b.downloads[id], 1));
    } else {
      SpawnAccounted(b, b', Finishing(caller, 0));
    }
  }

  lemma UploadFinishAccounted(b: Broker, id: TransferId, caller: RequestId)
    requires Accounted(b)
    ensures Accounted(Apply(b, UploadFinish(id, caller)))
  {
    if id in b.uploads {
      RemoveSize(b.uploads, id);
      SpawnAccounted(b, Apply(b, UploadFinish(id, caller)), UploadTaken(caller));
    }
  }

  lemma CancelAccounted(b: Broker, request: RequestId)
    requires Accounted(b)
    ensures Accounted(Apply(b, Cancel(request)))
  {
    RequestsShrink(b.requests, request);
    SpawnAccounted(b, Apply(b, Cancel(request)), CancelDownloads(request));
  }

  lemma StoringAccounted(b: Broker, i: nat, answer: Answer)
    requires Accounted(b) && IdsDistinct(b) && i < |b.tasks| && FreshIds(b, Continue(i, answer))
    requires b.tasks[i].Registered? || b.tasks[i].Streaming?
    ensures Accounted(Continued(b, i, answer))
  {
    var t := b.tasks[i];
    if t.Registered? && answer.Succeeds? {
      if t.kind == Download {
        InsertSize(b.downloads, answer.id, t.request);
      } else if answer.id !in b.uploads {
        InsertSize(b.uploads, answer.id, t.request);
      }
    }
    if t.Streaming? && answer.Succeeds? {
      assert Awaits(t, t.id);
      InsertSize(b.downloads, t.id, t.owner);
    }
    AdvanceAccounted(b, Continued(b, i, answer), i, Continued(b, i, answer).tasks[i]);
  }

  lemma FinishingAccounted(b: Broker, i: nat, answer: Answer)
    requires Accounted(b) && i < |b.tasks| && (b.tasks[i].Finishing? || b.tasks[i].UploadSending?)
    ensures Accounted(Continued(b, i, answer))
  {
    RequestsShrink(b.requests, b.tasks[i].request);
    var t := if b.tasks[i].Finishing? then Releasing(b.tasks[i].slots) else Done;
    AdvanceAccounted(b, Continued(b, i, answer), i, t);
  }

  lemma StartingAccounted(b: Broker, i: nat, answer: Answer)
    requires Accounted(b) && i < |b.tasks| && (b.tasks[i].Reserved? || b.tasks[i].ChunkTaken?)
    ensures Accounted(Continued(b, i, answer))
  {
    AdvanceAccounted(b, Continued(b, i, answer), i, Continued(b, i, answer).tasks[i]);
  }

  lemma CancellingAccounted(b: Broker, i: nat, answer: Answer)
    requires Accounted(b) && i < |b.tasks| && (b.tasks[i].CancelDownloads? || b.tasks[i].CancelUploads?)
    ensures Accounted(Continued(b, i, answer))
  {
    WithoutSize(b.downloads, b.tasks[i].request);
    WithoutSize(b.uploads, b.tasks[i].request);
    AdvanceAccounted(b, Continued(b, i, answer), i, Continued(b, i, answer).tasks[i]);
  }

  lemma ReleasingAccounted(b: Broker, i: nat, answer: Answer)
    requires Accounted(b) && i < |b.tasks| && (b.tasks[i].UploadTaken? || b.tasks[i].Releasing?)
    ensures Accounted(Continued(b, i, answer))
  {
    if Held(b.tasks[i]) > 0 { ReleaseNeverSaturates(b, i); }
    AdvanceAccounted(b, Continued(b, i, answer), i, Continued(b, i, answer).tasks[i]);
  }

  lemma ContinuesAreAccounted(b: Broker, i: nat, answer: Answer)
    requires Accounted(b) && IdsDistinct(b) && i < |b.tasks| && FreshIds(b, Continue(i, answer))
    ensures Accounted(Continued(b, i, answer))
  {
    var t := b.tasks[i];
    if t.Registered? || t.Streaming? {
      StoringAccounted(b, i, answer);
    } else if t.Finishing? || t.UploadSending? {
      FinishingAccounted(b, i, answer);
    } else if t.CancelDownloads? || t.CancelUploads? {
      CancellingAccounted(b, i, answer);
    } else if t.UploadTaken? || t.Releasing? {
      ReleasingAccounted(b, i, answer);
    } else if t.Reserved? || t.ChunkTaken? {
      StartingAccounted(b, i, answer);
    }
  }

  lemma StepAccounted(b: Broker, step: Step)
    requires Accounted(b) && IdsDistinct(b) && FreshIds(b, step)
    ensures Accounted(Apply(b, step))
  {
    match step
    case Begin(kind, request) => BeginAccounted(b, kind, request);
    case Chunk(id, caller, matches) => ChunkAccounted(b, id, caller, matches);
    case DownloadFinish(id, caller) => DownloadFinishAccounted(b, id, caller);
    case UploadFinish(id, caller) => UploadFinishAccounted(b, id, caller);
    case Cancel(request) => CancelAccounted(b, request);
    case Continue(i, answer) => if i < |b.tasks| { ContinuesAreAccounted(b, i, answer); }
  }

  function Run(b: Broker, steps: seq<Step>): Broker {
    if steps == [] then b else Apply(Run(b, steps[..|steps| - 1]), steps[|steps| - 1])
  }

  predicate FreshRun(b: Broker, steps: seq<Step>) {
    if steps == [] then true else
    var n := |steps| - 1;
    FreshRun(b, steps[..n]) && FreshIds(Run(b, steps[..n]), steps[n])
  }

  /** In every interleaving of begin, chunk, finish and cancel commands, the slot counter is the
      number of stored downloads and uploads plus the slots running commands hold, and never
      exceeds eight. */
  lemma {:induction false} EveryInterleavingIsAccounted(b: Broker, steps: seq<Step>)
    requires Accounted(b) && IdsDistinct(b) && FreshRun(b, steps)
    ensures Accounted(Run(b, steps)) && IdsDistinct(Run(b, steps))
  {
    if steps != [] {
      var n := |steps| - 1;
      EveryInterleavingIsAccounted(b, steps[..n]);
      StepAccounted(Run(b, steps[..n]), steps[n]);
      StepDistinct(Run(b, steps[..n]), steps[n]);
    }
  }

  lemma {:induction false} NothingHeld(tasks: seq<Task>)
    requires forall i | 0 <= i < |tasks| :: tasks[i].Done?
    ensures Sum(tasks) == 0
  {
    if tasks != [] { NothingHeld(tasks[..|tasks| - 1]); }
  }

  const Idle := Broker({}, map[], map[], 0, [])

  /** Once every command has returned, exactly the stored transfers hold slots: none has leaked, and
      none is free while its transfer is stored. */
  lemma NoSlotLeaks(steps: seq<Step>)
    requires FreshRun(Idle, steps)
    requires forall i | 0 <= i < |Run(Idle, steps).tasks| :: Run(Idle, steps).tasks[i].Done?
    ensures var b := Run(Idle, steps);
            b.active == |b.downloads| + |b.uploads| <= MAX_ACTIVE_TRANSFERS
  {
    EveryInterleavingIsAccounted(Idle, steps);
    NothingHeld(Run(Idle, steps).tasks);
  }

  // ----- whose transfers -----

  /** Exactly the transfers of other requests are left, under their own. */
  ghost predicate LeavesOthers(
      m: map<TransferId, RequestId>, m': map<TransferId, RequestId>, request: RequestId) {
    && (forall id :: id in m' <==> id in m && m[id] != request)
    && (forall id | id in m' :: m'[id] == m[id])
  }

  lemma CancelDownloadsStep(b: Broker, i: nat, answer: Answer)
    requires i < |b.tasks| && b.tasks[i].CancelDownloads?
    ensures var b', request := Continued(b, i, answer), b.tasks[i].request;
            && LeavesOthers(b.downloads, b'.downloads, request) && b'.uploads == b.uploads
            && b'.requests == b.requests && b'.active == b.active
            && |b'.downloads| <= |b.downloads|
            && b'.tasks == b.tasks[i := CancelUploads(request, |b.downloads| - |b'.downloads|)]
  {
    WithoutSize(b.downloads, b.tasks[i].request);
  }

  lemma CancelUploadsStep(b: Broker, i: nat, answer: Answer)
    requires i < |b.tasks| && b.tasks[i].CancelUploads?
    ensures var b', t := Continued(b, i, answer), b.tasks[i];
            && LeavesOthers(b.uploads, b'.uploads, t.request) && b'.downloads == b.downloads
            && b'.requests == b.requests && b'.active == b.active
            && |b'.uploads| <= |b.uploads|
            && b'.tasks == b.tasks[i := Releasing(t.removed + (|b.uploads| - |b'.uploads|))]
  {
    WithoutSize(b.uploads, b.tasks[i].request);
  }

  /** Other commands do not move a command. */
  lemma {:induction false} TaskWaits(b: Broker, steps: seq<Step>, i: nat)
    requires i < |b.tasks|
    requires forall k | 0 <= k < |steps| :: !(steps[k].Continue? && steps[k].task == i)
    ensures i < |Run(b, steps).tasks| && Run(b, steps).tasks[i] == b.tasks[i]
  {
    if steps != [] {
      var n := |steps| - 1;
      TaskWaits(b, steps[..n], i);
      StepLeavesTask(Run(b, steps[..n]), steps[n], i);
    }
  }

  lemma StepLeavesTask(b: Broker, step: Step, i: nat)
    requires i < |b.tasks| && !(step.Continue? && step.task == i)
    ensures i < |Apply(b, step).tasks| && Apply(b, step).tasks[i] == b.tasks[i]
  {
    if step.Continue? && step.task < |b.tasks| {
      ContinuedTasks(b, step.task, step.answer);
    } else if !step.Continue? {
      CallsBegin(b, step);
    }
  }

  lemma ContinuedTasks(b: Broker, k: nat, answer: Answer)
    requires k < |b.tasks|
    ensures |Continued(b, k, answer).tasks| == |b.tasks|
    ensures forall j | 0 <= j < |b.tasks| && j != k :: Continued(b, k, answer).tasks[j] == b.tasks[j]
  {
  }

  /** A cancel, with any other steps between its two sweeps: each sweep takes exactly the transfers stored
      under its request, and it will release one slot for each. */
  lemma CancelSweeps(b: Broker, i: nat, steps: seq<Step>, answer: Answer, answer': Answer)
    requires i < |b.tasks| && b.tasks[i].CancelDownloads?
    requires forall k | 0 <= k < |steps| :: !(steps[k].Continue? && steps[k].task == i)
    ensures var request := b.tasks[i].request;
            var first := Continued(b, i, answer);
            var between := Run(first, steps);
            && LeavesOthers(b.downloads, first.downloads, request)
            && i < |between.tasks|
            && var second := Continued(between, i, answer');
               && LeavesOthers(between.uploads, second.uploads, request)
               && second.downloads == between.downloads && i < |second.tasks| && second.tasks[i].Releasing?
               && second.tasks[i].slots + |first.downloads| + |second.uploads| == |b.downloads| + |between.uploads|
  {
    CancelDownloadsStep(b, i, answer);
    var first := Continued(b, i, answer);
    TaskWaits(first, steps, i);
    CancelUploadsStep(Run(first, steps), i, answer');
  }

  /** Only a begin that succeeds stores something new, under its own request, and only a chunk that
      succeeds puts something back, under the request it came from; nothing but a cancel takes anything
      away. */
  lemma StoresItsOwn(b: Broker, i: nat, answer: Answer)
    requires i < |b.tasks|
    ensures var b', t := Continued(b, i, answer), b.tasks[i];
            && (t.Registered? && t.kind == Download && answer.Succeeds? ==>
                  b'.downloads == b.downloads[answer.id := t.request] && b'.uploads == b.uploads)
            && (t.Registered? && t.kind == Upload && answer.Succeeds? && answer.id !in b.uploads ==>
                  b'.uploads == b.uploads[answer.id := t.request] && b'.downloads == b.downloads)
            && (t.Streaming? && answer.Succeeds? ==>
                  b'.downloads == b.downloads[t.id := t.owner] && b'.uploads == b.uploads)
            && (!(t.Registered? || t.Streaming?) || answer.Fails? ==>
                  && (t.CancelDownloads? || b'.downloads == b.downloads)
                  && (t.CancelUploads? || b'.uploads == b.uploads))
            && (t.Registered? && t.kind == Upload && answer.Succeeds? && answer.id in b.uploads ==>
                  b'.uploads == b.uploads && b'.downloads == b.downloads && b'.tasks[i] == Finishing(t.request, 1))
  {
  }

  /** A chunk goes on only for the command that owns the transfer and while its request is registered; a
      stranger costs the owner the transfer and the request. */
  lemma ChunkGoesOn(b: Broker, i: nat, answer: Answer)
    requires i < |b.tasks| && b.tasks[i].ChunkTaken?
    ensures var t, next := b.tasks[i], Continued(b, i, answer).tasks[i];
            && (next == Streaming(t.id, t.owner) <==> t.matches && t.owner == t.caller && t.caller in b.requests)
            && (next == Finishing(t.owner, 1) <==> !t.matches || t.owner != t.caller)
            && (next == Releasing(1) <==> t.matches && t.owner == t.caller && t.caller !in b.requests)
  {
  }

  /** Requests are registered by a begin that finds room and no other of its name, and forgotten by the
      end of a command and by a cancel. */
  lemma RequestsFollow(b: Broker, i: nat, answer: Answer)
    requires i < |b.tasks|
    ensures var b', t := Continued(b, i, answer), b.tasks[i];
            && (t.Reserved? && |b.requests| < MAX_ACTIVE_REQUESTS && t.request !in b.requests ==>
                  b'.requests == b.requests + {t.request} && b'.tasks[i] == Registered(t.kind, t.request))
            && (t.Reserved? && (|b.requests| >= MAX_ACTIVE_REQUESTS || t.request in b.requests) ==>
                  b'.requests == b.requests && b'.tasks[i] == Releasing(1))
            && (t.Finishing? || t.UploadSending? ==> b'.requests == b.requests - {t.request})
            && (!(t.Reserved? || t.Finishing? || t.UploadSending?) ==> b'.requests == b.requests)
  {
  }

  /** What a call does before it first waits: a begin takes a slot if one is free, a chunk or a finish takes
      exactly its transfer out of the table, a cancel forgets its request. */
  lemma CallsBegin(b: Broker, step: Step)
    requires !step.Continue?
    ensures var b' := Apply(b, step);
            match step
            case Begin(kind, request) =>
              if b.active < MAX_ACTIVE_TRANSFERS
              then b' == b.(active := b.active + 1, tasks := b.tasks + [Reserved(kind, request)])
              else b' == b
            case Chunk(id, caller, matches) =>
              if id in b.downloads
              then b' == b.(downloads := b.downloads - {id},
                            tasks := b.tasks + [ChunkTaken(id, b.downloads[id], caller, matches)])
              else b' == b
            case DownloadFinish(id, caller) =>
              b' == b.(downloads := b.downloads - {id},
                       tasks := b.tasks + [if id in b.downloads then Finishing(b.downloads[id], 1) else Finishing(caller, 0)])
            case UploadFinish(id, caller) =>
              if id in b.uploads
              then b' == b.(uploads := b.uploads - {id}, tasks := b.tasks + [UploadTaken(caller)])
              else b' == b
            case Cancel(request) =>
              b' == b.(requests := b.requests - {request}, tasks := b.tasks + [CancelDownloads(request)])
            case Continue(_, _) => true
  {
    if step.DownloadFinish? && step.id !in b.downloads {
      assert b.downloads - {step.id} == b.downloads;
    }
  }
}
