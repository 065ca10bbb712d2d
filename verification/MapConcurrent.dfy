/** The bounded concurrent map of the GitHub adapter: workers share a claim index and a failure flag.
    A worker runs until it awaits a transform, so every schedule is a run of the steps below. */
module MapConcurrent {
  import opened Common

  datatype Worker = Looping | Awaiting(index: nat) | Returned | Threw

  /** `claims` is the history of claimed indices. */
  datatype State<Output> = State(
    nextIndex: nat, failed: bool, output: map<nat, Output>, workers: seq<Worker>, claims: seq<nat>)

  datatype Event = Loop(worker: nat) | Resolve(worker: nat) | Reject(worker: nat)

  function Start<Input, Output>(values: seq<Input>, concurrency: nat): State<Output> {
    State(0, false, map[], seq(Min(concurrency, |values|), _ => Looping), [])
  }

  function SetWorker<Output>(s: State<Output>, w: nat, worker: Worker): State<Output>
    requires w < |s.workers|
  {
    s.(workers := s.workers[w := worker])
  }

  function Step<Input, Output>(
      s: State<Output>, values: seq<Input>, transform: Input -> Output, e: Event): State<Output> {
    if e.worker >= |s.workers| then s else
    var worker := s.workers[e.worker];
    match e
    case Loop(w) =>
      if !worker.Looping? then s
      else if !s.failed && s.nextIndex < |values| then
        SetWorker(s, w, Awaiting(s.nextIndex)).(nextIndex := s.nextIndex + 1, claims := s.claims + [s.nextIndex])
      else SetWorker(s, w, Returned)
    case Resolve(w) =>
      if !worker.Awaiting? || worker.index >= |values| then s
      else SetWorker(s, w, Looping).(output := s.output[worker.index := transform(values[worker.index])])
    case Reject(w) =>
      if !worker.Awaiting? then s
      else SetWorker(s, w, Threw).(failed := true)
  }

  function Run<Input, Output>(
      s: State<Output>, values: seq<Input>, transform: Input -> Output, events: seq<Event>): State<Output> {
    if events == [] then s else
    Step(Run(s, values, transform, events[..|events| - 1]), values, transform, events[|events| - 1])
  }

  predicate AwaitedBy<Output>(s: State<Output>, w: nat, index: nat) {
    w < |s.workers| && s.workers[w] == Awaiting(index)
  }

  ghost predicate Failed<Output>(s: State<Output>) {
    exists w :: 0 <= w < |s.workers| && s.workers[w] == Threw
  }

  /** Each index below the claim index was claimed once, in order; it is awaited by one worker, or its
      output is in place, or some worker threw. */
  ghost predicate Consistent<Input, Output>(s: State<Output>, values: seq<Input>, transform: Input -> Output) {
    && s.nextIndex <= |values|
    && |s.claims| == s.nextIndex && (forall i | 0 <= i < |s.claims| :: s.claims[i] == i)
    && (forall w: nat, i: nat | AwaitedBy(s, w, i) :: i < s.nextIndex && i !in s.output)
    && (forall w: nat, w': nat, i: nat | AwaitedBy(s, w, i) && AwaitedBy(s, w', i) :: w == w')
    && (forall i | i in s.output :: i < s.nextIndex && s.output[i] == transform(values[i]))
    && (s.failed <==> Failed(s))
    && (!s.failed ==> forall i | 0 <= i < s.nextIndex :: i in s.output || exists w :: AwaitedBy(s, w, i))
    && (forall w | 0 <= w < |s.workers| && s.workers[w] == Returned :: s.failed || s.nextIndex == |values|)
  }

  lemma LoopConsistent<Input, Output>(
      s: State<Output>, values: seq<Input>, transform: Input -> Output, w: nat)
    requires Consistent(s, values, transform)
    ensures Consistent(Step(s, values, transform, Loop(w)), values, transform)
  {
    var s' := Step(s, values, transform, Loop(w));
    if w < |s.workers| && s.workers[w].Looping? {
      forall v: nat, i: nat ensures AwaitedBy(s', v, i) <==>
          AwaitedBy(s, v, i) || (s'.nextIndex > s.nextIndex && v == w && i == s.nextIndex) {
      }
      assert Failed(s') <==> Failed(s) by {
        if Failed(s) {
          var v :| 0 <= v < |s.workers| && s.workers[v] == Threw;
          assert s'.workers[v] == Threw;
        }
        if Failed(s') {
          var v :| 0 <= v < |s'.workers| && s'.workers[v] == Threw;
          assert s.workers[v] == Threw;
        }
      }
      if !s.failed {
        forall i | 0 <= i < s'.nextIndex ensures i in s'.output || exists v :: AwaitedBy(s', v, i) {
          if i == s.nextIndex {
            assert AwaitedBy(s', w, i);
          } else if i !in s.output {
            var v :| AwaitedBy(s, v, i);
            assert AwaitedBy(s', v, i);
          }
        }
      }
    }
  }

  lemma ResolveConsistent<Input, Output>(
      s: State<Output>, values: seq<Input>, transform: Input -> Output, w: nat)
    requires Consistent(s, values, transform)
    ensures Consistent(Step(s, values, transform, Resolve(w)), values, transform)
  {
    var s' := Step(s, values, transform, Resolve(w));
    if w < |s.workers| && s.workers[w].Awaiting? {
      var index := s.workers[w].index;
      assert AwaitedBy(s, w, index);
      forall v: nat, i: nat ensures AwaitedBy(s', v, i) <==> AwaitedBy(s, v, i) && v != w {
      }
      assert Failed(s') <==> Failed(s) by {
        if Failed(s) {
          var v :| 0 <= v < |s.workers| && s.workers[v] == Threw;
          assert s'.workers[v] == Threw;
        }
        if Failed(s') {
          var v :| 0 <= v < |s'.workers| && s'.workers[v] == Threw;
          assert s.workers[v] == Threw;
        }
      }
      if !s.failed {
        forall i | 0 <= i < s'.nextIndex ensures i in s'.output || exists v :: AwaitedBy(s', v, i) {
          if i != index && i !in s.output {
            var v :| AwaitedBy(s, v, i);
            assert AwaitedBy(s', v, i);
          }
        }
      }
    }
  }

  lemma RejectConsistent<Input, Output>(
      s: State<Output>, values: seq<Input>, transform: Input -> Output, w: nat)
    requires Consistent(s, values, transform)
    ensures Consistent(Step(s, values, transform, Reject(w)), values, transform)
  {
    var s' := Step(s, values, transform, Reject(w));
    if w < |s.workers| && s.workers[w].Awaiting? {
      assert s'.workers[w] == Threw;
      forall v: nat, i: nat | AwaitedBy(s', v, i) ensures AwaitedBy(s, v, i) {
      }
    }
  }

  lemma {:induction false} RunConsistent<Input, Output>(
      values: seq<Input>, concurrency: nat, transform: Input -> Output, events: seq<Event>)
    ensures Consistent(Run(Start(values, concurrency), values, transform, events), values, transform)
    ensures |Run(Start<Input, Output>(values, concurrency), values, transform, events).workers| == Min(concurrency, |values|)
  {
    if events != [] {
      var n := |events| - 1;
      RunConsistent(values, concurrency, transform, events[..n]);
      var s := Run(Start(values, concurrency), values, transform, events[..n]);
      match events[n]
      case Loop(w) => LoopConsistent(s, values, transform, w);
      case Resolve(w) => ResolveConsistent(s, values, transform, w);
      case Reject(w) => RejectConsistent(s, values, transform, w);
    }
  }

  function InFlight<Output>(s: State<Output>): set<nat> {
    set w | 0 <= w < |s.workers| && s.workers[w].Awaiting?
  }

  lemma {:induction false} BelowSize(n: nat, ws: set<nat>)
    requires forall w | w in ws :: w < n
    ensures |ws| <= n
  {
    if n > 0 {
      BelowSize(n - 1, ws - {n - 1});
    } else {
      assert ws == {};
    }
  }

  /** In every schedule each index is claimed at most once and in order, and never more than
      min(concurrency, n) transforms are in flight. */
  lemma ClaimedOnceAndBounded<Input, Output>(
      values: seq<Input>, concurrency: nat, transform: Input -> Output, events: seq<Event>)
    ensures var s := Run(Start(values, concurrency), values, transform, events);
            && (forall i, j | 0 <= i < |s.claims| && 0 <= j < |s.claims| && s.claims[i] == s.claims[j] :: i == j)
            && (forall i | 0 <= i < |s.claims| :: s.claims[i] < |values|)
            && |InFlight(s)| <= Min(concurrency, |values|)
  {
    RunConsistent(values, concurrency, transform, events);
    var s := Run(Start(values, concurrency), values, transform, events);
    BelowSize(|s.workers|, InFlight(s));
  }

  /** Once a transform has failed, no further index is claimed, whatever happens next. */
  lemma {:induction false} NoClaimAfterFailure<Input, Output>(
      s: State<Output>, values: seq<Input>, transform: Input -> Output, events: seq<Event>)
    requires s.failed
    ensures Run(s, values, transform, events).failed
    ensures Run(s, values, transform, events).claims == s.claims
  {
    if events != [] {
      NoClaimAfterFailure(s, values, transform, events[..|events| - 1]);
    }
  }

  /** When every worker has returned, the map has succeeded. Its output is then complete and right
      exactly when there was a worker to do it, or nothing to do: with a concurrency of zero the
      result is a list of holes. */
  lemma SuccessIsComplete<Input, Output>(
      values: seq<Input>, concurrency: nat, transform: Input -> Output, events: seq<Event>)
    requires var s := Run(Start<Input, Output>(values, concurrency), values, transform, events);
             forall w | 0 <= w < |s.workers| :: s.workers[w] == Returned
    ensures var s := Run(Start(values, concurrency), values, transform, events);
            && !s.failed
            && ((forall i | 0 <= i < |values| :: i in s.output && s.output[i] == transform(values[i]))
                <==> concurrency > 0 || |values| == 0)
  {
    RunConsistent(values, concurrency, transform, events);
    var s := Run(Start(values, concurrency), values, transform, events);
    if concurrency > 0 && |values| > 0 {
      assert s.workers[0] == Returned;
      assert s.nextIndex == |values|;
      forall i | 0 <= i < |values| ensures i in s.output {
        assert forall w: nat :: !AwaitedBy(s, w, i);
      }
    }
    if concurrency == 0 && |values| > 0 {
      NoWorkersNoClaims(values, transform, events);
      assert 0 !in s.output;
    }
  }

  lemma {:induction false} NoWorkersNoClaims<Input, Output>(
      values: seq<Input>, transform: Input -> Output, events: seq<Event>)
    ensures Run(Start(values, 0), values, transform, events) == Start(values, 0)
  {
    if events != [] {
      NoWorkersNoClaims(values, transform, events[..|events| - 1]);
    }
  }
}
