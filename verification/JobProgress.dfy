/**
 Progress of the pool of phread_pool.c, before and after threadpool_destroy: between two
 steps of the environment the threads take a bounded number of steps, and where they stop
 every call has returned and every accepted job has run.
 */
module JobProgress {
  import opened Totals
  import opened JobPool

  predicate IsOpen(c: Call) { c != Returned0 && c != ReturnedMinus1 }

  function OpenMarks(cs: seq<Call>): seq<nat> {
    seq(|cs|, i requires 0 <= i < |cs| => if IsOpen(cs[i]) then 1 else 0)
  }

  /** The calls of threadpool_add_job that have not returned. */
  function Open(cs: seq<Call>): nat { Total(OpenMarks(cs)) }

  /** What a job still to be accepted can cost: its place in the queue, and the workers it wakes. */
  function PerCall(threads: nat, many: nat): nat { 2 * many + 2 + threads }

  /** What a destroyer still to come can cost. */
  function PerClose(threads: nat, many: nat): nat { 2 * threads + many + 5 }

  /** What the threads have left to do, if at most `many` calls of each kind are ever made. */
  function Outstanding(s: State, many: nat): nat {
    Remaining(s, many)
    + Times(Open(s.calls), PerCall(|s.workers|, many))
    + (if s.q.queueClose then 0 else PerClose(|s.workers|, many))
  }

  lemma OpenMoves(cs: seq<Call>, c: nat, v: Call)
    requires c < |cs|
    ensures Open(cs[c := v]) + (if IsOpen(cs[c]) then 1 else 0) == Open(cs) + if IsOpen(v) then 1 else 0
  {
    TotalUpdate(OpenMarks(cs), c, if IsOpen(v) then 1 else 0);
    assert OpenMarks(cs[c := v]) == OpenMarks(cs)[c := if IsOpen(v) then 1 else 0];
  }

  lemma WakingKeepsOpen(cs: seq<Call>)
    ensures Open(WakeCalls(cs)) == Open(cs)
  {
    assert OpenMarks(WakeCalls(cs)) == OpenMarks(cs);
  }

  lemma {:induction false} TimesMonotone(low: nat, high: nat, k: nat)
    requires low <= high
    ensures Times(low, k) <= Times(high, k)
    decreases high
  {
    if low == high {
    } else {
      TimesMonotone(low, high - 1, k);
    }
  }

  /** No thread reopens a call. */
  lemma OpenFalls(s: State, step: Step)
    requires Enabled(s, step) && !step.Env()
    ensures Open(Apply(s, step).calls) <= Open(s.calls)
  {
    WakingKeepsOpen(s.calls);
    if step.CallLocks? {
      OpenMoves(s.calls, step.c, Apply(s, step).calls[step.c]);
    }
  }

  /** A call that waits for room, or returns without a job. */
  lemma CallMovesOn(s: State, c: nat, v: Call, many: nat)
    requires c < |s.calls| && CallRank(s.calls[c]) == 1 && CallRank(v) == 0
    ensures Outstanding(s.(calls := s.calls[c := v]), many) < Outstanding(s, many)
  {
    CallMoves(s.calls, c, v);
    OpenMoves(s.calls, c, v);
    TimesMonotone(Open(s.calls[c := v]), Open(s.calls), PerCall(|s.workers|, many));
  }

  /** A call that adds its job: what the job will cost has been set aside for it. */
  lemma AddingLowers(jobs: nat, ws: seq<Worker>, more: seq<Worker>, cs: seq<Call>, ds: seq<Closer>, c: nat, many: nat)
    requires c < |cs| && CallRank(cs[c]) == 1 && (more == ws || more == WakeWorkers(ws))
    ensures Load(jobs + 1, more, cs[c := Returned0], ds, |ws|, many)
         + Times(Open(cs[c := Returned0]), PerCall(|ws|, many))
          < Load(jobs, ws, cs, ds, |ws|, many) + Times(Open(cs), PerCall(|ws|, many))
  {
    CallMoves(cs, c, Returned0);
    OpenMoves(cs, c, Returned0);
    TotalRaise(WorkerRanks(ws), WorkerRanks(WakeWorkers(ws)));
    assert Times(jobs + 1, 2 * many + 2) == Times(jobs, 2 * many + 2) + 2 * many + 2;
    assert Times(Open(cs), PerCall(|ws|, many))
        == Times(Open(cs[c := Returned0]), PerCall(|ws|, many)) + PerCall(|ws|, many);
  }

  lemma CallLockLowers(s: State, c: nat, alloc: bool, many: nat)
    requires Enabled(s, CallLocks(c, alloc))
    ensures Outstanding(CallLock(s, c, alloc), many) < Outstanding(s, many)
  {
    match AddSection(s.q, c, alloc).1
    case AddWait => CallMovesOn(s, c, WaitsForRoom, many);
    case AddRefuse => CallMovesOn(s, c, ReturnedMinus1, many);
    case AddOk(_) =>
      var t := CallLock(s, c, alloc);
      AddingLowers(|s.q.jobs|, s.workers, t.workers, s.calls, s.closers, c, many);
  }

  /** The destroyer that sets queue_close: what shutdown will cost has been set aside. */
  lemma ClosingLowers(s: State, d: nat, many: nat)
    requires Enabled(s, CloserLocks(d)) && !s.q.queueClose && s.closers[d] == Closing
    ensures Outstanding(CloserLock(s, d), many) < Outstanding(s, many)
  {
    CloserRankMoves(s.closers, d, CloserLock(s, d).closers[d], |s.workers|, many);
  }

  lemma NoWinnerYet(s: State)
    requires CloseInv(s) && !s.q.queueClose
    ensures forall d :: 0 <= d < |s.closers| ==> !s.closers[d].Won()
  {
  }

  lemma OpenWorkerLockLowers(s: State, w: nat, signalled: set<nat>, many: nat)
    requires Enabled(s, WorkerLocks(w, signalled))
    requires |s.calls| <= many && |s.closers| <= many
    ensures Outstanding(WorkerLock(s, w, signalled), many) < Outstanding(s, many)
  {
    WorkerLockLowers(s, w, signalled, many);
    WakingKeepsOpen(s.calls);
  }

  lemma OpenWorkLowers(s: State, step: Step, many: nat)
    requires Inv(s) && !s.q.queueClose && Enabled(s, step) && !step.Env()
    requires |s.calls| <= many && |s.closers| <= many
    ensures Outstanding(Apply(s, step), many) < Outstanding(s, many)
  {
    NoWinnerYet(s);
    match step
    case CallLocks(c, alloc) => CallLockLowers(s, c, alloc, many);
    case WorkerLocks(w, signalled) => OpenWorkerLockLowers(s, w, signalled, many);
    case WorkerFinishes(w) => WorkerMoves(s.workers, w, AtLock);
    case CloserLocks(d) => ClosingLowers(s, d, many);
    case _ =>
  }

  /** Every step of a thread leaves less to do, whether the queue is closed or open. */
  lemma ThreadsLower(s: State, step: Step, many: nat)
    requires Inv(s) && Enabled(s, step) && !step.Env()
    requires |s.calls| <= many && |s.closers| <= many
    ensures Outstanding(Apply(s, step), many) < Outstanding(s, many)
  {
    if s.q.queueClose {
      WorkLowers(s, step, many);
      OpenFalls(s, step);
      TimesMonotone(Open(Apply(s, step).calls), Open(s.calls), PerCall(|s.workers|, many));
    } else {
      OpenWorkLowers(s, step, many);
    }
  }

  /** What a step of the environment can add. */
  function Cost(step: Step, threads: nat, many: nat): nat {
    if step.BeginAdd? then PerCall(threads, many) + 1 else if step.Env() then 1 else 0
  }

  lemma OpenRises(s: State, step: Step)
    requires Enabled(s, step) && step.Env()
    ensures Open(Apply(s, step).calls) == Open(s.calls) + if step.BeginAdd? then 1 else 0
  {
    match step
    case BeginAdd =>
      TotalAppend(OpenMarks(s.calls), 1);
      assert OpenMarks(s.calls + [Calling]) == OpenMarks(s.calls) + [1];
    case SpuriousCall(c) => OpenMoves(s.calls, c, WokenForRoom);
    case _ =>
  }

  lemma EnvAdds(s: State, step: Step, many: nat)
    requires Enabled(s, step) && step.Env()
    ensures Outstanding(Apply(s, step), many) <= Outstanding(s, many) + Cost(step, |s.workers|, many)
  {
    EnvRaises(s, step, many);
    OpenRises(s, step);
  }

  function Costs(run: seq<Step>, threads: nat, many: nat): nat {
    if run == [] then 0 else Cost(run[0], threads, many) + Costs(run[1..], threads, many)
  }

  lemma OneStep(s: State, step: Step)
    requires Inv(s) && Enabled(s, step)
    ensures Inv(Apply(s, step)) && |Apply(s, step).workers| == |s.workers| && Apply(s, step).q.max == s.q.max
    ensures |s.calls| <= |Apply(s, step).calls| && |s.closers| <= |Apply(s, step).closers|
    ensures !step.Env() ==> |s.calls| == |Apply(s, step).calls| && |s.closers| == |Apply(s, step).closers|
  {
    WakeKept(s, step);
    CloseKept(s, step);
    HistoryKept(s, step);
  }

  /**
   Over every run, open or closed: the threads take at most Outstanding(s) steps, plus a
   share for each call that is made and one for each spurious wake-up and each destroyer.
   */
  lemma {:induction false} WorkIsBounded(s: State, run: seq<Step>, many: nat)
    requires Inv(s) && Legal(s, run)
    requires |After(s, run).calls| <= many && |After(s, run).closers| <= many
    ensures |run| - EnvSteps(run) + Outstanding(After(s, run), many)
         <= Outstanding(s, many) + Costs(run, |s.workers|, many)
    decreases |run|
  {
    CallsGrow(s, run);
    if run == [] {
    } else {
      OneStep(s, run[0]);
      WorkIsBounded(Apply(s, run[0]), run[1..], many);
      if run[0].Env() {
        EnvAdds(s, run[0], many);
      } else {
        ThreadsLower(s, run[0], many);
      }
    }
  }

  // ---------------------------------------------------------------------
  // Where the threads stop.
  // ---------------------------------------------------------------------

  /** Every call has returned, and the jobs of those that returned 0 have run, once each, and no others. */
  ghost predicate Done(s: State) {
    && AllReturned(s) && s.q.jobs == []
    && forall c: nat :: multiset(s.executed)[c] == if c < |s.calls| && s.calls[c] == Returned0 then 1 else 0
  }

  lemma QuietIsDone(s: State)
    requires Inv(s) && Quiet(s) && s.workers != [] && s.q.max != 0
    ensures Done(s)
  {
    QuietHasReturned(s);
    QuietThreads(s);
    OnePlace(s);
    assert Running(s) == {};
  }

  /** Left alone, the threads come to a stop. */
  lemma {:induction false} Settles(s: State, many: nat) returns (run: seq<Step>)
    requires Inv(s) && |s.calls| <= many && |s.closers| <= many
    ensures Legal(s, run) && EnvSteps(run) == 0 && Quiet(After(s, run)) && Inv(After(s, run))
    ensures |After(s, run).workers| == |s.workers| && After(s, run).q.max == s.q.max
    decreases Outstanding(s, many)
  {
    if Quiet(s) {
      run := [];
    } else {
      var step: Step :| !step.Env() && Enabled(s, step);
      OneStep(s, step);
      ThreadsLower(s, step, many);
      var rest := Settles(Apply(s, step), many);
      run := [step] + rest;
      assert run[1..] == rest;
    }
  }

  /** From here the threads can finish by themselves. */
  ghost predicate CanFinish(s: State) {
    exists more: seq<Step> :: Legal(s, more) && EnvSteps(more) == 0 && Done(After(s, more))
  }

  lemma QuietStays(s: State, more: seq<Step>)
    requires Quiet(s) && Legal(s, more) && EnvSteps(more) == 0
    ensures more == []
  {
  }

  lemma StuckCannotFinish(s: State)
    requires Stuck(s)
    ensures !CanFinish(s)
  {
    forall more: seq<Step> | Legal(s, more) && EnvSteps(more) == 0 ensures !Done(After(s, more)) {
      QuietStays(s, more);
    }
  }

  ghost predicate AlwaysCanFinish(init: State) {
    forall run: seq<Step> :: Legal(init, run) ==> CanFinish(After(init, run))
  }

  lemma StuckRunRefutes(init: State, run: seq<Step>)
    requires Legal(init, run) && Stuck(After(init, run))
    ensures !AlwaysCanFinish(init)
  {
    StuckCannotFinish(After(init, run));
  }

  lemma ReachableCanFinish(threadNum: nat, max: int, run: seq<Step>)
    requires threadNum > 0 && max != 0 && Legal(Init(threadNum, max), run)
    ensures CanFinish(After(Init(threadNum, max), run))
  {
    ReachableInv(threadNum, max, run);
    ConfigKept(Init(threadNum, max), run);
    var s := After(Init(threadNum, max), run);
    var more := Settles(s, |s.calls| + |s.closers|);
    QuietIsDone(After(s, more));
    assert Legal(s, more) && EnvSteps(more) == 0 && Done(After(s, more));
  }

  /**
   From every reachable state the pool can finish what it has begun,
   exactly with a worker and a bound other than 0.
   */
  lemma CanFinishIff(threadNum: nat, max: int)
    ensures AlwaysCanFinish(Init(threadNum, max)) <==> threadNum > 0 && max != 0
  {
    var init := Init(threadNum, max);
    if threadNum > 0 && max != 0 {
      forall run: seq<Step> | Legal(init, run) ensures CanFinish(After(init, run)) {
        ReachableCanFinish(threadNum, max, run);
      }
    } else {
      NeverStuckIff(threadNum, max);
      var run: seq<Step> :| Legal(init, run) && Stuck(After(init, run));
      StuckRunRefutes(init, run);
    }
  }

  /** And it stops nowhere else: with a worker and a bound other than 0, threads that have stopped are done. */
  lemma StopsOnlyWhenDone(threadNum: nat, max: int, run: seq<Step>)
    requires threadNum > 0 && max != 0 && Legal(Init(threadNum, max), run)
    requires Quiet(After(Init(threadNum, max), run))
    ensures Done(After(Init(threadNum, max), run))
  {
    ReachableInv(threadNum, max, run);
    ConfigKept(Init(threadNum, max), run);
    QuietIsDone(After(Init(threadNum, max), run));
  }
}
