/**
 What the calls of the pool of phread_pool.c are answered, and what a worker does, in terms
 of the reachable state alone: which test decides, what is queued and who is woken.
 */
module JobAnswers {
  import opened CondVar
  import opened JobPool
  import opened JobProgress

  /** The state in which a run from the start ends. */
  ghost predicate Reachable(s: State, threadNum: nat, max: int) {
    exists run: seq<Step> :: Legal(Init(threadNum, max), run) && After(Init(threadNum, max), run) == s
  }

  lemma ReachableHolds(s: State, threadNum: nat, max: int)
    requires Reachable(s, threadNum, max)
    ensures Inv(s) && |s.workers| == threadNum && s.q.max == max
    ensures s.q.poolClose ==> s.q.queueClose
  {
    var run: seq<Step> :| Legal(Init(threadNum, max), run) && After(Init(threadNum, max), run) == s;
    ReachableInv(threadNum, max, run);
    ConfigKept(Init(threadNum, max), run);
    ClosedBefore(s);
  }

  lemma ClosedBefore(s: State)
    requires CloseInv(s)
    ensures s.q.poolClose ==> s.q.queueClose
  {
    if s.q.poolClose {
      var d :| 0 <= d < |s.closers| && s.closers[d].Past();
      assert s.closers[d].Won();
    }
  }

  /**
   threadpool_add_job: a call waits exactly if the queue is full and open; its job is queued, and
   the call returns 0, exactly if the queue is open, has room and malloc succeeds; otherwise it
   returns -1 and nothing is queued. The first job of an empty queue wakes all waiting workers,
   and no other job wakes any.
   */
  lemma AddAnswer(s: State, threadNum: nat, max: int, c: nat, alloc: bool)
    requires Reachable(s, threadNum, max) && Enabled(s, CallLocks(c, alloc))
    ensures var t := Apply(s, CallLocks(c, alloc));
      && |t.calls| == |s.calls| && (forall d :: 0 <= d < |s.calls| && d != c ==> t.calls[d] == s.calls[d])
      && (t.calls[c] == WaitsForRoom <==> |s.q.jobs| == max && !s.q.queueClose)
      && (t.calls[c] == Returned0 <==> |s.q.jobs| != max && !s.q.queueClose && alloc)
      && (t.calls[c] == ReturnedMinus1 <==> s.q.queueClose || (|s.q.jobs| != max && !alloc))
      && t.q == (if t.calls[c] == Returned0 then s.q.(jobs := s.q.jobs + [c]) else s.q)
      && t.accepted == (if t.calls[c] == Returned0 then s.accepted + [c] else s.accepted)
    ensures var t := Apply(s, CallLocks(c, alloc));
      && |t.workers| == |s.workers|
      && (forall w :: 0 <= w < |s.workers| ==>
            t.workers[w] == if t.calls[c] == Returned0 && s.q.jobs == [] && s.workers[w] == WaitsForJob
                            then WokenForJob else s.workers[w])
      && t.closers == s.closers && t.taken == s.taken && t.executed == s.executed
  {
    ReachableHolds(s, threadNum, max);
  }

  /**
   threadpool_function: a worker leaves exactly if the pool is closed, sleeps exactly if the pool
   is open and no job is queued, and otherwise runs the oldest job. The last job wakes the
   destroyer, the first free place all the calls.
   */
  lemma TakeAnswer(s: State, threadNum: nat, max: int, w: nat, signalled: set<nat>)
    requires Reachable(s, threadNum, max) && Enabled(s, WorkerLocks(w, signalled))
    ensures var t := Apply(s, WorkerLocks(w, signalled));
      && |t.workers| == |s.workers| && (forall v :: 0 <= v < |s.workers| && v != w ==> t.workers[v] == s.workers[v])
      && (t.workers[w] == Gone <==> s.q.poolClose)
      && (t.workers[w] == WaitsForJob <==> !s.q.poolClose && s.q.jobs == [])
      && (t.workers[w].Runs? <==> s.q.jobs != [])
      && (s.q.jobs != [] ==> [t.workers[w].job] + t.q.jobs == s.q.jobs && t.taken == s.taken + [t.workers[w].job])
      && (s.q.jobs == [] ==> t.q.jobs == [] && t.taken == s.taken)
      && t.q == s.q.(jobs := t.q.jobs) && t.accepted == s.accepted && t.executed == s.executed
    ensures var t := Apply(s, WorkerLocks(w, signalled));
      && |t.closers| == |s.closers| && |t.calls| == |s.calls|
      && (forall d :: 0 <= d < |s.closers| ==>
            t.closers[d] == if |s.q.jobs| == 1 && d in signalled && s.closers[d] == WaitsForDrain then WokenForDrain
                            else s.closers[d])
      && (forall c :: 0 <= c < |s.calls| ==>
            t.calls[c] == if s.q.jobs != [] && |s.q.jobs| == max && s.calls[c] == WaitsForRoom then WokenForRoom
                          else s.calls[c])
  {
    ReachableHolds(s, threadNum, max);
  }

  /**
   threadpool_destroy: a call is refused exactly if another has closed the queue before it; the
   one that closes it sleeps exactly while jobs are queued, and otherwise closes the pool and
   goes on to its broadcasts.
   */
  lemma CloseAnswer(s: State, threadNum: nat, max: int, d: nat)
    requires Reachable(s, threadNum, max) && Enabled(s, CloserLocks(d))
    ensures var t := Apply(s, CloserLocks(d));
      && |t.closers| == |s.closers| && (forall e :: 0 <= e < |s.closers| && e != d ==> t.closers[e] == s.closers[e])
      && (t.closers[d] == Refused <==> s.closers[d] == Closing && s.q.queueClose)
      && (t.closers[d] == WaitsForDrain <==> t.closers[d] != Refused && s.q.jobs != [])
      && (t.closers[d] == AnnouncesJobs <==> t.closers[d] != Refused && s.q.jobs == [])
      && t.q.queueClose && t.q.jobs == s.q.jobs
      && (t.q.poolClose <==> s.q.poolClose || t.closers[d] == AnnouncesJobs)
      && t == s.(closers := t.closers, q := t.q)
  {
    ReachableHolds(s, threadNum, max);
    if s.closers[d] == WokenForDrain { assert s.closers[d].Won(); }
  }

  // ---------------------------------------------------------------------
  // Over every run.
  // ---------------------------------------------------------------------

  /** malloc never fails in this run. */
  predicate Allocates(run: seq<Step>) {
    forall i :: 0 <= i < |run| && run[i].CallLocks? ==> run[i].alloc
  }

  ghost predicate NoneTurnedAway(s: State) {
    forall c :: 0 <= c < |s.calls| ==> s.calls[c] != ReturnedMinus1
  }

  ghost predicate NoneRefused(s: State) {
    forall d :: 0 <= d < |s.closers| ==> s.closers[d] != Refused
  }

  lemma StepTurnsAway(s: State, step: Step)
    requires CloseInv(s) && Enabled(s, step) && !Apply(s, step).q.queueClose && NoneTurnedAway(s)
    requires step.CallLocks? ==> step.alloc
    ensures NoneTurnedAway(Apply(s, step))
  {
    ClosedBefore(s);
  }

  lemma {:induction false} OpenTurnsNoneAway(s: State, run: seq<Step>)
    requires Inv(s) && Legal(s, run) && Allocates(run) && NoneTurnedAway(s)
    requires !After(s, run).q.queueClose
    ensures NoneTurnedAway(After(s, run))
    decreases |run|
  {
    CallsGrow(s, run);
    if run == [] {
    } else {
      OneStep(s, run[0]);
      CallsGrow(Apply(s, run[0]), run[1..]);
      StepTurnsAway(s, run[0]);
      OpenTurnsNoneAway(Apply(s, run[0]), run[1..]);
    }
  }

  lemma StepRefuses(s: State, step: Step)
    requires CloseInv(s) && Enabled(s, step) && !Apply(s, step).q.queueClose && NoneRefused(s)
    ensures NoneRefused(Apply(s, step))
  {
    ClosedBefore(s);
  }

  lemma {:induction false} OpenRefusesNone(s: State, run: seq<Step>)
    requires Inv(s) && Legal(s, run) && NoneRefused(s) && !After(s, run).q.queueClose
    ensures NoneRefused(After(s, run))
    decreases |run|
  {
    CallsGrow(s, run);
    if run == [] {
    } else {
      OneStep(s, run[0]);
      CallsGrow(Apply(s, run[0]), run[1..]);
      StepRefuses(s, run[0]);
      OpenRefusesNone(Apply(s, run[0]), run[1..]);
    }
  }

  /** While malloc succeeds, no call returns -1 before a destroyer has closed the queue. */
  lemma TurnedAwayOnlyWhenClosed(threadNum: nat, max: int, run: seq<Step>)
    requires Legal(Init(threadNum, max), run) && Allocates(run)
    ensures var s := After(Init(threadNum, max), run); ReturnedMinus1 in s.calls ==> s.q.queueClose
  {
    ReachableInv(threadNum, max, []);
    if !After(Init(threadNum, max), run).q.queueClose {
      OpenTurnsNoneAway(Init(threadNum, max), run);
    }
  }

  /** No destroyer is refused before another has closed the queue. */
  lemma RefusedOnlyWhenClosed(threadNum: nat, max: int, run: seq<Step>)
    requires Legal(Init(threadNum, max), run)
    ensures var s := After(Init(threadNum, max), run); Refused in s.closers ==> s.q.queueClose
  {
    ReachableInv(threadNum, max, []);
    if !After(Init(threadNum, max), run).q.queueClose {
      OpenRefusesNone(Init(threadNum, max), run);
    }
  }

  /** Once threadpool_destroy has been called, threads stop only when exactly one such call has joined the workers. */
  lemma OneDestroyerJoins(threadNum: nat, max: int, run: seq<Step>)
    requires threadNum > 0 && Legal(Init(threadNum, max), run)
    requires var s := After(Init(threadNum, max), run); s.closers != [] && Quiet(s)
    ensures var s := After(Init(threadNum, max), run);
      && s.q.queueClose && s.q.poolClose
      && exists d ::
           && 0 <= d < |s.closers| && s.closers[d] == Joined
           && forall e :: 0 <= e < |s.closers| && e != d ==> s.closers[e] == Refused
  {
    var s := After(Init(threadNum, max), run);
    ReachableInv(threadNum, max, run);
    ConfigKept(Init(threadNum, max), run);
    RefusedOnlyWhenClosed(threadNum, max, run);
    QuietThreads(s);
    assert s.closers[0] in s.closers;
    SomeoneClosed(s);
    ShutdownCompletes(threadNum, max, run);
    var d :| 0 <= d < |s.closers| && s.closers[d] == Joined;
    assert s.closers[d].Won() && s.closers[d].Past();
    forall e | 0 <= e < |s.closers| && e != d ensures s.closers[e] == Refused {
      assert !s.closers[e].Won();
    }
  }

  lemma SomeoneClosed(s: State)
    requires CloseInv(s) && s.closers != [] && s.closers[0] != Closing
    requires Refused in s.closers ==> s.q.queueClose
    ensures s.q.queueClose
  {
    assert s.closers[0] == Refused ==> Refused in s.closers;
    assert s.closers[0] != Refused ==> s.closers[0].Won();
  }
}
