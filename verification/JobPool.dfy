/**
 The bounded job queue of phread_pool.c as a machine over any number of threads.

 One step is one stretch of code from taking the mutex to releasing it or to
 waiting on a condition variable; the two broadcasts that threadpool_destroy
 makes after unlocking, each join and the end of each callback are steps of their own.
 A call of threadpool_add_job is named by its position in `calls`, and so is its job.
 */
module JobPool {
  import opened Totals
  import opened CondVar

  // ---------------------------------------------------------------------
  // The critical sections, as functions of what the mutex protects.
  // ---------------------------------------------------------------------

  /** The shared fields: queue_max_num, the jobs from head to tail, and the two flags. */
  datatype Shared = Shared(max: int, jobs: seq<nat>, queueClose: bool, poolClose: bool) {
    predicate Closing() { queueClose || poolClose }
  }

  datatype AddOutcome = AddWait | AddRefuse | AddOk(wakeWorkers: bool)

  /** threadpool_add_job, from a test of the while condition on. */
  function AddSection(q: Shared, job: nat, alloc: bool): (Shared, AddOutcome) {
    if |q.jobs| == q.max && !q.Closing() then (q, AddWait)
    else if q.Closing() || !alloc then (q, AddRefuse)
    else (q.(jobs := q.jobs + [job]), AddOk(q.jobs == []))
  }

  datatype TakeOutcome = TakeWait | TakeExit | TakeJob(job: nat, drained: bool, room: bool)

  /** threadpool_function, from a test of the while condition on. */
  function TakeSection(q: Shared): (Shared, TakeOutcome) {
    if q.poolClose then (q, TakeExit)
    else if q.jobs == [] then (q, TakeWait)
    else
      (q.(jobs := q.jobs[1..]),
       TakeJob(q.jobs[0], |q.jobs| - 1 == 0, |q.jobs| - 1 == q.max - 1))
  }

  datatype CloseOutcome = CloseRefuse | CloseWait | CloseAnnounce

  /** threadpool_destroy, from a test of its while condition on. */
  function DrainSection(q: Shared): (Shared, CloseOutcome) {
    if q.jobs != [] then (q, CloseWait) else (q.(poolClose := true), CloseAnnounce)
  }

  /** threadpool_destroy, from its entry. */
  function CloseSection(q: Shared): (Shared, CloseOutcome) {
    if q.Closing() then (q, CloseRefuse) else DrainSection(q.(queueClose := true))
  }

  // ---------------------------------------------------------------------
  // The machine.
  // ---------------------------------------------------------------------

  datatype Worker = AtLock | WaitsForJob | WokenForJob | Runs(job: nat) | Gone

  datatype Call = Calling | WaitsForRoom | WokenForRoom | Returned0 | ReturnedMinus1

  datatype Closer =
    | Closing | WaitsForDrain | WokenForDrain
    | AnnouncesJobs | AnnouncesRoom | Joins(next: nat) | Joined | Refused
  {
    /** The destroyer that won the race and set queue_close. */
    predicate Won() { !Closing? && !Refused? }
    /** It has set pool_close too. */
    predicate Past() { AnnouncesJobs? || AnnouncesRoom? || Joins? || Joined? }
  }

  datatype State = State(
    q: Shared,
    workers: seq<Worker>, calls: seq<Call>, closers: seq<Closer>,
    accepted: seq<nat>, taken: seq<nat>, executed: seq<nat>)

  datatype Step =
    | BeginAdd | BeginDestroy
    | SpuriousWorker(w: nat) | SpuriousCall(c: nat) | SpuriousCloser(d: nat)
    | CallLocks(c: nat, alloc: bool)
    | WorkerLocks(w: nat, signalled: set<nat>)
    | WorkerFinishes(w: nat)
    | CloserLocks(d: nat)
    | CloserAnnounces(d: nat)
    | CloserJoins(d: nat)
  {
    /** Steps of the environment: new calls and spurious wake-ups. */
    predicate Env() {
      BeginAdd? || BeginDestroy? || SpuriousWorker? || SpuriousCall? || SpuriousCloser?
    }
  }

  function Init(threadNum: nat, max: int): State {
    State(Shared(max, [], false, false), seq(threadNum, _ => AtLock), [], [], [], [], [])
  }

  function WakeWorkers(ws: seq<Worker>): (r: seq<Worker>) { AllAwakened(ws, WaitsForJob, WokenForJob) }

  function WakeCalls(cs: seq<Call>): (r: seq<Call>) { AllAwakened(cs, WaitsForRoom, WokenForRoom) }

  function WakeClosers(ds: seq<Closer>, woken: set<nat>): (r: seq<Closer>) {
    Awakened(ds, woken, WaitsForDrain, WokenForDrain)
  }

  predicate Enabled(s: State, step: Step) {
    match step
    case BeginAdd => true
    case BeginDestroy => true
    case SpuriousWorker(w) => w < |s.workers| && s.workers[w] == WaitsForJob
    case SpuriousCall(c) => c < |s.calls| && s.calls[c] == WaitsForRoom
    case SpuriousCloser(d) => d < |s.closers| && s.closers[d] == WaitsForDrain
    case CallLocks(c, _) => c < |s.calls| && (s.calls[c] == Calling || s.calls[c] == WokenForRoom)
    case WorkerLocks(w, signalled) =>
      && w < |s.workers| && (s.workers[w] == AtLock || s.workers[w] == WokenForJob)
      && SignalChoice(signalled, Waiters(s.closers, WaitsForDrain))
    case WorkerFinishes(w) => w < |s.workers| && s.workers[w].Runs?
    case CloserLocks(d) => d < |s.closers| && (s.closers[d] == Closing || s.closers[d] == WokenForDrain)
    case CloserAnnounces(d) => d < |s.closers| && (s.closers[d] == AnnouncesJobs || s.closers[d] == AnnouncesRoom)
    case CloserJoins(d) =>
      && d < |s.closers| && s.closers[d].Joins?
      && (s.closers[d].next < |s.workers| ==> s.workers[s.closers[d].next] == Gone)
  }

  function CallLock(s: State, c: nat, alloc: bool): State
    requires c < |s.calls|
  {
    var (q, out) := AddSection(s.q, c, alloc);
    match out
    case AddWait => s.(calls := s.calls[c := WaitsForRoom])
    case AddRefuse => s.(calls := s.calls[c := ReturnedMinus1])
    case AddOk(wake) =>
      s.(q := q, calls := s.calls[c := Returned0], accepted := s.accepted + [c],
         workers := if wake then WakeWorkers(s.workers) else s.workers)
  }

  function WorkerLock(s: State, w: nat, signalled: set<nat>): State
    requires w < |s.workers|
  {
    var (q, out) := TakeSection(s.q);
    match out
    case TakeWait => s.(workers := s.workers[w := WaitsForJob])
    case TakeExit => s.(workers := s.workers[w := Gone])
    case TakeJob(job, drained, room) =>
      s.(q := q, workers := s.workers[w := Runs(job)], taken := s.taken + [job],
         closers := if drained then WakeClosers(s.closers, signalled) else s.closers,
         calls := if room then WakeCalls(s.calls) else s.calls)
  }

  function CloserLock(s: State, d: nat): State
    requires d < |s.closers|
  {
    var (q, out) := if s.closers[d] == Closing then CloseSection(s.q) else DrainSection(s.q);
    match out
    case CloseRefuse => s.(closers := s.closers[d := Refused])
    case CloseWait => s.(q := q, closers := s.closers[d := WaitsForDrain])
    case CloseAnnounce => s.(q := q, closers := s.closers[d := AnnouncesJobs])
  }

  function Apply(s: State, step: Step): State
    requires Enabled(s, step)
  {
    match step
    case BeginAdd => s.(calls := s.calls + [Calling])
    case BeginDestroy => s.(closers := s.closers + [Closing])
    case SpuriousWorker(w) => s.(workers := s.workers[w := WokenForJob])
    case SpuriousCall(c) => s.(calls := s.calls[c := WokenForRoom])
    case SpuriousCloser(d) => s.(closers := s.closers[d := WokenForDrain])
    case CallLocks(c, alloc) => CallLock(s, c, alloc)
    case WorkerLocks(w, signalled) => WorkerLock(s, w, signalled)
    case WorkerFinishes(w) =>
      s.(workers := s.workers[w := AtLock], executed := s.executed + [s.workers[w].job])
    case CloserLocks(d) => CloserLock(s, d)
    case CloserAnnounces(d) =>
      if s.closers[d] == AnnouncesJobs then
        s.(closers := s.closers[d := AnnouncesRoom], workers := WakeWorkers(s.workers))
      else
        s.(closers := s.closers[d := Joins(0)], calls := WakeCalls(s.calls))
    case CloserJoins(d) =>
      var n := s.closers[d].next;
      s.(closers := s.closers[d := if n < |s.workers| then Joins(n + 1) else Joined])
  }

  predicate Legal(s: State, run: seq<Step>)
    decreases |run|
  {
    run == [] || (Enabled(s, run[0]) && Legal(Apply(s, run[0]), run[1..]))
  }

  function After(s: State, run: seq<Step>): State
    requires Legal(s, run)
    decreases |run|
  {
    if run == [] then s else After(Apply(s, run[0]), run[1..])
  }

  // ---------------------------------------------------------------------
  // What every step keeps.
  // ---------------------------------------------------------------------

  /** The wake-ups on edges lose nothing. */
  ghost predicate WakeInv(s: State) {
    && (s.q.max >= 0 ==> |s.q.jobs| <= s.q.max)
    && (s.q.jobs != [] ==> WaitsForJob !in s.workers)
    && (WaitsForRoom in s.calls ==> |s.q.jobs| == s.q.max)
    && (WaitsForDrain in s.closers ==> s.q.jobs != [])
  }

  /** The two-phase shutdown has one owner, and its phases mean what they say. */
  ghost predicate CloseInv(s: State) {
    && (forall d, e :: 0 <= d < |s.closers| && 0 <= e < |s.closers| && s.closers[d].Won() && s.closers[e].Won() ==>
          d == e)
    && (s.q.queueClose <==> exists d :: 0 <= d < |s.closers| && s.closers[d].Won())
    && (s.q.poolClose <==> exists d :: 0 <= d < |s.closers| && s.closers[d].Past())
    && (s.q.poolClose ==> s.q.jobs == [])
    && (Gone in s.workers ==> s.q.poolClose)
    && (forall d :: 0 <= d < |s.closers| ==> PhaseInv(s, s.closers[d]))
  }

  ghost predicate PhaseInv(s: State, d: Closer) {
    && (d.AnnouncesRoom? || d.Joins? || d.Joined? ==> WaitsForJob !in s.workers)
    && (d.Joins? || d.Joined? ==> WaitsForRoom !in s.calls)
    && (d.Joins? ==> d.next <= |s.workers| && forall i :: 0 <= i < d.next ==> s.workers[i] == Gone)
    && (d.Joined? ==> forall i :: 0 <= i < |s.workers| ==> s.workers[i] == Gone)
  }

  ghost predicate Distinct(xs: seq<nat>) {
    forall i, j :: 0 <= i < j < |xs| ==> xs[i] != xs[j]
  }

  /** Jobs are taken in the order they were accepted, and each is in exactly one place. */
  ghost predicate HistoryInv(s: State) {
    && s.accepted == s.taken + s.q.jobs
    && Distinct(s.accepted)
    && (forall c: nat :: c in s.accepted <==> c < |s.calls| && s.calls[c] == Returned0)
    && Distinct(s.executed)
    && (forall c :: c in s.executed ==> c in s.taken)
    && (forall w :: 0 <= w < |s.workers| && s.workers[w].Runs? ==>
          s.workers[w].job in s.taken && s.workers[w].job !in s.executed)
    && (forall v, w | 0 <= v < |s.workers| && 0 <= w < |s.workers| ::
          s.workers[v].Runs? && s.workers[v] == s.workers[w] ==> v == w)
    && (forall c :: c in s.taken && c !in s.executed ==> Runs(c) in s.workers)
  }

  ghost predicate Inv(s: State) { WakeInv(s) && CloseInv(s) && HistoryInv(s) }

  lemma WakeKept(s: State, step: Step)
    requires Inv(s) && Enabled(s, step)
    ensures WakeInv(Apply(s, step))
  {
    var t := Apply(s, step);
    if step.WorkerLocks? && |s.q.jobs| == 1 {
      // The one destroyer that can be asleep is in the set that the signal must wake.
      forall d | 0 <= d < |t.closers| ensures t.closers[d] != WaitsForDrain {
        if s.closers[d] == WaitsForDrain {
          assert d in Waiters(s.closers, WaitsForDrain);
          var e :| e in step.signalled;
          assert e in Waiters(s.closers, WaitsForDrain);
          assert s.closers[d].Won() && s.closers[e].Won();
        }
      }
    }
  }

  /** A step that leaves the flags, and who won and who is past the drain, keeps CloseInv. */
  lemma CloseFrame(s: State, t: State)
    requires CloseInv(s)
    requires t.q.queueClose == s.q.queueClose && t.q.poolClose == s.q.poolClose
    requires |s.closers| <= |t.closers|
    requires forall e :: 0 <= e < |t.closers| ==>
      && t.closers[e].Won() == (e < |s.closers| && s.closers[e].Won())
      && t.closers[e].Past() == (e < |s.closers| && s.closers[e].Past())
    requires t.q.poolClose ==> t.q.jobs == []
    requires Gone in t.workers ==> t.q.poolClose
    requires forall e :: 0 <= e < |t.closers| ==> PhaseInv(t, t.closers[e])
    ensures CloseInv(t)
  {
    if s.q.queueClose {
      var d :| 0 <= d < |s.closers| && s.closers[d].Won();
      assert t.closers[d].Won();
    }
    if s.q.poolClose {
      var d :| 0 <= d < |s.closers| && s.closers[d].Past();
      assert t.closers[d].Past();
    }
  }

  lemma CloserLockKeepsClose(s: State, d: nat)
    requires Inv(s) && Enabled(s, CloserLocks(d))
    ensures CloseInv(CloserLock(s, d))
  {
    var t := CloserLock(s, d);
    assert forall e :: 0 <= e < |s.closers| && e != d ==> t.closers[e] == s.closers[e];
    if s.closers[d] == Closing && s.q.Closing() {
      CloseFrame(s, t);
    } else {
      assert t.closers[d].Won();
      if s.closers[d] == WokenForDrain {
        assert s.closers[d].Won();
      }
      if s.q.jobs == [] {
        assert t.closers[d].Past();
      }
    }
  }

  lemma WorkerLockKeepsClose(s: State, w: nat, signalled: set<nat>)
    requires Inv(s) && Enabled(s, WorkerLocks(w, signalled))
    ensures CloseInv(WorkerLock(s, w, signalled))
  {
    var t := WorkerLock(s, w, signalled);
    forall e | 0 <= e < |t.closers| ensures PhaseInv(t, t.closers[e]) {
      assert PhaseInv(s, s.closers[e]);
      if s.closers[e].Past() { assert s.q.poolClose; }
    }
    CloseFrame(s, t);
  }

  /** CloseFrame for the steps that leave every closer alone, or add one that has not started. */
  lemma CloseFrameSameClosers(s: State, t: State)
    requires CloseInv(s) && t.q.queueClose == s.q.queueClose && t.q.poolClose == s.q.poolClose
    requires t.closers == s.closers || t.closers == s.closers + [Closing]
    requires t.q.poolClose ==> t.q.jobs == []
    requires |t.workers| == |s.workers|
    requires forall w :: 0 <= w < |s.workers| ==>
      && (t.workers[w] == Gone <==> s.workers[w] == Gone)
      && (t.workers[w] == WaitsForJob ==> s.workers[w] == WaitsForJob)
    requires forall c :: 0 <= c < |t.calls| && t.calls[c] == WaitsForRoom ==>
      (c < |s.calls| && s.calls[c] == WaitsForRoom) || !s.q.poolClose
    ensures CloseInv(t)
  {
    forall e | 0 <= e < |t.closers| ensures PhaseInv(t, t.closers[e]) {
      if e < |s.closers| {
        assert PhaseInv(s, s.closers[e]);
        if s.closers[e].Past() { assert s.q.poolClose; }
      }
    }
    CloseFrame(s, t);
  }

  lemma CloserStepKeepsClose(s: State, step: Step)
    requires Inv(s) && Enabled(s, step)
    requires step.SpuriousCloser? || step.CloserAnnounces? || step.CloserJoins?
    ensures CloseInv(Apply(s, step))
  {
    var t := Apply(s, step);
    forall e | 0 <= e < |t.closers| ensures PhaseInv(t, t.closers[e]) {
      assert PhaseInv(s, s.closers[e]);
      assert PhaseInv(s, s.closers[step.d]);
      if s.closers[e].Won() && s.closers[step.d].Won() { assert e == step.d; }
    }
    CloseFrame(s, t);
  }

  lemma CloseKept(s: State, step: Step)
    requires Inv(s) && Enabled(s, step)
    ensures CloseInv(Apply(s, step))
  {
    if step.WorkerLocks? {
      WorkerLockKeepsClose(s, step.w, step.signalled);
    } else if step.CloserLocks? {
      CloserLockKeepsClose(s, step.d);
    } else if step.SpuriousCloser? || step.CloserAnnounces? || step.CloserJoins? {
      CloserStepKeepsClose(s, step);
    } else {
      CloseFrameSameClosers(s, Apply(s, step));
    }
  }

  /** Waking and sleeping threads leave the history alone. */
  lemma HistoryFrame(s: State, t: State)
    requires HistoryInv(s)
    requires t.q.jobs == s.q.jobs && t.accepted == s.accepted && t.taken == s.taken && t.executed == s.executed
    requires |t.workers| == |s.workers| && |s.calls| <= |t.calls|
    requires forall w :: 0 <= w < |s.workers| ==>
        t.workers[w] == s.workers[w] || (!t.workers[w].Runs? && !s.workers[w].Runs?)
    requires forall c :: 0 <= c < |t.calls| ==> (t.calls[c] == Returned0 <==> c < |s.calls| && s.calls[c] == Returned0)
    ensures HistoryInv(t)
  {
    forall c | c in t.taken && c !in t.executed ensures Runs(c) in t.workers {
      RunnerStays(s, t, c);
    }
  }

  lemma HistoryKept(s: State, step: Step)
    requires HistoryInv(s) && Enabled(s, step)
    ensures HistoryInv(Apply(s, step))
  {
    if step.CallLocks? {
      CallLockKeepsHistory(s, step.c, step.alloc);
    } else if step.WorkerLocks? {
      WorkerLockKeepsHistory(s, step.w, step.signalled);
    } else if step.WorkerFinishes? {
      FinishKeepsHistory(s, step.w);
    } else {
      HistoryFrame(s, Apply(s, step));
    }
  }

  /** A worker that runs a job keeps running it while other workers move. */
  lemma RunnerStays(s: State, t: State, c: nat)
    requires Runs(c) in s.workers && |t.workers| == |s.workers|
    requires forall v :: 0 <= v < |s.workers| && s.workers[v] == Runs(c) ==> t.workers[v] == Runs(c)
    ensures Runs(c) in t.workers
  {
    var v :| 0 <= v < |s.workers| && s.workers[v] == Runs(c);
    assert t.workers[v] == Runs(c);
  }

  lemma CallLockKeepsHistory(s: State, c: nat, alloc: bool)
    requires HistoryInv(s) && Enabled(s, CallLocks(c, alloc))
    ensures HistoryInv(CallLock(s, c, alloc))
  {
    var t := CallLock(s, c, alloc);
    forall x | x in t.taken && x !in t.executed ensures Runs(x) in t.workers {
      RunnerStays(s, t, x);
    }
    assert t.accepted == t.taken + t.q.jobs;
    assert c !in s.accepted;
  }

  lemma WorkerLockKeepsHistory(s: State, w: nat, signalled: set<nat>)
    requires HistoryInv(s) && Enabled(s, WorkerLocks(w, signalled))
    ensures HistoryInv(WorkerLock(s, w, signalled))
  {
    var t := WorkerLock(s, w, signalled);
    if !s.q.poolClose && s.q.jobs != [] {
      var job := s.q.jobs[0];
      assert s.accepted[|s.taken|] == job;
      assert forall i :: 0 <= i < |s.taken| ==> s.accepted[i] == s.taken[i];
      assert job !in s.taken;
      assert t.workers[w] == Runs(job);
      assert t.accepted == t.taken + t.q.jobs;
    }
    forall x | x in t.taken && x !in t.executed ensures Runs(x) in t.workers {
      if x in s.taken { RunnerStays(s, t, x); }
    }
    forall c | 0 <= c < |s.calls| ensures t.calls[c] == Returned0 <==> s.calls[c] == Returned0 {}
  }

  lemma FinishKeepsHistory(s: State, w: nat)
    requires HistoryInv(s) && Enabled(s, WorkerFinishes(w))
    ensures HistoryInv(Apply(s, WorkerFinishes(w)))
  {
    var t := Apply(s, WorkerFinishes(w));
    forall x | x in t.taken && x !in t.executed ensures Runs(x) in t.workers {
      RunnerStays(s, t, x);
    }
  }

  // ---------------------------------------------------------------------
  // Safety over every run.
  // ---------------------------------------------------------------------

  lemma {:induction false} InvKept(s: State, run: seq<Step>)
    requires Inv(s) && Legal(s, run)
    ensures Inv(After(s, run))
    decreases |run|
  {
    if run == [] {
    } else {
      WakeKept(s, run[0]);
      CloseKept(s, run[0]);
      HistoryKept(s, run[0]);
      InvKept(Apply(s, run[0]), run[1..]);
    }
  }

  lemma ReachableInv(threadNum: nat, max: int, run: seq<Step>)
    requires Legal(Init(threadNum, max), run)
    ensures Inv(After(Init(threadNum, max), run))
  {
    InvKept(Init(threadNum, max), run);
  }

  /** Edge-triggered wake-ups: what holds in every reachable state, for every bound and pool size. */
  lemma WakeUpsLoseNothing(threadNum: nat, max: int, run: seq<Step>)
    requires Legal(Init(threadNum, max), run)
    ensures var s := After(Init(threadNum, max), run);
      && (s.q.jobs != [] ==> WaitsForJob !in s.workers)
      && (WaitsForRoom in s.calls ==> |s.q.jobs| == max)
      && (WaitsForDrain in s.closers ==> s.q.jobs != [])
      && (forall d | 0 <= d < |s.closers| ::
            s.closers[d].AnnouncesRoom? || s.closers[d].Joins? || s.closers[d].Joined? ==> WaitsForJob !in s.workers)
      && (forall d :: 0 <= d < |s.closers| && (s.closers[d].Joins? || s.closers[d].Joined?) ==>
            WaitsForRoom !in s.calls)
  {
    ReachableInv(threadNum, max, run);
    var s := After(Init(threadNum, max), run);
    assert forall d :: 0 <= d < |s.closers| ==> PhaseInv(s, s.closers[d]);
    ConfigKept(Init(threadNum, max), run);
  }

  lemma {:induction false} ConfigKept(s: State, run: seq<Step>)
    requires Legal(s, run)
    ensures After(s, run).q.max == s.q.max && |After(s, run).workers| == |s.workers|
    decreases |run|
  {
    if run == [] {
    } else {
      ConfigKept(Apply(s, run[0]), run[1..]);
    }
  }

  /** The jobs some worker is running. */
  function Running(s: State): set<nat> {
    set w | 0 <= w < |s.workers| && s.workers[w].Runs? :: s.workers[w].job
  }

  lemma {:induction false} DistinctCount(xs: seq<nat>, c: nat)
    requires Distinct(xs)
    ensures multiset(xs)[c] == if c in xs then 1 else 0
  {
    if xs == [] {
    } else {
      var n := |xs| - 1;
      DistinctCount(xs[..n], c);
      assert xs == xs[..n] + [xs[n]];
    }
  }

  lemma OnePlace(s: State)
    requires Inv(s)
    ensures multiset(s.accepted) == multiset(s.executed) + multiset(Running(s)) + multiset(s.q.jobs)
    ensures forall c: nat :: multiset(s.accepted)[c] == if c < |s.calls| && s.calls[c] == Returned0 then 1 else 0
  {
    forall c: nat
      ensures multiset(s.accepted)[c] == (multiset(s.executed) + multiset(Running(s)) + multiset(s.q.jobs))[c]
      ensures multiset(s.accepted)[c] == if c in s.accepted then 1 else 0
    {
      DistinctCount(s.accepted, c);
      DistinctCount(s.executed, c);
      assert multiset(s.accepted) == multiset(s.taken) + multiset(s.q.jobs);
      assert Distinct(s.taken) by {
        assert forall i :: 0 <= i < |s.taken| ==> s.accepted[i] == s.taken[i];
      }
      DistinctCount(s.taken, c);
      if c in Running(s) { assert Runs(c) in s.workers; }
    }
  }

  /** Every accepted job is in exactly one place, and jobs are taken first in, first out. */
  lemma ExactlyOnePlace(threadNum: nat, max: int, run: seq<Step>)
    requires Legal(Init(threadNum, max), run)
    ensures var s := After(Init(threadNum, max), run);
      && s.taken <= s.accepted
      && (max >= 0 ==> |s.q.jobs| <= max)
      && multiset(s.accepted) == multiset(s.executed) + multiset(Running(s)) + multiset(s.q.jobs)
      && forall c: nat :: multiset(s.accepted)[c] == if c < |s.calls| && s.calls[c] == Returned0 then 1 else 0
  {
    ReachableInv(threadNum, max, run);
    ConfigKept(Init(threadNum, max), run);
    OnePlace(After(Init(threadNum, max), run));
  }

  /**
   Graceful shutdown: when threadpool_destroy has joined the workers, the queue is empty,
   every job whose threadpool_add_job returned 0 has run exactly once, and no other job has run.
   */
  lemma GracefulShutdown(threadNum: nat, max: int, run: seq<Step>)
    requires Legal(Init(threadNum, max), run)
    requires Joined in After(Init(threadNum, max), run).closers
    ensures var s := After(Init(threadNum, max), run);
      && s.q.jobs == []
      && (forall w :: 0 <= w < |s.workers| ==> s.workers[w] == Gone)
      && (forall c: nat :: multiset(s.executed)[c] == if c < |s.calls| && s.calls[c] == Returned0 then 1 else 0)
  {
    ReachableInv(threadNum, max, run);
    var s := After(Init(threadNum, max), run);
    ExactlyOnePlace(threadNum, max, run);
    var d :| 0 <= d < |s.closers| && s.closers[d] == Joined;
    assert s.closers[d].Past() && PhaseInv(s, s.closers[d]);
    assert Running(s) == {};
  }

  // ---------------------------------------------------------------------
  // Progress.
  // ---------------------------------------------------------------------

  /** No thread can take a step of its own: only the environment can move. */
  ghost predicate Quiet(s: State) {
    forall step: Step :: !step.Env() ==> !Enabled(s, step)
  }

  ghost predicate AllReturned(s: State) {
    && (forall c :: 0 <= c < |s.calls| ==> s.calls[c] == Returned0 || s.calls[c] == ReturnedMinus1)
    && (forall d :: 0 <= d < |s.closers| ==> s.closers[d] == Joined || s.closers[d] == Refused)
  }

  lemma QuietThreads(s: State)
    requires Quiet(s)
    ensures forall w :: 0 <= w < |s.workers| ==> s.workers[w] == WaitsForJob || s.workers[w] == Gone
    ensures forall c :: 0 <= c < |s.calls| ==> s.calls[c] != Calling && s.calls[c] != WokenForRoom
    ensures forall d :: 0 <= d < |s.closers| ==>
        s.closers[d] == WaitsForDrain || s.closers[d].Joins? || s.closers[d] == Joined || s.closers[d] == Refused
    ensures forall d :: 0 <= d < |s.closers| && s.closers[d].Joins? ==>
        s.closers[d].next < |s.workers| && s.workers[s.closers[d].next] != Gone
  {
    forall w | 0 <= w < |s.workers| ensures s.workers[w] == WaitsForJob || s.workers[w] == Gone {
      assert !Enabled(s, WorkerLocks(w, Waiters(s.closers, WaitsForDrain))) && !Enabled(s, WorkerFinishes(w));
    }
    forall c | 0 <= c < |s.calls| ensures s.calls[c] != Calling && s.calls[c] != WokenForRoom {
      assert !Enabled(s, CallLocks(c, true));
    }
    forall d | 0 <= d < |s.closers|
      ensures s.closers[d] == WaitsForDrain || s.closers[d].Joins? || s.closers[d] == Joined || s.closers[d] == Refused
      ensures s.closers[d].Joins? ==> s.closers[d].next < |s.workers| && s.workers[s.closers[d].next] != Gone
    {
      assert !Enabled(s, CloserLocks(d)) && !Enabled(s, CloserAnnounces(d)) && !Enabled(s, CloserJoins(d));
    }
  }

  /** No stuck state: with a worker and room for a job, threads stop only when every call has returned. */
  lemma NoStuckState(threadNum: nat, max: int, run: seq<Step>)
    requires Legal(Init(threadNum, max), run)
    requires threadNum > 0 && max != 0
    requires Quiet(After(Init(threadNum, max), run))
    ensures AllReturned(After(Init(threadNum, max), run))
    ensures After(Init(threadNum, max), run).q.jobs == []
  {
    ReachableInv(threadNum, max, run);
    ConfigKept(Init(threadNum, max), run);
    QuietHasReturned(After(Init(threadNum, max), run));
  }

  lemma QuietHasReturned(s: State)
    requires Inv(s) && Quiet(s)
    requires s.workers != [] && (s.q.max != 0 || s.q.queueClose)
    ensures AllReturned(s) && s.q.jobs == []
  {
    QuietThreads(s);
    assert s.workers[0] in s.workers;
    assert s.q.jobs == [];
    forall d | 0 <= d < |s.closers| ensures s.closers[d] == Joined || s.closers[d] == Refused {
      assert PhaseInv(s, s.closers[d]);
      assert s.closers[d] in s.closers;
      assert forall w :: 0 <= w < |s.workers| ==> s.workers[w] in s.workers;
    }
    forall c | 0 <= c < |s.calls| ensures s.calls[c] != WaitsForRoom {
      assert s.calls[c] in s.calls;
      assert forall d :: 0 <= d < |s.closers| ==> PhaseInv(s, s.closers[d]);
    }
  }

  lemma AfterAppend(s: State, run: seq<Step>, step: Step)
    requires Legal(s, run) && Enabled(After(s, run), step)
    ensures Legal(s, run + [step]) && After(s, run + [step]) == Apply(After(s, run), step)
    decreases |run|
  {
    if run == [] {
      assert [step][1..] == [];
    } else {
      AfterAppend(Apply(s, run[0]), run[1..], step);
      assert (run + [step])[1..] == run[1..] + [step];
    }
  }

  /** With no room at all, the first call blocks and the workers go to sleep beside it. */
  lemma {:induction false} SettleWorkers(threadNum: nat, k: nat) returns (run: seq<Step>)
    requires k <= threadNum
    ensures Legal(Init(threadNum, 0), run)
    ensures After(Init(threadNum, 0), run) ==
            Init(threadNum, 0).(calls := [WaitsForRoom],
                                workers := seq(threadNum, i => if i < k then WaitsForJob else AtLock))
  {
    var s := Init(threadNum, 0);
    if k == 0 {
      run := [BeginAdd];
      AfterAppend(s, [], BeginAdd);
      assert [] + [BeginAdd] == run;
      AfterAppend(s, run, CallLocks(0, true));
      run := run + [CallLocks(0, true)];
    } else {
      var init := SettleWorkers(threadNum, k - 1);
      AfterAppend(s, init, WorkerLocks(k - 1, {}));
      run := init + [WorkerLocks(k - 1, {})];
    }
  }

  ghost predicate Stuck(s: State) { Quiet(s) && !AllReturned(s) }

  /** With no worker, a destroyer waits for a drain that never comes. */
  lemma NoWorkerStuck(max: int) returns (run: seq<Step>)
    requires max != 0
    ensures Legal(Init(0, max), run) && Stuck(After(Init(0, max), run))
  {
    var s := Init(0, max);
    run := [BeginAdd];
    AfterAppend(s, [], BeginAdd);
    assert [] + [BeginAdd] == run;
    AfterAppend(s, run, CallLocks(0, true));
    run := run + [CallLocks(0, true)];
    AfterAppend(s, run, BeginDestroy);
    run := run + [BeginDestroy];
    AfterAppend(s, run, CloserLocks(0));
    run := run + [CloserLocks(0)];
    var t := After(s, run);
    assert t.calls == [Returned0] && t.closers == [WaitsForDrain] && t.workers == [];
    assert t.closers[0] == WaitsForDrain;
  }

  ghost predicate NeverStuck(s: State) {
    forall run: seq<Step> :: Legal(s, run) ==> !Stuck(After(s, run))
  }

  /** Threads never stop before every call has returned, exactly for a pool with a worker and a bound other than 0. */
  lemma NeverStuckIff(threadNum: nat, max: int)
    ensures NeverStuck(Init(threadNum, max)) <==> threadNum > 0 && max != 0
  {
    var s := Init(threadNum, max);
    if threadNum > 0 && max != 0 {
      forall run: seq<Step> | Legal(s, run) && Quiet(After(s, run)) ensures AllReturned(After(s, run)) {
        NoStuckState(threadNum, max, run);
      }
    } else if max == 0 {
      var run := SettleWorkers(threadNum, threadNum);
      var t := After(s, run);
      assert t.calls[0] == WaitsForRoom;
      assert forall w :: 0 <= w < |t.workers| ==> t.workers[w] == WaitsForJob;
      assert Stuck(t);
    } else {
      var run := NoWorkerStuck(max);
      assert s == Init(0, max);
      assert Legal(s, run) && Stuck(After(s, run));
    }
  }

  // ---------------------------------------------------------------------
  // Shutdown terminates.
  // ---------------------------------------------------------------------

  function WorkerRank(w: Worker): nat {
    match w
    case Runs(_) => 2
    case AtLock => 1
    case WokenForJob => 1
    case WaitsForJob => 0
    case Gone => 0
  }

  function CallRank(c: Call): nat {
    if c == Calling || c == WokenForRoom then 1 else 0
  }

  /** Ranks of the destroyer's phases among `threads` workers and at most `many` calls. */
  function CloserRank(d: Closer, threads: nat, many: nat): nat {
    match d
    case Closing => 1
    case Refused => 0
    case Joined => 0
    case Joins(n) => if n <= threads then threads - n + 1 else 0
    case AnnouncesRoom => threads + many + 2
    case AnnouncesJobs => 2 * threads + many + 3
    case WaitsForDrain => 2 * threads + many + 4
    case WokenForDrain => 2 * threads + many + 5
  }

  function WorkerRanks(ws: seq<Worker>): seq<nat> {
    seq(|ws|, i requires 0 <= i < |ws| => WorkerRank(ws[i]))
  }

  function CallRanks(cs: seq<Call>): seq<nat> {
    seq(|cs|, i requires 0 <= i < |cs| => CallRank(cs[i]))
  }

  function CloserRanks(ds: seq<Closer>, threads: nat, many: nat): seq<nat> {
    seq(|ds|, i requires 0 <= i < |ds| => CloserRank(ds[i], threads, many))
  }

  /** Remaining, of the four parts it depends on. */
  function Load(jobs: nat, ws: seq<Worker>, cs: seq<Call>, ds: seq<Closer>, threads: nat, many: nat): nat {
    Times(jobs, 2 * many + 2) + Total(WorkerRanks(ws)) + Total(CallRanks(cs)) + Total(CloserRanks(ds, threads, many))
  }

  /** What is left to do, if at most `many` calls of each kind are ever made. */
  function Remaining(s: State, many: nat): nat {
    Load(|s.q.jobs|, s.workers, s.calls, s.closers, |s.workers|, many)
  }

  lemma WorkerMoves(ws: seq<Worker>, w: nat, v: Worker)
    requires w < |ws|
    ensures Total(WorkerRanks(ws[w := v])) + WorkerRank(ws[w]) == Total(WorkerRanks(ws)) + WorkerRank(v)
  {
    TotalUpdate(WorkerRanks(ws), w, WorkerRank(v));
    assert WorkerRanks(ws[w := v]) == WorkerRanks(ws)[w := WorkerRank(v)];
  }

  lemma CallMoves(cs: seq<Call>, c: nat, v: Call)
    requires c < |cs|
    ensures Total(CallRanks(cs[c := v])) + CallRank(cs[c]) == Total(CallRanks(cs)) + CallRank(v)
  {
    TotalUpdate(CallRanks(cs), c, CallRank(v));
    assert CallRanks(cs[c := v]) == CallRanks(cs)[c := CallRank(v)];
  }

  lemma CloserRankMoves(ds: seq<Closer>, d: nat, v: Closer, threads: nat, many: nat)
    requires d < |ds|
    ensures Total(CloserRanks(ds[d := v], threads, many)) + CloserRank(ds[d], threads, many)
         == Total(CloserRanks(ds, threads, many)) + CloserRank(v, threads, many)
  {
    TotalUpdate(CloserRanks(ds, threads, many), d, CloserRank(v, threads, many));
    assert CloserRanks(ds[d := v], threads, many) == CloserRanks(ds, threads, many)[d := CloserRank(v, threads, many)];
  }

  lemma WakingRaises(s: State, woken: set<nat>, many: nat)
    ensures Total(WorkerRanks(WakeWorkers(s.workers))) <= Total(WorkerRanks(s.workers)) + |s.workers|
    ensures Total(CallRanks(WakeCalls(s.calls))) <= Total(CallRanks(s.calls)) + |s.calls|
    ensures Total(CloserRanks(WakeClosers(s.closers, woken), |s.workers|, many))
         <= Total(CloserRanks(s.closers, |s.workers|, many)) + |s.closers|
  {
    TotalRaise(WorkerRanks(s.workers), WorkerRanks(WakeWorkers(s.workers)));
    TotalRaise(CallRanks(s.calls), CallRanks(WakeCalls(s.calls)));
    TotalRaise(CloserRanks(s.closers, |s.workers|, many),
               CloserRanks(WakeClosers(s.closers, woken), |s.workers|, many));
  }

  /** A worker that finds a job takes one off the queue and may wake everybody. */
  lemma TakingLowers(s: State, w: nat, v: Worker, cs: seq<Call>, ds: seq<Closer>, signalled: set<nat>, many: nat)
    requires w < |s.workers| && WorkerRank(s.workers[w]) == 1 && v.Runs? && s.q.jobs != []
    requires |s.calls| <= many && |s.closers| <= many
    requires cs == s.calls || cs == WakeCalls(s.calls)
    requires ds == s.closers || ds == WakeClosers(s.closers, signalled)
    ensures Load(|s.q.jobs| - 1, s.workers[w := v], cs, ds, |s.workers|, many)
          < Load(|s.q.jobs|, s.workers, s.calls, s.closers, |s.workers|, many)
  {
    WakingRaises(s, signalled, many);
    WorkerMoves(s.workers, w, v);
  }

  /** A destroyer that locks the mutex moves on, sleeps again, or is refused. */
  lemma CloserLockLowers(s: State, d: nat, many: nat)
    requires Inv(s) && s.q.queueClose && Enabled(s, CloserLocks(d))
    ensures Remaining(CloserLock(s, d), many) < Remaining(s, many)
  {
    CloserRankMoves(s.closers, d, CloserLock(s, d).closers[d], |s.workers|, many);
  }

  lemma AnnouncingJobsLowers(s: State, d: nat, many: nat)
    requires d < |s.closers| && s.closers[d] == AnnouncesJobs
    ensures Load(|s.q.jobs|, WakeWorkers(s.workers), s.calls, s.closers[d := AnnouncesRoom], |s.workers|, many)
          < Load(|s.q.jobs|, s.workers, s.calls, s.closers, |s.workers|, many)
  {
    TotalRaise(WorkerRanks(s.workers), WorkerRanks(WakeWorkers(s.workers)));
    CloserRankMoves(s.closers, d, AnnouncesRoom, |s.workers|, many);
  }

  lemma AnnouncingRoomLowers(s: State, d: nat, many: nat)
    requires d < |s.closers| && s.closers[d] == AnnouncesRoom && |s.calls| <= many
    ensures Load(|s.q.jobs|, s.workers, WakeCalls(s.calls), s.closers[d := Joins(0)], |s.workers|, many)
          < Load(|s.q.jobs|, s.workers, s.calls, s.closers, |s.workers|, many)
  {
    TotalRaise(CallRanks(s.calls), CallRanks(WakeCalls(s.calls)));
    CloserRankMoves(s.closers, d, Joins(0), |s.workers|, many);
  }

  lemma JoiningLowers(s: State, d: nat, many: nat)
    requires Inv(s) && Enabled(s, CloserJoins(d))
    ensures Remaining(Apply(s, CloserJoins(d)), many) < Remaining(s, many)
  {
    assert PhaseInv(s, s.closers[d]);
    CloserRankMoves(s.closers, d, Apply(s, CloserJoins(d)).closers[d], |s.workers|, many);
  }

  lemma WorkerLockLowers(s: State, w: nat, signalled: set<nat>, many: nat)
    requires Enabled(s, WorkerLocks(w, signalled))
    requires |s.calls| <= many && |s.closers| <= many
    ensures Remaining(WorkerLock(s, w, signalled), many) < Remaining(s, many)
  {
    if !s.q.poolClose && s.q.jobs != [] {
      var t := WorkerLock(s, w, signalled);
      TakingLowers(s, w, t.workers[w], t.calls, t.closers, signalled, many);
    } else {
      WorkerMoves(s.workers, w, if s.q.poolClose then Gone else WaitsForJob);
    }
  }

  /** Once the queue is closed, every step of the threads makes what remains smaller. */
  lemma WorkLowers(s: State, step: Step, many: nat)
    requires Inv(s) && s.q.queueClose && Enabled(s, step) && !step.Env()
    requires |s.calls| <= many && |s.closers| <= many
    ensures Remaining(Apply(s, step), many) < Remaining(s, many)
  {
    match step
    case CallLocks(c, _) => CallMoves(s.calls, c, ReturnedMinus1);
    case WorkerLocks(w, signalled) => WorkerLockLowers(s, w, signalled, many);
    case WorkerFinishes(w) => WorkerMoves(s.workers, w, AtLock);
    case CloserLocks(d) => CloserLockLowers(s, d, many);
    case CloserAnnounces(d) =>
      if s.closers[d] == AnnouncesJobs {
        AnnouncingJobsLowers(s, d, many);
      } else {
        AnnouncingRoomLowers(s, d, many);
      }
    case CloserJoins(d) => JoiningLowers(s, d, many);
  }

  /** A step of the environment adds at most one step of work. */
  lemma EnvRaises(s: State, step: Step, many: nat)
    requires Enabled(s, step) && step.Env()
    ensures Remaining(Apply(s, step), many) <= Remaining(s, many) + 1
  {
    match step
    case BeginAdd =>
      TotalAppend(CallRanks(s.calls), 1);
      assert CallRanks(s.calls + [Calling]) == CallRanks(s.calls) + [1];
    case BeginDestroy =>
      TotalAppend(CloserRanks(s.closers, |s.workers|, many), 1);
      assert CloserRanks(s.closers + [Closing], |s.workers|, many) == CloserRanks(s.closers, |s.workers|, many) + [1];
    case SpuriousWorker(w) => WorkerMoves(s.workers, w, WokenForJob);
    case SpuriousCall(c) => CallMoves(s.calls, c, WokenForRoom);
    case SpuriousCloser(d) => CloserRankMoves(s.closers, d, WokenForDrain, |s.workers|, many);
  }

  function EnvSteps(run: seq<Step>): nat {
    if run == [] then 0 else (if run[0].Env() then 1 else 0) + EnvSteps(run[1..])
  }

  lemma {:induction false} CallsGrow(s: State, run: seq<Step>)
    requires Legal(s, run)
    ensures |s.calls| <= |After(s, run).calls| && |s.closers| <= |After(s, run).closers|
    ensures s.q.queueClose ==> After(s, run).q.queueClose
    decreases |run|
  {
    if run == [] {
    } else {
      CallsGrow(Apply(s, run[0]), run[1..]);
    }
  }

  /**
   Shutdown terminates: from the moment queue_close is set, the threads take at most
   Remaining(s) steps, plus one for each new call and each spurious wake-up.
   */
  lemma {:induction false} ShutdownBound(s: State, run: seq<Step>, many: nat)
    requires Inv(s) && s.q.queueClose && Legal(s, run)
    requires |After(s, run).calls| <= many && |After(s, run).closers| <= many
    ensures |run| - EnvSteps(run) + Remaining(After(s, run), many) <= Remaining(s, many) + EnvSteps(run)
    decreases |run|
  {
    CallsGrow(s, run);
    if run == [] {
    } else {
      var t := Apply(s, run[0]);
      InvKept(s, [run[0]]);
      assert Legal(t, []) && After(s, [run[0]]) == t;
      CallsGrow(s, [run[0]]);
      ShutdownBound(t, run[1..], many);
      if run[0].Env() {
        EnvRaises(s, run[0], many);
      } else {
        WorkLowers(s, run[0], many);
      }
    }
  }

  /** ... and the only place where they stop is the end: the workers joined and every accepted job run. */
  lemma ShutdownCompletes(threadNum: nat, max: int, run: seq<Step>)
    requires threadNum > 0 && Legal(Init(threadNum, max), run)
    requires var s := After(Init(threadNum, max), run); s.q.queueClose && Quiet(s)
    ensures var s := After(Init(threadNum, max), run);
      && AllReturned(s) && Joined in s.closers
      && forall c: nat :: multiset(s.executed)[c] == if c < |s.calls| && s.calls[c] == Returned0 then 1 else 0
  {
    ReachableInv(threadNum, max, run);
    ConfigKept(Init(threadNum, max), run);
    var s := After(Init(threadNum, max), run);
    QuietHasReturned(s);
    var d :| 0 <= d < |s.closers| && s.closers[d].Won();
    assert s.closers[d] == Joined;
    GracefulShutdown(threadNum, max, run);
  }
}
