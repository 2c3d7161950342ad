/**
 What threadPoolAdd, the workers and the manager of pthread_pool2.0.c decide, in terms of the
 reachable state alone, and whose tasks are queued and taken.
 */
module ElasticTasks {
  import opened Bytes
  import opened CondVar
  import opened Totals
  import opened ElasticPool
  import opened ElasticSlots

  ghost predicate Distinct(xs: seq<nat>) {
    forall i, j :: 0 <= i < j < |xs| ==> xs[i] != xs[j]
  }

  // ---------------------------------------------------------------------
  // Each call's own task, once.
  // ---------------------------------------------------------------------

  /** The tasks accepted are those of the calls that have returned. */
  ghost predicate CallHistory(accepted: seq<nat>, calls: seq<Call>) {
    && Distinct(accepted)
    && forall c: nat :: c in accepted <==> c < |calls| && calls[c] == Returned
  }

  lemma SameReturned(accepted: seq<nat>, calls: seq<Call>, more: seq<Call>)
    requires CallHistory(accepted, calls) && |calls| <= |more|
    requires forall c :: 0 <= c < |more| ==> (more[c] == Returned <==> c < |calls| && calls[c] == Returned)
    ensures CallHistory(accepted, more)
  {
  }

  lemma OneReturns(accepted: seq<nat>, calls: seq<Call>, c: nat)
    requires CallHistory(accepted, calls) && c < |calls| && calls[c] != Returned
    ensures CallHistory(accepted + [c], calls[c := Returned])
  {
    assert c !in accepted;
  }

  lemma StepKeepsHistory(k: Config, s: State, step: Step)
    requires Enabled(k, s, step) && s.queueSize <= |s.queue| && |s.slots| == k.maxnum
    requires CallHistory(s.accepted, s.calls)
    ensures CallHistory(Apply(k, s, step).accepted, Apply(k, s, step).calls)
  {
    var t := Apply(k, s, step);
    if step.CallLocks? && s.queueSize != k.capacity {
      OneReturns(s.accepted, s.calls, step.c);
    } else {
      SameReturned(s.accepted, s.calls, t.calls);
    }
  }

  lemma {:induction false} RunKeepsHistory(k: Config, s: State, run: seq<Step>)
    requires Inv(k, s) && Legal(k, s, run) && CallHistory(s.accepted, s.calls)
    ensures CallHistory(After(k, s, run).accepted, After(k, s, run).calls)
    decreases |run|
  {
    if run == [] {
    } else {
      StepKeeps(k, s, run[0]);
      StepKeepsHistory(k, s, run[0]);
      RunKeepsHistory(k, Apply(k, s, run[0]), run[1..]);
    }
  }

  /**
   Over every run, in either reading: the tasks accepted are exactly those of the calls that have
   returned, each once, and every task taken is one of them and is taken once.
   */
  lemma EachTaskOnce(k: Config, run: seq<Step>)
    requires k.minnum <= k.maxnum && Legal(k, Start(k), run)
    ensures var s := After(k, Start(k), run);
      && Distinct(s.accepted) && (forall c: nat :: c in s.accepted <==> c < |s.calls| && s.calls[c] == Returned)
      && s.accepted == s.taken + s.queue
      && Distinct(s.taken) && (forall c :: c in s.taken ==> c < |s.calls| && s.calls[c] == Returned && c !in s.queue)
  {
    RunKeepsHistory(k, Start(k), run);
    AfterKeeps(k, Start(k), run);
    PartsOfDistinct(After(k, Start(k), run).taken, After(k, Start(k), run).queue);
  }

  lemma PartsOfDistinct(low: seq<nat>, high: seq<nat>)
    requires Distinct(low + high)
    ensures Distinct(low) && forall c :: c in low ==> c in low + high && c !in high
  {
    var all := low + high;
    assert forall i :: 0 <= i < |low| ==> low[i] == all[i];
    assert forall i :: 0 <= i < |high| ==> high[i] == all[|low| + i];
  }

  // ---------------------------------------------------------------------
  // What each section decides.
  // ---------------------------------------------------------------------

  ghost predicate Reachable(k: Config, s: State)
    requires k.minnum <= k.maxnum
  {
    exists run: seq<Step> :: Legal(k, Start(k), run) && After(k, Start(k), run) == s
  }

  lemma ReachableHolds(k: Config, s: State)
    requires k.minnum <= k.maxnum && Reachable(k, s)
    ensures s.queueSize <= |s.queue| && |s.slots| == k.maxnum
    ensures s.queueSize == if k.r == Meant then |s.queue| else 0
  {
    var run: seq<Step> :| Legal(k, Start(k), run) && After(k, Start(k), run) == s;
    AfterKeeps(k, Start(k), run);
  }

  /**
   threadPoolAdd: a call waits exactly if the queue is full, and otherwise returns with its own task
   queued last; the task that ends an empty queue wakes the workers that the signal chooses. As
   written the queue never counts as full unless there is no room at all, and livenum grows.
   */
  lemma AddAnswer(k: Config, s: State, c: nat, wakes: set<nat>)
    requires k.minnum <= k.maxnum && Reachable(k, s) && Enabled(k, s, CallLocks(c, wakes))
    ensures s.queueSize <= |s.queue| && |s.slots| == k.maxnum
    ensures var t := Apply(k, s, CallLocks(c, wakes));
      && |t.calls| == |s.calls| && (forall d :: 0 <= d < |s.calls| && d != c ==> t.calls[d] == s.calls[d])
      && (t.calls[c] == WaitsForRoom <==> k.capacity == if k.r == Meant then |s.queue| else 0)
      && (t.calls[c] == Returned <==> t.calls[c] != WaitsForRoom)
      && t.queue == (if t.calls[c] == Returned then s.queue + [c] else s.queue)
      && t.livenum == (if t.calls[c] == Returned && k.r == AsWritten then s.livenum + 1 else s.livenum)
    ensures var t := Apply(k, s, CallLocks(c, wakes));
      && t.threads.Keys == s.threads.Keys
      && (forall w :: w in s.threads ==>
            t.threads[w] == if t.calls[c] == Returned && s.queue == [] && w in wakes && s.threads[w] == Waits
                            then Woken else s.threads[w])
      && t.exitnum == s.exitnum && t.slots == s.slots && t.manager == s.manager && t.taken == s.taken
  {
    ReachableHolds(k, s);
  }

  /** The tests of the worker after its wait. */
  predicate Dismissed(k: Config, s: State, w: nat)
    requires w in s.threads
  {
    s.threads[w] == Woken && s.exitnum > 0 && s.livenum > k.minnum
  }

  lemma WorkerLockDecides(k: Config, s: State, w: nat, wakes: set<nat>)
    requires s.queueSize <= |s.queue| && w in s.threads && !s.threads[w].Leaving?
    ensures var t := WorkerLock(k, s, w, wakes);
      && t.threads.Keys == s.threads.Keys && (forall v :: v in s.threads && v != w ==> t.threads[v] == s.threads[v])
      && t.threads[w] == (if Dismissed(k, s, w) then Leaving(0) else if s.queueSize == 0 then Waits else Working)
      && (if !Dismissed(k, s, w) && s.queueSize > 0 then
            t.queue == s.queue[1..] && t.taken == s.taken + [s.queue[0]]
          else t.queue == s.queue && t.taken == s.taken)
  {
  }

  /**
   A worker leaves exactly if it returns from a wait into an order that the minimum allows, sleeps
   exactly if it stays and no task is counted, and otherwise takes the oldest task. As written no
   task is counted.
   */
  lemma WorkerAnswer(k: Config, s: State, w: nat, wakes: set<nat>)
    requires k.minnum <= k.maxnum && Reachable(k, s) && Enabled(k, s, WorkerLocks(w, wakes))
    ensures s.queueSize <= |s.queue| && |s.slots| == k.maxnum
    ensures var t := Apply(k, s, WorkerLocks(w, wakes));
      && t.threads.Keys == s.threads.Keys && (forall v :: v in s.threads && v != w ==> t.threads[v] == s.threads[v])
      && (t.threads[w] == Leaving(0) <==> Dismissed(k, s, w))
      && (t.threads[w] == Waits <==> !Dismissed(k, s, w) && (k.r == AsWritten || s.queue == []))
      && (t.threads[w] == Working <==> !Dismissed(k, s, w) && k.r == Meant && s.queue != [])
      && (if t.threads[w] == Working then t.queue == s.queue[1..] && t.taken == s.taken + [s.queue[0]]
          else t.queue == s.queue && t.taken == s.taken)
  {
    ReachableHolds(k, s);
    WorkerLockDecides(k, s, w, wakes);
  }

  /**
   What else the section changes: an order is used up even where the minimum forbids it, and a
   worker that takes a task wakes the producers that the signal chooses.
   */
  lemma WorkerAnswerRest(k: Config, s: State, w: nat, wakes: set<nat>)
    requires k.minnum <= k.maxnum && Reachable(k, s) && Enabled(k, s, WorkerLocks(w, wakes))
    ensures s.queueSize <= |s.queue| && |s.slots| == k.maxnum
    ensures var t := Apply(k, s, WorkerLocks(w, wakes));
      && t.exitnum == (if s.threads[w] == Woken && s.exitnum > 0 then s.exitnum - 1 else s.exitnum)
      && t.livenum == (if Dismissed(k, s, w) then s.livenum - 1 else s.livenum)
      && |t.calls| == |s.calls|
      && (forall c :: 0 <= c < |s.calls| ==>
            t.calls[c] == if t.threads[w] == Working && c in wakes && s.calls[c] == WaitsForRoom
                          then WokenForRoom else s.calls[c])
      && t.slots == s.slots && t.manager == s.manager && t.accepted == s.accepted
  {
    ReachableHolds(k, s);
  }

  /** A step by this worker. */
  predicate By(step: Step, w: nat) {
    (step.WorkerLocks? && step.w == w) || (step.WorkerFinishes? && step.w == w) || (step.WorkerScans? && step.w == w)
  }

  /**
   Who can move: the manager always; a worker that does not sleep, and a call that neither waits
   nor has returned, unless it is for the mutex and the manager holds that.
   */
  lemma WhoCanMove(k: Config, s: State)
    requires k.minnum <= k.maxnum && Reachable(k, s)
    ensures exists step: Step :: !step.BeginAdd? && !step.CallLocks? && Enabled(k, s, step)
    ensures forall w :: w in s.threads && s.threads[w] != Waits && (Free(s) || s.threads[w].Leaving?) ==>
      exists step: Step :: By(step, w) && Enabled(k, s, step)
    ensures forall c :: 0 <= c < |s.calls| && (s.calls[c] == Calling || s.calls[c] == WokenForRoom) && Free(s) ==>
      Enabled(k, s, CallLocks(c, Sleepers(s.threads)))
  {
    ManagerCanMove(k, s);
    forall w | w in s.threads && s.threads[w] != Waits && (Free(s) || s.threads[w].Leaving?)
      ensures exists step: Step :: By(step, w) && Enabled(k, s, step)
    {
      var step := match s.threads[w]
        case Working => WorkerFinishes(w)
        case Leaving(_) => WorkerScans(w)
        case _ => WorkerLocks(w, Waiters(s.calls, WaitsForRoom));
      assert By(step, w) && Enabled(k, s, step);
    }
  }

  lemma ManagerCanMove(k: Config, s: State)
    ensures exists step: Step :: !step.BeginAdd? && !step.CallLocks? && Enabled(k, s, step)
  {
    var tid := FreshId(s.threads.Keys);
    var step := match s.manager
      case Watching => ManagerLooks
      case Looked(_, _) => ManagerDecides
      case Creating(_, _, _) => ManagerCreates(tid)
      case Created(_, _) => ManagerTrims
      case Signalling(_) => ManagerSignals(Sleepers(s.threads));
    assert Enabled(k, s, step);
  }

  lemma {:induction false} FreshId(ids: set<nat>) returns (id: nat)
    ensures id != 0 && forall i :: i in ids ==> i < id
  {
    if ids == {} {
      id := 1;
    } else {
      var i :| i in ids;
      var rest := FreshId(ids - {i});
      id := if i < rest then rest else i + 1;
      assert forall j :: j in ids ==> j == i || j in ids - {i};
    }
  }

  // ---------------------------------------------------------------------
  // A round of the manager alone.
  // ---------------------------------------------------------------------

  /** The manager looks, creates and gives its orders while nobody else moves; a new thread in slot i is tids[i]. */
  ghost function ManagerRound(k: Config, s: State, tids: seq<nat>): (t: State)
    requires s.manager.Watching? && |s.slots| == |tids| == k.maxnum && s.queueSize <= |s.queue|
  {
    var looked := Apply(k, s, ManagerLooks);
    var decided := Apply(k, looked, ManagerDecides);
    var created := if decided.manager.Creating? then CreateAll(k, decided, tids) else decided;
    CreateAllEnds(k, decided, tids);
    Apply(k, created, ManagerTrims)
  }

  lemma {:induction false} CreateAllEnds(k: Config, s: State, tids: seq<nat>)
    requires |s.slots| == |tids| == k.maxnum
    ensures s.manager.Creating? ==>
      var t := CreateAll(k, s, tids);
      && t.manager == Created(s.manager.queueNum, s.manager.liveNum)
      && |t.slots| == k.maxnum && t.queue == s.queue && t.queueSize == s.queueSize && t.exitnum == s.exitnum
      && t.calls == s.calls && t.accepted == s.accepted && t.taken == s.taken
      && (forall w :: w in t.threads ==> t.threads[w] == Ready || (w in s.threads && t.threads[w] == s.threads[w]))
    decreases if s.manager.Creating? && s.manager.i <= k.maxnum then k.maxnum - s.manager.i else 0
  {
    if !s.manager.Creating? || s.manager.i >= k.maxnum {
    } else {
      CreateAllEnds(k, Create(k, s, s.manager, tids[s.manager.i]), tids);
    }
  }

  /** The slots that the creation loop examines: the first ones, as many as threads are missing. */
  function Examined(k: Config, s: State): int { Limit(k, s.queueSize, s.livenum) }

  /**
   Left alone, the manager creates one thread for each free slot among the first ones, as many of
   them as there are tasks without a thread, within the maximum; and it orders two dismissals
   exactly if the threads are more than twice the tasks and above the minimum.
   */
  lemma ManagerDecidesAlone(k: Config, s: State, tids: seq<nat>)
    requires s.manager.Watching? && |s.slots| == |tids| == k.maxnum && s.queueSize <= |s.queue|
    ensures var t := ManagerRound(k, s, tids);
      && t.livenum == s.livenum + (if Examined(k, s) > 0 then Count(s.slots[..Examined(k, s)], 0) else 0)
      && (if s.queueSize * 2 < s.livenum && s.livenum > k.minnum then t.exitnum == 2 && t.manager == Signalling(0)
          else t.exitnum == s.exitnum && t.manager == Watching)
      && t.queue == s.queue && t.queueSize == s.queueSize && t.calls == s.calls
      && (forall w :: w in t.threads ==> t.threads[w] == Ready || (w in s.threads && t.threads[w] == s.threads[w]))
  {
    var decided := Apply(k, Apply(k, s, ManagerLooks), ManagerDecides);
    CreateAllEnds(k, decided, tids);
    if decided.manager.Creating? {
      CreateAllCounts(k, decided, tids);
    }
  }

  lemma CountFree(slots: seq<nat>)
    ensures Count(slots, 0) > 0 <==> 0 in slots
  {
    if 0 in slots { CountSome(slots, 0); } else { CountNone(slots, 0); }
  }

  /**
   So it raises livenum exactly if tasks outnumber the threads, these are
   below the maximum, and one of the slots examined is free.
   */
  lemma ManagerCreatesIff(k: Config, s: State, tids: seq<nat>)
    requires s.manager.Watching? && |s.slots| == |tids| == k.maxnum && s.queueSize <= |s.queue|
    ensures ManagerRound(k, s, tids).livenum > s.livenum <==>
      && s.queueSize > s.livenum && s.livenum < k.maxnum
      && exists i :: 0 <= i < k.maxnum && i + s.livenum < s.queueSize && i + s.livenum < k.maxnum && s.slots[i] == 0
  {
    ManagerDecidesAlone(k, s, tids);
    if Examined(k, s) > 0 {
      CountFree(s.slots[..Examined(k, s)]);
    }
  }

  /** An order is two signals, each of which wakes a sleeper if there is one, whatever the scheduler chooses. */
  lemma SignalsWakeTwo(k: Config, s: State, first: set<nat>, second: set<nat>, third: set<nat>)
    requires |s.slots| == k.maxnum && s.queueSize <= |s.queue| && s.manager == Signalling(0) && s.exitnum == 2
    requires SignalChoice(first, Sleepers(s.threads))
    requires SignalChoice(second, Sleepers(s.threads) - first)
    requires SignalChoice(third, Sleepers(s.threads) - first - second)
    ensures Enabled(k, s, ManagerSignals(first))
    ensures Enabled(k, Apply(k, s, ManagerSignals(first)), ManagerSignals(second))
    ensures Enabled(k, Apply(k, Apply(k, s, ManagerSignals(first)), ManagerSignals(second)), ManagerSignals(third))
    ensures var one := Apply(k, s, ManagerSignals(first));
      var two := Apply(k, one, ManagerSignals(second));
      && Sleepers(one.threads) == Sleepers(s.threads) - first
      && Sleepers(two.threads) == Sleepers(s.threads) - first - second
      && (Sleepers(two.threads) != {} ==> |Sleepers(two.threads)| + 2 <= |Sleepers(s.threads)|)
      && Apply(k, two, ManagerSignals(third)) == two.(manager := Watching)
  {
    var one := Apply(k, s, ManagerSignals(first));
    var two := Apply(k, one, ManagerSignals(second));
    assert Sleepers(one.threads) == Sleepers(s.threads) - first;
    assert Sleepers(two.threads) == Sleepers(one.threads) - second;
    if Sleepers(two.threads) != {} {
      var a :| a in first;
      var b :| b in second;
      assert Sleepers(two.threads) <= Sleepers(s.threads) - {a, b};
      SubsetSize(Sleepers(two.threads), Sleepers(s.threads) - {a, b});
    }
  }

  lemma {:induction false} SubsetSize(low: set<nat>, high: set<nat>)
    requires low <= high
    ensures |low| <= |high|
  {
    if low == {} {
    } else {
      var x :| x in low;
      SubsetSize(low - {x}, high - {x});
    }
  }
}
