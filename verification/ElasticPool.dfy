/**
 The thread accounting of pthread_pool2.0.c: workers that the manager creates and dismisses
 on a snapshot of the counters that may be stale, and the array of their thread ids, whose
 slots the leaving workers clear without the mutex. Before shutdown; any number of tasks.

 threadPoolAdd increments `livenum` where `queueSize` is meant; both readings are modelled.
 */
module ElasticPool {
  import opened Bytes
  import opened Totals
  import opened CondVar

  datatype Config = Config(r: Reading, minnum: nat, maxnum: nat, capacity: nat)

  /** A leaving worker has given up its place in `livenum` and looks for its slot. */
  datatype Worker = Ready | Waits | Woken | Working | Leaving(scan: nat)

  datatype Call = Calling | WaitsForRoom | WokenForRoom | Returned

  /**
   The manager's loop, with the copies of queueSize and livenum that it
   works from. It holds the mutex while Creating.
   */
  datatype Manager =
    | Watching
    | Looked(queueNum: nat, liveNum: nat)
    | Creating(i: nat, queueNum: nat, liveNum: nat)
    | Created(queueNum: nat, liveNum: nat)
    | Signalling(i: nat)

  datatype State = State(
    queue: seq<nat>, queueSize: nat, livenum: nat, exitnum: nat,
    slots: seq<nat>, threads: map<nat, Worker>, manager: Manager, calls: seq<Call>,
    accepted: seq<nat>, taken: seq<nat>)

  datatype Step =
    | BeginAdd | SpuriousCall(c: nat) | SpuriousWorker(w: nat)
    | CallLocks(c: nat, wakes: set<nat>)
    | WorkerLocks(w: nat, wakes: set<nat>) | WorkerFinishes(w: nat) | WorkerScans(w: nat)
    | ManagerLooks | ManagerDecides | ManagerCreates(tid: nat) | ManagerTrims | ManagerSignals(wakes: set<nat>)

  function FirstThreads(n: nat): (threads: map<nat, Worker>)
    ensures forall t :: t in threads <==> 0 < t <= n
    ensures forall t :: t in threads ==> threads[t] == Ready
    ensures |threads| == n
  {
    if n == 0 then map[] else FirstThreads(n - 1)[n := Ready]
  }

  /** threadPoolInit has created the first workers; they sit in the first slots, thread w + 1 in slot w. */
  function Init(k: Config): State
    requires k.minnum <= k.maxnum
  {
    State([], 0, k.minnum, 0,
          seq(k.maxnum, i => if i < k.minnum then i + 1 else 0),
          FirstThreads(k.minnum),
          Watching, [], [], [])
  }

  function Sleepers(threads: map<nat, Worker>): set<nat> {
    set t | t in threads && threads[t] == Waits
  }

  function WakeThreads(threads: map<nat, Worker>, woken: set<nat>): map<nat, Worker> {
    map t | t in threads :: if t in woken && threads[t] == Waits then Woken else threads[t]
  }

  function WakeCalls(calls: seq<Call>, woken: set<nat>): seq<Call> {
    Awakened(calls, woken, WaitsForRoom, WokenForRoom)
  }

  predicate Free(s: State) { !s.manager.Creating? }

  predicate Enabled(k: Config, s: State, step: Step) {
    match step
    case BeginAdd => true
    case SpuriousCall(c) => c in Waiters(s.calls, WaitsForRoom)
    case SpuriousWorker(w) => w in Sleepers(s.threads)
    case CallLocks(c, wakes) =>
      && Free(s) && c < |s.calls| && (s.calls[c] == Calling || s.calls[c] == WokenForRoom)
      && SignalChoice(wakes, Sleepers(s.threads))
    case WorkerLocks(w, wakes) =>
      && Free(s) && w in s.threads && (s.threads[w] == Ready || s.threads[w] == Woken)
      && SignalChoice(wakes, Waiters(s.calls, WaitsForRoom))
    case WorkerFinishes(w) => w in s.threads && s.threads[w] == Working
    case WorkerScans(w) => w in s.threads && s.threads[w].Leaving?
    case ManagerLooks => s.manager.Watching?
    case ManagerDecides => s.manager.Looked?
    case ManagerCreates(tid) => s.manager.Creating? && tid != 0 && tid !in s.threads
    case ManagerTrims => s.manager.Created?
    case ManagerSignals(wakes) => s.manager.Signalling? && SignalChoice(wakes, Sleepers(s.threads))
  }

  function CallLock(k: Config, s: State, c: nat, wakes: set<nat>): State
    requires c < |s.calls|
  {
    if s.queueSize == k.capacity then s.(calls := s.calls[c := WaitsForRoom])
    else
      s.(queue := s.queue + [c], accepted := s.accepted + [c], calls := s.calls[c := Returned],
         threads := if s.queue == [] then WakeThreads(s.threads, wakes) else s.threads,
         queueSize := if k.r == Meant then s.queueSize + 1 else s.queueSize,
         livenum := if k.r == Meant then s.livenum else s.livenum + 1)
  }

  /** From a test of the queue on: take a task, or sleep. */
  function Take(s: State, w: nat, wakes: set<nat>): State
    requires s.queueSize <= |s.queue|
  {
    if s.queueSize == 0 then s.(threads := s.threads[w := Waits])
    else
      s.(queue := s.queue[1..], taken := s.taken + [s.queue[0]], queueSize := s.queueSize - 1,
         threads := s.threads[w := Working], calls := WakeCalls(s.calls, wakes))
  }

  /** A worker that returns from its wait may have to leave; otherwise it tests the queue. */
  function WorkerLock(k: Config, s: State, w: nat, wakes: set<nat>): State
    requires w in s.threads && s.queueSize <= |s.queue|
  {
    if s.threads[w] == Woken && s.exitnum > 0 then
      if s.livenum > k.minnum then
        s.(exitnum := s.exitnum - 1, livenum := s.livenum - 1, threads := s.threads[w := Leaving(0)])
      else Take(s.(exitnum := s.exitnum - 1), w, wakes)
    else Take(s, w, wakes)
  }

  /** One round of the loop of threadExit, which does not lock. */
  function Scan(s: State, w: nat, at: nat): State {
    if at < |s.slots| && s.slots[at] != w then s.(threads := s.threads[w := Leaving(at + 1)])
    else if at < |s.slots| then s.(slots := s.slots[at := 0], threads := s.threads - {w})
    else s.(threads := s.threads - {w})
  }

  /** One round of the manager's creation loop. */
  function Create(k: Config, s: State, m: Manager, tid: nat): State
    requires m.Creating? && |s.slots| == k.maxnum
  {
    if m.i + m.liveNum < m.queueNum && m.i + m.liveNum < k.maxnum then
      var next := s.(manager := m.(i := m.i + 1));
      if s.slots[m.i] != 0 then next
      else next.(slots := s.slots[m.i := tid], threads := s.threads[tid := Ready], livenum := s.livenum + 1)
    else s.(manager := Created(m.queueNum, m.liveNum))
  }

  function Apply(k: Config, s: State, step: Step): State
    requires Enabled(k, s, step) && s.queueSize <= |s.queue| && |s.slots| == k.maxnum
  {
    match step
    case BeginAdd => s.(calls := s.calls + [Calling])
    case SpuriousCall(c) => s.(calls := s.calls[c := WokenForRoom])
    case SpuriousWorker(w) => s.(threads := s.threads[w := Woken])
    case CallLocks(c, wakes) => CallLock(k, s, c, wakes)
    case WorkerLocks(w, wakes) => WorkerLock(k, s, w, wakes)
    case WorkerFinishes(w) => s.(threads := s.threads[w := Ready])
    case WorkerScans(w) => Scan(s, w, s.threads[w].scan)
    case ManagerLooks => s.(manager := Looked(s.queueSize, s.livenum))
    case ManagerDecides =>
      var m := s.manager;
      s.(manager := if m.queueNum > m.liveNum && m.liveNum < k.maxnum then Creating(0, m.queueNum, m.liveNum)
                    else Created(m.queueNum, m.liveNum))
    case ManagerCreates(tid) => Create(k, s, s.manager, tid)
    case ManagerTrims =>
      if s.manager.queueNum * 2 < s.manager.liveNum && s.manager.liveNum > k.minnum then
        s.(exitnum := 2, manager := Signalling(0))
      else s.(manager := Watching)
    case ManagerSignals(wakes) =>
      if s.manager.i < s.exitnum then
        s.(manager := Signalling(s.manager.i + 1), threads := WakeThreads(s.threads, wakes))
      else s.(manager := Watching)
  }

  // ---------------------------------------------------------------------
  // What every step keeps.
  // ---------------------------------------------------------------------

  /** Where a thread's slot can still be. */
  function From(w: Worker): nat { if w.Leaving? then w.scan else 0 }

  ghost predicate HasSlot(slots: seq<nat>, t: nat, from: nat) {
    exists i :: from <= i < |slots| && slots[i] == t
  }

  /** Every thread owns a slot, at or after the place where it looks, and no slot has a stranger in it. */
  ghost predicate SlotInv(k: Config, slots: seq<nat>, threads: map<nat, Worker>) {
    && |slots| == k.maxnum && 0 !in threads
    && (forall i :: 0 <= i < |slots| && slots[i] != 0 ==> slots[i] in threads)
    && (forall i, j :: 0 <= i < j < |slots| && slots[i] != 0 ==> slots[i] != slots[j])
    && (forall t :: t in threads ==> HasSlot(slots, t, From(threads[t])))
  }

  function Occupied(slots: seq<nat>): set<nat> {
    set i: nat | i < |slots| && slots[i] != 0
  }

  function Active(threads: map<nat, Worker>): set<nat> {
    set t | t in threads && !threads[t].Leaving?
  }

  ghost predicate QueueInv(k: Config, s: State) {
    && s.queueSize <= |s.queue|
    && (k.r == Meant ==> s.queueSize == |s.queue| <= k.capacity)
    && s.accepted == s.taken + s.queue
    && s.exitnum <= 2
    && (k.r == AsWritten ==> s.queueSize == 0 && s.taken == [])
  }

  /** The manager's copy of livenum is never below the real one, but for the threads it has created since. */
  ghost predicate CountInv(k: Config, s: State) {
    k.r == Meant ==>
      && s.livenum == |Active(s.threads)|
      && k.minnum <= s.livenum <= k.maxnum
      && (s.manager.Looked? ==> s.livenum <= s.manager.liveNum)
      && (s.manager.Creating? ==>
            s.livenum <= s.manager.liveNum + s.manager.i && s.manager.liveNum + s.manager.i <= k.maxnum)
  }

  ghost predicate RoomInv(k: Config, s: State) {
    k.r == Meant && WaitsForRoom in s.calls ==> k.capacity <= s.queueSize + Count(s.calls, WokenForRoom)
  }

  ghost predicate Inv(k: Config, s: State) {
    && SlotInv(k, s.slots, s.threads) && |Occupied(s.slots)| == |s.threads|
    && QueueInv(k, s) && CountInv(k, s) && RoomInv(k, s)
  }

  lemma SameThreads(k: Config, slots: seq<nat>, threads: map<nat, Worker>, more: map<nat, Worker>)
    requires SlotInv(k, slots, threads) && more.Keys == threads.Keys
    requires forall t :: t in threads ==> From(more[t]) <= From(threads[t])
    ensures SlotInv(k, slots, more) && |more| == |threads|
  {
    assert |more.Keys| == |threads.Keys|;
    forall t | t in more ensures HasSlot(slots, t, From(more[t])) {
      assert HasSlot(slots, t, From(threads[t]));
    }
  }

  lemma WakingKeepsSlots(k: Config, slots: seq<nat>, threads: map<nat, Worker>, woken: set<nat>)
    requires SlotInv(k, slots, threads)
    ensures SlotInv(k, slots, WakeThreads(threads, woken))
    ensures |WakeThreads(threads, woken)| == |threads|
    ensures Active(WakeThreads(threads, woken)) == Active(threads)
  {
    SameThreads(k, slots, threads, WakeThreads(threads, woken));
  }

  /** A thread changes state without leaving, or starts to look for its slot at the first one. */
  lemma ThreadMoves(k: Config, slots: seq<nat>, threads: map<nat, Worker>, w: nat, v: Worker)
    requires SlotInv(k, slots, threads) && w in threads && !threads[w].Leaving? && From(v) == 0
    ensures SlotInv(k, slots, threads[w := v])
    ensures |threads[w := v]| == |threads|
    ensures Active(threads[w := v]) == if v.Leaving? then Active(threads) - {w} else Active(threads)
  {
    assert threads[w := v].Keys == threads.Keys;
    SameThreads(k, slots, threads, threads[w := v]);
  }

  lemma CallLockKeepsRoom(k: Config, s: State, c: nat, wakes: set<nat>)
    requires Inv(k, s) && Enabled(k, s, CallLocks(c, wakes))
    ensures RoomInv(k, CallLock(k, s, c, wakes))
  {
    var t := CallLock(k, s, c, wakes);
    CountUpdate(s.calls, c, t.calls[c], WokenForRoom);
    if s.queueSize != k.capacity && WaitsForRoom in t.calls {
      var d :| 0 <= d < |t.calls| && t.calls[d] == WaitsForRoom;
      assert s.calls[d] == WaitsForRoom;
    }
  }

  lemma CallLockKeeps(k: Config, s: State, c: nat, wakes: set<nat>)
    requires Inv(k, s) && Enabled(k, s, CallLocks(c, wakes))
    ensures Inv(k, CallLock(k, s, c, wakes))
  {
    CallLockKeepsRoom(k, s, c, wakes);
    CallLockKeepsQueue(k, s, c, wakes);
    WakingKeepsSlots(k, s.slots, s.threads, wakes);
  }

  lemma CallLockKeepsQueue(k: Config, s: State, c: nat, wakes: set<nat>)
    requires QueueInv(k, s) && c < |s.calls|
    ensures QueueInv(k, CallLock(k, s, c, wakes))
  {
    assert s.taken + (s.queue + [c]) == s.taken + s.queue + [c];
  }

  /** Taking a task signals a blocked producer, which is one more to be counted as woken. */
  lemma WakingCalls(calls: seq<Call>, wakes: set<nat>)
    requires SignalChoice(wakes, Waiters(calls, WaitsForRoom)) && WaitsForRoom in WakeCalls(calls, wakes)
    ensures WaitsForRoom in calls
    ensures Count(WakeCalls(calls, wakes), WokenForRoom) > Count(calls, WokenForRoom)
  {
    var d :| 0 <= d < |calls| && WakeCalls(calls, wakes)[d] == WaitsForRoom;
    assert d in Waiters(calls, WaitsForRoom);
    WakeCounts(calls, wakes, WaitsForRoom, WokenForRoom);
  }

  lemma TakeKeepsRoom(k: Config, s: State, w: nat, wakes: set<nat>)
    requires QueueInv(k, s) && RoomInv(k, s) && SignalChoice(wakes, Waiters(s.calls, WaitsForRoom))
    ensures QueueInv(k, Take(s, w, wakes)) && RoomInv(k, Take(s, w, wakes))
  {
    if s.queueSize > 0 {
      assert s.taken + [s.queue[0]] + s.queue[1..] == s.taken + s.queue;
      if WaitsForRoom in WakeCalls(s.calls, wakes) { WakingCalls(s.calls, wakes); }
    }
  }

  lemma TakeKeeps(k: Config, s: State, w: nat, wakes: set<nat>)
    requires Inv(k, s) && w in s.threads && !s.threads[w].Leaving?
    requires SignalChoice(wakes, Waiters(s.calls, WaitsForRoom))
    ensures Inv(k, Take(s, w, wakes))
  {
    TakeKeepsRoom(k, s, w, wakes);
    ThreadMoves(k, s.slots, s.threads, w, if s.queueSize == 0 then Waits else Working);
  }

  lemma DismissKeeps(k: Config, s: State, w: nat)
    requires Inv(k, s) && w in s.threads && !s.threads[w].Leaving? && s.exitnum > 0 && s.livenum > k.minnum
    ensures Inv(k, s.(exitnum := s.exitnum - 1, livenum := s.livenum - 1, threads := s.threads[w := Leaving(0)]))
  {
    ThreadMoves(k, s.slots, s.threads, w, Leaving(0));
  }

  lemma OrderDroppedKeeps(k: Config, s: State)
    requires Inv(k, s) && s.exitnum > 0
    ensures Inv(k, s.(exitnum := s.exitnum - 1))
  {
  }

  lemma WorkerLockKeeps(k: Config, s: State, w: nat, wakes: set<nat>)
    requires Inv(k, s) && Enabled(k, s, WorkerLocks(w, wakes))
    ensures Inv(k, WorkerLock(k, s, w, wakes))
  {
    if s.threads[w] == Woken && s.exitnum > 0 {
      if s.livenum > k.minnum {
        DismissKeeps(k, s, w);
      } else {
        OrderDroppedKeeps(k, s);
        TakeKeeps(k, s.(exitnum := s.exitnum - 1), w, wakes);
      }
    } else {
      TakeKeeps(k, s, w, wakes);
    }
  }

  /** A slot is written: the other threads keep theirs. */
  lemma OthersKeepSlot(slots: seq<nat>, at: nat, v: nat, t: nat, from: nat)
    requires at < |slots| && HasSlot(slots, t, from) && slots[at] != t
    ensures HasSlot(slots[at := v], t, from)
  {
    var i :| from <= i < |slots| && slots[i] == t;
    assert slots[at := v][i] == t;
  }

  lemma ScanOn(k: Config, slots: seq<nat>, threads: map<nat, Worker>, w: nat, at: nat)
    requires SlotInv(k, slots, threads) && w in threads && threads[w] == Leaving(at)
    requires at < |slots| && slots[at] != w
    ensures var more := threads[w := Leaving(at + 1)];
      SlotInv(k, slots, more) && |more| == |threads| && Active(more) == Active(threads)
  {
    var more := threads[w := Leaving(at + 1)];
    assert more.Keys == threads.Keys;
    assert |more.Keys| == |threads.Keys|;
    forall t | t in more ensures HasSlot(slots, t, From(more[t])) {
      assert HasSlot(slots, t, From(threads[t]));
    }
  }

  lemma SlotCleared(k: Config, slots: seq<nat>, threads: map<nat, Worker>, w: nat, at: nat)
    requires SlotInv(k, slots, threads) && w in threads && threads[w].Leaving?
    requires at < |slots| && slots[at] == w
    ensures SlotInv(k, slots[at := 0], threads - {w})
    ensures |threads - {w}| == |threads| - 1
    ensures Active(threads - {w}) == Active(threads)
  {
    var more := threads - {w};
    assert more.Keys == threads.Keys - {w};
    assert |more.Keys| == |more| && |threads.Keys| == |threads|;
    forall t | t in more ensures HasSlot(slots[at := 0], t, From(more[t])) {
      OthersKeepSlot(slots, at, 0, t, From(threads[t]));
    }
  }

  lemma SlotFilled(k: Config, slots: seq<nat>, threads: map<nat, Worker>, tid: nat, at: nat)
    requires SlotInv(k, slots, threads) && tid !in threads && tid != 0
    requires at < |slots| && slots[at] == 0
    ensures SlotInv(k, slots[at := tid], threads[tid := Ready])
  {
    var more := threads[tid := Ready];
    assert slots[at := tid][at] == tid;
    forall t | t in more ensures HasSlot(slots[at := tid], t, From(more[t])) {
      if t != tid { OthersKeepSlot(slots, at, tid, t, From(threads[t])); }
    }
  }

  lemma OccupiedUpdate(slots: seq<nat>, at: nat, v: nat)
    requires at < |slots| && (slots[at] == 0) != (v == 0)
    ensures |Occupied(slots[at := v])| == if v == 0 then |Occupied(slots)| - 1 else |Occupied(slots)| + 1
  {
    if v == 0 {
      assert Occupied(slots[at := v]) == Occupied(slots) - {at};
    } else {
      assert Occupied(slots[at := v]) == Occupied(slots) + {at};
    }
  }

  lemma ThreadAdded(threads: map<nat, Worker>, tid: nat)
    requires tid !in threads
    ensures |threads[tid := Ready]| == |threads| + 1
    ensures |Active(threads[tid := Ready])| == |Active(threads)| + 1
  {
    assert threads[tid := Ready].Keys == threads.Keys + {tid};
    assert Active(threads[tid := Ready]) == Active(threads) + {tid};
  }

  /** The search of a leaving worker always ends at its own slot. */
  lemma ScanKeeps(k: Config, s: State, w: nat)
    requires Inv(k, s) && Enabled(k, s, WorkerScans(w))
    ensures s.threads[w].scan < |s.slots|
    ensures Inv(k, Scan(s, w, s.threads[w].scan))
  {
    var at := s.threads[w].scan;
    assert HasSlot(s.slots, w, at);
    if s.slots[at] != w {
      ScanOn(k, s.slots, s.threads, w, at);
    } else {
      SlotCleared(k, s.slots, s.threads, w, at);
      OccupiedUpdate(s.slots, at, 0);
    }
  }

  lemma CreateKeeps(k: Config, s: State, tid: nat)
    requires Inv(k, s) && Enabled(k, s, ManagerCreates(tid))
    ensures Inv(k, Create(k, s, s.manager, tid))
  {
    var i := s.manager.i;
    if i + s.manager.liveNum < s.manager.queueNum && i + s.manager.liveNum < k.maxnum && s.slots[i] == 0 {
      SlotFilled(k, s.slots, s.threads, tid, i);
      ThreadAdded(s.threads, tid);
      OccupiedUpdate(s.slots, i, tid);
    }
  }

  lemma BeginAddKeeps(k: Config, s: State)
    requires Inv(k, s)
    ensures Inv(k, Apply(k, s, BeginAdd))
  {
    TotalAppend(Marks(s.calls, WokenForRoom), 0);
    assert Marks(s.calls + [Calling], WokenForRoom) == Marks(s.calls, WokenForRoom) + [0];
  }

  lemma ManagerKeeps(k: Config, s: State, step: Step)
    requires Inv(k, s) && Enabled(k, s, step) && (step.ManagerLooks? || step.ManagerDecides? || step.ManagerTrims?)
    ensures Inv(k, Apply(k, s, step))
  {
  }

  lemma StepKeeps(k: Config, s: State, step: Step)
    requires Inv(k, s) && Enabled(k, s, step)
    ensures Inv(k, Apply(k, s, step))
  {
    match step
    case BeginAdd => BeginAddKeeps(k, s);
    case SpuriousCall(c) => CountUpdate(s.calls, c, WokenForRoom, WokenForRoom);
    case SpuriousWorker(w) => ThreadMoves(k, s.slots, s.threads, w, Woken);
    case CallLocks(c, wakes) => CallLockKeeps(k, s, c, wakes);
    case WorkerLocks(w, wakes) => WorkerLockKeeps(k, s, w, wakes);
    case WorkerFinishes(w) => ThreadMoves(k, s.slots, s.threads, w, Ready);
    case WorkerScans(w) => ScanKeeps(k, s, w);
    case ManagerLooks => ManagerKeeps(k, s, step);
    case ManagerDecides => ManagerKeeps(k, s, step);
    case ManagerCreates(tid) => CreateKeeps(k, s, tid);
    case ManagerTrims => ManagerKeeps(k, s, step);
    case ManagerSignals(wakes) => WakingKeepsSlots(k, s.slots, s.threads, wakes);
  }

  ghost predicate Legal(k: Config, s: State, run: seq<Step>)
    requires Inv(k, s)
    decreases |run|
  {
    run == [] || (Enabled(k, s, run[0]) && (StepKeeps(k, s, run[0]); Legal(k, Apply(k, s, run[0]), run[1..])))
  }

  ghost function After(k: Config, s: State, run: seq<Step>): State
    requires Inv(k, s) && Legal(k, s, run)
    decreases |run|
  {
    if run == [] then s else
      StepKeeps(k, s, run[0]);
      After(k, Apply(k, s, run[0]), run[1..])
  }

  lemma {:induction false} AfterKeeps(k: Config, s: State, run: seq<Step>)
    requires Inv(k, s) && Legal(k, s, run)
    ensures Inv(k, After(k, s, run))
    decreases |run|
  {
    if run == [] {
    } else {
      StepKeeps(k, s, run[0]);
      AfterKeeps(k, Apply(k, s, run[0]), run[1..]);
    }
  }

  lemma InitInv(k: Config)
    requires k.minnum <= k.maxnum
    ensures Inv(k, Init(k))
  {
    var s := Init(k);
    forall t | t in s.threads ensures HasSlot(s.slots, t, From(s.threads[t])) {
      assert s.slots[t - 1] == t;
    }
    assert Active(s.threads) == s.threads.Keys;
    FirstSlots(k.minnum, k.maxnum);
  }

  lemma {:induction false} FirstSlots(n: nat, max: nat)
    requires n <= max
    ensures |Occupied(seq(max, i => if i < n then i + 1 else 0))| == n
  {
    if n == 0 {
      assert Occupied(seq(max, i => if i < n then i + 1 else 0)) == {};
    } else {
      FirstSlots(n - 1, max);
      var fewer := seq(max, i => if i < n - 1 then i + 1 else 0);
      OccupiedUpdate(fewer, n - 1, n);
      assert seq(max, i => if i < n then i + 1 else 0) == fewer[n - 1 := n];
    }
  }

  ghost function Start(k: Config): (s: State)
    requires k.minnum <= k.maxnum
    ensures Inv(k, s)
  {
    InitInv(k);
    Init(k)
  }

  // ---------------------------------------------------------------------
  // Every run.
  // ---------------------------------------------------------------------

  /** The thread count stays within its bounds, although the manager works from a stale copy. */
  lemma CountStaysInBounds(k: Config, run: seq<Step>)
    requires k.r == Meant && k.minnum <= k.maxnum
    requires Legal(k, Start(k), run)
    ensures var s := After(k, Start(k), run);
      && k.minnum <= s.livenum <= k.maxnum
      && s.livenum == |Active(s.threads)|
      && 0 <= s.exitnum <= 2
      && (s.manager.Looked? ==> s.livenum <= s.manager.liveNum)
  {
    AfterKeeps(k, Start(k), run);
  }

  function LeavingSet(threads: map<nat, Worker>): set<nat> {
    set t | t in threads && threads[t].Leaving?
  }

  lemma ThreadsSplit(threads: map<nat, Worker>)
    ensures |threads| == |Active(threads)| + |LeavingSet(threads)|
  {
    assert threads.Keys == Active(threads) + LeavingSet(threads);
    assert |threads.Keys| == |threads|;
  }

  lemma SlotsAreThreads(k: Config, slots: seq<nat>, threads: map<nat, Worker>)
    requires SlotInv(k, slots, threads)
    ensures forall t :: t in threads <==> t != 0 && t in slots
  {
    forall t | t in threads ensures t in slots {
      assert HasSlot(slots, t, From(threads[t]));
    }
  }

  /** The search of threadExit never runs past the array. */
  lemma SearchEndsAtOwnSlot(k: Config, s: State, w: nat)
    requires Inv(k, s) && w in s.threads && s.threads[w].Leaving?
    ensures s.threads[w].scan < |s.slots| && exists i :: s.threads[w].scan <= i < |s.slots| && s.slots[i] == w
  {
    assert HasSlot(s.slots, w, s.threads[w].scan);
  }

  /**
   The occupied slots number exactly livenum and the workers that still look for theirs; each
   has one owner; and what a leaving worker looks for is still ahead of it in the array.
   */
  lemma SlotAccounting(k: Config, run: seq<Step>)
    requires k.r == Meant && k.minnum <= k.maxnum
    requires Legal(k, Start(k), run)
    ensures var s := After(k, Start(k), run);
      && |Occupied(s.slots)| == s.livenum + |LeavingSet(s.threads)|
      && (forall i, j :: 0 <= i < j < |s.slots| && s.slots[i] != 0 ==> s.slots[i] != s.slots[j])
      && (forall t :: t in s.threads <==> t != 0 && t in s.slots)
      && (forall w :: w in LeavingSet(s.threads) ==>
            s.threads[w].scan < |s.slots| && exists i :: s.threads[w].scan <= i < |s.slots| && s.slots[i] == w)
  {
    AfterKeeps(k, Start(k), run);
    var s := After(k, Start(k), run);
    ThreadsSplit(s.threads);
    SlotsAreThreads(k, s.slots, s.threads);
    forall w | w in LeavingSet(s.threads)
      ensures s.threads[w].scan < |s.slots| && exists i :: s.threads[w].scan <= i < |s.slots| && s.slots[i] == w
    {
      SearchEndsAtOwnSlot(k, s, w);
    }
  }

  /** A slot changes only when it is free, or when its owner clears it on its way out. */
  lemma LiveSlotNotOverwritten(k: Config, s: State, step: Step, i: nat)
    requires Inv(k, s) && Enabled(k, s, step) && i < |s.slots| && s.slots[i] != 0
    ensures Apply(k, s, step).slots[i] == s.slots[i]
         || (step == WorkerScans(s.slots[i]) && Apply(k, s, step).slots[i] == 0
             && s.slots[i] !in Apply(k, s, step).threads)
  {
  }

  /**
   A worker gives up its place only on its way out of a wait, only against
   the manager's order, and never below the minimum.
   */
  lemma DismissalRule(k: Config, s: State, step: Step, w: nat)
    requires Enabled(k, s, step) && s.queueSize <= |s.queue| && |s.slots| == k.maxnum
    requires w in s.threads && !s.threads[w].Leaving?
    ensures w in Apply(k, s, step).threads
    ensures Apply(k, s, step).threads[w].Leaving? <==>
      step.WorkerLocks? && step.w == w && s.threads[w] == Woken && s.exitnum > 0 && s.livenum > k.minnum
    ensures var t := Apply(k, s, step);
      t.threads[w].Leaving? ==> t.livenum == s.livenum - 1 && t.exitnum == s.exitnum - 1 && t.queue == s.queue
  {
    match step
    case CallLocks(c, wakes) => assert w in WakeThreads(s.threads, wakes);
    case ManagerSignals(wakes) => assert w in WakeThreads(s.threads, wakes);
    case _ =>
  }

  /** The workers that give up their place in a step, and the ones that appear. */
  function NewLeavers(s: State, t: State): set<nat> { LeavingSet(t.threads) - LeavingSet(s.threads) }

  function NewThreads(s: State, t: State): set<nat> { t.threads.Keys - s.threads.Keys }

  /** The manager sets exitnum, and turns to signalling. */
  function Orders(s: State, t: State): nat { if t.manager.Signalling? && !s.manager.Signalling? then 1 else 0 }

  ghost predicate Balanced(s: State, t: State) {
    && t.livenum + |NewLeavers(s, t)| == s.livenum + |NewThreads(s, t)|
    && t.exitnum + |NewLeavers(s, t)| <= s.exitnum + 2 * Orders(s, t)
  }

  lemma WorkerLockBalance(k: Config, s: State, w: nat, wakes: set<nat>)
    requires s.queueSize <= |s.queue| && w in s.threads && !s.threads[w].Leaving?
    ensures Balanced(s, WorkerLock(k, s, w, wakes))
  {
    var t := WorkerLock(k, s, w, wakes);
    assert NewThreads(s, t) == {};
    assert NewLeavers(s, t) == if t.threads[w].Leaving? then {w} else {};
  }

  lemma CreateBalance(k: Config, s: State, tid: nat)
    requires s.manager.Creating? && |s.slots| == k.maxnum && tid !in s.threads
    ensures Balanced(s, Create(k, s, s.manager, tid))
  {
    var t := Create(k, s, s.manager, tid);
    assert NewLeavers(s, t) == {};
    assert NewThreads(s, t) == if tid in t.threads then {tid} else {};
  }

  lemma ScanBalance(s: State, w: nat, at: nat)
    requires w in s.threads && s.threads[w].Leaving?
    ensures Balanced(s, Scan(s, w, at))
  {
    assert NewLeavers(s, Scan(s, w, at)) == {} && NewThreads(s, Scan(s, w, at)) == {};
  }

  /** The steps that neither dismiss nor create. */
  lemma OtherBalance(k: Config, s: State, step: Step)
    requires k.r == Meant && Enabled(k, s, step) && s.queueSize <= |s.queue| && |s.slots| == k.maxnum
    requires !step.WorkerLocks? && !step.WorkerScans? && !step.ManagerCreates?
    ensures Balanced(s, Apply(k, s, step))
  {
    var t := Apply(k, s, step);
    assert t.threads.Keys == s.threads.Keys;
    forall w | w in s.threads && !s.threads[w].Leaving? ensures !t.threads[w].Leaving? {
      DismissalRule(k, s, step, w);
    }
    assert NewLeavers(s, t) == {} && NewThreads(s, t) == {};
  }

  /** Every worker that leaves has been ordered to, and livenum follows who leaves and who appears. */
  lemma StepBalance(k: Config, s: State, step: Step)
    requires k.r == Meant && Enabled(k, s, step) && s.queueSize <= |s.queue| && |s.slots| == k.maxnum
    ensures Balanced(s, Apply(k, s, step))
  {
    match step
    case WorkerLocks(w, wakes) => WorkerLockBalance(k, s, w, wakes);
    case WorkerScans(w) => ScanBalance(s, w, s.threads[w].scan);
    case ManagerCreates(tid) => CreateBalance(k, s, tid);
    case _ => OtherBalance(k, s, step);
  }

  /**
   How many workers have given up their place in a run, how many have
   appeared, and how often the manager has asked for two to go.
   */
  ghost function Tally(k: Config, s: State, run: seq<Step>): (n: (nat, nat, nat))
    requires Inv(k, s) && Legal(k, s, run)
    decreases |run|
  {
    if run == [] then (0, 0, 0) else
      StepKeeps(k, s, run[0]);
      var t := Apply(k, s, run[0]);
      var n := Tally(k, t, run[1..]);
      (n.0 + |NewLeavers(s, t)|, n.1 + |NewThreads(s, t)|, n.2 + Orders(s, t))
  }

  lemma {:induction false} TallyBalance(k: Config, s: State, run: seq<Step>)
    requires k.r == Meant && Inv(k, s) && Legal(k, s, run)
    ensures var (t, n) := (After(k, s, run), Tally(k, s, run));
      && t.livenum + n.0 == s.livenum + n.1
      && t.exitnum + n.0 <= s.exitnum + 2 * n.2
    decreases |run|
  {
    if run == [] {
    } else {
      StepKeeps(k, s, run[0]);
      StepBalance(k, s, run[0]);
      TallyBalance(k, Apply(k, s, run[0]), run[1..]);
    }
  }

  /**
   Over every run: livenum is the minimum and the workers created, less those dismissed; and
   no more are dismissed than two for each order, less what exitnum still asks for.
   */
  lemma DismissalsAreOrdered(k: Config, run: seq<Step>)
    requires k.r == Meant && k.minnum <= k.maxnum
    requires Legal(k, Start(k), run)
    ensures var s := After(k, Start(k), run);
      var (dismissed, created, orders) := Tally(k, Start(k), run);
      && s.livenum + dismissed == k.minnum + created
      && dismissed + s.exitnum <= 2 * orders
  {
    TallyBalance(k, Start(k), run);
  }

  /** Tasks are taken first in, first out, and a blocked producer is never left alone with free room. */
  lemma TasksInOrder(k: Config, run: seq<Step>)
    requires k.r == Meant && k.minnum <= k.maxnum
    requires Legal(k, Start(k), run)
    ensures var s := After(k, Start(k), run);
      && s.accepted == s.taken + s.queue && |s.queue| == s.queueSize <= k.capacity
      && (WaitsForRoom in s.calls ==> k.capacity - s.queueSize <= Count(s.calls, WokenForRoom))
  {
    AfterKeeps(k, Start(k), run);
  }

  /** As written, nothing ever counts a task, so none is ever taken. */
  lemma AsWrittenTakesNothing(k: Config, run: seq<Step>)
    requires k.r == AsWritten && k.minnum <= k.maxnum
    requires Legal(k, Start(k), run)
    ensures var s := After(k, Start(k), run);
      s.taken == [] && s.queueSize == 0 && s.queue == s.accepted
  {
    AfterKeeps(k, Start(k), run);
  }

  lemma AfterOne(k: Config, s: State, step: Step, rest: seq<Step>)
    requires Inv(k, s) && Enabled(k, s, step)
    ensures Inv(k, Apply(k, s, step))
    ensures Legal(k, s, [step] + rest) <==> Legal(k, Apply(k, s, step), rest)
    ensures Legal(k, s, [step] + rest) ==> After(k, s, [step] + rest) == After(k, Apply(k, s, step), rest)
  {
    StepKeeps(k, s, step);
    assert ([step] + rest)[1..] == rest;
  }

  /** As written, one more task counts as one more thread. */
  lemma AsWrittenCountsOne(k: Config, s: State) returns (t: State, add: Step)
    requires k.r == AsWritten && k.capacity != 0 && Inv(k, s) && Free(s)
    ensures Enabled(k, s, BeginAdd) && Inv(k, Apply(k, s, BeginAdd)) && Enabled(k, Apply(k, s, BeginAdd), add)
    ensures Inv(k, t) && Free(t) && t == Apply(k, Apply(k, s, BeginAdd), add) && t.livenum == s.livenum + 1
  {
    StepKeeps(k, s, BeginAdd);
    add := CallLocks(|s.calls|, Sleepers(s.threads));
    t := Apply(k, s, BeginAdd);
    StepKeeps(k, t, add);
    t := Apply(k, t, add);
  }

  lemma {:induction false} AsWrittenCountsMore(k: Config, s: State, tasks: nat) returns (run: seq<Step>)
    requires k.r == AsWritten && k.capacity != 0 && Inv(k, s) && Free(s)
    ensures Legal(k, s, run) && After(k, s, run).livenum == s.livenum + tasks
    decreases tasks
  {
    if tasks == 0 {
      run := [];
    } else {
      var t, add := AsWrittenCountsOne(k, s);
      var rest := AsWrittenCountsMore(k, t, tasks - 1);
      AfterOne(k, Apply(k, s, BeginAdd), add, rest);
      AfterOne(k, s, BeginAdd, [add] + rest);
      run := [BeginAdd] + ([add] + rest);
    }
  }

  /** As written, every task that is added counts as a thread: livenum grows without bound. */
  lemma AsWrittenCountsTasks(k: Config, tasks: nat) returns (run: seq<Step>)
    requires k.r == AsWritten && k.minnum <= k.maxnum && k.capacity != 0
    ensures Legal(k, Start(k), run)
    ensures After(k, Start(k), run).livenum == k.minnum + tasks
  {
    run := AsWrittenCountsMore(k, Start(k), tasks);
  }

  /**
   The bound on the thread count holds in every run exactly if `queueSize` is
   what threadPoolAdd increments, or nothing can be added.
   */
  lemma BoundHoldsIff(k: Config)
    requires k.minnum <= k.maxnum
    ensures (forall run: seq<Step> :: Legal(k, Start(k), run) ==> After(k, Start(k), run).livenum <= k.maxnum)
       <==> k.r == Meant || k.capacity == 0
  {
    if k.r == Meant {
      forall run: seq<Step> | Legal(k, Start(k), run) ensures After(k, Start(k), run).livenum <= k.maxnum {
        CountStaysInBounds(k, run);
      }
    } else if k.capacity == 0 {
      forall run: seq<Step> | Legal(k, Start(k), run) ensures After(k, Start(k), run).livenum <= k.maxnum {
        NothingAddedStaysInBounds(k, Start(k), run);
      }
    } else {
      var run := AsWrittenCountsTasks(k, k.maxnum + 1);
      assert Legal(k, Start(k), run) && After(k, Start(k), run).livenum > k.maxnum;
    }
  }

  /** With no room for a task the manager never sees one, so it never creates a thread. */
  lemma {:induction false} NothingAddedStaysInBounds(k: Config, s: State, run: seq<Step>)
    requires Inv(k, s) && Legal(k, s, run) && k.r == AsWritten && k.capacity == 0
    requires s.livenum <= k.maxnum && !s.manager.Creating? && (s.manager.Looked? ==> s.manager.queueNum == 0)
    ensures After(k, s, run).livenum <= k.maxnum
    decreases |run|
  {
    if run == [] {
    } else {
      StepKeeps(k, s, run[0]);
      NothingAddedStaysInBounds(k, Apply(k, s, run[0]), run[1..]);
    }
  }
}
