/**
 Three unbounded queues with one condition variable, which differ in how a producer wakes
 the consumers: phread_pool1.0.c signals before it unlocks, condlock.c unlocks and then
 signals, the producer and consumer program unlocks and then broadcasts. Any number of
 producers and consumers; a consumer tests the list under the mutex and waits when it is empty.
 */
module WakeUp {
  import opened Totals
  import opened CondVar
  import opened Lists
  import Stamps

  datatype Discipline = SignalLocked | UnlockThenSignal | UnlockThenBroadcast

  datatype Consumer = Free | Waits | Woken

  /** `pending` counts the producers between their unlock and their wake-up call. */
  datatype State = State(
    items: seq<nat>, consumers: seq<Consumer>, pending: nat,
    produced: seq<nat>, consumed: seq<nat>)

  datatype Step = Put(item: nat, woken: set<nat>) | Wake(woken: set<nat>) | Lock(c: nat) | Spurious(c: nat) {
    predicate Env() { Put? || Spurious? }
  }

  function Init(consumers: nat): State {
    State([], seq(consumers, _ => Free), 0, [], [])
  }

  /** phread_pool1.0.c appends at the tail; the other two push at the head. */
  function Inserted(d: Discipline, items: seq<nat>, item: nat): seq<nat> {
    if d == SignalLocked then items + [item] else [item] + items
  }

  /** A signal wakes at least one waiter if there is one, a broadcast wakes them all. */
  predicate Choice(d: Discipline, woken: set<nat>, waiting: set<nat>) {
    if d == UnlockThenBroadcast then woken == waiting
    else SignalChoice(woken, waiting)
  }

  function Awaken(cs: seq<Consumer>, woken: set<nat>): seq<Consumer> { Awakened(cs, woken, Waits, Woken) }

  predicate Enabled(d: Discipline, s: State, step: Step) {
    match step
    case Put(_, woken) => if d == SignalLocked then Choice(d, woken, Waiters(s.consumers, Waits)) else woken == {}
    case Wake(woken) => s.pending > 0 && Choice(d, woken, Waiters(s.consumers, Waits))
    case Lock(c) => c < |s.consumers| && s.consumers[c] != Waits
    case Spurious(c) => c < |s.consumers| && s.consumers[c] == Waits
  }

  function Apply(d: Discipline, s: State, step: Step): State
    requires Enabled(d, s, step)
  {
    match step
    case Put(item, woken) =>
      s.(items := Inserted(d, s.items, item), produced := s.produced + [item],
         consumers := Awaken(s.consumers, woken),
         pending := if d == SignalLocked then s.pending else s.pending + 1)
    case Wake(woken) => s.(consumers := Awaken(s.consumers, woken), pending := s.pending - 1)
    case Lock(c) =>
      if s.items == [] then s.(consumers := s.consumers[c := Waits])
      else s.(items := s.items[1..], consumed := s.consumed + [s.items[0]], consumers := s.consumers[c := Free])
    case Spurious(c) => s.(consumers := s.consumers[c := Woken])
  }

  predicate Legal(d: Discipline, s: State, run: seq<Step>)
    decreases |run|
  {
    run == [] || (Enabled(d, s, run[0]) && Legal(d, Apply(d, s, run[0]), run[1..]))
  }

  function After(d: Discipline, s: State, run: seq<Step>): State
    requires Legal(d, s, run)
    decreases |run|
  {
    if run == [] then s else After(d, Apply(d, s, run[0]), run[1..])
  }

  /** The insertion on linked nodes, in condlock.c and in the producer and consumer program. */
  method PushItem(list: Stack, item: nat, ghost d: Discipline)
    requires list.Valid() && d != SignalLocked
    modifies list
    ensures list.Valid() && Values(list.nodes) == Inserted(d, Values(old(list.nodes)), item)
  {
    var node := new Node(item);
    list.Push(node);
  }

  /** The insertion on linked nodes in phread_pool1.0.c. */
  method AppendItem(list: Fifo, item: nat)
    requires list.Valid()
    modifies list, list.nodes
    ensures list.Valid() && Values(list.nodes) == Inserted(SignalLocked, Values(old(list.nodes)), item)
  {
    list.Enqueue(item);
  }

  // ---------------------------------------------------------------------
  // What every step keeps.
  // ---------------------------------------------------------------------

  /** The wake-ups that are on their way, for each way to wake. */
  function Credit(d: Discipline, s: State): nat {
    match d
    case SignalLocked => Count(s.consumers, Woken)
    case UnlockThenSignal => s.pending + Count(s.consumers, Woken)
    case UnlockThenBroadcast => s.pending
  }

  ghost predicate Inv(d: Discipline, s: State) {
    && (Waits in s.consumers ==> |s.items| <= Credit(d, s))
    && (d == SignalLocked ==> s.pending == 0 && s.produced == s.consumed + s.items)
    && multiset(s.produced) == multiset(s.consumed) + multiset(s.items)
  }

  lemma WakeKeeps(d: Discipline, s: State, step: Step)
    requires Inv(d, s) && Enabled(d, s, step) && (step.Put? || step.Wake?)
    ensures Inv(d, Apply(d, s, step))
  {
    var t := Apply(d, s, step);
    WakeCounts(s.consumers, step.woken, Waits, Woken);
    if Waits in t.consumers {
      var c :| 0 <= c < |t.consumers| && t.consumers[c] == Waits;
      assert s.consumers[c] == Waits && c in Waiters(s.consumers, Waits);
    }
    if step.Put? {
      assert multiset(t.items) == multiset(s.items) + multiset{step.item};
      assert s.consumed + (s.items + [step.item]) == s.consumed + s.items + [step.item];
    }
  }

  lemma LockKeeps(d: Discipline, s: State, step: Step)
    requires Inv(d, s) && Enabled(d, s, step) && (step.Lock? || step.Spurious?)
    ensures Inv(d, Apply(d, s, step))
  {
    var t := Apply(d, s, step);
    CountUpdate(s.consumers, step.c, t.consumers[step.c], Woken);
    if step.Lock? && s.items != [] {
      assert s.items == [s.items[0]] + t.items;
      assert s.consumed + s.items == t.consumed + t.items;
    }
    if Waits in t.consumers && t.items != [] {
      var c :| 0 <= c < |t.consumers| && t.consumers[c] == Waits;
      assert s.consumers[c] == Waits;
    }
  }

  lemma {:induction false} InvKept(d: Discipline, s: State, run: seq<Step>)
    requires Inv(d, s) && Legal(d, s, run)
    ensures Inv(d, After(d, s, run)) && |After(d, s, run).consumers| == |s.consumers|
    decreases |run|
  {
    if run == [] {
    } else {
      if run[0].Put? || run[0].Wake? { WakeKeeps(d, s, run[0]); } else { LockKeeps(d, s, run[0]); }
      InvKept(d, Apply(d, s, run[0]), run[1..]);
    }
  }

  /**
   In every reachable state, while some consumer sleeps un-notified, at most as many items
   are listed as wake-ups are on their way; and no item is lost, doubled or invented.
   */
  lemma NoItemStranded(d: Discipline, consumers: nat, run: seq<Step>)
    requires Legal(d, Init(consumers), run)
    ensures var s := After(d, Init(consumers), run);
      && (Waits in s.consumers ==>
            match d
            case SignalLocked => |s.items| <= Count(s.consumers, Woken)
            case UnlockThenSignal => |s.items| <= s.pending + Count(s.consumers, Woken)
            case UnlockThenBroadcast => |s.items| <= s.pending)
      && multiset(s.produced) == multiset(s.consumed) + multiset(s.items)
      && (d == SignalLocked ==> s.produced == s.consumed + s.items)
  {
    InvKept(d, Init(consumers), run);
  }

  // ---------------------------------------------------------------------
  // In which order items are taken.
  // ---------------------------------------------------------------------

  ghost predicate Ordered(d: Discipline, s: State, listed: seq<nat>, gone: seq<nat>) {
    Stamps.Stamped(d != SignalLocked, s.produced, s.items, s.consumed, listed, gone)
  }

  lemma StepOrders(d: Discipline, s: State, step: Step, listed: seq<nat>, gone: seq<nat>)
    returns (left: seq<nat>, taken: seq<nat>)
    requires Enabled(d, s, step) && Ordered(d, s, listed, gone)
    ensures Ordered(d, Apply(d, s, step), left, taken)
  {
    left, taken := listed, gone;
    if step.Put? && d == SignalLocked {
      Stamps.PutLast(s.produced, s.items, s.consumed, listed, gone, step.item);
      left := listed + [|s.produced|];
    } else if step.Put? {
      Stamps.PutFirst(s.produced, s.items, s.consumed, listed, gone, step.item);
      left := [|s.produced|] + listed;
    } else if step.Lock? && s.items != [] {
      Stamps.Take(d != SignalLocked, s.produced, s.items, s.consumed, listed, gone);
      left, taken := listed[1..], gone + [listed[0]];
    }
  }

  lemma {:induction false} RunOrders(d: Discipline, s: State, run: seq<Step>, listed: seq<nat>, gone: seq<nat>)
    returns (left: seq<nat>, taken: seq<nat>)
    requires Legal(d, s, run) && Ordered(d, s, listed, gone)
    ensures Ordered(d, After(d, s, run), left, taken)
    decreases |run|
  {
    if run == [] {
      left, taken := listed, gone;
    } else {
      left, taken := StepOrders(d, s, run[0], listed, gone);
      left, taken := RunOrders(d, Apply(d, s, run[0]), run[1..], left, taken);
    }
  }

  lemma InvariantOfStart(d: Discipline, consumers: nat, run: seq<Step>)
    requires Legal(d, Init(consumers), run)
    ensures |After(d, Init(consumers), run).consumers| == consumers
  {
    InvKept(d, Init(consumers), run);
  }

  lemma LockTakesNext(d: Discipline, s: State, c: nat, listed: seq<nat>, gone: seq<nat>)
    requires Ordered(d, s, listed, gone) && Enabled(d, s, Lock(c)) && s.items != []
    ensures var t := Apply(d, s, Lock(c));
      && Stamps.IsNext(d != SignalLocked, s.produced, gone, listed[0])
      && t.consumed == s.consumed + [s.produced[listed[0]]]
      && Ordered(d, t, listed[1..], gone + [listed[0]])
  {
    Stamps.Take(d != SignalLocked, s.produced, s.items, s.consumed, listed, gone);
  }

  /**
   A consumer sleeps exactly when the list is empty. Otherwise it takes, of all items produced and
   not yet consumed, the newest one from a head-inserted list and the oldest one from the other.
   */
  lemma TakesNext(d: Discipline, consumers: nat, run: seq<Step>, c: nat)
    returns (listed: seq<nat>, gone: seq<nat>)
    requires Legal(d, Init(consumers), run) && Enabled(d, After(d, Init(consumers), run), Lock(c))
    ensures var s := After(d, Init(consumers), run);
      var t := Apply(d, s, Lock(c));
      && Ordered(d, s, listed, gone)
      && (t.consumers[c] == Waits <==> s.items == [])
      && (if s.items == [] then t.items == [] && t.consumed == s.consumed
          else
            && Stamps.IsNext(d != SignalLocked, s.produced, gone, listed[0])
            && t.consumed == s.consumed + [s.produced[listed[0]]]
            && Ordered(d, t, listed[1..], gone + [listed[0]]))
      && t.produced == s.produced && t.pending == s.pending
      && |t.consumers| == consumers && forall e :: 0 <= e < consumers && e != c ==> t.consumers[e] == s.consumers[e]
  {
    listed, gone := RunOrders(d, Init(consumers), run, [], []);
    InvariantOfStart(d, consumers, run);
    if After(d, Init(consumers), run).items != [] {
      LockTakesNext(d, After(d, Init(consumers), run), c, listed, gone);
    }
  }

  // ---------------------------------------------------------------------
  // The list drains.
  // ---------------------------------------------------------------------

  ghost predicate Quiet(d: Discipline, s: State) {
    forall step: Step :: !step.Env() ==> !Enabled(d, s, step)
  }

  /** When no thread can move, everything that was produced has been consumed. */
  lemma QuietMeansDrained(d: Discipline, consumers: nat, run: seq<Step>)
    requires consumers > 0 && Legal(d, Init(consumers), run)
    requires Quiet(d, After(d, Init(consumers), run))
    ensures var s := After(d, Init(consumers), run);
      s.items == [] && multiset(s.consumed) == multiset(s.produced) && (d == SignalLocked ==> s.consumed == s.produced)
  {
    InvKept(d, Init(consumers), run);
    var s := After(d, Init(consumers), run);
    assert !Enabled(d, s, Wake(Waiters(s.consumers, Waits)));
    forall c | 0 <= c < |s.consumers| ensures s.consumers[c] == Waits {
      assert !Enabled(d, s, Lock(c));
    }
    assert s.consumers[0] == Waits;
    CountNone(s.consumers, Woken);
  }

  function AwakeMarks(cs: seq<Consumer>): seq<nat> {
    seq(|cs|, i requires 0 <= i < |cs| => if cs[i] == Waits then 0 else 1)
  }

  /** What the threads have still to do if nothing more is put. */
  function Remaining(s: State): nat {
    |s.items| + Times(s.pending, |s.consumers| + 1) + Total(AwakeMarks(s.consumers))
  }

  lemma AwakeUpdate(cs: seq<Consumer>, i: nat, v: Consumer)
    requires i < |cs|
    ensures Total(AwakeMarks(cs[i := v])) + (if cs[i] == Waits then 0 else 1)
         == Total(AwakeMarks(cs)) + (if v == Waits then 0 else 1)
  {
    TotalUpdate(AwakeMarks(cs), i, if v == Waits then 0 else 1);
    assert AwakeMarks(cs[i := v]) == AwakeMarks(cs)[i := if v == Waits then 0 else 1];
  }

  lemma AwakenRaises(cs: seq<Consumer>, woken: set<nat>)
    ensures Total(AwakeMarks(Awaken(cs, woken))) <= Total(AwakeMarks(cs)) + |cs|
  {
    TotalRaise(AwakeMarks(cs), AwakeMarks(Awaken(cs, woken)));
  }

  /** What a step of the environment may add: a wake-up for every consumer, and the item itself. */
  function Cost(step: Step, consumers: nat): nat {
    match step
    case Put(_, _) => consumers + 2
    case Spurious(_) => 1
    case _ => 0
  }

  lemma PutChanges(d: Discipline, s: State, item: nat, woken: set<nat>)
    requires Enabled(d, s, Put(item, woken))
    ensures Remaining(Apply(d, s, Put(item, woken))) <= Remaining(s) + |s.consumers| + 2
  {
    if d == SignalLocked {
      AwakenRaises(s.consumers, woken);
    } else {
      assert Awaken(s.consumers, woken) == s.consumers;
    }
  }

  lemma StepChanges(d: Discipline, s: State, step: Step)
    requires Enabled(d, s, step)
    ensures Remaining(Apply(d, s, step)) + (if step.Env() then 0 else 1) <= Remaining(s) + Cost(step, |s.consumers|)
  {
    match step
    case Put(item, woken) => PutChanges(d, s, item, woken);
    case Wake(woken) => AwakenRaises(s.consumers, woken);
    case Lock(c) => AwakeUpdate(s.consumers, c, if s.items == [] then Waits else Free);
    case Spurious(c) => AwakeUpdate(s.consumers, c, Woken);
  }

  function Work(run: seq<Step>): nat {
    if run == [] then 0 else (if run[0].Env() then 0 else 1) + Work(run[1..])
  }

  function Costs(run: seq<Step>, consumers: nat): nat {
    if run == [] then 0 else Cost(run[0], consumers) + Costs(run[1..], consumers)
  }

  /**
   The threads take no more steps than what is listed, pending and awake
   allows, plus a share for each put and spurious wake-up.
   */
  lemma {:induction false} WorkIsBounded(d: Discipline, s: State, run: seq<Step>)
    requires Legal(d, s, run)
    ensures Work(run) + Remaining(After(d, s, run)) <= Remaining(s) + Costs(run, |s.consumers|)
    decreases |run|
  {
    if run == [] {
    } else {
      StepChanges(d, s, run[0]);
      WorkIsBounded(d, Apply(d, s, run[0]), run[1..]);
    }
  }
}
