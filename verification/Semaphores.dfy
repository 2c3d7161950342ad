/**
 The producer and consumer program with two counting semaphores: each thread waits on its
 own semaphore, works on the list under the mutex, and posts the other one. The initial
 counts and the initial list are parameters; the program itself starts at 5, 2 and no list.
 */
module Semaphores {
  import opened Totals
  import Stamps

  /** Before its sem_wait, between the wait and the list, between the list and its sem_post. */
  datatype Phase = Idle | Admitted | Served

  datatype State = State(
    list: seq<nat>, psem: nat, csem: nat,
    producers: seq<Phase>, consumers: seq<Phase>,
    produced: seq<nat>, consumed: seq<nat>,
    crashed: bool)

  datatype Step =
    | ProducerWaits(p: nat) | ProducerPushes(p: nat, number: nat) | ProducerPosts(p: nat)
    | ConsumerWaits(c: nat) | ConsumerPops(c: nat) | ConsumerPosts(c: nat)

  /** The items of the initial list count as produced, its head last. */
  function Init(list: seq<nat>, psem: nat, csem: nat, producers: nat, consumers: nat): State {
    State(list, psem, csem, seq(producers, _ => Idle), seq(consumers, _ => Idle), Stamps.Reversed(list), [], false)
  }

  predicate Enabled(s: State, step: Step) {
    !s.crashed &&
    match step
    case ProducerWaits(p) => p < |s.producers| && s.producers[p] == Idle && s.psem > 0
    case ProducerPushes(p, _) => p < |s.producers| && s.producers[p] == Admitted
    case ProducerPosts(p) => p < |s.producers| && s.producers[p] == Served
    case ConsumerWaits(c) => c < |s.consumers| && s.consumers[c] == Idle && s.csem > 0
    case ConsumerPops(c) => c < |s.consumers| && s.consumers[c] == Admitted
    case ConsumerPosts(c) => c < |s.consumers| && s.consumers[c] == Served
  }

  function Apply(s: State, step: Step): State
    requires Enabled(s, step)
  {
    match step
    case ProducerWaits(p) => s.(psem := s.psem - 1, producers := s.producers[p := Admitted])
    case ProducerPushes(p, number) => 
      s.(list := [number] + s.list, produced := s.produced + [number], producers := s.producers[p := Served])
    case ProducerPosts(p) => s.(csem := s.csem + 1, producers := s.producers[p := Idle])
    case ConsumerWaits(c) => s.(csem := s.csem - 1, consumers := s.consumers[c := Admitted])
    case ConsumerPops(c) =>
      // The text reads head->number without a test.
      if s.list == [] then s.(crashed := true)
      else 
        s.(list := s.list[1..], consumed := s.consumed + [s.list[0]], consumers := s.consumers[c := Served])
    case ConsumerPosts(c) => s.(psem := s.psem + 1, consumers := s.consumers[c := Idle])
  }

  predicate Legal(s: State, run: seq<Step>)
    decreases |run|
  {
    run == [] || (Enabled(s, run[0]) && Legal(Apply(s, run[0]), run[1..]))
  }

  function After(s: State, run: seq<Step>): State
    requires Legal(s, run)
    decreases |run|
  {
    if run == [] then s else After(Apply(s, run[0]), run[1..])
  }

  /** Both semaphores and the threads that hold a unit of one: their sum. */
  function Units(s: State): nat {
    s.psem + s.csem + Count(s.producers, Admitted) + Count(s.producers, Served)
    + Count(s.consumers, Admitted) + Count(s.consumers, Served)
  }

  /** The units that stand for an item: csem, and the threads between it and the list. */
  function ItemUnits(s: State): nat {
    s.csem + Count(s.producers, Served) + Count(s.consumers, Admitted)
  }

  lemma PhaseMoves(ts: seq<Phase>, t: nat, v: Phase)
    requires t < |ts|
    ensures forall x: Phase ::
      Count(ts[t := v], x) + (if ts[t] == x then 1 else 0) == Count(ts, x) + (if v == x then 1 else 0)
  {
    forall x: Phase
      ensures Count(ts[t := v], x) + (if ts[t] == x then 1 else 0) == Count(ts, x) + (if v == x then 1 else 0)
    {
      CountUpdate(ts, t, v, x);
    }
  }

  lemma StepKeeps(s: State, step: Step)
    requires Enabled(s, step)
    ensures Units(Apply(s, step)) == Units(s)
    ensures ItemUnits(Apply(s, step)) + |s.list| == ItemUnits(s) + |Apply(s, step).list|
  {
    var t := Apply(s, step);
    if step.ProducerWaits? || step.ProducerPushes? || step.ProducerPosts? {
      PhaseMoves(s.producers, step.p, t.producers[step.p]);
    } else {
      PhaseMoves(s.consumers, step.c, t.consumers[step.c]);
    }
  }

  lemma {:induction false} RunKeeps(s: State, run: seq<Step>)
    requires Legal(s, run)
    ensures Units(After(s, run)) == Units(s)
    ensures ItemUnits(After(s, run)) + |s.list| == ItemUnits(s) + |After(s, run).list|
    ensures |After(s, run).producers| == |s.producers| && |After(s, run).consumers| == |s.consumers|
    decreases |run|
  {
    if run == [] {
    } else {
      StepKeeps(s, run[0]);
      RunKeeps(Apply(s, run[0]), run[1..]);
    }
  }

  lemma InitUnits(list: seq<nat>, psem: nat, csem: nat, producers: nat, consumers: nat)
    ensures Units(Init(list, psem, csem, producers, consumers)) == psem + csem
    ensures ItemUnits(Init(list, psem, csem, producers, consumers)) == csem
  {
    var s := Init(list, psem, csem, producers, consumers);
    CountNone(s.producers, Admitted);
    CountNone(s.producers, Served);
    CountNone(s.consumers, Admitted);
    CountNone(s.consumers, Served);
  }

  /** In every reachable state: the units are conserved, and the list never outgrows the producers' share of them. */
  lemma Conservation(list: seq<nat>, psem: nat, csem: nat, producers: nat, consumers: nat, run: seq<Step>)
    requires var s0 := Init(list, psem, csem, producers, consumers); Legal(s0, run)
    ensures var s := After(Init(list, psem, csem, producers, consumers), run);
      && s.psem + s.csem + Count(s.producers, Admitted) + Count(s.producers, Served)
         + Count(s.consumers, Admitted) + Count(s.consumers, Served) == psem + csem
      && s.psem + Count(s.producers, Admitted) + Count(s.consumers, Served) + |s.list| == psem + |list|
  {
    InitUnits(list, psem, csem, producers, consumers);
    RunKeeps(Init(list, psem, csem, producers, consumers), run);
  }

  // ---------------------------------------------------------------------
  // In which order items are taken.
  // ---------------------------------------------------------------------

  ghost predicate Ordered(s: State, listed: seq<nat>, gone: seq<nat>) {
    Stamps.Stamped(true, s.produced, s.list, s.consumed, listed, gone)
  }

  lemma StepOrders(s: State, step: Step, listed: seq<nat>, gone: seq<nat>)
    returns (left: seq<nat>, taken: seq<nat>)
    requires Enabled(s, step) && Ordered(s, listed, gone)
    ensures Ordered(Apply(s, step), left, taken)
  {
    left, taken := listed, gone;
    if step.ProducerPushes? {
      Stamps.PutFirst(s.produced, s.list, s.consumed, listed, gone, step.number);
      left := [|s.produced|] + listed;
    } else if step.ConsumerPops? && s.list != [] {
      Stamps.Take(true, s.produced, s.list, s.consumed, listed, gone);
      left, taken := listed[1..], gone + [listed[0]];
    }
  }

  lemma {:induction false} RunOrders(s: State, run: seq<Step>, listed: seq<nat>, gone: seq<nat>)
    returns (left: seq<nat>, taken: seq<nat>)
    requires Legal(s, run) && Ordered(s, listed, gone)
    ensures Ordered(After(s, run), left, taken)
    decreases |run|
  {
    if run == [] {
      left, taken := listed, gone;
    } else {
      left, taken := StepOrders(s, run[0], listed, gone);
      left, taken := RunOrders(Apply(s, run[0]), run[1..], left, taken);
    }
  }

  /** In every reachable state a consumer takes, of all items produced and not yet consumed, the newest one. */
  lemma TakesNewest(list: seq<nat>, psem: nat, csem: nat, producers: nat, consumers: nat, run: seq<Step>, c: nat)
    returns (listed: seq<nat>, gone: seq<nat>)
    requires var s0 := Init(list, psem, csem, producers, consumers);
      Legal(s0, run) && Enabled(After(s0, run), ConsumerPops(c)) && After(s0, run).list != []
    ensures var s := After(Init(list, psem, csem, producers, consumers), run);
      var t := Apply(s, ConsumerPops(c));
      && Ordered(s, listed, gone) && Stamps.IsNext(true, s.produced, gone, listed[0])
      && t.consumed == s.consumed + [s.produced[listed[0]]] && t.produced == s.produced
      && Ordered(t, listed[1..], gone + [listed[0]])
      && t.consumers[c] == Served && !t.crashed
  {
    var s0 := Init(list, psem, csem, producers, consumers);
    Stamps.AtStart(list);
    listed := seq(|list|, i requires 0 <= i < |list| => |list| - 1 - i);
    listed, gone := RunOrders(s0, run, listed, []);
    var s := After(s0, run);
    Stamps.Take(true, s.produced, s.list, s.consumed, listed, gone);
  }

  // ---------------------------------------------------------------------
  // When a consumer finds nothing.
  // ---------------------------------------------------------------------

  /** With no more units than items, a consumer that has been admitted finds one. */
  lemma {:induction false} NeverCrashes(s: State, run: seq<Step>)
    requires Legal(s, run) && !s.crashed && ItemUnits(s) <= |s.list|
    ensures !After(s, run).crashed
    decreases |run|
  {
    if run == [] {
    } else {
      StepKeeps(s, run[0]);
      if run[0].ConsumerPops? { CountSome(s.consumers, Admitted); }
      NeverCrashes(Apply(s, run[0]), run[1..]);
    }
  }

  ghost predicate CanCrash(s: State) {
    exists run: seq<Step> :: Legal(s, run) && After(s, run).crashed
  }

  lemma CrashLater(s: State, step: Step)
    requires Enabled(s, step) && CanCrash(Apply(s, step))
    ensures CanCrash(s)
  {
    var run :| Legal(Apply(s, step), run) && After(Apply(s, step), run).crashed;
    var more := [step] + run;
    assert more[1..] == run;
    assert Legal(s, more) && After(s, more).crashed;
  }

  /** One consumer alone can take everything and then one more. */
  lemma {:induction false} ConsumerRunsDry(s: State)
    requires !s.crashed && s.csem > |s.list| && s.consumers != [] && s.consumers[0] == Idle
    ensures CanCrash(s)
    decreases |s.list|
  {
    var s1 := Apply(s, ConsumerWaits(0));
    var s2 := Apply(s1, ConsumerPops(0));
    if s.list == [] {
      assert Legal(s2, []) && After(s2, []).crashed;
    } else {
      ConsumerRunsDry(Apply(s2, ConsumerPosts(0)));
      CrashLater(s2, ConsumerPosts(0));
    }
    CrashLater(s1, ConsumerPops(0));
    CrashLater(s, ConsumerWaits(0));
  }

  /**
   The head is read while null in some run exactly if csem starts above
   the length of the list and there is a consumer.
   */
  lemma CrashIff(list: seq<nat>, psem: nat, csem: nat, producers: nat, consumers: nat)
    ensures CanCrash(Init(list, psem, csem, producers, consumers)) <==> csem > |list| && consumers > 0
  {
    var s := Init(list, psem, csem, producers, consumers);
    InitUnits(list, psem, csem, producers, consumers);
    if csem > |list| && consumers > 0 {
      ConsumerRunsDry(s);
    } else if csem <= |list| {
      forall run: seq<Step> | Legal(s, run) ensures !After(s, run).crashed {
        NeverCrashes(s, run);
      }
    } else {
      forall run: seq<Step> | Legal(s, run) ensures !After(s, run).crashed {
        NoConsumerNoCrash(s, run);
      }
    }
  }

  lemma {:induction false} NoConsumerNoCrash(s: State, run: seq<Step>)
    requires Legal(s, run) && !s.crashed && s.consumers == []
    ensures !After(s, run).crashed
    decreases |run|
  {
    if run == [] {
    } else {
      NoConsumerNoCrash(Apply(s, run[0]), run[1..]);
    }
  }

  /** The program as it is started: psem 5, csem 2, an empty list, five threads of each kind. */
  lemma ProgramCanCrash()
    ensures CanCrash(Init([], 5, 2, 5, 5))
  {
    CrashIff([], 5, 2, 5, 5);
  }

  /** The semaphores never block every thread at once, if they start with a unit between them. */
  lemma NeverAllBlocked(list: seq<nat>, psem: nat, csem: nat, producers: nat, consumers: nat, run: seq<Step>)
    requires producers > 0 && consumers > 0 && psem + csem > 0
    requires Legal(Init(list, psem, csem, producers, consumers), run)
    requires !After(Init(list, psem, csem, producers, consumers), run).crashed
    ensures exists step: Step :: Enabled(After(Init(list, psem, csem, producers, consumers), run), step)
  {
    Conservation(list, psem, csem, producers, consumers, run);
    RunKeeps(Init(list, psem, csem, producers, consumers), run);
    var s := After(Init(list, psem, csem, producers, consumers), run);
    if forall p :: 0 <= p < |s.producers| ==> s.producers[p] == Idle {
      if forall c :: 0 <= c < |s.consumers| ==> s.consumers[c] == Idle {
        CountNone(s.producers, Admitted);
        CountNone(s.producers, Served);
        CountNone(s.consumers, Admitted);
        CountNone(s.consumers, Served);
        assert Enabled(s, ProducerWaits(0)) || Enabled(s, ConsumerWaits(0));
      } else {
        var c :| 0 <= c < |s.consumers| && s.consumers[c] != Idle;
        assert Enabled(s, ConsumerPops(c)) || Enabled(s, ConsumerPosts(c));
      }
    } else {
      var p :| 0 <= p < |s.producers| && s.producers[p] != Idle;
      assert Enabled(s, ProducerPushes(p, 0)) || Enabled(s, ProducerPosts(p));
    }
  }
}
