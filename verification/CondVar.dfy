/**
 A condition variable as its waiters see it, after pthread_cond_wait, pthread_cond_signal and
 pthread_cond_broadcast of POSIX.1-2017: a waiter leaves its state `waits` for the state `awake`.
 */
module CondVar {
  import opened Totals

  function Waiters<T(==)>(threads: seq<T>, waits: T): set<nat> {
    set i: nat | i < |threads| && threads[i] == waits
  }

  /** A signal wakes at least one waiter if there is one. */
  predicate SignalChoice(woken: set<nat>, waiting: set<nat>) {
    woken <= waiting && (waiting != {} ==> woken != {})
  }

  function Awakened<T(==)>(threads: seq<T>, woken: set<nat>, waits: T, awake: T): seq<T> {
    seq(|threads|, i requires 0 <= i < |threads| => if i in woken && threads[i] == waits then awake else threads[i])
  }

  /** A broadcast. */
  function AllAwakened<T(==)>(threads: seq<T>, waits: T, awake: T): seq<T> {
    seq(|threads|, i requires 0 <= i < |threads| => if threads[i] == waits then awake else threads[i])
  }

  /** A signal that finds a waiter adds to those awake. */
  lemma WakeCounts<T>(threads: seq<T>, woken: set<nat>, waits: T, awake: T)
    requires woken <= Waiters(threads, waits) && waits != awake
    ensures Count(Awakened(threads, woken, waits, awake), awake) >= Count(threads, awake)
        + (if woken != {} then 1 else 0)
  {
    var after := Awakened(threads, woken, waits, awake);
    if woken != {} {
      var i :| i in woken;
      CountUpdate(threads, i, awake, awake);
      TotalMonotone(Marks(threads[i := awake], awake), Marks(after, awake));
    } else {
      assert after == threads;
    }
  }
}
