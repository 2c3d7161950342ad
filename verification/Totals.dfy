/** Sums of ranks over a sequence of threads, used by the termination bounds. */
module Totals {

  function Total(ranks: seq<nat>): nat {
    if ranks == [] then 0 else Total(ranks[..|ranks| - 1]) + ranks[|ranks| - 1]
  }

  /** n * k, by addition. */
  function Times(n: nat, k: nat): nat {
    if n == 0 then 0 else Times(n - 1, k) + k
  }

  lemma {:induction false} TotalUpdate(ranks: seq<nat>, i: nat, v: nat)
    requires i < |ranks|
    ensures Total(ranks[i := v]) + ranks[i] == Total(ranks) + v
  {
    var n := |ranks| - 1;
    if i == n {
      assert ranks[i := v][..n] == ranks[..n];
    } else {
      assert ranks[i := v][..n] == ranks[..n][i := v];
      TotalUpdate(ranks[..n], i, v);
    }
  }

  lemma TotalAppend(ranks: seq<nat>, v: nat)
    ensures Total(ranks + [v]) == Total(ranks) + v
  {
    assert (ranks + [v])[..|ranks|] == ranks;
  }

  /** Raising every rank by at most one raises the sum by at most the number of threads. */
  lemma {:induction false} TotalRaise(low: seq<nat>, high: seq<nat>)
    requires |low| == |high|
    requires forall i :: 0 <= i < |low| ==> high[i] <= low[i] + 1
    ensures Total(high) <= Total(low) + |low|
  {
    if low == [] {
    } else {
      var n := |low| - 1;
      TotalRaise(low[..n], high[..n]);
    }
  }

  lemma TotalMonotone(low: seq<nat>, high: seq<nat>)
    requires |low| == |high| && forall i :: 0 <= i < |low| ==> low[i] <= high[i]
    ensures Total(low) <= Total(high)
    decreases |low|
  {
    if low == [] {
    } else {
      TotalMonotone(low[..|low| - 1], high[..|high| - 1]);
    }
  }

  function Marks<T(==)>(xs: seq<T>, x: T): seq<nat> {
    seq(|xs|, i requires 0 <= i < |xs| => if xs[i] == x then 1 else 0)
  }

  /** How many of the threads are in state x. */
  function Count<T(==)>(xs: seq<T>, x: T): nat { Total(Marks(xs, x)) }

  lemma CountUpdate<T>(xs: seq<T>, i: nat, v: T, x: T)
    requires i < |xs|
    ensures Count(xs[i := v], x) + (if xs[i] == x then 1 else 0) == Count(xs, x) + (if v == x then 1 else 0)
  {
    TotalUpdate(Marks(xs, x), i, if v == x then 1 else 0);
    assert Marks(xs[i := v], x) == Marks(xs, x)[i := if v == x then 1 else 0];
  }

  lemma {:induction false} CountNone<T>(xs: seq<T>, x: T)
    requires x !in xs
    ensures Count(xs, x) == 0
  {
    if xs == [] {
    } else {
      CountNone(xs[..|xs| - 1], x);
      assert Marks(xs, x)[..|xs| - 1] == Marks(xs[..|xs| - 1], x);
    }
  }

  lemma CountSome<T>(xs: seq<T>, x: T)
    requires x in xs
    ensures Count(xs, x) > 0
  {
    var i :| 0 <= i < |xs| && xs[i] == x;
    TotalUpdate(Marks(xs, x), i, 0);
  }

  lemma {:induction false} CountFirst<T>(first: T, rest: seq<T>, x: T)
    ensures Count([first] + rest, x) == (if first == x then 1 else 0) + Count(rest, x)
    decreases |rest|
  {
    var all := [first] + rest;
    if rest == [] {
      assert Marks(all, x)[..0] == [];
    } else {
      var n := |rest| - 1;
      CountFirst(first, rest[..n], x);
      assert Marks(all, x)[..n + 1] == Marks([first] + rest[..n], x);
      assert Marks(rest, x)[..n] == Marks(rest[..n], x);
    }
  }
}
