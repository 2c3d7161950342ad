/**
 In which order items leave a list. An item is named by its position in the history of all
 items produced, its stamp, so that equal items are told apart.
 */
module Stamps {

  /**
   The stamps of the items listed and of those consumed: all of them,
   once each; listed newest first, or oldest first.
   */
  ghost predicate Stamped(newest: bool, produced: seq<nat>, items: seq<nat>, consumed: seq<nat>,
                          listed: seq<nat>, gone: seq<nat>)
  {
    && |listed| == |items| && |gone| == |consumed|
    && (forall i :: 0 <= i < |listed| ==> listed[i] < |produced| && produced[listed[i]] == items[i])
    && (forall i :: 0 <= i < |gone| ==> gone[i] < |produced| && produced[gone[i]] == consumed[i])
    && (forall i, j :: 0 <= i < j < |listed| ==> if newest then listed[j] < listed[i] else listed[i] < listed[j])
    && (forall i, j :: 0 <= i < j < |gone| ==> gone[i] != gone[j])
    && (forall p: nat :: p < |produced| ==> (p in listed <==> p !in gone))
  }

  /** Of the items not yet consumed, p is the newest, or the oldest. */
  ghost predicate IsNext(newest: bool, produced: seq<nat>, gone: seq<nat>, p: nat) {
    && p < |produced| && p !in gone
    && forall q: nat :: q < |produced| && q !in gone ==> if newest then q <= p else p <= q
  }

  lemma PutFirst(produced: seq<nat>, items: seq<nat>, consumed: seq<nat>, listed: seq<nat>, gone: seq<nat>, item: nat)
    requires Stamped(true, produced, items, consumed, listed, gone)
    ensures Stamped(true, produced + [item], [item] + items, consumed, [|produced|] + listed, gone)
  {
    var n := |produced|;
    assert n !in gone;
    assert forall p: nat :: p in [n] + listed <==> p == n || p in listed;
  }

  lemma PutLast(produced: seq<nat>, items: seq<nat>, consumed: seq<nat>, listed: seq<nat>, gone: seq<nat>, item: nat)
    requires Stamped(false, produced, items, consumed, listed, gone)
    ensures Stamped(false, produced + [item], items + [item], consumed, listed + [|produced|], gone)
  {
    var n := |produced|;
    assert n !in gone;
    assert forall p: nat :: p in listed + [n] <==> p == n || p in listed;
  }

  /** What is taken off the front is the next, and what is left is listed as before. */
  lemma Take(newest: bool, produced: seq<nat>, items: seq<nat>, consumed: seq<nat>, listed: seq<nat>, gone: seq<nat>)
    requires Stamped(newest, produced, items, consumed, listed, gone) && items != []
    ensures Stamped(newest, produced, items[1..], consumed + [items[0]], listed[1..], gone + [listed[0]])
    ensures IsNext(newest, produced, gone, listed[0])
  {
    var p := listed[0];
    assert p in listed;
    assert forall q: nat :: q in listed <==> q == p || q in listed[1..];
    assert forall q: nat :: q in gone + [p] <==> q == p || q in gone;
    assert p !in listed[1..];
  }

  function Reversed(xs: seq<nat>): (r: seq<nat>)
    ensures |r| == |xs| && forall i :: 0 <= i < |xs| ==> r[i] == xs[|xs| - 1 - i]
  {
    seq(|xs|, i requires 0 <= i < |xs| => xs[|xs| - 1 - i])
  }

  /** A list that is there at the start is as good as one whose items have been put in its reverse order. */
  lemma AtStart(items: seq<nat>)
    ensures Stamped(true, Reversed(items), items, [], seq(|items|, i requires 0 <= i < |items| => |items| - 1 - i), [])
  {
    var listed := seq(|items|, i requires 0 <= i < |items| => |items| - 1 - i);
    forall p: nat | p < |items| ensures p in listed {
      assert listed[|items| - 1 - p] == p;
    }
  }
}
