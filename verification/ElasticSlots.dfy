/**
 The two loops of pthread_pool2.0.c over the array of thread ids, in place: each does to
 the array what its rounds in module ElasticPool, run without interruption, do to the slots.
 */
module ElasticSlots {
  import opened ElasticPool
  import opened Totals

  /** The rounds of threadExit from slot `at` on. */
  ghost function ScanAll(s: State, w: nat, at: nat): State
    decreases |s.slots| - at
  {
    var t := Scan(s, w, at);
    if at < |s.slots| && s.slots[at] != w then ScanAll(t, w, at + 1) else t
  }

  /** The rounds of the creation loop until the manager unlocks; round i gets thread id tids[i]. */
  ghost function CreateAll(k: Config, s: State, tids: seq<nat>): State
    requires s.manager.Creating? && |s.slots| == |tids| == k.maxnum
    decreases k.maxnum - s.manager.i
  {
    var i := s.manager.i;
    var t := Create(k, s, s.manager, if i < |tids| then tids[i] else 1);
    if t.manager.Creating? then CreateAll(k, t, tids) else t
  }

  /** threadExit. */
  method ThreadExit(threadIDs: array<nat>, tid: nat, ghost s: State)
    requires s.slots == threadIDs[..]
    modifies threadIDs
    ensures threadIDs[..] == ScanAll(s, tid, 0).slots
  {
    ghost var now := s;
    for i := 0 to threadIDs.Length
      invariant now.slots == threadIDs[..] == s.slots
      invariant ScanAll(now, tid, i) == ScanAll(s, tid, 0)
    {
      now := Scan(now, tid, i);
      if threadIDs[i] == tid {
        threadIDs[i] := 0;
        return;
      }
    }
  }

  /** The creation loop of manager, from its lock to its unlock; returns the new livenum. */
  method CreateThreads(k: Config, threadIDs: array<nat>, queueNum: nat, liveNum: nat, tids: seq<nat>, livenum: nat,
                       ghost s: State)
    returns (live: nat)
    requires s.manager == Creating(0, queueNum, liveNum)
    requires s.slots == threadIDs[..] && s.livenum == livenum && threadIDs.Length == |tids| == k.maxnum
    modifies threadIDs
    ensures threadIDs[..] == CreateAll(k, s, tids).slots && live == CreateAll(k, s, tids).livenum
  {
    live := livenum;
    ghost var now := s;
    var i := 0;
    while i + liveNum < queueNum && i + liveNum < k.maxnum
      invariant now.manager == Creating(i, queueNum, liveNum)
      invariant now.slots == threadIDs[..] && now.livenum == live
      invariant CreateAll(k, now, tids) == CreateAll(k, s, tids)
      decreases k.maxnum - i
    {
      now := Create(k, now, now.manager, tids[i]);
      if threadIDs[i] == 0 {
        threadIDs[i] := tids[i];
        live := live + 1;
      }
      i := i + 1;
    }
  }

  /** Run without interruption, threadExit clears the slot of its thread and nothing else. */
  lemma {:induction false} ScanAllClears(s: State, w: nat, at: nat)
    requires HasSlot(s.slots, w, at)
    ensures ScanAll(s, w, at).threads == s.threads - {w}
    ensures exists i :: at <= i < |s.slots| && s.slots[i] == w && ScanAll(s, w, at).slots == s.slots[i := 0]
    decreases |s.slots| - at
  {
    if s.slots[at] == w {
    } else {
      var t := Scan(s, w, at);
      assert t.threads - {w} == s.threads - {w};
      ScanAllClears(t, w, at + 1);
    }
  }

  /** So a worker of any reachable pool that runs threadExit to its end leaves the array without its id. */
  lemma ExitClearsOwnSlot(k: Config, s: State, w: nat)
    requires SlotInv(k, s.slots, s.threads) && w in s.threads && s.threads[w] == Leaving(0)
    ensures w !in ScanAll(s, w, 0).slots
  {
    ScanAllClears(s, w, 0);
  }

  /** However stale the manager's copy, its loop cannot create more threads than the bound allows. */
  lemma {:induction false} CreateAllInBounds(k: Config, s: State, tids: seq<nat>)
    requires s.manager.Creating? && |s.slots| == |tids| == k.maxnum
    requires s.livenum <= s.manager.liveNum + s.manager.i <= k.maxnum
    ensures s.livenum <= CreateAll(k, s, tids).livenum <= k.maxnum
    decreases k.maxnum - s.manager.i
  {
    var i := s.manager.i;
    var t := Create(k, s, s.manager, if i < |tids| then tids[i] else 1);
    if !t.manager.Creating? {
    } else {
      CreateAllInBounds(k, t, tids);
    }
  }

  /** The slots that the creation loop looks at: as many as the copies say that threads are missing. */
  function Limit(k: Config, queueNum: nat, liveNum: nat): int {
    (if queueNum <= k.maxnum then queueNum else k.maxnum) - liveNum
  }

  /** The loop fills exactly the free slots among those it looks at ... */
  lemma {:induction false} CreateAllFills(k: Config, s: State, tids: seq<nat>)
    requires s.manager.Creating? && |s.slots| == |tids| == k.maxnum
    ensures var t := CreateAll(k, s, tids);
      && |t.slots| == |s.slots|
      && forall j :: 0 <= j < |s.slots| ==>
           t.slots[j] == if s.manager.i <= j < Limit(k, s.manager.queueNum, s.manager.liveNum) && s.slots[j] == 0
                         then tids[j] else s.slots[j]
    decreases k.maxnum - s.manager.i
  {
    var m := s.manager;
    if m.i >= Limit(k, m.queueNum, m.liveNum) {
    } else {
      CreateAllFills(k, Create(k, s, m, tids[m.i]), tids);
    }
  }

  /** ... and counts each thread it creates. */
  lemma {:induction false} CreateAllCounts(k: Config, s: State, tids: seq<nat>)
    requires s.manager.Creating? && |s.slots| == |tids| == k.maxnum
    requires s.manager.i <= Limit(k, s.manager.queueNum, s.manager.liveNum)
    ensures CreateAll(k, s, tids).livenum
         == s.livenum + Count(s.slots[s.manager.i..Limit(k, s.manager.queueNum, s.manager.liveNum)], 0)
    decreases k.maxnum - s.manager.i
  {
    var m := s.manager;
    var limit := Limit(k, m.queueNum, m.liveNum);
    if m.i == limit {
    } else {
      var t := Create(k, s, m, tids[m.i]);
      CreateAllCounts(k, t, tids);
      assert t.slots[m.i + 1..limit] == s.slots[m.i + 1..limit];
      assert s.slots[m.i..limit] == [s.slots[m.i]] + s.slots[m.i + 1..limit];
      CountFirst(s.slots[m.i], s.slots[m.i + 1..limit], 0);
    }
  }
}
