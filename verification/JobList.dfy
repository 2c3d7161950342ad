/**
 The fields of struct threadpool and its linked list of jobs, with the critical
 sections of phread_pool.c as methods. Each does to the list what the section
 function of module JobPool does to the sequence of jobs.
 */
module JobList {
  import opened JobPool
  import opened Lists

  class ThreadPool {
    const queueMaxNum: int
    var head: Node?
    var tail: Node?
    var queueCurNum: int
    var queueClose: bool
    var poolClose: bool
    /** The list from head to tail. */
    ghost var nodes: seq<Node>

    ghost predicate Valid()
      reads this, nodes
    {
      && queueCurNum == |nodes|
      && Chained(nodes)
      && head == (if nodes == [] then null else nodes[0])
      && tail == (if nodes == [] then null else nodes[|nodes| - 1])
    }

    ghost function View(): Shared
      reads this
    {
      Shared(queueMaxNum, Values(nodes), queueClose, poolClose)
    }

    /** threadpool_init. */
    constructor (queueMaxNum: int)
      ensures Valid() && View() == Init(0, queueMaxNum).q
    {
      this.queueMaxNum := queueMaxNum;
      head, tail, queueCurNum := null, null, 0;
      queueClose, poolClose := false, false;
      nodes := [];
    }

    /** threadpool_add_job between two waits; `alloc` tells whether malloc succeeds. */
    method AddJob(job: nat, alloc: bool) returns (out: AddOutcome)
      requires Valid()
      modifies this, nodes
      ensures Valid() && (View(), out) == AddSection(old(View()), job, alloc)
      ensures forall n :: n in nodes ==> n in old(nodes) || fresh(n)
      ensures out == AddWait <==> |old(nodes)| == queueMaxNum && !queueClose && !poolClose
      ensures out.AddOk? <==> |old(nodes)| != queueMaxNum && !queueClose && !poolClose && alloc
      ensures out.AddOk? ==> Values(nodes) == old(Values(nodes)) + [job] && (out.wakeWorkers <==> old(nodes) == [])
      ensures !out.AddOk? ==> nodes == old(nodes)
    {
      if queueCurNum == queueMaxNum && !(queueClose || poolClose) {
        return AddWait;
      }
      if queueClose || poolClose {
        return AddRefuse;
      }
      if !alloc {
        return AddRefuse;
      }
      var pjob := new Node(job);
      var wake := Link(pjob);
      assert View() == old(View()).(jobs := old(View()).jobs + [job]);
      return AddOk(wake);
    }

    /** The part of threadpool_add_job that links the new job in; `wake` tells whether the list was empty. */
    method Link(pjob: Node) returns (wake: bool)
      requires Valid() && pjob !in nodes && pjob.next == null
      modifies `head, `tail, `nodes, `queueCurNum, nodes
      ensures Valid() && nodes == old(nodes) + [pjob]
      ensures Values(nodes) == Values(old(nodes)) + [pjob.value]
      ensures wake <==> old(nodes) == []
    {
      wake := false;
      if head == null {
        head := pjob;
        tail := pjob;
        wake := true;
      } else {
        tail.next := pjob;
        tail := pjob;
      }
      assert Values(nodes + [pjob]) == Values(nodes) + [pjob.value];
      nodes := nodes + [pjob];
      queueCurNum := queueCurNum + 1;
    }

    /** threadpool_function between two waits. */
    method TakeJob() returns (out: TakeOutcome)
      requires Valid()
      modifies this
      ensures Valid() && (View(), out) == TakeSection(old(View()))
      ensures nodes == old(nodes) || nodes == old(nodes)[1..]
      ensures out == TakeExit <==> poolClose
      ensures out == TakeWait <==> !poolClose && old(nodes) == []
      ensures out.TakeJob? ==> [out.job] + Values(nodes) == old(Values(nodes))
      ensures out.TakeJob? ==> (out.drained <==> nodes == []) && (out.room <==> |old(nodes)| == queueMaxNum)
    {
      if queueCurNum == 0 && !poolClose {
        return TakeWait;
      }
      if poolClose {
        return TakeExit;
      }
      queueCurNum := queueCurNum - 1;
      var pjob := head;
      if queueCurNum == 0 {
        head := null;
        tail := null;
      } else {
        head := pjob.next;
      }
      assert Values(nodes[1..]) == Values(nodes)[1..];
      nodes := nodes[1..];
      return TakeOutcome.TakeJob(pjob.value, queueCurNum == 0, queueCurNum == queueMaxNum - 1);
    }

    /** threadpool_destroy from its entry (`first`) or from a return of its wait, to the unlock. */
    method Close(first: bool) returns (out: CloseOutcome)
      requires Valid()
      modifies this
      ensures Valid() && nodes == old(nodes)
      ensures (View(), out) == if first then CloseSection(old(View())) else DrainSection(old(View()))
      ensures out == CloseRefuse <==> first && old(queueClose || poolClose)
      ensures out == CloseWait ==> nodes != [] && poolClose == old(poolClose)
      ensures out == CloseAnnounce ==> nodes == [] && poolClose
      ensures out != CloseRefuse ==> queueClose == (first || old(queueClose))
    {
      if first {
        if queueClose || poolClose {
          return CloseRefuse;
        }
        queueClose := true;
      }
      if queueCurNum != 0 {
        return CloseWait;
      }
      poolClose := true;
      return CloseAnnounce;
    }

    /** The freeing loop at the end of threadpool_destroy: it frees what the queue still holds. */
    method FreeJobs() returns (freed: seq<nat>)
      requires Valid()
      modifies this`head
      ensures head == null && freed == old(View()).jobs
    {
      freed := [];
      ghost var i := 0;
      while head != null
        invariant 0 <= i <= |nodes|
        invariant head == if i < |nodes| then nodes[i] else null
        invariant Chained(nodes)
        invariant freed == Values(nodes)[..i]
        decreases |nodes| - i
      {
        var p := head;
        head := p.next;
        freed := freed + [p.value];
        i := i + 1;
      }
    }
  }
}
