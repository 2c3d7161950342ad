/**
 The class NetworkTestServer of test_server.cpp, with its records on the heap.
 Each method does to the fields what the function of module Checker does to their values,
 and `Valid()` carries the invariant of every run. The lock makes each call one step.
 */
module CheckerServer {
  import opened Bytes
  import opened Checker

  class MessageInfo {
    var answer: Message
    var msg: Message

    constructor ()
      ensures answer == [] && msg == []
    {
      answer, msg := [], [];
    }
  }

  class NetworkTestServer {
    const reading: Reading
    var status: TestStatus
    var info: map<nat, MessageInfo>
    var recvSeq: nat
    var regSeq: nat
    var cmp: nat
    /** What has arrived so far, and the records already deleted. */
    ghost var history: History
    ghost var freed: set<MessageInfo>

    ghost predicate Valid()
      reads this, info.Values
    {
      && Inv(reading, State(View(), history))
      && Records()
    }

    /** The records are all different, and none that is still to be used has been deleted. */
    ghost predicate Records()
      reads `info, `status, `freed
    {
      && (forall m, n :: m in info && n in info && info[m] == info[n] ==> m == n)
      && (status == Success ==> forall n :: n in info ==> info[n] !in freed)
    }

    ghost function View(): Fields
      reads `info, `regSeq, `recvSeq, `cmp, `status, info.Values
    {
      Fields(map n | n in info :: Pair(info[n].answer, info[n].msg), regSeq, recvSeq, cmp, status)
    }

    constructor (reading: Reading)
      ensures Valid() && this.reading == reading
      ensures State(View(), history) == START
    {
      this.reading := reading;
      status := Success;
      info := map[];
      recvSeq, regSeq, cmp := 0, 0, 0;
      history := History([], [], {});
      freed := {};
    }

    method AnswerRegister(content: Message) returns (response: Reply)
      requires Valid() && regSeq < MAX_SEQ
      modifies this
      ensures Valid()
      ensures (View(), response) == RegisterAnswer(old(View()), content)
      ensures State(View(), history) == Apply(reading, old(State(View(), history)), Register(content))
    {
      RegisterKeeps(reading, State(View(), history), content);
      if status != Success {
        return Reply(0, status);
      }
      AddAnswer(content);
      history := history.Registered(content);
      response := Reply(cmp, Success);
    }

    /** The part of AnswerRegister that touches the map; a record already there is replaced, its message lost. */
    method AddAnswer(content: Message)
      requires Records()
      modifies `regSeq, `info
      ensures Records()
      ensures View() == old(View()).(
                          regSeq := old(regSeq) + 1, info := old(View()).info[old(regSeq) + 1 := Pair(content, [])])
    {
      var t := new MessageInfo();
      t.answer := content;
      regSeq := regSeq + 1;
      info := info[regSeq := t];
      assert View().info == old(View()).info[regSeq := Pair(content, [])];
    }

    method Commit(msg: Message)
      requires Valid() && recvSeq < MAX_SEQ
      modifies this, info.Values
      ensures Valid()
      ensures View() == CommitMessage(old(View()), msg)
      ensures State(View(), history) == Apply(reading, old(State(View(), history)), Event.Commit(msg))
    {
      CommitKeeps(reading, State(View(), history), msg);
      if status != Success {
        return;
      }
      Store(msg);
      history := history.Committed(msg);
    }

    /** The part of commit that touches the map. */
    method Store(msg: Message)
      requires Records() && status == Success
      modifies `recvSeq, `info, info.Values
      ensures Records()
      ensures View() == CommitMessage(old(View()), msg)
      ensures forall n :: n in info ==> (if n in old(info) then info[n] == old(info[n]) else fresh(info[n]))
    {
      ghost var before := View();
      recvSeq := recvSeq + 1;
      assert View() == before.(recvSeq := recvSeq);
      if recvSeq !in info {
        AddRecord(recvSeq);
        assert View().info[recvSeq := Pair([], msg)] == before.info[recvSeq := Pair([], msg)];
      }
      SetMsg(recvSeq, msg);
    }

    method AddRecord(n: nat)
      requires Records() && n !in info
      modifies this`info
      ensures Records() && info.Keys == old(info.Keys) + {n}
      ensures forall k :: k in info ==> (if k == n then fresh(info[k]) else info[k] == old(info[k]))
      ensures View() == old(View()).(info := old(View()).info[n := Pair([], [])])
    {
      var t := new MessageInfo();
      info := info[n := t];
      assert View().info == old(View()).info[n := Pair([], [])];
    }

    method SetMsg(n: nat, msg: Message)
      requires Records() && n in info && info[n] !in freed
      modifies info[n]
      ensures View() == old(View()).(info := old(View()).info[n := old(View()).info[n].(msg := msg)])
    {
      var t := info[n];
      t.msg := msg;
      assert View().info == old(View()).info[n := old(View()).info[n].(msg := msg)];
    }

    /** One round of the loop in Update. */
    method Compare()
      requires Records() && status == Success && View().Window() && cmp < Min(recvSeq, regSeq)
      modifies `cmp, `status, `info, `freed
      ensures Records() && info.Keys <= old(info.Keys) && forall n :: n in info ==> info[n] == old(info[n])
      ensures View() == CompareNext(reading, old(View()))
    {
      assert cmp + 1 in View().info;
      cmp := cmp + 1;
      var t := info[cmp];
      assert t !in freed;
      freed := freed + {t};
      if Flags(reading, Pair(t.answer, t.msg)) {
        status := Diff;
        assert View().info == old(View()).info;
      } else {
        info := info - {cmp};
        assert View().info == old(View()).info - {cmp};
      }
    }

    /** The private Update: the comparison loop. */
    method Update()
      requires Valid() && status == Success
      modifies this
      ensures Valid() && history == old(history)
      ensures View() == Scan(reading, old(View()))
    {
      var availableMaxResult := if recvSeq <= regSeq then recvSeq else regSeq;
      if cmp > availableMaxResult {
        assert false;
      }
      while status == Success && cmp < availableMaxResult
        invariant Valid() && history == old(history) && (status == Success || status == Diff)
        invariant Min(recvSeq, regSeq) == availableMaxResult
        invariant (if status == Success then Scan(reading, View()) else View()) == Scan(reading, old(View()))
        decreases availableMaxResult - cmp
      {
        CompareKeeps(reading, View(), history);
        Compare();
      }
    }

    method ResultQuery(queryIdx: nat) returns (response: Reply)
      requires Valid() && queryIdx <= MAX_SEQ
      modifies this
      ensures Valid() && history == old(history)
      ensures (View(), response) == AnswerQuery(reading, old(View()), queryIdx)
    {
      if status != Success {
        return Reply(cmp, status);
      }
      if queryIdx <= cmp {
        return Reply(cmp, Success);
      }
      ScanFinds(reading, View(), history);
      Update();
      if cmp >= queryIdx {
        return Reply(cmp, Success);
      }
      if status != Success {
        return Reply(cmp, status);
      }
      if cmp == recvSeq {
        return Reply(cmp, Wait);
      }
      if cmp == regSeq {
        return Reply(cmp, WaitRPC);
      }
      assert false;
    }
  }
}
