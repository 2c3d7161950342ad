/**
 Tester, client, connection, server and checker as one machine. The tester registers each
 message with the checker before it pushes it (genAsciiMsg and genBinMsg of test_client.cpp);
 the client pops and sends; bytes move in chunks of any size; the server commits what it reads.
 */
module EndToEnd {
  import opened Bytes
  import opened Framing
  import C = Checker

  datatype State = State(
    checker: C.State,
    ahead: Option<Message>,   // registered but not yet pushed
    buffer: seq<Message>,     // pushed but not yet popped
    popped: seq<Message>,     // handed to sendMsg so far
    out: seq<byte>,           // what sendMsg has still to write
    wire: seq<byte>,          // written but not yet read
    inbox: seq<byte>,         // what recvMsg has read of the current message
    delivered: nat)           // how many messages recvMsg has returned

  datatype Step = Register(m: Message) | Push | Pop | Write(k: nat) | Read(k: nat) | Deliver | Query(idx: nat)

  const START: State := State(C.START, None, [], [], [], [], [], 0)

  /** How long the header says the message is, once it is there. */
  function Wanted(inbox: seq<byte>): nat {
    if |inbox| < 4 then 4 else 4 + FromBigEndian(inbox[..4])
  }

  predicate Whole(inbox: seq<byte>) { |inbox| >= 4 && |inbox| == Wanted(inbox) }

  predicate Enabled(s: State, step: Step) {
    match step
    case Register(m) => s.ahead == None && Sendable(m) && s.checker.f.regSeq < C.MAX_SEQ
    case Push => s.ahead.Some?
    case Pop => s.buffer != [] && s.out == []
    case Write(k) => 0 < k <= |s.out|
    case Read(k) => 0 < k <= |s.wire| && |s.inbox| + k <= Wanted(s.inbox)
    case Deliver => Whole(s.inbox)
    case Query(idx) => idx <= C.MAX_SEQ
  }

  /** recvMsg returns, and the checker is c after the commit. */
  function Delivered(s: State, c: C.State): State {
    s.(checker := c, inbox := [], delivered := s.delivered + 1)
  }

  ghost function Apply(r: Reading, s: State, step: Step): State
    requires Inv(r, s) && Enabled(s, step)
  {
    match step
    case Register(m) =>
      // A tester whose registration is refused throws, and pushes nothing.
      if s.checker.f.status != C.Success then s
      else s.(checker := C.Apply(r, s.checker, C.Register(m)), ahead := Some(m))
    case Push => s.(ahead := None, buffer := s.buffer + [s.ahead.value])
    case Pop =>
      assert s.buffer[0] == s.checker.h.answers[|s.popped|];
      s.(buffer := s.buffer[1..], popped := s.popped + [s.buffer[0]], out := Frame(s.buffer[0]))
    case Write(k) => s.(out := s.out[k..], wire := s.wire + s.out[..k])
    case Read(k) => s.(wire := s.wire[k..], inbox := s.inbox + s.wire[..k])
    case Deliver => Delivered(s, C.Apply(r, s.checker, C.Commit(BeforeNul(s.inbox[4..]))))
    case Query(idx) => s.(checker := C.Apply(r, s.checker, C.Query(idx)))
  }

  function Ahead(s: State): seq<Message> { if s.ahead == None then [] else [s.ahead.value] }

  ghost predicate AllSendable(ms: seq<Message>) { forall i :: 0 <= i < |ms| ==> Sendable(ms[i]) }

  /** The bytes between client and server are the frames not yet delivered, the first perhaps begun. */
  ghost predicate LinkInv(popped: seq<Message>, delivered: nat, inbox: seq<byte>, wire: seq<byte>, out: seq<byte>) {
    && AllSendable(popped) && delivered <= |popped|
    && Wire(popped[delivered..]) == inbox + wire + out
    && (delivered < |popped| ==> inbox <= Frame(popped[delivered]))
  }

  /** The committed messages are the delivered ones, cut at the first NUL; no answer was registered late. */
  ghost predicate CommitInv(r: Reading, c: C.State, delivered: nat) {
    && C.Inv(r, c) && c.h.late == {}
    && |c.h.answers| <= C.MAX_SEQ
    && |c.h.msgs| <= delivered && |c.h.msgs| <= |c.h.answers|
    && (c.f.status == C.Success ==> |c.h.msgs| == delivered)
    && (forall i :: 0 <= i < |c.h.msgs| ==> c.h.msgs[i] == BeforeNul(c.h.answers[i]))
  }

  /** The registered messages are those popped, those in the buffer and the one ahead, in this order. */
  ghost predicate FlowInv(answers: seq<Message>, s: State) {
    answers == s.popped + s.buffer + Ahead(s) && AllSendable(answers)
  }

  ghost predicate Inv(r: Reading, s: State) {
    && CommitInv(r, s.checker, s.delivered)
    && FlowInv(s.checker.h.answers, s)
    && LinkInv(s.popped, s.delivered, s.inbox, s.wire, s.out)
  }

  lemma {:induction false} WireAppend(ms: seq<Message>, m: Message)
    requires AllSendable(ms) && Sendable(m)
    ensures Wire(ms + [m]) == Wire(ms) + Frame(m)
  {
    if ms == [] {
      assert Wire([m]) == Frame(m) + Wire([m][1..]);
      assert [m][1..] == [];
    } else {
      WireAppend(ms[1..], m);
      assert (ms + [m])[1..] == ms[1..] + [m];
      assert Wire(ms + [m]) == Frame(ms[0]) + Wire(ms[1..] + [m]);
    }
  }

  lemma PopKeepsLink(popped: seq<Message>, delivered: nat, inbox: seq<byte>, wire: seq<byte>, m: Message)
    requires LinkInv(popped, delivered, inbox, wire, []) && Sendable(m)
    ensures LinkInv(popped + [m], delivered, inbox, wire, Frame(m))
  {
    WireAppend(popped[delivered..], m);
    assert (popped + [m])[delivered..] == popped[delivered..] + [m];
  }

  lemma FrameLength(popped: seq<Message>, delivered: nat, inbox: seq<byte>, wire: seq<byte>, out: seq<byte>)
    requires LinkInv(popped, delivered, inbox, wire, out) && delivered < |popped|
    ensures var m := popped[delivered];
      && Wire(popped[delivered..]) == Frame(m) + Wire(popped[delivered + 1..])
      && |inbox| + |wire| + |out| >= 4 + |m| >= |inbox|
      && Wanted(inbox) == (if |inbox| < 4 then 4 else 4 + |m|)
  {
    var m := popped[delivered];
    BigEndianRoundTrip(|m|);
    assert popped[delivered..][1..] == popped[delivered + 1..];
    assert |inbox| >= 4 ==> inbox[..4] == Frame(m)[..4] == BigEndian(|m|);
  }

  /** A read that takes no more than the header asks for stays within the current frame. */
  lemma ReadKeepsLink(popped: seq<Message>, delivered: nat, inbox: seq<byte>, wire: seq<byte>, out: seq<byte>, k: nat)
    requires LinkInv(popped, delivered, inbox, wire, out)
    requires k <= |wire| && |inbox| + k <= Wanted(inbox)
    ensures LinkInv(popped, delivered, inbox + wire[..k], wire[k..], out)
  {
    var more := inbox + wire[..k];
    assert more + wire[k..] + out == inbox + wire + out;
    if delivered < |popped| {
      FrameLength(popped, delivered, inbox, wire, out);
      assert more == (inbox + wire + out)[..|more|];
    }
  }

  lemma WriteKeepsLink(popped: seq<Message>, delivered: nat, inbox: seq<byte>, wire: seq<byte>, out: seq<byte>, k: nat)
    requires LinkInv(popped, delivered, inbox, wire, out) && k <= |out|
    ensures LinkInv(popped, delivered, inbox, wire + out[..k], out[k..])
  {
    assert inbox + wire + out == inbox + (wire + out[..k]) + out[k..];
  }

  /** What recvMsg hands over is the next message that was sent. */
  lemma WholeIsNext(popped: seq<Message>, delivered: nat, inbox: seq<byte>, wire: seq<byte>, out: seq<byte>)
    requires LinkInv(popped, delivered, inbox, wire, out) && Whole(inbox)
    ensures delivered < |popped| && inbox[4..] == popped[delivered]
    ensures LinkInv(popped, delivered + 1, [], wire, out)
  {
    if delivered < |popped| {
      FrameLength(popped, delivered, inbox, wire, out);
      var m := popped[delivered];
      assert inbox == Frame(m);
      assert inbox + wire + out == inbox + (wire + out);
      assert Wire(popped[delivered + 1..]) == (inbox + (wire + out))[|inbox|..] == wire + out;
      assert [] + wire + out == wire + out;
    }
  }

  /**
   While a frame comes in, a delivery waits for what recvMsg's own
   contract is about: the bytes read so far are one frame.
   */
  lemma WholeIsRead(m: Message, b: seq<byte>)
    requires Sendable(m) && b <= Frame(m)
    ensures Whole(b) <==> ReadFrame(b).Some?
    ensures Whole(b) ==> b == Frame(m) && ReadFrame(b) == Some((b[4..], []))
  {
    BigEndianRoundTrip(|m|);
    if |b| >= 4 {
      assert b[..4] == Frame(m)[..4] == BigEndian(|m|);
      if |b| == 4 + |m| {
        assert b == Frame(m) && b[4..4 + |m|] == b[4..] && b[4 + |m|..] == [];
      }
    }
  }

  lemma RegisterKeeps(r: Reading, s: State, m: Message)
    requires Inv(r, s) && Enabled(s, Register(m))
    ensures Inv(r, Apply(r, s, Register(m)))
  {
    C.RegisterKeeps(r, s.checker, m);
  }

  lemma CommitKeeps(r: Reading, c: C.State, delivered: nat)
    requires CommitInv(r, c, delivered) && delivered < |c.h.answers|
    ensures CommitInv(r, C.Apply(r, c, C.Commit(BeforeNul(c.h.answers[delivered]))), delivered + 1)
  {
    C.CommitKeeps(r, c, BeforeNul(c.h.answers[delivered]));
  }

  lemma DeliveredFlow(answers: seq<Message>, s: State, c: C.State)
    requires FlowInv(answers, s)
    ensures FlowInv(answers, Delivered(s, c))
  {
  }

  lemma DeliveredInv(r: Reading, s: State, c: C.State)
    requires CommitInv(r, c, s.delivered + 1) && FlowInv(c.h.answers, s)
    requires LinkInv(s.popped, s.delivered + 1, [], s.wire, s.out)
    ensures Inv(r, Delivered(s, c))
  {
    DeliveredFlow(c.h.answers, s, c);
  }

  lemma DeliverKeeps(r: Reading, s: State)
    requires Inv(r, s) && Enabled(s, Deliver)
    ensures Inv(r, Apply(r, s, Deliver))
  {
    WholeIsNext(s.popped, s.delivered, s.inbox, s.wire, s.out);
    var m := s.popped[s.delivered];
    assert s.checker.h.answers[s.delivered] == m;
    CommitKeeps(r, s.checker, s.delivered);
    var c := C.Apply(r, s.checker, C.Commit(BeforeNul(m)));
    assert c.h.answers == s.checker.h.answers;
    DeliveredInv(r, s, c);
  }

  lemma QueryKeepsCommit(r: Reading, c: C.State, delivered: nat, idx: nat)
    requires CommitInv(r, c, delivered)
    ensures CommitInv(r, C.Apply(r, c, C.Query(idx)), delivered)
  {
    C.StepKeeps(r, c, C.Query(idx));
    if c.f.status == C.Success { C.ScanFinds(r, c.f, c.h); }
  }

  lemma QueryKeeps(r: Reading, s: State, idx: nat)
    requires Inv(r, s) && Enabled(s, Query(idx))
    ensures Inv(r, Apply(r, s, Query(idx)))
  {
    QueryKeepsCommit(r, s.checker, s.delivered, idx);
  }

  lemma PushKeepsFlow(answers: seq<Message>, s: State)
    requires FlowInv(answers, s) && s.ahead.Some?
    ensures FlowInv(answers, s.(ahead := None, buffer := s.buffer + [s.ahead.value]))
  {
    assert s.buffer + [s.ahead.value] + [] == s.buffer + [s.ahead.value];
  }

  lemma PushKeeps(r: Reading, s: State)
    requires Inv(r, s) && Enabled(s, Push)
    ensures Inv(r, Apply(r, s, Push))
  {
    PushKeepsFlow(s.checker.h.answers, s);
  }

  lemma PopKeepsFlow(answers: seq<Message>, s: State)
    requires FlowInv(answers, s) && s.buffer != []
    ensures Sendable(s.buffer[0])
    ensures FlowInv(answers, s.(buffer := s.buffer[1..], popped := s.popped + [s.buffer[0]], out := Frame(s.buffer[0])))
  {
    assert s.buffer[0] == answers[|s.popped|];
    assert s.popped + s.buffer == s.popped + [s.buffer[0]] + s.buffer[1..];
  }

  lemma PopKeeps(r: Reading, s: State)
    requires Inv(r, s) && Enabled(s, Pop)
    ensures Inv(r, Apply(r, s, Pop))
  {
    PopKeepsFlow(s.checker.h.answers, s);
    PopKeepsLink(s.popped, s.delivered, s.inbox, s.wire, s.buffer[0]);
  }

  lemma WriteKeeps(r: Reading, s: State, k: nat)
    requires Inv(r, s) && Enabled(s, Write(k))
    ensures Inv(r, Apply(r, s, Write(k)))
  {
    WriteKeepsLink(s.popped, s.delivered, s.inbox, s.wire, s.out, k);
  }

  lemma ReadKeeps(r: Reading, s: State, k: nat)
    requires Inv(r, s) && Enabled(s, Read(k))
    ensures Inv(r, Apply(r, s, Read(k)))
  {
    ReadKeepsLink(s.popped, s.delivered, s.inbox, s.wire, s.out, k);
  }

  lemma StepKeeps(r: Reading, s: State, step: Step)
    requires Inv(r, s) && Enabled(s, step)
    ensures Inv(r, Apply(r, s, step))
  {
    match step
    case Register(m) => RegisterKeeps(r, s, m);
    case Push => PushKeeps(r, s);
    case Pop => PopKeeps(r, s);
    case Write(k) => WriteKeeps(r, s, k);
    case Read(k) => ReadKeeps(r, s, k);
    case Deliver => DeliverKeeps(r, s);
    case Query(idx) => QueryKeeps(r, s, idx);
  }

  ghost predicate Legal(r: Reading, s: State, run: seq<Step>)
    requires Inv(r, s)
    decreases |run|
  {
    run == [] || (Enabled(s, run[0]) && (StepKeeps(r, s, run[0]); Legal(r, Apply(r, s, run[0]), run[1..])))
  }

  ghost function After(r: Reading, s: State, run: seq<Step>): (t: State)
    requires Inv(r, s) && Legal(r, s, run)
    ensures Inv(r, t)
    decreases |run|
  {
    if run == [] then s else
      StepKeeps(r, s, run[0]);
      After(r, Apply(r, s, run[0]), run[1..])
  }

  ghost predicate NulFree(ms: seq<Message>) { forall i :: 0 <= i < |ms| ==> 0 !in ms[i] }

  /** Whether the checker flags a message that the link has carried. */
  predicate Flagged(r: Reading, m: Message) { C.Flags(r, C.Pair(m, BeforeNul(m))) }

  /** Read as meant, the messages with a NUL byte are flagged; as written, those without. */
  lemma FlaggedIff(r: Reading, m: Message)
    ensures Flagged(r, m) <==> if r == Meant then 0 in m else 0 !in m
  {
  }

  ghost predicate NoneFlagged(r: Reading, ms: seq<Message>) {
    forall i :: 0 <= i < |ms| ==> !Flagged(r, ms[i])
  }

  lemma PairOf(r: Reading, c: C.State, delivered: nat, n: nat)
    requires CommitInv(r, c, delivered) && 0 < n <= c.h.Available()
    ensures c.h.At(n) == C.Pair(c.h.answers[n - 1], BeforeNul(c.h.answers[n - 1]))
  {
  }

  /** Diff is reached only at a message that the comparison flags as the link carries it; without one, never. */
  lemma DiffOnlyAtFlagged(r: Reading, c: C.State, delivered: nat)
    requires CommitInv(r, c, delivered)
    ensures
      && (c.f.status == C.Success || c.f.status == C.Diff)
      && (c.f.status == C.Diff ==> 0 < c.f.cmp <= |c.h.answers| && Flagged(r, c.h.answers[c.f.cmp - 1]))
      && (NoneFlagged(r, c.h.answers) ==> c.f.status == C.Success)
  {
    if c.f.status == C.Diff {
      PairOf(r, c, delivered, c.f.cmp);
    }
  }

  /** The checker's verdict on the first n pairs is about the messages that the link has carried. */
  lemma CleanIff(r: Reading, c: C.State, delivered: nat, n: nat)
    requires CommitInv(r, c, delivered) && n <= c.h.Available()
    ensures C.CleanBefore(r, c.h, n + 1) <==> NoneFlagged(r, c.h.answers[..n])
  {
    forall i | 0 <= i < n ensures C.Flags(r, c.h.At(i + 1)) <==> Flagged(r, c.h.answers[..n][i]) {
      PairOf(r, c, delivered, i + 1);
    }
    if NoneFlagged(r, c.h.answers[..n]) {
      forall i: nat | 0 < i < n + 1 ensures !C.Flags(r, c.h.At(i)) {
        assert !Flagged(r, c.h.answers[..n][i - 1]);
      }
    }
  }

  lemma AllAvailable(r: Reading, c: C.State, delivered: nat)
    requires CommitInv(r, c, delivered) && delivered == |c.h.answers| && c.f.status == C.Success
    ensures c.h.Available() == delivered
  {
  }

  /**
   Once everything is delivered: the query for the last index leaves the status at Success
   if no message is flagged, and at Diff if one is. What it is answered is another matter: FinalReply.
   */
  lemma FinalStatus(r: Reading, c: C.State, delivered: nat)
    requires CommitInv(r, c, delivered) && delivered == |c.h.answers| > 0
    ensures C.AnswerQuery(r, c.f, |c.h.answers|).0.status == if NoneFlagged(r, c.h.answers) then C.Success else C.Diff
  {
    if c.f.status == C.Success {
      AllAvailable(r, c, delivered);
      CleanIff(r, c, delivered, delivered);
      assert c.h.answers[..delivered] == c.h.answers;
      C.FullQuery(r, c);
    } else {
      PairOf(r, c, delivered, c.f.cmp);
    }
  }

  /**
   Once everything is delivered: the query for the last index is answered Success exactly if no
   earlier query has found a flagged message and no message but the last is flagged.
   */
  lemma FinalReply(r: Reading, c: C.State, delivered: nat)
    requires CommitInv(r, c, delivered) && delivered == |c.h.answers| > 0
    ensures var n := |c.h.answers|;
      var reply := C.AnswerQuery(r, c.f, n).1;
      if c.f.status == C.Success && NoneFlagged(r, c.h.answers[..n - 1]) then reply == C.Reply(n, C.Success)
      else reply.reason == C.Diff
  {
    if c.f.status == C.Success {
      AllAvailable(r, c, delivered);
      CleanIff(r, c, delivered, delivered - 1);
      C.FullQueryReply(r, c);
    } else {
      DiffOnlyAtFlagged(r, c, delivered);
    }
  }

  /**
   With the comparison as the text has it, the last query leaves Success exactly if every
   message holds a NUL byte, and is answered Success exactly if every message but the last
   does and no earlier query has failed.
   */
  lemma FinalQueryAsWritten(s: State)
    requires Inv(AsWritten, s) && s.delivered == |s.checker.h.answers| > 0
    ensures var ms := s.checker.h.answers;
      var (f, reply) := C.AnswerQuery(AsWritten, s.checker.f, |ms|);
      && (f.status == C.Success <==> forall i :: 0 <= i < |ms| ==> 0 in ms[i])
      && (reply.reason == C.Success <==>
            s.checker.f.status == C.Success && forall i :: 0 <= i < |ms| - 1 ==> 0 in ms[i])
  {
    var ms := s.checker.h.answers;
    FinalStatus(AsWritten, s.checker, |ms|);
    FinalReply(AsWritten, s.checker, |ms|);
    FlaggedAll(AsWritten, ms);
    assert forall i :: 0 <= i < |ms| - 1 ==> ms[..|ms| - 1][i] == ms[i];
  }

  lemma FlaggedAll(r: Reading, ms: seq<Message>)
    ensures forall i :: 0 <= i < |ms| ==> (Flagged(r, ms[i]) <==> if r == Meant then 0 in ms[i] else 0 !in ms[i])
  {
    forall i | 0 <= i < |ms| ensures Flagged(r, ms[i]) <==> if r == Meant then 0 in ms[i] else 0 !in ms[i] {
      FlaggedIff(r, ms[i]);
    }
  }

  /** No step but the tester's and the queries' is possible. */
  ghost predicate Quiet(s: State) {
    forall step: Step :: !step.Register? && !step.Query? ==> !Enabled(s, step)
  }

  lemma QuietParts(s: State)
    requires Quiet(s)
    ensures s.ahead == None && s.buffer == [] && s.out == [] && !Whole(s.inbox)
    ensures s.wire == [] || |s.inbox| >= Wanted(s.inbox)
  {
    assert !Enabled(s, Push) && !Enabled(s, Pop) && !Enabled(s, Deliver);
    assert !Enabled(s, Write(|s.out|)) && !Enabled(s, Read(1));
  }

  /** The link cannot get stuck: when none of its own steps is possible, every registered message is delivered. */
  lemma QuietMeansDelivered(r: Reading, s: State)
    requires Inv(r, s) && Quiet(s)
    ensures s.delivered == |s.checker.h.answers|
  {
    QuietParts(s);
    NothingLeft(s.popped, s.delivered, s.inbox, s.wire);
  }

  /** Nothing to write, nothing to read and no whole message: then no message is on its way. */
  lemma NothingLeft(popped: seq<Message>, delivered: nat, inbox: seq<byte>, wire: seq<byte>)
    requires LinkInv(popped, delivered, inbox, wire, [])
    requires wire == [] || |inbox| >= Wanted(inbox)
    requires !Whole(inbox)
    ensures delivered == |popped|
  {
    if delivered < |popped| {
      FrameLength(popped, delivered, inbox, wire, []);
    }
  }

  // ---------------------------------------------------------------------
  // Delivery takes a bounded number of steps.
  // ---------------------------------------------------------------------

  /** Steps a message costs from the buffer on: a pop, a write and a read for each byte at most, a delivery. */
  function Cost(ms: seq<Message>): nat {
    if ms == [] then 0 else 2 * |ms[0]| + 10 + Cost(ms[1..])
  }

  lemma {:induction false} CostAppend(ms: seq<Message>, m: Message)
    ensures Cost(ms + [m]) == Cost(ms) + 2 * |m| + 10
  {
    if ms == [] {
      assert [] + [m] == [m] && [m][1..] == [];
    } else {
      assert (ms + [m])[1..] == ms[1..] + [m];
      CostAppend(ms[1..], m);
    }
  }

  /** How many steps the link has still to take for what has been registered. */
  function Left(s: State): int {
    Cost(s.buffer) + Cost(Ahead(s)) + |Ahead(s)| + 2 * |s.out| + |s.wire| + |s.popped| - s.delivered
  }

  predicate OfLink(step: Step) { !step.Register? && !step.Query? }

  lemma StepLowers(r: Reading, s: State, step: Step)
    requires Inv(r, s) && Enabled(s, step)
    ensures Left(Apply(r, s, step)) + (if OfLink(step) then 1 else 0)
         <= Left(s) + if step.Register? then 2 * |step.m| + 11 else 0
  {
    match step
    case Register(m) =>
      CostAppend([], m);
      assert [] + [m] == [m];
    case Push =>
      CostAppend([], s.ahead.value);
      assert [] + [s.ahead.value] == [s.ahead.value];
      CostAppend(s.buffer, s.ahead.value);
    case Pop => assert s.buffer[0] == s.checker.h.answers[|s.popped|];
    case _ =>
  }

  function LinkSteps(run: seq<Step>): nat {
    if run == [] then 0 else (if OfLink(run[0]) then 1 else 0) + LinkSteps(run[1..])
  }

  function Budget(run: seq<Step>): nat {
    if run == [] then 0 else (if run[0].Register? then 2 * |run[0].m| + 11 else 0) + Budget(run[1..])
  }

  /**
   The link takes at most two steps per byte registered and eleven per
   message, however it is scheduled and chunked.
   */
  lemma {:induction false} DeliveryIsBounded(r: Reading, s: State, run: seq<Step>)
    requires Inv(r, s) && Legal(r, s, run)
    ensures LinkSteps(run) + Left(After(r, s, run)) <= Left(s) + Budget(run)
    ensures Left(After(r, s, run)) >= 0
    decreases |run|
  {
    if run == [] {
    } else {
      StepKeeps(r, s, run[0]);
      StepLowers(r, s, run[0]);
      DeliveryIsBounded(r, Apply(r, s, run[0]), run[1..]);
    }
  }

  lemma NulFreeArrives(c: C.State, delivered: nat)
    requires CommitInv(Meant, c, delivered) && NulFree(c.h.answers)
    ensures c.h.msgs <= c.h.answers && c.f.status == C.Success
  {
    DiffOnlyAtFlagged(Meant, c, delivered);
    FlaggedAll(Meant, c.h.answers);
    assert forall i :: 0 <= i < |c.h.msgs| ==> c.h.msgs[i] == c.h.answers[i];
  }

  lemma FinalQueryMeant(c: C.State, delivered: nat)
    requires CommitInv(Meant, c, delivered) && delivered == |c.h.answers| > 0
    ensures C.AnswerQuery(Meant, c.f, |c.h.answers|).0.status == C.Success <==> NulFree(c.h.answers)
    ensures C.AnswerQuery(Meant, c.f, |c.h.answers|).1.reason == C.Success
       <==> c.f.status == C.Success && NulFree(c.h.answers[..|c.h.answers| - 1])
  {
    FinalStatus(Meant, c, delivered);
    FinalReply(Meant, c, delivered);
    FlaggedAll(Meant, c.h.answers);
    FlaggedAll(Meant, c.h.answers[..|c.h.answers| - 1]);
  }

  lemma MeantDelivery(c: C.State, delivered: nat)
    requires CommitInv(Meant, c, delivered)
    ensures |c.h.msgs| <= |c.h.answers| && forall i :: 0 <= i < |c.h.msgs| ==> c.h.msgs[i] == BeforeNul(c.h.answers[i])
    ensures NulFree(c.h.answers) ==> c.h.msgs <= c.h.answers && c.f.status == C.Success
    ensures delivered == |c.h.answers| > 0 ==>
      && (C.AnswerQuery(Meant, c.f, |c.h.answers|).0.status == C.Success <==> NulFree(c.h.answers))
      && (C.AnswerQuery(Meant, c.f, |c.h.answers|).1.reason == C.Success <==>
            c.f.status == C.Success && NulFree(c.h.answers[..|c.h.answers| - 1]))
  {
    if NulFree(c.h.answers) {
      NulFreeArrives(c, delivered);
    }
    if delivered == |c.h.answers| > 0 {
      FinalQueryMeant(c, delivered);
    }
  }

  /**
   End to end, for every interleaving and every chunking: what is committed is what was
   registered, cut at the first NUL; with no NUL byte registered it is a prefix of it and
   Diff is never reached. Once all is delivered, the query for the last message leaves the
   status at Success exactly if no message holds a NUL byte, and is answered Success exactly
   if no message but the last does and no earlier query has failed.
   */
  lemma EndToEndDelivery(run: seq<Step>)
    requires Legal(Meant, START, run)
    ensures var h := After(Meant, START, run).checker.h;
      |h.msgs| <= |h.answers| && forall i :: 0 <= i < |h.msgs| ==> h.msgs[i] == BeforeNul(h.answers[i])
    ensures var c := After(Meant, START, run).checker;
      NulFree(c.h.answers) ==> c.h.msgs <= c.h.answers && c.f.status == C.Success
    ensures var s := After(Meant, START, run);
      var ms := s.checker.h.answers;
      s.delivered == |ms| > 0 ==>
        && (C.AnswerQuery(Meant, s.checker.f, |ms|).0.status == C.Success <==> NulFree(ms))
        && (C.AnswerQuery(Meant, s.checker.f, |ms|).1.reason == C.Success <==>
              s.checker.f.status == C.Success && NulFree(ms[..|ms| - 1]))
  {
    MeantDelivery(After(Meant, START, run).checker, After(Meant, START, run).delivered);
  }

  // ---------------------------------------------------------------------
  // Every list of messages has its session.
  // ---------------------------------------------------------------------

  /**
   These messages are registered, n of them are delivered, nothing has
   been queried, and the rest is where it says.
   */
  ghost predicate Holds(s: State, ms: seq<Message>, n: nat, ahead: Option<Message>, buffer: seq<Message>,
                        out: seq<byte>, wire: seq<byte>, inbox: seq<byte>)
  {
    && s.checker.h.answers == ms && s.checker.f.status == C.Success && s.checker.f.cmp == 0 && s.delivered == n
    && s.ahead == ahead && s.buffer == buffer && s.out == out && s.wire == wire && s.inbox == inbox
  }

  ghost predicate Settled(s: State, ms: seq<Message>) { Holds(s, ms, |ms|, None, [], [], [], []) }

  /** Where a message is on its way. */
  datatype Place = WithTester | InBuffer | WithClient | OnWire | HeaderRead | WithServer

  /** The messages ms are settled and m is on its way. */
  ghost predicate Carries(s: State, ms: seq<Message>, m: Message, at: Place)
    requires Sendable(m)
  {
    match at
    case WithTester => Holds(s, ms + [m], |ms|, Some(m), [], [], [], [])
    case InBuffer => Holds(s, ms + [m], |ms|, None, [m], [], [], [])
    case WithClient => Holds(s, ms + [m], |ms|, None, [], Frame(m), [], [])
    case OnWire => Holds(s, ms + [m], |ms|, None, [], [], Frame(m), [])
    case HeaderRead => Holds(s, ms + [m], |ms|, None, [], [], m, BigEndian(|m|))
    case WithServer => Holds(s, ms + [m], |ms|, None, [], [], [], Frame(m))
  }

  function StepFrom(m: Message, at: Place): Step {
    match at
    case WithTester => Push
    case InBuffer => Pop
    case WithClient => Write(4 + |m|)
    case OnWire => Read(4)
    case HeaderRead => Read(|m|)
    case WithServer => Deliver
  }

  function Next(at: Place): Place {
    match at
    case WithTester => InBuffer
    case InBuffer => WithClient
    case WithClient => OnWire
    case OnWire => HeaderRead
    case _ => WithServer
  }

  function Stops(at: Place): nat {
    match at
    case WithTester => 5
    case InBuffer => 4
    case WithClient => 3
    case OnWire => 2
    case HeaderRead => 1
    case WithServer => 0
  }

  lemma EntersLink(r: Reading, s: State, ms: seq<Message>, m: Message)
    requires Inv(r, s) && Settled(s, ms) && |ms| < C.MAX_SEQ && Sendable(m)
    ensures Enabled(s, Register(m)) && Carries(Apply(r, s, Register(m)), ms, m, WithTester)
  {
  }

  lemma PassesOn(r: Reading, s: State, ms: seq<Message>, m: Message, at: Place)
    requires Inv(r, s) && Sendable(m) && Carries(s, ms, m, at) && at != WithServer && (at == HeaderRead ==> m != [])
    ensures Enabled(s, StepFrom(m, at)) && Carries(Apply(r, s, StepFrom(m, at)), ms, m, Next(at))
  {
    BigEndianRoundTrip(|m|);
  }

  lemma LeavesLink(r: Reading, s: State, ms: seq<Message>, m: Message)
    requires Inv(r, s) && Sendable(m) && Carries(s, ms, m, WithServer)
    ensures Enabled(s, Deliver) && Settled(Apply(r, s, Deliver), ms + [m])
  {
    BigEndianRoundTrip(|m|);
  }

  /** All of these messages are registered and delivered, and the status is st. */
  ghost predicate Ends(s: State, ms: seq<Message>, st: C.TestStatus) {
    s.checker.h.answers == ms && s.delivered == |ms| && s.checker.f.status == st
  }

  ghost predicate CanEnd(r: Reading, s: State, ms: seq<Message>, st: C.TestStatus) {
    Inv(r, s) && exists run: seq<Step> :: Legal(r, s, run) && Ends(After(r, s, run), ms, st)
  }

  lemma AfterOne(r: Reading, s: State, step: Step, run: seq<Step>)
    requires Inv(r, s) && Enabled(s, step) && Inv(r, Apply(r, s, step)) && Legal(r, Apply(r, s, step), run)
    ensures Legal(r, s, [step] + run) && After(r, s, [step] + run) == After(r, Apply(r, s, step), run)
  {
    assert ([step] + run)[1..] == run;
  }

  lemma RunEnds(r: Reading, s: State, run: seq<Step>, ms: seq<Message>, st: C.TestStatus)
    requires Inv(r, s) && Legal(r, s, run) && Ends(After(r, s, run), ms, st)
    ensures CanEnd(r, s, ms, st)
  {
  }

  lemma StepBefore(r: Reading, s: State, step: Step, ms: seq<Message>, st: C.TestStatus)
    requires Inv(r, s) && Enabled(s, step) && CanEnd(r, Apply(r, s, step), ms, st)
    ensures CanEnd(r, s, ms, st)
  {
    var run :| Legal(r, Apply(r, s, step), run) && Ends(After(r, Apply(r, s, step), run), ms, st);
    AfterOne(r, s, step, run);
    RunEnds(r, s, [step] + run, ms, st);
  }

  lemma Enter(r: Reading, s: State, ms: seq<Message>, m: Message, goal: seq<Message>, st: C.TestStatus)
    returns (t: State)
    requires Inv(r, s) && Settled(s, ms) && |ms| < C.MAX_SEQ && Sendable(m)
    ensures Inv(r, t) && Carries(t, ms, m, WithTester)
    ensures CanEnd(r, t, goal, st) ==> CanEnd(r, s, goal, st)
  {
    EntersLink(r, s, ms, m);
    StepKeeps(r, s, Register(m));
    t := Apply(r, s, Register(m));
    if CanEnd(r, t, goal, st) { StepBefore(r, s, Register(m), goal, st); }
  }

  lemma PassOn(r: Reading, s: State, ms: seq<Message>, m: Message, at: Place, goal: seq<Message>, st: C.TestStatus)
    returns (t: State)
    requires Inv(r, s) && Sendable(m) && Carries(s, ms, m, at) && at != WithServer && (at == HeaderRead ==> m != [])
    ensures Inv(r, t) && Carries(t, ms, m, Next(at))
    ensures CanEnd(r, t, goal, st) ==> CanEnd(r, s, goal, st)
  {
    var step := StepFrom(m, at);
    PassesOn(r, s, ms, m, at);
    StepKeeps(r, s, step);
    t := Apply(r, s, step);
    if CanEnd(r, t, goal, st) { StepBefore(r, s, step, goal, st); }
  }

  lemma Leave(r: Reading, s: State, ms: seq<Message>, m: Message, goal: seq<Message>, st: C.TestStatus)
    returns (t: State)
    requires Inv(r, s) && Sendable(m) && Carries(s, ms, m, WithServer)
    ensures Inv(r, t) && Settled(t, ms + [m])
    ensures CanEnd(r, t, goal, st) ==> CanEnd(r, s, goal, st)
  {
    LeavesLink(r, s, ms, m);
    StepKeeps(r, s, Deliver);
    t := Apply(r, s, Deliver);
    if CanEnd(r, t, goal, st) { StepBefore(r, s, Deliver, goal, st); }
  }

  /** A message on its way can be settled. */
  lemma {:induction false} Travel(r: Reading, s: State, ms: seq<Message>, m: Message, at: Place,
                                  goal: seq<Message>, st: C.TestStatus)
    returns (t: State)
    requires Inv(r, s) && Sendable(m) && Carries(s, ms, m, at)
    ensures Inv(r, t) && Settled(t, ms + [m])
    ensures CanEnd(r, t, goal, st) ==> CanEnd(r, s, goal, st)
    decreases Stops(at)
  {
    if at == WithServer || (at == HeaderRead && m == []) {
      assert at == HeaderRead ==> BigEndian(|m|) == Frame(m);
      t := Leave(r, s, ms, m, goal, st);
    } else {
      t := PassOn(r, s, ms, m, at, goal, st);
      t := Travel(r, t, ms, m, Next(at), goal, st);
    }
  }

  lemma CarryOne(r: Reading, s: State, ms: seq<Message>, m: Message, goal: seq<Message>, st: C.TestStatus)
    returns (t: State)
    requires Inv(r, s) && Settled(s, ms) && |ms| < C.MAX_SEQ && Sendable(m)
    ensures Inv(r, t) && Settled(t, ms + [m])
    ensures CanEnd(r, t, goal, st) ==> CanEnd(r, s, goal, st)
  {
    t := Enter(r, s, ms, m, goal, st);
    t := Travel(r, t, ms, m, WithTester, goal, st);
  }

  lemma FlaggedSetsDiff(r: Reading, c: C.State, delivered: nat)
    requires CommitInv(r, c, delivered) && delivered == |c.h.answers| > 0 && !NoneFlagged(r, c.h.answers)
    ensures C.Apply(r, c, C.Query(|c.h.answers|)).f.status == C.Diff
  {
    FinalStatus(r, c, delivered);
  }

  /** A query for the last message finds a flagged one. */
  lemma FirstQueryFails(r: Reading, s: State)
    requires Inv(r, s) && s.delivered == |s.checker.h.answers| > 0 && !NoneFlagged(r, s.checker.h.answers)
    requires Enabled(s, Query(|s.checker.h.answers|))
    ensures Ends(Apply(r, s, Query(|s.checker.h.answers|)), s.checker.h.answers, C.Diff)
  {
    FlaggedSetsDiff(r, s.checker, s.delivered);
  }

  lemma SettledCanEnd(r: Reading, s: State, ms: seq<Message>, st: C.TestStatus)
    requires Inv(r, s) && Settled(s, ms) && |ms| <= C.MAX_SEQ
    requires st == C.Success || (st == C.Diff && !NoneFlagged(r, ms))
    ensures CanEnd(r, s, ms, st)
  {
    if st == C.Success {
      assert Legal(r, s, []) && Ends(After(r, s, []), ms, st);
    } else {
      FirstQueryFails(r, s);
      StepKeeps(r, s, Query(|ms|));
      assert Legal(r, Apply(r, s, Query(|ms|)), []) && Ends(After(r, Apply(r, s, Query(|ms|)), []), ms, st);
      StepBefore(r, s, Query(|ms|), ms, st);
    }
  }

  /** The messages after the first n can be carried too. */
  lemma {:induction false} Proceed(r: Reading, s: State, ms: seq<Message>, n: nat, st: C.TestStatus)
    requires n <= |ms| <= C.MAX_SEQ && AllSendable(ms)
    requires st == C.Success || (st == C.Diff && !NoneFlagged(r, ms))
    requires Inv(r, s) && Settled(s, ms[..n])
    ensures CanEnd(r, s, ms, st)
    decreases |ms| - n
  {
    if n == |ms| {
      assert ms[..n] == ms;
      SettledCanEnd(r, s, ms, st);
    } else {
      assert ms[..n] + [ms[n]] == ms[..n + 1];
      var t := CarryOne(r, s, ms[..n], ms[n], ms, st);
      Proceed(r, t, ms, n + 1, st);
    }
  }

  /** A run that registers these messages and delivers them all. */
  ghost predicate Session(r: Reading, run: seq<Step>, ms: seq<Message>) {
    && Legal(r, START, run)
    && After(r, START, run).checker.h.answers == ms && After(r, START, run).delivered == |ms|
  }

  ghost function Final(r: Reading, run: seq<Step>, ms: seq<Message>): (s: State)
    requires Session(r, run, ms)
    ensures Inv(r, s) && s.checker.h.answers == ms && s.delivered == |ms|
  {
    After(r, START, run)
  }

  /**
   Any messages can be registered, carried and delivered, and if one of
   them is flagged an earlier query can have found it.
   */
  lemma SessionExists(r: Reading, ms: seq<Message>, st: C.TestStatus) returns (run: seq<Step>)
    requires AllSendable(ms) && |ms| <= C.MAX_SEQ
    requires st == C.Success || (st == C.Diff && !NoneFlagged(r, ms))
    ensures Session(r, run, ms) && Final(r, run, ms).checker.f.status == st
  {
    Proceed(r, START, ms, 0, st);
    run :| Legal(r, START, run) && Ends(After(r, START, run), ms, st);
  }

  /** What the query for the last message does after this run, and what it is answered. */
  ghost function LastQuery(r: Reading, run: seq<Step>, ms: seq<Message>): (C.Fields, C.Reply)
    requires Session(r, run, ms)
  {
    C.AnswerQuery(r, Final(r, run, ms).checker.f, |ms|)
  }

  lemma LastQueryOf(r: Reading, c: C.State, ms: seq<Message>)
    requires CommitInv(r, c, |ms|) && c.h.answers == ms && ms != []
    ensures C.AnswerQuery(r, c.f, |ms|).0.status == if NoneFlagged(r, ms) then C.Success else C.Diff
    ensures var reply := C.AnswerQuery(r, c.f, |ms|).1;
      if c.f.status == C.Success && NoneFlagged(r, ms[..|ms| - 1]) then reply == C.Reply(|ms|, C.Success)
      else reply.reason == C.Diff
  {
    FinalStatus(r, c, |ms|);
    FinalReply(r, c, |ms|);
  }

  lemma SessionReply(r: Reading, run: seq<Step>, ms: seq<Message>)
    requires Session(r, run, ms) && ms != []
    ensures LastQuery(r, run, ms).0.status == if NoneFlagged(r, ms) then C.Success else C.Diff
    ensures var reply := LastQuery(r, run, ms).1;
      if Final(r, run, ms).checker.f.status == C.Success && NoneFlagged(r, ms[..|ms| - 1])
      then reply == C.Reply(|ms|, C.Success)
      else reply.reason == C.Diff
  {
    LastQueryOf(r, Final(r, run, ms).checker, ms);
  }

  lemma CleanSessionPasses(r: Reading, run: seq<Step>, ms: seq<Message>)
    requires Session(r, run, ms) && ms != [] && NoneFlagged(r, ms)
    ensures LastQuery(r, run, ms).1.reason == C.Success
  {
    DiffOnlyAtFlagged(r, Final(r, run, ms).checker, |ms|);
    SessionReply(r, run, ms);
  }

  /**
   The last query is answered Success in every session that carries
   these messages exactly if none of them is flagged.
   */
  lemma PassesAlwaysIff(r: Reading, ms: seq<Message>)
    requires AllSendable(ms) && 0 < |ms| <= C.MAX_SEQ
    ensures (forall run: seq<Step> :: Session(r, run, ms) ==> LastQuery(r, run, ms).1.reason == C.Success)
       <==> NoneFlagged(r, ms)
  {
    if NoneFlagged(r, ms) {
      forall run: seq<Step> | Session(r, run, ms) ensures LastQuery(r, run, ms).1.reason == C.Success {
        CleanSessionPasses(r, run, ms);
      }
    } else {
      var run := SessionExists(r, ms, C.Diff);
      SessionReply(r, run, ms);
    }
  }

  /** It is answered Success in some session exactly if none but the last is. */
  lemma PassesSometimesIff(r: Reading, ms: seq<Message>)
    requires AllSendable(ms) && 0 < |ms| <= C.MAX_SEQ
    ensures (exists run: seq<Step> :: Session(r, run, ms) && LastQuery(r, run, ms).1.reason == C.Success)
       <==> NoneFlagged(r, ms[..|ms| - 1])
  {
    if run: seq<Step> :| Session(r, run, ms) && LastQuery(r, run, ms).1.reason == C.Success {
      SessionReply(r, run, ms);
    } else {
      var run := SessionExists(r, ms, C.Success);
      SessionReply(r, run, ms);
    }
  }

  /** So where the last message alone is flagged, the query that sets Diff can itself be answered Success. */
  lemma LastFlaggedPasses(r: Reading, ms: seq<Message>) returns (run: seq<Step>)
    requires AllSendable(ms) && 0 < |ms| <= C.MAX_SEQ
    requires NoneFlagged(r, ms[..|ms| - 1]) && Flagged(r, ms[|ms| - 1])
    ensures Session(r, run, ms)
    ensures LastQuery(r, run, ms).1 == C.Reply(|ms|, C.Success) && LastQuery(r, run, ms).0.status == C.Diff
  {
    run := SessionExists(r, ms, C.Success);
    SessionReply(r, run, ms);
  }

  /** For instance one message that is a NUL byte, compared as meant, and one without, compared as written. */
  lemma OneMessagePasses() returns (meant: seq<Step>, asWritten: seq<Step>)
    ensures Session(Meant, meant, [[0]]) && Session(AsWritten, asWritten, [[1]])
    ensures LastQuery(Meant, meant, [[0]]).1 == C.Reply(1, C.Success)
    ensures LastQuery(Meant, meant, [[0]]).0.status == C.Diff
    ensures LastQuery(AsWritten, asWritten, [[1]]).1 == C.Reply(1, C.Success)
    ensures LastQuery(AsWritten, asWritten, [[1]]).0.status == C.Diff
  {
    FlaggedIff(Meant, [0]);
    FlaggedIff(AsWritten, [1]);
    meant := LastFlaggedPasses(Meant, [[0]]);
    asWritten := LastFlaggedPasses(AsWritten, [[1]]);
  }
}
