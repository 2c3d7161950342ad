/**
 NetworkTestServer of test_server.cpp: the n-th registered answer is paired with the
 n-th received message, and a compare pointer runs along the pairs.

 The comparison in Update is written the other way round from what its verdict means,
 so every statement here is about either reading of it.
 */
module Checker {
  import opened Bytes

  const MAX_SEQ: nat := 0xFFFF_FFFF

  datatype TestStatus = Success | Wait | WaitRPC | Diff | TestError

  datatype Pair = Pair(answer: Message, msg: Message)

  /** Whether Update reports a pair: the unequal ones that `Diff` means, or the equal ones that the text tests for. */
  predicate Flags(r: Reading, p: Pair) {
    match r
    case Meant => p.answer != p.msg
    case AsWritten => p.answer == p.msg
  }

  function Min(a: nat, b: nat): nat { if a <= b then a else b }

  function Max(a: nat, b: nat): nat { if a <= b then b else a }

  // ---------------------------------------------------------------------
  // The fields under the mutex, and what each call does to them.
  // ---------------------------------------------------------------------

  datatype Fields = Fields(info: map<nat, Pair>, regSeq: nat, recvSeq: nat, cmp: nat, status: TestStatus) {
    /** The last index at which both halves of the pair are there. */
    function Available(): nat { Min(regSeq, recvSeq) }

    /** The records held are exactly those between the compare pointer and the last arrival. */
    ghost predicate Window() {
      && cmp <= Available()
      && forall n: nat :: n in info <==> cmp < n <= Max(regSeq, recvSeq)
    }
  }

  datatype Reply = Reply(id: nat, reason: TestStatus)

  function RegisterAnswer(f: Fields, content: Message): (Fields, Reply) {
    if f.status != Success then (f, Reply(0, f.status))
    else
      (f.(info := f.info[f.regSeq + 1 := Pair(content, [])], regSeq := f.regSeq + 1), Reply(f.cmp, Success))
  }

  function CommitMessage(f: Fields, msg: Message): Fields {
    if f.status != Success then f
    else
      var n := f.recvSeq + 1;
      var p := if n in f.info then f.info[n] else Pair([], []);
      f.(info := f.info[n := p.(msg := msg)], recvSeq := n)
  }

  /** One round of the compare loop. */
  function CompareNext(r: Reading, f: Fields): Fields
    requires f.Window() && f.cmp < f.Available()
  {
    var n := f.cmp + 1;
    if Flags(r, f.info[n]) then f.(cmp := n, status := Diff) else f.(cmp := n, info := f.info - {n})
  }

  /** The loop of Update: compare, delete, move on; stop at the first flagged pair. */
  function Scan(r: Reading, f: Fields): Fields
    requires f.Window() && f.status == Success
    decreases f.Available() - f.cmp
  {
    if f.cmp == f.Available() then f
    else
      var g := CompareNext(r, f);
      if g.status == Diff then g else Scan(r, g)
  }

  function AnswerQuery(r: Reading, f: Fields, idx: nat): (Fields, Reply)
    requires f.status == Success ==> f.Window()
  {
    if f.status != Success then (f, Reply(f.cmp, f.status))
    else if idx <= f.cmp then (f, Reply(f.cmp, Success))
    else
      var g := Scan(r, f);
      if g.cmp >= idx then (g, Reply(g.cmp, Success))
      else if g.status != Success then (g, Reply(g.cmp, g.status))
      else if g.cmp == g.recvSeq then (g, Reply(g.cmp, Wait))
      else if g.cmp == g.regSeq then (g, Reply(g.cmp, WaitRPC))
      else (g.(status := TestError), Reply(g.cmp, TestError))
  }

  // ---------------------------------------------------------------------
  // What the calls are meant to be about: the two sequences of messages.
  // ---------------------------------------------------------------------

  /** The answers registered, the messages committed, and the indices whose message arrived before its answer. */
  datatype History = History(answers: seq<Message>, msgs: seq<Message>, late: set<nat>) {
    /** The pair number n. Registering an answer late throws its message away. */
    function At(n: nat): Pair
      requires n > 0
    {
      Pair(if n <= |answers| then answers[n - 1] else [],
           if n <= |msgs| && n !in late then msgs[n - 1] else [])
    }

    function Available(): nat { Min(|answers|, |msgs|) }

    function Registered(content: Message): History {
      History(answers + [content], msgs, if |answers| < |msgs| then late + {|answers| + 1} else late)
    }

    function Committed(msg: Message): History { History(answers, msgs + [msg], late) }
  }

  /** No pair before n is flagged. */
  ghost predicate CleanBefore(r: Reading, h: History, n: nat) {
    forall i: nat :: 0 < i < n ==> !Flags(r, h.At(i))
  }

  /** The first flagged pair from n on, or one past the last pair there is. */
  function FirstFlagged(r: Reading, h: History, n: nat): (k: nat)
    requires 0 < n <= h.Available() + 1
    ensures n <= k <= h.Available() + 1
    ensures k <= h.Available() ==> Flags(r, h.At(k))
    ensures CleanBefore(r, h, n) ==> CleanBefore(r, h, k)
    decreases h.Available() + 1 - n
  {
    if n > h.Available() || Flags(r, h.At(n)) then n else FirstFlagged(r, h, n + 1)
  }

  datatype State = State(f: Fields, h: History)

  ghost predicate Inv(r: Reading, s: State) {
    && s.f.regSeq == |s.h.answers| && s.f.recvSeq == |s.h.msgs|
    && (forall n :: n in s.h.late ==> 0 < n <= s.h.Available())
    && match s.f.status
       case Success =>
         && s.f.Window() && CleanBefore(r, s.h, s.f.cmp + 1)
         && (forall n :: n in s.f.info ==> s.f.info[n] == s.h.At(n))
       case Diff =>
         && 0 < s.f.cmp <= s.h.Available() && CleanBefore(r, s.h, s.f.cmp) && Flags(r, s.h.At(s.f.cmp))
       case _ => false
  }

  const START: State := State(Fields(map[], 0, 0, 0, Success), History([], [], {}))

  datatype Event = Register(content: Message) | Commit(msg: Message) | Query(idx: nat)

  /** The counters are 32 bits wide; a run stays below their wrap-around. */
  predicate InRange(s: State, e: Event) {
    match e
    case Register(_) => s.f.regSeq < MAX_SEQ
    case Commit(_) => s.f.recvSeq < MAX_SEQ
    case Query(idx) => idx <= MAX_SEQ
  }

  function Apply(r: Reading, s: State, e: Event): State
    requires s.f.status == Success ==> s.f.Window()
  {
    match e
    case Register(content) =>
      State(RegisterAnswer(s.f, content).0, if s.f.status == Success then s.h.Registered(content) else s.h)
    case Commit(msg) =>
      State(CommitMessage(s.f, msg), if s.f.status == Success then s.h.Committed(msg) else s.h)
    case Query(idx) => State(AnswerQuery(r, s.f, idx).0, s.h)
  }

  /** Pairs that are complete do not change when more messages arrive. */
  lemma PairsStay(r: Reading, h: History, g: History, n: nat)
    requires forall i: nat :: 0 < i < n ==> g.At(i) == h.At(i)
    requires CleanBefore(r, h, n)
    ensures CleanBefore(r, g, n)
  {
    forall i: nat | 0 < i < n ensures !Flags(r, g.At(i)) {
      assert !Flags(r, h.At(i));
    }
  }

  lemma RegisterKeepsRecords(r: Reading, s: State, content: Message)
    requires Inv(r, s) && s.f.status == Success
    ensures var t := Apply(r, s, Register(content));
      t.f.Window() && forall n :: n in t.f.info ==> t.f.info[n] == t.h.At(n)
  {
    var t := Apply(r, s, Register(content));
    forall n | n in t.f.info ensures t.f.info[n] == t.h.At(n) {
      if n != t.f.regSeq { assert s.f.info[n] == s.h.At(n); }
    }
  }

  lemma RegisterKeeps(r: Reading, s: State, content: Message)
    requires Inv(r, s)
    ensures Inv(r, Apply(r, s, Register(content)))
  {
    if s.f.status == Success {
      RegisterKeepsRecords(r, s, content);
      PairsStay(r, s.h, s.h.Registered(content), s.f.cmp + 1);
    }
  }

  lemma CommitKeepsRecords(r: Reading, s: State, msg: Message)
    requires Inv(r, s) && s.f.status == Success
    ensures var t := Apply(r, s, Commit(msg));
      t.f.Window() && forall n :: n in t.f.info ==> t.f.info[n] == t.h.At(n)
  {
    var t := Apply(r, s, Commit(msg));
    forall n | n in t.f.info ensures t.f.info[n] == t.h.At(n) {
      if n != t.f.recvSeq { assert s.f.info[n] == s.h.At(n); }
    }
  }

  lemma CommitKeeps(r: Reading, s: State, msg: Message)
    requires Inv(r, s)
    ensures Inv(r, Apply(r, s, Commit(msg)))
  {
    if s.f.status == Success {
      CommitKeepsRecords(r, s, msg);
      PairsStay(r, s.h, s.h.Committed(msg), s.f.cmp + 1);
    }
  }

  lemma CompareKeeps(r: Reading, f: Fields, h: History)
    requires Inv(r, State(f, h)) && f.status == Success && f.cmp < f.Available()
    ensures Inv(r, State(CompareNext(r, f), h))
  {
    assert f.info[f.cmp + 1] == h.At(f.cmp + 1);
  }

  /** The compare loop stops at the first flagged pair from the compare pointer on, or at the last pair. */
  lemma {:induction false} ScanFinds(r: Reading, f: Fields, h: History)
    requires Inv(r, State(f, h)) && f.status == Success
    ensures Inv(r, State(Scan(r, f), h))
    ensures Scan(r, f).regSeq == f.regSeq && Scan(r, f).recvSeq == f.recvSeq
    ensures var k := FirstFlagged(r, h, f.cmp + 1);
      if k <= h.Available() then Scan(r, f).status == Diff && Scan(r, f).cmp == k
      else Scan(r, f).status == Success && Scan(r, f).cmp == h.Available()
    decreases f.Available() - f.cmp
  {
    if f.cmp == f.Available() {
    } else {
      CompareKeeps(r, f, h);
      if !Flags(r, f.info[f.cmp + 1]) {
        ScanFinds(r, CompareNext(r, f), h);
      }
    }
  }

  lemma StepKeeps(r: Reading, s: State, e: Event)
    requires Inv(r, s)
    ensures Inv(r, Apply(r, s, e))
  {
    match e
    case Register(content) => RegisterKeeps(r, s, content);
    case Commit(msg) => CommitKeeps(r, s, msg);
    case Query(idx) => if s.f.status == Success { ScanFinds(r, s.f, s.h); }
  }

  // ---------------------------------------------------------------------
  // Every run.
  // ---------------------------------------------------------------------

  ghost predicate Legal(r: Reading, s: State, run: seq<Event>)
    requires Inv(r, s)
    decreases |run|
  {
    run == [] || (InRange(s, run[0]) && (StepKeeps(r, s, run[0]); Legal(r, Apply(r, s, run[0]), run[1..])))
  }

  /** The state after a run. Each step is defined because the one before kept the invariant. */
  ghost function After(r: Reading, s: State, run: seq<Event>): (t: State)
    requires Inv(r, s) && Legal(r, s, run)
    ensures Inv(r, t)
    decreases |run|
  {
    if run == [] then s else
      StepKeeps(r, s, run[0]);
      After(r, Apply(r, s, run[0]), run[1..])
  }

  /**
   While the checker is satisfied, it holds the records of exactly the open window. The two
   branches that answer TestError are dead: no query gets it, and the pointer never overtakes.
   */
  lemma WindowInvariant(r: Reading, run: seq<Event>, idx: nat)
    requires Legal(r, START, run)
    ensures var f := After(r, START, run).f;
      && (f.status == Success || f.status == Diff)
      && (f.status == Success ==>
            && f.cmp <= Min(f.recvSeq, f.regSeq)
            && forall n: nat :: n in f.info <==> f.cmp < n <= Max(f.recvSeq, f.regSeq))
      && AnswerQuery(r, f, idx).0.status != TestError && AnswerQuery(r, f, idx).1.reason != TestError
  {
    NoTestError(r, After(r, START, run), idx);
  }

  lemma NoTestError(r: Reading, s: State, idx: nat)
    requires Inv(r, s)
    ensures AnswerQuery(r, s.f, idx).0.status != TestError && AnswerQuery(r, s.f, idx).1.reason != TestError
  {
    if s.f.status == Success { ScanFinds(r, s.f, s.h); }
  }

  /** Once a verdict of Diff is reached nothing changes any more. */
  lemma {:induction false} DiffIsSticky(r: Reading, s: State, run: seq<Event>)
    requires Inv(r, s) && s.f.status == Diff && Legal(r, s, run)
    ensures After(r, s, run) == s
    decreases |run|
  {
    if run == [] {
    } else {
      DiffIsSticky(r, s, run[1..]);
    }
  }

  /** Every answer that a query can get, in terms of the two sequences alone. */
  lemma QueryReply(r: Reading, s: State, idx: nat)
    requires Inv(r, s) && s.f.status == Success && idx > s.f.cmp
    ensures var k := FirstFlagged(r, s.h, s.f.cmp + 1);
      var m := s.h.Available();
      AnswerQuery(r, s.f, idx).1 ==
        if k <= m then Reply(k, if idx <= k then Success else Diff)
        else Reply(m, if idx <= m then Success else if m == |s.h.msgs| then Wait else WaitRPC)
    ensures CleanBefore(r, s.h, FirstFlagged(r, s.h, s.f.cmp + 1))
  {
    ScanFinds(r, s.f, s.h);
  }

  /** A query is about to run the compare pointer into the first flagged pair, and asks for just that index. */
  ghost predicate Discovers(r: Reading, s: State, idx: nat)
    requires Inv(r, s)
  {
    s.f.status == Success && s.f.cmp < idx <= s.h.Available() && idx == FirstFlagged(r, s.h, s.f.cmp + 1)
  }

  lemma UnsoundIff(r: Reading, s: State, idx: nat)
    requires Inv(r, s) && idx > 0
    ensures var reply := AnswerQuery(r, s.f, idx).1;
      && (reply.reason == Success ==> idx <= s.h.Available() && CleanBefore(r, s.h, idx))
      && (reply.reason == Success && (idx > s.h.Available() || !CleanBefore(r, s.h, idx + 1)) <==> Discovers(r, s, idx))
  {
    if s.f.status == Success && idx > s.f.cmp {
      QueryReply(r, s, idx);
      var k := FirstFlagged(r, s.h, s.f.cmp + 1);
      assert k <= s.h.Available() ==> Flags(r, s.h.At(k));
    }
  }

  /**
   The verdict: Success for i says that pairs 1 to i have arrived and none of them is flagged
   -- unless the first flagged pair that the pointer has still to meet is at i itself. In that
   case, and in no other, the answer is a false Success.
   */
  lemma SuccessIsSoundUnless(r: Reading, run: seq<Event>, idx: nat)
    requires Legal(r, START, run) && idx > 0
    ensures var s := After(r, START, run);
      var reply := AnswerQuery(r, s.f, idx).1;
      && (reply.reason == Success ==> idx <= s.h.Available() && CleanBefore(r, s.h, idx))
      && (reply.reason == Success && (idx > s.h.Available() || !CleanBefore(r, s.h, idx + 1)) <==>
            && s.f.status == Success && s.f.cmp < idx <= s.h.Available()
            && idx == FirstFlagged(r, s.h, s.f.cmp + 1))
  {
    UnsoundIff(r, After(r, START, run), idx);
  }

  /** A query for the last pair there is leaves the status at Success if no pair is flagged, and at Diff if one is. */
  lemma FullQuery(r: Reading, s: State)
    requires Inv(r, s) && s.h.Available() > 0
    ensures AnswerQuery(r, s.f, s.h.Available()).0.status
         == if CleanBefore(r, s.h, s.h.Available() + 1) then Success else Diff
  {
    if s.f.status == Success {
      ScanFinds(r, s.f, s.h);
      var k := FirstFlagged(r, s.h, s.f.cmp + 1);
      assert CleanBefore(r, s.h, k);
      assert k <= s.h.Available() ==> Flags(r, s.h.At(k));
    } else {
      assert Flags(r, s.h.At(s.f.cmp));
    }
  }

  /**
   What that query is answered: Success also when the last pair alone is
   flagged, for this query is the one that finds it.
   */
  lemma FullQueryReply(r: Reading, s: State)
    requires Inv(r, s) && s.h.Available() > 0
    ensures var n := s.h.Available();
      var reply := AnswerQuery(r, s.f, n).1;
      if s.f.status == Success && CleanBefore(r, s.h, n) then reply == Reply(n, Success)
      else reply.reason == Diff
  {
    var n := s.h.Available();
    if s.f.status == Success && n > s.f.cmp {
      QueryReply(r, s, n);
      var k := FirstFlagged(r, s.h, s.f.cmp + 1);
      assert k <= n ==> Flags(r, s.h.At(k));
    }
  }

  lemma CleanMeansEqual(h: History, n: nat)
    requires h.late == {} && n <= h.Available() && CleanBefore(Meant, h, n + 1)
    ensures h.answers[..n] == h.msgs[..n]
  {
    forall i | 0 <= i < n ensures h.answers[i] == h.msgs[i] {
      assert !Flags(Meant, h.At(i + 1));
    }
  }

  /**
   Read as meant, and with each answer registered before its message: a Success for i, other
   than that false one, means that the first i messages agree with the first i answers.
   */
  lemma SuccessMeansEqual(run: seq<Event>, idx: nat)
    requires Legal(Meant, START, run) && After(Meant, START, run).h.late == {} && idx > 0
    requires !Discovers(Meant, After(Meant, START, run), idx)
    requires AnswerQuery(Meant, After(Meant, START, run).f, idx).1.reason == Success
    ensures var h := After(Meant, START, run).h;
      idx <= h.Available() && h.answers[..idx] == h.msgs[..idx]
  {
    UnsoundIff(Meant, After(Meant, START, run), idx);
    CleanMeansEqual(After(Meant, START, run).h, idx);
  }

  /** Diff is set exactly when a query runs the compare pointer into the first flagged pair. */
  lemma DiffExactly(r: Reading, run: seq<Event>, e: Event)
    requires Legal(r, START, run) && After(r, START, run).f.status == Success
    ensures var s := After(r, START, run);
      Apply(r, s, e).f.status == Diff <==>
        e.Query? && e.idx > s.f.cmp && !CleanBefore(r, s.h, s.h.Available() + 1)
  {
    var s := After(r, START, run);
    if e.Query? && e.idx > s.f.cmp {
      QueryFindsFlag(r, s, e.idx);
    }
  }

  lemma QueryFindsFlag(r: Reading, s: State, idx: nat)
    requires Inv(r, s) && s.f.status == Success && idx > s.f.cmp
    ensures AnswerQuery(r, s.f, idx).0.status == Diff <==> !CleanBefore(r, s.h, s.h.Available() + 1)
  {
    ScanFinds(r, s.f, s.h);
    var k := FirstFlagged(r, s.h, s.f.cmp + 1);
    assert CleanBefore(r, s.h, k);
    assert k <= s.h.Available() ==> Flags(r, s.h.At(k));
  }

  /**
   The exception is real: for any two different messages, the first
   query for them succeeds and the second does not.
   */
  lemma FirstQueryMissesMismatch(a: Message, b: Message)
    requires a != b
    ensures var run := [Register(a), Commit(b)];
      && Legal(Meant, START, run) && Legal(Meant, START, run + [Query(1)])
      && AnswerQuery(Meant, After(Meant, START, run).f, 1).1 == Reply(1, Success)
      && AnswerQuery(Meant, After(Meant, START, run + [Query(1)]).f, 1).1 == Reply(1, Diff)
  {
    var run := [Register(a), Commit(b)];
    var s := Apply(Meant, START, run[0]);
    var t := Apply(Meant, s, run[1]);
    AfterOne(Meant, START, Register(a), [Commit(b)]);
    AfterOne(Meant, s, Commit(b), []);
    AfterOne(Meant, START, Register(a), [Commit(b), Query(1)]);
    AfterOne(Meant, s, Commit(b), [Query(1)]);
    AfterOne(Meant, t, Query(1), []);
    assert run == [Register(a)] + [Commit(b)];
    assert run + [Query(1)] == [Register(a)] + [Commit(b), Query(1)];
    assert t.f.info[1] == Pair(a, b) && t.f.Available() == 1;
  }

  lemma AfterOne(r: Reading, s: State, e: Event, rest: seq<Event>)
    requires Inv(r, s)
    ensures Inv(r, Apply(r, s, e))
    ensures Legal(r, s, [e] + rest) <==> InRange(s, e) && Legal(r, Apply(r, s, e), rest)
    ensures Legal(r, s, [e] + rest) ==> After(r, s, [e] + rest) == After(r, Apply(r, s, e), rest)
  {
    StepKeeps(r, s, e);
    assert ([e] + rest)[1..] == rest;
  }
}
