/**
 What test_server.cpp is for, without records, pointers into them or a compare loop: a
 reference checker that looks only at the two sequences of messages and at how many pairs
 earlier queries have compared. The fields of module Checker follow it in every run.
 */
module CheckerReference {
  import opened Bytes
  import opened Checker

  datatype Seen = Seen(h: History, compared: nat, failed: bool)

  const NOTHING: Seen := Seen(History([], [], {}), 0, false)

  /** The first flagged pair of all, or one past the last pair. */
  function Culprit(r: Reading, h: History): (k: nat)
    ensures 0 < k <= h.Available() + 1
    ensures k <= h.Available() ==> Flags(r, h.At(k))
    ensures CleanBefore(r, h, k)
  {
    FirstFlagged(r, h, 1)
  }

  function Observe(r: Reading, o: Seen, e: Event): Seen {
    if o.failed then o
    else
      match e
      case Register(content) => o.(h := o.h.Registered(content))
      case Commit(msg) => o.(h := o.h.Committed(msg))
      case Query(idx) =>
        var k := Culprit(r, o.h);
        if idx <= o.compared then o
        else if k <= o.h.Available() then Seen(o.h, k, true)
        else o.(compared := o.h.Available())
  }

  function ObserveAll(r: Reading, o: Seen, run: seq<Event>): Seen
    decreases |run|
  {
    if run == [] then o else ObserveAll(r, Observe(r, o, run[0]), run[1..])
  }

  /**
   The answer to a query: what was asked for has been compared, or there is
   a culprit before it, or it has not all arrived.
   */
  function Verdict(r: Reading, o: Seen, idx: nat): Reply {
    var (k, m) := (Culprit(r, o.h), o.h.Available());
    if o.failed then Reply(o.compared, Diff)
    else if idx <= o.compared then Reply(o.compared, Success)
    else if k <= m then Reply(k, if idx <= k then Success else Diff)
    else if idx <= m then Reply(m, Success)
    else Reply(m, if |o.h.msgs| <= |o.h.answers| then Wait else WaitRPC)
  }

  function Receipt(o: Seen): Reply {
    if o.failed then Reply(0, Diff) else Reply(o.compared, Success)
  }

  ghost predicate Follows(f: Fields, h: History, o: Seen) {
    && h == o.h && f.cmp == o.compared
    && f.status == if o.failed then Diff else Success
  }

  lemma NotBefore(r: Reading, h: History, n: nat, k: nat)
    requires CleanBefore(r, h, n) && k > 0 && Flags(r, h.At(k))
    ensures n <= k
  {
  }

  /** Two first flagged pairs are one. */
  lemma CulpritIs(r: Reading, h: History, k: nat)
    requires 0 < k <= h.Available() + 1 && CleanBefore(r, h, k)
    requires k <= h.Available() ==> Flags(r, h.At(k))
    ensures Culprit(r, h) == k
  {
    var c := Culprit(r, h);
    if c <= h.Available() { NotBefore(r, h, k, c); }
    if k <= h.Available() { NotBefore(r, h, c, k); }
  }

  lemma CulpritFrom(r: Reading, s: State)
    requires Inv(r, s) && s.f.status == Success
    ensures Culprit(r, s.h) == FirstFlagged(r, s.h, s.f.cmp + 1)
  {
    CulpritIs(r, s.h, FirstFlagged(r, s.h, s.f.cmp + 1));
  }

  lemma StepFollows(r: Reading, s: State, o: Seen, e: Event)
    requires Inv(r, s) && Follows(s.f, s.h, o)
    ensures Follows(Apply(r, s, e).f, Apply(r, s, e).h, Observe(r, o, e))
  {
    if s.f.status == Success {
      CulpritFrom(r, s);
      ScanFinds(r, s.f, s.h);
    }
  }

  /**
   Every answer that a query can get, in either status: Success from a satisfied checker exactly
   if the pair asked for has arrived and none before it is flagged; Diff for ever after, with the
   first flagged pair as its id.
   */
  lemma EveryReply(r: Reading, s: State, idx: nat)
    requires Inv(r, s)
    ensures var reply := AnswerQuery(r, s.f, idx).1;
      var (k, m) := (Culprit(r, s.h), s.h.Available());
      if s.f.status == Success then
        && (reply.reason == Success <==> idx <= m && CleanBefore(r, s.h, idx))
        && (reply.reason == Diff <==> k <= m && k < idx)
        && (reply.reason == Wait <==> m < k && m < idx && |s.h.msgs| <= |s.h.answers|)
        && (reply.reason == WaitRPC <==> m < k && m < idx && |s.h.answers| < |s.h.msgs|)
        && reply.id == if idx <= s.f.cmp then s.f.cmp else if k <= m then k else m
      else reply == Reply(k, Diff)
  {
    if s.f.status == Success {
      CulpritFrom(r, s);
      if idx > s.f.cmp { QueryReply(r, s, idx); }
      var k := Culprit(r, s.h);
      assert k < idx && k <= s.h.Available() ==> !CleanBefore(r, s.h, idx);
    } else {
      CulpritIs(r, s.h, s.f.cmp);
    }
  }

  lemma VerdictIsReply(r: Reading, s: State, o: Seen, idx: nat)
    requires Inv(r, s) && Follows(s.f, s.h, o)
    ensures AnswerQuery(r, s.f, idx).1 == Verdict(r, o, idx)
  {
    if s.f.status == Success && idx > s.f.cmp {
      CulpritFrom(r, s);
      QueryReply(r, s, idx);
    }
  }

  lemma {:induction false} RunFollows(r: Reading, s: State, o: Seen, run: seq<Event>)
    requires Inv(r, s) && Legal(r, s, run) && Follows(s.f, s.h, o)
    ensures Follows(After(r, s, run).f, After(r, s, run).h, ObserveAll(r, o, run))
    decreases |run|
  {
    if run == [] {
    } else {
      StepKeeps(r, s, run[0]);
      StepFollows(r, s, o, run[0]);
      RunFollows(r, Apply(r, s, run[0]), Observe(r, o, run[0]), run[1..]);
    }
  }

  /** In every run, the fields answer each query and each registration as the reference does. */
  lemma AnswersAsReference(r: Reading, run: seq<Event>, idx: nat, content: Message)
    requires Legal(r, START, run)
    ensures var (f, o) := (After(r, START, run).f, ObserveAll(r, NOTHING, run));
      && AnswerQuery(r, f, idx).1 == Verdict(r, o, idx)
      && RegisterAnswer(f, content).1 == Receipt(o)
  {
    RunFollows(r, START, NOTHING, run);
    VerdictIsReply(r, After(r, START, run), ObserveAll(r, NOTHING, run), idx);
  }

  /** Registering: after Diff the answer is Diff; otherwise it is Success, with the number of pairs found clean. */
  lemma RegisterReply(r: Reading, s: State, content: Message)
    requires Inv(r, s)
    ensures var reply := RegisterAnswer(s.f, content).1;
      && (reply.reason == Success <==> s.f.status == Success)
      && (reply.reason == Diff <==> Culprit(r, s.h) <= s.h.Available() && s.f.cmp == Culprit(r, s.h))
      && (reply.reason == Success ==> reply.id == s.f.cmp < Culprit(r, s.h))
  {
    if s.f.status == Success {
      CulpritFrom(r, s);
    } else {
      CulpritIs(r, s.h, s.f.cmp);
    }
  }
}
