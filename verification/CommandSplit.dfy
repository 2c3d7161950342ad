/**
 command_split of myshell3.c: the line is cut into tokens in place, by strtok, and the
 tokens are dealt out to the segments of a fixed array, each ended by a null pointer.
 For tokens that do not start with a quote or `~`. strtok is that of section 7.24.5.8 of ISO C11.
 */
module CommandSplit {

  const SEGMENTS: nat := 8
  const MAX_CMD: nat := 20
  const NUL: char := '\0'

  // ---------------------------------------------------------------------
  // What the line means.
  // ---------------------------------------------------------------------

  function WordLength(line: seq<char>): (n: nat)
    ensures n <= |line| && (forall i :: 0 <= i < n ==> line[i] != ' ') && (n < |line| ==> line[n] == ' ')
  {
    if line == [] || line[0] == ' ' then 0 else 1 + WordLength(line[1..])
  }

  /** The words between the spaces of a line. */
  function Tokens(line: seq<char>): seq<string>
    decreases |line|
  {
    if line == [] then []
    else if line[0] == ' ' then Tokens(line[1..])
    else var n := WordLength(line); [line[..n]] + Tokens(line[n..])
  }

  ghost predicate IsWord(t: string) {
    t != [] && forall i :: 0 <= i < |t| ==> t[i] != ' '
  }

  function Join(ts: seq<string>): seq<char> {
    if ts == [] then [] else ts[0] + [' '] + Join(ts[1..])
  }

  lemma {:induction false} WordLengthOf(t: string, rest: seq<char>)
    requires (forall i :: 0 <= i < |t| ==> t[i] != ' ') && (rest == [] || rest[0] == ' ')
    ensures WordLength(t + rest) == |t|
  {
    if t != [] {
      assert (t + rest)[1..] == t[1..] + rest;
      WordLengthOf(t[1..], rest);
    } else {
      assert t + rest == rest;
    }
  }

  /** Words joined by spaces are the tokens of the line. */
  lemma {:induction false} TokensOfJoin(ts: seq<string>)
    requires forall i :: 0 <= i < |ts| ==> IsWord(ts[i])
    ensures Tokens(Join(ts)) == ts
  {
    if ts == [] {
    } else {
      var rest := [' '] + Join(ts[1..]);
      assert Join(ts) == ts[0] + rest;
      WordLengthOf(ts[0], rest);
      assert Join(ts)[0] == ts[0][0] && Join(ts)[..|ts[0]|] == ts[0] && Join(ts)[|ts[0]|..] == rest;
      assert rest[1..] == Join(ts[1..]);
      TokensOfJoin(ts[1..]);
    }
  }

  lemma {:induction false} WordLengthBefore(a: seq<char>, b: seq<char>)
    ensures WordLength(a + [' '] + b) == WordLength(a)
  {
    if a == [] {
    } else {
      assert (a + [' '] + b)[1..] == a[1..] + [' '] + b;
      WordLengthBefore(a[1..], b);
    }
  }

  /** A space separates: with TokensOfWord this determines the tokens of every line. */
  lemma {:induction false} TokensAtSpace(a: seq<char>, b: seq<char>)
    ensures Tokens(a + [' '] + b) == Tokens(a) + Tokens(b)
    decreases |a|
  {
    var line := a + [' '] + b;
    if a == [] {
      assert line[1..] == b;
    } else if a[0] == ' ' {
      assert line[1..] == a[1..] + [' '] + b;
      TokensAtSpace(a[1..], b);
    } else {
      var n := WordLength(a);
      WordLengthBefore(a, b);
      assert line[..n] == a[..n] && line[n..] == a[n..] + [' '] + b;
      TokensAtSpace(a[n..], b);
      assert [a[..n]] + (Tokens(a[n..]) + Tokens(b)) == [a[..n]] + Tokens(a[n..]) + Tokens(b);
    }
  }

  /** What has no space in it is one token, unless it is nothing. */
  lemma TokensOfWord(w: string)
    requires forall i :: 0 <= i < |w| ==> w[i] != ' '
    ensures Tokens(w) == if w == [] then [] else [w]
  {
    assert w + [] == w;
    WordLengthOf(w, []);
  }

  function WithoutSpaces(line: seq<char>): seq<char> {
    if line == [] then [] else (if line[0] == ' ' then [] else [line[0]]) + WithoutSpaces(line[1..])
  }

  function Concat(ts: seq<string>): seq<char> {
    if ts == [] then [] else ts[0] + Concat(ts[1..])
  }

  lemma {:induction false} WithoutSpacesWord(line: seq<char>, n: nat)
    requires n <= |line| && forall i :: 0 <= i < n ==> line[i] != ' '
    ensures WithoutSpaces(line) == line[..n] + WithoutSpaces(line[n..])
  {
    if n == 0 {
    } else {
      WithoutSpacesWord(line[1..], n - 1);
      assert line[1..][n - 1..] == line[n..];
      assert [line[0]] + line[1..][..n - 1] == line[..n];
    }
  }

  /** Tokens are words, and hold every character of the line but the spaces, in order. */
  lemma {:induction false} TokensKeepCharacters(line: seq<char>)
    ensures forall i :: 0 <= i < |Tokens(line)| ==> IsWord(Tokens(line)[i])
    ensures Concat(Tokens(line)) == WithoutSpaces(line)
    decreases |line|
  {
    if line == [] {
    } else {
      if line[0] == ' ' {
        TokensKeepCharacters(line[1..]);
      } else {
        var n := WordLength(line);
        WithoutSpacesWord(line, n);
        TokensKeepCharacters(line[n..]);
      }
    }
  }

  predicate IsOperator(t: string) {
    t != [] && (t[0] == '|' || t[0] == '>' || t[0] == '<' || t[0] == '&')
  }

  /** The sign of an operator; 0 for anything that only begins like one. */
  function Sign(t: string): nat {
    if t == "|" then 1 else if t == ">" then 2 else if t == "<" then 3
    else if t == ">>" then 4 else if t == "&" then 5 else 0
  }

  function Operator(sign: nat): string {
    match sign
    case 1 => "|"
    case 2 => ">"
    case 3 => "<"
    case 4 => ">>"
    case 5 => "&"
    case _ => ""
  }

  /** The codes: 0 is for none of the five. */
  lemma SignCodes(t: string)
    ensures (t == "|" <==> Sign(t) == 1) && (t == ">" <==> Sign(t) == 2) && (t == "<" <==> Sign(t) == 3)
    ensures (t == ">>" <==> Sign(t) == 4) && (t == "&" <==> Sign(t) == 5)
    ensures Sign(t) <= 5
  {
  }

  datatype Action = RunCommand | RunPipe | Overwrite | AppendTo

  /** What execute does with a segment of this sign. */
  function Execute(sign: nat): (a: Action)
    requires sign <= 5
    ensures a == RunCommand <==> sign == 0 || sign == 5
    ensures a == RunPipe <==> sign == 1 || sign == 3
    ensures a == Overwrite <==> sign == 2
  {
    match sign
    case 1 => RunPipe
    case 2 => Overwrite
    case 3 => RunPipe
    case 4 => AppendTo
    case _ => RunCommand
  }

  /** So each operator leads to its own action; `<` is a pipe whose first command reads the file. */
  lemma OperatorAction(t: string)
    ensures Sign(t) <= 5
    ensures Execute(Sign(t)) == (if t == "|" || t == "<" then RunPipe else if t == ">" then Overwrite
                                 else if t == ">>" then AppendTo else RunCommand)
  {
    SignCodes(t);
  }

  datatype Segment = Segment(args: seq<string>, sign: nat)

  /** One token more: an operator closes the last segment, anything else is an argument of it. */
  function Add(segs: seq<Segment>, t: string): seq<Segment>
    requires segs != []
  {
    var k := |segs| - 1;
    if IsOperator(t) then segs[k := Segment(segs[k].args, Sign(t))] + [Segment([], 0)]
    else segs[k := Segment(segs[k].args + [t], segs[k].sign)]
  }

  function AddAll(segs: seq<Segment>, ts: seq<string>): (all: seq<Segment>)
    requires segs != []
    ensures |all| >= |segs|
    decreases |ts|
  {
    if ts == [] then segs else AddAll(Add(segs, ts[0]), ts[1..])
  }

  function Split(ts: seq<string>): seq<Segment> { AddAll([Segment([], 0)], ts) }

  /** The segments and their operators as tokens again. */
  function Flatten(segs: seq<Segment>): seq<string> {
    if segs == [] then []
    else if |segs| == 1 then segs[0].args
    else segs[0].args + [Operator(segs[0].sign)] + Flatten(segs[1..])
  }

  /** What is left of a token: of an operator, what its sign stands for. */
  function Restored(t: string): string { if IsOperator(t) then Operator(Sign(t)) else t }

  function AllRestored(ts: seq<string>): seq<string> {
    seq(|ts|, i requires 0 <= i < |ts| => Restored(ts[i]))
  }

  lemma RestoredIff(t: string)
    ensures Restored(t) == t <==> (IsOperator(t) ==> Sign(t) != 0)
  {
  }

  lemma RestoredFirst(before: seq<string>, ts: seq<string>)
    requires ts != []
    ensures before + [Restored(ts[0])] + AllRestored(ts[1..]) == before + AllRestored(ts)
  {
    assert [Restored(ts[0])] + AllRestored(ts[1..]) == AllRestored(ts);
  }

  lemma {:induction false} FlattenAdd(segs: seq<Segment>, t: string)
    requires segs != []
    ensures Flatten(Add(segs, t)) == Flatten(segs) + [Restored(t)]
  {
    if |segs| == 1 {
    } else {
      FlattenAdd(segs[1..], t);
      assert Add(segs, t)[1..] == Add(segs[1..], t);
    }
  }

  /** Splitting loses nothing but the tokens that begin like an operator without being one. */
  lemma {:induction false} FlattenSplit(segs: seq<Segment>, ts: seq<string>)
    requires segs != []
    ensures Flatten(AddAll(segs, ts)) == Flatten(segs) + AllRestored(ts)
    decreases |ts|
  {
    if ts == [] {
    } else {
      FlattenAdd(segs, ts[0]);
      FlattenSplit(Add(segs, ts[0]), ts[1..]);
      RestoredFirst(Flatten(segs), ts);
    }
  }

  lemma AllRestoredIff(ts: seq<string>)
    ensures AllRestored(ts) == ts <==> forall i :: 0 <= i < |ts| && IsOperator(ts[i]) ==> Sign(ts[i]) != 0
  {
    forall i | 0 <= i < |ts| ensures AllRestored(ts)[i] == ts[i] <==> (IsOperator(ts[i]) ==> Sign(ts[i]) != 0) {
      RestoredIff(ts[i]);
    }
    if AllRestored(ts) != ts {
      var i :| 0 <= i < |ts| && AllRestored(ts)[i] != ts[i];
    }
  }

  /**
   The tokens come back exactly if every token that begins with an
   operator character is one of the five operators.
   */
  lemma SplitLosesNothingIff(ts: seq<string>)
    ensures Flatten(Split(ts)) == ts <==> forall i :: 0 <= i < |ts| && IsOperator(ts[i]) ==> Sign(ts[i]) != 0
  {
    FlattenSplit([Segment([], 0)], ts);
    assert Flatten([Segment([], 0)]) + AllRestored(ts) == AllRestored(ts);
    AllRestoredIff(ts);
  }

  ghost predicate NoOperators(ts: seq<string>) { forall i :: 0 <= i < |ts| ==> !IsOperator(ts[i]) }

  lemma {:induction false} AddPlain(segs: seq<Segment>, args: seq<string>)
    requires segs != [] && NoOperators(args)
    ensures var k := |segs| - 1;
      AddAll(segs, args) == segs[k := Segment(segs[k].args + args, segs[k].sign)]
    decreases |args|
  {
    var k := |segs| - 1;
    if args == [] {
      assert segs[k].args + args == segs[k].args;
    } else {
      AddPlain(Add(segs, args[0]), args[1..]);
      assert segs[k].args + [args[0]] + args[1..] == segs[k].args + args;
    }
  }

  lemma {:induction false} AddAppend(segs: seq<Segment>, a: seq<string>, b: seq<string>)
    requires segs != []
    ensures AddAll(segs, a + b) == AddAll(AddAll(segs, a), b)
    decreases |a|
  {
    if a == [] {
      assert a + b == b;
    } else {
      assert (a + b)[1..] == a[1..] + b;
      AddAppend(Add(segs, a[0]), a[1..], b);
    }
  }

  /** Segments that are complete stay as they are. */
  lemma {:induction false} AddBehind(done: seq<Segment>, segs: seq<Segment>, ts: seq<string>)
    requires segs != []
    ensures AddAll(done + segs, ts) == done + AddAll(segs, ts)
    decreases |ts|
  {
    if ts == [] {
    } else {
      assert Add(done + segs, ts[0]) == done + Add(segs, ts[0]);
      AddBehind(done, Add(segs, ts[0]), ts[1..]);
    }
  }

  /** Tokens without an operator are one segment. */
  lemma SplitPlain(args: seq<string>)
    requires NoOperators(args)
    ensures Split(args) == [Segment(args, 0)]
  {
    AddPlain([Segment([], 0)], args);
    assert [] + args == args;
  }

  /** The first operator ends the first segment and gives it its sign; the tokens behind it are split on their own. */
  lemma SplitAtOperator(args: seq<string>, op: string, rest: seq<string>)
    requires NoOperators(args) && IsOperator(op)
    ensures Split(args + [op] + rest) == [Segment(args, Sign(op))] + Split(rest)
  {
    var start := [Segment([], 0)];
    assert args + [op] + rest == args + ([op] + rest);
    AddAppend(start, args, [op] + rest);
    SplitPlain(args);
    assert ([op] + rest)[1..] == rest;
    assert Add([Segment(args, 0)], op) == [Segment(args, Sign(op))] + start;
    AddBehind([Segment(args, Sign(op))], start, rest);
  }

  /** A line on which one is lost: `|b` ends the segment, and its text is in none of them. */
  lemma LongOperatorIsLost()
    ensures Tokens("a |b") == ["a", "|b"]
    ensures Split(Tokens("a |b")) == [Segment(["a"], 0), Segment([], 0)]
    ensures Flatten(Split(Tokens("a |b"))) == ["a", ""]
  {
    TokensOfLine();
    var none := [Segment([], 0)];
    var one := [Segment(["a"], 0)];
    assert [] + ["a"] == ["a"];
    assert Add(none, "a") == one;
    assert Add(one, "|b") == one + none;
    assert ["a", "|b"][1..] == ["|b"] && ["|b"][1..] == [];
    assert AddAll(one, ["|b"]) == AddAll(one + none, []);
    assert (one + none)[1..] == none;
  }

  lemma TokensOfLine()
    ensures Tokens("a |b") == ["a", "|b"]
  {
    WordLengthOf("a", " |b");
    WordLengthOf("|b", "");
    assert "a" + " |b" == "a |b" && "|b" + "" == "|b";
    assert "a |b"[1..] == " |b" && " |b"[1..] == "|b" && "|b"[2..] == "";
  }

  /** The segments fit the array, and the arguments of each fit its argument list with the null pointer. */
  ghost predicate Fits(segs: seq<Segment>) {
    |segs| <= SEGMENTS && forall i :: 0 <= i < |segs| ==> |segs[i].args| <= MAX_CMD
  }

  lemma {:induction false} FitsBefore(segs: seq<Segment>, ts: seq<string>)
    requires segs != [] && Fits(AddAll(segs, ts))
    ensures Fits(segs)
    decreases |ts|
  {
    if ts == [] {
    } else {
      var more := Add(segs, ts[0]);
      FitsBefore(more, ts[1..]);
      assert forall i :: 0 <= i < |segs| ==> |segs[i].args| <= |more[i].args|;
    }
  }

  // ---------------------------------------------------------------------
  // The buffer, and strtok over it.
  // ---------------------------------------------------------------------

  /** The C string at offset p of the buffer is t. */
  ghost predicate StringAt(b: seq<char>, p: nat, t: string) {
    && p + |t| < |b| && b[p + |t|] == NUL
    && (forall i {:trigger t[i]} :: 0 <= i < |t| ==> b[p + i] == t[i] && t[i] != NUL)
  }

  /** strtok puts its NUL on a space, and so not into a token found before. */
  lemma TokenStays(b: seq<char>, w: nat, p: nat, t: string)
    requires StringAt(b, p, t) && IsWord(t) && w < |b| && b[w] == ' '
    ensures StringAt(b[w := NUL], p, t)
  {
    forall i | 0 <= i < |t| ensures b[w := NUL][p + i] == t[i] {
      assert t[i] != ' ';
    }
  }

  lemma WordIsToken(line: seq<char>)
    requires line != [] && line[0] != ' '
    ensures var n := WordLength(line);
      && n > 0 && Tokens(line) == [line[..n]] + Tokens(line[n..])
      && (n < |line| ==> Tokens(line[n..]) == Tokens(line[n + 1..]))
  {
    var n := WordLength(line);
    if n < |line| { assert line[n..][1..] == line[n + 1..]; }
  }

  lemma StringTail(b: seq<char>, p: nat, t: string, k: nat)
    requires StringAt(b, p, t) && k <= |t|
    ensures StringAt(b, p + k, t[k..])
  {
    forall i | 0 <= i < |t| - k ensures b[p + k + i] == t[k..][i] && t[k..][i] != NUL {
      assert t[k..][i] == t[k + i];
    }
  }

  /** A word in the buffer: its characters, and what ends it. */
  lemma WordInBuffer(b: seq<char>, p: nat, line: string, n: nat)
    requires StringAt(b, p, line) && n <= |line|
    requires (forall i :: 0 <= i < n ==> line[i] != ' ') && (n < |line| ==> line[n] == ' ')
    ensures (forall i :: p <= i < p + n ==> b[i] != ' ' && b[i] != NUL)
    ensures b[p + n] == if n < |line| then ' ' else NUL
  {
    forall i | p <= i < p + n ensures b[i] != ' ' && b[i] != NUL {
      assert line[i - p] != ' ';
    }
  }

  /** Writing the NUL after a word makes a string of it, and leaves the string after that. */
  lemma CutKeepsStrings(b: seq<char>, p: nat, line: string, n: nat)
    requires StringAt(b, p, line) && n < |line|
    ensures StringAt(b[p + n := NUL], p, line[..n]) && StringAt(b[p + n := NUL], p + n + 1, line[n + 1..])
  {
    var c := b[p + n := NUL];
    forall i | 0 <= i < n ensures c[p + i] == line[..n][i] && line[..n][i] != NUL {
      assert line[..n][i] == line[i];
    }
    StringTail(b, p, line, n + 1);
    StringSame(b, c, p + n + 1, line[n + 1..]);
  }

  lemma StringSame(b: seq<char>, c: seq<char>, p: nat, t: string)
    requires StringAt(b, p, t) && |c| == |b|
    requires forall j :: p <= j <= p + |t| ==> c[j] == b[j]
    ensures StringAt(c, p, t)
  {
  }

  method SkipSpaces(buf: array<char>, start: nat, ghost line: string) returns (p: nat, ghost left: string)
    requires StringAt(buf[..], start, line)
    ensures StringAt(buf[..], p, left) && Tokens(left) == Tokens(line) && |left| <= |line|
    ensures if left == [] then buf[p] == NUL else left[0] == buf[p] != ' ' && buf[p] != NUL
  {
    p := start;
    left := line;
    while buf[p] == ' '
      invariant StringAt(buf[..], p, left) && Tokens(left) == Tokens(line) && |left| <= |line|
      decreases |left|
    {
      assert left != [] && left[0] == buf[p];
      StringTail(buf[..], p, left, 1);
      p := p + 1;
      left := left[1..];
    }
    assert left != [] ==> left[0] == buf[p];
  }

  ghost predicate CutAtMost(before: seq<char>, after: seq<char>) {
    after == before || exists w :: 0 <= w < |before| && before[w] == ' ' && after == before[w := NUL]
  }

  method CutWord(buf: array<char>, token: nat, ghost left: string) returns (save: nat, ghost rest: string)
    requires StringAt(buf[..], token, left) && left != [] && left[0] != ' '
    modifies buf
    ensures StringAt(buf[..], save, rest) && |rest| < |left|
    ensures StringAt(buf[..], token, left[..WordLength(left)])
    ensures Tokens(left) == [left[..WordLength(left)]] + Tokens(rest)
    ensures CutAtMost(old(buf[..]), buf[..])
  {
    var p := token;
    ghost var n := WordLength(left);
    WordIsToken(left);
    WordInBuffer(buf[..], token, left, n);
    while buf[p] != ' ' && buf[p] != NUL
      invariant token <= p <= token + n
      decreases token + n - p
    {
      p := p + 1;
    }
    assert p == token + n;
    save := p;
    rest := left[n..];
    StringTail(buf[..], token, left, n);
    if buf[p] == ' ' {
      CutKeepsStrings(buf[..], token, left, n);
      buf[p] := NUL;
      save := p + 1;
      rest := left[n + 1..];
    } else {
      assert left[..n] == left;
    }
  }

  /** strtok(s, " ") from the saved pointer on; -1 stands for the null pointer. */
  method Strtok(buf: array<char>, start: nat, ghost line: string) returns (token: int, save: nat, ghost rest: string)
    requires StringAt(buf[..], start, line)
    modifies buf
    ensures StringAt(buf[..], save, rest)
    ensures token == -1 ==> Tokens(line) == []
    ensures token != -1 ==> (
      && token >= 0 && Tokens(line) != [] && Tokens(rest) == Tokens(line)[1..] && |rest| < |line|
      && StringAt(buf[..], token, Tokens(line)[0]) && IsWord(Tokens(line)[0]))
    ensures CutAtMost(old(buf[..]), buf[..])
  {
    var p;
    ghost var left;
    p, left := SkipSpaces(buf, start, line);
    if buf[p] == NUL {
      return -1, p, left;
    }
    token := p;
    save, rest := CutWord(buf, p, left);
  }

  /** strcmp(temp, s) == 0. */
  method Equals(buf: array<char>, p: nat, ghost t: string, s: string) returns (eq: bool)
    requires StringAt(buf[..], p, t) && NUL !in s
    ensures eq <==> t == s
  {
    var i := 0;
    while i < |s| && buf[p + i] == s[i]
      invariant 0 <= i <= |s| && i <= |t| && t[..i] == s[..i]
    {
      assert s[i] in s;
      assert i < |t| && t[i] == buf[p + i];
      assert t[..i + 1] == t[..i] + [t[i]] && s[..i + 1] == s[..i] + [s[i]];
      i := i + 1;
    }
    eq := i == |s| && buf[p + i] == NUL;
    if i == |s| {
      assert t[..i] == s;
      assert i < |t| ==> t[i] == buf[p + i];
      assert i == |t| ==> t == s;
    } else {
      assert i < |t| ==> t[i] == buf[p + i];
      assert s[i] in s;
    }
  }

  // ---------------------------------------------------------------------
  // The array of segments.
  // ---------------------------------------------------------------------

  /** The global array `L`: for each segment its argument pointers, top and sign; -1 is the null pointer. */
  class Segments {
    const arglist: array2<int>
    const top: array<int>
    const sign: array<int>

    constructor ()
      ensures Shape() && fresh(arglist) && fresh(top) && fresh(sign)
    {
      arglist := new int[SEGMENTS, MAX_CMD + 1];
      top := new int[SEGMENTS];
      sign := new int[SEGMENTS];
    }

    ghost predicate Shape() {
      && arglist.Length0 == top.Length == sign.Length == SEGMENTS && arglist.Length1 == MAX_CMD + 1
      && top != sign
    }

    /** Segment i holds these arguments, as strings in the buffer. */
    ghost predicate HoldsArgs(b: seq<char>, i: nat, args: seq<string>)
      requires Shape() && i < SEGMENTS
      reads arglist, top
    {
      && |args| <= MAX_CMD && top[i] == |args| - 1
      && forall j :: 0 <= j < |args| ==> IsWord(args[j]) && arglist[i, j] >= 0 && StringAt(b, arglist[i, j], args[j])
    }

    /** The array holds these segments; all but the last are ended by a null pointer. */
    ghost predicate Holds(b: seq<char>, segs: seq<Segment>)
      requires Shape()
      reads arglist, top, sign
    {
      && 0 < |segs| <= SEGMENTS
      && (forall i :: 0 <= i < |segs| ==> HoldsArgs(b, i, segs[i].args) && sign[i] == segs[i].sign)
      && (forall i :: 0 <= i < |segs| - 1 ==> Ended(i, |segs[i].args|))
    }

    ghost predicate Ended(i: nat, n: nat)
      requires Shape()
      reads arglist
    {
      i < SEGMENTS && n <= MAX_CMD && arglist[i, n] == -1
    }

    /** Cutting the next token leaves the strings of the earlier ones. */
    lemma CutKeepsSegments(b: seq<char>, c: seq<char>, segs: seq<Segment>)
      requires Shape() && Holds(b, segs) && CutAtMost(b, c)
      ensures Holds(c, segs)
    {
      if c != b {
        var w :| 0 <= w < |b| && b[w] == ' ' && c == b[w := NUL];
        forall i, j | 0 <= i < |segs| && 0 <= j < |segs[i].args|
          ensures StringAt(c, arglist[i, j], segs[i].args[j])
        {
          assert HoldsArgs(b, i, segs[i].args);
          TokenStays(b, w, arglist[i, j], segs[i].args[j]);
        }
        forall i | 0 <= i < |segs| ensures HoldsArgs(c, i, segs[i].args) {
          assert HoldsArgs(b, i, segs[i].args);
        }
      }
    }

    /** One segment, still empty. It holds no strings, so the buffer does not matter yet. */
    method Clear()
      requires Shape()
      modifies top, sign
      ensures forall b: seq<char> :: Holds(b, [Segment([], 0)])
    {
      top[0] := -1;
      sign[0] := 0;
      assert forall b: seq<char> :: HoldsArgs(b, 0, []);
    }

    method AddArgument(i: nat, token: int, ghost b: seq<char>, ghost t: string, ghost segs: seq<Segment>)
      requires Shape() && Holds(b, segs) && i == |segs| - 1
      requires token >= 0 && StringAt(b, token, t) && IsWord(t) && !IsOperator(t) && Fits(Add(segs, t))
      modifies arglist, top
      ensures Holds(b, Add(segs, t))
    {
      ghost var args := segs[i].args;
      ghost var more := Add(segs, t);
      assert more == segs[i := Segment(args + [t], segs[i].sign)];
      assert HoldsArgs(b, i, args) && |more[i].args| <= MAX_CMD;
      top[i] := top[i] + 1;
      arglist[i, top[i]] := token;
      assert forall j :: 0 <= j < |args| ==> arglist[i, j] == old(arglist[i, j]);
      assert HoldsArgs(b, i, args + [t]);
      forall k | 0 <= k < |more| ensures HoldsArgs(b, k, more[k].args) {
        if k != i { assert old(HoldsArgs(b, k, segs[k].args)); }
      }
      forall k | 0 <= k < |more| - 1 ensures Ended(k, |more[k].args|) {
        assert old(Ended(k, |segs[k].args|));
      }
    }

    /** The null pointer behind the last argument. */
    method End(i: nat, ghost b: seq<char>, ghost segs: seq<Segment>)
      requires Shape() && Holds(b, segs) && i == |segs| - 1
      modifies arglist
      ensures Holds(b, segs) && forall k :: 0 <= k < |segs| ==> Ended(k, |segs[k].args|)
    {
      assert HoldsArgs(b, i, segs[i].args);
      arglist[i, top[i] + 1] := -1;
      forall k | 0 <= k < |segs| ensures HoldsArgs(b, k, segs[k].args) && Ended(k, |segs[k].args|) {
        assert old(HoldsArgs(b, k, segs[k].args));
        assert k < |segs| - 1 ==> old(Ended(k, |segs[k].args|));
      }
    }

    method SetSign(i: nat, s: nat, ghost b: seq<char>, ghost segs: seq<Segment>)
      requires Shape() && Holds(b, segs) && i == |segs| - 1
      modifies sign
      ensures Holds(b, segs[i := Segment(segs[i].args, s)])
    {
      sign[i] := s;
      forall k | 0 <= k < |segs| ensures HoldsArgs(b, k, segs[k].args) {
        assert old(HoldsArgs(b, k, segs[k].args));
      }
    }

    /** The next segment starts empty. */
    method Open(i: nat, ghost b: seq<char>, ghost segs: seq<Segment>)
      requires Shape() && Holds(b, segs) && i == |segs| < SEGMENTS
      requires forall k :: 0 <= k < |segs| ==> Ended(k, |segs[k].args|)
      modifies top, sign
      ensures Holds(b, segs + [Segment([], 0)])
    {
      top[i] := -1;
      sign[i] := 0;
      forall k | 0 <= k < |segs| ensures HoldsArgs(b, k, segs[k].args) {
        assert old(HoldsArgs(b, k, segs[k].args));
      }
      assert HoldsArgs(b, i, []);
    }

    method CloseSegment(i: nat, s: nat, ghost b: seq<char>, ghost t: string, ghost segs: seq<Segment>)
      requires Shape() && Holds(b, segs) && i == |segs| - 1
      requires IsOperator(t) && s == Sign(t) && Fits(Add(segs, t)) && segs[i].sign == 0
      modifies arglist, top, sign
      ensures Holds(b, Add(segs, t))
    {
      ghost var closed := segs[i := Segment(segs[i].args, s)];
      assert |Add(segs, t)| <= SEGMENTS;
      if s != 0 {
        SetSign(i, s, b, segs);
      }
      assert s == 0 ==> closed == segs;
      End(i, b, closed);
      Open(i + 1, b, closed);
    }
  }

  /** The sign that the chain of strcmp calls gives to a token that starts like an operator; 0 if none matches. */
  method SignOf(buf: array<char>, p: nat, ghost t: string) returns (s: nat)
    requires StringAt(buf[..], p, t)
    ensures s == Sign(t)
  {
    s := 0;
    var eq := Equals(buf, p, t, "|");
    if eq { s := 1; }
    eq := Equals(buf, p, t, ">");
    if eq { s := 2; }
    eq := Equals(buf, p, t, "<");
    if eq { s := 3; }
    eq := Equals(buf, p, t, ">>");
    if eq { s := 4; }
    eq := Equals(buf, p, t, "&");
    if eq { s := 5; }
  }

  method StrLen(buf: array<char>, ghost content: string) returns (n: nat)
    requires StringAt(buf[..], 0, content)
    ensures n == |content|
  {
    n := 0;
    while buf[n] != NUL
      invariant n <= |content|
      invariant n < |content| ==> content[n] != NUL
      decreases |content| - n
    {
      n := n + 1;
    }
  }

  /** A token that is neither quoted nor a path below the home directory. */
  predicate Plain(t: string) { t != [] && t[0] != '\'' && t[0] != '~' }

  ghost predicate AllPlain(ts: seq<string>) { forall i :: 0 <= i < |ts| ==> Plain(ts[i]) }

  /** What the loop of command_split does with one plain token. */
  method AddToken(buf: array<char>, list: Segments, i: nat, temp: nat, ghost t: string, ghost segs: seq<Segment>)
    returns (next: nat)
    requires list.Shape() && list.Holds(buf[..], segs) && i == |segs| - 1 && segs[i].sign == 0
    requires StringAt(buf[..], temp, t) && IsWord(t) && Plain(t) && Fits(Add(segs, t))
    modifies list.arglist, list.top, list.sign
    ensures list.Holds(buf[..], Add(segs, t)) && next == |Add(segs, t)| - 1 && Add(segs, t)[next].sign == 0
  {
    assert buf[temp] == t[0];
    if buf[temp] == '|' || buf[temp] == '>' || buf[temp] == '<' || buf[temp] == '&' {
      var s := SignOf(buf, temp, t);
      list.CloseSegment(i, s, buf[..], t, segs);
      next := i + 1;
    } else {
      list.AddArgument(i, temp, buf[..], t, segs);
      next := i;
    }
  }

  /** strtok again, which leaves the tokens already dealt out as they are. */
  method NextToken(buf: array<char>, list: Segments, start: nat, ghost line: string, ghost segs: seq<Segment>)
    returns (token: int, save: nat, ghost rest: string)
    requires list.Shape() && list.Holds(buf[..], segs) && StringAt(buf[..], start, line)
    modifies buf
    ensures list.Holds(buf[..], segs) && StringAt(buf[..], save, rest)
    ensures token == -1 ==> Tokens(line) == []
    ensures token != -1 ==> (
      && token >= 0 && Tokens(line) != [] && Tokens(rest) == Tokens(line)[1..]
      && StringAt(buf[..], token, Tokens(line)[0]) && IsWord(Tokens(line)[0]))
  {
    ghost var before := buf[..];
    token, save, rest := Strtok(buf, start, line);
    list.CutKeepsSegments(before, buf[..], segs);
  }

  /** One round of the loop of command_split: a token is dealt out and the next one is cut. */
  method DealOut(buf: array<char>, list: Segments, i: nat, temp: nat, start: nat,
                 ghost line: string, ghost todo: seq<string>, ghost segs: seq<Segment>)
    returns (next: nat, token: int, save: nat, ghost rest: string)
    requires list.Shape() && list.Holds(buf[..], segs) && i == |segs| - 1 && segs[i].sign == 0
    requires todo != [] && Plain(todo[0]) && StringAt(buf[..], temp, todo[0]) && IsWord(todo[0])
    requires StringAt(buf[..], start, line) && Tokens(line) == todo[1..] && Fits(AddAll(segs, todo))
    modifies buf, list.arglist, list.top, list.sign
    ensures var more := Add(segs, todo[0]);
      list.Holds(buf[..], more) && next == |more| - 1 && more[next].sign == 0
    ensures StringAt(buf[..], save, rest)
    ensures token == -1 ==> todo[1..] == []
    ensures token != -1 ==> (
      && token >= 0 && todo[1..] != [] && Tokens(rest) == todo[1..][1..]
      && StringAt(buf[..], token, todo[1]) && IsWord(todo[1]))
  {
    FitsBefore(Add(segs, todo[0]), todo[1..]);
    next := AddToken(buf, list, i, temp, todo[0], segs);
    token, save, rest := NextToken(buf, list, start, line, Add(segs, todo[0]));
  }

  /** Shortens the string in the buffer by its last character, the newline that fgets leaves. */
  method CutLast(buf: array<char>, ghost content: string)
    requires StringAt(buf[..], 0, content) && content != []
    modifies buf
    ensures StringAt(buf[..], 0, content[..|content| - 1])
  {
    var n := StrLen(buf, content);
    CutKeepsStrings(buf[..], 0, content, n - 1);
    buf[n - 1] := NUL;
  }

  /**
   command_split. The buffer holds the line that fgets has read, whose last character is
   overwritten. Afterwards the array holds the segments of its tokens, each ended by a null pointer.
   */
  method SplitLine(buf: array<char>, list: Segments, ghost content: string)
    requires list.Shape() && StringAt(buf[..], 0, content) && content != []
    requires AllPlain(Tokens(content[..|content| - 1])) && Fits(Split(Tokens(content[..|content| - 1])))
    modifies buf, list.arglist, list.top, list.sign
    ensures var segs := Split(Tokens(content[..|content| - 1]));
      list.Holds(buf[..], segs) && forall i :: 0 <= i < |segs| ==> list.Ended(i, |segs[i].args|)
  {
    ghost var line := content[..|content| - 1];
    ghost var all := Tokens(line);
    var i := 0;
    list.Clear();
    CutLast(buf, content);

    ghost var segs := [Segment([], 0)];
    ghost var todo := all;
    var temp, save;
    ghost var rest;
    temp, save, rest := NextToken(buf, list, 0, line, segs);
    while temp != -1
      invariant 0 < |segs| == i + 1 && segs[i].sign == 0 && list.Holds(buf[..], segs)
      invariant AddAll(segs, todo) == Split(all) && AllPlain(todo)
      invariant StringAt(buf[..], save, rest)
      invariant temp == -1 ==> todo == []
      invariant temp != -1 ==> temp >= 0 && todo != [] && todo[1..] == Tokens(rest)
      invariant temp != -1 ==> StringAt(buf[..], temp, todo[0]) && IsWord(todo[0])
      decreases |todo|
    {
      i, temp, save, rest := DealOut(buf, list, i, temp, save, rest, todo, segs);
      segs := Add(segs, todo[0]);
      todo := todo[1..];
    }
    list.End(i, buf[..], segs);
  }
}
