/**
 The message link: sendMsg and writen of test_client.cpp, recvMsg and readn of
 test_server.cpp, over a connection that transfers as few bytes at a time as it likes.
 */
module Framing {
  import opened Bytes
  import opened Totals

  /** A length that fits the C `int` in which writen and readn count. */
  predicate Sendable(m: Message) { |m| + 4 < 0x8000_0000 }

  function Frame(m: Message): seq<byte>
    requires Sendable(m)
  {
    BigEndian(|m|) + m
  }

  function Wire(ms: seq<Message>): seq<byte>
    requires forall i :: 0 <= i < |ms| ==> Sendable(ms[i])
  {
    if ms == [] then [] else Frame(ms[0]) + Wire(ms[1..])
  }

  /** The first message of a stream and what follows it, if all of it is there. */
  function ReadFrame(s: seq<byte>): Option<(Message, seq<byte>)> {
    if |s| < 4 then None
    else
      var len := FromBigEndian(s[..4]);
      if len >= 0x8000_0000 || |s| < 4 + len then None
      else Some((s[4..4 + len], s[4 + len..]))
  }

  function ReadFrames(s: seq<byte>, n: nat): Option<(seq<Message>, seq<byte>)> {
    if n == 0 then Some(([], s))
    else match ReadFrame(s)
      case None => None
      case Some((m, rest)) =>
        match ReadFrames(rest, n - 1)
        case None => None
        case Some((ms, end)) => Some(([m] + ms, end))
  }

  lemma FrameRoundTrip(m: Message, rest: seq<byte>)
    requires Sendable(m)
    ensures ReadFrame(Frame(m) + rest) == Some((m, rest))
  {
    BigEndianRoundTrip(|m|);
    var s := Frame(m) + rest;
    assert s[..4] == BigEndian(|m|);
    assert s[4..4 + |m|] == m && s[4 + |m|..] == rest;
  }

  /** The first frame, from the header and the body that follows it. */
  lemma FrameParts(s: seq<byte>, len: nat)
    requires |s| >= 4 && len == FromBigEndian(s[..4])
    ensures ReadFrame(s) == if len >= 0x8000_0000 || |s[4..]| < len then None else Some((s[4..][..len], s[4..][len..]))
  {
    if |s[4..]| >= len {
      assert s[4..4 + len] == s[4..][..len] && s[4 + len..] == s[4..][len..];
    }
  }

  /** The messages come out as they went in, in order, and the stream is left at a frame boundary. */
  lemma {:induction false} WireRoundTrip(ms: seq<Message>, rest: seq<byte>)
    requires forall i :: 0 <= i < |ms| ==> Sendable(ms[i])
    ensures ReadFrames(Wire(ms) + rest, |ms|) == Some((ms, rest))
  {
    if ms == [] {
      assert Wire(ms) + rest == rest;
    } else {
      assert Wire(ms) + rest == Frame(ms[0]) + (Wire(ms[1..]) + rest);
      FrameRoundTrip(ms[0], Wire(ms[1..]) + rest);
      WireRoundTrip(ms[1..], rest);
      assert [ms[0]] + ms[1..] == ms;
    }
  }

  // ---------------------------------------------------------------------
  // Short writes.
  // ---------------------------------------------------------------------

  ghost predicate Chunking(chunks: seq<nat>) {
    forall i :: 0 <= i < |chunks| ==> chunks[i] > 0
  }

  /** The bytes that reach the stream when the system takes the buffer in these chunks. */
  function Written(r: Reading, msg: seq<byte>, chunks: seq<nat>): (out: seq<byte>)
    requires Total(chunks) <= |msg|
    ensures |out| == Total(chunks)
  {
    if chunks == [] then [] else
      var k := |chunks| - 1;
      var p := Total(chunks[..k]);
      // The text passes `msg` to every write; `p`, which it advances, is meant.
      Written(r, msg, chunks[..k]) + if r == Meant then msg[p..p + chunks[k]] else msg[..chunks[k]]
  }

  lemma WrittenAppend(r: Reading, msg: seq<byte>, chunks: seq<nat>, k: nat)
    requires Total(chunks) + k <= |msg|
    ensures Total(chunks + [k]) == Total(chunks) + k
    ensures Written(r, msg, chunks + [k]) ==
        Written(r, msg, chunks) + (if r == Meant then msg[Total(chunks)..] else msg)[..k]
  {
    TotalAppend(chunks, k);
    assert (chunks + [k])[..|chunks|] == chunks;
  }

  /** One more chunk has gone out: what writen's loop keeps. */
  lemma ChunkSent(r: Reading, msg: seq<byte>, chunks: seq<nat>, base: seq<byte>, data: seq<byte>, k: nat)
    requires Chunking(chunks) && Total(chunks) + |data| == |msg| && 0 < k <= |data|
    requires data == if r == Meant then msg[Total(chunks)..] else msg[..|data|]
    ensures Chunking(chunks + [k]) && Total(chunks + [k]) == Total(chunks) + k
    ensures base + Written(r, msg, chunks) + data[..k] == base + Written(r, msg, chunks + [k])
  {
    WrittenAppend(r, msg, chunks, k);
    if r == AsWritten {
      assert msg[..|data|][..k] == msg[..k];
    }
    assert (base + Written(r, msg, chunks)) + data[..k] == base + (Written(r, msg, chunks) + data[..k]);
  }

  lemma {:induction false} MeantWritesBuffer(msg: seq<byte>, chunks: seq<nat>)
    requires Total(chunks) <= |msg|
    ensures Written(Meant, msg, chunks) == msg[..Total(chunks)]
  {
    if chunks == [] {
    } else {
      MeantWritesBuffer(msg, chunks[..|chunks| - 1]);
    }
  }

  /** As written, every chunk starts with the first byte of the buffer. */
  lemma {:induction false} EveryChunkRestarts(msg: seq<byte>, chunks: seq<nat>, j: nat, q: nat)
    requires Total(chunks) <= |msg| && j < |chunks| && q < chunks[j]
    ensures Total(chunks[..j]) + q < Total(chunks)
    ensures Written(AsWritten, msg, chunks)[Total(chunks[..j]) + q] == msg[q]
  {
    var k := |chunks| - 1;
    if j == k {
    } else {
      assert chunks[..k][..j] == chunks[..j];
      EveryChunkRestarts(msg, chunks[..k], j, q);
    }
  }

  /** Where in the buffer, as written, the byte at p of the output comes from. */
  function Source(chunks: seq<nat>, p: nat): (q: nat)
    requires p < Total(chunks)
    ensures q <= p
  {
    var k := |chunks| - 1;
    var sent := Total(chunks[..k]);
    if p < sent then Source(chunks[..k], p) else p - sent
  }

  lemma {:induction false} WrittenFrom(msg: seq<byte>, chunks: seq<nat>, p: nat)
    requires p < Total(chunks) <= |msg|
    ensures Written(AsWritten, msg, chunks)[p] == msg[Source(chunks, p)]
  {
    var k := |chunks| - 1;
    if p < Total(chunks[..k]) {
      WrittenFrom(msg, chunks[..k], p);
    } else {
    }
  }

  lemma {:induction false} FirstChunkTotal(chunks: seq<nat>)
    requires chunks != []
    ensures chunks[0] <= Total(chunks)
    ensures Chunking(chunks) && |chunks| >= 2 ==> chunks[0] < Total(chunks)
  {
    var k := |chunks| - 1;
    if k == 0 {
      assert chunks[..0] == [];
    } else {
      FirstChunkTotal(chunks[..k]);
    }
  }

  /** Behind the first chunk every byte comes from an earlier place, the first of them from the start. */
  lemma {:induction false} SourceBehindFirst(chunks: seq<nat>, p: nat)
    requires Chunking(chunks) && |chunks| >= 2 && chunks[0] <= p < Total(chunks)
    ensures Source(chunks, p) < p
    ensures p == chunks[0] ==> Source(chunks, p) == 0
  {
    var k := |chunks| - 1;
    FirstChunkTotal(chunks[..k]);
    if p < Total(chunks[..k]) {
      SourceBehindFirst(chunks[..k], p);
    } else {
    }
  }

  /** As written, the second chunk starts with the first byte of the buffer again. */
  lemma SecondChunkRestarts(msg: seq<byte>, chunks: seq<nat>)
    requires Total(chunks) <= |msg| && Chunking(chunks) && |chunks| >= 2
    ensures chunks[0] < Total(chunks)
    ensures Written(AsWritten, msg, chunks)[chunks[0]] == msg[0]
  {
    FirstChunkTotal(chunks);
    SourceBehindFirst(chunks, chunks[0]);
    WrittenFrom(msg, chunks, chunks[0]);
  }

  /** As written, the frame of every message of n bytes goes out intact in these chunks. */
  ghost predicate FramesIntact(n: nat, chunks: seq<nat>)
    requires Total(chunks) == n + 4 < 0x8000_0000
  {
    forall m: Message :: |m| == n ==> Written(AsWritten, Frame(m), chunks) == Frame(m)
  }

  lemma OneChunkIntact(msg: seq<byte>, chunks: seq<nat>)
    requires |chunks| <= 1 && Total(chunks) == |msg|
    ensures Written(AsWritten, msg, chunks) == msg
  {
    if |chunks| == 1 { assert chunks[..0] == []; }
  }

  /** The frame of the empty message is four zeros, in whatever order. */
  lemma EmptyIntact(chunks: seq<nat>)
    requires Total(chunks) == 4
    ensures Written(AsWritten, Frame([]), chunks) == Frame([])
  {
    forall p: nat | p < 4 ensures Written(AsWritten, Frame([]), chunks)[p] == Frame([])[p] {
      WrittenFrom(Frame([]), chunks, p);
    }
  }

  /** A byte of the message is overwritten by one of the header, which the message can differ from. */
  lemma ShortWriteSpoils(n: nat, chunks: seq<nat>) returns (m: Message)
    requires Chunking(chunks) && Total(chunks) == n + 4 < 0x8000_0000 && |chunks| >= 2 && n > 0
    ensures |m| == n && Written(AsWritten, Frame(m), chunks) != Frame(m)
  {
    FirstChunkTotal(chunks);
    var p := if chunks[0] < 4 then 4 else chunks[0];
    SourceBehindFirst(chunks, p);
    var header := BigEndian(n)[Source(chunks, p)];
    m := seq(n, _ => if header == 0 then 1 else 0);
    WrittenFrom(Frame(m), chunks, p);
    assert Frame(m)[p] == m[p - 4] != header;
  }

  /**
   As written, every frame of this length goes out intact exactly if the
   first write takes all of it, or the message is empty.
   */
  lemma AsWrittenIntactIff(n: nat, chunks: seq<nat>)
    requires Chunking(chunks) && Total(chunks) == n + 4 < 0x8000_0000
    ensures FramesIntact(n, chunks) <==> |chunks| <= 1 || n == 0
  {
    if |chunks| <= 1 {
      forall m: Message | |m| == n ensures Written(AsWritten, Frame(m), chunks) == Frame(m) {
        OneChunkIntact(Frame(m), chunks);
      }
    } else if n == 0 {
      EmptyIntact(chunks);
    } else {
      var m := ShortWriteSpoils(n, chunks);
    }
  }

  /** All bytes of the frame are the same, header included. */
  ghost predicate Uniform(m: Message)
    requires Sendable(m)
  {
    forall i :: 0 <= i < |Frame(m)| ==> Frame(m)[i] == Frame(m)[0]
  }

  ghost predicate SurvivesAll(m: Message)
    requires Sendable(m)
  {
    forall chunks: seq<nat> :: Chunking(chunks) && Total(chunks) == |m| + 4 ==>
      Written(AsWritten, Frame(m), chunks) == Frame(m)
  }

  lemma UniformSurvives(m: Message, chunks: seq<nat>)
    requires Sendable(m) && Uniform(m) && Total(chunks) == |m| + 4
    ensures Written(AsWritten, Frame(m), chunks) == Frame(m)
  {
    forall p: nat | p < |m| + 4 ensures Written(AsWritten, Frame(m), chunks)[p] == Frame(m)[p] {
      WrittenFrom(Frame(m), chunks, p);
    }
  }

  /** Two writes that part before a byte unlike the first one put the first one in its place. */
  lemma TwoWritesSpoil(m: Message, i: nat) returns (chunks: seq<nat>)
    requires Sendable(m) && i < |Frame(m)| && Frame(m)[i] != Frame(m)[0]
    ensures Chunking(chunks) && Total(chunks) == |m| + 4 && Written(AsWritten, Frame(m), chunks) != Frame(m)
  {
    chunks := [i, |m| + 4 - i];
    assert chunks[..1] == [] + [i] && Total([i]) == Total([]) + i by { TotalAppend([], i); }
    assert i != 0 && Total(chunks) == Total(chunks[..1]) + chunks[1];
    SecondChunkRestarts(Frame(m), chunks);
  }

  /** As written, this message's frame goes out intact however it is chunked exactly if all its bytes are the same. */
  lemma SurvivesAllIff(m: Message)
    requires Sendable(m)
    ensures SurvivesAll(m) <==> Uniform(m)
  {
    if Uniform(m) {
      forall chunks: seq<nat> | Chunking(chunks) && Total(chunks) == |m| + 4
        ensures Written(AsWritten, Frame(m), chunks) == Frame(m)
      {
        UniformSurvives(m, chunks);
      }
    } else {
      var i: nat :| i < |Frame(m)| && Frame(m)[i] != Frame(m)[0];
      var chunks := TwoWritesSpoil(m, i);
    }
  }

  /** As long as the header's four bytes say when each of them is b, and all b. */
  ghost predicate Repeats(m: Message, b: byte) {
    |m| == b as nat * 0x0101_0101 && forall i :: 0 <= i < |m| ==> m[i] == b
  }

  lemma LowByte(q: nat, d: nat)
    requires d < 0x100
    ensures (q * 0x100 + d) / 0x100 == q && (q * 0x100 + d) % 0x100 == d
  {
  }

  lemma EqualBytes(b: byte)
    ensures BigEndian(b as nat * 0x0101_0101) == [b, b, b, b]
  {
    var d := b as nat;
    LowByte(d * 0x01_0101, d);
    LowByte(d * 0x0101, d);
    LowByte(d, d);
  }

  lemma UniformRepeats(m: Message)
    requires Sendable(m) && Uniform(m)
    ensures Repeats(m, Frame(m)[0])
  {
    BigEndianRoundTrip(|m|);
    assert forall i :: 0 <= i < 4 ==> BigEndian(|m|)[i] == Frame(m)[i];
    assert forall i :: 0 <= i < |m| ==> m[i] == Frame(m)[4 + i];
  }

  /** That is the empty message, and the messages of b * 0x01010101 bytes that are all b. */
  lemma UniformIff(m: Message)
    requires Sendable(m)
    ensures Uniform(m) <==> exists b: byte :: Repeats(m, b)
  {
    if Uniform(m) {
      UniformRepeats(m);
    }
    if b: byte :| Repeats(m, b) {
      EqualBytes(b);
    }
  }

  /** One chunking can spare a message that another spoils: the length of [0, 0, 0, 4] is its text. */
  lemma OneChunkingSpares()
    ensures Written(AsWritten, Frame([0, 0, 0, 4]), [4, 4]) == Frame([0, 0, 0, 4])
    ensures !SurvivesAll([0, 0, 0, 4])
  {
    var m: Message := [0, 0, 0, 4];
    assert [4, 4][..1] == [4] && [4][..0] == [];
    assert Frame(m) == [0, 0, 0, 4] + m;
    assert Written(AsWritten, Frame(m), [4]) == m;
    SurvivesAllIff(m);
    assert Frame(m)[3] != Frame(m)[0];
  }

  // ---------------------------------------------------------------------
  // The connection and its two ends.
  // ---------------------------------------------------------------------

  datatype Transfer = Returned(n: int) | Blocked

  /** A connection: the bytes in flight, and what the system will answer to the coming calls. */
  class Connection {
    var stream: seq<byte>
    /**
     At most how many bytes each coming call transfers; a negative number
     is an error. Later calls transfer all they can.
     */
    var limits: seq<int>

    function Limit(most: nat): (n: int)
      reads this
      ensures -1 <= n <= most
      ensures n == -1 ==> limits != [] && limits[0] < 0
    {
      if limits == [] then most else if limits[0] < 0 then -1 else if limits[0] <= most then limits[0] else most
    }

    method Write(data: seq<byte>) returns (n: int)
      requires data != []
      modifies this
      ensures n == old(Limit(|data|))
      ensures limits == if old(limits) == [] then [] else old(limits)[1..]
      ensures stream == if n > 0 then old(stream) + data[..n] else old(stream)
    {
      n := Limit(|data|);
      limits := if limits == [] then [] else limits[1..];
      if n > 0 {
        stream := stream + data[..n];
      }
    }

    /** Blocks when nothing is in flight, unless an error ends the call. */
    method Recv(buf: array<byte>, p: nat, left: nat) returns (t: Transfer)
      requires 0 < left && p + left <= buf.Length
      modifies this, buf
      ensures limits == if old(limits) == [] then [] else old(limits)[1..]
      ensures t == if old(Limit(left)) == -1 then Returned(-1) else if old(stream) == [] then Blocked
                   else Returned(old(Limit(if left <= |stream| then left else |stream|)))
      ensures var k := if t.Returned? && t.n > 0 then t.n else 0;
        && k <= |old(stream)| && k <= left && stream == old(stream)[k..]
        && (forall i :: p <= i < p + k ==> buf[i] == old(stream)[i - p])
        && (forall i :: 0 <= i < buf.Length && !(p <= i < p + k) ==> buf[i] == old(buf[i]))
    {
      var n := Limit(if left <= |stream| then left else |stream|);
      limits := if limits == [] then [] else limits[1..];
      if n == -1 {
        return Returned(-1);
      }
      if stream == [] {
        return Blocked;
      }
      forall i | 0 <= i < n {
        buf[p + i] := stream[i];
      }
      stream := stream[n..];
      t := Returned(n);
    }
  }

  ghost predicate NoErrors(limits: seq<int>) {
    forall i :: 0 <= i < |limits| ==> limits[i] >= 0
  }

  class Client {
    const sockfd: Connection

    constructor (sockfd: Connection)
      ensures this.sockfd == sockfd
    {
      this.sockfd := sockfd;
    }

    /** Client::writen. Also returns, for the proof, the chunks in which the buffer went out. */
    method Writen(r: Reading, msg: seq<byte>) returns (ret: int, ghost chunks: seq<nat>)
      modifies sockfd
      ensures Chunking(chunks) && Total(chunks) <= |msg|
      ensures sockfd.stream == old(sockfd.stream) + Written(r, msg, chunks)
      ensures ret == (if Total(chunks) == |msg| then |msg| else -1)
      ensures NoErrors(old(sockfd.limits)) ==> ret == |msg| && NoErrors(sockfd.limits)
    {
      var left := |msg|;
      var p := 0;
      chunks := [];
      ghost var base := sockfd.stream;
      while left > 0
        invariant 0 <= left && p + left == |msg|
        invariant Chunking(chunks) && Total(chunks) == p
        invariant sockfd.stream == base + Written(r, msg, chunks)
        invariant NoErrors(old(sockfd.limits)) ==> NoErrors(sockfd.limits)
        decreases left, |sockfd.limits|
      {
        var data := if r == Meant then msg[p..] else msg[..left];
        var nwrite := sockfd.Write(data);
        if nwrite > 0 {
          ChunkSent(r, msg, chunks, base, data, nwrite);
          chunks := chunks + [nwrite];
          p := p + nwrite;
          left := left - nwrite;
        } else if nwrite == -1 {
          return -1, chunks;
        }
      }
      return |msg|, chunks;
    }

    /** Client::sendMsg. */
    method SendMsg(r: Reading, msg: Message) returns (ret: int, ghost chunks: seq<nat>)
      requires Sendable(msg)
      modifies sockfd
      ensures Chunking(chunks) && Total(chunks) <= |msg| + 4
      ensures sockfd.stream == old(sockfd.stream) + Written(r, Frame(msg), chunks)
      ensures ret == if Total(chunks) == |msg| + 4 then |msg| + 4 else -1
      ensures NoErrors(old(sockfd.limits)) ==> ret == |msg| + 4 == Total(chunks) && NoErrors(sockfd.limits)
      ensures NoErrors(old(sockfd.limits)) && r == Meant ==> sockfd.stream == old(sockfd.stream) + Frame(msg)
    {
      var data := new byte[|msg| + 4];
      var bigLen := BigEndian(|msg|);
      forall i | 0 <= i < 4 {
        data[i] := bigLen[i];
      }
      forall i | 0 <= i < |msg| {
        data[4 + i] := msg[i];
      }
      assert data[..] == Frame(msg);
      ret, chunks := Writen(r, data[..]);
      if r == Meant {
        MeantWritesBuffer(Frame(msg), chunks);
      }
    }

    /** The loop of the client's main, for the messages it pops. */
    method SendAll(msgs: seq<Message>)
      requires (forall i :: 0 <= i < |msgs| ==> Sendable(msgs[i])) && NoErrors(sockfd.limits)
      modifies sockfd
      ensures sockfd.stream == old(sockfd.stream) + Wire(msgs) && NoErrors(sockfd.limits)
    {
      for i := 0 to |msgs|
        invariant NoErrors(sockfd.limits)
        invariant sockfd.stream + Wire(msgs[i..]) == old(sockfd.stream) + Wire(msgs)
      {
        ghost var before := sockfd.stream;
        var ret;
        ghost var chunks;
        ret, chunks := SendMsg(Meant, msgs[i]);
        assert msgs[i..][1..] == msgs[i + 1..];
        assert before + Frame(msgs[i]) + Wire(msgs[i + 1..]) == before + Wire(msgs[i..]);
      }
      assert msgs[|msgs|..] == [];
    }
  }

  class Server {
    const sockfd: Connection

    constructor (sockfd: Connection)
      ensures this.sockfd == sockfd
    {
      this.sockfd := sockfd;
    }

    /** server::readn. */
    method Readn(buf: array<byte>, size: nat) returns (t: Transfer)
      requires size <= buf.Length
      modifies sockfd, buf
      ensures t == Returned(size) || t == Returned(-1) || t == Blocked
      ensures t == Returned(size) ==>
        size <= |old(sockfd.stream)| && sockfd.stream == old(sockfd.stream)[size..]
        && buf[..size] == old(sockfd.stream)[..size]
        && forall i :: size <= i < buf.Length ==> buf[i] == old(buf[i])
      ensures t == Blocked ==> |old(sockfd.stream)| < size && sockfd.stream == []
      ensures NoErrors(old(sockfd.limits)) ==> NoErrors(sockfd.limits) && t != Returned(-1)
    {
      var left := size;
      var p := 0;
      ghost var all := sockfd.stream;
      while left > 0
        invariant 0 <= left && p + left == size && p <= |all|
        invariant sockfd.stream == all[p..]
        invariant forall i :: 0 <= i < p ==> buf[i] == all[i]
        invariant forall i :: p <= i < buf.Length ==> buf[i] == old(buf[i])
        invariant NoErrors(old(sockfd.limits)) ==> NoErrors(sockfd.limits)
        decreases left, |sockfd.limits|
      {
        var nread := sockfd.Recv(buf, p, left);
        match nread {
          case Blocked => return Blocked;
          case Returned(n) =>
            if n > 0 {
              p := p + n;
              left := left - n;
            } else if n == -1 {
              return Returned(-1);
            }
        }
      }
      return Returned(size);
    }

    /**
     server::recvMsg. None when it never returns: the rest of the message never arrives, or
     the length does not fit an `int`. The text drops what follows the first NUL; `Meant` keeps it.
     */
    method RecvMsg(r: Reading) returns (msg: Option<Message>)
      modifies sockfd
      ensures NoErrors(old(sockfd.limits)) ==>
        NoErrors(sockfd.limits) &&
        match ReadFrame(old(sockfd.stream))
        case None => msg == None
        case Some((m, rest)) =>
          && sockfd.stream == rest && msg.Some?
          && (r == Meant ==> msg.value == m)
          && (r == AsWritten ==>
                msg.value <= m && 0 !in msg.value && (|msg.value| < |m| ==> m[|msg.value|] == 0))
    {
      var header := new byte[4](_ => 0);
      var got := Readn(header, 4);
      if got == Blocked {
        return None;
      }
      ghost var body := sockfd.stream;
      var len := FromBigEndian(header[..]);
      if got == Returned(4) {
        assert header[..] == header[..4] == old(sockfd.stream)[..4];
        FrameParts(old(sockfd.stream), len);
      }
      if len >= 0x8000_0000 {
        return None;
      }
      var buf := new byte[len + 1](_ => 0);
      var ret := Readn(buf, len);
      if ret == Blocked {
        return None;
      }
      if ret != Returned(len) {
        return Some([]);
      }
      assert buf[..len] == body[..len];
      buf[len] := 0;
      assert buf[..len] == body[..len];
      msg := Some(if r == Meant then buf[..len] else BeforeNul(buf[..len]));
    }

    /** The loop of the server's main, for as many messages as were sent: it gets them all, in order. */
    method RecvAll(ghost sent: seq<Message>, n: nat, ghost rest: seq<byte>) returns (msgs: seq<Message>)
      requires (forall i :: 0 <= i < |sent| ==> Sendable(sent[i])) && n == |sent|
      requires NoErrors(sockfd.limits) && sockfd.stream == Wire(sent) + rest
      modifies sockfd
      ensures msgs == sent && sockfd.stream == rest
    {
      msgs := [];
      for i := 0 to n
        invariant NoErrors(sockfd.limits)
        invariant msgs == sent[..i] && sockfd.stream == Wire(sent[i..]) + rest
      {
        assert sent[i..][1..] == sent[i + 1..];
        assert Wire(sent[i..]) + rest == Frame(sent[i]) + (Wire(sent[i + 1..]) + rest);
        FrameRoundTrip(sent[i], Wire(sent[i + 1..]) + rest);
        var msg := RecvMsg(Meant);
        msgs := msgs + [msg.value];
      }
      assert Wire(sent[n..]) + rest == rest;
    }
  }

  /** recvMsg gives back what sendMsg sent, whatever the chunks, exactly if the message has no NUL byte. */
  lemma LinkDeliversIff(m: Message, rest: seq<byte>)
    requires Sendable(m)
    ensures ReadFrame(Frame(m) + rest).Some?
    ensures BeforeNul(ReadFrame(Frame(m) + rest).value.0) == m <==> 0 !in m
  {
    FrameRoundTrip(m, rest);
  }
}
