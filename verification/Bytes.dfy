/** Bytes, messages, and the four-byte big-endian length that precedes a message on the wire. */
module Bytes {

  newtype byte = b: int | 0 <= b < 0x100

  type Message = seq<byte>

  datatype Option<T> = None | Some(value: T)

  /** Where the text of a function departs from what it is evidently for: which of the two is modelled. */
  datatype Reading = Meant | AsWritten

  /** htonl, and the memcpy of its result. */
  function BigEndian(n: nat): (b: seq<byte>)
    requires n < 0x1_0000_0000
    ensures |b| == 4
    ensures b[0] as nat == n / 0x100_0000 && b[1] as nat == n / 0x1_0000 % 0x100
    ensures b[2] as nat == n / 0x100 % 0x100 && b[3] as nat == n % 0x100
  {
    var (n1, d0) := (n / 0x100, n % 0x100);
    var (n2, d1) := (n1 / 0x100, n1 % 0x100);
    var (d3, d2) := (n2 / 0x100, n2 % 0x100);
    [d3 as byte, d2 as byte, d1 as byte, d0 as byte]
  }

  /** ntohl, as an unsigned number. */
  function FromBigEndian(b: seq<byte>): (n: nat)
    requires |b| == 4
    ensures n < 0x1_0000_0000
  {
    ((b[0] as nat * 0x100 + b[1] as nat) * 0x100 + b[2] as nat) * 0x100 + b[3] as nat
  }

  lemma BigEndianRoundTrip(n: nat)
    requires n < 0x1_0000_0000
    ensures FromBigEndian(BigEndian(n)) == n
  {
  }

  /** What std::string keeps of a NUL-terminated buffer: the part before the first NUL. */
  function BeforeNul(m: Message): (s: Message)
    ensures s <= m && 0 !in s
    ensures |s| < |m| ==> m[|s|] == 0
    ensures s == m <==> 0 !in m
  {
    if m == [] || m[0] == 0 then [] else [m[0]] + BeforeNul(m[1..])
  }
}
