/** RDP segments: the 20-byte `rdp_head`, the SYN extension and the extended-ack list. */
module Segments {
  import opened Arith
  import opened SeqNum
  import opened Bytes

  const HEAD_SIZE: int := 20
  const MAX_EACK: int := 64

  type U16 = x: int | 0 <= x < 0x1_0000

  /** `hlen` counts 16-bit units; `body` is everything after the fixed header. */
  datatype Segment = Segment(
    syn: bool, ack: bool, eak: bool, rst: bool, nul: bool, fin: bool,
    hlen: Byte, sport: U16, dport: U16, dlen: U16, seqnum: U32, acknum: U32,
    body: seq<Byte>)

  // ---- the wire format ----------------------------------------------------

  function Bit(b: bool): (r: nat)
    ensures r <= 1
  {
    if b then 1 else 0
  }

  function FlagByte(s: Segment): Byte {
    0x80 * Bit(s.syn) + 0x40 * Bit(s.ack) + 0x20 * Bit(s.eak) + 0x10 * Bit(s.rst) + 0x08 * Bit(s.nul) + 0x04 * Bit(s.fin)
  }

  function HeadBytes(s: Segment): (r: seq<Byte>)
    ensures |r| == HEAD_SIZE
  {
    [FlagByte(s), s.hlen] + Be16(s.sport) + Be16(s.dport) + Be16(s.dlen)
    + Be32(s.seqnum) + Be32(s.acknum) + Be32(0)
  }

  function Serialize(s: Segment): (r: seq<Byte>)
    ensures |r| == HEAD_SIZE + |s.body|
  {
    HeadBytes(s) + s.body
  }

  /** What the receiving side reads from a datagram; shorter ones are dropped. */
  function Parse(b: seq<Byte>): (r: Option<Segment>) {
    if |b| < HEAD_SIZE then None
    else
      var f := b[0];
      Some(Segment(f / 0x80 % 2 == 1, f / 0x40 % 2 == 1, f / 0x20 % 2 == 1,
                   f / 0x10 % 2 == 1, f / 0x08 % 2 == 1, f / 0x04 % 2 == 1,
                   b[1], Read16(b, 2), Read16(b, 4), Read16(b, 6), Read32(b, 8), Read32(b, 12),
                   b[HEAD_SIZE..]))
  }

  lemma FlagQuotients(f: nat, b7: nat, b6: nat, b5: nat, b4: nat, b3: nat, b2: nat)
    requires b7 <= 1 && b6 <= 1 && b5 <= 1 && b4 <= 1 && b3 <= 1 && b2 <= 1
    requires f == 0x80 * b7 + 0x40 * b6 + 0x20 * b5 + 0x10 * b4 + 0x08 * b3 + 0x04 * b2
    ensures f / 0x80 == b7 && f / 0x40 == 2 * b7 + b6 && f / 0x20 == 4 * b7 + 2 * b6 + b5
    ensures f / 0x10 == 8 * b7 + 4 * b6 + 2 * b5 + b4
    ensures f / 0x08 == 16 * b7 + 8 * b6 + 4 * b5 + 2 * b4 + b3
    ensures f / 0x04 == 32 * b7 + 16 * b6 + 8 * b5 + 4 * b4 + 2 * b3 + b2
  {
    DivModUnique(f, 0x80, b7, 0x40 * b6 + 0x20 * b5 + 0x10 * b4 + 0x08 * b3 + 0x04 * b2);
    DivModUnique(f, 0x40, 2 * b7 + b6, 0x20 * b5 + 0x10 * b4 + 0x08 * b3 + 0x04 * b2);
    DivModUnique(f, 0x20, 4 * b7 + 2 * b6 + b5, 0x10 * b4 + 0x08 * b3 + 0x04 * b2);
    DivModUnique(f, 0x10, 8 * b7 + 4 * b6 + 2 * b5 + b4, 0x08 * b3 + 0x04 * b2);
    DivModUnique(f, 0x08, 16 * b7 + 8 * b6 + 4 * b5 + 2 * b4 + b3, 0x04 * b2);
    DivModUnique(f, 0x04, 32 * b7 + 16 * b6 + 8 * b5 + 4 * b4 + 2 * b3 + b2, 0);
  }

  lemma LastBit(f: nat, weight: nat, high: nat, b: bool)
    requires 0 < weight && f / weight == 2 * high + Bit(b)
    ensures (f / weight % 2 == 1) == b
  {
  }

  lemma FlagsRecovered(s: Segment)
    ensures var f := FlagByte(s);
            && (f / 0x80 % 2 == 1) == s.syn && (f / 0x40 % 2 == 1) == s.ack && (f / 0x20 % 2 == 1) == s.eak
            && (f / 0x10 % 2 == 1) == s.rst && (f / 0x08 % 2 == 1) == s.nul && (f / 0x04 % 2 == 1) == s.fin
  {
    var b7, b6, b5, b4, b3, b2 := Bit(s.syn), Bit(s.ack), Bit(s.eak), Bit(s.rst), Bit(s.nul), Bit(s.fin);
    var f := FlagByte(s);
    FlagQuotients(f, b7, b6, b5, b4, b3, b2);
    LastBit(f, 0x80, 0, s.syn);
    LastBit(f, 0x40, b7, s.ack);
    LastBit(f, 0x20, 2 * b7 + b6, s.eak);
    LastBit(f, 0x10, 4 * b7 + 2 * b6 + b5, s.rst);
    LastBit(f, 0x08, 8 * b7 + 4 * b6 + 2 * b5 + b4, s.nul);
    LastBit(f, 0x04, 16 * b7 + 8 * b6 + 4 * b5 + 2 * b4 + b3, s.fin);
  }

  lemma FieldsRecovered(s: Segment, b: seq<Byte>)
    requires b == Serialize(s)
    ensures b[0] == FlagByte(s) && b[1] == s.hlen
    ensures Read16(b, 2) == s.sport && Read16(b, 4) == s.dport && Read16(b, 6) == s.dlen
    ensures Read32(b, 8) == s.seqnum && Read32(b, 12) == s.acknum
    ensures b[HEAD_SIZE..] == s.body
  {
    assert b[2..4] == Be16(s.sport) && b[4..6] == Be16(s.dport) && b[6..8] == Be16(s.dlen);
    assert b[2..4][0] == b[2] && b[2..4][1] == b[3];
    assert b[4..6][0] == b[4] && b[4..6][1] == b[5];
    assert b[6..8][0] == b[6] && b[6..8][1] == b[7];
    Read32OfBe32(s.seqnum, b[..8], b[12..]);
    assert b[..8] + Be32(s.seqnum) + b[12..] == b;
    Read32OfBe32(s.acknum, b[..12], b[16..]);
    assert b[..12] + Be32(s.acknum) + b[16..] == b;
  }

  /** Nothing a sender writes into a header is lost or confused on the way. */
  lemma ParseOfSerialize(s: Segment)
    ensures Parse(Serialize(s)) == Some(s)
  {
    FlagsRecovered(s);
    FieldsRecovered(s, Serialize(s));
  }

  // ---- payload, SYN parameters and extended acks --------------------------

  /** The bytes left once `rm_head(hlen * 2)` has run. */
  function Payload(s: Segment): (r: seq<Byte>)
    requires 2 * s.hlen as int <= HEAD_SIZE + |s.body|
  {
    Serialize(s)[2 * s.hlen as int..]
  }

  lemma PayloadAfterPlainHead(s: Segment)
    requires s.hlen == 10
    ensures Payload(s) == s.body
  {
  }

  function SynBody(outSegsMax: U16, segSizeMax: U16): (r: seq<Byte>)
    ensures |r| == 4 && Read16(r, 0) == outSegsMax && Read16(r, 2) == segSizeMax
  {
    Be16(outSegsMax) + Be16(segSizeMax)
  }

  /** How many words the extended-ack parser reads: `(uint8_t)(hlen - 10) / 2`. */
  function EackCount(s: Segment): (n: nat) {
    (s.hlen as int - 10) % 0x100 / 2
  }

  function Eacks(s: Segment): (r: seq<U32>)
    requires 4 * EackCount(s) <= |s.body|
  {
    ReadWords(s.body, EackCount(s))
  }

  /** Header length of an ack that carries `n` extended acks; it must fit in a `uint8_t`. */
  function EackHlen(n: nat): (h: Byte)
    requires n <= MAX_EACK
    ensures h == 10 + 2 * n
  {
    10 + 4 * n / 2
  }

  /** Whatever list the acknowledging side writes, the parser recovers exactly that list. */
  lemma EackRoundTrip(s: Segment, seqs: seq<U32>)
    requires |seqs| <= MAX_EACK
    requires s.hlen == EackHlen(|seqs|) && s.body == WordBytes(seqs)
    ensures EackCount(s) == |seqs|
    ensures 4 * EackCount(s) <= |s.body| && Eacks(s) == seqs
  {
    hide ReadWords;
    hide WordBytes;
    ReadWordsOfWordBytes(seqs);
  }
}
