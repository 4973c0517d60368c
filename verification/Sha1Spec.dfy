/** SHA-1 as FIPS 180-1 defines it. */
module Sha1Spec {
  import opened Seqs

  type Octet = bv8
  type Word = bv32

  datatype Regs = Regs(a: Word, b: Word, c: Word, d: Word, e: Word)

  /** Left rotation by 1, 5 and 30 places. */
  function Rotl1(x: Word): Word { (x << 1) | (x >> 31) }

  function Rotl5(x: Word): Word { (x << 5) | (x >> 27) }

  function Rotl30(x: Word): Word { (x << 30) | (x >> 2) }

  const INIT: Regs := Regs(0x67452301, 0xEFCDAB89, 0x98BADCFE, 0x10325476, 0xC3D2E1F0)

  /** The logical functions of section 5. */
  function F(t: nat, b: Word, c: Word, d: Word): Word {
    if t < 20 then (b & c) | (!b & d)
    else if t < 40 then b ^ c ^ d
    else if t < 60 then (b & c) | (b & d) | (c & d)
    else b ^ c ^ d
  }

  /** The constants of section 6. */
  function K(t: nat): Word {
    if t < 20 then 0x5A827999 else if t < 40 then 0x6ED9EBA1 else if t < 60 then 0x8F1BBCDC else 0xCA62C1D6
  }

  function Join(b0: Octet, b1: Octet, b2: Octet, b3: Octet): Word {
    (b0 as Word << 24) | (b1 as Word << 16) | (b2 as Word << 8) | b3 as Word
  }

  /** The sixteen words of a block, most significant byte first. */
  function Words(block: seq<Octet>): (m: seq<Word>)
    requires |block| == 64
    ensures |m| == 16
  {
    seq(16, i requires 0 <= i < 16 => Join(block[4 * i], block[4 * i + 1], block[4 * i + 2], block[4 * i + 3]))
  }

  function Mixed(a: Word, b: Word, c: Word, d: Word): Word {
    Rotl1(a ^ b ^ c ^ d)
  }

  /** The 80-word message schedule of section 7. */
  function W(m: seq<Word>, t: nat): Word
    requires |m| == 16
  {
    if t < 16 then m[t] else Mixed(W(m, t - 3), W(m, t - 8), W(m, t - 14), W(m, t - 16))
  }

  function Temp(a: Word, f: Word, e: Word, w: Word, k: Word): Word {
    a + f + e + w + k
  }

  function Round(r: Regs, w: Word, t: nat): Regs {
    Regs(Temp(Rotl5(r.a), F(t, r.b, r.c, r.d), r.e, w, K(t)), r.a, Rotl30(r.b), r.c, r.d)
  }

  function Rounds(h: Regs, m: seq<Word>, t: nat): Regs
    requires |m| == 16
  {
    if t == 0 then h else Round(Rounds(h, m, t - 1), W(m, t - 1), t - 1)
  }

  function AddRegs(h: Regs, r: Regs): Regs {
    Regs(h.a + r.a, h.b + r.b, h.c + r.c, h.d + r.d, h.e + r.e)
  }

  function Compress(h: Regs, block: seq<Octet>): Regs
    requires |block| == 64
  {
    AddRegs(h, Rounds(h, Words(block), 80))
  }

  /** All complete blocks of a message, in order. */
  function Absorbed(h: Regs, msg: seq<Octet>): Regs
    decreases |msg|
  {
    if |msg| < 64 then h else Absorbed(Compress(h, msg[..64]), msg[64..])
  }

  function OctetOf(n: nat, shift: nat): Octet
    requires shift > 0
  {
    (n / shift % 0x100) as Octet
  }

  function IntOctets(n: nat): (r: seq<Octet>)
    ensures |r| == 4
  {
    [OctetOf(n, 0x100_0000), OctetOf(n, 0x1_0000), OctetOf(n, 0x100), OctetOf(n, 1)]
  }

  /** The length in bits, as two 32-bit words, high word first. */
  function LengthOctets(n: nat): (r: seq<Octet>)
    ensures |r| == 8
  {
    IntOctets(8 * n / 0x1_0000_0000 % 0x1_0000_0000) + IntOctets(8 * n % 0x1_0000_0000)
  }

  function Padding(n: nat): nat {
    (119 - n % 64) % 64
  }

  /** Section 4: a one bit, zeros, the length. */
  function Pad(msg: seq<Octet>): seq<Octet> {
    msg + [0x80] + Repeat<Octet>(0, Padding(|msg|)) + LengthOctets(|msg|)
  }

  function WordOctets(w: Word): (r: seq<Octet>)
    ensures |r| == 4
  {
    [((w >> 24) & 0xFF) as Octet, ((w >> 16) & 0xFF) as Octet, ((w >> 8) & 0xFF) as Octet, (w & 0xFF) as Octet]
  }

  function DigestOf(h: Regs): (r: seq<Octet>)
    ensures |r| == 20
  {
    WordOctets(h.a) + WordOctets(h.b) + WordOctets(h.c) + WordOctets(h.d) + WordOctets(h.e)
  }

  function Sha1(msg: seq<Octet>): (r: seq<Octet>)
    ensures |r| == 20
  {
    DigestOf(Absorbed(INIT, Pad(msg)))
  }

  lemma {:induction false} AbsorbedConcat(h: Regs, a: seq<Octet>, b: seq<Octet>)
    requires |a| % 64 == 0
    ensures Absorbed(h, a + b) == Absorbed(Absorbed(h, a), b)
    decreases |a|
  {
    if a == [] {
      assert a + b == b;
    } else {
      assert (a + b)[..64] == a[..64];
      assert (a + b)[64..] == a[64..] + b;
      AbsorbedConcat(Compress(h, a[..64]), a[64..], b);
    }
  }
}
