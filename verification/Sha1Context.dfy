/** The streaming context: any way of cutting a message into updates gives the FIPS digest. */
module Sha1Context {
  import opened Arith
  import opened SeqNum
  import opened Seqs
  import opened Sha1Spec
  import opened Sha1Stream

  // ---- the 64-bit bit counter kept in two 32-bit words -------------------------------

  ghost predicate Counts(c0: int, c1: int, n: nat) {
    c0 == 8 * n % MODULUS && c1 == 8 * n / MODULUS % MODULUS
  }

  lemma ModAdd(a: int, b: int)
    ensures (a % MODULUS + b) % MODULUS == (a + b) % MODULUS
  {
    var q := (a % MODULUS + b) / MODULUS;
    var r := (a % MODULUS + b) % MODULUS;
    DivModUnique(a + b, MODULUS, a / MODULUS + q, r);
  }

  /** `len << 3` in 32 bits. */
  function LowBits(len: nat): (r: U32) {
    8 * len % MODULUS
  }

  /** `len >> 29`. */
  function HighBits(len: nat): (r: U32)
    requires len < MODULUS
  {
    len / 0x2000_0000
  }

  /** The carry logic of `SHA1Update` adds `8 * len` to the counter, modulo 2^64. */
  lemma CountAdvances(c0: U32, c1: U32, n: nat, len: nat)
    requires Counts(c0, c1, n) && len < MODULUS
    ensures var c0' := Add32(c0, LowBits(len));
            var c1' := Add32(if c0' < LowBits(len) then Add32(c1, 1) else c1, HighBits(len));
            Counts(c0', c1', n + len)
  {
    var s, l := LowBits(len), HighBits(len);
    assert 8 * len == l * MODULUS + s;
    var q := 8 * n / MODULUS;
    assert 8 * n == q * MODULUS + c0;
    var carry := if c0 + s >= MODULUS then 1 else 0;
    DivModUnique(8 * (n + len), MODULUS, q + l + carry, Add32(c0, s));
    CarryAdds(q, c1, carry, l);
  }

  lemma CarryAdds(q: nat, c: U32, carry: U32, l: U32)
    requires c == q % MODULUS
    ensures Add32(Add32(c, carry), l) == (q + l + carry) % MODULUS
  {
    WrapIsMod(c, carry);
    WrapIsMod(Add32(c, carry), l);
    hide Add32;
    ModAdd(q, carry);
    ModAdd(q + carry, l);
  }

  lemma BufferPosition(c0: int, c1: int, n: nat)
    requires Counts(c0, c1, n)
    ensures c0 / 8 % 64 == n % 64
  {
    var q := 8 * n / MODULUS;
    assert 8 * n == q * MODULUS + c0;
    var b := c0 / 8;
    assert c0 == 8 * b;
    assert n == q * 0x2000_0000 + b;
    var k := b / 64;
    DivModUnique(n, 64, q * 0x80_0000 + k, b % 64);
  }

  /** What of the message is still waiting in the buffer. */
  function Tail(msg: seq<Octet>): (r: seq<Octet>)
    ensures |r| == |msg| % 64
  {
    msg[|msg| - |msg| % 64..]
  }

  function Head(msg: seq<Octet>): (r: seq<Octet>)
    ensures |r| % 64 == 0
  {
    msg[..|msg| - |msg| % 64]
  }

  lemma AbsorbedHead(h: Regs, msg: seq<Octet>)
    ensures Absorbed(h, msg) == Absorbed(h, Head(msg))
  {
    assert msg == Head(msg) + Tail(msg);
    AbsorbedConcat(h, Head(msg), Tail(msg));
    hide Compress;
  }

  /** One more complete block. */
  lemma AbsorbBlock(h: Regs, a: seq<Octet>, block: seq<Octet>)
    requires |a| % 64 == 0 && |block| == 64
    ensures Absorbed(h, a + block) == Compress(Absorbed(h, a), block)
  {
    AbsorbedConcat(h, a, block);
    assert block[..64] == block && block[64..] == [];
  }

  method Copy(dst: array<Octet>, at: nat, src: array<Octet>, from: nat, n: nat)
    requires dst != src && at + n <= dst.Length && from + n <= src.Length
    modifies dst
    ensures dst[..] == old(dst[..at]) + src[from..from + n] + old(dst[at + n..])
  {
    forall k | 0 <= k < n {
      dst[at + k] := src[from + k];
    }
  }

  class Ctx {
    var state: Regs
    var count0: U32
    var count1: U32
    const buffer: array<Octet>
    ghost var msg: seq<Octet>   // everything fed in so far

    ghost predicate Valid()
      reads this, buffer
    {
      && buffer.Length == 64
      && Counts(count0, count1, |msg|)
      && state == Absorbed(INIT, msg)
      && buffer[..|msg| % 64] == Tail(msg)
    }

    constructor ()
      ensures Valid() && msg == [] && fresh(buffer)
    {
      state, count0, count1, msg := INIT, 0, 0, [];
      buffer := new Octet[64];
    }

    /** `SHA1Init`: start over. */
    method Init()
      requires buffer.Length == 64
      modifies this
      ensures Valid() && msg == []
    {
      state, count0, count1, msg := INIT, 0, 0, [];
    }

    method AdvanceCount(len: nat, ghost n: nat)
      requires Counts(count0, count1, n) && len < MODULUS
      modifies this`count0, this`count1
      ensures Counts(count0, count1, n + len)
    {
      hide Counts;
      hide Add32;
      hide LowBits;
      hide HighBits;
      CountAdvances(count0, count1, n, len);
      count0 := Add32(count0, LowBits(len));
      if count0 < LowBits(len) {
        count1 := Add32(count1, 1);
      }
      count1 := Add32(count1, HighBits(len));
    }

    /** Complete the waiting block from the start of `data` and hash it. */
    method FillBlock(data: array<Octet>, j: nat)
      requires buffer.Length == 64 && data != buffer && j == |msg| % 64 && 64 - j <= data.Length
      requires state == Absorbed(INIT, msg) && buffer[..j] == Tail(msg)
      modifies this`state, buffer
      ensures state == Absorbed(INIT, msg + data[..64 - j]) && (|msg| + 64 - j) % 64 == 0
    {
      hide Absorbed;
      hide Compress;
      hide INIT;
      Copy(buffer, j, data, 0, 64 - j);
      assert buffer[..] == Tail(msg) + data[..64 - j];
      FirstBlock(INIT, msg, data[..64 - j], buffer[..]);
      assert buffer[0..64] == buffer[..];
      state := Transform(state, buffer, 0);
    }

    /** Hash the complete blocks of `data` where they lie. */
    method HashBlocks(data: array<Octet>, start: nat, len: nat) returns (i: nat)
      requires start <= len <= data.Length && (|msg| + start) % 64 == 0 && data != buffer
      requires state == Absorbed(INIT, msg + data[..start])
      modifies this`state, data
      ensures start <= i <= len < i + 64 && (|msg| + i) % 64 == 0
      ensures state == Absorbed(INIT, msg + old(data[..i])) && data[i..] == old(data[i..])
    {
      hide Absorbed;
      hide Compress;
      hide INIT;
      ghost var d := data[..];
      i := start;
      assert data[..start] == d[..start];
      while i + 63 < len
        invariant start <= i <= len && (|msg| + i) % 64 == 0
        invariant state == Absorbed(INIT, msg + d[..i]) && data[i..] == d[i..]
      {
        NextBlock(INIT, msg, d, i);
        assert data[i..i + 64] == data[i..][..64] == d[i..][..64] == d[i..i + 64];
        state := Transform(state, data, i);
        assert data[i + 64..] == d[i..][64..];
        i := i + 64;
      }
      assert d[..i] == old(data[..i]);
    }

    /** Hash what is waiting together with the complete blocks of `data`; returns how much of `data` that took. */
    method HashWhole(data: array<Octet>, len: nat, j: nat) returns (i: nat)
      requires buffer.Length == 64 && data != buffer && len <= data.Length && j == |msg| % 64
      requires state == Absorbed(INIT, msg) && buffer[..j] == Tail(msg) && j + len > 63
      modifies this`state, buffer, data
      ensures i <= len < i + 64 && (|msg| + i) % 64 == 0 && data[i..] == old(data[i..])
      ensures state == Absorbed(INIT, msg + old(data[..i]))
    {
      hide Absorbed;
      hide Compress;
      hide INIT;
      hide Tail;
      ghost var d := data[..];
      FillBlock(data, j);
      assert data[..64 - j] == d[..64 - j];
      i := HashBlocks(data, 64 - j, len);
    }

    /** Keep the rest for the next block. */
    method KeepRest(data: array<Octet>, i: nat, len: nat, j: nat, ghost m: seq<Octet>)
      requires buffer.Length == 64 && data != buffer && i <= len <= data.Length
      requires j == |m| % 64 && j + len - i < 64 && buffer[..j] == Tail(m)
      modifies buffer
      ensures |m + data[i..len]| % 64 == j + len - i && buffer[..j + len - i] == Tail(m + data[i..len])
      ensures Absorbed(INIT, m + data[i..len]) == Absorbed(INIT, m)
    {
      hide Absorbed;
      hide Compress;
      hide INIT;
      hide Tail;
      JoinTail(INIT, m, data[i..len]);
      Copy(buffer, j, data, i, len - i);
    }

    /**
     Feed `len` bytes; complete blocks inside `data` are hashed where they lie and overwritten.  Only lengths whose sum
     with what is waiting wraps around 2^32 are out: for those the code takes the data for less than a block.
     */
    method Update(data: array<Octet>, len: nat)
      requires Valid() && data != buffer && len <= data.Length && |msg| % 64 + len < MODULUS
      modifies this, buffer, data
      ensures Valid() && msg == old(msg) + old(data[..len])
      ensures len < 64 - old(|msg| % 64) ==> data[..] == old(data[..])
    {
      hide Absorbed;
      hide Compress;
      hide INIT;
      hide Counts;
      hide Tail;
      ghost var d := data[..];
      BufferPosition(count0, count1, |msg|);
      var j: nat := count0 / 8 % 64;
      AdvanceCount(len, |msg|);
      var i: nat := 0;
      assert msg + d[..0] == msg;
      if j + len > 63 {
        i := HashWhole(data, len, j);
        j := 0;
        EmptyTail(msg + d[..i]);
      }
      KeepRest(data, i, len, j, msg + d[..i]);
      assert data[i..len] == data[i..][..len - i] == d[i..][..len - i] == d[i..len];
      assert msg + d[..i] + d[i..len] == msg + d[..len];
      msg := msg + d[..len];
    }

    method UpdateOne(b: Octet)
      requires Valid()
      modifies this, buffer
      ensures Valid() && msg == old(msg) + [b]
    {
      var data := new Octet[1];
      data[0] := b;
      ghost var d := data[..];
      assert d[..1] == [b];
      Update(data, 1);
    }

    /** A one bit and zeros, up to eight bytes short of a complete block. */
    method AddPadding()
      requires Valid()
      modifies this, buffer
      ensures Valid() && msg == old(msg) + [0x80] + Repeat<Octet>(0, Padding(old(|msg|)))
    {
      hide Absorbed;
      hide INIT;
      hide Padding;
      hide Repeat;
      hide Tail;
      hide Counts;
      ghost var m0 := msg;
      UpdateOne(0x80);
      ghost var k: nat := 0;
      assert msg + Repeat<Octet>(0, 0) == msg;
      BufferPosition(count0, count1, |msg|);
      PaddingReached(|m0|, 0);
      while count0 / 8 % 64 * 8 != 448
        invariant Valid() && k <= Padding(|m0|) && msg == m0 + [0x80] + Repeat<Octet>(0, k)
        invariant count0 / 8 % 64 == |msg| % 64 && (|msg| % 64 == 56 <==> k == Padding(|m0|))
        decreases Padding(|m0|) - k
      {
        UpdateOne(0);
        RepeatSnoc<Octet>(0, k);
        assert m0 + [0x80] + Repeat<Octet>(0, k) + [0] == m0 + [0x80] + Repeat<Octet>(0, k + 1);
        k := k + 1;
        BufferPosition(count0, count1, |msg|);
        PaddingReached(|m0|, k);
      }
    }

    /** The bit count as it stands, most significant byte first. */
    method FinalCount() returns (fc: array<Octet>)
      requires Valid()
      ensures fresh(fc) && fc[..] == LengthOctets(|msg|)
    {
      hide IntOctets;
      fc := new Octet[8];
      PutOctets(fc, 0, count1);
      PutOctets(fc, 4, count0);
      LengthFromCounts(count0, count1, |msg|);
      assert fc[..] == fc[0..4] + fc[4..8];
    }

    method Wipe()
      requires buffer.Length == 64
      modifies this, buffer
    {
      state, count0, count1, msg := Regs(0, 0, 0, 0, 0), 0, 0, [];
      forall i | 0 <= i < 64 {
        buffer[i] := 0;
      }
    }

    /** Pad, append the length, and write out the digest; the context is wiped. */
    method Final(digest: array<Octet>)
      requires Valid() && digest != buffer && digest.Length >= 20
      modifies this, buffer, digest
      ensures digest[..] == Sha1(old(msg)) + old(digest[20..])
    {
      hide Absorbed;
      hide INIT;
      hide LengthOctets;
      hide Padding;
      hide Repeat;
      hide DigestOf;
      hide Counts;
      hide Tail;
      ghost var m0 := msg;
      var fc := FinalCount();
      AddPadding();
      ghost var bytes := fc[..];
      assert bytes[..8] == bytes;
      Update(fc, 8);
      assert msg == Pad(m0);
      WriteDigest(digest);
      Wipe();
    }

    method WriteDigest(digest: array<Octet>)
      requires digest != buffer && digest.Length >= 20
      modifies digest
      ensures digest[..] == DigestOf(state) + old(digest[20..])
    {
      var d := DigestOf(state);
      forall i | 0 <= i < 20 {
        digest[i] := d[i];
      }
    }
  }

  method PutOctets(a: array<Octet>, at: nat, n: int)
    requires at + 4 <= a.Length && n >= 0
    modifies a
    ensures a[at..at + 4] == IntOctets(n)
    ensures forall k :: 0 <= k < a.Length && !(at <= k < at + 4) ==> a[k] == old(a[k])
  {
    a[at], a[at + 1], a[at + 2], a[at + 3] := OctetOf(n, 0x100_0000), OctetOf(n, 0x1_0000), OctetOf(n, 0x100), OctetOf(n, 1);
  }

  lemma LengthFromCounts(c0: int, c1: int, n: nat)
    requires Counts(c0, c1, n)
    ensures LengthOctets(n) == IntOctets(c1) + IntOctets(c0)
  {
  }

  /** Zeros are added until eight bytes are missing to a complete block. */
  lemma PaddingReached(n: nat, k: nat)
    requires k <= Padding(n)
    ensures (n + 1 + k) % 64 == 56 <==> k == Padding(n)
  {
    var r := n % 64;
    assert n == 64 * (n / 64) + r;
    if r + 1 + k < 64 {
      DivModUnique(n + 1 + k, 64, n / 64, r + 1 + k);
    } else if r + 1 + k < 128 {
      DivModUnique(n + 1 + k, 64, n / 64 + 1, r + 1 + k - 64);
    }
  }

  /** A padded message is a whole number of blocks, so its last block is hashed too. */
  lemma PadLength(msg: seq<Octet>)
    ensures |Pad(msg)| % 64 == 0
  {
    hide Padding;
    var n := |msg| + 1 + Padding(|msg|);
    PaddingReached(|msg|, Padding(|msg|));
    assert n == 64 * (n / 64) + 56;
    DivModUnique(n + 8, 64, n / 64 + 1, 0);
  }

  lemma FirstBlock(h: Regs, m0: seq<Octet>, d: seq<Octet>, buffer: seq<Octet>)
    requires |m0| % 64 + |d| == 64 && buffer == Tail(m0) + d
    ensures Absorbed(h, m0 + d) == Compress(Absorbed(h, m0), buffer)
    ensures (|m0| + |d|) % 64 == 0
  {
    hide Absorbed;
    hide Compress;
    AbsorbedHead(h, m0);
    AbsorbBlock(h, Head(m0), buffer);
    HeadTail(m0);
    hide Head;
    hide Tail;
    assert Head(m0) + (Tail(m0) + d) == (Head(m0) + Tail(m0)) + d;
    assert |m0| == 64 * (|m0| / 64) + |m0| % 64;
    DivModUnique(|m0| + |d|, 64, |m0| / 64 + 1, 0);
  }

  lemma EmptyTail(m: seq<Octet>)
    requires |m| % 64 == 0
    ensures Tail(m) == []
  {
  }

  lemma HeadTail(m: seq<Octet>)
    ensures Head(m) + Tail(m) == m
  {
  }

  lemma NextBlock(h: Regs, m0: seq<Octet>, d: seq<Octet>, i: nat)
    requires i + 64 <= |d| && (|m0| + i) % 64 == 0
    ensures Absorbed(h, m0 + d[..i + 64]) == Compress(Absorbed(h, m0 + d[..i]), d[i..i + 64])
    ensures (|m0| + i + 64) % 64 == 0
  {
    hide Absorbed;
    hide Compress;
    AbsorbBlock(h, m0 + d[..i], d[i..i + 64]);
    assert m0 + d[..i] + d[i..i + 64] == m0 + d[..i + 64];
  }

  /** No complete block left: the data joins what is waiting. */
  lemma JoinTail(h: Regs, m: seq<Octet>, d: seq<Octet>)
    requires |m| % 64 + |d| < 64
    ensures Absorbed(h, m + d) == Absorbed(h, m) && Tail(m + d) == Tail(m) + d && |m + d| % 64 == |m| % 64 + |d|
  {
    AbsorbedHead(h, m);
    AbsorbedHead(h, m + d);
    hide Absorbed;
    hide Compress;
    assert |m + d| % 64 == |m| % 64 + |d|;
    assert Head(m + d) == Head(m);
  }

  // ---- every way of feeding a message ---------------------------------------------------

  /** However a message is cut into pieces, feeding them one after the other gives its digest. */
  method DigestOfPieces(pieces: seq<seq<Octet>>) returns (digest: seq<Octet>)
    requires forall i :: 0 <= i < |pieces| ==> |Flatten(pieces[..i])| % 64 + |pieces[i]| < MODULUS
    ensures digest == Sha1(Flatten(pieces))
  {
    hide Sha1;
    var ctx := new Ctx();
    var i := 0;
    while i < |pieces|
      invariant 0 <= i <= |pieces| && ctx.Valid() && ctx.msg == Flatten(pieces[..i]) && fresh(ctx) && fresh(ctx.buffer)
    {
      var piece := pieces[i];
      var data := new Octet[|piece|];
      forall k | 0 <= k < |piece| {
        data[k] := piece[k];
      }
      assert data[..|piece|] == piece;
      ctx.Update(data, |piece|);
      assert pieces[..i + 1] == pieces[..i] + [piece];
      FlattenSnoc(pieces[..i], piece);
      i := i + 1;
    }
    assert pieces[..i] == pieces;
    var out := new Octet[20];
    ghost var rest := out[20..];
    ctx.Final(out);
    digest := out[..];
  }
}
