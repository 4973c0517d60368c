/** HMAC-SHA1 on top of the streaming context. */
module Hmac {
  import opened Seqs
  import opened SeqNum
  import opened Sha1Spec
  import opened Sha1Context

  const BLOCK: int := 64

  /** Section 2 of RFC 2104: keys longer than a block are hashed first, then filled up with zeros. */
  function BlockKey(key: seq<Octet>): (r: seq<Octet>)
    ensures |r| == BLOCK
  {
    var k := if |key| > BLOCK then Sha1(key) else key;
    k + Repeat<Octet>(0, BLOCK - |k|)
  }

  function XorAll(k: seq<Octet>, pad: Octet): (r: seq<Octet>)
    ensures |r| == |k|
  {
    seq(|k|, i requires 0 <= i < |k| => k[i] ^ pad)
  }

  function HmacOf(key: seq<Octet>, text: seq<Octet>): (r: seq<Octet>)
    ensures |r| == 20
  {
    Sha1(XorAll(BlockKey(key), 0x5c) + Sha1(XorAll(BlockKey(key), 0x36) + text))
  }

  /** The key as it is used; a long key is replaced in the caller's own array by its digest. */
  method ShortenKey(ctx: Ctx, key: array<Octet>, keyLength: nat) returns (n: nat)
    requires ctx.buffer.Length == 64 && key != ctx.buffer && keyLength <= key.Length && keyLength < MODULUS
    modifies ctx, ctx.buffer, key
    ensures n <= BLOCK && n <= key.Length && (keyLength <= BLOCK ==> key[..] == old(key[..]))
    ensures key[..n] + Repeat<Octet>(0, BLOCK - n) == BlockKey(old(key[..keyLength]))
  {
    hide Sha1;
    hide Repeat;
    hide Absorbed;
    hide Counts;
    hide Tail;
    n := keyLength;
    if n > BLOCK {
      ctx.Init();
      assert |ctx.msg| % 64 == 0;
      ctx.Update(key, n);
      assert ctx.msg == old(key[..keyLength]);
      ctx.Final(key);
      n := 20;
    }
  }

  method XorInPlace(k: array<Octet>, pad: Octet)
    requires k.Length > BLOCK
    modifies k
    ensures k[..BLOCK] == XorAll(old(k[..BLOCK]), pad)
  {
    var i := 0;
    while i < BLOCK
      invariant 0 <= i <= BLOCK
      invariant forall j :: 0 <= j < i ==> k[j] == old(k[j]) ^ pad
      invariant forall j :: i <= j < BLOCK ==> k[j] == old(k[j])
    {
      k[i] := k[i] ^ pad;
      i := i + 1;
    }
  }

  method MakePad(key: array<Octet>, n: nat, pad: Octet) returns (k: array<Octet>)
    requires n <= BLOCK && n <= key.Length
    ensures fresh(k) && k.Length == BLOCK + 1
    ensures k[..BLOCK] == XorAll(key[..n] + Repeat<Octet>(0, BLOCK - n), pad)
  {
    hide XorAll;
    k := new Octet[BLOCK + 1];
    forall i | 0 <= i < BLOCK + 1 {
      k[i] := if i < n then key[i] else 0;
    }
    assert k[..BLOCK] == key[..n] + Repeat<Octet>(0, BLOCK - n);
    XorInPlace(k, pad);
  }

  /** Hash a pad block followed by `n` bytes of `data` into `digest`. */
  method HashTwo(ctx: Ctx, pad: array<Octet>, data: array<Octet>, n: nat, digest: array<Octet>)
    requires ctx.buffer.Length == 64 && pad != ctx.buffer && data != ctx.buffer && digest != ctx.buffer && pad != data
    requires pad.Length >= BLOCK && n <= data.Length && n < MODULUS && digest.Length >= 20
    modifies ctx, ctx.buffer, pad, data, digest
    ensures digest[..20] == Sha1(old(pad[..BLOCK]) + old(data[..n]))
  {
    hide Sha1;
    hide Absorbed;
    hide Counts;
    hide Tail;
    ctx.Init();
    assert |ctx.msg| % 64 == 0;
    ctx.Update(pad, BLOCK);
    assert ctx.msg == old(pad[..BLOCK]);
    assert |ctx.msg| % 64 == 0;
    assert data[..n] == old(data[..n]);
    ctx.Update(data, n);
    assert ctx.msg == old(pad[..BLOCK]) + old(data[..n]);
    ctx.Final(digest);
  }

  /**
   `hmac_sha1`: the text and a long key are consumed in place.  The digest may overwrite the text or the key; only a long
   key must not be the text itself, which would be hashed after having been overwritten.
   */
  method HmacSha1(text: array<Octet>, textLength: nat, key: array<Octet>, keyLength: nat, digest: array<Octet>)
    requires text == key ==> keyLength <= BLOCK
    requires textLength <= text.Length && textLength < MODULUS
    requires keyLength <= key.Length && keyLength < MODULUS && digest.Length >= 20
    modifies text, key, digest
    ensures digest[..20] == HmacOf(old(key[..keyLength]), old(text[..textLength]))
  {
    hide Sha1;
    hide BlockKey;
    hide XorAll;
    hide Absorbed;
    hide Counts;
    hide Tail;
    hide Repeat;
    ghost var t := text[..];
    var ctx := new Ctx();
    var n := ShortenKey(ctx, key, keyLength);
    assert text[..] == t;
    assert text[..textLength] == text[..][..textLength] == t[..textLength];
    var ipad := MakePad(key, n, 0x36);
    var opad := MakePad(key, n, 0x5c);
    assert text[..] == t;
    assert text[..textLength] == t[..textLength];
    HashTwo(ctx, ipad, text, textLength, digest);
    HashTwo(ctx, opad, digest, 20, digest);
  }
}
