/** Bytes and big-endian words. */
module Bytes {
  import opened SeqNum

  type Byte = x: int | 0 <= x < 256

  datatype Option<+T> = None | Some(value: T)

  // ---- big-endian numbers -------------------------------------------------

  function Be16(n: int): (r: seq<Byte>)
    requires 0 <= n < 0x1_0000
    ensures |r| == 2
  {
    [n / 0x100, n % 0x100]
  }

  function Be32(n: U32): (r: seq<Byte>)
    ensures |r| == 4
  {
    [n / 0x100_0000, n / 0x1_0000 % 0x100, n / 0x100 % 0x100, n % 0x100]
  }

  function Read16(b: seq<Byte>, i: nat): (n: int)
    requires i + 2 <= |b|
    ensures 0 <= n < 0x1_0000
  {
    b[i] as int * 0x100 + b[i + 1]
  }

  function Read32(b: seq<Byte>, i: nat): (n: U32)
    requires i + 4 <= |b|
  {
    b[i] as int * 0x100_0000 + b[i + 1] as int * 0x1_0000 + b[i + 2] as int * 0x100 + b[i + 3]
  }

  lemma Be32Value(n: U32)
    ensures n == (n / 0x100_0000) * 0x100_0000 + (n / 0x1_0000 % 0x100) * 0x1_0000 + (n / 0x100 % 0x100) * 0x100 + n % 0x100
  {
    assert n / 0x1_0000 == n / 0x100 / 0x100;
    assert n / 0x100_0000 == n / 0x1_0000 / 0x100;
  }

  lemma Read32OfBe32(n: U32, pre: seq<Byte>, post: seq<Byte>)
    ensures Read32(pre + Be32(n) + post, |pre|) == n
  {
    var b := pre + Be32(n) + post;
    assert b[|pre|] == Be32(n)[0] && b[|pre| + 1] == Be32(n)[1] && b[|pre| + 2] == Be32(n)[2] && b[|pre| + 3] == Be32(n)[3];
    Be32Value(n);
  }

  /** A list of words, each in network byte order. */
  function WordBytes(ws: seq<U32>): (r: seq<Byte>)
    ensures |r| == 4 * |ws|
  {
    if ws == [] then [] else Be32(ws[0]) + WordBytes(ws[1..])
  }

  /** The first `n` words of a byte string. */
  function ReadWords(b: seq<Byte>, n: nat): (ws: seq<U32>)
    requires 4 * n <= |b|
    ensures |ws| == n
  {
    if n == 0 then [] else [Read32(b, 0)] + ReadWords(b[4..], n - 1)
  }

  lemma {:induction false} ReadWordsOfWordBytes(ws: seq<U32>)
    ensures ReadWords(WordBytes(ws), |ws|) == ws
  {
    if ws != [] {
      var b := WordBytes(ws);
      Read32OfBe32(ws[0], [], WordBytes(ws[1..]));
      assert [] + Be32(ws[0]) + WordBytes(ws[1..]) == b;
      assert b[4..] == WordBytes(ws[1..]);
      ReadWordsOfWordBytes(ws[1..]);
    }
  }
}
