/** Big-endian bytes and hexadecimal text of a row of limbs. */
module BnHex {
  import opened Arith
  import opened SeqNum
  import opened Seqs
  import opened Bytes
  import opened Bn
  import opened BnShift

  // ---- bytes -----------------------------------------------------------------------------

  /** `to_binary`: whole limbs only; a length beyond the limbs would read past them. */
  method ToBinary(num: array<U32>, buf: array<Byte>, len: nat)
    requires len <= buf.Length && len / 4 <= num.Length
    modifies buf
    ensures buf[..len / 4 * 4] == WordBytes(num[..len / 4])
    ensures buf[len / 4 * 4..] == old(buf[len / 4 * 4..])
  {
    hide WordBytes;
    hide Be32;
    var n := len / 4;
    NoWords();
    assert num[..0] == [];
    for i := 0 to n
      invariant buf[..4 * i] == WordBytes(num[..i])
      invariant forall k :: 4 * i <= k < buf.Length ==> buf[k] == old(buf[k])
    {
      var b := Be32(num[i]);
      ghost var done := buf[..4 * i];
      buf[4 * i], buf[4 * i + 1], buf[4 * i + 2], buf[4 * i + 3] := b[0], b[1], b[2], b[3];
      assert buf[..4 * (i + 1)] == done + b;
      WordsSnoc(num[..i], num[i]);
      assert num[..i + 1] == num[..i] + [num[i]];
    }
  }

  lemma NoWords()
    ensures WordBytes([]) == []
  {
  }

  lemma {:induction false} WordsSnoc(ws: seq<U32>, w: U32)
    ensures WordBytes(ws + [w]) == WordBytes(ws) + Be32(w)
  {
    hide Be32;
    if ws == [] {
      assert ws + [w] == [w] && [w][1..] == [];
      assert Be32(w) + [] == Be32(w) == [] + Be32(w);
    } else {
      assert (ws + [w])[1..] == ws[1..] + [w];
      WordsSnoc(ws[1..], w);
      assert Be32(ws[0]) + (WordBytes(ws[1..]) + Be32(w)) == Be32(ws[0]) + WordBytes(ws[1..]) + Be32(w);
    }
  }

  /** `from_binary`: as many limbs as the bytes fill, zeros for the rest. */
  method FromBinary(num: array<U32>, buf: array<Byte>, len: nat)
    requires len <= buf.Length
    modifies num
    ensures var k := if len / 4 < num.Length then len / 4 else num.Length;
            num[..] == ReadWords(buf[..], k) + Repeat<U32>(0, num.Length - k)
  {
    hide ReadWords;
    hide Read32;
    var n := num.Length;
    for j := 0 to n
      invariant forall k :: 0 <= k < j ==> num[k] == 0
    {
      num[j] := 0;
    }
    ghost var b := buf[..];
    var i, left := 0, len;
    ghost var all := ReadWords(b, if len / 4 < n then len / 4 else n);
    while i < n && left >= 4
      invariant 0 <= i <= |all| && left == len - 4 * i
      invariant forall k :: 0 <= k < i ==> num[k] == all[k]
      invariant forall k :: i <= k < n ==> num[k] == 0
    {
      WordAt(b, |all|, i);
      num[i] := Read32(buf[..], 4 * i);
      i, left := i + 1, left - 4;
    }
  }

  lemma {:induction false} WordAt(b: seq<Byte>, n: nat, i: nat)
    requires 4 * n <= |b| && i < n
    ensures ReadWords(b, n)[i] == Read32(b, 4 * i)
  {
    if i > 0 {
      WordAt(b[4..], n - 1, i - 1);
    }
  }

  function BytesVal(b: seq<Byte>): (v: nat) {
    if b == [] then 0 else BytesVal(b[..|b| - 1]) * 256 + b[|b| - 1]
  }

  lemma {:induction false} BytesConcat(a: seq<Byte>, b: seq<Byte>)
    ensures BytesVal(a + b) == BytesVal(a) * Pow2(8 * |b|) + BytesVal(b)
    decreases |b|
  {
    if b == [] {
      assert a + b == a;
    } else {
      var init, last := b[..|b| - 1], b[|b| - 1];
      assert (a + b)[..|a + b| - 1] == a + init;
      BytesConcat(a, init);
      var v, p := BytesVal(a), Pow2(8 * |init|);
      assert 8 * |b| == 8 + 8 * |init|;
      Pow2Add(8, 8 * |init|);
      assert Pow2(8) == 256 by { Pow2Add(4, 4); }
      assert v * p * 256 == v * (256 * p) by { MulAssoc(v, p, 256); }
    }
  }

  lemma Be32Bytes(w: U32)
    ensures BytesVal(Be32(w)) == w
  {
    Be32Value(w);
    var b := Be32(w);
    assert b[..3][..2] == b[..2] && b[..2][..1] == b[..1] && b[..1][..0] == [];
    assert BytesVal(b[..1]) == b[0];
    assert BytesVal(b[..2]) == b[0] as int * 0x100 + b[1];
    assert BytesVal(b[..3]) == (b[0] as int * 0x100 + b[1]) * 0x100 + b[2];
  }

  /** The bytes spell the number, most significant first. */
  lemma {:induction false} WordBytesVal(ws: seq<U32>)
    ensures BytesVal(WordBytes(ws)) == Val(ws)
  {
    hide Be32;
    hide Pow;
    hide Pow2;
    if ws != [] {
      WordBytesVal(ws[1..]);
      BytesConcat(Be32(ws[0]), WordBytes(ws[1..]));
      Be32Bytes(ws[0]);
      PowIsPow2(|ws| - 1);
      assert 8 * |WordBytes(ws[1..])| == 32 * (|ws| - 1);
    }
  }

  // ---- hexadecimal text ----------------------------------------------------------------------

  function Digit(d: int): char
    requires 0 <= d < 16
  {
    "0123456789abcdef"[d]
  }

  predicate IsHex(c: char) {
    '0' <= c <= '9' || 'A' <= c <= 'F' || 'a' <= c <= 'f'
  }

  function DigitValue(c: char): (d: U32)
    requires IsHex(c)
    ensures d < 16
  {
    if '0' <= c <= '9' then c as int - '0' as int
    else if 'A' <= c <= 'F' then c as int - 'A' as int + 10
    else c as int - 'a' as int + 10
  }

  lemma DigitRecovered(d: int)
    requires 0 <= d < 16
    ensures IsHex(Digit(d)) && DigitValue(Digit(d)) == d
  {
  }

  predicate AllHex(s: string) {
    forall i :: 0 <= i < |s| ==> IsHex(s[i])
  }

  function HexValue(s: string): (v: nat)
    requires AllHex(s)
  {
    if s == [] then 0 else HexValue(s[..|s| - 1]) * 16 + DigitValue(s[|s| - 1])
  }

  /** Two digits per byte. */
  function HexOf(b: seq<Byte>): (s: string)
    ensures |s| == 2 * |b|
  {
    if b == [] then [] else HexOf(b[..|b| - 1]) + [Digit(b[|b| - 1] / 16), Digit(b[|b| - 1] % 16)]
  }

  lemma {:induction false} HexOfValue(b: seq<Byte>)
    ensures AllHex(HexOf(b)) && HexValue(HexOf(b)) == BytesVal(b)
  {
    if b != [] {
      var init, last := b[..|b| - 1], b[|b| - 1];
      HexOfValue(init);
      DigitRecovered(last / 16);
      DigitRecovered(last % 16);
      TwoMore(HexOf(init), Digit(last / 16), Digit(last % 16));
    }
  }

  lemma TwoMore(s: string, c: char, d: char)
    requires AllHex(s) && IsHex(c) && IsHex(d)
    ensures AllHex(s + [c, d]) && HexValue(s + [c, d]) == HexValue(s) * 256 + DigitValue(c) as int * 16 + DigitValue(d)
  {
    var t := s + [c, d];
    assert t[..|t| - 1] == s + [c];
    assert (s + [c])[..|s|] == s;
    assert HexValue(s + [c]) == HexValue(s) * 16 + DigitValue(c);
  }

  /** `to_string`: eight digits per limb that spell the number. */
  method ToString(num: array<U32>) returns (str: string)
    ensures str == HexOf(WordBytes(num[..])) && AllHex(str) && HexValue(str) == Val(num[..])
  {
    hide WordBytes;
    hide HexValue;
    hide Val;
    var len := 4 * num.Length;
    var buf := new Byte[len];
    ToBinary(num, buf, len);
    assert len / 4 == num.Length && num[..num.Length] == num[..];
    str := [];
    assert buf[..0] == [];
    for i := 0 to len
      invariant str == HexOf(buf[..i])
    {
      str := str + [Digit(buf[i] / 16)];
      str := str + [Digit(buf[i] % 16)];
      assert buf[..i + 1][..i] == buf[..i];
    }
    assert buf[..len] == WordBytes(num[..]);
    HexOfValue(buf[..len]);
    WordBytesVal(num[..]);
  }

  /** How many digits stand at the front. */
  function HexRun(s: string): (n: nat)
    ensures n <= |s| && AllHex(s[..n]) && (n < |s| ==> !IsHex(s[n]))
  {
    if s == [] || !IsHex(s[0]) then 0
    else
      var n := HexRun(s[1..]);
      assert s[..1 + n] == [s[0]] + s[1..][..n];
      1 + n
  }

  /** A character that is no digit ends the number, but only after the digits before it have been moved to make room. */
  function Parsed(s: string): nat {
    var n := HexRun(s);
    HexValue(s[..n]) * if n < |s| && s[n] != '\0' then 16 else 1
  }

  lemma ShiftThenMod(v: int, x: int, p: nat)
    requires p >= 1 && x == v % p
    ensures x * 16 % p == v * 16 % p
  {
    var q := v / p;
    assert v == q * p + x;
    var q', r := x * 16 / p, x * 16 % p;
    assert x * 16 == q' * p + r;
    assert v * 16 == (q * 16 + q') * p + r by { assert q * p * 16 == q * 16 * p; }
    DivModUnique(v * 16, p, q * 16 + q', r);
  }

  lemma AddThenMod(v: int, x: int, d: int, p: nat)
    requires p >= 1 && x == v % p
    ensures (x + d) % p == (v + d) % p
  {
    var q := v / p;
    assert v == q * p + x;
    var q', r := (x + d) / p, (x + d) % p;
    assert x + d == q' * p + r;
    assert v + d == (q + q') * p + r;
    DivModUnique(v + d, p, q + q', r);
  }

  /** Make room for one more digit: `*this <<= 4`. */
  method MakeRoom(num: array<U32>, ghost v: nat)
    requires Val(num[..]) == v % Pow(num.Length)
    modifies num
    ensures Val(num[..]) == v * 16 % Pow(num.Length)
  {
    ShiftThenMod(v, Val(num[..]), Pow(num.Length));
    assert Pow2(4) == 16;
    ShiftLeft(num, 4);
  }

  /** `from_string`. */
  method FromString(num: array<U32>, str: string)
    requires num.Length > 0
    modifies num
    ensures Val(num[..]) == Parsed(str) % Pow(num.Length)
  {
    hide Val;
    hide Pow;
    hide HexValue;
    hide HexRun;
    for j := 0 to num.Length
      invariant forall k :: 0 <= k < j ==> num[k] == 0
    {
      num[j] := 0;
    }
    ZeroVal(num[..]);
    HexEmpty(num.Length);
    var k := 0;
    assert str[..0] == [];
    while k < |str| && str[k] != '\0'
      invariant 0 <= k <= |str| && AllHex(str[..k])
      invariant Val(num[..]) == HexValue(str[..k]) % Pow(num.Length)
    {
      var c := str[k];
      MakeRoom(num, HexValue(str[..k]));
      if !IsHex(c) {
        RunIs(str, k);
        return;
      }
      HexSnoc(str, k);
      AddThenMod(HexValue(str[..k]) * 16, Val(num[..]), DigitValue(c), Pow(num.Length));
      PlusLimb(num, num, DigitValue(c));
      k := k + 1;
    }
    RunIs(str, k);
  }

  lemma HexEmpty(n: nat)
    ensures HexValue([]) == 0 && 0 % Pow(n) == 0
  {
    DivModUnique(0, Pow(n), 0, 0);
  }

  lemma HexSnoc(s: string, k: nat)
    requires k < |s| && AllHex(s[..k]) && IsHex(s[k])
    ensures AllHex(s[..k + 1]) && HexValue(s[..k + 1]) == HexValue(s[..k]) * 16 + DigitValue(s[k])
  {
    assert s[..k + 1][..k] == s[..k];
  }

  lemma {:induction false} RunIs(s: string, k: nat)
    requires k <= |s| && AllHex(s[..k]) && (k < |s| ==> !IsHex(s[k]))
    ensures HexRun(s) == k
  {
    if k > 0 {
      assert s[0] == s[..k][0];
      assert s[1..][..k - 1] == s[..k][1..];
      RunIs(s[1..], k - 1);
    }
  }

  /** A string of digits stands for its value, and the text of a number for that number. */
  lemma HexRoundTrip(s: string, ws: seq<U32>)
    ensures AllHex(s) ==> Parsed(s) == HexValue(s)
    ensures Parsed(HexOf(WordBytes(ws))) % Pow(|ws|) == Val(ws)
  {
    hide Val;
    hide Pow;
    hide HexValue;
    hide HexOf;
    if AllHex(s) {
      assert s[..|s|] == s;
      RunIs(s, |s|);
    }
    var t := HexOf(WordBytes(ws));
    HexOfValue(WordBytes(ws));
    WordBytesVal(ws);
    assert t[..|t|] == t;
    RunIs(t, |t|);
    ValBound(ws);
    DivModUnique(Val(ws), Pow(|ws|), 0, Val(ws));
  }

  /** Text written by `to_string` reads back as the same number. */
  method RoundTrip(x: array<U32>) returns (y: array<U32>)
    requires x.Length > 0
    ensures fresh(y) && y[..] == x[..]
  {
    hide Val;
    hide Pow;
    hide HexOf;
    hide WordBytes;
    var str := ToString(x);
    y := new U32[x.Length];
    FromString(y, str);
    HexRoundTrip(str, x[..]);
    ValInjective(x[..], y[..]);
  }
}
