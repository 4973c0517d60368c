/** The Base64 coder with line breaks, and the decoder's six-phase machine. */
module Base64 {
  import opened Arith
  import Bytes

  type Octet = Bytes.Byte
  type Sextet = x: int | 0 <= x < 64

  const CR: Octet := 13
  const LF: Octet := 10
  const PAD: Octet := 61

  /** The alphabet of section 4 of RFC 4648. */
  function Letter(s: Sextet): Octet {
    if s < 26 then 65 + s
    else if s < 52 then 97 + s - 26
    else if s < 62 then 48 + s - 52
    else if s == 62 then 43 else 47
  }

  /** The decoding table: a value, or -1 for padding, -2 for space, -3 for anything else, -5 for NUL. */
  function Lookup(c: Octet): (v: int)
    requires c < 128
    ensures -5 <= v < 64
  {
    if c == 0 then -5
    else if 9 <= c <= 13 || c == 32 then -2
    else if c == 43 then 62
    else if c == 47 then 63
    else if 48 <= c <= 57 then c - 48 + 52
    else if c == PAD then -1
    else if 65 <= c <= 90 then c - 65
    else if 97 <= c <= 122 then c - 97 + 26
    else -3
  }

  /** The alphabet as section 4 of RFC 4648 prints it. */
  const UPPER: string := "ABCDEFGHIJKLMNOPQRSTUVWXYZ"
  const LOWER: string := "abcdefghijklmnopqrstuvwxyz"
  const REST: string := "0123456789+/"

  function Alphabet(): (r: string)
    ensures |r| == 64
  {
    UPPER + LOWER + REST
  }

  lemma UpperInOrder(i: nat)
    requires i < 26
    ensures UPPER[i] as int == 65 + i
  {
  }

  lemma LowerInOrder(i: nat)
    requires i < 26
    ensures LOWER[i] as int == 97 + i
  {
  }

  lemma RestInOrder(i: nat)
    requires i < 12
    ensures REST[i] as int == if i < 10 then 48 + i else if i == 10 then 43 else 47
  {
  }

  lemma LetterIsAlphabet(s: Sextet)
    ensures Letter(s) == Alphabet()[s] as int
  {
    if s < 26 {
      UpperInOrder(s);
    } else if s < 52 {
      LowerInOrder(s - 26);
    } else {
      RestInOrder(s - 52);
    }
  }

  lemma LetterRecovered(s: Sextet)
    ensures Letter(s) < 128 && Lookup(Letter(s)) == s
  {
  }

  // ---- encoding ----------------------------------------------------------------

  /** The number four letters spell in base 64. */
  function Spelled(r: seq<Octet>): int
    requires |r| == 4 && forall i :: 0 <= i < 4 ==> r[i] < 128
  {
    ((Lookup(r[0]) * 64 + Lookup(r[1])) * 64 + Lookup(r[2])) * 64 + Lookup(r[3])
  }

  function First(x: Octet): Sextet { x / 4 }

  function Second(x: Octet, y: Octet): Sextet { x % 4 * 16 + y / 16 }

  function Third(y: Octet, z: Octet): Sextet { y % 16 * 4 + z / 64 }

  function Fourth(z: Octet): Sextet { z % 64 }

  function Group(x: Octet, y: Octet, z: Octet): (r: seq<Octet>)
    ensures |r| == 4
  {
    [Letter(First(x)), Letter(Second(x, y)), Letter(Third(y, z)), Letter(Fourth(z))]
  }

  /** One or two bytes left over: the group is completed with padding. */
  function LastGroup(b: seq<Octet>): (r: seq<Octet>)
    requires 1 <= |b| <= 2
    ensures |r| == 4
  {
    if |b| == 1 then [Letter(First(b[0])), Letter(Second(b[0], 0)), PAD, PAD]
    else [Letter(First(b[0])), Letter(Second(b[0], b[1])), Letter(Third(b[1], 0)), PAD]
  }

  /** A group spells the number its three bytes make. */
  lemma GroupSpells(x: Octet, y: Octet, z: Octet)
    ensures var r := Group(x, y, z);
            (forall i :: 0 <= i < 4 ==> r[i] < 128) && Spelled(r) == (x * 0x100 + y) * 0x100 + z
  {
    LetterRecovered(First(x));
    LetterRecovered(Second(x, y));
    LetterRecovered(Third(y, z));
    LetterRecovered(Fourth(z));
    hide Lookup;
    hide Letter;
  }

  /** A line holds 18 groups; `g` counts the groups written, the current one included. */
  function Break(g: nat): seq<Octet> {
    if g % 18 == 0 then [CR, LF] else []
  }

  /** What is written for `b` when `g` groups have been written already. */
  function EncodeFrom(b: seq<Octet>, g: nat): (r: seq<Octet>)
    decreases |b|
  {
    if b == [] then []
    else if |b| < 3 then LastGroup(b) + Break(g + 1)
    else Group(b[0], b[1], b[2]) + Break(g + 1) + EncodeFrom(b[3..], g + 1)
  }

  function Encode(b: seq<Octet>): seq<Octet> {
    EncodeFrom(b, 0)
  }

  /** Where the next group goes after `g` groups. */
  function Position(g: nat): nat {
    g / 18 * 74 + g % 18 * 4
  }

  lemma PositionNext(g: nat)
    ensures Position(g + 1) == Position(g) + 4 + |Break(g + 1)|
    ensures (Position(g) + 4) % 74 == 72 <==> (g + 1) % 18 == 0
  {
    var q, r := g / 18, g % 18;
    if r == 17 {
      DivModUnique(g + 1, 18, q + 1, 0);
    } else {
      DivModUnique(g + 1, 18, q, r + 1);
    }
    DivModUnique(Position(g) + 4, 74, q, r * 4 + 4);
  }

  /** Letters and padding are never line breaks. */
  lemma NoBreakInGroup(b: seq<Octet>)
    requires b != []
    ensures var r := if |b| < 3 then LastGroup(b) else Group(b[0], b[1], b[2]);
            forall k :: 0 <= k < 4 ==> r[k] != CR && r[k] != LF
  {
  }

  /** Lines are 72 characters long, and every one that is full ends in CR LF. */
  lemma {:induction false} BreaksExact(b: seq<Octet>, g: nat, k: nat)
    requires k < |EncodeFrom(b, g)|
    ensures var c := EncodeFrom(b, g)[k];
            var p := (Position(g) + k) % 74;
            (c == CR <==> p == 72) && (c == LF <==> p == 73)
    decreases |b|
  {
    hide Group;
    hide LastGroup;
    hide Letter;
    NoBreakInGroup(b);
    PositionNext(g);
    InLine(g, k);
    var size := 4 + |Break(g + 1)|;
    if k >= size {
      BreaksExact(b[3..], g + 1, k - size);
    }
  }

  lemma InLine(g: nat, k: nat)
    ensures k < 4 ==> (Position(g) + k) % 74 == g % 18 * 4 + k < 72
    ensures k < 6 && (g + 1) % 18 == 0 ==> (Position(g) + k) % 74 == 68 + k
  {
    var q, r := g / 18, g % 18;
    if k < 4 {
      DivModUnique(Position(g) + k, 74, q, r * 4 + k);
    }
    if k < 6 && (g + 1) % 18 == 0 {
      assert r == 17;
      DivModUnique(Position(g) + k, 74, q, 68 + k);
    }
  }

  const INT_LIMIT: int := 0x8000_0000

  /** `EstimateBas64EncodedDataSize`, as long as its `int` product does not overflow. */
  function EncodedSize(n: nat): nat {
    var chars := (n + 2) / 3 * 4;
    chars / 72 * 74 + chars % 72
  }

  predicate EncodeFits(n: nat) {
    (n + 2) / 3 * 4 < INT_LIMIT
  }

  predicate DecodeFits(n: nat) {
    (n + 3) / 4 * 3 < INT_LIMIT
  }

  /** The longest inputs whose sizes the two estimates can compute. */
  lemma LargestInputs(n: nat)
    ensures EncodeFits(n) <==> n <= 1_610_612_733
    ensures DecodeFits(n) <==> n <= 2_863_311_528
  {
  }

  lemma {:induction false} EncodeFromSize(b: seq<Octet>, g: nat)
    ensures Position(g) + |EncodeFrom(b, g)| == Position(g + (|b| + 2) / 3)
    decreases |b|
  {
    if b == [] {
    } else {
      PositionNext(g);
      if |b| >= 3 {
        EncodeFromSize(b[3..], g + 1);
        assert (|b[3..]| + 2) / 3 == (|b| + 2) / 3 - 1;
      } else {
        assert (|b| + 2) / 3 == 1;
      }
    }
  }

  lemma LinesOfGroups(g: nat)
    ensures g * 4 / 72 * 74 + g * 4 % 72 == Position(g)
  {
    var q, r := g / 18, g % 18;
    DivModUnique(g * 4, 72, q, 4 * r);
  }

  /** The size estimate is exact, line breaks included. */
  lemma SizeExact(b: seq<Octet>)
    ensures |Encode(b)| == EncodedSize(|b|) == Position((|b| + 2) / 3)
  {
    EncodeFromSize(b, 0);
    assert Position(0) == 0;
    hide Position;
    LinesOfGroups((|b| + 2) / 3);
  }

  /** Write `s` at `at`. */
  method Put(out: array<Octet>, at: nat, s: seq<Octet>) returns (next: nat)
    requires at + |s| <= out.Length
    modifies out
    ensures next == at + |s| && out[..next] == old(out[..at]) + s && out[next..] == old(out[next..])
  {
    forall k | 0 <= k < |s| {
      out[at + k] := s[k];
    }
    next := at + |s|;
  }

  /** A group and, where the line is full, a line break. */
  method PutGroup(out: array<Octet>, at: nat, group: seq<Octet>, ghost g: nat) returns (next: nat)
    requires |group| == 4 && at == Position(g) && Position(g + 1) <= out.Length
    modifies out
    ensures next == Position(g + 1) && out[..next] == old(out[..at]) + group + Break(g + 1)
  {
    hide Position;
    PositionNext(g);
    next := Put(out, at, group);
    if next % 74 == 72 {
      next := Put(out, next, [CR, LF]);
    }
  }

  /** Too little room, done, an access outside the input or the table, or a size that overflows an `int`. */
  datatype Status = Refused | Finished(size: nat) | Undefined | Overflow

  /** How far the encoder has got: `g` groups written at the front of the output, the rest still to come. */
  ghost predicate Encoding(input: seq<Octet>, i: nat, g: nat, done: seq<Octet>) {
    i <= |input| && i == 3 * g && |done| == Position(g) && done + EncodeFrom(input[i..], g) == Encode(input)
  }

  lemma EncodingStarts(input: seq<Octet>)
    ensures Encoding(input, 0, 0, [])
  {
    PositionZero();
    assert input[0..] == input;
    assert [] + Encode(input) == Encode(input);
  }

  lemma EncodingTurn(input: seq<Octet>, i: nat, g: nat, done: seq<Octet>)
    requires Encoding(input, i, g, done) && i + 3 <= |input|
    ensures Position(g + 1) <= |Encode(input)|
    ensures Encoding(input, i + 3, g + 1, done + Group(input[i], input[i + 1], input[i + 2]) + Break(g + 1))
  {
    hide EncodeFrom;
    hide Position;
    hide Group;
    hide Break;
    EncodeStep(input, i, g);
    SizeExact(input);
    PositionGrows(g + 1, (|input| + 2) / 3);
    PositionNext(g);
    var group, rest := Group(input[i], input[i + 1], input[i + 2]), EncodeFrom(input[i + 3..], g + 1);
    assert done + (group + Break(g + 1) + rest) == (done + group + Break(g + 1)) + rest;
  }

  lemma EncodingEnds(input: seq<Octet>, i: nat, g: nat, done: seq<Octet>)
    requires Encoding(input, i, g, done) && |input| < i + 3
    ensures if i == |input| then done == Encode(input)
            else done + LastGroup(input[i..]) + Break(g + 1) == Encode(input) && Position(g + 1) == |Encode(input)|
  {
    hide LastGroup;
    EncodeEnd(input[i..], g);
    PositionNext(g);
    if i == |input| {
      assert done + [] == done;
    } else {
      assert done + (LastGroup(input[i..]) + Break(g + 1)) == done + LastGroup(input[i..]) + Break(g + 1);
    }
  }

  method EncodeData(input: seq<Octet>, out: array<Octet>) returns (status: Status)
    modifies out
    ensures status.Overflow? <==> |input| > 1_610_612_733
    ensures status.Refused? <==> !status.Overflow? && out.Length < EncodedSize(|input|)
    ensures status.Finished? ==> status.size == EncodedSize(|input|) && out[..status.size] == Encode(input)
    ensures !status.Finished? ==> out[..] == old(out[..]) && !status.Undefined?
  {
    hide EncodedSize;
    hide EncodeFits;
    hide Encoding;
    hide Position;
    hide Group;
    hide LastGroup;
    hide Break;
    LargestInputs(|input|);
    if !EncodeFits(|input|) {
      return Overflow;
    }
    var size := EncodedSize(|input|);
    if out.Length < size {
      return Refused;
    }
    SizeExact(input);
    EncodingStarts(input);
    PositionZero();
    var i, o, g := 0, 0, 0;
    assert out[..0] == [];
    while i < |input| / 3 * 3
      invariant 0 <= i <= |input| && i == 3 * g && o == Position(g) <= out.Length && Encoding(input, i, g, out[..o])
    {
      EncodingTurn(input, i, g, out[..o]);
      o := PutGroup(out, o, Group(input[i], input[i + 1], input[i + 2]), g);
      i, g := i + 3, g + 1;
    }
    EncodingEnds(input, i, g, out[..o]);
    if i < |input| {
      o := PutGroup(out, o, LastGroup(input[i..]), g);
    }
    status := Finished(size);
  }

  lemma PositionZero()
    ensures Position(0) == 0
  {
  }

  lemma EncodeEnd(b: seq<Octet>, g: nat)
    requires |b| < 3
    ensures EncodeFrom(b, g) == if b == [] then [] else LastGroup(b) + Break(g + 1)
  {
  }

  lemma EncodeStep(input: seq<Octet>, i: nat, g: nat)
    requires i + 3 <= |input|
    ensures EncodeFrom(input[i..], g) == Group(input[i], input[i + 1], input[i + 2]) + Break(g + 1) + EncodeFrom(input[i + 3..], g + 1)
  {
    assert input[i..][3..] == input[i + 3..];
  }

  lemma {:induction false} PositionGrows(g: nat, h: nat)
    requires g <= h
    ensures Position(g) <= Position(h)
    decreases h - g
  {
    if g < h {
      PositionNext(g);
      PositionGrows(g + 1, h);
    }
  }

  // ---- decoding ---------------------------------------------------------------------

  /** Finished with these bytes, or looked at memory outside the input or the table. */
  datatype Outcome = Done(out: seq<Octet>) | OutOfRange

  predicate Readable(input: seq<Octet>, i: nat) {
    i < |input| && input[i] < 128
  }

  /** The first position from `i` on whose table entry is not `v`. */
  function Skip(input: seq<Octet>, i: nat, v: int): (r: nat)
    requires i <= |input|
    ensures i <= r <= |input|
    decreases |input| - i
  {
    if Readable(input, i) && Lookup(input[i]) == v then Skip(input, i + 1, v) else i
  }

  /** Where the decoder finds its next character: past white space, then past anything unknown. */
  function NextChar(input: seq<Octet>, i: nat): (r: nat)
    requires i <= |input|
    ensures i <= r <= |input|
  {
    var j := Skip(input, i, -2);
    if Readable(input, j) then Skip(input, j, -3) else j
  }

  /** Which low bits of the byte under construction are still to come. */
  predicate PhaseOk(phase: nat, octet: Octet) {
    phase < 6 && (phase == 1 ==> octet % 4 == 0) && (phase == 3 ==> octet % 16 == 0) && (phase == 5 ==> octet % 64 == 0)
  }

  /** The byte under construction after phase `phase` sees value `v`. */
  function Mix(phase: nat, octet: Octet, v: Sextet): (r: Octet)
    requires PhaseOk(phase, octet)
  {
    if phase == 0 then v * 4
    else if phase == 1 then octet + v / 16
    else if phase == 2 then v % 16 * 16
    else if phase == 3 then octet + v / 4
    else if phase == 4 then v % 4 * 64
    else octet + v
  }

  /** Phases 1, 3 and 5 complete a byte; after 1 and 3 the same character is used once more. */
  function DecodeFrom(input: seq<Octet>, i: nat, phase: nat, octet: Octet, out: seq<Octet>): (r: Outcome)
    requires i <= |input| && PhaseOk(phase, octet)
    decreases |input| - i, if phase == 1 || phase == 3 then 1 else 0
  {
    if i == |input| then Done(out)
    else if input[i] >= 128 then OutOfRange
    else if Lookup(input[i]) == -1 then Done(out)
    else
      var k := NextChar(input, i);
      if !Readable(input, k) then OutOfRange
      else
        var octet' := Mix(phase, octet, ValueAt(input, k));
        var out' := if phase % 2 == 1 then out + [octet'] else out;
        var phase' := (phase + 1) % 6;
        DecodeFrom(input, if phase' == 2 || phase' == 4 then k else k + 1, phase', octet', out')
  }

  /** A character that stands for no value counts as zero. */
  function ValueAt(input: seq<Octet>, k: nat): Sextet
    requires Readable(input, k)
  {
    var s := Lookup(input[k]);
    if s >= 0 then s else 0
  }

  /** One turn of the decoder's loop at a position where a character was found. */
  lemma DecodeTurn(input: seq<Octet>, i: nat, phase: nat, octet: Octet, out: seq<Octet>)
    requires i < |input| && input[i] < 128 && Lookup(input[i]) != -1 && PhaseOk(phase, octet)
    requires Readable(input, NextChar(input, i))
    ensures var k := NextChar(input, i);
            var octet' := Mix(phase, octet, ValueAt(input, k));
            var phase' := (phase + 1) % 6;
            PhaseOk(phase', octet') &&
            DecodeFrom(input, i, phase, octet, out) ==
            DecodeFrom(input, if phase' == 2 || phase' == 4 then k else k + 1, phase', octet', if phase % 2 == 1 then out + [octet'] else out)
  {
    MixOk(phase, octet, ValueAt(input, NextChar(input, i)));
  }

  lemma PacedOn(i: nat, k: nat, phase: nat, o: nat)
    requires Paced(i, phase, o) && i <= k && phase < 6
    ensures var phase' := (phase + 1) % 6;
            Paced(if phase' == 2 || phase' == 4 then k else k + 1, phase', if phase % 2 == 1 then o + 1 else o)
  {
  }

  function Decode(input: seq<Octet>): Outcome {
    DecodeFrom(input, 0, 0, 0, [])
  }

  /** `EstimateBas64DecodedDataSize`, as long as its `int` product does not overflow. */
  function DecodedSize(n: nat): nat {
    (n + 3) / 4 * 3
  }

  /** Bytes written never outrun characters read. */
  predicate Paced(i: nat, phase: nat, o: nat) {
    o % 3 == phase / 2 && i >= o / 3 * 4 + (phase + 1) / 2
  }

  lemma RoomForByte(i: nat, phase: nat, o: nat, n: nat)
    requires Paced(i, phase, o) && i < n && (phase == 1 || phase == 3 || phase == 5)
    ensures o < DecodedSize(n)
  {
    var m := o / 3;
    assert n >= 4 * m + 2;
    assert (n + 3) / 4 >= m + 1;
  }

  method DecodeData(input: seq<Octet>, out: array<Octet>) returns (status: Status)
    modifies out
    ensures status.Overflow? <==> |input| > 2_863_311_528
    ensures status.Refused? <==> !status.Overflow? && out.Length < DecodedSize(|input|)
    ensures status.Finished? ==> status.size <= out.Length && Decode(input) == Done(out[..status.size])
    ensures status.Undefined? ==> Decode(input) == OutOfRange
  {
    hide DecodedSize;
    hide DecodeFits;
    hide Lookup;
    hide Mix;
    hide PhaseOk;
    hide Paced;
    hide NextChar;
    forall k | 0 <= k < out.Length {
      out[k] := 46;
    }
    LargestInputs(|input|);
    if !DecodeFits(|input|) {
      return Overflow;
    }
    if out.Length < DecodedSize(|input|) {
      return Refused;
    }
    var i: nat, o: nat, phase: nat, octet: Octet := 0, 0, 0, 0;
    assert out[..0] == [];
    DecodeStarts();
    while i < |input|
      invariant i <= |input| && o <= out.Length && phase < 6 && PhaseOk(phase, octet) && Paced(i, phase, o)
      invariant Decode(input) == DecodeFrom(input, i, phase, octet, out[..o])
      decreases |input| - i, if phase == 1 || phase == 3 then 1 else 0
    {
      if input[i] >= 128 {
        return Undefined;
      }
      if Lookup(input[i]) == -1 {
        break;
      }
      var k := FindChar(input, i);
      if !Readable(input, k) {
        return Undefined;
      }
      DecodeTurn(input, i, phase, octet, out[..o]);
      PacedOn(i, k, phase, o);
      hide DecodeFrom;
      octet := Mix(phase, octet, ValueAt(input, k));
      if phase % 2 == 1 {
        RoomForByte(i, phase, o, |input|);
        ghost var done := out[..o];
        out[o] := octet;
        o := o + 1;
        assert out[..o] == done + [octet];
      }
      phase := (phase + 1) % 6;
      i := if phase == 2 || phase == 4 then k else k + 1;
    }
    status := Finished(o);
  }

  lemma DecodeStarts()
    ensures PhaseOk(0, 0) && Paced(0, 0, 0)
  {
  }

  lemma MixOk(phase: nat, octet: Octet, v: Sextet)
    requires PhaseOk(phase, octet)
    ensures PhaseOk((phase + 1) % 6, Mix(phase, octet, v))
  {
  }

  /** The two skipping loops. */
  method FindChar(input: seq<Octet>, i: nat) returns (k: nat)
    requires i < |input|
    ensures k == NextChar(input, i)
  {
    k := i;
    while Readable(input, k) && Lookup(input[k]) == -2
      invariant i <= k <= |input| && Skip(input, i, -2) == Skip(input, k, -2)
      decreases |input| - k
    {
      k := k + 1;
    }
    if !Readable(input, k) {
      return;
    }
    ghost var j := k;
    while Readable(input, k) && Lookup(input[k]) == -3
      invariant j <= k <= |input| && Skip(input, j, -3) == Skip(input, k, -3)
      decreases |input| - k
    {
      k := k + 1;
    }
  }

  // ---- the round trip -------------------------------------------------------------------

  lemma LetterTurn(input: seq<Octet>, i: nat, phase: nat, octet: Octet, out: seq<Octet>, s: Sextet)
    requires i < |input| && input[i] == Letter(s) && PhaseOk(phase, octet)
    ensures var octet' := Mix(phase, octet, s);
            var phase' := (phase + 1) % 6;
            PhaseOk(phase', octet') &&
            DecodeFrom(input, i, phase, octet, out) ==
            DecodeFrom(input, if phase' == 2 || phase' == 4 then i else i + 1, phase', octet', if phase % 2 == 1 then out + [octet'] else out)
  {
    hide DecodeFrom;
    LetterRecovered(s);
    assert Skip(input, i, -2) == i && Skip(input, i, -3) == i;
    DecodeTurn(input, i, phase, octet, out);
  }

  lemma FirstByte(input: seq<Octet>, i: nat, octet: Octet, out: seq<Octet>, x: Octet, y: Octet)
    requires i + 2 <= |input| && input[i] == Letter(First(x)) && input[i + 1] == Letter(Second(x, y))
    ensures DecodeFrom(input, i, 0, octet, out) == DecodeFrom(input, i + 2, 3, y / 16 * 16, out + [x])
  {
    hide DecodeFrom;
    hide Letter;
    LetterTurn(input, i, 0, octet, out, First(x));
    LetterTurn(input, i + 1, 1, x / 4 * 4, out, Second(x, y));
    assert x / 4 * 4 + Second(x, y) / 16 == x;
    LetterTurn(input, i + 1, 2, x, out + [x], Second(x, y));
    assert Second(x, y) % 16 == y / 16;
  }

  lemma SecondByte(input: seq<Octet>, i: nat, out: seq<Octet>, y: Octet, z: Octet)
    requires i < |input| && input[i] == Letter(Third(y, z))
    ensures DecodeFrom(input, i, 3, y / 16 * 16, out) == DecodeFrom(input, i + 1, 5, z / 64 * 64, out + [y])
  {
    hide DecodeFrom;
    hide Letter;
    LetterTurn(input, i, 3, y / 16 * 16, out, Third(y, z));
    assert y / 16 * 16 + Third(y, z) / 4 == y;
    LetterTurn(input, i, 4, y, out + [y], Third(y, z));
    assert Third(y, z) % 4 == z / 64;
  }

  lemma GroupDecodes(input: seq<Octet>, i: nat, octet: Octet, out: seq<Octet>, x: Octet, y: Octet, z: Octet)
    requires i + 4 <= |input| && input[i..i + 4] == Group(x, y, z)
    ensures DecodeFrom(input, i, 0, octet, out) == DecodeFrom(input, i + 4, 0, z, out + [x, y, z])
  {
    hide DecodeFrom;
    hide Letter;
    var g := input[i..i + 4];
    assert g[0] == input[i] && g[1] == input[i + 1] && g[2] == input[i + 2] && g[3] == input[i + 3];
    FirstByte(input, i, octet, out, x, y);
    SecondByte(input, i + 2, out + [x], y, z);
    LetterTurn(input, i + 3, 5, z / 64 * 64, out + [x] + [y], Fourth(z));
    assert z / 64 * 64 + z % 64 == z;
    assert out + [x] + [y] + [z] == out + [x, y, z];
  }

  lemma PadStops(input: seq<Octet>, i: nat, phase: nat, octet: Octet, out: seq<Octet>)
    requires i < |input| && input[i] == PAD && PhaseOk(phase, octet)
    ensures DecodeFrom(input, i, phase, octet, out) == Done(out)
  {
  }

  lemma LastGroupDecodes(input: seq<Octet>, i: nat, octet: Octet, out: seq<Octet>, b: seq<Octet>)
    requires 1 <= |b| <= 2 && i + 4 <= |input| && input[i..i + 4] == LastGroup(b)
    ensures DecodeFrom(input, i, 0, octet, out) == Done(out + b)
  {
    hide DecodeFrom;
    hide Letter;
    var g := input[i..i + 4];
    assert g[0] == input[i] && g[1] == input[i + 1] && g[2] == input[i + 2] && g[3] == input[i + 3];
    if |b| == 1 {
      FirstByte(input, i, octet, out, b[0], 0);
      PadStops(input, i + 2, 3, 0, out + [b[0]]);
      assert [b[0]] == b;
    } else {
      FirstByte(input, i, octet, out, b[0], b[1]);
      SecondByte(input, i + 2, out + [b[0]], b[1], 0);
      PadStops(input, i + 3, 5, 0, out + [b[0]] + [b[1]]);
      assert out + [b[0]] + [b[1]] == out + b;
    }
  }

  /** A line break is passed over only to reach another character; at the very end the decoder runs off the input. */
  lemma BreakDecodes(input: seq<Octet>, i: nat, octet: Octet, out: seq<Octet>)
    requires i + 2 <= |input| && input[i] == CR && input[i + 1] == LF
    ensures i + 2 == |input| ==> DecodeFrom(input, i, 0, octet, out) == OutOfRange
    ensures forall s: Sextet :: i + 2 < |input| && input[i + 2] == Letter(s) ==>
              DecodeFrom(input, i, 0, octet, out) == DecodeFrom(input, i + 2, 0, octet, out)
  {
    assert Skip(input, i, -2) == Skip(input, i + 1, -2) == Skip(input, i + 2, -2);
    forall s: Sextet | i + 2 < |input| && input[i + 2] == Letter(s)
      ensures DecodeFrom(input, i, 0, octet, out) == DecodeFrom(input, i + 2, 0, octet, out)
    {
      LetterRecovered(s);
    }
  }

  /** The encoding of `b` ends in a line break that no padding precedes. */
  predicate EndsInBreak(b: seq<Octet>, g: nat) {
    b != [] && |b| % 3 == 0 && (g + |b| / 3) % 18 == 0
  }

  /** How the encoding of three or more bytes lies in the input. */
  lemma GroupLies(input: seq<Octet>, i: nat, b: seq<Octet>, g: nat)
    requires i <= |input| && input[i..] == EncodeFrom(b, g) && |b| >= 3
    ensures var n := |Break(g + 1)|;
            && i + 4 + n <= |input| && input[i..i + 4] == Group(b[0], b[1], b[2])
            && input[i + 4 + n..] == EncodeFrom(b[3..], g + 1)
            && (n == 2 ==> input[i + 4] == CR && input[i + 5] == LF)
            && (n == 2 || n == 0) && (n == 2 <==> (g + 1) % 18 == 0)
  {
    hide Group;
    var s := input[i..];
    var n := |Break(g + 1)|;
    assert s == Group(b[0], b[1], b[2]) + Break(g + 1) + EncodeFrom(b[3..], g + 1);
    assert input[i..i + 4] == s[..4];
    assert input[i + 4 + n..] == s[4 + n..];
    if n == 2 {
      assert input[i + 4] == s[4] && input[i + 5] == s[5];
    }
  }

  lemma NothingLeft(input: seq<Octet>, octet: Octet, out: seq<Octet>)
    ensures DecodeFrom(input, |input|, 0, octet, out) == Done(out)
  {
  }

  lemma {:induction false} DecodeRest(input: seq<Octet>, i: nat, octet: Octet, out: seq<Octet>, b: seq<Octet>, g: nat)
    requires i <= |input| && input[i..] == EncodeFrom(b, g)
    ensures DecodeFrom(input, i, 0, octet, out) == if EndsInBreak(b, g) then OutOfRange else Done(out + b)
    decreases |b|, 1
  {
    hide DecodeFrom;
    hide LastGroup;
    if b == [] {
      assert i == |input| && out + b == out;
      NothingLeft(input, octet, out);
    } else if |b| < 3 {
      assert input[i..i + 4] == input[i..][..4] == LastGroup(b);
      LastGroupDecodes(input, i, octet, out, b);
    } else {
      DecodeGroupThenRest(input, i, octet, out, b, g);
    }
  }

  lemma DecodeGroupThenRest(input: seq<Octet>, i: nat, octet: Octet, out: seq<Octet>, b: seq<Octet>, g: nat)
    requires i <= |input| && input[i..] == EncodeFrom(b, g) && |b| >= 3
    ensures DecodeFrom(input, i, 0, octet, out) == if EndsInBreak(b, g) then OutOfRange else Done(out + b)
    decreases |b|, 0
  {
    hide EncodeFrom;
    hide DecodeFrom;
    hide Group;
    hide Letter;
    hide EndsInBreak;
    hide Break;
    var n := |Break(g + 1)|;
    var out' := out + [b[0], b[1], b[2]];
    GroupLies(input, i, b, g);
    GroupDecodes(input, i, octet, out, b[0], b[1], b[2]);
    assert out' + b[3..] == out + b;
    EndShifts(b, g);
    if n == 2 {
      BreakDecodes(input, i + 4, b[2], out');
    }
    if b[3..] != [] {
      StartsWithLetter(b[3..], g + 1);
      assert input[i + 4 + n..][0] == input[i + 4 + n];
      DecodeRest(input, i + 4 + n, b[2], out', b[3..], g + 1);
    } else {
      EncodeEnd(b[3..], g + 1);
      if n == 0 {
        DecodeRest(input, i + 4, b[2], out', b[3..], g + 1);
      }
      NoEnd(g + 1);
    }
  }

  lemma NoEnd(g: nat)
    ensures !EndsInBreak([], g)
  {
  }

  lemma StartsWithLetter(b: seq<Octet>, g: nat)
    requires b != []
    ensures EncodeFrom(b, g) != [] && EncodeFrom(b, g)[0] == Letter(First(b[0]))
  {
  }

  lemma EndShifts(b: seq<Octet>, g: nat)
    requires |b| >= 3
    ensures b[3..] != [] ==> (EndsInBreak(b, g) <==> EndsInBreak(b[3..], g + 1))
    ensures b[3..] == [] ==> (EndsInBreak(b, g) <==> (g + 1) % 18 == 0)
  {
    assert |b| / 3 == (|b| - 3) / 3 + 1;
  }

  /**
   Decoding what was encoded gives the input back exactly when its length is not a positive multiple of 54.
   In that case the last line is full, ends in a line break, and the decoder reads past the end of its input.
   */
  lemma RoundTripExact(b: seq<Octet>)
    ensures Decode(Encode(b)) == Done(b) <==> !(|b| > 0 && |b| % 54 == 0)
    ensures |b| > 0 && |b| % 54 == 0 ==> Decode(Encode(b)) == OutOfRange
  {
    DecodeRest(Encode(b), 0, 0, [], b, 0);
    assert Encode(b)[0..] == EncodeFrom(b, 0);
    FullLines(|b|);
  }

  /** The shortest input that does not come back: one full line. */
  lemma FullLineLost()
    ensures Decode(Encode(seq(54, _ => 0))) == OutOfRange
  {
    RoundTripExact(seq(54, _ => 0));
  }

  lemma FullLines(n: nat)
    ensures n % 3 == 0 && n / 3 % 18 == 0 <==> n % 54 == 0
  {
    var q, r := n / 54, n % 54;
    DivModUnique(n, 3, 18 * q + r / 3, r % 3);
    DivModUnique(n / 3, 18, q, r / 3);
  }
}
