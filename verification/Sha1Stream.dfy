/** `SHA1Transform`: rolling schedule, renamed registers, the block overwritten in place. */
module Sha1Stream {
  import opened Sha1Spec

  // ---- one block ----------------------------------------------------------------

  /** A word as a little-endian machine reads it from memory. */
  function LittleJoin(b0: Octet, b1: Octet, b2: Octet, b3: Octet): Word {
    b0 as Word | (b1 as Word << 8) | (b2 as Word << 16) | (b3 as Word << 24)
  }

  /** `blk0` on a little-endian machine: reverse the bytes of a word. */
  function SwapBytes(x: Word): Word {
    (((x << 24) | (x >> 8)) & 0xFF00FF00) | (((x << 8) | (x >> 24)) & 0x00FF00FF)
  }

  lemma SwapIsBigEndian(b0: Octet, b1: Octet, b2: Octet, b3: Octet)
    ensures SwapBytes(LittleJoin(b0, b1, b2, b3)) == Join(b0, b1, b2, b3)
  {
  }

  /** The logical functions as the macros write them. */
  function FastF(t: nat, w: Word, x: Word, y: Word): Word {
    if t < 20 then (w & (x ^ y)) ^ y
    else if t < 40 then w ^ x ^ y
    else if t < 60 then ((w | x) & y) | (w & x)
    else w ^ x ^ y
  }

  lemma ChooseEqual(w: Word, x: Word, y: Word)
    ensures (w & (x ^ y)) ^ y == (w & x) | (!w & y)
  {
  }

  lemma MajorityEqual(w: Word, x: Word, y: Word)
    ensures ((w | x) & y) | (w & x) == (w & x) | (w & y) | (x & y)
  {
  }

  lemma FastFIsF(t: nat, w: Word, x: Word, y: Word)
    ensures FastF(t, w, x, y) == F(t, w, x, y)
  {
    ChooseEqual(w, x, y);
    MajorityEqual(w, x, y);
  }

  /** Which of the five variables plays role `k` (0 for `a` to 4 for `e`) in round `t`. */
  function Role(k: nat, t: nat): (i: nat)
    requires k < 5
    ensures i < 5
  {
    var s := t % 5;
    if k >= s then k - s else k - s + 5
  }

  lemma RoleShifts(t: nat)
    ensures Role(0, t + 1) == Role(4, t) && Role(1, t + 1) == Role(0, t) && Role(2, t + 1) == Role(1, t)
    ensures Role(3, t + 1) == Role(2, t) && Role(4, t + 1) == Role(3, t)
  {
  }

  lemma RolesStart()
    ensures Role(0, 80) == 0 && Role(1, 80) == 1 && Role(2, 80) == 2 && Role(3, 80) == 3 && Role(4, 80) == 4
  {
  }

  lemma RolesDiffer(t: nat)
    ensures forall j, k :: 0 <= j < k < 5 ==> Role(j, t) != Role(k, t)
  {
  }

  function Renamed(r: seq<Word>, t: nat): Regs
    requires |r| == 5
  {
    Regs(r[Role(0, t)], r[Role(1, t)], r[Role(2, t)], r[Role(3, t)], r[Role(4, t)])
  }

  function Increased(z: Word, f: Word, w: Word, k: Word, v: Word): Word {
    z + (f + w + k + v)
  }

  /** One macro application: only two variables change, the others just change roles. */
  function FastRound(r: seq<Word>, w: Word, t: nat): (r': seq<Word>)
    requires |r| == 5
    ensures |r'| == 5
  {
    var z := Increased(r[Role(4, t)], FastF(t, r[Role(1, t)], r[Role(2, t)], r[Role(3, t)]), w, K(t), Rotl5(r[Role(0, t)]));
    r[Role(4, t) := z][Role(1, t) := Rotl30(r[Role(1, t)])]
  }

  lemma SumReordered(a: Word, f: Word, e: Word, w: Word, k: Word)
    ensures Increased(e, f, w, k, a) == Temp(a, f, e, w, k)
  {
  }

  /** Writing the two changed variables and moving every role on by one. */
  lemma RolesMoveOn(r: seq<Word>, t: nat, z: Word, q: Word)
    requires |r| == 5
    ensures Renamed(r[Role(4, t) := z][Role(1, t) := q], t + 1) ==
            Regs(z, r[Role(0, t)], q, r[Role(2, t)], r[Role(3, t)])
  {
    hide Role;
    RoleShifts(t);
    RolesDiffer(t);
  }

  lemma FastRoundIsRound(r: seq<Word>, w: Word, t: nat)
    requires |r| == 5
    ensures Renamed(FastRound(r, w, t), t + 1) == Round(Renamed(r, t), w, t)
  {
    hide Role;
    hide FastF;
    hide F;
    hide K;
    hide Rotl5;
    hide Rotl30;
    hide Increased;
    hide Temp;
    var g := Renamed(r, t);
    var f := F(t, g.b, g.c, g.d);
    FastFIsF(t, g.b, g.c, g.d);
    SumReordered(Rotl5(g.a), f, g.e, w, K(t));
    RolesMoveOn(r, t, Increased(g.e, f, w, K(t), Rotl5(g.a)), Rotl30(g.b));
  }

  /** The sixteen words kept are the last sixteen of the schedule, or still to be read. */
  ghost predicate Rolling(l: seq<Word>, raw: seq<Word>, m: seq<Word>, i: nat) {
    && |l| == |raw| == |m| == 16
    && (forall t :: 0 <= t < i && i <= t + 16 ==> l[t % 16] == W(m, t))
    && (forall t :: i <= t < 16 ==> l[t] == raw[t])
  }

  function FastWord(l: seq<Word>, i: nat): Word
    requires |l| == 16
  {
    if i < 16 then SwapBytes(l[i])
    else Mixed(l[(i + 13) % 16], l[(i + 8) % 16], l[(i + 2) % 16], l[i % 16])
  }

  lemma FastWordIsW(l: seq<Word>, raw: seq<Word>, m: seq<Word>, i: nat)
    requires Rolling(l, raw, m, i) && forall t :: 0 <= t < 16 ==> SwapBytes(raw[t]) == m[t]
    ensures FastWord(l, i) == W(m, i)
    ensures Rolling(l[i % 16 := FastWord(l, i)], raw, m, i + 1)
  {
    hide W;
    hide Mixed;
    WordFromEarlier(m, i);
    if i >= 16 {
      FourKept(l, raw, m, i);
      assert i % 16 == (i - 16) % 16;
    }
    RollingOneMore(l, raw, m, i, FastWord(l, i));
  }

  lemma FourKept(l: seq<Word>, raw: seq<Word>, m: seq<Word>, i: nat)
    requires Rolling(l, raw, m, i) && i >= 16
    ensures l[(i + 13) % 16] == W(m, i - 3) && l[(i + 8) % 16] == W(m, i - 8)
    ensures l[(i + 2) % 16] == W(m, i - 14) && l[i % 16] == W(m, i - 16)
  {
    hide W;
    assert (i - 3) % 16 == (i + 13) % 16 && (i - 8) % 16 == (i + 8) % 16;
    assert (i - 14) % 16 == (i + 2) % 16 && (i - 16) % 16 == i % 16;
    assert l[(i - 3) % 16] == W(m, i - 3) && l[(i - 8) % 16] == W(m, i - 8);
    assert l[(i - 14) % 16] == W(m, i - 14) && l[(i - 16) % 16] == W(m, i - 16);
  }

  lemma WordFromEarlier(m: seq<Word>, i: nat)
    requires |m| == 16
    ensures W(m, i) == if i < 16 then m[i] else Mixed(W(m, i - 3), W(m, i - 8), W(m, i - 14), W(m, i - 16))
  {
    hide Mixed;
  }

  lemma RollingOneMore(l: seq<Word>, raw: seq<Word>, m: seq<Word>, i: nat, w: Word)
    requires Rolling(l, raw, m, i) && w == W(m, i)
    ensures Rolling(l[i % 16 := w], raw, m, i + 1)
  {
    hide W;
    var l' := l[i % 16 := w];
    forall t | 0 <= t < i + 1 && i + 1 <= t + 16 ensures l'[t % 16] == W(m, t) {
      if t < i {
        OtherSlot(t, i);
      }
    }
  }

  lemma OtherSlot(t: nat, i: nat)
    requires t < i < t + 16
    ensures t % 16 != i % 16
  {
  }

  function LittleWords(block: seq<Octet>): (m: seq<Word>)
    requires |block| == 64
    ensures |m| == 16
  {
    seq(16, i requires 0 <= i < 16 => LittleJoin(block[4 * i], block[4 * i + 1], block[4 * i + 2], block[4 * i + 3]))
  }

  lemma SwappedWords(block: seq<Octet>)
    requires |block| == 64
    ensures forall t :: 0 <= t < 16 ==> SwapBytes(LittleWords(block)[t]) == Words(block)[t]
  {
    forall t | 0 <= t < 16 ensures SwapBytes(LittleWords(block)[t]) == Words(block)[t] {
      SwapIsBigEndian(block[4 * t], block[4 * t + 1], block[4 * t + 2], block[4 * t + 3]);
    }
  }

  /** The eighty rounds over one block; returns the new chaining value and what is left in the block. */
  method RunRounds(h: Regs, block: seq<Octet>) returns (h': Regs, l: seq<Word>)
    requires |block| == 64
    ensures h' == Compress(h, block) && |l| == 16 && forall t :: 0 <= t < 16 ==> l[t] == W(Words(block), 64 + t)
  {
    hide W;
    hide FastWord;
    hide FastRound;
    hide Rolling;
    hide Renamed;
    hide Words;
    hide LittleWords;
    ghost var m := Words(block);
    l := LittleWords(block);
    ghost var raw := l;
    SwappedWords(block);
    var r := [h.a, h.b, h.c, h.d, h.e];
    RenamedStart(h);
    RollingStart(l, m);
    var i: nat := 0;
    while i < 80
      invariant i <= 80 && |r| == 5 && |l| == 16
      invariant Renamed(r, i) == Rounds(h, m, i)
      invariant Rolling(l, raw, m, i)
    {
      FastWordIsW(l, raw, m, i);
      var w := FastWord(l, i);
      l := l[i % 16 := w];
      FastRoundIsRound(r, w, i);
      r := FastRound(r, w, i);
      i := i + 1;
    }
    RenamedEnd(r);
    LastWords(l, raw, m);
    h' := AddRegs(h, Regs(r[0], r[1], r[2], r[3], r[4]));
  }

  lemma RenamedStart(h: Regs)
    ensures Renamed([h.a, h.b, h.c, h.d, h.e], 0) == h
  {
  }

  lemma RenamedEnd(r: seq<Word>)
    requires |r| == 5
    ensures Renamed(r, 80) == Regs(r[0], r[1], r[2], r[3], r[4])
  {
    RolesStart();
  }

  lemma LastWords(l: seq<Word>, raw: seq<Word>, m: seq<Word>)
    requires Rolling(l, raw, m, 80)
    ensures forall t :: 0 <= t < 16 ==> l[t] == W(m, 64 + t)
  {
    hide W;
    forall t | 0 <= t < 16 ensures l[t] == W(m, 64 + t) {
      assert (64 + t) % 16 == t;
    }
  }

  lemma RollingStart(raw: seq<Word>, m: seq<Word>)
    requires |raw| == |m| == 16
    ensures Rolling(raw, raw, m, 0)
  {
  }

  /** Byte `k` of a word as it lies in memory. */
  function LittleOctet(w: Word, k: nat): Octet
    requires k < 4
  {
    match k
    case 0 => (w & 0xFF) as Octet
    case 1 => ((w >> 8) & 0xFF) as Octet
    case 2 => ((w >> 16) & 0xFF) as Octet
    case _ => ((w >> 24) & 0xFF) as Octet
  }

  lemma JoinOctets(w: Word)
    ensures LittleJoin(LittleOctet(w, 0), LittleOctet(w, 1), LittleOctet(w, 2), LittleOctet(w, 3)) == w
  {
  }

  /** The word at place `t` of a block. */
  function WordAt(s: seq<Octet>, t: nat): Word
    requires 4 * t + 4 <= |s|
  {
    LittleJoin(s[4 * t], s[4 * t + 1], s[4 * t + 2], s[4 * t + 3])
  }

  /** The block has become words 64 to 79 of its own schedule. */
  ghost predicate HoldsLastWords(now: seq<Octet>, block: seq<Octet>)
    requires |now| == |block| == 64
  {
    forall t :: 0 <= t < 16 ==> WordAt(now, t) == W(Words(block), 64 + t)
  }

  function Spread(l: seq<Word>): (r: seq<Octet>)
    ensures |r| == 4 * |l|
  {
    seq(4 * |l|, i requires 0 <= i < 4 * |l| => LittleOctet(l[i / 4], i % 4))
  }

  lemma SpreadWords(l: seq<Word>, t: nat)
    requires t < |l|
    ensures WordAt(Spread(l), t) == l[t]
  {
    hide LittleJoin;
    hide LittleOctet;
    JoinOctets(l[t]);
    forall k | 0 <= k < 4 ensures Spread(l)[4 * t + k] == LittleOctet(l[t], k) {
      assert (4 * t + k) / 4 == t && (4 * t + k) % 4 == k;
    }
    assert Spread(l)[4 * t + 0] == LittleOctet(l[t], 0);
  }

  /** Hash one block held in `buf` from `off` on; the last sixteen words of the schedule are left in its place. */
  method Transform(h: Regs, buf: array<Octet>, off: nat) returns (h': Regs)
    requires off + 64 <= buf.Length
    modifies buf
    ensures h' == Compress(h, old(buf[off..off + 64]))
    ensures HoldsLastWords(buf[off..off + 64], old(buf[off..off + 64]))
    ensures forall k :: 0 <= k < buf.Length && !(off <= k < off + 64) ==> buf[k] == old(buf[k])
  {
    hide LittleOctet;
    hide WordAt;
    hide W;
    hide Words;
    hide Compress;
    var l;
    h', l := RunRounds(h, buf[off..off + 64]);
    var spread := Spread(l);
    forall k | 0 <= k < 64 {
      buf[off + k] := spread[k];
    }
    assert buf[off..off + 64] == spread;
    forall t | 0 <= t < 16 ensures WordAt(spread, t) == l[t] {
      SpreadWords(l, t);
    }
  }
}
