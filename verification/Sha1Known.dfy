/** A known answer: the digest of "abc", the first example of FIPS 180-1 (appendix A), block by block and round by round. */
module Sha1Known {
  import opened Seqs
  import opened Sha1Spec

  const ABC: seq<Octet> := [0x61, 0x62, 0x63]

  /** The one block "abc" is padded to, as sixteen words. */
  function AbcWords(): (m: seq<Word>)
    ensures |m| == 16
  {
    [0x61626380, 0, 0, 0, 0, 0, 0, 0, 0, 0, 0, 0, 0, 0, 0, 0x18]
  }

  lemma WordStep(m: seq<Word>, t: nat, a: Word, b: Word, c: Word, d: Word)
    requires |m| == 16 && t >= 16 && W(m, t - 3) == a && W(m, t - 8) == b && W(m, t - 14) == c && W(m, t - 16) == d
    ensures W(m, t) == Mixed(a, b, c, d)
  {
    hide Mixed;
  }

  lemma RoundStep(h: Regs, m: seq<Word>, t: nat, r: Regs, w: Word)
    requires |m| == 16 && Rounds(h, m, t) == r && W(m, t) == w
    ensures Rounds(h, m, t + 1) == Round(r, w, t)
  {
    hide Round;
    hide W;
  }

  /** Sixteen words of the schedule. */
  ghost predicate Sixteen(m: seq<Word>, k: nat,
                          w0: Word, w1: Word, w2: Word, w3: Word, w4: Word, w5: Word, w6: Word, w7: Word,
                          w8: Word, w9: Word, w10: Word, w11: Word, w12: Word, w13: Word, w14: Word, w15: Word) {
    |m| == 16 && W(m, k) == w0 && W(m, k + 1) == w1 && W(m, k + 2) == w2 && W(m, k + 3) == w3 &&
    W(m, k + 4) == w4 && W(m, k + 5) == w5 && W(m, k + 6) == w6 && W(m, k + 7) == w7 &&
    W(m, k + 8) == w8 && W(m, k + 9) == w9 && W(m, k + 10) == w10 && W(m, k + 11) == w11 &&
    W(m, k + 12) == w12 && W(m, k + 13) == w13 && W(m, k + 14) == w14 && W(m, k + 15) == w15
  }

  lemma FirstWords(m: seq<Word>, k: nat)
    requires m == AbcWords() && k == 0
    ensures Sixteen(m, k, 0x61626380, 0, 0, 0, 0, 0, 0, 0, 0, 0, 0, 0, 0, 0, 0, 0x18)
  {
    hide W;
    forall t | 0 <= t < 16 ensures W(m, t) == m[t] {
      RawWord(m, t);
    }
  }

  lemma RawWord(m: seq<Word>, t: nat)
    requires |m| == 16 && t < 16
    ensures W(m, t) == m[t]
  {
  }

  lemma Words16(m: seq<Word>, k: nat)
    requires m == AbcWords() && k == 16
    ensures Sixteen(m, k,
                    0xC2C4C700, 0x00000000, 0x00000030, 0x85898E01, 0x00000000, 0x00000060, 0x0B131C03, 0x00000030,
                    0x85898EC1, 0x16263806, 0x00000000, 0x00000180, 0x2C4C700C, 0x000000F0, 0x93AFB507, 0x5898E048)
  {
    hide W;
    hide AbcWords;
    FirstWords(m, k - 16);
    WordStep(m, k, 0x00000000, 0x00000000, 0x00000000, 0x61626380);
    WordStep(m, k + 1, 0x00000000, 0x00000000, 0x00000000, 0x00000000);
    WordStep(m, k + 2, 0x00000018, 0x00000000, 0x00000000, 0x00000000);
    WordStep(m, k + 3, 0xC2C4C700, 0x00000000, 0x00000000, 0x00000000);
    WordStep(m, k + 4, 0x00000000, 0x00000000, 0x00000000, 0x00000000);
    WordStep(m, k + 5, 0x00000030, 0x00000000, 0x00000000, 0x00000000);
    WordStep(m, k + 6, 0x85898E01, 0x00000000, 0x00000000, 0x00000000);
    WordStep(m, k + 7, 0x00000000, 0x00000018, 0x00000000, 0x00000000);
    WordStep(m, k + 8, 0x00000060, 0xC2C4C700, 0x00000000, 0x00000000);
    WordStep(m, k + 9, 0x0B131C03, 0x00000000, 0x00000000, 0x00000000);
    WordStep(m, k + 10, 0x00000030, 0x00000030, 0x00000000, 0x00000000);
    WordStep(m, k + 11, 0x85898EC1, 0x85898E01, 0x00000000, 0x00000000);
    WordStep(m, k + 12, 0x16263806, 0x00000000, 0x00000000, 0x00000000);
    WordStep(m, k + 13, 0x00000000, 0x00000060, 0x00000018, 0x00000000);
    WordStep(m, k + 14, 0x00000180, 0x0B131C03, 0xC2C4C700, 0x00000000);
    WordStep(m, k + 15, 0x2C4C700C, 0x00000030, 0x00000000, 0x00000018);
  }

  lemma Words32(m: seq<Word>, k: nat)
    requires m == AbcWords() && k == 32
    ensures Sixteen(m, k,
                    0x8E9A9202, 0x00000600, 0xB131C0F0, 0x16263BC6, 0x4EBED41E, 0x626380A1, 0x16263806, 0x000018C0,
                    0xD2E138C4, 0x00000F00, 0x3AFB5079, 0x898E04E5, 0xE2BA3C2B, 0x000060C0, 0x053A37CD, 0x74458547)
  {
    hide W;
    hide AbcWords;
    Words16(m, k - 16);
    WordStep(m, k, 0x000000F0, 0x85898EC1, 0x00000030, 0xC2C4C700);
    WordStep(m, k + 1, 0x93AFB507, 0x16263806, 0x85898E01, 0x00000000);
    WordStep(m, k + 2, 0x5898E048, 0x00000000, 0x00000000, 0x00000030);
    WordStep(m, k + 3, 0x8E9A9202, 0x00000180, 0x00000060, 0x85898E01);
    WordStep(m, k + 4, 0x00000600, 0x2C4C700C, 0x0B131C03, 0x00000000);
    WordStep(m, k + 5, 0xB131C0F0, 0x000000F0, 0x00000030, 0x00000060);
    WordStep(m, k + 6, 0x16263BC6, 0x93AFB507, 0x85898EC1, 0x0B131C03);
    WordStep(m, k + 7, 0x4EBED41E, 0x5898E048, 0x16263806, 0x00000030);
    WordStep(m, k + 8, 0x626380A1, 0x8E9A9202, 0x00000000, 0x85898EC1);
    WordStep(m, k + 9, 0x16263806, 0x00000600, 0x00000180, 0x16263806);
    WordStep(m, k + 10, 0x000018C0, 0xB131C0F0, 0x2C4C700C, 0x00000000);
    WordStep(m, k + 11, 0xD2E138C4, 0x16263BC6, 0x000000F0, 0x00000180);
    WordStep(m, k + 12, 0x00000F00, 0x4EBED41E, 0x93AFB507, 0x2C4C700C);
    WordStep(m, k + 13, 0x3AFB5079, 0x626380A1, 0x5898E048, 0x000000F0);
    WordStep(m, k + 14, 0x898E04E5, 0x16263806, 0x8E9A9202, 0x93AFB507);
    WordStep(m, k + 15, 0xE2BA3C2B, 0x000018C0, 0x00000600, 0x5898E048);
  }

  lemma Words48(m: seq<Word>, k: nat)
    requires m == AbcWords() && k == 48
    ensures Sixteen(m, k,
                    0xDA9415ED, 0x26380A16, 0x626383A1, 0x4EBF54DE, 0x3835B44B, 0x0000F600, 0x1E84C7A3, 0x98E04D98,
                    0x651D16A0, 0x62658CA1, 0x458544D6, 0x44584CB7, 0x7BA06619, 0x6380AEA2, 0x0AE55269, 0x627B49A1)
  {
    hide W;
    hide AbcWords;
    Words32(m, k - 16);
    WordStep(m, k, 0x000060C0, 0xD2E138C4, 0xB131C0F0, 0x8E9A9202);
    WordStep(m, k + 1, 0x053A37CD, 0x00000F00, 0x16263BC6, 0x00000600);
    WordStep(m, k + 2, 0x74458547, 0x3AFB5079, 0x4EBED41E, 0xB131C0F0);
    WordStep(m, k + 3, 0xDA9415ED, 0x898E04E5, 0x626380A1, 0x16263BC6);
    WordStep(m, k + 4, 0x26380A16, 0xE2BA3C2B, 0x16263806, 0x4EBED41E);
    WordStep(m, k + 5, 0x626383A1, 0x000060C0, 0x000018C0, 0x626380A1);
    WordStep(m, k + 6, 0x4EBF54DE, 0x053A37CD, 0xD2E138C4, 0x16263806);
    WordStep(m, k + 7, 0x3835B44B, 0x74458547, 0x00000F00, 0x000018C0);
    WordStep(m, k + 8, 0x0000F600, 0xDA9415ED, 0x3AFB5079, 0xD2E138C4);
    WordStep(m, k + 9, 0x1E84C7A3, 0x26380A16, 0x898E04E5, 0x00000F00);
    WordStep(m, k + 10, 0x98E04D98, 0x626383A1, 0xE2BA3C2B, 0x3AFB5079);
    WordStep(m, k + 11, 0x651D16A0, 0x4EBF54DE, 0x000060C0, 0x898E04E5);
    WordStep(m, k + 12, 0x62658CA1, 0x3835B44B, 0x053A37CD, 0xE2BA3C2B);
    WordStep(m, k + 13, 0x458544D6, 0x0000F600, 0x74458547, 0x000060C0);
    WordStep(m, k + 14, 0x44584CB7, 0x1E84C7A3, 0xDA9415ED, 0x053A37CD);
    WordStep(m, k + 15, 0x7BA06619, 0x98E04D98, 0x26380A16, 0x74458547);
  }

  lemma Words64(m: seq<Word>, k: nat)
    requires m == AbcWords() && k == 64
    ensures Sixteen(m, k,
                    0x7CD45C9D, 0x000F0000, 0xFB50753A, 0xEC6765E8, 0xBA3C2BE2, 0x0060C000, 0x3A37CD05, 0x458546F4,
                    0xB8599DD6, 0x380A1A26, 0x01E02203, 0xE7CC3456, 0xE6E60B69, 0x00F60A00, 0x5795EF4F, 0x822E0879)
  {
    hide W;
    hide AbcWords;
    Words48(m, k - 16);
    WordStep(m, k, 0x6380AEA2, 0x651D16A0, 0x626383A1, 0xDA9415ED);
    WordStep(m, k + 1, 0x0AE55269, 0x62658CA1, 0x4EBF54DE, 0x26380A16);
    WordStep(m, k + 2, 0x627B49A1, 0x458544D6, 0x3835B44B, 0x626383A1);
    WordStep(m, k + 3, 0x7CD45C9D, 0x44584CB7, 0x0000F600, 0x4EBF54DE);
    WordStep(m, k + 4, 0x000F0000, 0x7BA06619, 0x1E84C7A3, 0x3835B44B);
    WordStep(m, k + 5, 0xFB50753A, 0x6380AEA2, 0x98E04D98, 0x0000F600);
    WordStep(m, k + 6, 0xEC6765E8, 0x0AE55269, 0x651D16A0, 0x1E84C7A3);
    WordStep(m, k + 7, 0xBA3C2BE2, 0x627B49A1, 0x62658CA1, 0x98E04D98);
    WordStep(m, k + 8, 0x0060C000, 0x7CD45C9D, 0x458544D6, 0x651D16A0);
    WordStep(m, k + 9, 0x3A37CD05, 0x000F0000, 0x44584CB7, 0x62658CA1);
    WordStep(m, k + 10, 0x458546F4, 0xFB50753A, 0x7BA06619, 0x458544D6);
    WordStep(m, k + 11, 0xB8599DD6, 0xEC6765E8, 0x6380AEA2, 0x44584CB7);
    WordStep(m, k + 12, 0x380A1A26, 0xBA3C2BE2, 0x0AE55269, 0x7BA06619);
    WordStep(m, k + 13, 0x01E02203, 0x0060C000, 0x627B49A1, 0x6380AEA2);
    WordStep(m, k + 14, 0xE7CC3456, 0x3A37CD05, 0x7CD45C9D, 0x0AE55269);
    WordStep(m, k + 15, 0xE6E60B69, 0x458546F4, 0x000F0000, 0x627B49A1);
  }

  lemma Rounds8(m: seq<Word>, k: nat)
    requires m == AbcWords() && k == 0
    ensures Rounds(INIT, m, k + 8) == Regs(0x9E8C07D4, 0x993E30C1, 0x0FF1F290, 0xB3F52677, 0xF3763846)
  {
    hide W;
    hide Rounds;
    hide AbcWords;
    FirstWords(m, k);
    RoundsNone(m);
    RoundStep(INIT, m, k, Regs(0x67452301, 0xEFCDAB89, 0x98BADCFE, 0x10325476, 0xC3D2E1F0), 0x61626380);
    RoundStep(INIT, m, k + 1, Regs(0x0116FC33, 0x67452301, 0x7BF36AE2, 0x98BADCFE, 0x10325476), 0x00000000);
    RoundStep(INIT, m, k + 2, Regs(0x8990536D, 0x0116FC33, 0x59D148C0, 0x7BF36AE2, 0x98BADCFE), 0x00000000);
    RoundStep(INIT, m, k + 3, Regs(0xA1390F08, 0x8990536D, 0xC045BF0C, 0x59D148C0, 0x7BF36AE2), 0x00000000);
    RoundStep(INIT, m, k + 4, Regs(0xCDD8E11B, 0xA1390F08, 0x626414DB, 0xC045BF0C, 0x59D148C0), 0x00000000);
    RoundStep(INIT, m, k + 5, Regs(0xCFD499DE, 0xCDD8E11B, 0x284E43C2, 0x626414DB, 0xC045BF0C), 0x00000000);
    RoundStep(INIT, m, k + 6, Regs(0x3FC7CA40, 0xCFD499DE, 0xF3763846, 0x284E43C2, 0x626414DB), 0x00000000);
    RoundStep(INIT, m, k + 7, Regs(0x993E30C1, 0x3FC7CA40, 0xB3F52677, 0xF3763846, 0x284E43C2), 0x00000000);
  }

  lemma Rounds16(m: seq<Word>, k: nat)
    requires m == AbcWords() && k == 8
    ensures Rounds(INIT, m, k + 8) == Regs(0x20BDD62F, 0x196BEE77, 0x644A3DA5, 0x1181ED99, 0x18C623F9)
  {
    hide W;
    hide Rounds;
    hide AbcWords;
    FirstWords(m, k - 8);
    Rounds8(m, k - 8);
    RoundStep(INIT, m, k, Regs(0x9E8C07D4, 0x993E30C1, 0x0FF1F290, 0xB3F52677, 0xF3763846), 0x00000000);
    RoundStep(INIT, m, k + 1, Regs(0x4B6AE328, 0x9E8C07D4, 0x664F8C30, 0x0FF1F290, 0xB3F52677), 0x00000000);
    RoundStep(INIT, m, k + 2, Regs(0x8351F929, 0x4B6AE328, 0x27A301F5, 0x664F8C30, 0x0FF1F290), 0x00000000);
    RoundStep(INIT, m, k + 3, Regs(0xFBDA9E89, 0x8351F929, 0x12DAB8CA, 0x27A301F5, 0x664F8C30), 0x00000000);
    RoundStep(INIT, m, k + 4, Regs(0x63188FE4, 0xFBDA9E89, 0x60D47E4A, 0x12DAB8CA, 0x27A301F5), 0x00000000);
    RoundStep(INIT, m, k + 5, Regs(0x4607B664, 0x63188FE4, 0x7EF6A7A2, 0x60D47E4A, 0x12DAB8CA), 0x00000000);
    RoundStep(INIT, m, k + 6, Regs(0x9128F695, 0x4607B664, 0x18C623F9, 0x7EF6A7A2, 0x60D47E4A), 0x00000000);
    RoundStep(INIT, m, k + 7, Regs(0x196BEE77, 0x9128F695, 0x1181ED99, 0x18C623F9, 0x7EF6A7A2), 0x00000018);
  }

  lemma Rounds24(m: seq<Word>, k: nat)
    requires m == AbcWords() && k == 16
    ensures Rounds(INIT, m, k + 8) == Regs(0xD541F12D, 0x21283486, 0x0CE88EFF, 0x868DEC32, 0x7F67875F)
  {
    hide W;
    hide Rounds;
    hide AbcWords;
    Words16(m, k);
    Rounds16(m, k - 8);
    RoundStep(INIT, m, k, Regs(0x20BDD62F, 0x196BEE77, 0x644A3DA5, 0x1181ED99, 0x18C623F9), 0xC2C4C700);
    RoundStep(INIT, m, k + 1, Regs(0x4E925823, 0x20BDD62F, 0xC65AFB9D, 0x644A3DA5, 0x1181ED99), 0x00000000);
    RoundStep(INIT, m, k + 2, Regs(0x82AA6728, 0x4E925823, 0xC82F758B, 0xC65AFB9D, 0x644A3DA5), 0x00000030);
    RoundStep(INIT, m, k + 3, Regs(0xDC64901D, 0x82AA6728, 0xD3A49608, 0xC82F758B, 0xC65AFB9D), 0x85898E01);
    RoundStep(INIT, m, k + 4, Regs(0xFD9E1D7D, 0xDC64901D, 0x20AA99CA, 0xD3A49608, 0xC82F758B), 0x00000000);
    RoundStep(INIT, m, k + 5, Regs(0x1A37B0CA, 0xFD9E1D7D, 0x77192407, 0x20AA99CA, 0xD3A49608), 0x00000060);
    RoundStep(INIT, m, k + 6, Regs(0x33A23BFC, 0x1A37B0CA, 0x7F67875F, 0x77192407, 0x20AA99CA), 0x0B131C03);
    RoundStep(INIT, m, k + 7, Regs(0x21283486, 0x33A23BFC, 0x868DEC32, 0x7F67875F, 0x77192407), 0x00000030);
  }

  lemma Rounds32(m: seq<Word>, k: nat)
    requires m == AbcWords() && k == 24
    ensures Rounds(INIT, m, k + 8) == Regs(0x3B845D33, 0x1267B407, 0x717EEBD7, 0xA0DC2D4B, 0xD2AA1365)
  {
    hide W;
    hide Rounds;
    hide AbcWords;
    Words16(m, k - 8);
    Rounds24(m, k - 8);
    RoundStep(INIT, m, k, Regs(0xD541F12D, 0x21283486, 0x0CE88EFF, 0x868DEC32, 0x7F67875F), 0x85898EC1);
    RoundStep(INIT, m, k + 1, Regs(0xC7567DC6, 0xD541F12D, 0x884A0D21, 0x0CE88EFF, 0x868DEC32), 0x16263806);
    RoundStep(INIT, m, k + 2, Regs(0x48413BA4, 0xC7567DC6, 0x75507C4B, 0x884A0D21, 0x0CE88EFF), 0x00000000);
    RoundStep(INIT, m, k + 3, Regs(0xBE35FBD5, 0x48413BA4, 0xB1D59F71, 0x75507C4B, 0x884A0D21), 0x00000180);
    RoundStep(INIT, m, k + 4, Regs(0x4AA84D97, 0xBE35FBD5, 0x12104EE9, 0xB1D59F71, 0x75507C4B), 0x2C4C700C);
    RoundStep(INIT, m, k + 5, Regs(0x8370B52E, 0x4AA84D97, 0x6F8D7EF5, 0x12104EE9, 0xB1D59F71), 0x000000F0);
    RoundStep(INIT, m, k + 6, Regs(0xC5FBAF5D, 0x8370B52E, 0xD2AA1365, 0x6F8D7EF5, 0x12104EE9), 0x93AFB507);
    RoundStep(INIT, m, k + 7, Regs(0x1267B407, 0xC5FBAF5D, 0xA0DC2D4B, 0xD2AA1365, 0x6F8D7EF5), 0x5898E048);
  }

  lemma Rounds40(m: seq<Word>, k: nat)
    requires m == AbcWords() && k == 32
    ensures Rounds(INIT, m, k + 8) == Regs(0x32DE1CBA, 0x4C986405, 0xF718E5CF, 0x03D447F6, 0xF72EEC32)
  {
    hide W;
    hide Rounds;
    hide AbcWords;
    Words32(m, k);
    Rounds32(m, k - 8);
    RoundStep(INIT, m, k, Regs(0x3B845D33, 0x1267B407, 0x717EEBD7, 0xA0DC2D4B, 0xD2AA1365), 0x8E9A9202);
    RoundStep(INIT, m, k + 1, Regs(0x046FAA0A, 0x3B845D33, 0xC499ED01, 0x717EEBD7, 0xA0DC2D4B), 0x00000600);
    RoundStep(INIT, m, k + 2, Regs(0x2C0EBC11, 0x046FAA0A, 0xCEE1174C, 0xC499ED01, 0x717EEBD7), 0xB131C0F0);
    RoundStep(INIT, m, k + 3, Regs(0x21796AD4, 0x2C0EBC11, 0x811BEA82, 0xCEE1174C, 0xC499ED01), 0x16263BC6);
    RoundStep(INIT, m, k + 4, Regs(0xDCBBB0CB, 0x21796AD4, 0x4B03AF04, 0x811BEA82, 0xCEE1174C), 0x4EBED41E);
    RoundStep(INIT, m, k + 5, Regs(0x0F511FD8, 0xDCBBB0CB, 0x085E5AB5, 0x4B03AF04, 0x811BEA82), 0x626380A1);
    RoundStep(INIT, m, k + 6, Regs(0xDC63973F, 0x0F511FD8, 0xF72EEC32, 0x085E5AB5, 0x4B03AF04), 0x16263806);
    RoundStep(INIT, m, k + 7, Regs(0x4C986405, 0xDC63973F, 0x03D447F6, 0xF72EEC32, 0x085E5AB5), 0x000018C0);
  }

  lemma Rounds48(m: seq<Word>, k: nat)
    requires m == AbcWords() && k == 40
    ensures Rounds(INIT, m, k + 8) == Regs(0xBEAD02CA, 0xA01B846C, 0x8714787C, 0x503CA382, 0xFB86C6AB)
  {
    hide W;
    hide Rounds;
    hide AbcWords;
    Words32(m, k - 8);
    Rounds40(m, k - 8);
    RoundStep(INIT, m, k, Regs(0x32DE1CBA, 0x4C986405, 0xF718E5CF, 0x03D447F6, 0xF72EEC32), 0xD2E138C4);
    RoundStep(INIT, m, k + 1, Regs(0xFC87DEDF, 0x32DE1CBA, 0x53261901, 0xF718E5CF, 0x03D447F6), 0x00000F00);
    RoundStep(INIT, m, k + 2, Regs(0x970A0D5C, 0xFC87DEDF, 0x8CB7872E, 0x53261901, 0xF718E5CF), 0x3AFB5079);
    RoundStep(INIT, m, k + 3, Regs(0x7F193DC5, 0x970A0D5C, 0xFF21F7B7, 0x8CB7872E, 0x53261901), 0x898E04E5);
    RoundStep(INIT, m, k + 4, Regs(0xEE1B1AAF, 0x7F193DC5, 0x25C28357, 0xFF21F7B7, 0x8CB7872E), 0xE2BA3C2B);
    RoundStep(INIT, m, k + 5, Regs(0x40F28E09, 0xEE1B1AAF, 0x5FC64F71, 0x25C28357, 0xFF21F7B7), 0x000060C0);
    RoundStep(INIT, m, k + 6, Regs(0x1C51E1F2, 0x40F28E09, 0xFB86C6AB, 0x5FC64F71, 0x25C28357), 0x053A37CD);
    RoundStep(INIT, m, k + 7, Regs(0xA01B846C, 0x1C51E1F2, 0x503CA382, 0xFB86C6AB, 0x5FC64F71), 0x74458547);
  }

  lemma Rounds56(m: seq<Word>, k: nat)
    requires m == AbcWords() && k == 48
    ensures Rounds(INIT, m, k + 8) == Regs(0x5E6456AF, 0x7B71F76D, 0x09FA7C76, 0x792410DB, 0x8E11EB59)
  {
    hide W;
    hide Rounds;
    hide AbcWords;
    Words48(m, k);
    Rounds48(m, k - 8);
    RoundStep(INIT, m, k, Regs(0xBEAD02CA, 0xA01B846C, 0x8714787C, 0x503CA382, 0xFB86C6AB), 0xDA9415ED);
    RoundStep(INIT, m, k + 1, Regs(0xBAF39337, 0xBEAD02CA, 0x2806E11B, 0x8714787C, 0x503CA382), 0x26380A16);
    RoundStep(INIT, m, k + 2, Regs(0x120731C5, 0xBAF39337, 0xAFAB40B2, 0x2806E11B, 0x8714787C), 0x626383A1);
    RoundStep(INIT, m, k + 3, Regs(0x641DB2CE, 0x120731C5, 0xEEBCE4CD, 0xAFAB40B2, 0x2806E11B), 0x4EBF54DE);
    RoundStep(INIT, m, k + 4, Regs(0x3847AD66, 0x641DB2CE, 0x4481CC71, 0xEEBCE4CD, 0xAFAB40B2), 0x3835B44B);
    RoundStep(INIT, m, k + 5, Regs(0xE490436D, 0x3847AD66, 0x99076CB3, 0x4481CC71, 0xEEBCE4CD), 0x0000F600);
    RoundStep(INIT, m, k + 6, Regs(0x27E9F1D8, 0xE490436D, 0x8E11EB59, 0x99076CB3, 0x4481CC71), 0x1E84C7A3);
    RoundStep(INIT, m, k + 7, Regs(0x7B71F76D, 0x27E9F1D8, 0x792410DB, 0x8E11EB59, 0x99076CB3), 0x98E04D98);
  }

  lemma Rounds64(m: seq<Word>, k: nat)
    requires m == AbcWords() && k == 56
    ensures Rounds(INIT, m, k + 8) == Regs(0x6B61C9E1, 0xB66C020B, 0x9523272C, 0xF5D5B051, 0x8FD4B796)
  {
    hide W;
    hide Rounds;
    hide AbcWords;
    Words48(m, k - 8);
    Rounds56(m, k - 8);
    RoundStep(INIT, m, k, Regs(0x5E6456AF, 0x7B71F76D, 0x09FA7C76, 0x792410DB, 0x8E11EB59), 0x651D16A0);
    RoundStep(INIT, m, k + 1, Regs(0xC846093F, 0x5E6456AF, 0x5EDC7DDB, 0x09FA7C76, 0x792410DB), 0x62658CA1);
    RoundStep(INIT, m, k + 2, Regs(0xD262FF50, 0xC846093F, 0xD79915AB, 0x5EDC7DDB, 0x09FA7C76), 0x458544D6);
    RoundStep(INIT, m, k + 3, Regs(0x09D785FD, 0xD262FF50, 0xF211824F, 0xD79915AB, 0x5EDC7DDB), 0x44584CB7);
    RoundStep(INIT, m, k + 4, Regs(0x3F52DE5A, 0x09D785FD, 0x3498BFD4, 0xF211824F, 0xD79915AB), 0x7BA06619);
    RoundStep(INIT, m, k + 5, Regs(0xD756C147, 0x3F52DE5A, 0x4275E17F, 0x3498BFD4, 0xF211824F), 0x6380AEA2);
    RoundStep(INIT, m, k + 6, Regs(0x548C9CB2, 0xD756C147, 0x8FD4B796, 0x4275E17F, 0x3498BFD4), 0x0AE55269);
    RoundStep(INIT, m, k + 7, Regs(0xB66C020B, 0x548C9CB2, 0xF5D5B051, 0x8FD4B796, 0x4275E17F), 0x627B49A1);
  }

  lemma Rounds72(m: seq<Word>, k: nat)
    requires m == AbcWords() && k == 64
    ensures Rounds(INIT, m, k + 8) == Regs(0x39859DE7, 0xC199F8C7, 0x8FC96230, 0x125C24F0, 0xDE37534A)
  {
    hide W;
    hide Rounds;
    hide AbcWords;
    Words64(m, k);
    Rounds64(m, k - 8);
    RoundStep(INIT, m, k, Regs(0x6B61C9E1, 0xB66C020B, 0x9523272C, 0xF5D5B051, 0x8FD4B796), 0x7CD45C9D);
    RoundStep(INIT, m, k + 1, Regs(0x19DFA7AC, 0x6B61C9E1, 0xED9B0082, 0x9523272C, 0xF5D5B051), 0x000F0000);
    RoundStep(INIT, m, k + 2, Regs(0x101655F9, 0x19DFA7AC, 0x5AD87278, 0xED9B0082, 0x9523272C), 0xFB50753A);
    RoundStep(INIT, m, k + 3, Regs(0x0C3DF2B4, 0x101655F9, 0x0677E9EB, 0x5AD87278, 0xED9B0082), 0xEC6765E8);
    RoundStep(INIT, m, k + 4, Regs(0x78DD4D2B, 0x0C3DF2B4, 0x4405957E, 0x0677E9EB, 0x5AD87278), 0xBA3C2BE2);
    RoundStep(INIT, m, k + 5, Regs(0x497093C0, 0x78DD4D2B, 0x030F7CAD, 0x4405957E, 0x0677E9EB), 0x0060C000);
    RoundStep(INIT, m, k + 6, Regs(0x3F2588C2, 0x497093C0, 0xDE37534A, 0x030F7CAD, 0x4405957E), 0x3A37CD05);
    RoundStep(INIT, m, k + 7, Regs(0xC199F8C7, 0x3F2588C2, 0x125C24F0, 0xDE37534A, 0x030F7CAD), 0x458546F4);
  }

  lemma Rounds80(m: seq<Word>, k: nat)
    requires m == AbcWords() && k == 72
    ensures Rounds(INIT, m, k + 8) == Regs(0x42541B35, 0x5738D5E1, 0x21834873, 0x681E6DF6, 0xD8FDF6AD)
  {
    hide W;
    hide Rounds;
    hide AbcWords;
    Words64(m, k - 8);
    Rounds72(m, k - 8);
    RoundStep(INIT, m, k, Regs(0x39859DE7, 0xC199F8C7, 0x8FC96230, 0x125C24F0, 0xDE37534A), 0xB8599DD6);
    RoundStep(INIT, m, k + 1, Regs(0xEDB42DE4, 0x39859DE7, 0xF0667E31, 0x8FC96230, 0x125C24F0), 0x380A1A26);
    RoundStep(INIT, m, k + 2, Regs(0x11793F6F, 0xEDB42DE4, 0xCE616779, 0xF0667E31, 0x8FC96230), 0x01E02203);
    RoundStep(INIT, m, k + 3, Regs(0x5EE76897, 0x11793F6F, 0x3B6D0B79, 0xCE616779, 0xF0667E31), 0xE7CC3456);
    RoundStep(INIT, m, k + 4, Regs(0x63F7DAB7, 0x5EE76897, 0xC45E4FDB, 0x3B6D0B79, 0xCE616779), 0xE6E60B69);
    RoundStep(INIT, m, k + 5, Regs(0xA079B7D9, 0x63F7DAB7, 0xD7B9DA25, 0xC45E4FDB, 0x3B6D0B79), 0x00F60A00);
    RoundStep(INIT, m, k + 6, Regs(0x860D21CC, 0xA079B7D9, 0xD8FDF6AD, 0xD7B9DA25, 0xC45E4FDB), 0x5795EF4F);
    RoundStep(INIT, m, k + 7, Regs(0x5738D5E1, 0x860D21CC, 0x681E6DF6, 0xD8FDF6AD, 0xD7B9DA25), 0x822E0879);
  }

  lemma RoundsNone(m: seq<Word>)
    requires |m| == 16
    ensures Rounds(INIT, m, 0) == Regs(0x67452301, 0xEFCDAB89, 0x98BADCFE, 0x10325476, 0xC3D2E1F0)
  {
  }

  /** "abc", a one bit, zeros, and the length 24. */
  ghost predicate AbcBlock(p: seq<Octet>) {
    |p| == 64 && p[0] == 0x61 && p[1] == 0x62 && p[2] == 0x63 && p[3] == 0x80 && p[63] == 0x18 && forall i :: 4 <= i < 63 ==> p[i] == 0
  }

  lemma AbcLength()
    ensures LengthOctets(3) == [0, 0, 0, 0, 0, 0, 0, 0x18]
  {
    ZeroOctets();
    Octets24();
    hide IntOctets;
  }

  lemma ZeroOctets()
    ensures IntOctets(0) == [0, 0, 0, 0]
  {
  }

  lemma NoOctet(n: nat, shift: nat)
    requires n < shift
    ensures OctetOf(n, shift) == 0
  {
    assert n / shift == 0;
  }

  lemma LowOctet()
    ensures OctetOf(24, 1) == 0x18
  {
  }

  lemma Octets24()
    ensures IntOctets(24) == [0, 0, 0, 0x18]
  {
    NoOctet(24, 0x100_0000);
    NoOctet(24, 0x1_0000);
    NoOctet(24, 0x100);
    LowOctet();
    hide OctetOf;
  }

  lemma AbcPadded()
    ensures AbcBlock(Pad(ABC))
  {
    AbcLength();
    hide LengthOctets;
    assert Padding(3) == 52;
  }

  lemma AbcJoined(p: seq<Octet>, i: nat)
    requires AbcBlock(p) && i < 16
    ensures Words(p)[i] == AbcWords()[i]
  {
    hide Join;
    JoinedWords();
    if 0 < i < 15 {
      assert p[4 * i] == 0 && p[4 * i + 1] == 0 && p[4 * i + 2] == 0 && p[4 * i + 3] == 0;
      AbcZero(i);
    }
  }

  lemma AbcZero(i: nat)
    requires 0 < i < 15
    ensures AbcWords()[i] == 0
  {
  }

  lemma JoinedWords()
    ensures Join(0, 0, 0, 0) == 0 && Join(0x61, 0x62, 0x63, 0x80) == 0x61626380 && Join(0, 0, 0, 0x18) == 0x18
  {
  }

  /** The digest of "abc" is A9993E36 4706816A BA3E2571 7850C26C 9CD0D89D. */
  lemma AbcDigest()
    ensures Sha1(ABC) == [0xA9, 0x99, 0x3E, 0x36, 0x47, 0x06, 0x81, 0x6A, 0xBA, 0x3E, 0x25, 0x71, 0x78, 0x50, 0xC2, 0x6C, 0x9C, 0xD0, 0xD8, 0x9D]
  {
    hide Rounds;
    hide Words;
    hide Pad;
    AbcPadded();
    var p := Pad(ABC);
    forall i | 0 <= i < 16 ensures Words(p)[i] == AbcWords()[i] {
      AbcJoined(p, i);
    }
    assert Words(p) == AbcWords();
    hide AbcWords;
    hide AbcBlock;
    Rounds80(AbcWords(), 72);
    assert p[..64] == p && p[64..] == [];
    assert Absorbed(INIT, p) == Absorbed(Compress(INIT, p), []) == Compress(INIT, p);
    assert Compress(INIT, p) == Regs(0xA9993E36, 0x4706816A, 0xBA3E2571, 0x7850C26C, 0x9CD0D89D);
    hide Absorbed;
    hide Compress;
    DigestBytes();
  }

  lemma DigestBytes()
    ensures DigestOf(Regs(0xA9993E36, 0x4706816A, 0xBA3E2571, 0x7850C26C, 0x9CD0D89D)) == [0xA9, 0x99, 0x3E, 0x36, 0x47, 0x06, 0x81, 0x6A, 0xBA, 0x3E, 0x25, 0x71, 0x78, 0x50, 0xC2, 0x6C, 0x9C, 0xD0, 0xD8, 0x9D]
  {
  }
}
