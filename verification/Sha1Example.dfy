/** The example of FIPS 180-2, appendix A.1, with its intermediate values: the hash of the three bytes "abc". */
module Sha1Example {
  import opened Sha1Spec

  const ABC: seq<bv8> := [0x61, 0x62, 0x63]

  /** The message, padded, as the sixteen words of a block. */
  const BLOCK: Block := [0x61626380, 0, 0, 0, 0, 0, 0, 0, 0, 0, 0, 0, 0, 0, 0, 0x00000018]

  function Left1(x: bv32): bv32 { (x << 1) | (x >> 31) }

  function Left5(x: bv32): bv32 { (x << 5) | (x >> 27) }

  function Left30(x: bv32): bv32 { (x << 30) | (x >> 2) }

  lemma Shifts(x: bv32)
    ensures Rotl(x, 1) == Left1(x) && Rotl(x, 5) == Left5(x) && Rotl(x, 30) == Left30(x)
  {}

  /** One word of the message schedule. */
  lemma Word(t: nat, w: bv32)
    requires 16 <= t < 80
    requires w == Left1(Xor4(W(BLOCK, t - 3), W(BLOCK, t - 8), W(BLOCK, t - 14), W(BLOCK, t - 16)))
    ensures W(BLOCK, t) == w
  {
    hide Rotl, Left1, Left5, Left30, Xor4;
    Shifts(Xor4(W(BLOCK, t - 3), W(BLOCK, t - 8), W(BLOCK, t - 14), W(BLOCK, t - 16)));
  }

  /** One round: `a` and `c` are new, the other variables move on. */
  lemma Next(t: nat, v: Vars, w: bv32, a: bv32, c: bv32)
    requires t < 80 && Rounds(BLOCK, t, INITIAL) == v && W(BLOCK, t) == w
    requires a == Sum5(Left5(v.a), F(t, v.b, v.c, v.d), v.e, K(t), w) && c == Left30(v.b)
    ensures Rounds(BLOCK, t + 1, INITIAL) == Vars(a, v.a, c, v.c, v.d)
  {
    hide Rotl, Left1, Left5, Left30, Sum5, W, F, K, Rounds;
    RoundsMore(t);
    Shifts(v.a);
    Shifts(v.b);
  }

  lemma RoundsMore(t: nat)
    ensures Rounds(BLOCK, t + 1, INITIAL) == Round(BLOCK, t, Rounds(BLOCK, t, INITIAL))
  {
    hide Round;
  }

  lemma FirstWords(t: nat)
    requires t < 16
    ensures W(BLOCK, t) == BLOCK[t]
  {
    hide Rotl, Xor4;
  }

  lemma Words0()
    ensures W(BLOCK, 0) == 0x61626380 && W(BLOCK, 1) == 0 && W(BLOCK, 2) == 0 && W(BLOCK, 3) == 0
    ensures W(BLOCK, 4) == 0 && W(BLOCK, 5) == 0 && W(BLOCK, 6) == 0 && W(BLOCK, 7) == 0
    ensures W(BLOCK, 8) == 0 && W(BLOCK, 9) == 0 && W(BLOCK, 10) == 0 && W(BLOCK, 11) == 0
    ensures W(BLOCK, 12) == 0 && W(BLOCK, 13) == 0 && W(BLOCK, 14) == 0 && W(BLOCK, 15) == 0x00000018
  {
    hide W;
    FirstWords(0); FirstWords(1); FirstWords(2); FirstWords(3);
    FirstWords(4); FirstWords(5); FirstWords(6); FirstWords(7);
    FirstWords(8); FirstWords(9); FirstWords(10); FirstWords(11);
    FirstWords(12); FirstWords(13); FirstWords(14); FirstWords(15);
  }

  lemma Words16()
    ensures W(BLOCK, 16) == 0xc2c4c700 && W(BLOCK, 17) == 0x00000000
    ensures W(BLOCK, 18) == 0x00000030 && W(BLOCK, 19) == 0x85898e01
    ensures W(BLOCK, 20) == 0x00000000 && W(BLOCK, 21) == 0x00000060
    ensures W(BLOCK, 22) == 0x0b131c03 && W(BLOCK, 23) == 0x00000030
    ensures W(BLOCK, 24) == 0x85898ec1 && W(BLOCK, 25) == 0x16263806
    ensures W(BLOCK, 26) == 0x00000000 && W(BLOCK, 27) == 0x00000180
    ensures W(BLOCK, 28) == 0x2c4c700c && W(BLOCK, 29) == 0x000000f0
    ensures W(BLOCK, 30) == 0x93afb507 && W(BLOCK, 31) == 0x5898e048
  {
    hide W;
    Words0();
    Word(16, 0xc2c4c700); Word(17, 0x00000000); Word(18, 0x00000030); Word(19, 0x85898e01);
    Word(20, 0x00000000); Word(21, 0x00000060); Word(22, 0x0b131c03); Word(23, 0x00000030);
    Word(24, 0x85898ec1); Word(25, 0x16263806); Word(26, 0x00000000); Word(27, 0x00000180);
    Word(28, 0x2c4c700c); Word(29, 0x000000f0); Word(30, 0x93afb507); Word(31, 0x5898e048);
  }

  lemma Words32()
    ensures W(BLOCK, 32) == 0x8e9a9202 && W(BLOCK, 33) == 0x00000600
    ensures W(BLOCK, 34) == 0xb131c0f0 && W(BLOCK, 35) == 0x16263bc6
    ensures W(BLOCK, 36) == 0x4ebed41e && W(BLOCK, 37) == 0x626380a1
    ensures W(BLOCK, 38) == 0x16263806 && W(BLOCK, 39) == 0x000018c0
    ensures W(BLOCK, 40) == 0xd2e138c4 && W(BLOCK, 41) == 0x00000f00
    ensures W(BLOCK, 42) == 0x3afb5079 && W(BLOCK, 43) == 0x898e04e5
    ensures W(BLOCK, 44) == 0xe2ba3c2b && W(BLOCK, 45) == 0x000060c0
    ensures W(BLOCK, 46) == 0x053a37cd && W(BLOCK, 47) == 0x74458547
  {
    hide W;
    Words16();
    Word(32, 0x8e9a9202); Word(33, 0x00000600); Word(34, 0xb131c0f0); Word(35, 0x16263bc6);
    Word(36, 0x4ebed41e); Word(37, 0x626380a1); Word(38, 0x16263806); Word(39, 0x000018c0);
    Word(40, 0xd2e138c4); Word(41, 0x00000f00); Word(42, 0x3afb5079); Word(43, 0x898e04e5);
    Word(44, 0xe2ba3c2b); Word(45, 0x000060c0); Word(46, 0x053a37cd); Word(47, 0x74458547);
  }

  lemma Words48()
    ensures W(BLOCK, 48) == 0xda9415ed && W(BLOCK, 49) == 0x26380a16
    ensures W(BLOCK, 50) == 0x626383a1 && W(BLOCK, 51) == 0x4ebf54de
    ensures W(BLOCK, 52) == 0x3835b44b && W(BLOCK, 53) == 0x0000f600
    ensures W(BLOCK, 54) == 0x1e84c7a3 && W(BLOCK, 55) == 0x98e04d98
    ensures W(BLOCK, 56) == 0x651d16a0 && W(BLOCK, 57) == 0x62658ca1
    ensures W(BLOCK, 58) == 0x458544d6 && W(BLOCK, 59) == 0x44584cb7
    ensures W(BLOCK, 60) == 0x7ba06619 && W(BLOCK, 61) == 0x6380aea2
    ensures W(BLOCK, 62) == 0x0ae55269 && W(BLOCK, 63) == 0x627b49a1
  {
    hide W;
    Words32();
    Word(48, 0xda9415ed); Word(49, 0x26380a16); Word(50, 0x626383a1); Word(51, 0x4ebf54de);
    Word(52, 0x3835b44b); Word(53, 0x0000f600); Word(54, 0x1e84c7a3); Word(55, 0x98e04d98);
    Word(56, 0x651d16a0); Word(57, 0x62658ca1); Word(58, 0x458544d6); Word(59, 0x44584cb7);
    Word(60, 0x7ba06619); Word(61, 0x6380aea2); Word(62, 0x0ae55269); Word(63, 0x627b49a1);
  }

  lemma Words64()
    ensures W(BLOCK, 64) == 0x7cd45c9d && W(BLOCK, 65) == 0x000f0000
    ensures W(BLOCK, 66) == 0xfb50753a && W(BLOCK, 67) == 0xec6765e8
    ensures W(BLOCK, 68) == 0xba3c2be2 && W(BLOCK, 69) == 0x0060c000
    ensures W(BLOCK, 70) == 0x3a37cd05 && W(BLOCK, 71) == 0x458546f4
    ensures W(BLOCK, 72) == 0xb8599dd6 && W(BLOCK, 73) == 0x380a1a26
    ensures W(BLOCK, 74) == 0x01e02203 && W(BLOCK, 75) == 0xe7cc3456
    ensures W(BLOCK, 76) == 0xe6e60b69 && W(BLOCK, 77) == 0x00f60a00
    ensures W(BLOCK, 78) == 0x5795ef4f && W(BLOCK, 79) == 0x822e0879
  {
    hide W;
    Words48();
    Word(64, 0x7cd45c9d); Word(65, 0x000f0000); Word(66, 0xfb50753a); Word(67, 0xec6765e8);
    Word(68, 0xba3c2be2); Word(69, 0x0060c000); Word(70, 0x3a37cd05); Word(71, 0x458546f4);
    Word(72, 0xb8599dd6); Word(73, 0x380a1a26); Word(74, 0x01e02203); Word(75, 0xe7cc3456);
    Word(76, 0xe6e60b69); Word(77, 0x00f60a00); Word(78, 0x5795ef4f); Word(79, 0x822e0879);
  }

  lemma Rounds20()
    ensures Rounds(BLOCK, 20, INITIAL) == Vars(0xfd9e1d7d, 0xdc64901d, 0x20aa99ca, 0xd3a49608, 0xc82f758b)
  {
    hide W;
    Words0();
    Words16();
    Next(0, Vars(0x67452301, 0xefcdab89, 0x98badcfe, 0x10325476, 0xc3d2e1f0), 0x61626380, 0x0116fc33, 0x7bf36ae2);
    Next(1, Vars(0x0116fc33, 0x67452301, 0x7bf36ae2, 0x98badcfe, 0x10325476), 0x00000000, 0x8990536d, 0x59d148c0);
    Next(2, Vars(0x8990536d, 0x0116fc33, 0x59d148c0, 0x7bf36ae2, 0x98badcfe), 0x00000000, 0xa1390f08, 0xc045bf0c);
    Next(3, Vars(0xa1390f08, 0x8990536d, 0xc045bf0c, 0x59d148c0, 0x7bf36ae2), 0x00000000, 0xcdd8e11b, 0x626414db);
    Next(4, Vars(0xcdd8e11b, 0xa1390f08, 0x626414db, 0xc045bf0c, 0x59d148c0), 0x00000000, 0xcfd499de, 0x284e43c2);
    Next(5, Vars(0xcfd499de, 0xcdd8e11b, 0x284e43c2, 0x626414db, 0xc045bf0c), 0x00000000, 0x3fc7ca40, 0xf3763846);
    Next(6, Vars(0x3fc7ca40, 0xcfd499de, 0xf3763846, 0x284e43c2, 0x626414db), 0x00000000, 0x993e30c1, 0xb3f52677);
    Next(7, Vars(0x993e30c1, 0x3fc7ca40, 0xb3f52677, 0xf3763846, 0x284e43c2), 0x00000000, 0x9e8c07d4, 0x0ff1f290);
    Next(8, Vars(0x9e8c07d4, 0x993e30c1, 0x0ff1f290, 0xb3f52677, 0xf3763846), 0x00000000, 0x4b6ae328, 0x664f8c30);
    Next(9, Vars(0x4b6ae328, 0x9e8c07d4, 0x664f8c30, 0x0ff1f290, 0xb3f52677), 0x00000000, 0x8351f929, 0x27a301f5);
    Next(10, Vars(0x8351f929, 0x4b6ae328, 0x27a301f5, 0x664f8c30, 0x0ff1f290), 0x00000000, 0xfbda9e89, 0x12dab8ca);
    Next(11, Vars(0xfbda9e89, 0x8351f929, 0x12dab8ca, 0x27a301f5, 0x664f8c30), 0x00000000, 0x63188fe4, 0x60d47e4a);
    Next(12, Vars(0x63188fe4, 0xfbda9e89, 0x60d47e4a, 0x12dab8ca, 0x27a301f5), 0x00000000, 0x4607b664, 0x7ef6a7a2);
    Next(13, Vars(0x4607b664, 0x63188fe4, 0x7ef6a7a2, 0x60d47e4a, 0x12dab8ca), 0x00000000, 0x9128f695, 0x18c623f9);
    Next(14, Vars(0x9128f695, 0x4607b664, 0x18c623f9, 0x7ef6a7a2, 0x60d47e4a), 0x00000000, 0x196bee77, 0x1181ed99);
    Next(15, Vars(0x196bee77, 0x9128f695, 0x1181ed99, 0x18c623f9, 0x7ef6a7a2), 0x00000018, 0x20bdd62f, 0x644a3da5);
    Next(16, Vars(0x20bdd62f, 0x196bee77, 0x644a3da5, 0x1181ed99, 0x18c623f9), 0xc2c4c700, 0x4e925823, 0xc65afb9d);
    Next(17, Vars(0x4e925823, 0x20bdd62f, 0xc65afb9d, 0x644a3da5, 0x1181ed99), 0x00000000, 0x82aa6728, 0xc82f758b);
    Next(18, Vars(0x82aa6728, 0x4e925823, 0xc82f758b, 0xc65afb9d, 0x644a3da5), 0x00000030, 0xdc64901d, 0xd3a49608);
    Next(19, Vars(0xdc64901d, 0x82aa6728, 0xd3a49608, 0xc82f758b, 0xc65afb9d), 0x85898e01, 0xfd9e1d7d, 0x20aa99ca);
  }

  lemma Rounds40()
    ensures Rounds(BLOCK, 40, INITIAL) == Vars(0x32de1cba, 0x4c986405, 0xf718e5cf, 0x03d447f6, 0xf72eec32)
  {
    hide W, Rounds;
    Rounds20();
    Words16();
    Words32();
    Next(20, Vars(0xfd9e1d7d, 0xdc64901d, 0x20aa99ca, 0xd3a49608, 0xc82f758b), 0x00000000, 0x1a37b0ca, 0x77192407);
    Next(21, Vars(0x1a37b0ca, 0xfd9e1d7d, 0x77192407, 0x20aa99ca, 0xd3a49608), 0x00000060, 0x33a23bfc, 0x7f67875f);
    Next(22, Vars(0x33a23bfc, 0x1a37b0ca, 0x7f67875f, 0x77192407, 0x20aa99ca), 0x0b131c03, 0x21283486, 0x868dec32);
    Next(23, Vars(0x21283486, 0x33a23bfc, 0x868dec32, 0x7f67875f, 0x77192407), 0x00000030, 0xd541f12d, 0x0ce88eff);
    Next(24, Vars(0xd541f12d, 0x21283486, 0x0ce88eff, 0x868dec32, 0x7f67875f), 0x85898ec1, 0xc7567dc6, 0x884a0d21);
    Next(25, Vars(0xc7567dc6, 0xd541f12d, 0x884a0d21, 0x0ce88eff, 0x868dec32), 0x16263806, 0x48413ba4, 0x75507c4b);
    Next(26, Vars(0x48413ba4, 0xc7567dc6, 0x75507c4b, 0x884a0d21, 0x0ce88eff), 0x00000000, 0xbe35fbd5, 0xb1d59f71);
    Next(27, Vars(0xbe35fbd5, 0x48413ba4, 0xb1d59f71, 0x75507c4b, 0x884a0d21), 0x00000180, 0x4aa84d97, 0x12104ee9);
    Next(28, Vars(0x4aa84d97, 0xbe35fbd5, 0x12104ee9, 0xb1d59f71, 0x75507c4b), 0x2c4c700c, 0x8370b52e, 0x6f8d7ef5);
    Next(29, Vars(0x8370b52e, 0x4aa84d97, 0x6f8d7ef5, 0x12104ee9, 0xb1d59f71), 0x000000f0, 0xc5fbaf5d, 0xd2aa1365);
    Next(30, Vars(0xc5fbaf5d, 0x8370b52e, 0xd2aa1365, 0x6f8d7ef5, 0x12104ee9), 0x93afb507, 0x1267b407, 0xa0dc2d4b);
    Next(31, Vars(0x1267b407, 0xc5fbaf5d, 0xa0dc2d4b, 0xd2aa1365, 0x6f8d7ef5), 0x5898e048, 0x3b845d33, 0x717eebd7);
    Next(32, Vars(0x3b845d33, 0x1267b407, 0x717eebd7, 0xa0dc2d4b, 0xd2aa1365), 0x8e9a9202, 0x046faa0a, 0xc499ed01);
    Next(33, Vars(0x046faa0a, 0x3b845d33, 0xc499ed01, 0x717eebd7, 0xa0dc2d4b), 0x00000600, 0x2c0ebc11, 0xcee1174c);
    Next(34, Vars(0x2c0ebc11, 0x046faa0a, 0xcee1174c, 0xc499ed01, 0x717eebd7), 0xb131c0f0, 0x21796ad4, 0x811bea82);
    Next(35, Vars(0x21796ad4, 0x2c0ebc11, 0x811bea82, 0xcee1174c, 0xc499ed01), 0x16263bc6, 0xdcbbb0cb, 0x4b03af04);
    Next(36, Vars(0xdcbbb0cb, 0x21796ad4, 0x4b03af04, 0x811bea82, 0xcee1174c), 0x4ebed41e, 0x0f511fd8, 0x085e5ab5);
    Next(37, Vars(0x0f511fd8, 0xdcbbb0cb, 0x085e5ab5, 0x4b03af04, 0x811bea82), 0x626380a1, 0xdc63973f, 0xf72eec32);
    Next(38, Vars(0xdc63973f, 0x0f511fd8, 0xf72eec32, 0x085e5ab5, 0x4b03af04), 0x16263806, 0x4c986405, 0x03d447f6);
    Next(39, Vars(0x4c986405, 0xdc63973f, 0x03d447f6, 0xf72eec32, 0x085e5ab5), 0x000018c0, 0x32de1cba, 0xf718e5cf);
  }

  lemma Rounds60()
    ensures Rounds(BLOCK, 60, INITIAL) == Vars(0x3f52de5a, 0x09d785fd, 0x3498bfd4, 0xf211824f, 0xd79915ab)
  {
    hide W, Rounds;
    Rounds40();
    Words32();
    Words48();
    Next(40, Vars(0x32de1cba, 0x4c986405, 0xf718e5cf, 0x03d447f6, 0xf72eec32), 0xd2e138c4, 0xfc87dedf, 0x53261901);
    Next(41, Vars(0xfc87dedf, 0x32de1cba, 0x53261901, 0xf718e5cf, 0x03d447f6), 0x00000f00, 0x970a0d5c, 0x8cb7872e);
    Next(42, Vars(0x970a0d5c, 0xfc87dedf, 0x8cb7872e, 0x53261901, 0xf718e5cf), 0x3afb5079, 0x7f193dc5, 0xff21f7b7);
    Next(43, Vars(0x7f193dc5, 0x970a0d5c, 0xff21f7b7, 0x8cb7872e, 0x53261901), 0x898e04e5, 0xee1b1aaf, 0x25c28357);
    Next(44, Vars(0xee1b1aaf, 0x7f193dc5, 0x25c28357, 0xff21f7b7, 0x8cb7872e), 0xe2ba3c2b, 0x40f28e09, 0x5fc64f71);
    Next(45, Vars(0x40f28e09, 0xee1b1aaf, 0x5fc64f71, 0x25c28357, 0xff21f7b7), 0x000060c0, 0x1c51e1f2, 0xfb86c6ab);
    Next(46, Vars(0x1c51e1f2, 0x40f28e09, 0xfb86c6ab, 0x5fc64f71, 0x25c28357), 0x053a37cd, 0xa01b846c, 0x503ca382);
    Next(47, Vars(0xa01b846c, 0x1c51e1f2, 0x503ca382, 0xfb86c6ab, 0x5fc64f71), 0x74458547, 0xbead02ca, 0x8714787c);
    Next(48, Vars(0xbead02ca, 0xa01b846c, 0x8714787c, 0x503ca382, 0xfb86c6ab), 0xda9415ed, 0xbaf39337, 0x2806e11b);
    Next(49, Vars(0xbaf39337, 0xbead02ca, 0x2806e11b, 0x8714787c, 0x503ca382), 0x26380a16, 0x120731c5, 0xafab40b2);
    Next(50, Vars(0x120731c5, 0xbaf39337, 0xafab40b2, 0x2806e11b, 0x8714787c), 0x626383a1, 0x641db2ce, 0xeebce4cd);
    Next(51, Vars(0x641db2ce, 0x120731c5, 0xeebce4cd, 0xafab40b2, 0x2806e11b), 0x4ebf54de, 0x3847ad66, 0x4481cc71);
    Next(52, Vars(0x3847ad66, 0x641db2ce, 0x4481cc71, 0xeebce4cd, 0xafab40b2), 0x3835b44b, 0xe490436d, 0x99076cb3);
    Next(53, Vars(0xe490436d, 0x3847ad66, 0x99076cb3, 0x4481cc71, 0xeebce4cd), 0x0000f600, 0x27e9f1d8, 0x8e11eb59);
    Next(54, Vars(0x27e9f1d8, 0xe490436d, 0x8e11eb59, 0x99076cb3, 0x4481cc71), 0x1e84c7a3, 0x7b71f76d, 0x792410db);
    Next(55, Vars(0x7b71f76d, 0x27e9f1d8, 0x792410db, 0x8e11eb59, 0x99076cb3), 0x98e04d98, 0x5e6456af, 0x09fa7c76);
    Next(56, Vars(0x5e6456af, 0x7b71f76d, 0x09fa7c76, 0x792410db, 0x8e11eb59), 0x651d16a0, 0xc846093f, 0x5edc7ddb);
    Next(57, Vars(0xc846093f, 0x5e6456af, 0x5edc7ddb, 0x09fa7c76, 0x792410db), 0x62658ca1, 0xd262ff50, 0xd79915ab);
    Next(58, Vars(0xd262ff50, 0xc846093f, 0xd79915ab, 0x5edc7ddb, 0x09fa7c76), 0x458544d6, 0x09d785fd, 0xf211824f);
    Next(59, Vars(0x09d785fd, 0xd262ff50, 0xf211824f, 0xd79915ab, 0x5edc7ddb), 0x44584cb7, 0x3f52de5a, 0x3498bfd4);
  }

  lemma Rounds80()
    ensures Rounds(BLOCK, 80, INITIAL) == Vars(0x42541b35, 0x5738d5e1, 0x21834873, 0x681e6df6, 0xd8fdf6ad)
  {
    hide W, Rounds;
    Rounds60();
    Words48();
    Words64();
    Next(60, Vars(0x3f52de5a, 0x09d785fd, 0x3498bfd4, 0xf211824f, 0xd79915ab), 0x7ba06619, 0xd756c147, 0x4275e17f);
    Next(61, Vars(0xd756c147, 0x3f52de5a, 0x4275e17f, 0x3498bfd4, 0xf211824f), 0x6380aea2, 0x548c9cb2, 0x8fd4b796);
    Next(62, Vars(0x548c9cb2, 0xd756c147, 0x8fd4b796, 0x4275e17f, 0x3498bfd4), 0x0ae55269, 0xb66c020b, 0xf5d5b051);
    Next(63, Vars(0xb66c020b, 0x548c9cb2, 0xf5d5b051, 0x8fd4b796, 0x4275e17f), 0x627b49a1, 0x6b61c9e1, 0x9523272c);
    Next(64, Vars(0x6b61c9e1, 0xb66c020b, 0x9523272c, 0xf5d5b051, 0x8fd4b796), 0x7cd45c9d, 0x19dfa7ac, 0xed9b0082);
    Next(65, Vars(0x19dfa7ac, 0x6b61c9e1, 0xed9b0082, 0x9523272c, 0xf5d5b051), 0x000f0000, 0x101655f9, 0x5ad87278);
    Next(66, Vars(0x101655f9, 0x19dfa7ac, 0x5ad87278, 0xed9b0082, 0x9523272c), 0xfb50753a, 0x0c3df2b4, 0x0677e9eb);
    Next(67, Vars(0x0c3df2b4, 0x101655f9, 0x0677e9eb, 0x5ad87278, 0xed9b0082), 0xec6765e8, 0x78dd4d2b, 0x4405957e);
    Next(68, Vars(0x78dd4d2b, 0x0c3df2b4, 0x4405957e, 0x0677e9eb, 0x5ad87278), 0xba3c2be2, 0x497093c0, 0x030f7cad);
    Next(69, Vars(0x497093c0, 0x78dd4d2b, 0x030f7cad, 0x4405957e, 0x0677e9eb), 0x0060c000, 0x3f2588c2, 0xde37534a);
    Next(70, Vars(0x3f2588c2, 0x497093c0, 0xde37534a, 0x030f7cad, 0x4405957e), 0x3a37cd05, 0xc199f8c7, 0x125c24f0);
    Next(71, Vars(0xc199f8c7, 0x3f2588c2, 0x125c24f0, 0xde37534a, 0x030f7cad), 0x458546f4, 0x39859de7, 0x8fc96230);
    Next(72, Vars(0x39859de7, 0xc199f8c7, 0x8fc96230, 0x125c24f0, 0xde37534a), 0xb8599dd6, 0xedb42de4, 0xf0667e31);
    Next(73, Vars(0xedb42de4, 0x39859de7, 0xf0667e31, 0x8fc96230, 0x125c24f0), 0x380a1a26, 0x11793f6f, 0xce616779);
    Next(74, Vars(0x11793f6f, 0xedb42de4, 0xce616779, 0xf0667e31, 0x8fc96230), 0x01e02203, 0x5ee76897, 0x3b6d0b79);
    Next(75, Vars(0x5ee76897, 0x11793f6f, 0x3b6d0b79, 0xce616779, 0xf0667e31), 0xe7cc3456, 0x63f7dab7, 0xc45e4fdb);
    Next(76, Vars(0x63f7dab7, 0x5ee76897, 0xc45e4fdb, 0x3b6d0b79, 0xce616779), 0xe6e60b69, 0xa079b7d9, 0xd7b9da25);
    Next(77, Vars(0xa079b7d9, 0x63f7dab7, 0xd7b9da25, 0xc45e4fdb, 0x3b6d0b79), 0x00f60a00, 0x860d21cc, 0xd8fdf6ad);
    Next(78, Vars(0x860d21cc, 0xa079b7d9, 0xd8fdf6ad, 0xd7b9da25, 0xc45e4fdb), 0x5795ef4f, 0x5738d5e1, 0x681e6df6);
    Next(79, Vars(0x5738d5e1, 0x860d21cc, 0x681e6df6, 0xd8fdf6ad, 0xd7b9da25), 0x822e0879, 0x42541b35, 0x21834873);
  }

  lemma OneBlock(bytes: seq<bv8>)
    requires |bytes| == 64
    ensures HashBlocks(bytes) == Compress(INITIAL, WordsOf(bytes))
  {
    hide Compress, WordsOf;
    assert bytes[..0] == [] && bytes[0..] == bytes;
    assert HashBlocks([]) == INITIAL;
  }

  lemma LengthOf24()
    ensures LengthField(24) == [0, 0, 0, 0, 0, 0, 0, 24]
  {}

  lemma WordsAre()
    ensures WordOf(0x61, 0x62, 0x63, 0x80) == 0x61626380 && WordOf(0, 0, 0, 0) == 0 && WordOf(0, 0, 0, 24) == 0x18
  {}

  lemma Padded()
    ensures |PadAs(ABC, 24)| == 64 && WordsOf(PadAs(ABC, 24)) == BLOCK
  {
    hide LengthField, WordOf;
    LengthOf24();
    WordsAre();
  }

  lemma Summed()
    ensures AddVars(INITIAL, Vars(0x42541b35, 0x5738d5e1, 0x21834873, 0x681e6df6, 0xd8fdf6ad))
         == Vars(0xa9993e36, 0x4706816a, 0xba3e2571, 0x7850c26c, 0x9cd0d89d)
  {}

  lemma Bytes20()
    ensures Digest(Vars(0xa9993e36, 0x4706816a, 0xba3e2571, 0x7850c26c, 0x9cd0d89d))
         == [0xa9, 0x99, 0x3e, 0x36, 0x47, 0x06, 0x81, 0x6a, 0xba, 0x3e,
             0x25, 0x71, 0x78, 0x50, 0xc2, 0x6c, 0x9c, 0xd0, 0xd8, 0x9d]
  {}

  lemma AbcHash()
    ensures Sha1(ABC) == [0xa9, 0x99, 0x3e, 0x36, 0x47, 0x06, 0x81, 0x6a, 0xba, 0x3e,
                          0x25, 0x71, 0x78, 0x50, 0xc2, 0x6c, 0x9c, 0xd0, 0xd8, 0x9d]
  {
    hide PadAs, WordsOf, HashBlocks, Rounds, Digest, AddVars;
    Padded();
    OneBlock(PadAs(ABC, 24));
    Rounds80();
    Summed();
    Bytes20();
  }
}
