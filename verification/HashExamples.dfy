/** The "abc" vectors of the hash self-tests, worked through by the definitions. */
module Sha1Example {
  import opened Octets
  import opened Numerals
  import opened Hash
  import opened Sha1

  const START: Regs := Regs(0x67452301, 0xEFCDAB89, 0x98BADCFE, 0x10325476, 0xC3D2E1F0)

  /** The padded message. */
  function Block(): (s: seq<byte>)
    ensures |s| == 64
  {
    [0x61, 0x62, 0x63, 0x80] + ZeroBytes(59) + [0x18]
  }

  // ------------------------------------------------------------ the schedule

  ghost predicate Word(t: nat, w: word) {
    Schedule(Block(), t) == w
  }

  lemma FirstWord(t: nat)
    requires t < 16
    ensures Word(t, if t == 0 then 0x61626380 else if t == 15 then 0x18 else 0)
  {
    var b := Block();
    assert b[4 * t] == (if t == 0 then 0x61 else 0) && b[4 * t + 1] == (if t == 0 then 0x62 else 0);
    assert b[4 * t + 2] == (if t == 0 then 0x63 else 0) && b[4 * t + 3] == if t == 0 then 0x80 else if t == 15 then 0x18 else 0;
    hide Block;
    SmallWords();
    hide Joined;
  }

  lemma SmallWords()
    ensures Joined(0x61, 0x62, 0x63, 0x80) == 0x61626380 && Joined(0, 0, 0, 0x18) == 0x18 && Joined(0, 0, 0, 0) == 0
  {}

  function Turned(m: word): word {
    m.RotateLeft(1)
  }

  lemma NextWord(t: nat, w3: word, w8: word, w14: word, w16: word, w: word)
    requires t >= 16 && Word(t - 3, w3) && Word(t - 8, w8) && Word(t - 14, w14) && Word(t - 16, w16)
    requires Turned(Mix(w3, w8, w14, w16)) == w
    ensures Word(t, w)
  {
    hide Mix, Block;
  }

  lemma Words15()
    ensures Word(0, 0x61626380) && Word(1, 0x00000000) && Word(2, 0x00000000) && Word(3, 0x00000000)
    ensures Word(4, 0x00000000) && Word(5, 0x00000000) && Word(6, 0x00000000) && Word(7, 0x00000000)
    ensures Word(8, 0x00000000) && Word(9, 0x00000000) && Word(10, 0x00000000) && Word(11, 0x00000000)
    ensures Word(12, 0x00000000) && Word(13, 0x00000000) && Word(14, 0x00000000) && Word(15, 0x00000018)
  {
    hide Word;
    FirstWord(0); FirstWord(1); FirstWord(2); FirstWord(3);
    FirstWord(4); FirstWord(5); FirstWord(6); FirstWord(7);
    FirstWord(8); FirstWord(9); FirstWord(10); FirstWord(11);
    FirstWord(12); FirstWord(13); FirstWord(14); FirstWord(15);
  }

  lemma Words31()
    ensures Word(16, 0xC2C4C700) && Word(17, 0x00000000) && Word(18, 0x00000030) && Word(19, 0x85898E01)
    ensures Word(20, 0x00000000) && Word(21, 0x00000060) && Word(22, 0x0B131C03) && Word(23, 0x00000030)
    ensures Word(24, 0x85898EC1) && Word(25, 0x16263806) && Word(26, 0x00000000) && Word(27, 0x00000180)
    ensures Word(28, 0x2C4C700C) && Word(29, 0x000000F0) && Word(30, 0x93AFB507) && Word(31, 0x5898E048)
  {
    hide Word;
    Words15();
    NextWord(16, 0x00000000, 0x00000000, 0x00000000, 0x61626380, 0xC2C4C700);
    NextWord(17, 0x00000000, 0x00000000, 0x00000000, 0x00000000, 0x00000000);
    NextWord(18, 0x00000018, 0x00000000, 0x00000000, 0x00000000, 0x00000030);
    NextWord(19, 0xC2C4C700, 0x00000000, 0x00000000, 0x00000000, 0x85898E01);
    NextWord(20, 0x00000000, 0x00000000, 0x00000000, 0x00000000, 0x00000000);
    NextWord(21, 0x00000030, 0x00000000, 0x00000000, 0x00000000, 0x00000060);
    NextWord(22, 0x85898E01, 0x00000000, 0x00000000, 0x00000000, 0x0B131C03);
    NextWord(23, 0x00000000, 0x00000018, 0x00000000, 0x00000000, 0x00000030);
    NextWord(24, 0x00000060, 0xC2C4C700, 0x00000000, 0x00000000, 0x85898EC1);
    NextWord(25, 0x0B131C03, 0x00000000, 0x00000000, 0x00000000, 0x16263806);
    NextWord(26, 0x00000030, 0x00000030, 0x00000000, 0x00000000, 0x00000000);
    NextWord(27, 0x85898EC1, 0x85898E01, 0x00000000, 0x00000000, 0x00000180);
    NextWord(28, 0x16263806, 0x00000000, 0x00000000, 0x00000000, 0x2C4C700C);
    NextWord(29, 0x00000000, 0x00000060, 0x00000018, 0x00000000, 0x000000F0);
    NextWord(30, 0x00000180, 0x0B131C03, 0xC2C4C700, 0x00000000, 0x93AFB507);
    NextWord(31, 0x2C4C700C, 0x00000030, 0x00000000, 0x00000018, 0x5898E048);
  }

  lemma Words47()
    ensures Word(32, 0x8E9A9202) && Word(33, 0x00000600) && Word(34, 0xB131C0F0) && Word(35, 0x16263BC6)
    ensures Word(36, 0x4EBED41E) && Word(37, 0x626380A1) && Word(38, 0x16263806) && Word(39, 0x000018C0)
    ensures Word(40, 0xD2E138C4) && Word(41, 0x00000F00) && Word(42, 0x3AFB5079) && Word(43, 0x898E04E5)
    ensures Word(44, 0xE2BA3C2B) && Word(45, 0x000060C0) && Word(46, 0x053A37CD) && Word(47, 0x74458547)
  {
    hide Word;
    Words31();
    NextWord(32, 0x000000F0, 0x85898EC1, 0x00000030, 0xC2C4C700, 0x8E9A9202);
    NextWord(33, 0x93AFB507, 0x16263806, 0x85898E01, 0x00000000, 0x00000600);
    NextWord(34, 0x5898E048, 0x00000000, 0x00000000, 0x00000030, 0xB131C0F0);
    NextWord(35, 0x8E9A9202, 0x00000180, 0x00000060, 0x85898E01, 0x16263BC6);
    NextWord(36, 0x00000600, 0x2C4C700C, 0x0B131C03, 0x00000000, 0x4EBED41E);
    NextWord(37, 0xB131C0F0, 0x000000F0, 0x00000030, 0x00000060, 0x626380A1);
    NextWord(38, 0x16263BC6, 0x93AFB507, 0x85898EC1, 0x0B131C03, 0x16263806);
    NextWord(39, 0x4EBED41E, 0x5898E048, 0x16263806, 0x00000030, 0x000018C0);
    NextWord(40, 0x626380A1, 0x8E9A9202, 0x00000000, 0x85898EC1, 0xD2E138C4);
    NextWord(41, 0x16263806, 0x00000600, 0x00000180, 0x16263806, 0x00000F00);
    NextWord(42, 0x000018C0, 0xB131C0F0, 0x2C4C700C, 0x00000000, 0x3AFB5079);
    NextWord(43, 0xD2E138C4, 0x16263BC6, 0x000000F0, 0x00000180, 0x898E04E5);
    NextWord(44, 0x00000F00, 0x4EBED41E, 0x93AFB507, 0x2C4C700C, 0xE2BA3C2B);
    NextWord(45, 0x3AFB5079, 0x626380A1, 0x5898E048, 0x000000F0, 0x000060C0);
    NextWord(46, 0x898E04E5, 0x16263806, 0x8E9A9202, 0x93AFB507, 0x053A37CD);
    NextWord(47, 0xE2BA3C2B, 0x000018C0, 0x00000600, 0x5898E048, 0x74458547);
  }

  lemma Words63()
    ensures Word(48, 0xDA9415ED) && Word(49, 0x26380A16) && Word(50, 0x626383A1) && Word(51, 0x4EBF54DE)
    ensures Word(52, 0x3835B44B) && Word(53, 0x0000F600) && Word(54, 0x1E84C7A3) && Word(55, 0x98E04D98)
    ensures Word(56, 0x651D16A0) && Word(57, 0x62658CA1) && Word(58, 0x458544D6) && Word(59, 0x44584CB7)
    ensures Word(60, 0x7BA06619) && Word(61, 0x6380AEA2) && Word(62, 0x0AE55269) && Word(63, 0x627B49A1)
  {
    hide Word;
    Words47();
    NextWord(48, 0x000060C0, 0xD2E138C4, 0xB131C0F0, 0x8E9A9202, 0xDA9415ED);
    NextWord(49, 0x053A37CD, 0x00000F00, 0x16263BC6, 0x00000600, 0x26380A16);
    NextWord(50, 0x74458547, 0x3AFB5079, 0x4EBED41E, 0xB131C0F0, 0x626383A1);
    NextWord(51, 0xDA9415ED, 0x898E04E5, 0x626380A1, 0x16263BC6, 0x4EBF54DE);
    NextWord(52, 0x26380A16, 0xE2BA3C2B, 0x16263806, 0x4EBED41E, 0x3835B44B);
    NextWord(53, 0x626383A1, 0x000060C0, 0x000018C0, 0x626380A1, 0x0000F600);
    NextWord(54, 0x4EBF54DE, 0x053A37CD, 0xD2E138C4, 0x16263806, 0x1E84C7A3);
    NextWord(55, 0x3835B44B, 0x74458547, 0x00000F00, 0x000018C0, 0x98E04D98);
    NextWord(56, 0x0000F600, 0xDA9415ED, 0x3AFB5079, 0xD2E138C4, 0x651D16A0);
    NextWord(57, 0x1E84C7A3, 0x26380A16, 0x898E04E5, 0x00000F00, 0x62658CA1);
    NextWord(58, 0x98E04D98, 0x626383A1, 0xE2BA3C2B, 0x3AFB5079, 0x458544D6);
    NextWord(59, 0x651D16A0, 0x4EBF54DE, 0x000060C0, 0x898E04E5, 0x44584CB7);
    NextWord(60, 0x62658CA1, 0x3835B44B, 0x053A37CD, 0xE2BA3C2B, 0x7BA06619);
    NextWord(61, 0x458544D6, 0x0000F600, 0x74458547, 0x000060C0, 0x6380AEA2);
    NextWord(62, 0x44584CB7, 0x1E84C7A3, 0xDA9415ED, 0x053A37CD, 0x0AE55269);
    NextWord(63, 0x7BA06619, 0x98E04D98, 0x26380A16, 0x74458547, 0x627B49A1);
  }

  lemma Words79()
    ensures Word(64, 0x7CD45C9D) && Word(65, 0x000F0000) && Word(66, 0xFB50753A) && Word(67, 0xEC6765E8)
    ensures Word(68, 0xBA3C2BE2) && Word(69, 0x0060C000) && Word(70, 0x3A37CD05) && Word(71, 0x458546F4)
    ensures Word(72, 0xB8599DD6) && Word(73, 0x380A1A26) && Word(74, 0x01E02203) && Word(75, 0xE7CC3456)
    ensures Word(76, 0xE6E60B69) && Word(77, 0x00F60A00) && Word(78, 0x5795EF4F) && Word(79, 0x822E0879)
  {
    hide Word;
    Words63();
    NextWord(64, 0x6380AEA2, 0x651D16A0, 0x626383A1, 0xDA9415ED, 0x7CD45C9D);
    NextWord(65, 0x0AE55269, 0x62658CA1, 0x4EBF54DE, 0x26380A16, 0x000F0000);
    NextWord(66, 0x627B49A1, 0x458544D6, 0x3835B44B, 0x626383A1, 0xFB50753A);
    NextWord(67, 0x7CD45C9D, 0x44584CB7, 0x0000F600, 0x4EBF54DE, 0xEC6765E8);
    NextWord(68, 0x000F0000, 0x7BA06619, 0x1E84C7A3, 0x3835B44B, 0xBA3C2BE2);
    NextWord(69, 0xFB50753A, 0x6380AEA2, 0x98E04D98, 0x0000F600, 0x0060C000);
    NextWord(70, 0xEC6765E8, 0x0AE55269, 0x651D16A0, 0x1E84C7A3, 0x3A37CD05);
    NextWord(71, 0xBA3C2BE2, 0x627B49A1, 0x62658CA1, 0x98E04D98, 0x458546F4);
    NextWord(72, 0x0060C000, 0x7CD45C9D, 0x458544D6, 0x651D16A0, 0xB8599DD6);
    NextWord(73, 0x3A37CD05, 0x000F0000, 0x44584CB7, 0x62658CA1, 0x380A1A26);
    NextWord(74, 0x458546F4, 0xFB50753A, 0x7BA06619, 0x458544D6, 0x01E02203);
    NextWord(75, 0xB8599DD6, 0xEC6765E8, 0x6380AEA2, 0x44584CB7, 0xE7CC3456);
    NextWord(76, 0x380A1A26, 0xBA3C2BE2, 0x0AE55269, 0x7BA06619, 0xE6E60B69);
    NextWord(77, 0x01E02203, 0x0060C000, 0x627B49A1, 0x6380AEA2, 0x00F60A00);
    NextWord(78, 0xE7CC3456, 0x3A37CD05, 0x7CD45C9D, 0x0AE55269, 0x5795EF4F);
    NextWord(79, 0xE6E60B69, 0x458546F4, 0x000F0000, 0x627B49A1, 0x822E0879);
  }

  // --------------------------------------------------------------- the rounds

  ghost predicate At(t: nat, a: word, b: word, c: word, d: word, e: word) {
    Rounds(START, Block(), t) == Regs(a, b, c, d, e)
  }

  lemma NextRound(t: nat, a: word, b: word, c: word, d: word, e: word, w: word, x: word, b': word)
    requires At(t, a, b, c, d, e) && Word(t, w)
    requires Sum(RotL(a, 5), F(t, b, c, d), e, K(t), w) == x && RotL(b, 30) == b'
    ensures At(t + 1, x, a, b', c, d)
  {
    hide RotL, F, Sum, K, Schedule, Block;
  }

  lemma After20()
    ensures At(20, 0xFD9E1D7D, 0xDC64901D, 0x20AA99CA, 0xD3A49608, 0xC82F758B)
  {
    hide Word, Rounds, Block;
    RoundsStart(START, Block());
    assert At(0, 0x67452301, 0xEFCDAB89, 0x98BADCFE, 0x10325476, 0xC3D2E1F0);
    hide At;
    Words15();
    Words31();
    NextRound(0, 0x67452301, 0xEFCDAB89, 0x98BADCFE, 0x10325476, 0xC3D2E1F0, 0x61626380, 0x0116FC33, 0x7BF36AE2);
    NextRound(1, 0x0116FC33, 0x67452301, 0x7BF36AE2, 0x98BADCFE, 0x10325476, 0x00000000, 0x8990536D, 0x59D148C0);
    NextRound(2, 0x8990536D, 0x0116FC33, 0x59D148C0, 0x7BF36AE2, 0x98BADCFE, 0x00000000, 0xA1390F08, 0xC045BF0C);
    NextRound(3, 0xA1390F08, 0x8990536D, 0xC045BF0C, 0x59D148C0, 0x7BF36AE2, 0x00000000, 0xCDD8E11B, 0x626414DB);
    NextRound(4, 0xCDD8E11B, 0xA1390F08, 0x626414DB, 0xC045BF0C, 0x59D148C0, 0x00000000, 0xCFD499DE, 0x284E43C2);
    NextRound(5, 0xCFD499DE, 0xCDD8E11B, 0x284E43C2, 0x626414DB, 0xC045BF0C, 0x00000000, 0x3FC7CA40, 0xF3763846);
    NextRound(6, 0x3FC7CA40, 0xCFD499DE, 0xF3763846, 0x284E43C2, 0x626414DB, 0x00000000, 0x993E30C1, 0xB3F52677);
    NextRound(7, 0x993E30C1, 0x3FC7CA40, 0xB3F52677, 0xF3763846, 0x284E43C2, 0x00000000, 0x9E8C07D4, 0x0FF1F290);
    NextRound(8, 0x9E8C07D4, 0x993E30C1, 0x0FF1F290, 0xB3F52677, 0xF3763846, 0x00000000, 0x4B6AE328, 0x664F8C30);
    NextRound(9, 0x4B6AE328, 0x9E8C07D4, 0x664F8C30, 0x0FF1F290, 0xB3F52677, 0x00000000, 0x8351F929, 0x27A301F5);
    NextRound(10, 0x8351F929, 0x4B6AE328, 0x27A301F5, 0x664F8C30, 0x0FF1F290, 0x00000000, 0xFBDA9E89, 0x12DAB8CA);
    NextRound(11, 0xFBDA9E89, 0x8351F929, 0x12DAB8CA, 0x27A301F5, 0x664F8C30, 0x00000000, 0x63188FE4, 0x60D47E4A);
    NextRound(12, 0x63188FE4, 0xFBDA9E89, 0x60D47E4A, 0x12DAB8CA, 0x27A301F5, 0x00000000, 0x4607B664, 0x7EF6A7A2);
    NextRound(13, 0x4607B664, 0x63188FE4, 0x7EF6A7A2, 0x60D47E4A, 0x12DAB8CA, 0x00000000, 0x9128F695, 0x18C623F9);
    NextRound(14, 0x9128F695, 0x4607B664, 0x18C623F9, 0x7EF6A7A2, 0x60D47E4A, 0x00000000, 0x196BEE77, 0x1181ED99);
    NextRound(15, 0x196BEE77, 0x9128F695, 0x1181ED99, 0x18C623F9, 0x7EF6A7A2, 0x00000018, 0x20BDD62F, 0x644A3DA5);
    NextRound(16, 0x20BDD62F, 0x196BEE77, 0x644A3DA5, 0x1181ED99, 0x18C623F9, 0xC2C4C700, 0x4E925823, 0xC65AFB9D);
    NextRound(17, 0x4E925823, 0x20BDD62F, 0xC65AFB9D, 0x644A3DA5, 0x1181ED99, 0x00000000, 0x82AA6728, 0xC82F758B);
    NextRound(18, 0x82AA6728, 0x4E925823, 0xC82F758B, 0xC65AFB9D, 0x644A3DA5, 0x00000030, 0xDC64901D, 0xD3A49608);
    NextRound(19, 0xDC64901D, 0x82AA6728, 0xD3A49608, 0xC82F758B, 0xC65AFB9D, 0x85898E01, 0xFD9E1D7D, 0x20AA99CA);
  }

  lemma After40()
    ensures At(40, 0x32DE1CBA, 0x4C986405, 0xF718E5CF, 0x03D447F6, 0xF72EEC32)
  {
    hide Word, At;
    After20();
    Words31();
    Words47();
    NextRound(20, 0xFD9E1D7D, 0xDC64901D, 0x20AA99CA, 0xD3A49608, 0xC82F758B, 0x00000000, 0x1A37B0CA, 0x77192407);
    NextRound(21, 0x1A37B0CA, 0xFD9E1D7D, 0x77192407, 0x20AA99CA, 0xD3A49608, 0x00000060, 0x33A23BFC, 0x7F67875F);
    NextRound(22, 0x33A23BFC, 0x1A37B0CA, 0x7F67875F, 0x77192407, 0x20AA99CA, 0x0B131C03, 0x21283486, 0x868DEC32);
    NextRound(23, 0x21283486, 0x33A23BFC, 0x868DEC32, 0x7F67875F, 0x77192407, 0x00000030, 0xD541F12D, 0x0CE88EFF);
    NextRound(24, 0xD541F12D, 0x21283486, 0x0CE88EFF, 0x868DEC32, 0x7F67875F, 0x85898EC1, 0xC7567DC6, 0x884A0D21);
    NextRound(25, 0xC7567DC6, 0xD541F12D, 0x884A0D21, 0x0CE88EFF, 0x868DEC32, 0x16263806, 0x48413BA4, 0x75507C4B);
    NextRound(26, 0x48413BA4, 0xC7567DC6, 0x75507C4B, 0x884A0D21, 0x0CE88EFF, 0x00000000, 0xBE35FBD5, 0xB1D59F71);
    NextRound(27, 0xBE35FBD5, 0x48413BA4, 0xB1D59F71, 0x75507C4B, 0x884A0D21, 0x00000180, 0x4AA84D97, 0x12104EE9);
    NextRound(28, 0x4AA84D97, 0xBE35FBD5, 0x12104EE9, 0xB1D59F71, 0x75507C4B, 0x2C4C700C, 0x8370B52E, 0x6F8D7EF5);
    NextRound(29, 0x8370B52E, 0x4AA84D97, 0x6F8D7EF5, 0x12104EE9, 0xB1D59F71, 0x000000F0, 0xC5FBAF5D, 0xD2AA1365);
    NextRound(30, 0xC5FBAF5D, 0x8370B52E, 0xD2AA1365, 0x6F8D7EF5, 0x12104EE9, 0x93AFB507, 0x1267B407, 0xA0DC2D4B);
    NextRound(31, 0x1267B407, 0xC5FBAF5D, 0xA0DC2D4B, 0xD2AA1365, 0x6F8D7EF5, 0x5898E048, 0x3B845D33, 0x717EEBD7);
    NextRound(32, 0x3B845D33, 0x1267B407, 0x717EEBD7, 0xA0DC2D4B, 0xD2AA1365, 0x8E9A9202, 0x046FAA0A, 0xC499ED01);
    NextRound(33, 0x046FAA0A, 0x3B845D33, 0xC499ED01, 0x717EEBD7, 0xA0DC2D4B, 0x00000600, 0x2C0EBC11, 0xCEE1174C);
    NextRound(34, 0x2C0EBC11, 0x046FAA0A, 0xCEE1174C, 0xC499ED01, 0x717EEBD7, 0xB131C0F0, 0x21796AD4, 0x811BEA82);
    NextRound(35, 0x21796AD4, 0x2C0EBC11, 0x811BEA82, 0xCEE1174C, 0xC499ED01, 0x16263BC6, 0xDCBBB0CB, 0x4B03AF04);
    NextRound(36, 0xDCBBB0CB, 0x21796AD4, 0x4B03AF04, 0x811BEA82, 0xCEE1174C, 0x4EBED41E, 0x0F511FD8, 0x085E5AB5);
    NextRound(37, 0x0F511FD8, 0xDCBBB0CB, 0x085E5AB5, 0x4B03AF04, 0x811BEA82, 0x626380A1, 0xDC63973F, 0xF72EEC32);
    NextRound(38, 0xDC63973F, 0x0F511FD8, 0xF72EEC32, 0x085E5AB5, 0x4B03AF04, 0x16263806, 0x4C986405, 0x03D447F6);
    NextRound(39, 0x4C986405, 0xDC63973F, 0x03D447F6, 0xF72EEC32, 0x085E5AB5, 0x000018C0, 0x32DE1CBA, 0xF718E5CF);
  }

  lemma After60()
    ensures At(60, 0x3F52DE5A, 0x09D785FD, 0x3498BFD4, 0xF211824F, 0xD79915AB)
  {
    hide Word, At;
    After40();
    Words47();
    Words63();
    NextRound(40, 0x32DE1CBA, 0x4C986405, 0xF718E5CF, 0x03D447F6, 0xF72EEC32, 0xD2E138C4, 0xFC87DEDF, 0x53261901);
    NextRound(41, 0xFC87DEDF, 0x32DE1CBA, 0x53261901, 0xF718E5CF, 0x03D447F6, 0x00000F00, 0x970A0D5C, 0x8CB7872E);
    NextRound(42, 0x970A0D5C, 0xFC87DEDF, 0x8CB7872E, 0x53261901, 0xF718E5CF, 0x3AFB5079, 0x7F193DC5, 0xFF21F7B7);
    NextRound(43, 0x7F193DC5, 0x970A0D5C, 0xFF21F7B7, 0x8CB7872E, 0x53261901, 0x898E04E5, 0xEE1B1AAF, 0x25C28357);
    NextRound(44, 0xEE1B1AAF, 0x7F193DC5, 0x25C28357, 0xFF21F7B7, 0x8CB7872E, 0xE2BA3C2B, 0x40F28E09, 0x5FC64F71);
    NextRound(45, 0x40F28E09, 0xEE1B1AAF, 0x5FC64F71, 0x25C28357, 0xFF21F7B7, 0x000060C0, 0x1C51E1F2, 0xFB86C6AB);
    NextRound(46, 0x1C51E1F2, 0x40F28E09, 0xFB86C6AB, 0x5FC64F71, 0x25C28357, 0x053A37CD, 0xA01B846C, 0x503CA382);
    NextRound(47, 0xA01B846C, 0x1C51E1F2, 0x503CA382, 0xFB86C6AB, 0x5FC64F71, 0x74458547, 0xBEAD02CA, 0x8714787C);
    NextRound(48, 0xBEAD02CA, 0xA01B846C, 0x8714787C, 0x503CA382, 0xFB86C6AB, 0xDA9415ED, 0xBAF39337, 0x2806E11B);
    NextRound(49, 0xBAF39337, 0xBEAD02CA, 0x2806E11B, 0x8714787C, 0x503CA382, 0x26380A16, 0x120731C5, 0xAFAB40B2);
    NextRound(50, 0x120731C5, 0xBAF39337, 0xAFAB40B2, 0x2806E11B, 0x8714787C, 0x626383A1, 0x641DB2CE, 0xEEBCE4CD);
    NextRound(51, 0x641DB2CE, 0x120731C5, 0xEEBCE4CD, 0xAFAB40B2, 0x2806E11B, 0x4EBF54DE, 0x3847AD66, 0x4481CC71);
    NextRound(52, 0x3847AD66, 0x641DB2CE, 0x4481CC71, 0xEEBCE4CD, 0xAFAB40B2, 0x3835B44B, 0xE490436D, 0x99076CB3);
    NextRound(53, 0xE490436D, 0x3847AD66, 0x99076CB3, 0x4481CC71, 0xEEBCE4CD, 0x0000F600, 0x27E9F1D8, 0x8E11EB59);
    NextRound(54, 0x27E9F1D8, 0xE490436D, 0x8E11EB59, 0x99076CB3, 0x4481CC71, 0x1E84C7A3, 0x7B71F76D, 0x792410DB);
    NextRound(55, 0x7B71F76D, 0x27E9F1D8, 0x792410DB, 0x8E11EB59, 0x99076CB3, 0x98E04D98, 0x5E6456AF, 0x09FA7C76);
    NextRound(56, 0x5E6456AF, 0x7B71F76D, 0x09FA7C76, 0x792410DB, 0x8E11EB59, 0x651D16A0, 0xC846093F, 0x5EDC7DDB);
    NextRound(57, 0xC846093F, 0x5E6456AF, 0x5EDC7DDB, 0x09FA7C76, 0x792410DB, 0x62658CA1, 0xD262FF50, 0xD79915AB);
    NextRound(58, 0xD262FF50, 0xC846093F, 0xD79915AB, 0x5EDC7DDB, 0x09FA7C76, 0x458544D6, 0x09D785FD, 0xF211824F);
    NextRound(59, 0x09D785FD, 0xD262FF50, 0xF211824F, 0xD79915AB, 0x5EDC7DDB, 0x44584CB7, 0x3F52DE5A, 0x3498BFD4);
  }

  lemma After80()
    ensures At(80, 0x42541B35, 0x5738D5E1, 0x21834873, 0x681E6DF6, 0xD8FDF6AD)
  {
    hide Word, At;
    After60();
    Words63();
    Words79();
    NextRound(60, 0x3F52DE5A, 0x09D785FD, 0x3498BFD4, 0xF211824F, 0xD79915AB, 0x7BA06619, 0xD756C147, 0x4275E17F);
    NextRound(61, 0xD756C147, 0x3F52DE5A, 0x4275E17F, 0x3498BFD4, 0xF211824F, 0x6380AEA2, 0x548C9CB2, 0x8FD4B796);
    NextRound(62, 0x548C9CB2, 0xD756C147, 0x8FD4B796, 0x4275E17F, 0x3498BFD4, 0x0AE55269, 0xB66C020B, 0xF5D5B051);
    NextRound(63, 0xB66C020B, 0x548C9CB2, 0xF5D5B051, 0x8FD4B796, 0x4275E17F, 0x627B49A1, 0x6B61C9E1, 0x9523272C);
    NextRound(64, 0x6B61C9E1, 0xB66C020B, 0x9523272C, 0xF5D5B051, 0x8FD4B796, 0x7CD45C9D, 0x19DFA7AC, 0xED9B0082);
    NextRound(65, 0x19DFA7AC, 0x6B61C9E1, 0xED9B0082, 0x9523272C, 0xF5D5B051, 0x000F0000, 0x101655F9, 0x5AD87278);
    NextRound(66, 0x101655F9, 0x19DFA7AC, 0x5AD87278, 0xED9B0082, 0x9523272C, 0xFB50753A, 0x0C3DF2B4, 0x0677E9EB);
    NextRound(67, 0x0C3DF2B4, 0x101655F9, 0x0677E9EB, 0x5AD87278, 0xED9B0082, 0xEC6765E8, 0x78DD4D2B, 0x4405957E);
    NextRound(68, 0x78DD4D2B, 0x0C3DF2B4, 0x4405957E, 0x0677E9EB, 0x5AD87278, 0xBA3C2BE2, 0x497093C0, 0x030F7CAD);
    NextRound(69, 0x497093C0, 0x78DD4D2B, 0x030F7CAD, 0x4405957E, 0x0677E9EB, 0x0060C000, 0x3F2588C2, 0xDE37534A);
    NextRound(70, 0x3F2588C2, 0x497093C0, 0xDE37534A, 0x030F7CAD, 0x4405957E, 0x3A37CD05, 0xC199F8C7, 0x125C24F0);
    NextRound(71, 0xC199F8C7, 0x3F2588C2, 0x125C24F0, 0xDE37534A, 0x030F7CAD, 0x458546F4, 0x39859DE7, 0x8FC96230);
    NextRound(72, 0x39859DE7, 0xC199F8C7, 0x8FC96230, 0x125C24F0, 0xDE37534A, 0xB8599DD6, 0xEDB42DE4, 0xF0667E31);
    NextRound(73, 0xEDB42DE4, 0x39859DE7, 0xF0667E31, 0x8FC96230, 0x125C24F0, 0x380A1A26, 0x11793F6F, 0xCE616779);
    NextRound(74, 0x11793F6F, 0xEDB42DE4, 0xCE616779, 0xF0667E31, 0x8FC96230, 0x01E02203, 0x5EE76897, 0x3B6D0B79);
    NextRound(75, 0x5EE76897, 0x11793F6F, 0x3B6D0B79, 0xCE616779, 0xF0667E31, 0xE7CC3456, 0x63F7DAB7, 0xC45E4FDB);
    NextRound(76, 0x63F7DAB7, 0x5EE76897, 0xC45E4FDB, 0x3B6D0B79, 0xCE616779, 0xE6E60B69, 0xA079B7D9, 0xD7B9DA25);
    NextRound(77, 0xA079B7D9, 0x63F7DAB7, 0xD7B9DA25, 0xC45E4FDB, 0x3B6D0B79, 0x00F60A00, 0x860D21CC, 0xD8FDF6AD);
    NextRound(78, 0x860D21CC, 0xA079B7D9, 0xD8FDF6AD, 0xD7B9DA25, 0xC45E4FDB, 0x5795EF4F, 0x5738D5E1, 0x681E6DF6);
    NextRound(79, 0x5738D5E1, 0x860D21CC, 0x681E6DF6, 0xD8FDF6AD, 0xD7B9DA25, 0x822E0879, 0x42541B35, 0x21834873);
  }

  lemma Padded()
    ensures StandardPad(SHA1, [0x61, 0x62, 0x63]) == Block()
  {
    var s: seq<byte> := [0x61, 0x62, 0x63];
    assert LongBytes(24, true) == [0, 0, 0, 0, 0, 0, 0, 0x18];
    assert ZeroBytes(59) == ZeroBytes(52) + [0, 0, 0, 0, 0, 0, 0];
    hide LongBytes;
  }

  lemma Fed()
    ensures Compress(SHA1.init, Block()) == [0xA9993E36, 0x4706816A, 0xBA3E2571, 0x7850C26C, 0x9CD0D89D]
  {
    hide Rounds, Block;
    After80();
  }

  lemma OneBlock(alg: Algorithm, b: seq<byte>)
    requires |b| == 64
    ensures Blocks(alg, alg.init, b) == alg.compress(alg.init, b)
  {
    assert b[..64] == b && b[64..] == [];
  }

  lemma Written(alg: Algorithm, s: seq<word>)
    requires |s| == 5
    ensures Output(alg, s) == WordOut(s[0], alg.bigEndian) + (WordOut(s[1], alg.bigEndian) + (WordOut(s[2], alg.bigEndian) + (WordOut(s[3], alg.bigEndian) + (WordOut(s[4], alg.bigEndian)))))
  {
    hide WordOut, Output;
    OutputEntries(alg, s, 0);
    OutputEntries(alg, s, 1);
    OutputEntries(alg, s, 2);
    OutputEntries(alg, s, 3);
    OutputEntries(alg, s, 4);
    var o := Output(alg, s);
    assert |o| == 4 * |s|;
    assert o == o[0..4] + (o[4..8] + (o[8..12] + (o[12..16] + (o[16..20]))));
  }

  lemma WordsOut()
    ensures WordOut(0xA9993E36, true) == [0xA9, 0x99, 0x3E, 0x36]
    ensures WordOut(0x4706816A, true) == [0x47, 0x06, 0x81, 0x6A]
    ensures WordOut(0xBA3E2571, true) == [0xBA, 0x3E, 0x25, 0x71]
    ensures WordOut(0x7850C26C, true) == [0x78, 0x50, 0xC2, 0x6C]
    ensures WordOut(0x9CD0D89D, true) == [0x9C, 0xD0, 0xD8, 0x9D]
  {}

  lemma DigestOfAbc()
    ensures Digest(SHA1, [0x61, 0x62, 0x63])
            == [0xA9, 0x99, 0x3E, 0x36, 0x47, 0x06, 0x81, 0x6A, 0xBA, 0x3E, 0x25, 0x71, 0x78, 0x50, 0xC2, 0x6C, 0x9C, 0xD0, 0xD8, 0x9D]
  {
    hide Block, StandardPad, Compress, Blocks, Output, WordOut;
    Padded();
    OneBlock(SHA1, Block());
    Fed();
    Written(SHA1, [0xA9993E36, 0x4706816A, 0xBA3E2571, 0x7850C26C, 0x9CD0D89D]);
    WordsOut();
  }
}

module Md5Example {
  import opened Octets
  import opened Numerals
  import opened Hash
  import opened Md5
  import opened SineTable

  const START: Regs := Regs(0x67452301, 0xEFCDAB89, 0x98BADCFE, 0x10325476)

  /** The padded message. */
  function Block(): (s: seq<byte>)
    ensures |s| == 64
  {
    [0x61, 0x62, 0x63, 0x80] + ZeroBytes(52) + [0x18, 0, 0, 0, 0, 0, 0, 0]
  }

  function WordAt(k: nat): word {
    if k == 0 then 0x80636261 else if k == 14 then 0x18 else 0
  }

  lemma BlockWord(k: nat)
    requires k < 16
    ensures GetWord(Block(), 4 * k) == WordAt(k)
  {
    var b := Block();
    assert b[4 * k] == (if k == 0 then 0x61 else if k == 14 then 0x18 else 0) && b[4 * k + 1] == if k == 0 then 0x62 else 0;
    assert b[4 * k + 2] == (if k == 0 then 0x63 else 0) && b[4 * k + 3] == if k == 0 then 0x80 else 0;
    hide Block;
    SmallWords();
    hide Joined;
  }

  lemma SmallWords()
    ensures Joined(0x80, 0x63, 0x62, 0x61) == 0x80636261 && Joined(0, 0, 0, 0x18) == 0x18 && Joined(0, 0, 0, 0) == 0
  {}

  ghost predicate At(t: nat, a: word, b: word, c: word, d: word) {
    t <= 64 && Rounds(START, Block(), t) == Regs(a, b, c, d)
  }

  lemma NextRound(t: nat, a: word, b: word, c: word, d: word, i: nat, w: word, k: word, s: nat, n: word)
    requires At(t, a, b, c, d) && HasEntry(t, k) && Index(t) == i && WordAt(i) == w && Shift(t) == s && s < 32
    requires Plus(b, RotL(Md5.Sum(a, F(t, b, c, d), w, k), s)) == n
    ensures At(t + 1, d, n, b, c)
  {
    hide Plus, RotL, F, Md5.Sum, Shift, Index, WordAt, T, Block;
    BlockWord(Index(t));
  }

  lemma After8()
    ensures At(8, 0xC73741EF, 0x928D99F6, 0x207DC67B, 0x8BAC3051)
  {
    hide HasEntry, Rounds, Block;
    RoundsStart(START, Block());
    assert At(0, 0x67452301, 0xEFCDAB89, 0x98BADCFE, 0x10325476);
    hide At;
    Listed7();
    NextRound(0, 0x67452301, 0xEFCDAB89, 0x98BADCFE, 0x10325476, 0, 0x80636261, 0xD76AA478, 7, 0xD6D117B4);
    NextRound(1, 0x10325476, 0xD6D117B4, 0xEFCDAB89, 0x98BADCFE, 1, 0x00000000, 0xE8C7B756, 12, 0x344A8432);
    NextRound(2, 0x98BADCFE, 0x344A8432, 0xD6D117B4, 0xEFCDAB89, 2, 0x00000000, 0x242070DB, 17, 0x2F6FBD72);
    NextRound(3, 0xEFCDAB89, 0x2F6FBD72, 0x344A8432, 0xD6D117B4, 3, 0x00000000, 0xC1BDCEEE, 22, 0x7AD956F2);
    NextRound(4, 0xD6D117B4, 0x7AD956F2, 0x2F6FBD72, 0x344A8432, 4, 0x00000000, 0xF57C0FAF, 7, 0xC73741EF);
    NextRound(5, 0x344A8432, 0xC73741EF, 0x7AD956F2, 0x2F6FBD72, 5, 0x00000000, 0x4787C62A, 12, 0x8BAC3051);
    NextRound(6, 0x2F6FBD72, 0x8BAC3051, 0xC73741EF, 0x7AD956F2, 6, 0x00000000, 0xA8304613, 17, 0x207DC67B);
    NextRound(7, 0x7AD956F2, 0x207DC67B, 0x8BAC3051, 0xC73741EF, 7, 0x00000000, 0xFD469501, 22, 0x928D99F6);
  }

  lemma After16()
    ensures At(16, 0xDDA9B9A6, 0x72AFF2E0, 0xE396856B, 0xA1051895)
  {
    hide HasEntry, At;
    After8();
    Listed15();
    NextRound(8, 0xC73741EF, 0x928D99F6, 0x207DC67B, 0x8BAC3051, 8, 0x00000000, 0x698098D8, 7, 0x854B3712);
    NextRound(9, 0x8BAC3051, 0x854B3712, 0x928D99F6, 0x207DC67B, 9, 0x00000000, 0x8B44F7AF, 12, 0x74E2F284);
    NextRound(10, 0x207DC67B, 0x74E2F284, 0x854B3712, 0x928D99F6, 10, 0x00000000, 0xFFFF5BB1, 17, 0x3020401C);
    NextRound(11, 0x928D99F6, 0x3020401C, 0x74E2F284, 0x854B3712, 11, 0x00000000, 0x895CD7BE, 22, 0x5ED49596);
    NextRound(12, 0x854B3712, 0x5ED49596, 0x3020401C, 0x74E2F284, 12, 0x00000000, 0x6B901122, 7, 0xDDA9B9A6);
    NextRound(13, 0x74E2F284, 0xDDA9B9A6, 0x5ED49596, 0x3020401C, 13, 0x00000000, 0xFD987193, 12, 0xA1051895);
    NextRound(14, 0x3020401C, 0xA1051895, 0xDDA9B9A6, 0x5ED49596, 14, 0x00000018, 0xA679438E, 17, 0xE396856B);
    NextRound(15, 0x5ED49596, 0xE396856B, 0xA1051895, 0xDDA9B9A6, 15, 0x00000000, 0x49B40821, 22, 0x72AFF2E0);
  }

  lemma After24()
    ensures At(24, 0x59A8FFDA, 0x47092C07, 0xABFC7920, 0x6D002F1E)
  {
    hide HasEntry, At;
    After16();
    Listed23();
    NextRound(16, 0xDDA9B9A6, 0x72AFF2E0, 0xE396856B, 0xA1051895, 1, 0x00000000, 0xF61E2562, 5, 0x3E9E9126);
    NextRound(17, 0xA1051895, 0x3E9E9126, 0x72AFF2E0, 0xE396856B, 6, 0x00000000, 0xC040B340, 9, 0x4A1D804E);
    NextRound(18, 0xE396856B, 0x4A1D804E, 0x3E9E9126, 0x72AFF2E0, 11, 0x00000000, 0x265E5A51, 14, 0xE25E1652);
    NextRound(19, 0x72AFF2E0, 0xE25E1652, 0x4A1D804E, 0x3E9E9126, 0, 0x80636261, 0xE9B6C7AA, 20, 0xB5B204E4);
    NextRound(20, 0x3E9E9126, 0xB5B204E4, 0xE25E1652, 0x4A1D804E, 5, 0x00000000, 0xD62F105D, 5, 0x59A8FFDA);
    NextRound(21, 0x4A1D804E, 0x59A8FFDA, 0xB5B204E4, 0xE25E1652, 10, 0x00000000, 0x02441453, 9, 0x6D002F1E);
    NextRound(22, 0xE25E1652, 0x6D002F1E, 0x59A8FFDA, 0xB5B204E4, 15, 0x00000000, 0xD8A1E681, 14, 0xABFC7920);
    NextRound(23, 0xB5B204E4, 0xABFC7920, 0x6D002F1E, 0x59A8FFDA, 4, 0x00000000, 0xE7D3FBC8, 20, 0x47092C07);
  }

  lemma After32()
    ensures At(32, 0x790A77FB, 0x726342D3, 0xA62884AA, 0x9F47E4F8)
  {
    hide HasEntry, At;
    After24();
    Listed31();
    NextRound(24, 0x59A8FFDA, 0x47092C07, 0xABFC7920, 0x6D002F1E, 9, 0x00000000, 0x21E1CDE6, 5, 0xB7F268CF);
    NextRound(25, 0x6D002F1E, 0xB7F268CF, 0x47092C07, 0xABFC7920, 14, 0x00000018, 0xC33707D6, 9, 0x09388EFF);
    NextRound(26, 0xABFC7920, 0x09388EFF, 0xB7F268CF, 0x47092C07, 3, 0x00000000, 0xF4D50D87, 14, 0xFE1623B1);
    NextRound(27, 0x47092C07, 0xFE1623B1, 0x09388EFF, 0xB7F268CF, 8, 0x00000000, 0x455A14ED, 20, 0x786ACB8F);
    NextRound(28, 0xB7F268CF, 0x786ACB8F, 0xFE1623B1, 0x09388EFF, 13, 0x00000000, 0xA9E3E905, 5, 0x790A77FB);
    NextRound(29, 0x09388EFF, 0x790A77FB, 0x786ACB8F, 0xFE1623B1, 2, 0x00000000, 0xFCEFA3F8, 9, 0x9F47E4F8);
    NextRound(30, 0xFE1623B1, 0x9F47E4F8, 0x790A77FB, 0x786ACB8F, 7, 0x00000000, 0x676F02D9, 14, 0xA62884AA);
    NextRound(31, 0x786ACB8F, 0xA62884AA, 0x9F47E4F8, 0x790A77FB, 12, 0x00000000, 0x8D2A4C8A, 20, 0x726342D3);
  }

  lemma After40()
    ensures At(40, 0x21B117B9, 0x5A2F5EA5, 0x3575227E, 0x6E7429D5)
  {
    hide HasEntry, At;
    After32();
    Listed39();
    NextRound(32, 0x790A77FB, 0x726342D3, 0xA62884AA, 0x9F47E4F8, 5, 0x00000000, 0xFFFA3942, 4, 0xB3707EBF);
    NextRound(33, 0x9F47E4F8, 0xB3707EBF, 0x726342D3, 0xA62884AA, 8, 0x00000000, 0x8771F681, 11, 0x60127B2E);
    NextRound(34, 0xA62884AA, 0x60127B2E, 0xB3707EBF, 0x726342D3, 11, 0x00000000, 0x6D9D6122, 16, 0x8D212FF5);
    NextRound(35, 0x726342D3, 0x8D212FF5, 0x60127B2E, 0xB3707EBF, 14, 0x00000018, 0xFDE5380C, 23, 0x3B0875C7);
    NextRound(36, 0xB3707EBF, 0x3B0875C7, 0x8D212FF5, 0x60127B2E, 1, 0x00000000, 0xA4BEEA44, 4, 0x21B117B9);
    NextRound(37, 0x60127B2E, 0x21B117B9, 0x3B0875C7, 0x8D212FF5, 4, 0x00000000, 0x4BDECFA9, 11, 0x6E7429D5);
    NextRound(38, 0x8D212FF5, 0x6E7429D5, 0x21B117B9, 0x3B0875C7, 7, 0x00000000, 0xF6BB4B60, 16, 0x3575227E);
    NextRound(39, 0x3B0875C7, 0x3575227E, 0x6E7429D5, 0x21B117B9, 10, 0x00000000, 0xBEBFBC70, 23, 0x5A2F5EA5);
  }

  lemma After48()
    ensures At(48, 0x7F2E507B, 0x7BEB9700, 0x8FAE6399, 0x99D9679D)
  {
    hide HasEntry, At;
    After40();
    Listed47();
    NextRound(40, 0x21B117B9, 0x5A2F5EA5, 0x3575227E, 0x6E7429D5, 13, 0x00000000, 0x289B7EC6, 4, 0x11DE1779);
    NextRound(41, 0x6E7429D5, 0x11DE1779, 0x5A2F5EA5, 0x3575227E, 0, 0x80636261, 0xEAA127FA, 11, 0xFADCAA38);
    NextRound(42, 0x3575227E, 0xFADCAA38, 0x11DE1779, 0x5A2F5EA5, 3, 0x00000000, 0xD4EF3085, 16, 0x31C465CA);
    NextRound(43, 0x5A2F5EA5, 0x31C465CA, 0xFADCAA38, 0x11DE1779, 6, 0x00000000, 0x04881D05, 23, 0x4C6124F4);
    NextRound(44, 0x11DE1779, 0x4C6124F4, 0x31C465CA, 0xFADCAA38, 9, 0x00000000, 0xD9D4D039, 4, 0x7F2E507B);
    NextRound(45, 0xFADCAA38, 0x7F2E507B, 0x4C6124F4, 0x31C465CA, 12, 0x00000000, 0xE6DB99E5, 11, 0x99D9679D);
    NextRound(46, 0x31C465CA, 0x99D9679D, 0x7F2E507B, 0x4C6124F4, 15, 0x00000000, 0x1FA27CF8, 16, 0x8FAE6399);
    NextRound(47, 0x4C6124F4, 0x8FAE6399, 0x99D9679D, 0x7F2E507B, 2, 0x00000000, 0xC4AC5665, 23, 0x7BEB9700);
  }

  lemma After56()
    ensures At(56, 0x06CC5E8A, 0x3BFA2C27, 0x7D632DD0, 0x5B0D97AA)
  {
    hide HasEntry, At;
    After48();
    Listed55();
    NextRound(48, 0x7F2E507B, 0x7BEB9700, 0x8FAE6399, 0x99D9679D, 0, 0x80636261, 0xF4292244, 6, 0x7B201DF8);
    NextRound(49, 0x99D9679D, 0x7B201DF8, 0x7BEB9700, 0x8FAE6399, 7, 0x00000000, 0x432AFF97, 10, 0xF4E8E96E);
    NextRound(50, 0x8FAE6399, 0xF4E8E96E, 0x7B201DF8, 0x7BEB9700, 14, 0x00000018, 0xAB9423A7, 15, 0xB298CEFD);
    NextRound(51, 0x7BEB9700, 0xB298CEFD, 0xF4E8E96E, 0x7B201DF8, 5, 0x00000000, 0xFC93A039, 21, 0x8BF025C4);
    NextRound(52, 0x7B201DF8, 0x8BF025C4, 0xB298CEFD, 0xF4E8E96E, 12, 0x00000000, 0x655B59C3, 6, 0x06CC5E8A);
    NextRound(53, 0xF4E8E96E, 0x06CC5E8A, 0x8BF025C4, 0xB298CEFD, 3, 0x00000000, 0x8F0CCC92, 10, 0x5B0D97AA);
    NextRound(54, 0xB298CEFD, 0x5B0D97AA, 0x06CC5E8A, 0x8BF025C4, 10, 0x00000000, 0xFFEFF47D, 15, 0x7D632DD0);
    NextRound(55, 0x8BF025C4, 0x7D632DD0, 0x5B0D97AA, 0x06CC5E8A, 1, 0x00000000, 0x85845DD1, 21, 0x3BFA2C27);
  }

  lemma After64()
    ensures At(64, 0x310ADE8F, 0xC08226B3, 0xE484B9D8, 0x624D8CB2)
  {
    hide HasEntry, At;
    After56();
    Listed63();
    NextRound(56, 0x06CC5E8A, 0x3BFA2C27, 0x7D632DD0, 0x5B0D97AA, 8, 0x00000000, 0x6FA87E4F, 6, 0x7F81CC35);
    NextRound(57, 0x5B0D97AA, 0x7F81CC35, 0x3BFA2C27, 0x7D632DD0, 15, 0x00000000, 0xFE2CE6E0, 10, 0x094454AB);
    NextRound(58, 0x7D632DD0, 0x094454AB, 0x7F81CC35, 0x3BFA2C27, 6, 0x00000000, 0xA3014314, 15, 0x4F9DBE3F);
    NextRound(59, 0x3BFA2C27, 0x4F9DBE3F, 0x094454AB, 0x7F81CC35, 13, 0x00000000, 0x4E0811A1, 21, 0x7327D604);
    NextRound(60, 0x7F81CC35, 0x7327D604, 0x4F9DBE3F, 0x094454AB, 4, 0x00000000, 0xF7537E82, 6, 0x310ADE8F);
    NextRound(61, 0x094454AB, 0x310ADE8F, 0x7327D604, 0x4F9DBE3F, 11, 0x00000000, 0xBD3AF235, 10, 0x624D8CB2);
    NextRound(62, 0x4F9DBE3F, 0x624D8CB2, 0x310ADE8F, 0x7327D604, 2, 0x00000000, 0x2AD7D2BB, 15, 0xE484B9D8);
    NextRound(63, 0x7327D604, 0xE484B9D8, 0x624D8CB2, 0x310ADE8F, 9, 0x00000000, 0xEB86D391, 21, 0xC08226B3);
  }

  lemma Padded()
    ensures StandardPad(MD5, [0x61, 0x62, 0x63]) == Block()
  {
    assert LongBytes(24, false) == [0x18, 0, 0, 0, 0, 0, 0, 0];
    hide LongBytes;
  }

  lemma Fed()
    ensures Compress(MD5.init, Block()) == [0x98500190, 0xB04FD23C, 0x7D3F96D6, 0x727FE128]
  {
    hide Rounds, Block;
    After64();
  }

  lemma OneBlock(b: seq<byte>)
    requires |b| == 64
    ensures Blocks(MD5, MD5.init, b) == MD5.compress(MD5.init, b)
  {
    assert b[..64] == b && b[64..] == [];
  }

  lemma Written(alg: Algorithm, s: seq<word>)
    requires |s| == 4
    ensures Output(alg, s) == WordOut(s[0], alg.bigEndian) + (WordOut(s[1], alg.bigEndian) + (WordOut(s[2], alg.bigEndian) + (WordOut(s[3], alg.bigEndian))))
  {
    hide WordOut, Output;
    OutputEntries(alg, s, 0);
    OutputEntries(alg, s, 1);
    OutputEntries(alg, s, 2);
    OutputEntries(alg, s, 3);
    var o := Output(alg, s);
    assert |o| == 4 * |s|;
    assert o == o[0..4] + (o[4..8] + (o[8..12] + (o[12..16])));
  }

  lemma WordsOut()
    ensures WordOut(0x98500190, false) == [0x90, 0x01, 0x50, 0x98]
    ensures WordOut(0xB04FD23C, false) == [0x3C, 0xD2, 0x4F, 0xB0]
    ensures WordOut(0x7D3F96D6, false) == [0xD6, 0x96, 0x3F, 0x7D]
    ensures WordOut(0x727FE128, false) == [0x28, 0xE1, 0x7F, 0x72]
  {}

  lemma DigestOfAbc()
    ensures Digest(MD5, [0x61, 0x62, 0x63])
            == [0x90, 0x01, 0x50, 0x98, 0x3C, 0xD2, 0x4F, 0xB0, 0xD6, 0x96, 0x3F, 0x7D, 0x28, 0xE1, 0x7F, 0x72]
  {
    hide Block, StandardPad, Compress, Blocks, Output, WordOut;
    Padded();
    OneBlock(Block());
    Fed();
    Written(MD5, [0x98500190, 0xB04FD23C, 0x7D3F96D6, 0x727FE128]);
    WordsOut();
  }
}

/** The initial states, which are bytes counted up and down in nibbles. */
module InitialStates {
  import opened Octets
  import opened Hash
  import Sha1
  import Md5

  /** Section 3.3 of RFC 1321: the bytes 01 23 ... EF FE ... 10, low-order bytes first;
      SHA-1 goes on with F0 E1 D2 C3. */
  lemma InitialWords()
    ensures Md5.MD5.init == [Joined(0x67, 0x45, 0x23, 0x01), Joined(0xEF, 0xCD, 0xAB, 0x89), Joined(0x98, 0xBA, 0xDC, 0xFE), Joined(0x10, 0x32, 0x54, 0x76)]
    ensures Sha1.SHA1.init == Md5.MD5.init + [Joined(0xC3, 0xD2, 0xE1, 0xF0)]
  {}
}
