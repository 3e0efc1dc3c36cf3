/** The 256-bit vector of the CFB128 self-test, from section F.3.17 of SP 800-38A: the
    first block, worked through by the definitions. */
module AesExample {
  import opened Field
  import opened Columns
  import opened SBoxes
  import opened AesTables
  import opened SBoxFigures
  import opened AesSpec
  import opened AesCode

  function Key(): (k: seq<bv8>)
    ensures |k| == 32
  {
    [0x60, 0x3D, 0xEB, 0x10, 0x15, 0xCA, 0x71, 0xBE, 0x2B, 0x73, 0xAE, 0xF0, 0x85, 0x7D, 0x77, 0x81,
     0x1F, 0x35, 0x2C, 0x07, 0x3B, 0x61, 0x08, 0xD7, 0x2D, 0x98, 0x10, 0xA3, 0x09, 0x14, 0xDF, 0xF4]
  }

  function Block(): (b: seq<bv8>)
    ensures |b| == 16
  {
    [0x00, 0x01, 0x02, 0x03, 0x04, 0x05, 0x06, 0x07, 0x08, 0x09, 0x0A, 0x0B, 0x0C, 0x0D, 0x0E, 0x0F]
  }

  // --------------------------------------------------------- key expansion

  ghost predicate WordIs(i: nat, w: Col) {
    Word(KeyWords(Key()), i) == w
  }

  lemma KeyWord(i: nat)
    requires i < 8
    ensures WordIs(i, LoadCol(Key(), 4 * i))
  {}

  /** A word that is the sum of two earlier ones. */
  lemma SumWord(i: nat, a: Col, b: Col, w: Col)
    requires 8 <= i && i % 4 != 0 && WordIs(i - 8, a) && WordIs(i - 1, b) && Xor(a, b) == w
    ensures WordIs(i, w)
  {
    hide Key, Xor, SubCol, RotWord, Word, KeyWords;
    WordStep(KeyWords(Key()), i);
  }

  lemma Substituted(i: nat, a: Col, b0: bv8, b1: bv8, b2: bv8, b3: bv8, s: Col, w: Col)
    requires 8 <= i && i % 8 == 4 && WordIs(i - 8, a) && WordIs(i - 1, Col(b0, b1, b2, b3))
    requires Sub(b0, s.b0) && Sub(b1, s.b1) && Sub(b2, s.b2) && Sub(b3, s.b3) && Xor(a, s) == w
    ensures WordIs(i, w)
  {
    hide Key, Xor, SBox, RotWord, Word, KeyWords;
    WordStep(KeyWords(Key()), i);
  }

  lemma Rotated(i: nat, a: Col, b0: bv8, b1: bv8, b2: bv8, b3: bv8, s: Col, k: bv8, w: Col)
    requires 8 <= i && i % 8 == 0 && WordIs(i - 8, a) && WordIs(i - 1, Col(b0, b1, b2, b3)) && RoundConstant(i / 8 - 1) == k
    requires Sub(b1, s.b0) && Sub(b2, s.b1) && Sub(b3, s.b2) && Sub(b0, s.b3) && Xor(a, Xor(s, Col(k, 0, 0, 0))) == w
    ensures WordIs(i, w)
  {
    hide Key, Xor, SBox, RoundConstant, Word, KeyWords;
    WordStep(KeyWords(Key()), i);
  }

  lemma Words7()
    ensures WordIs(0, Col(0x60, 0x3D, 0xEB, 0x10)) && WordIs(1, Col(0x15, 0xCA, 0x71, 0xBE)) && WordIs(2, Col(0x2B, 0x73, 0xAE, 0xF0)) && WordIs(3, Col(0x85, 0x7D, 0x77, 0x81))
    ensures WordIs(4, Col(0x1F, 0x35, 0x2C, 0x07)) && WordIs(5, Col(0x3B, 0x61, 0x08, 0xD7)) && WordIs(6, Col(0x2D, 0x98, 0x10, 0xA3)) && WordIs(7, Col(0x09, 0x14, 0xDF, 0xF4))
  {
    hide WordIs;
    KeyWord(0);
    KeyWord(1);
    KeyWord(2);
    KeyWord(3);
    KeyWord(4);
    KeyWord(5);
    KeyWord(6);
    KeyWord(7);
  }

  lemma Words19()
    ensures WordIs(8, Col(0x9B, 0xA3, 0x54, 0x11)) && WordIs(9, Col(0x8E, 0x69, 0x25, 0xAF)) && WordIs(10, Col(0xA5, 0x1A, 0x8B, 0x5F)) && WordIs(11, Col(0x20, 0x67, 0xFC, 0xDE))
    ensures WordIs(12, Col(0xA8, 0xB0, 0x9C, 0x1A)) && WordIs(13, Col(0x93, 0xD1, 0x94, 0xCD)) && WordIs(14, Col(0xBE, 0x49, 0x84, 0x6E)) && WordIs(15, Col(0xB7, 0x5D, 0x5B, 0x9A))
    ensures WordIs(16, Col(0xD5, 0x9A, 0xEC, 0xB8)) && WordIs(17, Col(0x5B, 0xF3, 0xC9, 0x17)) && WordIs(18, Col(0xFE, 0xE9, 0x42, 0x48)) && WordIs(19, Col(0xDE, 0x8E, 0xBE, 0x96))
  {
    hide WordIs, Sub, RoundConstant, Ends;
    Constants();
    Start();
    Entries32();
    Entries64();
    Entries96();
    Entries127();
    Words7();
    Rotated(8, Col(0x60, 0x3D, 0xEB, 0x10), 0x09, 0x14, 0xDF, 0xF4, Col(0xFA, 0x9E, 0xBF, 0x01), 0x01, Col(0x9B, 0xA3, 0x54, 0x11));
    SumWord(9, Col(0x15, 0xCA, 0x71, 0xBE), Col(0x9B, 0xA3, 0x54, 0x11), Col(0x8E, 0x69, 0x25, 0xAF));
    SumWord(10, Col(0x2B, 0x73, 0xAE, 0xF0), Col(0x8E, 0x69, 0x25, 0xAF), Col(0xA5, 0x1A, 0x8B, 0x5F));
    SumWord(11, Col(0x85, 0x7D, 0x77, 0x81), Col(0xA5, 0x1A, 0x8B, 0x5F), Col(0x20, 0x67, 0xFC, 0xDE));
    Substituted(12, Col(0x1F, 0x35, 0x2C, 0x07), 0x20, 0x67, 0xFC, 0xDE, Col(0xB7, 0x85, 0xB0, 0x1D), Col(0xA8, 0xB0, 0x9C, 0x1A));
    SumWord(13, Col(0x3B, 0x61, 0x08, 0xD7), Col(0xA8, 0xB0, 0x9C, 0x1A), Col(0x93, 0xD1, 0x94, 0xCD));
    SumWord(14, Col(0x2D, 0x98, 0x10, 0xA3), Col(0x93, 0xD1, 0x94, 0xCD), Col(0xBE, 0x49, 0x84, 0x6E));
    SumWord(15, Col(0x09, 0x14, 0xDF, 0xF4), Col(0xBE, 0x49, 0x84, 0x6E), Col(0xB7, 0x5D, 0x5B, 0x9A));
    Rotated(16, Col(0x9B, 0xA3, 0x54, 0x11), 0xB7, 0x5D, 0x5B, 0x9A, Col(0x4C, 0x39, 0xB8, 0xA9), 0x02, Col(0xD5, 0x9A, 0xEC, 0xB8));
    SumWord(17, Col(0x8E, 0x69, 0x25, 0xAF), Col(0xD5, 0x9A, 0xEC, 0xB8), Col(0x5B, 0xF3, 0xC9, 0x17));
    SumWord(18, Col(0xA5, 0x1A, 0x8B, 0x5F), Col(0x5B, 0xF3, 0xC9, 0x17), Col(0xFE, 0xE9, 0x42, 0x48));
    SumWord(19, Col(0x20, 0x67, 0xFC, 0xDE), Col(0xFE, 0xE9, 0x42, 0x48), Col(0xDE, 0x8E, 0xBE, 0x96));
  }

  lemma Words31()
    ensures WordIs(20, Col(0xB5, 0xA9, 0x32, 0x8A)) && WordIs(21, Col(0x26, 0x78, 0xA6, 0x47)) && WordIs(22, Col(0x98, 0x31, 0x22, 0x29)) && WordIs(23, Col(0x2F, 0x6C, 0x79, 0xB3))
    ensures WordIs(24, Col(0x81, 0x2C, 0x81, 0xAD)) && WordIs(25, Col(0xDA, 0xDF, 0x48, 0xBA)) && WordIs(26, Col(0x24, 0x36, 0x0A, 0xF2)) && WordIs(27, Col(0xFA, 0xB8, 0xB4, 0x64))
    ensures WordIs(28, Col(0x98, 0xC5, 0xBF, 0xC9)) && WordIs(29, Col(0xBE, 0xBD, 0x19, 0x8E)) && WordIs(30, Col(0x26, 0x8C, 0x3B, 0xA7)) && WordIs(31, Col(0x09, 0xE0, 0x42, 0x14))
  {
    hide WordIs, Sub, RoundConstant, Ends;
    Constants();
    Start();
    Entries32();
    Entries64();
    Entries96();
    Entries127();
    Words19();
    Substituted(20, Col(0xA8, 0xB0, 0x9C, 0x1A), 0xDE, 0x8E, 0xBE, 0x96, Col(0x1D, 0x19, 0xAE, 0x90), Col(0xB5, 0xA9, 0x32, 0x8A));
    SumWord(21, Col(0x93, 0xD1, 0x94, 0xCD), Col(0xB5, 0xA9, 0x32, 0x8A), Col(0x26, 0x78, 0xA6, 0x47));
    SumWord(22, Col(0xBE, 0x49, 0x84, 0x6E), Col(0x26, 0x78, 0xA6, 0x47), Col(0x98, 0x31, 0x22, 0x29));
    SumWord(23, Col(0xB7, 0x5D, 0x5B, 0x9A), Col(0x98, 0x31, 0x22, 0x29), Col(0x2F, 0x6C, 0x79, 0xB3));
    Rotated(24, Col(0xD5, 0x9A, 0xEC, 0xB8), 0x2F, 0x6C, 0x79, 0xB3, Col(0x50, 0xB6, 0x6D, 0x15), 0x04, Col(0x81, 0x2C, 0x81, 0xAD));
    SumWord(25, Col(0x5B, 0xF3, 0xC9, 0x17), Col(0x81, 0x2C, 0x81, 0xAD), Col(0xDA, 0xDF, 0x48, 0xBA));
    SumWord(26, Col(0xFE, 0xE9, 0x42, 0x48), Col(0xDA, 0xDF, 0x48, 0xBA), Col(0x24, 0x36, 0x0A, 0xF2));
    SumWord(27, Col(0xDE, 0x8E, 0xBE, 0x96), Col(0x24, 0x36, 0x0A, 0xF2), Col(0xFA, 0xB8, 0xB4, 0x64));
    Substituted(28, Col(0xB5, 0xA9, 0x32, 0x8A), 0xFA, 0xB8, 0xB4, 0x64, Col(0x2D, 0x6C, 0x8D, 0x43), Col(0x98, 0xC5, 0xBF, 0xC9));
    SumWord(29, Col(0x26, 0x78, 0xA6, 0x47), Col(0x98, 0xC5, 0xBF, 0xC9), Col(0xBE, 0xBD, 0x19, 0x8E));
    SumWord(30, Col(0x98, 0x31, 0x22, 0x29), Col(0xBE, 0xBD, 0x19, 0x8E), Col(0x26, 0x8C, 0x3B, 0xA7));
    SumWord(31, Col(0x2F, 0x6C, 0x79, 0xB3), Col(0x26, 0x8C, 0x3B, 0xA7), Col(0x09, 0xE0, 0x42, 0x14));
  }

  lemma Words43()
    ensures WordIs(32, Col(0x68, 0x00, 0x7B, 0xAC)) && WordIs(33, Col(0xB2, 0xDF, 0x33, 0x16)) && WordIs(34, Col(0x96, 0xE9, 0x39, 0xE4)) && WordIs(35, Col(0x6C, 0x51, 0x8D, 0x80))
    ensures WordIs(36, Col(0xC8, 0x14, 0xE2, 0x04)) && WordIs(37, Col(0x76, 0xA9, 0xFB, 0x8A)) && WordIs(38, Col(0x50, 0x25, 0xC0, 0x2D)) && WordIs(39, Col(0x59, 0xC5, 0x82, 0x39))
    ensures WordIs(40, Col(0xDE, 0x13, 0x69, 0x67)) && WordIs(41, Col(0x6C, 0xCC, 0x5A, 0x71)) && WordIs(42, Col(0xFA, 0x25, 0x63, 0x95)) && WordIs(43, Col(0x96, 0x74, 0xEE, 0x15))
  {
    hide WordIs, Sub, RoundConstant, Ends;
    Constants();
    Start();
    Entries32();
    Entries64();
    Entries96();
    Entries127();
    Words31();
    Rotated(32, Col(0x81, 0x2C, 0x81, 0xAD), 0x09, 0xE0, 0x42, 0x14, Col(0xE1, 0x2C, 0xFA, 0x01), 0x08, Col(0x68, 0x00, 0x7B, 0xAC));
    SumWord(33, Col(0xDA, 0xDF, 0x48, 0xBA), Col(0x68, 0x00, 0x7B, 0xAC), Col(0xB2, 0xDF, 0x33, 0x16));
    SumWord(34, Col(0x24, 0x36, 0x0A, 0xF2), Col(0xB2, 0xDF, 0x33, 0x16), Col(0x96, 0xE9, 0x39, 0xE4));
    SumWord(35, Col(0xFA, 0xB8, 0xB4, 0x64), Col(0x96, 0xE9, 0x39, 0xE4), Col(0x6C, 0x51, 0x8D, 0x80));
    Substituted(36, Col(0x98, 0xC5, 0xBF, 0xC9), 0x6C, 0x51, 0x8D, 0x80, Col(0x50, 0xD1, 0x5D, 0xCD), Col(0xC8, 0x14, 0xE2, 0x04));
    SumWord(37, Col(0xBE, 0xBD, 0x19, 0x8E), Col(0xC8, 0x14, 0xE2, 0x04), Col(0x76, 0xA9, 0xFB, 0x8A));
    SumWord(38, Col(0x26, 0x8C, 0x3B, 0xA7), Col(0x76, 0xA9, 0xFB, 0x8A), Col(0x50, 0x25, 0xC0, 0x2D));
    SumWord(39, Col(0x09, 0xE0, 0x42, 0x14), Col(0x50, 0x25, 0xC0, 0x2D), Col(0x59, 0xC5, 0x82, 0x39));
    Rotated(40, Col(0x68, 0x00, 0x7B, 0xAC), 0x59, 0xC5, 0x82, 0x39, Col(0xA6, 0x13, 0x12, 0xCB), 0x10, Col(0xDE, 0x13, 0x69, 0x67));
    SumWord(41, Col(0xB2, 0xDF, 0x33, 0x16), Col(0xDE, 0x13, 0x69, 0x67), Col(0x6C, 0xCC, 0x5A, 0x71));
    SumWord(42, Col(0x96, 0xE9, 0x39, 0xE4), Col(0x6C, 0xCC, 0x5A, 0x71), Col(0xFA, 0x25, 0x63, 0x95));
    SumWord(43, Col(0x6C, 0x51, 0x8D, 0x80), Col(0xFA, 0x25, 0x63, 0x95), Col(0x96, 0x74, 0xEE, 0x15));
  }

  lemma Words55()
    ensures WordIs(44, Col(0x58, 0x86, 0xCA, 0x5D)) && WordIs(45, Col(0x2E, 0x2F, 0x31, 0xD7)) && WordIs(46, Col(0x7E, 0x0A, 0xF1, 0xFA)) && WordIs(47, Col(0x27, 0xCF, 0x73, 0xC3))
    ensures WordIs(48, Col(0x74, 0x9C, 0x47, 0xAB)) && WordIs(49, Col(0x18, 0x50, 0x1D, 0xDA)) && WordIs(50, Col(0xE2, 0x75, 0x7E, 0x4F)) && WordIs(51, Col(0x74, 0x01, 0x90, 0x5A))
    ensures WordIs(52, Col(0xCA, 0xFA, 0xAA, 0xE3)) && WordIs(53, Col(0xE4, 0xD5, 0x9B, 0x34)) && WordIs(54, Col(0x9A, 0xDF, 0x6A, 0xCE)) && WordIs(55, Col(0xBD, 0x10, 0x19, 0x0D))
  {
    hide WordIs, Sub, RoundConstant, Ends;
    Constants();
    Start();
    Entries32();
    Entries64();
    Entries96();
    Entries127();
    Words43();
    Substituted(44, Col(0xC8, 0x14, 0xE2, 0x04), 0x96, 0x74, 0xEE, 0x15, Col(0x90, 0x92, 0x28, 0x59), Col(0x58, 0x86, 0xCA, 0x5D));
    SumWord(45, Col(0x76, 0xA9, 0xFB, 0x8A), Col(0x58, 0x86, 0xCA, 0x5D), Col(0x2E, 0x2F, 0x31, 0xD7));
    SumWord(46, Col(0x50, 0x25, 0xC0, 0x2D), Col(0x2E, 0x2F, 0x31, 0xD7), Col(0x7E, 0x0A, 0xF1, 0xFA));
    SumWord(47, Col(0x59, 0xC5, 0x82, 0x39), Col(0x7E, 0x0A, 0xF1, 0xFA), Col(0x27, 0xCF, 0x73, 0xC3));
    Rotated(48, Col(0xDE, 0x13, 0x69, 0x67), 0x27, 0xCF, 0x73, 0xC3, Col(0x8A, 0x8F, 0x2E, 0xCC), 0x20, Col(0x74, 0x9C, 0x47, 0xAB));
    SumWord(49, Col(0x6C, 0xCC, 0x5A, 0x71), Col(0x74, 0x9C, 0x47, 0xAB), Col(0x18, 0x50, 0x1D, 0xDA));
    SumWord(50, Col(0xFA, 0x25, 0x63, 0x95), Col(0x18, 0x50, 0x1D, 0xDA), Col(0xE2, 0x75, 0x7E, 0x4F));
    SumWord(51, Col(0x96, 0x74, 0xEE, 0x15), Col(0xE2, 0x75, 0x7E, 0x4F), Col(0x74, 0x01, 0x90, 0x5A));
    Substituted(52, Col(0x58, 0x86, 0xCA, 0x5D), 0x74, 0x01, 0x90, 0x5A, Col(0x92, 0x7C, 0x60, 0xBE), Col(0xCA, 0xFA, 0xAA, 0xE3));
    SumWord(53, Col(0x2E, 0x2F, 0x31, 0xD7), Col(0xCA, 0xFA, 0xAA, 0xE3), Col(0xE4, 0xD5, 0x9B, 0x34));
    SumWord(54, Col(0x7E, 0x0A, 0xF1, 0xFA), Col(0xE4, 0xD5, 0x9B, 0x34), Col(0x9A, 0xDF, 0x6A, 0xCE));
    SumWord(55, Col(0x27, 0xCF, 0x73, 0xC3), Col(0x9A, 0xDF, 0x6A, 0xCE), Col(0xBD, 0x10, 0x19, 0x0D));
  }

  lemma Words59()
    ensures WordIs(56, Col(0xFE, 0x48, 0x90, 0xD1)) && WordIs(57, Col(0xE6, 0x18, 0x8D, 0x0B)) && WordIs(58, Col(0x04, 0x6D, 0xF3, 0x44)) && WordIs(59, Col(0x70, 0x6C, 0x63, 0x1E))
  {
    hide WordIs, Sub, RoundConstant, Ends;
    Constants();
    Start();
    Entries32();
    Entries64();
    Entries96();
    Entries127();
    Words55();
    Rotated(56, Col(0x74, 0x9C, 0x47, 0xAB), 0xBD, 0x10, 0x19, 0x0D, Col(0xCA, 0xD4, 0xD7, 0x7A), 0x40, Col(0xFE, 0x48, 0x90, 0xD1));
    SumWord(57, Col(0x18, 0x50, 0x1D, 0xDA), Col(0xFE, 0x48, 0x90, 0xD1), Col(0xE6, 0x18, 0x8D, 0x0B));
    SumWord(58, Col(0xE2, 0x75, 0x7E, 0x4F), Col(0xE6, 0x18, 0x8D, 0x0B), Col(0x04, 0x6D, 0xF3, 0x44));
    SumWord(59, Col(0x74, 0x01, 0x90, 0x5A), Col(0x04, 0x6D, 0xF3, 0x44), Col(0x70, 0x6C, 0x63, 0x1E));
  }

  // ----------------------------------------------------------------- rounds

  ghost predicate StateIs(r: nat, c0: Col, c1: Col, c2: Col, c3: Col) {
    r < 15 && Rounds(Expanded(KeyWords(Key())), LoadState(Block()), r) == State(c0, c1, c2, c3)
  }

  /** One column of a round: substituted, mixed and keyed. */
  lemma MixedColumn(x0: bv8, x1: bv8, x2: bv8, x3: bv8, y0: bv8, y1: bv8, y2: bv8, y3: bv8, k: Col, n: Col)
    requires Sub(x0, y0) && Sub(x1, y1) && Sub(x2, y2) && Sub(x3, y3)
    requires Xor(Col(Sum4(XTime(y0), Plus(XTime(y1), y1), y2, y3), Sum4(y0, XTime(y1), Plus(XTime(y2), y2), y3),
                     Sum4(y0, y1, XTime(y2), Plus(XTime(y3), y3)), Sum4(Plus(XTime(y0), y0), y1, y2, XTime(y3))), k) == n
    ensures Xor(Mix(SubCol(Col(x0, x1, x2, x3))), k) == n
  {
    hide SBox, XTime, Plus, Product, Xor;
    SmallProducts(y0);
    SmallProducts(y1);
    SmallProducts(y2);
    SmallProducts(y3);
  }

  lemma LastColumn(x0: bv8, x1: bv8, x2: bv8, x3: bv8, y0: bv8, y1: bv8, y2: bv8, y3: bv8, k: Col, n: Col)
    requires Sub(x0, y0) && Sub(x1, y1) && Sub(x2, y2) && Sub(x3, y3) && Xor(Col(y0, y1, y2, y3), k) == n
    ensures Xor(SubCol(Col(x0, x1, x2, x3)), k) == n
  {
    hide SBox, Xor;
  }

  lemma RoundKeyIs(r: nat, k0: Col, k1: Col, k2: Col, k3: Col)
    requires r < 15 && WordIs(4 * r, k0) && WordIs(4 * r + 1, k1) && WordIs(4 * r + 2, k2) && WordIs(4 * r + 3, k3)
    ensures RoundKey(Expanded(KeyWords(Key())), r) == State(k0, k1, k2, k3)
  {
    hide Word, KeyWords, Key;
  }

  lemma FirstState(k0: Col, k1: Col, k2: Col, k3: Col, n0: Col, n1: Col, n2: Col, n3: Col)
    requires WordIs(0, k0) && WordIs(1, k1) && WordIs(2, k2) && WordIs(3, k3) && State(n0, n1, n2, n3) == AddKey(LoadState(Block()), State(k0, k1, k2, k3))
    ensures StateIs(0, n0, n1, n2, n3)
  {
    hide Xor, LoadState, Block, WordIs, Key, KeyWords;
    RoundKeyIs(0, k0, k1, k2, k3);
  }

  /** One round, column by column. */
  lemma NextState(r: nat, c0: Col, c1: Col, c2: Col, c3: Col, k0: Col, k1: Col, k2: Col, k3: Col, n0: Col, n1: Col, n2: Col, n3: Col)
    requires 0 < r < 15 && StateIs(r - 1, c0, c1, c2, c3)
    requires WordIs(4 * r, k0) && WordIs(4 * r + 1, k1) && WordIs(4 * r + 2, k2) && WordIs(4 * r + 3, k3)
    requires Xor(Mix(SubCol(Col(c0.b0, c1.b1, c2.b2, c3.b3))), k0) == n0 && Xor(Mix(SubCol(Col(c1.b0, c2.b1, c3.b2, c0.b3))), k1) == n1
    requires Xor(Mix(SubCol(Col(c2.b0, c3.b1, c0.b2, c1.b3))), k2) == n2 && Xor(Mix(SubCol(Col(c3.b0, c0.b1, c1.b2, c2.b3))), k3) == n3
    ensures StateIs(r, n0, n1, n2, n3)
  {
    hide Xor, Mix, SBox, Expanded, Key, KeyWords, Block, LoadState, WordIs;
    RoundKeyIs(r, k0, k1, k2, k3);
  }

  lemma LastState(w: seq<Col>, s: State, c0: Col, c1: Col, c2: Col, c3: Col, k0: Col, k1: Col, k2: Col, k3: Col, n0: Col, n1: Col, n2: Col, n3: Col)
    requires |w| == 60 && Rounds(w, s, 13) == State(c0, c1, c2, c3) && RoundKey(w, 14) == State(k0, k1, k2, k3)
    requires Xor(SubCol(Col(c0.b0, c1.b1, c2.b2, c3.b3)), k0) == n0 && Xor(SubCol(Col(c1.b0, c2.b1, c3.b2, c0.b3)), k1) == n1
    requires Xor(SubCol(Col(c2.b0, c3.b1, c0.b2, c1.b3)), k2) == n2 && Xor(SubCol(Col(c3.b0, c0.b1, c1.b2, c2.b3)), k3) == n3
    ensures Cipher(w, 14, s) == State(n0, n1, n2, n3)
  {
    hide Xor, SBox, Rounds, RoundKey;
  }

  lemma State0()
    ensures StateIs(0, Col(0x60, 0x3C, 0xE9, 0x13), Col(0x11, 0xCF, 0x77, 0xB9), Col(0x23, 0x7A, 0xA4, 0xFB), Col(0x89, 0x70, 0x79, 0x8E))
  {
    hide WordIs, StateIs;
    Words7();
    FirstState(Col(0x60, 0x3D, 0xEB, 0x10), Col(0x15, 0xCA, 0x71, 0xBE), Col(0x2B, 0x73, 0xAE, 0xF0), Col(0x85, 0x7D, 0x77, 0x81),
               Col(0x60, 0x3C, 0xE9, 0x13), Col(0x11, 0xCF, 0x77, 0xB9), Col(0x23, 0x7A, 0xA4, 0xFB), Col(0x89, 0x70, 0x79, 0x8E));
  }

  lemma State3()
    ensures StateIs(3, Col(0xC4, 0x9D, 0xB1, 0xE9), Col(0x9A, 0x74, 0xB3, 0x15), Col(0x4D, 0xD0, 0x88, 0xFD), Col(0xFF, 0xBC, 0x1C, 0xE4))
  {
    hide WordIs, StateIs, Sub, Ends, SubCol, Mix;
    Start();
    Entries32();
    Entries64();
    Entries96();
    Entries127();
    Words7();
    Words19();
    State0();
    MixedColumn(0x60, 0xCF, 0xA4, 0x8E, 0xD0, 0x8A, 0x49, 0x19, Col(0x1F, 0x35, 0x2C, 0x07), Col(0x71, 0x28, 0xCF, 0x9D));
    MixedColumn(0x11, 0x7A, 0x79, 0x13, 0x82, 0xDA, 0xB6, 0x7D, Col(0x3B, 0x61, 0x08, 0xD7), Col(0x9A, 0xF0, 0xA0, 0xDC));
    MixedColumn(0x23, 0x70, 0xE9, 0xB9, 0x26, 0x51, 0x1E, 0x56, Col(0x2D, 0x98, 0x10, 0xA3), Col(0xDA, 0x68, 0xA1, 0x2A));
    MixedColumn(0x89, 0x3C, 0x77, 0xFB, 0xA7, 0xEB, 0xF5, 0x0F, Col(0x09, 0x14, 0xDF, 0xF4), Col(0x80, 0x75, 0x73, 0x06));
    NextState(1, Col(0x60, 0x3C, 0xE9, 0x13), Col(0x11, 0xCF, 0x77, 0xB9), Col(0x23, 0x7A, 0xA4, 0xFB), Col(0x89, 0x70, 0x79, 0x8E),
              Col(0x1F, 0x35, 0x2C, 0x07), Col(0x3B, 0x61, 0x08, 0xD7), Col(0x2D, 0x98, 0x10, 0xA3), Col(0x09, 0x14, 0xDF, 0xF4),
              Col(0x71, 0x28, 0xCF, 0x9D), Col(0x9A, 0xF0, 0xA0, 0xDC), Col(0xDA, 0x68, 0xA1, 0x2A), Col(0x80, 0x75, 0x73, 0x06));
    MixedColumn(0x71, 0xF0, 0xA1, 0x06, 0xA3, 0x8C, 0x32, 0x6F, Col(0x9B, 0xA3, 0x54, 0x11), Col(0x14, 0x3A, 0xAE, 0x8F));
    MixedColumn(0x9A, 0x68, 0x73, 0x9D, 0xB8, 0x45, 0x8F, 0x5E, Col(0x8E, 0x69, 0x25, 0xAF), Col(0xFB, 0x8F, 0x3F, 0x0A));
    MixedColumn(0xDA, 0x75, 0xCF, 0xDC, 0x57, 0x9D, 0x8A, 0x86, Col(0xA5, 0x1A, 0x8B, 0x5F), Col(0xBB, 0x6F, 0xDF, 0xA6));
    MixedColumn(0x80, 0x28, 0xA0, 0x2A, 0xCD, 0x34, 0xE0, 0xE5, Col(0x20, 0x67, 0xFC, 0xDE), Col(0xF8, 0x1C, 0xEA, 0x97));
    NextState(2, Col(0x71, 0x28, 0xCF, 0x9D), Col(0x9A, 0xF0, 0xA0, 0xDC), Col(0xDA, 0x68, 0xA1, 0x2A), Col(0x80, 0x75, 0x73, 0x06),
              Col(0x9B, 0xA3, 0x54, 0x11), Col(0x8E, 0x69, 0x25, 0xAF), Col(0xA5, 0x1A, 0x8B, 0x5F), Col(0x20, 0x67, 0xFC, 0xDE),
              Col(0x14, 0x3A, 0xAE, 0x8F), Col(0xFB, 0x8F, 0x3F, 0x0A), Col(0xBB, 0x6F, 0xDF, 0xA6), Col(0xF8, 0x1C, 0xEA, 0x97));
    MixedColumn(0x14, 0x8F, 0xDF, 0x97, 0xFA, 0x73, 0x9E, 0x88, Col(0xA8, 0xB0, 0x9C, 0x1A), Col(0xC4, 0x9D, 0xB1, 0xE9));
    MixedColumn(0xFB, 0x6F, 0xEA, 0x8F, 0x0F, 0xA8, 0x87, 0x73, Col(0x93, 0xD1, 0x94, 0xCD), Col(0x9A, 0x74, 0xB3, 0x15));
    MixedColumn(0xBB, 0x1C, 0xAE, 0x0A, 0xEA, 0x9C, 0xE4, 0x67, Col(0xBE, 0x49, 0x84, 0x6E), Col(0x4D, 0xD0, 0x88, 0xFD));
    MixedColumn(0xF8, 0x3A, 0x3F, 0xA6, 0x41, 0x80, 0x75, 0x24, Col(0xB7, 0x5D, 0x5B, 0x9A), Col(0xFF, 0xBC, 0x1C, 0xE4));
    NextState(3, Col(0x14, 0x3A, 0xAE, 0x8F), Col(0xFB, 0x8F, 0x3F, 0x0A), Col(0xBB, 0x6F, 0xDF, 0xA6), Col(0xF8, 0x1C, 0xEA, 0x97),
              Col(0xA8, 0xB0, 0x9C, 0x1A), Col(0x93, 0xD1, 0x94, 0xCD), Col(0xBE, 0x49, 0x84, 0x6E), Col(0xB7, 0x5D, 0x5B, 0x9A),
              Col(0xC4, 0x9D, 0xB1, 0xE9), Col(0x9A, 0x74, 0xB3, 0x15), Col(0x4D, 0xD0, 0x88, 0xFD), Col(0xFF, 0xBC, 0x1C, 0xE4));
  }

  lemma State6()
    ensures StateIs(6, Col(0x0B, 0xE6, 0xA2, 0xF0), Col(0x2F, 0x08, 0x2D, 0x50), Col(0x22, 0x8B, 0xB8, 0xE0), Col(0x8B, 0x3B, 0xC3, 0xCD))
  {
    hide WordIs, StateIs, Sub, Ends, SubCol, Mix;
    Start();
    Entries32();
    Entries64();
    Entries96();
    Entries127();
    Words19();
    Words31();
    State3();
    MixedColumn(0xC4, 0x74, 0x88, 0xE4, 0x1C, 0x92, 0xC4, 0x69, Col(0xD5, 0x9A, 0xEC, 0xB8), Col(0xED, 0x87, 0x4A, 0x18));
    MixedColumn(0x9A, 0xD0, 0x1C, 0xE9, 0xB8, 0x70, 0x9C, 0x1E, Col(0x5B, 0xF3, 0xC9, 0x17), Col(0x22, 0x0A, 0x00, 0x14));
    MixedColumn(0x4D, 0xBC, 0xB1, 0x15, 0xE3, 0x65, 0xC8, 0x59, Col(0xFE, 0xE9, 0x42, 0x48), Col(0x1D, 0xDA, 0xA4, 0x69));
    MixedColumn(0xFF, 0x9D, 0xB3, 0xFD, 0x16, 0x5E, 0x6D, 0x54, Col(0xDE, 0x8E, 0xBE, 0x96), Col(0x29, 0xC7, 0xD0, 0x37));
    NextState(4, Col(0xC4, 0x9D, 0xB1, 0xE9), Col(0x9A, 0x74, 0xB3, 0x15), Col(0x4D, 0xD0, 0x88, 0xFD), Col(0xFF, 0xBC, 0x1C, 0xE4),
              Col(0xD5, 0x9A, 0xEC, 0xB8), Col(0x5B, 0xF3, 0xC9, 0x17), Col(0xFE, 0xE9, 0x42, 0x48), Col(0xDE, 0x8E, 0xBE, 0x96),
              Col(0xED, 0x87, 0x4A, 0x18), Col(0x22, 0x0A, 0x00, 0x14), Col(0x1D, 0xDA, 0xA4, 0x69), Col(0x29, 0xC7, 0xD0, 0x37));
    MixedColumn(0xED, 0x0A, 0xA4, 0x37, 0x55, 0x67, 0x49, 0x9A, Col(0xB5, 0xA9, 0x32, 0x8A), Col(0x65, 0x73, 0x27, 0x74));
    MixedColumn(0x22, 0xDA, 0xD0, 0x18, 0x93, 0x57, 0x70, 0xAD, Col(0x26, 0x78, 0xA6, 0x47), Col(0x3F, 0x78, 0x6E, 0x8F));
    MixedColumn(0x1D, 0xC7, 0x4A, 0x14, 0xA4, 0xC6, 0xD6, 0xFA, Col(0x98, 0x31, 0x22, 0x29), Col(0xB6, 0x99, 0xE2, 0x21));
    MixedColumn(0x29, 0x87, 0x00, 0x69, 0xA5, 0x17, 0x63, 0xF9, Col(0x2F, 0x6C, 0x79, 0xB3), Col(0xDD, 0xBB, 0x1D, 0xDA));
    NextState(5, Col(0xED, 0x87, 0x4A, 0x18), Col(0x22, 0x0A, 0x00, 0x14), Col(0x1D, 0xDA, 0xA4, 0x69), Col(0x29, 0xC7, 0xD0, 0x37),
              Col(0xB5, 0xA9, 0x32, 0x8A), Col(0x26, 0x78, 0xA6, 0x47), Col(0x98, 0x31, 0x22, 0x29), Col(0x2F, 0x6C, 0x79, 0xB3),
              Col(0x65, 0x73, 0x27, 0x74), Col(0x3F, 0x78, 0x6E, 0x8F), Col(0xB6, 0x99, 0xE2, 0x21), Col(0xDD, 0xBB, 0x1D, 0xDA));
    MixedColumn(0x65, 0x78, 0xE2, 0xDA, 0x4D, 0xBC, 0x98, 0x57, Col(0x81, 0x2C, 0x81, 0xAD), Col(0x0B, 0xE6, 0xA2, 0xF0));
    MixedColumn(0x3F, 0x99, 0x1D, 0x74, 0x75, 0xEE, 0xA4, 0x92, Col(0xDA, 0xDF, 0x48, 0xBA), Col(0x2F, 0x08, 0x2D, 0x50));
    MixedColumn(0xB6, 0xBB, 0x27, 0x8F, 0x4E, 0xEA, 0xCC, 0x73, Col(0x24, 0x36, 0x0A, 0xF2), Col(0x22, 0x8B, 0xB8, 0xE0));
    MixedColumn(0xDD, 0x73, 0x6E, 0x21, 0xC1, 0x8F, 0x9F, 0xFD, Col(0xFA, 0xB8, 0xB4, 0x64), Col(0x8B, 0x3B, 0xC3, 0xCD));
    NextState(6, Col(0x65, 0x73, 0x27, 0x74), Col(0x3F, 0x78, 0x6E, 0x8F), Col(0xB6, 0x99, 0xE2, 0x21), Col(0xDD, 0xBB, 0x1D, 0xDA),
              Col(0x81, 0x2C, 0x81, 0xAD), Col(0xDA, 0xDF, 0x48, 0xBA), Col(0x24, 0x36, 0x0A, 0xF2), Col(0xFA, 0xB8, 0xB4, 0x64),
              Col(0x0B, 0xE6, 0xA2, 0xF0), Col(0x2F, 0x08, 0x2D, 0x50), Col(0x22, 0x8B, 0xB8, 0xE0), Col(0x8B, 0x3B, 0xC3, 0xCD));
  }

  lemma State9()
    ensures StateIs(9, Col(0xBF, 0x8E, 0xFE, 0xC4), Col(0x68, 0x22, 0xE9, 0x7B), Col(0x34, 0x06, 0xE2, 0x81), Col(0x9F, 0x39, 0x34, 0x46))
  {
    hide WordIs, StateIs, Sub, Ends, SubCol, Mix;
    Start();
    Entries32();
    Entries64();
    Entries96();
    Entries127();
    Words31();
    Words43();
    State6();
    MixedColumn(0x0B, 0x08, 0xB8, 0xCD, 0x2B, 0x30, 0x6C, 0xBD, Col(0x98, 0xC5, 0xBF, 0xC9), Col(0x4F, 0x87, 0xA0, 0x89));
    MixedColumn(0x2F, 0x8B, 0xC3, 0xF0, 0x15, 0x3D, 0x2E, 0x8C, Col(0xBE, 0xBD, 0x19, 0x8E), Col(0x71, 0x2C, 0xE2, 0xA1));
    MixedColumn(0x22, 0x3B, 0xA2, 0x50, 0x93, 0xE2, 0x3A, 0x53, Col(0x26, 0x8C, 0x3B, 0xA7), Col(0x4F, 0xDD, 0xCB, 0x77));
    MixedColumn(0x8B, 0xE6, 0x2D, 0xE0, 0x3D, 0x8E, 0xD8, 0xE1, Col(0x09, 0xE0, 0x42, 0x14), Col(0xC3, 0x48, 0x62, 0xDC));
    NextState(7, Col(0x0B, 0xE6, 0xA2, 0xF0), Col(0x2F, 0x08, 0x2D, 0x50), Col(0x22, 0x8B, 0xB8, 0xE0), Col(0x8B, 0x3B, 0xC3, 0xCD),
              Col(0x98, 0xC5, 0xBF, 0xC9), Col(0xBE, 0xBD, 0x19, 0x8E), Col(0x26, 0x8C, 0x3B, 0xA7), Col(0x09, 0xE0, 0x42, 0x14),
              Col(0x4F, 0x87, 0xA0, 0x89), Col(0x71, 0x2C, 0xE2, 0xA1), Col(0x4F, 0xDD, 0xCB, 0x77), Col(0xC3, 0x48, 0x62, 0xDC));
    MixedColumn(0x4F, 0x2C, 0xCB, 0xDC, 0x84, 0x71, 0x1F, 0x86, Col(0x68, 0x00, 0x7B, 0xAC), Col(0x71, 0xC1, 0x21, 0x42));
    MixedColumn(0x71, 0xDD, 0x62, 0x89, 0xA3, 0xC1, 0xAA, 0xA7, Col(0xB2, 0xDF, 0x33, 0x16), Col(0xBA, 0xA7, 0xEC, 0xD6));
    MixedColumn(0x4F, 0x48, 0xA0, 0xA1, 0x84, 0x52, 0xE0, 0x32, Col(0x96, 0xE9, 0x39, 0xE4), Col(0xA1, 0xC0, 0x62, 0xA5));
    MixedColumn(0xC3, 0x87, 0xE2, 0x77, 0x2E, 0x17, 0x98, 0xF5, Col(0x6C, 0x51, 0x8D, 0x80), Col(0x64, 0x17, 0x9B, 0x8C));
    NextState(8, Col(0x4F, 0x87, 0xA0, 0x89), Col(0x71, 0x2C, 0xE2, 0xA1), Col(0x4F, 0xDD, 0xCB, 0x77), Col(0xC3, 0x48, 0x62, 0xDC),
              Col(0x68, 0x00, 0x7B, 0xAC), Col(0xB2, 0xDF, 0x33, 0x16), Col(0x96, 0xE9, 0x39, 0xE4), Col(0x6C, 0x51, 0x8D, 0x80),
              Col(0x71, 0xC1, 0x21, 0x42), Col(0xBA, 0xA7, 0xEC, 0xD6), Col(0xA1, 0xC0, 0x62, 0xA5), Col(0x64, 0x17, 0x9B, 0x8C));
    MixedColumn(0x71, 0xA7, 0x62, 0x8C, 0xA3, 0x5C, 0xAA, 0x64, Col(0xC8, 0x14, 0xE2, 0x04), Col(0xBF, 0x8E, 0xFE, 0xC4));
    MixedColumn(0xBA, 0xC0, 0x9B, 0x42, 0xF4, 0xBA, 0x14, 0x2C, Col(0x76, 0xA9, 0xFB, 0x8A), Col(0x68, 0x22, 0xE9, 0x7B));
    MixedColumn(0xA1, 0x17, 0x21, 0xD6, 0x32, 0xF0, 0xFD, 0xF6, Col(0x50, 0x25, 0xC0, 0x2D), Col(0x34, 0x06, 0xE2, 0x81));
    MixedColumn(0x64, 0xC1, 0xEC, 0xA5, 0x43, 0x78, 0xCE, 0x06, Col(0x59, 0xC5, 0x82, 0x39), Col(0x9F, 0x39, 0x34, 0x46));
    NextState(9, Col(0x71, 0xC1, 0x21, 0x42), Col(0xBA, 0xA7, 0xEC, 0xD6), Col(0xA1, 0xC0, 0x62, 0xA5), Col(0x64, 0x17, 0x9B, 0x8C),
              Col(0xC8, 0x14, 0xE2, 0x04), Col(0x76, 0xA9, 0xFB, 0x8A), Col(0x50, 0x25, 0xC0, 0x2D), Col(0x59, 0xC5, 0x82, 0x39),
              Col(0xBF, 0x8E, 0xFE, 0xC4), Col(0x68, 0x22, 0xE9, 0x7B), Col(0x34, 0x06, 0xE2, 0x81), Col(0x9F, 0x39, 0x34, 0x46));
  }

  lemma State12()
    ensures StateIs(12, Col(0xFC, 0xC3, 0xF0, 0xB6), Col(0xDE, 0x28, 0xBA, 0x6C), Col(0x1E, 0x10, 0xD2, 0xBC), Col(0x57, 0xF2, 0x83, 0x55))
  {
    hide WordIs, StateIs, Sub, Ends, SubCol, Mix;
    Start();
    Entries32();
    Entries64();
    Entries96();
    Entries127();
    Words43();
    Words55();
    State9();
    MixedColumn(0xBF, 0x22, 0xE2, 0x46, 0x08, 0x93, 0x98, 0x5A, Col(0xDE, 0x13, 0x69, 0x67), Col(0xA2, 0xCF, 0x37, 0xC0));
    MixedColumn(0x68, 0x06, 0x34, 0xC4, 0x45, 0x6F, 0x18, 0x1C, Col(0x6C, 0xCC, 0x5A, 0x71), Col(0x53, 0x63, 0x64, 0xF1));
    MixedColumn(0x34, 0x39, 0xFE, 0x7B, 0x18, 0x12, 0xBB, 0x21, Col(0xFA, 0x25, 0x63, 0x95), Col(0x66, 0xEE, 0x67, 0x56));
    MixedColumn(0x9F, 0x8E, 0xE9, 0x81, 0xDB, 0x19, 0x1E, 0x0C, Col(0x96, 0x74, 0xEE, 0x15), Col(0x02, 0xB3, 0x04, 0x7C));
    NextState(10, Col(0xBF, 0x8E, 0xFE, 0xC4), Col(0x68, 0x22, 0xE9, 0x7B), Col(0x34, 0x06, 0xE2, 0x81), Col(0x9F, 0x39, 0x34, 0x46),
              Col(0xDE, 0x13, 0x69, 0x67), Col(0x6C, 0xCC, 0x5A, 0x71), Col(0xFA, 0x25, 0x63, 0x95), Col(0x96, 0x74, 0xEE, 0x15),
              Col(0xA2, 0xCF, 0x37, 0xC0), Col(0x53, 0x63, 0x64, 0xF1), Col(0x66, 0xEE, 0x67, 0x56), Col(0x02, 0xB3, 0x04, 0x7C));
    MixedColumn(0xA2, 0x63, 0x67, 0x7C, 0x3A, 0xFB, 0x85, 0x10, Col(0x58, 0x86, 0xCA, 0x5D), Col(0xAF, 0xD5, 0x2A, 0x4D));
    MixedColumn(0x53, 0xEE, 0x04, 0xC0, 0xED, 0x28, 0xF2, 0xBA, Col(0x2E, 0x2F, 0x31, 0xD7), Col(0xDF, 0x25, 0xDE, 0x4E));
    MixedColumn(0x66, 0xB3, 0x37, 0xF1, 0x33, 0x6D, 0x9A, 0xA1, Col(0x7E, 0x0A, 0xF1, 0xFA), Col(0x94, 0xF7, 0x78, 0x01));
    MixedColumn(0x02, 0xCF, 0x64, 0x56, 0x77, 0x8A, 0x43, 0xB1, Col(0x27, 0xCF, 0x73, 0xC3), Col(0xBE, 0xC3, 0xC0, 0xEA));
    NextState(11, Col(0xA2, 0xCF, 0x37, 0xC0), Col(0x53, 0x63, 0x64, 0xF1), Col(0x66, 0xEE, 0x67, 0x56), Col(0x02, 0xB3, 0x04, 0x7C),
              Col(0x58, 0x86, 0xCA, 0x5D), Col(0x2E, 0x2F, 0x31, 0xD7), Col(0x7E, 0x0A, 0xF1, 0xFA), Col(0x27, 0xCF, 0x73, 0xC3),
              Col(0xAF, 0xD5, 0x2A, 0x4D), Col(0xDF, 0x25, 0xDE, 0x4E), Col(0x94, 0xF7, 0x78, 0x01), Col(0xBE, 0xC3, 0xC0, 0xEA));
    MixedColumn(0xAF, 0x25, 0x78, 0xEA, 0x79, 0x3F, 0xBC, 0x87, Col(0x74, 0x9C, 0x47, 0xAB), Col(0xFC, 0xC3, 0xF0, 0xB6));
    MixedColumn(0xDF, 0xF7, 0xC0, 0x4D, 0x9E, 0x68, 0xBA, 0xE3, Col(0x18, 0x50, 0x1D, 0xDA), Col(0xDE, 0x28, 0xBA, 0x6C));
    MixedColumn(0x94, 0xC3, 0x2A, 0x4E, 0x22, 0x2E, 0xE5, 0x2F, Col(0xE2, 0x75, 0x7E, 0x4F), Col(0x1E, 0x10, 0xD2, 0xBC));
    MixedColumn(0xBE, 0xD5, 0xDE, 0x01, 0xAE, 0x03, 0x1D, 0x7C, Col(0x74, 0x01, 0x90, 0x5A), Col(0x57, 0xF2, 0x83, 0x55));
    NextState(12, Col(0xAF, 0xD5, 0x2A, 0x4D), Col(0xDF, 0x25, 0xDE, 0x4E), Col(0x94, 0xF7, 0x78, 0x01), Col(0xBE, 0xC3, 0xC0, 0xEA),
              Col(0x74, 0x9C, 0x47, 0xAB), Col(0x18, 0x50, 0x1D, 0xDA), Col(0xE2, 0x75, 0x7E, 0x4F), Col(0x74, 0x01, 0x90, 0x5A),
              Col(0xFC, 0xC3, 0xF0, 0xB6), Col(0xDE, 0x28, 0xBA, 0x6C), Col(0x1E, 0x10, 0xD2, 0xBC), Col(0x57, 0xF2, 0x83, 0x55));
  }

  lemma State13()
    ensures StateIs(13, Col(0xA4, 0x1A, 0x40, 0x4A), Col(0x39, 0x26, 0x5D, 0xA9), Col(0x22, 0x7B, 0x62, 0xFD), Col(0xE8, 0x75, 0x30, 0xF0))
  {
    hide WordIs, StateIs, Sub, Ends, SubCol, Mix;
    Start();
    Entries32();
    Entries64();
    Entries96();
    Entries127();
    Words55();
    State12();
    MixedColumn(0xFC, 0x28, 0xD2, 0x55, 0xB0, 0x34, 0xB5, 0xFC, Col(0xCA, 0xFA, 0xAA, 0xE3), Col(0xA4, 0x1A, 0x40, 0x4A));
    MixedColumn(0xDE, 0x10, 0x83, 0xB6, 0x1D, 0xCA, 0xEC, 0x4E, Col(0xE4, 0xD5, 0x9B, 0x34), Col(0x39, 0x26, 0x5D, 0xA9));
    MixedColumn(0x1E, 0xF2, 0xF0, 0x6C, 0x72, 0x89, 0x8C, 0x50, Col(0x9A, 0xDF, 0x6A, 0xCE), Col(0x22, 0x7B, 0x62, 0xFD));
    MixedColumn(0x57, 0xC3, 0xBA, 0xBC, 0x5B, 0x2E, 0xF4, 0x65, Col(0xBD, 0x10, 0x19, 0x0D), Col(0xE8, 0x75, 0x30, 0xF0));
    NextState(13, Col(0xFC, 0xC3, 0xF0, 0xB6), Col(0xDE, 0x28, 0xBA, 0x6C), Col(0x1E, 0x10, 0xD2, 0xBC), Col(0x57, 0xF2, 0x83, 0x55),
              Col(0xCA, 0xFA, 0xAA, 0xE3), Col(0xE4, 0xD5, 0x9B, 0x34), Col(0x9A, 0xDF, 0x6A, 0xCE), Col(0xBD, 0x10, 0x19, 0x0D),
              Col(0xA4, 0x1A, 0x40, 0x4A), Col(0x39, 0x26, 0x5D, 0xA9), Col(0x22, 0x7B, 0x62, 0xFD), Col(0xE8, 0x75, 0x30, 0xF0));
  }

  lemma Ciphered()
    ensures Cipher(Expanded(KeyWords(Key())), 14, LoadState(Block())) == State(Col(0xB7, 0xBF, 0x3A, 0x5D), Col(0xF4, 0x39, 0x89, 0xDD), Col(0x97, 0xF0, 0xFA, 0x97), Col(0xEB, 0xCE, 0x2F, 0x4A))
  {
    hide WordIs, Sub, Ends, SubCol, Mix;
    hide Expanded, Cipher, Rounds, Key, KeyWords, LoadState, Block, RoundKey;
    Start();
    Entries32();
    Entries64();
    Entries96();
    Entries127();
    Words59();
    State13();
    LastColumn(0xA4, 0x26, 0x62, 0xF0, 0x49, 0xF7, 0xAA, 0x8C, Col(0xFE, 0x48, 0x90, 0xD1), Col(0xB7, 0xBF, 0x3A, 0x5D));
    LastColumn(0x39, 0x7B, 0x30, 0x4A, 0x12, 0x21, 0x04, 0xD6, Col(0xE6, 0x18, 0x8D, 0x0B), Col(0xF4, 0x39, 0x89, 0xDD));
    LastColumn(0x22, 0x75, 0x40, 0xA9, 0x93, 0x9D, 0x09, 0xD3, Col(0x04, 0x6D, 0xF3, 0x44), Col(0x97, 0xF0, 0xFA, 0x97));
    LastColumn(0xE8, 0x1A, 0x5D, 0xFD, 0x9B, 0xA2, 0x4C, 0x54, Col(0x70, 0x6C, 0x63, 0x1E), Col(0xEB, 0xCE, 0x2F, 0x4A));
    RoundKeyIs(14, Col(0xFE, 0x48, 0x90, 0xD1), Col(0xE6, 0x18, 0x8D, 0x0B), Col(0x04, 0x6D, 0xF3, 0x44), Col(0x70, 0x6C, 0x63, 0x1E));
    LastState(Expanded(KeyWords(Key())), LoadState(Block()), Col(0xA4, 0x1A, 0x40, 0x4A), Col(0x39, 0x26, 0x5D, 0xA9), Col(0x22, 0x7B, 0x62, 0xFD), Col(0xE8, 0x75, 0x30, 0xF0),
              Col(0xFE, 0x48, 0x90, 0xD1), Col(0xE6, 0x18, 0x8D, 0x0B), Col(0x04, 0x6D, 0xF3, 0x44), Col(0x70, 0x6C, 0x63, 0x1E),
              Col(0xB7, 0xBF, 0x3A, 0x5D), Col(0xF4, 0x39, 0x89, 0xDD), Col(0x97, 0xF0, 0xFA, 0x97), Col(0xEB, 0xCE, 0x2F, 0x4A));
  }

  function Plain(): (p: seq<bv8>)
    ensures |p| == 16
  {
    [0x6B, 0xC1, 0xBE, 0xE2, 0x2E, 0x40, 0x9F, 0x96, 0xE9, 0x3D, 0x7E, 0x11, 0x73, 0x93, 0x17, 0x2A]
  }

  lemma PlainState()
    ensures LoadState(Plain()) == State(Col(0x6B, 0xC1, 0xBE, 0xE2), Col(0x2E, 0x40, 0x9F, 0x96), Col(0xE9, 0x3D, 0x7E, 0x11), Col(0x73, 0x93, 0x17, 0x2A))
  {}

  lemma Combined()
    ensures AddKey(State(Col(0x6B, 0xC1, 0xBE, 0xE2), Col(0x2E, 0x40, 0x9F, 0x96), Col(0xE9, 0x3D, 0x7E, 0x11), Col(0x73, 0x93, 0x17, 0x2A)),
                   State(Col(0xB7, 0xBF, 0x3A, 0x5D), Col(0xF4, 0x39, 0x89, 0xDD), Col(0x97, 0xF0, 0xFA, 0x97), Col(0xEB, 0xCE, 0x2F, 0x4A)))
            == State(Col(0xDC, 0x7E, 0x84, 0xBF), Col(0xDA, 0x79, 0x16, 0x4B), Col(0x7E, 0xCD, 0x84, 0x86), Col(0x98, 0x5D, 0x38, 0x60))
  {}

  /** The first ciphertext block: the first plaintext block plus the encrypted IV. */
  lemma SelfTestVector()
    ensures StoreState(AddKey(LoadState(Plain()), Cipher(Expanded(KeyWords(Key())), 14, LoadState(Block()))))
            == [0xDC, 0x7E, 0x84, 0xBF, 0xDA, 0x79, 0x16, 0x4B, 0x7E, 0xCD, 0x84, 0x86, 0x98, 0x5D, 0x38, 0x60]
  {
    hide Cipher, Expanded, KeyWords, LoadState, AddKey, Plain, Block, Key;
    PlainState();
    Ciphered();
    Combined();
  }

}