/** The substitution boxes as FIPS 197 prints them, which are also the tables compiled
    in where they are not generated. Inverses are found by walking the powers of three
    from both ends. */
module SBoxFigures {
  import opened Bytes
  import opened Field
  import opened Gf
  import opened SBoxes
  import opened Columns
  import opened AesTables

  // ----------------------------------------------------------- the entries

  /** Two inverse bytes, `l` powers of three from one in either direction. */
  ghost predicate Ends(l: nat, a: bv8, b: bv8) {
    l <= 255 && Power(l) == a && Power(255 - l) == b
  }

  ghost predicate Sub(x: bv8, s: bv8) {
    SBox(x) == s
  }

  lemma Start()
    ensures Ends(0, 1, 1) && Sub(0x00, 0x63) && Sub(0x01, 0x7C)
  {
    hide Affine, CodeAffine, Inverse, Product, Power, SBox;
    PowerStart();
    PowerWraps(255);
    SBoxZero();
    assert IsLog(255, 1);
    SBoxByLog(1, 255);
    CodeAffineIsAffine(1);
    AffineOne();
  }

  lemma AffineOne()
    ensures Affine(1) == 0x7C
  {}

  /** One power further at both ends: two more entries. */
  lemma Further(l: nat, a: bv8, b: bv8, a': bv8, b': bv8, s: bv8, s': bv8)
    requires Ends(l, a, b) && l < 255 && Times3(a) == a' && Times3(b') == b && Affine(b') == s && Affine(a') == s'
    ensures Ends(l + 1, a', b') && Sub(a', s) && Sub(b', s')
  {
    hide Times3, Affine, CodeAffine, SBox;
    PowerNext(l);
    PowerNext(254 - l);
    Times3Injective(b', Power(254 - l));
    PowerNonZero(l + 1);
    PowerNonZero(254 - l);
    assert IsLog(l + 1, a') && IsLog(254 - l, b');
    SBoxByLog(a', l + 1);
    SBoxByLog(b', 254 - l);
    CodeAffineIsAffine(a');
    CodeAffineIsAffine(b');
  }

  lemma Entries32()
    ensures Ends(32, 0xE5, 0x0E)
    ensures Sub(0x03, 0x7B) && Sub(0xF6, 0x42) && Sub(0x05, 0x6B) && Sub(0x52, 0x00) && Sub(0x0F, 0x76) && Sub(0xC7, 0xC6) && Sub(0x11, 0x82) && Sub(0xB4, 0x8D)
    ensures Sub(0x33, 0xC3) && Sub(0x6C, 0x50) && Sub(0x55, 0xFC) && Sub(0x24, 0x36) && Sub(0xFF, 0x16) && Sub(0x1C, 0x9C) && Sub(0x1A, 0xA2) && Sub(0xFD, 0x54)
    ensures Sub(0x2E, 0x31) && Sub(0xA2, 0x3A) && Sub(0x72, 0x40) && Sub(0x97, 0x88) && Sub(0x96, 0x90) && Sub(0x84, 0x5F) && Sub(0xA1, 0x32) && Sub(0x7C, 0x10)
    ensures Sub(0xF8, 0x41) && Sub(0xDD, 0xC1) && Sub(0x13, 0x7D) && Sub(0x4B, 0xB3) && Sub(0x35, 0x96) && Sub(0x39, 0x12) && Sub(0x5F, 0xCF) && Sub(0x17, 0xF0)
    ensures Sub(0xE1, 0xF8) && Sub(0x0D, 0xD7) && Sub(0x38, 0x07) && Sub(0xF2, 0x89) && Sub(0x48, 0x52) && Sub(0xA7, 0x5C) && Sub(0xD8, 0x61) && Sub(0x94, 0x22)
    ensures Sub(0x73, 0x8F) && Sub(0x85, 0x97) && Sub(0x95, 0x2A) && Sub(0x8A, 0x7E) && Sub(0xA4, 0x49) && Sub(0x8F, 0x73) && Sub(0xF7, 0x68) && Sub(0x8C, 0x64)
    ensures Sub(0x02, 0x77) && Sub(0x8D, 0x5D) && Sub(0x06, 0x6F) && Sub(0x7B, 0x21) && Sub(0x0A, 0x67) && Sub(0x29, 0xA5) && Sub(0x1E, 0x72) && Sub(0xEE, 0x28)
    ensures Sub(0x22, 0x93) && Sub(0x5A, 0xBE) && Sub(0x66, 0x33) && Sub(0x36, 0x05) && Sub(0xAA, 0xAC) && Sub(0x12, 0xC9) && Sub(0xE5, 0xD9) && Sub(0x0E, 0xAB)
  {
    hide Ends, Sub;
    Start();
    Further(0, 0x01, 0x01, 0x03, 0xF6, 0x7B, 0x42);
    Further(1, 0x03, 0xF6, 0x05, 0x52, 0x6B, 0x00);
    Further(2, 0x05, 0x52, 0x0F, 0xC7, 0x76, 0xC6);
    Further(3, 0x0F, 0xC7, 0x11, 0xB4, 0x82, 0x8D);
    Further(4, 0x11, 0xB4, 0x33, 0x6C, 0xC3, 0x50);
    Further(5, 0x33, 0x6C, 0x55, 0x24, 0xFC, 0x36);
    Further(6, 0x55, 0x24, 0xFF, 0x1C, 0x16, 0x9C);
    Further(7, 0xFF, 0x1C, 0x1A, 0xFD, 0xA2, 0x54);
    Further(8, 0x1A, 0xFD, 0x2E, 0xA2, 0x31, 0x3A);
    Further(9, 0x2E, 0xA2, 0x72, 0x97, 0x40, 0x88);
    Further(10, 0x72, 0x97, 0x96, 0x84, 0x90, 0x5F);
    Further(11, 0x96, 0x84, 0xA1, 0x7C, 0x32, 0x10);
    Further(12, 0xA1, 0x7C, 0xF8, 0xDD, 0x41, 0xC1);
    Further(13, 0xF8, 0xDD, 0x13, 0x4B, 0x7D, 0xB3);
    Further(14, 0x13, 0x4B, 0x35, 0x39, 0x96, 0x12);
    Further(15, 0x35, 0x39, 0x5F, 0x17, 0xCF, 0xF0);
    Further(16, 0x5F, 0x17, 0xE1, 0x0D, 0xF8, 0xD7);
    Further(17, 0xE1, 0x0D, 0x38, 0xF2, 0x07, 0x89);
    Further(18, 0x38, 0xF2, 0x48, 0xA7, 0x52, 0x5C);
    Further(19, 0x48, 0xA7, 0xD8, 0x94, 0x61, 0x22);
    Further(20, 0xD8, 0x94, 0x73, 0x85, 0x8F, 0x97);
    Further(21, 0x73, 0x85, 0x95, 0x8A, 0x2A, 0x7E);
    Further(22, 0x95, 0x8A, 0xA4, 0x8F, 0x49, 0x73);
    Further(23, 0xA4, 0x8F, 0xF7, 0x8C, 0x68, 0x64);
    Further(24, 0xF7, 0x8C, 0x02, 0x8D, 0x77, 0x5D);
    Further(25, 0x02, 0x8D, 0x06, 0x7B, 0x6F, 0x21);
    Further(26, 0x06, 0x7B, 0x0A, 0x29, 0x67, 0xA5);
    Further(27, 0x0A, 0x29, 0x1E, 0xEE, 0x72, 0x28);
    Further(28, 0x1E, 0xEE, 0x22, 0x5A, 0x93, 0xBE);
    Further(29, 0x22, 0x5A, 0x66, 0x36, 0x33, 0x05);
    Further(30, 0x66, 0x36, 0xAA, 0x12, 0xAC, 0xC9);
    Further(31, 0xAA, 0x12, 0xE5, 0x0E, 0xD9, 0xAB);
  }

  lemma Entries64()
    ensures Ends(64, 0x4C, 0x54)
    ensures Sub(0x34, 0x18) && Sub(0xF3, 0x0D) && Sub(0x5C, 0x4A) && Sub(0x51, 0xD1) && Sub(0xE4, 0x69) && Sub(0xC6, 0xB4) && Sub(0x37, 0x9A) && Sub(0x42, 0x2C)
    ensures Sub(0x59, 0xCB) && Sub(0x3E, 0xB2) && Sub(0xEB, 0xE9) && Sub(0xE3, 0x11) && Sub(0x26, 0xF7) && Sub(0xA8, 0xC2) && Sub(0x6A, 0x02) && Sub(0x91, 0x81)
    ensures Sub(0xBE, 0xAE) && Sub(0x86, 0x44) && Sub(0xD9, 0x35) && Sub(0x8B, 0x3D) && Sub(0x70, 0x51) && Sub(0x79, 0xB6) && Sub(0x90, 0x60) && Sub(0xDE, 0x1D)
    ensures Sub(0xAB, 0x62) && Sub(0x4A, 0xD6) && Sub(0xE6, 0x8E) && Sub(0xCF, 0x8A) && Sub(0x31, 0xC7) && Sub(0x45, 0x6E) && Sub(0x53, 0xED) && Sub(0xCA, 0x74)
    ensures Sub(0xF5, 0xE6) && Sub(0x46, 0x5A) && Sub(0x04, 0xF2) && Sub(0xCB, 0x1F) && Sub(0x0C, 0xFE) && Sub(0xB0, 0xE7) && Sub(0x14, 0xFA) && Sub(0x99, 0xEE)
    ensures Sub(0x3C, 0xEB) && Sub(0x77, 0xF5) && Sub(0x44, 0x1B) && Sub(0x2D, 0xD8) && Sub(0xCC, 0x4B) && Sub(0x1B, 0xAF) && Sub(0x4F, 0x84) && Sub(0x09, 0x01)
    ensures Sub(0xD1, 0x3E) && Sub(0x07, 0xC5) && Sub(0x68, 0x45) && Sub(0xF4, 0xBF) && Sub(0xB8, 0x6C) && Sub(0xA5, 0x06) && Sub(0xD3, 0x66) && Sub(0x63, 0xFB)
    ensures Sub(0x6E, 0x9F) && Sub(0x21, 0xFD) && Sub(0xB2, 0x37) && Sub(0x1F, 0xC0) && Sub(0xCD, 0xBD) && Sub(0xFC, 0xB0) && Sub(0x4C, 0x29) && Sub(0x54, 0x20)
  {
    hide Ends, Sub;
    Entries32();
    Further(32, 0xE5, 0x0E, 0x34, 0xF3, 0x18, 0x0D);
    Further(33, 0x34, 0xF3, 0x5C, 0x51, 0x4A, 0xD1);
    Further(34, 0x5C, 0x51, 0xE4, 0xC6, 0x69, 0xB4);
    Further(35, 0xE4, 0xC6, 0x37, 0x42, 0x9A, 0x2C);
    Further(36, 0x37, 0x42, 0x59, 0x3E, 0xCB, 0xB2);
    Further(37, 0x59, 0x3E, 0xEB, 0xE3, 0xE9, 0x11);
    Further(38, 0xEB, 0xE3, 0x26, 0xA8, 0xF7, 0xC2);
    Further(39, 0x26, 0xA8, 0x6A, 0x91, 0x02, 0x81);
    Further(40, 0x6A, 0x91, 0xBE, 0x86, 0xAE, 0x44);
    Further(41, 0xBE, 0x86, 0xD9, 0x8B, 0x35, 0x3D);
    Further(42, 0xD9, 0x8B, 0x70, 0x79, 0x51, 0xB6);
    Further(43, 0x70, 0x79, 0x90, 0xDE, 0x60, 0x1D);
    Further(44, 0x90, 0xDE, 0xAB, 0x4A, 0x62, 0xD6);
    Further(45, 0xAB, 0x4A, 0xE6, 0xCF, 0x8E, 0x8A);
    Further(46, 0xE6, 0xCF, 0x31, 0x45, 0xC7, 0x6E);
    Further(47, 0x31, 0x45, 0x53, 0xCA, 0xED, 0x74);
    Further(48, 0x53, 0xCA, 0xF5, 0x46, 0xE6, 0x5A);
    Further(49, 0xF5, 0x46, 0x04, 0xCB, 0xF2, 0x1F);
    Further(50, 0x04, 0xCB, 0x0C, 0xB0, 0xFE, 0xE7);
    Further(51, 0x0C, 0xB0, 0x14, 0x99, 0xFA, 0xEE);
    Further(52, 0x14, 0x99, 0x3C, 0x77, 0xEB, 0xF5);
    Further(53, 0x3C, 0x77, 0x44, 0x2D, 0x1B, 0xD8);
    Further(54, 0x44, 0x2D, 0xCC, 0x1B, 0x4B, 0xAF);
    Further(55, 0xCC, 0x1B, 0x4F, 0x09, 0x84, 0x01);
    Further(56, 0x4F, 0x09, 0xD1, 0x07, 0x3E, 0xC5);
    Further(57, 0xD1, 0x07, 0x68, 0xF4, 0x45, 0xBF);
    Further(58, 0x68, 0xF4, 0xB8, 0xA5, 0x6C, 0x06);
    Further(59, 0xB8, 0xA5, 0xD3, 0x63, 0x66, 0xFB);
    Further(60, 0xD3, 0x63, 0x6E, 0x21, 0x9F, 0xFD);
    Further(61, 0x6E, 0x21, 0xB2, 0x1F, 0x37, 0xC0);
    Further(62, 0xB2, 0x1F, 0xCD, 0xFC, 0xBD, 0xB0);
    Further(63, 0xCD, 0xFC, 0x4C, 0x54, 0x29, 0x20);
  }

  lemma Entries96()
    ensures Ends(96, 0xB5, 0x75)
    ensures Sub(0xD4, 0x48) && Sub(0xC5, 0xA6) && Sub(0x67, 0x85) && Sub(0x43, 0x1A) && Sub(0xA9, 0xD3) && Sub(0xC8, 0xE8) && Sub(0xE0, 0xE1) && Sub(0xB1, 0xC8)
    ensures Sub(0x3B, 0xE2) && Sub(0x6F, 0xA8) && Sub(0x4D, 0xE3) && Sub(0x25, 0x3F) && Sub(0xD7, 0x0E) && Sub(0xEA, 0x87) && Sub(0x62, 0xAA) && Sub(0xAF, 0x79)
    ensures Sub(0xA6, 0x24) && Sub(0x65, 0x4D) && Sub(0xF1, 0xA1) && Sub(0x23, 0x26) && Sub(0x08, 0x30) && Sub(0xE8, 0x9B) && Sub(0x18, 0xAD) && Sub(0x58, 0x6A)
    ensures Sub(0x28, 0x34) && Sub(0xC1, 0x78) && Sub(0x78, 0xBC) && Sub(0xB6, 0x4E) && Sub(0x88, 0xC4) && Sub(0x9B, 0x14) && Sub(0x83, 0xEC) && Sub(0x80, 0xCD)
    ensures Sub(0x9E, 0x0B) && Sub(0x89, 0xA7) && Sub(0xB9, 0x56) && Sub(0x8E, 0x19) && Sub(0xD0, 0x70) && Sub(0x7A, 0xDA) && Sub(0x6B, 0x7F) && Sub(0xDF, 0x9E)
    ensures Sub(0xBD, 0x7A) && Sub(0xBC, 0x65) && Sub(0xDC, 0x86) && Sub(0x9D, 0x5E) && Sub(0x7F, 0xD2) && Sub(0x82, 0x13) && Sub(0x81, 0x0C) && Sub(0x7E, 0xF3)
    ensures Sub(0x98, 0x46) && Sub(0x2A, 0xE5) && Sub(0xB3, 0x6D) && Sub(0xEF, 0xDF) && Sub(0xCE, 0x8B) && Sub(0xAC, 0x91) && Sub(0x49, 0x3B) && Sub(0x64, 0x43)
    ensures Sub(0xDB, 0xB9) && Sub(0xD5, 0x03) && Sub(0x76, 0x38) && Sub(0xBA, 0xF4) && Sub(0x9A, 0xB8) && Sub(0x9F, 0xDB) && Sub(0xB5, 0xD5) && Sub(0x75, 0x9D)
  {
    hide Ends, Sub;
    Entries64();
    Further(64, 0x4C, 0x54, 0xD4, 0xC5, 0x48, 0xA6);
    Further(65, 0xD4, 0xC5, 0x67, 0x43, 0x85, 0x1A);
    Further(66, 0x67, 0x43, 0xA9, 0xC8, 0xD3, 0xE8);
    Further(67, 0xA9, 0xC8, 0xE0, 0xB1, 0xE1, 0xC8);
    Further(68, 0xE0, 0xB1, 0x3B, 0x6F, 0xE2, 0xA8);
    Further(69, 0x3B, 0x6F, 0x4D, 0x25, 0xE3, 0x3F);
    Further(70, 0x4D, 0x25, 0xD7, 0xEA, 0x0E, 0x87);
    Further(71, 0xD7, 0xEA, 0x62, 0xAF, 0xAA, 0x79);
    Further(72, 0x62, 0xAF, 0xA6, 0x65, 0x24, 0x4D);
    Further(73, 0xA6, 0x65, 0xF1, 0x23, 0xA1, 0x26);
    Further(74, 0xF1, 0x23, 0x08, 0xE8, 0x30, 0x9B);
    Further(75, 0x08, 0xE8, 0x18, 0x58, 0xAD, 0x6A);
    Further(76, 0x18, 0x58, 0x28, 0xC1, 0x34, 0x78);
    Further(77, 0x28, 0xC1, 0x78, 0xB6, 0xBC, 0x4E);
    Further(78, 0x78, 0xB6, 0x88, 0x9B, 0xC4, 0x14);
    Further(79, 0x88, 0x9B, 0x83, 0x80, 0xEC, 0xCD);
    Further(80, 0x83, 0x80, 0x9E, 0x89, 0x0B, 0xA7);
    Further(81, 0x9E, 0x89, 0xB9, 0x8E, 0x56, 0x19);
    Further(82, 0xB9, 0x8E, 0xD0, 0x7A, 0x70, 0xDA);
    Further(83, 0xD0, 0x7A, 0x6B, 0xDF, 0x7F, 0x9E);
    Further(84, 0x6B, 0xDF, 0xBD, 0xBC, 0x7A, 0x65);
    Further(85, 0xBD, 0xBC, 0xDC, 0x9D, 0x86, 0x5E);
    Further(86, 0xDC, 0x9D, 0x7F, 0x82, 0xD2, 0x13);
    Further(87, 0x7F, 0x82, 0x81, 0x7E, 0x0C, 0xF3);
    Further(88, 0x81, 0x7E, 0x98, 0x2A, 0x46, 0xE5);
    Further(89, 0x98, 0x2A, 0xB3, 0xEF, 0x6D, 0xDF);
    Further(90, 0xB3, 0xEF, 0xCE, 0xAC, 0x8B, 0x91);
    Further(91, 0xCE, 0xAC, 0x49, 0x64, 0x3B, 0x43);
    Further(92, 0x49, 0x64, 0xDB, 0xD5, 0xB9, 0x03);
    Further(93, 0xDB, 0xD5, 0x76, 0xBA, 0x38, 0xF4);
    Further(94, 0x76, 0xBA, 0x9A, 0x9F, 0xB8, 0xDB);
    Further(95, 0x9A, 0x9F, 0xB5, 0x75, 0xD5, 0x9D);
  }

  lemma Entries127()
    ensures Ends(127, 0xA0, 0xFB)
    ensures Sub(0xC4, 0x1C) && Sub(0xDA, 0x57) && Sub(0x57, 0x5B) && Sub(0xBF, 0x08) && Sub(0xF9, 0x99) && Sub(0x9C, 0xDE) && Sub(0x10, 0xCA) && Sub(0x74, 0x92)
    ensures Sub(0x30, 0x04) && Sub(0x2C, 0x71) && Sub(0x50, 0x53) && Sub(0xED, 0x55) && Sub(0xF0, 0x8C) && Sub(0x5B, 0x39) && Sub(0x0B, 0x2B) && Sub(0xC0, 0xBA)
    ensures Sub(0x1D, 0xA4) && Sub(0x40, 0x09) && Sub(0x27, 0xCC) && Sub(0xC9, 0xDD) && Sub(0x69, 0xF9) && Sub(0x47, 0xA0) && Sub(0xBB, 0xEA) && Sub(0x3D, 0x27)
    ensures Sub(0xD6, 0xF6) && Sub(0xE2, 0x98) && Sub(0x61, 0xEF) && Sub(0x5E, 0x58) && Sub(0xA3, 0x0A) && Sub(0xC3, 0x2E) && Sub(0xFE, 0xBB) && Sub(0x41, 0x83)
    ensures Sub(0x19, 0xD4) && Sub(0x3F, 0x75) && Sub(0x2B, 0xF1) && Sub(0x15, 0x59) && Sub(0x7D, 0xFF) && Sub(0xFA, 0x2D) && Sub(0x87, 0x17) && Sub(0x56, 0xB1)
    ensures Sub(0x92, 0x4F) && Sub(0x32, 0x23) && Sub(0xAD, 0x95) && Sub(0xE7, 0x94) && Sub(0xEC, 0xCE) && Sub(0x5D, 0x4C) && Sub(0x2F, 0x15) && Sub(0xC2, 0x25)
    ensures Sub(0x71, 0xA3) && Sub(0xB7, 0xA9) && Sub(0x93, 0xDC) && Sub(0x6D, 0x3C) && Sub(0xAE, 0xE4) && Sub(0xD2, 0xB5) && Sub(0xE9, 0x1E) && Sub(0x4E, 0x2F)
    ensures Sub(0x20, 0xB7) && Sub(0x3A, 0x80) && Sub(0x60, 0xD0) && Sub(0x16, 0x47) && Sub(0xA0, 0xE0) && Sub(0xFB, 0x0F)
  {
    hide Ends, Sub;
    Entries96();
    Further(96, 0xB5, 0x75, 0xC4, 0xDA, 0x1C, 0x57);
    Further(97, 0xC4, 0xDA, 0x57, 0xBF, 0x5B, 0x08);
    Further(98, 0x57, 0xBF, 0xF9, 0x9C, 0x99, 0xDE);
    Further(99, 0xF9, 0x9C, 0x10, 0x74, 0xCA, 0x92);
    Further(100, 0x10, 0x74, 0x30, 0x2C, 0x04, 0x71);
    Further(101, 0x30, 0x2C, 0x50, 0xED, 0x53, 0x55);
    Further(102, 0x50, 0xED, 0xF0, 0x5B, 0x8C, 0x39);
    Further(103, 0xF0, 0x5B, 0x0B, 0xC0, 0x2B, 0xBA);
    Further(104, 0x0B, 0xC0, 0x1D, 0x40, 0xA4, 0x09);
    Further(105, 0x1D, 0x40, 0x27, 0xC9, 0xCC, 0xDD);
    Further(106, 0x27, 0xC9, 0x69, 0x47, 0xF9, 0xA0);
    Further(107, 0x69, 0x47, 0xBB, 0x3D, 0xEA, 0x27);
    Further(108, 0xBB, 0x3D, 0xD6, 0xE2, 0xF6, 0x98);
    Further(109, 0xD6, 0xE2, 0x61, 0x5E, 0xEF, 0x58);
    Further(110, 0x61, 0x5E, 0xA3, 0xC3, 0x0A, 0x2E);
    Further(111, 0xA3, 0xC3, 0xFE, 0x41, 0xBB, 0x83);
    Further(112, 0xFE, 0x41, 0x19, 0x3F, 0xD4, 0x75);
    Further(113, 0x19, 0x3F, 0x2B, 0x15, 0xF1, 0x59);
    Further(114, 0x2B, 0x15, 0x7D, 0xFA, 0xFF, 0x2D);
    Further(115, 0x7D, 0xFA, 0x87, 0x56, 0x17, 0xB1);
    Further(116, 0x87, 0x56, 0x92, 0x32, 0x4F, 0x23);
    Further(117, 0x92, 0x32, 0xAD, 0xE7, 0x95, 0x94);
    Further(118, 0xAD, 0xE7, 0xEC, 0x5D, 0xCE, 0x4C);
    Further(119, 0xEC, 0x5D, 0x2F, 0xC2, 0x15, 0x25);
    Further(120, 0x2F, 0xC2, 0x71, 0xB7, 0xA3, 0xA9);
    Further(121, 0x71, 0xB7, 0x93, 0x6D, 0xDC, 0x3C);
    Further(122, 0x93, 0x6D, 0xAE, 0xD2, 0xE4, 0xB5);
    Further(123, 0xAE, 0xD2, 0xE9, 0x4E, 0x1E, 0x2F);
    Further(124, 0xE9, 0x4E, 0x20, 0x3A, 0xB7, 0x80);
    Further(125, 0x20, 0x3A, 0x60, 0x16, 0xD0, 0x47);
    Further(126, 0x60, 0x16, 0xA0, 0xFB, 0xE0, 0x0F);
  }

  // -------------------------------------------------------------- the rows

  /** The box as a table of 256 entries. */
  ghost function BoxTable(): (t: seq<bv8>)
    ensures |t| == 256 && forall i :: 0 <= i < 256 ==> t[i] == SBox(ToByte(i))
  {
    seq<bv8>(256, i requires 0 <= i < 256 => SBox(ToByte(i)))
  }

  ghost function InvTable(): (t: seq<bv8>)
    ensures |t| == 256 && forall i :: 0 <= i < 256 ==> t[i] == InvSBox(ToByte(i))
  {
    seq<bv8>(256, i requires 0 <= i < 256 => InvSBox(ToByte(i)))
  }

  /** Sixteen entries in a row of the figure. */
  ghost predicate BoxRow(r: nat, row: seq<bv8>) {
    16 * r + 16 <= 256 && BoxTable()[16 * r..16 * r + 16] == row
  }

  ghost predicate InvRow(r: nat, row: seq<bv8>) {
    16 * r + 16 <= 256 && InvTable()[16 * r..16 * r + 16] == row
  }

  lemma Slice(t: seq<bv8>, at: nat, s0: bv8, s1: bv8, s2: bv8, s3: bv8, s4: bv8, s5: bv8, s6: bv8, s7: bv8, s8: bv8, s9: bv8, s10: bv8, s11: bv8, s12: bv8, s13: bv8, s14: bv8, s15: bv8)
    requires at + 16 <= |t|
    requires t[at + 0] == s0 && t[at + 1] == s1 && t[at + 2] == s2 && t[at + 3] == s3 && t[at + 4] == s4 && t[at + 5] == s5 && t[at + 6] == s6 && t[at + 7] == s7
    requires t[at + 8] == s8 && t[at + 9] == s9 && t[at + 10] == s10 && t[at + 11] == s11 && t[at + 12] == s12 && t[at + 13] == s13 && t[at + 14] == s14 && t[at + 15] == s15
    ensures t[at..at + 16] == [s0, s1, s2, s3, s4, s5, s6, s7, s8, s9, s10, s11, s12, s13, s14, s15]
  {}

  predicate HighOnly(x: bv8) {
    x & 0x0F == 0
  }

  predicate LowOnly(x: bv8) {
    x & 0xF0 == 0
  }

  function Or(hi: bv8, lo: bv8): bv8 {
    hi | lo
  }

  lemma TwoNibbles(hi: bv8, lo: bv8)
    requires HighOnly(hi) && LowOnly(lo)
    ensures Ix(Or(hi, lo)) == Ix(hi) + Ix(lo)
  {}

  lemma SmallBytes()
    ensures Ix(0) == 0 && LowOnly(0) && Ix(1) == 1 && LowOnly(1) && Ix(2) == 2 && LowOnly(2) && Ix(3) == 3 && LowOnly(3)
    ensures Ix(4) == 4 && LowOnly(4) && Ix(5) == 5 && LowOnly(5) && Ix(6) == 6 && LowOnly(6) && Ix(7) == 7 && LowOnly(7)
    ensures Ix(8) == 8 && LowOnly(8) && Ix(9) == 9 && LowOnly(9) && Ix(10) == 10 && LowOnly(10) && Ix(11) == 11 && LowOnly(11)
    ensures Ix(12) == 12 && LowOnly(12) && Ix(13) == 13 && LowOnly(13) && Ix(14) == 14 && LowOnly(14) && Ix(15) == 15 && LowOnly(15)
  {}

  lemma Entry(r: nat, hi: bv8, u: nat, lo: bv8)
    requires r < 16 && Ix(hi) == 16 * r && HighOnly(hi) && Ix(lo) == u < 16 && LowOnly(lo)
    ensures ToByte(16 * r + u) == Or(hi, lo)
  {
    hide Ix, ToByte, Or, HighOnly, LowOnly;
    TwoNibbles(hi, lo);
    ByteOfIndex(Or(hi, lo));
  }

  /** The sixteen bytes of a row. */
  lemma RowBytes(r: nat, hi: bv8)
    requires r < 16 && Ix(hi) == 16 * r && HighOnly(hi)
    ensures ToByte(16 * r + 0) == Or(hi, 0x00) && ToByte(16 * r + 1) == Or(hi, 0x01) && ToByte(16 * r + 2) == Or(hi, 0x02) && ToByte(16 * r + 3) == Or(hi, 0x03) && ToByte(16 * r + 4) == Or(hi, 0x04) && ToByte(16 * r + 5) == Or(hi, 0x05) && ToByte(16 * r + 6) == Or(hi, 0x06) && ToByte(16 * r + 7) == Or(hi, 0x07)
    ensures ToByte(16 * r + 8) == Or(hi, 0x08) && ToByte(16 * r + 9) == Or(hi, 0x09) && ToByte(16 * r + 10) == Or(hi, 0x0A) && ToByte(16 * r + 11) == Or(hi, 0x0B) && ToByte(16 * r + 12) == Or(hi, 0x0C) && ToByte(16 * r + 13) == Or(hi, 0x0D) && ToByte(16 * r + 14) == Or(hi, 0x0E) && ToByte(16 * r + 15) == Or(hi, 0x0F)
  {
    hide Ix, ToByte, Or, HighOnly, LowOnly;
    SmallBytes();
    Entry(r, hi, 0, 0x00);
    Entry(r, hi, 1, 0x01);
    Entry(r, hi, 2, 0x02);
    Entry(r, hi, 3, 0x03);
    Entry(r, hi, 4, 0x04);
    Entry(r, hi, 5, 0x05);
    Entry(r, hi, 6, 0x06);
    Entry(r, hi, 7, 0x07);
    Entry(r, hi, 8, 0x08);
    Entry(r, hi, 9, 0x09);
    Entry(r, hi, 10, 0x0A);
    Entry(r, hi, 11, 0x0B);
    Entry(r, hi, 12, 0x0C);
    Entry(r, hi, 13, 0x0D);
    Entry(r, hi, 14, 0x0E);
    Entry(r, hi, 15, 0x0F);
  }

  lemma BoxRowOf(r: nat, hi: bv8, s0: bv8, s1: bv8, s2: bv8, s3: bv8, s4: bv8, s5: bv8, s6: bv8, s7: bv8, s8: bv8, s9: bv8, s10: bv8, s11: bv8, s12: bv8, s13: bv8, s14: bv8, s15: bv8)
    requires r < 16 && Ix(hi) == 16 * r && HighOnly(hi)
    requires Sub(Or(hi, 0x00), s0) && Sub(Or(hi, 0x01), s1) && Sub(Or(hi, 0x02), s2) && Sub(Or(hi, 0x03), s3) && Sub(Or(hi, 0x04), s4) && Sub(Or(hi, 0x05), s5) && Sub(Or(hi, 0x06), s6) && Sub(Or(hi, 0x07), s7)
    requires Sub(Or(hi, 0x08), s8) && Sub(Or(hi, 0x09), s9) && Sub(Or(hi, 0x0A), s10) && Sub(Or(hi, 0x0B), s11) && Sub(Or(hi, 0x0C), s12) && Sub(Or(hi, 0x0D), s13) && Sub(Or(hi, 0x0E), s14) && Sub(Or(hi, 0x0F), s15)
    ensures BoxRow(r, [s0, s1, s2, s3, s4, s5, s6, s7, s8, s9, s10, s11, s12, s13, s14, s15])
  {
    hide Ix, ToByte, Or, HighOnly, SBox;
    RowBytes(r, hi);
    Slice(BoxTable(), 16 * r, s0, s1, s2, s3, s4, s5, s6, s7, s8, s9, s10, s11, s12, s13, s14, s15);
  }

  lemma InvRowOf(r: nat, hi: bv8, s0: bv8, s1: bv8, s2: bv8, s3: bv8, s4: bv8, s5: bv8, s6: bv8, s7: bv8, s8: bv8, s9: bv8, s10: bv8, s11: bv8, s12: bv8, s13: bv8, s14: bv8, s15: bv8)
    requires r < 16 && Ix(hi) == 16 * r && HighOnly(hi)
    requires Sub(s0, Or(hi, 0x00)) && Sub(s1, Or(hi, 0x01)) && Sub(s2, Or(hi, 0x02)) && Sub(s3, Or(hi, 0x03)) && Sub(s4, Or(hi, 0x04)) && Sub(s5, Or(hi, 0x05)) && Sub(s6, Or(hi, 0x06)) && Sub(s7, Or(hi, 0x07))
    requires Sub(s8, Or(hi, 0x08)) && Sub(s9, Or(hi, 0x09)) && Sub(s10, Or(hi, 0x0A)) && Sub(s11, Or(hi, 0x0B)) && Sub(s12, Or(hi, 0x0C)) && Sub(s13, Or(hi, 0x0D)) && Sub(s14, Or(hi, 0x0E)) && Sub(s15, Or(hi, 0x0F))
    ensures InvRow(r, [s0, s1, s2, s3, s4, s5, s6, s7, s8, s9, s10, s11, s12, s13, s14, s15])
  {
    hide Ix, ToByte, Or, HighOnly, SBox, InvSBox;
    RowBytes(r, hi);
    InvSBoxIs(s0); InvSBoxIs(s1); InvSBoxIs(s2); InvSBoxIs(s3);
    InvSBoxIs(s4); InvSBoxIs(s5); InvSBoxIs(s6); InvSBoxIs(s7);
    InvSBoxIs(s8); InvSBoxIs(s9); InvSBoxIs(s10); InvSBoxIs(s11);
    InvSBoxIs(s12); InvSBoxIs(s13); InvSBoxIs(s14); InvSBoxIs(s15);
    Slice(InvTable(), 16 * r, s0, s1, s2, s3, s4, s5, s6, s7, s8, s9, s10, s11, s12, s13, s14, s15);
  }

  lemma HighBytes()
    ensures Ix(0x00) == 0 && Ix(0x10) == 16 && Ix(0x20) == 32 && Ix(0x30) == 48 && Ix(0x40) == 64 && Ix(0x50) == 80 && Ix(0x60) == 96 && Ix(0x70) == 112
    ensures Ix(0x80) == 128 && Ix(0x90) == 144 && Ix(0xA0) == 160 && Ix(0xB0) == 176 && Ix(0xC0) == 192 && Ix(0xD0) == 208 && Ix(0xE0) == 224 && Ix(0xF0) == 240
  {}

  lemma Figure7()
    ensures BoxRow(0, [0x63, 0x7C, 0x77, 0x7B, 0xF2, 0x6B, 0x6F, 0xC5, 0x30, 0x01, 0x67, 0x2B, 0xFE, 0xD7, 0xAB, 0x76])
    ensures BoxRow(1, [0xCA, 0x82, 0xC9, 0x7D, 0xFA, 0x59, 0x47, 0xF0, 0xAD, 0xD4, 0xA2, 0xAF, 0x9C, 0xA4, 0x72, 0xC0])
    ensures BoxRow(2, [0xB7, 0xFD, 0x93, 0x26, 0x36, 0x3F, 0xF7, 0xCC, 0x34, 0xA5, 0xE5, 0xF1, 0x71, 0xD8, 0x31, 0x15])
    ensures BoxRow(3, [0x04, 0xC7, 0x23, 0xC3, 0x18, 0x96, 0x05, 0x9A, 0x07, 0x12, 0x80, 0xE2, 0xEB, 0x27, 0xB2, 0x75])
    ensures BoxRow(4, [0x09, 0x83, 0x2C, 0x1A, 0x1B, 0x6E, 0x5A, 0xA0, 0x52, 0x3B, 0xD6, 0xB3, 0x29, 0xE3, 0x2F, 0x84])
    ensures BoxRow(5, [0x53, 0xD1, 0x00, 0xED, 0x20, 0xFC, 0xB1, 0x5B, 0x6A, 0xCB, 0xBE, 0x39, 0x4A, 0x4C, 0x58, 0xCF])
    ensures BoxRow(6, [0xD0, 0xEF, 0xAA, 0xFB, 0x43, 0x4D, 0x33, 0x85, 0x45, 0xF9, 0x02, 0x7F, 0x50, 0x3C, 0x9F, 0xA8])
    ensures BoxRow(7, [0x51, 0xA3, 0x40, 0x8F, 0x92, 0x9D, 0x38, 0xF5, 0xBC, 0xB6, 0xDA, 0x21, 0x10, 0xFF, 0xF3, 0xD2])
    ensures BoxRow(8, [0xCD, 0x0C, 0x13, 0xEC, 0x5F, 0x97, 0x44, 0x17, 0xC4, 0xA7, 0x7E, 0x3D, 0x64, 0x5D, 0x19, 0x73])
    ensures BoxRow(9, [0x60, 0x81, 0x4F, 0xDC, 0x22, 0x2A, 0x90, 0x88, 0x46, 0xEE, 0xB8, 0x14, 0xDE, 0x5E, 0x0B, 0xDB])
    ensures BoxRow(10, [0xE0, 0x32, 0x3A, 0x0A, 0x49, 0x06, 0x24, 0x5C, 0xC2, 0xD3, 0xAC, 0x62, 0x91, 0x95, 0xE4, 0x79])
    ensures BoxRow(11, [0xE7, 0xC8, 0x37, 0x6D, 0x8D, 0xD5, 0x4E, 0xA9, 0x6C, 0x56, 0xF4, 0xEA, 0x65, 0x7A, 0xAE, 0x08])
    ensures BoxRow(12, [0xBA, 0x78, 0x25, 0x2E, 0x1C, 0xA6, 0xB4, 0xC6, 0xE8, 0xDD, 0x74, 0x1F, 0x4B, 0xBD, 0x8B, 0x8A])
    ensures BoxRow(13, [0x70, 0x3E, 0xB5, 0x66, 0x48, 0x03, 0xF6, 0x0E, 0x61, 0x35, 0x57, 0xB9, 0x86, 0xC1, 0x1D, 0x9E])
    ensures BoxRow(14, [0xE1, 0xF8, 0x98, 0x11, 0x69, 0xD9, 0x8E, 0x94, 0x9B, 0x1E, 0x87, 0xE9, 0xCE, 0x55, 0x28, 0xDF])
    ensures BoxRow(15, [0x8C, 0xA1, 0x89, 0x0D, 0xBF, 0xE6, 0x42, 0x68, 0x41, 0x99, 0x2D, 0x0F, 0xB0, 0x54, 0xBB, 0x16])
  {
    hide Ends, Sub, Ix, BoxRow;
    Start();
    Entries32();
    Entries64();
    Entries96();
    Entries127();
    HighBytes();
    BoxRowOf(0, 0x00, 0x63, 0x7C, 0x77, 0x7B, 0xF2, 0x6B, 0x6F, 0xC5, 0x30, 0x01, 0x67, 0x2B, 0xFE, 0xD7, 0xAB, 0x76);
    BoxRowOf(1, 0x10, 0xCA, 0x82, 0xC9, 0x7D, 0xFA, 0x59, 0x47, 0xF0, 0xAD, 0xD4, 0xA2, 0xAF, 0x9C, 0xA4, 0x72, 0xC0);
    BoxRowOf(2, 0x20, 0xB7, 0xFD, 0x93, 0x26, 0x36, 0x3F, 0xF7, 0xCC, 0x34, 0xA5, 0xE5, 0xF1, 0x71, 0xD8, 0x31, 0x15);
    BoxRowOf(3, 0x30, 0x04, 0xC7, 0x23, 0xC3, 0x18, 0x96, 0x05, 0x9A, 0x07, 0x12, 0x80, 0xE2, 0xEB, 0x27, 0xB2, 0x75);
    BoxRowOf(4, 0x40, 0x09, 0x83, 0x2C, 0x1A, 0x1B, 0x6E, 0x5A, 0xA0, 0x52, 0x3B, 0xD6, 0xB3, 0x29, 0xE3, 0x2F, 0x84);
    BoxRowOf(5, 0x50, 0x53, 0xD1, 0x00, 0xED, 0x20, 0xFC, 0xB1, 0x5B, 0x6A, 0xCB, 0xBE, 0x39, 0x4A, 0x4C, 0x58, 0xCF);
    BoxRowOf(6, 0x60, 0xD0, 0xEF, 0xAA, 0xFB, 0x43, 0x4D, 0x33, 0x85, 0x45, 0xF9, 0x02, 0x7F, 0x50, 0x3C, 0x9F, 0xA8);
    BoxRowOf(7, 0x70, 0x51, 0xA3, 0x40, 0x8F, 0x92, 0x9D, 0x38, 0xF5, 0xBC, 0xB6, 0xDA, 0x21, 0x10, 0xFF, 0xF3, 0xD2);
    BoxRowOf(8, 0x80, 0xCD, 0x0C, 0x13, 0xEC, 0x5F, 0x97, 0x44, 0x17, 0xC4, 0xA7, 0x7E, 0x3D, 0x64, 0x5D, 0x19, 0x73);
    BoxRowOf(9, 0x90, 0x60, 0x81, 0x4F, 0xDC, 0x22, 0x2A, 0x90, 0x88, 0x46, 0xEE, 0xB8, 0x14, 0xDE, 0x5E, 0x0B, 0xDB);
    BoxRowOf(10, 0xA0, 0xE0, 0x32, 0x3A, 0x0A, 0x49, 0x06, 0x24, 0x5C, 0xC2, 0xD3, 0xAC, 0x62, 0x91, 0x95, 0xE4, 0x79);
    BoxRowOf(11, 0xB0, 0xE7, 0xC8, 0x37, 0x6D, 0x8D, 0xD5, 0x4E, 0xA9, 0x6C, 0x56, 0xF4, 0xEA, 0x65, 0x7A, 0xAE, 0x08);
    BoxRowOf(12, 0xC0, 0xBA, 0x78, 0x25, 0x2E, 0x1C, 0xA6, 0xB4, 0xC6, 0xE8, 0xDD, 0x74, 0x1F, 0x4B, 0xBD, 0x8B, 0x8A);
    BoxRowOf(13, 0xD0, 0x70, 0x3E, 0xB5, 0x66, 0x48, 0x03, 0xF6, 0x0E, 0x61, 0x35, 0x57, 0xB9, 0x86, 0xC1, 0x1D, 0x9E);
    BoxRowOf(14, 0xE0, 0xE1, 0xF8, 0x98, 0x11, 0x69, 0xD9, 0x8E, 0x94, 0x9B, 0x1E, 0x87, 0xE9, 0xCE, 0x55, 0x28, 0xDF);
    BoxRowOf(15, 0xF0, 0x8C, 0xA1, 0x89, 0x0D, 0xBF, 0xE6, 0x42, 0x68, 0x41, 0x99, 0x2D, 0x0F, 0xB0, 0x54, 0xBB, 0x16);
  }

  lemma Figure14()
    ensures InvRow(0, [0x52, 0x09, 0x6A, 0xD5, 0x30, 0x36, 0xA5, 0x38, 0xBF, 0x40, 0xA3, 0x9E, 0x81, 0xF3, 0xD7, 0xFB])
    ensures InvRow(1, [0x7C, 0xE3, 0x39, 0x82, 0x9B, 0x2F, 0xFF, 0x87, 0x34, 0x8E, 0x43, 0x44, 0xC4, 0xDE, 0xE9, 0xCB])
    ensures InvRow(2, [0x54, 0x7B, 0x94, 0x32, 0xA6, 0xC2, 0x23, 0x3D, 0xEE, 0x4C, 0x95, 0x0B, 0x42, 0xFA, 0xC3, 0x4E])
    ensures InvRow(3, [0x08, 0x2E, 0xA1, 0x66, 0x28, 0xD9, 0x24, 0xB2, 0x76, 0x5B, 0xA2, 0x49, 0x6D, 0x8B, 0xD1, 0x25])
    ensures InvRow(4, [0x72, 0xF8, 0xF6, 0x64, 0x86, 0x68, 0x98, 0x16, 0xD4, 0xA4, 0x5C, 0xCC, 0x5D, 0x65, 0xB6, 0x92])
    ensures InvRow(5, [0x6C, 0x70, 0x48, 0x50, 0xFD, 0xED, 0xB9, 0xDA, 0x5E, 0x15, 0x46, 0x57, 0xA7, 0x8D, 0x9D, 0x84])
    ensures InvRow(6, [0x90, 0xD8, 0xAB, 0x00, 0x8C, 0xBC, 0xD3, 0x0A, 0xF7, 0xE4, 0x58, 0x05, 0xB8, 0xB3, 0x45, 0x06])
    ensures InvRow(7, [0xD0, 0x2C, 0x1E, 0x8F, 0xCA, 0x3F, 0x0F, 0x02, 0xC1, 0xAF, 0xBD, 0x03, 0x01, 0x13, 0x8A, 0x6B])
    ensures InvRow(8, [0x3A, 0x91, 0x11, 0x41, 0x4F, 0x67, 0xDC, 0xEA, 0x97, 0xF2, 0xCF, 0xCE, 0xF0, 0xB4, 0xE6, 0x73])
    ensures InvRow(9, [0x96, 0xAC, 0x74, 0x22, 0xE7, 0xAD, 0x35, 0x85, 0xE2, 0xF9, 0x37, 0xE8, 0x1C, 0x75, 0xDF, 0x6E])
    ensures InvRow(10, [0x47, 0xF1, 0x1A, 0x71, 0x1D, 0x29, 0xC5, 0x89, 0x6F, 0xB7, 0x62, 0x0E, 0xAA, 0x18, 0xBE, 0x1B])
    ensures InvRow(11, [0xFC, 0x56, 0x3E, 0x4B, 0xC6, 0xD2, 0x79, 0x20, 0x9A, 0xDB, 0xC0, 0xFE, 0x78, 0xCD, 0x5A, 0xF4])
    ensures InvRow(12, [0x1F, 0xDD, 0xA8, 0x33, 0x88, 0x07, 0xC7, 0x31, 0xB1, 0x12, 0x10, 0x59, 0x27, 0x80, 0xEC, 0x5F])
    ensures InvRow(13, [0x60, 0x51, 0x7F, 0xA9, 0x19, 0xB5, 0x4A, 0x0D, 0x2D, 0xE5, 0x7A, 0x9F, 0x93, 0xC9, 0x9C, 0xEF])
    ensures InvRow(14, [0xA0, 0xE0, 0x3B, 0x4D, 0xAE, 0x2A, 0xF5, 0xB0, 0xC8, 0xEB, 0xBB, 0x3C, 0x83, 0x53, 0x99, 0x61])
    ensures InvRow(15, [0x17, 0x2B, 0x04, 0x7E, 0xBA, 0x77, 0xD6, 0x26, 0xE1, 0x69, 0x14, 0x63, 0x55, 0x21, 0x0C, 0x7D])
  {
    hide Ends, Sub, Ix, InvRow;
    Start();
    Entries32();
    Entries64();
    Entries96();
    Entries127();
    HighBytes();
    InvRowOf(0, 0x00, 0x52, 0x09, 0x6A, 0xD5, 0x30, 0x36, 0xA5, 0x38, 0xBF, 0x40, 0xA3, 0x9E, 0x81, 0xF3, 0xD7, 0xFB);
    InvRowOf(1, 0x10, 0x7C, 0xE3, 0x39, 0x82, 0x9B, 0x2F, 0xFF, 0x87, 0x34, 0x8E, 0x43, 0x44, 0xC4, 0xDE, 0xE9, 0xCB);
    InvRowOf(2, 0x20, 0x54, 0x7B, 0x94, 0x32, 0xA6, 0xC2, 0x23, 0x3D, 0xEE, 0x4C, 0x95, 0x0B, 0x42, 0xFA, 0xC3, 0x4E);
    InvRowOf(3, 0x30, 0x08, 0x2E, 0xA1, 0x66, 0x28, 0xD9, 0x24, 0xB2, 0x76, 0x5B, 0xA2, 0x49, 0x6D, 0x8B, 0xD1, 0x25);
    InvRowOf(4, 0x40, 0x72, 0xF8, 0xF6, 0x64, 0x86, 0x68, 0x98, 0x16, 0xD4, 0xA4, 0x5C, 0xCC, 0x5D, 0x65, 0xB6, 0x92);
    InvRowOf(5, 0x50, 0x6C, 0x70, 0x48, 0x50, 0xFD, 0xED, 0xB9, 0xDA, 0x5E, 0x15, 0x46, 0x57, 0xA7, 0x8D, 0x9D, 0x84);
    InvRowOf(6, 0x60, 0x90, 0xD8, 0xAB, 0x00, 0x8C, 0xBC, 0xD3, 0x0A, 0xF7, 0xE4, 0x58, 0x05, 0xB8, 0xB3, 0x45, 0x06);
    InvRowOf(7, 0x70, 0xD0, 0x2C, 0x1E, 0x8F, 0xCA, 0x3F, 0x0F, 0x02, 0xC1, 0xAF, 0xBD, 0x03, 0x01, 0x13, 0x8A, 0x6B);
    InvRowOf(8, 0x80, 0x3A, 0x91, 0x11, 0x41, 0x4F, 0x67, 0xDC, 0xEA, 0x97, 0xF2, 0xCF, 0xCE, 0xF0, 0xB4, 0xE6, 0x73);
    InvRowOf(9, 0x90, 0x96, 0xAC, 0x74, 0x22, 0xE7, 0xAD, 0x35, 0x85, 0xE2, 0xF9, 0x37, 0xE8, 0x1C, 0x75, 0xDF, 0x6E);
    InvRowOf(10, 0xA0, 0x47, 0xF1, 0x1A, 0x71, 0x1D, 0x29, 0xC5, 0x89, 0x6F, 0xB7, 0x62, 0x0E, 0xAA, 0x18, 0xBE, 0x1B);
    InvRowOf(11, 0xB0, 0xFC, 0x56, 0x3E, 0x4B, 0xC6, 0xD2, 0x79, 0x20, 0x9A, 0xDB, 0xC0, 0xFE, 0x78, 0xCD, 0x5A, 0xF4);
    InvRowOf(12, 0xC0, 0x1F, 0xDD, 0xA8, 0x33, 0x88, 0x07, 0xC7, 0x31, 0xB1, 0x12, 0x10, 0x59, 0x27, 0x80, 0xEC, 0x5F);
    InvRowOf(13, 0xD0, 0x60, 0x51, 0x7F, 0xA9, 0x19, 0xB5, 0x4A, 0x0D, 0x2D, 0xE5, 0x7A, 0x9F, 0x93, 0xC9, 0x9C, 0xEF);
    InvRowOf(14, 0xE0, 0xA0, 0xE0, 0x3B, 0x4D, 0xAE, 0x2A, 0xF5, 0xB0, 0xC8, 0xEB, 0xBB, 0x3C, 0x83, 0x53, 0x99, 0x61);
    InvRowOf(15, 0xF0, 0x17, 0x2B, 0x04, 0x7E, 0xBA, 0x77, 0xD6, 0x26, 0xE1, 0x69, 0x14, 0x63, 0x55, 0x21, 0x0C, 0x7D);
  }

  /** The generated boxes are those tables, and the round constants those listed. */
  lemma GeneratedBoxes(t: Tables)
    requires t.Ready()
    ensures t.fsb[..] == BoxTable() && t.rsb[..] == InvTable()
    ensures t.rcon[..] == [RconWord(0x01), RconWord(0x02), RconWord(0x04), RconWord(0x08), RconWord(0x10), RconWord(0x20), RconWord(0x40), RconWord(0x80), RconWord(0x1B), RconWord(0x36)]
  {
    hide SBox, InvSBox, Ix, ToByte, RoundConstant, Tables.EntryReady;
    forall i | 0 <= i < 256
      ensures t.fsb[i] == SBox(ToByte(i)) && t.rsb[i] == InvSBox(ToByte(i))
    {
      IndexOfByte(i);
    }
    Constants();
  }

  /** A word of the round-constant table. */
  function RconWord(x: bv8): Col {
    Col(x, 0, 0, 0)
  }

  lemma Constants()
    ensures RoundConstant(0) == 0x01 && RoundConstant(1) == 0x02 && RoundConstant(2) == 0x04 && RoundConstant(3) == 0x08
    ensures RoundConstant(4) == 0x10 && RoundConstant(5) == 0x20 && RoundConstant(6) == 0x40 && RoundConstant(7) == 0x80
    ensures RoundConstant(8) == 0x1B && RoundConstant(9) == 0x36
  {}
}