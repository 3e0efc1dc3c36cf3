/** AES as FIPS 197 states it. */
module AesSpec {
  import opened Field
  import opened Columns
  import opened SBoxes
  import opened AesTables

  datatype State = State(c0: Col, c1: Col, c2: Col, c3: Col)

  ghost function SubCol(c: Col): Col {
    Col(SBox(c.b0), SBox(c.b1), SBox(c.b2), SBox(c.b3))
  }

  ghost function InvSubCol(c: Col): Col {
    Col(InvSBox(c.b0), InvSBox(c.b1), InvSBox(c.b2), InvSBox(c.b3))
  }

  function AddKey(s: State, k: State): State {
    State(Xor(s.c0, k.c0), Xor(s.c1, k.c1), Xor(s.c2, k.c2), Xor(s.c3, k.c3))
  }

  ghost function SubBytes(s: State): State {
    State(SubCol(s.c0), SubCol(s.c1), SubCol(s.c2), SubCol(s.c3))
  }

  ghost function InvSubBytes(s: State): State {
    State(InvSubCol(s.c0), InvSubCol(s.c1), InvSubCol(s.c2), InvSubCol(s.c3))
  }

  /** Row `r` moves `r` columns to the left. */
  function ShiftRows(s: State): State {
    State(Col(s.c0.b0, s.c1.b1, s.c2.b2, s.c3.b3), Col(s.c1.b0, s.c2.b1, s.c3.b2, s.c0.b3),
          Col(s.c2.b0, s.c3.b1, s.c0.b2, s.c1.b3), Col(s.c3.b0, s.c0.b1, s.c1.b2, s.c2.b3))
  }

  function InvShiftRows(s: State): State {
    State(Col(s.c0.b0, s.c3.b1, s.c2.b2, s.c1.b3), Col(s.c1.b0, s.c0.b1, s.c3.b2, s.c2.b3),
          Col(s.c2.b0, s.c1.b1, s.c0.b2, s.c3.b3), Col(s.c3.b0, s.c2.b1, s.c1.b2, s.c0.b3))
  }

  function MixColumns(s: State): State {
    State(Mix(s.c0), Mix(s.c1), Mix(s.c2), Mix(s.c3))
  }

  function InvMixColumns(s: State): State {
    State(InvMix(s.c0), InvMix(s.c1), InvMix(s.c2), InvMix(s.c3))
  }

  // ------------------------------------------------- the state as a matrix

  /** The entry of row `r`, section 3.4 of FIPS 197. */
  function Row(c: Col, r: nat): bv8
    requires r < 4
  {
    [c.b0, c.b1, c.b2, c.b3][r]
  }

  function Column(s: State, c: nat): Col
    requires c < 4
  {
    [s.c0, s.c1, s.c2, s.c3][c]
  }

  /** Equation 5.3 of FIPS 197: row `r` moves `r` columns to the left. */
  lemma ShiftRowsEntries(s: State, r: nat, c: nat)
    requires r < 4 && c < 4
    ensures Row(Column(ShiftRows(s), c), r) == Row(Column(s, (c + r) % 4), r)
    ensures Row(Column(InvShiftRows(s), (c + r) % 4), r) == Row(Column(s, c), r)
  {
    if r == 0 {} else if r == 1 {} else if r == 2 {} else {}
  }

  /** Sections 4.3 and 5.1.3 of FIPS 197: a column is multiplied by the polynomial
      3x^3 + x^2 + x + 2 modulo x^4 + 1. */
  lemma MixEntries(c: Col, r: nat)
    requires r < 4
    ensures var a: seq<bv8> := [2, 1, 1, 3];
            Row(Mix(c), r) == Sum4(Product(a[r], c.b0), Product(a[(r + 3) % 4], c.b1), Product(a[(r + 2) % 4], c.b2), Product(a[(r + 1) % 4], c.b3))
  {
    ProductOne(c.b0);
    ProductOne(c.b1);
    ProductOne(c.b2);
    ProductOne(c.b3);
    hide Product, Plus;
    if r == 0 {} else if r == 1 {} else if r == 2 {} else {}
  }

  /** Section 5.3.3: the inverse polynomial is 0Bx^3 + 0Dx^2 + 09x + 0E. */
  lemma InvMixEntries(c: Col, r: nat)
    requires r < 4
    ensures var a: seq<bv8> := [0x0E, 0x09, 0x0D, 0x0B];
            Row(InvMix(c), r) == Sum4(Product(a[r], c.b0), Product(a[(r + 3) % 4], c.b1), Product(a[(r + 2) % 4], c.b2), Product(a[(r + 1) % 4], c.b3))
  {
    hide Product, Plus;
    if r == 0 {} else if r == 1 {} else if r == 2 {} else {}
  }

  // ---------------------------------------------------------- key expansion

  ghost function RotWord(c: Col): Col {
    Col(c.b1, c.b2, c.b3, c.b0)
  }

  /** Word `i` of the expanded key, section 5.2 of FIPS 197. */
  ghost function Word(key: seq<Col>, i: nat): Col
    requires |key| > 0
  {
    var nk := |key|;
    if i < nk then key[i]
    else
      var last := Word(key, i - 1);
      var temp :=
        if i % nk == 0 then Xor(SubCol(RotWord(last)), Col(RoundConstant(i / nk - 1), 0, 0, 0))
        else if nk > 6 && i % nk == 4 then SubCol(last)
        else last;
      Xor(Word(key, i - nk), temp)
  }

  /** The round keys of a key of 4, 6 or 8 words, four words each. */
  ghost function Expanded(key: seq<Col>): (w: seq<Col>)
    requires |key| > 0
    ensures |w| == 4 * (|key| + 7) && forall i :: 0 <= i < |w| ==> w[i] == Word(key, i)
  {
    seq<Col>(4 * (|key| + 7), i requires 0 <= i => Word(key, i))
  }

  function RoundKey(w: seq<Col>, r: nat): State
    requires 4 * r + 4 <= |w|
  {
    State(w[4 * r], w[4 * r + 1], w[4 * r + 2], w[4 * r + 3])
  }

  // ----------------------------------------------------- cipher and inverse

  /** The state after `r` full rounds. */
  ghost function Rounds(w: seq<Col>, s: State, r: nat): State
    requires 4 * r + 4 <= |w|
  {
    if r == 0 then AddKey(s, RoundKey(w, 0))
    else AddKey(MixColumns(ShiftRows(SubBytes(Rounds(w, s, r - 1)))), RoundKey(w, r))
  }

  /** Section 5.1 of FIPS 197: `nr` rounds, the last without MixColumns. */
  ghost function Cipher(w: seq<Col>, nr: nat, s: State): State
    requires nr > 0 && |w| == 4 * nr + 4
  {
    AddKey(ShiftRows(SubBytes(Rounds(w, s, nr - 1))), RoundKey(w, nr))
  }

  ghost function InvRounds(w: seq<Col>, s: State, r: nat): State
    requires 4 * r + 4 <= |w|
  {
    if r == 0 then AddKey(s, RoundKey(w, 0))
    else AddKey(InvMixColumns(InvShiftRows(InvSubBytes(InvRounds(w, s, r - 1)))), RoundKey(w, r))
  }

  /** The equivalent inverse cipher of section 5.3.5, on its own schedule. */
  ghost function EqInvCipher(w: seq<Col>, nr: nat, s: State): State
    requires nr > 0 && |w| == 4 * nr + 4
  {
    AddKey(InvShiftRows(InvSubBytes(InvRounds(w, s, nr - 1))), RoundKey(w, nr))
  }

  /** The decryption schedule: round keys in reverse, the inner ones unmixed. */
  ghost predicate IsInverseSchedule(dk: seq<Col>, w: seq<Col>, nr: nat)
    requires nr > 0 && |w| == |dk| == 4 * nr + 4
  {
    && RoundKey(dk, 0) == RoundKey(w, nr)
    && RoundKey(dk, nr) == RoundKey(w, 0)
    && (forall r :: 0 < r < nr ==> RoundKey(dk, r) == InvMixColumns(RoundKey(w, nr - r)))
  }

  // ------------------------------------------------------ decryption inverts

  lemma SubBytesInverse(s: State)
    ensures InvSubBytes(SubBytes(s)) == s
  {
    hide SBox, InvSBox;
    SubColInverse(s.c0);
    SubColInverse(s.c1);
    SubColInverse(s.c2);
    SubColInverse(s.c3);
  }

  lemma SubColInverse(c: Col)
    ensures InvSubCol(SubCol(c)) == c
  {
    hide SBox, InvSBox;
    InvSBoxIs(c.b0);
    InvSBoxIs(c.b1);
    InvSBoxIs(c.b2);
    InvSBoxIs(c.b3);
  }

  /** Substitution works byte by byte, so it may come before or after the shift. */
  lemma ShiftRowsInverse(s: State)
    ensures InvShiftRows(InvSubBytes(ShiftRows(SubBytes(s)))) == s
  {
    hide SBox, InvSBox;
    SubBytesInverse(s);
    assert InvSubBytes(ShiftRows(SubBytes(s))) == ShiftRows(InvSubBytes(SubBytes(s)));
  }

  lemma AddKeyTwice(s: State, k: State)
    ensures AddKey(AddKey(s, k), k) == s
  {
    hide Xor;
    XorCancel(s.c0, k.c0);
    XorCancel(s.c1, k.c1);
    XorCancel(s.c2, k.c2);
    XorCancel(s.c3, k.c3);
  }

  /** Unmixing a keyed state with the unmixed key removes key and mixing. */
  lemma UnmixKeyed(s: State, k: State)
    ensures AddKey(InvMixColumns(AddKey(MixColumns(s), k)), InvMixColumns(k)) == s
  {
    UnmixKeyedCol(s.c0, k.c0);
    UnmixKeyedCol(s.c1, k.c1);
    UnmixKeyedCol(s.c2, k.c2);
    UnmixKeyedCol(s.c3, k.c3);
    hide Xor, Mix, InvMix;
  }

  lemma UnmixKeyedCol(c: Col, k: Col)
    ensures Xor(InvMix(Xor(Mix(c), k)), InvMix(k)) == c
  {
    hide Xor, Mix, InvMix;
    InvMixLinear(Mix(c), k);
    InvMixMix(c);
    XorCancel(c, InvMix(k));
  }

  /** After `r` inverse rounds the state is the one before forward round `nr - r`'s
      mixing. */
  lemma {:induction false} InvRoundsUndo(w: seq<Col>, dk: seq<Col>, nr: nat, s: State, r: nat)
    requires nr > 0 && |w| == |dk| == 4 * nr + 4 && IsInverseSchedule(dk, w, nr) && r < nr
    ensures InvRounds(dk, Cipher(w, nr, s), r) == ShiftRows(SubBytes(Rounds(w, s, nr - 1 - r)))
  {
    hide AddKey, ShiftRows, SubBytes, InvShiftRows, InvSubBytes, MixColumns, InvMixColumns, RoundKey;
    if r == 0 {
      AddKeyTwice(ShiftRows(SubBytes(Rounds(w, s, nr - 1))), RoundKey(w, nr));
    } else {
      InvRoundsUndo(w, dk, nr, s, r - 1);
      ShiftRowsInverse(Rounds(w, s, nr - r));
      UnmixKeyed(ShiftRows(SubBytes(Rounds(w, s, nr - r - 1))), RoundKey(w, nr - r));
    }
  }

  /** Decryption with the inverse schedule restores every block. */
  lemma DecipherEncipher(w: seq<Col>, dk: seq<Col>, nr: nat, s: State)
    requires nr > 0 && |w| == |dk| == 4 * nr + 4 && IsInverseSchedule(dk, w, nr)
    ensures EqInvCipher(dk, nr, Cipher(w, nr, s)) == s
  {
    hide AddKey, ShiftRows, SubBytes, InvShiftRows, InvSubBytes, MixColumns, InvMixColumns, RoundKey;
    InvRoundsUndo(w, dk, nr, s, nr - 1);
    ShiftRowsInverse(Rounds(w, s, 0));
    AddKeyTwice(s, RoundKey(w, 0));
  }
}
