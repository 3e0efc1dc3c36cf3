/** Bytes as table indices: a byte's number is read off its bits. */
module Bytes {
  // ------------------------------------------------------------ bits of a byte

  function Mask(on: bool, m: bv8): bv8 {
    if on then m else 0
  }

  function FromBits(c0: bool, c1: bool, c2: bool, c3: bool, c4: bool, c5: bool, c6: bool, c7: bool): bv8 {
    Mask(c0, 1) | Mask(c1, 2) | Mask(c2, 4) | Mask(c3, 8) | Mask(c4, 16) | Mask(c5, 32) | Mask(c6, 64) | Mask(c7, 128)
  }

  lemma BitsOf(c0: bool, c1: bool, c2: bool, c3: bool, c4: bool, c5: bool, c6: bool, c7: bool)
    ensures var b := FromBits(c0, c1, c2, c3, c4, c5, c6, c7);
            (b & 1 != 0) == c0 && (b & 2 != 0) == c1 && (b & 4 != 0) == c2 && (b & 8 != 0) == c3
            && (b & 16 != 0) == c4 && (b & 32 != 0) == c5 && (b & 64 != 0) == c6 && (b & 128 != 0) == c7
  {}

  lemma BitsRebuild(b: bv8)
    ensures FromBits(b & 1 != 0, b & 2 != 0, b & 4 != 0, b & 8 != 0, b & 16 != 0, b & 32 != 0, b & 64 != 0, b & 128 != 0) == b
  {}

  // ---------------------------------------------------------- bits of a number

  function Odd(n: nat): bool {
    n % 2 == 1
  }

  /** The number whose lowest bit is `on` and whose other bits are `n`. */
  function Above(on: bool, n: nat): nat {
    2 * n + if on then 1 else 0
  }

  lemma HalfOfAbove(on: bool, n: nat)
    ensures Odd(Above(on, n)) == on && Above(on, n) / 2 == n
  {}

  lemma AboveHalf(n: nat)
    ensures Above(Odd(n), n / 2) == n
  {}

  // -------------------------------------------------------------- conversions

  /** The byte with number `n`: the code's cast to unsigned char. */
  function ToByte(n: nat): bv8
    requires n < 256
  {
    var n1 := n / 2;
    var n2 := n1 / 2;
    var n3 := n2 / 2;
    var n4 := n3 / 2;
    var n5 := n4 / 2;
    var n6 := n5 / 2;
    FromBits(Odd(n), Odd(n1), Odd(n2), Odd(n3), Odd(n4), Odd(n5), Odd(n6), Odd(n6 / 2))
  }

  /** The number of a byte: where it stands in a 256-entry table. */
  function Ix(b: bv8): nat {
    Above(b & 1 != 0, Above(b & 2 != 0, Above(b & 4 != 0, Above(b & 8 != 0,
    Above(b & 16 != 0, Above(b & 32 != 0, Above(b & 64 != 0, Above(b & 128 != 0, 0))))))))
  }

  lemma IndexBelow256(b: bv8)
    ensures Ix(b) < 256
  {}

  lemma ByteOfIndex(b: bv8)
    ensures Ix(b) < 256 && ToByte(Ix(b)) == b
  {
    IndexBelow256(b);
    hide FromBits, Odd, Above;
    var n7 := Above(b & 128 != 0, 0);
    var n6 := Above(b & 64 != 0, n7);
    var n5 := Above(b & 32 != 0, n6);
    var n4 := Above(b & 16 != 0, n5);
    var n3 := Above(b & 8 != 0, n4);
    var n2 := Above(b & 4 != 0, n3);
    var n1 := Above(b & 2 != 0, n2);
    HalfOfAbove(b & 1 != 0, n1);
    HalfOfAbove(b & 2 != 0, n2);
    HalfOfAbove(b & 4 != 0, n3);
    HalfOfAbove(b & 8 != 0, n4);
    HalfOfAbove(b & 16 != 0, n5);
    HalfOfAbove(b & 32 != 0, n6);
    HalfOfAbove(b & 64 != 0, n7);
    HalfOfAbove(b & 128 != 0, 0);
    BitsRebuild(b);
  }

  lemma IndexOfByte(n: nat)
    requires n < 256
    ensures Ix(ToByte(n)) == n
  {
    hide FromBits, Odd, Above;
    var n1 := n / 2;
    var n2 := n1 / 2;
    var n3 := n2 / 2;
    var n4 := n3 / 2;
    var n5 := n4 / 2;
    var n6 := n5 / 2;
    var n7 := n6 / 2;
    BitsOf(Odd(n), Odd(n1), Odd(n2), Odd(n3), Odd(n4), Odd(n5), Odd(n6), Odd(n7));
    AboveHalf(n);
    AboveHalf(n1);
    AboveHalf(n2);
    AboveHalf(n3);
    AboveHalf(n4);
    AboveHalf(n5);
    AboveHalf(n6);
    AboveHalf(n7);
    assert n7 / 2 == 0;
  }

  /** The bits count 1, 2, 4, ... 128. */
  lemma BitWeights()
    ensures Ix(0x01) == 1 && Ix(0x02) == 2 && Ix(0x04) == 4 && Ix(0x08) == 8
    ensures Ix(0x10) == 16 && Ix(0x20) == 32 && Ix(0x40) == 64 && Ix(0x80) == 128
  {}

  lemma ZeroIndex()
    ensures Ix(0) == 0
  {
    hide Above;
    assert Above(false, 0) == 0 by { HalfOfAbove(false, 0); AboveHalf(0); assert !Odd(0); }
  }
}
