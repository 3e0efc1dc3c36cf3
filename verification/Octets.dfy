/** Bytes as small numbers, with exclusive or. */
module Octets {
  import Bytes

  type byte = n: nat | n < 256

  function XorBits(x: bv8, y: bv8): bv8 {
    x ^ y
  }

  function Xor(a: byte, b: byte): byte {
    Bytes.ByteOfIndex(XorBits(Bytes.ToByte(a), Bytes.ToByte(b)));
    Bytes.Ix(XorBits(Bytes.ToByte(a), Bytes.ToByte(b)))
  }

  /** Bit by bit. */
  lemma XorIsBitwise(a: byte, b: byte)
    ensures Bytes.ToByte(Xor(a, b)) == Bytes.ToByte(a) ^ Bytes.ToByte(b)
  {
    hide Bytes.ToByte, Bytes.Ix;
    Bytes.ByteOfIndex(XorBits(Bytes.ToByte(a), Bytes.ToByte(b)));
  }

  lemma XorTwice(a: byte, b: byte)
    ensures Xor(Xor(a, b), b) == a && Xor(a, b) == Xor(b, a)
  {
    hide Bytes.ToByte, Bytes.Ix, XorBits;
    var x, y := Bytes.ToByte(a), Bytes.ToByte(b);
    Bytes.IndexOfByte(a);
    Bytes.ByteOfIndex(XorBits(x, y));
    BitsTwice(x, y);
  }

  /** A byte cancels itself, and zero changes nothing. */
  lemma XorSelf(a: byte)
    ensures Xor(a, a) == 0 && Xor(0, a) == a
  {
    hide Bytes.ToByte, Bytes.Ix, XorBits;
    var x := Bytes.ToByte(a);
    Bytes.IndexOfByte(a);
    Bytes.IndexOfByte(0);
    BitsSelf(x);
    ZeroByte();
    Bytes.ZeroIndex();
  }

  lemma ZeroByte()
    ensures Bytes.ToByte(0) == 0
  {
    Bytes.ZeroIndex();
    Bytes.ByteOfIndex(0);
  }

  lemma BitsSelf(x: bv8)
    ensures XorBits(x, x) == 0 && XorBits(0, x) == x
  {}

  lemma BitsTwice(x: bv8, y: bv8)
    ensures XorBits(XorBits(x, y), y) == x && XorBits(x, y) == XorBits(y, x)
  {}

  /** What was added can be taken off again, from either side. */
  lemma XorBack(a: byte, b: byte)
    ensures Xor(Xor(a, b), a) == b && Xor(a, Xor(a, b)) == b
  {
    hide Xor;
    XorTwice(b, a);
    XorTwice(a, b);
    XorTwice(Xor(a, b), a);
  }
}
