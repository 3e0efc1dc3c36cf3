/** Big-endian binary import and export. */
module MpiBinary {
  import opened Arith
  import opened Limbs
  import opened MpiCore
  import opened MpiShift
  import opened Octets
  import opened Numerals
  import opened RadixIO

  /** The byte count is the bit count rounded up. */
  lemma {:induction false} SizeOfBits(v: nat)
    ensures ByteSize(v) == (BitLength(v) + 7) / 8
  {
    BitLengthZero(v);
    if v > 0 {
      SizeOfBits(v / 256);
      BitLengthByte(v);
      hide BitLength;
      var b := BitLength(v / 256);
      if v >= 256 {
        DivMod(b + 7, 8);
        DivModUnique(b + 15, 8, (b + 7) / 8 + 1, (b + 7) % 8);
      } else {
        BitLengthZero(v / 256);
      }
    }
  }

  /** `mbedtls_mpi_size`. */
  method MpiSize(X: Mpi) returns (n: nat)
    ensures n == ByteSize(X.Abs())
  {
    hide ByteSize, BitLength;
    var b := BitLen(X);
    SizeOfBits(X.Abs());
    n := (b + 7) / 8;
  }

  // ------------------------------------------------------------------- import

  function CharsToLimbs(i: nat): nat {
    i / ciL + if i % ciL != 0 then 1 else 0
  }

  lemma CharsToLimbsFits(i: nat, j: nat)
    requires j < i
    ensures j / ciL < CharsToLimbs(i)
  {
    DivMod(i, ciL);
    DivMod(j, ciL);
    var a, b := i / ciL, j / ciL;
    if b >= CharsToLimbs(i) {
      MulMono(a, b, ciL);
      if i % ciL != 0 {
        MulMono(a + 1, b, ciL);
        Distr(a, 1, ciL);
      }
    }
  }

  /** Where byte `j` from the end goes: limb `q`, byte `r` of it. */
  lemma BytePosition(j: nat, q: nat, r: nat)
    requires q == j / ciL && r == j % ciL
    ensures 8 * r + 8 <= biL && biL * q + 8 * r == 8 * j
    ensures Pow(256, j) == Pow(2, biL * q + 8 * r) == Pow(2, 8 * r) * Place(q)
  {
    hide Pow;
    DivMod(j, ciL);
    MulAssoc(8, ciL, q);
    PowSmall();
    PowMul(2, 8, j);
    PlaceFacts(q);
    PowAdd(2, biL * q, 8 * r);
  }

  /** Adding the next byte: everything from its position up is still zero, so the C
      code's bitwise or is an addition. */
  lemma ByteFits(p: seq<limb>, q: nat, r: nat, d: nat)
    requires q < |p| && d < 256 && 8 * r + 8 <= biL && Val(p) < Pow(2, biL * q + 8 * r)
    ensures p[q] + d * Pow(2, 8 * r) < Base()
  {
    hide Pow, Val;
    var c := Pow(2, 8 * r);
    PlaceFacts(q);
    PowAdd(2, biL * q, 8 * r);
    LimbBelow(p, q, c);
    PowAdd(2, 8 * r, 8);
    PowMono(2, 8 * r + 8, biL);
    PowSmall();
    MulMono(d + 1, 256, c);
    Distr(d, 1, c);
  }

  /** `X->p[j / ciL] |= byte << ((j % ciL) << 3)`. */
  method ReadByte(X: Mpi, j: nat, b: byte, ghost done: seq<byte>)
    requires |done| == j && X.Abs() == Num(done) && j / ciL < |X.p|
    modifies X`p
    ensures |X.p| == old(|X.p|) && X.Abs() == Num([b] + done)
  {
    hide Pow, Val, Num;
    var q, r := j / ciL, j % ciL;
    ghost var p0, c := X.p, Pow(2, 8 * r);
    BytePosition(j, q, r);
    NumBound(done);
    NumCons(b, done);
    ByteFits(p0, q, r, b);
    MulNonNeg(b, c);
    var shifted := b * Pow(2, 8 * r);
    X.p := X.p[q := X.p[q] + shifted];
    ValUpdate(p0, q, X.p[q]);
    MulAssoc(b, c, Place(q));
  }

  /** `mbedtls_mpi_read_binary`: leading zeros are skipped. */
  method ReadBinary(X: Mpi, buf: seq<byte>)
    modifies X
    ensures X.s == 1 && X.Abs() == Num(buf) && X.Value() == Num(buf)
  {
    hide Val, Num, CharsToLimbs;
    var n: nat := 0;
    while n < |buf|
      invariant n <= |buf| && buf[..n] == ZeroBytes(n)
    {
      if buf[n] != 0 { break; }
      assert buf[..n + 1] == buf[..n] + [0];
      n := n + 1;
    }
    Grow(X, CharsToLimbs(|buf| - n));
    Lset(X, 0);
    LsetZero(X.s, X.Abs());
    NumEmpty();
    assert buf[|buf|..] == [];
    var i, j: nat := |buf|, 0;
    while i > n
      invariant n <= i <= |buf| && j == |buf| - i && X.s == 1 && X.Abs() == Num(buf[i..])
      invariant |X.p| >= CharsToLimbs(|buf| - n)
    {
      CharsToLimbsFits(|buf| - n, j);
      ReadByte(X, j, buf[i - 1], buf[i..]);
      assert buf[i - 1..] == [buf[i - 1]] + buf[i..];
      i, j := i - 1, j + 1;
    }
    NumZeros(n, buf[n..]);
    assert ZeroBytes(n) + buf[n..] == buf;
  }

  lemma LsetZero(s: sign, a: nat)
    requires Signed(s, a) == 0
    ensures a == 0
  {}

  lemma NumEmpty()
    ensures Num([]) == 0
  {}

  // ------------------------------------------------------------------- export

  /** Byte `j` of the number, as the code picks it from a limb. */
  lemma PickedByte(p: seq<limb>, j: nat)
    requires j / ciL < |p|
    ensures ByteOf(p[j / ciL], j % ciL) == Val(p) / Pow(256, j) % 256
  {
    hide Pow, Val, ByteOf;
    DivMod(j, ciL);
    BytePosition(j, j / ciL, j % ciL);
    ByteOfValue(p, j / ciL, j % ciL);
  }

  /** A byte that counts lies within the limbs. */
  lemma ByteInside(p: seq<limb>, j: nat)
    requires j < ByteSize(Val(p))
    ensures j / ciL < |p|
  {
    hide Pow, Val, ByteSize;
    var v := Val(p);
    ByteSizeFits(v);
    DivMod(j, ciL);
    PlaceFacts(|p|);
    PowOne(2);
    ValBound(p);
    BytePosition(ciL * |p|, |p|, 0) by { DivModUnique(ciL * |p|, ciL, |p|, 0); }
    if j / ciL >= |p| {
      MulMono(|p|, j / ciL, ciL);
      PowMono(256, ciL * |p|, ByteSize(v) - 1);
    }
  }

  /** `mbedtls_mpi_write_binary` into `len` bytes of the buffer from `at` on: the
      magnitude, right-aligned. */
  method WriteBinary(X: Mpi, buf: array<byte>, at: nat, len: nat) returns (ret: Status)
    requires at + len <= buf.Length
    modifies buf
    ensures forall k :: 0 <= k < buf.Length && !(at <= k < at + len) ==> buf[k] == old(buf[k])
    ensures if len < ByteSize(X.Abs()) then ret == BufferTooSmall && buf[..] == old(buf[..])
            else ret == Ok && buf[at..at + len] == BigEndian(X.Abs(), len)
  {
    hide Pow, Val, ByteSize, BigEndian, ByteOf;
    var size := MpiSize(X);
    if len < size { return BufferTooSmall; }
    forall k | at <= k < at + len { buf[k] := 0; }
    PutBytes(X, buf, at, len, size);
    ByteSizeFits(X.Abs());
    BigEndianPadded(X.Abs(), size, len - size);
    SplitBytes(buf[..], at, len, size);
    ret := Ok;
  }

  lemma SplitBytes(b: seq<byte>, at: nat, len: nat, size: nat)
    requires at + len <= |b| && size <= len && forall k :: at <= k < at + len - size ==> b[k] == 0
    ensures b[at..at + len] == ZeroBytes(len - size) + b[at + len - size..at + len]
  {}

  /** The loop from the last byte back. */
  method PutBytes(X: Mpi, buf: array<byte>, at: nat, len: nat, size: nat)
    requires at + len <= buf.Length && size == ByteSize(X.Abs()) <= len
    modifies buf
    ensures forall k :: 0 <= k < buf.Length && !(at + len - size <= k < at + len) ==> buf[k] == old(buf[k])
    ensures buf[at + len - size..at + len] == BigEndian(X.Abs(), size)
  {
    hide Pow, Val, ByteSize, BigEndian, ByteOf;
    NoBytes(X.Abs());
    var j: nat := 0;
    while j < size
      invariant j <= size
      invariant forall k :: 0 <= k < buf.Length && !(at + len - j <= k < at + len) ==> buf[k] == old(buf[k])
      invariant buf[at + len - j..at + len] == BigEndian(X.Abs(), j)
    {
      ByteInside(X.p, j);
      PickedByte(X.p, j);
      BigEndianCons(X.Abs(), j);
      var i := at + len - 1 - j;
      ghost var done := buf[i + 1..at + len];
      buf[i] := ByteOf(X.p[j / ciL], j % ciL);
      assert buf[i..at + len] == [buf[i]] + done;
      j := j + 1;
    }
  }

  lemma NoBytes(v: nat)
    ensures BigEndian(v, 0) == []
  {}
}
