/** DER as X.690 states it: encodings, and what the parser makes of any bytes. */
module DerSpec {
  import opened Arith
  import opened Octets
  import opened Numerals
  import Limbs
  import MpiCore

  const OUT_OF_DATA: int := -0x0060
  const UNEXPECTED_TAG: int := -0x0062
  const INVALID_LENGTH: int := -0x0064
  const LENGTH_MISMATCH: int := -0x0066
  const INVALID_DATA: int := -0x0068
  const BUF_TOO_SMALL: int := -0x006C

  const BOOLEAN: byte := 0x01
  const INTEGER: byte := 0x02
  const BIT_STRING: byte := 0x03
  const OCTET_STRING: byte := 0x04
  const NULL: byte := 0x05
  const OID: byte := 0x06
  const SEQUENCE: byte := 0x30

  const MAX_LEN: nat := 0x1_0000_0000

  datatype Result<T> = Ok(value: T) | Err(error: int)

  // ----------------------------------------------------------------- lengths

  /** How many bytes the long form needs. */
  function LenSize(n: nat): nat
    requires n < MAX_LEN
  {
    if n <= 0xFF then 1 else if n <= 0xFFFF then 2 else if n <= 0xFF_FFFF then 3 else 4
  }

  /** The length octets the writer produces. */
  function LenBytes(n: nat): (s: seq<byte>)
    requires n < MAX_LEN
    ensures 1 <= |s| <= 5
  {
    if n < 0x80 then [n] else [0x80 + LenSize(n)] + BigEndian(n, LenSize(n))
  }

  /** The definite forms of section 8.1.3 of X.690, up to four length bytes. */
  ghost predicate IsLen(b: seq<byte>, n: nat) {
    || (|b| == 1 && b[0] == n < 0x80)
    || (2 <= |b| <= 5 && b[0] == 0x7F + |b| && Num(b[1..]) == n)
  }

  datatype Len = Len(len: nat, used: nat)

  /** What reading length octets at the head of `s` gives. */
  function GetLenOf(s: seq<byte>): (r: Result<Len>)
    ensures r.Ok? ==> r.value.used + r.value.len <= |s| && r.value.used >= 1
  {
    if |s| < 1 then Err(OUT_OF_DATA)
    else if s[0] < 0x80 then Fits(s, s[0], 1)
    else
      var k := s[0] - 0x80;
      if k < 1 || k > 4 then Err(INVALID_LENGTH)
      else if |s| < k + 1 then Err(OUT_OF_DATA)
      else Fits(s, Num(s[1..k + 1]), k + 1)
  }

  function Fits(s: seq<byte>, len: nat, used: nat): (r: Result<Len>)
    requires used <= |s|
    ensures r.Ok? ==> used + len <= |s| && r.value == Len(len, used)
  {
    if len > |s| - used then Err(OUT_OF_DATA) else Ok(Len(len, used))
  }

  /** The parser accepts exactly the definite forms whose content is there. */
  lemma GetLenExact(s: seq<byte>, n: nat, k: nat)
    ensures GetLenOf(s) == Ok(Len(n, k)) <==> k <= |s| && IsLen(s[..k], n) && n <= |s| - k
  {
    hide Num;
    if k <= |s| {
      var b := s[..k];
      assert k >= 2 ==> b[1..] == s[1..k];
    }
  }

  lemma LenSizeFits(n: nat)
    requires n < MAX_LEN
    ensures n < Pow(256, LenSize(n))
  {
    Powers256();
    hide Pow;
  }

  lemma Powers256()
    ensures Pow(256, 0) == 1 && Pow(256, 1) == 0x100 && Pow(256, 2) == 0x1_0000
    ensures Pow(256, 3) == 0x100_0000 && Pow(256, 4) == 0x1_0000_0000
  {
    PowStart();
    hide Pow;
    PowSucc(256, 0);
    PowSucc(256, 1);
    PowSucc(256, 2);
    PowSucc(256, 3);
  }

  lemma LenBytesIsLen(n: nat)
    requires n < MAX_LEN
    ensures IsLen(LenBytes(n), n)
  {
    hide Num, BigEndian;
    LenSizeFits(n);
    NumBigEndian(n, LenSize(n));
    var s := LenBytes(n);
    if n >= 0x80 { assert s[1..] == BigEndian(n, LenSize(n)); }
  }

  /** Section 10.1 of X.690: no definite form of the same length is shorter. */
  lemma LenBytesShortest(b: seq<byte>, n: nat)
    requires n < MAX_LEN && IsLen(b, n)
    ensures |LenBytes(n)| <= |b|
  {
    hide Num, BigEndian, Pow;
    Powers256();
    if |b| >= 2 { NumBound(b[1..]); }
  }

  /** Reading back a written length. */
  lemma LenRoundTrip(n: nat, rest: seq<byte>)
    requires n < MAX_LEN && |rest| >= n
    ensures GetLenOf(LenBytes(n) + rest) == Ok(Len(n, |LenBytes(n)|))
  {
    hide IsLen, GetLenOf, LenBytes;
    var s := LenBytes(n) + rest;
    LenBytesIsLen(n);
    assert s[..|LenBytes(n)|] == LenBytes(n);
    GetLenExact(s, n, |LenBytes(n)|);
  }

  // -------------------------------------------------------- tag, length, value

  function Tlv(tag: byte, c: seq<byte>): (s: seq<byte>)
    requires |c| < MAX_LEN
  {
    [tag] + LenBytes(|c|) + c
  }

  /** What reading a tag and length gives; `used` counts both. */
  function GetTagOf(s: seq<byte>, tag: byte): (r: Result<Len>)
    ensures r.Ok? ==> r.value.used + r.value.len <= |s| && r.value.used >= 2
  {
    if |s| < 1 then Err(OUT_OF_DATA)
    else if s[0] != tag then Err(UNEXPECTED_TAG)
    else match GetLenOf(s[1..])
      case Err(e) => Err(e)
      case Ok(l) => Ok(Len(l.len, l.used + 1))
  }

  /** The content a successful read points at. */
  function Content(s: seq<byte>, l: Len): seq<byte>
    requires l.used + l.len <= |s|
  {
    s[l.used..l.used + l.len]
  }

  /** Reading back a written element: the same content, and nothing more consumed. */
  lemma TlvRoundTrip(tag: byte, c: seq<byte>, rest: seq<byte>)
    requires |c| < MAX_LEN
    ensures var s := Tlv(tag, c) + rest;
            var l := Len(|c|, |Tlv(tag, c)| - |c|);
            GetTagOf(s, tag) == Ok(l) && Content(s, l) == c && l.used + l.len == |Tlv(tag, c)|
  {
    hide GetLenOf, LenBytes;
    var s := Tlv(tag, c) + rest;
    LenRoundTrip(|c|, c + rest);
    assert s[1..] == LenBytes(|c|) + (c + rest);
  }

  /** Two streams that start with elements of one tag and agree, agree in the first
      element and in what follows. */
  lemma TlvPrefixFree(tag: byte, c: seq<byte>, rest: seq<byte>, c': seq<byte>, rest': seq<byte>)
    requires |c| < MAX_LEN && |c'| < MAX_LEN && Tlv(tag, c) + rest == Tlv(tag, c') + rest'
    ensures c == c' && rest == rest'
  {
    TlvRoundTrip(tag, c, rest);
    TlvRoundTrip(tag, c', rest');
    hide GetTagOf, Tlv;
    var s := Tlv(tag, c) + rest;
    assert rest == s[|Tlv(tag, c)|..] && rest' == s[|Tlv(tag, c')|..];
  }

  /** An element: tag, a definite length of up to four bytes, contents. */
  ghost predicate Element(e: seq<byte>, tag: byte, c: seq<byte>) {
    exists j :: 2 <= j <= |e| && e[0] == tag && IsLen(e[1..j], |c|) && e[j..] == c
  }

  /** What is read is an element at the head of the data. */
  lemma GetIsElement(s: seq<byte>, tag: byte)
    requires GetTagOf(s, tag).Ok?
    ensures var l := GetTagOf(s, tag).value;
            Element(s[..l.used + l.len], tag, Content(s, l))
  {
    hide GetLenOf, IsLen;
    var l := GetTagOf(s, tag).value;
    GetLenExact(s[1..], l.len, l.used - 1);
    var e := s[..l.used + l.len];
    assert e[1..l.used] == s[1..][..l.used - 1] && e[l.used..] == Content(s, l);
  }

  /** And every element there is read. */
  lemma ElementIsGot(e: seq<byte>, tag: byte, c: seq<byte>, rest: seq<byte>)
    requires Element(e, tag, c)
    ensures |e| >= |c| + 2 && GetTagOf(e + rest, tag) == Ok(Len(|c|, |e| - |c|)) && Content(e + rest, Len(|c|, |e| - |c|)) == c
  {
    hide GetLenOf, IsLen;
    var j :| 2 <= j <= |e| && e[0] == tag && IsLen(e[1..j], |c|) && e[j..] == c;
    var s := e + rest;
    GetLenExact(s[1..], |c|, j - 1);
    assert s[1..][..j - 1] == e[1..j];
  }

  // ----------------------------------------------------------------- integers

  /** Contents of the INTEGER the writer makes of magnitude `v` and sign `s`, the
      byte behind being `next`: a zero is put in front of a set top bit, which for
      the empty magnitude is that of the byte behind. */
  function IntContent(v: nat, s: Limbs.sign, next: byte): seq<byte> {
    var m := BigEndian(v, ByteSize(v));
    if s == 1 && (m + [next])[0] >= 0x80 then [0] + m else m
  }

  /** What `get_mpi` reads: an unsigned number. */
  function GetMpiOf(s: seq<byte>): Result<(nat, nat)> {
    match GetTagOf(s, INTEGER)
    case Err(e) => Err(e)
    case Ok(l) => Ok((Num(Content(s, l)), l.used + l.len))
  }

  /** Reading back a written integer gives its magnitude, whatever the sign. */
  lemma MpiRoundTrip(v: nat, s: Limbs.sign, next: byte, rest: seq<byte>)
    requires |IntContent(v, s, next)| < MAX_LEN
    ensures var t := Tlv(INTEGER, IntContent(v, s, next));
            GetMpiOf(t + rest) == Ok((v, |t|))
  {
    hide Pow, Num, BigEndian, ByteSize, GetTagOf, Tlv;
    var c := IntContent(v, s, next);
    ByteSizeFits(v);
    NumBigEndian(v, ByteSize(v));
    NumLeadingZero(BigEndian(v, ByteSize(v)));
    TlvRoundTrip(INTEGER, c, rest);
  }

  /** The number read back is the number written unless that was negative. */
  lemma MpiSignExact(v: nat, s: Limbs.sign, next: byte, rest: seq<byte>)
    requires |IntContent(v, s, next)| < MAX_LEN
    ensures var r := GetMpiOf(Tlv(INTEGER, IntContent(v, s, next)) + rest);
            r.Ok? && (r.value.0 == MpiCore.Signed(s, v) <==> s == 1 || v == 0)
  {
    hide IntContent, GetMpiOf, Tlv;
    MpiRoundTrip(v, s, next, rest);
  }

  /** The number in two's complement that contents stand for. */
  ghost function TwosComplement(c: seq<byte>): int
    requires |c| > 0
  {
    Num(c) - if c[0] >= 0x80 then Pow(256, |c|) else 0
  }

  /** Section 8.3 of X.690: at least one byte, the number in two's complement, and
      the first nine bits neither all zero nor all one. */
  ghost predicate IsDerInteger(c: seq<byte>, z: int) {
    && |c| > 0 && TwosComplement(c) == z
    && (|c| > 1 ==> !(c[0] == 0 && c[1] < 0x80) && !(c[0] == 0xFF && c[1] >= 0x80))
  }

  /** The top byte of a minimal magnitude, and what it says about the number. */
  lemma MagnitudeTop(v: nat)
    requires v > 0
    ensures var k := ByteSize(v);
            var m := BigEndian(v, k);
            k > 0 && m[0] == v / Pow(256, k - 1) > 0 && (m[0] >= 0x80 <==> 2 * v >= Pow(256, k))
  {
    var k := ByteSize(v);
    ByteSizeFits(v);
    BigEndianCons(v, k - 1);
    hide Pow, BigEndian, ByteSize;
    PowSucc(256, k - 1);
    var p, t := Pow(256, k - 1), v / Pow(256, k - 1);
    DivMod(v, p);
    if t >= 256 { MulMono(256, t, p); }
    if t <= 0 { MulMono(t, 0, p); }
    DivModUnique(t, 256, 0, t);
    if t >= 128 { MulMono(128, t, p); } else { MulMono(t + 1, 128, p); Distr(t, 1, p); }
  }

  /** A power of two one bit short of whole bytes fills them. */
  lemma HalfOfBytes(v: nat, k: nat)
    requires k >= 1 && v == Pow(2, 8 * k - 1)
    ensures v > 0 && ByteSize(v) == k && 2 * v == Pow(256, k)
  {
    hide Pow, ByteSize;
    PowSucc(2, 8 * k - 1);
    PowMul(2, 8, k);
    PowSmall();
    ByteSizeFits(v);
    var j := ByteSize(v);
    if j < k {
      PowMono(256, j, k - 1);
      PowSucc(256, k - 1);
    } else if j > k {
      PowMono(256, k, j - 1);
    }
  }

  lemma BytesOfHalf(v: nat, k: nat)
    requires k >= 1 && 2 * v == Pow(256, k)
    ensures v == Pow(2, 8 * k - 1)
  {
    hide Pow;
    PowMul(2, 8, k);
    PowSmall();
    PowSucc(2, 8 * k - 1);
  }

  /** Half of a power of 256 has 0x80 for its top byte. */
  lemma HalfTop(v: nat, k: nat)
    requires k >= 1 && 2 * v == Pow(256, k)
    ensures v / Pow(256, k - 1) == 0x80
  {
    hide Pow;
    PowSucc(256, k - 1);
    DivModUnique(v, Pow(256, k - 1), 128, 0);
  }

  /** A non-negative number: a positive one is written as DER has it, and zero only
      when the byte behind happens to have its top bit set. */
  lemma PlusContent(v: nat, next: byte)
    ensures IsDerInteger(IntContent(v, 1, next), v) <==> v > 0 || next >= 0x80
  {
    var m := BigEndian(v, ByteSize(v));
    ByteSizeFits(v);
    NumBigEndian(v, ByteSize(v));
    NumLeadingZero(m);
    hide Num, BigEndian, ByteSize, Pow;
    if v > 0 { MagnitudeTop(v); } else { assert m == []; }
  }

  /** A negative number is written as its magnitude, which is its two's complement
      only for the powers of two that fill their bytes. */
  lemma MinusContent(v: nat, next: byte)
    ensures IsDerInteger(IntContent(v, -1, next), 0 - v) <==> exists k :: k >= 1 && v == Pow(2, 8 * k - 1)
  {
    var k := ByteSize(v);
    var m := BigEndian(v, k);
    ByteSizeFits(v);
    NumBigEndian(v, k);
    hide Num, BigEndian, ByteSize, Pow;
    if v == 0 {
      assert m == [];
      forall j | j >= 1
        ensures v != Pow(2, 8 * j - 1)
      {}
    } else {
      MagnitudeTop(v);
      if 2 * v == Pow(256, k) {
        BytesOfHalf(v, k);
        HalfTop(v, k);
      }
      forall j | j >= 1 && v == Pow(2, 8 * j - 1)
        ensures 2 * v == Pow(256, k)
      {
        HalfOfBytes(v, j);
      }
    }
  }

  /** When the writer's contents are DER's: for every number that is not negative,
      zero only by what stands behind it; and for the negative powers of two whose
      bits fill their bytes, which are their own two's complement. */
  lemma IntContentExact(v: nat, s: Limbs.sign, next: byte)
    ensures IsDerInteger(IntContent(v, s, next), MpiCore.Signed(s, v))
            <==> (s == 1 && (v > 0 || next >= 0x80)) || (s == -1 && exists k :: k >= 1 && v == Pow(2, 8 * k - 1))
  {
    hide IsDerInteger, IntContent, Pow;
    if s == 1 { PlusContent(v, next); } else { MinusContent(v, next); }
  }

  // -------------------------------------------------------------- bit strings

  datatype Bits = Bits(unused: byte, bytes: seq<byte>)

  /** Reading a bit string that must end where the data ends. */
  function GetBitsOf(s: seq<byte>): Result<Bits> {
    match GetTagOf(s, BIT_STRING)
    case Err(e) => Err(e)
    case Ok(l) =>
      if l.len < 1 then Err(OUT_OF_DATA)
      else if s[l.used] > 7 then Err(INVALID_LENGTH)
      else if l.used + l.len != |s| then Err(LENGTH_MISMATCH)
      else Ok(Bits(s[l.used], s[l.used + 1..]))
  }

  function BitsSize(bits: nat): nat {
    bits / 8 + if bits % 8 != 0 then 1 else 0
  }

  function BitsContent(bytes: seq<byte>, bits: nat): seq<byte>
    requires |bytes| == BitsSize(bits)
  {
    [8 * |bytes| - bits] + bytes
  }

  lemma BitsRoundTrip(bytes: seq<byte>, bits: nat)
    requires |bytes| == BitsSize(bits) && |bytes| + 1 < MAX_LEN
    ensures GetBitsOf(Tlv(BIT_STRING, BitsContent(bytes, bits))) == Ok(Bits(8 * |bytes| - bits, bytes))
    ensures 0 <= 8 * |bytes| - bits <= 7
  {
    hide GetTagOf, Tlv;
    var c := BitsContent(bytes, bits);
    var s := Tlv(BIT_STRING, c);
    TlvRoundTrip(BIT_STRING, c, []);
    assert s + [] == s;
    var l := Len(|c|, |s| - |c|);
    assert s[l.used..] == Content(s, l) == c;
    assert s[l.used] == s[l.used..][0];
    assert s[l.used + 1..] == s[l.used..][1..] == bytes;
  }

  // ----------------------------------------------------- algorithm identifiers

  datatype Alg = Alg(oid: seq<byte>, tag: nat, params: seq<byte>, used: nat)

  /** Reading an algorithm identifier. */
  function GetAlgOf(s: seq<byte>): (r: Result<Alg>)
    ensures r.Ok? ==> r.value.used <= |s|
  {
    match GetTagOf(s, SEQUENCE)
    case Err(e) => Err(e)
    case Ok(l) =>
      if |s| - l.used < 1 then Err(OUT_OF_DATA)
      else AlgBody(Content(s, l), l.used + l.len)
  }

  /** Object identifier and optional parameters. */
  function AlgBody(t: seq<byte>, used: nat): (r: Result<Alg>)
    ensures r.Ok? ==> r.value.used == used
  {
    match GetTagOf(t, OID)
    case Err(e) => Err(e)
    case Ok(o) =>
      var at := o.used + o.len;
      if at == |t| then Ok(Alg(Content(t, o), 0, [], used))
      else
        match GetLenOf(t[at + 1..])
        case Err(e) => Err(e)
        case Ok(q) =>
          if at + 1 + q.used + q.len != |t| then Err(LENGTH_MISMATCH)
          else Ok(Alg(Content(t, o), t[at], Content(t[at + 1..], q), used))
  }

  function GetAlgNullOf(s: seq<byte>): Result<Alg> {
    match GetAlgOf(s)
    case Err(e) => Err(e)
    case Ok(a) => if a.tag !in {NULL as nat, 0} || |a.params| != 0 then Err(INVALID_DATA) else Ok(a)
  }

  /** Any element as parameters. */
  lemma AlgRoundTrip(oid: seq<byte>, tag: byte, params: seq<byte>, rest: seq<byte>)
    requires |oid| < MAX_LEN && |params| < MAX_LEN && |Tlv(OID, oid) + Tlv(tag, params)| < MAX_LEN
    ensures var s := Tlv(SEQUENCE, Tlv(OID, oid) + Tlv(tag, params));
            GetAlgOf(s + rest) == Ok(Alg(oid, tag, params, |s|))
  {
    hide GetTagOf, GetLenOf, Content;
    var o, q := Tlv(OID, oid), Tlv(tag, params);
    var t := o + q;
    TlvRoundTrip(SEQUENCE, t, rest);
    TlvRoundTrip(OID, oid, q);
    assert q[1..] == LenBytes(|params|) + params;
    assert t[|o| + 1..] == q[1..];
    LenRoundTrip(|params|, params);
    ContentBehind(LenBytes(|params|), params);
    assert t[|o|] == q[0] == tag;
    hide Tlv, LenBytes;
  }

  lemma ContentBehind(a: seq<byte>, b: seq<byte>)
    ensures Content(a + b, Len(|b|, |a|)) == b
  {}

  /** With NULL parameters the identifier passes `get_alg_null`. */
  lemma AlgNullRoundTrip(oid: seq<byte>, rest: seq<byte>)
    requires |oid| < MAX_LEN - 16
    ensures |Tlv(OID, oid) + Tlv(NULL, [])| < MAX_LEN
    ensures var s := Tlv(SEQUENCE, Tlv(OID, oid) + Tlv(NULL, []));
            GetAlgNullOf(s + rest) == Ok(Alg(oid, NULL, [], |s|))
  {
    hide GetAlgOf, LenBytes;
    AlgRoundTrip(oid, NULL, [], rest);
  }

  // ----------------------------------------------------------------- sequences

  /** The elements of a sequence body. */
  function ItemsOf(s: seq<byte>, tag: byte): Result<seq<seq<byte>>>
    decreases |s|
  {
    if s == [] then Ok([])
    else
      match GetTagOf(s, tag)
      case Err(e) => Err(e)
      case Ok(l) =>
        match ItemsOf(s[l.used + l.len..], tag)
        case Err(e) => Err(e)
        case Ok(more) => Ok([Content(s, l)] + more)
  }

  /** Reading a SEQUENCE OF that must end where the data ends. */
  function GetSequenceOf(s: seq<byte>, tag: byte): Result<seq<seq<byte>>> {
    match GetTagOf(s, SEQUENCE)
    case Err(e) => Err(e)
    case Ok(l) => if l.used + l.len != |s| then Err(LENGTH_MISMATCH) else ItemsOf(s[l.used..], tag)
  }

  function Tlvs(tag: byte, items: seq<seq<byte>>): seq<byte>
    requires forall i :: 0 <= i < |items| ==> |items[i]| < MAX_LEN
  {
    if items == [] then [] else Tlv(tag, items[0]) + Tlvs(tag, items[1..])
  }

  lemma {:induction false} ItemsRoundTrip(tag: byte, items: seq<seq<byte>>)
    requires forall i :: 0 <= i < |items| ==> |items[i]| < MAX_LEN
    ensures ItemsOf(Tlvs(tag, items), tag) == Ok(items)
  {
    hide GetTagOf, Tlv;
    if items != [] {
      var s, rest := Tlvs(tag, items), Tlvs(tag, items[1..]);
      TlvRoundTrip(tag, items[0], rest);
      ItemsRoundTrip(tag, items[1..]);
      assert s[|Tlv(tag, items[0])|..] == rest;
      assert [items[0]] + items[1..] == items;
    }
  }

  /** A sequence of elements of one tag is read back element by element. */
  lemma SequenceRoundTrip(tag: byte, items: seq<seq<byte>>)
    requires forall i :: 0 <= i < |items| ==> |items[i]| < MAX_LEN
    requires |Tlvs(tag, items)| < MAX_LEN
    ensures GetSequenceOf(Tlv(SEQUENCE, Tlvs(tag, items)), tag) == Ok(items)
  {
    hide GetTagOf, Tlv, ItemsOf;
    var t := Tlvs(tag, items);
    var s := Tlv(SEQUENCE, t);
    TlvRoundTrip(SEQUENCE, t, []);
    assert s + [] == s;
    ItemsRoundTrip(tag, items);
    assert s[|s| - |t|..] == t;
  }

  // ------------------------------------------------- booleans and small integers

  function BoolContent(b: bool): seq<byte> {
    [if b then 255 else 0]
  }

  function GetBoolOf(s: seq<byte>): Result<(bool, nat)> {
    match GetTagOf(s, BOOLEAN)
    case Err(e) => Err(e)
    case Ok(l) => if l.len != 1 then Err(INVALID_LENGTH) else Ok((s[l.used] != 0, l.used + 1))
  }

  lemma BoolRoundTrip(b: bool, rest: seq<byte>)
    ensures var t := Tlv(BOOLEAN, BoolContent(b));
            GetBoolOf(t + rest) == Ok((b, |t|))
  {
    hide GetTagOf, Tlv;
    TlvRoundTrip(BOOLEAN, BoolContent(b), rest);
    var s := Tlv(BOOLEAN, BoolContent(b)) + rest;
    var l := Len(1, |Tlv(BOOLEAN, BoolContent(b))| - 1);
    assert s[l.used] == Content(s, l)[0];
  }

  /** `write_int` writes the lowest byte of the value, whatever its size. */
  function SmallContent(val: int): seq<byte> {
    if val > 0 && val % 256 >= 0x80 then [0, val % 256] else [val % 256]
  }

  /** `get_int` takes one to four bytes with a clear top bit. */
  function GetIntOf(s: seq<byte>): Result<(nat, nat)> {
    match GetTagOf(s, INTEGER)
    case Err(e) => Err(e)
    case Ok(l) =>
      if l.len == 0 || l.len > 4 || s[l.used] >= 0x80 then Err(INVALID_LENGTH)
      else Ok((Num(Content(s, l)), l.used + l.len))
  }

  /** The small-integer writer can be read back exactly below 256. */
  lemma SmallRoundTripExact(val: int, rest: seq<byte>)
    ensures var t := Tlv(INTEGER, SmallContent(val));
            (exists v: nat :: v == val && GetIntOf(t + rest) == Ok((v, |t|))) <==> 0 <= val <= 255
  {
    var c := SmallContent(val);
    SmallNum(c);
    hide GetTagOf, Tlv, Num;
    TlvRoundTrip(INTEGER, c, rest);
    var t := Tlv(INTEGER, c);
    var s := t + rest;
    var l := Len(|c|, |t| - |c|);
    assert s[l.used] == Content(s, l)[0] == c[0];
    if 0 <= val <= 255 {
      var v: nat := val;
      assert GetIntOf(s) == Ok((v, |t|));
    }
  }

  lemma SmallNum(c: seq<byte>)
    requires |c| == 1 || (|c| == 2 && c[0] == 0)
    ensures Num(c) == c[|c| - 1]
  {
    assert c[..|c| - 1] == if |c| == 1 then [] else [0];
    assert Num([]) == 0;
    assert [0 as byte][..0] == [];
    assert Num([0]) == 256 * Num([]) + 0;
  }

  // ------------------------------------------- what the readers accept, exactly

  /** One byte of contents, zero for false. */
  lemma BoolExact(s: seq<byte>, b: bool, k: nat)
    ensures GetBoolOf(s) == Ok((b, k)) <==> k <= |s| && exists x: byte :: Element(s[..k], BOOLEAN, [x]) && b == (x != 0)
  {
    hide GetTagOf, Element;
    if GetTagOf(s, BOOLEAN).Ok? {
      var l := GetTagOf(s, BOOLEAN).value;
      GetIsElement(s, BOOLEAN);
      if l.len == 1 { assert Content(s, l) == [s[l.used]]; }
    }
    if k <= |s| {
      forall x: byte | Element(s[..k], BOOLEAN, [x])
        ensures GetBoolOf(s) == Ok((x != 0, k))
      {
        Got(s, k, BOOLEAN, [x]);
      }
    }
  }

  lemma Got(s: seq<byte>, k: nat, tag: byte, c: seq<byte>)
    requires k <= |s| && Element(s[..k], tag, c)
    ensures k >= |c| + 2 && GetTagOf(s, tag) == Ok(Len(|c|, k - |c|)) && Content(s, Len(|c|, k - |c|)) == c
    ensures s[k - |c|..k] == c
  {
    hide GetTagOf, Element;
    ElementIsGot(s[..k], tag, c, s[k..]);
    assert s[..k] + s[k..] == s;
  }

  /** One to four bytes of contents with a clear top bit. */
  lemma IntExact(s: seq<byte>, v: nat, k: nat)
    ensures GetIntOf(s) == Ok((v, k)) <==> k <= |s| && exists c :: Element(s[..k], INTEGER, c) && 1 <= |c| <= 4 && c[0] < 0x80 && Num(c) == v
  {
    hide GetTagOf, Element, Num;
    if GetTagOf(s, INTEGER).Ok? {
      var l := GetTagOf(s, INTEGER).value;
      GetIsElement(s, INTEGER);
      if l.len > 0 { assert Content(s, l)[0] == s[l.used]; }
    }
    if k <= |s| {
      forall c | Element(s[..k], INTEGER, c) && 1 <= |c| <= 4 && c[0] < 0x80
        ensures GetIntOf(s) == Ok((Num(c), k))
      {
        Got(s, k, INTEGER, c);
        assert s[k - |c|] == c[0];
      }
    }
  }

  /** Any contents, taken for an unsigned number. */
  lemma MpiExact(s: seq<byte>, v: nat, k: nat)
    ensures GetMpiOf(s) == Ok((v, k)) <==> k <= |s| && exists c :: Element(s[..k], INTEGER, c) && Num(c) == v
  {
    hide GetTagOf, Element, Num;
    if GetTagOf(s, INTEGER).Ok? { GetIsElement(s, INTEGER); }
    if k <= |s| {
      forall c | Element(s[..k], INTEGER, c)
        ensures GetMpiOf(s) == Ok((Num(c), k))
      {
        Got(s, k, INTEGER, c);
      }
    }
  }

  /** The whole data, with a first byte of at most seven unused bits. */
  lemma BitsExact(s: seq<byte>, unused: byte, bytes: seq<byte>)
    ensures GetBitsOf(s) == Ok(Bits(unused, bytes)) <==> unused <= 7 && Element(s, BIT_STRING, [unused] + bytes)
  {
    hide GetTagOf, Element;
    var c := [unused] + bytes;
    assert s[..|s|] == s;
    if GetTagOf(s, BIT_STRING).Ok? {
      var l := GetTagOf(s, BIT_STRING).value;
      GetIsElement(s, BIT_STRING);
      if l.len >= 1 && l.used + l.len == |s| { assert Content(s, l) == [s[l.used]] + s[l.used + 1..]; }
    }
    if Element(s, BIT_STRING, c) {
      Got(s, |s|, BIT_STRING, c);
      assert s[|s| - |c|] == c[0] && s[|s| - |c| + 1..] == c[1..] == bytes;
    }
  }

  /** Parameters: none, or one element of any tag. */
  ghost predicate Parameters(p: seq<byte>, tag: nat, params: seq<byte>) {
    if p == [] then tag == 0 && params == [] else tag < 256 && Element(p, tag, params)
  }

  ghost predicate AlgContent(t: seq<byte>, oid: seq<byte>, tag: nat, params: seq<byte>) {
    exists i :: 0 <= i <= |t| && Element(t[..i], OID, oid) && Parameters(t[i..], tag, params)
  }

  lemma AlgBodyExact(t: seq<byte>, used: nat, oid: seq<byte>, tag: nat, params: seq<byte>)
    ensures AlgBody(t, used) == Ok(Alg(oid, tag, params, used)) <==> AlgContent(t, oid, tag, params)
  {
    hide GetTagOf, GetLenOf, Element;
    if GetTagOf(t, OID).Ok? {
      var o := GetTagOf(t, OID).value;
      GetIsElement(t, OID);
      ParametersExact(t, o.used + o.len, tag, params);
    }
    forall i | 0 <= i <= |t| && Element(t[..i], OID, oid) && Parameters(t[i..], tag, params)
      ensures AlgBody(t, used) == Ok(Alg(oid, tag, params, used))
    {
      Got(t, i, OID, oid);
      ParametersExact(t, i, tag, params);
    }
  }

  /** What stands behind the object identifier. */
  lemma ParametersExact(t: seq<byte>, at: nat, tag: nat, params: seq<byte>)
    requires at <= |t|
    ensures at == |t| ==> (Parameters(t[at..], tag, params) <==> tag == 0 && params == [])
    ensures at < |t| ==>
              (Parameters(t[at..], tag, params) <==>
               match GetLenOf(t[at + 1..])
               case Err(e) => false
               case Ok(q) => at + 1 + q.used + q.len == |t| && tag == t[at] && params == Content(t[at + 1..], q))
  {
    hide GetLenOf, Element;
    if at < |t| {
      var p := t[at..];
      assert p[1..] == t[at + 1..] && p[0] == t[at] && p[..|p|] == p;
      if GetLenOf(p[1..]).Ok? {
        var q := GetLenOf(p[1..]).value;
        GetIsElement(p, p[0]);
        assert Content(p[1..], q) == Content(p, Len(q.len, q.used + 1));
      }
      if tag < 256 && Element(p, tag, params) { Got(p, |p|, tag, params); }
    }
  }

  /** An algorithm identifier is a sequence of an object identifier and at most one
      element more. */
  lemma AlgExact(s: seq<byte>, oid: seq<byte>, tag: nat, params: seq<byte>, k: nat)
    ensures GetAlgOf(s) == Ok(Alg(oid, tag, params, k)) <==> k <= |s| && exists t :: Element(s[..k], SEQUENCE, t) && AlgContent(t, oid, tag, params)
  {
    hide GetTagOf, Element, AlgBody, AlgContent;
    if GetTagOf(s, SEQUENCE).Ok? {
      var l := GetTagOf(s, SEQUENCE).value;
      GetIsElement(s, SEQUENCE);
      AlgBodyExact(Content(s, l), l.used + l.len, oid, tag, params);
    }
    if k <= |s| {
      forall t | Element(s[..k], SEQUENCE, t) && AlgContent(t, oid, tag, params)
        ensures GetAlgOf(s) == Ok(Alg(oid, tag, params, k))
      {
        Got(s, k, SEQUENCE, t);
        AlgBodyExact(t, k, oid, tag, params);
        SomeContent(t, oid, tag, params);
      }
    }
  }

  lemma SomeContent(t: seq<byte>, oid: seq<byte>, tag: nat, params: seq<byte>)
    requires AlgContent(t, oid, tag, params)
    ensures |t| > 0
  {}

  /** The stricter reader lets through parameters that are absent, NULL, or an empty
      element of tag zero, which it cannot tell from absent ones. */
  lemma AlgNullExact(s: seq<byte>, oid: seq<byte>, tag: nat, params: seq<byte>, k: nat)
    ensures GetAlgNullOf(s) == Ok(Alg(oid, tag, params, k))
            <==> params == [] && tag in {0, NULL as nat} && k <= |s| && exists t :: Element(s[..k], SEQUENCE, t) && AlgContent(t, oid, tag, [])
  {
    hide GetAlgOf, Element, AlgContent;
    AlgExact(s, oid, tag, params, k);
  }

  /** A sequence body: the elements one behind the other. */
  ghost predicate AreItems(t: seq<byte>, tag: byte, items: seq<seq<byte>>)
    decreases |items|
  {
    if items == [] then t == [] else exists i :: 0 <= i <= |t| && Element(t[..i], tag, items[0]) && AreItems(t[i..], tag, items[1..])
  }

  lemma {:induction false} ItemsExact(t: seq<byte>, tag: byte, items: seq<seq<byte>>)
    ensures ItemsOf(t, tag) == Ok(items) <==> AreItems(t, tag, items)
    decreases |t|
  {
    hide GetTagOf, Element;
    if t == [] {
      forall i | 0 <= i <= |t| && items != [] && Element(t[..i], tag, items[0])
        ensures false
      {
        Got(t, i, tag, items[0]);
      }
    } else {
      if GetTagOf(t, tag).Ok? {
        var l := GetTagOf(t, tag).value;
        var i := l.used + l.len;
        GetIsElement(t, tag);
        if ItemsOf(t, tag) == Ok(items) {
          assert items[0] == Content(t, l) && ItemsOf(t[i..], tag) == Ok(items[1..]);
          ItemsExact(t[i..], tag, items[1..]);
        }
      }
      forall i | 0 <= i <= |t| && items != [] && Element(t[..i], tag, items[0]) && AreItems(t[i..], tag, items[1..])
        ensures ItemsOf(t, tag) == Ok(items)
      {
        Got(t, i, tag, items[0]);
        ItemsExact(t[i..], tag, items[1..]);
        assert [items[0]] + items[1..] == items;
      }
    }
  }

  /** The whole data, nothing but elements of the tag inside. */
  lemma SequenceExact(s: seq<byte>, tag: byte, items: seq<seq<byte>>)
    ensures GetSequenceOf(s, tag) == Ok(items) <==> exists t :: Element(s, SEQUENCE, t) && AreItems(t, tag, items)
  {
    hide GetTagOf, Element, ItemsOf, AreItems;
    assert s[..|s|] == s;
    if GetTagOf(s, SEQUENCE).Ok? {
      var l := GetTagOf(s, SEQUENCE).value;
      GetIsElement(s, SEQUENCE);
      if l.used + l.len == |s| {
        assert Content(s, l) == s[l.used..];
        ItemsExact(Content(s, l), tag, items);
      }
    }
    forall t | Element(s, SEQUENCE, t) && AreItems(t, tag, items)
      ensures GetSequenceOf(s, tag) == Ok(items)
    {
      Got(s, |s|, SEQUENCE, t);
      ItemsExact(t, tag, items);
    }
  }

  // -------------------------------------------------------- published encodings

  /** The algorithm identifier of rsaEncryption, appendix A.1 of RFC 8017. */
  lemma RsaEncryption()
    ensures var oid := [0x2A, 0x86, 0x48, 0x86, 0xF7, 0x0D, 0x01, 0x01, 0x01];
            Tlv(SEQUENCE, Tlv(OID, oid) + Tlv(NULL, []))
            == [0x30, 0x0D, 0x06, 0x09, 0x2A, 0x86, 0x48, 0x86, 0xF7, 0x0D, 0x01, 0x01, 0x01, 0x05, 0x00]
  {}

  /** Primitive elements of section 8 of X.690, and a length in the long form. */
  lemma SmallElements()
    ensures Tlv(BOOLEAN, BoolContent(true)) == [0x01, 0x01, 0xFF] && Tlv(BOOLEAN, BoolContent(false)) == [0x01, 0x01, 0x00]
    ensures Tlv(INTEGER, SmallContent(127)) == [0x02, 0x01, 0x7F] && Tlv(INTEGER, SmallContent(128)) == [0x02, 0x02, 0x00, 0x80]
    ensures Tlv(BIT_STRING, BitsContent([0xA8], 5)) == [0x03, 0x02, 0x03, 0xA8] && Tlv(OCTET_STRING, [0x55]) == [0x04, 0x01, 0x55]
    ensures LenBytes(435) == [0x82, 0x01, 0xB3]
  {
    LastByte(435, 2);
    LastByte(1, 1);
    assert BigEndian(0, 0) == [];
  }
}
