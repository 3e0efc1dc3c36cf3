/** The backwards DER writer. */
module DerWriter {
  import opened Arith
  import opened Octets
  import opened Numerals
  import opened Limbs
  import opened MpiCore
  import opened MpiBinary
  import opened DerSpec

  /** Whether a call that should put `bytes` before position `p0` did so: either all
      of them are there and nothing else changed, or there was no room. */
  ghost predicate Wrote(start: nat, p0: nat, b0: seq<byte>, p1: nat, b1: seq<byte>, bytes: seq<byte>, ret: int) {
    && start <= p1 <= p0 <= |b0| == |b1|
    && b1[p0..] == b0[p0..]
    && if start + |bytes| <= p0
       then ret == |bytes| && p1 == p0 - |bytes| && b1[p1..] == bytes + b0[p0..] && b1[..p1] == b0[..p1]
       else ret == BUF_TOO_SMALL
  }

  /** Two calls in a row, the second in front of the first. */
  lemma WroteBoth(start: nat, p0: nat, b0: seq<byte>, p1: nat, b1: seq<byte>, p2: nat, b2: seq<byte>, x: seq<byte>, y: seq<byte>, r1: int, r2: int)
    requires Wrote(start, p0, b0, p1, b1, x, r1) && r1 >= 0 && Wrote(start, p1, b1, p2, b2, y, r2)
    ensures Wrote(start, p0, b0, p2, b2, y + x, if r2 < 0 then r2 else r1 + r2)
  {
    assert b2[p0..] == b2[p1..][p0 - p1..] == b1[p1..][p0 - p1..] == b1[p0..];
    if r2 >= 0 {
      assert b2[p2..] == y + (x + b0[p0..]) == (y + x) + b0[p0..];
      assert b2[..p2] == b1[..p2] == b1[..p1][..p2] == b0[..p1][..p2];
    }
  }

  /** A call that fails leaves a failure, whatever was to be put in front. */
  lemma WroteNone(start: nat, p0: nat, b0: seq<byte>, p1: nat, b1: seq<byte>, x: seq<byte>, y: seq<byte>, r1: int)
    requires Wrote(start, p0, b0, p1, b1, x, r1) && r1 < 0
    ensures Wrote(start, p0, b0, p1, b1, y + x, r1)
  {}

  class Writer {
    const buf: array<byte>
    const start: nat
    var p: nat

    /** The position stays between the start and the end of a buffer whose size is
        an int. */
    ghost predicate Valid()
      reads this
    {
      start <= p <= buf.Length < 0x8000_0000
    }

    constructor (buf: array<byte>, start: nat, p: nat)
      requires start <= p <= buf.Length < 0x8000_0000
      ensures Valid() && this.buf == buf && this.start == start && this.p == p
    {
      this.buf, this.start, this.p := buf, start, p;
    }

    /** `*--(*p) = x`. */
    method Push(x: byte)
      requires Valid() && p > start
      modifies this`p, buf
      ensures Valid() && p == old(p) - 1 && buf[p..] == [x] + old(buf[p..]) && forall k :: 0 <= k < p ==> buf[k] == old(buf[k])
    {
      ghost var t := buf[p..];
      p := p - 1;
      buf[p] := x;
      assert buf[p + 1..] == t;
    }

    /** `mbedtls_asn1_write_len`. */
    method WriteLen(len: nat) returns (ret: int)
      requires Valid()
      modifies this`p, buf
      ensures Valid()
      ensures len < MAX_LEN ==> Wrote(start, old(p), old(buf[..]), p, buf[..], LenBytes(len), ret)
      ensures len >= MAX_LEN ==> ret == INVALID_LENGTH && p == old(p) && buf[..] == old(buf[..])
    {
      hide LenBytes, Wrote, BigEndian;
      if len >= MAX_LEN { return INVALID_LENGTH; }
      ghost var b0, p0 := buf[..], p;
      LenLayout(len);
      var n := if len < 0x80 then 1 else 1 + LenSize(len);
      if p - start < n {
        NoRoom(start, p0, b0, LenBytes(len));
        return BUF_TOO_SMALL;
      }
      if len < 0x80 {
        Push(len);
      } else {
        Push(len % 256);
        if len > 0xFF { PushMiddle(len); }
        Push(0x80 + LenSize(len));
      }
      assert buf[..][..p] == b0[..p] && buf[..][p..] == buf[p..];
      AllPushed(start, p0, b0, p, buf[..], LenBytes(len));
      return n;
    }

    /** The length bytes between the lowest and the size byte. */
    method PushMiddle(len: nat)
      requires Valid() && 0xFF < len < MAX_LEN && p - start >= LenSize(len)
      modifies this`p, buf
      ensures Valid() && old(p) == p + LenSize(len) - 1 && forall k :: 0 <= k < p ==> buf[k] == old(buf[k])
      ensures buf[p..] == BigEndian(len / 256, LenSize(len) - 1) + old(buf[p..])
    {
      hide BigEndian;
      var n1 := len / 256;
      var n2 := n1 / 256;
      var n3 := n2 / 256;
      if len <= 0xFFFF {
        OneByte(n1);
        Push(n1 % 256);
      } else if len <= 0xFF_FFFF {
        TwoBytes(n1);
        Push(n1 % 256);
        Push(n2 % 256);
      } else {
        ThreeBytes(n1);
        Push(n1 % 256);
        Push(n2 % 256);
        Push(n3 % 256);
      }
    }

    /** `mbedtls_asn1_write_tag`. */
    method WriteTag(tag: byte) returns (ret: int)
      requires Valid()
      modifies this`p, buf
      ensures Valid() && Wrote(start, old(p), old(buf[..]), p, buf[..], [tag], ret)
    {
      ret := WriteByte(tag);
    }

    /** One byte, if there is room. */
    method WriteByte(x: byte) returns (ret: int)
      requires Valid()
      modifies this`p, buf
      ensures Valid() && Wrote(start, old(p), old(buf[..]), p, buf[..], [x], ret)
    {
      if p - start < 1 { return BUF_TOO_SMALL; }
      ghost var b0 := buf[..];
      Push(x);
      assert buf[..][p..] == buf[p..] && buf[..][..p] == b0[..p];
      return 1;
    }

    /** `mbedtls_asn1_write_raw_buffer`. */
    method WriteRaw(s: seq<byte>) returns (ret: int)
      requires Valid()
      modifies this`p, buf
      ensures Valid() && Wrote(start, old(p), old(buf[..]), p, buf[..], s, ret)
    {
      if p - start < |s| { return BUF_TOO_SMALL; }
      ghost var b0, p0 := buf[..], p;
      p := p - |s|;
      forall i | 0 <= i < |s| { buf[p + i] := s[i]; }
      assert buf[..][p..] == s + b0[p0..];
      return |s|;
    }

    /** Length and tag in front of content `c`, already written with result `r`. */
    method WriteHeader(tag: byte, ghost c: seq<byte>, r: int, ghost p0: nat, ghost b0: seq<byte>) returns (ret: int)
      requires Valid() && |c| < MAX_LEN && Wrote(start, p0, b0, p, buf[..], c, r) && r >= 0
      modifies this`p, buf
      ensures Valid() && Wrote(start, p0, b0, p, buf[..], Tlv(tag, c), ret)
    {
      hide Wrote, LenBytes;
      ghost var p1, b1 := p, buf[..];
      WroteLength(start, p0, b0, p1, b1, c, r);
      var l := WriteLen(r);
      ghost var p2, b2 := p, buf[..];
      WroteBoth(start, p0, b0, p1, b1, p2, b2, c, LenBytes(|c|), r, l);
      assert Tlv(tag, c) == [tag] + (LenBytes(|c|) + c);
      if l < 0 {
        WroteNone(start, p0, b0, p2, b2, LenBytes(|c|) + c, [tag], l);
        return l;
      }
      var t := WriteTag(tag);
      WroteBoth(start, p0, b0, p2, b2, p, buf[..], LenBytes(|c|) + c, [tag], r + l, t);
      return if t < 0 then t else r + l + t;
    }

    /** `write_oid`, `write_printable_string` and `write_ia5_string`, but for the tag. */
    method WriteString(tag: byte, s: seq<byte>) returns (ret: int)
      requires Valid() && |s| < MAX_LEN
      modifies this`p, buf
      ensures Valid() && Wrote(start, old(p), old(buf[..]), p, buf[..], Tlv(tag, s), ret)
    {
      hide Wrote, LenBytes;
      ghost var p0, b0 := p, buf[..];
      var r := WriteRaw(s);
      if r < 0 {
        WroteNone(start, p0, b0, p, buf[..], s, [tag] + LenBytes(|s|), r);
        return r;
      }
      ret := WriteHeader(tag, s, r, p0, b0);
    }

    /** `mbedtls_asn1_write_octet_string`. */
    method WriteOctetString(s: seq<byte>) returns (ret: int)
      requires Valid() && |s| < MAX_LEN
      modifies this`p, buf
      ensures Valid() && Wrote(start, old(p), old(buf[..]), p, buf[..], Tlv(OCTET_STRING, s), ret)
    {
      ret := WriteString(OCTET_STRING, s);
    }

    /** `mbedtls_asn1_write_mpi`. */
    method WriteMpi(X: Mpi) returns (ret: int)
      requires Valid() && ByteSize(X.Abs()) + 1 < MAX_LEN && (X.Abs() > 0 || p < buf.Length)
      modifies this`p, buf
      ensures Valid()
      ensures var next: byte := if old(p) < buf.Length then old(buf[p]) else 0;
              |IntContent(X.Abs(), X.s, next)| < MAX_LEN
              && Wrote(start, old(p), old(buf[..]), p, buf[..], Tlv(INTEGER, IntContent(X.Abs(), X.s, next)), ret)
    {
      hide BigEndian, ByteSize, Wrote, LenBytes, Num, Val;
      ghost var p0, b0 := p, buf[..];
      ghost var next: byte := if p < buf.Length then buf[p] else 0;
      ghost var c := IntContent(X.Abs(), X.s, next);
      var r: int := WriteMagnitude(X);
      ghost var m := BigEndian(X.Abs(), ByteSize(X.Abs()));
      if r < 0 {
        WroteFails(start, p0, b0, p, buf[..], m, Tlv(INTEGER, c), r);
        return r;
      }
      FirstWritten(start, p0, b0, p, buf[..], m, next, r);
      EmptyMagnitude(X.Abs());
      if X.s == 1 && buf[p] >= 0x80 {
        ghost var p1, b1 := p, buf[..];
        var z := WriteByte(0);
        WroteBoth(start, p0, b0, p1, b1, p, buf[..], m, [0], r, z);
        if z < 0 {
          WroteFails(start, p0, b0, p, buf[..], [0] + m, Tlv(INTEGER, c), z);
          return z;
        }
        r := r + z;
      }
      ret := WriteHeader(INTEGER, c, r, p0, b0);
    }

    /** The magnitude's bytes, if there is room. */
    method WriteMagnitude(X: Mpi) returns (ret: int)
      requires Valid()
      modifies this`p, buf
      ensures Valid() && Wrote(start, old(p), old(buf[..]), p, buf[..], BigEndian(X.Abs(), ByteSize(X.Abs())), ret)
    {
      hide BigEndian, ByteSize, Val;
      var len := MpiSize(X);
      if p - start < len { return BUF_TOO_SMALL; }
      ghost var b0, p0 := buf[..], p;
      p := p - len;
      var status := WriteBinary(X, buf, p, len);
      assert buf[..][p..] == buf[p..p + len] + buf[p + len..];
      assert buf[p0..] == b0[p0..] && buf[..][..p] == b0[..p];
      return len;
    }

    /** `mbedtls_asn1_write_bitstring`. */
    method WriteBitString(bytes: seq<byte>, bits: nat) returns (ret: int)
      requires Valid() && |bytes| == BitsSize(bits) && |bytes| + 1 < MAX_LEN
      modifies this`p, buf
      ensures Valid() && Wrote(start, old(p), old(buf[..]), p, buf[..], Tlv(BIT_STRING, BitsContent(bytes, bits)), ret)
    {
      hide Wrote, LenBytes;
      ghost var p0, b0 := p, buf[..];
      ghost var c := BitsContent(bytes, bits);
      if p - start < |bytes| + 1 {
        NoRoom(start, p0, b0, c);
        WroteFails(start, p0, b0, p, buf[..], c, Tlv(BIT_STRING, c), BUF_TOO_SMALL);
        return BUF_TOO_SMALL;
      }
      var r := WriteRaw(bytes);
      RoomFor(start, p0, b0, p, buf[..], bytes, r);
      ghost var p1, b1 := p, buf[..];
      var u := WriteByte(8 * |bytes| - bits);
      RoomFor(start, p1, b1, p, buf[..], [8 * |bytes| - bits], u);
      WroteBoth(start, p0, b0, p1, b1, p, buf[..], bytes, [8 * |bytes| - bits], r, u);
      ret := WriteHeader(BIT_STRING, c, r + u, p0, b0);
    }

    /** `mbedtls_asn1_write_null`. */
    method WriteNull() returns (ret: int)
      requires Valid()
      modifies this`p, buf
      ensures Valid() && Wrote(start, old(p), old(buf[..]), p, buf[..], Tlv(NULL, []), ret)
    {
      hide Wrote;
      NothingWritten(start, p, buf[..], p);
      ret := WriteHeader(NULL, [], 0, p, buf[..]);
    }

    /** `mbedtls_asn1_write_bool`. */
    method WriteBool(b: bool) returns (ret: int)
      requires Valid()
      modifies this`p, buf
      ensures Valid() && Wrote(start, old(p), old(buf[..]), p, buf[..], Tlv(BOOLEAN, BoolContent(b)), ret)
    {
      hide Wrote, LenBytes;
      ghost var p0, b0 := p, buf[..];
      var r := WriteByte(if b then 255 else 0);
      if r < 0 {
        WroteFails(start, p0, b0, p, buf[..], BoolContent(b), Tlv(BOOLEAN, BoolContent(b)), r);
        return r;
      }
      ret := WriteHeader(BOOLEAN, BoolContent(b), r, p0, b0);
    }

    /** `mbedtls_asn1_write_int`: only the lowest byte of the value. */
    method WriteInt(val: int) returns (ret: int)
      requires Valid()
      modifies this`p, buf
      ensures Valid() && Wrote(start, old(p), old(buf[..]), p, buf[..], Tlv(INTEGER, SmallContent(val)), ret)
    {
      hide Wrote, LenBytes;
      ghost var p0, b0, c := p, buf[..], SmallContent(val);
      var x := val % 256;
      var r := WriteByte(x);
      if r < 0 {
        WroteFails(start, p0, b0, p, buf[..], [x], Tlv(INTEGER, c), r);
        return r;
      }
      ghost var p1, b1 := p, buf[..];
      FirstWritten(start, p0, b0, p, buf[..], [x], if p0 < |b0| then b0[p0] else 0, r);
      if val > 0 && buf[p] >= 0x80 {
        var z := WriteByte(0);
        WroteBoth(start, p0, b0, p1, b1, p, buf[..], [x], [0], r, z);
        assert [0] + [x] == [0, x];
        if z < 0 {
          WroteFails(start, p0, b0, p, buf[..], [0, x], Tlv(INTEGER, c), z);
          return z;
        }
        r := r + z;
      }
      ret := WriteHeader(INTEGER, c, r, p0, b0);
    }

    /** `mbedtls_asn1_write_algorithm_identifier`: the parameters, if any, are already
        in place behind the position. */
    method WriteAlgorithm(oid: seq<byte>, parLen: nat) returns (ret: int)
      requires Valid() && |oid| + parLen < MAX_LEN - 16 && p + parLen <= buf.Length
      modifies this`p, buf
      ensures Valid()
      ensures var params := if parLen == 0 then Tlv(NULL, []) else old(buf[p..p + parLen]);
              var body := Tlv(OID, oid) + params;
              |body| < MAX_LEN && Wrote(start, old(p) + parLen, old(buf[..]), p, buf[..], Tlv(SEQUENCE, body), ret)
    {
      hide Wrote, LenBytes;
      ghost var p0, b0 := p + parLen, buf[..];
      ghost var params := if parLen == 0 then Tlv(NULL, []) else buf[p..p + parLen];
      ghost var o := Tlv(OID, oid);
      ghost var body := o + params;
      assert |o| <= |oid| + 6 && |params| <= parLen + 6 && |body| < MAX_LEN;
      var len := parLen;
      if parLen == 0 {
        len := WriteNull();
        if len < 0 {
          WroteFails(start, p0, b0, p, buf[..], params, Tlv(SEQUENCE, body), len);
          return len;
        }
      } else {
        AlreadyThere(start, p, p0, b0, params);
      }
      ghost var p1, b1 := p, buf[..];
      var r := WriteString(OID, oid);
      WroteBoth(start, p0, b0, p1, b1, p, buf[..], params, o, len, r);
      if r < 0 {
        WroteFails(start, p0, b0, p, buf[..], body, Tlv(SEQUENCE, body), r);
        return r;
      }
      ret := WriteHeader(SEQUENCE, body, len + r, p0, b0);
    }
  }

  lemma WroteLength(start: nat, p0: nat, b0: seq<byte>, p1: nat, b1: seq<byte>, x: seq<byte>, r: int)
    requires Wrote(start, p0, b0, p1, b1, x, r) && r >= 0
    ensures r == |x|
  {}

  /** No room for part of the bytes is no room for all of them. */
  lemma WroteFails(start: nat, p0: nat, b0: seq<byte>, p1: nat, b1: seq<byte>, x: seq<byte>, y: seq<byte>, r: int)
    requires Wrote(start, p0, b0, p1, b1, x, r) && r < 0 && |x| <= |y|
    ensures Wrote(start, p0, b0, p1, b1, y, r)
  {}

  /** The byte at the new position: the first written, or else the one behind. */
  lemma FirstWritten(start: nat, p0: nat, b0: seq<byte>, p1: nat, b1: seq<byte>, x: seq<byte>, next: byte, r: int)
    requires Wrote(start, p0, b0, p1, b1, x, r) && r >= 0 && (p0 < |b0| ==> next == b0[p0])
    ensures p1 < |b1| ==> b1[p1] == (x + [next])[0]
    ensures p1 == |b1| ==> x == [] && p0 == |b0|
  {
    assert |b1[p1..]| == |x| + |b0[p0..]|;
    if p1 < |b1| { assert b1[p1] == b1[p1..][0]; }
  }

  lemma EmptyMagnitude(v: nat)
    ensures BigEndian(v, ByteSize(v)) == [] <==> v == 0
  {}

  lemma RoomFor(start: nat, p0: nat, b0: seq<byte>, p1: nat, b1: seq<byte>, x: seq<byte>, r: int)
    requires Wrote(start, p0, b0, p1, b1, x, r) && start + |x| <= p0
    ensures r == |x| && p1 == p0 - |x|
  {}

  lemma NothingWritten(start: nat, p: nat, b: seq<byte>, p': nat)
    requires start <= p <= |b| && p' == p
    ensures Wrote(start, p, b, p', b, [], 0)
  {
    assert [] + b[p..] == b[p..];
  }

  /** Bytes in place count as written. */
  lemma AlreadyThere(start: nat, p: nat, p0: nat, b: seq<byte>, x: seq<byte>)
    requires start <= p <= p0 <= |b| && x == b[p..p0]
    ensures Wrote(start, p0, b, p, b, x, |x|)
  {
    assert b[p..] == b[p..p0] + b[p0..];
  }

  lemma NoRoom(start: nat, p0: nat, b0: seq<byte>, bytes: seq<byte>)
    requires start <= p0 <= |b0| && start + |bytes| > p0
    ensures Wrote(start, p0, b0, p0, b0, bytes, BUF_TOO_SMALL)
  {}

  lemma AllPushed(start: nat, p0: nat, b0: seq<byte>, p1: nat, b1: seq<byte>, bytes: seq<byte>)
    requires start <= p1 <= p0 <= |b0| == |b1| && b1[p1..] == bytes + b0[p0..] && b1[..p1] == b0[..p1]
    ensures Wrote(start, p0, b0, p1, b1, bytes, |bytes|)
  {
    assert |b1[p1..]| == |bytes| + |b0[p0..]|;
    assert b1[p0..] == b1[p1..][p0 - p1..];
  }

  /** The length octets are the middle bytes between size and lowest byte. */
  lemma LenLayout(n: nat)
    requires n < MAX_LEN
    ensures n < 0x80 ==> LenBytes(n) == [n]
    ensures 0x80 <= n <= 0xFF ==> LenBytes(n) == [0x81] + [n % 256]
    ensures n > 0xFF ==> LenBytes(n) == [0x80 + LenSize(n)] + BigEndian(n / 256, LenSize(n) - 1) + [n % 256]
    ensures |LenBytes(n)| == if n < 0x80 then 1 else 1 + LenSize(n)
  {
    if 0x80 <= n <= 0xFF { assert BigEndian(n, 1) == BigEndian(n / 256, 0) + [n % 256]; }
  }
}

/** The forwards DER parser. */
module DerReader {
  import opened Arith
  import opened Octets
  import opened Numerals
  import opened Limbs
  import opened MpiCore
  import opened MpiBinary
  import opened DerSpec

  /** An entry of a parsed sequence, in a singly linked list. */
  class Node {
    var tag: byte
    var bytes: seq<byte>
    var next: Node?

    constructor ()
      ensures next == null
    {
      tag, bytes, next := 0, [], null;
    }
  }

  /** `nodes` hang together, first to last. */
  ghost predicate Linked(nodes: seq<Node>)
    reads nodes
  {
    && (forall i, j :: 0 <= i < j < |nodes| ==> nodes[i] != nodes[j])
    && (forall i :: 0 <= i < |nodes| - 1 ==> nodes[i].next == nodes[i + 1])
  }

  /** The first nodes hold `items`. */
  ghost predicate Holds(nodes: seq<Node>, items: seq<seq<byte>>, tag: byte)
    reads nodes
  {
    |items| <= |nodes| && forall i :: 0 <= i < |items| ==> nodes[i].bytes == items[i] && nodes[i].tag == tag
  }

  class Reader {
    const data: seq<byte>
    var p: nat

    constructor (data: seq<byte>)
      ensures this.data == data && p == 0
    {
      this.data, p := data, 0;
    }

    /** `mbedtls_asn1_get_len`. */
    method GetLen(end: nat) returns (ret: int, len: nat)
      requires p <= end <= |data|
      modifies this`p
      ensures old(p) <= p <= end
      ensures match GetLenOf(data[old(p)..end])
              case Ok(l) => ret == 0 && len == l.len && p == old(p) + l.used
              case Err(e) => ret == e && ret < 0
    {
      ghost var s := data[p..end];
      len := 0;
      if end - p < 1 { return OUT_OF_DATA, len; }
      if data[p] < 0x80 {
        len := data[p];
        p := p + 1;
      } else {
        var k: nat := data[p] - 0x80;
        if k < 1 || k > 4 { return INVALID_LENGTH, len; }
        if end - p < k + 1 { return OUT_OF_DATA, len; }
        len := LongLength(k);
        Subslice(data, p, end, 1, k + 1);
        p := p + k + 1;
      }
      if len > end - p { return OUT_OF_DATA, len; }
      return 0, len;
    }

    /** One to four length bytes, shifted into place. */
    method LongLength(k: nat) returns (len: nat)
      requires 1 <= k <= 4 && p + k + 1 <= |data|
      ensures len == Num(data[p + 1..p + k + 1])
    {
      var b := data[p + 1..p + k + 1];
      FourNum(b);
      match k
      case 1 => len := data[p + 1];
      case 2 => len := 0x100 * data[p + 1] as int + data[p + 2];
      case 3 => len := 0x1_0000 * data[p + 1] as int + 0x100 * data[p + 2] as int + data[p + 3];
      case _ => len := 0x100_0000 * data[p + 1] as int + 0x1_0000 * data[p + 2] as int + 0x100 * data[p + 3] as int + data[p + 4];
    }

    /** `mbedtls_asn1_get_tag`. */
    method GetTag(end: nat, tag: byte) returns (ret: int, len: nat)
      requires p <= end <= |data|
      modifies this`p
      ensures old(p) <= p <= end
      ensures match GetTagOf(data[old(p)..end], tag)
              case Ok(l) => ret == 0 && len == l.len && p == old(p) + l.used
              case Err(e) => ret == e && ret < 0
    {
      hide GetLenOf;
      if end - p < 1 { return OUT_OF_DATA, 0; }
      if data[p] != tag { return UNEXPECTED_TAG, 0; }
      assert data[p..end][1..] == data[p + 1..end];
      p := p + 1;
      ret, len := GetLen(end);
    }

    /** `mbedtls_asn1_get_mpi`. */
    method GetMpi(end: nat, X: Mpi) returns (ret: int)
      requires p <= end <= |data|
      modifies this`p, X
      ensures old(p) <= p <= end
      ensures match GetMpiOf(data[old(p)..end])
              case Ok(v) => ret == 0 && X.Value() == v.0 && p == old(p) + v.1
              case Err(e) => ret == e && ret < 0
    {
      hide GetTagOf, Num, Val;
      ghost var p0 := p;
      var r, len := GetTag(end, INTEGER);
      if r != 0 { return r; }
      Subslice(data, p0, end, p - p0, p - p0 + len);
      ReadBinary(X, data[p..p + len]);
      p := p + len;
      ret := 0;
    }

    /** `mbedtls_asn1_get_bool`. */
    method GetBool(end: nat) returns (ret: int, val: bool)
      requires p <= end <= |data|
      modifies this`p
      ensures old(p) <= p <= end
      ensures match GetBoolOf(data[old(p)..end])
              case Ok(v) => ret == 0 && val == v.0 && p == old(p) + v.1
              case Err(e) => ret == e && ret < 0
    {
      hide GetTagOf;
      var r, len := GetTag(end, BOOLEAN);
      if r != 0 { return r, false; }
      if len != 1 { return INVALID_LENGTH, false; }
      val := data[p] != 0;
      p := p + 1;
      ret := 0;
    }

    /** `mbedtls_asn1_get_int`. */
    method GetInt(end: nat) returns (ret: int, val: nat)
      requires p <= end <= |data|
      modifies this`p
      ensures old(p) <= p <= end
      ensures match GetIntOf(data[old(p)..end])
              case Ok(v) => ret == 0 && val == v.0 && p == old(p) + v.1
              case Err(e) => ret == e && ret < 0
    {
      hide GetTagOf;
      ghost var s, p0 := data[p..end], p;
      var r, len := GetTag(end, INTEGER);
      if r != 0 { return r, 0; }
      if len == 0 || len > 4 || data[p] >= 0x80 { return INVALID_LENGTH, 0; }
      ghost var p1, c := p, data[p..p + len];
      Subslice(data, p0, end, p - p0, p - p0 + len);
      val := 0;
      NumNothing();
      assert c[..0] == [];
      for i := 0 to len
        invariant p == p1 + i && val == Num(c[..i])
      {
        assert c[..i + 1][..i] == c[..i];
        var x := data[p];
        val := 256 * val + x;
        p := p + 1;
      }
      assert c[..len] == c;
      ret := 0;
    }

    /** `mbedtls_asn1_get_bitstring`. */
    method GetBitString(end: nat) returns (ret: int, bits: Bits)
      requires p <= end <= |data|
      modifies this`p
      ensures old(p) <= p <= end
      ensures match GetBitsOf(data[old(p)..end])
              case Ok(b) => ret == 0 && bits == b && p == end
              case Err(e) => ret == e && ret < 0
    {
      hide GetTagOf;
      ghost var s, p0 := data[p..end], p;
      bits := Bits(0, []);
      var r, len := GetTag(end, BIT_STRING);
      if r != 0 { return r, bits; }
      if len < 1 { return OUT_OF_DATA, bits; }
      var unused := data[p];
      if unused > 7 { return INVALID_LENGTH, bits; }
      p := p + 1;
      bits := Bits(unused, data[p..p + len - 1]);
      assert p + len - 1 == end ==> data[p..end] == s[p - p0..];
      p := p + len - 1;
      if p != end { return LENGTH_MISMATCH, bits; }
      ret := 0;
    }

    /** `mbedtls_asn1_get_bitstring_null`: a bit string without unused bits. */
    method GetBitStringNull(end: nat) returns (ret: int, len: nat)
      requires p <= end <= |data|
      modifies this`p
      ensures old(p) <= p <= end
      ensures match GetTagOf(data[old(p)..end], BIT_STRING)
              case Ok(l) =>
                var good := l.len >= 2 && data[old(p) + l.used] == 0;
                if good then ret == 0 && len == l.len - 1 && p == old(p) + l.used + 1 else ret == INVALID_DATA
              case Err(e) => ret == e && ret < 0
    {
      hide GetTagOf;
      ret, len := GetTag(end, BIT_STRING);
      if ret != 0 { return; }
      if len < 2 { return INVALID_DATA, len; }
      len := len - 1;
      p := p + 1;
      if data[p - 1] != 0 { return INVALID_DATA, len; }
    }

    /** One element into the last node. */
    method GetItem(end: nat, cur: Node, tag: byte, ghost nodes: seq<Node>, ghost done: seq<seq<byte>>, ghost body: seq<byte>) returns (ret: int)
      requires p < end <= |data| && |nodes| == |done| + 1 && cur == nodes[|done|] && Linked(nodes) && Holds(nodes, done, tag)
      requires ItemsOf(body, tag) == Behind(done, ItemsOf(data[p..end], tag))
      modifies this`p, cur`tag, cur`bytes
      ensures old(p) <= p <= end
      ensures ret == 0 ==> p > old(p) && Linked(nodes) && Holds(nodes, done + [cur.bytes], tag)
      ensures ret == 0 ==> ItemsOf(body, tag) == Behind(done + [cur.bytes], ItemsOf(data[p..end], tag))
      ensures ret != 0 ==> ret < 0 && ItemsOf(body, tag) == Err(ret)
    {
      hide GetTagOf, ItemsOf;
      cur.tag := data[p];
      ghost var at := p;
      ItemsStep(data[p..end], tag, done);
      var r1, n := GetTag(end, tag);
      if r1 != 0 { return r1; }
      cur.bytes := data[p..p + n];
      Subslice(data, at, end, p - at, p - at + n);
      p := p + n;
      Subslice(data, at, end, p - at, end - at);
      ret := 0;
    }

    /** `mbedtls_asn1_get_sequence_of`: fills the list that starts at `head`,
        allocating an entry whenever more data follows. */
    method GetSequence(end: nat, head: Node, tag: byte) returns (ret: int, ghost nodes: seq<Node>)
      requires p <= end <= |data|
      modifies this`p, head
      ensures old(p) <= p <= end
      ensures forall i :: 0 < i < |nodes| ==> fresh(nodes[i])
      ensures match GetSequenceOf(data[old(p)..end], tag)
              case Ok(items) =>
                ret == 0 && p == end && |nodes| > 0 && nodes[0] == head && Linked(nodes) && nodes[|nodes| - 1].next == null
                && Holds(nodes, items, tag) && |nodes| == (if items == [] then 1 else |items|)
              case Err(e) => ret == e && ret < 0
    {
      hide GetTagOf, ItemsOf, Behind;
      nodes := [head];
      var p0 := p;
      var r, len := GetTag(end, SEQUENCE);
      if r != 0 { return r, nodes; }
      if p + len != end { return LENGTH_MISMATCH, nodes; }
      Subslice(data, p0, end, p - p0, end - p0);
      ghost var body, done := data[p..end], [];
      var cur := head;
      AllAhead(ItemsOf(body, tag));
      while p < end
        invariant p0 <= p <= end && |nodes| > 0 && nodes[0] == head && cur == nodes[|nodes| - 1]
        invariant Linked(nodes) && forall i :: 0 < i < |nodes| ==> fresh(nodes[i])
        invariant Holds(nodes, done, tag) && |nodes| == (if p < end || done == [] then |done| + 1 else |done|)
        invariant ItemsOf(body, tag) == Behind(done, ItemsOf(data[p..end], tag))
        decreases end - p
      {
        var r1 := GetItem(end, cur, tag, nodes, done, body);
        if r1 != 0 { return r1, nodes; }
        done := done + [cur.bytes];
        if p < end {
          var next := Append(cur, nodes, done, tag);
          cur := next;
          nodes := nodes + [next];
        }
      }
      NoneLeft(data[p..end], tag, done);
      cur.next := null;
      ret := 0;
    }

    /** `mbedtls_asn1_get_alg`. */
    method GetAlg(end: nat) returns (ret: int, alg: Alg)
      requires p <= end <= |data|
      modifies this`p
      ensures old(p) <= p <= end
      ensures match GetAlgOf(data[old(p)..end])
              case Ok(a) => ret == 0 && alg == a && p == old(p) + a.used
              case Err(e) => ret == e && ret < 0
    {
      hide GetTagOf, AlgBody;
      var p0 := p;
      alg := Alg([], 0, [], 0);
      var r, len := GetTag(end, SEQUENCE);
      if r != 0 { return r, alg; }
      if end - p < 1 { return OUT_OF_DATA, alg; }
      Subslice(data, p0, end, p - p0, p - p0 + len);
      var stop := p + len;
      ret, alg := GetAlgBody(stop, stop - p0);
    }

    /** The object identifier and the parameters, if any. */
    method GetAlgBody(stop: nat, used: nat) returns (ret: int, alg: Alg)
      requires p <= stop <= |data|
      modifies this`p
      ensures old(p) <= p <= stop
      ensures match AlgBody(data[old(p)..stop], used)
              case Ok(a) => ret == 0 && alg == a && p == stop
              case Err(e) => ret == e && ret < 0
    {
      hide GetTagOf, GetLenOf;
      var body := p;
      alg := Alg([], 0, [], 0);
      var r1, oidLen := GetTag(stop, OID);
      if r1 != 0 { return r1, alg; }
      var oid := data[p..p + oidLen];
      Subslice(data, body, stop, p - body, p - body + oidLen);
      p := p + oidLen;
      if p == stop { return 0, Alg(oid, 0, [], used); }
      ghost var at := p - body;
      var tag := data[p];
      p := p + 1;
      Subslice(data, body, stop, at + 1, stop - body);
      ghost var p2 := p;
      var r2, parLen := GetLen(stop);
      if r2 != 0 { return r2, alg; }
      var params := data[p..p + parLen];
      Subslice(data, p2, stop, p - p2, p - p2 + parLen);
      p := p + parLen;
      if p != stop { return LENGTH_MISMATCH, alg; }
      return 0, Alg(oid, tag, params, used);
    }

    /** `mbedtls_asn1_get_alg_null`. */
    method GetAlgNull(end: nat) returns (ret: int, alg: Alg)
      requires p <= end <= |data|
      modifies this`p
      ensures old(p) <= p <= end
      ensures match GetAlgNullOf(data[old(p)..end])
              case Ok(a) => ret == 0 && alg == a && p == old(p) + a.used
              case Err(e) => ret == e && ret < 0
    {
      hide GetAlgOf;
      var r, a := GetAlg(end);
      if r != 0 { return r, a; }
      if (a.tag != NULL && a.tag != 0) || |a.params| != 0 { return INVALID_DATA, a; }
      return 0, a;
    }
  }

  /** Hangs a new node behind the last one. */
  method Append(cur: Node, ghost nodes: seq<Node>, ghost done: seq<seq<byte>>, tag: byte) returns (next: Node)
    requires |nodes| == |done| > 0 && cur == nodes[|nodes| - 1] && Linked(nodes) && Holds(nodes, done, tag)
    modifies cur`next
    ensures fresh(next) && Linked(nodes + [next]) && Holds(nodes + [next], done, tag)
  {
    next := new Node();
    cur.next := next;
  }

  /** The items already read, before those that are still to come. */
  ghost function Behind(done: seq<seq<byte>>, r: Result<seq<seq<byte>>>): Result<seq<seq<byte>>> {
    match r
    case Err(e) => r
    case Ok(more) => Result.Ok(done + more)
  }

  lemma AllAhead(r: Result<seq<seq<byte>>>)
    ensures Behind([], r) == r
  {
    if r.Ok? { assert [] + r.value == r.value; }
  }

  lemma NoneLeft(s: seq<byte>, tag: byte, done: seq<seq<byte>>)
    requires s == []
    ensures Behind(done, ItemsOf(s, tag)) == Result.Ok(done)
  {
    assert done + [] == done;
  }

  lemma ItemsStep(s: seq<byte>, tag: byte, done: seq<seq<byte>>)
    requires s != []
    ensures match GetTagOf(s, tag)
            case Err(e) => Behind(done, ItemsOf(s, tag)) == Err(e)
            case Ok(l) => s[0] == tag && Behind(done, ItemsOf(s, tag)) == Behind(done + [Content(s, l)], ItemsOf(s[l.used + l.len..], tag))
  {
    match GetTagOf(s, tag)
    case Err(e) =>
    case Ok(l) =>
      match ItemsOf(s[l.used + l.len..], tag)
      case Err(e) =>
      case Ok(more) => assert done + ([Content(s, l)] + more) == done + [Content(s, l)] + more;
  }

  lemma Subslice(s: seq<byte>, lo: nat, hi: nat, i: nat, j: nat)
    requires lo <= hi <= |s| && i <= j <= hi - lo
    ensures s[lo..hi][i..j] == s[lo + i..lo + j]
  {
    var t := s[lo..hi];
    forall k | 0 <= k < j - i
      ensures t[i..j][k] == s[lo + i..lo + j][k]
    {
      assert t[i..j][k] == t[i + k];
    }
  }

  lemma NumNothing()
    ensures Num([]) == 0
  {}

  lemma FourNum(b: seq<byte>)
    requires 1 <= |b| <= 4
    ensures |b| == 1 ==> Num(b) == b[0]
    ensures |b| == 2 ==> Num(b) == 0x100 * b[0] as int + b[1]
    ensures |b| == 3 ==> Num(b) == 0x1_0000 * b[0] as int + 0x100 * b[1] as int + b[2]
    ensures |b| == 4 ==> Num(b) == 0x100_0000 * b[0] as int + 0x1_0000 * b[1] as int + 0x100 * b[2] as int + b[3]
  {
    NumNothing();
    assert b[..|b| - 1] == if |b| == 1 then [] else b[..|b| - 1];
    if |b| > 1 {
      FourNum(b[..|b| - 1]);
    }
  }
}
