/** Big-endian numbers. */
module Numerals {
  import opened Arith
  import opened Octets

  /** A big-endian number. */
  function Num(s: seq<byte>): nat {
    if s == [] then 0 else 256 * Num(s[..|s| - 1]) + s[|s| - 1]
  }

  lemma {:induction false} NumBound(s: seq<byte>)
    ensures Num(s) < Pow(256, |s|)
  {
    if s != [] { NumBound(s[..|s| - 1]); }
  }

  lemma {:induction false} NumInjective(s: seq<byte>, t: seq<byte>)
    requires |s| == |t| && Num(s) == Num(t)
    ensures s == t
  {
    if s != [] {
      var n := |s| - 1;
      DivModUnique(Num(s), 256, Num(s[..n]), s[n]);
      DivModUnique(Num(s), 256, Num(t[..n]), t[n]);
      NumInjective(s[..n], t[..n]);
      assert s == s[..n] + [s[n]] && t == t[..n] + [t[n]];
    }
  }

  /** `n` as `q` bytes, most significant first. */
  function BigEndian(n: nat, q: nat): (s: seq<byte>)
    ensures |s| == q
  {
    if q == 0 then [] else BigEndian(n / 256, q - 1) + [n % 256]
  }

  lemma PowStart()
    ensures Pow(256, 0) == 1
  {}

  lemma QuotientBelow(n: nat, m: nat)
    ensures n < 256 * m <==> n / 256 < m
  {
    DivMod(n, 256);
  }

  lemma OneByte(n: nat)
    ensures BigEndian(n, 1) == [n % 256]
  {
    assert BigEndian(n / 256, 0) == [];
  }

  lemma LastByte(n: nat, q: nat)
    requires q > 0
    ensures BigEndian(n, q) == BigEndian(n / 256, q - 1) + [n % 256]
  {}

  lemma TwoBytes(n: nat)
    ensures BigEndian(n, 2) == [n / 256 % 256, n % 256]
  {
    hide BigEndian;
    LastByte(n, 2);
    OneByte(n / 256);
  }

  lemma ThreeBytes(n: nat)
    ensures BigEndian(n, 3) == [n / 256 / 256 % 256, n / 256 % 256, n % 256]
  {
    hide BigEndian;
    LastByte(n, 3);
    TwoBytes(n / 256);
  }

  /** Writing a number and reading it back, within what fits. */
  lemma {:induction false} NumBigEndian(n: nat, q: nat)
    requires n < Pow(256, q)
    ensures Num(BigEndian(n, q)) == n
  {
    if q > 0 {
      var s := BigEndian(n, q);
      assert s[..q - 1] == BigEndian(n / 256, q - 1) && s[q - 1] == n % 256;
      hide Pow;
      PowSucc(256, q - 1);
      QuotientBelow(n, Pow(256, q - 1));
      NumBigEndian(n / 256, q - 1);
      DivMod(n, 256);
    } else {
      PowStart();
    }
  }

  lemma BigEndianInjective(i: nat, j: nat, q: nat)
    requires i < Pow(256, q) && j < Pow(256, q) && BigEndian(i, q) == BigEndian(j, q)
    ensures i == j
  {
    NumBigEndian(i, q);
    NumBigEndian(j, q);
  }

  /** Reading bytes and writing them back. */
  lemma {:induction false} BigEndianNum(s: seq<byte>)
    ensures BigEndian(Num(s), |s|) == s
  {
    if s != [] {
      var n := |s| - 1;
      BigEndianNum(s[..n]);
      DivModUnique(Num(s), 256, Num(s[..n]), s[n]);
      assert s == s[..n] + [s[n]];
    }
  }

  /** Bytes of a magnitude. */
  function ByteSize(v: nat): (k: nat)
    ensures k == 0 <==> v == 0
  {
    if v == 0 then 0 else 1 + ByteSize(v / 256)
  }

  lemma {:induction false} ByteSizeFits(v: nat)
    ensures v < Pow(256, ByteSize(v)) && (v > 0 ==> v >= Pow(256, ByteSize(v) - 1))
  {
    hide Pow;
    PowStart();
    if v > 0 {
      ByteSizeFits(v / 256);
      var k := ByteSize(v / 256);
      PowSucc(256, k);
      QuotientBelow(v, Pow(256, k));
      if k > 0 {
        PowSucc(256, k - 1);
        QuotientBelow(v, Pow(256, k - 1));
      }
    }
  }

  lemma {:induction false} NumLeadingZero(m: seq<byte>)
    ensures Num([0] + m) == Num(m)
  {
    var s := [0] + m;
    if m == [] {
      assert s[..0] == [];
      assert Num(s) == 256 * Num(s[..0]) + s[0];
    } else {
      assert s[..|s| - 1] == [0] + m[..|m| - 1];
      NumLeadingZero(m[..|m| - 1]);
    }
  }

  /** One more byte in front. */
  lemma {:induction false} NumCons(b: byte, s: seq<byte>)
    ensures Num([b] + s) == b * Pow(256, |s|) + Num(s)
  {
    hide Pow;
    PowStart();
    var t := [b] + s;
    if s == [] {
      assert t[..0] == [];
      assert Num(t) == 256 * Num(t[..0]) + t[0];
    } else {
      var n := |s| - 1;
      assert t[..|t| - 1] == [b] + s[..n];
      NumCons(b, s[..n]);
      PowSucc(256, n);
      MulAssoc(256, Pow(256, n), b);
    }
  }

  lemma {:induction false} BigEndianCons(v: nat, j: nat)
    ensures BigEndian(v, j + 1) == [v / Pow(256, j) % 256] + BigEndian(v, j)
  {
    if j == 0 {
      OneByte(v);
      PowStart();
      hide Pow;
      assert v / 1 == v;
    } else {
      BigEndianCons(v / 256, j - 1);
      hide Pow;
      PowSucc(256, j - 1);
      DivDiv(v, 256, Pow(256, j - 1));
      var c: byte := v / 256 / Pow(256, j - 1) % 256;
      assert BigEndian(v, j + 1) == ([c] + BigEndian(v / 256, j - 1)) + [v % 256];
      assert BigEndian(v, j) == BigEndian(v / 256, j - 1) + [v % 256];
    }
  }

  /** A number that fits needs only zeros further up. */
  lemma {:induction false} BigEndianPadded(v: nat, n: nat, k: nat)
    requires v < Pow(256, n)
    ensures BigEndian(v, n + k) == ZeroBytes(k) + BigEndian(v, n)
    decreases k
  {
    hide Pow, BigEndian;
    if k == 0 {
      assert ZeroBytes(0) == [];
    } else {
      BigEndianPadded(v, n, k - 1);
      BigEndianCons(v, n + k - 1);
      PowMono(256, n, n + k - 1);
      DivModUnique(v, Pow(256, n + k - 1), 0, v);
      assert ZeroBytes(k) == [0] + ZeroBytes(k - 1);
    }
  }

  function ZeroBytes(n: nat): (s: seq<byte>)
    ensures |s| == n && forall i :: 0 <= i < n ==> s[i] == 0
  {
    seq<byte>(n, _ => 0)
  }

  lemma {:induction false} NumZeros(n: nat, s: seq<byte>)
    ensures Num(ZeroBytes(n) + s) == Num(s)
  {
    if n == 0 {
      assert ZeroBytes(0) + s == s;
    } else {
      NumZeros(n - 1, s);
      assert ZeroBytes(n) + s == [0] + (ZeroBytes(n - 1) + s);
      NumLeadingZero(ZeroBytes(n - 1) + s);
    }
  }
}
