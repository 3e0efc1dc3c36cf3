/** CCM: CBC-MAC and counter mode over one block cipher, against RFC 3610. */
module Ccm {
  import opened Arith
  import opened Octets
  import opened Wrappers
  import opened Numerals
  import opened Modes

  // ------------------------------------------------------------- specification

  /** Zeros up to a block boundary. */
  function Pad16(s: seq<byte>): (t: seq<byte>)
    ensures |t| % 16 == 0 && |s| <= |t| < |s| + 16 && t[..|s|] == s
  {
    PadMod(|s|);
    s + ZeroBytes((16 - |s| % 16) % 16)
  }

  lemma PadMod(n: nat)
    ensures (n + (16 - n % 16) % 16) % 16 == 0
  {
    DivMod(n, 16);
    DivModUnique(n + (16 - n % 16) % 16, 16, if n % 16 == 0 then n / 16 else n / 16 + 1, 0);
  }

  /** Section 2.2: flags, nonce, message length. */
  function FirstBlock(nonce: seq<byte>, addLen: nat, tagLen: nat, length: nat): Block
    requires 7 <= |nonce| <= 13 && 4 <= tagLen <= 16
  {
    var q := 15 - |nonce|;
    [Flags(addLen, tagLen, q)] + nonce + BigEndian(length, q)
  }

  /** Adata, M' and L' of section 2.2. */
  function Flags(addLen: nat, tagLen: nat, q: nat): byte
    requires 2 <= q <= 8 && 4 <= tagLen <= 16
  {
    (if addLen > 0 then 64 else 0) + (tagLen - 2) / 2 * 8 + (q - 1)
  }

  /** The additional data behind its length, as the code writes it. */
  function AddBlocks(add: seq<byte>): (t: seq<byte>)
    ensures |t| % 16 == 0
  {
    if add == [] then [] else Pad16(BigEndian(|add|, 2) + add)
  }

  /** Section 2.2's own encoding of the length, for data below 2^32 bytes. */
  function StandardAddBlocks(add: seq<byte>): (t: seq<byte>)
    ensures |t| % 16 == 0
  {
    if add == [] then []
    else Pad16((if |add| < 0xFF00 then BigEndian(|add|, 2) else [0xFF, 0xFE] + BigEndian(|add|, 4)) + add)
  }

  /** CBC-MAC from the chaining value `y`. */
  function Mac(c: Cipher, y: Block, s: seq<byte>): Block
    requires |s| % 16 == 0
  {
    if s == [] then y else c.enc(XorBlock(Mac(c, y, s[..|s| - 16]), s[|s| - 16..]))
  }

  const ZERO_BLOCK: Block := ZeroBytes(16)

  /** Section 2.3: flags, nonce, counter. */
  function CounterBlock(nonce: seq<byte>, i: nat): Block
    requires 7 <= |nonce| <= 13
  {
    var q := 15 - |nonce|;
    [q - 1] + nonce + BigEndian(i, q)
  }

  /** The message added to the encryptions of counters 1, 2, .... */
  function Crypt(c: Cipher, nonce: seq<byte>, m: seq<byte>): (r: seq<byte>)
    requires 7 <= |nonce| <= 13
    ensures |r| == |m|
  {
    seq<byte>(|m|, i requires 0 <= i < |m| => Xor(m[i], c.enc(CounterBlock(nonce, i / 16 + 1))[i % 16]))
  }

  /** The full authentication value, before it is cut to the tag length. */
  function FullTag(c: Cipher, nonce: seq<byte>, add: seq<byte>, m: seq<byte>, tagLen: nat): Block
    requires 7 <= |nonce| <= 13 && 4 <= tagLen <= 16
  {
    var y0 := Mac(c, ZERO_BLOCK, FirstBlock(nonce, |add|, tagLen, |m|));
    var y := Mac(c, Mac(c, y0, AddBlocks(add)), Pad16(m));
    XorBlock(y, c.enc(CounterBlock(nonce, 0)))
  }

  function Tag(c: Cipher, nonce: seq<byte>, add: seq<byte>, m: seq<byte>, tagLen: nat): (t: seq<byte>)
    requires 7 <= |nonce| <= 13 && 4 <= tagLen <= 16
    ensures |t| == tagLen
  {
    FullTag(c, nonce, add, m, tagLen)[..tagLen]
  }

  /** What the code accepts. */
  predicate Accepted(nonce: seq<byte>, addLen: nat, length: nat, tagLen: nat) {
    4 <= tagLen <= 16 && tagLen % 2 == 0 && 7 <= |nonce| <= 13 && addLen <= 0xFF00 && length < Pow(256, 15 - |nonce|)
  }

  /** Ciphertext and tag. */
  function Seal(c: Cipher, nonce: seq<byte>, add: seq<byte>, m: seq<byte>, tagLen: nat): Option<(seq<byte>, seq<byte>)> {
    if Accepted(nonce, |add|, |m|, tagLen) then Some((Crypt(c, nonce, m), Tag(c, nonce, add, m, tagLen))) else None
  }

  /** The message, if the tag is its tag. */
  function Open(c: Cipher, nonce: seq<byte>, add: seq<byte>, x: seq<byte>, tag: seq<byte>): Option<seq<byte>> {
    if Accepted(nonce, |add|, |x|, |tag|) && tag == Tag(c, nonce, add, Crypt(c, nonce, x), |tag|) then Some(Crypt(c, nonce, x)) else None
  }

  // ---------------------------------------------------------------- properties

  /** Section 2.2 of RFC 3610, read off the block: the Adata bit, M' and L' in the flags,
      then the nonce, then the length. */
  lemma FirstBlockFields(nonce: seq<byte>, addLen: nat, tagLen: nat, length: nat)
    requires 7 <= |nonce| <= 13 && 4 <= tagLen <= 16
    ensures var b := FirstBlock(nonce, addLen, tagLen, length);
            && b[0] / 64 == (if addLen > 0 then 1 else 0) && b[0] / 8 % 8 == (tagLen - 2) / 2 && b[0] % 8 == 14 - |nonce|
            && b[1..1 + |nonce|] == nonce
            && (length < Pow(256, 15 - |nonce|) ==> Num(b[1 + |nonce|..]) == length)
  {
    hide Pow, Num, BigEndian, Flags;
    var q: nat := 15 - |nonce|;
    FlagsRead(addLen, tagLen, q);
    NumberField(Flags(addLen, tagLen, q), nonce, length, q);
  }

  lemma FlagsRead(addLen: nat, tagLen: nat, q: nat)
    requires 2 <= q <= 8 && 4 <= tagLen <= 16
    ensures var f := Flags(addLen, tagLen, q);
            f / 64 == (if addLen > 0 then 1 else 0) && f / 8 % 8 == (tagLen - 2) / 2 && f % 8 == q - 1
  {
    FlagFields(if addLen > 0 then 1 else 0, (tagLen - 2) / 2, q - 1);
  }

  lemma FlagFields(a: nat, m: nat, q: nat)
    requires a < 2 && m < 8 && q < 8
    ensures var flags := 64 * a + 8 * m + q;
            flags < 256 && flags / 64 == a && flags / 8 % 8 == m && flags % 8 == q
  {
    var flags := 64 * a + 8 * m + q;
    DivModUnique(flags, 64, a, 8 * m + q);
    DivModUnique(flags, 8, 8 * a + m, q);
    DivModUnique(8 * a + m, 8, a, m);
  }

  lemma Fields(flags: byte, nonce: seq<byte>, t: seq<byte>)
    ensures var b := [flags] + nonce + t;
            b[0] == flags && b[1..1 + |nonce|] == nonce && b[1 + |nonce|..] == t
  {}

  /** Section 2.3: only L' in the flags, then the nonce, then the counter. */
  lemma CounterBlockFields(nonce: seq<byte>, i: nat)
    requires 7 <= |nonce| <= 13
    ensures var b := CounterBlock(nonce, i);
            b[0] == 14 - |nonce| && b[1..1 + |nonce|] == nonce && (i < Pow(256, 15 - |nonce|) ==> Num(b[1 + |nonce|..]) == i)
  {
    hide Pow, Num, BigEndian;
    var q: nat := 15 - |nonce|;
    NumberField(q - 1, nonce, i, q);
  }

  lemma NumberField(flags: byte, nonce: seq<byte>, n: nat, q: nat)
    ensures var b := [flags] + nonce + BigEndian(n, q);
            b[0] == flags && b[1..1 + |nonce|] == nonce && (n < Pow(256, q) ==> Num(b[1 + |nonce|..]) == n)
  {
    hide Pow, Num, BigEndian;
    Fields(flags, nonce, BigEndian(n, q));
    if n < Pow(256, q) { NumBigEndian(n, q); }
  }

  /** Only zeros are added, and no whole block of them. */
  lemma PadZeros(s: seq<byte>)
    ensures |Pad16(s)| < |s| + 16 && forall i :: |s| <= i < |Pad16(s)| ==> Pad16(s)[i] == 0
  {}

  lemma {:induction false} MacAppend(c: Cipher, y: Block, s: seq<byte>, t: seq<byte>)
    requires |s| % 16 == 0 && |t| % 16 == 0
    ensures Mac(c, y, s + t) == Mac(c, Mac(c, y, s), t)
    decreases |t|
  {
    hide XorBlock, Mac;
    if t == [] {
      assert s + t == s;
      MacNothing(c, Mac(c, y, s));
    } else {
      var u, b := t[..|t| - 16], t[|t| - 16..];
      MacAppend(c, y, s, u);
      WholeBlocks(|s|, |u|);
      MacStep(c, y, s + u, b);
      MacStep(c, Mac(c, y, s), u, b);
      assert s + t == (s + u) + b && u + b == t;
    }
  }

  /** The parameters of section 2.1, but for the limit on the additional data. */
  lemma AcceptedExact(nonce: seq<byte>, addLen: nat, length: nat, tagLen: nat)
    ensures Accepted(nonce, addLen, length, tagLen)
            <==> tagLen in {4, 6, 8, 10, 12, 14, 16} && exists q :: 2 <= q <= 8 && |nonce| + q == 15 && addLen <= 0xFF00 && length < Pow(2, 8 * q)
  {
    hide Pow;
    if |nonce| <= 13 {
      var q: nat := 15 - |nonce|;
      PowMul(2, 8, q);
      PowSmall();
    }
  }

  lemma WholeBlocks(a: nat, b: nat)
    requires a % 16 == 0 && b % 16 == 0
    ensures (a + b) % 16 == 0
  {
    DivMod(a, 16);
    DivMod(b, 16);
    DivModUnique(a + b, 16, a / 16 + b / 16, 0);
  }

  /** Section 2.2's sequence of blocks B_0, B_1, .... */
  function AuthBlocks(nonce: seq<byte>, add: seq<byte>, m: seq<byte>, tagLen: nat): (s: seq<byte>)
    requires 7 <= |nonce| <= 13 && 4 <= tagLen <= 16
    ensures |s| % 16 == 0
  {
    WholeBlocks(16, |AddBlocks(add)|);
    WholeBlocks(16 + |AddBlocks(add)|, |Pad16(m)|);
    FirstBlock(nonce, |add|, tagLen, |m|) + AddBlocks(add) + Pad16(m)
  }

  /** Sections 2.2 to 2.4: the message is keyed by the counters from one on, and the
      tag is the head of the CBC-MAC over first block, additional data and message,
      each padded, keyed by counter zero. */
  lemma SealStandard(c: Cipher, nonce: seq<byte>, add: seq<byte>, m: seq<byte>, tagLen: nat)
    requires Accepted(nonce, |add|, |m|, tagLen)
    ensures Seal(c, nonce, add, m, tagLen).Some? && var (x, tag) := Seal(c, nonce, add, m, tagLen).value;
            && |x| == |m| && (forall i :: 0 <= i < |m| ==> x[i] == Xor(c.enc(CounterBlock(nonce, 1 + i / 16))[i % 16], m[i]))
            && |tag| == tagLen
            && var t := Mac(c, ZERO_BLOCK, AuthBlocks(nonce, add, m, tagLen));
               forall i :: 0 <= i < tagLen ==> tag[i] == Xor(c.enc(CounterBlock(nonce, 0))[i], t[i])
  {
    hide Xor, XorBlock, Mac, Pow, CounterBlock, Crypt, FullTag, AuthBlocks;
    TagOfAll(c, nonce, add, m, tagLen);
    XorBlockEntries(Mac(c, ZERO_BLOCK, AuthBlocks(nonce, add, m, tagLen)), c.enc(CounterBlock(nonce, 0)));
    CryptEntries(c, nonce, m);
  }

  lemma TagOfAll(c: Cipher, nonce: seq<byte>, add: seq<byte>, m: seq<byte>, tagLen: nat)
    requires 7 <= |nonce| <= 13 && 4 <= tagLen <= 16
    ensures FullTag(c, nonce, add, m, tagLen) == XorBlock(Mac(c, ZERO_BLOCK, AuthBlocks(nonce, add, m, tagLen)), c.enc(CounterBlock(nonce, 0)))
  {
    hide XorBlock, Mac, AddBlocks, Pad16, FirstBlock, CounterBlock;
    var b := FirstBlock(nonce, |add|, tagLen, |m|);
    MacAppend(c, ZERO_BLOCK, b, AddBlocks(add));
    WholeBlocks(|b|, |AddBlocks(add)|);
    MacAppend(c, ZERO_BLOCK, b + AddBlocks(add), Pad16(m));
  }

  lemma XorBlockEntries(t: Block, s: Block)
    ensures forall i :: 0 <= i < 16 ==> XorBlock(t, s)[i] == Xor(s[i], t[i])
  {
    hide Xor;
    forall i | 0 <= i < 16
      ensures XorBlock(t, s)[i] == Xor(s[i], t[i])
    {
      XorTwice(t[i], s[i]);
    }
  }

  lemma CryptEntries(c: Cipher, nonce: seq<byte>, m: seq<byte>)
    requires 7 <= |nonce| <= 13
    ensures forall i :: 0 <= i < |m| ==> Crypt(c, nonce, m)[i] == Xor(c.enc(CounterBlock(nonce, 1 + i / 16))[i % 16], m[i])
  {
    hide Xor, CounterBlock;
    forall i | 0 <= i < |m|
      ensures Crypt(c, nonce, m)[i] == Xor(c.enc(CounterBlock(nonce, 1 + i / 16))[i % 16], m[i])
    {
      XorTwice(m[i], c.enc(CounterBlock(nonce, 1 + i / 16))[i % 16]);
    }
  }

  /** The key stream cancels itself. */
  lemma CryptTwice(c: Cipher, nonce: seq<byte>, m: seq<byte>)
    requires 7 <= |nonce| <= 13
    ensures Crypt(c, nonce, Crypt(c, nonce, m)) == m
  {
    hide Xor, CounterBlock;
    forall i | 0 <= i < |m|
      ensures Crypt(c, nonce, Crypt(c, nonce, m))[i] == m[i]
    {
      XorTwice(m[i], c.enc(CounterBlock(nonce, i / 16 + 1))[i % 16]);
    }
  }

  /** Whatever is sealed can be opened again, and gives the message. */
  lemma OpenSeal(c: Cipher, nonce: seq<byte>, add: seq<byte>, m: seq<byte>, tagLen: nat)
    requires Accepted(nonce, |add|, |m|, tagLen)
    ensures var s := Seal(c, nonce, add, m, tagLen).value;
            Open(c, nonce, add, s.0, s.1) == Some(m)
  {
    hide Crypt, FullTag;
    CryptTwice(c, nonce, m);
  }

  /** Opening accepts exactly the sealed messages: nothing else decrypts. */
  lemma OpenOnlySealed(c: Cipher, nonce: seq<byte>, add: seq<byte>, x: seq<byte>, tag: seq<byte>)
    ensures Open(c, nonce, add, x, tag) != None
            <==> exists m :: Seal(c, nonce, add, m, |tag|) == Some((x, tag))
  {
    hide Crypt, FullTag, Pow;
    if Open(c, nonce, add, x, tag) != None {
      CryptTwice(c, nonce, x);
      assert Seal(c, nonce, add, Crypt(c, nonce, x), |tag|) == Some((x, tag));
    }
    if m :| Seal(c, nonce, add, m, |tag|) == Some((x, tag)) {
      CryptTwice(c, nonce, m);
    }
  }

  /** The counters used for a message are all different, none is the tag's, and none
      is the first block of any CBC-MAC. */
  lemma CounterBlocksDistinct(nonce: seq<byte>, length: nat, tagLen: nat, addLen: nat, i: nat, j: nat)
    requires Accepted(nonce, addLen, length, tagLen)
    requires i < j <= length / 16 + 1 && 16 * (j - 1) < length
    ensures CounterBlock(nonce, i) != CounterBlock(nonce, j)
    ensures forall n: seq<byte>, k: nat | |n| == |nonce| :: CounterBlock(nonce, j) != FirstBlock(n, addLen, tagLen, k)
  {
    hide Pow;
    var q := 15 - |nonce|;
    var s, t := CounterBlock(nonce, i), CounterBlock(nonce, j);
    assert s[1 + |nonce|..] == BigEndian(i, q) && t[1 + |nonce|..] == BigEndian(j, q);
    assert j <= length;
    if s == t { BigEndianInjective(i, j, q); }
    assert t[0] == q - 1;
  }

  /** The length of the additional data is written as the standard has it unless it
      is exactly the largest the code lets through. */
  lemma AddBlocksExact(add: seq<byte>)
    requires |add| <= 0xFF00
    ensures AddBlocks(add) == StandardAddBlocks(add) <==> |add| < 0xFF00
  {
    if |add| == 0xFF00 {
      var s, t := BigEndian(|add|, 2) + add, [0xFF, 0xFE] + BigEndian(|add|, 4) + add;
      assert BigEndian(0xFF, 1) == BigEndian(0, 0) + [0xFF];
      assert s[1] == 0;
      assert Pad16(s)[1] == s[1] by { assert Pad16(s)[..|s|] == s; }
      assert ([0xFF, 0xFE] + BigEndian(|add|, 4)) + add == t;
      assert Pad16(t)[1] == t[1] by { assert Pad16(t)[..|t|] == t; }
    }
  }

  // ------------------------------------------------------------------ the code

  const BAD_INPUT: int := -0x000D
  const AUTH_FAILED: int := -0x000F

  /** The macro UPDATE_CBC_MAC. */
  method UpdateMac(c: Cipher, y: array<byte>, b: array<byte>)
    requires y.Length == 16 && b.Length == 16 && y != b
    modifies y
    ensures y[..] == c.enc(XorBlock(old(y[..]), b[..]))
  {
    hide Xor;
    for i := 0 to 16
      invariant forall k :: 0 <= k < i ==> y[k] == Xor(old(y[k]), b[k])
      invariant forall k :: i <= k < 16 ==> y[k] == old(y[k])
    {
      y[i] := Xor(y[i], b[i]);
    }
    assert y[..] == XorBlock(old(y[..]), b[..]);
    SetBlock(y, c.enc(y[..]));
  }

  /** `memset` to zero and `memcpy` of up to a block. */
  method LoadPadded(b: array<byte>, s: seq<byte>)
    requires b.Length == 16 && |s| <= 16
    modifies b
    ensures b[..] == s + ZeroBytes(16 - |s|)
  {
    forall i | 0 <= i < 16 { b[i] := if i < |s| then s[i] else 0; }
  }

  lemma MacStep(c: Cipher, y: Block, s: seq<byte>, b: Block)
    requires |s| % 16 == 0
    ensures Mac(c, y, s + b) == c.enc(XorBlock(Mac(c, y, s), b))
  {
    var t := s + b;
    assert t[..|t| - 16] == s && t[|t| - 16..] == b;
  }

  /** Block `k` of the padded data is the data there, followed by zeros. */
  lemma PaddedBlock(s: seq<byte>, k: nat)
    requires k % 16 == 0 && k < |s|
    ensures k + 16 <= |Pad16(s)|
    ensures var n := if |s| - k > 16 then 16 else |s| - k;
            Pad16(s)[k..k + 16] == s[k..k + n] + ZeroBytes(16 - n)
  {
    BlockFits(k, |Pad16(s)|);
    assert Pad16(s)[..|s|] == s;
  }

  /** One padded block of `s` goes into the MAC. */
  method MacBlock(c: Cipher, y: array<byte>, b: array<byte>, ghost y0: Block, ghost s: seq<byte>, ghost k: nat, chunk: seq<byte>)
    requires y.Length == 16 && b.Length == 16 && y != b && k % 16 == 0 && k < |s|
    requires chunk == s[k..k + if |s| - k > 16 then 16 else |s| - k]
    requires y[..] == Mac(c, y0, Pad16(s)[..k])
    modifies y, b
    ensures k + 16 <= |Pad16(s)| && (k + 16) % 16 == 0 && y[..] == Mac(c, y0, Pad16(s)[..k + 16])
  {
    hide Mac, XorBlock, Pad16;
    LoadPadded(b, chunk);
    UpdateMac(c, y, b);
    PaddedBlock(s, k);
    BlockFits(k, |Pad16(s)|);
    MacStep(c, y0, Pad16(s)[..k], Pad16(s)[k..k + 16]);
    assert Pad16(s)[..k + 16] == Pad16(s)[..k] + Pad16(s)[k..k + 16];
  }

  /** Authenticates the additional data. */
  method MacAdd(c: Cipher, y: array<byte>, b: array<byte>, add: seq<byte>)
    requires y.Length == 16 && b.Length == 16 && y != b && 0 < |add| <= 0xFF00
    modifies y, b
    ensures y[..] == Mac(c, old(y[..]), AddBlocks(add))
  {
    hide Mac, Pad16;
    ghost var y0, s := y[..], BigEndian(|add|, 2) + add;
    MacNothing(c, y0);
    var useLen := if |add| < 14 then |add| else 14;
    var first := [|add| / 256 % 256, |add| % 256] + add[..useLen];
    AddStart(add, first);
    MacBlock(c, y, b, y0, s, 0, first);
    var at := useLen;
    ghost var k := 16;
    while at < |add|
      invariant at <= |add| && k % 16 == 0 && k <= |Pad16(s)| && y[..] == Mac(c, y0, Pad16(s)[..k])
      invariant if at < |add| then k == at + 2 else k >= |s|
      decreases |add| - at
    {
      var n := if |add| - at > 16 then 16 else |add| - at;
      AddMiddle(BigEndian(|add|, 2), add, at, n);
      MacBlock(c, y, b, y0, s, k, add[at..at + n]);
      at := at + n;
      k := k + 16;
    }
    PaddedEnd(s, k);
  }

  lemma AddStart(add: seq<byte>, first: seq<byte>)
    requires first == [|add| / 256 % 256, |add| % 256] + add[..if |add| < 14 then |add| else 14]
    ensures var s := BigEndian(|add|, 2) + add;
            first == s[0..0 + if |s| - 0 > 16 then 16 else |s| - 0] && Pad16(s)[..0] == []
  {
    TwoBytes(|add|);
    hide BigEndian, Pad16;
    var s := [|add| / 256 % 256, |add| % 256] + add;
    assert s[..|first|] == first;
  }

  lemma AddMiddle(head: seq<byte>, add: seq<byte>, at: nat, n: nat)
    requires |head| == 2 && at + n <= |add|
    ensures add[at..at + n] == (head + add)[at + 2..at + 2 + n]
  {}

  lemma MacNothing(c: Cipher, y: Block)
    ensures Mac(c, y, []) == y
  {}

  lemma PaddedEnd(s: seq<byte>, k: nat)
    requires k % 16 == 0 && |s| <= k <= |Pad16(s)|
    ensures Pad16(s)[..k] == Pad16(s)
  {
    if k < |Pad16(s)| { BlockFits(k, |Pad16(s)|); }
  }

  /** The length loop: `q` bytes of `length`, and what is left of it. */
  method WriteLength(b: array<byte>, q: nat, length: nat) returns (left: nat)
    requires b.Length == 16 && q <= 16
    modifies b
    ensures b[..16 - q] == old(b[..16 - q]) && b[16 - q..] == BigEndian(length, q)
    ensures left == 0 <==> length < Pow(256, q)
  {
    hide Pow;
    PowStart();
    left := length;
    for i: nat := 0 to q
      invariant b[..16 - q] == old(b[..16 - q])
      invariant BigEndian(length, q) == BigEndian(left, q - i) + b[16 - i..]
      invariant length < Pow(256, q) <==> left < Pow(256, q - i)
    {
      ghost var t := b[16 - i..];
      b[15 - i] := left % 256;
      assert b[15 - i..] == [left % 256] + t;
      PowSucc(256, q - i - 1);
      QuotientBelow(left, Pow(256, q - i - 1));
      left := left / 256;
    }
  }

  /** Formats the first block; fails when the length needs more than `q` bytes. */
  method WriteFirst(b: array<byte>, nonce: seq<byte>, addLen: nat, tagLen: nat, length: nat) returns (left: nat)
    requires b.Length == 16 && 7 <= |nonce| <= 13 && 4 <= tagLen <= 16
    modifies b
    ensures b[..] == FirstBlock(nonce, addLen, tagLen, length)
    ensures left == 0 <==> length < Pow(256, 15 - |nonce|)
  {
    hide BigEndian, Pow;
    var q: nat := 15 - |nonce|;
    var flags: nat := (if addLen > 0 then 64 else 0) + (tagLen - 2) / 2 * 8 + (q - 1);
    b[0] := flags;
    forall i | 0 <= i < |nonce| { b[1 + i] := nonce[i]; }
    assert b[..16 - q] == [flags] + nonce;
    left := WriteLength(b, q, length);
    assert b[..] == b[..16 - q] + b[16 - q..];
  }

  // -------------------------------------------------------------- counter mode

  /** Incrementing the last `q` bytes moves to the next counter. */
  lemma {:induction false} IncBigEndian(n: nat, q: nat)
    ensures Inc(BigEndian(n, q)) == BigEndian(n + 1, q)
  {
    if q > 0 {
      var s := BigEndian(n, q);
      assert s[..q - 1] == BigEndian(n / 256, q - 1) && s[q - 1] == n % 256;
      DivMod(n, 256);
      if n % 256 < 255 {
        DivModUnique(n + 1, 256, n / 256, n % 256 + 1);
      } else {
        DivModUnique(n + 1, 256, n / 256 + 1, 0);
        IncBigEndian(n / 256, q - 1);
      }
    }
  }

  /** The increment loop over the counter's `q` bytes: it stops at byte `hi - 1`. */
  method BumpTail(ctr: array<byte>, q: nat) returns (ghost hi: nat)
    requires ctr.Length == 16 && q <= 16
    modifies ctr
    ensures 16 - q <= hi <= 16
    ensures forall k :: 0 <= k < 16 ==> ctr[k] == Bumped(old(ctr[k]), k, hi, 16 - q)
    ensures hi > 16 - q ==> old(ctr[hi - 1]) < 255
    ensures forall k :: hi <= k < 16 ==> old(ctr[k]) == 255
  {
    for i: nat := 0 to q
      invariant forall k :: 0 <= k < 16 - i ==> ctr[k] == old(ctr[k])
      invariant forall k :: 16 - i <= k < 16 ==> old(ctr[k]) == 255 && ctr[k] == 0
    {
      var v := ctr[15 - i] as int + 1;
      ctr[15 - i] := v % 256;
      if ctr[15 - i] != 0 { return 16 - i; }
    }
    hi := 16 - q;
  }

  /** Byte `k` after a carry that stopped at `hi - 1`, or ran out below `lo`. */
  function Bumped(x: byte, k: nat, hi: nat, lo: nat): nat {
    if k >= hi then 0 else if k + 1 == hi && hi > lo then x as nat + 1 else x
  }

  lemma {:induction false} IncBumped(s: seq<byte>, t: seq<byte>, hi: nat)
    requires |t| == |s| && hi <= |s| && forall k :: 0 <= k < |s| ==> t[k] == Bumped(s[k], k, hi, 0)
    requires hi > 0 ==> s[hi - 1] < 255
    requires forall k :: hi <= k < |s| ==> s[k] == 255
    ensures Inc(s) == t
  {
    if s != [] {
      var n := |s| - 1;
      if hi < |s| {
        IncBumped(s[..n], t[..n], hi);
      } else {
        assert t[..n] == s[..n];
      }
      assert t == t[..n] + [t[n]];
    }
  }

  method IncrementTail(ctr: array<byte>, q: nat)
    requires ctr.Length == 16 && q <= 16
    modifies ctr
    ensures ctr[..16 - q] == old(ctr[..16 - q]) && ctr[16 - q..] == Inc(old(ctr[16 - q..]))
  {
    hide Inc;
    ghost var w := ctr[..];
    ghost var hi := BumpTail(ctr, q);
    IncBumped(w[16 - q..], ctr[16 - q..], hi - (16 - q));
    assert ctr[..16 - q] == w[..16 - q];
  }

  method NextCounter(ctr: array<byte>, ghost nonce: seq<byte>, ghost k: nat, q: nat)
    requires ctr.Length == 16 && 7 <= |nonce| <= 13 && q == 15 - |nonce| && ctr[..] == CounterBlock(nonce, k)
    modifies ctr
    ensures ctr[..] == CounterBlock(nonce, k + 1)
  {
    hide BigEndian;
    IncBigEndian(k, q);
    assert ctr[16 - q..] == BigEndian(k, q) && ctr[..16 - q] == [q - 1] + nonce;
    IncrementTail(ctr, q);
    assert ctr[..] == ctr[..16 - q] + ctr[16 - q..];
  }

  /** The counter block with counter `k` below 256. */
  method SetCounter(ctr: array<byte>, nonce: seq<byte>, k: byte)
    requires ctr.Length == 16 && 7 <= |nonce| <= 13
    modifies ctr
    ensures ctr[..] == CounterBlock(nonce, k)
  {
    var q: nat := 15 - |nonce|;
    SmallBigEndian(k, q);
    forall i | 0 <= i < 16 {
      ctr[i] := if i == 0 then q - 1 else if i <= |nonce| then nonce[i - 1] else if i == 15 then k else 0;
    }
  }

  lemma {:induction false} SmallBigEndian(k: byte, q: nat)
    requires q > 0
    ensures BigEndian(k, q) == ZeroBytes(q - 1) + [k]
  {
    if q > 1 {
      SmallBigEndian(0, q - 1);
      assert ZeroBytes(q - 2) + [0] == ZeroBytes(q - 1);
    }
  }

  /** The macro CTR_CRYPT on part of a buffer. */
  method CtrPart(c: Cipher, ctr: seq<byte>, b: array<byte>, src: array<byte>, dst: array<byte>, at: nat, n: nat)
    requires |ctr| == 16 && b.Length == 16 && n <= 16 && at + n <= src.Length && at + n <= dst.Length && b != src && b != dst
    modifies b, dst
    ensures forall k :: 0 <= k < dst.Length && !(at <= k < at + n) ==> dst[k] == old(dst[k])
    ensures forall k :: at <= k < at + n ==> dst[k] == Xor(old(src[k]), c.enc(ctr)[k - at])
  {
    hide Xor;
    SetBlock(b, c.enc(ctr));
    ghost var e, was := b[..], src[..];
    for i := 0 to n
      invariant b[..] == e
      invariant forall k :: 0 <= k < dst.Length && !(at <= k < at + i) ==> dst[k] == old(dst[k])
      invariant forall k :: at <= k < at + i ==> dst[k] == Xor(was[k], e[k - at])
      invariant forall k :: at + i <= k < src.Length ==> src[k] == was[k]
    {
      dst[at + i] := Xor(src[at + i], b[i]);
    }
  }

  /** The plaintext of a call: its input when sealing, its output when opening. */
  function Message(c: Cipher, mode: Mode, nonce: seq<byte>, x: seq<byte>): (m: seq<byte>)
    requires 7 <= |nonce| <= 13
    ensures |m| == |x|
  {
    if mode == Encrypt then x else Crypt(c, nonce, x)
  }

  function Least(a: nat, b: nat): nat {
    if a < b then a else b
  }

  /** Where the main loop stands after `k` blocks of the input `x`. */
  ghost predicate Blocks(c: Cipher, mode: Mode, nonce: seq<byte>, x: seq<byte>, y0: Block, k: nat, ctr: seq<byte>, y: seq<byte>)
    requires 7 <= |nonce| <= 13
  {
    ModMultiple(k, 16);
    && 16 * k <= |Pad16(Message(c, mode, nonce, x))|
    && ctr == CounterBlock(nonce, k + 1)
    && y == Mac(c, y0, Pad16(Message(c, mode, nonce, x))[..16 * k])
  }

  lemma SameSlice(s: seq<byte>, t: seq<byte>, at: nat, n: nat)
    requires at + n <= |s| && at + n <= |t| && forall j :: at <= j < at + n ==> s[j] == t[j]
    ensures s[at..at + n] == t[at..at + n]
  {}

  lemma CryptBytes(c: Cipher, nonce: seq<byte>, x: seq<byte>, k: nat, j: nat)
    requires 7 <= |nonce| <= 13 && 16 * k <= j < |x| && j < 16 * k + 16
    ensures Crypt(c, nonce, x)[j] == Xor(x[j], c.enc(CounterBlock(nonce, k + 1))[j - 16 * k])
  {
    hide Xor, CounterBlock;
    DivModUnique(j, 16, k, j - 16 * k);
  }

  /** One round of the main loop. */
  method CcmBlock(c: Cipher, mode: Mode, nonce: seq<byte>, ctr: array<byte>, b: array<byte>, y: array<byte>, input: array<byte>, output: array<byte>, length: nat,
                  ghost x: seq<byte>, ghost y0: Block, ghost k: nat, at: nat, n: nat)
    requires 7 <= |nonce| <= 13 && ctr.Length == b.Length == y.Length == 16 && |x| == length <= input.Length && length <= output.Length
    requires ctr !in {b, y, input, output} && b !in {y, input, output} && y !in {input, output}
    requires at == 16 * k < length && n == Least(16, length - at)
    requires Blocks(c, mode, nonce, x, y0, k, ctr[..], y[..])
    requires forall j :: at <= j < length ==> input[j] == x[j]
    modifies ctr, b, y, output
    ensures Blocks(c, mode, nonce, x, y0, k + 1, ctr[..], y[..])
    ensures forall j :: at <= j < at + n ==> output[j] == Crypt(c, nonce, x)[j]
    ensures forall j :: 0 <= j < output.Length && !(at <= j < at + n) ==> output[j] == old(output[j])
  {
    hide Mac, Pad16, CounterBlock, Crypt;
    ghost var m := Message(c, mode, nonce, x);
    if mode == Encrypt {
      assert input[at..at + n] == m[at..at + n];
      MacBlock(c, y, b, y0, m, at, input[at..at + n]);
    }
    ghost var w := input[..];
    CtrPart(c, ctr[..], b, input, output, at, n);
    forall j | at <= j < at + n
      ensures output[j] == Crypt(c, nonce, x)[j]
    {
      CryptBytes(c, nonce, x, k, j);
    }
    if mode == Decrypt {
      SameSlice(output[..], m, at, n);
      assert output[at..at + n] == output[..][at..at + n];
      MacBlock(c, y, b, y0, m, at, output[at..at + n]);
    }
    NextCounter(ctr, nonce, k + 1, 15 - |nonce|);
  }

  /** The main loop: every block authenticated and encrypted or decrypted. */
  method CcmBlocks(c: Cipher, mode: Mode, nonce: seq<byte>, ctr: array<byte>, b: array<byte>, y: array<byte>, input: array<byte>, output: array<byte>, length: nat)
    requires 7 <= |nonce| <= 13 && ctr.Length == b.Length == y.Length == 16 && length <= input.Length && length <= output.Length
    requires ctr !in {b, y, input, output} && b !in {y, input, output} && y !in {input, output}
    requires ctr[..] == CounterBlock(nonce, 1)
    modifies ctr, b, y, output
    ensures y[..] == Mac(c, old(y[..]), Pad16(Message(c, mode, nonce, old(input[..length]))))
    ensures output[..length] == Crypt(c, nonce, old(input[..length]))
    ensures forall j :: length <= j < output.Length ==> output[j] == old(output[j])
  {
    hide Blocks, Mac, Pad16, CounterBlock, Crypt;
    ghost var x, y0 := input[..length], y[..];
    ghost var m := Message(c, mode, nonce, x);
    ghost var k: nat := 0;
    var at: nat := 0;
    BlocksStart(c, mode, nonce, x, y0, ctr[..]);
    while at < length
      invariant at <= length && if at < length then at == 16 * k else length <= 16 * k
      invariant Blocks(c, mode, nonce, x, y0, k, ctr[..], y[..])
      invariant forall j :: at <= j < length ==> input[j] == x[j]
      invariant forall j :: 0 <= j < at ==> output[j] == Crypt(c, nonce, x)[j]
      invariant forall j :: length <= j < output.Length ==> output[j] == old(output[j])
      decreases length - at
    {
      var n := Least(16, length - at);
      CcmBlock(c, mode, nonce, ctr, b, y, input, output, length, x, y0, k, at, n);
      at := at + n;
      k := k + 1;
    }
    BlocksEnd(c, mode, nonce, x, y0, k, ctr[..], y[..]);
  }

  lemma BlocksStart(c: Cipher, mode: Mode, nonce: seq<byte>, x: seq<byte>, y0: Block, ctr: seq<byte>)
    requires 7 <= |nonce| <= 13 && ctr == CounterBlock(nonce, 1)
    ensures Blocks(c, mode, nonce, x, y0, 0, ctr, y0)
  {
    assert Pad16(Message(c, mode, nonce, x))[..0] == [];
    MacNothing(c, y0);
    hide Pad16, Crypt;
  }

  lemma BlocksEnd(c: Cipher, mode: Mode, nonce: seq<byte>, x: seq<byte>, y0: Block, k: nat, ctr: seq<byte>, y: seq<byte>)
    requires 7 <= |nonce| <= 13 && |x| <= 16 * k && Blocks(c, mode, nonce, x, y0, k, ctr, y)
    ensures y == Mac(c, y0, Pad16(Message(c, mode, nonce, x)))
  {
    hide Pad16, Crypt, Mac;
    var m := Message(c, mode, nonce, x);
    assert 16 * k % 16 == 0 by { ModMultiple(k, 16); }
    PaddedEnd(m, 16 * k);
  }

  /** `ccm_auth_crypt`, in place or not. */
  method AuthCrypt(c: Cipher, mode: Mode, length: nat, nonce: seq<byte>, add: seq<byte>, input: array<byte>, output: array<byte>, tagLen: nat)
    returns (ret: int, tag: seq<byte>)
    requires length <= input.Length && length <= output.Length
    modifies output
    ensures forall j :: length <= j < output.Length ==> output[j] == old(output[j])
    ensures !Accepted(nonce, |add|, length, tagLen) ==> ret == BAD_INPUT && output[..] == old(output[..])
    ensures Accepted(nonce, |add|, length, tagLen) ==>
              var x := old(input[..length]);
              ret == 0 && output[..length] == Crypt(c, nonce, x) && tag == Tag(c, nonce, add, Message(c, mode, nonce, x), tagLen)
  {
    hide FirstBlock, Crypt, Tag, Pow;
    tag := [];
    if tagLen < 4 || tagLen > 16 || tagLen % 2 != 0 { return BAD_INPUT, tag; }
    if |nonce| < 7 || |nonce| > 13 { return BAD_INPUT, tag; }
    if |add| > 0xFF00 { return BAD_INPUT, tag; }
    var b := new byte[16](_ => 0);
    var left := WriteFirst(b, nonce, |add|, tagLen, length);
    if left > 0 { return BAD_INPUT, tag; }
    tag := CryptAndTag(c, mode, length, nonce, add, input, output, tagLen, b);
    return 0, tag;
  }

  /** What follows once the first block is written. */
  method CryptAndTag(c: Cipher, mode: Mode, length: nat, nonce: seq<byte>, add: seq<byte>, input: array<byte>, output: array<byte>, tagLen: nat, b: array<byte>)
    returns (tag: seq<byte>)
    requires length <= input.Length && length <= output.Length && b.Length == 16 && b !in {input, output}
    requires 7 <= |nonce| <= 13 && 4 <= tagLen <= 16 && |add| <= 0xFF00 && b[..] == FirstBlock(nonce, |add|, tagLen, length)
    modifies output, b
    ensures forall j :: length <= j < output.Length ==> output[j] == old(output[j])
    ensures var x := old(input[..length]);
            output[..length] == Crypt(c, nonce, x) && tag == Tag(c, nonce, add, Message(c, mode, nonce, x), tagLen)
  {
    hide Mac, Pad16, CounterBlock, FirstBlock, AddBlocks, Crypt, XorBlock;
    var y := StartMac(c, b, add);
    var ctr := new byte[16](_ => 0);
    SetCounter(ctr, nonce, 1);
    CcmBlocks(c, mode, nonce, ctr, b, y, input, output, length);
    tag := FinishTag(c, nonce, ctr, b, y, tagLen);
  }

  /** Resets the counter, masks the MAC and cuts it to size. */
  method FinishTag(c: Cipher, nonce: seq<byte>, ctr: array<byte>, b: array<byte>, y: array<byte>, tagLen: nat) returns (tag: seq<byte>)
    requires 7 <= |nonce| <= 13 && tagLen <= 16 && ctr.Length == b.Length == y.Length == 16
    requires b !in {ctr, y} && ctr != y
    modifies ctr, b, y
    ensures tag == XorBlock(old(y[..]), c.enc(CounterBlock(nonce, 0)))[..tagLen]
  {
    hide XorBlock, CounterBlock, Xor;
    SetCounter(ctr, nonce, 0);
    ghost var y1 := y[..];
    var e := ctr[..];
    CtrPart(c, e, b, y, y, 0, 16);
    assert forall k :: 0 <= k < 16 ==> y[..][k] == Xor(y1[k], c.enc(e)[k - 0]);
    MaskTag(y1, c.enc(e), y[..]);
    tag := y[..tagLen];
    assert tag == y[..][..tagLen];
  }

  lemma MaskTag(y: Block, e: Block, t: seq<byte>)
    requires |t| == 16 && forall k :: 0 <= k < 16 ==> t[k] == Xor(y[k], e[k - 0])
    ensures t == XorBlock(y, e)
  {
    hide Xor;
    assert forall k :: 0 <= k < 16 ==> t[k] == Xor(y[k], e[k]);
  }

  /** CBC-MAC of the first block and the additional data. */
  method StartMac(c: Cipher, b: array<byte>, add: seq<byte>) returns (y: array<byte>)
    requires b.Length == 16 && |add| <= 0xFF00
    modifies b
    ensures fresh(y) && y.Length == 16 && y[..] == Mac(c, Mac(c, ZERO_BLOCK, old(b[..])), AddBlocks(add))
  {
    hide XorBlock, Pad16;
    y := new byte[16](_ => 0);
    assert y[..] == ZERO_BLOCK;
    OneBlockMac(c, ZERO_BLOCK, b[..]);
    hide Mac;
    UpdateMac(c, y, b);
    MacNothing(c, y[..]);
    if |add| > 0 {
      MacAdd(c, y, b, add);
    }
  }

  lemma OneBlockMac(c: Cipher, y: Block, b: Block)
    ensures Mac(c, y, b) == c.enc(XorBlock(y, b))
  {
    hide XorBlock;
    MacNothing(c, y);
    MacStep(c, y, [], b);
    assert [] + b == b;
  }

  /** `mbedtls_ccm_encrypt_and_tag`. */
  method EncryptAndTag(c: Cipher, length: nat, nonce: seq<byte>, add: seq<byte>, input: array<byte>, output: array<byte>, tagLen: nat)
    returns (ret: int, tag: seq<byte>)
    requires length <= input.Length && length <= output.Length
    modifies output
    ensures forall j :: length <= j < output.Length ==> output[j] == old(output[j])
    ensures ret in {0, BAD_INPUT}
    ensures ret == 0 ==> Seal(c, nonce, add, old(input[..length]), tagLen) == Some((output[..length], tag))
    ensures ret != 0 ==> Seal(c, nonce, add, old(input[..length]), tagLen) == None && output[..] == old(output[..])
  {
    hide Crypt, Tag, Pow;
    ret, tag := AuthCrypt(c, Encrypt, length, nonce, add, input, output, tagLen);
  }

  /** `mbedtls_ccm_auth_decrypt`: compares tags over their whole length, and wipes
      the output when they differ. */
  method AuthDecrypt(c: Cipher, length: nat, nonce: seq<byte>, add: seq<byte>, input: array<byte>, output: array<byte>, tag: seq<byte>) returns (ret: int)
    requires length <= input.Length && length <= output.Length
    modifies output
    ensures forall j :: length <= j < output.Length ==> output[j] == old(output[j])
    ensures var x := old(input[..length]);
            var m := Open(c, nonce, add, x, tag);
            if !Accepted(nonce, |add|, length, |tag|) then ret == BAD_INPUT && output[..] == old(output[..])
            else if m == None then ret == AUTH_FAILED && output[..length] == ZeroBytes(length)
            else ret == 0 && output[..length] == m.value
  {
    hide Crypt, Tag, Pow;
    var r, check := AuthCrypt(c, Decrypt, length, nonce, add, input, output, |tag|);
    if r != 0 { return r; }
    ghost var m := output[..length];
    var diff := false;
    for i := 0 to |tag|
      invariant diff <==> tag[..i] != check[..i]
      invariant output[..length] == m && forall j :: length <= j < output.Length ==> output[j] == old(output[j])
    {
      assert tag[..i + 1] == tag[..i] + [tag[i]] && check[..i + 1] == check[..i] + [check[i]];
      diff := diff || Xor(tag[i], check[i]) != 0;
      XorZero(tag[i], check[i]);
    }
    assert tag[..|tag|] == tag && check[..|tag|] == check;
    if diff {
      forall i | 0 <= i < length { output[i] := 0; }
      return AUTH_FAILED;
    }
    return 0;
  }

  lemma XorZero(a: byte, b: byte)
    ensures Xor(a, b) == 0 <==> a == b
  {
    XorTwice(a, b);
    XorTwice(b, b);
    XorSelf(b);
    XorTwice(0, b);
    hide Xor;
    assert Xor(0, b) == b;
  }
}
