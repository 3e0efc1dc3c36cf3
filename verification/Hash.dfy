/** Streaming hashes: the buffered context shared, up to byte order, by SHA-1 and
    MD5, against padding the whole message once and folding the compression
    function over its blocks. */
module Hash {
  import opened Arith
  import opened Octets
  import opened Numerals

  type word = bv32

  const U32: nat := 0x1_0000_0000
  const U64: nat := 0x1_0000_0000_0000_0000

  type u32 = n: nat | n < U32

  /** What distinguishes the two hashes: byte order of lengths and output, initial
      state, and the compression function. */
  datatype Algorithm = Algorithm(bigEndian: bool, init: seq<word>, compress: (seq<word>, seq<byte>) -> seq<word>)

  /** Rotation by `n` bits to the left. */
  function RotL(x: word, n: nat): word
    requires n < 32
  {
    x.RotateLeft(n)
  }

  /** The same, as the macro S of both hashes spells it. */
  function Rot(x: word, n: nat): word
    requires 0 < n < 32
  {
    (x << n) | ((x & 0xFFFFFFFF) >> (32 - n))
  }

  /** Four bytes as a word, the most significant first. */
  function Joined(a: byte, b: byte, c: byte, d: byte): word {
    ((a as bv32) << 24) | ((b as bv32) << 16) | ((c as bv32) << 8) | (d as bv32)
  }

  // ------------------------------------------------------------- specification

  /** The compression function folded over 64-byte blocks. */
  function Blocks(alg: Algorithm, s: seq<word>, m: seq<byte>): seq<word>
    requires |m| % 64 == 0
    decreases |m|
  {
    if |m| == 0 then s else Blocks(alg, alg.compress(s, m[..64]), m[64..])
  }

  function ByteOfNat(n: nat, shift: nat): byte
    requires shift > 0
  {
    (n / shift) % 256
  }

  /** The four bytes of a 32-bit number. */
  function WordBytes(n: nat, bigEndian: bool): (s: seq<byte>)
    ensures |s| == 4
  {
    if bigEndian then [ByteOfNat(n, 0x100_0000), ByteOfNat(n, 0x1_0000), ByteOfNat(n, 0x100), ByteOfNat(n, 1)]
    else [ByteOfNat(n, 1), ByteOfNat(n, 0x100), ByteOfNat(n, 0x1_0000), ByteOfNat(n, 0x100_0000)]
  }

  /** The eight bytes of a 64-bit number. */
  function LongBytes(n: nat, bigEndian: bool): (s: seq<byte>)
    ensures |s| == 8
  {
    if bigEndian then WordBytes(n / U32, true) + WordBytes(n % U32, true)
    else WordBytes(n % U32, false) + WordBytes(n / U32, false)
  }

  /** Section 5.1.1 of FIPS 180-4 and sections 3.1-3.2 of RFC 1321: a one bit, the
      fewest zeros that leave room for the length, the length in bits. */
  function StandardPad(alg: Algorithm, m: seq<byte>): seq<byte> {
    m + [0x80] + ZeroBytes((55 - |m|) % 64) + LongBytes(8 * |m|, alg.bigEndian)
  }

  lemma StandardPadLength(alg: Algorithm, m: seq<byte>)
    ensures |StandardPad(alg, m)| % 64 == 0
  {
    PadCount(|m|);
    CodePadLength(alg, m, 0);
  }

  function WordOut(x: word, bigEndian: bool): seq<byte> {
    WordBytes(x as nat, bigEndian)
  }

  function Output(alg: Algorithm, s: seq<word>): seq<byte> {
    if s == [] then [] else WordOut(s[0], alg.bigEndian) + Output(alg, s[1..])
  }

  /** The hash of a message. */
  function Digest(alg: Algorithm, m: seq<byte>): seq<byte> {
    StandardPadLength(alg, m);
    Output(alg, Blocks(alg, alg.init, StandardPad(alg, m)))
  }

  // ------------------------------------------------------- what the bytes mean

  lemma JoinedBytes(a: byte, b: byte, c: byte, d: byte)
    ensures var w := Joined(a, b, c, d);
            (w >> 24) & 0xFF == a as bv32 && (w >> 16) & 0xFF == b as bv32 && (w >> 8) & 0xFF == c as bv32 && w & 0xFF == d as bv32
  {}

  lemma NumFour(a: byte, b: byte, c: byte, d: byte)
    ensures Num([a, b, c, d]) == a * 0x100_0000 + b * 0x1_0000 + c * 0x100 + d
  {
    NumSnoc([], a);
    NumSnoc([a], b);
    NumSnoc([a, b], c);
    NumSnoc([a, b, c], d);
    assert [] + [a] == [a] && [a] + [b] == [a, b] && [a, b] + [c] == [a, b, c] && [a, b, c] + [d] == [a, b, c, d];
  }

  function Reversed(s: seq<byte>): (t: seq<byte>)
    ensures |t| == |s| && forall i :: 0 <= i < |s| ==> t[i] == s[|s| - 1 - i]
  {
    seq<byte>(|s|, i requires 0 <= i < |s| => s[|s| - 1 - i])
  }

  /** Four bytes written are the number, most significant first, or the reverse. */
  lemma WordBytesNum(n: u32)
    ensures Num(WordBytes(n, true)) == n && WordBytes(n, false) == Reversed(WordBytes(n, true))
  {
    FourBytes(n);
    NumFour(ByteOfNat(n, 0x100_0000), ByteOfNat(n, 0x1_0000), ByteOfNat(n, 0x100), ByteOfNat(n, 1));
  }

  lemma LongBytesNum(n: nat)
    requires n < U64
    ensures Num(LongBytes(n, true)) == n && LongBytes(n, false) == Reversed(LongBytes(n, true))
  {
    var high, low := n / U32, n % U32;
    DivMod(n, U32);
    WordBytesNum(high);
    WordBytesNum(low);
    hide WordBytes;
    NumAppend4(WordBytes(high, true), WordBytes(low, true));
  }

  lemma NumAppend4(s: seq<byte>, t: seq<byte>)
    requires |t| == 4
    ensures Num(s + t) == Num(s) * U32 + Num(t)
  {
    var s1, s2, s3 := s + [t[0]], s + [t[0], t[1]], s + [t[0], t[1], t[2]];
    assert t == [t[0], t[1], t[2], t[3]];
    NumFour(t[0], t[1], t[2], t[3]);
    NumSnoc(s, t[0]);
    NumSnoc(s1, t[1]);
    NumSnoc(s2, t[2]);
    NumSnoc(s3, t[3]);
    assert s1 + [t[1]] == s2 && s2 + [t[2]] == s3 && s3 + [t[3]] == s + t;
  }

  lemma NumSnoc(s: seq<byte>, b: byte)
    ensures Num(s + [b]) == 256 * Num(s) + b
  {
    assert (s + [b])[..|s|] == s;
  }

  /** The output is the words in order. */
  lemma {:induction false} OutputEntries(alg: Algorithm, s: seq<word>, i: nat)
    requires i < |s|
    ensures |Output(alg, s)| == 4 * |s| && Output(alg, s)[4 * i..4 * i + 4] == WordOut(s[i], alg.bigEndian)
  {
    hide WordBytes;
    var first, rest := WordOut(s[0], alg.bigEndian), Output(alg, s[1..]);
    if i > 0 {
      OutputEntries(alg, s[1..], i - 1);
      assert (first + rest)[4 * i..4 * i + 4] == rest[4 * i - 4..4 * i];
    } else {
      OutputSize(alg, s[1..]);
      assert (first + rest)[0..4] == first;
    }
  }

  lemma {:induction false} OutputSize(alg: Algorithm, s: seq<word>)
    ensures |Output(alg, s)| == 4 * |s|
  {
    if s != [] { OutputSize(alg, s[1..]); }
  }

  /** The padded message read back: the message, a byte with only its top bit set, as
      few zeros as complete a block, and the bit count. */
  lemma PadFields(alg: Algorithm, m: seq<byte>)
    requires 8 * |m| < U64
    ensures var s := StandardPad(alg, m);
            && |s| % 64 == 0 && |m| + 9 <= |s| < |m| + 9 + 64
            && s[..|m|] == m && s[|m|] == 0x80 && (forall i :: |m| < i < |s| - 8 ==> s[i] == 0)
            && Num(if alg.bigEndian then s[|s| - 8..] else Reversed(s[|s| - 8..])) == 8 * |m|
  {
    StandardPadLength(alg, m);
    var k, n := (55 - |m|) % 64, LongBytes(8 * |m|, alg.bigEndian);
    LongBytesNum(8 * |m|);
    ReversedTwice(LongBytes(8 * |m|, true));
    hide LongBytes, Num, Reversed;
    PaddingParts(m, k, n);
  }

  lemma ReversedTwice(s: seq<byte>)
    ensures Reversed(Reversed(s)) == s
  {}

  lemma PaddingParts(m: seq<byte>, k: nat, n: seq<byte>)
    requires |n| == 8
    ensures var s := m + [0x80] + ZeroBytes(k) + n;
            |s| == |m| + k + 9 && s[..|m|] == m && s[|m|] == 0x80 && s[|s| - 8..] == n && forall i :: |m| < i < |s| - 8 ==> s[i] == 0
  {}

  // --------------------------------------------------------------- block lemmas

  lemma {:induction false} BlocksAppend(alg: Algorithm, s: seq<word>, m: seq<byte>, t: seq<byte>)
    requires |m| % 64 == 0 && |t| % 64 == 0
    ensures Blocks(alg, s, m + t) == Blocks(alg, Blocks(alg, s, m), t)
    decreases |m|
  {
    if |m| == 0 {
      assert m + t == t;
    } else {
      assert (m + t)[..64] == m[..64] && (m + t)[64..] == m[64..] + t;
      BlocksAppend(alg, alg.compress(s, m[..64]), m[64..], t);
    }
  }

  /** One more block of a message. */
  lemma BlocksStep(alg: Algorithm, m: seq<byte>, p: nat)
    requires p % 64 == 0 && p + 64 <= |m|
    ensures Blocks(alg, alg.init, m[..p + 64]) == alg.compress(Blocks(alg, alg.init, m[..p]), m[p..p + 64])
  {
    var b := m[p..p + 64];
    assert m[..p + 64] == m[..p] + b;
    BlocksAppend(alg, alg.init, m[..p], b);
    assert b[..64] == b && b[64..] == [];
  }

  // ------------------------------------------------------------------- padding

  /** What `finish` appends to `m` when the context has counted `count` bytes. */
  function CodePad(alg: Algorithm, m: seq<byte>, count: nat): seq<byte> {
    var last := |m| % 64;
    var padn := if last < 56 then 56 - last else 120 - last;
    m + ([0x80] + ZeroBytes(padn - 1)) + LongBytes((8 * count) % U64, alg.bigEndian)
  }

  lemma CodePadLength(alg: Algorithm, m: seq<byte>, count: nat)
    ensures |CodePad(alg, m, count)| % 64 == 0
  {}

  lemma FourBytes(a: u32)
    ensures a == (a / 0x100_0000) % 256 * 0x100_0000 + (a / 0x1_0000) % 256 * 0x1_0000 + (a / 0x100) % 256 * 0x100 + a % 256
  {}

  lemma WordBytesInjective(a: u32, b: u32, bigEndian: bool)
    requires WordBytes(a, bigEndian) == WordBytes(b, bigEndian)
    ensures a == b
  {
    var s, t := WordBytes(a, bigEndian), WordBytes(b, bigEndian);
    assert s[0] == t[0] && s[1] == t[1] && s[2] == t[2] && s[3] == t[3];
    FourBytes(a);
    FourBytes(b);
  }

  lemma LongBytesInjective(a: nat, b: nat, bigEndian: bool)
    requires a < U64 && b < U64 && LongBytes(a, bigEndian) == LongBytes(b, bigEndian)
    ensures a == b
  {
    var s, t := LongBytes(a, bigEndian), LongBytes(b, bigEndian);
    assert s[..4] == t[..4] && s[4..] == t[4..];
    if bigEndian {
      assert s[..4] == WordBytes(a / U32, true) && t[..4] == WordBytes(b / U32, true);
      assert s[4..] == WordBytes(a % U32, true) && t[4..] == WordBytes(b % U32, true);
    } else {
      assert s[..4] == WordBytes(a % U32, false) && t[..4] == WordBytes(b % U32, false);
      assert s[4..] == WordBytes(a / U32, false) && t[4..] == WordBytes(b / U32, false);
    }
    WordBytesInjective(a / U32, b / U32, bigEndian);
    WordBytesInjective(a % U32, b % U32, bigEndian);
  }

  /** The padding written is the standard's exactly when the byte counter agrees
      with the message length modulo 2^61. */
  lemma CodePadExact(alg: Algorithm, m: seq<byte>, count: nat)
    requires |m| < 0x2000_0000_0000_0000
    ensures CodePad(alg, m, count) == StandardPad(alg, m) <==> count % 0x2000_0000_0000_0000 == |m|
  {
    hide LongBytes;
    var last := |m| % 64;
    var padn := if last < 56 then 56 - last else 120 - last;
    PadCount(|m|);
    var front := m + [0x80] + ZeroBytes(padn - 1);
    var x := (8 * count) % U64;
    CountScaled(count);
    var c, s := LongBytes(x, alg.bigEndian), LongBytes(8 * |m|, alg.bigEndian);
    assert CodePad(alg, m, count) == front + c;
    assert StandardPad(alg, m) == front + s;
    if front + c == front + s {
      assert c == (front + c)[|front|..] && s == (front + s)[|front|..];
      LongBytesInjective(x, 8 * |m|, alg.bigEndian);
    }
  }

  lemma PadCount(n: nat)
    ensures var last := n % 64;
            (if last < 56 then 56 - last else 120 - last) - 1 == (55 - n) % 64
  {}

  lemma CountScaled(count: nat)
    ensures (8 * count) % U64 == 8 * (count % 0x2000_0000_0000_0000)
  {}

  // -------------------------------------------------------------- the context

  /** The context's state and buffer after the message `m`: whole blocks are
      folded in, the rest waits in the buffer. */
  ghost predicate Absorbed(alg: Algorithm, m: seq<byte>, state: seq<word>, buffer: seq<byte>) {
    var left := |m| % 64;
    |buffer| == 64 && state == Blocks(alg, alg.init, m[..|m| - left]) && buffer[..left] == m[|m| - left..]
  }

  /** The two words of the counter, modulo 2^64; and the low bits never go wrong. */
  ghost predicate Tallied(total1: u32, total0: u32, counted: nat, n: nat) {
    total1 * U32 + total0 == counted % U64 && counted % 64 == n % 64
  }

  lemma NothingTallied()
    ensures Tallied(0, 0, 0, 0)
  {}

  lemma NothingAbsorbed(alg: Algorithm, buffer: seq<byte>)
    requires |buffer| == 64
    ensures Absorbed(alg, [], alg.init, buffer)
  {}

  class Context {
    const alg: Algorithm
    var total0: u32
    var total1: u32
    var state: seq<word>
    var buffer: array<byte>

    /** Everything passed to `Update` since `Starts`. */
    ghost var msg: seq<byte>

    /** Sum of the lengths passed to `Update`, each cut to 32 bits as the code does. */
    ghost var counted: nat

    ghost predicate Valid()
      reads this, buffer
    {
      Absorbed(alg, msg, state, buffer[..]) && Tallied(total1, total0, counted, |msg|)
    }

    /** `init` and `starts`. */
    constructor (alg: Algorithm)
      ensures Valid() && fresh(buffer) && this.alg == alg && msg == [] && counted == 0
    {
      hide Absorbed, Blocks, Tallied;
      NothingTallied();
      this.alg := alg;
      total0, total1 := 0, 0;
      state := alg.init;
      buffer := new byte[64];
      msg, counted := [], 0;
      new;
      NothingAbsorbed(alg, buffer[..]);
    }

    method Process(data: seq<byte>)
      requires |data| == 64
      modifies this`state
      ensures state == alg.compress(old(state), data)
    {
      state := alg.compress(state, data);
    }

    /** `memcpy` into the block buffer. */
    method Fill(left: nat, data: seq<byte>)
      requires left + |data| <= buffer.Length
      modifies buffer
      ensures buffer[..left + |data|] == old(buffer[..left]) + data
    {
      forall i | 0 <= i < |data| {
        buffer[left + i] := data[i];
      }
    }

    method Count(ilen: nat)
      modifies this`total0, this`total1
      ensures total1 * U32 + total0 == (old(total1) * U32 + old(total0) + ilen % U32) % U64
    {
      var n := ilen % U32;
      total0 := (total0 + n) % U32;
      if total0 < n { total1 := (total1 + 1) % U32; }
    }

    /** The loop over whole blocks of the input. */
    method AbsorbBlocks(input: seq<byte>, ghost done: seq<byte>) returns (off: nat)
      requires |done| % 64 == 0 && state == Blocks(alg, alg.init, done)
      modifies this`state
      ensures off <= |input| < off + 64 && off % 64 == 0
      ensures state == Blocks(alg, alg.init, done + input[..off])
    {
      off := 0;
      assert done + input[..0] == done;
      ghost var whole := done + input;
      while |input| - off >= 64
        invariant off <= |input| && off % 64 == 0
        invariant state == Blocks(alg, alg.init, done + input[..off])
      {
        Process(input[off..off + 64]);
        assert whole[..|done| + off] == done + input[..off] && whole[..|done| + off + 64] == done + input[..off + 64];
        assert whole[|done| + off..|done| + off + 64] == input[off..off + 64];
        BlocksStep(alg, whole, |done| + off);
        off := off + 64;
      }
    }

    /** Completes the block in the buffer. */
    method CompleteBlock(left: nat, input: seq<byte>, ghost m: seq<byte>)
      requires Absorbed(alg, m, state, buffer[..]) && left == |m| % 64 && left + |input| == 64
      modifies this`state, buffer
      ensures state == Blocks(alg, alg.init, m + input)
    {
      ghost var whole, base := m + input, |m| - left;
      Fill(left, input);
      assert buffer[..] == buffer[..64] == whole[base..base + 64];
      Process(buffer[..]);
      assert whole[..base] == m[..base] && whole[..base + 64] == whole;
      BlocksStep(alg, whole, base);
    }

    /** Appends any number of bytes to the message. */
    method Update(input: seq<byte>)
      requires Valid()
      modifies this, buffer
      ensures Valid() && buffer == old(buffer)
      ensures msg == old(msg) + input && counted == old(counted) + |input| % U32
    {
      if |input| == 0 {
        assert msg == msg + input;
        return;
      }
      hide Absorbed, Blocks;
      CountedLow(total1, total0, counted, |msg|);
      var left: nat := total0 % 64;
      Count(|input|);
      CountSum(counted, |msg|, |input|);
      counted := counted + |input| % U32;
      Absorb(left, input);
      msg := msg + input;
    }

    /** `if( left && ilen >= fill )`: completes the waiting block when it can. */
    method FlushBuffer(left0: nat, input: seq<byte>) returns (left: nat, off: nat, ghost done: seq<byte>)
      requires Absorbed(alg, msg, state, buffer[..]) && left0 == |msg| % 64
      modifies this`state, buffer
      ensures off <= |input| && left < 64 == buffer.Length && |done| % 64 == 0 && state == Blocks(alg, alg.init, done)
      ensures msg + input == done + buffer[..left] + input[off..]
      ensures left != 0 ==> |input| - off < 64 - left
    {
      hide Blocks;
      var fill: nat := 64 - left0;
      if left0 != 0 && |input| >= fill {
        CompleteBlock(left0, input[..fill], msg);
        return 0, fill, msg + input[..fill];
      }
      return left0, 0, msg[..|msg| - left0];
    }

    /** The part of `Update` that moves the bytes. */
    method Absorb(left0: nat, input: seq<byte>)
      requires Absorbed(alg, msg, state, buffer[..]) && left0 == |msg| % 64
      modifies this`state, buffer
      ensures Absorbed(alg, msg + input, state, buffer[..])
    {
      hide Blocks, Absorbed;
      var left, off, done := FlushBuffer(left0, input);
      ghost var waiting := buffer[..left];
      var more := input[off..];
      var n := AbsorbBlocks(more, done);
      var rest := more[n..];
      assert more == more[..n] + rest;
      assert left != 0 ==> n == 0 && more[..n] == [];
      Fill(left, rest);
      Regroup(msg, input, done, waiting, off, n);
      AbsorbedIntro(alg, msg + input, done + more[..n], waiting + rest, state, buffer[..]);
    }

    /** The closing block or two: padding, then the length. */
    method AppendPadding(padn: nat, msglen: seq<byte>)
      requires Valid() && 0 < padn <= 64 && |msglen| == 8
      modifies this, buffer
      ensures Valid() && buffer == old(buffer) && msg == old(msg) + ([0x80] + ZeroBytes(padn - 1)) + msglen
    {
      hide Absorbed;
      var padding := [0x80] + ZeroBytes(63);
      assert padding[..padn] == [0x80] + ZeroBytes(padn - 1);
      Update(padding[..padn]);
      Update(msglen);
    }

    /** The message length in bits, as eight bytes. */
    method LengthField() returns (msglen: seq<byte>)
      requires Valid()
      ensures msglen == LongBytes((8 * counted) % U64, alg.bigEndian)
    {
      hide WordBytes, Absorbed;
      LengthWords(total1, total0, counted);
      var high: u32 := total0 / 0x2000_0000 + (total1 * 8) % U32;
      var low: u32 := (total0 * 8) % U32;
      TwoWords(high, low, (8 * counted) % U64);
      msglen := if alg.bigEndian then WordBytes(high, true) + WordBytes(low, true) else WordBytes(low, false) + WordBytes(high, false);
    }

    /** Pads, appends the length and reports the state: the standard hash of the
        message whenever the byte counter is right. */
    method Finish() returns (output: seq<byte>)
      requires Valid()
      modifies this, buffer
      ensures |CodePad(alg, old(msg), old(counted))| % 64 == 0
      ensures output == Output(alg, Blocks(alg, alg.init, CodePad(alg, old(msg), old(counted))))
    {
      hide Blocks, Output, Absorbed, LongBytes;
      ghost var m, c := msg, counted;
      CountedLow(total1, total0, counted, |msg|);
      var msglen := LengthField();
      var last := total0 % 64;
      AppendPadding(if last < 56 then 56 - last else 120 - last, msglen);
      CodePadLength(alg, m, c);
      assert msg == CodePad(alg, m, c);
      WholeBlocks(alg, msg, state, buffer[..]);
      output := Output(alg, state);
    }
  }

  /** What `Finish` reports is the standard hash when the bytes were counted
      right; by `CodePadExact` that is also the only way to get its padding. */
  lemma FinishIsDigest(alg: Algorithm, m: seq<byte>, count: nat)
    requires |m| < 0x2000_0000_0000_0000 && count % 0x2000_0000_0000_0000 == |m|
    ensures |CodePad(alg, m, count)| % 64 == 0
    ensures Output(alg, Blocks(alg, alg.init, CodePad(alg, m, count))) == Digest(alg, m)
  {
    CodePadExact(alg, m, count);
    StandardPadLength(alg, m);
  }

  // ---------------------------------------------------------------- chunkings

  function Concat(chunks: seq<seq<byte>>): seq<byte> {
    if chunks == [] then [] else Concat(chunks[..|chunks| - 1]) + chunks[|chunks| - 1]
  }

  /** The counter after a run of updates. */
  function CountAll(chunks: seq<seq<byte>>): nat {
    if chunks == [] then 0 else CountAll(chunks[..|chunks| - 1]) + |chunks[|chunks| - 1]| % U32
  }

  /** However a message is cut up, chunks below 2^32 bytes are counted in full. */
  lemma {:induction false} ChunksCounted(chunks: seq<seq<byte>>)
    requires forall i :: 0 <= i < |chunks| ==> |chunks[i]| < U32
    ensures CountAll(chunks) == |Concat(chunks)|
  {
    if chunks != [] { ChunksCounted(chunks[..|chunks| - 1]); }
  }

  /** A run of updates and a finish, for any way of cutting the message up. */
  method HashChunks(alg: Algorithm, chunks: seq<seq<byte>>) returns (output: seq<byte>)
    requires forall i :: 0 <= i < |chunks| ==> |chunks[i]| < U32
    requires |Concat(chunks)| < 0x2000_0000_0000_0000
    ensures output == Digest(alg, Concat(chunks))
  {
    hide Absorbed, Blocks, Output, CodePad;
    var ctx := new Context(alg);
    for i := 0 to |chunks|
      invariant ctx.Valid() && fresh(ctx) && fresh(ctx.buffer)
      invariant ctx.msg == Concat(chunks[..i]) && ctx.counted == CountAll(chunks[..i])
    {
      assert chunks[..i + 1][..i] == chunks[..i];
      ctx.Update(chunks[i]);
    }
    assert chunks[..|chunks|] == chunks;
    ChunksCounted(chunks);
    FinishIsDigest(alg, ctx.msg, ctx.counted);
    output := ctx.Finish();
  }

  lemma WholeBlocks(alg: Algorithm, m: seq<byte>, state: seq<word>, buffer: seq<byte>)
    requires Absorbed(alg, m, state, buffer) && |m| % 64 == 0
    ensures state == Blocks(alg, alg.init, m)
  {
    assert m[..|m|] == m;
  }

  lemma Regroup(m: seq<byte>, input: seq<byte>, done: seq<byte>, waiting: seq<byte>, off: nat, n: nat)
    requires off + n <= |input| && m + input == done + waiting + input[off..]
    requires waiting == [] || n == 0
    ensures m + input == (done + input[off..][..n]) + (waiting + input[off..][n..])
  {
    var more := input[off..];
    assert more == more[..n] + more[n..];
    if n == 0 {
      assert more[..n] == [] && done + [] == done;
    }
  }

  lemma AbsorbedIntro(alg: Algorithm, whole: seq<byte>, prefix: seq<byte>, tail: seq<byte>, state: seq<word>, buffer: seq<byte>)
    requires |prefix| % 64 == 0 && |tail| < 64 && whole == prefix + tail
    requires state == Blocks(alg, alg.init, prefix) && |buffer| == 64 && buffer[..|tail|] == tail
    ensures Absorbed(alg, whole, state, buffer)
  {
    hide Blocks;
    DivMod(|prefix|, 64);
    DivModUnique(|whole|, 64, |prefix| / 64, |tail|);
    assert whole[..|prefix|] == prefix && whole[|prefix|..] == tail;
  }

  lemma TwoWords(high: u32, low: u32, n: nat)
    requires n == high * U32 + low
    ensures n / U32 == high && n % U32 == low
  {
    DivModUnique(n, U32, high, low);
  }

  lemma CountedLow(total1: u32, total0: u32, counted: nat, n: nat)
    requires total1 * U32 + total0 == counted % U64 && counted % 64 == n % 64
    ensures total0 % 64 == n % 64
  {}

  lemma CountSum(counted: nat, n: nat, ilen: nat)
    requires counted % 64 == n % 64
    ensures (counted % U64 + ilen % U32) % U64 == (counted + ilen % U32) % U64
    ensures (counted + ilen % U32) % 64 == (n + ilen) % 64
  {
    ModAdd(counted, ilen % U32, U64);
    SameResidue(counted, n, ilen % U32, ilen);
  }

  lemma SameResidue(a: nat, b: nat, c: nat, d: nat)
    requires a % 64 == b % 64 && c % 64 == d % 64
    ensures (a + c) % 64 == (b + d) % 64
  {
    ModAdd(a, c, 64);
    ModAdd(b, d, 64);
    ModAdd(c, a % 64, 64);
    ModAdd(d, a % 64, 64);
  }

  /** The two length words are the bit count modulo 2^64. */
  lemma LengthWords(total1: u32, total0: u32, counted: nat)
    requires total1 * U32 + total0 == counted % U64
    ensures var high := total0 / 0x2000_0000 + (total1 * 8) % U32;
            high < U32 && high * U32 + (total0 * 8) % U32 == (8 * counted) % U64
  {
    var h, l := total0 / 0x2000_0000, total0 % 0x2000_0000;
    var k, g := (total1 * 8) / U32, (total1 * 8) % U32;
    assert (total0 * 8) % U32 == 8 * l;
    DivModUnique(8 * counted, U64, 8 * (counted / U64) + k, (g + h) * U32 + 8 * l);
  }
}
