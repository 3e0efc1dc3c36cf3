/** Byte-at-a-time cipher modes as runs of a state machine. */
module Streams {
  import opened Octets

  datatype Step<S> = Step(state: S, out: byte)
  datatype Out<S> = Out(state: S, bytes: seq<byte>)

  /** A whole run: the step applied to every byte in turn. */
  function Run<S>(f: (S, byte) -> Step<S>, s: S, p: seq<byte>): (r: Out<S>)
    ensures |r.bytes| == |p|
  {
    if p == [] then Out(s, [])
    else
      var u := Run(f, s, p[..|p| - 1]);
      var v := f(u.state, p[|p| - 1]);
      Out(v.state, u.bytes + [v.out])
  }

  /** Cutting the input into two calls changes nothing. */
  lemma {:induction false} RunAppend<S>(f: (S, byte) -> Step<S>, s: S, a: seq<byte>, b: seq<byte>)
    ensures var u := Run(f, s, a);
            var v := Run(f, u.state, b);
            Run(f, s, a + b) == Out(v.state, u.bytes + v.bytes)
    decreases |b|
  {
    if b == [] {
      assert a + b == a;
    } else {
      var n := |b| - 1;
      RunAppend(f, s, a, b[..n]);
      assert (a + b)[..|a + b| - 1] == a + b[..n];
    }
  }

  /** If `g` undoes `f` byte by byte and follows its states, it undoes whole runs. */
  lemma {:induction false} RunInverse<S>(f: (S, byte) -> Step<S>, g: (S, byte) -> Step<S>, s: S, p: seq<byte>)
    requires forall t, b: byte :: g(t, f(t, b).out) == Step(f(t, b).state, b)
    ensures Run(g, s, Run(f, s, p).bytes) == Out(Run(f, s, p).state, p)
  {
    if p != [] {
      var n := |p| - 1;
      RunInverse(f, g, s, p[..n]);
      var r := Run(f, s, p).bytes;
      assert r[..n] == Run(f, s, p[..n]).bytes;
      assert p == p[..n] + [p[n]];
    }
  }
}

/** CBC, CFB128, CFB8 and CTR over any block cipher. */
module Modes {
  import opened Arith
  import opened Octets
  import opened Numerals
  import opened Streams

  type Block = b: seq<byte> | |b| == 16 witness [0, 0, 0, 0, 0, 0, 0, 0, 0, 0, 0, 0, 0, 0, 0, 0]

  /** A block cipher under one key. */
  datatype Cipher = Cipher(enc: Block -> Block, dec: Block -> Block)

  ghost predicate Inverts(c: Cipher) {
    forall b: Block :: c.dec(c.enc(b)) == b
  }

  datatype Mode = Encrypt | Decrypt

  // ------------------------------------------------------------------ CFB128

  datatype Cfb = Cfb(iv: Block, n: nat)

  /** One byte of CFB128. */
  function CfbStep(c: Cipher, mode: Mode, s: Cfb, b: byte): Step<Cfb> {
    var n := s.n % 16;
    var reg: Block := if n == 0 then c.enc(s.iv) else s.iv;
    var out := Xor(reg[n], b);
    Step(Cfb(reg[n := if mode == Decrypt then b else out], (n + 1) % 16), out)
  }

  function CfbFn(c: Cipher, mode: Mode): (Cfb, byte) -> Step<Cfb> {
    (s: Cfb, b: byte) => CfbStep(c, mode, s, b)
  }

  /** Decryption from the same state restores any input and ends in the same state. */
  lemma CfbInverse(c: Cipher, s: Cfb, p: seq<byte>)
    ensures var r := Run(CfbFn(c, Encrypt), s, p);
            Run(CfbFn(c, Decrypt), s, r.bytes) == Out(r.state, p)
  {
    hide CfbStep;
    var f, g := CfbFn(c, Encrypt), CfbFn(c, Decrypt);
    forall t: Cfb, b: byte
      ensures g(t, f(t, b).out) == Step(f(t, b).state, b)
    {
      CfbStepInverse(c, t, b);
    }
    RunInverse(f, g, s, p);
  }

  lemma CfbStepInverse(c: Cipher, t: Cfb, b: byte)
    ensures var v := CfbStep(c, Encrypt, t, b);
            CfbStep(c, Decrypt, t, v.out) == Step(v.state, b)
  {
    hide Xor;
    var n := t.n % 16;
    var reg: Block := if n == 0 then c.enc(t.iv) else t.iv;
    XorBack(reg[n], b);
  }

  /** The register after `k` bytes, `h` being the IV and the ciphertext so far: a
      whole ciphertext block, or the bytes of the block in progress followed by
      unused key stream. */
  ghost predicate CfbRegister(c: Cipher, h: seq<byte>, k: nat, s: Cfb)
    requires |h| == 16 + k
  {
    s.n == k % 16 && RegisterAt(c, h, k % 16, s.iv)
  }

  ghost predicate RegisterAt(c: Cipher, h: seq<byte>, n: nat, iv: Block)
    requires n < 16 && |h| >= 16 + n
  {
    var j := |h| - 16 - n;
    if n == 0 then iv == h[j..] else iv[..n] == h[j + 16..] && iv[n..] == c.enc(h[j..j + 16])[n..]
  }

  /** The next byte of output, and the register after it. */
  lemma CfbRegisterStep(c: Cipher, h: seq<byte>, k: nat, s: Cfb, b: byte)
    requires |h| == 16 + k && CfbRegister(c, h, k, s)
    ensures var v := CfbStep(c, Encrypt, s, b);
            v.out == Xor(c.enc(Before(h, k))[k % 16], b) && CfbRegister(c, h + [v.out], k + 1, v.state)
  {
    hide Xor, RegisterAt;
    var n := k % 16;
    RegisterAtStep(c, h, n, s.iv, b);
    DivModUnique(k + 1, 16, if n == 15 then k / 16 + 1 else k / 16, if n == 15 then 0 else n + 1);
  }

  lemma RegisterAtStep(c: Cipher, h: seq<byte>, n: nat, iv: Block, b: byte)
    requires n < 16 && |h| >= 16 + n && RegisterAt(c, h, n, iv)
    ensures var j := |h| - 16 - n;
            var v := CfbStep(c, Encrypt, Cfb(iv, n), b);
            v.out == Xor(c.enc(h[j..j + 16])[n], b) && RegisterAt(c, h + [v.out], if n == 15 then 0 else n + 1, v.state.iv)
  {
    hide Xor;
    var j := |h| - 16 - n;
    if n == 0 { assert h[j..] == h[j..j + 16]; }
    var reg: Block := if n == 0 then c.enc(iv) else iv;
    var v := CfbStep(c, Encrypt, Cfb(iv, n), b);
    RegisterGrows(h, j, n, reg, c.enc(h[j..j + 16]), v.out);
    assert n == 15 ==> v.state.iv == v.state.iv[..16];
  }

  lemma RegisterGrows(h: seq<byte>, j: nat, n: nat, reg: Block, e: Block, x: byte)
    requires n < 16 && |h| == 16 + j + n && reg[..n] == h[j + 16..] && reg[n..] == e[n..]
    ensures reg[n] == e[n] && (h + [x])[j..j + 16] == h[j..j + 16]
    ensures reg[n := x][..n + 1] == (h + [x])[j + 16..] && reg[n := x][n + 1..] == e[n + 1..]
  {
    assert reg[n] == reg[n..][0] && e[n] == e[n..][0];
    assert reg[n := x][..n + 1] == reg[..n] + [x];
    assert (h + [x])[j + 16..] == h[j + 16..] + [x];
    assert reg[n := x][n + 1..] == reg[n..][1..] && e[n + 1..] == e[n..][1..];
  }

  /** Section 6.3 of SP 800-38A with 128-bit segments, `h` being the IV and the
      ciphertext: every byte is the input plus the encryption of the previous
      ciphertext block, the first of them being the IV. */
  ghost predicate CfbBytes(c: Cipher, h: seq<byte>, p: seq<byte>) {
    |h| == 16 + |p| && forall i :: 0 <= i < |p| ==> h[16 + i] == Xor(c.enc(Before(h, i))[i % 16], p[i])
  }

  /** The block of `h` before the one byte `16 + i` is in. */
  function Before(h: seq<byte>, i: nat): Block
    requires 16 + i <= |h|
  {
    h[i - i % 16..i - i % 16 + 16]
  }

  lemma CfbBytesNext(c: Cipher, h: seq<byte>, p: seq<byte>, b: byte)
    requires CfbBytes(c, h, p)
    ensures CfbBytes(c, h + [Xor(c.enc(Before(h, |p|))[|p| % 16], b)], p + [b])
  {
    hide Xor;
    var h' := h + [Xor(c.enc(Before(h, |p|))[|p| % 16], b)];
    forall i | 0 <= i <= |p|
      ensures Before(h', i) == Before(h, i)
    {}
    hide Before;
  }

  lemma {:induction false} CfbStandard(c: Cipher, iv: Block, p: seq<byte>)
    ensures var r := Run(CfbFn(c, Encrypt), Cfb(iv, 0), p);
            CfbRegister(c, iv + r.bytes, |p|, r.state) && CfbBytes(c, iv + r.bytes, p)
  {
    hide Xor, CfbRegister, CfbStep, CfbBytes;
    var f := CfbFn(c, Encrypt);
    if p == [] {
      assert iv + [] == iv;
      CfbAtStart(c, iv);
    } else {
      var k := |p| - 1;
      CfbStandard(c, iv, p[..k]);
      var u := Run(f, Cfb(iv, 0), p[..k]);
      var h := iv + u.bytes;
      var v := CfbStep(c, Encrypt, u.state, p[k]);
      CfbRegisterStep(c, h, k, u.state, p[k]);
      CfbBytesNext(c, h, p[..k], p[k]);
      assert iv + (u.bytes + [v.out]) == h + [v.out] && p[..k] + [p[k]] == p;
    }
  }

  lemma CfbAtStart(c: Cipher, iv: Block)
    ensures CfbRegister(c, iv, 0, Cfb(iv, 0)) && CfbBytes(c, iv, [])
  {}

  /** `mbedtls_aes_crypt_cfb128`, in place or not. */
  method CryptCfb128(c: Cipher, mode: Mode, length: nat, ivOff: nat, iv: array<byte>, input: array<byte>, output: array<byte>) returns (off: nat)
    requires iv.Length == 16 && ivOff < 16 && length <= input.Length && length <= output.Length
    requires iv != input && iv != output
    modifies iv, output
    ensures var r := Run(CfbFn(c, mode), Cfb(old(iv[..]), ivOff), old(input[..length]));
            output[..length] == r.bytes && (forall k :: length <= k < output.Length ==> output[k] == old(output[k])) && iv[..] == r.state.iv && off == r.state.n
  {
    hide CfbStep;
    var n := ivOff;
    ghost var f, s, p := CfbFn(c, mode), Cfb(iv[..], ivOff), input[..length];
    for i := 0 to length
      invariant n < 16 && n == Run(f, s, p[..i]).state.n && iv[..] == Run(f, s, p[..i]).state.iv
      invariant output[..i] == Run(f, s, p[..i]).bytes && forall k :: length <= k < output.Length ==> output[k] == old(output[k])
      invariant forall k :: i <= k < length ==> input[k] == p[k]
    {
      assert p[..i + 1][..i] == p[..i];
      var x, n' := CfbByte(c, mode, iv, n, input[i]);
      output[i] := x;
      n := n';
      assert output[..i + 1] == output[..i] + [x];
    }
    assert p[..length] == p;
    off := n;
  }

  /** The loop body on the register. */
  method CfbByte(c: Cipher, mode: Mode, iv: array<byte>, n: nat, b: byte) returns (x: byte, n': nat)
    requires iv.Length == 16 && n < 16
    modifies iv
    ensures var v := CfbStep(c, mode, Cfb(old(iv[..]), n), b);
            x == v.out && n' == v.state.n && n' < 16 && iv[..] == v.state.iv
  {
    hide Xor;
    if n == 0 { SetBlock(iv, c.enc(iv[..])); }
    x := Xor(iv[n], b);
    iv[n] := if mode == Decrypt then b else x;
    n' := (n + 1) % 16;
  }

  method SetBlock(a: array<byte>, b: Block)
    requires a.Length == 16
    modifies a
    ensures a[..] == b
  {
    forall i | 0 <= i < 16 { a[i] := b[i]; }
  }

  // -------------------------------------------------------------------- CFB8

  /** One byte of CFB8: the register shifts by the ciphertext byte. */
  function Cfb8Step(c: Cipher, mode: Mode, iv: Block, b: byte): Step<Block> {
    var out := Xor(c.enc(iv)[0], b);
    Step((iv + [if mode == Decrypt then b else out])[1..], out)
  }

  function Cfb8Fn(c: Cipher, mode: Mode): (Block, byte) -> Step<Block> {
    (iv: Block, b: byte) => Cfb8Step(c, mode, iv, b)
  }

  lemma Cfb8Inverse(c: Cipher, iv: Block, p: seq<byte>)
    ensures var r := Run(Cfb8Fn(c, Encrypt), iv, p);
            Run(Cfb8Fn(c, Decrypt), iv, r.bytes) == Out(r.state, p)
  {
    var f, g := Cfb8Fn(c, Encrypt), Cfb8Fn(c, Decrypt);
    hide Cfb8Step;
    forall t: Block, b: byte
      ensures g(t, f(t, b).out) == Step(f(t, b).state, b)
    {
      Cfb8StepInverse(c, t, b);
    }
    RunInverse(f, g, iv, p);
  }

  lemma Cfb8StepInverse(c: Cipher, t: Block, b: byte)
    ensures var v := Cfb8Step(c, Encrypt, t, b);
            Cfb8Step(c, Decrypt, t, v.out) == Step(v.state, b)
  {
    XorBack(c.enc(t)[0], b);
    hide Xor;
  }

  /** Section 6.3 of SP 800-38A with 8-bit segments: every byte is keyed by the
      sixteen bytes of IV and ciphertext just before it. */
  ghost predicate Cfb8Bytes(c: Cipher, h: seq<byte>, p: seq<byte>) {
    |h| == 16 + |p| && forall i :: 0 <= i < |p| ==> h[16 + i] == Xor(c.enc(Window(h, i))[0], p[i])
  }

  function Window(h: seq<byte>, i: nat): Block
    requires i + 16 <= |h|
  {
    h[i..i + 16]
  }

  lemma {:induction false} Cfb8Standard(c: Cipher, iv: Block, p: seq<byte>)
    ensures var r := Run(Cfb8Fn(c, Encrypt), iv, p);
            r.state == (iv + r.bytes)[|p|..] && Cfb8Bytes(c, iv + r.bytes, p)
  {
    hide Xor, Cfb8Step, Cfb8Bytes;
    if p == [] {
      assert iv + [] == iv;
      assert Cfb8Bytes(c, iv, []) by { Cfb8AtStart(c, iv); }
    } else {
      var k := |p| - 1;
      Cfb8Standard(c, iv, p[..k]);
      var u := Run(Cfb8Fn(c, Encrypt), iv, p[..k]);
      var h := iv + u.bytes;
      var v := Cfb8Step(c, Encrypt, u.state, p[k]);
      assert iv + (u.bytes + [v.out]) == h + [v.out];
      Cfb8RegisterStep(c, h, k, p[k]);
      Cfb8Next(c, h, p[..k], p[k]);
      assert p[..k] + [p[k]] == p;
    }
  }

  lemma Cfb8AtStart(c: Cipher, iv: Block)
    ensures Cfb8Bytes(c, iv, [])
  {}

  lemma Cfb8RegisterStep(c: Cipher, h: seq<byte>, k: nat, b: byte)
    requires |h| == 16 + k
    ensures h[k..] == Window(h, k)
    ensures var v := Cfb8Step(c, Encrypt, Window(h, k), b);
            v.out == Xor(c.enc(Window(h, k))[0], b) && v.state == (h + [v.out])[k + 1..]
  {
    hide Xor;
    assert h[k..] == Window(h, k);
  }

  lemma Cfb8Next(c: Cipher, h: seq<byte>, p: seq<byte>, b: byte)
    requires Cfb8Bytes(c, h, p)
    ensures Cfb8Bytes(c, h + [Xor(c.enc(Window(h, |p|))[0], b)], p + [b])
  {
    hide Xor;
    var h' := h + [Xor(c.enc(Window(h, |p|))[0], b)];
    forall i | 0 <= i <= |p|
      ensures Window(h', i) == Window(h, i)
    {}
    hide Window;
  }

  /** `mbedtls_aes_crypt_cfb8`. */
  method CryptCfb8(c: Cipher, mode: Mode, length: nat, iv: array<byte>, input: array<byte>, output: array<byte>)
    requires iv.Length == 16 && length <= input.Length && length <= output.Length
    requires iv != input && iv != output
    modifies iv, output
    ensures var r := Run(Cfb8Fn(c, mode), old(iv[..]), old(input[..length]));
            output[..length] == r.bytes && (forall k :: length <= k < output.Length ==> output[k] == old(output[k])) && iv[..] == r.state
  {
    hide Cfb8Step;
    ghost var f, s, p := Cfb8Fn(c, mode), iv[..], input[..length];
    for i := 0 to length
      invariant iv[..] == Run(f, s, p[..i]).state
      invariant output[..i] == Run(f, s, p[..i]).bytes && forall k :: length <= k < output.Length ==> output[k] == old(output[k])
      invariant forall k :: i <= k < length ==> input[k] == p[k]
    {
      assert p[..i + 1][..i] == p[..i];
      var x := Cfb8Byte(c, mode, iv, input[i]);
      output[i] := x;
      assert output[..i + 1] == output[..i] + [x];
    }
    assert p[..length] == p;
  }

  method Cfb8Byte(c: Cipher, mode: Mode, iv: array<byte>, b: byte) returns (x: byte)
    requires iv.Length == 16
    modifies iv
    ensures var v := Cfb8Step(c, mode, old(iv[..]), b);
            x == v.out && iv[..] == v.state
  {
    hide Xor;
    var ov := iv[..];
    SetBlock(iv, c.enc(iv[..]));
    x := Xor(iv[0], b);
    SetBlock(iv, (ov + [if mode == Decrypt then b else x])[1..]);
  }

  // --------------------------------------------------------------------- CTR

  /** Adding one from the last byte, carrying while a byte wraps to zero. */
  function Inc(s: seq<byte>): (t: seq<byte>)
    ensures |t| == |s|
  {
    if s == [] then []
    else
      var n := |s| - 1;
      if s[n] < 255 then s[..n] + [s[n] + 1] else Inc(s[..n]) + [0]
  }

  /** The counter is a number modulo 256^n. */
  lemma {:induction false} IncNum(s: seq<byte>)
    ensures Num(Inc(s)) == (Num(s) + 1) % Pow(256, |s|)
  {
    hide Pow;
    NumBound(s);
    PowStart();
    if s == [] {
    } else {
      var n := |s| - 1;
      PowSucc(256, n);
      var t := Inc(s);
      assert t == t[..n] + [t[n]];
      if s[n] < 255 {
        assert t[..n] == s[..n];
        NumBound(t);
        DivModUnique(Num(s) + 1, Pow(256, |s|), 0, Num(s) + 1);
      } else {
        IncNum(s[..n]);
        assert t[..n] == Inc(s[..n]);
        NumBound(s[..n]);
        var a, m := Num(s[..n]) + 1, Pow(256, n);
        assert Num(s) + 1 == 256 * a;
        if a < m {
          DivModUnique(a, m, 0, a);
          DivModUnique(256 * a, 256 * m, 0, 256 * a);
        } else {
          DivModUnique(a, m, 1, 0);
          DivModUnique(256 * a, 256 * m, 1, 0);
        }
      }
    }
  }

  /** The counter block after `j` increments. */
  function CounterAt(ctr: Block, j: nat): Block {
    if j == 0 then ctr else Inc(CounterAt(ctr, j - 1))
  }

  /** Section 6.5 and appendix B.1 of SP 800-38A. */
  lemma {:induction false} CounterAtNum(ctr: Block, j: nat)
    ensures Num(CounterAt(ctr, j)) == (Num(ctr) + j) % Pow(256, 16)
  {
    hide Pow, Num, Inc;
    var m := Pow(256, 16);
    NumBound(ctr);
    if j == 0 {
      DivModUnique(Num(ctr), m, 0, Num(ctr));
    } else {
      CounterAtNum(ctr, j - 1);
      IncNum(CounterAt(ctr, j - 1));
      ModAdd(Num(ctr) + (j - 1), 1, m);
    }
  }

  /** No counter block repeats within 2^128 blocks. */
  lemma CountersDistinct(ctr: Block, i: nat, j: nat)
    requires i < j && j - i < Pow(256, 16)
    ensures CounterAt(ctr, i) != CounterAt(ctr, j)
  {
    hide Pow, Num, Inc, CounterAt;
    CounterAtNum(ctr, i);
    CounterAtNum(ctr, j);
    if CounterAt(ctr, i) == CounterAt(ctr, j) {
      var m := Pow(256, 16);
      var a, b := Num(ctr) + i, Num(ctr) + j;
      DivMod(a, m);
      DivMod(b, m);
      Distr(b / m, a / m, m);
      DivModUnique(b - a, m, b / m - a / m, 0);
      DivModUnique(b - a, m, 0, b - a);
    }
  }

  datatype Ctr = Ctr(counter: Block, stream: Block, n: nat)

  /** One byte of CTR; the direction does not matter. */
  function CtrStep(c: Cipher, s: Ctr, b: byte): Step<Ctr> {
    var n := s.n % 16;
    var stream := if n == 0 then c.enc(s.counter) else s.stream;
    Step(Ctr(if n == 0 then Inc(s.counter) else s.counter, stream, (n + 1) % 16), Xor(b, stream[n]))
  }

  function CtrFn(c: Cipher): (Ctr, byte) -> Step<Ctr> {
    (s: Ctr, b: byte) => CtrStep(c, s, b)
  }

  /** Applying CTR twice from the same state restores any input. */
  lemma CtrInverse(c: Cipher, s: Ctr, p: seq<byte>)
    ensures var r := Run(CtrFn(c), s, p);
            Run(CtrFn(c), s, r.bytes) == Out(r.state, p)
  {
    var f := CtrFn(c);
    forall t: Ctr, b: byte
      ensures f(t, f(t, b).out) == Step(f(t, b).state, b)
    {
      hide Xor, Inc;
      var n := t.n % 16;
      var stream := if n == 0 then c.enc(t.counter) else t.stream;
      XorTwice(b, stream[n]);
    }
    RunInverse(f, f, s, p);
  }

  /** Key-stream block `j`. */
  function KeyStream(c: Cipher, ctr: Block, j: nat): Block {
    c.enc(CounterAt(ctr, j))
  }

  /** Where the machine is after `k` bytes. */
  ghost predicate CtrRegister(c: Cipher, ctr: Block, k: nat, s: Ctr) {
    var n := k % 16;
    s.n == n && s.counter == CounterAt(ctr, (k + 15) / 16) && (n != 0 ==> s.stream == KeyStream(c, ctr, k / 16))
  }

  lemma CtrRegisterStep(c: Cipher, ctr: Block, k: nat, s: Ctr, b: byte)
    requires CtrRegister(c, ctr, k, s)
    ensures var v := CtrStep(c, s, b);
            v.out == Xor(b, KeyStream(c, ctr, k / 16)[k % 16]) && CtrRegister(c, ctr, k + 1, v.state)
  {
    hide Xor, Inc;
    var n, j := k % 16, k / 16;
    DivMod(k, 16);
    DivModUnique(k + 1, 16, if n == 15 then j + 1 else j, if n == 15 then 0 else n + 1);
    DivModUnique(k + 15, 16, if n == 0 then j else j + 1, if n == 0 then 15 else n - 1);
    DivModUnique(k + 16, 16, j + 1, n);
  }

  /** Section 6.5 of SP 800-38A: input plus the encryptions of successive counters. */
  lemma {:induction false} CtrStandard(c: Cipher, ctr: Block, stream: Block, p: seq<byte>)
    ensures var r := Run(CtrFn(c), Ctr(ctr, stream, 0), p);
            CtrRegister(c, ctr, |p|, r.state)
            && forall i :: 0 <= i < |p| ==> r.bytes[i] == Xor(p[i], KeyStream(c, ctr, i / 16)[i % 16])
  {
    hide Xor, CtrStep, KeyStream, CtrRegister;
    if p == [] {
      assert CtrRegister(c, ctr, 0, Ctr(ctr, stream, 0)) by { CtrAtStart(c, ctr, stream); }
    } else {
      var k := |p| - 1;
      CtrStandard(c, ctr, stream, p[..k]);
      CtrRegisterStep(c, ctr, k, Run(CtrFn(c), Ctr(ctr, stream, 0), p[..k]).state, p[k]);
    }
  }

  lemma CtrAtStart(c: Cipher, ctr: Block, stream: Block)
    ensures CtrRegister(c, ctr, 0, Ctr(ctr, stream, 0))
  {}

  /** The increment loop. */
  method IncrementCounter(nc: array<byte>)
    requires nc.Length == 16
    modifies nc
    ensures nc[..] == Inc(old(nc[..]))
  {
    ghost var was := nc[..];
    assert was[..16] == was && Inc(was) + [] == Inc(was);
    var i: nat := 16;
    while i > 0
      invariant i <= 16 && nc[..i] == was[..i]
      invariant Inc(was) == Inc(was[..i]) + nc[i..]
    {
      assert was[..i][..i - 1] == was[..i - 1];
      var v := nc[i - 1] as int + 1;
      nc[i - 1] := v % 256;
      if nc[i - 1] != 0 {
        assert nc[..] == nc[..i - 1] + [nc[i - 1]] + nc[i..];
        return;
      }
      assert nc[i - 1..] == [0] + nc[i..];
      i := i - 1;
    }
  }

  /** `mbedtls_aes_crypt_ctr`, in place or not. */
  method CryptCtr(c: Cipher, length: nat, ncOff: nat, nc: array<byte>, stream: array<byte>, input: array<byte>, output: array<byte>) returns (off: nat)
    requires nc.Length == 16 && stream.Length == 16 && ncOff < 16 && length <= input.Length && length <= output.Length
    requires nc != stream && nc !in {input, output} && stream !in {input, output}
    modifies nc, stream, output
    ensures var r := Run(CtrFn(c), Ctr(old(nc[..]), old(stream[..]), ncOff), old(input[..length]));
            output[..length] == r.bytes && (forall k :: length <= k < output.Length ==> output[k] == old(output[k]))
            && nc[..] == r.state.counter && stream[..] == r.state.stream && off == r.state.n
  {
    hide CtrStep;
    var n: nat := ncOff;
    ghost var f, s, p := CtrFn(c), Ctr(nc[..], stream[..], ncOff), input[..length];
    for i := 0 to length
      invariant n < 16 && Run(f, s, p[..i]).state == Ctr(nc[..], stream[..], n)
      invariant output[..i] == Run(f, s, p[..i]).bytes && forall k :: length <= k < output.Length ==> output[k] == old(output[k])
      invariant forall k :: i <= k < length ==> input[k] == p[k]
    {
      assert p[..i + 1][..i] == p[..i];
      var x, n' := CtrByte(c, nc, stream, n, input[i]);
      output[i] := x;
      n := n';
      assert output[..i + 1] == output[..i] + [x];
    }
    assert p[..length] == p;
    off := n;
  }

  /** The loop body on counter and key stream. */
  method CtrByte(c: Cipher, nc: array<byte>, stream: array<byte>, n: nat, b: byte) returns (x: byte, n': nat)
    requires nc.Length == 16 && stream.Length == 16 && n < 16 && nc != stream
    modifies nc, stream
    ensures var v := CtrStep(c, Ctr(old(nc[..]), old(stream[..]), n), b);
            n' < 16 && x == v.out && v.state == Ctr(nc[..], stream[..], n')
  {
    hide Xor, Inc;
    if n == 0 {
      SetBlock(stream, c.enc(nc[..]));
      IncrementCounter(nc);
    }
    x := Xor(b, stream[n]);
    n' := (n + 1) % 16;
  }

  // --------------------------------------------------------------------- CBC

  function XorBlock(a: Block, b: Block): Block {
    seq<byte>(16, i requires 0 <= i < 16 => Xor(a[i], b[i]))
  }

  lemma XorBlockTwice(a: Block, b: Block)
    ensures XorBlock(XorBlock(a, b), b) == a
  {
    hide Xor;
    forall i | 0 <= i < 16
      ensures XorBlock(XorBlock(a, b), b)[i] == a[i]
    {
      XorTwice(a[i], b[i]);
    }
  }

  /** Section 6.2 of SP 800-38A, on whole blocks; the last ciphertext block is the
      next chaining value. */
  function CbcEnc(c: Cipher, iv: Block, p: seq<byte>): (r: Out<Block>)
    requires |p| % 16 == 0
    ensures |r.bytes| == |p|
  {
    if p == [] then Out(iv, [])
    else
      var n := |p| - 16;
      var u := CbcEnc(c, iv, p[..n]);
      var x := c.enc(XorBlock(p[n..], u.state));
      Out(x, u.bytes + x)
  }

  function CbcDec(c: Cipher, iv: Block, p: seq<byte>): (r: Out<Block>)
    requires |p| % 16 == 0
    ensures |r.bytes| == |p|
  {
    if p == [] then Out(iv, [])
    else
      var n := |p| - 16;
      var u := CbcDec(c, iv, p[..n]);
      var b: Block := p[n..];
      Out(b, u.bytes + XorBlock(c.dec(b), u.state))
  }

  function Cbc(c: Cipher, mode: Mode, iv: Block, p: seq<byte>): (r: Out<Block>)
    requires |p| % 16 == 0
    ensures |r.bytes| == |p|
  {
    if mode == Encrypt then CbcEnc(c, iv, p) else CbcDec(c, iv, p)
  }

  /** Block `j` of `h`. */
  function BlockAt(h: seq<byte>, j: nat): Block
    requires 16 * j + 16 <= |h|
  {
    h[16 * j..16 * j + 16]
  }

  /** Section 6.2 of SP 800-38A, `h` being the IV and the ciphertext: every ciphertext
      block is the encryption of the message block plus the ciphertext block before it,
      the first of them being the IV. */
  lemma {:induction false} CbcEncStandard(c: Cipher, iv: Block, p: seq<byte>, j: nat)
    requires |p| % 16 == 0 && 16 * j + 16 <= |p|
    ensures var h := iv + CbcEnc(c, iv, p).bytes;
            BlockAt(h, j + 1) == c.enc(XorBlock(BlockAt(p, j), BlockAt(h, j)))
  {
    hide XorBlock;
    var n := |p| - 16;
    var q, u := p[..n], CbcEnc(c, iv, p[..n]);
    CbcLast(c, iv, q);
    var x := c.enc(XorBlock(p[n..], u.state));
    var g, h := iv + u.bytes, iv + (u.bytes + x);
    assert h == g + x;
    if 16 * j + 16 <= n {
      CbcEncStandard(c, iv, q, j);
      assert BlockAt(h, j) == BlockAt(g, j) && BlockAt(h, j + 1) == BlockAt(g, j + 1) && BlockAt(p, j) == BlockAt(q, j);
    } else {
      LastBlock(|p|, j);
      assert BlockAt(h, j + 1) == x && BlockAt(h, j) == g[n..] && BlockAt(p, j) == p[n..];
    }
  }

  lemma LastBlock(n: nat, j: nat)
    requires n % 16 == 0 && n - 16 < 16 * j + 16 <= n
    ensures n == 16 * j + 16
  {
    DivMod(n, 16);
  }

  /** The chaining value is the last block of IV and ciphertext. */
  lemma CbcLast(c: Cipher, iv: Block, p: seq<byte>)
    requires |p| % 16 == 0
    ensures (iv + CbcEnc(c, iv, p).bytes)[|p|..] == CbcEnc(c, iv, p).state
  {
    hide XorBlock;
    if p != [] {
      var u := CbcEnc(c, iv, p[..|p| - 16]);
      var x := c.enc(XorBlock(p[|p| - 16..], u.state));
      assert iv + (u.bytes + x) == (iv + u.bytes) + x;
    }
  }

  /** Every message block is the decryption of its ciphertext block plus the ciphertext
      block before that. */
  lemma {:induction false} CbcDecStandard(c: Cipher, iv: Block, p: seq<byte>, j: nat)
    requires |p| % 16 == 0 && 16 * j + 16 <= |p|
    ensures BlockAt(CbcDec(c, iv, p).bytes, j) == XorBlock(c.dec(BlockAt(p, j)), BlockAt(iv + p, j))
  {
    hide XorBlock;
    var n := |p| - 16;
    var q, u := p[..n], CbcDec(c, iv, p[..n]);
    CbcDecState(c, iv, q);
    var b: Block := p[n..];
    var out := u.bytes + XorBlock(c.dec(b), u.state);
    assert p == q + b;
    if 16 * j + 16 <= n {
      CbcDecStandard(c, iv, q, j);
      assert BlockAt(out, j) == BlockAt(u.bytes, j) && BlockAt(p, j) == BlockAt(q, j) && BlockAt(iv + p, j) == BlockAt(iv + q, j);
    } else {
      LastBlock(|p|, j);
      assert BlockAt(out, j) == XorBlock(c.dec(b), u.state) && BlockAt(p, j) == b && BlockAt(iv + p, j) == (iv + q)[n..];
    }
  }

  lemma CbcDecState(c: Cipher, iv: Block, p: seq<byte>)
    requires |p| % 16 == 0
    ensures CbcDec(c, iv, p).state == (iv + p)[|p|..]
  {
    hide XorBlock;
    if p != [] { assert (iv + p)[|p|..] == p[|p| - 16..]; }
  }

  /** One more block of a run. */
  lemma CbcStep(c: Cipher, mode: Mode, iv: Block, q: seq<byte>, b: Block)
    requires |q| % 16 == 0
    ensures var u := Cbc(c, mode, iv, q);
            Cbc(c, mode, iv, q + b)
            == if mode == Encrypt then var x := c.enc(XorBlock(b, u.state)); Out(x, u.bytes + x)
               else Out(b, u.bytes + XorBlock(c.dec(b), u.state))
  {
    var p := q + b;
    assert p[..|p| - 16] == q && p[|p| - 16..] == b;
  }

  /** Cutting the input on a block boundary changes nothing. */
  lemma {:induction false} CbcAppend(c: Cipher, mode: Mode, iv: Block, a: seq<byte>, b: seq<byte>)
    requires |a| % 16 == 0 && |b| % 16 == 0
    ensures var u := Cbc(c, mode, iv, a);
            var v := Cbc(c, mode, u.state, b);
            Cbc(c, mode, iv, a + b) == Out(v.state, u.bytes + v.bytes)
    decreases |b|
  {
    hide Cbc, XorBlock;
    if b == [] {
      assert a + b == a;
      CbcNothing(c, mode, Cbc(c, mode, iv, a).state);
    } else {
      var n := |b| - 16;
      var last: Block := b[n..];
      CbcAppend(c, mode, iv, a, b[..n]);
      assert (a + b[..n]) + last == a + b && b[..n] + last == b;
      CbcStep(c, mode, iv, a + b[..n], last);
      CbcStep(c, mode, Cbc(c, mode, iv, a).state, b[..n], last);
    }
  }

  lemma CbcNothing(c: Cipher, mode: Mode, iv: Block)
    ensures Cbc(c, mode, iv, []) == Out(iv, [])
  {}

  /** Decryption from the initial chaining value restores every message. */
  lemma {:induction false} CbcInverse(c: Cipher, iv: Block, p: seq<byte>)
    requires Inverts(c) && |p| % 16 == 0
    ensures var r := Cbc(c, Encrypt, iv, p);
            Cbc(c, Decrypt, iv, r.bytes) == Out(r.state, p)
  {
    hide Cbc, XorBlock;
    if p == [] {
      CbcNothing(c, Encrypt, iv);
      CbcNothing(c, Decrypt, iv);
    } else {
      var n := |p| - 16;
      var last: Block := p[n..];
      CbcInverse(c, iv, p[..n]);
      assert p[..n] + last == p;
      CbcStep(c, Encrypt, iv, p[..n], last);
      var u := Cbc(c, Encrypt, iv, p[..n]);
      var x := c.enc(XorBlock(last, u.state));
      CbcStep(c, Decrypt, iv, u.bytes, x);
      XorBlockTwice(last, u.state);
    }
  }

  const INVALID_INPUT_LENGTH: int := -0x0022

  method XorInto(output: array<byte>, at: nat, a: Block, b: Block)
    requires at + 16 <= output.Length
    modifies output
    ensures output[..at] == old(output[..at]) && output[at + 16..] == old(output[at + 16..])
    ensures output[at..at + 16] == XorBlock(a, b)
  {
    hide Xor;
    for i := 0 to 16
      invariant output[..at] == old(output[..at]) && output[at + 16..] == old(output[at + 16..])
      invariant forall k :: at <= k < at + i ==> output[k] == Xor(a[k - at], b[k - at])
    {
      output[at + i] := Xor(a[i], b[i]);
    }
  }

  method StoreBlock(output: array<byte>, at: nat, b: Block)
    requires at + 16 <= output.Length
    modifies output
    ensures output[..] == old(output[..at]) + b + old(output[at + 16..])
  {
    forall i | 0 <= i < 16 { output[at + i] := b[i]; }
  }

  /** One block of CBC encryption. */
  method CbcEncBlock(c: Cipher, at: nat, iv: array<byte>, input: array<byte>, output: array<byte>)
    requires iv.Length == 16 && at + 16 <= input.Length && at + 16 <= output.Length && iv != input && iv != output
    modifies iv, output
    ensures var x := c.enc(XorBlock(old(input[at..at + 16]), old(iv[..])));
            iv[..] == x && output[..] == old(output[..at]) + x + old(output[at + 16..])
  {
    hide XorBlock;
    XorInto(output, at, input[at..at + 16], iv[..]);
    var x := c.enc(output[at..at + 16]);
    StoreBlock(output, at, x);
    SetBlock(iv, x);
  }

  /** One block of CBC decryption; the ciphertext is saved before it is overwritten. */
  method CbcDecBlock(c: Cipher, at: nat, iv: array<byte>, input: array<byte>, output: array<byte>)
    requires iv.Length == 16 && at + 16 <= input.Length && at + 16 <= output.Length && iv != input && iv != output
    modifies iv, output
    ensures iv[..] == old(input[at..at + 16])
    ensures output[..] == old(output[..at]) + XorBlock(c.dec(old(input[at..at + 16])), old(iv[..])) + old(output[at + 16..])
  {
    hide XorBlock;
    var temp := input[at..at + 16];
    StoreBlock(output, at, c.dec(input[at..at + 16]));
    XorInto(output, at, output[at..at + 16], iv[..]);
    assert output[..] == output[..at] + output[at..at + 16] + output[at + 16..];
    SetBlock(iv, temp);
  }

  lemma BlockFits(i: nat, length: nat)
    requires i < length && i % 16 == 0 && length % 16 == 0
    ensures i + 16 <= length && (i + 16) % 16 == 0
  {
    DivMod(i, 16);
    DivMod(length, 16);
    DivModUnique(i + 16, 16, i / 16 + 1, 0);
  }

  /** Chaining value and output after the input `p`. */
  ghost predicate CbcIs(c: Cipher, mode: Mode, v: Block, p: seq<byte>, iv: seq<byte>, out: seq<byte>) {
    |p| % 16 == 0 && Cbc(c, mode, v, p).state == iv && Cbc(c, mode, v, p).bytes == out
  }

  /** One block of either direction, leaving the rest of both buffers alone. */
  method CbcBlock(c: Cipher, mode: Mode, at: nat, iv: array<byte>, input: array<byte>, output: array<byte>, ghost done: seq<byte>, ghost v: Block)
    requires iv.Length == 16 && at + 16 <= input.Length && at + 16 <= output.Length && iv != input && iv != output
    requires |done| == at && at % 16 == 0 && CbcIs(c, mode, v, done, iv[..], output[..at])
    modifies iv, output
    ensures CbcIs(c, mode, v, done + old(input[at..at + 16]), iv[..], output[..at + 16])
    ensures forall k :: at + 16 <= k < output.Length ==> output[k] == old(output[k])
    ensures forall k :: at + 16 <= k < input.Length ==> input[k] == old(input[k])
  {
    hide Cbc, XorBlock;
    ghost var o, t := output[..at], output[at + 16..];
    CbcStep(c, mode, v, done, input[at..at + 16]);
    if mode == Decrypt {
      CbcDecBlock(c, at, iv, input, output);
    } else {
      CbcEncBlock(c, at, iv, input, output);
    }
    assert output[..at + 16] == o + output[at..at + 16];
    assert output[at + 16..] == t;
  }

  /** `crypt_cbc`, in place or not. */
  method CryptCbc(c: Cipher, mode: Mode, length: nat, iv: array<byte>, input: array<byte>, output: array<byte>) returns (ret: int)
    requires iv.Length == 16 && length <= input.Length && length <= output.Length && iv != input && iv != output
    modifies iv, output
    ensures length % 16 != 0 ==> ret == INVALID_INPUT_LENGTH && iv[..] == old(iv[..]) && output[..] == old(output[..])
    ensures length % 16 == 0 ==>
              ret == 0 && CbcIs(c, mode, old(iv[..]), old(input[..length]), iv[..], output[..length])
              && output[length..] == old(output[length..])
  {
    hide Cbc, XorBlock;
    if length % 16 != 0 { return INVALID_INPUT_LENGTH; }
    ghost var v, p := iv[..], input[..length];
    CbcNothing(c, mode, v);
    var i: nat := 0;
    while i < length
      invariant i <= length && i % 16 == 0
      invariant CbcIs(c, mode, v, p[..i], iv[..], output[..i])
      invariant forall k :: length <= k < output.Length ==> output[k] == old(output[k])
      invariant forall k :: i <= k < length ==> input[k] == p[k]
    {
      BlockFits(i, length);
      assert input[i..i + 16] == p[i..i + 16];
      assert p[..i + 16] == p[..i] + p[i..i + 16];
      CbcBlock(c, mode, i, iv, input, output, p[..i], v);
      i := i + 16;
    }
    assert p[..length] == p;
    return 0;
  }

  // ------------------------------------------------- CBC with zero padding

  const FAILURE: int := -1001

  function PadLength(n: nat): (k: nat)
    ensures 0 < k <= 16 && (n + k) % 16 == 0
  {
    DivMod(n, 16);
    DivModUnique(n + (16 - n % 16), 16, n / 16 + 1, 0);
    16 - n % 16
  }

  /** What `utils_aes_cbc` encrypts: the padding is written to the output buffer
      while the input buffer is read, so the input's own bytes behind the message
      count unless the two buffers are one. */
  function Encrypted(buffer: seq<byte>, n: nat, inPlace: bool): seq<byte>
    requires n + PadLength(n) <= |buffer|
  {
    if inPlace then buffer[..n] + ZeroBytes(PadLength(n)) else buffer[..n + PadLength(n)]
  }

  /** `utils_aes_cbc`. */
  method AesCbc(c: Cipher, datalen: nat, outBuffLen: nat, mode: Mode, keybits: nat, iv: array<byte>, input: array<byte>, output: array<byte>) returns (ret: int)
    requires iv.Length == 16 && iv != input && iv != output && outBuffLen <= output.Length && datalen <= input.Length
    requires mode == Encrypt ==> datalen + PadLength(datalen) <= input.Length
    requires mode == Decrypt ==> datalen <= output.Length
    modifies iv, output
    ensures var sized := mode == Decrypt || outBuffLen >= datalen + 16;
            var p := if mode == Encrypt then Encrypted(old(input[..]), datalen, input == output) else old(input[..datalen]);
            if keybits in {128, 192, 256} && sized && |p| % 16 == 0
            then ret == 0 && |p| <= output.Length && CbcIs(c, mode, old(iv[..]), p, iv[..], output[..|p|])
            else ret == FAILURE
  {
    hide Cbc;
    if keybits !in {128, 192, 256} { return FAILURE; }
    var n := datalen;
    if mode == Encrypt {
      if outBuffLen < datalen + 16 { return FAILURE; }
      n := datalen + PadLength(datalen);
      PadInto(datalen, n, input, output);
    }
    var r := CryptCbc(c, mode, n, iv, input, output);
    return if r != 0 then FAILURE else 0;
  }

  /** `memcpy` of the data and `memset` of the padding. */
  method PadInto(datalen: nat, n: nat, input: array<byte>, output: array<byte>)
    requires datalen <= n <= input.Length && n <= output.Length
    modifies output
    ensures output[..n] == old(input[..datalen]) + ZeroBytes(n - datalen)
  {
    forall i | 0 <= i < datalen { output[i] := input[i]; }
    forall i | datalen <= i < n { output[i] := 0; }
  }

  /** The ciphertext is that of the zero-padded message exactly when the call is in
      place or the bytes behind the message are zero. */
  lemma PaddingExact(c: Cipher, iv: Block, buffer: seq<byte>, n: nat, inPlace: bool)
    requires Inverts(c) && n + PadLength(n) <= |buffer|
    ensures Cbc(c, Encrypt, iv, Encrypted(buffer, n, inPlace)).bytes == Cbc(c, Encrypt, iv, buffer[..n] + ZeroBytes(PadLength(n))).bytes
            <==> inPlace || forall i :: n <= i < n + PadLength(n) ==> buffer[i] == 0
  {
    hide Cbc;
    var k := PadLength(n);
    var x, y := Encrypted(buffer, n, inPlace), buffer[..n] + ZeroBytes(k);
    if Cbc(c, Encrypt, iv, x).bytes == Cbc(c, Encrypt, iv, y).bytes {
      CbcInverse(c, iv, x);
      CbcInverse(c, iv, y);
      assert x == y;
      forall i | n <= i < n + k && !inPlace
        ensures buffer[i] == 0
      {
        assert x[i] == buffer[i] && y[i] == 0;
      }
    }
    if forall i :: n <= i < n + k ==> buffer[i] == 0 {
      assert buffer[..n + k] == y;
    }
  }
}
