/** HMAC over the streaming hashes, keyed with at most one block. */
module Hmac {
  import opened Octets
  import opened Numerals
  import opened Wrappers
  import opened Hash
  import Sha1
  import Md5

  // ------------------------------------------------------------- specification

  /** Every byte of the zero-extended key, xored with `c`. */
  function KeyPad(key: seq<byte>, c: byte): (s: seq<byte>)
    requires |key| <= 64
    ensures |s| == 64
  {
    seq<byte>(64, i requires 0 <= i < 64 => Xor(if i < |key| then key[i] else 0, c))
  }

  /** Section 2 of RFC 2104, for keys no longer than a block. */
  function HmacOf(alg: Algorithm, key: seq<byte>, m: seq<byte>): seq<byte>
    requires |key| <= 64
  {
    Digest(alg, KeyPad(key, 0x5C) + Digest(alg, KeyPad(key, 0x36) + m))
  }

  /** The formula of RFC 2104: H(K xor opad, H(K xor ipad, text)), the key filled up with
      zeros to 64 bytes, ipad 64 bytes 36 and opad 64 bytes 5C. */
  lemma HmacFormula(alg: Algorithm, key: seq<byte>, m: seq<byte>, filled: seq<byte>, ipad: seq<byte>, opad: seq<byte>)
    requires |key| <= 64 && filled == key + ZeroBytes(64 - |key|)
    requires |ipad| == 64 && forall i :: 0 <= i < 64 ==> ipad[i] == Xor(filled[i], 0x36)
    requires |opad| == 64 && forall i :: 0 <= i < 64 ==> opad[i] == Xor(filled[i], 0x5C)
    ensures HmacOf(alg, key, m) == Digest(alg, opad + Digest(alg, ipad + m))
  {
    hide Xor, Digest;
    assert ipad == KeyPad(key, 0x36) && opad == KeyPad(key, 0x5C);
  }

  // --------------------------------------------------------------- digest sizes

  lemma {:induction false} StateSize(alg: Algorithm, s: seq<word>, m: seq<byte>, n: nat)
    requires |m| % 64 == 0 && |s| == n
    requires forall t: seq<word>, b: seq<byte> :: |t| == n ==> |alg.compress(t, b)| == n
    ensures |Blocks(alg, s, m)| == n
    decreases |m|
  {
    if |m| > 0 { StateSize(alg, alg.compress(s, m[..64]), m[64..], n); }
  }

  lemma DigestSizes(m: seq<byte>)
    ensures |Digest(Sha1.SHA1, m)| == 20 && |Digest(Md5.MD5, m)| == 16
  {
    StandardPadLength(Sha1.SHA1, m);
    StandardPadLength(Md5.MD5, m);
    StateSize(Sha1.SHA1, Sha1.SHA1.init, StandardPad(Sha1.SHA1, m), 5);
    StateSize(Md5.MD5, Md5.MD5.init, StandardPad(Md5.MD5, m), 4);
    OutputSize(Sha1.SHA1, Blocks(Sha1.SHA1, Sha1.SHA1.init, StandardPad(Sha1.SHA1, m)));
    OutputSize(Md5.MD5, Blocks(Md5.MD5, Md5.MD5.init, StandardPad(Md5.MD5, m)));
  }

  // ----------------------------------------------------------------- the code

  /** Zeroes a block, copies the key into it, then xors every byte. */
  method FillPad(key: seq<byte>, c: byte) returns (pad: array<byte>)
    requires |key| <= 64
    ensures fresh(pad) && pad[..] == KeyPad(key, c)
  {
    hide Xor;
    pad := new byte[64](i requires 0 <= i < 64 => if i < |key| then key[i] else 0);
    for i := 0 to 64
      invariant forall j :: 0 <= j < i ==> pad[j] == KeyPad(key, c)[j]
      invariant forall j :: i <= j < 64 ==> pad[j] == if j < |key| then key[j] else 0
    {
      pad[i] := Xor(pad[i], c);
    }
  }

  /** One pass: pad block, then text, through a fresh context. */
  method Pass(alg: Algorithm, pad: seq<byte>, text: seq<byte>) returns (out: seq<byte>)
    requires |pad| == 64 && |text| < 0x8000_0000
    ensures out == Digest(alg, pad + text)
  {
    hide Blocks, Output, CodePad, Absorbed;
    var ctx := new Context(alg);
    ctx.Update(pad);
    ctx.Update(text);
    assert [] + pad + text == pad + text;
    FinishIsDigest(alg, pad + text, ctx.counted);
    out := ctx.Finish();
  }

  /** `utils_hmac_sha1_hex` (raw bytes): refuses keys longer than a block. */
  method HmacRaw(alg: Algorithm, msg: seq<byte>, key: seq<byte>) returns (digest: Option<seq<byte>>)
    requires |msg| < 0x8000_0000 && alg in {Sha1.SHA1, Md5.MD5}
    ensures digest == if |key| > 64 then None else Some(HmacOf(alg, key, msg))
  {
    hide Digest;
    if |key| > 64 { return None; }
    var ipad := FillPad(key, 0x36);
    var opad := FillPad(key, 0x5C);
    var inner := Pass(alg, ipad[..], msg);
    DigestSizes(KeyPad(key, 0x36) + msg);
    var out := Pass(alg, opad[..], inner);
    digest := Some(out);
  }

  // ---------------------------------------------------------------- hex digest

  function HexDigit(n: nat): char
    requires n < 16
  {
    if n < 10 then ('0' as int + n) as char else ('a' as int + n - 10) as char
  }

  /** Two lower-case hexadecimal digits per byte. */
  function Hex(s: seq<byte>): (t: string)
    ensures |t| == 2 * |s|
  {
    if s == [] then [] else Hex(s[..|s| - 1]) + [HexDigit(s[|s| - 1] / 16), HexDigit(s[|s| - 1] % 16)]
  }

  /** `utils_hb2hex`: the low four bits as a digit. */
  function LowDigit(b: byte): char {
    HexDigit(b % 16)
  }

  lemma HexDigitLetter(n: nat)
    requires n < 16
    ensures HexDigit(n) == "0123456789abcdef"[n]
  {}

  /** Byte `i` is at characters 2i and 2i + 1, high half first. */
  lemma {:induction false} HexEntries(s: seq<byte>, i: nat)
    requires i < |s|
    ensures Hex(s)[2 * i] == "0123456789abcdef"[s[i] / 16] && Hex(s)[2 * i + 1] == "0123456789abcdef"[s[i] % 16]
  {
    HexDigitLetter(s[i] / 16);
    HexDigitLetter(s[i] % 16);
    hide HexDigit;
    if i < |s| - 1 { HexEntries(s[..|s| - 1], i); }
  }

  lemma DigitsDiffer(a: nat, b: nat)
    requires a < 16 && b < 16 && "0123456789abcdef"[a] == "0123456789abcdef"[b]
    ensures a == b
  {}

  /** The text determines the digest. */
  lemma HexInjective(s: seq<byte>, t: seq<byte>)
    requires Hex(s) == Hex(t)
    ensures s == t
  {
    hide Hex;
    assert |Hex(s)| == |Hex(t)|;
    forall i | 0 <= i < |s|
      ensures s[i] == t[i]
    {
      HexEntries(s, i);
      HexEntries(t, i);
      DigitsDiffer(s[i] / 16, t[i] / 16);
      DigitsDiffer(s[i] % 16, t[i] % 16);
    }
  }

  /** `utils_hmac_sha1` and `utils_hmac_md5`: the digest as text. */
  method HmacText(alg: Algorithm, msg: seq<byte>, key: seq<byte>) returns (digest: Option<string>)
    requires |msg| < 0x8000_0000 && alg in {Sha1.SHA1, Md5.MD5}
    ensures digest == if |key| > 64 then None else Some(Hex(HmacOf(alg, key, msg)))
  {
    hide HmacOf, HexDigit;
    var raw := HmacRaw(alg, msg, key);
    if raw == None { return None; }
    var out := raw.value;
    var text := new char[2 * |out|];
    for i := 0 to |out|
      invariant text[..2 * i] == Hex(out[..i])
    {
      text[2 * i] := LowDigit(out[i] / 16);
      text[2 * i + 1] := LowDigit(out[i]);
      assert out[..i + 1][..i] == out[..i];
    }
    assert out[..|out|] == out && text[..2 * |out|] == text[..];
    digest := Some(text[..]);
  }
}
