/** Base64 as section 4 of RFC 4648 has it, and the library's two-pass decoder. */
module Base64 {
  import opened Arith
  import opened Octets

  const PAD: byte := 61
  const SPACE: byte := 32
  const CR: byte := 13
  const LF: byte := 10

  // --------------------------------------------------------------- alphabet

  /** The character of value `v`: A-Z, a-z, 0-9, +, /. */
  function Letter(v: nat): byte
    requires v < 64
  {
    if v < 26 then 65 + v else if v < 52 then 97 + (v - 26) else if v < 62 then 48 + (v - 52) else if v == 62 then 43 else 47
  }

  /** Its inverse: 64 for padding, 127 for anything else. */
  function Value(c: byte): (v: nat)
    ensures v < 64 || v == 64 || v == 127
    ensures v < 64 ==> Letter(v) == c
  {
    if 65 <= c <= 90 then c - 65
    else if 97 <= c <= 122 then c - 97 + 26
    else if 48 <= c <= 57 then c - 48 + 52
    else if c == 43 then 62
    else if c == 47 then 63
    else if c == PAD then 64
    else 127
  }

  lemma ValueOfLetter(v: nat)
    requires v < 64
    ensures Value(Letter(v)) == v
  {}

  /** The alphabet of table 1 of RFC 4648. */
  lemma LetterInAlphabet(v: nat)
    requires v < 64
    ensures Letter(v) as char
            == if v < 26 then "ABCDEFGHIJKLMNOPQRSTUVWXYZ"[v]
               else if v < 52 then "abcdefghijklmnopqrstuvwxyz"[v - 26]
               else "0123456789+/"[v - 52]
  {}

  // the two maps, sixteen entries a row
  const ENC0: seq<byte> := [65, 66, 67, 68, 69, 70, 71, 72, 73, 74, 75, 76, 77, 78, 79, 80]
  const ENC1: seq<byte> := [81, 82, 83, 84, 85, 86, 87, 88, 89, 90, 97, 98, 99, 100, 101, 102]
  const ENC2: seq<byte> := [103, 104, 105, 106, 107, 108, 109, 110, 111, 112, 113, 114, 115, 116, 117, 118]
  const ENC3: seq<byte> := [119, 120, 121, 122, 48, 49, 50, 51, 52, 53, 54, 55, 56, 57, 43, 47]
  const DEC0: seq<nat> := [127, 127, 127, 127, 127, 127, 127, 127, 127, 127, 127, 127, 127, 127, 127, 127]
  const DEC1: seq<nat> := [127, 127, 127, 127, 127, 127, 127, 127, 127, 127, 127, 127, 127, 127, 127, 127]
  const DEC2: seq<nat> := [127, 127, 127, 127, 127, 127, 127, 127, 127, 127, 127, 62, 127, 127, 127, 63]
  const DEC3: seq<nat> := [52, 53, 54, 55, 56, 57, 58, 59, 60, 61, 127, 127, 127, 64, 127, 127]
  const DEC4: seq<nat> := [127, 0, 1, 2, 3, 4, 5, 6, 7, 8, 9, 10, 11, 12, 13, 14]
  const DEC5: seq<nat> := [15, 16, 17, 18, 19, 20, 21, 22, 23, 24, 25, 127, 127, 127, 127, 127]
  const DEC6: seq<nat> := [127, 26, 27, 28, 29, 30, 31, 32, 33, 34, 35, 36, 37, 38, 39, 40]
  const DEC7: seq<nat> := [41, 42, 43, 44, 45, 46, 47, 48, 49, 50, 51, 127, 127, 127, 127, 127]

  /** `base64_enc_map`. */
  function EncMap(v: nat): (c: byte)
    requires v < 64
    ensures c == Letter(v)
  {
    hide ENC0, ENC1, ENC2, ENC3, Letter;
    if v < 16 then EncRow0(v); ENC0[v]
    else if v < 32 then EncRow1(v - 16); ENC1[v - 16]
    else if v < 48 then EncRow2(v - 32); ENC2[v - 32]
    else EncRow3(v - 48); ENC3[v - 48]
  }

  /** `base64_dec_map`, for the characters it covers. */
  function DecMap(c: byte): (v: nat)
    requires c < 128
    ensures v == Value(c)
  {
    hide DEC0, DEC1, DEC2, DEC3, DEC4, DEC5, DEC6, DEC7, Value;
    if c < 16 then DecRow0(c); DEC0[c]
    else if c < 32 then DecRow1(c - 16); DEC1[c - 16]
    else if c < 48 then DecRow2(c - 32); DEC2[c - 32]
    else if c < 64 then DecRow3(c - 48); DEC3[c - 48]
    else if c < 80 then DecRow4(c - 64); DEC4[c - 64]
    else if c < 96 then DecRow5(c - 80); DEC5[c - 80]
    else if c < 112 then DecRow6(c - 96); DEC6[c - 96]
    else DecRow7(c - 112); DEC7[c - 112]
  }

  lemma EncRow0(u: nat)
    requires u < 16
    ensures |ENC0| == 16 && ENC0[u] == Letter(0 + u)
  {}

  lemma EncRow1(u: nat)
    requires u < 16
    ensures |ENC1| == 16 && ENC1[u] == Letter(16 + u)
  {}

  lemma EncRow2(u: nat)
    requires u < 16
    ensures |ENC2| == 16 && ENC2[u] == Letter(32 + u)
  {}

  lemma EncRow3(u: nat)
    requires u < 16
    ensures |ENC3| == 16 && ENC3[u] == Letter(48 + u)
  {}

  lemma DecRow0(u: nat)
    requires u < 16
    ensures |DEC0| == 16 && DEC0[u] == Value(0 + u)
  {}

  lemma DecRow1(u: nat)
    requires u < 16
    ensures |DEC1| == 16 && DEC1[u] == Value(16 + u)
  {}

  lemma DecRow2(u: nat)
    requires u < 16
    ensures |DEC2| == 16 && DEC2[u] == Value(32 + u)
  {}

  lemma DecRow3(u: nat)
    requires u < 16
    ensures |DEC3| == 16 && DEC3[u] == Value(48 + u)
  {}

  lemma DecRow4(u: nat)
    requires u < 16
    ensures |DEC4| == 16 && DEC4[u] == Value(64 + u)
  {}

  lemma DecRow5(u: nat)
    requires u < 16
    ensures |DEC5| == 16 && DEC5[u] == Value(80 + u)
  {}

  lemma DecRow6(u: nat)
    requires u < 16
    ensures |DEC6| == 16 && DEC6[u] == Value(96 + u)
  {}

  lemma DecRow7(u: nat)
    requires u < 16
    ensures |DEC7| == 16 && DEC7[u] == Value(112 + u)
  {}

  // ---------------------------------------------------------------- encoding

  /** The four sextets of three bytes, from arithmetic on the bytes. */
  function Quad(a: byte, b: byte, c: byte): (q: seq<byte>)
    ensures |q| == 4
  {
    [Letter(a / 4), Letter(a % 4 * 16 + b / 16), Letter(b % 16 * 4 + c / 64), Letter(c % 64)]
  }

  /** One to three bytes as four characters. */
  function Four(t: seq<byte>): (q: seq<byte>)
    requires 1 <= |t| <= 3
    ensures |q| == 4
  {
    if |t| == 3 then Quad(t[0], t[1], t[2])
    else if |t| == 2 then Quad(t[0], t[1], 0)[..3] + [PAD]
    else Quad(t[0], 0, 0)[..2] + [PAD, PAD]
  }

  /** How many groups of three come before the last one, which may be short. */
  function Before(n: nat): (q: nat)
    requires n > 0
    ensures 3 * q < n <= 3 * q + 3
  {
    (n - 1) / 3
  }

  /** The encoding: every three bytes as four characters, the last group padded. */
  function Encoded(s: seq<byte>): seq<byte> {
    if s == [] then [] else var m := 3 * Before(|s|); Encoded(s[..m]) + Four(s[m..])
  }

  // ---------------------------------------------------------------- decoding

  predicate Blank(c: byte) {
    c == SPACE || c == CR || c == LF
  }

  /** Spaces are 20, line breaks 0D 0A or 0A, padding is '='. */
  lemma SpecialCharacters(c: byte)
    ensures Blank(c) <==> c as char in {' ', '\r', '\n'}
    ensures PAD as char == '=' && CR as char == '\r' && LF as char == '\n' && SPACE as char == ' '
  {}

  /** What is left without spaces and line breaks. */
  function Kept(s: seq<byte>): seq<byte> {
    if s == [] then []
    else if Blank(s[|s| - 1]) then Kept(s[..|s| - 1])
    else Kept(s[..|s| - 1]) + [s[|s| - 1]]
  }

  function Pads(k: seq<byte>): nat {
    if k == [] then 0 else Pads(k[..|k| - 1]) + if k[|k| - 1] == PAD then 1 else 0
  }

  /** Letters, then at most two padding characters. */
  predicate Body(k: seq<byte>) {
    k == [] ||
    var h, c := k[..|k| - 1], k[|k| - 1];
    Body(h) && if c == PAD then Pads(h) < 2 else Value(c) < 64 && Pads(h) == 0
  }

  /** Letters up to somewhere, and at most two padding characters behind. */
  ghost predicate LettersThenPads(k: seq<byte>, n: nat) {
    n <= |k| <= n + 2 && (forall i :: 0 <= i < n ==> Value(k[i]) < 64) && forall i :: n <= i < |k| ==> k[i] == PAD
  }

  lemma {:induction false} BodyExact(k: seq<byte>)
    ensures Body(k) <==> exists n: nat :: LettersThenPads(k, n)
    ensures forall n: nat :: LettersThenPads(k, n) ==> Pads(k) == |k| - n
  {
    if k == [] {
      assert LettersThenPads(k, 0);
    } else {
      var m := |k| - 1;
      var h, c := k[..m], k[m];
      BodyExact(h);
      hide Value;
      if Body(k) {
        var n: nat :| LettersThenPads(h, n);
        assert LettersThenPads(k, if c == PAD then n else m + 1);
      }
      forall n: nat | LettersThenPads(k, n)
        ensures Body(k) && Pads(k) == |k| - n
      {
        assert LettersThenPads(h, if n <= m then n else m);
      }
    }
  }

  /** A carriage return stands before a line feed, and spaces only before spaces,
      line breaks or the end. */
  predicate Laid(s: seq<byte>, i: nat)
    requires i < |s|
  {
    && (s[i] == CR ==> i + 1 < |s| && s[i + 1] == LF)
    && (s[i] == SPACE ==> i + 1 == |s| || Blank(s[i + 1]))
  }

  predicate Layout(s: seq<byte>) {
    forall i :: 0 <= i < |s| ==> Laid(s, i)
  }

  /** A space with anything but a blank behind it is refused, wherever it stands. */
  lemma SpaceInside(a: seq<byte>, b: seq<byte>)
    requires b != [] && !Blank(b[0])
    ensures !Layout(a + [SPACE] + b)
  {
    var s := a + [SPACE] + b;
    assert s[|a|] == SPACE && s[|a| + 1] == b[0];
    assert !Laid(s, |a|);
  }

  /** And so is a carriage return without its line feed. */
  lemma LoneReturn(a: seq<byte>, b: seq<byte>)
    requires b == [] || b[0] != LF
    ensures !Layout(a + [CR] + b)
  {
    var s := a + [CR] + b;
    assert s[|a|] == CR && (b != [] ==> s[|a| + 1] == b[0]);
    assert !Laid(s, |a|);
  }

  /** What the first pass accepts. */
  predicate Accepted(s: seq<byte>) {
    Layout(s) && Body(Kept(s))
  }

  function Sextet(c: byte): nat {
    Value(c) % 64
  }

  /** The number four characters stand for. */
  function Number(q: seq<byte>): nat
    requires |q| == 4
  {
    Sextet(q[0]) * 0x4_0000 + Sextet(q[1]) * 0x1000 + Sextet(q[2]) * 0x40 + Sextet(q[3])
  }

  /** One byte less for every padding character. */
  function Group(q: seq<byte>): (t: seq<byte>)
    requires |q| == 4
    ensures |t| <= 3
  {
    var x, j := Number(q), Pads(q);
    if j == 0 then [x / 0x1_0000 % 256, x / 0x100 % 256, x % 256]
    else if j == 1 then [x / 0x1_0000 % 256, x / 0x100 % 256]
    else if j == 2 then [x / 0x1_0000 % 256]
    else []
  }

  /** Whole groups of four are decoded, what is left over is dropped. */
  function Decoded(k: seq<byte>): seq<byte> {
    if |k| < 4 then []
    else if |k| % 4 != 0 then Decoded(k[..|k| - 1])
    else Decoded(k[..|k| - 4]) + Group(k[|k| - 4..])
  }

  // --------------------------------------------------------------- properties

  lemma LastGroup(k: seq<byte>, q: seq<byte>)
    requires |k| % 4 == 0 && |q| == 4
    ensures Decoded(k + q) == Decoded(k) + Group(q)
  {
    DivMod(|k|, 4);
    DivModUnique(|k| + 4, 4, |k| / 4 + 1, 0);
    hide Group;
    assert (k + q)[..|k + q| - 4] == k && (k + q)[|k + q| - 4..] == q;
  }

  /** Three bytes survive their quad. */
  lemma QuadGroup(a: byte, b: byte, c: byte)
    ensures Group(Quad(a, b, c)) == [a, b, c]
  {
    var q := Quad(a, b, c);
    QuadLetters(a, b, c);
    LettersBody(q);
    QuadValues(a, b, c);
    QuadNumber(a, b, c);
    hide Value, Letter, Quad, Pads, Sextet;
    NumberOf(q, a / 4, a % 4 * 16 + b / 16, b % 16 * 4 + c / 64, c % 64);
    hide Number;
  }

  lemma NumberOf(q: seq<byte>, v0: nat, v1: nat, v2: nat, v3: nat)
    requires |q| == 4 && Sextet(q[0]) == v0 && Sextet(q[1]) == v1 && Sextet(q[2]) == v2 && Sextet(q[3]) == v3
    ensures Number(q) == v0 * 0x4_0000 + v1 * 0x1000 + v2 * 0x40 + v3
  {}

  lemma QuadValues(a: byte, b: byte, c: byte)
    ensures var q := Quad(a, b, c);
            Sextet(q[0]) == a / 4 && Sextet(q[1]) == a % 4 * 16 + b / 16 && Sextet(q[2]) == b % 16 * 4 + c / 64 && Sextet(q[3]) == c % 64
  {
    ValueOfLetter(a / 4);
    ValueOfLetter(a % 4 * 16 + b / 16);
    ValueOfLetter(b % 16 * 4 + c / 64);
    ValueOfLetter(c % 64);
    hide Value, Letter;
  }

  lemma QuadNumber(a: byte, b: byte, c: byte)
    ensures var x := a / 4 * 0x4_0000 + (a % 4 * 16 + b / 16) * 0x1000 + (b % 16 * 4 + c / 64) * 0x40 + c % 64;
            x / 0x1_0000 % 256 == a && x / 0x100 % 256 == b && x % 256 == c
  {}

  lemma {:induction false} NoPads(k: seq<byte>)
    requires forall i :: 0 <= i < |k| ==> k[i] != PAD
    ensures Pads(k) == 0
  {
    if k != [] { NoPads(k[..|k| - 1]); }
  }

  ghost predicate Letters(k: seq<byte>) {
    forall i :: 0 <= i < |k| ==> Value(k[i]) < 64
  }

  lemma {:induction false} LettersBody(k: seq<byte>)
    requires Letters(k)
    ensures Body(k) && Pads(k) == 0
  {
    if k != [] { LettersBody(k[..|k| - 1]); }
  }

  lemma QuadLetters(a: byte, b: byte, c: byte)
    ensures Letters(Quad(a, b, c))
  {
    ValueOfLetter(a / 4);
    ValueOfLetter(a % 4 * 16 + b / 16);
    ValueOfLetter(b % 16 * 4 + c / 64);
    ValueOfLetter(c % 64);
    hide Value, Letter;
  }

  /** Whole quads hold letters only. */
  lemma {:induction false} WholeLetters(s: seq<byte>, n: nat)
    requires |s| == 3 * n
    ensures Letters(Encoded(s)) && |Encoded(s)| == 4 * n
  {
    hide Value, Quad;
    if n > 0 {
      assert Before(|s|) == n - 1;
      var t := s[3 * (n - 1)..];
      WholeLetters(s[..3 * (n - 1)], n - 1);
      QuadLetters(t[0], t[1], t[2]);
    }
  }

  /** Letters followed by one or two padding characters. */
  lemma PaddedBody(k: seq<byte>)
    requires Letters(k)
    ensures Body(k + [PAD]) && Body(k + [PAD, PAD]) && Pads(k + [PAD]) == 1 && Pads(k + [PAD, PAD]) == 2
  {
    LettersBody(k);
    var h := k + [PAD];
    assert h[..|h| - 1] == k;
    assert (k + [PAD, PAD])[..|h|] == h;
  }

  lemma {:induction false} NothingBlank(k: seq<byte>)
    requires Body(k)
    ensures Kept(k) == k && Layout(k)
  {
    if k != [] {
      var n := |k| - 1;
      NothingBlank(k[..n]);
      assert k == k[..n] + [k[n]];
      assert forall i :: 0 <= i < n ==> !Blank(k[i]) by {
        forall i | 0 <= i < n
          ensures !Blank(k[i])
        {
          BodyChars(k, i);
        }
      }
      BodyChars(k, n);
    }
  }

  /** No character of a body is blank. */
  lemma {:induction false} BodyChars(k: seq<byte>, i: nat)
    requires Body(k) && i < |k|
    ensures Value(k[i]) <= 64 && !Blank(k[i])
  {
    if i < |k| - 1 { BodyChars(k[..|k| - 1], i); }
  }

  /** The last group of a message that is not a multiple of three. */
  lemma OneByteGroup(a: byte)
    ensures Group(Quad(a, 0, 0)[..2] + [PAD, PAD]) == [a]
  {
    var q := Quad(a, 0, 0)[..2] + [PAD, PAD];
    QuadLetters(a, 0, 0);
    PaddedBody(Quad(a, 0, 0)[..2]);
    QuadValues(a, 0, 0);
    QuadNumber(a, 0, 0);
    PadSextet();
    hide Value, Letter, Pads, Body, Quad, Sextet;
    NumberOf(q, a / 4, a % 4 * 16 + 0, 0, 0);
    hide Number;
  }

  lemma TwoByteGroup(a: byte, b: byte)
    ensures Group(Quad(a, b, 0)[..3] + [PAD]) == [a, b]
  {
    var q := Quad(a, b, 0)[..3] + [PAD];
    QuadLetters(a, b, 0);
    PaddedBody(Quad(a, b, 0)[..3]);
    QuadValues(a, b, 0);
    QuadNumber(a, b, 0);
    PadSextet();
    hide Value, Letter, Pads, Body, Quad, Sextet;
    NumberOf(q, a / 4, a % 4 * 16 + b / 16, b % 16 * 4, 0);
    hide Number;
  }

  lemma PadSextet()
    ensures Sextet(PAD) == 0
  {}

  lemma FourDecoded(t: seq<byte>)
    requires 1 <= |t| <= 3
    ensures Group(Four(t)) == t
  {
    hide Quad, Group;
    QuadGroup(t[0], if |t| > 1 then t[1] else 0, if |t| > 2 then t[2] else 0);
    OneByteGroup(t[0]);
    TwoByteGroup(t[0], if |t| > 1 then t[1] else 0);
  }

  /** Decoding undoes encoding, for every byte string. */
  lemma {:induction false} DecodedEncoded(s: seq<byte>)
    ensures Decoded(Encoded(s)) == s
  {
    hide Four, Group, Decoded;
    if s == [] {
      EmptyDecoded();
    } else {
      var n := Before(|s|);
      DecodedEncoded(s[..3 * n]);
      WholeLetters(s[..3 * n], n);
      ModMultiple(n, 4);
      FourDecoded(s[3 * n..]);
      LastGroup(Encoded(s[..3 * n]), Four(s[3 * n..]));
      assert s == s[..3 * n] + s[3 * n..];
    }
  }

  lemma EmptyDecoded()
    ensures Decoded([]) == []
  {}

  /** The first pass accepts every encoding and drops nothing of it. */
  lemma OneGroup(t: seq<byte>)
    requires 1 <= |t| <= 3
    ensures Encoded(t) == Four(t)
  {
    EmptyEncoded();
    hide Four, Value, Letter;
    assert Before(|t|) == 0 && t[..0] == [] && t[0..] == t && Encoded([]) + Four(t) == Four(t);
  }

  /** Section 10 of RFC 4648: "f", "fo" and "foo" become "Zg==", "Zm8=" and "Zm9v". */
  lemma PublishedVectors()
    ensures Encoded([102]) == [90, 103, 61, 61]
    ensures Encoded([102, 111]) == [90, 109, 56, 61]
    ensures Encoded([102, 111, 111]) == [90, 109, 57, 118]
  {
    OneGroup([102]);
    OneGroup([102, 111]);
    OneGroup([102, 111, 111]);
    hide Encoded;
    FourVectors();
  }

  lemma FourVectors()
    ensures Four([102]) == [90, 103, 61, 61]
    ensures Four([102, 111]) == [90, 109, 56, 61]
    ensures Four([102, 111, 111]) == [90, 109, 57, 118]
  {}

  lemma EncodedAccepted(s: seq<byte>)
    ensures Accepted(Encoded(s)) && Kept(Encoded(s)) == Encoded(s) && |Encoded(s)| % 4 == 0
  {
    EncodedBody(s);
    NothingBlank(Encoded(s));
  }

  lemma EncodedBody(s: seq<byte>)
    ensures Body(Encoded(s)) && |Encoded(s)| % 4 == 0
  {
    hide Quad, Value, Body;
    if s == [] {
      LettersBody([]);
    } else {
      var n := Before(|s|);
      var e, t := Encoded(s[..3 * n]), s[3 * n..];
      WholeLetters(s[..3 * n], n);
      ModMultiple(n + 1, 4);
      QuadLetters(t[0], if |t| > 1 then t[1] else 0, if |t| > 2 then t[2] else 0);
      FourBody(e, t);
    }
  }

  lemma FourBody(e: seq<byte>, t: seq<byte>)
    requires 1 <= |t| <= 3 && Letters(e) && Letters(Quad(t[0], if |t| > 1 then t[1] else 0, if |t| > 2 then t[2] else 0))
    ensures Body(e + Four(t))
  {
    hide Quad, Value, Body;
    var q := Quad(t[0], if |t| > 1 then t[1] else 0, if |t| > 2 then t[2] else 0);
    if |t| == 3 {
      LettersBody(e + q);
    } else if |t| == 2 {
      PaddedBody(e + q[..3]);
      assert e + Four(t) == (e + q[..3]) + [PAD];
    } else {
      PaddedBody(e + q[..2]);
      assert e + Four(t) == (e + q[..2]) + [PAD, PAD];
    }
  }

  // ------------------------------------------------ what the first pass predicts

  /** The output size the first pass computes. */
  function Predicted(k: seq<byte>): int {
    (|k| * 6 + 7) / 8 - Pads(k)
  }

  lemma {:induction false} PadsAppend(h: seq<byte>, q: seq<byte>)
    ensures Pads(h + q) == Pads(h) + Pads(q) && Pads(q) <= |q|
  {
    if q == [] {
      assert h + q == h;
    } else {
      var n := |q| - 1;
      assert (h + q)[..|h + q| - 1] == h + q[..n];
      PadsAppend(h, q[..n]);
    }
  }

  lemma {:induction false} BodyPads(k: seq<byte>)
    ensures Body(k) ==> Pads(k) <= 2
  {
    if k != [] { BodyPads(k[..|k| - 1]); }
  }

  lemma {:induction false} BodyPrefix(h: seq<byte>, q: seq<byte>)
    requires Body(h + q)
    ensures Body(h) && (Pads(h) > 0 ==> Pads(q) == |q|)
  {
    if q == [] {
      assert h + q == h;
    } else {
      var n := |q| - 1;
      assert (h + q)[..|h + q| - 1] == h + q[..n];
      BodyPrefix(h, q[..n]);
      PadsAppend(h, q[..n]);
    }
  }

  /** Only the last group of a body can hold padding. */
  lemma GroupPads(h: seq<byte>, q: seq<byte>)
    requires Body(h + q) && |q| == 4
    ensures Pads(h) == 0 && Pads(h + q) == Pads(q)
  {
    BodyPrefix(h, q);
    BodyPads(h + q);
    PadsAppend(h, q);
  }

  lemma {:induction false} WholeSize(k: seq<byte>, n: nat)
    requires Body(k) && |k| == 4 * n
    ensures |Decoded(k)| == 3 * n - Pads(k)
  {
    hide Group, Pads, Body, Decoded;
    if n == 0 {
      NoPads(k);
      EmptyDecoded();
      assert k == [];
    } else {
      var h, q := k[..|k| - 4], k[|k| - 4..];
      assert k == h + q;
      ModMultiple(n - 1, 4);
      LastGroup(h, q);
      BodyPrefix(h, q);
      BodyPads(k);
      GroupPads(h, q);
      WholeSize(h, n - 1);
      GroupSize(q);
    }
  }

  /** What is left over behind the last whole group is not decoded. */
  lemma {:induction false} RestDropped(k: seq<byte>, n: nat)
    requires 4 * n <= |k| < 4 * n + 4
    ensures Decoded(k) == Decoded(k[..4 * n])
  {
    hide Group;
    var r := |k| - 4 * n;
    if r == 0 {
      assert k[..4 * n] == k;
    } else {
      DivModUnique(|k|, 4, n, r);
      RestDropped(k[..|k| - 1], n);
      assert k[..|k| - 1][..4 * n] == k[..4 * n];
    }
  }

  lemma GroupSize(q: seq<byte>)
    requires |q| == 4 && Pads(q) <= 3
    ensures |Group(q)| == 3 - Pads(q)
  {
    hide Pads;
  }

  /** The two sizes, in whole groups and what is left over. */
  lemma SizesByGroups(k: seq<byte>)
    requires Body(k)
    ensures var n, r := |k| / 4, |k| % 4;
            var e := Pads(k[4 * n..]);
            |Decoded(k)| == 3 * n - Pads(k[..4 * n]) && Predicted(k) == 3 * n + (6 * r + 7) / 8 - Pads(k[..4 * n]) - e
            && e <= r && e <= 2
  {
    hide Decoded, Body, Pads;
    var n, r := |k| / 4, |k| % 4;
    DivMod(|k|, 4);
    var h, q := k[..4 * n], k[4 * n..];
    assert h + q == k;
    BodyPrefix(h, q);
    BodyPads(k);
    PadsAppend(h, q);
    WholeSize(h, n);
    RestDropped(k, n);
    assert |k| * 6 + 7 == 8 * (3 * n) + (6 * r + 7);
    DivModUnique(|k| * 6 + 7, 8, 3 * n + (6 * r + 7) / 8, (6 * r + 7) % 8);
  }

  /** The second pass never writes more than the first pass promised, and exactly that
      much if and only if nothing but padding is left over behind the whole groups. */
  lemma WithinPrediction(k: seq<byte>)
    requires Body(k)
    ensures |Decoded(k)| <= Predicted(k)
    ensures |Decoded(k)| == Predicted(k) <==> Pads(k[|k| / 4 * 4..]) == |k| % 4
    ensures |k| % 4 == 0 ==> |Decoded(k)| == Predicted(k)
  {
    hide Decoded, Body, Pads, Predicted;
    SizesByGroups(k);
    DivMod(|k|, 4);
  }

  // -------------------------------------------------------------- canonical texts

  /** The bits of the last group that no byte uses. */
  predicate UnusedZero(k: seq<byte>) {
    |k| >= 4 ==>
      var q := k[|k| - 4..];
      (Pads(q) == 1 ==> Sextet(q[2]) % 4 == 0) && (Pads(q) == 2 ==> Sextet(q[1]) % 16 == 0)
  }

  /** Padding stands at the end of a group. */
  lemma GroupShape(h: seq<byte>, q: seq<byte>)
    requires Body(h + q) && |q| == 4
    ensures Value(q[0]) < 64 && Value(q[1]) < 64
    ensures q[2] == PAD ==> q[3] == PAD
    ensures q[2] != PAD ==> Value(q[2]) < 64
    ensures q[3] != PAD ==> Value(q[3]) < 64
    ensures Pads(q) == (if q[2] == PAD then 1 else 0) + if q[3] == PAD then 1 else 0
  {
    GroupPads(h, q);
    BodyPads(h + q);
    forall i | 0 <= i < 4
      ensures Value(q[i]) <= 64
    {
      BodyChars(h + q, |h| + i);
      assert (h + q)[|h| + i] == q[i];
    }
    PadsOfFour(q);
    PadThenPads(h, q, 0);
    PadThenPads(h, q, 1);
    PadThenPads(h, q, 2);
  }

  lemma PadsOfFour(q: seq<byte>)
    requires |q| == 4
    ensures Pads(q) == (if q[0] == PAD then 1 else 0) + (if q[1] == PAD then 1 else 0) + (if q[2] == PAD then 1 else 0) + if q[3] == PAD then 1 else 0
  {
    assert q[..3][..2] == q[..2] && q[..3][..2][..1] == q[..1] && q[..1][..0] == [];
    assert Pads([]) == 0;
    assert Pads(q[..1]) == Pads([]) + if q[0] == PAD then 1 else 0;
    assert Pads(q[..2]) == Pads(q[..1]) + if q[1] == PAD then 1 else 0 by { assert q[..2][..1] == q[..1]; }
    assert Pads(q[..3]) == Pads(q[..2]) + if q[2] == PAD then 1 else 0;
  }

  /** Behind padding there is only padding. */
  lemma PadThenPads(h: seq<byte>, q: seq<byte>, i: nat)
    requires Body(h + q) && |q| == 4 && i < 3
    ensures q[i] == PAD ==> q[i + 1] == PAD
  {
    var a, b := h + q[..i + 1], q[i + 1..];
    assert a + b == h + q;
    BodyPrefix(a, b);
    if q[i] == PAD {
      assert a == (h + q[..i]) + [q[i]];
      PadsAppend(h + q[..i], [q[i]]);
      assert Pads([PAD]) == 1 by { assert [PAD][..0] == []; assert Pads([]) == 0; }
      AllPads(b);
    }
  }

  lemma {:induction false} AllPads(b: seq<byte>)
    requires |b| > 0 && Pads(b) == |b|
    ensures b[0] == PAD
  {
    var n := |b| - 1;
    assert b == b[..n] + [b[n]];
    PadsAppend(b[..n], [b[n]]);
    assert [] + b[..n] == b[..n];
    PadsAppend([], b[..n]);
    if n > 0 { AllPads(b[..n]); } else { assert b[..0] == []; assert Pads([]) == 0; }
  }

  /** The bytes of a number hold its sextets. */
  lemma NumberQuad(v0: nat, v1: nat, v2: nat, v3: nat)
    requires v0 < 64 && v1 < 64 && v2 < 64 && v3 < 64
    ensures var x := v0 * 0x4_0000 + v1 * 0x1000 + v2 * 0x40 + v3;
            var a, b, c := x / 0x1_0000 % 256, x / 0x100 % 256, x % 256;
            a == 4 * v0 + v1 / 16 && b == v1 % 16 * 16 + v2 / 4 && c == v2 % 4 * 64 + v3
  {
    var x := v0 * 0x4_0000 + v1 * 0x1000 + v2 * 0x40 + v3;
    var a, b, c := 4 * v0 + v1 / 16, v1 % 16 * 16 + v2 / 4, v2 % 4 * 64 + v3;
    DivMod(v1, 16);
    DivMod(v2, 4);
    assert x == a * 0x1_0000 + (b * 0x100 + c);
    DivModUnique(x, 0x1_0000, a, b * 0x100 + c);
    DivModUnique(x, 0x100, a * 0x100 + b, c);
    DivModUnique(a * 0x100 + b, 256, a, b);
    DivModUnique(a, 256, 0, a);
  }

  /** And give them back. */
  lemma QuadSextets(v0: nat, v1: nat, v2: nat, v3: nat)
    requires v0 < 64 && v1 < 64 && v2 < 64 && v3 < 64
    ensures var a, b, c := 4 * v0 + v1 / 16, v1 % 16 * 16 + v2 / 4, v2 % 4 * 64 + v3;
            a / 4 == v0 && a % 4 * 16 + b / 16 == v1 && b % 16 * 4 + c / 64 == v2 && c % 64 == v3
  {
    var a, b, c := 4 * v0 + v1 / 16, v1 % 16 * 16 + v2 / 4, v2 % 4 * 64 + v3;
    DivMod(v1, 16);
    DivMod(v2, 4);
    DivModUnique(a, 4, v0, v1 / 16);
    DivModUnique(b, 16, v1 % 16, v2 / 4);
    DivModUnique(c, 64, v2 % 4, v3);
  }

  /** The three bytes of a group's number. */
  function Bytes3(q: seq<byte>): (t: seq<byte>)
    requires |q| == 4
    ensures |t| == 3
  {
    var x := Number(q);
    [x / 0x1_0000 % 256, x / 0x100 % 256, x % 256]
  }

  lemma GroupIsPrefix(q: seq<byte>)
    requires |q| == 4 && Pads(q) <= 2
    ensures Group(q) == Bytes3(q)[..3 - Pads(q)]
  {
    hide Number, Pads;
  }

  /** The quad of a group's bytes is its letters, padding counting as a zero sextet. */
  lemma QuadOfNumber(q: seq<byte>)
    requires |q| == 4
    ensures var t := Bytes3(q);
            Quad(t[0], t[1], t[2]) == [Letter(Sextet(q[0])), Letter(Sextet(q[1])), Letter(Sextet(q[2])), Letter(Sextet(q[3]))]
            && t[2] == Sextet(q[2]) % 4 * 64 + Sextet(q[3]) && t[1] == Sextet(q[1]) % 16 * 16 + Sextet(q[2]) / 4
  {
    var v0, v1, v2, v3 := Sextet(q[0]), Sextet(q[1]), Sextet(q[2]), Sextet(q[3]);
    SextetRange(q[0]);
    SextetRange(q[1]);
    SextetRange(q[2]);
    SextetRange(q[3]);
    NumberOf(q, v0, v1, v2, v3);
    hide Sextet, Letter, Number;
    NumberQuad(v0, v1, v2, v3);
    QuadSextets(v0, v1, v2, v3);
  }

  lemma SextetRange(c: byte)
    ensures Sextet(c) < 64
  {}

  lemma LetterOfSextet(c: byte)
    requires Value(c) < 64
    ensures Letter(Sextet(c)) == c
  {}

  /** Encoding a decoded group gives the group, if its unused bits are zero. */
  lemma FourOfGroup(h: seq<byte>, q: seq<byte>)
    requires Body(h + q) && |q| == 4 && UnusedZero(q)
    ensures 1 <= |Group(q)| <= 3 && Four(Group(q)) == q
  {
    GroupShape(h, q);
    LetterOfSextet(q[0]);
    LetterOfSextet(q[1]);
    if q[2] != PAD { LetterOfSextet(q[2]); }
    if q[3] != PAD { LetterOfSextet(q[3]); }
    SpareBytes(q);
    QuadOfNumber(q);
    GroupIsPrefix(q);
    hide Group, Bytes3, Pads, Body, Letter, Value, Sextet, Quad, UnusedZero;
    var t := Bytes3(q);
    assert t == [t[0], t[1], t[2]];
  }

  /** The bytes padding stands for are zero when the unused bits are. */
  lemma SpareBytes(q: seq<byte>)
    requires |q| == 4 && UnusedZero(q) && (q[2] == PAD ==> q[3] == PAD)
    requires Pads(q) == (if q[2] == PAD then 1 else 0) + if q[3] == PAD then 1 else 0
    ensures q[3] == PAD ==> Bytes3(q)[2] == 0
    ensures q[2] == PAD ==> Bytes3(q)[1] == 0
  {
    QuadOfNumber(q);
    PadSextet();
    SextetRange(q[1]);
    SextetRange(q[2]);
    assert q[0..] == q;
    hide Bytes3, Pads, Letter, Sextet, Quad;
  }

  lemma EncodedAppend(s: seq<byte>, t: seq<byte>, n: nat)
    requires |s| == 3 * n && 1 <= |t| <= 3
    ensures Encoded(s + t) == Encoded(s) + Four(t)
  {
    hide Four;
    assert Before(|s + t|) == n;
    assert (s + t)[..3 * n] == s && (s + t)[3 * n..] == t;
  }

  lemma {:induction false} WholeReencoded(k: seq<byte>, n: nat)
    requires Body(k) && |k| == 4 * n && UnusedZero(k)
    ensures Encoded(Decoded(k)) == k
  {
    hide Group, Four, Pads, Body, Decoded, Encoded, Sextet;
    if n == 0 {
      EmptyDecoded();
      EmptyEncoded();
    } else {
      var h, q := k[..|k| - 4], k[|k| - 4..];
      assert h + q == k && q[0..] == q;
      BodyPrefix(h, q);
      GroupPads(h, q);
      BodyPads(k);
      WholeSize(h, n - 1);
      LastInside(h);
      WholeReencoded(h, n - 1);
      ModMultiple(n - 1, 4);
      LastGroup(h, q);
      FourOfGroup(h, q);
      EncodedAppend(Decoded(h), Group(q), n - 1);
    }
  }

  lemma EmptyEncoded()
    ensures Encoded([]) == []
  {}

  /** A text without padding has none in its last group. */
  lemma LastInside(h: seq<byte>)
    requires Pads(h) == 0
    ensures UnusedZero(h)
  {
    if |h| >= 4 {
      assert h == h[..|h| - 4] + h[|h| - 4..];
      PadsAppend(h[..|h| - 4], h[|h| - 4..]);
    }
    hide Pads, Sextet;
  }

  /** An encoding has zeros in the bits it does not use. */
  lemma EncodedUnused(s: seq<byte>)
    ensures UnusedZero(Encoded(s))
  {
    if s != [] {
      var m := 3 * Before(|s|);
      FourUnused(s[m..]);
      hide Four, Pads, Sextet, Before;
      var e, q := Encoded(s[..m]), Four(s[m..]);
      assert (e + q)[|e + q| - 4..] == q;
    }
  }

  lemma FourUnused(t: seq<byte>)
    requires 1 <= |t| <= 3
    ensures var q := Four(t);
            (Pads(q) == 1 ==> Sextet(q[2]) % 4 == 0) && (Pads(q) == 2 ==> Sextet(q[1]) % 16 == 0)
  {
    hide Quad, Pads, Sextet;
    if |t| == 3 {
      ThreeByteUnused(t[0], t[1], t[2]);
    } else if |t| == 2 {
      TwoByteUnused(t[0], t[1]);
    } else {
      OneByteUnused(t[0]);
    }
  }

  lemma ThreeByteUnused(a: byte, b: byte, c: byte)
    ensures Pads(Quad(a, b, c)) == 0
  {
    hide Quad, Pads, Body;
    QuadLetters(a, b, c);
    LettersBody(Quad(a, b, c));
  }

  lemma TwoByteUnused(a: byte, b: byte)
    ensures var q := Quad(a, b, 0)[..3] + [PAD];
            Pads(q) == 1 && Sextet(q[2]) % 4 == 0
  {
    hide Quad, Pads, Body, Sextet, Value;
    QuadLetters(a, b, 0);
    PaddedBody(Quad(a, b, 0)[..3]);
    QuadValues(a, b, 0);
    ModMultiple(b % 16, 4);
  }

  lemma OneByteUnused(a: byte)
    ensures var q := Quad(a, 0, 0)[..2] + [PAD, PAD];
            Pads(q) == 2 && Sextet(q[1]) % 16 == 0
  {
    hide Quad, Pads, Body, Sextet, Value;
    QuadLetters(a, 0, 0);
    PaddedBody(Quad(a, 0, 0)[..2]);
    QuadValues(a, 0, 0);
    ModMultiple(a % 4, 16);
  }

  /** Encoding what was decoded gives the kept text back if and only if it consists of
      whole groups and the bits no byte uses are zero. */
  lemma CanonicalExact(k: seq<byte>)
    requires Body(k)
    ensures Encoded(Decoded(k)) == k <==> |k| % 4 == 0 && UnusedZero(k)
  {
    hide Encoded, Decoded, UnusedZero, Body;
    if |k| % 4 == 0 && UnusedZero(k) {
      DivMod(|k|, 4);
      WholeReencoded(k, |k| / 4);
    }
    if Encoded(Decoded(k)) == k {
      EncodedBody(Decoded(k));
      EncodedUnused(Decoded(k));
    }
  }

  lemma {:induction false} KeptAppend(a: seq<byte>, b: seq<byte>)
    ensures Kept(a + b) == Kept(a) + Kept(b)
  {
    if b == [] {
      assert a + b == a;
    } else {
      var n := |b| - 1;
      assert (a + b)[..|a + b| - 1] == a + b[..n];
      KeptAppend(a, b[..n]);
    }
  }

  /** Line breaks may be put anywhere but inside a line break; the decoded bytes stay
      the same. */
  lemma LineBreaksIgnored(a: seq<byte>, b: seq<byte>)
    requires Accepted(a + b) && (a != [] ==> a[|a| - 1] != CR)
    ensures Accepted(a + [LF] + b) && Accepted(a + [CR, LF] + b)
    ensures Kept(a + [LF] + b) == Kept(a + b) == Kept(a + [CR, LF] + b)
  {
    KeptAppend(a, b);
    KeptAppend(a + [LF], b);
    KeptAppend(a, [LF]);
    KeptAppend(a + [CR, LF], b);
    KeptAppend(a, [CR, LF]);
    KeptBreaks();
    assert Kept(a) + [] == Kept(a);
    hide Kept, Body;
    LayoutBreak(a, b, [LF]);
    LayoutBreak(a, b, [CR, LF]);
  }

  /** Spaces may be added before a line break, before other spaces and at the end. */
  lemma SpacesIgnored(a: seq<byte>, b: seq<byte>)
    requires Accepted(a + b) && (a != [] ==> a[|a| - 1] != CR) && (b != [] ==> Blank(b[0]))
    ensures Accepted(a + [SPACE] + b) && Kept(a + [SPACE] + b) == Kept(a + b)
  {
    KeptAppend(a, b);
    KeptAppend(a + [SPACE], b);
    KeptAppend(a, [SPACE]);
    assert Kept([SPACE]) == [] by { assert [SPACE][..0] == []; }
    hide Kept, Body, Laid;
    assert Kept(a) + [] == Kept(a);
    LayoutSpace(a, b);
  }

  lemma LayoutSpace(a: seq<byte>, b: seq<byte>)
    requires Layout(a + b) && (a != [] ==> a[|a| - 1] != CR) && (b != [] ==> Blank(b[0]))
    ensures Layout(a + [SPACE] + b)
  {
    var s, t := a + b, a + [SPACE] + b;
    forall i | 0 <= i < |t|
      ensures Laid(t, i)
    {
      if i < |a| - 1 {
        assert Laid(s, i);
      } else if i > |a| {
        assert Laid(s, i - 1);
      }
    }
  }

  lemma KeptBreaks()
    ensures Kept([LF]) == [] && Kept([CR, LF]) == []
  {
    assert Kept([]) == [];
    assert Kept([CR]) == [] by { assert [CR][..0] == []; }
    assert [CR, LF][..1] == [CR] && [LF][..0] == [];
  }

  lemma LayoutBreak(a: seq<byte>, b: seq<byte>, w: seq<byte>)
    requires Layout(a + b) && (a != [] ==> a[|a| - 1] != CR) && w in {[LF], [CR, LF]}
    ensures Layout(a + w + b)
  {
    var s, t := a + b, a + w + b;
    forall i | 0 <= i < |t|
      ensures Laid(t, i)
    {
      if i < |a| - 1 {
        assert Laid(s, i);
      } else if i == |a| - 1 {
        assert t[i + 1] == w[0];
      } else if i >= |a| + |w| {
        assert Laid(s, i - |w|);
      }
    }
  }

  // ----------------------------------------------------------------- the encoder

  const FAILURE: int := -1001

  lemma {:induction false} EncodedSize(s: seq<byte>)
    ensures |Encoded(s)| == 4 * (|s| / 3 + if |s| % 3 != 0 then 1 else 0)
  {
    hide Four;
    if s != [] {
      var n := Before(|s|);
      EncodedSize(s[..3 * n]);
      DivModUnique(3 * n, 3, n, 0);
      var r := |s| - 3 * n;
      DivModUnique(|s|, 3, if r == 3 then n + 1 else n, if r == 3 then 0 else r);
    }
  }

  lemma EncodedNext(s: seq<byte>, k: nat)
    requires 3 * k < |s|
    ensures var hi := if |s| < 3 * k + 3 then |s| else 3 * k + 3;
            Encoded(s[..hi]) == Encoded(s[..3 * k]) + Four(s[3 * k..hi])
  {
    hide Four;
    var hi := if |s| < 3 * k + 3 then |s| else 3 * k + 3;
    assert Before(hi) == k;
    assert s[..hi][..3 * k] == s[..3 * k] && s[..hi][3 * k..] == s[3 * k..hi];
  }

  /** The masks with 0x3F change nothing. */
  lemma Sextets(a: byte, b: byte, c: byte)
    ensures a / 4 % 64 == a / 4 && (a % 4 * 16 + b / 16) % 64 == a % 4 * 16 + b / 16
    ensures (b % 16 * 4 + c / 64) % 64 == b % 16 * 4 + c / 64 && b % 16 * 4 % 64 == b % 16 * 4
  {}

  /** Four characters for three bytes. */
  method PutQuad(dst: array<byte>, p: nat, c1: byte, c2: byte, c3: byte)
    requires p + 4 <= dst.Length
    modifies dst
    ensures dst[..p] == old(dst[..p]) && dst[p..p + 4] == Quad(c1, c2, c3)
  {
    hide Letter;
    Sextets(c1, c2, c3);
    dst[p] := EncMap(c1 / 4 % 64);
    dst[p + 1] := EncMap((c1 % 4 * 16 + c2 / 16) % 64);
    dst[p + 2] := EncMap((c2 % 16 * 4 + c3 / 64) % 64);
    dst[p + 3] := EncMap(c3 % 64);
    assert dst[p..p + 4] == [dst[p], dst[p + 1], dst[p + 2], dst[p + 3]];
  }

  /** The last one or two bytes. */
  method PutRest(dst: array<byte>, p: nat, t: seq<byte>)
    requires p + 4 <= dst.Length && 1 <= |t| <= 2
    modifies dst
    ensures dst[..p] == old(dst[..p]) && dst[p..p + 4] == Four(t)
  {
    hide Letter;
    var c1 := t[0];
    var c2: byte := if |t| > 1 then t[1] else 0;
    Sextets(c1, c2, 0);
    dst[p] := EncMap(c1 / 4 % 64);
    dst[p + 1] := EncMap((c1 % 4 * 16 + c2 / 16) % 64);
    dst[p + 2] := if |t| > 1 then EncMap(c2 % 16 * 4 % 64) else PAD;
    dst[p + 3] := PAD;
    assert dst[p..p + 4] == [dst[p], dst[p + 1], dst[p + 2], dst[p + 3]];
  }

  /** `qcloud_iot_utils_base64encode`. */
  method Encode(dst: array?<byte>, dlen: nat, src: seq<byte>) returns (ret: int, olen: nat)
    requires dst != null ==> dlen <= dst.Length
    modifies dst
    ensures src == [] ==> ret == 0 && olen == 0
    ensures src != [] && (dst == null || dlen < |Encoded(src)| + 1) ==> ret == FAILURE && olen == |Encoded(src)| + 1
    ensures src != [] && dst != null && dlen > |Encoded(src)| ==>
              ret == 0 && olen == |Encoded(src)| && dst[..olen] == Encoded(src) && dst[olen] == 0
  {
    hide Four, Quad, Encoded;
    if |src| == 0 { return 0, 0; }
    EncodedSize(src);
    var n := 4 * (|src| / 3 + if |src| % 3 != 0 then 1 else 0);
    if dst == null || dlen < n + 1 { return FAILURE, n + 1; }
    var k := PutWhole(dst, src);
    var p := 4 * k;
    if 3 * k < |src| {
      EncodedNext(src, k);
      PutRest(dst, p, src[3 * k..]);
      assert dst[..p + 4] == dst[..p] + dst[p..p + 4];
      p := p + 4;
      assert src[..|src|] == src;
    }
    dst[p] := 0;
    return 0, p;
  }

  /** The loop over whole groups of three. */
  method PutWhole(dst: array<byte>, src: seq<byte>) returns (k: nat)
    requires |Encoded(src)| < dst.Length
    modifies dst
    ensures 3 * k <= |src| < 3 * k + 3 && 4 * k < dst.Length && dst[..4 * k] == Encoded(src[..3 * k])
    ensures if 3 * k < |src| then 4 * k + 4 < dst.Length else |Encoded(src)| == 4 * k && src[..3 * k] == src
  {
    hide Four, Quad, Encoded;
    EncodedSize(src);
    EncodedSize([]);
    DivMod(|src|, 3);
    var n := |src| / 3;
    assert src[..0] == [];
    k := 0;
    while k < n
      invariant k <= n && dst[..4 * k] == Encoded(src[..3 * k])
    {
      EncodedNext(src, k);
      assert Four(src[3 * k..3 * k + 3]) == Quad(src[3 * k], src[3 * k + 1], src[3 * k + 2]) by { FourQuad(src[3 * k..3 * k + 3]); }
      PutQuad(dst, 4 * k, src[3 * k], src[3 * k + 1], src[3 * k + 2]);
      assert dst[..4 * k + 4] == dst[..4 * k] + dst[4 * k..4 * k + 4];
      k := k + 1;
    }
    if 3 * k == |src| { assert src[..3 * k] == src; }
  }

  lemma FourQuad(t: seq<byte>)
    requires |t| == 3
    ensures Four(t) == Quad(t[0], t[1], t[2])
  {}

  // ----------------------------------------------------------------- the decoder

  lemma KeptNext(s: seq<byte>, i: nat)
    requires i < |s|
    ensures Kept(s[..i + 1]) == if Blank(s[i]) then Kept(s[..i]) else Kept(s[..i]) + [s[i]]
  {
    assert s[..i + 1][..i] == s[..i];
  }

  lemma BodyNext(k: seq<byte>, c: byte)
    ensures Body(k + [c]) <==> Body(k) && if c == PAD then Pads(k) < 2 else Value(c) < 64 && Pads(k) == 0
    ensures Pads(k + [c]) == Pads(k) + if c == PAD then 1 else 0
  {
    assert (k + [c])[..|k|] == k;
  }

  /** A prefix whose kept characters are no body, or a misplaced blank, is enough to
      reject. */
  lemma Rejects(s: seq<byte>, i: nat)
    requires i <= |s| && !Body(Kept(s[..i]))
    ensures !Accepted(s)
  {
    assert s[..i] + s[i..] == s;
    KeptAppend(s[..i], s[i..]);
    if Body(Kept(s)) { BodyPrefix(Kept(s[..i]), Kept(s[i..])); }
  }

  /** The first pass: what is kept, how much padding, or an error. */
  method FirstPass(src: seq<byte>) returns (ok: bool, n: nat, j: nat)
    ensures ok <==> Accepted(src)
    ensures ok ==> n == |Kept(src)| && j == Pads(Kept(src))
  {
    hide Kept, Body, Pads, Value;
    var i: nat := 0;
    n, j := 0, 0;
    StartScan(src);
    while i < |src|
      invariant i <= |src| && (forall k :: 0 <= k < i ==> Laid(src, k))
      invariant Body(Kept(src[..i])) && n == |Kept(src[..i])| && j == Pads(Kept(src[..i]))
    {
      var x := 0;
      while i < |src| && src[i] == SPACE
        invariant i <= |src| && x <= i && (x > 0 ==> src[i - 1] == SPACE)
        invariant forall k :: 0 <= k < (if x > 0 then i - 1 else i) ==> Laid(src, k)
        invariant Body(Kept(src[..i])) && n == |Kept(src[..i])| && j == Pads(Kept(src[..i]))
      {
        KeptNext(src, i);
        i := i + 1;
        x := x + 1;
      }
      if i == |src| { break; }
      KeptNext(src, i);
      if (|src| - i >= 2 && src[i] == CR && src[i + 1] == LF) || src[i] == LF {
        i := i + 1;
        continue;
      }
      if x != 0 {
        assert !Laid(src, if src[i] == CR then i else i - 1);
        return false, n, j;
      }
      var good := src[i] != CR;
      if !good { assert !Laid(src, i); }
      BodyNext(Kept(src[..i]), src[i]);
      BodyPads(Kept(src[..i]));
      var more, j' := Judge(src[i], j);
      if !more {
        if good { Rejects(src, i + 1); }
        return false, n, j;
      }
      j := j';
      n := n + 1;
      i := i + 1;
    }
    assert src[..|src|] == src;
    return true, n, j;
  }

  lemma StartScan(src: seq<byte>)
    ensures Kept(src[..0]) == [] && Body([]) && Pads([]) == 0
  {}

  /** The three tests on a character that is not blank. */
  method Judge(c: byte, j0: nat) returns (ok: bool, j: nat)
    requires j0 <= 2
    ensures ok <==> if c == PAD then j0 < 2 else Value(c) < 64 && j0 == 0
    ensures ok ==> j == j0 + if c == PAD then 1 else 0
  {
    j := j0;
    if c == PAD {
      j := j + 1;
      if j > 2 { return false, j; }
    }
    if c > 127 || DecMap(c) == 127 { return false, j; }
    if DecMap(c) < 64 && j != 0 { return false, j; }
    return true, j;
  }

  /** Sextets of a group in progress, as one number. */
  function Partial(k: seq<byte>): nat
    requires |k| <= 4
  {
    if k == [] then 0 else Partial(k[..|k| - 1]) * 64 + Sextet(k[|k| - 1])
  }

  /** Room for the sextets of a group in progress. */
  function Room(n: nat): nat {
    if n == 0 then 1 else if n == 1 then 0x40 else if n == 2 then 0x1000 else if n == 3 then 0x4_0000 else 0x100_0000
  }

  lemma PartialNumber(q: seq<byte>)
    requires |q| == 4
    ensures Partial(q) == Number(q)
  {
    assert q[..3][..2] == q[..2] && q[..3][..2][..1] == q[..1] && q[..1][..0] == [];
    assert Partial([]) == 0;
    assert Partial(q[..1]) == Sextet(q[0]);
    assert Partial(q[..2]) == Partial(q[..1]) * 64 + Sextet(q[1]) by { assert q[..2][..1] == q[..1]; }
    assert Partial(q[..3]) == Partial(q[..2]) * 64 + Sextet(q[2]);
  }

  lemma {:induction false} PartialBound(k: seq<byte>)
    requires |k| <= 4
    ensures Partial(k) < Room(|k|)
  {
    if k != [] { PartialBound(k[..|k| - 1]); }
  }

  /** The low bits of the shifted accumulator, which wraps at 32 bits. */
  lemma ShiftLow(x: nat, n: nat, v: nat)
    requires n < 4 && v < 64
    ensures (x * 64 + v) % 0x1_0000_0000 % Room(n + 1) == x % Room(n) * 64 + v
  {
    var m := Room(n);
    var q, r := x / m, x % m;
    DivMod(x, m);
    var y := x * 64 + v;
    var w := y / 0x1_0000_0000;
    DivMod(y, 0x1_0000_0000);
    var c := 0x1_0000_0000 / (64 * m);
    assert 64 * m * c == 0x1_0000_0000 && Room(n + 1) == 64 * m;
    assert y == q * (64 * m) + (r * 64 + v) by { Distr(q * m, r, 64); MulAssoc(q, m, 64); }
    Distr(q, w * c, 64 * m);
    MulAssoc(w, c, 64 * m);
    DivModUnique(y % 0x1_0000_0000, 64 * m, q - w * c, r * 64 + v);
  }

  /** The bytes of the low 24 bits. */
  lemma LowBytes(x: nat, y: nat)
    requires x % 0x100_0000 == y
    ensures x / 0x1_0000 % 256 == y / 0x1_0000 % 256 && x / 0x100 % 256 == y / 0x100 % 256 && x % 256 == y % 256
  {
    var q := x / 0x100_0000;
    DivMod(x, 0x100_0000);
    LowByte(x, y, 0x1_0000, 1, q);
    LowByte(x, y, 0x100, 0x100, q);
    LowByte(x, y, 1, 0x1_0000, q);
  }

  lemma LowByte(x: nat, y: nat, d: nat, e: nat, q: nat)
    requires d > 0 && x == q * (256 * e * d) + y
    ensures x / d % 256 == y / d % 256
  {
    var c := q * e;
    assert q * (256 * e * d) == 256 * c * d by { MulAssoc(256, e, d); MulAssoc(q, 256 * e, d); assert q * (256 * e) == 256 * c; }
    DivMod(y, d);
    Distr(256 * c, y / d, d);
    DivModUnique(x, d, 256 * c + y / d, y % d);
    var z := y / d;
    DivMod(z, 256);
    DivModUnique(256 * c + z, 256, c + z / 256, z % 256);
  }

  /** The characters of the group in progress. */
  function Open(k: seq<byte>): seq<byte> {
    k[|k| - |k| % 4..]
  }

  /** The accumulator holds the group in progress. */
  ghost predicate Holds(x: nat, k: seq<byte>) {
    x % Room(|k| % 4) == Partial(Open(k))
  }

  lemma OpenNext(k: seq<byte>, c: byte)
    ensures |Open(k)| == |k| % 4 && (Open(k) + [c])[..|k| % 4] == Open(k)
    ensures |k + [c]| % 4 == if |k| % 4 == 3 then 0 else |k| % 4 + 1
    ensures Open(k + [c]) == if |k| % 4 == 3 then [] else Open(k) + [c]
    ensures |k| % 4 == 3 ==> |k| >= 3 && (k + [c])[|k| - 3..] == Open(k) + [c]
  {
    DivMod(|k|, 4);
    var r := |k| % 4;
    DivModUnique(|k| + 1, 4, if r == 3 then |k| / 4 + 1 else |k| / 4, if r == 3 then 0 else r + 1);
  }

  /** One more character: the accumulator, and the group when it is complete. */
  lemma Accumulate(x: nat, k: seq<byte>, c: byte)
    requires Holds(x, k)
    ensures var y := (x * 64 + Sextet(c)) % 0x1_0000_0000;
            Holds(y, k + [c])
            && (|k| % 4 == 3 ==> |k| >= 3 && (k + [c])[|k| - 3..] == Open(k) + [c] && y % 0x100_0000 == Number(Open(k) + [c]))
  {
    hide Number, Open;
    var r, q := |k| % 4, Open(k) + [c];
    ShiftLow(x, r, Sextet(c));
    OpenNext(k, c);
    assert Partial(q) == Partial(Open(k)) * 64 + Sextet(c);
    if r == 3 {
      PartialNumber(q);
      EmptyHeld((x * 64 + Sextet(c)) % 0x1_0000_0000);
    }
  }

  lemma EmptyHeld(y: nat)
    ensures y % Room(0) == Partial([])
  {}

  /** Decoding after one more character. */
  lemma DecodedNext(k: seq<byte>, c: byte)
    ensures Decoded(k + [c]) == if |k| % 4 == 3 then Decoded(k) + Group(Open(k) + [c]) else Decoded(k)
  {
    hide Group, Decoded;
    var h, m, r := k + [c], |k| / 4, |k| % 4;
    DivMod(|k|, 4);
    RestDropped(k, m);
    if r == 3 {
      ModMultiple(m, 4);
      LastGroup(k[..4 * m], Open(k) + [c]);
      assert k[..4 * m] + (Open(k) + [c]) == h;
    } else {
      RestDropped(h, m);
      assert h[..4 * m] == k[..4 * m];
    }
  }

  lemma {:induction false} DecodedGrows(h: seq<byte>, q: seq<byte>)
    ensures |Decoded(h)| <= |Decoded(h + q)|
  {
    hide Decoded, Group;
    if q == [] {
      assert h + q == h;
    } else {
      var n := |q| - 1;
      DecodedGrows(h, q[..n]);
      DecodedNext(h + q[..n], q[n]);
      assert (h + q[..n]) + [q[n]] == h + q;
    }
  }

  lemma RoomLeft(src: seq<byte>, i: nat)
    requires i < |src|
    ensures |Decoded(Kept(src[..i + 1]))| <= |Decoded(Kept(src))|
  {
    assert src[..i + 1] + src[i + 1..] == src;
    KeptAppend(src[..i + 1], src[i + 1..]);
    DecodedGrows(Kept(src[..i + 1]), Kept(src[i + 1..]));
  }

  /** Writes a group: as many bytes as the padding so far leaves. */
  method PutGroup(dst: array<byte>, p: nat, x: nat, j: nat, ghost q: seq<byte>) returns (p': nat)
    requires |q| == 4 && Pads(q) <= 2 && j == 3 - Pads(q) && x % 0x100_0000 == Number(q) && p + j <= dst.Length
    modifies dst
    ensures p' == p + |Group(q)| && dst[..p'] == old(dst[..p]) + Group(q)
    ensures forall k :: p' <= k < dst.Length ==> dst[k] == old(dst[k])
  {
    hide Number, Pads;
    LowBytes(x, Number(q));
    p' := p;
    if j > 0 {
      dst[p'] := x / 0x1_0000 % 256;
      p' := p' + 1;
    }
    if j > 1 {
      dst[p'] := x / 0x100 % 256;
      p' := p' + 1;
    }
    if j > 2 {
      dst[p'] := x % 256;
      p' := p' + 1;
    }
  }

  /** The second pass, over the whole source again. */
  method SecondPass(dst: array<byte>, src: seq<byte>) returns (p: nat)
    requires Accepted(src) && |Decoded(Kept(src))| <= dst.Length
    modifies dst
    ensures p == |Decoded(Kept(src))| && dst[..p] == Decoded(Kept(src))
    ensures forall k :: p <= k < dst.Length ==> dst[k] == old(dst[k])
  {
    hide Kept, Body, Pads, Value, Decoded, Group, Holds, Sextet;
    var j, n: nat, x: nat := 3, 0, 0;
    p := 0;
    SecondStart(src);
    for i: nat := 0 to |src|
      invariant Body(Kept(src[..i])) && j == 3 - Pads(Kept(src[..i])) && n == |Kept(src[..i])| % 4
      invariant Holds(x, Kept(src[..i]))
      invariant p == |Decoded(Kept(src[..i]))| <= dst.Length && dst[..p] == Decoded(Kept(src[..i]))
      invariant forall k :: p <= k < dst.Length ==> dst[k] == old(dst[k])
    {
      KeptNext(src, i);
      RoomLeft(src, i);
      var c := src[i];
      if c == CR || c == LF || c == SPACE { continue; }
      ghost var k := Kept(src[..i]);
      KeptBody(src, i + 1);
      j, n, x, p := OneChar(dst, k, c, j, n, x, p);
    }
    assert src[..|src|] == src;
  }

  lemma SecondStart(src: seq<byte>)
    ensures Kept(src[..0]) == [] && Body([]) && Pads([]) == 0 && Decoded([]) == [] && Holds(0, [])
  {}

  lemma KeptBody(src: seq<byte>, i: nat)
    requires i <= |src| && Body(Kept(src))
    ensures Body(Kept(src[..i]))
  {
    assert src[..i] + src[i..] == src;
    KeptAppend(src[..i], src[i..]);
    BodyPrefix(Kept(src[..i]), Kept(src[i..]));
  }

  /** The second pass's work on one character that is not blank. */
  method OneChar(dst: array<byte>, ghost k: seq<byte>, c: byte, j0: nat, n0: nat, x0: nat, p0: nat) returns (j: nat, n: nat, x: nat, p: nat)
    requires Body(k + [c]) && Body(k) && j0 == 3 - Pads(k) && n0 == |k| % 4 && Holds(x0, k)
    requires p0 == |Decoded(k)| && |Decoded(k + [c])| <= dst.Length && p0 <= dst.Length && dst[..p0] == Decoded(k)
    modifies dst
    ensures j == 3 - Pads(k + [c]) && n == |k + [c]| % 4 && Holds(x, k + [c])
    ensures p0 <= p == |Decoded(k + [c])| && dst[..p] == Decoded(k + [c])
    ensures forall i :: p <= i < dst.Length ==> dst[i] == old(dst[i])
  {
    hide Body, Pads, Decoded, Group, Holds, Number, Value, Sextet, Open;
    CharFacts(k, c, x0);
    var v := DecMap(c);
    j := j0 - if v == 64 then 1 else 0;
    x := Shifted(x0, v % 64);
    n, p := n0 + 1, p0;
    if n == 4 {
      n := 0;
      p := PutGroup(dst, p, x, j, Open(k) + [c]);
    }
  }

  /** `x = (x << 6) | v`, in 32 bits. */
  function Shifted(x: nat, v: nat): nat {
    (x * 64 + v) % 0x1_0000_0000
  }

  /** Everything the second pass relies on at one character. */
  lemma CharFacts(k: seq<byte>, c: byte, x: nat)
    requires Body(k + [c]) && Holds(x, k)
    ensures c < 128 && Pads(k + [c]) == Pads(k) + (if Value(c) == 64 then 1 else 0) && Pads(k + [c]) <= 2
    ensures |k + [c]| % 4 == if |k| % 4 == 3 then 0 else |k| % 4 + 1
    ensures Holds(Shifted(x, Value(c) % 64), k + [c])
    ensures Decoded(k + [c]) == if |k| % 4 == 3 then Decoded(k) + Group(Open(k) + [c]) else Decoded(k)
    ensures |k| % 4 == 3 ==>
              var q := Open(k) + [c];
              |q| == 4 && Pads(q) == Pads(k + [c]) && |Group(q)| == 3 - Pads(q) && Shifted(x, Value(c) % 64) % 0x100_0000 == Number(q)
  {
    hide Body, Pads, Decoded, Group, Holds, Number, Value, Sextet, Open;
    BodyNext(k, c);
    BodyPads(k + [c]);
    CoveredChar(k, c);
    Accumulate(x, k, c);
    DecodedNext(k, c);
    OpenNext(k, c);
    if |k| % 4 == 3 {
      var h, q := (k + [c])[..|k| - 3], Open(k) + [c];
      assert h + q == k + [c];
      GroupPads(h, q);
      GroupSize(q);
    }
  }

  lemma CoveredChar(k: seq<byte>, c: byte)
    requires Body(k + [c])
    ensures c < 128 && (Value(c) == 64 <==> c == PAD) && Sextet(c) == Value(c) % 64
  {
    BodyNext(k, c);
  }

  /** `qcloud_iot_utils_base64decode`. */
  method Decode(dst: array?<byte>, dlen: nat, src: seq<byte>) returns (ret: int, olen: nat)
    requires dst != null ==> dlen <= dst.Length
    modifies dst
    ensures !Accepted(src) ==> ret == FAILURE && (dst != null ==> dst[..] == old(dst[..]))
    ensures Accepted(src) ==>
              var k := Kept(src);
              if k == [] then ret == 0 && olen == 0
              else if dst == null || dlen < Predicted(k) then ret == FAILURE && olen == Predicted(k)
              else ret == 0 && olen == |Decoded(k)| <= Predicted(k) && dst[..olen] == Decoded(k)
                   && forall i :: olen <= i < dst.Length ==> dst[i] == old(dst[i])
  {
    hide Accepted, Kept, Pads, Decoded, Body;
    var ok, n, j := FirstPass(src);
    if !ok { return FAILURE, 0; }
    if n == 0 { return 0, 0; }
    AcceptedWithin(src);
    var m := (n * 6 + 7) / 8 - j;
    if dst == null || dlen < m { return FAILURE, m; }
    olen := SecondPass(dst, src);
    ret := 0;
  }

  lemma AcceptedWithin(src: seq<byte>)
    requires Accepted(src)
    ensures |Decoded(Kept(src))| <= Predicted(Kept(src))
  {
    WithinPrediction(Kept(src));
  }
}
