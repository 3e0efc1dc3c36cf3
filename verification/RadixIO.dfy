/** Numbers as text: `read_string` and `write_string` for every radix from 2 to
    16, the hexadecimal paths limb by limb and the others by repeated division. */
module RadixIO {
  import opened Arith
  import opened Limbs
  import opened MpiCore
  import opened MpiAdd
  import opened MpiMul
  import opened MpiShift
  import opened MpiDiv
  import opened MpiMod

  // ------------------------------------------------------------------- digits

  /** `mpi_get_digit` before its range check; 255 for anything that is no digit. */
  function DigitValue(c: char): nat {
    if '0' <= c <= '9' then c as int - '0' as int
    else if 'A' <= c <= 'F' then c as int - 'A' as int + 10
    else if 'a' <= c <= 'f' then c as int - 'a' as int + 10
    else 255
  }

  function DigitChar(r: nat): char
    requires r < 16
  {
    if r < 10 then r as char + '0' else (r - 10) as char + 'A'
  }

  lemma DigitRoundTrip(r: nat)
    requires r < 16
    ensures DigitValue(DigitChar(r)) == r && DigitChar(r) != '-'
  {}

  const CAPITALS: string := "0123456789ABCDEF"
  const SMALLS: string := "0123456789abcdef"

  /** The digits: both cases are read, capitals are written. */
  lemma DigitLetters(r: nat)
    requires r < 16
    ensures DigitValue(CAPITALS[r]) == r == DigitValue(SMALLS[r]) && DigitChar(r) == CAPITALS[r]
  {}

  /** And nothing else is a digit in any radix. */
  lemma DigitExact(c: char, r: nat)
    requires r < 16
    ensures DigitValue(c) == r <==> c == CAPITALS[r] || c == SMALLS[r]
  {}

  type Radix = r: nat | 2 <= r <= 16 witness 16

  predicate AllDigits(s: string, radix: nat) {
    forall i :: 0 <= i < |s| ==> DigitValue(s[i]) < radix
  }

  /** High-order digit first. */
  function DigitsValue(s: string, radix: nat): nat {
    if s == [] then 0 else DigitsValue(s[..|s| - 1], radix) * radix + DigitValue(s[|s| - 1])
  }

  // --------------------------------------------------------- the meaning of text

  function IsNegative(s: string): bool {
    s != [] && s[0] == '-'
  }

  function Magnitudes(s: string): string {
    if IsNegative(s) then s[1..] else s
  }

  /** An optional minus sign, then digits of the radix. */
  predicate ValidText(s: string, radix: nat) {
    AllDigits(Magnitudes(s), radix)
  }

  function TextValue(s: string, radix: nat): int {
    Signed(if IsNegative(s) then -1 else 1, DigitsValue(Magnitudes(s), radix))
  }

  /** Shortest digits of a number, at least one. */
  function Digits(v: nat, radix: Radix): (t: string)
    ensures |t| >= 1
  {
    QuotientShrinks(v, radix);
    (if Quo(v, radix) == 0 then [] else Digits(Quo(v, radix), radix)) + [DigitChar(Rem(v, radix))]
  }

  /** All digits but the last. */
  function FrontDigits(v: nat, radix: Radix): string {
    if Quo(v, radix) == 0 then [] else Digits(Quo(v, radix), radix)
  }

  function BytePair(c: nat): string
    requires c < 256
  {
    [DigitChar(c / 16), DigitChar(c % 16)]
  }

  /** Two digits for every byte, from the first byte that is not zero. */
  function HexPairs(v: nat): string {
    (if v < 256 then [] else HexPairs(v / 256)) + BytePair(v % 256)
  }

  /** The text of a number: what `write_string` puts before the final NUL. */
  ghost function TextOf(s: sign, p: seq<limb>, radix: Radix): string {
    SignText(s) + BodyText(p, radix)
  }

  function SignText(s: sign): string {
    if s == -1 then "-" else ""
  }

  ghost function BodyText(p: seq<limb>, radix: Radix): string {
    if radix != 16 then Digits(Val(p), radix) else if p == [] then "" else HexPairs(Val(p))
  }

  /** A minus sign in front negates. */
  lemma MinusSign(t: string, radix: Radix)
    requires ValidText(t, radix) && !IsNegative(t)
    ensures ValidText("-" + t, radix) && TextValue("-" + t, radix) == 0 - TextValue(t, radix)
  {
    assert ("-" + t)[1..] == t;
  }

  // ------------------------------------------------------------------ round trip

  lemma DigitsValueSnoc(s: string, c: char, radix: nat)
    ensures DigitsValue(s + [c], radix) == DigitsValue(s, radix) * radix + DigitValue(c)
  {
    assert (s + [c])[..|s|] == s;
  }

  lemma {:induction false} DigitsMeaning(v: nat, radix: Radix)
    ensures AllDigits(Digits(v, radix), radix) && DigitsValue(Digits(v, radix), radix) == v
    ensures Digits(v, radix)[0] != '-'
  {
    hide Quo, Rem, DigitsValue, DigitValue, DigitChar, Digits;
    QuoRem(v, radix);
    QuotientShrinks(v, radix);
    DigitsUnfold(v, radix);
    var front, c := FrontDigits(v, radix), DigitChar(Rem(v, radix));
    DigitRoundTrip(Rem(v, radix));
    DigitsValueSnoc(front, c, radix);
    if Quo(v, radix) > 0 {
      DigitsMeaning(Quo(v, radix), radix);
    } else {
      EmptyDigits(radix);
    }
  }

  lemma EmptyDigits(radix: nat)
    ensures AllDigits([], radix) && DigitsValue([], radix) == 0
  {}

  lemma QuotientShrinks(v: nat, radix: nat)
    requires radix >= 2
    ensures Quo(v, radix) > 0 ==> Quo(v, radix) < v
    ensures Rem(v, radix) < radix
  {
    DivMod(v, radix);
    MulMono(2, radix, Quo(v, radix));
  }

  lemma {:induction false} HexMeaning(v: nat)
    ensures AllDigits(HexPairs(v), 16) && DigitsValue(HexPairs(v), 16) == v
    ensures HexPairs(v)[0] != '-'
  {
    var c := v % 256;
    var front := if v < 256 then [] else HexPairs(v / 256);
    DigitRoundTrip(c / 16);
    DigitRoundTrip(c % 16);
    if v >= 256 { HexMeaning(v / 256); }
    DigitsValueSnoc(front, DigitChar(c / 16), 16);
    DigitsValueSnoc(front + [DigitChar(c / 16)], DigitChar(c % 16), 16);
    assert front + BytePair(c) == front + [DigitChar(c / 16)] + [DigitChar(c % 16)];
  }

  /** Reading a written number gives the number back, for every sign, every limb
      vector (leading zeros and the empty one included) and every radix. */
  lemma RoundTrip(s: sign, p: seq<limb>, radix: Radix)
    ensures ValidText(TextOf(s, p, radix), radix)
    ensures TextValue(TextOf(s, p, radix), radix) == Signed(s, Val(p))
  {
    hide Val, Digits, HexPairs, DigitsValue;
    DigitsMeaning(Val(p), radix);
    HexMeaning(Val(p));
    if p == [] { NoLimbs(); }
    var body := BodyText(p, radix);
    assert s == -1 ==> Magnitudes("-" + body) == body;
    assert s == 1 ==> "" + body == body;
  }

  lemma NoLimbs()
    ensures Val([]) == 0 && forall radix: nat :: DigitsValue([], radix) == 0
  {}

  // ------------------------------------------------------------------- writing

  /** Only the cells from `lo` to `hi` of the buffer have changed, to `text`. */
  ghost predicate Wrote(before: seq<char>, after: seq<char>, lo: nat, text: string) {
    lo + |text| <= |before| == |after| && after == before[..lo] + text + before[lo + |text|..]
  }

  lemma WroteMore(b0: seq<char>, b1: seq<char>, b2: seq<char>, lo: nat, t: string, u: string)
    requires Wrote(b0, b1, lo, t) && Wrote(b1, b2, lo + |t|, u)
    ensures Wrote(b0, b2, lo, t + u)
  {
    assert b1[..lo + |t|] == b0[..lo] + t;
    assert b1[lo + |t| + |u|..] == b0[lo + |t| + |u|..];
  }

  method PutChar(buf: array<char>, pos: nat, c: char) returns (next: nat)
    requires pos < buf.Length
    modifies buf
    ensures next == pos + 1 && Wrote(old(buf[..]), buf[..], pos, [c])
  {
    buf[pos] := c;
    next := pos + 1;
  }

  /** The low digit of X, which is divided by the radix in place. */
  method PopDigit(X: Mpi, radix: Radix) returns (r: limb)
    requires X.Value() >= 0 && (radix == 2 ==> |X.p| > 0)
    modifies X
    ensures r == Rem(old(X.Abs()), radix) && X.Value() == Quo(old(X.Abs()), radix)
  {
    hide Pow, Val;
    RadixIsSmall();
    DivMod(X.Abs(), radix);
    var st, r0 := ModInt(X, radix);
    st := DivInt(X, null, X, radix);
    r := r0;
  }

  /** `mpi_write_hlp`: digits high-order first, consuming X. */
  method WriteHlp(X: Mpi, radix: nat, buf: array<char>, pos: nat) returns (ret: Status, next: nat)
    requires X.Value() >= 0 && (radix == 2 ==> |X.p| > 0)
    requires 2 <= radix <= 16 ==> pos + |Digits(X.Abs(), radix)| <= buf.Length
    modifies X, buf
    ensures ret == if 2 <= radix <= 16 then Ok else BadInputData
    ensures ret != Ok ==> unchanged(X) && unchanged(buf) && next == pos
    ensures ret == Ok ==> Wrote(old(buf[..]), buf[..], pos, Digits(old(X.Abs()), radix)) && next == pos + |Digits(old(X.Abs()), radix)|
    decreases X.Abs()
  {
    hide Pow, Val, Digits, Wrote, Quo, Rem;
    if radix < 2 || radix > 16 { return BadInputData, pos; }
    ghost var v := X.Abs();
    DigitsUnfold(v, radix);
    QuotientShrinks(v, radix);
    RadixIsSmall();
    var r := PopDigit(X, radix);
    var z := CmpInt(X, 0);
    ghost var front := FrontDigits(v, radix);
    next := pos;
    if z != 0 {
      NegativeHasLimbs(X);
      ret, next := WriteHlp(X, radix, buf, pos);
    } else {
      WroteNothing(buf[..], pos);
    }
    assert Wrote(old(buf[..]), buf[..], pos, front) && next == pos + |front|;
    assert front + [DigitChar(r)] == Digits(v, radix);
    label last:
    next := PutChar(buf, next, if r < 10 then r as char + '0' else (r - 10) as char + 'A');
    WroteMore(old(buf[..]), old@last(buf[..]), buf[..], pos, front, [DigitChar(r)]);
    return Ok, next;
  }

  lemma WroteNothing(b: seq<char>, pos: nat)
    requires pos <= |b|
    ensures Wrote(b, b, pos, [])
  {}

  lemma RadixIsSmall()
    ensures 16 < Pow(2, biL - 1) && 16 <= HalfBase()
  {
    BaseFacts();
    PowMono(2, 8, biL - 1);
    PowSmall();
  }

  lemma DigitsUnfold(v: nat, radix: Radix)
    ensures Rem(v, radix) < 16 && Digits(v, radix) == FrontDigits(v, radix) + [DigitChar(Rem(v, radix))]
  {
    QuotientShrinks(v, radix);
  }

  /** Byte `j` of a limb. */
  function ByteOf(x: limb, j: nat): (c: nat)
    ensures c < 256
  {
    ShiftLimbRight(x, 8 * j) % 256
  }

  lemma ByteOfValue(p: seq<limb>, i: nat, j: nat)
    requires i < |p| && j < ciL
    ensures (Val(p) / Pow(2, biL * i + 8 * j)) % 256 == ByteOf(p[i], j)
  {
    hide Pow, Val;
    PowSmall();
    BitsOfLimb(p, i, 8 * j, 8);
  }

  /** What has been written once the bytes seen make the number `u`: nothing while
      they are all zero. */
  ghost function PairsSoFar(u: nat, last: bool): string {
    if u == 0 && !last then [] else HexPairs(u)
  }

  lemma PairsStep(u: nat, c: nat, last: bool)
    requires c < 256
    ensures u == 0 && c == 0 && !last ==> PairsSoFar(256 * u + c, last) == PairsSoFar(u, false)
    ensures !(u == 0 && c == 0 && !last) ==> PairsSoFar(256 * u + c, last) == PairsSoFar(u, false) + BytePair(c)
  {
    DivModUnique(256 * u + c, 256, u, c);
  }

  /** The two characters of a byte that is not skipped. */
  method PutByte(c: nat, buf: array<char>, pos: nat) returns (next: nat)
    requires c < 256 && pos + 2 <= buf.Length
    modifies buf
    ensures next == pos + 2 && Wrote(old(buf[..]), buf[..], pos, BytePair(c))
  {
    next := PutChar(buf, pos, DigitChar(c / 16));
    label mid:
    next := PutChar(buf, next, DigitChar(c % 16));
    WroteMore(old(buf[..]), old@mid(buf[..]), buf[..], pos, [DigitChar(c / 16)], [DigitChar(c % 16)]);
    assert [DigitChar(c / 16)] + [DigitChar(c % 16)] == BytePair(c);
  }

  lemma TopBytes(p: seq<limb>)
    ensures HighBits(Val(p), biL * |p|) == 0
  {
    hide Pow, Val;
    ValBound(p);
    PlaceFacts(|p|);
    DivModUnique(Val(p), Place(|p|), 0, Val(p));
  }

  lemma {:induction false} HexPairsMono(u: nat, v: nat)
    requires u <= v
    ensures |HexPairs(u)| <= |HexPairs(v)|
    decreases v
  {
    if u >= 256 {
      HexPairsMono(u / 256, v / 256);
    }
  }

  lemma HighBitsMono(v: nat, pos: nat)
    ensures HighBits(v, pos) <= v
  {
    hide Pow;
    DivMod(v, Pow(2, pos));
    MulMono(1, Pow(2, pos), HighBits(v, pos));
  }

  /** One byte of the hexadecimal path. `k` remembers whether anything has been
      written. */
  method HexByte(X: Mpi, i: nat, j: nat, k0: bool, buf: array<char>, start: nat, pos: nat, ghost before: seq<char>) returns (k: bool, next: nat)
    requires i < |X.p| && j < ciL && |X.p| > 0
    requires start + |HexPairs(X.Abs())| <= buf.Length
    requires k0 == (HighBits(X.Abs(), biL * i + 8 * j + 8) > 0)
    requires Wrote(before, buf[..], start, PairsSoFar(HighBits(X.Abs(), biL * i + 8 * j + 8), false))
    requires pos == start + |PairsSoFar(HighBits(X.Abs(), biL * i + 8 * j + 8), false)|
    modifies buf
    ensures i + j > 0 ==> k == (HighBits(X.Abs(), biL * i + 8 * j) > 0)
    ensures Wrote(before, buf[..], start, PairsSoFar(HighBits(X.Abs(), biL * i + 8 * j), i + j == 0))
    ensures next == start + |PairsSoFar(HighBits(X.Abs(), biL * i + 8 * j), i + j == 0)|
  {
    hide Pow, Val, HexPairs, Wrote, PairsSoFar, HighBits;
    var c := ByteOf(X.p[i], j);
    ghost var at := biL * i + 8 * j;
    ghost var v, u := X.Abs(), HighBits(X.Abs(), at + 8);
    ByteOfValue(X.p, i, j);
    HighBitsIs(v, at);
    PowSmall();
    HighBitsStep(v, at, 8);
    PairsStep(u, c, i + j == 0);
    HighBitsMono(v, at);
    HexPairsMono(HighBits(v, at), v);
    PairsBound(HighBits(v, at), i + j == 0);
    if c == 0 && !k0 && i + j != 0 {
      k, next := false, pos;
    } else {
      next := PutByte(c, buf, pos);
      WroteMore(before, old(buf[..]), buf[..], start, PairsSoFar(u, false), BytePair(c));
      k := true;
    }
  }

  lemma HighBitsIs(v: nat, pos: nat)
    ensures HighBits(v, pos) == v / Pow(2, pos)
  {}

  lemma PairsBound(u: nat, last: bool)
    ensures |PairsSoFar(u, last)| <= |HexPairs(u)|
  {}

  /** The hexadecimal path of `write_string`. */
  method WriteHex(X: Mpi, buf: array<char>, start: nat) returns (next: nat)
    requires X.p == [] || start + |HexPairs(X.Abs())| <= buf.Length
    requires start <= buf.Length
    modifies buf
    ensures var text := if X.p == [] then "" else HexPairs(X.Abs());
            Wrote(old(buf[..]), buf[..], start, text) && next == start + |text|
  {
    hide Pow, Val, HexPairs, Wrote, PairsSoFar, HighBits;
    ghost var v := X.Abs();
    next := start;
    WroteNothing(buf[..], start);
    TopBytes(X.p);
    PairsEnds(v);
    var k := false;
    var i: nat := |X.p|;
    while i > 0
      invariant i <= |X.p|
      invariant i > 0 || X.p == [] ==> k == (HighBits(v, biL * i) > 0) && Wrote(old(buf[..]), buf[..], start, PairsSoFar(HighBits(v, biL * i), false)) && next == start + |PairsSoFar(HighBits(v, biL * i), false)|
      invariant i == 0 && X.p != [] ==> Wrote(old(buf[..]), buf[..], start, PairsSoFar(HighBits(v, 0), true)) && next == start + |PairsSoFar(HighBits(v, 0), true)|
    {
      Distr(i - 1, 1, biL);
      var j: nat := ciL;
      assert 8 * ciL == biL;
      while j > 0
        invariant j <= ciL
        invariant i + j > 1 ==> k == (HighBits(v, biL * (i - 1) + 8 * j) > 0)
        invariant Wrote(old(buf[..]), buf[..], start, PairsSoFar(HighBits(v, biL * (i - 1) + 8 * j), i + j == 1))
        invariant next == start + |PairsSoFar(HighBits(v, biL * (i - 1) + 8 * j), i + j == 1)|
      {
        k, next := HexByte(X, i - 1, j - 1, k, buf, start, next, old(buf[..]));
        j := j - 1;
      }
      i := i - 1;
    }
  }

  lemma PairsEnds(v: nat)
    ensures PairsSoFar(0, false) == [] && PairsSoFar(HighBits(v, 0), true) == HexPairs(v)
  {
    DivModUnique(v, 1, v, 0);
  }

  /** The room `write_string` asks for. */
  ghost function Estimate(v: nat, radix: nat): nat {
    var n := BitLength(v);
    (if radix >= 16 then n / 2 / 2 else if radix >= 4 then n / 2 else n) + 3
  }

  /** Writes the text of X and a NUL. The caller's buffer is either smaller than
      the estimate, which is refused, or holds the whole text; `EstimateExact`
      says when the estimate itself is enough. */
  method WriteString(X: Mpi, radix: nat, buf: array<char>) returns (ret: Status, olen: nat)
    requires radix == 2 ==> |X.p| > 0
    requires 2 <= radix <= 16 ==> buf.Length < Estimate(X.Abs(), radix) || buf.Length > |TextOf(X.s, X.p, radix)|
    modifies buf
    ensures ret == if radix < 2 || radix > 16 then BadInputData else if buf.Length < Estimate(X.Abs(), radix) then BufferTooSmall else Ok
    ensures ret != Ok ==> unchanged(buf)
    ensures ret == BufferTooSmall ==> olen == Estimate(X.Abs(), radix)
    ensures ret == Ok ==> Wrote(old(buf[..]), buf[..], 0, TextOf(X.s, X.p, radix) + ['\0']) && olen == |TextOf(X.s, X.p, radix)| + 1
  {
    hide Pow, Val, BodyText, Wrote, BitLength;
    if radix < 2 || radix > 16 { return BadInputData, 0; }
    var n := BitLen(X);
    if radix >= 4 { n := n / 2; }
    if radix >= 16 { n := n / 2; }
    n := n + 3;
    if buf.Length < n { return BufferTooSmall, n; }
    ghost var b0 := buf[..];
    var p := WriteSign(X.s, buf);
    ghost var b1 := buf[..];
    p := WriteBody(X, radix, buf, p);
    ghost var b2 := buf[..];
    WroteMore(b0, b1, b2, 0, SignText(X.s), BodyText(X.p, radix));
    p := PutChar(buf, p, '\0');
    WroteMore(b0, b2, buf[..], 0, TextOf(X.s, X.p, radix), ['\0']);
    return Ok, p;
  }

  method WriteSign(s: sign, buf: array<char>) returns (p: nat)
    requires buf.Length > 0
    modifies buf
    ensures Wrote(old(buf[..]), buf[..], 0, SignText(s)) && p == |SignText(s)|
  {
    hide Wrote;
    p := 0;
    WroteNothing(buf[..], 0);
    if s == -1 { p := PutChar(buf, 0, '-'); }
  }

  method WriteBody(X: Mpi, radix: Radix, buf: array<char>, start: nat) returns (p: nat)
    requires radix == 2 ==> |X.p| > 0
    requires start + |BodyText(X.p, radix)| <= buf.Length
    modifies buf
    ensures Wrote(old(buf[..]), buf[..], start, BodyText(X.p, radix)) && p == start + |BodyText(X.p, radix)|
  {
    hide Pow, Val, HexPairs, Digits, Wrote;
    if radix == 16 {
      p := WriteHex(X, buf, start);
    } else {
      var T := new Mpi();
      Copy(T, X);
      if T.s == -1 { T.s := 1; }
      var _, next := WriteHlp(T, radix, buf, start);
      p := next;
    }
  }

  // ------------------------------------------------------------------- reading

  method GetDigit(radix: Radix, c: char) returns (ret: Status, d: limb)
    ensures ret == if DigitValue(c) < radix then Ok else InvalidCharacter
    ensures d == DigitValue(c)
  {
    hide Pow;
    BaseFacts();
    d := 255;
    if '0' <= c <= '9' { d := c as int - 0x30; }
    if 'A' <= c <= 'F' { d := c as int - 0x37; }
    if 'a' <= c <= 'f' { d := c as int - 0x57; }
    if d >= radix { return InvalidCharacter, d; }
    return Ok, d;
  }

  lemma {:induction false} DigitsValueCons(c: char, t: string, radix: nat)
    ensures DigitsValue([c] + t, radix) == DigitValue(c) * Pow(radix, |t|) + DigitsValue(t, radix)
  {
    hide Pow, DigitValue;
    if t == [] {
      OneDigit(c, radix);
      assert [c] + t == [c];
    } else {
      var n, last := |t| - 1, t[|t| - 1];
      DigitsValueCons(c, t[..n], radix);
      assert [c] + t == ([c] + t[..n]) + [last] && t == t[..n] + [last];
      DigitsValueSnoc([c] + t[..n], last, radix);
      DigitsValueSnoc(t[..n], last, radix);
      PowSucc(radix, n);
      ConsAlgebra(DigitValue(c), Pow(radix, n), DigitsValue(t[..n], radix), radix);
    }
  }

  lemma OneDigit(c: char, radix: nat)
    ensures Pow(radix, 0) == 1 && DigitsValue([c], radix) == DigitValue(c) && DigitsValue([], radix) == 0
  {
    assert [c][..0] == [];
  }

  lemma ConsAlgebra(d: int, p: int, v: int, b: int)
    ensures (d * p + v) * b == d * (b * p) + v * b
  {
    Distr(d * p, v, b);
    MulAssoc(d, p, b);
  }

  lemma {:induction false} DigitsValueBound(t: string, radix: Radix)
    requires AllDigits(t, radix)
    ensures DigitsValue(t, radix) < Pow(radix, |t|)
  {
    if t != [] {
      var n := |t| - 1;
      DigitsValueBound(t[..n], radix);
      PowSucc(radix, n);
      MulMono(DigitsValue(t[..n], radix) + 1, Pow(radix, n), radix);
      Distr(DigitsValue(t[..n], radix), 1, radix);
    }
  }

  /** Adding the next nibble: everything from its position up is still zero, so
      the C code's bitwise or is an addition. */
  lemma NibbleFits(p: seq<limb>, q: nat, r: nat, d: nat)
    requires q < |p| && d < 16 && 4 * r + 4 <= biL && Val(p) < Pow(2, biL * q + 4 * r)
    ensures p[q] + d * Pow(2, 4 * r) < Base()
  {
    hide Pow, Val;
    var c := Pow(2, 4 * r);
    PlaceFacts(q);
    PowAdd(2, biL * q, 4 * r);
    LimbBelow(p, q, c);
    PowAdd(2, 4 * r, 4);
    PowMono(2, 4 * r + 4, biL);
    PowSmall();
    RoomForNibble(p[q], d, c);
  }

  lemma LimbBelow(p: seq<limb>, q: nat, c: nat)
    requires q < |p| && Val(p) < Place(q) * c
    ensures p[q] < c
  {
    hide Pow, Val;
    ValSplit(p, q);
    ValCons(p, q);
    MulMono(p[q], Val(p[q..]), Place(q));
    MulCancelLt(p[q], c, Place(q));
  }

  lemma RoomForNibble(x: nat, d: nat, c: nat)
    requires x < c && d < 16
    ensures 0 <= d * c && x + d * c < c * 16
  {
    MulMono(d + 1, 16, c);
    Distr(d, 1, c);
  }

  /** One character of the hexadecimal path, at digit `j` from the end. */
  method ReadNibble(X: Mpi, j: nat, d: limb, ghost done: string)
    requires d < 16 && |done| == j && AllDigits(done, 16) && X.Abs() == DigitsValue(done, 16)
    requires j / (2 * ciL) < |X.p|
    modifies X`p
    ensures |X.p| == old(|X.p|) && X.Abs() == old(X.Abs()) + d * Pow(16, j)
  {
    hide Pow, Val, DigitsValue;
    var q, r := j / (2 * ciL), j % (2 * ciL);
    ghost var p0, c := X.p, Pow(2, 4 * r);
    NibblePosition(j, q, r);
    DigitsValueBound(done, 16);
    NibbleFits(p0, q, r, d);
    MulNonNeg(d, c);
    var shifted := d * Pow(2, 4 * r);
    X.p := X.p[q := X.p[q] + shifted];
    ValUpdate(p0, q, X.p[q]);
    MulAssoc(d, c, Place(q));
  }

  lemma NibblePosition(j: nat, q: nat, r: nat)
    requires q == j / (2 * ciL) && r == j % (2 * ciL)
    ensures 4 * r + 4 <= biL && biL * q + 4 * r == 4 * j
    ensures Pow(16, j) == Pow(2, biL * q + 4 * r) == Pow(2, 4 * r) * Place(q)
  {
    hide Pow;
    DivMod(j, 2 * ciL);
    assert biL == 4 * (2 * ciL);
    MulAssoc(4, 2 * ciL, q);
    SixteenPower(j);
    PlaceFacts(q);
    PowAdd(2, biL * q, 4 * r);
  }

  lemma SixteenPower(j: nat)
    ensures Pow(16, j) == Pow(2, 4 * j)
  {
    PowSmall();
    PowMul(2, 4, j);
  }

  lemma SuffixCons(s: string, i: nat)
    requires 0 < i <= |s|
    ensures s[i - 1..] == [s[i - 1]] + s[i..]
    ensures AllDigits(s[i..], 16) && DigitValue(s[i - 1]) < 16 ==> AllDigits(s[i - 1..], 16)
    ensures AllDigits(s[i - 1..], 16) ==> DigitValue(s[i - 1]) < 16
  {
    if AllDigits(s[i - 1..], 16) { assert DigitValue(s[i - 1..][0]) < 16; }
  }

  /** A character that is no digit, anywhere but as a leading minus, spoils the
      text. */
  lemma BadCharacter(s: string, i: nat, radix: nat)
    requires i < |s| && DigitValue(s[i]) >= radix && !(i == 0 && s[0] == '-')
    ensures !ValidText(s, radix)
  {
    if IsNegative(s) { assert Magnitudes(s)[i - 1] == s[i]; }
  }

  method ReadHexChar(X: Mpi, s: string, i: nat, j: nat) returns (ret: Status)
    requires 0 < i <= |s| && i + j == |s| && !(i == 1 && s[0] == '-')
    requires AllDigits(s[i..], 16) && X.Abs() == DigitsValue(s[i..], 16) && j / (2 * ciL) < |X.p|
    modifies X`p
    ensures |X.p| == old(|X.p|)
    ensures ret == Ok ==> AllDigits(s[i - 1..], 16) && X.Abs() == DigitsValue(s[i - 1..], 16)
    ensures ret != Ok ==> ret == InvalidCharacter && !ValidText(s, 16)
  {
    hide Pow, Val, DigitsValue, AllDigits, ValidText, DigitValue;
    SuffixCons(s, i);
    var st, d := GetDigit(16, s[i - 1]);
    if st != Ok {
      BadCharacter(s, i - 1, 16);
      return st;
    }
    DigitsValueCons(s[i - 1], s[i..], 16);
    ReadNibble(X, j, d, s[i..]);
    return Ok;
  }

  /** The hexadecimal path: from the last character back, one nibble each. */
  method ReadHex(X: Mpi, s: string) returns (ret: Status)
    modifies X
    ensures ret == if ValidText(s, 16) then Ok else InvalidCharacter
    ensures ret == Ok ==> X.Value() == TextValue(s, 16)
  {
    hide Pow, Val, DigitsValue, AllDigits, ValidText, TextValue, BitsToLimbs, DigitValue;
    RadixIsSmall();
    var n := BitsToLimbs(4 * |s|);
    BitsToLimbsFits(4 * |s|);
    Grow(X, n);
    Lset(X, 0);
    EmptyDigits(16);
    assert s[|s|..] == [];
    var i: nat, j: nat := |s|, 0;
    while i > 0
      invariant i + j == |s| && X.s == 1 && |X.p| >= n
      invariant AllDigits(s[i..], 16) && X.Abs() == DigitsValue(s[i..], 16)
    {
      if i == 1 && s[0] == '-' {
        X.s := -1;
        WholeText(s);
        return Ok;
      }
      NibbleLimb(j, |s|, n);
      ret := ReadHexChar(X, s, i, j);
      if ret != Ok { return; }
      i := i - 1;
      j := j + 1;
    }
    assert s[0..] == s;
    WholeText(s);
    NotNegative(s);
    return Ok;
  }

  lemma NibbleLimb(j: nat, len: nat, n: nat)
    requires j < len && 4 * len <= biL * n
    ensures j / (2 * ciL) < n
  {
    DivMod(j, 2 * ciL);
    var q := j / (2 * ciL);
    if q >= n { MulMono(n, q, 2 * ciL); MulAssoc(4, 2 * ciL, n); }
  }

  lemma WholeText(s: string)
    ensures IsNegative(s) && AllDigits(s[1..], 16) ==> ValidText(s, 16) && TextValue(s, 16) == 0 - DigitsValue(s[1..], 16)
    ensures !IsNegative(s) && AllDigits(s, 16) ==> ValidText(s, 16) && TextValue(s, 16) == DigitsValue(s, 16)
  {}

  lemma NotNegative(s: string)
    requires AllDigits(s, 16)
    ensures !IsNegative(s)
  {}

  /** The other radices: multiply and add, or subtract once the sign is known. */
  method ReadDigits(X: Mpi, radix: Radix, s: string) returns (ret: Status)
    modifies X
    ensures ret == if ValidText(s, radix) then Ok else InvalidCharacter
    ensures ret == Ok ==> X.Value() == TextValue(s, radix)
  {
    hide Pow, Val, DigitsValue, AllDigits, ValidText, TextValue;
    RadixIsSmall();
    Lset(X, 0);
    EmptyText(radix);
    assert s[..0] == [];
    var T := new Mpi();
    var i: nat := 0;
    while i < |s|
      invariant i <= |s| && |X.p| > 0 && fresh(T)
      invariant ValidText(s[..i], radix) && X.Value() == TextValue(s[..i], radix)
      invariant X.s == if IsNegative(s[..i]) then -1 else 1
    {
      assert s[..i + 1] == s[..i] + [s[i]];
      if i == 0 && s[i] == '-' {
        X.s := -1;
        MinusText(s, radix);
      } else {
        var st, d := GetDigit(radix, s[i]);
        if st != Ok {
          BadCharacter(s, i, radix);
          return st;
        }
        TextSnoc(s, i, radix);
        ReadStep(X, T, radix, d);
      }
      i := i + 1;
    }
    assert s[..|s|] == s;
    return Ok;
  }

  lemma EmptyText(radix: Radix)
    ensures ValidText([], radix) && TextValue([], radix) == 0
  {}

  lemma MinusText(s: string, radix: Radix)
    requires |s| > 0 && s[0] == '-'
    ensures s[..0] == [] && ValidText(s[..1], radix) && TextValue(s[..1], radix) == 0 && IsNegative(s[..1])
    ensures TextValue([], radix) == 0
  {
    assert Magnitudes(s[..1]) == [];
  }

  lemma TextSnoc(s: string, i: nat, radix: Radix)
    requires i < |s| && ValidText(s[..i], radix) && DigitValue(s[i]) < radix
    ensures ValidText(s[..i + 1], radix) && IsNegative(s[..i + 1]) == IsNegative(s[..i])
    ensures TextValue(s[..i + 1], radix) == TextValue(s[..i], radix) * radix + (if IsNegative(s[..i]) then 0 - DigitValue(s[i]) else DigitValue(s[i]))
  {
    hide DigitsValue;
    var t, c := s[..i], s[i];
    assert s[..i + 1] == t + [c];
    assert c != '-';
    assert Magnitudes(t + [c]) == Magnitudes(t) + [c] by {
      if IsNegative(t) { assert (t + [c])[1..] == t[1..] + [c]; }
    }
    DigitsValueSnoc(Magnitudes(t), c, radix);
    SignedScale(if IsNegative(t) then -1 else 1, DigitsValue(Magnitudes(t), radix), radix);
  }

  /** `T = X * radix; X = T + d` or `X = T - d`. */
  method ReadStep(X: Mpi, T: Mpi, radix: Radix, d: limb)
    requires X != T && |X.p| > 0 && d < radix
    modifies X, T
    ensures |X.p| > 0 && X.s == old(X.s)
    ensures X.Value() == old(X.Value()) * radix + (if old(X.s) == 1 then d else 0 - d)
  {
    hide Pow, Val;
    RadixIsSmall();
    BaseFacts();
    MulInt(T, X, radix);
    if X.s == 1 {
      AddInt(X, T, d);
    } else {
      SubInt(X, T, d);
    }
  }

  /** Parses `s`. The sign of X after "-" or "-0" is negative, its value zero. */
  method ReadString(X: Mpi, radix: nat, s: string) returns (ret: Status)
    modifies X
    ensures ret == if radix < 2 || radix > 16 then BadInputData else if ValidText(s, radix) then Ok else InvalidCharacter
    ensures ret == BadInputData ==> unchanged(X)
    ensures ret == Ok ==> X.Value() == TextValue(s, radix)
  {
    if radix < 2 || radix > 16 { return BadInputData; }
    if radix == 16 {
      ret := ReadHex(X, s);
    } else {
      ret := ReadDigits(X, radix, s);
    }
  }

  // ------------------------------------------------------ the buffer estimate

  lemma {:induction false} DigitsCount(v: nat, radix: Radix, m: nat)
    requires m > 0 && v < Pow(radix, m)
    ensures |Digits(v, radix)| <= m
    decreases m
  {
    hide Pow;
    DivMod(v, radix);
    var q := Quo(v, radix);
    if q > 0 {
      PowSucc(radix, m - 1);
      MulCancelLt(q, Pow(radix, m - 1), radix);
      if m == 1 { PowOne(radix); }
      DigitsCount(q, radix, m - 1);
    }
  }

  lemma {:induction false} PowMonoBase(a: nat, b: nat, e: nat)
    requires a <= b
    ensures Pow(a, e) <= Pow(b, e)
  {
    if e > 0 {
      PowMonoBase(a, b, e - 1);
      MulMono(a, b, Pow(a, e - 1));
      MulMono(Pow(a, e - 1), Pow(b, e - 1), b);
    }
  }

  /** Any radix of at least four needs at most one digit for two bits. */
  lemma DigitsBound(v: nat, radix: Radix)
    ensures |Digits(v, radix)| <= (if BitLength(v) == 0 then 1 else BitLength(v))
    ensures radix >= 4 ==> |Digits(v, radix)| <= (if BitLength(v) == 0 then 1 else (BitLength(v) + 1) / 2)
  {
    hide Pow, Digits, BitLength;
    var n := BitLength(v);
    BitLengthBounds(v);
    var m := if n == 0 then 1 else n;
    PowMono(2, n, m);
    PowMonoBase(2, radix, m);
    DigitsCount(v, radix, m);
    if radix >= 4 {
      var h := if n == 0 then 1 else (n + 1) / 2;
      PowMono(2, n, 2 * h);
      PowMul(2, 2, h);
      PowSmall();
      PowMonoBase(4, radix, h);
      DigitsCount(v, radix, h);
    }
  }

  /** Two digits for every started byte. */
  lemma {:induction false} HexPairsCount(v: nat)
    ensures |HexPairs(v)| == if v == 0 then 2 else 2 * ((BitLength(v) + 7) / 8)
  {
    hide Pow, BitLength;
    BitLengthZero(v);
    if v >= 256 {
      HexPairsCount(v / 256);
      BitLengthByte(v);
      BitLengthZero(v / 256);
    } else if v > 0 {
      BitLengthByte(v);
    }
  }

  /** When the estimate leaves room for the text and its NUL: always, except for a
      negative number in hexadecimal whose top byte has fewer than four
      significant bits (negative zero included). There it is one short. */
  lemma EstimateExact(s: sign, p: seq<limb>, radix: Radix)
    ensures Estimate(Val(p), radix) > |TextOf(s, p, radix)|
       <==> !(radix == 16 && s == -1 && p != [] && (Val(p) == 0 || BitLength(Val(p)) % 8 in {1, 2, 3}))
  {
    hide Val, Digits, HexPairs, BitLength, Pow;
    var v := Val(p);
    var n := BitLength(v);
    BitLengthZero(v);
    if radix == 16 {
      HexPairsCount(v);
      HexEstimate(n, if s == -1 then 1 else 0);
    } else {
      DigitsBound(v, radix);
      PlainEstimate(n);
    }
  }

  lemma HexEstimate(n: nat, sg: nat)
    requires sg <= 1
    ensures n > 0 ==> (n / 2 / 2 + 3 > sg + 2 * ((n + 7) / 8) <==> !(sg == 1 && n % 8 in {1, 2, 3}))
  {
    DivMod(n, 8);
    var a, b := n / 8, n % 8;
    DivModUnique(n / 2, 2, 2 * a + b / 4, (b / 2) % 2) by { DivModUnique(n, 2, 4 * a + b / 2, b % 2); }
    DivModUnique(n + 7, 8, if b == 0 then a else a + 1, if b == 0 then 7 else b - 1);
  }

  lemma PlainEstimate(n: nat)
    ensures n / 2 + 3 >= 2 + (if n == 0 then 1 else (n + 1) / 2)
  {}
}
