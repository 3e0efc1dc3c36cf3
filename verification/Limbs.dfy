/** Limb vectors: little-endian sequences of machine words and the number each
    one stands for. */
module Limbs {
  import opened Arith

  /** Bits in a limb; the library is built with 32-bit or 64-bit limbs. */
  type LimbWidth = w: nat | w == 32 || w == 64 witness 32

  const biL: LimbWidth

  /** Whether the build has a double-width integer type (MBEDTLS_HAVE_UDBL). */
  const HaveUdbl: bool

  const ciL: nat := biL / 8
  const biH: nat := biL / 2

  function Base(): nat {
    Pow(2, biL)
  }

  function HalfBase(): nat {
    Pow(2, biH)
  }

  type limb = x: nat | x < Base() witness 0

  type sign = s: int | s == 1 || s == -1 witness 1

  lemma BaseFacts()
    ensures Base() == HalfBase() * HalfBase()
    ensures HalfBase() >= 65536
    ensures Base() >= 65536 * 65536
    ensures Base() == 2 * Pow(2, biL - 1)
    ensures HalfBase() == 2 * Pow(2, biH - 1)
  {
    PowAdd(2, biH, biH);
    PowSmall();
    PowAdd(2, 8, 8);
    PowMono(2, 16, biH);
    MulMono(65536, HalfBase(), 65536);
    MulMono(65536, HalfBase(), HalfBase());
  }

  /** Place value of limb `i`. */
  function Place(i: nat): (r: nat)
    ensures r > 0
  {
    Pow(Base(), i)
  }

  lemma PlaceFacts(i: nat)
    ensures Place(i) > 0
    ensures Place(i + 1) == Base() * Place(i)
    ensures Place(i) == Pow(2, biL * i)
  {
    PowMul(2, biL, i);
  }

  lemma PlaceZero()
    ensures Place(0) == 1 && Place(1) == Base()
  {}

  lemma PlaceAdd(i: nat, j: nat)
    ensures Place(i + j) == Place(i) * Place(j)
  {
    PowAdd(Base(), i, j);
  }

  lemma PlaceMono(i: nat, j: nat)
    requires i <= j
    ensures 0 < Place(i) <= Place(j)
  {
    PlaceFacts(i);
    PowMono(Base(), i, j);
  }

  /** The number `c` in limb position `i`: a pending carry, or minus a borrow. */
  ghost function At(c: int, i: nat): int {
    c * Place(i)
  }

  // -------------------------------------------------------- single-limb words

  function WrapAdd(x: limb, y: limb): limb {
    if x + y < Base() then x + y else x + y - Base()
  }

  function WrapSub(x: limb, y: limb): limb {
    if x >= y then x - y else x - y + Base()
  }

  function WrapMul(x: limb, y: limb): limb {
    (x * y) % Base()
  }

  /** The two halves of a limb. */
  function LowHalf(x: limb): (r: limb)
    ensures r < HalfBase()
  {
    BaseFacts();
    x % HalfBase()
  }

  function HighHalf(x: limb): (r: limb)
    ensures r < HalfBase()
    ensures x == r * HalfBase() + LowHalf(x)
  {
    BaseFacts();
    DivMod(x, HalfBase());
    var q := x / HalfBase();
    assert q < HalfBase() by {
      if q >= HalfBase() { MulMono(HalfBase(), q, HalfBase()); }
    }
    assert q < Base() by { MulMono(1, HalfBase(), HalfBase()); }
    q
  }

  // ------------------------------------------------------------------- values

  ghost function Val(s: seq<limb>): nat {
    if s == [] then 0 else s[0] + Base() * Val(s[1..])
  }

  lemma {:induction false} ValAppend(s: seq<limb>, t: seq<limb>)
    ensures Val(s + t) == Val(s) + Place(|s|) * Val(t)
  {
    if s == [] {
      assert s + t == t;
    } else {
      assert (s + t)[1..] == s[1..] + t;
      ValAppend(s[1..], t);
      MulAssoc(Base(), Place(|s| - 1), Val(t));
      Distr(Val(s[1..]), Place(|s| - 1) * Val(t), Base());
    }
  }

  lemma ValSplit(s: seq<limb>, i: nat)
    requires i <= |s|
    ensures Val(s) == Val(s[..i]) + Place(i) * Val(s[i..])
  {
    assert s == s[..i] + s[i..];
    ValAppend(s[..i], s[i..]);
  }

  lemma ValOne(x: limb)
    ensures Val([x]) == x
  {
    assert [x][1..] == [];
  }

  lemma ValSnoc(s: seq<limb>, i: nat)
    requires i < |s|
    ensures Val(s[..i + 1]) == Val(s[..i]) + s[i] * Place(i)
  {
    assert s[..i + 1] == s[..i] + [s[i]];
    ValAppend(s[..i], [s[i]]);
    ValOne(s[i]);
  }

  lemma ValCons(s: seq<limb>, i: nat)
    requires i < |s|
    ensures Val(s[i..]) == s[i] + Base() * Val(s[i + 1..])
  {
    assert s[i..][1..] == s[i + 1..];
  }

  lemma {:induction false} ValBound(s: seq<limb>)
    ensures Val(s) < Place(|s|)
  {
    if s != [] {
      ValBound(s[1..]);
      var v, q, b := Val(s[1..]), Place(|s| - 1), Base();
      MulMono(v, q - 1, b);
      Distr(q, 1, b);
    }
  }

  lemma {:induction false} ValUpdate(s: seq<limb>, i: nat, x: limb)
    requires i < |s|
    ensures Val(s[i := x]) == Val(s) + (x - s[i]) * Place(i)
  {
    var t := s[i := x];
    assert t[..i] == s[..i] && t[i + 1..] == s[i + 1..];
    ValSplit(s, i);
    ValSplit(t, i);
    ValCons(s, i);
    ValCons(t, i);
    Distr(x, Base() * Val(s[i + 1..]), Place(i));
    Distr(s[i], Base() * Val(s[i + 1..]), Place(i));
    Distr(x, s[i], Place(i));
  }

  function Zeros(n: nat): (s: seq<limb>)
    ensures |s| == n && forall i :: 0 <= i < n ==> s[i] == 0
  {
    seq(n, _ => 0 as limb)
  }

  predicate AllZero(s: seq<limb>) {
    forall i :: 0 <= i < |s| ==> s[i] == 0
  }

  lemma {:induction false} ValZero(s: seq<limb>)
    ensures AllZero(s) <==> Val(s) == 0
  {
    if s != [] {
      ValZero(s[1..]);
      if Val(s[1..]) > 0 { MulPos(Base(), Val(s[1..])); }
      assert AllZero(s) <==> s[0] == 0 && AllZero(s[1..]) by {
        if s[0] == 0 && AllZero(s[1..]) {
          forall i | 0 <= i < |s|
            ensures s[i] == 0
          {
            if i > 0 { assert s[i] == s[1..][i - 1]; }
          }
        }
      }
    }
  }

  /** Zero limbs on top do not count. */
  lemma ValTopZeros(s: seq<limb>, i: nat)
    requires i <= |s| && AllZero(s[i..])
    ensures Val(s) == Val(s[..i])
  {
    ValSplit(s, i);
    ValZero(s[i..]);
    assert Place(i) * 0 == 0;
  }

  /** A value below `Place(i)` has only zero limbs from `i` on. */
  lemma ValSmall(s: seq<limb>, i: nat)
    requires i <= |s| && Val(s) < Place(i)
    ensures AllZero(s[i..]) && Val(s[..i]) == Val(s)
  {
    ValSplit(s, i);
    if Val(s[i..]) > 0 {
      MulMono(1, Val(s[i..]), Place(i));
    }
    ValZero(s[i..]);
    ValTopZeros(s, i);
  }

  lemma ValTop(s: seq<limb>, i: nat)
    requires i < |s| && s[i] != 0
    ensures Val(s) >= Place(i)
  {
    hide Pow, Val;
    assert s[i..][0] == s[i];
    if Val(s) < Place(i) { ValSmall(s, i); }
  }

  /** Equal-length vectors that agree above `i` compare as their limbs at `i`. */
  lemma ValCompare(s: seq<limb>, t: seq<limb>, i: nat)
    requires i < |s| == |t| && s[i + 1..] == t[i + 1..] && s[i] < t[i]
    ensures Val(s) < Val(t)
  {
    hide Pow, Val;
    ValSplit(s, i + 1);
    ValSplit(t, i + 1);
    ValSnoc(s, i);
    ValSnoc(t, i);
    ValBound(s[..i]);
    Distr(s[i], 1, Place(i));
    MulMono(s[i] + 1, t[i], Place(i));
  }

  lemma DigitsUnique(x: int, u: int, y: int, v: int, b: int)
    requires 0 <= x < b && 0 <= y < b && x + b * u == y + b * v
    ensures x == y && u == v
  {
    DivModUnique(x + b * u, b, u, x);
    DivModUnique(x + b * u, b, v, y);
  }

  /** A vector is determined by its length and value. */
  lemma {:induction false} ValInjective(s: seq<limb>, t: seq<limb>)
    requires |s| == |t| && Val(s) == Val(t)
    ensures s == t
  {
    if s != [] {
      var b := Base();
      var u, v := Val(s[1..]), Val(t[1..]);
      DigitsUnique(s[0], u, t[0], v, b);
      ValInjective(s[1..], t[1..]);
      assert s == [s[0]] + s[1..] && t == [t[0]] + t[1..];
    }
  }

  lemma ValParity(s: seq<limb>)
    requires |s| > 0
    ensures Val(s) % 2 == s[0] % 2
    ensures Cong(Val(s), s[0], Base())
  {
    var h, v := Pow(2, biL - 1), Val(s[1..]);
    MulAssoc(2, h, v);
    ParityStep(s[0], h * v);
    CongIntro(Val(s), s[0], Base(), v);
  }

  lemma ParityStep(x: int, k: int)
    ensures (x + 2 * k) % 2 == x % 2
  {}

  /** Number of limbs up to the most significant non-zero one. */
  function Used(s: seq<limb>): (n: nat)
    ensures n <= |s|
    ensures n > 0 ==> s[n - 1] != 0
    ensures forall i :: n <= i < |s| ==> s[i] == 0
  {
    if s == [] then 0
    else if s[|s| - 1] != 0 then |s|
    else Used(s[..|s| - 1])
  }

  lemma ValUsed(s: seq<limb>)
    ensures Val(s) == Val(s[..Used(s)])
    ensures Val(s) < Place(Used(s))
    ensures Used(s) == 0 <==> Val(s) == 0
    ensures Used(s) > 0 ==> Val(s) >= Place(Used(s) - 1)
  {
    hide Pow, Val;
    var n := Used(s);
    ValZero(s);
    ValTopZeros(s, n);
    ValBound(s[..n]);
    if n > 0 {
      ValTop(s, n - 1);
      PlaceFacts(n - 1);
    }
  }

  /** More significant limbs means a larger value. */
  lemma UsedMono(s: seq<limb>, t: seq<limb>)
    requires Used(s) < Used(t)
    ensures Val(s) < Val(t)
  {
    hide Pow, Val;
    ValUsed(s);
    ValUsed(t);
    PlaceMono(Used(s), Used(t) - 1);
  }
}
