/** Dividing two limbs by one: the double-width form and the half-limb form that
    never leaves a single limb (Knuth, Algorithm D with half-limb digits). */
module WordDiv {
  import opened Arith
  import opened Limbs
  import opened MpiShift

  /** What a two-by-one division has to deliver: all ones on overflow or zero
      divisor, otherwise the exact quotient and remainder. */
  ghost predicate IsWordDivision(u1: limb, u0: limb, d: limb, q: limb, r: limb) {
    if d == 0 || u1 >= d then q == Base() - 1 && r == Base() - 1
    else u1 * Base() + u0 == q * d + r && r < d
  }

  lemma WordDivisionUnique(u1: limb, u0: limb, d: limb, q: limb, r: limb)
    requires IsWordDivision(u1, u0, d, q, r) && u1 < d
    ensures q == (u1 * Base() + u0) / d && r == (u1 * Base() + u0) % d
  {
    DivModUnique(u1 * Base() + u0, d, q, r);
  }

  /** The branch compiled when a double-width type exists. */
  method DivWide(u1: limb, u0: limb, d: limb) returns (q: limb, r: limb)
    ensures IsWordDivision(u1, u0, d, q, r)
  {
    hide Pow;
    BaseFacts();
    if d == 0 || u1 >= d { return Base() - 1, Base() - 1; }
    var dividend := u1 * Base() + u0;
    var quotient := dividend / d;
    DivMod(dividend, d);
    QuotientIsLimb(u1, u0, d, quotient);
    if quotient > Base() - 1 { quotient := Base() - 1; }
    q := quotient;
    r := dividend - quotient * d;
  }

  lemma QuotientIsLimb(u1: limb, u0: limb, d: limb, q: nat)
    requires u1 < d && q * d <= u1 * Base() + u0
    ensures q < Base()
  {
    hide Pow;
    if q >= Base() {
      MulMono(Base(), q, d);
      MulMono(u1 + 1, d, Base());
      Distr(u1, 1, Base());
    }
  }

  // ------------------------------------------------------------ one half digit

  /** While a digit is being corrected: `r0` is what `q` high digits leave of
      `u`, and `q` is not below the true digit. */
  ghost predicate Estimate(q: int, r0: int, u: nat, w: nat, d1: nat, d0: nat, h: nat) {
    q >= 0 && r0 >= 0 && u == q * d1 + r0 && (q + 1) * (d1 * h + d0) > u * h + w
  }

  lemma EstimateStart(u: nat, w: nat, d1: nat, d0: nat, h: nat)
    requires d1 > 0 && w < h
    ensures Estimate(u / d1, u - d1 * (u / d1), u, w, d1, d0, h)
  {
    DivMod(u, d1);
    var q := u / d1;
    Distr(q, 1, d1);
    MulMono(u + 1, (q + 1) * d1, h);
    Distr(u, 1, h);
    Distr(d1 * h, d0, q + 1);
    MulAssoc(q + 1, d1, h);
    MulNonNeg(q + 1, d0);
  }

  /** A correction step happens only when the estimate is too large. */
  lemma EstimateStep(q: nat, r0: int, u: nat, w: nat, d1: nat, d0: nat, h: nat)
    requires Estimate(q, r0, u, w, d1, d0, h) && w < h && u < d1 * h + d0
    requires q >= h || q * d0 > h * r0 + w
    ensures q > 0 && Estimate(q - 1, r0 + d1, u, w, d1, d0, h)
  {
    var d := d1 * h + d0;
    if q >= h {
      MulMono(h, q, d);
      MulMono(u + 1, d, h);
      Distr(u, 1, h);
    } else {
      SplitEstimate(q, r0, u, d1, d0, h);
      MulNonNeg(h, r0);
    }
    assert q * d > u * h + w;
    Distr(q, 1, d1);
  }

  lemma SplitEstimate(q: int, r0: int, u: int, d1: int, d0: int, h: int)
    requires u == q * d1 + r0
    ensures q * (d1 * h + d0) == u * h - h * r0 + q * d0
  {
    Distr(d1 * h, d0, q);
    MulAssoc(q, d1, h);
    Distr(q * d1, r0, h);
  }

  /** Leaving the loop, by its condition or by the break, the estimate fits. */
  lemma EstimateFits(q: nat, r0: int, u: nat, w: nat, d1: nat, d0: nat, h: nat)
    requires Estimate(q, r0, u, w, d1, d0, h)
    requires 0 < h && d0 < h && w < h && u < d1 * h + d0
    requires (q < h && q * d0 <= h * r0 + w) || r0 >= h
    ensures q < h && q * (d1 * h + d0) <= u * h + w < (q + 1) * (d1 * h + d0)
  {
    SplitEstimate(q, r0, u, d1, d0, h);
    if r0 >= h {
      if q >= h { MulMono(h, q, d1); }
      MulMono(q, h, d0);
      MulMono(d0, h, h);
      MulMono(h, r0, h);
    }
  }

  lemma EstimateNoWrap(q: limb, r0: limb, w: limb, d0: limb, h: limb)
    requires h == HalfBase() && q < h && r0 < h && w < h && d0 < h
    ensures WrapMul(q, d0) == q * d0
    ensures WrapAdd(WrapMul(h, r0), w) == h * r0 + w
  {
    hide Pow;
    BaseFacts();
    ProductBelow(q, d0, h, h);
    MulMono(r0, h - 1, h);
    Distr(h, 1, h);
    MulNonNeg(h, r0);
    DivModUnique(q * d0, Base(), 0, q * d0);
    DivModUnique(h * r0, Base(), 0, h * r0);
  }

  lemma ProductBelow(x: int, y: int, a: int, b: int)
    requires 0 <= x < a && 0 <= y <= b && 0 < b
    ensures 0 <= x * y < a * b
  {
    MulNonNeg(x, y);
    MulMono(y, b, x);
    MulStrict(x, a, b);
  }

  lemma FirstEstimateIsLimb(u: limb, d1: limb)
    requires d1 > 0
    ensures u / d1 <= u && 0 <= u - (u / d1) * d1 < d1
  {
    hide Pow;
    DivMod(u, d1);
    MulMono(1, d1, u / d1);
  }

  /** One digit of the quotient: estimate from the high half of the divisor, then
      step down while the low half says the estimate is too large. */
  method HalfDigit(u: limb, w: limb, d1: limb, d0: limb) returns (q: limb)
    requires w < HalfBase() && d0 < HalfBase() && d1 < HalfBase() && 0 < d1
    requires u < d1 * HalfBase() + d0 < Base()
    ensures q < HalfBase()
    ensures q * (d1 * HalfBase() + d0) <= u * HalfBase() + w < (q + 1) * (d1 * HalfBase() + d0)
  {
    hide Pow, Estimate, WrapMul, WrapAdd;
    BaseFacts();
    var h: limb := HalfBase() by { MulStrict(1, HalfBase(), HalfBase()); }
    EstimateStart(u, w, d1, d0, h);
    FirstEstimateIsLimb(u, d1);
    Doubled(h);
    q := u / d1;
    var r0: limb := u - d1 * q;
    var stop := false;
    while !stop
      invariant Estimate(q, r0, u, w, d1, d0, h)
      invariant !stop ==> r0 < h
      invariant stop ==> (q < h && q * d0 <= h * r0 + w) || r0 >= h
      decreases !stop, q
    {
      if q < h { EstimateNoWrap(q, r0, w, d0, h); }
      if q >= h || WrapMul(q, d0) > WrapAdd(WrapMul(h, r0), w) {
        EstimateStep(q, r0, u, w, d1, d0, h);
        q := q - 1;
        r0 := r0 + d1;
        if r0 >= h { stop := true; }
      } else {
        stop := true;
      }
    }
    EstimateFits(q, r0, u, w, d1, d0, h);
  }

  lemma Doubled(h: int)
    requires h == HalfBase()
    ensures 2 * h <= Base()
  {
    hide Pow;
    BaseFacts();
    MulMono(2, h, h);
  }

  // ------------------------------------------------------------- normalization

  /** The bits of u0 that move into the high word: `u0 >> (biL - s)`, masked to
      zero when s is zero. */
  function MovedBits(u0: limb, s: nat): limb
    requires s < biL
  {
    if s > 0 then ShiftLimbRight(u0, biL - s) else 0
  }

  lemma MovedBitsExact(u0: limb, s: nat)
    requires s < biL
    ensures MovedBits(u0, s) < Pow(2, s)
    ensures MovedBits(u0, s) * Base() + ShiftLimbLeft(u0, s) == u0 * Pow(2, s)
  {
    hide Pow;
    if s > 0 {
      ShiftLeftWord(u0, s);
    } else {
      PowOne(2);
      DivModUnique(u0, Base(), 0, u0);
    }
  }

  /** The leading bit of the divisor comes to the top and nothing is lost. */
  lemma NormalizedDivisor(d: limb, s: nat)
    requires d > 0 && s == biL - BitLength(d) && s < biL
    ensures ShiftLimbLeft(d, s) == d * Pow(2, s) >= Pow(2, biL - 1)
  {
    hide Pow, BitLength;
    BitLengthBounds(d);
    var c := Pow(2, s);
    PowAdd(2, s, biL - s);
    PowAdd(2, s, biL - s - 1);
    MulStrict(d, Pow(2, biL - s), c);
    MulMono(Pow(2, biL - s - 1), d, c);
    MulNonNeg(d, c);
    DivModUnique(d * c, Base(), 0, d * c);
  }

  /** Normalizing changes neither the quotient nor the order of dividend and
      divisor. */
  lemma Normalized(u1: limb, u0: limb, d: limb, s: nat)
    requires u1 < d && s < biL && ShiftLimbLeft(d, s) == d * Pow(2, s)
    ensures ShiftLimbLeft(u1, s) + MovedBits(u0, s) < ShiftLimbLeft(d, s)
    ensures (ShiftLimbLeft(u1, s) + MovedBits(u0, s)) * Base() + ShiftLimbLeft(u0, s) == (u1 * Base() + u0) * Pow(2, s)
  {
    hide Pow, MovedBits;
    var c := Pow(2, s);
    MovedBitsExact(u0, s);
    MulMono(u1 + 1, d, c);
    Distr(u1, 1, c);
    MulNonNeg(u1, c);
    DivModUnique(u1 * c, Base(), 0, u1 * c);
    NormalizedAlgebra(u1, u0, MovedBits(u0, s), ShiftLimbLeft(u0, s), Base(), c);
  }

  lemma NormalizedAlgebra(u1: int, u0: int, low: int, n0: int, b: int, c: int)
    requires low * b + n0 == u0 * c
    ensures (u1 * c + low) * b + n0 == (u1 * b + u0) * c
  {
    Distr(u1 * c, low, b);
    Distr(u1 * b, u0, c);
    MulAssoc(u1, c, b);
    MulAssoc(u1, b, c);
  }

  // ---------------------------------------------------- remainders that wrap

  lemma WrapCong(x: limb, y: limb)
    ensures Cong(WrapAdd(x, y), x + y, Base())
    ensures Cong(WrapSub(x, y), x - y, Base())
    ensures Cong(WrapMul(x, y), x * y, Base())
  {
    hide Pow;
    BaseFacts();
    CongIntro(WrapAdd(x, y), x + y, Base(), if x + y < Base() then 0 else -1);
    CongIntro(WrapSub(x, y), x - y, Base(), if x >= y then 0 else 1);
    CongMod(x * y, Base());
  }

  /** u*h + w - q*d computed in wrapping words, when the true value is a limb. */
  lemma WrappedRemainder(u: limb, h: limb, w: limb, q: limb, d: limb)
    requires 0 <= u * h + w - q * d < Base()
    ensures WrapAdd(WrapMul(u, h), WrapSub(w, WrapMul(q, d))) == u * h + w - q * d
    ensures WrapSub(WrapAdd(WrapMul(u, h), w), WrapMul(q, d)) == u * h + w - q * d
  {
    hide Pow, WrapAdd, WrapSub, WrapMul, Cong;
    var b := Base();
    var a, m := WrapMul(u, h), WrapMul(q, d);
    var t := u * h + w - q * d;
    WrapCong(u, h);
    WrapCong(q, d);
    CongRefl(w, b);
    WrapCong(w, m);
    CongAdd(w, w, m, q * d, b);
    CongTrans(WrapSub(w, m), w - m, w - q * d, b);
    WrapCong(a, WrapSub(w, m));
    CongAdd(a, u * h, WrapSub(w, m), w - q * d, b);
    CongTrans(WrapAdd(a, WrapSub(w, m)), a + WrapSub(w, m), u * h + (w - q * d), b);
    CongInRange(WrapAdd(a, WrapSub(w, m)), t, b);
    WrapCong(a, w);
    CongAdd(a, u * h, w, w, b);
    CongTrans(WrapAdd(a, w), a + w, u * h + w, b);
    WrapCong(WrapAdd(a, w), m);
    CongAdd(WrapAdd(a, w), u * h + w, m, q * d, b);
    CongTrans(WrapSub(WrapAdd(a, w), m), WrapAdd(a, w) - m, t, b);
    CongInRange(WrapSub(WrapAdd(a, w), m), t, b);
    DivModUnique(t, b, 0, t);
  }

  /** Two digits and two remainders make the whole division. */
  lemma JoinDigits(u1: int, u0: int, um: int, ul: int, h: int, d: int, q1: int, r1: int, q0: int, r: int)
    requires u0 == um * h + ul && r1 == u1 * h + um - q1 * d && r == r1 * h + ul - q0 * d
    ensures u1 * (h * h) + u0 == (q1 * h + q0) * d + r
  {
    Distr(u1 * h, um, h);
    Distr(u1 * h + um, q1 * d, h);
    MulAssoc(u1, h, h);
    Distr(q1 * h, q0, d);
    MulAssoc(q1, h, d);
    MulAssoc(q1, d, h);
  }

  /** Undoing the normalization on the remainder. */
  lemma Denormalized(u: nat, d: nat, q: nat, r: nat, c: nat)
    requires c > 0 && u * c == q * (d * c) + r && r < d * c
    ensures u == q * d + r / c && r / c < d && r / c <= r
  {
    DivMod(r, c);
    MulAssoc(q, d, c);
    Distr(u, q * d, c);
    DivModUnique(r, c, u - q * d, 0);
    MulCancelLt(r / c, d, c);
    MulMono(1, c, r / c);
  }

  /** The branch compiled when there is no double-width type. */
  method DivHalf(u1: limb, u0: limb, d: limb) returns (q: limb, r: limb)
    ensures IsWordDivision(u1, u0, d, q, r)
  {
    hide Pow, BitLength, ShiftLimbLeft, MovedBits;
    BaseFacts();
    if d == 0 || u1 >= d { return Base() - 1, Base() - 1; }
    var s := Clz(d);
    BitLengthZero(d);
    NormalizedDivisor(d, s);
    Normalized(u1, u0, d, s);
    var n1: limb := ShiftLimbLeft(u1, s) + MovedBits(u0, s);
    var nr;
    q, nr := DivNormalized(n1, ShiftLimbLeft(u0, s), ShiftLimbLeft(d, s));
    Denormalized(u1 * Base() + u0, d, q, nr, Pow(2, s));
    r := ShiftLimbRight(nr, s);
  }

  method DivNormalized(u1: limb, u0: limb, d: limb) returns (quotient: limb, r: limb)
    requires u1 < d && d >= Pow(2, biL - 1)
    ensures u1 * Base() + u0 == quotient * d + r && r < d
  {
    hide Pow, WrapAdd, WrapSub, WrapMul, HighHalf, LowHalf;
    BaseFacts();
    var h: limb := HalfBase() by { MulStrict(1, HalfBase(), HalfBase()); }
    var d1, d0 := HighHalf(d), LowHalf(d);
    var um, ul := HighHalf(u0), LowHalf(u0);
    assert d1 > 0 by { if d1 <= 0 { MulMono(d1, 0, h); Doubled(h); } }
    var q1 := HalfDigit(u1, um, d1, d0);
    Distr(q1, 1, d);
    WrappedRemainder(u1, h, um, q1, d);
    var rAX := WrapAdd(WrapMul(u1, h), WrapSub(um, WrapMul(q1, d)));
    var q0 := HalfDigit(rAX, ul, d1, d0);
    Distr(q0, 1, d);
    WrappedRemainder(rAX, h, ul, q0, d);
    r := WrapSub(WrapAdd(WrapMul(rAX, h), ul), WrapMul(q0, d));
    JoinDigits(u1, u0, um, ul, h, d, q1, rAX, q0, r);
    MulNonNeg(q1, h);
    QuotientIsLimb(u1, u0, d, q1 * h + q0);
    ProductBelow(q1, h, h, Base());
    quotient := q1 * h + q0;
  }

  /** The two-by-one division, whichever way it was built. */
  method IntDivInt(u1: limb, u0: limb, d: limb) returns (q: limb, r: limb)
    ensures IsWordDivision(u1, u0, d, q, r)
  {
    if HaveUdbl {
      q, r := DivWide(u1, u0, d);
    } else {
      q, r := DivHalf(u1, u0, d);
    }
  }
}
