/** Long division of one multi-precision integer by another (HAC 14.20). */
module MpiDiv {
  import opened Arith
  import opened Limbs
  import opened MpiCore
  import opened MpiAdd
  import opened MpiMul
  import opened MpiShift
  import opened WordDiv

  // ---------------------------------------------------- the quotient estimate

  /** `w` is the two-limb head of the divisor y, `v` the three-limb head of the
      remainder x, both over the same place values: pt for y, pt*pe for x. */
  ghost predicate Heads(x: nat, y: nat, w: nat, v: nat, pt: nat, pe: nat, b: nat) {
    w * pt <= y * b < (w + 1) * pt && v * (pt * pe) <= x * b < (v + 1) * (pt * pe)
  }

  /** The correction loop only steps down from an estimate that is too large. */
  lemma EstimateAbove(x: nat, y: nat, w: nat, v: nat, pt: nat, pe: nat, b: nat, z: nat)
    requires Heads(x, y, w, v, pt, pe, b) && b > 0 && z * w > v
    ensures x < z * (y * pe)
  {
    var p := pt * pe;
    MulMono(v + 1, z * w, p);
    MulMono(w * pt, y * b, z * pe);
    assert (z * w) * p == (w * pt) * (z * pe) by { Swap4(w, pt, z, pe); }
    assert (y * b) * (z * pe) == (z * (y * pe)) * b by {
      Swap4(y, b, z, pe);
      MulAssoc(y, z, b * pe);
      MulAssoc(z, y, pe);
      MulAssoc(z * y, pe, b);
    }
    MulCancelLt(x, z * (y * pe), b);
  }

  /** After the loop the estimate exceeds the digit by at most one, because the
      divisor's head is at least Base(). */
  lemma EstimateAtMostOneOver(x: nat, y: nat, w: nat, v: nat, pt: nat, pe: nat, b: nat, z: nat)
    requires Heads(x, y, w, v, pt, pe, b) && b > 0 && pe > 0 && pt > 0
    requires z * w <= v && 0 < z < b <= w
    ensures x >= (z - 1) * (y * pe)
  {
    var p, m := pt * pe, z - 1;
    if x < m * (y * pe) {
      MulStrict(x, m * (y * pe), b);
      assert (m * (y * pe)) * b == (y * b) * (m * pe) by {
        Swap4(y, b, m, pe);
        MulAssoc(y, m, b * pe);
        MulAssoc(m, y, pe);
        MulAssoc(m * y, pe, b);
      }
      MulNonNeg(m, pe);
      MulMono(y * b, (w + 1) * pt, m * pe);
      assert ((w + 1) * pt) * (m * pe) == ((w + 1) * m) * p by { Swap4(w + 1, pt, m, pe); }
      MulCancelLt(v, (w + 1) * m, p);
      Distr(z, 1, w + 1);
      Distr(w, 1, z);
      assert false;
    }
  }

  // ------------------------------------------------------------ heads of limbs

  function LimbOrZero(p: seq<limb>, i: int): limb
    requires i < |p|
  {
    if i < 0 then 0 else p[i]
  }

  /** Value of the two limbs from `t` down, with zeros below limb 0. */
  ghost function Head2(p: seq<limb>, t: nat): nat
    requires t < |p|
  {
    Val([LimbOrZero(p, t - 1), p[t]])
  }

  /** Value of the three limbs from `i` down, with zeros below limb 0. */
  ghost function Head3(p: seq<limb>, i: nat): nat
    requires i < |p|
  {
    Val([LimbOrZero(p, i - 2), LimbOrZero(p, i - 1), p[i]])
  }

  lemma ValTwo(a: limb, c: limb)
    ensures Val([a, c]) == a + c * Base()
  {
    assert [a, c][1..] == [c];
    ValOne(c);
  }

  lemma ValThree(a: limb, c: limb, e: limb)
    ensures Val([a, c, e]) == a + c * Base() + e * (Base() * Base())
  {
    hide Pow, Val;
    ValCons([a, c, e], 0);
    assert [a, c, e][0..] == [a, c, e] && [a, c, e][1..] == [c, e];
    ValTwo(c, e);
    Distr(c, e * Base(), Base());
    MulAssoc(e, Base(), Base());
  }

  lemma Head2Is(p: seq<limb>, t: nat)
    requires t < |p|
    ensures Head2(p, t) == LimbOrZero(p, t - 1) + p[t] * Base()
  {
    ValTwo(LimbOrZero(p, t - 1), p[t]);
  }

  lemma Head3Is(p: seq<limb>, i: nat)
    requires i < |p|
    ensures Head3(p, i) == LimbOrZero(p, i - 2) + LimbOrZero(p, i - 1) * Base() + p[i] * (Base() * Base())
  {
    ValThree(LimbOrZero(p, i - 2), LimbOrZero(p, i - 1), p[i]);
  }

  lemma Head2Bounds(p: seq<limb>, t: nat)
    requires t < |p| && AllZero(p[t + 1..])
    ensures Head2(p, t) * Place(t) <= Val(p) * Base() < (Head2(p, t) + 1) * Place(t)
  {
    hide Pow, Val, Head2;
    ValTopZeros(p, t + 1);
    ValSnoc(p, t);
    Head2Is(p, t);
    if t == 0 {
      assert p[..0] == [];
      ValZero([]);
      PlaceZero();
    } else {
      ValSnoc(p, t - 1);
      ValBound(p[..t - 1]);
      PlaceFacts(t - 1);
      HeadAlgebra(Head2(p, t), p[t], p[t - 1], Val(p[..t - 1]), Base(), Place(t - 1), Val(p), Place(t));
    }
  }

  /** v = low + c*q + a*b*q with low < q, against its head w = c + a*b. */
  lemma HeadAlgebra(w: nat, a: nat, c: nat, low: nat, b: nat, q: nat, v: nat, pt: nat)
    requires low < q && b > 0 && pt == b * q
    requires w == c + a * b && v == (low + c * q) + a * pt
    ensures w * pt <= v * b < (w + 1) * pt
  {
    Distr(low + c * q, a * pt, b);
    Distr(low, c * q, b);
    MulAssoc(c, q, b);
    MulAssoc(a, pt, b);
    MulAssoc(a, b, pt);
    Distr(c, a * b, pt);
    assert v * b == low * b + w * pt;
    MulStrict(low, q, b);
    MulNonNeg(low, b);
    Distr(w, 1, pt);
  }

  lemma Head3Bounds(p: seq<limb>, i: nat)
    requires 0 < i < |p| && AllZero(p[i + 1..])
    ensures Head3(p, i) * Place(i - 1) <= Val(p) * Base() < (Head3(p, i) + 1) * Place(i - 1)
  {
    hide Pow, Val, Head2, Head3;
    var u := p[..i];
    Head2Bounds(u, i - 1);
    ValTopZeros(p, i + 1);
    ValSnoc(p, i);
    PlaceFacts(i - 1);
    Head2Is(u, i - 1);
    Head3Is(p, i);
    HeadAlgebra3(Head2(u, i - 1), Head3(p, i), p[i], Base(), Place(i - 1), Val(u), Val(p));
  }

  /** One more limb `a` on top of a vector of value u with head w2. */
  lemma HeadAlgebra3(w2: nat, w: nat, a: nat, b: nat, pt: nat, u: nat, v: nat)
    requires w2 * pt <= u * b < (w2 + 1) * pt
    requires w == w2 + a * (b * b) && v == u + a * (b * pt)
    ensures w * pt <= v * b < (w + 1) * pt
  {
    Distr(u, a * (b * pt), b);
    MulAssoc(a, b * pt, b);
    MulAssoc(b, b, pt);
    MulAssoc(a, b * b, pt);
    Distr(w2, a * (b * b), pt);
    Distr(w2 + 1, a * (b * b), pt);
  }

  // -------------------------------------------------------- one quotient digit

  /** The divisor is half-normalized: its top limb, at `t`, has its second bit
      from the top set and lies in [Base()/4, Base()/2). */
  ghost predicate HalfNormalized(y: nat, t: nat) {
    Pow(2, biL - 2) * Place(t) <= y < Place(t + 1)
  }

  lemma HalfNormalizedTop(p: seq<limb>, t: nat)
    requires t < |p| && HalfNormalized(Val(p), t)
    ensures AllZero(p[t + 1..]) && p[t] >= Pow(2, biL - 2) > 0
    ensures Head2(p, t) >= Base()
    ensures p[t] * Place(t) <= Val(p)
  {
    hide Pow, Val;
    ValSmall(p, t + 1);
    ValSnoc(p, t);
    ValBound(p[..t]);
    TopLimbBound(p[t], Pow(2, biL - 2), Val(p[..t]), Place(t));
    QuarterIsLarge();
    ValTwo(LimbOrZero(p, t - 1), p[t]);
    MulMono(1, p[t], Base());
  }

  lemma TopLimbBound(top: nat, c: nat, low: nat, q: nat)
    requires low < q && c * q <= low + top * q
    ensures top >= c
  {
    if top < c {
      MulMono(top + 1, c, q);
      Distr(top, 1, q);
    }
  }

  lemma QuarterIsLarge()
    ensures Pow(2, biL - 2) >= 4
  {
    PowMono(2, 2, biL - 2);
    PowSmall();
  }

  /** The first estimate, from two limbs over one, is never too small. */
  lemma FirstEstimate(x: seq<limb>, y: seq<limb>, i: nat, t: nat, z: limb, r: limb)
    requires t < i < |x| && t < |y| && HalfNormalized(Val(y), t)
    requires Val(x) < Val(y) * Place(i - t)
    requires if x[i] >= y[t] then z == Base() - 1
             else IsWordDivision(x[i], x[i - 1], y[t], z, r)
    ensures NotBelow(Val(x), Val(y), Place(i - t - 1), z)
  {
    hide Pow, Val;
    var pe := Place(i - t - 1);
    PlaceFacts(i - t - 1);
    if x[i] >= y[t] {
      MulAssoc(Base(), pe, Val(y));
    } else {
      HalfNormalizedTop(y, t);
      RemainderFits(x, y, i, t);
      ValTopZeros(x, i + 1);
      ValSnoc(x, i);
      ValSnoc(x, i - 1);
      ValBound(x[..i - 1]);
      PlaceFacts(i - 1);
      PlaceAdd(t, i - t - 1);
      FirstEstimateAlgebra(x[i], x[i - 1], Val(x[..i - 1]), Base(), Place(i - 1), z, y[t], r);
      MulMono(y[t] * Place(t), Val(y), pe);
      MulMono((y[t] * Place(t)) * pe, Val(y) * pe, z + 1);
      MulAssoc(y[t], Place(t), pe);
      MulAssoc(z + 1, y[t], Place(i - 1));
    }
  }

  lemma FirstEstimateAlgebra(a: nat, c: nat, low: nat, b: nat, q: nat, z: nat, d: nat, r: nat)
    requires a * b + c == z * d + r && r < d && low < q
    ensures (low + c * q) + a * (b * q) < ((z + 1) * d) * q
  {
    Distr(z, 1, d);
    MulMono(a * b + c + 1, (z + 1) * d, q);
    Distr(a * b + c, 1, q);
    Distr(a * b, c, q);
    MulAssoc(a, b, q);
  }

  /** The remainder has no limbs above `i`. */
  lemma RemainderFits(x: seq<limb>, y: seq<limb>, i: nat, t: nat)
    requires t <= i < |x| && Val(y) < Place(t + 1) && Val(x) < Val(y) * Place(i - t)
    ensures AllZero(x[i + 1..]) && Val(x) < Place(i + 1)
  {
    hide Pow, Val;
    PlaceAdd(t + 1, i - t);
    MulMono(Val(y), Place(t + 1), Place(i - t));
    ValSmall(x, i + 1);
  }

  method SetHead2(T1: Mpi, Y: Mpi, t: nat)
    requires T1 != Y && |T1.p| >= 2 && t < |Y.p|
    modifies T1
    ensures T1.Value() == Head2(Y.p, t) && |T1.p| == old(|T1.p|)
  {
    hide Pow, Val;
    Lset(T1, 0);
    T1.p := T1.p[0 := LimbOrZero(Y.p, t - 1)];
    T1.p := T1.p[1 := Y.p[t]];
    assert T1.p[..2] == [LimbOrZero(Y.p, t - 1), Y.p[t]];
    ValTopZeros(T1.p, 2);
  }

  method SetHead3(T2: Mpi, X: Mpi, i: nat)
    requires T2 != X && |T2.p| >= 3 && i < |X.p|
    modifies T2
    ensures T2.Value() == Head3(X.p, i) && |T2.p| == old(|T2.p|)
  {
    hide Pow, Val;
    Lset(T2, 0);
    T2.p := T2.p[0 := LimbOrZero(X.p, i - 2)];
    T2.p := T2.p[1 := LimbOrZero(X.p, i - 1)];
    T2.p := T2.p[2 := X.p[i]];
    assert T2.p[..3] == [LimbOrZero(X.p, i - 2), LimbOrZero(X.p, i - 1), X.p[i]];
    ValTopZeros(T2.p, 3);
  }

  lemma HeadsOf(x: seq<limb>, y: seq<limb>, i: nat, t: nat)
    requires t < i < |x| && t < |y| && HalfNormalized(Val(y), t) && Val(x) < Val(y) * Place(i - t)
    ensures Heads(Val(x), Val(y), Head2(y, t), Head3(x, i), Place(t), Place(i - t - 1), Base())
  {
    hide Pow, Val, Head2, Head3;
    HalfNormalizedTop(y, t);
    RemainderFits(x, y, i, t);
    Head2Bounds(y, t);
    Head3Bounds(x, i);
    PlaceAdd(t, i - t - 1);
  }

  /** A digit `z` at place `pe` is not below the true one, and not more than one
      above it. */
  ghost predicate NotBelow(x: nat, y: nat, pe: nat, z: int) {
    x < (z + 1) * (y * pe)
  }

  ghost predicate AtMostOneOver(x: nat, y: nat, pe: nat, z: int) {
    z > 0 ==> (z - 1) * (y * pe) <= x
  }

  /** One round of the correction loop. */
  lemma DigitRound(x: nat, y: nat, w: nat, v: nat, pt: nat, pe: nat, b: nat, z: nat)
    requires Heads(x, y, w, v, pt, pe, b) && NotBelow(x, y, pe, z) && pe > 0 && pt > 0
    requires z < b <= w
    ensures w * z > v ==> z > 0 && NotBelow(x, y, pe, z - 1)
    ensures w * z <= v ==> AtMostOneOver(x, y, pe, z)
  {
    if z * w > v {
      EstimateAbove(x, y, w, v, pt, pe, b, z);
    } else if z > 0 {
      EstimateAtMostOneOver(x, y, w, v, pt, pe, b, z);
    }
  }

  /** The digit at `i - t - 1`: estimate it, then correct it downwards until the
      two-limb head of Y times it fits the three-limb head of X. */
  method EstimateDigit(X: Mpi, Y: Mpi, Z: Mpi, T1: Mpi, T2: Mpi, i: nat, t: nat)
    requires X != T1 && X != T2 && X != Z && Y != Z && Y != T1 && Y != T2 && Z != T1 && Z != T2 && T1 != T2
    requires |T1.p| >= 2 && |T2.p| >= 3
    requires t < i < |X.p| && t < |Y.p| && i - t - 1 < |Z.p| && HalfNormalized(Y.Abs(), t)
    requires X.Abs() < Y.Abs() * Place(i - t)
    modifies Z`p, T1, T2
    ensures |T1.p| >= 2 && |T2.p| >= 3 && |Z.p| == old(|Z.p|)
    ensures Z.p == old(Z.p)[i - t - 1 := Z.p[i - t - 1]]
    ensures NotBelow(X.Abs(), Y.Abs(), Place(i - t - 1), Z.p[i - t - 1])
    ensures AtMostOneOver(X.Abs(), Y.Abs(), Place(i - t - 1), Z.p[i - t - 1])
  {
    hide Pow, Val, Head2, Head3, Heads, NotBelow, AtMostOneOver;
    BaseFacts();
    ghost var x, y := X.p, Y.p;
    var e := i - t - 1;
    HalfNormalizedTop(y, t);
    HeadsOf(x, y, i, t);
    if X.p[i] >= Y.p[t] {
      Z.p := Z.p[e := Base() - 1];
      FirstEstimate(x, y, i, t, Z.p[e], 0);
    } else {
      var q, r := IntDivInt(X.p[i], X.p[i - 1], Y.p[t]);
      Z.p := Z.p[e := q];
      FirstEstimate(x, y, i, t, q, r);
    }
    ghost var z: limb := Z.p[e];
    Z.p := Z.p[e := WrapAdd(Z.p[e], 1)];
    var more := true;
    while more
      invariant X.p == x && Y.p == y && |T1.p| >= 2 && |T2.p| >= 3
      invariant |Z.p| == old(|Z.p|) && Z.p == old(Z.p)[e := Z.p[e]]
      invariant Z.p[e] == if more then WrapAdd(z, 1) else z
      invariant NotBelow(Val(x), Val(y), Place(e), z)
      invariant !more ==> AtMostOneOver(Val(x), Val(y), Place(e), z)
      decreases more, z
    {
      Z.p := Z.p[e := WrapSub(Z.p[e], 1)];
      assert Z.p[e] == z;
      SetHead2(T1, Y, t);
      MulInt(T1, T1, Z.p[e]);
      SetHead3(T2, X, i);
      var c := CmpMpi(T1, T2);
      more := c > 0;
      DigitRound(Val(x), Val(y), Head2(y, t), Head3(x, i), Place(t), Place(e), Base(), z);
      if more { z := z - 1; }
    }
  }

  /** Subtracting the estimated multiple and, if that went negative, adding the
      divisor back once, leaves a remainder below the divisor's next place. */
  lemma DigitSettles(x: nat, y: nat, pe: nat, z: nat)
    requires NotBelow(x, y, pe, z) && AtMostOneOver(x, y, pe, z)
    ensures var d := y * pe;
            x - z * d < d && (x - z * d < 0 ==> z > 0 && 0 <= x - (z - 1) * d < d)
  {
    Distr(z, 1, y * pe);
  }

  /** One pass of the main loop. */
  method DivStep(X: Mpi, Y: Mpi, Z: Mpi, T1: Mpi, T2: Mpi, i: nat, t: nat)
    requires X != T1 && X != T2 && X != Z && Y != Z && Y != T1 && Y != T2 && Z != T1 && Z != T2 && T1 != T2 && X != Y
    requires |T1.p| >= 2 && |T2.p| >= 3
    requires t < i < |X.p| && t < |Y.p| && i - t - 1 < |Z.p| && HalfNormalized(Y.Abs(), t)
    requires Y.s == 1 && 0 <= X.Value() < Y.Abs() * Place(i - t)
    modifies X, Z`p, T1, T2
    ensures |T1.p| >= 2 && |T2.p| >= 3 && |X.p| >= old(|X.p|) && |Z.p| == old(|Z.p|)
    ensures Z.p == old(Z.p)[i - t - 1 := Z.p[i - t - 1]]
    ensures 0 <= X.Value() < Y.Abs() * Place(i - t - 1)
    ensures old(X.Value()) == Z.p[i - t - 1] * (Y.Abs() * Place(i - t - 1)) + X.Value()
  {
    hide Pow, Val, HalfNormalized, NotBelow, AtMostOneOver;
    var e := i - t - 1;
    ghost var x, y, d := X.Abs(), Y.Abs(), Y.Abs() * Place(e);
    EstimateDigit(X, Y, Z, T1, T2, i, t);
    ghost var z := Z.p[e];
    DigitSettles(x, y, Place(e), z);
    PlaceFacts(e);
    MulAssoc(y, z, Place(e));
    MulAssoc(z, y, Place(e));
    MulInt(T1, Y, Z.p[e]);
    ShiftL(T1, biL * e);
    assert T1.Value() == z * d;
    SubMpi(X, X, T1);
    var c := CmpInt(X, 0);
    if c < 0 {
      Distr(z, 1, d);
      Copy(T1, Y);
      ShiftL(T1, biL * e);
      AddMpi(X, X, T1);
      Z.p := Z.p[e := WrapSub(Z.p[e], 1)];
      assert Z.p[e] == z - 1;
    }
  }

  // ------------------------------------------------------------ the leading digit

  lemma HalfNormalizedPlace(y: nat, t: nat)
    requires HalfNormalized(y, t)
    ensures y >= Place(t)
  {
    hide Pow;
    QuarterIsLarge();
    MulMono(1, Pow(2, biL - 2), Place(t));
  }

  /** The leading digit never overflows its limb. */
  lemma LeadDigitFits(c: nat, y: nat, n: nat, t: nat, v: nat, x: nat)
    requires t <= n && HalfNormalized(y, t) && v < Place(n + 1)
    requires Counted(v, c, y * Place(n - t), x) && x >= y * Place(n - t)
    ensures c + 1 < Base()
  {
    hide Pow, HalfNormalized;
    Distr(c, 1, y * Place(n - t));
    HalfNormalizedPlace(y, t);
    PlaceAdd(t, n - t);
    PlaceFacts(n);
    MulMono(Place(t), y, Place(n - t));
    MulMono(Place(n), y * Place(n - t), c + 1);
    MulCancelLt(c + 1, Base(), Place(n));
  }

  ghost predicate Counted(v: int, c: int, d: int, x: int) {
    v == c * d + x
  }

  lemma CountedStart(v: int, d: int)
    ensures Counted(v, 0, d, v)
  {}

  lemma CountedEnd(v: int, c: int, d: int, x: int)
    requires Counted(v, c, d, x)
    ensures v == c * d + x
  {}

  lemma CountedStep(v: int, c: int, d: int, x: int)
    requires Counted(v, c, d, x)
    ensures Counted(v, c + 1, d, x - d)
  {
    Distr(c, 1, d);
  }

  /** One subtraction of the aligned Y, counted in the top limb of the quotient. */
  method CountOnce(X: Mpi, Y: Mpi, Z: Mpi, n: nat, t: nat, ghost v: nat, ghost y: nat)
    requires X != Y && X != Z && Y != Z && t <= n && n - t < |Z.p| && |X.p| >= n + 1 && |Y.p| > 0
    requires HalfNormalized(y, t) && v < Place(n + 1)
    requires Y.Value() == y * Place(n - t) && X.Value() >= Y.Value() && Counted(v, Z.p[n - t], y * Place(n - t), X.Value())
    modifies X, Z`p
    ensures |X.p| >= n + 1 && X.Value() == old(X.Value()) - Y.Value() >= 0
    ensures |Z.p| == old(|Z.p|) && Z.p == old(Z.p)[n - t := Z.p[n - t]]
    ensures Counted(v, Z.p[n - t], y * Place(n - t), X.Value())
  {
    hide Pow, Val, HalfNormalized, Counted;
    CountedStep(v, Z.p[n - t], y * Place(n - t), X.Value());
    LeadDigitFits(Z.p[n - t], y, n, t, v, X.Value());
    Z.p := Z.p[n - t := WrapAdd(Z.p[n - t], 1)];
    SubMpi(X, X, Y);
  }

  /** Subtracts Y, aligned with X, as often as it fits, counting in the top limb
      of the quotient. */
  method LeadDigit(X: Mpi, Y: Mpi, Z: Mpi, n: nat, t: nat)
    requires X != Y && X != Z && Y != Z && t <= n && |X.p| == n + 1 && t < |Y.p| && n - t < |Z.p|
    requires X.Value() >= 0 && Y.s == 1 && HalfNormalized(Y.Abs(), t) && Z.p[n - t] == 0
    modifies X, Y, Z`p
    ensures |X.p| >= n + 1 && |Y.p| >= old(|Y.p|) && |Z.p| == old(|Z.p|)
    ensures Y.Abs() == old(Y.Abs()) && Y.s == 1
    ensures Z.p == old(Z.p)[n - t := Z.p[n - t]]
    ensures 0 <= X.Value() < Y.Abs() * Place(n - t)
    ensures old(X.Value()) == Z.p[n - t] * (Y.Abs() * Place(n - t)) + X.Value()
  {
    hide Pow, Val, HalfNormalized, Counted;
    ghost var v, y, d := X.Value(), Y.Abs(), Y.Abs() * Place(n - t);
    CountedStart(v, d);
    ValBound(X.p);
    PlaceFacts(n - t);
    HalfNormalizedPlace(y, t);
    PlaceFacts(t);
    MulPos(y, Place(n - t));
    ShiftL(Y, biL * (n - t));
    var c := CmpMpi(X, Y);
    while c >= 0
      invariant c == Order(X.Value(), d) && X.Value() >= 0 && |X.p| >= n + 1
      invariant Y.Value() == d && Y.s == 1 && |Y.p| >= old(|Y.p|) && |Z.p| == old(|Z.p|)
      invariant Z.p == old(Z.p)[n - t := Z.p[n - t]]
      invariant Counted(v, Z.p[n - t], d, X.Value())
      decreases X.Value()
    {
      CountOnce(X, Y, Z, n, t, v, y);
      c := CmpMpi(X, Y);
    }
    CountedEnd(v, Z.p[n - t], d, X.Value());
    ShiftR(Y, biL * (n - t));
    DivModUnique(d, Place(n - t), y, 0);
  }

  /** Setting one limb of the quotient, so far zero, adds the digit's share. */
  lemma QuotientStep(z: seq<limb>, e: nat, q: limb, y: nat)
    requires e < |z| && z[e] == 0
    ensures Val(z[e := q]) * y == Val(z) * y + q * (y * Place(e))
  {
    hide Pow, Val;
    ValUpdate(z, e, q);
    Distr(Val(z), q * Place(e), y);
    MulAssoc(q, Place(e), y);
  }

  // --------------------------------------------------------------- normalization

  lemma BitsOfUsed(p: seq<limb>)
    requires Val(p) > 0
    ensures Used(p) > 0 && biL * (Used(p) - 1) < BitLength(Val(p)) <= biL * Used(p)
  {
    hide Pow, Val, BitLength;
    ValUsed(p);
    var u := Used(p);
    PlaceFacts(u);
    PlaceFacts(u - 1);
    BitLengthBounds(Val(p));
    var m := BitLength(Val(p));
    if m > biL * u { PowMono(2, biL * u, m - 1); }
    if m <= biL * (u - 1) { PowMono(2, m, biL * (u - 1)); }
  }

  /** The shift that brings the top limb of the divisor to biL - 1 bits. */
  function NormalShift(bits: nat): nat {
    if bits % biL < biL - 1 then biL - 1 - bits % biL else 0
  }

  /** A bit length one short of a full limb is a half-normalized number. */
  lemma BitsHalfNormalized(y: nat, t: nat)
    requires y > 0 && BitLength(y) == biL * t + biL - 1
    ensures HalfNormalized(y, t)
  {
    hide Pow, BitLength;
    BitLengthBounds(y);
    PlaceFacts(t);
    PlaceFacts(t + 1);
    PowAdd(2, biL * t, biL - 2);
    PowMono(2, biL * t + biL - 1, biL * (t + 1));
  }

  lemma NormalLength(bits: nat, used: nat)
    requires used > 0 && biL * (used - 1) < bits <= biL * used
    ensures var k := NormalShift(bits);
            var n := ShiftedLength(used, bits + k);
            n > 0 && bits + k == biL * (n - 1) + biL - 1 && used <= n <= used + 1
  {
    DivMod(bits, biL);
    var k, r, q := NormalShift(bits), bits % biL, bits / biL;
    Distr(used, 1, biL);
    if r == 0 {
      MulCancelLt(used - 1, q, biL);
      MulCancelLe(q, used, biL);
      DivModUnique(bits + k, biL, used, biL - 1);
    } else {
      MulCancelLt(q, used, biL);
      if q < used - 1 { MulMono(q + 1, used - 1, biL); Distr(q, 1, biL); }
      assert q == used - 1;
    }
  }

  lemma DividendLength(bits: nat, used: nat, k: nat)
    requires bits <= biL * used && k < biL
    ensures used <= ShiftedLength(used, bits + k) <= used + 1
  {
    if biL * used < bits + k {
      DivMod(bits + k, biL);
      Distr(used, 1, biL);
      DivModUnique(bits + k, biL, used, bits + k - biL * used);
    }
  }

  // -------------------------------------------------------------------- division

  /** The normalized long division: X ends as the remainder, Z as the quotient. */
  method DivNormalized(X: Mpi, Y: Mpi, Z: Mpi)
    requires X != Y && X != Z && Y != Z && |Y.p| > 0
    requires X.Value() >= Y.Value() && Y.s == 1 && HalfNormalized(Y.Abs(), |Y.p| - 1)
    requires Val(Z.p) == 0 && |X.p| - |Y.p| < |Z.p|
    modifies X, Y, Z`p
    ensures |X.p| >= old(|X.p|) && |Z.p| == old(|Z.p|)
    ensures 0 <= X.Value() < old(Y.Abs()) && old(X.Value()) == Val(Z.p) * old(Y.Abs()) + X.Value()
  {
    hide Pow, Val, HalfNormalized;
    var T1 := new Mpi();
    var T2 := new Mpi();
    Grow(T1, 2);
    Grow(T2, 3);
    ghost var y, v := Y.Abs(), X.Value();
    var t: nat := |Y.p| - 1;
    HalfNormalizedPlace(y, t);
    PlaceFacts(t);
    ValBound(X.p);
    if |X.p| < |Y.p| { PlaceMono(|X.p|, t); }
    var n: nat := |X.p| - 1;
    ValZero(Z.p);
    QuotientStep(Z.p, n - t, 0, y);
    LeadDigit(X, Y, Z, n, t);
    QuotientStep(old(Z.p), n - t, Z.p[n - t], y);
    var i := n;
    while i > t
      invariant t <= i <= n && |X.p| >= n + 1 && t < |Y.p| && |Z.p| == old(|Z.p|)
      invariant |T1.p| >= 2 && |T2.p| >= 3 && fresh(T1) && fresh(T2) && T1 != T2
      invariant Y.Abs() == y && Y.s == 1 && AllZero(Z.p[..i - t])
      invariant 0 <= X.Value() < y * Place(i - t)
      invariant v == Val(Z.p) * y + X.Value()
    {
      ghost var z := Z.p;
      assert z[i - t - 1] == 0 by { assert z[..i - t][i - t - 1] == 0; }
      DivStep(X, Y, Z, T1, T2, i, t);
      QuotientStep(z, i - t - 1, Z.p[i - t - 1], y);
      i := i - 1;
    }
    PlaceZero();
  }

  /** Undoing the normalizing shift: the quotient is unaffected, the remainder is
      scaled back. */
  lemma Unscale(a: nat, b: nat, c: nat, q: nat, r: nat)
    requires b > 0 && c > 0 && a * c == q * (b * c) + r && r < b * c
    ensures q == a / b && r / c == a % b
  {
    Denormalized(a, b, q, r, c);
    DivModUnique(a, b, q, r / c);
  }

  /** Copies of |A| and |B|, normalized together and divided. */
  method DivScaled(A: Mpi, B: Mpi) returns (X: Mpi, Z: Mpi, k: nat)
    requires 0 < B.Abs() <= A.Abs()
    ensures fresh(X) && fresh(Z) && X != Z && |X.p| > 0 && |Z.p| > 0
    ensures Val(Z.p) == A.Abs() / B.Abs() && Z.s == 1
    ensures X.Value() >= 0 && X.Abs() / Pow(2, k) == A.Abs() % B.Abs()
  {
    hide Pow, Val, HalfNormalized, BitLength, ShiftedLength;
    ghost var a, b := A.Abs(), B.Abs();
    BitsOfUsed(A.p);
    BitsOfUsed(B.p);
    X := new Mpi();
    Copy(X, A);
    var Y := new Mpi();
    Copy(Y, B);
    X.s, Y.s := 1, 1;
    Z := new Mpi();
    Grow(Z, |A.p| + 2);
    Lset(Z, 0);
    k := ShiftBoth(X, Y);
    DivNormalized(X, Y, Z);
    Unscale(a, b, Pow(2, k), Val(Z.p), X.Abs());
  }

  /** Half-normalizes the divisor and shifts the dividend with it. */
  method ShiftBoth(X: Mpi, Y: Mpi) returns (k: nat)
    requires X != Y && X.s == Y.s == 1 && 0 < Y.Abs() <= X.Abs()
    requires |X.p| == Used(X.p) && |Y.p| == Used(Y.p)
    modifies X`p, Y`p
    ensures X.Value() == old(X.Abs()) * Pow(2, k) && Y.Value() == old(Y.Abs()) * Pow(2, k)
    ensures Y.Value() <= X.Value() && |Y.p| > 0 && HalfNormalized(Y.Abs(), |Y.p| - 1)
    ensures 0 < |X.p| <= old(|X.p|) + 1
  {
    hide Pow, Val, BitLength, ShiftedLength, HalfNormalized, Used;
    PowOne(2);
    BitsOfUsed(X.p);
    BitsOfUsed(Y.p);
    var bits := BitLen(Y);
    k := NormalShift(bits);
    NormalLength(bits, |Y.p|);
    DividendLength(BitLength(X.Abs()), |X.p|, k);
    ShiftNormalizes(X.Abs(), Y.Abs(), k, |Y.p|);
    SameLength(|X.p|, BitLength(X.Abs()));
    SameLength(|Y.p|, BitLength(Y.Abs()));
    if k > 0 {
      ShiftL(X, k);
      ShiftL(Y, k);
    }
  }

  lemma SameLength(n: nat, bits: nat)
    requires bits <= biL * n
    ensures ShiftedLength(n, bits + 0) == n
  {}

  lemma ShiftNormalizes(a: nat, b: nat, k: nat, used: nat)
    requires 0 < b <= a && k == NormalShift(BitLength(b))
    requires ShiftedLength(used, BitLength(b) + k) > 0
    requires BitLength(b) + k == biL * (ShiftedLength(used, BitLength(b) + k) - 1) + biL - 1
    ensures 0 < b * Pow(2, k) <= a * Pow(2, k)
    ensures HalfNormalized(b * Pow(2, k), ShiftedLength(used, BitLength(b) + k) - 1)
  {
    hide Pow, HalfNormalized, BitLength;
    BitLengthShift(b, k);
    MulPos(b, Pow(2, k));
    MulMono(b, a, Pow(2, k));
    BitsHalfNormalized(b * Pow(2, k), ShiftedLength(used, BitLength(b) + k) - 1);
  }

  /** The sign the quotient gets: that of an operand is read after the quotient has
      been written, so an operand that is the quotient counts as positive. */
  function QuotientSign(s: sign, t: sign, overA: bool, overB: bool): sign {
    SignTimes(if overA then 1 else s, if overB then 1 else t)
  }

  /** The remainder: what is left of A, unless A has been overwritten by the
      quotient. Then it is nothing for a smaller A, and gets the quotient's sign. */
  function RemainderStored(a: nat, b: nat, s: sign, q: sign, overA: bool): int
    requires b > 0
  {
    if !overA then Signed(s, Rem(a, b)) else if a < b then 0 else Signed(q, Rem(a, b))
  }

  /** A = Q * B + R with truncating quotient, for any aliasing. Q and R may be null; if
      they are one number, the remainder overwrites the quotient. */
  method DivMpi(Q: Mpi?, R: Mpi?, A: Mpi, B: Mpi) returns (ret: Status)
    modifies Q, R
    ensures ret == if old(B.Abs()) == 0 then DivisionByZero else Ok
    ensures ret != Ok ==> (Q != null ==> unchanged(Q)) && (R != null ==> unchanged(R))
    ensures ret == Ok && Q != null && Q != R ==>
              Q.Value() == Signed(QuotientSign(old(A.s), old(B.s), Q == A, Q == B), Quo(old(A.Abs()), old(B.Abs())))
    ensures ret == Ok && R != null ==>
              R.Value() == RemainderStored(old(A.Abs()), old(B.Abs()), old(A.s), QuotientSign(old(A.s), old(B.s), Q == A, Q == B), Q == A)
    ensures ret == Ok && R != null && old(|A.p|) > 0 ==> |R.p| >= old(|R.p|)
  {
    hide Pow, Val;
    var z := CmpInt(B, 0);
    if z == 0 { return DivisionByZero; }
    ghost var a, b := A.Abs(), B.Abs();
    var c := CmpAbs(A, B);
    if c < 0 {
      DivModUnique(a, b, 0, a);
      if Q != null { Lset(Q, 0); }
      if R != null { Copy(R, A); }
      return Ok;
    }
    var X, Z, k := DivScaled(A, B);
    if Q != null {
      Copy(Q, Z);
      Q.s := SignTimes(A.s, B.s);
    }
    if R != null { StoreRemainder(R, X, k, A.s); }
    return Ok;
  }

  /** The remainder, scaled back, with the sign of the dividend; never -0. */
  method StoreRemainder(R: Mpi, X: Mpi, k: nat, s: sign)
    requires R != X && |X.p| > 0
    modifies R, X
    ensures R.Value() == Signed(s, Quo(old(X.Abs()), Pow(2, k)))
    ensures |R.p| >= old(|R.p|)
  {
    hide Pow, Val;
    ShiftR(X, k);
    X.s := s;
    Copy(R, X);
    var zero := CmpInt(R, 0);
    if zero == 0 { R.s := 1; }
  }
}
