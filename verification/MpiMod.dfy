/** What long division means for signed numbers, and the remainder operations. */
module MpiMod {
  import opened Arith
  import opened Limbs
  import opened MpiCore
  import opened MpiAdd
  import opened MpiMul
  import opened MpiShift
  import opened MpiDiv
  import opened WordDiv

  /** Division truncating toward zero, as `DivMpi` reports it. */
  ghost predicate IsTruncatedDivision(a: int, b: int, q: int, r: int) {
    a == q * b + r && 0 - Magn(b) < r < Magn(b) && (a >= 0 ==> r >= 0) && (a <= 0 ==> r <= 0)
  }

  function Magn(x: int): nat {
    if x < 0 then 0 - x else x
  }

  /** The quotient and remainder stored by `DivMpi` satisfy the division law. */
  lemma DivisionLaw(s: sign, a: nat, t: sign, b: nat)
    requires b > 0
    ensures IsTruncatedDivision(Signed(s, a), Signed(t, b), Signed(SignTimes(s, t), a / b), Signed(s, a % b))
  {
    DivMod(a, b);
    SignedProduct(SignTimes(s, t), t, a / b, b);
  }

  /** ... and nothing else does. */
  lemma DivisionLawUnique(a: int, b: int, q: int, r: int, q': int, r': int)
    requires b != 0 && IsTruncatedDivision(a, b, q, r) && IsTruncatedDivision(a, b, q', r')
    ensures q == q' && r == r'
  {
    Distr(q, q', b);
    var m := Magn(b);
    assert (q - q') * b == r' - r;
    assert -m < r' - r < m;
    var k := if b > 0 then q - q' else q' - q;
    assert k * m == r' - r by { if b < 0 { NegBoth(q - q', b); } }
    if k > 0 { MulMono(1, k, m); }
    if k < 0 { MulMono(k, -1, m); }
  }

  lemma NegBoth(x: int, y: int)
    ensures x * y == (-x) * (-y)
  {}

  /** When the stored pair obeys the division law although the quotient may have been
      written over an operand: the quotient's sign must not have mattered, and if A is
      gone the remainder must be zero or have got the right sign by chance. */
  lemma DivAliasExact(s: sign, a: nat, t: sign, b: nat, overA: bool, overB: bool)
    requires b > 0
    ensures var q := QuotientSign(s, t, overA, overB);
            IsTruncatedDivision(Signed(s, a), Signed(t, b), Signed(q, Quo(a, b)), RemainderStored(a, b, s, q, overA))
            <==> (a < b || q == SignTimes(s, t)) && (!overA || a % b == 0 || (a >= b && q == s))
  {
    var q := QuotientSign(s, t, overA, overB);
    var x, y := Signed(q, Quo(a, b)), RemainderStored(a, b, s, q, overA);
    DivisionLaw(s, a, t, b);
    DivMod(a, b);
    if a < b { DivModUnique(a, b, 0, a); } else if a / b <= 0 { MulMono(a / b, 0, b); }
    hide IsTruncatedDivision;
    if IsTruncatedDivision(Signed(s, a), Signed(t, b), x, y) {
      DivisionLawUnique(Signed(s, a), Signed(t, b), x, y, Signed(SignTimes(s, t), a / b), Signed(s, a % b));
    }
  }

  /** Division by a machine integer. */
  method DivInt(Q: Mpi?, R: Mpi?, A: Mpi, b: sint) returns (ret: Status)
    modifies Q, R
    ensures ret == if b == 0 then DivisionByZero else Ok
    ensures ret != Ok ==> (Q != null ==> unchanged(Q)) && (R != null ==> unchanged(R))
    ensures ret == Ok && Q != null && Q != R ==>
              Q.Value() == Signed(QuotientSign(old(A.s), SignOf(b), Q == A, false), Quo(old(A.Abs()), Magn(b)))
    ensures ret == Ok && R != null ==>
              R.Value() == RemainderStored(old(A.Abs()), Magn(b), old(A.s), QuotientSign(old(A.s), SignOf(b), Q == A, false), Q == A)
  {
    hide Pow, Val;
    var B := new Mpi.FromInt(b);
    ret := DivMpi(Q, R, A, B);
  }

  // ---------------------------------------------- bringing the remainder in range

  /** Where the two loops behind the division stand: adding B, subtracting B, or left. */
  datatype Ranging = Below(r: int) | Above(r: int) | Within(r: int)

  /** One pass of a loop, or the way to the next. B is R itself when the two are one
      number. */
  function RangeStep(l: Ranging, b: int, same: bool): Ranging {
    match l
    case Below(r) => if r < 0 then Below(r + if same then r else b) else Above(r)
    case Above(r) => if Order(r, if same then r else b) >= 0 then Above(r - if same then r else b) else Within(r)
    case Within(r) => l
  }

  function RangeSteps(l: Ranging, b: int, same: bool, k: nat): Ranging {
    if k == 0 then l else RangeStep(RangeSteps(l, b, same, k - 1), b, same)
  }

  /** With R and B one number, a negative remainder is doubled by every pass of the
      first loop, beyond any size. */
  lemma {:induction false} SelfDoubles(r: int, b: int, k: nat)
    requires r < 0
    ensures RangeSteps(Below(r), b, true, k) == Below(r * Pow(2, k)) && r * Pow(2, k) <= 0 - Pow(2, k)
  {
    hide Pow;
    if k == 0 {
      PowOne(2);
    } else {
      SelfDoubles(r, b, k - 1);
      PowSucc(2, k - 1);
      MulAssoc(r, 2, Pow(2, k - 1));
    }
  }

  /** Any other remainder passes the first loop and is then compared with itself, and
      after the first pass so is zero. */
  lemma {:induction false} SelfCompares(r: int, b: int, k: nat)
    requires r >= 0 && k > 0
    ensures RangeSteps(Below(r), b, true, k) == Above(if k == 1 then r else 0)
  {
    if k > 1 { SelfCompares(r, b, k - 1); } else { assert RangeSteps(Below(r), b, true, 0) == Below(r); }
  }

  /** With R and B two numbers at most one addition leads out. */
  lemma ApartLeaves(s: sign, a: nat, b: nat)
    requires b > 0
    ensures RangeSteps(Below(Signed(s, a % b)), b, false, 3) == Within(Signed(s, a) % b)
         || RangeSteps(Below(Signed(s, a % b)), b, false, 2) == Within(Signed(s, a) % b)
  {
    DivMod(a, b);
    var l := Below(Signed(s, a % b));
    assert RangeSteps(l, b, false, 0) == l;
    assert RangeSteps(l, b, false, 1) == RangeStep(l, b, false);
    assert RangeSteps(l, b, false, 2) == RangeStep(RangeSteps(l, b, false, 1), b, false);
    assert RangeSteps(l, b, false, 3) == RangeStep(RangeSteps(l, b, false, 2), b, false);
    if s < 0 { NegatedMod(a, b); }
  }

  /** For every A and every positive B the loops, entered with the stored remainder, are
      left after finitely many steps if and only if R is not B. */
  lemma RangeLeavesExact(s: sign, a: nat, b: nat, same: bool)
    requires b > 0
    ensures (exists k: nat :: RangeSteps(Below(Signed(s, a % b)), b, same, k).Within?) <==> !same
  {
    hide RangeStep, Pow;
    var r := Signed(s, a % b);
    if same {
      forall k: nat
        ensures !RangeSteps(Below(r), b, true, k).Within?
      {
        if r < 0 {
          SelfDoubles(r, b, k);
        } else if k > 0 {
          SelfCompares(r, b, k);
        }
      }
    } else {
      ApartLeaves(s, a, b);
      assert RangeSteps(Below(r), b, same, 2).Within? || RangeSteps(Below(r), b, same, 3).Within?;
    }
  }

  /** `mbedtls_mpi_add_mpi( R, R, B )`, with R and B one number or two. */
  method AddPass(R: Mpi, B: Mpi)
    requires R.Value() < 0 && B.Value() != 0
    modifies R
    ensures RangeStep(Below(old(R.Value())), old(B.Value()), R == B) == Below(R.Value()) && |R.p| >= old(|R.p|)
  {
    hide Pow, Val;
    NegativeHasLimbs(R);
    NegativeHasLimbs(B);
    AddMpi(R, R, B);
  }

  /** `mbedtls_mpi_sub_mpi( R, R, B )`, with R and B one number or two. */
  method SubPass(R: Mpi, B: Mpi)
    requires Order(R.Value(), B.Value()) >= 0 && B.Value() >= 0 && (R != B ==> B.Value() > 0)
    modifies R
    ensures RangeStep(Above(old(R.Value())), old(B.Value()), R == B) == Above(R.Value()) && |R.p| >= old(|R.p|)
  {
    hide Pow, Val;
    NegativeHasLimbs(R);
    NegativeHasLimbs(B);
    SubMpi(R, R, B);
  }

  /** R := A mod B in [0, B); an error, leaving R alone, unless B > 0. Not called with
      a positive B for R, where the loops below are not left (`RangeLeavesExact`). */
  method ModMpi(R: Mpi, A: Mpi, B: Mpi) returns (ret: Status)
    requires R == B ==> B.Value() <= 0
    modifies R
    ensures ret == if B.Value() < 0 then NegativeValue else if B.Value() == 0 then DivisionByZero else Ok
    ensures ret != Ok ==> unchanged(R)
    ensures ret == Ok ==> R.Value() == old(A.Value()) % B.Value()
    ensures ret == Ok && old(|A.p|) > 0 ==> |R.p| >= old(|R.p|)
  {
    hide Pow, Val, Cong, RangeStep, RangeSteps;
    ghost var a, b := A.Value(), B.Value();
    var c := CmpInt(B, 0);
    if c < 0 { return NegativeValue; }
    ret := DivMpi(null, R, A, B);
    if ret != Ok { return; }
    ghost var l, k := Below(R.Value()), 0;
    RemainderCong(old(A.s), old(A.Abs()), B.s, B.Abs());
    NoRangeSteps(l, b);
    c := CmpInt(R, 0);
    while c < 0
      invariant c == Order(R.Value(), 0) && Cong(R.Value(), a, b) && RangeSteps(l, b, false, k) == Below(R.Value())
      invariant old(|A.p|) > 0 ==> |R.p| >= old(|R.p|)
      decreases 0 - R.Value()
    {
      CongShift(R.Value(), a, b);
      RangePass(l, b, k);
      PassSizes(R.Value(), b);
      AddPass(R, B);
      k := k + 1;
      c := CmpInt(R, 0);
    }
    RangePass(l, b, k);
    PassSizes(R.Value(), b);
    k := k + 1;
    c := CmpMpi(R, B);
    while c >= 0
      invariant c == Order(R.Value(), b) && 0 <= R.Value() && Cong(R.Value(), a, b) && RangeSteps(l, b, false, k) == Above(R.Value())
      invariant old(|A.p|) > 0 ==> |R.p| >= old(|R.p|)
      decreases R.Value()
    {
      CongShift(R.Value(), a, b);
      RangePass(l, b, k);
      PassSizes(R.Value(), b);
      SubPass(R, B);
      k := k + 1;
      c := CmpMpi(R, B);
    }
    CongInRange(R.Value(), a, b);
  }

  lemma NoRangeSteps(l: Ranging, b: int)
    ensures RangeSteps(l, b, false, 0) == l
  {}

  lemma RangePass(l: Ranging, b: int, k: nat)
    ensures RangeSteps(l, b, false, k + 1) == RangeStep(RangeSteps(l, b, false, k), b, false)
  {}

  lemma PassSizes(r: int, b: int)
    ensures RangeStep(Below(r), b, false) == if r < 0 then Below(r + b) else Above(r)
    ensures RangeStep(Above(r), b, false) == if r >= b then Above(r - b) else Within(r)
  {}

  lemma RemainderCong(s: sign, a: nat, t: sign, b: nat)
    requires b > 0
    ensures Cong(Signed(s, a % b), Signed(s, a), Magn(Signed(t, b)))
  {
    hide Cong;
    DivMod(a, b);
    if s < 0 { Distr(0, a / b, b); }
    CongIntro(Signed(s, a % b), Signed(s, a), b, if s < 0 then a / b else 0 - a / b);
  }

  lemma NegativeHasLimbs(R: Mpi)
    ensures R.Value() != 0 ==> |R.p| > 0
  {}

  // ---------------------------------------------------------- small remainders

  /** `y = (y << biH) | w; y -= (y / b) * b;` with the shift wrapping. */
  function HalfStep(y: limb, w: limb, b: limb): (r: limb)
    requires b > 0 && y < b && w < HalfBase()
    ensures r < b
  {
    var t := ShiftLimbLeft(y, biH) + w;
    DivMod(t, b);
    t % b
  }

  function LimbStep(y: limb, x: limb, b: limb): (r: limb)
    requires b > 0 && y < b
    ensures r < b
  {
    HalfStep(HalfStep(y, HighHalf(x), b), LowHalf(x), b)
  }

  /** The loop of `mod_int`, from the top limb down to limb `i`. */
  function ModLoop(p: seq<limb>, i: nat, b: limb): (r: limb)
    requires b > 0 && i <= |p|
    ensures r < b
    decreases |p| - i
  {
    if i == |p| then 0 else LimbStep(ModLoop(p, i + 1, b), p[i], b)
  }

  /** When no bit of `y << biH` that matters modulo b is lost. */
  ghost predicate ShiftSafe(b: limb) {
    b > 0 && (b <= HalfBase() || Base() % b == 0)
  }

  lemma ShiftCong(y: limb, b: limb)
    requires ShiftSafe(b) && y < b
    ensures Cong(ShiftLimbLeft(y, biH), y * HalfBase(), b)
  {
    hide Pow, Cong;
    var t, u := ShiftLimbLeft(y, biH), y * HalfBase();
    BaseFacts();
    if b <= HalfBase() {
      ProductBelow(y, HalfBase(), HalfBase(), HalfBase());
      DivModUnique(u, Base(), 0, u);
      CongRefl(t, b);
    } else {
      var m := Base() / b;
      assert b * m == Base() by { DivMod(Base(), b); }
      assert Cong(t, u, b * m) by { CongMod(u, Base()); }
      if m <= 0 { MulMono(m, 0, b); }
      CongFactor(t, u, b, m);
    }
  }

  lemma HalfStepCong(y: limb, w: limb, b: limb)
    requires ShiftSafe(b) && y < b && w < HalfBase()
    ensures Cong(HalfStep(y, w, b), y * HalfBase() + w, b)
  {
    hide Pow, Cong, ShiftLimbLeft;
    var t, u := ShiftLimbLeft(y, biH), y * HalfBase();
    ShiftCong(y, b);
    CongRefl(w, b);
    CongAdd(t, u, w, w, b);
    CongMod(t + w, b);
    CongTrans(HalfStep(y, w, b), t + w, u + w, b);
  }

  lemma LimbStepCong(y: limb, x: limb, b: limb)
    requires ShiftSafe(b) && y < b
    ensures Cong(LimbStep(y, x, b), x + Base() * y, b)
  {
    hide Pow, HalfStep, ShiftSafe, Cong;
    BaseFacts();
    var h, w1, w0 := HalfBase(), HighHalf(x), LowHalf(x);
    var m := HalfStep(y, w1, b);
    HalfStepCong(y, w1, b);
    HalfStepCong(m, w0, b);
    CongMulLeft(m, y * h + w1, h, b);
    CongRefl(w0, b);
    CongAdd(m * h, (y * h + w1) * h, w0, w0, b);
    Distr(y * h, w1, h);
    MulAssoc(y, h, h);
    CongTrans(HalfStep(m, w0, b), m * h + w0, x + Base() * y, b);
  }

  lemma {:induction false} ModLoopCorrect(p: seq<limb>, i: nat, b: limb)
    requires ShiftSafe(b) && i <= |p|
    ensures ModLoop(p, i, b) == Val(p[i..]) % b
    decreases |p| - i
  {
    hide Pow, ShiftSafe, Val, LimbStep, Cong;
    if i == |p| {
      ValZero(p[i..]);
    } else {
      ModLoopCorrect(p, i + 1, b);
      var y, v := ModLoop(p, i + 1, b), Val(p[i + 1..]);
      LimbStepCong(y, p[i], b);
      ValCons(p, i);
      CongMod(v, b);
      CongMulLeft(y, v, Base(), b);
      CongRefl(p[i], b);
      CongAdd(p[i], p[i], Base() * y, Base() * v, b);
      CongTrans(LimbStep(y, p[i], b), p[i] + Base() * y, Val(p[i..]), b);
      CongInRange(LimbStep(y, p[i], b), Val(p[i..]), b);
    }
  }

  /** A divisor of a power of two is itself one. */
  lemma {:induction false} DividesSmallerPow2(b: nat, m: nat, k: nat)
    requires b > 0 && Divides(b, Pow(2, m)) && b <= Pow(2, k)
    ensures Divides(b, Pow(2, k))
    decreases m
  {
    if b == 1 {
      DividesIntro(1, Pow(2, k), Pow(2, k));
    } else if m == 0 {
      DividesLe(b, 1);
    } else if b % 2 == 1 {
      OddDividesHalf(b, Pow(2, m - 1));
      DividesSmallerPow2(b, m - 1, k);
    } else {
      var c := b / 2;
      assert b == 2 * c && k > 0;
      var l := DividesElim(b, Pow(2, m));
      assert Pow(2, m - 1) == l * c by { MulAssoc(l, c, 2); }
      DividesIntro(c, Pow(2, m - 1), l);
      DividesSmallerPow2(c, m - 1, k - 1);
      var j := DividesElim(c, Pow(2, k - 1));
      MulAssoc(j, c, 2);
      DividesIntro(b, Pow(2, k), j);
    }
  }

  /** Two limbs on which every unsafe divisor goes wrong: 2^(biL + biH). */
  function Witness(): seq<limb> {
    BaseFacts();
    MulStrict(1, HalfBase(), HalfBase());
    [0, HalfBase()]
  }

  lemma ModLoopWitness(b: limb)
    requires b > HalfBase()
    ensures ModLoop(Witness(), 0, b) == 0
  {
    hide Pow;
    BaseFacts();
    MulStrict(1, HalfBase(), HalfBase());
    var h: limb := HalfBase();
    assert HighHalf(h) == 1 && LowHalf(h) == 0 by { DivModUnique(h, h, 1, 0); }
    assert HighHalf(0) == 0 && LowHalf(0) == 0;
    DivModUnique(1 * h, Base(), 0, h);
    DivModUnique(h * h, Base(), 1, 0);
    DivModUnique(0, Base(), 0, 0);
    DivModUnique(1, b, 0, 1);
    DivModUnique(h, b, 0, h);
    DivModUnique(0, b, 0, 0);
    assert HalfStep(0, 1, b) == 1;
    assert HalfStep(1, 0, b) == h;
    assert HalfStep(h, 0, b) == 0;
    assert HalfStep(0, 0, b) == 0;
    assert ModLoop(Witness(), 2, b) == 0;
    assert ModLoop(Witness(), 1, b) == h;
  }

  /** The exact reach of the half-limb loop: it computes the remainder of every
      number exactly when the modulus is at most half a limb wide or divides
      2^biL. */
  lemma ModLoopExact(b: limb)
    requires 0 < b < Base()
    ensures ShiftSafe(b) <==> forall p: seq<limb> :: ModLoop(p, 0, b) == Val(p) % b
  {
    hide Pow, Val, ModLoop, Witness;
    if ShiftSafe(b) {
      forall p: seq<limb>
        ensures ModLoop(p, 0, b) == Val(p) % b
      {
        ModLoopCorrect(p, 0, b);
        assert p[0..] == p;
      }
    } else {
      ModLoopWitness(b);
      WitnessValue();
      if Val(Witness()) % b == 0 {
        DividesSmallerPow2(b, biL + biH, biL);
        assert false;
      }
      assert ModLoop(Witness(), 0, b) != Val(Witness()) % b;
    }
  }

  lemma WitnessValue()
    ensures Val(Witness()) == Pow(2, biL + biH)
  {
    hide Pow;
    PowAdd(2, biL, biH);
    ValTwo(Witness()[0], Witness()[1]);
    assert Witness() == [Witness()[0], Witness()[1]];
  }

  /** r := A mod b, by half limbs. Exact for every A when b passes the test of
      `ModLoopExact`. */
  method ModInt(A: Mpi, b: sint) returns (ret: Status, r: limb)
    requires b == 2 ==> |A.p| > 0
    ensures ret == if b == 0 then DivisionByZero else if b < 0 then NegativeValue else Ok
    ensures ret == Ok && b > 2 ==> r == var y := ModLoop(A.p, 0, b); if A.s < 0 && y != 0 then b - y else y
    ensures ret == Ok && (b <= HalfBase() || Base() % b == 0) ==> r == A.Value() % b
  {
    hide Pow, Val;
    BaseFacts();
    r := 0;
    if b == 0 { return DivisionByZero, 0; }
    if b < 0 { return NegativeValue, 0; }
    if b == 1 { return Ok, 0; }
    if b == 2 {
      ValParity(A.p);
      BitZero(A.p[0]);
      ParityOfSigned(A.s, A.Abs());
      return Ok, BitOf(A.p[0], 0);
    }
    var bl: limb := b;
    var i: nat := |A.p|;
    var y: limb := 0;
    while i > 0
      invariant i <= |A.p| && y < bl && y == ModLoop(A.p, i, bl)
    {
      y := LimbStep(y, A.p[i - 1], bl);
      i := i - 1;
    }
    assert A.p[0..] == A.p;
    if ShiftSafe(bl) { ModLoopCorrect(A.p, 0, bl); }
    ghost var v := A.Abs();
    if A.s < 0 && y != 0 {
      if ShiftSafe(bl) { NegatedMod(v, bl); }
      y := bl - y;
    } else if A.s < 0 {
      if ShiftSafe(bl) { NegatedMod(v, bl); }
    }
    r := y;
    ret := Ok;
  }

  lemma NegatedMod(v: nat, b: int)
    requires b > 0
    ensures (0 - v) % b == if v % b == 0 then 0 else b - v % b
  {
    DivMod(v, b);
    var q, r := v / b, v % b;
    Distr(-q, 1, b);
    if r == 0 {
      DivModUnique(0 - v, b, -q, 0);
    } else {
      DivModUnique(0 - v, b, -q - 1, b - r);
    }
  }

  lemma ParityOfSigned(s: sign, a: nat)
    ensures Signed(s, a) % 2 == a % 2
  {}

  lemma BitZero(x: limb)
    ensures BitOf(x, 0) == x % 2
  {
    PowOne(2);
    PlaceZero();
  }
}
