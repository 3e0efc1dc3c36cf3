/** Modular inverse by the binary extended Euclidean algorithm
    (HAC 14.61 / 14.64). */
module ModInverse {
  import opened Arith
  import opened Limbs
  import opened MpiCore
  import opened MpiAdd
  import opened MpiShift
  import opened MpiMod
  import opened MpiGcd

  // ------------------------------------------------------------ one halving step

  /** t with the coefficients that express it: t = c1 * ta + c2 * tb. */
  datatype Column = Column(t: int, c1: int, c2: int)

  ghost predicate Bezout(c: Column, ta: int, tb: int) {
    c.t == c.c1 * ta + c.c2 * tb
  }

  /** One pass of the inner loops: halve t, making both coefficients even first. */
  function HalfColumn(c: Column, ta: int, tb: int): Column {
    if c.c1 % 2 != 0 || c.c2 % 2 != 0 then Column(c.t / 2, (c.c1 + tb) / 2, (c.c2 - ta) / 2)
    else Column(c.t / 2, c.c1 / 2, c.c2 / 2)
  }

  lemma ParityOfProduct(x: int, y: int)
    ensures (x * y) % 2 == if x % 2 == 1 && y % 2 == 1 then 1 else 0
  {
    DivMod(x, 2);
    DivMod(y, 2);
    var h, k := x / 2, y / 2;
    if x % 2 == 0 {
      MulAssoc(2, h, y);
      DivModUnique(x * y, 2, h * y, 0);
    } else if y % 2 == 0 {
      MulAssoc(x, k, 2);
      DivModUnique(x * y, 2, x * k, 0);
    } else {
      Distr(2 * h, 1, y);
      MulAssoc(2, h, y);
      DivModUnique(x * y, 2, h * y + k, 1);
    }
  }

  /** Every halving is exact, whatever the parities of ta and tb, as long as they
      are not both even. */
  lemma HalvingExact(c: Column, ta: int, tb: int)
    requires Bezout(c, ta, tb) && c.t % 2 == 0 && (ta % 2 == 1 || tb % 2 == 1)
    ensures Bezout(HalfColumn(c, ta, tb), ta, tb)
    ensures c.c1 % 2 != 0 || c.c2 % 2 != 0 ==> (c.c1 + tb) % 2 == 0 && (c.c2 - ta) % 2 == 0
  {
    if c.c1 % 2 != 0 || c.c2 % 2 != 0 {
      EvenTogether(c.t, c.c1, c.c2, ta, tb);
      Distr(c.c1, tb, ta);
      Distr(c.c2, ta, tb);
      HalvedSum(c.c1 + tb, c.c2 - ta, ta, tb, c.t);
    } else {
      HalvedSum(c.c1, c.c2, ta, tb, c.t);
    }
  }

  lemma EvenTogether(t: int, c1: int, c2: int, ta: int, tb: int)
    requires t == c1 * ta + c2 * tb && t % 2 == 0 && (ta % 2 == 1 || tb % 2 == 1) && (c1 % 2 == 1 || c2 % 2 == 1)
    ensures (c1 + tb) % 2 == 0 && (c2 - ta) % 2 == 0
  {
    var p, q := c1 * ta, c2 * tb;
    ParityOfProduct(c1, ta);
    ParityOfProduct(c2, tb);
    EvenSum(p, q);
    ParityCases(c1 % 2, c2 % 2, ta % 2, tb % 2);
    EvenPair(c1, tb);
    EvenPair(c2, ta);
  }

  lemma ParityCases(c1: int, c2: int, ta: int, tb: int)
    requires 0 <= c1 <= 1 && 0 <= c2 <= 1 && 0 <= ta <= 1 && 0 <= tb <= 1
    requires (c1 == 1 && ta == 1) == (c2 == 1 && tb == 1) && (ta == 1 || tb == 1) && (c1 == 1 || c2 == 1)
    ensures c1 == tb && c2 == ta
  {}

  lemma EvenPair(x: int, y: int)
    requires x % 2 == y % 2
    ensures (x + y) % 2 == 0 && (x - y) % 2 == 0
  {}

  lemma EvenSum(p: int, q: int)
    requires (p + q) % 2 == 0
    ensures p % 2 == q % 2
  {}

  lemma HalvedSum(c1: int, c2: int, ta: int, tb: int, t: int)
    requires c1 % 2 == 0 && c2 % 2 == 0 && t == c1 * ta + c2 * tb
    ensures t / 2 == (c1 / 2) * ta + (c2 / 2) * tb
  {
    MulAssoc(2, c1 / 2, ta);
    MulAssoc(2, c2 / 2, tb);
    DivModUnique(t, 2, (c1 / 2) * ta + (c2 / 2) * tb, 0);
  }

  /** `k` passes of an inner loop. */
  function HalfTimes(c: Column, ta: int, tb: int, k: nat): Column {
    if k == 0 then c else HalfColumn(HalfTimes(c, ta, tb, k - 1), ta, tb)
  }

  function Minus(c: Column, e: Column): Column {
    Column(c.t - e.t, c.c1 - e.c1, c.c2 - e.c2)
  }

  // ------------------------------------------------------------ the whole loop

  /** Where the do-while loop stands: in its first inner loop, in its second, or
      behind its end. */
  datatype Loop = HalvingU(u: Column, v: Column) | HalvingV(u: Column, v: Column) | Left(u: Column, v: Column)

  /** One pass of an inner loop, the way from the first to the second, or the
      subtraction with the test at the end. */
  function Step(l: Loop, ta: int, tb: int): Loop {
    match l
    case HalvingU(u, v) => if u.t % 2 == 0 then HalvingU(HalfColumn(u, ta, tb), v) else HalvingV(u, v)
    case HalvingV(u, v) =>
      if v.t % 2 == 0 then HalvingV(u, HalfColumn(v, ta, tb))
      else if u.t >= v.t then Tested(Minus(u, v), v)
      else Tested(u, Minus(v, u))
    case Left(u, v) => l
  }

  function Tested(u: Column, v: Column): Loop {
    if u.t != 0 then HalvingU(u, v) else Left(u, v)
  }

  function Steps(l: Loop, ta: int, tb: int, k: nat): Loop {
    if k == 0 then l else Step(Steps(l, ta, tb, k - 1), ta, tb)
  }

  lemma {:induction false} StepsAdd(l: Loop, ta: int, tb: int, j: nat, k: nat)
    ensures Steps(l, ta, tb, j + k) == Steps(Steps(l, ta, tb, j), ta, tb, k)
  {
    hide Step;
    if k > 0 { StepsAdd(l, ta, tb, j, k - 1); }
  }

  /** While the numbers are even the machine halves them, first one, then the other. */
  lemma {:induction false} HalvingSteps(u: Column, v: Column, ta: int, tb: int, k: nat)
    requires forall j: nat :: j < k ==> HalfTimes(u, ta, tb, j).t % 2 == 0
    ensures Steps(HalvingU(u, v), ta, tb, k) == HalvingU(HalfTimes(u, ta, tb, k), v)
  {
    hide HalfColumn;
    if k > 0 { HalvingSteps(u, v, ta, tb, k - 1); }
  }

  lemma {:induction false} HalvingStepsV(u: Column, v: Column, ta: int, tb: int, k: nat)
    requires forall j: nat :: j < k ==> HalfTimes(v, ta, tb, j).t % 2 == 0
    ensures Steps(HalvingV(u, v), ta, tb, k) == HalvingV(u, HalfTimes(v, ta, tb, k))
  {
    hide HalfColumn;
    if k > 0 { HalvingStepsV(u, v, ta, tb, k - 1); }
  }

  /** A whole round of the loop, in steps of the machine. */
  lemma RoundSteps(u: Column, v: Column, ta: int, tb: int, j: nat, k: nat)
    requires forall i: nat :: i < j ==> HalfTimes(u, ta, tb, i).t % 2 == 0
    requires forall i: nat :: i < k ==> HalfTimes(v, ta, tb, i).t % 2 == 0
    requires HalfTimes(u, ta, tb, j).t % 2 == 1 && HalfTimes(v, ta, tb, k).t % 2 == 1
    ensures var u', v' := HalfTimes(u, ta, tb, j), HalfTimes(v, ta, tb, k);
            Steps(HalvingU(u, v), ta, tb, j + 1 + k + 1) == if u'.t >= v'.t then Tested(Minus(u', v'), v') else Tested(u', Minus(v', u'))
  {
    var u', v' := HalfTimes(u, ta, tb, j), HalfTimes(v, ta, tb, k);
    HalvingSteps(u, v, ta, tb, j);
    assert Steps(HalvingU(u, v), ta, tb, j + 1) == HalvingV(u', v);
    StepsAdd(HalvingU(u, v), ta, tb, j + 1, k);
    HalvingStepsV(u', v, ta, tb, k);
    hide HalfColumn, HalfTimes;
    assert Steps(HalvingU(u, v), ta, tb, j + 1 + k) == HalvingV(u', v');
  }

  /** The loop as it is entered for the reduced A and N. */
  function Entered(ta: int, tb: int): Loop {
    HalvingU(Column(ta, 1, 0), Column(tb, 0, 1))
  }

  /** From positive numbers the machine leaves the loop: every step that does not
      makes the sum smaller, or keeps it and changes to the second inner loop. */
  lemma {:induction false} PositiveLeaves(l: Loop, ta: int, tb: int) returns (k: nat)
    requires l.Left? || (l.u.t > 0 && l.v.t > 0)
    ensures Steps(l, ta, tb, k).Left?
    decreases if l.Left? then 0 else 2 * (l.u.t + l.v.t) + if l.HalvingU? then 1 else 0
  {
    k := 0;
    if !l.Left? {
      var next := Step(l, ta, tb);
      k := PositiveLeaves(next, ta, tb);
      StepsAdd(l, ta, tb, 1, k);
      assert Steps(l, ta, tb, 1) == next by { assert Steps(l, ta, tb, 0) == l; }
      k := 1 + k;
    }
  }

  /** From zero it stays in the first inner loop, after any number of passes. */
  lemma {:induction false} ZeroStays(c: Column, v: Column, ta: int, tb: int, k: nat)
    requires c.t == 0
    ensures HalfTimes(c, ta, tb, k).t == 0
    ensures Steps(HalvingU(c, v), ta, tb, k) == HalvingU(HalfTimes(c, ta, tb, k), v)
  {
    if k > 0 { ZeroStays(c, v, ta, tb, k - 1); }
  }

  /** With N = 1 the test for a gcd of one never refuses, A is reduced to zero, and
      after any number of passes the guard of the first inner loop still holds. */
  lemma ModulusOneNeverLeaves(s: sign, a: nat, k: nat)
    ensures Gcd(a, 1) == 1 && Signed(s, a) % 1 == 0
    ensures Steps(Entered(0, 1), 0, 1, k).HalvingU? && Steps(Entered(0, 1), 0, 1, k).u.t % 2 == 0
  {
    hide Gcd, Divides;
    GcdIsGreatest(a, 1);
    DividesLe(Gcd(a, 1), 1);
    ZeroStays(Column(0, 1, 0), Column(1, 0, 1), 0, 1, k);
  }

  /** For every modulus that is let through, the loop is left if and only if the
      modulus is not one. */
  lemma LoopLeavesExact(s: sign, a: nat, n: nat)
    requires n > 0 && Gcd(a, n) == 1
    ensures var ta := Signed(s, a) % n;
            (exists k: nat :: Steps(Entered(ta, n), ta, n, k).Left?) <==> n != 1
  {
    hide Gcd, Steps;
    var ta := Signed(s, a) % n;
    if n == 1 {
      forall k: nat
        ensures !Steps(Entered(ta, n), ta, n, k).Left?
      {
        ModulusOneNeverLeaves(s, a, k);
      }
    } else {
      CoprimeStart(s, a, n, ta);
      var k := PositiveLeaves(Entered(ta, n), ta, n);
    }
  }

  // ------------------------------------------------------------------ the columns

  ghost predicate InColumn(T: Mpi, C1: Mpi, C2: Mpi, c: Column)
    reads T, C1, C2
  {
    c == Column(T.Value(), C1.Value(), C2.Value()) && |T.p| > 0 && |C1.p| > 0 && |C2.p| > 0
  }

  lemma ParityOfLimbs(X: Mpi)
    requires |X.p| > 0
    ensures X.p[0] % 2 == X.Value() % 2
  {
    hide Pow, Val;
    ValParity(X.p);
    ParityOfSigned(X.s, X.Abs());
  }

  /** Halving an even number, of either sign, is exact. */
  method Halve(X: Mpi)
    requires |X.p| > 0 && X.Value() % 2 == 0
    modifies X
    ensures X.Value() == old(X.Value()) / 2 && |X.p| > 0
  {
    hide Pow, Val;
    PowOne(2);
    ShiftR(X, 1);
  }

  method HalveOnce(T: Mpi, C1: Mpi, C2: Mpi, TA: Mpi, TB: Mpi, ghost c: Column)
    requires T != C1 && T != C2 && C1 != C2 && T != TA && T != TB && C1 != TA && C1 != TB && C2 != TA && C2 != TB
    requires InColumn(T, C1, C2, c) && |TA.p| > 0 && |TB.p| > 0
    requires c.t % 2 == 0 && Bezout(c, TA.Value(), TB.Value()) && (TA.Value() % 2 == 1 || TB.Value() % 2 == 1)
    modifies T, C1, C2
    ensures InColumn(T, C1, C2, HalfColumn(c, TA.Value(), TB.Value()))
  {
    hide Pow, Val, Bezout;
    Halve(T);
    HalvingExact(c, TA.Value(), TB.Value());
    ParityOfLimbs(C1);
    ParityOfLimbs(C2);
    if C1.p[0] % 2 != 0 || C2.p[0] % 2 != 0 {
      AddMpi(C1, C1, TB);
      SubMpi(C2, C2, TA);
    }
    Halve(C1);
    Halve(C2);
  }

  /** `while( ( T.p[0] & 1 ) == 0 ) ...` */
  method HalveWhileEven(T: Mpi, C1: Mpi, C2: Mpi, TA: Mpi, TB: Mpi, ghost c0: Column) returns (ghost c: Column, ghost k: nat)
    requires T != C1 && T != C2 && C1 != C2 && T != TA && T != TB && C1 != TA && C1 != TB && C2 != TA && C2 != TB
    requires InColumn(T, C1, C2, c0) && |TA.p| > 0 && |TB.p| > 0
    requires c0.t > 0 && Bezout(c0, TA.Value(), TB.Value()) && (TA.Value() % 2 == 1 || TB.Value() % 2 == 1)
    modifies T, C1, C2
    ensures InColumn(T, C1, C2, c) && Bezout(c, TA.Value(), TB.Value())
    ensures 0 < c.t <= c0.t && c.t % 2 == 1 && Divides(c.t, c0.t)
    ensures c == HalfTimes(c0, TA.Value(), TB.Value(), k) && forall j: nat :: j < k ==> HalfTimes(c0, TA.Value(), TB.Value(), j).t % 2 == 0
  {
    hide Pow, Val, Bezout, HalfColumn, Divides;
    c, k := c0, 0;
    DividesIntro(c.t, c0.t, 1);
    ParityOfLimbs(T);
    while T.p[0] % 2 == 0
      invariant InColumn(T, C1, C2, c) && Bezout(c, TA.Value(), TB.Value())
      invariant 0 < c.t <= c0.t && Divides(c.t, c0.t) && T.p[0] % 2 == c.t % 2
      invariant c == HalfTimes(c0, TA.Value(), TB.Value(), k) && forall j: nat :: j < k ==> HalfTimes(c0, TA.Value(), TB.Value(), j).t % 2 == 0
      decreases c.t
    {
      HalvingExact(c, TA.Value(), TB.Value());
      HalfIsDivisor(c, TA.Value(), TB.Value());
      DividesTrans(HalfColumn(c, TA.Value(), TB.Value()).t, c.t, c0.t);
      HalveOnce(T, C1, C2, TA, TB, c);
      c, k := HalfColumn(c, TA.Value(), TB.Value()), k + 1;
      ParityOfLimbs(T);
    }
  }

  lemma HalfIsDivisor(c: Column, ta: int, tb: int)
    requires c.t > 0 && c.t % 2 == 0
    ensures 0 < HalfColumn(c, ta, tb).t < c.t && Divides(HalfColumn(c, ta, tb).t, c.t)
  {
    DividesIntro(c.t / 2, c.t, 2);
  }

  // --------------------------------------------------------------- coprime pairs

  ghost predicate Coprime(u: int, v: int) {
    forall d: nat :: CommonDivisor(d, u, v) ==> d == 1
  }

  lemma CoprimeDivisors(u: int, v: int, u': nat, v': nat)
    requires Coprime(u, v) && Divides(u', u) && Divides(v', v)
    ensures Coprime(u', v')
  {
    forall d: nat | CommonDivisor(d, u', v')
      ensures d == 1
    {
      DividesTrans(d, u', u);
      DividesTrans(d, v', v);
      assert CommonDivisor(d, u, v);
    }
  }

  lemma CoprimeSub(u: int, v: int)
    requires Coprime(u, v)
    ensures Coprime(u - v, v) && Coprime(u, v - u)
  {
    var x, y := u - v, v - u;
    forall d: nat | CommonDivisor(d, x, v)
      ensures d == 1
    {
      DividesSum(d, x, v);
      assert CommonDivisor(d, u, v);
    }
    forall d: nat | CommonDivisor(d, u, y)
      ensures d == 1
    {
      DividesSum(d, y, u);
      assert CommonDivisor(d, u, v);
    }
  }

  lemma CoprimeZero(v: nat)
    requires Coprime(0, v)
    ensures v == 1
  {
    DividesIntro(v, 0, 0);
    DividesIntro(v, v, 1);
    assert CommonDivisor(v, 0, v);
  }

  /** gcd(|A|, N) = 1 makes A mod N and N coprime, so not both even, and A mod N
      non-zero once N > 1. */
  lemma CoprimeStart(s: sign, a: nat, n: nat, ta: nat)
    requires n > 1 && Gcd(a, n) == 1 && ta == Signed(s, a) % n
    ensures Coprime(ta, n) && ta > 0 && (ta % 2 == 1 || n % 2 == 1)
  {
    hide Gcd, Divides;
    var v := Signed(s, a);
    DivMod(v, n);
    GcdIsGreatest(a, n);
    forall d: nat | CommonDivisor(d, ta, n)
      ensures d == 1
    {
      DividesMul(d, n, v / n);
      DividesSum(d, (v / n) * n, ta);
      DividesSigned(d, s, a);
      assert CommonDivisor(d, a, n);
      DividesLe(d, 1);
    }
    if ta == 0 { CoprimeZero(n); }
    assert CommonDivisor(2, ta, n) ==> 2 == 1;
    if ta % 2 == 0 { DividesIntro(2, ta, ta / 2); }
    if n % 2 == 0 { DividesIntro(2, n, n / 2); }
  }

  lemma DividesSigned(d: nat, s: sign, a: nat)
    requires Divides(d, Signed(s, a))
    ensures Divides(d, a)
  {
    if s < 0 { DividesMul(d, Signed(s, a), -1); }
  }

  // --------------------------------------------------------------- the main loop

  ghost predicate Apart(T: Mpi, C1: Mpi, C2: Mpi, S: Mpi, D1: Mpi, D2: Mpi, TA: Mpi, TB: Mpi) {
    && T != C1 && T != C2 && C1 != C2 && S != D1 && S != D2 && D1 != D2
    && T !in {S, D1, D2, TA, TB} && C1 !in {S, D1, D2, TA, TB} && C2 !in {S, D1, D2, TA, TB}
    && S !in {TA, TB} && D1 !in {TA, TB} && D2 !in {TA, TB}
  }

  lemma BezoutMinus(c: Column, e: Column, ta: int, tb: int)
    requires Bezout(c, ta, tb) && Bezout(e, ta, tb)
    ensures Bezout(Minus(c, e), ta, tb)
  {
    Distr(c.c1, e.c1, ta);
    Distr(c.c2, e.c2, tb);
  }

  method SubColumn(T: Mpi, C1: Mpi, C2: Mpi, S: Mpi, D1: Mpi, D2: Mpi, TA: Mpi, TB: Mpi, ghost c: Column, ghost e: Column)
    requires Apart(T, C1, C2, S, D1, D2, TA, TB)
    requires InColumn(T, C1, C2, c) && InColumn(S, D1, D2, e)
    modifies T, C1, C2
    ensures InColumn(T, C1, C2, Minus(c, e))
  {
    hide Pow, Val;
    SubMpi(T, T, S);
    SubMpi(C1, C1, D1);
    SubMpi(C2, C2, D2);
  }

  /** One round of the do-while loop. */
  method Round(TU: Mpi, U1: Mpi, U2: Mpi, TV: Mpi, V1: Mpi, V2: Mpi, TA: Mpi, TB: Mpi, ghost u0: Column, ghost v0: Column)
    returns (ghost u: Column, ghost v: Column, ghost k: nat)
    requires Apart(TU, U1, U2, TV, V1, V2, TA, TB) && |TA.p| > 0 && |TB.p| > 0
    requires TA.Value() % 2 == 1 || TB.Value() % 2 == 1
    requires InColumn(TU, U1, U2, u0) && Bezout(u0, TA.Value(), TB.Value())
    requires InColumn(TV, V1, V2, v0) && Bezout(v0, TA.Value(), TB.Value())
    requires u0.t > 0 && v0.t > 0 && Coprime(u0.t, v0.t)
    modifies TU, U1, U2, TV, V1, V2
    ensures InColumn(TU, U1, U2, u) && Bezout(u, TA.Value(), TB.Value())
    ensures InColumn(TV, V1, V2, v) && Bezout(v, TA.Value(), TB.Value())
    ensures u.t >= 0 && v.t > 0 && Coprime(u.t, v.t) && u.t + v.t < u0.t + v0.t
    ensures Steps(HalvingU(u0, v0), TA.Value(), TB.Value(), k) == Tested(u, v)
  {
    hide Pow, Val, Bezout, Coprime, Divides, HalfTimes, Steps;
    ghost var i, j;
    u, i := HalveWhileEven(TU, U1, U2, TA, TB, u0);
    v, j := HalveWhileEven(TV, V1, V2, TA, TB, v0);
    RoundSteps(u0, v0, TA.Value(), TB.Value(), i, j);
    k := i + 1 + j + 1;
    CoprimeDivisors(u0.t, v0.t, u.t, v.t);
    CoprimeSub(u.t, v.t);
    var c := CmpMpi(TU, TV);
    if c >= 0 {
      BezoutMinus(u, v, TA.Value(), TB.Value());
      SubColumn(TU, U1, U2, TV, V1, V2, TA, TB, u, v);
      u := Minus(u, v);
    } else {
      BezoutMinus(v, u, TA.Value(), TB.Value());
      SubColumn(TV, V1, V2, TU, U1, U2, TA, TB, v, u);
      v := Minus(v, u);
    }
  }

  /** A copy of `S` with its two coefficients. */
  method NewColumn(S: Mpi, c1: int, c2: int) returns (T: Mpi, C1: Mpi, C2: Mpi)
    requires |S.p| > 0 && 0 <= c1 <= 1 && 0 <= c2 <= 1
    ensures fresh(T) && fresh(C1) && fresh(C2) && T != C1 && T != C2 && C1 != C2
    ensures InColumn(T, C1, C2, Column(S.Value(), c1, c2))
  {
    hide Pow, Val;
    SmallIsSint();
    T := new Mpi();
    Copy(T, S);
    C1 := new Mpi();
    Lset(C1, c1);
    C2 := new Mpi();
    Lset(C2, c2);
  }

  /** The loop: V1 ends as a coefficient with V1 * ta = 1 modulo tb. */
  method Extend(TA: Mpi, TB: Mpi) returns (V1: Mpi, ghost k: nat)
    requires TA != TB && |TA.p| > 0 && |TB.p| > 0 && 0 < TA.Value() && 0 < TB.Value()
    requires Coprime(TA.Value(), TB.Value()) && (TA.Value() % 2 == 1 || TB.Value() % 2 == 1)
    ensures fresh(V1) && |V1.p| > 0 && Cong(V1.Value() * TA.Value(), 1, TB.Value())
    ensures var l := Steps(Entered(TA.Value(), TB.Value()), TA.Value(), TB.Value(), k); l.Left? && V1.Value() == l.v.c1
  {
    hide Pow, Val, Bezout, Coprime, Cong, Steps, Reached, Tested;
    ghost var ta, tb := TA.Value(), TB.Value();
    var TU, U1, U2 := NewColumn(TA, 1, 0);
    var TV, V2;
    TV, V1, V2 := NewColumn(TB, 0, 1);
    ghost var u, v := Column(ta, 1, 0), Column(tb, 0, 1);
    BezoutStart(ta, tb);
    k := 0;
    ReachedStart(ta, tb);
    var z := 1;
    while z != 0
      invariant Apart(TU, U1, U2, TV, V1, V2, TA, TB)
      invariant fresh(TU) && fresh(U1) && fresh(U2) && fresh(TV) && fresh(V1) && fresh(V2)
      invariant InColumn(TU, U1, U2, u) && Bezout(u, ta, tb)
      invariant InColumn(TV, V1, V2, v) && Bezout(v, ta, tb)
      invariant u.t >= 0 && v.t > 0 && Coprime(u.t, v.t) && (z == 0 <==> u.t == 0)
      invariant Reached(ta, tb, k, u, v)
      decreases u.t + v.t
    {
      ghost var u', v', j := Round(TU, U1, U2, TV, V1, V2, TA, TB, u, v);
      ReachedOn(ta, tb, k, u, v, j, u', v');
      u, v, k := u', v', k + j;
      z := CmpInt(TU, 0);
    }
    ReachedEnd(ta, tb, k, u, v);
    CoprimeZero(v.t);
    BezoutInverse(v, ta, tb);
  }

  /** The machine has come to the test at the end of a round, or to the entry. */
  ghost predicate Reached(ta: int, tb: int, k: nat, u: Column, v: Column) {
    Steps(Entered(ta, tb), ta, tb, k) == Tested(u, v)
  }

  lemma ReachedStart(ta: int, tb: int)
    requires ta != 0
    ensures Reached(ta, tb, 0, Column(ta, 1, 0), Column(tb, 0, 1))
  {}

  lemma ReachedOn(ta: int, tb: int, k: nat, u: Column, v: Column, j: nat, u': Column, v': Column)
    requires Reached(ta, tb, k, u, v) && u.t != 0 && Steps(HalvingU(u, v), ta, tb, j) == Tested(u', v')
    ensures Reached(ta, tb, k + j, u', v')
  {
    hide Steps;
    StepsAdd(Entered(ta, tb), ta, tb, k, j);
  }

  lemma ReachedEnd(ta: int, tb: int, k: nat, u: Column, v: Column)
    requires Reached(ta, tb, k, u, v) && u.t == 0
    ensures Steps(Entered(ta, tb), ta, tb, k) == Left(u, v)
  {}

  lemma BezoutStart(ta: int, tb: int)
    ensures Bezout(Column(ta, 1, 0), ta, tb) && Bezout(Column(tb, 0, 1), ta, tb)
  {}

  lemma BezoutInverse(v: Column, ta: int, tb: int)
    requires Bezout(v, ta, tb) && v.t == 1 && tb > 0
    ensures Cong(v.c1 * ta, 1, tb)
  {
    CongIntro(v.c1 * ta, 1, tb, -v.c2);
  }

  /** V1 := V1 mod N by adding or subtracting N. */
  method IntoRange(V1: Mpi, N: Mpi)
    requires V1 != N && |V1.p| > 0 && |N.p| > 0 && N.Value() > 0
    modifies V1
    ensures 0 <= V1.Value() < N.Value() && Cong(V1.Value(), old(V1.Value()), N.Value())
  {
    hide Pow, Val, Cong;
    ghost var v, n := V1.Value(), N.Value();
    CongRefl(v, n);
    var c := CmpInt(V1, 0);
    while c < 0
      invariant c == Order(V1.Value(), 0) && Cong(V1.Value(), v, n) && |V1.p| > 0
      decreases 0 - V1.Value()
    {
      CongShift(V1.Value(), v, n);
      AddMpi(V1, V1, N);
      c := CmpInt(V1, 0);
    }
    c := CmpMpi(V1, N);
    while c >= 0
      invariant c == Order(V1.Value(), n) && 0 <= V1.Value() && Cong(V1.Value(), v, n) && |V1.p| > 0
      decreases V1.Value()
    {
      CongShift(V1.Value(), v, n);
      SubMpi(V1, V1, N);
      c := CmpMpi(V1, N);
    }
  }

  /** X := A^-1 mod N, for any aliasing. Not called with N = 1, where the source
      does not terminate. */
  method InvMod(X: Mpi, A: Mpi, N: Mpi) returns (ret: Status)
    requires N.Value() != 1
    modifies X
    ensures ret == if old(N.Value()) <= 0 then BadInputData else if Gcd(old(A.Abs()), old(N.Abs())) != 1 then NotAcceptable else Ok
    ensures ret != Ok ==> unchanged(X)
    ensures ret == Ok ==> 0 <= X.Value() < old(N.Value()) && (old(A.Value()) * X.Value()) % old(N.Value()) == 1
  {
    hide Pow, Val, Gcd, Coprime, Cong;
    var c := CmpInt(N, 0);
    if c <= 0 { return BadInputData; }
    ghost var a, n := A.Value(), N.Value();
    SmallIsSint();
    var G := new Mpi();
    GcdMpi(G, A, N);
    c := CmpInt(G, 1);
    if c != 0 { return NotAcceptable; }
    var TA := new Mpi();
    var _ := ModMpi(TA, A, N);
    ghost var ta := TA.Value();
    DivMod(a, n);
    CoprimeStart(A.s, A.Abs(), n, ta);
    var TB := new Mpi();
    NegativeHasLimbs(N);
    NegativeHasLimbs(TA);
    Copy(TB, N);
    NegativeHasLimbs(TB);
    var V1, _ := Extend(TA, TB);
    ghost var v := V1.Value();
    IntoRange(V1, N);
    InverseOfReduced(a, ta, v, V1.Value(), n);
    Copy(X, V1);
    return Ok;
  }

  lemma InverseOfReduced(a: int, ta: int, v: int, x: int, n: int)
    requires n > 1 && ta == a % n && Cong(v * ta, 1, n) && Cong(x, v, n)
    ensures (a * x) % n == 1
  {
    hide Cong;
    CongMod(a, n);
    CongMul(x, v, a, ta, n);
    CongTrans(x * a, v * ta, 1, n);
    OneMod(x * a, n);
    assert x * a == a * x;
  }

  lemma OneMod(y: int, n: int)
    requires n > 1 && Cong(y, 1, n)
    ensures y % n == 1
  {
    CongSameMod(y, 1, n);
    DivModUnique(1, n, 0, 1);
  }

  /** The inverse is the only one in range. */
  lemma InverseUnique(a: int, n: nat, x: nat, y: nat)
    requires n > 1 && x < n && y < n && (a * x) % n == 1 && (a * y) % n == 1
    ensures x == y
  {
    hide Cong;
    CongMod(a * x, n);
    CongMod(a * y, n);
    CongMulLeft(a * x, 1, y, n);
    CongMulLeft(a * y, 1, x, n);
    var z := (a * x) * y;
    assert z == (a * y) * x by { MulAssoc(a, x, y); MulAssoc(a, y, x); }
    CongSym(z, y, n);
    CongTrans(y, z, x, n);
    CongInRange(y, x, n);
    DivModUnique(x, n, 0, x);
  }

  /** There is an inverse only when gcd(A, N) is 1: `NotAcceptable` refuses no
      number that has one. */
  lemma InvertibleIsCoprime(s: sign, a: nat, n: nat, x: nat)
    requires n > 1 && (Signed(s, a) * x) % n == 1
    ensures Gcd(a, n) == 1
  {
    hide Gcd, Divides;
    var v, g := Signed(s, a), Gcd(a, n);
    var p := v * x;
    GcdIsGreatest(a, n);
    DivMod(p, n);
    DividesMul(g, a, if s < 0 then -1 else 1);
    DividesMul(g, v, x);
    DividesMul(g, n, p / n);
    DividesSum(g, p, (p / n) * n);
    DividesLe(g, 1);
  }
}
