/** Binary greatest common divisor (HAC 14.54). */
module MpiGcd {
  import opened Arith
  import opened Limbs
  import opened MpiCore
  import opened MpiAdd
  import opened MpiShift

  /** v with its trailing zero bits removed. */
  ghost predicate OddPartOf(v: nat, odd: nat, k: nat) {
    odd % 2 == 1 && v == Pow(2, k) * odd
  }

  /** `X >>= lsb(X)`. */
  method DropZeros(X: Mpi) returns (ghost k: nat)
    requires X.Value() >= 0
    modifies X
    ensures X.Value() == X.Abs()
    ensures old(X.Abs()) == 0 ==> X.Abs() == 0
    ensures old(X.Abs()) > 0 ==> OddPartOf(old(X.Abs()), X.Abs(), k)
  {
    hide Pow, Val;
    ghost var v := X.Abs();
    var n := Lsb(X);
    k := n;
    DivMod(v, Pow(2, n));
    PowOne(2);
    ShiftR(X, n);
  }

  lemma OddPartLe(v: nat, odd: nat, k: nat)
    requires OddPartOf(v, odd, k)
    ensures 0 < odd <= v
  {
    hide Pow;
    MulMono(1, Pow(2, k), odd);
  }

  /** Dropping the zeros of two numbers that are not both even keeps their gcd. */
  lemma GcdOddParts(a: nat, b: nat, a1: nat, k: nat, b1: nat, l: nat)
    requires OddPartOf(a, a1, k) && OddPartOf(b, b1, l) && (a % 2 == 1 || b % 2 == 1)
    ensures Gcd(a, b) == Gcd(a1, b1)
  {
    hide Pow, Gcd;
    if a % 2 == 1 {
      OddStays(a, a1, k);
      GcdSym(a, b);
      GcdDropPow2(b1, l, a1);
      GcdSym(a1, b1);
    } else {
      OddStays(b, b1, l);
      GcdDropPow2(a1, k, b1);
    }
  }

  lemma OddStays(v: nat, odd: nat, k: nat)
    requires OddPartOf(v, odd, k) && v % 2 == 1
    ensures v == odd
  {
    hide Pow;
    PowOne(2);
    if k > 0 {
      PowSucc(2, k - 1);
      MulAssoc(2, Pow(2, k - 1), odd);
    }
  }

  /** Subtracting odd from odd and halving keeps the gcd. */
  lemma GcdSubHalf(a: nat, b: nat)
    requires a >= b && a % 2 == 1 && b % 2 == 1
    ensures (a - b) % 2 == 0 && Gcd((a - b) / 2, b) == Gcd(a, b)
  {
    hide Gcd;
    GcdSub(a, b);
    GcdDropTwo((a - b) / 2, b);
  }

  /** Taking out the common power of two, `lz` being the smaller count. */
  lemma CommonShift(a: nat, b: nat, la: nat, lb: nat, lz: nat)
    requires a > 0 && b > 0 && lz == if lb < la then lb else la
    requires a % Pow(2, la) == 0 && (a / Pow(2, la)) % 2 == 1
    requires b % Pow(2, lb) == 0 && (b / Pow(2, lb)) % 2 == 1
    ensures a == Pow(2, lz) * (a / Pow(2, lz)) && b == Pow(2, lz) * (b / Pow(2, lz))
    ensures a / Pow(2, lz) > 0 && b / Pow(2, lz) > 0
    ensures (a / Pow(2, lz)) % 2 == 1 || (b / Pow(2, lz)) % 2 == 1
  {
    ShiftExact(a, la, lz);
    ShiftExact(b, lb, lz);
  }

  lemma ShiftExact(a: nat, la: nat, lz: nat)
    requires a > 0 && lz <= la && a % Pow(2, la) == 0
    ensures a == Pow(2, lz) * (a / Pow(2, lz)) && a / Pow(2, lz) > 0
  {
    hide Pow;
    var c, d := Pow(2, lz), Pow(2, la - lz);
    PowAdd(2, lz, la - lz);
    DivMod(a, c * d);
    var k := a / (c * d);
    MulAssoc(k, d, c);
    DivModUnique(a, c, k * d, 0);
    if k * d <= 0 { MulMono(k * d, 0, c); }
  }

  /** What the routine returns: the gcd, except that gcd(A, 0) comes out as 0. */
  ghost function GcdResult(a: nat, b: nat): nat {
    if b == 0 then 0 else Gcd(a, b)
  }

  /** ... which is the gcd exactly when B is not zero, or A is zero too. */
  lemma GcdResultExact(a: nat, b: nat)
    ensures GcdResult(a, b) == Gcd(a, b) <==> b != 0 || a == 0
  {}

  /** The reduction loop: both odd, subtract the smaller, halve. */
  method Reduce(TA: Mpi, TB: Mpi)
    requires TA != TB && TA.Value() >= 0 && TB.Value() >= 0
    requires TA.Abs() > 0 && TB.Abs() > 0 ==> TA.Abs() % 2 == 1 || TB.Abs() % 2 == 1
    modifies TA, TB
    ensures TB.Value() == TB.Abs() == GcdResult(old(TA.Abs()), old(TB.Abs()))
  {
    hide Pow, Val, Gcd, OddPartOf;
    ghost var a, b := TA.Abs(), TB.Abs();
    GcdZero(b);
    var z := CmpInt(TA, 0);
    while z != 0
      invariant z == Order(TA.Value(), 0) && TA.Value() >= 0 && TB.Value() >= 0
      invariant TB.Abs() == 0 <==> b == 0
      invariant TA.Abs() > 0 && TB.Abs() > 0 ==> TA.Abs() % 2 == 1 || TB.Abs() % 2 == 1
      invariant b > 0 ==> Gcd(TA.Abs(), TB.Abs()) == Gcd(a, b)
      decreases TA.Abs() + TB.Abs()
    {
      z := ReduceOnce(TA, TB);
      GcdZero(TB.Abs());
    }
    GcdZero(TB.Abs());
  }

  /** One round. The sum of the two falls. */
  method ReduceOnce(TA: Mpi, TB: Mpi) returns (z: int)
    requires TA != TB && TA.Value() > 0 && TB.Value() >= 0
    requires TB.Abs() > 0 ==> TA.Abs() % 2 == 1 || TB.Abs() % 2 == 1
    modifies TA, TB
    ensures z == Order(TA.Value(), 0) && TA.Value() >= 0 && TB.Value() >= 0
    ensures TB.Abs() == 0 <==> old(TB.Abs()) == 0
    ensures TA.Abs() > 0 && TB.Abs() > 0 ==> TA.Abs() % 2 == 1 || TB.Abs() % 2 == 1
    ensures old(TB.Abs()) > 0 ==> Gcd(TA.Abs(), TB.Abs()) == old(Gcd(TA.Abs(), TB.Abs()))
    ensures TA.Abs() + TB.Abs() < old(TA.Abs() + TB.Abs())
  {
    hide Pow, Val, Gcd, OddPartOf;
    ghost var a, b := TA.Abs(), TB.Abs();
    ghost var k := DropZeros(TA);
    ghost var l := DropZeros(TB);
    ghost var a1, b1 := TA.Abs(), TB.Abs();
    OddPartLe(a, a1, k);
    OddPartIsOdd(a, a1, k);
    if b > 0 {
      OddPartLe(b, b1, l);
      OddPartIsOdd(b, b1, l);
      GcdOddParts(a, b, a1, k, b1, l);
    }
    PowOne(2);
    var c := CmpMpi(TA, TB);
    if c >= 0 {
      if b > 0 { GcdSubHalf(a1, b1); }
      var _ := SubAbs(TA, TA, TB);
      ShiftR(TA, 1);
    } else {
      GcdSym(a1, b1);
      GcdSubHalf(b1, a1);
      var _ := SubAbs(TB, TB, TA);
      ShiftR(TB, 1);
      GcdSym(a1, TB.Abs());
    }
    z := CmpInt(TA, 0);
  }

  lemma OddPartIsOdd(v: nat, odd: nat, k: nat)
    requires OddPartOf(v, odd, k)
    ensures odd % 2 == 1
  {}

  lemma GcdResultScale(c: nat, a: nat, b: nat)
    requires c > 0
    ensures GcdResult(c * a, c * b) == c * GcdResult(a, b)
  {
    hide Gcd;
    GcdScale(c, a, b);
    if b > 0 { MulPos(c, b); }
  }

  /** Removes the power of two common to both (none when either is zero). */
  method DropCommon(TA: Mpi, TB: Mpi) returns (lz: nat)
    requires TA != TB
    modifies TA, TB
    ensures TA.Value() == TA.Abs() && TB.Value() == TB.Abs()
    ensures old(TA.Abs()) == Pow(2, lz) * TA.Abs() && old(TB.Abs()) == Pow(2, lz) * TB.Abs()
    ensures TA.Abs() > 0 && TB.Abs() > 0 ==> TA.Abs() % 2 == 1 || TB.Abs() % 2 == 1
  {
    hide Pow, Val, Gcd;
    ghost var a, b := TA.Abs(), TB.Abs();
    lz := Lsb(TA);
    var lzt := Lsb(TB);
    PowOne(2);
    if a > 0 && b > 0 {
      CommonShift(a, b, lz, lzt, if lzt < lz then lzt else lz);
    } else {
      DivModUnique(a, 1, a, 0);
      DivModUnique(b, 1, b, 0);
    }
    if lzt < lz { lz := lzt; }
    ShiftR(TA, lz);
    ShiftR(TB, lz);
    TA.s, TB.s := 1, 1;
  }

  /** G := gcd(A, B), for any aliasing. */
  method GcdMpi(G: Mpi, A: Mpi, B: Mpi)
    modifies G
    ensures G.Value() == GcdResult(old(A.Abs()), old(B.Abs()))
  {
    hide Pow, Val, GcdResult;
    var TA := new Mpi();
    Copy(TA, A);
    var TB := new Mpi();
    Copy(TB, B);
    var lz := DropCommon(TA, TB);
    GcdResultScale(Pow(2, lz), TA.Abs(), TB.Abs());
    Reduce(TA, TB);
    ShiftL(TB, lz);
    Copy(G, TB);
  }
}
