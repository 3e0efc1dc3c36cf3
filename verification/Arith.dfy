/** Integer facts the number-theoretic proofs rest on: powers, Euclidean
    division, congruence, divisibility and greatest common divisors. */
module Arith {

  // ---------------------------------------------------------------- powers

  function Pow(b: nat, e: nat): (r: nat)
    ensures b > 0 ==> r > 0
  {
    if e == 0 then 1 else b * Pow(b, e - 1)
  }

  lemma PowOne(b: nat)
    ensures Pow(b, 0) == 1 && Pow(b, 1) == b
  {
    PowSucc(b, 0);
  }

  lemma PowSucc(b: nat, e: nat)
    ensures Pow(b, e + 1) == b * Pow(b, e)
  {}

  lemma {:induction false} PowAdd(b: nat, d: nat, e: nat)
    ensures Pow(b, d + e) == Pow(b, d) * Pow(b, e)
  {
    if d > 0 {
      PowAdd(b, d - 1, e);
      MulAssoc(b, Pow(b, d - 1), Pow(b, e));
    }
  }

  lemma {:induction false} PowMul(b: nat, d: nat, e: nat)
    ensures Pow(Pow(b, d), e) == Pow(b, d * e)
  {
    if e > 0 {
      PowMul(b, d, e - 1);
      PowAdd(b, d, d * (e - 1));
      assert d + d * (e - 1) == d * e;
    } else {
      assert d * e == 0;
    }
  }

  lemma {:induction false} PowOfProduct(x: nat, y: nat, e: nat)
    ensures Pow(x * y, e) == Pow(x, e) * Pow(y, e)
  {
    if e > 0 {
      PowOfProduct(x, y, e - 1);
      var u, v := Pow(x, e - 1), Pow(y, e - 1);
      assert (x * y) * (u * v) == (x * u) * (y * v) by { Swap4(x, y, u, v); }
    }
  }

  lemma {:induction false} PowMono(b: nat, d: nat, e: nat)
    requires b > 0 && d <= e
    ensures Pow(b, d) <= Pow(b, e)
  {
    PowAdd(b, d, e - d);
    MulMono(1, Pow(b, e - d), Pow(b, d));
  }

  lemma PowSmall()
    ensures Pow(2, 1) == 2 && Pow(2, 2) == 4 && Pow(2, 4) == 16 && Pow(2, 8) == 256
  {
    assert Pow(2, 2) == 2 * Pow(2, 1);
    PowAdd(2, 2, 2);
    PowAdd(2, 4, 4);
  }

  // -------------------------------------------------- products, inequalities

  lemma MulPos(x: int, y: int)
    requires x > 0 && y > 0
    ensures x * y > 0
  {}

  lemma MulNonNeg(x: int, y: int)
    requires x >= 0 && y >= 0
    ensures x * y >= 0
  {}

  lemma MulMono(x: int, y: int, z: int)
    requires x <= y && z >= 0
    ensures x * z <= y * z && z * x <= z * y
  {}

  lemma MulStrict(x: int, y: int, z: int)
    requires x < y && z > 0
    ensures x * z < y * z && z * x < z * y
  {}

  lemma MulCancelLe(x: int, y: int, z: int)
    requires x * z <= y * z && z > 0
    ensures x <= y
  {
    if x > y { MulStrict(y, x, z); }
  }

  lemma MulCancelLt(x: int, y: int, z: int)
    requires x * z < y * z && z > 0
    ensures x < y
  {
    if x >= y { MulMono(y, x, z); }
  }

  lemma MulCancelEq(x: int, y: int, z: int)
    requires x * z == y * z && z > 0
    ensures x == y
  {
    MulCancelLe(x, y, z);
    MulCancelLe(y, x, z);
  }

  lemma MulAssoc(x: int, y: int, z: int)
    ensures (x * y) * z == x * (y * z)
  {}

  lemma Distr(x: int, y: int, z: int)
    ensures (x + y) * z == x * z + y * z && z * (x + y) == z * x + z * y
    ensures (x - y) * z == x * z - y * z && z * (x - y) == z * x - z * y
  {}

  lemma Swap4(x: int, y: int, u: int, v: int)
    ensures (x * y) * (u * v) == (x * u) * (y * v)
  {
    MulAssoc(x, y, u * v);
    MulAssoc(y, u, v);
    MulAssoc(u, y, v);
    MulAssoc(x, u, y * v);
    assert y * (u * v) == u * (y * v);
  }

  // ------------------------------------------------------ division, remainder

  lemma DivMod(x: int, d: int)
    requires d > 0
    ensures x == (x / d) * d + x % d
    ensures 0 <= x % d < d
    ensures x >= 0 ==> x / d >= 0
  {}

  /** Quotient and remainder of natural numbers, as natural numbers. */
  function Quo(a: nat, d: nat): nat
    requires d > 0
  {
    DivMod(a, d);
    a / d
  }

  function Rem(a: nat, d: nat): nat
    requires d > 0
  {
    DivMod(a, d);
    a % d
  }

  lemma QuoRem(a: nat, d: nat)
    requires d > 0
    ensures a == Quo(a, d) * d + Rem(a, d) && Rem(a, d) < d
  {
    DivMod(a, d);
  }

  /** Quotient and remainder are the only pair with a remainder in range. */
  lemma DivModUnique(x: int, d: int, q: int, r: int)
    requires d > 0 && x == q * d + r && 0 <= r < d
    ensures x / d == q && x % d == r
  {
    DivMod(x, d);
    var q', r' := x / d, x % d;
    Distr(q, q', d);
    if q' < q {
      MulMono(1, q - q', d);
    } else if q < q' {
      Distr(q', q, d);
      MulMono(1, q' - q, d);
    }
  }

  lemma DivDiv(x: nat, c: nat, d: nat)
    requires c > 0 && d > 0
    ensures c * d > 0
    ensures (x / c) / d == x / (c * d)
    ensures x % (c * d) == ((x / c) % d) * c + x % c
  {
    MulPos(c, d);
    DivMod(x, c);
    DivMod(x / c, d);
    var q, s, r := (x / c) / d, (x / c) % d, x % c;
    assert x == q * (c * d) + (s * c + r) by {
      Distr(q * d, s, c);
      assert (q * d) * c == q * (c * d);
    }
    assert 0 <= s * c + r < c * d by {
      MulMono(s, d - 1, c);
      Distr(d, 1, c);
      MulNonNeg(s, c);
    }
    DivModUnique(x, c * d, q, s * c + r);
  }

  lemma ModMultiple(k: int, d: int)
    requires d > 0
    ensures (k * d) % d == 0
  {
    DivModUnique(k * d, d, k, 0);
  }

  // ---------------------------------------------------------------- congruence

  ghost predicate Cong(a: int, b: int, n: int)
    requires n > 0
  {
    (a - b) % n == 0
  }

  lemma CongIntro(a: int, b: int, n: int, k: int)
    requires n > 0 && a == b + k * n
    ensures Cong(a, b, n)
  {
    ModMultiple(k, n);
  }

  lemma CongElim(a: int, b: int, n: int) returns (k: int)
    requires n > 0 && Cong(a, b, n)
    ensures a == b + k * n
  {
    k := (a - b) / n;
    DivMod(a - b, n);
  }

  lemma CongRefl(a: int, n: int)
    requires n > 0
    ensures Cong(a, a, n)
  {
    CongIntro(a, a, n, 0);
  }

  lemma CongSym(a: int, b: int, n: int)
    requires n > 0 && Cong(a, b, n)
    ensures Cong(b, a, n)
  {
    var k := CongElim(a, b, n);
    CongIntro(b, a, n, -k);
  }

  lemma CongTrans(a: int, b: int, c: int, n: int)
    requires n > 0 && Cong(a, b, n) && Cong(b, c, n)
    ensures Cong(a, c, n)
  {
    var k := CongElim(a, b, n);
    var l := CongElim(b, c, n);
    Distr(k, l, n);
    CongIntro(a, c, n, k + l);
  }

  lemma CongAdd(a: int, b: int, c: int, d: int, n: int)
    requires n > 0 && Cong(a, b, n) && Cong(c, d, n)
    ensures Cong(a + c, b + d, n) && Cong(a - c, b - d, n)
  {
    var k := CongElim(a, b, n);
    var l := CongElim(c, d, n);
    Distr(k, l, n);
    CongIntro(a + c, b + d, n, k + l);
    CongIntro(a - c, b - d, n, k - l);
  }

  lemma CongMulLeft(a: int, b: int, c: int, n: int)
    requires n > 0 && Cong(a, b, n)
    ensures Cong(c * a, c * b, n) && Cong(a * c, b * c, n)
  {
    var k := CongElim(a, b, n);
    Distr(b, k * n, c);
    MulAssoc(c, k, n);
    CongIntro(c * a, c * b, n, c * k);
  }

  lemma CongMul(a: int, b: int, c: int, d: int, n: int)
    requires n > 0 && Cong(a, b, n) && Cong(c, d, n)
    ensures Cong(a * c, b * d, n)
  {
    CongMulLeft(a, b, c, n);
    CongMulLeft(c, d, b, n);
    CongTrans(a * c, b * c, b * d, n);
  }

  lemma {:induction false} CongPow(a: nat, b: nat, e: nat, n: int)
    requires n > 0 && Cong(a, b, n)
    ensures Cong(Pow(a, e), Pow(b, e), n)
  {
    if e == 0 {
      CongRefl(1, n);
    } else {
      CongPow(a, b, e - 1, n);
      CongMul(a, b, Pow(a, e - 1), Pow(b, e - 1), n);
    }
  }

  lemma CongMod(a: int, n: int)
    requires n > 0
    ensures Cong(a % n, a, n) && Cong(a, a % n, n)
  {
    DivMod(a, n);
    CongIntro(a, a % n, n, a / n);
    CongSym(a, a % n, n);
  }

  /** Congruent numbers have the same remainder. */
  lemma CongSameMod(a: int, b: int, n: int)
    requires n > 0 && Cong(a, b, n)
    ensures a % n == b % n
  {
    var k := CongElim(a, b, n);
    DivMod(b, n);
    Distr(b / n, k, n);
    DivModUnique(a, n, b / n + k, b % n);
  }

  lemma CongInRange(a: int, b: int, n: int)
    requires n > 0 && Cong(a, b, n) && 0 <= a < n
    ensures a == b % n
  {
    CongSameMod(a, b, n);
    DivModUnique(a, n, 0, a);
  }

  lemma CongShift(a: int, b: int, n: int)
    requires n > 0 && Cong(a, b, n)
    ensures Cong(a + n, b, n) && Cong(a - n, b, n)
  {
    var k := CongElim(a, b, n);
    Distr(k, 1, n);
    CongIntro(a + n, b, n, k + 1);
    CongIntro(a - n, b, n, k - 1);
  }

  lemma ModAdd(a: nat, b: nat, d: nat)
    requires d > 0
    ensures (a % d + b) % d == (a + b) % d
  {
    hide Cong;
    CongMod(a, d);
    CongRefl(b, d);
    CongAdd(a % d, a, b, b, d);
    CongSameMod(a % d + b, a + b, d);
  }

  /** Congruence modulo a multiple gives congruence modulo the factor. */
  lemma CongFactor(a: int, b: int, n: int, m: int)
    requires n > 0 && m > 0 && Cong(a, b, n * m)
    ensures Cong(a, b, n)
  {
    MulPos(n, m);
    var k := CongElim(a, b, n * m);
    MulAssoc(k, m, n);
    assert k * (n * m) == (k * m) * n;
    CongIntro(a, b, n, k * m);
  }

  // ------------------------------------------------------------ powers of two

  /** Two has no common factor with an odd modulus, so it can be cancelled. */
  lemma CancelTwo(a: int, b: int, n: int)
    requires n > 0 && n % 2 == 1 && Cong(2 * a, 2 * b, n)
    ensures Cong(a, b, n)
  {
    var k := CongElim(2 * a, 2 * b, n);
    DivMod(k, 2);
    DivMod(n, 2);
    var h, r, m := k / 2, k % 2, n / 2;
    assert k * n == 2 * (h * n) + r * n by { Distr(2 * h, r, n); MulAssoc(2, h, n); }
    if r == 1 {
      assert false;
    }
    CongIntro(a, b, n, h);
  }

  lemma {:induction false} CancelPow2(a: int, b: int, e: nat, n: int)
    requires n > 0 && n % 2 == 1 && Cong(a * Pow(2, e), b * Pow(2, e), n)
    ensures Cong(a, b, n)
  {
    if e > 0 {
      var r := Pow(2, e - 1);
      assert a * (2 * r) == 2 * (a * r) && b * (2 * r) == 2 * (b * r);
      CancelTwo(a * r, b * r, n);
      CancelPow2(a, b, e - 1, n);
    }
  }

  // ------------------------------------------------------------- divisibility

  ghost predicate Divides(d: nat, a: int) {
    if d == 0 then a == 0 else a % d == 0
  }

  lemma DividesIntro(d: nat, a: int, k: int)
    requires a == k * d
    ensures Divides(d, a)
  {
    if d > 0 { ModMultiple(k, d); } else { assert k * d == 0; }
  }

  lemma DividesElim(d: nat, a: int) returns (k: int)
    requires Divides(d, a)
    ensures a == k * d
  {
    if d == 0 { k := 0; } else { k := a / d; DivMod(a, d); }
  }

  lemma DividesSum(d: nat, a: int, b: int)
    requires Divides(d, a) && Divides(d, b)
    ensures Divides(d, a + b) && Divides(d, a - b)
  {
    var k := DividesElim(d, a);
    var l := DividesElim(d, b);
    Distr(k, l, d);
    DividesIntro(d, a + b, k + l);
    DividesIntro(d, a - b, k - l);
  }

  lemma DividesMul(d: nat, a: int, c: int)
    requires Divides(d, a)
    ensures Divides(d, c * a)
  {
    var k := DividesElim(d, a);
    MulAssoc(c, k, d);
    DividesIntro(d, c * a, c * k);
  }

  lemma DividesTrans(c: nat, d: nat, a: int)
    requires Divides(c, d) && Divides(d, a)
    ensures Divides(c, a)
  {
    var k := DividesElim(d, a);
    DividesMul(c, d, k);
  }

  lemma DividesLe(d: nat, a: int)
    requires Divides(d, a) && a > 0
    ensures 0 < d <= a
  {
    var k := DividesElim(d, a);
    if d == 0 {
      assert false;
    } else {
      if k <= 0 { MulMono(k, 0, d); }
      MulMono(1, k, d);
    }
  }

  /** An odd number dividing 2a divides a. */
  lemma OddDividesHalf(d: nat, a: int)
    requires d % 2 == 1 && Divides(d, 2 * a)
    ensures Divides(d, a)
  {
    CongIntro(2 * a, 2 * 0, d, (2 * a) / d) by { DivMod(2 * a, d); }
    CancelTwo(a, 0, d);
  }

  // ------------------------------------------------- greatest common divisor

  /** The greatest common divisor, by Euclid's algorithm. `GcdIsGreatest` and
      `GcdUnique` say that it is the one usually meant. */
  ghost function Gcd(a: nat, b: nat): nat
    decreases b
  {
    if b == 0 then a else Gcd(b, a % b)
  }

  ghost predicate CommonDivisor(d: nat, a: int, b: int) {
    Divides(d, a) && Divides(d, b)
  }

  lemma {:induction false} GcdIsGreatest(a: nat, b: nat)
    ensures CommonDivisor(Gcd(a, b), a, b)
    ensures forall d: nat :: CommonDivisor(d, a, b) ==> Divides(d, Gcd(a, b))
    ensures Gcd(a, b) == 0 <==> a == 0 && b == 0
    decreases b
  {
    if b == 0 {
      DividesIntro(a, a, 1);
      DividesIntro(a, 0, 0);
    } else {
      GcdIsGreatest(b, a % b);
      DivMod(a, b);
      var g := Gcd(b, a % b);
      DividesMul(g, b, a / b);
      DividesSum(g, (a / b) * b, a % b);
      forall d: nat | CommonDivisor(d, a, b)
        ensures Divides(d, g)
      {
        DividesMul(d, b, a / b);
        DividesSum(d, a, (a / b) * b);
        assert CommonDivisor(d, b, a % b);
      }
    }
  }

  lemma GcdUnique(g: nat, a: nat, b: nat)
    requires CommonDivisor(g, a, b)
    requires forall d: nat :: CommonDivisor(d, a, b) ==> Divides(d, g)
    ensures g == Gcd(a, b)
  {
    GcdIsGreatest(a, b);
    var h := Gcd(a, b);
    assert Divides(g, h) && Divides(h, g);
    if g == 0 || h == 0 {
    } else {
      DividesLe(g, h);
      DividesLe(h, g);
    }
  }

  /** Two pairs with the same common divisors have the same gcd. */
  lemma GcdSameDivisors(a: nat, b: nat, c: nat, e: nat)
    requires forall d: nat :: CommonDivisor(d, a, b) <==> CommonDivisor(d, c, e)
    ensures Gcd(a, b) == Gcd(c, e)
  {
    GcdIsGreatest(c, e);
    GcdUnique(Gcd(c, e), a, b);
  }

  lemma GcdSym(a: nat, b: nat)
    ensures Gcd(a, b) == Gcd(b, a)
  {
    GcdSameDivisors(a, b, b, a);
  }

  lemma GcdZero(a: nat)
    ensures Gcd(0, a) == a && Gcd(a, 0) == a
  {
    GcdSym(0, a);
  }

  lemma GcdSub(a: nat, b: nat)
    requires a >= b
    ensures Gcd(a - b, b) == Gcd(a, b)
  {
    forall d: nat
      ensures CommonDivisor(d, a - b, b) <==> CommonDivisor(d, a, b)
    {
      if CommonDivisor(d, a - b, b) { DividesSum(d, a - b, b); }
      if CommonDivisor(d, a, b) { DividesSum(d, a, b); }
    }
    GcdSameDivisors(a - b, b, a, b);
  }

  /** A power of two common to neither argument does not change the gcd. */
  lemma GcdDropTwo(a: nat, b: nat)
    requires b % 2 == 1
    ensures Gcd(2 * a, b) == Gcd(a, b)
  {
    forall d: nat
      ensures CommonDivisor(d, 2 * a, b) <==> CommonDivisor(d, a, b)
    {
      if CommonDivisor(d, a, b) { DividesMul(d, a, 2); }
      if CommonDivisor(d, 2 * a, b) {
        OddDivisorOfOdd(d, b);
        OddDividesHalf(d, a);
      }
    }
    GcdSameDivisors(2 * a, b, a, b);
  }

  lemma OddDivisorOfOdd(d: nat, b: nat)
    requires b % 2 == 1 && Divides(d, b)
    ensures d % 2 == 1
  {
    var k := DividesElim(d, b);
    DivMod(d, 2);
    if d % 2 == 0 {
      assert b == 2 * (k * (d / 2)) by { MulAssoc(k, d / 2, 2); }
      assert false;
    }
  }

  lemma {:induction false} GcdDropPow2(a: nat, e: nat, b: nat)
    requires b % 2 == 1
    ensures Gcd(Pow(2, e) * a, b) == Gcd(a, b)
  {
    if e > 0 {
      MulAssoc(2, Pow(2, e - 1), a);
      GcdDropTwo(Pow(2, e - 1) * a, b);
      GcdDropPow2(a, e - 1, b);
    }
  }

  /** A common factor can be taken out. */
  lemma GcdScale(c: nat, a: nat, b: nat)
    requires c > 0
    ensures Gcd(c * a, c * b) == c * Gcd(a, b)
    decreases b
  {
    if b == 0 {
      assert c * b == 0;
    } else {
      DivMod(a, b);
      var q, r := a / b, a % b;
      MulPos(c, b);
      assert c * a == q * (c * b) + c * r by {
        Distr(q * b, r, c);
        MulAssoc(c, q, b);
        MulAssoc(q, c, b);
      }
      MulStrict(r, b, c);
      MulNonNeg(c, r);
      DivModUnique(c * a, c * b, q, c * r);
      GcdScale(c, b, r);
    }
  }
}
