/** Multiplication in GF(2^8), on the bits of a byte. */
module Field {
  function Plus(a: bv8, b: bv8): bv8 {
    a ^ b
  }

  /** The macro XTIME: multiplication by x modulo x^8 + x^4 + x^3 + x + 1. */
  function XTime(x: bv8): bv8 {
    Plus(Shl(x), Fold(x & 0x80 != 0))
  }

  function Shl(x: bv8): bv8 {
    x << 1
  }

  function Fold(carry: bool): bv8 {
    if carry then 0x1B else 0x00
  }

  /** One step of the power table. */
  function Times3(x: bv8): bv8 {
    Plus(x, XTime(x))
  }

  predicate Bit(x: bv8, m: bv8) {
    x & m != 0
  }

  function Times(bit: bool, x: bv8): bv8 {
    if bit then x else 0
  }

  /** Multiplication as in section 4.2 of FIPS 197: the sum of the multiples
      x·2^k for the set bits of `y`. */
  function Product(x: bv8, y: bv8): bv8 {
    var x1 := XTime(x);
    var x2 := XTime(x1);
    var x3 := XTime(x2);
    var x4 := XTime(x3);
    var x5 := XTime(x4);
    var x6 := XTime(x5);
    var x7 := XTime(x6);
    Sum8(Times(Bit(y, 1), x), Times(Bit(y, 2), x1), Times(Bit(y, 4), x2), Times(Bit(y, 8), x3),
         Times(Bit(y, 16), x4), Times(Bit(y, 32), x5), Times(Bit(y, 64), x6), Times(Bit(y, 128), x7))
  }

  function Sum8(a: bv8, b: bv8, c: bv8, d: bv8, e: bv8, f: bv8, g: bv8, h: bv8): bv8 {
    Plus(Plus(Plus(a, b), Plus(c, d)), Plus(Plus(e, f), Plus(g, h)))
  }

  // ----------------------------------------------------------- multiplication

  lemma ShlLinear(a: bv8, b: bv8)
    ensures Shl(Plus(a, b)) == Plus(Shl(a), Shl(b))
  {}

  lemma FoldLinear(a: bv8, b: bv8)
    ensures Fold(Plus(a, b) & 0x80 != 0) == Plus(Fold(a & 0x80 != 0), Fold(b & 0x80 != 0))
  {}

  lemma PlusComm(a: bv8, b: bv8)
    ensures Plus(a, b) == Plus(b, a)
  {}

  lemma PlusAssoc(a: bv8, b: bv8, c: bv8)
    ensures Plus(Plus(a, b), c) == Plus(a, Plus(b, c))
  {}

  lemma PlusZero(a: bv8)
    ensures Plus(a, 0) == a && Plus(0, a) == a && Plus(a, a) == 0
  {}

  lemma Shuffle(a: bv8, b: bv8, c: bv8, d: bv8)
    ensures Plus(Plus(a, b), Plus(c, d)) == Plus(Plus(a, c), Plus(b, d))
  {
    hide Plus;
    PlusAssoc(a, b, Plus(c, d));
    PlusAssoc(b, c, d);
    PlusComm(b, c);
    PlusAssoc(c, b, d);
    PlusAssoc(a, c, Plus(b, d));
  }

  lemma XTimeLinear(a: bv8, b: bv8)
    ensures XTime(Plus(a, b)) == Plus(XTime(a), XTime(b))
  {
    ShlLinear(a, b);
    FoldLinear(a, b);
    hide Shl, Fold, Plus;
    Shuffle(Shl(a), Shl(b), Fold(a & 0x80 != 0), Fold(b & 0x80 != 0));
  }

  lemma Times3Linear(a: bv8, b: bv8)
    ensures Times3(Plus(a, b)) == Plus(Times3(a), Times3(b))
  {
    hide XTime, Plus;
    XTimeLinear(a, b);
    Shuffle(a, b, XTime(a), XTime(b));
  }

  lemma Times3Commutes(x: bv8)
    ensures XTime(Times3(x)) == Times3(XTime(x))
  {
    hide XTime, Plus;
    XTimeLinear(x, XTime(x));
  }

  lemma Times3Term(bit: bool, x: bv8)
    ensures Times(bit, Times3(x)) == Times3(Times(bit, x))
  {
    assert Times3(0) == 0;
    hide Times3;
  }

  lemma Times3Sum(a: bv8, b: bv8, c: bv8, d: bv8, e: bv8, f: bv8, g: bv8, h: bv8)
    ensures Times3(Sum8(a, b, c, d, e, f, g, h))
            == Sum8(Times3(a), Times3(b), Times3(c), Times3(d), Times3(e), Times3(f), Times3(g), Times3(h))
  {
    hide Times3, Plus;
    Times3Linear(a, b);
    Times3Linear(c, d);
    Times3Linear(e, f);
    Times3Linear(g, h);
    Times3Linear(Plus(a, b), Plus(c, d));
    Times3Linear(Plus(e, f), Plus(g, h));
    Times3Linear(Plus(Plus(a, b), Plus(c, d)), Plus(Plus(e, f), Plus(g, h)));
  }

  lemma ProductStep(x: bv8, y: bv8)
    ensures Product(Times3(x), y) == Times3(Product(x, y))
  {
    hide Times3, XTime, Times, Sum8;
    var x1 := XTime(x);
    var x2 := XTime(x1);
    var x3 := XTime(x2);
    var x4 := XTime(x3);
    var x5 := XTime(x4);
    var x6 := XTime(x5);
    var x7 := XTime(x6);
    Times3Commutes(x);
    Times3Commutes(x1);
    Times3Commutes(x2);
    Times3Commutes(x3);
    Times3Commutes(x4);
    Times3Commutes(x5);
    Times3Commutes(x6);
    Times3Term(Bit(y, 1), x);
    Times3Term(Bit(y, 2), x1);
    Times3Term(Bit(y, 4), x2);
    Times3Term(Bit(y, 8), x3);
    Times3Term(Bit(y, 16), x4);
    Times3Term(Bit(y, 32), x5);
    Times3Term(Bit(y, 64), x6);
    Times3Term(Bit(y, 128), x7);
    Times3Sum(Times(Bit(y, 1), x), Times(Bit(y, 2), x1), Times(Bit(y, 4), x2), Times(Bit(y, 8), x3),
              Times(Bit(y, 16), x4), Times(Bit(y, 32), x5), Times(Bit(y, 64), x6), Times(Bit(y, 128), x7));
  }

  lemma ProductOne(x: bv8)
    ensures Product(1, x) == x
  {
    OnePowers();
    OneBits(x);
    hide XTime, Times, Sum8;
  }

  lemma ProductZero(x: bv8)
    ensures Product(x, 0) == 0 && Product(0, x) == 0
  {
    OnePowers();
    PlusZero(0);
    hide XTime, Plus;
  }

  lemma TimesTwo(x: bv8)
    ensures Product(2, x) == XTime(x) && Product(3, x) == Plus(XTime(x), x)
  {
    OneStep();
    ProductOne(x);
    ProductStep(1, x);
    PlusComm(x, XTime(x));
    OnePowers();
    TwoBits(x);
    hide XTime, Times, Plus, Sum8, Times3;
    assert Product(3, x) == Times3(x);
    assert Times3(x) == Plus(x, XTime(x)) by { Times3Is(x); }
  }

  lemma Times3Is(x: bv8)
    ensures Times3(x) == Plus(x, XTime(x))
  {}

  lemma OneStep()
    ensures Times3(1) == 3
  {}

  lemma TwoBits(x: bv8)
    ensures Sum8(Times(Bit(x, 1), 2), Times(Bit(x, 2), 4), Times(Bit(x, 4), 8), Times(Bit(x, 8), 16),
                 Times(Bit(x, 16), 32), Times(Bit(x, 32), 64), Times(Bit(x, 64), 128), Times(Bit(x, 128), 0x1B)) == XTime(x)
  {}

  lemma TimesLinear(v: bv8, m: bv8, x: bv8, y: bv8)
    requires m in {1, 2, 4, 8, 16, 32, 64, 128}
    ensures Times(Bit(Plus(x, y), m), v) == Plus(Times(Bit(x, m), v), Times(Bit(y, m), v))
  {
    BitOfSum(m, x, y);
    PlusZero(v);
    PlusZero(0);
    hide Plus, Bit;
  }

  lemma BitOfSum(m: bv8, x: bv8, y: bv8)
    requires m in {1, 2, 4, 8, 16, 32, 64, 128}
    ensures Bit(Plus(x, y), m) == (Bit(x, m) != Bit(y, m))
  {}

  /** Multiplication distributes over addition. */
  lemma ProductLinear(k: bv8, x: bv8, y: bv8)
    ensures Product(k, Plus(x, y)) == Plus(Product(k, x), Product(k, y))
  {
    hide Plus, Times, XTime, Bit, Sum8;
    var k1 := XTime(k);
    var k2 := XTime(k1);
    var k3 := XTime(k2);
    var k4 := XTime(k3);
    var k5 := XTime(k4);
    var k6 := XTime(k5);
    var k7 := XTime(k6);
    TimesLinear(k, 1, x, y);
    TimesLinear(k1, 2, x, y);
    TimesLinear(k2, 4, x, y);
    TimesLinear(k3, 8, x, y);
    TimesLinear(k4, 16, x, y);
    TimesLinear(k5, 32, x, y);
    TimesLinear(k6, 64, x, y);
    TimesLinear(k7, 128, x, y);
    Sum8Linear(Times(Bit(x, 1), k), Times(Bit(x, 2), k1), Times(Bit(x, 4), k2), Times(Bit(x, 8), k3),
               Times(Bit(x, 16), k4), Times(Bit(x, 32), k5), Times(Bit(x, 64), k6), Times(Bit(x, 128), k7),
               Times(Bit(y, 1), k), Times(Bit(y, 2), k1), Times(Bit(y, 4), k2), Times(Bit(y, 8), k3),
               Times(Bit(y, 16), k4), Times(Bit(y, 32), k5), Times(Bit(y, 64), k6), Times(Bit(y, 128), k7));
  }

  lemma Sum8Linear(a: bv8, b: bv8, c: bv8, d: bv8, e: bv8, f: bv8, g: bv8, h: bv8,
                   a': bv8, b': bv8, c': bv8, d': bv8, e': bv8, f': bv8, g': bv8, h': bv8)
    ensures Sum8(Plus(a, a'), Plus(b, b'), Plus(c, c'), Plus(d, d'), Plus(e, e'), Plus(f, f'), Plus(g, g'), Plus(h, h'))
            == Plus(Sum8(a, b, c, d, e, f, g, h), Sum8(a', b', c', d', e', f', g', h'))
  {
    hide Plus;
    Shuffle(a, a', b, b');
    Shuffle(c, c', d, d');
    Shuffle(e, e', f, f');
    Shuffle(g, g', h, h');
    Shuffle(Plus(a, b), Plus(a', b'), Plus(c, d), Plus(c', d'));
    Shuffle(Plus(e, f), Plus(e', f'), Plus(g, h), Plus(g', h'));
    Shuffle(Plus(Plus(a, b), Plus(c, d)), Plus(Plus(a', b'), Plus(c', d')), Plus(Plus(e, f), Plus(g, h)), Plus(Plus(e', f'), Plus(g', h')));
  }

  lemma OnePowers()
    ensures XTime(1) == 2 && XTime(2) == 4 && XTime(4) == 8 && XTime(8) == 16
    ensures XTime(16) == 32 && XTime(32) == 64 && XTime(64) == 128 && XTime(128) == 0x1B && XTime(0) == 0
  {}

  lemma OneBits(x: bv8)
    ensures Sum8(Times(Bit(x, 1), 1), Times(Bit(x, 2), 2), Times(Bit(x, 4), 4), Times(Bit(x, 8), 8),
                 Times(Bit(x, 16), 16), Times(Bit(x, 32), 32), Times(Bit(x, 64), 64), Times(Bit(x, 128), 128)) == x
    ensures Sum8(0, 0, 0, 0, 0, 0, 0, 0) == 0
  {}

  lemma Times3Injective(x: bv8, y: bv8)
    requires Times3(x) == Times3(y)
    ensures x == y
  {}

  lemma Product2()
    ensures Product(0x03, 0x03) == 0x05
  {}

  lemma Product3()
    ensures Product(0x03, 0x05) == 0x0F
  {}

  lemma Product6()
    ensures Product(0x0F, 0x0F) == 0x55
  {}

  lemma Product12()
    ensures Product(0x55, 0x55) == 0xA1
  {}

  lemma Product15()
    ensures Product(0xA1, 0x0F) == 0x35
  {}

  lemma Product17()
    ensures Product(0x35, 0x05) == 0xE1
  {}

  lemma Product24()
    ensures Product(0xA1, 0xA1) == 0xF7
  {}

  lemma Product48()
    ensures Product(0xF7, 0xF7) == 0x53
  {}

  lemma Product51()
    ensures Product(0x53, 0x0F) == 0x0C
  {}

  lemma Product34()
    ensures Product(0xE1, 0xE1) == 0x5C
  {}

  lemma Product85()
    ensures Product(0x0C, 0x5C) == 0xBD
  {}

  lemma Product170()
    ensures Product(0xBD, 0xBD) == 0xBC
  {}

  lemma Product255()
    ensures Product(0xBC, 0xBD) == 0x01
  {}
}

/** The powers of three, as the table generator walks them: they run through all
    255 non-zero bytes. */
module Gf {
  import opened Arith
  import opened Bytes
  import opened Field

  function Power(i: nat): bv8 {
    if i == 0 then 1 else Times3(Power(i - 1))
  }

  /** Powers multiply by adding exponents. */
  lemma {:induction false} PowerSum(i: nat, j: nat)
    ensures Product(Power(i), Power(j)) == Power(i + j)
  {
    hide Product, Times3;
    if i == 0 {
      ProductOne(Power(j));
    } else {
      PowerSum(i - 1, j);
      ProductStep(Power(i - 1), Power(j));
    }
  }

  // -------------------------------------------------------- order of three

  lemma {:induction false} PowerNonZero(i: nat)
    ensures Power(i) != 0
  {
    if i > 0 {
      PowerNonZero(i - 1);
      if Power(i) == 0 {
        assert Times3(0) == 0;
        Times3Injective(Power(i - 1), 0);
      }
    }
  }

  /** Equal powers give a period. */
  lemma {:induction false} CancelPower(i: nat, d: nat)
    requires Power(i + d) == Power(i)
    ensures Power(d) == 1
  {
    if i > 0 {
      Times3Injective(Power(i - 1 + d), Power(i - 1));
      CancelPower(i - 1, d);
    }
  }

  lemma {:induction false} AddPeriod(i: nat, d: nat)
    requires Power(d) == 1
    ensures Power(i + d) == Power(i)
  {
    hide Times3;
    if i > 0 { AddPeriod(i - 1, d); }
  }

  lemma {:induction false} PeriodRemainder(a: nat, b: nat)
    requires Power(a) == 1 && Power(b) == 1 && b > 0
    ensures Power(a % b) == 1
  {
    hide Power;
    if a >= b {
      AddPeriod(a - b, b);
      PeriodRemainder(a - b, b);
      DivMod(a, b);
      DivModUnique(a - b, b, a / b - 1, a % b);
    } else {
      DivModUnique(a, b, 0, a);
    }
  }

  lemma {:induction false} PeriodGcd(a: nat, b: nat)
    requires Power(a) == 1 && Power(b) == 1
    ensures Power(Gcd(a, b)) == 1
    decreases b
  {
    hide Power;
    if b > 0 {
      PeriodRemainder(a, b);
      DivMod(a, b);
      PeriodGcd(b, a % b);
    }
  }

  lemma {:induction false} PeriodTimes(d: nat, k: nat)
    requires Power(d) == 1
    ensures Power(d * k) == 1
  {
    hide Times3;
    if k > 0 {
      PeriodTimes(d, k - 1);
      AddPeriod(d, d * (k - 1));
      assert d * k == d + d * (k - 1);
    } else {
      assert d * k == 0;
    }
  }

  lemma FirstPowers()
    ensures Power(0) == 1 && Power(1) == 3
  {}

  /** Three has no order below 255: none of 255's maximal proper divisors is a
      period, 255 itself is one. */
  lemma Landmarks()
    ensures Power(15) == 0x35 && Power(51) == 0x0C && Power(85) == 0xBD && Power(255) == 1
  {
    hide Power, Product;
    FirstPowers();
    Product2();
    PowerSum(1, 1);
    Product3();
    PowerSum(1, 2);
    Product6();
    PowerSum(3, 3);
    Product12();
    PowerSum(6, 6);
    Product15();
    PowerSum(12, 3);
    Product17();
    PowerSum(15, 2);
    Product24();
    PowerSum(12, 12);
    Product48();
    PowerSum(24, 24);
    Product51();
    PowerSum(48, 3);
    Product34();
    PowerSum(17, 17);
    Product85();
    PowerSum(51, 34);
    Product170();
    PowerSum(85, 85);
    Product255();
    PowerSum(170, 85);
  }

  lemma ProperDivisor(g: nat, k: nat)
    requires g * k == 255 && g < 255
    ensures exists m :: g * m == 15 || g * m == 51 || g * m == 85
  {
    if g <= 15 {
      assert g in {1, 3, 5, 15};
      assert g * (15 / g) == 15;
    } else {
      assert k < 17 by { if k >= 17 { MulMono(17, k, g); } }
      assert k in {3, 5, 15};
      assert g == 255 / k;
      assert g * 1 == g && g in {17, 51, 85};
      assert g * (if g == 17 then 3 else 1) in {51, 85};
    }
  }

  lemma PowersDistinct(i: nat, j: nat)
    requires i < j < 255
    ensures Power(i) != Power(j)
  {
    hide Power;
    if Power(i) == Power(j) {
      var d := j - i;
      CancelPower(i, d);
      Landmarks();
      PeriodGcd(d, 255);
      var g := Gcd(d, 255);
      GcdIsGreatest(d, 255);
      var k := DividesElim(g, 255);
      var l := DividesElim(g, d);
      assert g < 255 by { if g >= 255 { if l <= 0 { MulMono(l, 0, g); } else { MulMono(1, l, g); } } }
      assert k > 0 by { if k <= 0 { MulMono(k, 0, g); } }
      assert g * k == k * g;
      ProperDivisor(g, k);
      var m: int :| g * m == 15 || g * m == 51 || g * m == 85;
      assert m > 0 by { if m <= 0 { MulMono(m, 0, g); } }
      PeriodTimes(g, m);
      assert false;
    }
  }

  function Numbers(n: nat): (s: set<nat>)
    ensures |s| == n && forall i :: i in s <==> 0 <= i < n
  {
    if n == 0 then {} else Numbers(n - 1) + {n - 1}
  }

  function Items(s: seq<nat>): set<nat> {
    set i | 0 <= i < |s| :: s[i]
  }

  lemma {:induction false} DistinctCount(s: seq<nat>)
    requires forall i, j :: 0 <= i < j < |s| ==> s[i] != s[j]
    ensures |Items(s)| == |s|
  {
    if s != [] {
      var n := |s| - 1;
      DistinctCount(s[..n]);
      assert Items(s) == Items(s[..n]) + {s[n]};
    }
  }

  /** `n` distinct numbers below `n` are all of them. */
  lemma Pigeonhole(s: seq<nat>, v: nat)
    requires forall i, j :: 0 <= i < j < |s| ==> s[i] != s[j]
    requires forall i :: 0 <= i < |s| ==> s[i] < |s|
    requires v < |s|
    ensures v in s
  {
    DistinctCount(s);
    var all := Numbers(|s|);
    assert Items(s) <= all;
    if v !in Items(s) {
      SmallerInside(Items(s), all - {v});
    }
  }

  lemma {:induction false} SmallerInside(a: set<nat>, b: set<nat>)
    requires a <= b
    ensures |a| <= |b|
  {
    if a != {} {
      var x :| x in a;
      SmallerInside(a - {x}, b - {x});
    }
  }

  ghost function PowerIndices(n: nat): (s: seq<nat>)
    requires n <= 255
    ensures |s| == n && forall i :: 0 <= i < n ==> s[i] == Ix(Power(i))
  {
    seq<nat>(n, i requires 0 <= i < n => Ix(Power(i)))
  }

  /** Every non-zero byte is a power of three. */
  lemma PowersReach(x: bv8) returns (i: nat)
    requires x != 0
    ensures i < 255 && Power(i) == x
  {
    hide Power, Ix;
    ZeroIndex();
    ByteOfIndex(0);
    ByteOfIndex(x);
    var s := PowerIndices(255) + [0];
    forall i, j | 0 <= i < j < 256
      ensures s[i] != s[j]
    {
      ByteOfIndex(Power(i));
      PowerNonZero(i);
      if j < 255 {
        ByteOfIndex(Power(j));
        PowersDistinct(i, j);
      }
    }
    forall i | 0 <= i < 256
      ensures s[i] < 256
    {
      if i < 255 { ByteOfIndex(Power(i)); }
    }
    Pigeonhole(s, Ix(x));
    i :| 0 <= i < 256 && s[i] == Ix(x);
    if i < 255 { ByteOfIndex(Power(i)); }
  }

  lemma ProductComm(x: bv8, y: bv8)
    ensures Product(x, y) == Product(y, x)
  {
    hide Product, Power;
    if x == 0 || y == 0 {
      ProductZero(x);
      ProductZero(y);
    } else {
      var i := PowersReach(x);
      var j := PowersReach(y);
      PowerSum(i, j);
      PowerSum(j, i);
    }
  }

  lemma ProductAssoc(x: bv8, y: bv8, z: bv8)
    ensures Product(Product(x, y), z) == Product(x, Product(y, z))
  {
    hide Product, Power;
    if x == 0 || y == 0 || z == 0 {
      ProductZero(x);
      ProductZero(y);
      ProductZero(z);
      ProductZero(Product(x, y));
      ProductZero(Product(y, z));
    } else {
      var i := PowersReach(x);
      var j := PowersReach(y);
      var k := PowersReach(z);
      PowerSum(i, j);
      PowerSum(j, k);
      PowerSum(i + j, k);
      PowerSum(i, j + k);
    }
  }

  lemma ProductFactor(k: bv8, l: bv8, x: bv8)
    ensures Product(Plus(k, l), x) == Plus(Product(k, x), Product(l, x))
  {
    hide Product, Plus;
    ProductComm(k, x);
    ProductComm(l, x);
    ProductComm(Plus(k, l), x);
    ProductLinear(x, k, l);
  }

  /** The table's inverse: exponents that add up to 255. */
  lemma InverseByPower(i: nat)
    requires i <= 255
    ensures Product(Power(i), Power(255 - i)) == 1
  {
    hide Product, Power;
    PowerSum(i, 255 - i);
    Landmarks();
  }

  lemma InverseUnique(x: bv8, y: bv8, z: bv8)
    requires Product(x, y) == 1 && Product(x, z) == 1
    ensures y == z
  {
    hide Product;
    ProductOne(y);
    ProductOne(z);
    ProductComm(x, y);
    ProductAssoc(y, x, z);
    ProductComm(y, 1);
  }

  /** Exponents count modulo 255. */
  lemma {:induction false} PowerWraps(i: nat)
    ensures Power(i % 255) == Power(i)
  {
    hide Power;
    if i >= 255 {
      Landmarks();
      AddPeriod(i - 255, 255);
      PowerWraps(i - 255);
      DivMod(i, 255);
      DivModUnique(i - 255, 255, i / 255 - 1, i % 255);
    }
  }
}
