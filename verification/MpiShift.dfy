/** Bit counting and shifts by any number of bits, in place. */
module MpiShift {
  import opened Arith
  import opened Limbs
  import opened MpiCore

  // -------------------------------------------------------------- bit lengths

  /** Number of binary digits of `v`; zero has none. */
  ghost function BitLength(v: nat): nat {
    if v == 0 then 0 else 1 + BitLength(v / 2)
  }

  lemma {:induction false} BitLengthBounds(v: nat)
    ensures v < Pow(2, BitLength(v))
    ensures v > 0 ==> Pow(2, BitLength(v) - 1) <= v
  {
    if v > 0 {
      BitLengthBounds(v / 2);
      if v / 2 > 0 {
        assert Pow(2, BitLength(v) - 1) == 2 * Pow(2, BitLength(v / 2) - 1);
      }
    }
  }

  lemma BitLengthZero(v: nat)
    ensures BitLength(v) == 0 <==> v == 0
  {}

  /** The two bounds pin the bit length down. */
  lemma BitLengthUnique(v: nat, n: nat)
    requires v < Pow(2, n) && (n > 0 ==> Pow(2, n - 1) <= v)
    ensures BitLength(v) == n
  {
    BitLengthBounds(v);
    var m := BitLength(v);
    if m < n {
      PowMono(2, m, n - 1);
    } else if n < m {
      PowMono(2, n, m - 1);
    }
  }

  lemma BitLengthShift(v: nat, e: nat)
    requires v > 0
    ensures BitLength(v * Pow(2, e)) == BitLength(v) + e
  {
    BitLengthBounds(v);
    var m := BitLength(v);
    PowAdd(2, m, e);
    PowAdd(2, m - 1, e);
    MulStrict(v, Pow(2, m), Pow(2, e));
    MulMono(Pow(2, m - 1), v, Pow(2, e));
    BitLengthUnique(v * Pow(2, e), m + e);
  }

  /** Dividing by 256 takes eight bits off, or all there are. */
  lemma BitLengthByte(v: nat)
    requires v > 0
    ensures v >= 256 ==> BitLength(v) == BitLength(v / 256) + 8
    ensures v < 256 ==> 1 <= BitLength(v) <= 8 && v / 256 == 0
  {
    var w := v / 256;
    BitLengthBounds(w);
    BitLengthBounds(v);
    var b := BitLength(w);
    hide Pow, BitLength;
    PowSmall();
    PowAdd(2, b, 8);
    DivMod(v, 256);
    if v >= 256 {
      PowAdd(2, b - 1, 8);
      BitLengthUnique(v, b + 8);
    } else if BitLength(v) > 8 {
      PowMono(2, 8, BitLength(v) - 1);
    }
  }

  // ------------------------------------------------------- bits within a limb

  function ShiftLimbLeft(x: limb, k: nat): limb {
    DivMod(x * Pow(2, k), Base());
    (x * Pow(2, k)) % Base()
  }

  function ShiftLimbRight(x: limb, k: nat): (r: limb)
    ensures r <= x
  {
    DivMod(x, Pow(2, k));
    MulMono(1, Pow(2, k), x / Pow(2, k));
    x / Pow(2, k)
  }

  function BitOf(x: limb, k: nat): limb {
    BaseFacts();
    ShiftLimbRight(x, k) % 2
  }

  /** Bits `pos` and up of a number. */
  ghost function HighBits(v: nat, pos: nat): nat {
    v / Pow(2, pos)
  }

  /** The next `w` bits join those above them. */
  lemma HighBitsStep(v: nat, pos: nat, w: nat)
    ensures HighBits(v, pos) == Pow(2, w) * HighBits(v, pos + w) + HighBits(v, pos) % Pow(2, w)
  {
    hide Pow;
    PowAdd(2, pos, w);
    DivDiv(v, Pow(2, pos), Pow(2, w));
    DivMod(HighBits(v, pos), Pow(2, w));
  }

  /** Bits picked from a limb are those of the whole number. */
  lemma BitsOfLimb(p: seq<limb>, i: nat, j: nat, w: nat)
    requires i < |p| && j + w <= biL
    ensures HighBits(Val(p), biL * i + j) % Pow(2, w) == ShiftLimbRight(p[i], j) % Pow(2, w)
  {
    LimbsAbove(p, i, j);
    BaseAround(j, w);
    ValCons(p, i);
    hide Pow, Val;
    UnderHighLimbs(p[i], Pow(2, j), Pow(2, w), Pow(2, biL - j - w), Val(p[i + 1..]), Base());
  }

  lemma LimbsAbove(p: seq<limb>, i: nat, j: nat)
    requires i < |p|
    ensures HighBits(Val(p), biL * i + j) == Val(p[i..]) / Pow(2, j)
  {
    hide Pow, Val;
    var q, d := Place(i), Pow(2, j);
    PlaceFacts(i);
    PowAdd(2, biL * i, j);
    ValSplit(p, i);
    ValBound(p[..i]);
    DivModUnique(Val(p), q, Val(p[i..]), Val(p[..i]));
    DivDiv(Val(p), q, d);
  }

  lemma BaseAround(j: nat, w: nat)
    requires j + w <= biL
    ensures Base() == Pow(2, j) * (Pow(2, w) * Pow(2, biL - j - w))
  {
    hide Pow;
    PowAdd(2, j, biL - j);
    PowAdd(2, w, biL - j - w);
  }

  /** Limbs further up do not reach the digit of base `m` at `d`. */
  lemma UnderHighLimbs(x: nat, d: nat, m: nat, h: nat, rest: nat, b: nat)
    requires d > 0 && m > 0 && b == d * (m * h)
    ensures ((x + b * rest) / d) % m == (x / d) % m
  {
    DivMod(x, d);
    var k, z := h * rest, x / d;
    MulAssoc(d, m * h, rest);
    MulAssoc(m, h, rest);
    Distr(z, m * k, d);
    DivModUnique(x + b * rest, d, z + m * k, x % d);
    DivMod(z, m);
    Distr(z / m, k, m);
    DivModUnique(z + m * k, m, z / m + k, z % m);
  }

  /** A number below 2^(k+1) has bit k set exactly when it is at least 2^k. */
  lemma TopBit(x: limb, k: nat)
    requires x < Pow(2, k + 1)
    ensures BitOf(x, k) == 1 <==> x >= Pow(2, k)
  {
    var q := Pow(2, k);
    if x < q {
      DivModUnique(x, q, 0, x);
    } else {
      DivModUnique(x, q, 1, x - q);
    }
  }

  /** Leading zero bits of a limb, by walking a one-bit mask down. */
  method Clz(x: limb) returns (j: nat)
    ensures j <= biL && j == biL - BitLength(x)
  {
    j := 0;
    assert Pow(2, biL - 0) == Base();
    while j < biL
      invariant j <= biL && x < Pow(2, biL - j)
    {
      TopBit(x, biL - 1 - j);
      if BitOf(x, biL - 1 - j) != 0 { break; }
      j := j + 1;
    }
    BitLengthUnique(x, biL - j);
  }

  /** A digit with `m` bits at bit position `a`, over anything smaller. */
  lemma BitsAbove(x: nat, low: nat, a: nat, m: nat)
    requires low < Pow(2, a) && 0 < m && Pow(2, m - 1) <= x < Pow(2, m)
    ensures BitLength(low + x * Pow(2, a)) == a + m
  {
    var q, c, d := Pow(2, a), Pow(2, m), Pow(2, m - 1);
    PowAdd(2, a, m);
    PowAdd(2, a, m - 1);
    MulMono(x + 1, c, q);
    Distr(x, 1, q);
    MulMono(d, x, q);
    BitLengthUnique(low + x * q, a + m);
  }

  lemma BitLenOfLimbs(p: seq<limb>, i: nat)
    requires i < |p| && p[i] != 0 && AllZero(p[i + 1..])
    ensures BitLength(Val(p)) == biL * i + BitLength(p[i])
  {
    hide Pow, Val, BitLength;
    BitLengthBounds(p[i]);
    BitLengthZero(p[i]);
    ValTopZeros(p, i + 1);
    ValSnoc(p, i);
    ValBound(p[..i]);
    PlaceFacts(i);
    BitsAbove(p[i], Val(p[..i]), biL * i, BitLength(p[i]));
  }

  method BitLen(X: Mpi) returns (r: nat)
    ensures r == BitLength(X.Abs())
  {
    if |X.p| == 0 { return 0; }
    var i: nat := |X.p| - 1;
    while i > 0
      invariant i < |X.p| && AllZero(X.p[i + 1..])
    {
      if X.p[i] != 0 { break; }
      assert AllZero(X.p[i..]);
      i := i - 1;
    }
    var z := Clz(X.p[i]);
    if X.p[i] != 0 {
      BitLenOfLimbs(X.p, i);
    } else {
      ValZero(X.p);
      assert AllZero(X.p);
    }
    return biL * i + (biL - z);
  }

  // ---------------------------------------------------------- trailing zeros

  /** x = k * d with k odd; anything from position 2d up keeps the quotient odd. */
  lemma OddPart(v: int, x: int, k: int, d: nat, h: int, b: int, rest: int, c: nat)
    requires k % 2 == 1 && d > 0 && c > 0
    requires x == k * d && b == (2 * h) * d && v == c * (x + b * rest)
    ensures c * d > 0 && v % (c * d) == 0 && (v / (c * d)) % 2 == 1
  {
    MulPos(c, d);
    var odd := k + 2 * (h * rest);
    assert b * rest == (2 * (h * rest)) * d by {
      MulAssoc(2 * h, d, rest);
      MulAssoc(2 * h, rest, d);
      MulAssoc(2, h, rest);
    }
    Distr(k, 2 * (h * rest), d);
    MulAssoc(odd, d, c);
    assert v == odd * (c * d);
    DivModUnique(v, c * d, odd, 0);
    ParityStep(k, h * rest);
  }

  lemma TrailingZeros(p: seq<limb>, i: nat, j: nat)
    requires i < |p| && j < biL && AllZero(p[..i])
    requires p[i] % Pow(2, j) == 0 && (p[i] / Pow(2, j)) % 2 == 1
    ensures Val(p) % Pow(2, biL * i + j) == 0 && (Val(p) / Pow(2, biL * i + j)) % 2 == 1
  {
    hide Pow, Val;
    var d, h := Pow(2, j), Pow(2, biL - j - 1);
    PowAdd(2, j, biL - j);
    PowAdd(2, biL * i, j);
    PlaceFacts(i);
    ValSplit(p, i);
    ValZero(p[..i]);
    ValCons(p, i);
    DivMod(p[i], d);
    var k, x, b, rest, c := p[i] / d, p[i] as int, Base(), Val(p[i + 1..]), Place(i);
    PowSucc(2, biL - j - 1);
    assert b == (2 * h) * d;
    OddPart(Val(p), x, k, d, h, b, rest, c);
  }

  /** Number of low zero bits; zero reports 0. */
  method Lsb(X: Mpi) returns (count: nat)
    ensures X.Abs() == 0 ==> count == 0
    ensures X.Abs() != 0 ==> X.Abs() % Pow(2, count) == 0 && (X.Abs() / Pow(2, count)) % 2 == 1
  {
    hide Pow, Val;
    count := 0;
    for i: nat := 0 to |X.p|
      invariant count == biL * i && AllZero(X.p[..i])
    {
      var j := LimbLsb(X.p[i]);
      if j < biL {
        TrailingZeros(X.p, i, j);
        count := count + j;
        return;
      }
      assert X.p[..i + 1] == X.p[..i] + [X.p[i]];
      count := count + biL;
    }
    assert X.p[..|X.p|] == X.p;
    ValZero(X.p);
    return 0;
  }

  /** The inner loop: the lowest set bit of one limb, or `biL` if there is none. */
  method LimbLsb(x: limb) returns (j: nat)
    ensures j <= biL
    ensures j < biL ==> x % Pow(2, j) == 0 && (x / Pow(2, j)) % 2 == 1
    ensures j == biL ==> x == 0
  {
    j := 0;
    while j < biL
      invariant j <= biL && x % Pow(2, j) == 0
    {
      if BitOf(x, j) != 0 { return; }
      DivDiv(x, Pow(2, j), 2);
      j := j + 1;
    }
    DivModUnique(x, Base(), 0, x);
  }

  // ------------------------------------------------------------- shifting left

  function BitsToLimbs(i: nat): nat {
    i / biL + if i % biL != 0 then 1 else 0
  }

  lemma BitsToLimbsFits(i: nat)
    ensures i <= biL * BitsToLimbs(i) < i + biL
  {
    DivMod(i, biL);
    Distr(i / biL, 1, biL);
  }

  /** Moving every limb up by `v0` places. */
  method MoveUp(X: Mpi, v0: nat)
    requires v0 <= |X.p| && Val(X.p) < Place(|X.p| - v0)
    modifies X`p
    ensures |X.p| == old(|X.p|)
    ensures Val(X.p) == old(Val(X.p)) * Place(v0)
    ensures AllZero(X.p[..v0])
  {
    hide Pow, Val;
    ghost var x0, t := X.p, Zeros(v0) + X.p[..|X.p| - v0];
    var i: nat := |X.p|;
    while i > v0
      invariant v0 <= i <= |x0| == |X.p|
      invariant X.p[..i] == x0[..i] && X.p[i..] == t[i..]
    {
      assert X.p[i - v0 - 1] == x0[i - v0 - 1] by { assert X.p[..i][i - v0 - 1] == x0[..i][i - v0 - 1]; }
      X.p := X.p[i - 1 := X.p[i - v0 - 1]];
      i := i - 1;
    }
    while i > 0
      invariant i <= v0 <= |x0| == |X.p|
      invariant X.p[i..] == t[i..]
    {
      BaseFacts();
      X.p := X.p[i - 1 := 0];
      i := i - 1;
    }
    assert X.p == t;
    MovedUp(x0, v0);
  }

  lemma MovedUp(p: seq<limb>, v0: nat)
    requires v0 <= |p| && Val(p) < Place(|p| - v0)
    ensures Val(Zeros(v0) + p[..|p| - v0]) == Val(p) * Place(v0)
  {
    hide Pow, Val;
    ValAppend(Zeros(v0), p[..|p| - v0]);
    ValZero(Zeros(v0));
    ValSmall(p, |p| - v0);
  }

  /** One limb of a left shift: what leaves the top is carried up. */
  lemma ShiftLeftWord(x: limb, k: nat)
    requires 0 < k < biL
    ensures x * Pow(2, k) == ShiftLimbLeft(x, k) + ShiftLimbRight(x, biL - k) * Base()
    ensures ShiftLimbLeft(x, k) % Pow(2, k) == 0 && Pow(2, k) > 0
    ensures ShiftLimbRight(x, biL - k) < Pow(2, k)
  {
    hide Pow, Val;
    var c, e := Pow(2, k), Pow(2, biL - k);
    PowAdd(2, k, biL - k);
    DivMod(x, e);
    var q, r := x / e, x % e;
    Distr(q * e, r, c);
    MulAssoc(q, e, c);
    MulStrict(r, e, c);
    MulNonNeg(r, c);
    DivModUnique(x * c, Base(), q, r * c);
    ModMultiple(r, c);
    if q >= c { MulMono(c, q, e); }
  }

  /** Joining the shifted limb with the bits carried in: they do not overlap, so
      the C code's bitwise or is an addition. */
  lemma JoinFits(x: limb, k: nat, r0: limb)
    requires 0 < k < biL && r0 < Pow(2, k)
    ensures ShiftLimbLeft(x, k) + r0 < Base()
  {
    hide Pow;
    ShiftLeftWord(x, k);
    var c, y := Pow(2, k), ShiftLimbLeft(x, k);
    PowAdd(2, k, biL - k);
    DivMod(y, c);
    var e := Pow(2, biL - k);
    if y / c >= e { MulMono(e, y / c, c); }
    MulMono(y / c + 1, e, c);
    Distr(y / c, 1, c);
  }

  lemma ShiftLeftAlgebra(lo: int, lo0: int, x: int, y: int, r0: int, r1: int, b: int, c: int, q: int)
    requires lo + r0 * q == lo0 * c && x * c == y + r1 * b
    ensures (lo + (y + r0) * q) + r1 * (b * q) == (lo0 + x * q) * c
  {
    Distr(y, r0, q);
    MulAssoc(r1, b, q);
    Distr(y, r1 * b, q);
    Distr(lo0, x * q, c);
    MulAssoc(x, q, c);
    MulAssoc(x, c, q);
  }

  lemma ShiftLeftStep(x0: seq<limb>, p: seq<limb>, i: nat, k: nat, r0: limb, w: limb)
    requires i < |p| == |x0| && p[i] == x0[i] && 0 < k < biL
    requires Val(p[..i]) + At(r0, i) == Val(x0[..i]) * Pow(2, k)
    requires w == ShiftLimbLeft(p[i], k) + r0
    ensures Val(p[i := w][..i + 1]) + At(ShiftLimbRight(p[i], biL - k), i + 1) == Val(x0[..i + 1]) * Pow(2, k)
  {
    hide Pow, Val;
    ShiftLeftWord(p[i], k);
    ValSnoc(p[i := w], i);
    assert p[i := w][..i] == p[..i];
    ValSnoc(x0, i);
    PlaceFacts(i);
    ShiftLeftAlgebra(Val(p[..i]), Val(x0[..i]), p[i], ShiftLimbLeft(p[i], k), r0,
                     ShiftLimbRight(p[i], biL - k), Base(), Pow(2, k), Place(i));
  }

  method ShiftBitsUp(X: Mpi, v0: nat, k: nat)
    requires v0 <= |X.p| && AllZero(X.p[..v0]) && 0 < k < biL
    requires Val(X.p) * Pow(2, k) < Place(|X.p|)
    modifies X`p
    ensures |X.p| == old(|X.p|)
    ensures Val(X.p) == old(Val(X.p)) * Pow(2, k)
  {
    ghost var x0 := X.p;
    var r0: limb := 0 by { BaseFacts(); }
    ValZero(x0[..v0]);
    assert At(0, v0) == 0;
    for i := v0 to |X.p|
      invariant |X.p| == |x0| && X.p[i..] == x0[i..] && r0 < Pow(2, k)
      invariant Val(X.p[..i]) + At(r0, i) == Val(x0[..i]) * Pow(2, k)
    {
      var r1 := ShiftLimbRight(X.p[i], biL - k);
      JoinFits(X.p[i], k, r0);
      ShiftLeftWord(X.p[i], k);
      var w: limb := ShiftLimbLeft(X.p[i], k) + r0;
      assert X.p[i] == x0[i] by { assert X.p[i..][0] == x0[i..][0]; }
      ShiftLeftStep(x0, X.p, i, k, r0, w);
      X.p := X.p[i := w];
      r0 := r1;
    }
    assert X.p[..|X.p|] == X.p && x0[..|x0|] == x0;
    if r0 > 0 { MulMono(1, r0, Place(|x0|)); }
  }

  /** The two loops of a left shift, once there is room for every bit. */
  method ShiftInPlace(X: Mpi, count: nat)
    requires BitLength(Val(X.p)) + count <= biL * |X.p|
    modifies X`p
    ensures |X.p| == old(|X.p|)
    ensures Val(X.p) == old(Val(X.p)) * Pow(2, count)
  {
    hide Pow, Val, BitLength;
    var v0, t1 := count / biL, count % biL;
    ghost var v := Val(X.p);
    DivMod(count, biL);
    ShiftRoom(v, count, |X.p|);
    ShiftSplit(v, count);
    PowOne(2);
    PlaceZero();
    if v0 > 0 { MoveUp(X, v0); }
    if t1 > 0 { ShiftBitsUp(X, v0, t1); }
  }

  /** X := X * 2^count. */
  method ShiftL(X: Mpi, count: nat)
    modifies X`p
    ensures X.Abs() == old(X.Abs()) * Pow(2, count)
    ensures X.Value() == old(X.Value()) * Pow(2, count)
    ensures |X.p| == ShiftedLength(old(|X.p|), BitLength(old(X.Abs())) + count) >= old(|X.p|)
  {
    hide Pow, Val, BitLength;
    var bits := BitLen(X);
    var i := bits + count;
    BitsToLimbsFits(i);
    if biL * |X.p| < i {
      if BitsToLimbs(i) <= |X.p| { MulMono(BitsToLimbs(i), |X.p|, biL); }
      Grow(X, BitsToLimbs(i));
    }
    SignedScale(X.s, X.Abs(), Pow(2, count));
    ShiftInPlace(X, count);
  }

  /** Limbs after a shift that needs `bits` bits in all. */
  function ShiftedLength(n: nat, bits: nat): nat {
    if biL * n < bits then BitsToLimbs(bits) else n
  }

  lemma SignedScale(s: sign, a: nat, c: nat)
    ensures Signed(s, a * c) == Signed(s, a) * c
  {}

  /** The limb part and the bit part of a shift make up the whole. */
  lemma ShiftSplit(v: nat, count: nat)
    ensures (v * Place(count / biL)) * Pow(2, count % biL) == v * Pow(2, count)
  {
    hide Pow;
    DivMod(count, biL);
    var v0, t1 := count / biL, count % biL;
    PlaceFacts(v0);
    PowAdd(2, biL * v0, t1);
    MulAssoc(v, Place(v0), Pow(2, t1));
  }

  /** With room for all the bits nothing is shifted out at the top. */
  lemma ShiftRoom(v: nat, count: nat, n: nat)
    requires BitLength(v) + count <= biL * n
    ensures count / biL <= n && v < Place(n - count / biL)
    ensures v * Pow(2, count) < Place(n)
  {
    hide Pow, BitLength;
    DivMod(count, biL);
    var v0, m := count / biL, BitLength(v);
    if v0 > n { MulMono(n + 1, v0, biL); Distr(n, 1, biL); }
    BitLengthBounds(v);
    PlaceFacts(n);
    PlaceFacts(n - v0);
    Distr(n, v0, biL);
    PowMono(2, m, biL * (n - v0));
    PowMono(2, m + count, biL * n);
    PowAdd(2, m, count);
    MulStrict(v, Pow(2, m), Pow(2, count));
  }

  // ------------------------------------------------------------ shifting right

  lemma MovedDown(p: seq<limb>, v0: nat)
    requires v0 <= |p|
    ensures Val(p[v0..] + Zeros(v0)) == Val(p) / Place(v0)
  {
    hide Pow, Val;
    var t := p[v0..] + Zeros(v0);
    assert t[..|p| - v0] == p[v0..] && t[|p| - v0..] == Zeros(v0);
    ValTopZeros(t, |p| - v0);
    ValSplit(p, v0);
    ValBound(p[..v0]);
    DivModUnique(Val(p), Place(v0), Val(p[v0..]), Val(p[..v0]));
  }

  /** Moving every limb down by `v0` places. */
  method MoveDown(X: Mpi, v0: nat)
    requires v0 <= |X.p|
    modifies X`p
    ensures |X.p| == old(|X.p|)
    ensures Val(X.p) == old(Val(X.p)) / Place(v0)
  {
    hide Pow, Val;
    ghost var x0 := X.p;
    MovedDown(x0, v0);
    var i: nat := 0;
    while i < |X.p| - v0
      invariant i <= |x0| - v0 && |X.p| == |x0|
      invariant forall k :: 0 <= k < i ==> X.p[k] == x0[k + v0]
      invariant forall k :: i <= k < |x0| ==> X.p[k] == x0[k]
    {
      X.p := X.p[i := X.p[i + v0]];
      i := i + 1;
    }
    while i < |X.p|
      invariant |x0| - v0 <= i <= |x0| == |X.p|
      invariant forall k :: 0 <= k < |x0| - v0 ==> X.p[k] == x0[k + v0]
      invariant forall k :: |x0| - v0 <= k < i ==> X.p[k] == 0
    {
      X.p := X.p[i := 0];
      i := i + 1;
    }
    assert X.p == x0[v0..] + Zeros(v0);
  }

  lemma ShiftRightAlgebra(q: int, m: int, r: int, above: int, b: int, c: int, e: int)
    requires b == c * e
    ensures (q * c + m) + b * (c * above + r) == c * ((q + r * e) + b * above) + m
  {
    Distr(q, r * e, c);
    MulAssoc(r, e, c);
    Distr(q + r * e, b * above, c);
    MulAssoc(c, b, above);
    MulAssoc(b, c, above);
    Distr(c * above, r, b);
  }

  /** One limb of a right shift, from the top: `r` is what the limbs above left
      over, held in the top bits of the carried word. */
  lemma ShiftRightStep(x0: seq<limb>, p: seq<limb>, i: nat, k: nat, r: nat, w: limb)
    requires i < |p| == |x0| && p[i] == x0[i] && 0 < k < biL
    requires Val(x0[i + 1..]) == Pow(2, k) * Val(p[i + 1..]) + r
    requires w == ShiftLimbRight(p[i], k) + r * Pow(2, biL - k)
    ensures Val(x0[i..]) == Pow(2, k) * Val(p[i := w][i..]) + x0[i] % Pow(2, k)
  {
    hide Pow, Val;
    PowAdd(2, k, biL - k);
    DivMod(x0[i], Pow(2, k));
    ValCons(x0, i);
    ValCons(p[i := w], i);
    assert p[i := w][i + 1..] == p[i + 1..];
    ShiftRightAlgebra(x0[i] / Pow(2, k), x0[i] % Pow(2, k), r, Val(p[i + 1..]), Base(), Pow(2, k), Pow(2, biL - k));
  }

  lemma CarriedDown(x: limb, k: nat)
    requires 0 < k < biL && Pow(2, k) > 0
    ensures ShiftLimbLeft(x, biL - k) == (x % Pow(2, k)) * Pow(2, biL - k)
  {
    hide Pow;
    var c, e := Pow(2, k), Pow(2, biL - k);
    PowAdd(2, k, biL - k);
    DivMod(x, c);
    var q, r := x / c, x % c;
    Distr(q * c, r, e);
    MulAssoc(q, c, e);
    MulStrict(r, c, e);
    MulNonNeg(r, e);
    DivModUnique(x * e, Base(), q, r * e);
  }

  lemma JoinDownFits(x: limb, k: nat, r: nat)
    requires 0 < k < biL && r < Pow(2, k)
    ensures ShiftLimbRight(x, k) + r * Pow(2, biL - k) < Base()
  {
    hide Pow;
    var c, e := Pow(2, k), Pow(2, biL - k);
    PowAdd(2, k, biL - k);
    DivMod(x, c);
    if x / c >= e { MulMono(e, x / c, c); }
    MulMono(r + 1, c, e);
    Distr(r, 1, e);
  }

  method ShiftBitsDown(X: Mpi, k: nat)
    requires 0 < k < biL
    modifies X`p
    ensures |X.p| == old(|X.p|)
    ensures Pow(2, k) > 0 && Val(X.p) == old(Val(X.p)) / Pow(2, k)
  {
    hide Pow, Val;
    ghost var x0, r := X.p, 0;
    var r0: limb := 0 by { BaseFacts(); }
    var i: nat := |X.p|;
    ValZero([]);
    assert x0[i..] == [];
    while i > 0
      invariant i <= |x0| == |X.p| && X.p[..i] == x0[..i]
      invariant 0 <= r < Pow(2, k) && r0 == r * Pow(2, biL - k)
      invariant Val(x0[i..]) == Pow(2, k) * Val(X.p[i..]) + r
    {
      assert X.p[i - 1] == x0[i - 1] by { assert X.p[..i][i - 1] == x0[..i][i - 1]; }
      var r1 := ShiftLimbLeft(X.p[i - 1], biL - k);
      CarriedDown(X.p[i - 1], k);
      JoinDownFits(X.p[i - 1], k, r);
      var w: limb := ShiftLimbRight(X.p[i - 1], k) + r0;
      ShiftRightStep(x0, X.p, i - 1, k, r, w);
      DivMod(x0[i - 1], Pow(2, k));
      r := x0[i - 1] % Pow(2, k);
      X.p := X.p[i - 1 := w];
      r0 := r1;
      i := i - 1;
    }
    assert X.p[0..] == X.p && x0[0..] == x0;
    DivModUnique(Val(x0), Pow(2, k), Val(X.p), r);
  }

  /** Everything is shifted out. */
  lemma ShiftedOut(p: seq<limb>, count: nat)
    requires biL * |p| <= count
    ensures Pow(2, count) > 0 && Val(p) / Pow(2, count) == 0
  {
    ValBound(p);
    PlaceFacts(|p|);
    PowMono(2, biL * |p|, count);
    DivModUnique(Val(p), Pow(2, count), 0, Val(p));
  }

  lemma ShiftDownSplit(v: nat, count: nat)
    ensures Place(count / biL) > 0 && Pow(2, count % biL) > 0 && Pow(2, count) > 0
    ensures (v / Place(count / biL)) / Pow(2, count % biL) == v / Pow(2, count)
  {
    DivMod(count, biL);
    var v0, t1 := count / biL, count % biL;
    PlaceFacts(v0);
    PowAdd(2, biL * v0, t1);
    DivDiv(v, Place(v0), Pow(2, t1));
  }

  /** The two loops of a right shift that leaves something. */
  method ShiftDownInPlace(X: Mpi, count: nat)
    requires count / biL <= |X.p|
    modifies X`p
    ensures |X.p| == old(|X.p|)
    ensures Val(X.p) == old(Val(X.p)) / Pow(2, count)
  {
    hide Pow, Val;
    var v0, v1 := count / biL, count % biL;
    ShiftDownSplit(Val(X.p), count);
    PowOne(2);
    PlaceZero();
    if v0 > 0 { MoveDown(X, v0); }
    if v1 > 0 { ShiftBitsDown(X, v1); }
  }

  /** X := X / 2^count, rounding the magnitude down. */
  method ShiftR(X: Mpi, count: nat)
    modifies X
    ensures X.Abs() == old(X.Abs()) / Pow(2, count)
    ensures X.Value() == Signed(old(X.s), Quo(old(X.Abs()), Pow(2, count)))
    ensures |X.p| >= old(|X.p|)
  {
    hide Pow, Val;
    var v0, v1 := count / biL, count % biL;
    DivMod(count, biL);
    if v0 > |X.p| || (v0 == |X.p| && v1 > 0) {
      MulMono(|X.p|, v0, biL);
      ShiftedOut(X.p, count);
      Lset(X, 0);
      return;
    }
    ShiftDownInPlace(X, count);
  }
}
