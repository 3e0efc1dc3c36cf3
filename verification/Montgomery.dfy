/** Montgomery arithmetic: the word inverse by Hensel doubling and the
    interleaved multiply-and-reduce (HAC 14.36). */
module Montgomery {
  import opened Arith
  import opened Limbs
  import opened MpiCore
  import opened MpiAdd
  import opened MpiMul
  import opened MpiShift
  import opened WordDiv

  // ----------------------------------------------------------- word inverse

  /** `x = m0; x += ((m0 + 2) & 4) << 1;` */
  function FirstInverse(m0: limb): limb {
    BaseFacts();
    WrapAdd(m0, 8 * BitOf(WrapAdd(m0, 2), 2))
  }

  lemma BaseBySixteen()
    ensures Base() == 16 * Pow(2, biL - 4)
  {
    PowAdd(2, 4, biL - 4);
    PowSmall();
  }

  /** The sixteen residues, one by one. */
  lemma OddResidues(r: int)
    requires 0 <= r < 16 && r % 2 == 1
    ensures Cong(r * (r + 8 * (((r + 2) / 4) % 2)), 1, 16)
  {
    if r == 1 || r == 7 || r == 9 || r == 15 { assert ((r + 2) / 4) % 2 == 0; }
    if r == 3 || r == 5 || r == 11 || r == 13 { assert ((r + 2) / 4) % 2 == 1; }
  }

  lemma BitTwoOf(w: limb)
    ensures BitOf(w, 2) == (w / 4) % 2
  {
    PowSmall();
  }

  lemma BitTwoResidue(k: int, r: int)
    requires 0 <= r < 16
    ensures ((16 * k + r + 2) / 4) % 2 == ((r + 2) / 4) % 2
  {
    var h := (r + 2) / 4;
    DivMod(r + 2, 4);
    DivModUnique(16 * k + r + 2, 4, 4 * k + h, (r + 2) % 4);
    ParityStep(h, 2 * k);
  }

  lemma BitTwoOfSum(m0: limb)
    requires m0 % 2 == 1
    ensures BitOf(WrapAdd(m0, 2), 2) == ((m0 % 16 + 2) / 4) % 2
  {
    hide Pow, BitOf;
    BaseFacts();
    BaseBySixteen();
    BitTwoOf(WrapAdd(m0, 2));
    DivMod(m0, 16);
    BitTwoResidue(m0 / 16, m0 % 16);
    if m0 + 2 >= Base() { DivModUnique(m0, 16, Pow(2, biL - 4) - 1, 15); }
  }

  /** The starting value is the residue's table entry, modulo 16. */
  lemma FirstInverseResidue(m0: limb, x: int, t: int, q: int)
    requires Base() == 16 * q && 0 <= t <= 1 && (x == m0 + 8 * t || x == m0 + 8 * t - Base())
    ensures Cong(x, m0 % 16 + 8 * t, 16) && Cong(m0, m0 % 16, 16)
  {
    hide Pow, Cong;
    DivMod(m0, 16);
    CongIntro(x, m0 % 16 + 8 * t, 16, if x == m0 + 8 * t then m0 / 16 else m0 / 16 - q);
    CongIntro(m0, m0 % 16, 16, m0 / 16);
  }

  /** The starting value inverts m0 modulo 16. */
  lemma FirstInverseWorks(m0: limb)
    requires m0 % 2 == 1
    ensures Cong(m0 * FirstInverse(m0), 1, 16)
  {
    hide Pow, BitOf, Cong;
    BaseFacts();
    BaseBySixteen();
    BitTwoOfSum(m0);
    var r, x, t := m0 % 16, FirstInverse(m0), BitOf(WrapAdd(m0, 2), 2);
    FirstInverseResidue(m0, x, t, Pow(2, biL - 4));
    assert r % 2 == 1 by { DivMod(m0, 16); ParityStep(r, 8 * (m0 / 16)); }
    var y := r + 8 * t;
    InverseProduct(m0, r, x, y);
  }

  lemma InverseProduct(m0: int, r: int, x: int, y: int)
    requires 0 <= r < 16 && r % 2 == 1 && y == r + 8 * (((r + 2) / 4) % 2)
    requires Cong(m0, r, 16) && Cong(x, y, 16)
    ensures Cong(m0 * x, 1, 16)
  {
    hide Cong;
    CongMul(m0, r, x, y, 16);
    OddResidues(r);
    CongTrans(m0 * x, r * y, 1, 16);
  }

  /** Wrapping operations are congruences modulo any power of two up to Base(). */
  lemma WrapCongPow2(x: limb, y: limb, e: nat)
    requires e <= biL
    ensures Cong(WrapSub(x, y), x - y, Pow(2, e))
    ensures Cong(WrapMul(x, y), x * y, Pow(2, e))
  {
    hide Pow, Cong, WrapMul, WrapSub;
    PowAdd(2, e, biL - e);
    WrapCong(x, y);
    CongFactor(WrapSub(x, y), x - y, Pow(2, e), Pow(2, biL - e));
    CongFactor(WrapMul(x, y), x * y, Pow(2, e), Pow(2, biL - e));
  }

  lemma HenselChain(m0: int, x: int, p: int, f: int, y: int, d: int)
    requires d > 0 && Cong(p, m0 * x, d) && Cong(f, 2 - p, d) && Cong(y, x * f, d)
    ensures Cong(m0 * y, m0 * (x * (2 - m0 * x)), d)
  {
    hide Cong;
    CongRefl(2, d);
    CongAdd(2, 2, p, m0 * x, d);
    CongTrans(f, 2 - p, 2 - m0 * x, d);
    CongMulLeft(f, 2 - m0 * x, x, d);
    CongTrans(y, x * f, x * (2 - m0 * x), d);
    CongMulLeft(y, x * (2 - m0 * x), m0, d);
  }

  /** One Newton step doubles the number of correct bits. */
  lemma HenselStep(m0: limb, x: limb, e: nat)
    requires 2 * e <= biL && Cong(m0 * x, 1, Pow(2, e))
    ensures Cong(m0 * WrapMul(x, WrapSub(2, WrapMul(m0, x))), 1, Pow(2, 2 * e))
  {
    hide Pow, Cong, WrapMul, WrapSub;
    BaseFacts();
    var c, d := Pow(2, e), Pow(2, 2 * e);
    PowAdd(2, e, e);
    var p := WrapMul(m0, x);
    var f := WrapSub(2, p);
    var y := WrapMul(x, f);
    WrapCongPow2(m0, x, 2 * e);
    WrapCongPow2(2, p, 2 * e);
    WrapCongPow2(x, f, 2 * e);
    HenselChain(m0, x, p, f, y, d);
    var k := CongElim(m0 * x, 1, c);
    SquareOfError(m0, x, k, c);
    CongIntro(m0 * (x * (2 - m0 * x)), 1, d, -(k * k));
    CongTrans(m0 * y, m0 * (x * (2 - m0 * x)), 1, d);
  }

  lemma SquareOfError(m: int, x: int, k: int, c: int)
    requires m * x == 1 + k * c
    ensures m * (x * (2 - m * x)) == 1 + (-(k * k)) * (c * c)
  {
    var t := k * c;
    MulAssoc(m, x, 2 - m * x);
    assert (1 + t) * (1 - t) == 1 - t * t by { Distr(1, t, 1 - t); Distr(1, t, t); }
    Swap4(k, c, k, c);
  }

  /** mm with mm * N = -1 modulo the limb base. */
  method MontgInit(N: Mpi) returns (mm: limb)
    requires |N.p| > 0 && N.p[0] % 2 == 1
    ensures Cong(mm * N.Abs(), -1, Base())
    ensures Cong(mm * N.p[0], -1, Base())
  {
    hide Pow, Val, Cong, FirstInverse, WrapMul, WrapSub, BitOf;
    BaseFacts();
    var m0: limb := N.p[0];
    var x: limb := FirstInverse(m0);
    FirstInverseWorks(m0);
    PowSmall();
    ghost var e: nat := 4;
    var i: nat := biL;
    while i >= 8
      invariant i in {64, 32, 16, 8, 4} && e == 4 * (biL / i)
      invariant Cong(m0 * x, 1, Pow(2, e))
    {
      HenselStep(m0, x, e);
      x := WrapMul(x, WrapSub(2, WrapMul(m0, x)));
      e := 2 * e;
      i := i / 2;
    }
    assert e == biL;
    mm := WrapAdd(Base() - 1 - x, 1);
    NegatedInverse(m0, x, mm);
    ValParity(N.p);
    CongMulLeft(N.Abs(), m0, mm, Base());
    CongTrans(mm * N.Abs(), mm * m0, -1, Base());
  }

  lemma NegatedInverse(m0: limb, x: limb, mm: limb)
    requires Cong(m0 * x, 1, Base()) && x < Base() && mm == (if x == 0 then 0 else Base() - x)
    ensures Cong(mm * m0, -1, Base())
  {
    hide Pow, Cong;
    var k := CongElim(m0 * x, 1, Base());
    if x == 0 {
      assert k * Base() == -1;
      CongIntro(mm * m0, -1, Base(), -k);
    } else {
      Distr(Base(), x, m0);
      Distr(m0, k, Base());
      CongIntro(mm * m0, -1, Base(), m0 - k);
    }
  }

  // -------------------------------------------------------- multiply-and-reduce

  /** One row: adding u0*B and then the multiple of N that clears the lowest limb
      keeps the congruence and the bound. */
  lemma MontRow(d: nat, s: nat, d': nat, v: nat, u0: nat, u1: nat, bv: nat, n: nat, p: nat, b: nat)
    requires n > 0 && Cong(d * p, v * bv, n) && d < n + bv && u0 < b && u1 < b
    requires s == d + u0 * bv + u1 * n && s == d' * b
    ensures Cong(d' * (b * p), (v + u0 * p) * bv, n)
    ensures s < b * (n + bv) && d' < n + bv
  {
    hide Cong;
    MulAssoc(d', b, p);
    Distr(d + u0 * bv, u1 * n, p);
    Distr(d, u0 * bv, p);
    Distr(v, u0 * p, bv);
    MulAssoc(u0, p, bv);
    MulAssoc(u0, bv, p);
    MulAssoc(u1, n, p);
    MulAssoc(u1, p, n);
    CongIntro((u1 * n) * p, 0, n, u1 * p);
    CongRefl((u0 * bv) * p, n);
    CongAdd(d * p, v * bv, (u0 * bv) * p, (u0 * bv) * p, n);
    CongAdd(d * p + (u0 * bv) * p, v * bv + (u0 * bv) * p, (u1 * n) * p, 0, n);
    MulMono(u0, b - 1, bv);
    MulMono(u1, b - 1, n);
    Distr(b, 1, bv);
    Distr(b, 1, n);
    Distr(n, bv, b);
    MulCancelLt(d', n + bv, b);
  }

  /** The multiplier chosen for N makes the row's lowest limb vanish. */
  lemma LowLimbClears(s: int, c: int, t: int, u1: int, mm: int, n0: int, b: int)
    requires b > 0 && Cong(mm * n0, -1, b) && Cong(t, c, b) && Cong(u1, t * mm, b)
    requires Cong(s, c + u1 * n0, b)
    ensures Cong(s, 0, b)
  {
    hide Cong;
    CongMulLeft(u1, t * mm, n0, b);
    MulAssoc(t, mm, n0);
    CongMulLeft(mm * n0, -1, t, b);
    CongTrans(u1 * n0, t * (mm * n0), -t, b);
    CongSym(t, c, b);
    CongAdd(c, t, u1 * n0, -t, b);
    CongTrans(s, c + u1 * n0, 0, b);
  }

  /** Room for one row: nothing carries out of the 2n + 2 limbs of T. */
  lemma RowFits(t: seq<limb>, i: nat, n: nat, bv: nat, nv: nat, u0: limb, u1: limb)
    requires i < n && |t| >= 2 * n + 2 && nv < Place(n) && bv <= nv
    requires Val(t[i..]) < nv + bv
    ensures Val(t) + At(bv * u0, i) + At(nv * u1, i) < Place(|t|)
    ensures At(bv * u0, i) >= 0 && At(nv * u1, i) >= 0
  {
    hide Pow, Val;
    var d, b, p := Val(t[i..]), Base(), Place(i);
    BaseFacts();
    ValSplit(t, i);
    ValBound(t[..i]);
    MulNonNeg(bv, u0);
    MulNonNeg(nv, u1);
    MulNonNeg(bv * u0, p);
    MulNonNeg(nv * u1, p);
    MulMono(u0, b - 1, bv);
    MulMono(u1, b - 1, nv);
    Distr(b, 1, bv);
    Distr(b, 1, nv);
    var s := d + bv * u0 + nv * u1;
    MulMono(bv, nv, b);
    assert s < 2 * (b * nv);
    MulMono(nv + 1, Place(n), b);
    Distr(nv, 1, b);
    PlaceFacts(n);
    PlaceFacts(n + 1);
    MulMono(2, b, Place(n + 1));
    assert s + 1 <= Place(n + 2);
    MulMono(s + 1, Place(n + 2), p);
    Distr(s, 1, p);
    Distr(d + bv * u0, nv * u1, p);
    Distr(d, bv * u0, p);
    PlaceAdd(i, n + 2);
    PlaceMono(i + (n + 2), |t|);
  }

  /** Reading the new window off the value of the whole buffer. */
  lemma WindowValue(t0: seq<limb>, t: seq<limb>, i: nat, x: int, y: int)
    requires i <= |t0| == |t| && t[..i] == t0[..i] && Val(t) == Val(t0) + At(x, i) + At(y, i)
    ensures Val(t[i..]) == Val(t0[i..]) + x + y
  {
    hide Pow, Val;
    ValSplit(t0, i);
    ValSplit(t, i);
    WindowAlgebra(Val(t0[..i]), Val(t0[i..]), Val(t[i..]), x, y, Place(i));
  }

  lemma WindowAlgebra(low: int, v0: int, v: int, x: int, y: int, p: int)
    requires p > 0 && low + p * v == (low + p * v0) + x * p + y * p
    ensures v == v0 + x + y
  {
    Distr(v0 + x, y, p);
    Distr(v0, x, p);
    MulCancelEq(v, v0 + x + y, p);
  }

  lemma LowLimbOfRow(t: seq<limb>, i: nat, d0: limb, b: seq<limb>, m: nat, nn: seq<limb>, u0: limb, u1: limb, d: nat)
    requires i < |t| && 0 < m <= |b| && |nn| > 0
    requires Val(t[i..]) == d + Val(b[..m]) * u0 + Val(nn) * u1 && Cong(d, d0, Base())
    ensures Cong(t[i], (d0 + u0 * b[0]) + u1 * nn[0], Base())
  {
    hide Pow, Val, Cong;
    var r := Base();
    ValParity(t[i..]);
    ValParity(b[..m]);
    ValParity(nn);
    CongMulLeft(Val(b[..m]), b[0], u0, r);
    CongMulLeft(Val(nn), nn[0], u1, r);
    CongAdd(d, d0, Val(b[..m]) * u0, u0 * b[0], r);
    CongAdd(d + Val(b[..m]) * u0, d0 + u0 * b[0], Val(nn) * u1, u1 * nn[0], r);
    CongSym(Val(t[i..]), t[i], r);
    CongTrans(t[i], Val(t[i..]), d0 + u0 * b[0] + u1 * nn[0], r);
  }

  /** The multiplier as the code computes it: the row's lowest limb is zero. */
  lemma MultiplierClears(x: limb, d0: limb, u0: limb, b0: limb, mm: limb, n0: limb)
    requires Cong(mm * n0, -1, Base())
    requires Cong(x, (d0 + u0 * b0) + WrapMul(WrapAdd(d0, WrapMul(u0, b0)), mm) * n0, Base())
    ensures x == 0
  {
    hide Pow, Cong, WrapMul, WrapAdd;
    var r := Base();
    var m0 := WrapMul(u0, b0);
    var t := WrapAdd(d0, m0);
    var u1 := WrapMul(t, mm);
    WrapCong(u0, b0);
    WrapCong(d0, m0);
    WrapCong(t, mm);
    CongRefl(d0, r);
    CongAdd(d0, d0, m0, u0 * b0, r);
    CongTrans(t, d0 + m0, d0 + u0 * b0, r);
    LowLimbClears(x, d0 + u0 * b0, t, u1, mm, n0, r);
    CongInRange(x, 0, r);
    DivModUnique(0, r, 0, 0);
  }

  /** T[i..] := T[i..] + u0*B + u1*N. */
  method AddRow(T: Mpi, i: nat, u0: limb, u1: limb, b: seq<limb>, m: nat, nn: seq<limb>)
    requires i < |nn| && m <= |b| && m <= |nn| && |T.p| >= 2 * |nn| + 2
    requires Val(b[..m]) <= Val(nn) && Val(T.p[i..]) < Val(nn) + Val(b[..m])
    modifies T`p
    ensures |T.p| == old(|T.p|) && T.p[..i] == old(T.p)[..i]
    ensures Val(T.p[i..]) == old(Val(T.p[i..])) + Val(b[..m]) * u0 + Val(nn) * u1
  {
    hide Pow, Val, At;
    ghost var t0 := T.p;
    var n := |nn|;
    ValBound(nn);
    RowFits(T.p, i, n, Val(b[..m]), Val(nn), u0, u1);
    MulHlp(m, b, T, i, u0);
    assert nn[..n] == nn;
    MulHlp(n, nn, T, i, u1);
    WindowValue(t0, T.p, i, Val(b[..m]) * u0, Val(nn) * u1);
  }

  /** T[i..] := (T[i..] + u0*B + u1*N) / Base(), leaving u0 behind in T[i]. */
  method MontRowStep(T: Mpi, i: nat, u0: limb, b: seq<limb>, m: nat, nn: seq<limb>, mm: limb) returns (ghost u1: limb)
    requires i < |nn| && 0 < m <= |b| && m <= |nn| && |T.p| >= 2 * |nn| + 2
    requires Cong(mm * nn[0], -1, Base())
    requires Val(b[..m]) <= Val(nn) && Val(T.p[i..]) < Val(nn) + Val(b[..m])
    modifies T`p
    ensures |T.p| == old(|T.p|) && T.p[..i] == old(T.p)[..i] && T.p[i] == u0
    ensures old(Val(T.p[i..])) + u0 * Val(b[..m]) + u1 * Val(nn) == Val(T.p[i + 1..]) * Base()
  {
    hide Pow, Val, Cong, WrapMul, WrapAdd, At;
    BaseFacts();
    ghost var t0, bv, nv, d := T.p, Val(b[..m]), Val(nn), Val(T.p[i..]);
    var n := |nn|;
    ValBound(nn);
    var d0, m0 := T.p[i], WrapMul(u0, b[0]);
    var t := WrapAdd(d0, m0);
    var v1 := WrapMul(t, mm);
    u1 := v1;
    AddRow(T, i, u0, v1, b, m, nn);
    assert t0[i..][0] == d0;
    ValParity(t0[i..]);
    LowLimbOfRow(T.p, i, d0, b, m, nn, u0, v1, d);
    MultiplierClears(T.p[i], d0, u0, b[0], mm, nn[0]);
    ValCons(T.p, i);
    WindowTopZero(T.p, i, n, d + bv * u0 + nv * v1, bv, nv, u0, v1);
    NextWindow(T, i, n, u0);
  }

  /** `*d++ = u0; d[n + 1] = 0;` */
  method NextWindow(T: Mpi, i: nat, n: nat, u0: limb)
    requires i + n + 2 < |T.p| && T.p[i + n + 2] == 0
    modifies T`p
    ensures |T.p| == old(|T.p|) && T.p[..i] == old(T.p)[..i] && T.p[i] == u0 && T.p[i + 1..] == old(T.p)[i + 1..]
  {
    T.p := T.p[i := u0];
    T.p := T.p[i + n + 2 := 0];
  }

  /** The limb about to enter the window is already zero. */
  lemma WindowTopZero(t: seq<limb>, i: nat, n: nat, s: nat, bv: nat, nv: nat, u0: limb, u1: limb)
    requires i < n && |t| >= 2 * n + 2 && nv < Place(n) && bv <= nv
    requires s < (nv + bv) + bv * u0 + nv * u1 && s == Base() * Val(t[i + 1..])
    ensures t[i + n + 2] == 0
  {
    hide Pow, Val;
    var b, d := Base(), Val(t[i + 1..]);
    BaseFacts();
    MulMono(u0, b - 1, bv);
    MulMono(u1, b - 1, nv);
    Distr(b, 1, bv);
    Distr(b, 1, nv);
    Distr(nv, bv, b);
    MulCancelLt(d, nv + bv, b);
    PlaceFacts(n);
    MulMono(2, b, Place(n));
    ValSmall(t[i + 1..], n + 1);
    assert t[i + n + 2] == t[i + 1..][n + 1..][0];
  }

  /** A := A * B * R^-1 mod N with R = Base()^n. T is scratch space: with fewer
      than n + 1 limbs it is refused; the loop uses 2n + 2. A and B may coincide. */
  method MontMul(A: Mpi, B: Mpi, N: Mpi, mm: limb, T: Mpi) returns (ret: Status)
    requires T != A && T != B && T != N && A != N
    requires |N.p| > 0 && |B.p| > 0 && |A.p| >= |N.p| + 1
    requires |T.p| < |N.p| + 1 || |T.p| >= 2 * |N.p| + 2
    requires A.Abs() < Place(|N.p|) && B.Abs() <= N.Abs()
    requires N.Abs() > 0 && Cong(mm * N.p[0], -1, Base())
    modifies A`p, T`p
    ensures ret == if old(|T.p|) < |N.p| + 1 then BadInputData else Ok
    ensures ret != Ok ==> A.p == old(A.p) && T.p == old(T.p)
    ensures |A.p| == old(|A.p|) && |T.p| == old(|T.p|)
    ensures ret == Ok ==> A.Abs() < N.Abs()
    ensures ret == Ok ==> Cong(A.Abs() * Place(|N.p|), old(A.Abs()) * old(B.Abs()), N.Abs())
  {
    hide Pow, Val, Cong;
    var n := |N.p|;
    if |T.p| < n + 1 { return BadInputData; }
    ghost var a, b, nn := A.p, B.p, N.p;
    var m := if |B.p| < n then |B.p| else n;
    ghost var bv, nv := Val(b), Val(nn);
    ValBound(nn);
    TruncatedOperand(b, m, n, nv);
    T.p := Zeros(|T.p|);
    ValZero(T.p);
    assert T.p[0..] == T.p;
    assert a[..0] == [];
    ValZero([]);
    PlaceZero();
    CongRefl(0, nv);
    var i: nat := 0;
    while i < n
      invariant i <= n && |T.p| == old(|T.p|) && A.p == a && B.p == b && N.p == nn
      invariant T.p[..i] == a[..i]
      invariant Val(T.p[i..]) < nv + bv
      invariant Cong(Val(T.p[i..]) * Place(i), Val(a[..i]) * bv, nv)
    {
      ghost var d := Val(T.p[i..]);
      var u0 := A.p[i];
      ghost var u1 := MontRowStep(T, i, u0, B.p, m, N.p, mm);
      ghost var d' := Val(T.p[i + 1..]);
      MontRow(d, d' * Base(), d', Val(a[..i]), u0, u1, bv, nv, Place(i), Base());
      ValSnoc(a, i);
      PlaceFacts(i);
      assert T.p[..i + 1] == T.p[..i] + [u0] == a[..i + 1];
      i := i + 1;
    }
    ValSmall(a, n);
    ghost var d := Val(T.p[n..]);
    MontFinish(A, N, T, bv);
    CongRefl(d, nv);
    CongShift(d, d, nv);
    CongMulLeft(A.Abs(), d, Place(n), nv);
    CongTrans(A.Abs() * Place(n), d * Place(n), Val(a) * bv, nv);
    return Ok;
  }

  lemma TruncatedOperand(b: seq<limb>, m: nat, n: nat, nv: nat)
    requires Val(b) <= nv < Place(n) && m == if |b| < n then |b| else n
    ensures Val(b[..m]) == Val(b)
  {
    hide Pow, Val;
    if |b| < n { assert b[..m] == b; } else { ValSmall(b, n); }
  }

  /** The copy out of the window and the single conditional subtraction. */
  method MontFinish(A: Mpi, N: Mpi, T: Mpi, ghost bv: nat)
    requires T != A && T != N && A != N && |N.p| > 0
    requires |A.p| >= |N.p| + 1 && |T.p| >= 2 * |N.p| + 2 && A.Abs() < Place(|N.p|)
    requires bv <= N.Abs() && Val(T.p[|N.p|..]) < N.Abs() + bv && N.Abs() < Place(|N.p|)
    modifies A`p, T`p
    ensures |A.p| == old(|A.p|) && |T.p| == old(|T.p|) && A.Abs() < N.Abs()
    ensures A.Abs() == old(Val(T.p[|N.p|..])) || A.Abs() + N.Abs() == old(Val(T.p[|N.p|..]))
  {
    hide Pow, Val;
    var n := |N.p|;
    ghost var d := Val(T.p[n..]);
    CopiedWindow(A.p, T.p, n, d);
    A.p := T.p[n..2 * n + 1] + A.p[n + 1..];
    var c := CmpAbs(A, N);
    if c >= 0 {
      assert N.p[..n] == N.p;
      SubHlp(n, N.p, A);
    } else {
      ValSmall(A.p, n);
      ValSplit(T.p, n);
      MulMono(1, Place(n), d);
      SubHlp(n, A.p, T);
    }
  }

  lemma CopiedWindow(a: seq<limb>, t: seq<limb>, n: nat, d: nat)
    requires |a| >= n + 1 && |t| >= 2 * n + 2 && Val(a) < Place(n) && Val(t[n..]) == d < 2 * Place(n)
    ensures Val(t[n..2 * n + 1] + a[n + 1..]) == d
  {
    hide Pow, Val;
    var w := t[n..2 * n + 1] + a[n + 1..];
    BaseFacts();
    PlaceFacts(n);
    MulMono(2, Base(), Place(n));
    ValSmall(t[n..], n + 1);
    ValSmall(a, n);
    assert t[n..][..n + 1] == t[n..2 * n + 1] == w[..n + 1];
    assert w[n + 1..] == a[n..][1..];
    ValTopZeros(w, n + 1);
  }

  /** A := A * R^-1 mod N. */
  method MontRed(A: Mpi, N: Mpi, mm: limb, T: Mpi) returns (ret: Status)
    requires T != A && T != N && A != N
    requires |N.p| > 0 && |A.p| >= |N.p| + 1
    requires |T.p| < |N.p| + 1 || |T.p| >= 2 * |N.p| + 2
    requires A.Abs() < Place(|N.p|) && N.Abs() > 0 && Cong(mm * N.p[0], -1, Base())
    modifies A`p, T`p
    ensures ret == if old(|T.p|) < |N.p| + 1 then BadInputData else Ok
    ensures ret != Ok ==> A.p == old(A.p) && T.p == old(T.p)
    ensures |A.p| == old(|A.p|) && |T.p| == old(|T.p|)
    ensures ret == Ok ==> A.Abs() < N.Abs()
    ensures ret == Ok ==> Cong(A.Abs() * Place(|N.p|), old(A.Abs()), N.Abs())
  {
    hide Pow, Val, Cong;
    BaseFacts();
    var U := new Mpi.FromLimb(1);
    ret := MontMul(A, U, N, mm, T);
  }
}
