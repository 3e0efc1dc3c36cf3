/** Sliding-window modular exponentiation over Montgomery arithmetic
    (HAC 14.85). */
module ModExp {
  import opened Arith
  import opened Limbs
  import opened MpiCore
  import opened MpiAdd
  import opened MpiShift
  import opened MpiDiv
  import opened MpiMod
  import opened Montgomery

  type WindowBits = w: nat | 1 <= w <= 6 witness 6

  /** MBEDTLS_MPI_WINDOW_SIZE. */
  const WINDOW_SIZE: WindowBits

  // ------------------------------------------------------------ Montgomery form

  /** x is base^e in Montgomery form, reduced. */
  ghost predicate Rep(x: nat, base: nat, e: nat, k: nat, n: nat) {
    0 < n && x < n && Cong(x, Pow(base, e) * Pow(2, k), n)
  }

  /** A Montgomery product adds exponents. */
  lemma RepMul(x: nat, y: nat, z: nat, base: nat, e: nat, f: nat, k: nat, n: nat)
    requires n % 2 == 1 && Rep(x, base, e, k, n) && Rep(y, base, f, k, n)
    requires z < n && Cong(z * Pow(2, k), x * y, n)
    ensures Rep(z, base, e + f, k, n)
  {
    hide Pow, Cong;
    var r, u, v := Pow(2, k), Pow(base, e), Pow(base, f);
    CongMul(x, u * r, y, v * r, n);
    CongTrans(z * r, x * y, (u * r) * (v * r), n);
    Swap4(u, r, v, r);
    MulAssoc(u * v, r, r);
    PowAdd(base, e, f);
    CancelPow2(z, (u * v) * r, k, n);
  }

  /** Montgomery reduction leaves the power itself. */
  lemma RepReduced(x: nat, z: nat, base: nat, e: nat, k: nat, n: nat)
    requires n % 2 == 1 && Rep(x, base, e, k, n) && z < n && Cong(z * Pow(2, k), x, n)
    ensures z == Pow(base, e) % n
  {
    hide Pow, Cong;
    CongTrans(z * Pow(2, k), x, Pow(base, e) * Pow(2, k), n);
    CancelPow2(z, Pow(base, e), k, n);
    CongInRange(z, Pow(base, e), n);
  }

  /** Entering Montgomery form: multiplying by R^2. */
  lemma RepEnter(x: nat, rr: nat, z: nat, base: nat, k: nat, n: nat)
    requires n > 0 && n % 2 == 1 && z < n && Cong(x, base, n) && Cong(rr, Pow(2, k) * Pow(2, k), n)
    requires Cong(z * Pow(2, k), x * rr, n)
    ensures Rep(z, base, 1, k, n)
  {
    hide Pow, Cong;
    var r := Pow(2, k);
    CongMul(x, base, rr, r * r, n);
    CongTrans(z * r, x * rr, base * (r * r), n);
    MulAssoc(base, r, r);
    CancelPow2(z, base * r, k, n);
    PowOne(base);
  }

  lemma RepUnit(rr: nat, z: nat, base: nat, k: nat, n: nat)
    requires n > 0 && n % 2 == 1 && z < n && Cong(rr, Pow(2, k) * Pow(2, k), n) && Cong(z * Pow(2, k), rr, n)
    ensures Rep(z, base, 0, k, n)
  {
    hide Pow, Cong;
    var r := Pow(2, k);
    CongTrans(z * r, rr, r * r, n);
    CancelPow2(z, r, k, n);
    PowOne(base);
    assert 1 * r == r;
  }

  // ---------------------------------------------------------------- the window

  /** The bit picked from a limb is the bit of the whole exponent. */
  lemma BitOfValue(p: seq<limb>, i: nat, j: nat)
    requires i < |p| && j < biL
    ensures HighBits(Val(p), biL * i + j) % 2 == BitOf(p[i], j)
  {
    hide Pow, Val, HighBits;
    PowOne(2);
    BitsOfLimb(p, i, j, 1);
  }

  /** State of the scan: `q` has been raised into X, `w` are the `nbits` pending
      bits, left-aligned in `wbits`. */
  ghost predicate Window(prefix: nat, state: nat, nbits: nat, wbits: nat, wsize: nat, q: nat, w: nat) {
    && nbits < wsize
    && prefix == q * Pow(2, nbits) + w
    && wbits == w * Pow(2, wsize - nbits)
    && (state == 0 ==> prefix == 0 && nbits == 0)
    && (state == 1 ==> nbits == 0)
    && (state == 2 ==> nbits > 0)
    && state <= 2
    && (nbits == 0 ==> w == 0)
    && (nbits > 0 ==> Pow(2, nbits - 1) <= w < Pow(2, nbits))
  }

  /** A zero between windows: X is squared. */
  lemma WindowSkip(prefix: nat, next: nat, state: nat, wsize: nat, q: nat, w: nat, nbits: nat, wbits: nat)
    requires Window(prefix, state, nbits, wbits, wsize, q, w) && state < 2 && next == 2 * prefix
    ensures Window(next, state, nbits, wbits, wsize, 2 * q, 0) && w == 0 && wbits == 0
    ensures state == 0 ==> q == 0
  {
    PowOne(2);
  }

  /** A bit joins the window. */
  lemma WindowGrow(prefix: nat, next: nat, state: nat, wsize: nat, q: nat, w: nat, nbits: nat, wbits: nat, ei: nat, w': nat)
    requires Window(prefix, state, nbits, wbits, wsize, q, w) && next == 2 * prefix + ei && ei <= 1
    requires (state < 2 ==> ei == 1) && w' == 2 * w + ei
    ensures next == q * Pow(2, nbits + 1) + w' && Pow(2, nbits) <= w' < Pow(2, nbits + 1)
    ensures wbits + ei * Pow(2, wsize - nbits - 1) == w' * Pow(2, wsize - nbits - 1)
  {
    hide Pow;
    PowSucc(2, nbits);
    PowSucc(2, wsize - nbits - 1);
    MulAssoc(q, 2, Pow(2, nbits));
    MulAssoc(w, 2, Pow(2, wsize - nbits - 1));
    Distr(2 * w, ei, Pow(2, wsize - nbits - 1));
    PowOne(2);
    if nbits > 0 { PowSucc(2, nbits - 1); }
  }

  /** `wbits` starts with a one, so a full window indexes the upper half of the
      table (or entry 1 when the window is a single bit). */
  ghost predicate InTable(i: nat, wsize: WindowBits) {
    i == 1 || Pow(2, wsize - 1) <= i < Pow(2, wsize)
  }

  // ------------------------------------------------------------------ the table

  /** Table entries and X hold reduced Montgomery powers with a limb to spare. */
  ghost predicate Holds(M: Mpi, base: nat, e: nat, len: nat, n: nat)
    reads M
  {
    |M.p| >= len + 1 && Rep(M.Abs(), base, e, biL * len, n)
  }

  ghost predicate Modulus(N: Mpi, mm: limb)
    reads N
  {
    |N.p| > 0 && N.Abs() % 2 == 1 && Cong(mm * N.p[0], -1, Base())
  }

  ghost predicate TableReady(W: seq<Mpi>, base: nat, wsize: WindowBits, len: nat, n: nat)
    reads W
  {
    forall i: nat :: i < |W| && InTable(i, wsize) ==> Holds(W[i], base, i, len, n)
  }

  /** One Montgomery product of held powers. */
  method MulPower(A: Mpi, B: Mpi, N: Mpi, mm: limb, T: Mpi, ghost base: nat, ghost e: nat, ghost f: nat)
    requires T != A && T != B && T != N && A != N
    requires Modulus(N, mm) && |T.p| == 2 * |N.p| + 2
    requires Holds(A, base, e, |N.p|, N.Abs()) && Holds(B, base, f, |N.p|, N.Abs())
    modifies A`p, T`p
    ensures |T.p| == old(|T.p|) && Holds(A, base, e + f, |N.p|, N.Abs())
  {
    hide Pow, Val, Cong;
    ghost var x, y := A.Abs(), B.Abs();
    ValBound(N.p);
    PlaceFacts(|N.p|);
    var _ := MontMul(A, B, N, mm, T);
    RepMul(x, y, A.Abs(), base, e, f, biL * |N.p|, N.Abs());
  }

  /** Squaring `times` times multiplies the exponent by 2^times. */
  method SquarePower(A: Mpi, times: nat, N: Mpi, mm: limb, T: Mpi, ghost base: nat, ghost e: nat)
    requires T != A && T != N && A != N
    requires Modulus(N, mm) && |T.p| == 2 * |N.p| + 2 && Holds(A, base, e, |N.p|, N.Abs())
    modifies A`p, T`p
    ensures |T.p| == old(|T.p|) && Holds(A, base, e * Pow(2, times), |N.p|, N.Abs())
  {
    hide Pow, Val, Modulus, Holds;
    PowOne(2);
    for i: nat := 0 to times
      invariant |T.p| == old(|T.p|) && Modulus(N, mm)
      invariant Holds(A, base, e * Pow(2, i), |N.p|, N.Abs())
    {
      ghost var f := e * Pow(2, i);
      MulPower(A, A, N, mm, T, base, f, f);
      PowSucc(2, i);
      MulAssoc(e, 2, Pow(2, i));
      assert f + f == e * Pow(2, i + 1);
    }
  }

  ghost predicate Separate(W: seq<Mpi>, N: Mpi, T: Mpi) {
    T != N && (forall i :: 0 <= i < |W| ==> W[i] != N && W[i] != T)
    && (forall i, j :: 0 <= i < j < |W| ==> W[i] != W[j])
  }

  /** One more entry: W[i] := W[i - 1] * W[1]. */
  method NextEntry(W: seq<Mpi>, i: nat, N: Mpi, mm: limb, T: Mpi, ghost base: nat)
    requires Separate(W, N, T) && 2 < i < |W| && Modulus(N, mm) && |T.p| == 2 * |N.p| + 2
    requires Holds(W[1], base, 1, |N.p|, N.Abs()) && Holds(W[i - 1], base, i - 1, |N.p|, N.Abs())
    modifies W[i], T`p
    ensures |T.p| == old(|T.p|) && Holds(W[i], base, i, |N.p|, N.Abs())
  {
    hide Pow, Val, Cong, Rep;
    Grow(W[i], |N.p| + 1);
    Copy(W[i], W[i - 1]);
    MulPower(W[i], W[1], N, mm, T, base, i - 1, 1);
  }

  /** Fills the upper half of the table: W[2^(wsize-1)] by repeated squaring of
      W[1], every later entry from the one before it. */
  method BuildTable(W: seq<Mpi>, wsize: WindowBits, N: Mpi, mm: limb, T: Mpi, ghost base: nat)
    requires Separate(W, N, T) && |W| >= Pow(2, wsize) && Modulus(N, mm) && |T.p| == 2 * |N.p| + 2
    requires |W| > 1 && Holds(W[1], base, 1, |N.p|, N.Abs())
    modifies W, T`p
    ensures |T.p| == old(|T.p|) && TableReady(W, base, wsize, |N.p|, N.Abs())
  {
    hide Pow, Val, Cong, Rep, Holds, Modulus;
    PowOne(2);
    if wsize > 1 {
      var j := Pow(2, wsize - 1);
      PowSucc(2, wsize - 1);
      PowSucc(2, wsize - 2);
      FirstEntry(W, wsize, j, N, mm, T, base);
      var i := j + 1;
      while i < Pow(2, wsize)
        invariant j < i <= Pow(2, wsize) && |T.p| == old(|T.p|) && Modulus(N, mm)
        invariant Holds(W[1], base, 1, |N.p|, N.Abs())
        invariant forall k: nat :: j <= k < i ==> Holds(W[k], base, k, |N.p|, N.Abs())
      {
        NextEntry(W, i, N, mm, T, base);
        i := i + 1;
      }
    }
  }

  method FirstEntry(W: seq<Mpi>, wsize: WindowBits, j: nat, N: Mpi, mm: limb, T: Mpi, ghost base: nat)
    requires Separate(W, N, T) && wsize > 1 && j == Pow(2, wsize - 1) && 1 < j < |W|
    requires Modulus(N, mm) && |T.p| == 2 * |N.p| + 2 && Holds(W[1], base, 1, |N.p|, N.Abs())
    modifies W[j], T`p
    ensures |T.p| == old(|T.p|) && Holds(W[j], base, j, |N.p|, N.Abs())
  {
    hide Pow, Val, Cong, Rep;
    Grow(W[j], |N.p| + 1);
    Copy(W[j], W[1]);
    SquarePower(W[j], wsize - 1, N, mm, T, base, 1);
  }

  /** The state of a scan in progress. */
  ghost predicate Scanning(X: Mpi, v: nat, pos: nat, state: nat, nbits: nat, wbits: nat, wsize: nat, q: nat, w: nat, base: nat, len: nat, n: nat)
    reads X
  {
    Window(HighBits(v, pos), state, nbits, wbits, wsize, q, w) && Holds(X, base, q, len, n)
  }

  /** One bit of the exponent. */
  method ScanBit(X: Mpi, W: seq<Mpi>, wsize: WindowBits, N: Mpi, mm: limb, T: Mpi,
      ei: nat, state0: nat, nbits0: nat, wbits0: nat,
      ghost v: nat, ghost pos: nat, ghost q0: nat, ghost w0: nat, ghost base: nat)
    returns (state: nat, nbits: nat, wbits: nat, ghost q: nat, ghost w: nat)
    requires Separate(W, N, T) && X !in W && X != N && X != T && |W| >= Pow(2, wsize) && |W| > 1
    requires Modulus(N, mm) && |T.p| == 2 * |N.p| + 2 && TableReady(W, base, wsize, |N.p|, N.Abs())
    requires Scanning(X, v, pos + 1, state0, nbits0, wbits0, wsize, q0, w0, base, |N.p|, N.Abs())
    requires ei == HighBits(v, pos) % 2
    modifies X`p, T`p
    ensures |T.p| == old(|T.p|)
    ensures Scanning(X, v, pos, state, nbits, wbits, wsize, q, w, base, |N.p|, N.Abs())
  {
    hide Pow, Val, HighBits, Window, Modulus, Holds;
    state, nbits, wbits, q, w := state0, nbits0, wbits0, q0, w0;
    ghost var p, next := HighBits(v, pos + 1), HighBits(v, pos);
    PowOne(2);
    HighBitsStep(v, pos, 1);
    WindowRange(p, state, nbits, wbits, wsize, q, w);
    if ei == 0 && state == 0 {
      WindowSkip(p, next, state, wsize, q, w, nbits, wbits);
      return;
    }
    if ei == 0 && state == 1 {
      WindowSkip(p, next, state, wsize, q, w, nbits, wbits);
      MulPower(X, X, N, mm, T, base, q, q);
      q, w := 2 * q, 0;
      return;
    }
    WindowGrow(p, next, state, wsize, q, w, nbits, wbits, ei, 2 * w + ei);
    w := 2 * w + ei;
    state := 2;
    nbits := nbits + 1;
    wbits := wbits + ei * Pow(2, wsize - nbits);
    if nbits == wsize {
      PowOne(2);
      assert wbits == w * 1;
      SquarePower(X, wsize, N, mm, T, base, q);
      assert InTable(wbits, wsize);
      MulPower(X, W[wbits], N, mm, T, base, q * Pow(2, wsize), wbits);
      state := state - 1;
      q, w, nbits, wbits := next, 0, 0, 0;
      WindowEmpty(next, wsize);
    } else {
      WindowOpen(next, nbits, wbits, wsize, q, w);
    }
  }

  lemma WindowRange(prefix: nat, state: nat, nbits: nat, wbits: nat, wsize: nat, q: nat, w: nat)
    requires Window(prefix, state, nbits, wbits, wsize, q, w)
    ensures nbits < wsize && state <= 2
  {}

  lemma WindowEmpty(prefix: nat, wsize: nat)
    requires wsize > 0
    ensures Window(prefix, 1, 0, 0, wsize, prefix, 0)
  {
    PowOne(2);
  }

  lemma WindowOpen(prefix: nat, nbits: nat, wbits: nat, wsize: nat, q: nat, w: nat)
    requires 0 < nbits < wsize && prefix == q * Pow(2, nbits) + w && wbits == w * Pow(2, wsize - nbits)
    requires Pow(2, nbits - 1) <= w < Pow(2, nbits)
    ensures Window(prefix, 2, nbits, wbits, wsize, q, w)
  {}

  /** The main loop: every bit of the exponent from the top limb down. */
  method ScanExponent(X: Mpi, E: Mpi, W: seq<Mpi>, wsize: WindowBits, N: Mpi, mm: limb, T: Mpi, ghost base: nat)
    returns (nbits: nat, wbits: nat, ghost q: nat, ghost w: nat)
    requires Separate(W, N, T) && X !in W && X != N && X != T && X != E && T != E && |W| >= Pow(2, wsize) && |W| > 1
    requires Modulus(N, mm) && |T.p| == 2 * |N.p| + 2 && TableReady(W, base, wsize, |N.p|, N.Abs())
    requires Holds(X, base, 0, |N.p|, N.Abs())
    modifies X`p, T`p
    ensures |T.p| == old(|T.p|)
    ensures nbits < wsize && E.Abs() == q * Pow(2, nbits) + w && w < Pow(2, nbits) && wbits == w * Pow(2, wsize - nbits)
    ensures Holds(X, base, q, |N.p|, N.Abs())
  {
    hide Pow, Val, Modulus, Holds, HighBits, Window;
    ghost var v := E.Abs();
    var nblimbs: nat, bufsize: nat, state: nat := |E.p|, 0, 0;
    nbits, wbits, q, w := 0, 0, 0, 0;
    ScanStart(E.p, wsize);
    while true
      invariant nblimbs <= |E.p| && bufsize <= biL && (nblimbs == |E.p| ==> bufsize == 0)
      invariant |T.p| == old(|T.p|)
      invariant Scanning(X, v, biL * nblimbs + bufsize, state, nbits, wbits, wsize, q, w, base, |N.p|, N.Abs())
      decreases nblimbs, bufsize
    {
      if bufsize == 0 {
        if nblimbs == 0 { break; }
        nblimbs := nblimbs - 1;
        bufsize := biL;
        Distr(nblimbs, 1, biL);
      }
      bufsize := bufsize - 1;
      var ei := BitOf(E.p[nblimbs], bufsize);
      BitOfValue(E.p, nblimbs, bufsize);
      state, nbits, wbits, q, w := ScanBit(X, W, wsize, N, mm, T, ei, state, nbits, wbits, v, biL * nblimbs + bufsize, q, w, base);
    }
    ScanEnd(v, state, nbits, wbits, wsize, q, w);
  }

  lemma ScanStart(p: seq<limb>, wsize: WindowBits)
    ensures Window(HighBits(Val(p), biL * |p|), 0, 0, 0, wsize, 0, 0)
  {
    hide Pow, Val;
    ValBound(p);
    PlaceFacts(|p|);
    DivModUnique(Val(p), Place(|p|), 0, Val(p));
    PowOne(2);
  }

  lemma ScanEnd(v: nat, state: nat, nbits: nat, wbits: nat, wsize: nat, q: nat, w: nat)
    requires Window(HighBits(v, 0), state, nbits, wbits, wsize, q, w)
    ensures nbits < wsize && v == q * Pow(2, nbits) + w && w < Pow(2, nbits) && wbits == w * Pow(2, wsize - nbits)
  {
    PowOne(2);
    DivModUnique(v, 1, v, 0);
  }

  /** Bit `i` of the left-aligned remainder, tested above the window. */
  lemma RemainingBit(w: nat, nbits: nat, wsize: nat, i: nat, wbits: nat)
    requires i < nbits < wsize && wbits == w * Pow(2, wsize - nbits + i + 1)
    ensures (wbits / Pow(2, wsize)) % 2 == (w / Pow(2, nbits - i - 1)) % 2
  {
    hide Pow;
    var c, d := Pow(2, wsize - nbits + i + 1), Pow(2, nbits - i - 1);
    PowAdd(2, wsize - nbits + i + 1, nbits - i - 1);
    DivMod(w, d);
    var k, r := w / d, w % d;
    Distr(k * d, r, c);
    MulAssoc(k, d, c);
    MulStrict(r, d, c);
    MulNonNeg(r, c);
    DivModUnique(wbits, c * d, k, r * c);
  }

  lemma RemainingStep(q: nat, w: nat, nbits: nat, wsize: nat, i: nat, e: nat, wbits: nat)
    requires i < nbits < wsize && e == q * Pow(2, i) + HighBits(w, nbits - i) && wbits == w * Pow(2, wsize - nbits + i)
    ensures wbits * 2 == w * Pow(2, wsize - nbits + i + 1)
    ensures 2 * e + (wbits * 2 / Pow(2, wsize)) % 2 == q * Pow(2, i + 1) + HighBits(w, nbits - i - 1)
  {
    hide Pow;
    PowSucc(2, wsize - nbits + i);
    MulAssoc(w, 2, Pow(2, wsize - nbits + i));
    RemainingBit(w, nbits, wsize, i, wbits * 2);
    PowOne(2);
    HighBitsStep(w, nbits - i - 1, 1);
    PowSucc(2, i);
    MulAssoc(q, 2, Pow(2, i));
  }

  lemma RemainingEnds(q: nat, w: nat, nbits: nat)
    requires w < Pow(2, nbits)
    ensures q * Pow(2, 0) + HighBits(w, nbits) == q && HighBits(w, 0) == w
  {
    hide Pow;
    PowOne(2);
    DivModUnique(w, Pow(2, nbits), 0, w);
    DivModUnique(w, 1, w, 0);
  }

  /** The bits left when the exponent runs out in the middle of a window. */
  method RemainingBits(X: Mpi, W1: Mpi, nbits: nat, wbits0: nat, wsize: WindowBits, N: Mpi, mm: limb, T: Mpi,
      ghost q: nat, ghost w: nat, ghost base: nat)
    requires X != W1 && X != N && X != T && W1 != N && W1 != T && T != N
    requires Modulus(N, mm) && |T.p| == 2 * |N.p| + 2
    requires Holds(X, base, q, |N.p|, N.Abs()) && Holds(W1, base, 1, |N.p|, N.Abs())
    requires nbits < wsize && w < Pow(2, nbits) && wbits0 == w * Pow(2, wsize - nbits)
    modifies X`p, T`p
    ensures |T.p| == old(|T.p|) && Holds(X, base, q * Pow(2, nbits) + w, |N.p|, N.Abs())
  {
    hide Pow, Val, Modulus, Holds, HighBits;
    var wbits := wbits0;
    RemainingEnds(q, w, nbits);
    for i: nat := 0 to nbits
      invariant |T.p| == old(|T.p|) && wbits == w * Pow(2, wsize - nbits + i)
      invariant Holds(X, base, q * Pow(2, i) + HighBits(w, nbits - i), |N.p|, N.Abs())
    {
      ghost var e := q * Pow(2, i) + HighBits(w, nbits - i);
      MulPower(X, X, N, mm, T, base, e, e);
      RemainingStep(q, w, nbits, wsize, i, e, wbits);
      wbits := wbits * 2;
      if (wbits / Pow(2, wsize)) % 2 != 0 {
        MulPower(X, W1, N, mm, T, base, 2 * e, 1);
      }
    }
  }

  // ------------------------------------------------------------- exponentiation

  /** R^2 mod N, taken from the cache or computed and put there. The copy shares
      the cached limbs. */
  method PrepareRR(N: Mpi, cache: Mpi?) returns (RR: Mpi)
    requires cache != N && |N.p| > 0 && N.Value() > 0
    requires cache != null && |cache.p| > 0 ==> cache.Value() == (Place(|N.p|) * Place(|N.p|)) % N.Value()
    modifies cache
    ensures fresh(RR) && |RR.p| > 0 && RR.Value() == (Place(|N.p|) * Place(|N.p|)) % N.Value()
    ensures cache != null ==> cache.p == RR.p && cache.s == RR.s
  {
    hide Pow, Val;
    RR := new Mpi();
    if cache == null || |cache.p| == 0 {
      Lset(RR, 1) by { SmallIsSint(); }
      ShiftL(RR, |N.p| * 2 * biL);
      PlaceAdd(|N.p|, |N.p|);
      PlaceFacts(|N.p| + |N.p|);
      assert |N.p| * 2 * biL == biL * (|N.p| + |N.p|);
      var _ := ModMpi(RR, RR, N);
      if cache != null { cache.s, cache.p := RR.s, RR.p; }
    } else {
      RR.s, RR.p := cache.s, cache.p;
    }
  }

  /** `memset(W, 0)`: a table of empty numbers. */
  method NewTable() returns (W: seq<Mpi>)
    ensures |W| == Pow(2, WINDOW_SIZE + 1)
    ensures forall i :: 0 <= i < |W| ==> fresh(W[i])
    ensures forall i, j :: 0 <= i < j < |W| ==> W[i] != W[j]
  {
    hide Pow;
    W := [];
    while |W| < Pow(2, WINDOW_SIZE + 1)
      invariant |W| <= Pow(2, WINDOW_SIZE + 1)
      invariant forall i :: 0 <= i < |W| ==> fresh(W[i])
      invariant forall i, j :: 0 <= i < j < |W| ==> W[i] != W[j]
    {
      var M := new Mpi();
      W := W + [M];
    }
  }

  /** W[1] := A * R mod N. */
  method EnterForm(M: Mpi, A: Mpi, RR: Mpi, N: Mpi, mm: limb, T: Mpi)
    requires M != A && M != RR && M != N && M != T && T != N && T != RR && T != A && |M.p| >= |N.p| + 1
    requires Modulus(N, mm) && N.s == 1 && |T.p| == 2 * |N.p| + 2 && A.Value() >= 0 && |A.p| > 0 && |RR.p| > 0
    requires RR.Value() == (Place(|N.p|) * Place(|N.p|)) % N.Value()
    modifies M, T`p
    ensures |T.p| == old(|T.p|) && Holds(M, A.Abs(), 1, |N.p|, N.Abs())
  {
    hide Pow, Val, Cong;
    ghost var a, n, r := A.Abs(), N.Abs(), Place(|N.p|);
    var c := CmpMpi(A, N);
    if c >= 0 {
      var _ := ModMpi(M, A, N);
      CongMod(a, n);
    } else {
      Copy(M, A);
      CongRefl(a, n);
    }
    ghost var x := M.Abs();
    DivMod(a, n);
    DivMod(r * r, n);
    ValBound(N.p);
    PlaceFacts(|N.p|);
    var _ := MontMul(M, RR, N, mm, T);
    CongMod(r * r, n);
    RepEnter(x, RR.Abs(), M.Abs(), a, biL * |N.p|, n);
  }

  /** X := R mod N, the power with exponent zero. */
  method EnterUnit(X: Mpi, RR: Mpi, N: Mpi, mm: limb, T: Mpi, ghost base: nat)
    requires X != RR && X != N && X != T && T != N && T != RR && |X.p| >= |N.p| + 1
    requires Modulus(N, mm) && N.s == 1 && |T.p| == 2 * |N.p| + 2 && |RR.p| > 0
    requires RR.Value() == (Place(|N.p|) * Place(|N.p|)) % N.Value()
    modifies X, T`p
    ensures |T.p| == old(|T.p|) && Holds(X, base, 0, |N.p|, N.Abs())
    ensures X.s < 0 ==> N.Abs() == 1
  {
    hide Pow, Val, Cong;
    ghost var n, r, k := N.Abs(), Place(|N.p|), biL * |N.p|;
    Copy(X, RR);
    DivMod(r * r, n);
    ValBound(N.p);
    PlaceFacts(|N.p|);
    CongMod(r * r, n);
    if X.s < 0 { UnitModulus(r * r, k, n); }
    var _ := MontRed(X, N, mm, T);
    RepUnit(RR.Abs(), X.Abs(), base, k, n);
  }

  lemma UnitModulus(rr: nat, k: nat, n: nat)
    requires n > 0 && n % 2 == 1 && rr == Pow(2, k) * Pow(2, k) && rr % n == 0
    ensures n == 1
  {
    hide Pow, Cong;
    PowAdd(2, k, k);
    CongMod(rr, n);
    CongSym(0, rr, n);
    assert 1 * Pow(2, k + k) == rr && 0 * Pow(2, k + k) == 0;
    CancelPow2(1, 0, k + k, n);
    CongInRangeOne(n);
  }

  lemma CongInRangeOne(n: nat)
    requires n > 0 && Cong(1, 0, n)
    ensures n == 1
  {
    if n > 1 { DivModUnique(1, n, 0, 1); }
  }

  /** The power of a non-negative base. */
  method PowerOf(X: Mpi, A: Mpi, E: Mpi, N: Mpi, RR: Mpi, mm: limb, wsize: WindowBits)
    requires X != N && X != E && X != RR && |X.p| >= |N.p| + 1 && wsize <= WINDOW_SIZE
    requires Modulus(N, mm) && N.s == 1 && A.Value() >= 0 && |A.p| > 0 && |RR.p| > 0
    requires RR.Value() == (Place(|N.p|) * Place(|N.p|)) % N.Value()
    modifies X
    ensures X.Value() == Pow(old(A.Abs()), E.Abs()) % N.Value()
  {
    hide Pow, Val, Cong, Holds, TableReady;
    ghost var base := A.Abs();
    var W := NewTable();
    PowMono(2, wsize, WINDOW_SIZE + 1);
    PowMono(2, 1, WINDOW_SIZE + 1);
    PowOne(2);
    var T := new Mpi();
    Grow(W[1], |N.p| + 1);
    Grow(T, 2 * (|N.p| + 1));
    EnterForm(W[1], A, RR, N, mm, T);
    EnterUnit(X, RR, N, mm, T, base);
    BuildTable(W, wsize, N, mm, T, base);
    var nbits, wbits, q, w := ScanExponent(X, E, W, wsize, N, mm, T, base);
    EntryOne(W, base, wsize, |N.p|, N.Abs());
    RemainingBits(X, W[1], nbits, wbits, wsize, N, mm, T, q, w, base);
    LeaveForm(X, N, mm, T, base, E.Abs());
  }

  lemma EntryOne(W: seq<Mpi>, base: nat, wsize: WindowBits, len: nat, n: nat)
    requires |W| > 1 && TableReady(W, base, wsize, len, n)
    ensures Holds(W[1], base, 1, len, n)
  {
    assert InTable(1, wsize);
  }

  /** X := X * R^-1 mod N, back to an ordinary number. */
  method LeaveForm(X: Mpi, N: Mpi, mm: limb, T: Mpi, ghost base: nat, ghost e: nat)
    requires X != N && X != T && T != N && Modulus(N, mm) && |T.p| == 2 * |N.p| + 2
    requires Holds(X, base, e, |N.p|, N.Abs()) && (X.s < 0 ==> N.Abs() == 1)
    modifies X`p, T`p
    ensures X.Value() == Pow(base, e) % N.Abs()
  {
    hide Pow, Val, Cong;
    ghost var x := X.Abs();
    ValBound(N.p);
    PlaceFacts(|N.p|);
    var _ := MontRed(X, N, mm, T);
    RepReduced(x, X.Abs(), base, e, biL * |N.p|, N.Abs());
  }

  /** What `ExpMod` returns: the power for a non-negative base, and its negation
      N - (|A|^E mod N) whenever the sign of A is negative. */
  ghost function ExpModResult(s: sign, a: nat, e: nat, n: nat): int
    requires n > 0
  {
    if s < 0 then n - Pow(a, e) % n else Pow(a, e) % n
  }

  /** X := A^E mod N by sliding windows. X may be A. `cache`, when given, holds
      R^2 mod N for this N or is empty, and holds it afterwards. */
  method ExpMod(X: Mpi, A: Mpi, E: Mpi, N: Mpi, cache: Mpi?) returns (ret: Status)
    requires X != N && X != E && cache != X && cache != N && cache != E && cache != A
    requires |N.p| > 0 && |A.p| > 0
    requires cache != null && |cache.p| > 0 && N.Value() > 0 ==> cache.Value() == (Place(|N.p|) * Place(|N.p|)) % N.Value()
    modifies X, cache
    ensures ret == if N.Value() < 0 || N.p[0] % 2 == 0 || E.Value() < 0 then BadInputData else Ok
    ensures ret != Ok ==> unchanged(X) && (cache != null ==> unchanged(cache))
    ensures ret == Ok ==> N.Value() > 0 && X.Value() == ExpModResult(old(A.s), old(A.Abs()), E.Abs(), N.Value())
    ensures ret == Ok && cache != null ==> |cache.p| > 0 && cache.Value() == (Place(|N.p|) * Place(|N.p|)) % N.Value()
  {
    hide Pow, Val, Cong;
    var c := CmpInt(N, 0);
    if c < 0 || N.p[0] % 2 == 0 { return BadInputData; }
    c := CmpInt(E, 0);
    if c < 0 { return BadInputData; }
    ValParity(N.p);
    ExpModOdd(X, A, E, N, cache);
    return Ok;
  }

  /** The computation once the modulus is known to be odd and positive. */
  method ExpModOdd(X: Mpi, A: Mpi, E: Mpi, N: Mpi, cache: Mpi?)
    requires X != N && X != E && cache != X && cache != N && cache != E && cache != A
    requires |N.p| > 0 && |A.p| > 0 && N.p[0] % 2 == 1 && N.Abs() % 2 == 1 && N.s == 1
    requires cache != null && |cache.p| > 0 ==> cache.Value() == (Place(|N.p|) * Place(|N.p|)) % N.Value()
    modifies X, cache
    ensures X.Value() == ExpModResult(old(A.s), old(A.Abs()), E.Abs(), N.Value())
    ensures cache != null ==> |cache.p| > 0 && cache.Value() == (Place(|N.p|) * Place(|N.p|)) % N.Value()
  {
    hide Pow, Val, Cong;
    var mm := MontgInit(N);
    var i := BitLen(E);
    var wsize: WindowBits := if i > 671 then 6 else if i > 239 then 5 else if i > 79 then 4 else if i > 23 then 3 else 1;
    if wsize > WINDOW_SIZE { wsize := WINDOW_SIZE; }
    Grow(X, |N.p| + 1);
    if A.s == -1 {
      var Apos := new Mpi();
      Copy(Apos, A);
      Apos.s := 1;
      var RR := PrepareRR(N, cache);
      PowerOf(X, Apos, E, N, RR, mm, wsize);
      Negate(X, N);
    } else {
      var RR := PrepareRR(N, cache);
      PowerOf(X, A, E, N, RR, mm, wsize);
    }
  }

  /** `X->s = -1; X = N + X`. */
  method Negate(X: Mpi, N: Mpi)
    requires X != N && X.Value() >= 0
    modifies X
    ensures X.Value() == N.Value() - old(X.Value())
  {
    hide Pow, Val;
    X.s := -1;
    AddMpi(X, N, X);
  }

  // ------------------------------------------------- what negative bases come to

  function IntPow(b: int, e: nat): int {
    if e == 0 then 1 else b * IntPow(b, e - 1)
  }

  lemma {:induction false} IntPowSigned(a: nat, e: nat)
    ensures IntPow(a, e) == Pow(a, e)
    ensures IntPow(0 - a, e) == if e % 2 == 0 then Pow(a, e) else 0 - Pow(a, e)
  {
    hide Pow, IntPow;
    IntPowUnfold(a, e);
    IntPowUnfold(0 - a, e);
    if e > 0 {
      IntPowSigned(a, e - 1);
      PowSucc(a, e - 1);
      NegatedProduct(a, Pow(a, e - 1));
    } else {
      PowOne(a);
    }
  }

  lemma IntPowUnfold(b: int, e: nat)
    ensures IntPow(b, e) == if e == 0 then 1 else b * IntPow(b, e - 1)
  {}

  lemma NegatedProduct(x: int, y: int)
    ensures (0 - x) * y == 0 - x * y && (0 - x) * (0 - y) == x * y
  {}

  /** The result is the reduced power of A exactly when the sign of A is positive,
      or E is odd and N does not divide the power. */
  lemma ExpModExact(s: sign, a: nat, e: nat, n: nat)
    requires n % 2 == 1
    ensures ExpModResult(s, a, e, n) == IntPow(Signed(s, a), e) % n <==> s == 1 || (e % 2 == 1 && Pow(a, e) % n != 0)
  {
    hide Pow, IntPow;
    IntPowSigned(a, e);
    var p := Pow(a, e);
    var x := p % n;
    DivMod(p, n);
    if s == -1 {
      if e % 2 == 1 {
        NegatedMod(p, n);
      } else if n - x == x {
        assert false;
      }
    }
  }

  /** The result is congruent to the power of A exactly when nothing was negated, the
      negation was due, or N divides the power. */
  lemma ExpModCongruent(s: sign, a: nat, e: nat, n: nat)
    requires n % 2 == 1
    ensures Cong(ExpModResult(s, a, e, n), IntPow(Signed(s, a), e), n) <==> s == 1 || e % 2 == 1 || Pow(a, e) % n == 0
  {
    hide Pow, IntPow, Cong;
    IntPowSigned(a, e);
    var p := Pow(a, e);
    CongMod(p, n);
    NegatedCong(p, n);
  }

  lemma NegatedCong(p: nat, n: nat)
    requires n % 2 == 1
    ensures Cong(n - p % n, 0 - p, n)
    ensures Cong(n - p % n, p, n) <==> p % n == 0
  {
    hide Cong;
    var q, x := p / n, p % n;
    DivMod(p, n);
    Distr(1, q, n);
    CongIntro(n - x, 0 - p, n, 1 + q);
    if Cong(n - x, p, n) {
      var k := CongElim(n - x, p, n);
      Distr(1 - q, k, n);
      CongIntro(2 * x, 2 * 0, n, 1 - q - k);
      CancelTwo(x, 0, n);
      CongInRange(x, 0, n);
      DivModUnique(0, n, 0, 0);
    }
    if x == 0 { CongIntro(n, p, n, 1 - q); }
  }

  /** And it lies in [0, N) exactly when nothing was negated or N does not divide the
      power. */
  lemma ExpModInRange(s: sign, a: nat, e: nat, n: nat)
    requires n % 2 == 1
    ensures 0 <= ExpModResult(s, a, e, n) < n <==> s == 1 || Pow(a, e) % n != 0
  {
    hide Pow;
    DivMod(Pow(a, e), n);
  }

  /** A factor coprime to N can be left out of a multiple of N. */
  lemma CoprimeFactor(a: nat, p: nat, n: nat)
    requires n > 0 && Gcd(a, n) == 1 && (a * p) % n == 0
    ensures p % n == 0
  {
    hide Gcd;
    if p > 0 {
      GcdScale(p, a, n);
      GcdIsGreatest(p * a, p * n);
      DividesIntro(n, p * n, p);
      assert CommonDivisor(n, p * a, p * n);
    } else {
      DivModUnique(0, n, 0, 0);
    }
  }

  /** No power of a number coprime to N > 1 is divisible by N. */
  lemma {:induction false} CoprimePower(a: nat, e: nat, n: nat)
    requires n > 1 && Gcd(a, n) == 1
    ensures Pow(a, e) % n != 0
  {
    hide Pow, Gcd;
    if e == 0 {
      PowOne(a);
      DivModUnique(1, n, 0, 1);
    } else {
      CoprimePower(a, e - 1, n);
      PowSucc(a, e - 1);
      if (a * Pow(a, e - 1)) % n == 0 { CoprimeFactor(a, Pow(a, e - 1), n); }
    }
  }

  /** A negative base and an odd exponent: right for every base coprime to N > 1. */
  lemma ExpModOddPower(a: nat, e: nat, n: nat)
    requires n % 2 == 1 && n > 1 && e % 2 == 1 && Gcd(a, n) == 1
    ensures ExpModResult(-1, a, e, n) == IntPow(Signed(-1, a), e) % n
  {
    hide Pow, IntPow, Gcd;
    CoprimePower(a, e, n);
    ExpModExact(-1, a, e, n);
  }

  /** A negative sign and an even exponent: wrong for every base and modulus. */
  lemma ExpModEvenPower(a: nat, e: nat, n: nat)
    requires n % 2 == 1 && e % 2 == 0
    ensures ExpModResult(-1, a, e, n) != IntPow(Signed(-1, a), e) % n
  {
    hide Pow, IntPow;
    ExpModExact(-1, a, e, n);
  }

  /** A negative multiple of N: the result is N itself. */
  lemma ExpModMultiple(a: nat, e: nat, n: nat)
    requires n % 2 == 1 && e > 0 && a % n == 0
    ensures ExpModResult(-1, a, e, n) == n
  {
    hide Pow;
    PowSucc(a, e - 1);
    DividesMul(n, a, Pow(a, e - 1));
    assert Pow(a, e - 1) * a == a * Pow(a, e - 1);
  }

  /** An even power of a negative base: (-2)^2 mod 5 is 4, the routine returns 1. */
  lemma ExpModNegativeBase()
    ensures ExpModResult(-1, 2, 2, 5) == 1 && IntPow(-2, 2) % 5 == 4
  {
    assert Pow(2, 2) == 4 by { PowSmall(); }
    assert IntPow(-2, 2) == -2 * IntPow(-2, 1);
  }
}
