/** Schoolbook multiplication on limb buffers. */
module MpiMul {
  import opened Arith
  import opened Limbs
  import opened MpiCore

  /** Adding a word to the low half of a double word: the flag is the carry. */
  lemma AddToLow(lo: limb, hi: int, y: limb)
    ensures var w := WrapAdd(lo, y);
            w + (hi + if w < y then 1 else 0) * Base() == lo + hi * Base() + y
  {
    BaseFacts();
    Distr(hi, 1, Base());
  }

  lemma DoubleWordRange(s: limb, b: limb, c: limb, d: limb)
    ensures 0 <= s * b + c + d < Base() * Base()
  {
    var m := Base() - 1;
    BaseFacts();
    MulMono(s, m, b);
    MulMono(b, m, m);
    MulNonNeg(s, b);
    assert Base() * Base() == m * m + 2 * m + 1;
  }

  /** The high word of a number below Base()^2 is a limb. */
  lemma HighIsLimb(lo: limb, hi: int, t: int)
    requires lo + hi * Base() == t && 0 <= t < Base() * Base()
    ensures 0 <= hi < Base()
  {
    BaseFacts();
    if hi >= Base() { MulMono(Base(), hi, Base()); }
    if hi < 0 { MulMono(hi, -1, Base()); }
  }

  /** One step of `MULADDC_CORE`, double-word form. */
  method MulAddWide(s: limb, b: limb, d: limb, c: limb) returns (r0: limb, r1: limb)
    ensures r0 + r1 * Base() == s * b + d + c
  {
    BaseFacts();
    DoubleWordRange(s, b, c, d);
    var r := s * b;
    DivMod(r, Base());
    r0 := r % Base();
    var hi := r / Base();
    AddToLow(r0, hi, c);
    r0 := WrapAdd(r0, c);
    hi := hi + if r0 < c then 1 else 0;
    AddToLow(r0, hi, d);
    r0 := WrapAdd(r0, d);
    hi := hi + if r0 < d then 1 else 0;
    HighIsLimb(r0, hi, s * b + d + c);
    r1 := hi;
  }

  /** Four half-word products cover the whole product. */
  lemma HalfProducts(s0: int, s1: int, b0: int, b1: int, h: int)
    ensures (s1 * h + s0) * (b1 * h + b0)
         == s0 * b0 + (s0 * b1) * h + (s1 * b0) * h + (s1 * b1) * (h * h)
  {
    Distr(s1 * h, s0, b1 * h + b0);
    Distr(b1 * h, b0, s1 * h);
    Distr(b1 * h, b0, s0);
    Swap4(s1, h, b1, h);
    MulAssoc(s0, b1, h);
    MulAssoc(s1, h, b0);
    MulAssoc(s1, b0, h);
  }

  /** Moving a middle product into place: its high half goes to the high word,
      its low half is shifted up within the low word. */
  lemma MiddleProduct(x: limb, h: limb)
    requires h == HalfBase() && h > 0
    ensures WrapMul(x, h) == (x % h) * h
    ensures x * h == WrapMul(x, h) + (x / h) * Base()
  {
    BaseFacts();
    DivMod(x, h);
    var q, r := x / h, x % h;
    Distr(q * h, r, h);
    MulAssoc(q, h, h);
    MulMono(r, h - 1, h);
    Distr(h, 1, h);
    MulNonNeg(r, h);
    DivModUnique(x * h, Base(), q, r * h);
  }

  lemma HalfProductIsLimb(x: int, y: int)
    requires 0 <= x < HalfBase() && 0 <= y < HalfBase()
    ensures 0 <= x * y < Base()
  {
    BaseFacts();
    var m := HalfBase() - 1;
    MulMono(x, m, y);
    MulMono(y, m, m);
    MulNonNeg(x, y);
    Distr(m, 1, m);
    Distr(m, 1, m + 1);
  }

  /** One step of `MULADDC_CORE` without a double-width type: four half-word
      products, every intermediate sum wrapping at one limb. */
  method MulAddHalf(s: limb, b: limb, d: limb, c: limb) returns (r0: limb, r1: limb)
    ensures r0 + r1 * Base() == s * b + d + c
  {
    hide Pow, LowHalf, HighHalf;
    BaseFacts();
    var h: limb := HalfBase() by { MulMono(1, HalfBase(), HalfBase()); MulStrict(1, HalfBase(), HalfBase()); }
    var s0, s1 := LowHalf(s), HighHalf(s);
    var b0, b1 := LowHalf(b), HighHalf(b);
    HalfProductIsLimb(s0, b1);
    HalfProductIsLimb(s0, b0);
    HalfProductIsLimb(s1, b0);
    HalfProductIsLimb(s1, b1);
    var rx: limb, ry: limb := s0 * b1, s1 * b0;
    r0 := s0 * b0;
    var hi: int := s1 * b1;
    ghost var p00, px, py, p11 := r0 as int, rx as int, ry as int, hi;
    HalfProducts(s0, s1, b0, b1, h);
    MiddleProduct(rx, h);
    MiddleProduct(ry, h);
    hi := hi + rx / h;
    hi := hi + ry / h;
    assert hi == p11 + px / h + py / h;
    Distr(p11, px / h, Base());
    Distr(p11 + px / h, py / h, Base());
    rx, ry := WrapMul(rx, h), WrapMul(ry, h);
    assert r0 + hi * Base() + rx + ry == s * b;
    hi, r0 := AddCounted(r0, hi, rx);
    hi, r0 := AddCounted(r0, hi, ry);
    hi, r0 := AddCounted(r0, hi, c);
    hi, r0 := AddCounted(r0, hi, d);
    DoubleWordRange(s, b, c, d);
    HighIsLimb(r0, hi, s * b + c + d);
    r1 := hi;
  }

  /** `MULADDC_CORE`, whichever way it was built. */
  method MulAdd(s: limb, b: limb, d: limb, c: limb) returns (r0: limb, r1: limb)
    ensures r0 + r1 * Base() == s * b + d + c
  {
    if HaveUdbl {
      r0, r1 := MulAddWide(s, b, d, c);
    } else {
      r0, r1 := MulAddHalf(s, b, d, c);
    }
  }

  /** `r0 += y; r1 += (r0 < y);` */
  method AddCounted(r0: limb, r1: int, y: limb) returns (hi: int, lo: limb)
    ensures lo + hi * Base() == r0 + r1 * Base() + y
  {
    AddToLow(r0, r1, y);
    lo := WrapAdd(r0, y);
    hi := r1 + if lo < y then 1 else 0;
  }

  /** One column of a multiply-accumulate row. */
  lemma MulColumn(p: seq<limb>, k: nat, r0: limb, cin: int, cout: int, prod: int)
    requires k < |p| && r0 + cout * Base() == prod + p[k] + cin
    ensures Val(p[k := r0]) + At(cout, k + 1) == Val(p) + At(cin, k) + At(prod, k)
  {
    ValUpdate(p, k, r0);
    PlaceFacts(k);
    var q := Place(k);
    MulAssoc(cout, Base(), q);
    Distr(r0 - p[k], cout * Base(), q);
    Distr(prod, cin, q);
  }

  /** A row of partial products grows by one column. */
  lemma RowStep(s: seq<limb>, j: nat, b: limb, off: nat)
    requires j < |s|
    ensures At(Val(s[..j + 1]) * b, off) == At(Val(s[..j]) * b, off) + At(s[j] * b, off + j)
  {
    ValSnoc(s, j);
    Distr(Val(s[..j]), s[j] * Place(j), b);
    Distr(Val(s[..j]) * b, (s[j] * Place(j)) * b, Place(off));
    PlaceAdd(off, j);
    Swap4(s[j], Place(j), b, Place(off));
    MulAssoc(s[j] * Place(j), b, Place(off));
  }

  method MulRow(i: nat, s: seq<limb>, X: Mpi, off: nat, b: limb) returns (c: limb)
    requires i <= |s| && off + i <= |X.p|
    modifies X`p
    ensures |X.p| == old(|X.p|) && X.p[..off] == old(X.p)[..off]
    ensures Val(X.p) + At(c, off + i) == old(Val(X.p)) + At(Val(s[..i]) * b, off)
  {
    ghost var x0 := X.p;
    var j: nat := 0;
    c := 0 by { BaseFacts(); }
    while j < i
      invariant j <= i && |X.p| == |x0| && X.p[..off] == x0[..off]
      invariant Val(X.p) + At(c, off + j) == Val(x0) + At(Val(s[..j]) * b, off)
    {
      var k := off + j;
      var r0, r1 := MulAdd(s[j], b, X.p[k], c);
      MulColumn(X.p, k, r0, c, r1, s[j] * b);
      RowStep(s, j, b, off);
      X.p := X.p[k := r0];
      c := r1;
      j := j + 1;
    }
  }

  /** The do-while carry loop at the end of a row. */
  method MulCarry(X: Mpi, start: nat, carry: limb)
    requires start < |X.p| && Val(X.p) + At(carry, start) < Place(|X.p|)
    modifies X`p
    ensures |X.p| == old(|X.p|) && X.p[..start] == old(X.p)[..start]
    ensures Val(X.p) == old(Val(X.p)) + At(carry, start)
  {
    ghost var x0 := X.p;
    var k: nat, c: limb := start, carry;
    var first := true;
    while first || c != 0
      invariant |X.p| == |x0| && start <= k <= |X.p| && X.p[..start] == x0[..start]
      invariant first ==> k < |X.p|
      invariant Val(X.p) + At(c, k) == Val(x0) + At(carry, start)
      decreases |X.p| - k
    {
      if c != 0 { CarryStaysInside(X.p, k, c); }
      var w := WrapAdd(X.p[k], c);
      var cout: limb := (if w < c then 1 else 0) by { BaseFacts(); }
      AddToLow(X.p[k], 0, c);
      MulColumn(X.p, k, w, c, cout, 0);
      X.p := X.p[k := w];
      c := cout;
      k := k + 1;
      first := false;
    }
  }

  lemma CarryStaysInside(p: seq<limb>, k: nat, c: nat)
    requires k <= |p| && c != 0 && Val(p) + At(c, k) < Place(|p|)
    ensures k < |p|
  {
    if k == |p| { MulMono(1, c, Place(k)); }
  }

  /** d[0..] += s[0..i] * b where d is X's buffer from limb `off` on. The carry
      loop at the end has no bound of its own; the requirement that the total
      fits the buffer is what stops it inside. */
  method MulHlp(i: nat, s: seq<limb>, X: Mpi, off: nat, b: limb)
    requires i <= |s| && off + i < |X.p|
    requires Val(X.p) + At(Val(s[..i]) * b, off) < Place(|X.p|)
    modifies X`p
    ensures |X.p| == old(|X.p|) && X.p[..off] == old(X.p)[..off]
    ensures Val(X.p) == old(Val(X.p)) + At(Val(s[..i]) * b, off)
  {
    var c := MulRow(i, s, X, off, b);
    assert X.p[..off] == X.p[..off + i][..off];
    MulCarry(X, off + i, c);
  }

  lemma RowAlgebra(a: int, x: int, v: int, b: int, q: int)
    ensures (a * (x + b * v)) * q == (a * v) * (b * q) + (a * x) * q
  {
    Distr(x, b * v, a);
    Distr(a * x, a * (b * v), q);
    MulAssoc(a, v, b);
    MulAssoc(a * v, b, q);
  }

  lemma ProductStep(va: nat, b: seq<limb>, j: nat)
    requires j < |b|
    ensures At(va * Val(b[j..]), j) == At(va * Val(b[j + 1..]), j + 1) + At(va * b[j], j)
    ensures At(va * Val(b[j..]), j) <= va * Val(b)
  {
    hide Pow, Val;
    ValCons(b, j);
    PlaceFacts(j);
    RowAlgebra(va, b[j], Val(b[j + 1..]), Base(), Place(j));
    RowsBelow(va, b, j);
  }

  lemma RowsBelow(va: nat, b: seq<limb>, j: nat)
    requires j < |b|
    ensures At(va * Val(b[j..]), j) <= va * Val(b)
  {
    ValSplit(b, j);
    MulAssoc(va, Val(b[j..]), Place(j));
    MulMono(Place(j) * Val(b[j..]), Val(b), va);
  }

  lemma ProductFits(va: nat, vb: nat, i: nat, j: nat, n: nat)
    requires va < Place(i) && vb < Place(j) && i + j <= n
    ensures va * vb < Place(n)
  {
    PlaceAdd(i, j);
    PlaceMono(i + j, n);
    PlaceFacts(i);
    PlaceFacts(j);
    MulMono(vb, Place(j), va);
    MulStrict(va, Place(i), Place(j));
  }

  /** X := A * B, for any aliasing of the three. */
  method MulMpi(X: Mpi, A0: Mpi, B0: Mpi)
    modifies X
    ensures X.Value() == old(A0.Value() * B0.Value())
    ensures old(|A0.p|) > 0 && old(|B0.p|) > 0 ==> X.s == SignTimes(old(A0.s), old(B0.s))
    ensures |X.p| >= old(|X.p|) && |X.p| > 0
  {
    var A, B := A0, B0;
    if X == A {
      A := new Mpi();
      Copy(A, A0);
    }
    if X == B {
      B := new Mpi();
      Copy(B, B0);
    }
    MulDistinct(X, A, B);
  }

  /** The product once the operands are known not to be the destination. */
  method MulDistinct(X: Mpi, A: Mpi, B: Mpi)
    requires X != A && X != B
    modifies X
    ensures X.Value() == A.Value() * B.Value() && X.s == SignTimes(A.s, B.s)
    ensures |X.p| >= old(|X.p|) && |X.p| > 0
  {
    var i := TopLimb(A);
    var jn := TopLimb(B);
    ValUsed(A.p);
    ValUsed(B.p);
    Grow(X, i + jn);
    Lset(X, 0);
    MulRows(X, A.p, i, B.p, jn);
    SignedProduct(A.s, B.s, A.Abs(), B.Abs());
    X.s := SignTimes(A.s, B.s);
  }

  lemma SignedProduct(s: sign, t: sign, a: nat, b: nat)
    ensures Signed(SignTimes(s, t), a * b) == Signed(s, a) * Signed(t, b)
  {}

  /** The outer loop: rows from the top limb of B down. */
  method MulRows(X: Mpi, a: seq<limb>, i: nat, b: seq<limb>, jn: nat)
    requires i <= |a| && jn <= |b| && i + jn <= |X.p| && 0 < |X.p| && Val(X.p) == 0
    modifies X`p
    ensures |X.p| == old(|X.p|)
    ensures Val(X.p) == Val(a[..i]) * Val(b[..jn])
  {
    hide Pow, Val;
    ghost var va, vb := Val(a[..i]), b[..jn];
    ValBound(a[..i]);
    ValBound(vb);
    ProductFits(va, Val(vb), i, jn, |X.p|);
    var j := jn;
    ValZero([]);
    assert vb[jn..] == [] && At(va * 0, jn) == 0;
    while j > 0
      invariant j <= jn && |X.p| == old(|X.p|)
      invariant Val(X.p) == At(va * Val(vb[j..]), j)
    {
      assert b[j - 1] == vb[j - 1];
      ProductStep(va, vb, j - 1);
      MulHlp(i, a, X, j - 1, b[j - 1]);
      j := j - 1;
    }
    assert vb[0..] == vb;
    PlaceZero();
  }

  /** X := A * b. */
  method MulInt(X: Mpi, A: Mpi, b: limb)
    modifies X
    ensures X.Value() == old(A.Value()) * b
    ensures old(|A.p|) > 0 ==> X.s == old(A.s)
    ensures |X.p| >= old(|X.p|) && |X.p| > 0
  {
    var B := new Mpi.FromLimb(b);
    MulMpi(X, A, B);
  }
}
