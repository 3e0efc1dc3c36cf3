/** Addition and subtraction: carry and borrow loops over the limb buffers, and
    the signed operations built on them. */
module MpiAdd {
  import opened Arith
  import opened Limbs
  import opened MpiCore

  /** Two wrapping additions and their carry flags add three words exactly. */
  lemma AddWords(x: limb, c: limb, y: limb)
    requires c <= 1
    ensures var v := WrapAdd(x, c);
            var w := WrapAdd(v, y);
            var c1 := (if v < c then 1 else 0) + (if w < y then 1 else 0);
            c1 <= 1 && w + c1 * Base() == x + c + y
  {
    BaseFacts();
  }

  /** Two wrapping subtractions and their borrow flags subtract exactly. */
  lemma SubWords(x: limb, c: limb, y: limb)
    requires c <= 1
    ensures var v := WrapSub(x, c);
            var w := WrapSub(v, y);
            var c1 := (if v < y then 1 else 0) + (if x < c then 1 else 0);
            c1 <= 1 && w - c1 * Base() == x - c - y
  {
    BaseFacts();
  }

  /** One column of a carry chain: replacing limb `i` by `w` and moving the
      carry up keeps `value + carry` in step with the running total. */
  lemma Column(p: seq<limb>, i: nat, w: limb, cin: int, cout: int, addend: int)
    requires i < |p| && w + cout * Base() == p[i] + cin + addend
    ensures Val(p[i := w]) + At(cout, i + 1) == Val(p) + At(cin, i) + At(addend, i)
  {
    ValUpdate(p, i, w);
    PlaceFacts(i);
    var q := Place(i);
    MulAssoc(cout, Base(), q);
    Distr(w - p[i], cout * Base(), q);
    Distr(cin, addend, q);
  }

  /** The loop over the limbs of B; X and B may be the same object. */
  method AddLimbs(X: Mpi, B: Mpi, j: nat) returns (c: limb)
    requires j <= |X.p| && j <= |B.p|
    modifies X`p
    ensures c <= 1 && |X.p| == old(|X.p|)
    ensures Val(X.p) + At(c, j) == old(Val(X.p) + Val(B.p[..j]))
  {
    ghost var x0, b0 := X.p, B.p;
    var i: nat := 0;
    c := 0 by { BaseFacts(); }
    while i < j
      invariant i <= j && c <= 1 && |X.p| == |x0|
      invariant X.p[i..] == x0[i..] && B.p[i..] == b0[i..] && |B.p| == |b0|
      invariant Val(X.p) + At(c, i) == Val(x0) + Val(b0[..i])
    {
      var tmp := B.p[i];
      assert tmp == b0[i] by { assert B.p[i..][0] == b0[i..][0]; }
      var v := WrapAdd(X.p[i], c);
      var w := WrapAdd(v, tmp);
      var cout := (if v < c then 1 else 0) + (if w < tmp then 1 else 0);
      AddWords(X.p[i], c, tmp);
      Column(X.p, i, w, c, cout, tmp);
      ValSnoc(b0, i);
      X.p := X.p[i := w];
      c := cout;
      i := i + 1;
    }
  }

  /** The loop that carries out of the top, growing X when it has to. */
  method CarryOut(X: Mpi, start: nat, carry: limb)
    requires start <= |X.p| && carry <= 1
    modifies X`p
    ensures |X.p| >= old(|X.p|)
    ensures Val(X.p) == old(Val(X.p)) + At(carry, start)
  {
    var i: nat, c: limb := start, carry;
    while c != 0
      invariant c <= 1 && i <= |X.p| && |X.p| >= old(|X.p|)
      invariant Val(X.p) + At(c, i) == old(Val(X.p)) + At(carry, start)
      decreases |X.p| - i + c
    {
      Grow(X, i + 1);
      var w := WrapAdd(X.p[i], c);
      var cout: limb := if w < c then 1 else 0;
      Column(X.p, i, w, c, cout, 0);
      X.p := X.p[i := w];
      c := cout;
      i := i + 1;
    }
  }

  /** X := |A| + |B|, for any aliasing of the three. */
  method AddAbs(X: Mpi, A0: Mpi, B0: Mpi)
    modifies X
    ensures X.Abs() == old(A0.Abs() + B0.Abs()) && X.s == 1
    ensures old(|A0.p|) > 0 && old(|B0.p|) > 0 ==> |X.p| >= old(|X.p|)
  {
    hide Pow, Val;
    var A, B := A0, B0;
    if X == B { A, B := X, A0; }
    if X != A { Copy(X, A); }
    X.s := 1;
    var j := TopLimb(B);
    ValUsed(B.p);
    Grow(X, j);
    var c := AddLimbs(X, B, j);
    CarryOut(X, j, c);
  }

  /** The same column for a subtraction: borrows instead of carries. */
  lemma BorrowColumn(p: seq<limb>, i: nat, w: limb, cin: int, cout: int, sub: int)
    requires i < |p| && w - cout * Base() == p[i] - cin - sub
    ensures Val(p[i := w]) - At(cout, i + 1) == Val(p) - At(cin, i) - At(sub, i)
  {
    assert w + (-cout) * Base() == p[i] + (-cin) + (-sub);
    Column(p, i, w, -cin, -cout, -sub);
    AtNegated(cin, i);
    AtNegated(sub, i);
    AtNegated(cout, i + 1);
  }

  lemma AtNegated(c: int, i: nat)
    ensures At(-c, i) == -At(c, i)
  {}

  method SubLimbs(n: nat, s: seq<limb>, X: Mpi) returns (c: limb)
    requires n <= |s| && n <= |X.p|
    modifies X`p
    ensures c <= 1 && |X.p| == old(|X.p|)
    ensures Val(X.p) - At(c, n) == old(Val(X.p)) - Val(s[..n])
  {
    ghost var x0 := X.p;
    var i: nat := 0;
    c := 0 by { BaseFacts(); }
    while i < n
      invariant i <= n && c <= 1 && |X.p| == |x0|
      invariant Val(X.p) - At(c, i) == Val(x0) - Val(s[..i])
    {
      var v := WrapSub(X.p[i], c);
      var w := WrapSub(v, s[i]);
      var cout: limb := (if v < s[i] then 1 else 0) + (if X.p[i] < c then 1 else 0);
      SubWords(X.p[i], c, s[i]);
      BorrowColumn(X.p, i, w, c, cout, s[i]);
      ValSnoc(s, i);
      X.p := X.p[i := w];
      c := cout;
      i := i + 1;
    }
  }

  method BorrowOut(start: nat, borrow: limb, X: Mpi)
    requires start <= |X.p| && borrow <= 1 && At(borrow, start) <= Val(X.p)
    modifies X`p
    ensures |X.p| == old(|X.p|)
    ensures Val(X.p) == old(Val(X.p)) - At(borrow, start)
  {
    var i: nat, c: limb := start, borrow;
    while c != 0
      invariant c <= 1 && |X.p| == old(|X.p|) && i <= |X.p|
      invariant Val(X.p) - At(c, i) == old(Val(X.p)) - At(borrow, start)
      decreases |X.p| - i + c
    {
      BorrowStaysInside(X.p, i);
      var w := WrapSub(X.p[i], c);
      var cout: limb := if X.p[i] < c then 1 else 0;
      BorrowColumn(X.p, i, w, c, cout, 0);
      X.p := X.p[i := w];
      c := cout;
      i := i + 1;
    }
  }

  /** A borrow still pending past the last limb would mean a negative total. */
  lemma BorrowStaysInside(p: seq<limb>, i: nat)
    requires i <= |p| && Val(p) >= At(1, i)
    ensures i < |p|
  {
    ValBound(p);
  }

  /** d[0..] -= s[0..n], with the borrow running on for as long as it must. The
      C loop has no bound of its own: `Val(s[..n]) <= Val(X.p)` is what keeps it
      inside the buffer. */
  method SubHlp(n: nat, s: seq<limb>, X: Mpi)
    requires n <= |s| && n <= |X.p| && Val(s[..n]) <= Val(X.p)
    modifies X`p
    ensures |X.p| == old(|X.p|)
    ensures Val(X.p) == old(Val(X.p)) - Val(s[..n])
  {
    var c := SubLimbs(n, s, X);
    BorrowOut(n, c, X);
  }

  /** X := |A| - |B|, or an error that leaves X alone when |A| < |B|. */
  method SubAbs(X: Mpi, A: Mpi, B: Mpi) returns (r: Status)
    modifies X
    ensures r == if old(A.Abs() < B.Abs()) then NegativeValue else Ok
    ensures r == Ok ==> X.Abs() == old(A.Abs()) - old(B.Abs()) && X.s == 1
    ensures r != Ok ==> X.p == old(X.p) && X.s == old(X.s)
    ensures old(|A.p|) > 0 ==> |X.p| >= old(|X.p|)
  {
    hide Pow, Val;
    var c := CmpAbs(A, B);
    if c < 0 { return NegativeValue; }
    var TB := B;
    if X == B {
      TB := new Mpi();
      Copy(TB, B);
    }
    if X != A { Copy(X, A); }
    X.s := 1;
    var n := TopLimb(TB);
    ValUsed(TB.p);
    FitsBelow(TB.p, X.p);
    SubHlp(n, TB.p, X);
    return Ok;
  }

  lemma FitsBelow(t: seq<limb>, s: seq<limb>)
    requires Val(t) <= Val(s)
    ensures Used(t) <= Used(s) <= |s|
  {
    if Used(s) < Used(t) { UsedMono(s, t); }
  }

  /** X := A + B, for any signs and any aliasing. */
  method AddMpi(X: Mpi, A: Mpi, B: Mpi)
    modifies X
    ensures X.Value() == old(A.Value() + B.Value())
    ensures old(A.s) == old(B.s) ==> X.s == old(A.s)
    ensures old(|A.p|) > 0 && old(|B.p|) > 0 ==> |X.p| >= old(|X.p|)
  {
    hide Pow, Val;
    var s := A.s;
    if A.s * B.s < 0 {
      var c := CmpAbs(A, B);
      if c >= 0 {
        var _ := SubAbs(X, A, B);
        X.s := s;
      } else {
        var _ := SubAbs(X, B, A);
        X.s := 0 - s;
      }
    } else {
      AddAbs(X, A, B);
      X.s := s;
    }
  }

  /** X := A - B, for any signs and any aliasing. */
  method SubMpi(X: Mpi, A: Mpi, B: Mpi)
    modifies X
    ensures X.Value() == old(A.Value() - B.Value())
    ensures old(A.s) != old(B.s) ==> X.s == old(A.s)
    ensures old(|A.p|) > 0 && old(|B.p|) > 0 ==> |X.p| >= old(|X.p|)
  {
    hide Pow, Val;
    var s := A.s;
    if A.s * B.s > 0 {
      var c := CmpAbs(A, B);
      if c >= 0 {
        var _ := SubAbs(X, A, B);
        X.s := s;
      } else {
        var _ := SubAbs(X, B, A);
        X.s := 0 - s;
      }
    } else {
      AddAbs(X, A, B);
      X.s := s;
    }
  }

  method AddInt(X: Mpi, A: Mpi, b: sint)
    modifies X
    ensures X.Value() == old(A.Value()) + b
    ensures old(A.s) == SignOf(b) ==> X.s == old(A.s)
    ensures old(|A.p|) > 0 ==> |X.p| >= old(|X.p|)
  {
    var B := new Mpi.FromInt(b);
    AddMpi(X, A, B);
  }

  method SubInt(X: Mpi, A: Mpi, b: sint)
    modifies X
    ensures X.Value() == old(A.Value()) - b
    ensures old(A.s) != SignOf(b) ==> X.s == old(A.s)
    ensures old(|A.p|) > 0 ==> |X.p| >= old(|X.p|)
  {
    var B := new Mpi.FromInt(b);
    SubMpi(X, A, B);
  }
}
