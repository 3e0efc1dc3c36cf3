/** The multi-precision integer object and the operations that move whole
    values: allocation, copy, set, and comparison. */
module MpiCore {
  import opened Arith
  import opened Limbs

  /** Error codes of the library that this model can return. */
  datatype Status =
    | Ok
    | BadInputData
    | InvalidCharacter
    | BufferTooSmall
    | NegativeValue
    | DivisionByZero
    | NotAcceptable

  /** Signed machine integers: the type of `z` in `lset`, `cmp_int`, ... */
  type sint = z: int | 0 - Pow(2, biL - 1) <= z < Pow(2, biL - 1) witness 0

  lemma SmallIsSint()
    ensures 127 < Pow(2, biL - 1)
  {
    PowMono(2, 8, biL - 1);
    PowSmall();
  }

  function Magnitude(z: sint): limb {
    BaseFacts();
    if z < 0 then 0 - z else z
  }

  function SignOf(z: int): sign {
    if z < 0 then -1 else 1
  }

  function SignTimes(s: sign, t: sign): sign {
    s * t
  }

  /** Three-way comparison: -1, 0 or 1. */
  function Order(a: int, b: int): int {
    if a < b then -1 else if a > b then 1 else 0
  }

  function Signed(s: sign, a: nat): int {
    if s < 0 then 0 - a else a
  }

  /** A sign and a growable limb buffer. An empty buffer is the null pointer;
      zero may carry either sign. */
  class Mpi {
    var s: sign
    var p: seq<limb>

    constructor ()
      ensures s == 1 && p == []
    {
      s, p := 1, [];
    }

    /** One-limb temporary, as built on the stack by the `_int` variants. */
    constructor FromInt(z: sint)
      ensures Value() == z && |p| == 1 && s == SignOf(z)
    {
      s := SignOf(z);
      p := [Magnitude(z)];
      new;
      ValOne(Magnitude(z));
    }

    constructor FromLimb(x: limb)
      ensures Value() == x && p == [x] && s == 1
    {
      s := 1;
      p := [x];
      new;
      ValOne(x);
    }

    ghost function Abs(): nat
      reads this
    {
      Val(p)
    }

    ghost function Value(): int
      reads this
    {
      Signed(s, Abs())
    }
  }

  function Max(a: nat, b: nat): nat {
    if a < b then b else a
  }

  /** `i` limbs of `t`, then zeros up to length `n`. */
  function Padded(t: seq<limb>, i: nat, n: nat): seq<limb>
    requires i <= |t| && i <= n
  {
    t[..i] + Zeros(n - i)
  }

  lemma PaddedUsed(t: seq<limb>, i: nat, n: nat)
    requires Used(t) <= i <= |t| && i <= n
    ensures Used(Padded(t, i, n)) == Used(t)
  {
    hide Pow, Used, Zeros;
    var u, k := Padded(t, i, n), Used(t);
    forall j | k <= j < n
      ensures u[j] == 0
    {
      if j < i { assert u[j] == t[j]; }
    }
    if k > 0 { assert u[k - 1] == t[k - 1]; }
    UsedUnique(u, k);
  }

  lemma PaddedVal(t: seq<limb>, i: nat, n: nat)
    requires Used(t) <= i <= |t| && i <= n
    ensures Val(Padded(t, i, n)) == Val(t) && Used(Padded(t, i, n)) == Used(t)
  {
    hide Pow, Val, Used;
    var u := Padded(t, i, n);
    PaddedUsed(t, i, n);
    assert u[..i] == t[..i] && u[i..] == Zeros(n - i);
    ValTopZeros(u, i);
    ValTopZeros(t, i);
  }

  /** Enlarges X with zero limbs to at least `nblimbs` limbs. */
  method Grow(X: Mpi, nblimbs: nat)
    modifies X`p
    ensures |X.p| == Max(old(|X.p|), nblimbs)
    ensures X.p == old(X.p) + Zeros(|X.p| - old(|X.p|))
    ensures nblimbs <= old(|X.p|) ==> X.p == old(X.p)
    ensures X.Value() == old(X.Value()) && X.Abs() == old(X.Abs())
  {
    if |X.p| < nblimbs {
      ghost var was := X.p;
      X.p := X.p + Zeros(nblimbs - |X.p|);
      assert X.p[..|was|] == was && X.p[|was|..] == Zeros(nblimbs - |was|);
      ValTopZeros(X.p, |was|);
    } else {
      assert X.p == X.p + Zeros(0);
    }
  }

  /** Index just above the most significant non-zero limb. */
  method TopLimb(X: Mpi) returns (i: nat)
    ensures i == Used(X.p)
  {
    i := |X.p|;
    while i > 0
      invariant 0 <= i <= |X.p|
      invariant forall k :: i <= k < |X.p| ==> X.p[k] == 0
    {
      if X.p[i - 1] != 0 { break; }
      i := i - 1;
    }
    UsedUnique(X.p, i);
  }

  lemma {:induction false} UsedUnique(s: seq<limb>, n: nat)
    requires n <= |s|
    requires n > 0 ==> s[n - 1] != 0
    requires forall i :: n <= i < |s| ==> s[i] == 0
    ensures Used(s) == n
  {
    if |s| > n {
      UsedUnique(s[..|s| - 1], n);
    }
  }

  /** X := Y. The buffer of X never shrinks, except that copying a null buffer
      frees X. */
  method Copy(X: Mpi, Y: Mpi)
    modifies X
    ensures X.Value() == old(Y.Value()) && X.Abs() == old(Y.Abs())
    ensures X == Y ==> X.p == old(X.p) && X.s == old(X.s)
    ensures old(|Y.p|) == 0 ==> X.p == [] && (X != Y ==> X.s == 1)
    ensures old(|Y.p|) > 0 ==> X.s == old(Y.s)
    ensures X != Y && old(|Y.p|) > 0 ==> |X.p| == Max(old(|X.p|), Max(1, Used(Y.p))) && Used(X.p) == Used(Y.p)
  {
    if X == Y { return; }
    if |Y.p| == 0 {
      X.s, X.p := 1, [];
      return;
    }
    var i := TopLimb(Y);
    if i == 0 { i := 1; }
    X.s := Y.s;
    Grow(X, i);
    X.p := Padded(Y.p, i, |X.p|);
    PaddedVal(Y.p, i, |X.p|);
  }

  /** X := z. */
  method Lset(X: Mpi, z: sint)
    modifies X
    ensures X.Value() == z && X.s == SignOf(z)
    ensures |X.p| == Max(old(|X.p|), 1)
    ensures X.p == [Magnitude(z)] + Zeros(|X.p| - 1)
  {
    Grow(X, 1);
    X.p := Zeros(|X.p|);
    X.p := X.p[0 := Magnitude(z)];
    X.s := SignOf(z);
    assert X.p == [Magnitude(z)] + Zeros(|X.p| - 1);
    ValAppend([Magnitude(z)], Zeros(|X.p| - 1));
    ValZero(Zeros(|X.p| - 1));
    ValOne(Magnitude(z));
    assert Place(1) * 0 == 0;
  }

  /** Descending scan for the first difference, shared by both comparisons. */
  lemma CompareAt(s: seq<limb>, t: seq<limb>, n: nat, i: nat)
    requires Used(s) == Used(t) == n && i < n
    requires s[i + 1..n] == t[i + 1..n] && s[i] != t[i]
    ensures Order(Val(s), Val(t)) == if s[i] < t[i] then -1 else 1
  {
    ValUsed(s);
    ValUsed(t);
    var u, v := s[..n], t[..n];
    assert u[i + 1..] == s[i + 1..n] && v[i + 1..] == t[i + 1..n];
    if s[i] < t[i] { ValCompare(u, v, i); } else { ValCompare(v, u, i); }
  }

  lemma CompareEqual(s: seq<limb>, t: seq<limb>, n: nat)
    requires Used(s) == Used(t) == n && s[..n] == t[..n]
    ensures Val(s) == Val(t)
  {
    ValUsed(s);
    ValUsed(t);
  }

  /** The scan, for numbers with the same number of used limbs. */
  method ScanDown(X: Mpi, Y: Mpi, n: nat) returns (r: int)
    requires Used(X.p) == Used(Y.p) == n
    ensures r == Order(X.Abs(), Y.Abs())
  {
    hide Pow, Val, Used;
    var i := n;
    while i > 0
      invariant 0 <= i <= n <= |X.p| && n <= |Y.p|
      invariant X.p[i..n] == Y.p[i..n]
    {
      if X.p[i - 1] != Y.p[i - 1] { CompareAt(X.p, Y.p, n, i - 1); }
      if X.p[i - 1] > Y.p[i - 1] { return 1; }
      if X.p[i - 1] < Y.p[i - 1] { return -1; }
      i := i - 1;
    }
    CompareEqual(X.p, Y.p, n);
    return 0;
  }

  method CmpAbs(X: Mpi, Y: Mpi) returns (r: int)
    ensures r == Order(X.Abs(), Y.Abs())
  {
    hide Pow, Val, Used;
    var i := TopLimb(X);
    var j := TopLimb(Y);
    ValUsed(X.p);
    ValUsed(Y.p);
    if i == 0 && j == 0 { return 0; }
    if i > j {
      UsedMono(Y.p, X.p);
      return 1;
    }
    if j > i {
      UsedMono(X.p, Y.p);
      return -1;
    }
    r := ScanDown(X, Y, i);
  }

  method CmpMpi(X: Mpi, Y: Mpi) returns (r: int)
    ensures r == Order(X.Value(), Y.Value())
  {
    hide Pow, Val, Used;
    var i := TopLimb(X);
    var j := TopLimb(Y);
    ValUsed(X.p);
    ValUsed(Y.p);
    if i == 0 && j == 0 { return 0; }
    if i > j {
      UsedMono(Y.p, X.p);
      return X.s;
    }
    if j > i {
      UsedMono(X.p, Y.p);
      return 0 - Y.s;
    }
    PlaceFacts(i - 1);
    if X.s > 0 && Y.s < 0 { return 1; }
    if Y.s > 0 && X.s < 0 { return -1; }
    r := ScanDown(X, Y, i);
    if X.s < 0 { r := 0 - r; }
  }

  method CmpInt(X: Mpi, z: sint) returns (r: int)
    ensures r == Order(X.Value(), z)
  {
    var Y := new Mpi.FromInt(z);
    r := CmpMpi(X, Y);
  }
}
