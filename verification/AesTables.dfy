/** The substitution boxes of FIPS 197. */
module SBoxes {
  import opened Bytes
  import opened Field
  import opened Gf

  /** The multiplicative inverse, zero for zero. */
  ghost function Inverse(x: bv8): (y: bv8)
    ensures x == 0 ==> y == 0
    ensures x != 0 ==> Product(x, y) == 1
  {
    if x == 0 then 0 else InverseExists(x); var y :| Product(x, y) == 1; y
  }

  lemma InverseExists(x: bv8)
    requires x != 0
    ensures exists y :: Product(x, y) == 1
  {
    hide Product, Power;
    var i := PowersReach(x);
    InverseByPower(i);
  }

  lemma InverseIs(x: bv8, y: bv8)
    requires x != 0 && Product(x, y) == 1
    ensures Inverse(x) == y
  {
    hide Product;
    InverseUnique(x, Inverse(x), y);
  }

  lemma InverseInjective(x: bv8, y: bv8)
    requires Inverse(x) == Inverse(y)
    ensures x == y
  {
    hide Product;
    ProductZero(x);
    ProductZero(y);
    if x != 0 && y != 0 {
      ProductComm(x, Inverse(x));
      ProductComm(y, Inverse(x));
      InverseUnique(Inverse(x), x, y);
    }
  }

  /** The affine step of section 5.1.1 of FIPS 197, as four rotations and 0x63. */
  function Affine(x: bv8): bv8 {
    x ^ x.RotateLeft(1) ^ x.RotateLeft(2) ^ x.RotateLeft(3) ^ x.RotateLeft(4) ^ 0x63
  }

  lemma AffineInjective(x: bv8, y: bv8)
    requires Affine(x) == Affine(y)
    ensures x == y
  {}

  /** SubBytes on one byte. */
  ghost function SBox(x: bv8): bv8 {
    Affine(Inverse(x))
  }

  lemma SBoxInjective(x: bv8, y: bv8)
    requires SBox(x) == SBox(y)
    ensures x == y
  {
    hide Affine, Inverse;
    AffineInjective(Inverse(x), Inverse(y));
    InverseInjective(x, y);
  }

  ghost function SBoxIndices(n: nat): (s: seq<nat>)
    requires n <= 256
    ensures |s| == n && forall i :: 0 <= i < n ==> s[i] == Ix(SBox(ToByte(i)))
  {
    seq<nat>(n, i requires 0 <= i < n => Ix(SBox(ToByte(i))))
  }

  lemma SBoxOnto(y: bv8)
    ensures exists x :: SBox(x) == y
  {
    hide SBox, Ix, ToByte;
    var s := SBoxIndices(256);
    forall i, j | 0 <= i < j < 256
      ensures s[i] != s[j]
    {
      ByteOfIndex(SBox(ToByte(i)));
      ByteOfIndex(SBox(ToByte(j)));
      IndexOfByte(i);
      IndexOfByte(j);
      if s[i] == s[j] { SBoxInjective(ToByte(i), ToByte(j)); }
    }
    forall i | 0 <= i < 256
      ensures s[i] < 256
    {
      ByteOfIndex(SBox(ToByte(i)));
    }
    ByteOfIndex(y);
    Pigeonhole(s, Ix(y));
    var i :| 0 <= i < 256 && s[i] == Ix(y);
    ByteOfIndex(SBox(ToByte(i)));
  }

  /** InvSubBytes on one byte. */
  ghost function InvSBox(y: bv8): (x: bv8)
    ensures SBox(x) == y
  {
    SBoxOnto(y);
    var x :| SBox(x) == y;
    x
  }

  lemma InvSBoxIs(x: bv8)
    ensures InvSBox(SBox(x)) == x
  {
    hide SBox;
    SBoxInjective(InvSBox(SBox(x)), x);
  }
}

/** The generated lookup tables. */
module AesTables {
  import opened Arith
  import opened Bytes
  import opened Field
  import opened Gf
  import opened Columns
  import opened SBoxes

  /** The round constants, powers of x in the field. */
  function RoundConstant(i: nat): bv8 {
    if i == 0 then 1 else XTime(RoundConstant(i - 1))
  }

  /** One rotation to the left, as the code spells it. */
  function Rol(y: bv8): bv8 {
    (y << 1) | (y >> 7)
  }

  /** The generator's affine step on the inverse `x`. */
  function CodeAffine(x: bv8): bv8 {
    var y1 := Rol(x);
    var y2 := Rol(y1);
    var y3 := Rol(y2);
    var y4 := Rol(y3);
    x ^ y1 ^ y2 ^ y3 ^ (y4 ^ 0x63)
  }

  lemma CodeAffineIsAffine(x: bv8)
    ensures CodeAffine(x) == Affine(x)
  {
    RolIsRotate(x);
    RolTwice(x);
    hide Rol;
    XorOrder(x, x.RotateLeft(1), x.RotateLeft(2), x.RotateLeft(3), x.RotateLeft(4));
  }

  lemma RolIsRotate(x: bv8)
    ensures Rol(x) == x.RotateLeft(1)
  {}

  lemma RolTwice(x: bv8)
    ensures Rol(x.RotateLeft(1)) == x.RotateLeft(2) && Rol(x.RotateLeft(2)) == x.RotateLeft(3) && Rol(x.RotateLeft(3)) == x.RotateLeft(4)
  {}

  lemma XorOrder(x: bv8, a: bv8, b: bv8, c: bv8, d: bv8)
    ensures x ^ a ^ b ^ c ^ (d ^ 0x63) == x ^ a ^ b ^ c ^ d ^ 0x63
  {}

  // ------------------------------------------------------------ pow and log

  ghost predicate IsLog(l: nat, b: bv8) {
    l <= 255 && Power(l) == b
  }

  /** The power and logarithm tables; the entry for zero means nothing. */
  ghost predicate PowLog(pow: seq<bv8>, log: seq<nat>) {
    && |pow| == 256 && |log| == 256
    && (forall j :: 0 <= j < 256 ==> pow[j] == Power(j))
    && (forall b: bv8 :: b != 0 ==> Ix(b) < 256 && IsLog(log[Ix(b)], b))
  }

  /** The first loop: powers of three and their exponents. */
  method PowerTables() returns (pow: array<bv8>, log: array<nat>)
    ensures fresh(pow) && fresh(log) && PowLog(pow[..], log[..])
  {
    hide Power, Ix, Times3, Logged;
    pow := new bv8[256](_ => 0);
    log := new nat[256](_ => 0);
    var x: bv8 := 1;
    PowerStart();
    NothingLogged(log[..]);
    for i: nat := 0 to 256
      invariant x == Power(i)
      invariant forall j :: 0 <= j < i ==> pow[j] == Power(j)
      invariant Logged(log[..], i)
    {
      LogNext(log[..], i);
      pow[i] := x;
      log[Ix(x)] := i;
      x := Times3(x);
      PowerNext(i);
    }
    AllLogged(log[..]);
  }

  /** The first `n` powers have their exponents recorded. */
  ghost predicate Logged(log: seq<nat>, n: nat) {
    |log| == 256 && forall j :: 0 <= j < n ==> Ix(Power(j)) < 256 && IsLog(log[Ix(Power(j))], Power(j))
  }

  lemma NothingLogged(log: seq<nat>)
    requires |log| == 256
    ensures Logged(log, 0)
  {}

  lemma LogNext(log: seq<nat>, i: nat)
    requires Logged(log, i) && i < 256
    ensures Ix(Power(i)) < 256 && Logged(log[Ix(Power(i)) := i], i + 1)
  {
    hide Power, Ix;
    ByteOfIndex(Power(i));
    forall j | 0 <= j < i
      ensures Ix(Power(j)) == Ix(Power(i)) ==> Power(j) == Power(i)
    {
      ByteOfIndex(Power(j));
    }
  }

  lemma AllLogged(log: seq<nat>)
    requires Logged(log, 256)
    ensures forall b: bv8 :: b != 0 ==> Ix(b) < 256 && IsLog(log[Ix(b)], b)
  {
    hide Power, Ix;
    forall b: bv8 | b != 0
      ensures Ix(b) < 256 && IsLog(log[Ix(b)], b)
    {
      var j := PowersReach(b);
    }
  }

  lemma PowerStart()
    ensures Power(0) == 1
  {}

  lemma PowerNext(i: nat)
    ensures Power(i + 1) == Times3(Power(i))
  {
    hide Times3;
  }

  /** The macro MUL, through the two tables. */
  function Mul(pow: seq<bv8>, log: seq<nat>, x: bv8, y: bv8): (z: bv8)
    requires PowLog(pow, log)
    ensures z == Product(x, y)
  {
    hide Power, Product, Ix;
    ProductZero(x);
    ProductZero(y);
    if x != 0 && y != 0 then
      assert IsLog(log[Ix(x)], x) && IsLog(log[Ix(y)], y);
      PowerSum(log[Ix(x)], log[Ix(y)]);
      PowerWraps(log[Ix(x)] + log[Ix(y)]);
      pow[(log[Ix(x)] + log[Ix(y)]) % 255]
    else 0
  }

  // ----------------------------------------------------------- the S-boxes

  /** Entry `j` of both S-boxes. */
  ghost predicate Boxed(fsb: seq<bv8>, rsb: seq<bv8>, j: nat)
    requires |fsb| == 256 && |rsb| == 256 && j < 256
  {
    fsb[j] == SBox(ToByte(j)) && Ix(fsb[j]) < 256 && rsb[Ix(fsb[j])] == ToByte(j)
  }

  /** Loading the pair for one byte leaves the pairs of the others. */
  lemma KeepBoxed(fsb: seq<bv8>, rsb: seq<bv8>, i: nat, j: nat)
    requires |fsb| == 256 && |rsb| == 256 && i < 256 && j < 256 && i != j && Boxed(fsb, rsb, j)
    ensures Ix(SBox(ToByte(i))) < 256
    ensures Boxed(fsb[i := SBox(ToByte(i))], rsb[Ix(SBox(ToByte(i))) := ToByte(i)], j)
  {
    hide SBox, Ix, ToByte;
    ByteOfIndex(SBox(ToByte(i)));
    ByteOfIndex(SBox(ToByte(j)));
    IndexOfByte(i);
    IndexOfByte(j);
    if Ix(SBox(ToByte(i))) == Ix(SBox(ToByte(j))) { SBoxInjective(ToByte(i), ToByte(j)); }
  }

  lemma SBoxByLog(b: bv8, l: nat)
    requires b != 0 && IsLog(l, b)
    ensures CodeAffine(Power(255 - l)) == SBox(b)
  {
    hide Power, Product, CodeAffine, Affine, Inverse;
    InverseByPower(l);
    InverseIs(b, Power(255 - l));
    CodeAffineIsAffine(Power(255 - l));
  }

  lemma SBoxZero()
    ensures SBox(0) == 0x63
  {
    AffineZero();
    hide Affine;
  }

  lemma AffineZero()
    ensures Affine(0) == 0x63
  {}

  method FillBoxes(fsb: array<bv8>, rsb: array<bv8>, pow: seq<bv8>, log: seq<nat>)
    requires fsb.Length == 256 && rsb.Length == 256 && fsb != rsb && PowLog(pow, log)
    modifies fsb, rsb
    ensures forall j :: 0 <= j < 256 ==> Boxed(fsb[..], rsb[..], j)
  {
    hide SBox, Ix, Power, CodeAffine, ToByte, Boxed;
    FirstBox(fsb, rsb);
    for i: nat := 1 to 256
      invariant forall j :: 0 <= j < i ==> Boxed(fsb[..], rsb[..], j)
    {
      var x := NextBox(i, pow, log);
      ghost var f, r := fsb[..], rsb[..];
      ByteOfIndex(x);
      fsb[i] := x;
      rsb[Ix(x)] := ToByte(i);
      assert fsb[..] == f[i := x] && rsb[..] == r[Ix(x) := ToByte(i)];
      NewBox(fsb[..], rsb[..], i);
      forall j | 0 <= j < i
        ensures Boxed(fsb[..], rsb[..], j)
      {
        KeepBoxed(f, r, i, j);
      }
    }
  }

  lemma NewBox(fsb: seq<bv8>, rsb: seq<bv8>, i: nat)
    requires |fsb| == 256 && |rsb| == 256 && i < 256 && fsb[i] == SBox(ToByte(i))
    requires Ix(fsb[i]) < 256 && rsb[Ix(fsb[i])] == ToByte(i)
    ensures Boxed(fsb, rsb, i)
  {}

  method FirstBox(fsb: array<bv8>, rsb: array<bv8>)
    requires fsb.Length == 256 && rsb.Length == 256 && fsb != rsb
    modifies fsb, rsb
    ensures Boxed(fsb[..], rsb[..], 0)
  {
    hide SBox, Ix, ToByte;
    SBoxZero();
    ZeroIndex();
    ByteOfIndex(0);
    IndexOfByte(0x63);
    ByteOfIndex(0x63);
    fsb[0] := 0x63;
    rsb[Ix(0x63)] := 0;
  }

  method NextBox(i: nat, pow: seq<bv8>, log: seq<nat>) returns (x: bv8)
    requires 0 < i < 256 && PowLog(pow, log)
    ensures x == SBox(ToByte(i))
  {
    hide SBox, Ix, Power, CodeAffine, ToByte;
    IndexOfByte(i);
    ZeroIndex();
    assert ToByte(i) != 0;
    assert IsLog(log[Ix(ToByte(i))], ToByte(i));
    SBoxByLog(ToByte(i), log[i]);
    x := CodeAffine(pow[255 - log[i]]);
  }

  lemma BothBoxes(fsb: seq<bv8>, rsb: seq<bv8>, b: bv8)
    requires |fsb| == 256 && |rsb| == 256 && forall j :: 0 <= j < 256 ==> Boxed(fsb, rsb, j)
    ensures Ix(b) < 256 && fsb[Ix(b)] == SBox(b) && rsb[Ix(b)] == InvSBox(b)
  {
    hide SBox, Ix, ToByte;
    ByteOfIndex(b);
    assert Boxed(fsb, rsb, Ix(b));
    var x := InvSBox(b);
    ByteOfIndex(x);
    assert Boxed(fsb, rsb, Ix(x));
  }

  // ------------------------------------------------------- the whole set

  /** An entry and its three rotations. */
  ghost predicate Rotations(t0: Col, t1: Col, t2: Col, t3: Col, entry: Col) {
    t0 == entry && t1 == Rot(entry) && t2 == Rot(Rot(entry)) && t3 == Rot(Rot(Rot(entry)))
  }

  /** The static tables of the cipher. */
  class Tables {
    /** `aes_init_done`. */
    var done: bool

    const fsb: array<bv8>
    const rsb: array<bv8>
    const rcon: array<Col>
    const ft0: array<Col>
    const ft1: array<Col>
    const ft2: array<Col>
    const ft3: array<Col>
    const rt0: array<Col>
    const rt1: array<Col>
    const rt2: array<Col>
    const rt3: array<Col>

    ghost function Boxes(): set<object> {
      {fsb, rsb}
    }

    ghost function Entries(): set<object> {
      {rcon, ft0, ft1, ft2, ft3, rt0, rt1, rt2, rt3}
    }

    ghost function Arrays(): set<object> {
      Boxes() + Entries()
    }

    ghost predicate Shaped()
    {
      && fsb.Length == rsb.Length == ft0.Length == ft1.Length == ft2.Length == ft3.Length == 256
      && rt0.Length == rt1.Length == rt2.Length == rt3.Length == 256
      && rcon.Length == 10
      && fsb != rsb
      && rcon !in {ft0, ft1, ft2, ft3, rt0, rt1, rt2, rt3}
      && ft0 !in {ft1, ft2, ft3, rt0, rt1, rt2, rt3}
      && ft1 !in {ft2, ft3, rt0, rt1, rt2, rt3}
      && ft2 !in {ft3, rt0, rt1, rt2, rt3}
      && ft3 !in {rt0, rt1, rt2, rt3}
      && rt0 !in {rt1, rt2, rt3} && rt1 !in {rt2, rt3} && rt2 != rt3
      && Boxes() !! Entries()
    }

    ghost predicate BoxesReady()
      requires Shaped()
      reads Arrays()
    {
      forall b: bv8 :: Ix(b) < 256 && fsb[Ix(b)] == SBox(b) && rsb[Ix(b)] == InvSBox(b)
    }

    ghost predicate EntryReady(i: nat)
      requires Shaped() && i < 256
      reads Arrays()
    {
      Rotations(ft0[i], ft1[i], ft2[i], ft3[i], Forward(fsb[i])) && Rotations(rt0[i], rt1[i], rt2[i], rt3[i], Reverse(rsb[i]))
    }

    /** Every table holds what FIPS 197 needs there. */
    ghost predicate Ready()
      reads Arrays()
    {
      && Shaped()
      && BoxesReady()
      && (forall i :: 0 <= i < 256 ==> EntryReady(i))
      && (forall i :: 0 <= i < 10 ==> rcon[i] == Col(RoundConstant(i), 0, 0, 0))
    }

    constructor ()
      ensures Shaped() && fresh(Arrays()) && !done
    {
      done := false;
      fsb := new bv8[256](_ => 0);
      rsb := new bv8[256](_ => 0);
      rcon := new Col[10](_ => ZERO);
      ft0 := new Col[256](_ => ZERO);
      ft1 := new Col[256](_ => ZERO);
      ft2 := new Col[256](_ => ZERO);
      ft3 := new Col[256](_ => ZERO);
      rt0 := new Col[256](_ => ZERO);
      rt1 := new Col[256](_ => ZERO);
      rt2 := new Col[256](_ => ZERO);
      rt3 := new Col[256](_ => ZERO);
    }

    method FillConstants()
      requires Shaped()
      modifies rcon
      ensures forall i :: 0 <= i < 10 ==> rcon[i] == Col(RoundConstant(i), 0, 0, 0)
    {
      hide XTime;
      var x: bv8 := 1;
      for i: nat := 0 to 10
        invariant x == RoundConstant(i)
        invariant forall j :: 0 <= j < i ==> rcon[j] == Col(RoundConstant(j), 0, 0, 0)
      {
        rcon[i] := Col(x, 0, 0, 0);
        x := XTime(x);
      }
    }

    method FillForward(i: nat)
      requires Shaped() && i < 256
      modifies ft0, ft1, ft2, ft3
      ensures Rotations(ft0[i], ft1[i], ft2[i], ft3[i], Forward(fsb[i]))
      ensures forall j :: 0 <= j < 256 && j != i ==> ft0[j] == old(ft0[j]) && ft1[j] == old(ft1[j]) && ft2[j] == old(ft2[j]) && ft3[j] == old(ft3[j])
    {
      hide XTime, Plus, Rot;
      var x := fsb[i];
      var y := XTime(x);
      var z := Plus(y, x);
      ft0[i] := Col(y, x, x, z);
      ft1[i] := Rot(ft0[i]);
      ft2[i] := Rot(ft1[i]);
      ft3[i] := Rot(ft2[i]);
    }

    method FillReverse(i: nat, pow: seq<bv8>, log: seq<nat>)
      requires Shaped() && i < 256 && PowLog(pow, log)
      modifies rt0, rt1, rt2, rt3
      ensures Rotations(rt0[i], rt1[i], rt2[i], rt3[i], Reverse(rsb[i]))
      ensures forall j :: 0 <= j < 256 && j != i ==> rt0[j] == old(rt0[j]) && rt1[j] == old(rt1[j]) && rt2[j] == old(rt2[j]) && rt3[j] == old(rt3[j])
    {
      hide Product, Rot, PowLog, Mul;
      var x := rsb[i];
      rt0[i] := Col(Mul(pow, log, 0x0E, x), Mul(pow, log, 0x09, x), Mul(pow, log, 0x0D, x), Mul(pow, log, 0x0B, x));
      rt1[i] := Rot(rt0[i]);
      rt2[i] := Rot(rt1[i]);
      rt3[i] := Rot(rt2[i]);
    }

    method FillEntries(pow: seq<bv8>, log: seq<nat>)
      requires Shaped() && PowLog(pow, log)
      modifies ft0, ft1, ft2, ft3, rt0, rt1, rt2, rt3
      ensures forall i :: 0 <= i < 256 ==> Rotations(ft0[i], ft1[i], ft2[i], ft3[i], Forward(fsb[i]))
      ensures forall i :: 0 <= i < 256 ==> Rotations(rt0[i], rt1[i], rt2[i], rt3[i], Reverse(rsb[i]))
    {
      hide PowLog, Rotations, Forward, Reverse;
      for i: nat := 0 to 256
        invariant forall j :: 0 <= j < i ==> Rotations(ft0[j], ft1[j], ft2[j], ft3[j], Forward(fsb[j]))
        invariant forall j :: 0 <= j < i ==> Rotations(rt0[j], rt1[j], rt2[j], rt3[j], Reverse(rsb[j]))
      {
        FillForward(i);
        FillReverse(i, pow, log);
      }
    }

    /** `aes_gen_tables`. */
    method GenTables()
      requires Shaped()
      modifies Arrays()
      ensures Ready()
    {
      hide Boxed, PowLog, Rotations, Forward, Reverse, SBox, RoundConstant, Ix;
      var pow, log := PowerTables();
      FillBoxes(fsb, rsb, pow[..], log[..]);
      forall b: bv8
        ensures Ix(b) < 256 && fsb[Ix(b)] == SBox(b) && rsb[Ix(b)] == InvSBox(b)
      {
        BothBoxes(fsb[..], rsb[..], b);
      }
      FillEntries(pow[..], log[..]);
      FillConstants();
    }

    /** The tables are generated once, on first use. */
    method Prepare()
      requires Shaped() && (done ==> Ready())
      modifies this, Arrays()
      ensures done && Ready()
    {
      hide Ready;
      if !done {
        GenTables();
        done := true;
      }
    }
  }
}
