/** Columns of the AES state, and the two column mixings of FIPS 197. */
module Columns {
  import opened Field
  import opened Gf

  /** Four bytes of a column: a little-endian 32-bit word of the code. */
  datatype Col = Col(b0: bv8, b1: bv8, b2: bv8, b3: bv8)

  const ZERO: Col := Col(0, 0, 0, 0)

  function Xor(c: Col, d: Col): Col {
    Col(Plus(c.b0, d.b0), Plus(c.b1, d.b1), Plus(c.b2, d.b2), Plus(c.b3, d.b3))
  }

  /** The macro ROTL8: byte 3 of the word becomes byte 0. */
  function Rot(c: Col): Col {
    Col(c.b3, c.b0, c.b1, c.b2)
  }

  function Sum4(a: bv8, b: bv8, c: bv8, d: bv8): bv8 {
    Plus(Plus(a, b), Plus(c, d))
  }

  /** MixColumns on one column, section 5.1.3 of FIPS 197. */
  function Mix(c: Col): Col {
    Col(Sum4(Product(2, c.b0), Product(3, c.b1), c.b2, c.b3),
        Sum4(c.b0, Product(2, c.b1), Product(3, c.b2), c.b3),
        Sum4(c.b0, c.b1, Product(2, c.b2), Product(3, c.b3)),
        Sum4(Product(3, c.b0), c.b1, c.b2, Product(2, c.b3)))
  }

  /** InvMixColumns on one column, section 5.3.3 of FIPS 197. */
  function InvMix(c: Col): Col {
    Col(Sum4(Product(0x0E, c.b0), Product(0x0B, c.b1), Product(0x0D, c.b2), Product(0x09, c.b3)),
        Sum4(Product(0x09, c.b0), Product(0x0E, c.b1), Product(0x0B, c.b2), Product(0x0D, c.b3)),
        Sum4(Product(0x0D, c.b0), Product(0x09, c.b1), Product(0x0E, c.b2), Product(0x0B, c.b3)),
        Sum4(Product(0x0B, c.b0), Product(0x0D, c.b1), Product(0x09, c.b2), Product(0x0E, c.b3)))
  }

  // ------------------------------------------------------------ column algebra

  lemma XorCancel(c: Col, d: Col)
    ensures Xor(Xor(c, d), d) == c && Xor(c, d) == Xor(d, c) && Xor(c, ZERO) == c
  {
    hide Plus;
    PlusCancel(c.b0, d.b0);
    PlusCancel(c.b1, d.b1);
    PlusCancel(c.b2, d.b2);
    PlusCancel(c.b3, d.b3);
  }

  lemma PlusCancel(a: bv8, b: bv8)
    ensures Plus(Plus(a, b), b) == a && Plus(a, b) == Plus(b, a) && Plus(a, 0) == a
  {
    PlusComm(a, b);
    PlusZero(a);
    PlusZero(b);
    PlusAssoc(a, b, b);
    hide Plus;
  }

  lemma XorAssoc(c: Col, d: Col, e: Col)
    ensures Xor(Xor(c, d), e) == Xor(c, Xor(d, e))
  {
    hide Plus;
    PlusAssoc(c.b0, d.b0, e.b0);
    PlusAssoc(c.b1, d.b1, e.b1);
    PlusAssoc(c.b2, d.b2, e.b2);
    PlusAssoc(c.b3, d.b3, e.b3);
  }

  lemma Sum4Linear(a: bv8, b: bv8, c: bv8, d: bv8, e: bv8, f: bv8, g: bv8, h: bv8)
    ensures Sum4(Plus(a, e), Plus(b, f), Plus(c, g), Plus(d, h)) == Plus(Sum4(a, b, c, d), Sum4(e, f, g, h))
  {
    hide Plus;
    Shuffle(a, e, b, f);
    Shuffle(c, g, d, h);
    Shuffle(Plus(a, b), Plus(e, f), Plus(c, d), Plus(g, h));
  }

  lemma InvMixLinear(c: Col, d: Col)
    ensures InvMix(Xor(c, d)) == Xor(InvMix(c), InvMix(d))
  {
    hide Plus, Product, Sum4;
    forall k: bv8
      ensures Product(k, Plus(c.b0, d.b0)) == Plus(Product(k, c.b0), Product(k, d.b0))
      ensures Product(k, Plus(c.b1, d.b1)) == Plus(Product(k, c.b1), Product(k, d.b1))
      ensures Product(k, Plus(c.b2, d.b2)) == Plus(Product(k, c.b2), Product(k, d.b2))
      ensures Product(k, Plus(c.b3, d.b3)) == Plus(Product(k, c.b3), Product(k, d.b3))
    {
      ProductLinear(k, c.b0, d.b0);
      ProductLinear(k, c.b1, d.b1);
      ProductLinear(k, c.b2, d.b2);
      ProductLinear(k, c.b3, d.b3);
    }
    RowLinear(0x0E, 0x0B, 0x0D, 0x09, c, d);
    RowLinear(0x09, 0x0E, 0x0B, 0x0D, c, d);
    RowLinear(0x0D, 0x09, 0x0E, 0x0B, c, d);
    RowLinear(0x0B, 0x0D, 0x09, 0x0E, c, d);
  }

  lemma RowLinear(k0: bv8, k1: bv8, k2: bv8, k3: bv8, c: Col, d: Col)
    ensures Sum4(Plus(Product(k0, c.b0), Product(k0, d.b0)), Plus(Product(k1, c.b1), Product(k1, d.b1)),
                 Plus(Product(k2, c.b2), Product(k2, d.b2)), Plus(Product(k3, c.b3), Product(k3, d.b3)))
            == Plus(Sum4(Product(k0, c.b0), Product(k1, c.b1), Product(k2, c.b2), Product(k3, c.b3)),
                    Sum4(Product(k0, d.b0), Product(k1, d.b1), Product(k2, d.b2), Product(k3, d.b3)))
  {
    hide Plus, Product;
    Sum4Linear(Product(k0, c.b0), Product(k1, c.b1), Product(k2, c.b2), Product(k3, c.b3),
               Product(k0, d.b0), Product(k1, d.b1), Product(k2, d.b2), Product(k3, d.b3));
  }

  // ------------------------------------------------------ tables as columns

  /** What the forward table holds for the substituted byte `x`. */
  function Forward(x: bv8): Col {
    Col(XTime(x), x, x, Plus(XTime(x), x))
  }

  /** What the reverse table holds for the substituted byte `x`. */
  function Reverse(x: bv8): Col {
    Col(Product(0x0E, x), Product(0x09, x), Product(0x0D, x), Product(0x0B, x))
  }

  /** Four table columns, rotated into place and added. */
  function Spread(c0: Col, c1: Col, c2: Col, c3: Col): Col {
    Xor(Xor(c0, Rot(c1)), Xor(Rot(Rot(c2)), Rot(Rot(Rot(c3)))))
  }

  lemma SmallProducts(x: bv8)
    ensures Product(1, x) == x && Product(2, x) == XTime(x) && Product(3, x) == Plus(XTime(x), x)
  {
    ProductOne(x);
    hide Times3, Product;
    TimesTwo(x);
  }

  /** Four forward lookups mix a column. */
  lemma ForwardIsMix(c: Col)
    ensures Spread(Forward(c.b0), Forward(c.b1), Forward(c.b2), Forward(c.b3)) == Mix(c)
  {
    SmallProducts(c.b0);
    SmallProducts(c.b1);
    SmallProducts(c.b2);
    SmallProducts(c.b3);
    hide Plus, Product, XTime;
  }

  lemma ReverseIsInvMix(c: Col)
    ensures Spread(Reverse(c.b0), Reverse(c.b1), Reverse(c.b2), Reverse(c.b3)) == InvMix(c)
  {
    hide Plus, Product;
  }

  // ----------------------------------------------- the two mixings are inverse

  /** A row of InvMix applied to a forward table entry is one product. */
  lemma RowCombine(k0: bv8, k1: bv8, k2: bv8, k3: bv8, x: bv8)
    ensures Sum4(Product(k0, Product(2, x)), Product(k1, x), Product(k2, x), Product(k3, Product(3, x)))
            == Product(Sum4(Product(k0, 2), k1, k2, Product(k3, 3)), x)
  {
    hide Product, Plus;
    ProductAssoc(k0, 2, x);
    ProductAssoc(k3, 3, x);
    ProductFactor(Product(k0, 2), k1, x);
    ProductFactor(k2, Product(k3, 3), x);
    ProductFactor(Plus(Product(k0, 2), k1), Plus(k2, Product(k3, 3)), x);
  }

  lemma Row0()
    ensures Sum4(Product(0x0E, 2), 0x0B, 0x0D, Product(0x09, 3)) == 1
  {
    SmallTimes(0x0E);
    SmallTimes(0x09);
    hide Product;
  }

  lemma Row1()
    ensures Sum4(Product(0x09, 2), 0x0E, 0x0B, Product(0x0D, 3)) == 0
  {
    SmallTimes(0x09);
    SmallTimes(0x0D);
    hide Product;
  }

  lemma Row2()
    ensures Sum4(Product(0x0D, 2), 0x09, 0x0E, Product(0x0B, 3)) == 0
  {
    SmallTimes(0x0D);
    SmallTimes(0x0B);
    hide Product;
  }

  lemma Row3()
    ensures Sum4(Product(0x0B, 2), 0x0D, 0x09, Product(0x0E, 3)) == 0
  {
    SmallTimes(0x0B);
    SmallTimes(0x0E);
    hide Product;
  }

  lemma SmallTimes(x: bv8)
    ensures Product(x, 2) == XTime(x) && Product(x, 3) == Plus(XTime(x), x)
  {
    hide Product, XTime, Plus;
    SmallProducts(x);
    ProductComm(x, 2);
    ProductComm(x, 3);
  }

  function Single(x: bv8): Col {
    Col(x, 0, 0, 0)
  }

  lemma InvMixForward(x: bv8)
    ensures InvMix(Forward(x)) == Single(x)
  {
    hide Product, XTime, Plus, Sum4;
    SmallProducts(x);
    Row0();
    Row1();
    Row2();
    Row3();
    RowCombine(0x0E, 0x0B, 0x0D, 0x09, x);
    RowCombine(0x09, 0x0E, 0x0B, 0x0D, x);
    RowCombine(0x0D, 0x09, 0x0E, 0x0B, x);
    RowCombine(0x0B, 0x0D, 0x09, 0x0E, x);
    ProductOne(x);
    ProductZero(x);
  }

  lemma InvMixRot(c: Col)
    ensures InvMix(Rot(c)) == Rot(InvMix(c))
  {
    hide Product, Plus;
    RotSum(Product(0x0E, c.b0), Product(0x0B, c.b1), Product(0x0D, c.b2), Product(0x09, c.b3));
    RotSum(Product(0x09, c.b0), Product(0x0E, c.b1), Product(0x0B, c.b2), Product(0x0D, c.b3));
    RotSum(Product(0x0D, c.b0), Product(0x09, c.b1), Product(0x0E, c.b2), Product(0x0B, c.b3));
    RotSum(Product(0x0B, c.b0), Product(0x0D, c.b1), Product(0x09, c.b2), Product(0x0E, c.b3));
  }

  lemma RotSum(a: bv8, b: bv8, c: bv8, d: bv8)
    ensures Sum4(d, a, b, c) == Sum4(a, b, c, d)
  {
    hide Plus;
    PlusComm(d, a);
    PlusAssoc(a, d, Plus(b, c));
    PlusComm(d, Plus(b, c));
    PlusAssoc(b, c, d);
    PlusAssoc(a, b, Plus(c, d));
  }

  lemma InvMixSpread(c0: Col, c1: Col, c2: Col, c3: Col)
    ensures InvMix(Spread(c0, c1, c2, c3)) == Spread(InvMix(c0), InvMix(c1), InvMix(c2), InvMix(c3))
  {
    hide InvMix, Xor, Rot;
    InvMixRot(c1);
    InvMixRot(c2);
    InvMixRot(Rot(c2));
    InvMixRot(c3);
    InvMixRot(Rot(c3));
    InvMixRot(Rot(Rot(c3)));
    InvMixLinear(c0, Rot(c1));
    InvMixLinear(Rot(Rot(c2)), Rot(Rot(Rot(c3))));
    InvMixLinear(Xor(c0, Rot(c1)), Xor(Rot(Rot(c2)), Rot(Rot(Rot(c3)))));
  }

  /** InvMixColumns undoes MixColumns. */
  lemma InvMixMix(c: Col)
    ensures InvMix(Mix(c)) == c
  {
    hide InvMix, Mix, Forward, Plus;
    ForwardIsMix(c);
    InvMixSpread(Forward(c.b0), Forward(c.b1), Forward(c.b2), Forward(c.b3));
    InvMixForward(c.b0);
    InvMixForward(c.b1);
    InvMixForward(c.b2);
    InvMixForward(c.b3);
    PlusZero(c.b0);
    PlusZero(c.b1);
    PlusZero(c.b2);
    PlusZero(c.b3);
    PlusZero(0);
  }
}
