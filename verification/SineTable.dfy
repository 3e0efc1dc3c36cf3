/** The sine table of section 3.4 of RFC 1321: entry t is the integer part of 2^32 times
    abs(sin(t + 1)). Sine and cosine of one are what their alternating series enclose,
    those of n + 1 come from the addition theorems, and all bounds are rational. */
module SineTable {
  import opened Arith
  import opened Hash
  import Md5

  // ------------------------------------------------------- sines of integers

  function Factorial(n: nat): (f: nat)
    ensures f > 0
  {
    if n == 0 then 1 else n * Factorial(n - 1)
  }

  /** The first `n` terms of the series of sin 1, or of cos 1 when `odd` is 0. */
  function Series(n: nat, odd: nat): real {
    if n == 0 then 0.0
    else
      var term := 1.0 / Factorial(2 * (n - 1) + odd) as real;
      Series(n - 1, odd) + if n % 2 == 1 then term else 0.0 - term
  }

  /** Partial sums of an even number of terms lie below the limit, the others above. */
  ghost predicate Limit(v: real, odd: nat) {
    forall n: nat :: Series(2 * n, odd) <= v <= Series(2 * n + 1, odd)
  }

  datatype Angle = Angle(sin: real, cos: real)

  /** Sine and cosine of `n`, from those of one. */
  function Turned(one: Angle, n: nat): Angle {
    if n == 0 then Angle(0.0, 1.0)
    else
      var a := Turned(one, n - 1);
      Angle(Sum(a.sin, one.cos, a.cos, one.sin), Difference(a.cos, one.cos, a.sin, one.sin))
  }

  function Sum(v: real, p: real, w: real, q: real): real {
    v * p + w * q
  }

  function Difference(v: real, p: real, w: real, q: real): real {
    v * p - w * q
  }

  ghost predicate IsOne(one: Angle) {
    Limit(one.sin, 1) && Limit(one.cos, 0)
  }

  function Abs(v: real): real {
    if v < 0.0 then 0.0 - v else v
  }

  // ------------------------------------------------------------ enclosures

  /** 2^112, the unit of the bounds below. */
  const UNIT: int := 0x10000000000000000000000000000

  const SIN1: int := 0xD76AA47848677020C6E9E909C510
  const COS1: int := 0x8A51407DA8345C91C2466D976873

  predicate Within(v: real, n: int, e: int) {
    n as real - e as real <= v * UNIT as real <= n as real + e as real
  }

  /** One more term of a series, rounded down. */
  lemma AddTerm(n: nat, odd: nat, f: int, z: int, z': int)
    requires Factorial(2 * n + odd) == f && f > 0 && Within(Series(n, odd), z, n)
    requires z' == if n % 2 == 0 then z + UNIT / f else z - UNIT / f
    ensures Within(Series(n + 1, odd), z', n + 1)
  {
    SeriesNext(n, odd);
    hide Series, Factorial;
    var term := 1.0 / f as real;
    Quotient(UNIT, f, term);
    AddWithin(Series(n, odd), z, n, term, UNIT / f);
  }

  lemma SeriesNext(n: nat, odd: nat)
    ensures var term := 1.0 / Factorial(2 * n + odd) as real;
            Series(n + 1, odd) == Series(n, odd) + if n % 2 == 0 then term else 0.0 - term
  {
    hide Factorial;
  }

  lemma AddWithin(v: real, z: int, e: int, term: real, q: int)
    requires Within(v, z, e) && q as real <= term * UNIT as real < q as real + 1.0
    ensures Within(v + term, z + q, e + 1) && Within(v + (0.0 - term), z - q, e + 1)
  {}

  lemma NextFactorials(m: nat)
    ensures Factorial(m + 2) == Factorial(m) * (m + 1) * (m + 2)
  {
    assert Factorial(m + 1) == (m + 1) * Factorial(m);
    assert Factorial(m + 2) == (m + 2) * Factorial(m + 1);
  }

  lemma Quotient(u: nat, f: int, term: real)
    requires f > 0 && term == 1.0 / f as real
    ensures (u / f) as real <= term * u as real < (u / f) as real + 1.0
  {
    var q, r := u / f, f as real;
    DivMod(u, f);
    Inverse(r, term, u as real);
    QuotientReal(q, f, u, term * u as real);
  }

  lemma Inverse(r: real, term: real, u: real)
    requires r > 0.0 && term == 1.0 / r
    ensures term * u * r == u
  {
    assert term * r == 1.0;
    assert term * u * r == u * (term * r);
  }

  lemma QuotientReal(q: int, f: int, u: int, v: real)
    requires f > 0 && q * f <= u < q * f + f && v * f as real == u as real
    ensures q as real <= v < q as real + 1.0
  {
    assert (q * f) as real == q as real * f as real && (q * f + f) as real == (q as real + 1.0) * f as real;
    if v < q as real { MulReal(v, q as real, f as real); }
    if v >= q as real + 1.0 { MulReal(q as real + 1.0, v, f as real); }
  }

  lemma MulReal(a: real, b: real, c: real)
    requires c > 0.0
    ensures a <= b ==> a * c <= b * c
    ensures a < b ==> a * c < b * c
  {}

  ghost predicate Partial(n: nat, odd: nat, f: int, z: int) {
    Factorial(2 * n + odd) == f && Within(Series(n, odd), z, n)
  }

  lemma NextTerm(n: nat, odd: nat, f: int, z: int, f': int, z': int)
    requires Partial(n, odd, f, z) && f > 0 && f' == f * (2 * n + odd + 1) * (2 * n + odd + 2)
    requires z' == if n % 2 == 0 then z + UNIT / f else z - UNIT / f
    ensures Partial(n + 1, odd, f', z')
  {
    hide Factorial, Series;
    AddTerm(n, odd, f, z, z');
    NextFactorials(2 * n + odd);
  }

  lemma StartTerms()
    ensures Partial(0, 1, 1, 0) && Partial(0, 0, 1, 0)
  {
    assert Factorial(1) == 1 * Factorial(0);
  }

  lemma SineSeries()
    ensures Partial(18, 1, 13763753091226345046315979581580902400000000, SIN1) && Partial(19, 1, 20397882081197443358640281739902897356800000000, SIN1)
  {
    hide Partial;
    StartTerms();
    NextTerm(0, 1, 1, 0x0, 6, 0x10000000000000000000000000000);
    NextTerm(1, 1, 6, 0x10000000000000000000000000000, 120, 0xD555555555555555555555555556);
    NextTerm(2, 1, 120, 0xD555555555555555555555555556, 5040, 0xD777777777777777777777777778);
    NextTerm(3, 1, 5040, 0xD777777777777777777777777778, 362880, 0xD76A76A76A76A76A76A76A76A76B);
    NextTerm(4, 1, 362880, 0xD76A76A76A76A76A76A76A76A76B, 39916800, 0xD76AA4E331C154F8DDC6BFFA3887);
    NextTerm(5, 1, 39916800, 0xD76AA4E331C154F8DDC6BFFA3887, 6227020800, 0xD76AA47798ABB523CA38805D18F5);
    NextTerm(6, 1, 6227020800, 0xD76AA47798ABB523CA38805D18F5, 1307674368000, 0xD76AA478493DE5C10DA0CC42350E);
    NextTerm(7, 1, 1307674368000, 0xD76AA478493DE5C10DA0CC42350E, 355687428096000, 0xD76AA4784866A621D4030B49A64B);
    NextTerm(8, 1, 355687428096000, 0xD76AA4784866A621D4030B49A64B, 121645100408832000, 0xD76AA478486770B80F8490B3F9A4);
    NextTerm(9, 1, 121645100408832000, 0xD76AA478486770B80F8490B3F9A4, 51090942171709440000, 0xD76AA478486770206AAA5CA9EEEB);
    NextTerm(10, 1, 51090942171709440000, 0xD76AA478486770206AAA5CA9EEEB, 25852016738884976640000, 0xD76AA47848677020C718988562C0);
    NextTerm(11, 1, 25852016738884976640000, 0xD76AA47848677020C718988562C0, 15511210043330985984000000, 0xD76AA47848677020C6E9D51D3C94);
    NextTerm(12, 1, 15511210043330985984000000, 0xD76AA47848677020C6E9D51D3C94, 10888869450418352160768000000, 0xD76AA47848677020C6E9E9110971);
    NextTerm(13, 1, 10888869450418352160768000000, 0xD76AA47848677020C6E9E9110971, 8841761993739701954543616000000, 0xD76AA47848677020C6E9E909C2C5);
    NextTerm(14, 1, 8841761993739701954543616000000, 0xD76AA47848677020C6E9E909C2C5, 8222838654177922817725562880000000, 0xD76AA47848677020C6E9E909C510);
    NextTerm(15, 1, 8222838654177922817725562880000000, 0xD76AA47848677020C6E9E909C510, 8683317618811886495518194401280000000, 0xD76AA47848677020C6E9E909C510);
    NextTerm(16, 1, 8683317618811886495518194401280000000, 0xD76AA47848677020C6E9E909C510, 10333147966386144929666651337523200000000, 0xD76AA47848677020C6E9E909C510);
    NextTerm(17, 1, 10333147966386144929666651337523200000000, 0xD76AA47848677020C6E9E909C510, 13763753091226345046315979581580902400000000, 0xD76AA47848677020C6E9E909C510);
    NextTerm(18, 1, 13763753091226345046315979581580902400000000, 0xD76AA47848677020C6E9E909C510, 20397882081197443358640281739902897356800000000, 0xD76AA47848677020C6E9E909C510);
  }

  lemma CosineSeries()
    ensures Partial(18, 0, 371993326789901217467999448150835200000000, COS1) && Partial(19, 0, 523022617466601111760007224100074291200000000, COS1)
  {
    hide Partial;
    StartTerms();
    NextTerm(0, 0, 1, 0x0, 2, 0x10000000000000000000000000000);
    NextTerm(1, 0, 2, 0x10000000000000000000000000000, 24, 0x8000000000000000000000000000);
    NextTerm(2, 0, 24, 0x8000000000000000000000000000, 720, 0x8AAAAAAAAAAAAAAAAAAAAAAAAAAA);
    NextTerm(3, 0, 720, 0x8AAAAAAAAAAAAAAAAAAAAAAAAAAA, 40320, 0x8A4FA4FA4FA4FA4FA4FA4FA4FA4F);
    NextTerm(4, 0, 40320, 0x8A4FA4FA4FA4FA4FA4FA4FA4FA4F, 3628800, 0x8A51451451451451451451451450);
    NextTerm(5, 0, 3628800, 0x8A51451451451451451451451450, 479001600, 0x8A514074BD5736296DF79584B901);
    NextTerm(6, 0, 479001600, 0x8A514074BD5736296DF79584B901, 87178291200, 0x8A51407DB4C3AE25DA437027264D);
    NextTerm(7, 0, 87178291200, 0x8A51407DB4C3AE25DA437027264D, 20922789888000, 0x8A51407DA826F3D17A052196C8DE);
    NextTerm(8, 0, 20922789888000, 0x8A51407DA826F3D17A052196C8DE, 6402373705728000, 0x8A51407DA83467CB6D9EFDA651CA);
    NextTerm(9, 0, 6402373705728000, 0x8A51407DA83467CB6D9EFDA651CA, 2432902008176640000, 0x8A51407DA8345C8A316D20E7860D);
    NextTerm(10, 0, 2432902008176640000, 0x8A51407DA8345C8A316D20E7860D, 1124000727777607680000, 0x8A51407DA8345C91C67809E80696);
    NextTerm(11, 0, 1124000727777607680000, 0x8A51407DA8345C91C67809E80696, 620448401733239439360000, 0x8A51407DA8345C91C2447B8C9898);
    NextTerm(12, 0, 620448401733239439360000, 0x8A51407DA8345C91C2447B8C9898, 403291461126605635584000000, 0x8A51407DA8345C91C2466E5B9A2F);
    NextTerm(13, 0, 403291461126605635584000000, 0x8A51407DA8345C91C2466E5B9A2F, 304888344611713860501504000000, 0x8A51407DA8345C91C2466D972600);
    NextTerm(14, 0, 304888344611713860501504000000, 0x8A51407DA8345C91C2466D972600, 265252859812191058636308480000000, 0x8A51407DA8345C91C2466D976886);
    NextTerm(15, 0, 265252859812191058636308480000000, 0x8A51407DA8345C91C2466D976886, 263130836933693530167218012160000000, 0x8A51407DA8345C91C2466D976873);
    NextTerm(16, 0, 263130836933693530167218012160000000, 0x8A51407DA8345C91C2466D976873, 295232799039604140847618609643520000000, 0x8A51407DA8345C91C2466D976873);
    NextTerm(17, 0, 295232799039604140847618609643520000000, 0x8A51407DA8345C91C2466D976873, 371993326789901217467999448150835200000000, 0x8A51407DA8345C91C2466D976873);
    NextTerm(18, 0, 371993326789901217467999448150835200000000, 0x8A51407DA8345C91C2466D976873, 523022617466601111760007224100074291200000000, 0x8A51407DA8345C91C2466D976873);
  }

  lemma BoundsOfOne(one: Angle)
    requires IsOne(one)
    ensures Within(one.sin, SIN1, 19) && Within(one.cos, COS1, 19)
  {
    SineSeries();
    CosineSeries();
    hide Series, Factorial;
    assert Series(2 * 9, 1) <= one.sin <= Series(2 * 9 + 1, 1);
    assert Series(2 * 9, 0) <= one.cos <= Series(2 * 9 + 1, 0);
  }

  // ------------------------------------------------------------- the table

  /** Sine and cosine of `n`, up to `e` units. */
  ghost predicate Near(one: Angle, n: nat, x: int, y: int, e: int) {
    Within(Turned(one, n).sin, x, e) && Within(Turned(one, n).cos, y, e)
  }

  /** The same for products, in units of UNIT^2. */
  predicate Squared(v: real, n: int, d: int) {
    (n - d * UNIT) as real <= v * UNIT as real * UNIT as real <= (n + d * UNIT) as real
  }

  /** What rounding adds up to in a product of two enclosed numbers. */
  lemma ProductNear(v: real, x: int, e: int, w: real, z: int, d: int)
    requires Within(v, x, e) && Within(w, z, d) && Small(x, 0) && Small(z, d) && e >= 0 && d >= 0
    ensures Squared(v * w, x * z, e + d)
  {
    var u := UNIT as real;
    var p, q := v * u, w * u;
    var dp, dq := p - x as real, q - z as real;
    assert p * q == (x * z) as real + (dp * q + x as real * dq);
    Bounded(dp, q, e as real, u);
    Bounded(x as real, dq, u, d as real);
    assert v * w * u * u == p * q;
  }

  lemma Bounded(a: real, b: real, p: real, q: real)
    requires 0.0 - p <= a <= p && 0.0 - q <= b <= q
    ensures 0.0 - p * q <= a * b <= p * q
  {
    assert (p - a) * (q + b) >= 0.0 && (p + a) * (q - b) >= 0.0 && (p - a) * (q - b) >= 0.0 && (p + a) * (q + b) >= 0.0;
  }

  lemma SumNear(v: real, w: real, t: real, a: int, b: int, d: int, x': int)
    requires Squared(v, a, d) && Squared(w, b, d)
    requires a + b - UNIT <= x' * UNIT <= a + b + UNIT && t == v + w
    ensures Within(t, x', 2 * d + 1)
  {
    var u := UNIT as real;
    var p := t * u;
    assert p * u == v * u * u + w * u * u;
    var lo, hi := x' - (2 * d + 1), x' + (2 * d + 1);
    assert (lo * UNIT) as real <= p * u <= (hi * UNIT) as real;
    assert (lo * UNIT) as real == lo as real * u && (hi * UNIT) as real == hi as real * u;
    if p < lo as real { MulReal(p, lo as real, u); }
    if p > hi as real { MulReal(hi as real, p, u); }
  }

  /** One further: the addition theorems, with rounding. */
  lemma TurnNear(one: Angle, n: nat, x: int, y: int, e: nat, x': int, y': int)
    requires IsOne(one) && Near(one, n, x, y, e) && Small(x, 0) && Small(y, 0)
    requires x * COS1 + y * SIN1 - UNIT <= x' * UNIT <= x * COS1 + y * SIN1 + UNIT
    requires y * COS1 - x * SIN1 - UNIT <= y' * UNIT <= y * COS1 - x * SIN1 + UNIT
    ensures Near(one, n + 1, x', y', 2 * e + 39)
  {
    BoundsOfOne(one);
    Addition(one, n);
    OneSmall();
    hide IsOne, Turned, Within, Small, UNIT, SIN1, COS1, Sum, Difference;
    var a := Turned(one, n);
    SumOfProducts(a.sin, one.cos, a.cos, one.sin, x, COS1, y, SIN1, e, x');
    DifferenceOfProducts(a.cos, one.cos, a.sin, one.sin, y, COS1, x, SIN1, e, y');
  }

  predicate Small(x: int, d: int) {
    0 - UNIT <= x - d && x + d <= UNIT
  }

  lemma OneSmall()
    ensures Small(SIN1, 19) && Small(COS1, 19)
  {}

  lemma SumOfProducts(v: real, p: real, w: real, q: real, x: int, c: int, y: int, s: int, e: nat, x': int)
    requires Within(v, x, e) && Within(p, c, 19) && Within(w, y, e) && Within(q, s, 19)
    requires Small(x, 0) && Small(y, 0) && Small(c, 19) && Small(s, 19)
    requires x * c + y * s - UNIT <= x' * UNIT <= x * c + y * s + UNIT
    ensures Within(Sum(v, p, w, q), x', 2 * e + 39)
  {
    hide Within, Squared;
    ProductNear(v, x, e, p, c, 19);
    ProductNear(w, y, e, q, s, 19);
    SumNear(v * p, w * q, v * p + w * q, x * c, y * s, e + 19, x');
  }

  lemma DifferenceOfProducts(v: real, p: real, w: real, q: real, x: int, c: int, y: int, s: int, e: nat, x': int)
    requires Within(v, x, e) && Within(p, c, 19) && Within(w, y, e) && Within(q, s, 19)
    requires Small(x, 0) && Small(y, 0) && Small(c, 19) && Small(s, 19)
    requires x * c - y * s - UNIT <= x' * UNIT <= x * c - y * s + UNIT
    ensures Within(Difference(v, p, w, q), x', 2 * e + 39)
  {
    hide Within, Squared;
    ProductNear(v, x, e, p, c, 19);
    ProductNear(w, y, e, q, s, 19);
    NegateNear(w * q, y * s, e + 19);
    SumNear(v * p, 0.0 - w * q, v * p - w * q, x * c, 0 - y * s, e + 19, x');
  }

  lemma Addition(one: Angle, n: nat)
    ensures var a := Turned(one, n);
            Turned(one, n + 1) == Angle(Sum(a.sin, one.cos, a.cos, one.sin), Difference(a.cos, one.cos, a.sin, one.sin))
  {
    hide Sum, Difference;
  }

  lemma NegateNear(w: real, b: int, d: int)
    requires Squared(w, b, d)
    ensures Squared(0.0 - w, 0 - b, d)
  {}

  /** `k` is the integer part of 2^32 times abs(sin n). */
  ghost predicate IsPart(one: Angle, n: nat, k: nat) {
    k as real <= Abs(Turned(one, n).sin) * 4294967296.0 < k as real + 1.0
  }

  ghost predicate Entry(one: Angle, t: nat) {
    t < 64 && IsPart(one, t + 1, Md5.T(t) as nat)
  }

  function Magnitude(x: int): int {
    if x < 0 then 0 - x else x
  }

  lemma PartNear(one: Angle, n: nat, x: int, y: int, e: nat, k: nat)
    requires Near(one, n, x, y, e) && k * UNIT <= U32 * (Magnitude(x) - e) && U32 * (Magnitude(x) + e) < (k + 1) * UNIT
    ensures IsPart(one, n, k)
  {
    var v := Turned(one, n).sin;
    var u := UNIT as real;
    hide Turned;
    var m := if x < 0 then 0 - x else x;
    assert e <= m;
    assert (m - e) as real <= Abs(v) * u <= (m + e) as real;
    var p := Abs(v) * 4294967296.0;
    assert (k * UNIT) as real <= p * u < ((k + 1) * UNIT) as real;
    assert (k * UNIT) as real == k as real * u && ((k + 1) * UNIT) as real == (k as real + 1.0) * u;
    if p < k as real { MulReal(p, k as real, u); }
    if p >= k as real + 1.0 { MulReal(k as real + 1.0, p, u); }
  }

  ghost predicate HasEntry(t: nat, w: word) {
    t < 64 && Md5.T(t) == w
  }

  /** Entry `t`, and the angle of the next one. */
  lemma NextEntry(one: Angle, t: nat, x: int, y: int, e: nat, x': int, y': int, w: word, k: nat)
    requires IsOne(one) && Near(one, t, x, y, e) && Small(x, 0) && Small(y, 0) && HasEntry(t, w) && w as nat == k
    requires x * COS1 + y * SIN1 - UNIT <= x' * UNIT <= x * COS1 + y * SIN1 + UNIT
    requires y * COS1 - x * SIN1 - UNIT <= y' * UNIT <= y * COS1 - x * SIN1 + UNIT
    requires k * UNIT <= U32 * (Magnitude(x') - (2 * e + 39)) && U32 * (Magnitude(x') + (2 * e + 39)) < (k + 1) * UNIT
    ensures Near(one, t + 1, x', y', 2 * e + 39) && Entry(one, t)
  {
    hide IsOne, Near, Small, IsPart, Md5.T;
    TurnNear(one, t, x, y, e, x', y');
    PartNear(one, t + 1, x', y', 2 * e + 39, k);
  }

  lemma StartAngle(one: Angle)
    ensures Near(one, 0, 0, UNIT, 0)
  {}

  lemma Listed7()
    ensures HasEntry(0, 0xD76AA478) && HasEntry(1, 0xE8C7B756) && HasEntry(2, 0x242070DB) && HasEntry(3, 0xC1BDCEEE)
    ensures HasEntry(4, 0xF57C0FAF) && HasEntry(5, 0x4787C62A) && HasEntry(6, 0xA8304613) && HasEntry(7, 0xFD469501)
  {}

  lemma Listed15()
    ensures HasEntry(8, 0x698098D8) && HasEntry(9, 0x8B44F7AF) && HasEntry(10, 0xFFFF5BB1) && HasEntry(11, 0x895CD7BE)
    ensures HasEntry(12, 0x6B901122) && HasEntry(13, 0xFD987193) && HasEntry(14, 0xA679438E) && HasEntry(15, 0x49B40821)
  {}

  lemma Listed23()
    ensures HasEntry(16, 0xF61E2562) && HasEntry(17, 0xC040B340) && HasEntry(18, 0x265E5A51) && HasEntry(19, 0xE9B6C7AA)
    ensures HasEntry(20, 0xD62F105D) && HasEntry(21, 0x02441453) && HasEntry(22, 0xD8A1E681) && HasEntry(23, 0xE7D3FBC8)
  {}

  lemma Listed31()
    ensures HasEntry(24, 0x21E1CDE6) && HasEntry(25, 0xC33707D6) && HasEntry(26, 0xF4D50D87) && HasEntry(27, 0x455A14ED)
    ensures HasEntry(28, 0xA9E3E905) && HasEntry(29, 0xFCEFA3F8) && HasEntry(30, 0x676F02D9) && HasEntry(31, 0x8D2A4C8A)
  {}

  lemma Listed39()
    ensures HasEntry(32, 0xFFFA3942) && HasEntry(33, 0x8771F681) && HasEntry(34, 0x6D9D6122) && HasEntry(35, 0xFDE5380C)
    ensures HasEntry(36, 0xA4BEEA44) && HasEntry(37, 0x4BDECFA9) && HasEntry(38, 0xF6BB4B60) && HasEntry(39, 0xBEBFBC70)
  {}

  lemma Listed47()
    ensures HasEntry(40, 0x289B7EC6) && HasEntry(41, 0xEAA127FA) && HasEntry(42, 0xD4EF3085) && HasEntry(43, 0x04881D05)
    ensures HasEntry(44, 0xD9D4D039) && HasEntry(45, 0xE6DB99E5) && HasEntry(46, 0x1FA27CF8) && HasEntry(47, 0xC4AC5665)
  {}

  lemma Listed55()
    ensures HasEntry(48, 0xF4292244) && HasEntry(49, 0x432AFF97) && HasEntry(50, 0xAB9423A7) && HasEntry(51, 0xFC93A039)
    ensures HasEntry(52, 0x655B59C3) && HasEntry(53, 0x8F0CCC92) && HasEntry(54, 0xFFEFF47D) && HasEntry(55, 0x85845DD1)
  {}

  lemma Listed63()
    ensures HasEntry(56, 0x6FA87E4F) && HasEntry(57, 0xFE2CE6E0) && HasEntry(58, 0xA3014314) && HasEntry(59, 0x4E0811A1)
    ensures HasEntry(60, 0xF7537E82) && HasEntry(61, 0xBD3AF235) && HasEntry(62, 0x2AD7D2BB) && HasEntry(63, 0xEB86D391)
  {}

  lemma Entries8(one: Angle)
    requires IsOne(one)
    ensures Near(one, 8, 0xFD469501467BD74FB15853828471, -0x253F7D7EC65F271EC91F976AFBD9, 0x26D9)
    ensures Entry(one, 0) && Entry(one, 1) && Entry(one, 2) && Entry(one, 3) && Entry(one, 4) && Entry(one, 5) && Entry(one, 6) && Entry(one, 7)
  {
    hide IsOne, Near, Entry, HasEntry;
    StartAngle(one);
    Listed7();
    NextEntry(one, 0, 0x0, 0x10000000000000000000000000000, 0x0, 0xD76AA47848677020C6E9E909C510, 0x8A51407DA8345C91C2466D976873, 0xD76AA478, 0xD76AA478);
    NextEntry(one, 1, 0xD76AA47848677020C6E9E909C510, 0x8A51407DA8345C91C2466D976873, 0x27, 0xE8C7B7568DA22EFD5C240C4004E7, -0x6A88995D4DC81290CCBE2B2EDCAD, 0xE8C7B756, 0xE8C7B756);
    NextEntry(one, 2, 0xE8C7B7568DA22EFD5C240C4004E7, -0x6A88995D4DC81290CCBE2B2EDCAD, 0x75, 0x242070DB6DAAB69E3902E8468316, -0xFD7025F42F2E9307DFF82FDF6A74, 0x242070DB, 0x242070DB);
    NextEntry(one, 3, 0x242070DB6DAAB69E3902E8468316, -0xFD7025F42F2E9307DFF82FDF6A74, 0x111, -0xC1BDCEEEE0F5738674C02AD0722C, -0xA7553036D926062336D0E16E3DDA, 0xC1BDCEEE, 0xC1BDCEEE);
    NextEntry(one, 4, -0xC1BDCEEEE0F5738674C02AD0722C, -0xA7553036D926062336D0E16E3DDA, 0x249, -0xF57C0FAF04C999135789F2AB1DEB, 0x489E15C1AD2B654F99F75A35EE5F, 0xF57C0FAF, 0xF57C0FAF);
    NextEntry(one, 5, -0xF57C0FAF04C999135789F2AB1DEB, 0x489E15C1AD2B654F99F75A35EE5F, 0x4B9, -0x4787C62AC28B00E989105113D28F, 0xF5CDB84BC117ABD74F1E700074B0, 0x4787C62A, 0x4787C62A);
    NextEntry(one, 6, -0x4787C62AC28B00E989105113D28F, 0xF5CDB84BC117ABD74F1E700074B0, 0x999, 0xA83046136850421DD444208FD77A, 0xC0FFBCF6C900BAAFBD68C5A99D5F, 0xA8304613, 0xA8304613);
    NextEntry(one, 7, 0xA83046136850421DD444208FD77A, 0xC0FFBCF6C900BAAFBD68C5A99D5F, 0x1359, 0xFD469501467BD74FB15853828471, -0x253F7D7EC65F271EC91F976AFBD9, 0xFD469501, 0xFD469501);
  }

  lemma Entries16(one: Angle)
    requires IsOne(one)
    ensures Near(one, 16, -0x49B408217C83DF90508B20B008B1, -0xF5292BF4B17B9EB61A3FF42C135A, 0x26FFD9)
    ensures Entry(one, 8) && Entry(one, 9) && Entry(one, 10) && Entry(one, 11) && Entry(one, 12) && Entry(one, 13) && Entry(one, 14) && Entry(one, 15)
  {
    hide IsOne, Near, Entry, HasEntry;
    Entries8(one);
    Listed15();
    NextEntry(one, 8, 0xFD469501467BD74FB15853828471, -0x253F7D7EC65F271EC91F976AFBD9, 0x26D9, 0x698098D830BE42487274A8291C71, -0xE93FD53530CB5B8268BB2E8949B2, 0x698098D8, 0x698098D8);
    NextEntry(one, 9, 0x698098D830BE42487274A8291C71, -0xE93FD53530CB5B8268BB2E8949B2, 0x4DD9, -0x8B44F7AF9A7A92CE7FB22BE024E4, -0xD6CD64486358F904F7E2A0B9995C, 0x8B44F7AF, 0x8B44F7AF);
    NextEntry(one, 10, -0x8B44F7AF9A7A92CE7FB22BE024E4, -0xD6CD64486358F904F7E2A0B9995C, 0x9BD9, -0xFFFF5BB1749F56AD6387C28327F2, 0x1220AE41EE2FDF5FC5E106E5EF6, 0xFFFF5BB1, 0xFFFF5BB1);
    NextEntry(one, 11, -0xFFFF5BB1749F56AD6387C28327F2, 0x1220AE41EE2FDF5FC5E106E5EF6, 0x137D9, -0x895CD7BEBB2D2A4E0F2853FA36E6, 0xD806D0235B2F15A0219BBC9EAC6E, 0x895CD7BE, 0x895CD7BE);
    NextEntry(one, 12, -0x895CD7BEBB2D2A4E0F2853FA36E6, 0xD806D0235B2F15A0219BBC9EAC6E, 0x26FD9, 0x6B90112207141869F4A73ECE8A8C, 0xE84E6EA93065B972C93B83E796E3, 0x6B901122, 0x6B901122);
    NextEntry(one, 13, 0x6B90112207141869F4A73ECE8A8C, 0xE84E6EA93065B972C93B83E796E3, 0x4DFD9, 0xFD987193E2F224EA5BB0EE037BD2, 0x230135D85941D937074718A53657, 0xFD987193, 0xFD987193);
    NextEntry(one, 14, 0xFD987193E2F224EA5BB0EE037BD2, 0x230135D85941D937074718A53657, 0x9BFD9, 0xA679438E761742E95C9A4E9399A7, -0xC27AE834E5279535596857A485F2, 0xA679438E, 0xA679438E);
    NextEntry(one, 15, 0xA679438E761742E95C9A4E9399A7, -0xC27AE834E5279535596857A485F2, 0x137FD9, -0x49B408217C83DF90508B20B008B1, -0xF5292BF4B17B9EB61A3FF42C135A, 0x49B40821, 0x49B40821);
  }

  lemma Entries24(one: Angle)
    requires IsOne(one)
    ensures Near(one, 24, -0xE7D3FBC8C8A074802CF40DD35470, 0x6C96FED4298267839D6E080F4FEE, 0x26FFFFD9)
    ensures Entry(one, 16) && Entry(one, 17) && Entry(one, 18) && Entry(one, 19) && Entry(one, 20) && Entry(one, 21) && Entry(one, 22) && Entry(one, 23)
  {
    hide IsOne, Near, Entry, HasEntry;
    Entries16(one);
    Listed23();
    NextEntry(one, 16, -0x49B408217C83DF90508B20B008B1, -0xF5292BF4B17B9EB61A3FF42C135A, 0x26FFD9, -0xF61E256214415B768A021D600D89, -0x46711AC1FD639B8C54E4935C78C1, 0xF61E2562, 0xF61E2562);
    NextEntry(one, 17, -0xF61E256214415B768A021D600D89, -0x46711AC1FD639B8C54E4935C78C1, 0x4DFFD9, -0xC040B34098F1339DABD109367F13, 0xA90A840AE9237DD4213821F1A2DD, 0xC040B340, 0xC040B340);
    NextEntry(one, 18, -0xC040B34098F1339DABD109367F13, 0xA90A840AE9237DD4213821F1A2DD, 0x9BFFD9, 0x265E5A51EB099D08E4BABCC6306F, 0xFD1BBEF08412C2B81854B959C792, 0x265E5A51, 0x265E5A51);
    NextEntry(one, 19, 0x265E5A51EB099D08E4BABCC6306F, 0xFD1BBEF08412C2B81854B959C792, 0x137FFD9, 0xE9B6C7AAE9E6FF24AFC0510A4798, 0x687810E592A0FDD15713934C6006, 0xE9B6C7AA, 0xE9B6C7AA);
    NextEntry(one, 20, 0xE9B6C7AAE9E6FF24AFC0510A4798, 0x687810E592A0FDD15713934C6006, 0x26FFFD9, 0xD62F105D86BF656AFCD82F211A91, -0x8C37FC1BB9BACB2EA76B817AB5C3, 0xD62F105D, 0xD62F105D);
    NextEntry(one, 21, 0xD62F105D86BF656AFCD82F211A91, -0x8C37FC1BB9BACB2EA76B817AB5C3, 0x4DFFFD9, -0x2441453EDD73E7ABED1D0EFCAB2, -0xFFFD6EC6A566D00FB595506DB782, 0x02441453, 0x02441453);
    NextEntry(one, 22, -0x2441453EDD73E7ABED1D0EFCAB2, -0xFFFD6EC6A566D00FB595506DB782, 0x9BFFFD9, -0xD8A1E68123E80FD8AD1E71E4B31F, -0x8867BEAC8F93925E43C2C84723C6, 0xD8A1E681, 0xD8A1E681);
    NextEntry(one, 23, -0xD8A1E68123E80FD8AD1E71E4B31F, -0x8867BEAC8F93925E43C2C84723C6, 0x137FFFD9, -0xE7D3FBC8C8A074802CF40DD35470, 0x6C96FED4298267839D6E080F4FEE, 0xE7D3FBC8, 0xE7D3FBC8);
  }

  lemma Entries32(one: Angle)
    requires IsOne(one)
    ensures Near(one, 32, 0x8D2A4C8A132B2D72B25F0B534507, 0xD58FA982EF4729C7752D6DEB9D6A, 0x26FFFFFFD9)
    ensures Entry(one, 24) && Entry(one, 25) && Entry(one, 26) && Entry(one, 27) && Entry(one, 28) && Entry(one, 29) && Entry(one, 30) && Entry(one, 31)
  {
    hide IsOne, Near, Entry, HasEntry;
    Entries24(one);
    Listed31();
    NextEntry(one, 24, -0xE7D3FBC8C8A074802CF40DD35470, 0x6C96FED4298267839D6E080F4FEE, 0x26FFFFD9, -0x21E1CDE63D0139ED8F4376DEB8FF, 0xFDBF77ACA827F8C59393B6A10006, 0x21E1CDE6, 0x21E1CDE6);
    NextEntry(one, 25, -0x21E1CDE63D0139ED8F4376DEB8FF, 0xFDBF77ACA827F8C59393B6A10006, 0x4DFFFFD9, 0xC33707D6192C1B727F314F991B6F, 0xA59C81348D4F670AD3049797BDB6, 0xC33707D6, 0xC33707D6);
    NextEntry(one, 26, 0xC33707D6192C1B727F314F991B6F, 0xA59C81348D4F670AD3049797BDB6, 0x9BFFFFD9, 0xF4D50D872DD17EEB0BECDCFB3AB0, -0x4AC99BE5677B548675D31A66691F, 0xF4D50D87, 0xF4D50D87);
    NextEntry(one, 27, 0xF4D50D872DD17EEB0BECDCFB3AB0, -0x4AC99BE5677B548675D31A66691F, 0x137FFFFD9, 0x455A14ED1453563F922CC06D844E, -0xF66D568AC12800967ECCA1B940DC, 0x455A14ED, 0x455A14ED);
    NextEntry(one, 28, 0x455A14ED1453563F922CC06D844E, -0xF66D568AC12800967ECCA1B940DC, 0x26FFFFFD9, -0xA9E3E905364F354B0641AB7159A0, -0xBF80B2C18A723BB945719ECD5A6F, 0xA9E3E905, 0xA9E3E905);
    NextEntry(one, 29, -0xA9E3E905364F354B0641AB7159A0, -0xBF80B2C18A723BB945719ECD5A6F, 0x4DFFFFFD9, -0xFCEFA3F8E481E55D994FB58C1A55, 0x277D05E4A0B4A4496C0106252855, 0xFCEFA3F8, 0xFCEFA3F8);
    NextEntry(one, 30, -0xFCEFA3F8E481E55D994FB58C1A55, 0x277D05E4A0B4A4496C0106252855, 0x9BFFFFFD9, -0x676F02D903F202FEB00C68EC9076, 0xEA2C8E1F0950FFDCF280D0673123, 0x676F02D9, 0x676F02D9);
    NextEntry(one, 31, -0x676F02D903F202FEB00C68EC9076, 0xEA2C8E1F0950FFDCF280D0673123, 0x137FFFFFD9, 0x8D2A4C8A132B2D72B25F0B534507, 0xD58FA982EF4729C7752D6DEB9D6A, 0x8D2A4C8A, 0x8D2A4C8A);
  }

  lemma Entries40(one: Angle)
    requires IsOne(one)
    ensures Near(one, 40, 0xBEBFBC7013F7FC8A62E1C0B33D52, -0xAABC73EB410C75485A84579D2CC8, 0x26FFFFFFFFD9)
    ensures Entry(one, 32) && Entry(one, 33) && Entry(one, 34) && Entry(one, 35) && Entry(one, 36) && Entry(one, 37) && Entry(one, 38) && Entry(one, 39)
  {
    hide IsOne, Near, Entry, HasEntry;
    Entries32(one);
    Listed39();
    NextEntry(one, 32, 0x8D2A4C8A132B2D72B25F0B534507, 0xD58FA982EF4729C7752D6DEB9D6A, 0x26FFFFFFD9, 0xFFFA39420B11BD78E243ABDB192C, -0x3661ADB1ECBEEFD0D9B2B656530, 0xFFFA3942, 0xFFFA3942);
    NextEntry(one, 33, 0xFFFA39420B11BD78E243ABDB192C, -0x3661ADB1ECBEEFD0D9B2B656530, 0x4DFFFFFFD9, 0x8771F681C3ED06027E9CC568B2D8, -0xD93BE6CA8EBFB50F5231F527B5F6, 0x8771F681, 0x8771F681);
    NextEntry(one, 34, 0x8771F681C3ED06027E9CC568B2D8, -0xD93BE6CA8EBFB50F5231F527B5F6, 0x9BFFFFFFD9, -0x6D9D6122332F9E85EFFCF62C7F80, -0xE7585F5284A53B11578C22B6267C, 0x6D9D6122, 0x6D9D6122);
    NextEntry(one, 35, -0x6D9D6122332F9E85EFFCF62C7F80, -0xE7585F5284A53B11578C22B6267C, 0x137FFFFFFD9, -0xFDE5380C670E1CBD4B69E3C255F9, -0x20C23A7606735868E56E280014F3, 0xFDE5380C, 0xFDE5380C);
    NextEntry(one, 36, -0xFDE5380C670E1CBD4B69E3C255F9, -0x20C23A7606735868E56E280014F3, 0x26FFFFFFFD9, -0xA4BEEA447F487554F2DB8A35B845, 0xC3F22CE1010C5CF2C4C9EE9ED05E, 0xA4BEEA44, 0xA4BEEA44);
    NextEntry(one, 37, -0xA4BEEA447F487554F2DB8A35B845, 0xC3F22CE1010C5CF2C4C9EE9ED05E, 0x4DFFFFFFFD9, 0x4BDECFA91E6A73AD08D1086736A0, 0xF47FB4D27465ADB1668C9F677CC4, 0x4BDECFA9, 0x4BDECFA9);
    NextEntry(one, 38, 0x4BDECFA91E6A73AD08D1086736A0, 0xF47FB4D27465ADB1668C9F677CC4, 0x9BFFFFFFFD9, 0xF6BB4B6020374DB6811846FDE098, 0x4442B612320A5C68CE2BD1523F00, 0xF6BB4B60, 0xF6BB4B60);
    NextEntry(one, 39, 0xF6BB4B6020374DB6811846FDE098, 0x4442B612320A5C68CE2BD1523F00, 0x137FFFFFFFD9, 0xBEBFBC7013F7FC8A62E1C0B33D52, -0xAABC73EB410C75485A84579D2CC8, 0xBEBFBC70, 0xBEBFBC70);
  }

  lemma Entries48(one: Angle)
    requires IsOne(one)
    ensures Near(one, 48, -0xC4AC5665627C066C59F19BF8B70F, -0xA3E07FDABD5F4348319E0C923118, 0x26FFFFFFFFFFD9)
    ensures Entry(one, 40) && Entry(one, 41) && Entry(one, 42) && Entry(one, 43) && Entry(one, 44) && Entry(one, 45) && Entry(one, 46) && Entry(one, 47)
  {
    hide IsOne, Near, Entry, HasEntry;
    Entries40(one);
    Listed47();
    NextEntry(one, 40, 0xBEBFBC7013F7FC8A62E1C0B33D52, -0xAABC73EB410C75485A84579D2CC8, 0x26FFFFFFFFD9, -0x289B7EC6EBA38FE95293548055F4, -0xFCC244530566F92E853D3C9F59FE, 0x289B7EC6, 0x289B7EC6);
    NextEntry(one, 41, -0x289B7EC6EBA38FE95293548055F4, -0xFCC244530566F92E853D3C9F59FE, 0x4DFFFFFFFFD9, -0xEAA127FA607F68357E3B0E29D7AF, -0x66657006C15695B26D58858FBFE9, 0xEAA127FA, 0xEAA127FA);
    NextEntry(one, 42, -0xEAA127FA607F68357E3B0E29D7AF, -0x66657006C15695B26D58858FBFE9, 0x9BFFFFFFFFD9, -0xD4EF30853A8897721BABC0A0153F, 0x8E1BE7C39B0D796F6FB12C7D8DE2, 0xD4EF3085, 0xD4EF3085);
    NextEntry(one, 43, -0xD4EF30853A8897721BABC0A0153F, 0x8E1BE7C39B0D796F6FB12C7D8DE2, 0x137FFFFFFFFD9, 0x4881D05676C1046351BF69EAA5E, 0xFFF5BB27C42A1FFE5702D266EC3B, 0x04881D05, 0x04881D05);
    NextEntry(one, 44, 0x4881D05676C1046351BF69EAA5E, 0xFFF5BB27C42A1FFE5702D266EC3B, 0x26FFFFFFFFFD9, 0xD9D4D039ECD8170700E3E757F8FB, 0x867B8079D781F535F732305AE550, 0xD9D4D039, 0xD9D4D039);
    NextEntry(one, 45, 0xD9D4D039ECD8170700E3E757F8FB, 0x867B8079D781F535F732305AE550, 0x4DFFFFFFFFFD9, 0xE6DB99E510C58592E2920CA41E17, -0x6EA336BB55262497881F6D40AC60, 0xE6DB99E5, 0xE6DB99E5);
    NextEntry(one, 46, 0xE6DB99E510C58592E2920CA41E17, -0x6EA336BB55262497881F6D40AC60, 0x9BFFFFFFFFFD9, 0x1FA27CF8DAF6F636EAD9B588B03D, -0xFE09B282A9FF8E781F6741F1BE10, 0x1FA27CF8, 0x1FA27CF8);
    NextEntry(one, 47, 0x1FA27CF8DAF6F636EAD9B588B03D, -0xFE09B282A9FF8E781F6741F1BE10, 0x137FFFFFFFFFD9, -0xC4AC5665627C066C59F19BF8B70F, -0xA3E07FDABD5F4348319E0C923118, 0xC4AC5665, 0xC4AC5665);
  }

  lemma Entries56(one: Angle)
    requires IsOne(one)
    ensures Near(one, 56, -0x85845DD128C8D20113DC42630887, 0xDA6CA20AF545C45ADA38AF4E178A, 0x26FFFFFFFFFFFFD9)
    ensures Entry(one, 48) && Entry(one, 49) && Entry(one, 50) && Entry(one, 51) && Entry(one, 52) && Entry(one, 53) && Entry(one, 54) && Entry(one, 55)
  {
    hide IsOne, Near, Entry, HasEntry;
    Entries48(one);
    Listed55();
    NextEntry(one, 48, -0xC4AC5665627C066C59F19BF8B70F, -0xA3E07FDABD5F4348319E0C923118, 0x26FFFFFFFFFFD9, -0xF4292244133EB583FAFE8166022F, 0x4CF3A208CCE517D22333374B2532, 0xF4292244, 0xF4292244);
    NextEntry(one, 49, -0xF4292244133EB583FAFE8166022F, 0x4CF3A208CCE517D22333374B2532, 0x4DFFFFFFFFFFD9, -0x432AFF97F37F2151D2E56B1D1AF8, 0xF708037E1FE7CC4693ED45AEE02C, 0x432AFF97, 0x432AFF97);
    NextEntry(one, 50, -0x432AFF97F37F2151D2E56B1D1AF8, 0xF708037E1FE7CC4693ED45AEE02C, 0x9BFFFFFFFFFFD9, 0xAB9423A71284117EA9599873E5C2, 0xBDFDD143E7830CB64D16DA230D46, 0xAB9423A7, 0xAB9423A7);
    NextEntry(one, 51, 0xAB9423A71284117EA9599873E5C2, 0xBDFDD143E7830CB64D16DA230D46, 0x137FFFFFFFFFFD9, 0xFC93A0392526353B3161DBADC836, -0x29B9C389112AD665755F239536CA, 0xFC93A039, 0xFC93A039);
    NextEntry(one, 52, 0xFC93A0392526353B3161DBADC836, -0x29B9C389112AD665755F239536CA, 0x26FFFFFFFFFFFD9, 0x655B59C3B1E2C1620AFF4575341E, -0xEB1494A742C477AFE963868D5A0D, 0x655B59C3, 0x655B59C3);
    NextEntry(one, 53, 0x655B59C3B1E2C1620AFF4575341E, -0xEB1494A742C477AFE963868D5A0D, 0x4DFFFFFFFFFFFD9, -0x8F0CCC922E3E4CF7A0895DBFFC2E, -0xD44DA6326601352BC7D0D524C1F2, 0x8F0CCC92, 0x8F0CCC92);
    NextEntry(one, 54, -0x8F0CCC922E3E4CF7A0895DBFFC2E, -0xD44DA6326601352BC7D0D524C1F2, 0x9BFFFFFFFFFFFD9, -0xFFEFF47D95035ED118D5683DF3C8, 0x5AA195E82FC5A299C7E19214908, 0xFFEFF47D, 0xFFEFF47D);
    NextEntry(one, 55, -0xFFEFF47D95035ED118D5683DF3C8, 0x5AA195E82FC5A299C7E19214908, 0x137FFFFFFFFFFFD9, -0x85845DD128C8D20113DC42630887, 0xDA6CA20AF545C45ADA38AF4E178A, 0x85845DD1, 0x85845DD1);
  }

  lemma Entries64(one: Angle)
    requires IsOne(one)
    ensures Near(one, 64, 0xEB86D391860EC3DBE6B444B1DA3F, 0x6450C1656563BFD4DDD0797CFD10, 0x26FFFFFFFFFFFFFFD9)
    ensures Entry(one, 56) && Entry(one, 57) && Entry(one, 58) && Entry(one, 59) && Entry(one, 60) && Entry(one, 61) && Entry(one, 62) && Entry(one, 63)
  {
    hide IsOne, Near, Entry, HasEntry;
    Entries56(one);
    Listed63();
    NextEntry(one, 56, -0x85845DD128C8D20113DC42630887, 0xDA6CA20AF545C45ADA38AF4E178A, 0x26FFFFFFFFFFFFD9, 0x6FA87E4F750E8134FD18E9F16982, 0xE65DAC209685BBCC05FFC45A6660, 0x6FA87E4F, 0x6FA87E4F);
    NextEntry(one, 57, 0x6FA87E4F750E8134FD18E9F16982, 0xE65DAC209685BBCC05FFC45A6660, 0x4DFFFFFFFFFFFFD9, 0xFE2CE6E09DB26F9764138D7919AE, 0x1E8296E015E53C662A2013BDDC3C, 0xFE2CE6E0, 0xFE2CE6E0);
    NextEntry(one, 58, 0xFE2CE6E09DB26F9764138D7919AE, 0x1E8296E015E53C662A2013BDDC3C, 0x9BFFFFFFFFFFFFD9, 0xA3014314C866594E617751AEB2AA, -0xC5658374460D78B1A56A01BE688D, 0xA3014314, 0xA3014314);
    NextEntry(one, 59, 0xA3014314C866594E617751AEB2AA, -0xC5658374460D78B1A56A01BE688D, 0x137FFFFFFFFFFFFD9, -0x4E0811A11B83099A70468E546A89, -0xF3D1564B2B429626F8A4D29A13A9, 0x4E0811A1, 0x4E0811A1);
    NextEntry(one, 60, -0x4E0811A11B83099A70468E546A89, -0xF3D1564B2B429626F8A4D29A13A9, 0x26FFFFFFFFFFFFFD9, -0xF7537E82453F50849ED120CBA479, -0x4212F2E566220AFEBFF5566301FF, 0xF7537E82, 0xF7537E82);
    NextEntry(one, 61, -0xF7537E82453F50849ED120CBA479, -0x4212F2E566220AFEBFF5566301FF, 0x4DFFFFFFFFFFFFFD9, -0xBD3AF235F1627BF0CDAB28308E71, 0xAC6AF723CD337361FA2972D8BCD2, 0xBD3AF235, 0xBD3AF235);
    NextEntry(one, 62, -0xBD3AF235F1627BF0CDAB28308E71, 0xAC6AF723CD337361FA2972D8BCD2, 0x9BFFFFFFFFFFFFFD9, 0x2AD7D2BB99881A808DBF14868CF9, 0xFC63B7E7229F8A081FF79245BBE8, 0x2AD7D2BB, 0x2AD7D2BB);
    NextEntry(one, 63, 0x2AD7D2BB99881A808DBF14868CF9, 0xFC63B7E7229F8A081FF79245BBE8, 0x137FFFFFFFFFFFFFD9, 0xEB86D391860EC3DBE6B444B1DA3F, 0x6450C1656563BFD4DDD0797CFD10, 0xEB86D391, 0xEB86D391);
  }

  /** For every entry, whatever the enclosed sine and cosine of one are. */
  lemma SineEntries(one: Angle, t: nat)
    requires IsOne(one) && t < 64
    ensures IsPart(one, t + 1, Md5.T(t) as nat)
  {
    hide IsOne, Entry, Near;
    Entries8(one);
    Entries16(one);
    Entries24(one);
    Entries32(one);
    Entries40(one);
    Entries48(one);
    Entries56(one);
    Entries64(one);
    assert Entry(one, t);
    EntryIs(one, t);
  }

  lemma EntryIs(one: Angle, t: nat)
    requires Entry(one, t)
    ensures t < 64 && IsPart(one, t + 1, Md5.T(t) as nat)
  {}
}
