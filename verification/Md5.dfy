/** MD5's block function: the code's register rotation against the operations of
    section 3.4 of RFC 1321. */
module Md5 {
  import opened Arith
  import opened Octets
  import opened Hash

  // ------------------------------------------------------------- the standard

  // The sine table, entry `t` being T[t + 1] of the RFC, sixteen entries a round.
  const T1: seq<word> := [
    0xD76AA478, 0xE8C7B756, 0x242070DB, 0xC1BDCEEE, 0xF57C0FAF, 0x4787C62A, 0xA8304613, 0xFD469501,
    0x698098D8, 0x8B44F7AF, 0xFFFF5BB1, 0x895CD7BE, 0x6B901122, 0xFD987193, 0xA679438E, 0x49B40821]
  const T2: seq<word> := [
    0xF61E2562, 0xC040B340, 0x265E5A51, 0xE9B6C7AA, 0xD62F105D, 0x02441453, 0xD8A1E681, 0xE7D3FBC8,
    0x21E1CDE6, 0xC33707D6, 0xF4D50D87, 0x455A14ED, 0xA9E3E905, 0xFCEFA3F8, 0x676F02D9, 0x8D2A4C8A]
  const T3: seq<word> := [
    0xFFFA3942, 0x8771F681, 0x6D9D6122, 0xFDE5380C, 0xA4BEEA44, 0x4BDECFA9, 0xF6BB4B60, 0xBEBFBC70,
    0x289B7EC6, 0xEAA127FA, 0xD4EF3085, 0x04881D05, 0xD9D4D039, 0xE6DB99E5, 0x1FA27CF8, 0xC4AC5665]
  const T4: seq<word> := [
    0xF4292244, 0x432AFF97, 0xAB9423A7, 0xFC93A039, 0x655B59C3, 0x8F0CCC92, 0xFFEFF47D, 0x85845DD1,
    0x6FA87E4F, 0xFE2CE6E0, 0xA3014314, 0x4E0811A1, 0xF7537E82, 0xBD3AF235, 0x2AD7D2BB, 0xEB86D391]

  function T(t: nat): word
    requires t < 64
  {
    if t < 16 then T1[t] else if t < 32 then T2[t - 16] else if t < 48 then T3[t - 32] else T4[t - 48]
  }

  /** The four shift amounts of each round. */
  function Amount(round: nat, q: nat): (n: nat)
    requires q < 4
    ensures n in {4, 5, 6, 7, 9, 10, 11, 12, 14, 15, 16, 17, 20, 21, 22, 23}
  {
    match round
    case 1 => [7, 12, 17, 22][q]
    case 2 => [5, 9, 14, 20][q]
    case 3 => [4, 11, 16, 23][q]
    case _ => [6, 10, 15, 21][q]
  }

  function Shift(t: nat): (n: nat)
    ensures n in {4, 5, 6, 7, 9, 10, 11, 12, 14, 15, 16, 17, 20, 21, 22, 23}
  {
    Amount(if t < 16 then 1 else if t < 32 then 2 else if t < 48 then 3 else 4, t % 4)
  }

  /** Which word of the block a step uses. */
  function Index(t: nat): (i: nat)
    ensures i < 16
  {
    if t < 16 then t % 16 else if t < 32 then (5 * t + 1) % 16 else if t < 48 then (3 * t + 5) % 16 else (7 * t) % 16
  }

  /** F, G, H, I. */
  function F(t: nat, x: word, y: word, z: word): word {
    if t < 16 then (x & y) | (!x & z)
    else if t < 32 then (x & z) | (y & !z)
    else if t < 48 then x ^ y ^ z
    else y ^ (x | !z)
  }

  function GetWord(data: seq<byte>, i: nat): word
    requires i + 4 <= |data|
  {
    Joined(data[i + 3], data[i + 2], data[i + 1], data[i])
  }

  /** The first byte is the least significant. */
  lemma GetWordBytes(data: seq<byte>, i: nat)
    requires i + 4 <= |data|
    ensures var w := GetWord(data, i);
            w & 0xFF == data[i] as bv32 && (w >> 8) & 0xFF == data[i + 1] as bv32
            && (w >> 16) & 0xFF == data[i + 2] as bv32 && (w >> 24) & 0xFF == data[i + 3] as bv32
  {
    hide Joined;
    JoinedBytes(data[i + 3], data[i + 2], data[i + 1], data[i]);
  }

  datatype Regs = Regs(a: word, b: word, c: word, d: word)

  function Sum(a: word, f: word, x: word, k: word): word {
    a + f + x + k
  }

  function Plus(a: word, b: word): word {
    a + b
  }

  function Step(r: Regs, t: nat, x: word): Regs
    requires t < 64
  {
    Regs(r.d, Plus(r.b, RotL(Sum(r.a, F(t, r.b, r.c, r.d), x, T(t)), Shift(t))), r.b, r.c)
  }

  function Rounds(r: Regs, data: seq<byte>, t: nat): Regs
    requires |data| == 64 && t <= 64
  {
    if t == 0 then r else Step(Rounds(r, data, t - 1), t - 1, GetWord(data, 4 * Index(t - 1)))
  }

  function Feed(s: seq<word>, r: Regs): seq<word>
    requires |s| == 4
  {
    [s[0] + r.a, s[1] + r.b, s[2] + r.c, s[3] + r.d]
  }

  /** The compression function; inputs of any other size are left alone. */
  function Compress(s: seq<word>, data: seq<byte>): seq<word> {
    if |s| == 4 && |data| == 64 then Feed(s, Rounds(Regs(s[0], s[1], s[2], s[3]), data, 64)) else s
  }

  const MD5: Algorithm := Algorithm(false, [0x67452301, 0xEFCDAB89, 0x98BADCFE, 0x10325476], Compress)

  // ----------------------------------------------------------------- the code

  // Word index and shift as listed, step by step, in the code.
  const INDEX1: seq<nat> := [0, 1, 2, 3, 4, 5, 6, 7, 8, 9, 10, 11, 12, 13, 14, 15]
  const INDEX2: seq<nat> := [1, 6, 11, 0, 5, 10, 15, 4, 9, 14, 3, 8, 13, 2, 7, 12]
  const INDEX3: seq<nat> := [5, 8, 11, 14, 1, 4, 7, 10, 13, 0, 3, 6, 9, 12, 15, 2]
  const INDEX4: seq<nat> := [0, 7, 14, 5, 12, 3, 10, 1, 8, 15, 6, 13, 4, 11, 2, 9]
  const SHIFT1: seq<nat> := [7, 12, 17, 22, 7, 12, 17, 22, 7, 12, 17, 22, 7, 12, 17, 22]
  const SHIFT2: seq<nat> := [5, 9, 14, 20, 5, 9, 14, 20, 5, 9, 14, 20, 5, 9, 14, 20]
  const SHIFT3: seq<nat> := [4, 11, 16, 23, 4, 11, 16, 23, 4, 11, 16, 23, 4, 11, 16, 23]
  const SHIFT4: seq<nat> := [6, 10, 15, 21, 6, 10, 15, 21, 6, 10, 15, 21, 6, 10, 15, 21]

  function Listed(r1: seq<nat>, r2: seq<nat>, r3: seq<nat>, r4: seq<nat>, t: nat): nat
    requires t < 64 && |r1| == |r2| == |r3| == |r4| == 16
  {
    if t < 16 then r1[t] else if t < 32 then r2[t - 16] else if t < 48 then r3[t - 32] else r4[t - 48]
  }

  function IndexOf(t: nat): nat
    requires t < 64
  {
    Listed(INDEX1, INDEX2, INDEX3, INDEX4, t)
  }

  function ShiftOf(t: nat): nat
    requires t < 64
  {
    Listed(SHIFT1, SHIFT2, SHIFT3, SHIFT4, t)
  }

  lemma IndexRow1(u: nat)
    requires u < 16
    ensures INDEX1[u] == u
  {}

  lemma ShiftRow1(u: nat)
    requires u < 16
    ensures SHIFT1[u] == Amount(1, u % 4)
  {
    if u < 8 {} else {}
  }

  lemma IndexRow2(u: nat)
    requires u < 16
    ensures INDEX2[u] == (5 * u + 1) % 16
  {}

  lemma ShiftRow2(u: nat)
    requires u < 16
    ensures SHIFT2[u] == Amount(2, u % 4)
  {
    if u < 8 {} else {}
  }

  lemma IndexRow3(u: nat)
    requires u < 16
    ensures INDEX3[u] == (3 * u + 5) % 16
  {}

  lemma ShiftRow3(u: nat)
    requires u < 16
    ensures SHIFT3[u] == Amount(3, u % 4)
  {
    if u < 8 {} else {}
  }

  lemma IndexRow4(u: nat)
    requires u < 16
    ensures INDEX4[u] == (7 * u) % 16
  {}

  lemma ShiftRow4(u: nat)
    requires u < 16
    ensures SHIFT4[u] == Amount(4, u % 4)
  {
    if u < 8 {} else {}
  }

  lemma IndexAt(t: nat)
    requires t < 64
    ensures IndexOf(t) == Index(t)
  {
    hide INDEX1, INDEX2, INDEX3, INDEX4;
    if t < 16 {
      IndexRow1(t);
    } else if t < 32 {
      IndexRow2(t - 16);
      SameMod(5 * t + 1, 5, 5 * (t - 16) + 1);
    } else if t < 48 {
      IndexRow3(t - 32);
      SameMod(3 * t + 5, 6, 3 * (t - 32) + 5);
    } else {
      IndexRow4(t - 48);
      SameMod(7 * t, 21, 7 * (t - 48));
    }
  }

  lemma SameMod(a: nat, k: nat, b: nat)
    requires a == 16 * k + b
    ensures a % 16 == b % 16
  {
    DivMod(b, 16);
    DivModUnique(a, 16, k + b / 16, b % 16);
  }

  lemma ShiftAt(t: nat)
    requires t < 64
    ensures ShiftOf(t) == Shift(t)
  {
    hide Amount;
    hide SHIFT1, SHIFT2, SHIFT3, SHIFT4;
    DivMod(t, 4);
    if t < 16 { ShiftRow1(t); } else if t < 32 { ShiftRow2(t - 16); } else if t < 48 { ShiftRow3(t - 32); } else { ShiftRow4(t - 48); }
  }

  /** The listed operands are the ones the standard computes. */
  lemma TableEntries(t: nat)
    requires t < 64
    ensures IndexOf(t) == Index(t) && ShiftOf(t) == Shift(t)
  {
    IndexAt(t);
    ShiftAt(t);
  }

  lemma RotIsRotate(x: word, n: nat)
    requires n in {4, 5, 6, 7, 9, 10, 11, 12, 14, 15, 16, 17, 20, 21, 22, 23}
    ensures Rot(x, n) == RotL(x, n)
  {
    RotRound12(x);
    RotRound34(x);
    hide Rot, RotL;
  }

  lemma RotRound12(x: word)
    ensures Rot(x, 7) == RotL(x, 7) && Rot(x, 12) == RotL(x, 12) && Rot(x, 17) == RotL(x, 17) && Rot(x, 22) == RotL(x, 22)
    ensures Rot(x, 5) == RotL(x, 5) && Rot(x, 9) == RotL(x, 9) && Rot(x, 14) == RotL(x, 14) && Rot(x, 20) == RotL(x, 20)
  {}

  lemma RotRound34(x: word)
    ensures Rot(x, 4) == RotL(x, 4) && Rot(x, 11) == RotL(x, 11) && Rot(x, 16) == RotL(x, 16) && Rot(x, 23) == RotL(x, 23)
    ensures Rot(x, 6) == RotL(x, 6) && Rot(x, 10) == RotL(x, 10) && Rot(x, 15) == RotL(x, 15) && Rot(x, 21) == RotL(x, 21)
  {}

  /** The four definitions of the macro F. */
  function CodeF(t: nat, x: word, y: word, z: word): word {
    if t < 16 then z ^ (x & (y ^ z))
    else if t < 32 then y ^ (z & (x ^ y))
    else if t < 48 then x ^ y ^ z
    else y ^ (x | !z)
  }

  lemma CodeFIsF(t: nat, x: word, y: word, z: word)
    ensures CodeF(t, x, y, z) == F(t, x, y, z)
  {
    ChooseForms(x, y, z);
    SelectForms(x, y, z);
  }

  lemma ChooseForms(x: word, y: word, z: word)
    ensures z ^ (x & (y ^ z)) == (x & y) | (!x & z)
  {}

  lemma SelectForms(x: word, y: word, z: word)
    ensures y ^ (z & (x ^ y)) == (x & z) | (y & !z)
  {}

  /** `a += F(b,c,d) + X[k] + t`. */
  function CodeSum(a: word, f: word, x: word, k: word): word {
    a + (f + x + k)
  }

  lemma SumOrder(a: word, f: word, x: word, k: word)
    ensures CodeSum(a, f, x, k) == Sum(a, f, x, k)
  {}

  lemma Commutes(a: word, b: word)
    ensures Plus(a, b) == Plus(b, a)
  {}

  /** Where the register playing role `k` sits before step `t`. */
  function Role(k: nat, t: nat): (i: nat)
    ensures i < 4
  {
    (k + 3 * (t % 4)) % 4
  }

  lemma RolesRotate(t: nat)
    ensures Role(0, t + 1) == Role(3, t) && Role(1, t + 1) == Role(0, t) && Role(2, t + 1) == Role(1, t) && Role(3, t + 1) == Role(2, t)
  {
    var q := t % 4;
    DivMod(t, 4);
    DivModUnique(t + 1, 4, if q == 3 then t / 4 + 1 else t / 4, if q == 3 then 0 else q + 1);
    if q == 0 {} else if q == 1 {} else if q == 2 {} else {}
  }

  lemma FirstRoleApart(t: nat)
    ensures Role(0, t) != Role(1, t) && Role(0, t) != Role(2, t) && Role(0, t) != Role(3, t)
  {
    var q := t % 4;
    if q == 0 {} else if q == 1 {} else if q == 2 {} else {}
  }

  ghost predicate InRoles(v: seq<word>, t: nat, r: Regs) {
    |v| == 4 && r == Regs(v[Role(0, t)], v[Role(1, t)], v[Role(2, t)], v[Role(3, t)])
  }

  /** What the macro P leaves in its first register. */
  function StepWord(r: Regs, t: nat, x: word): word
    requires t < 64
  {
    TableEntries(t);
    Plus(Rot(CodeSum(r.a, CodeF(t, r.b, r.c, r.d), x, T(t)), ShiftOf(t)), r.b)
  }

  lemma StepValues(r: Regs, t: nat, x: word)
    requires t < 64
    ensures Step(r, t, x) == Regs(r.d, StepWord(r, t, x), r.b, r.c)
  {
    hide F, CodeF, Rot, RotL, Sum, CodeSum, Plus, Shift, Index;
    TableEntries(t);
    CodeFIsF(t, r.b, r.c, r.d);
    SumOrder(r.a, F(t, r.b, r.c, r.d), x, T(t));
    var s := Sum(r.a, F(t, r.b, r.c, r.d), x, T(t));
    RotIsRotate(s, Shift(t));
    Commutes(Rot(s, Shift(t)), r.b);
  }

  lemma StepInRoles(v: seq<word>, t: nat, x: word, r: Regs)
    requires t < 64 && InRoles(v, t, r)
    ensures InRoles(v[Role(0, t) := StepWord(r, t, x)], t + 1, Step(r, t, x))
  {
    hide Role, Step, StepWord;
    RolesRotate(t);
    FirstRoleApart(t);
    StepValues(r, t, x);
  }

  /** The macro P at step `t` with block word `x`. */
  method CodeStep(v: array<word>, t: nat, x: word, ghost r: Regs)
    requires v.Length == 4 && t < 64 && InRoles(v[..], t, r)
    modifies v
    ensures InRoles(v[..], t + 1, Step(r, t, x))
  {
    hide CodeF, Rot, Role, CodeSum, Plus, Step, Shift, Index;
    TableEntries(t);
    StepInRoles(v[..], t, x, r);
    var a, b, c, d := Role(0, t), Role(1, t), Role(2, t), Role(3, t);
    FirstRoleApart(t);
    ghost var v0 := v[..];
    v[a] := CodeSum(v[a], CodeF(t, v[b], v[c], v[d]), x, T(t));
    v[a] := Plus(Rot(v[a], ShiftOf(t)), v[b]);
    assert v[..] == v0[a := StepWord(r, t, x)];
  }

  lemma RoundsStart(r: Regs, data: seq<byte>)
    requires |data| == 64
    ensures Rounds(r, data, 0) == r
  {}

  lemma RoundsStep(r: Regs, data: seq<byte>, t: nat)
    requires |data| == 64 && t < 64
    ensures Rounds(r, data, t + 1) == Step(Rounds(r, data, t), t, GetWord(data, 4 * Index(t)))
  {}

  /** Before the first step and after the last, every register is in its place. */
  lemma AtEnds(v: seq<word>, t: nat, r: Regs)
    requires |v| == 4 && t % 4 == 0
    ensures InRoles(v, t, r) <==> r == Regs(v[0], v[1], v[2], v[3])
  {}

  /** `utils_md5_process`. */
  method Process(state: seq<word>, data: seq<byte>) returns (out: seq<word>)
    requires |state| == 4 && |data| == 64
    ensures out == Compress(state, data)
  {
    hide Step, Rounds, InRoles, GetWord, Feed, Index;
    var x := new word[16](i requires 0 <= i < 16 => GetWord(data, 4 * i));
    var v := new word[4](i requires 0 <= i < 4 => state[i]);
    ghost var r0 := Regs(state[0], state[1], state[2], state[3]);
    RoundsStart(r0, data);
    AtEnds(v[..], 0, r0);
    for t: nat := 0 to 64
      invariant InRoles(v[..], t, Rounds(r0, data, t))
      invariant forall i :: 0 <= i < 16 ==> x[i] == GetWord(data, 4 * i)
    {
      TableEntries(t);
      CodeStep(v, t, x[IndexOf(t)], Rounds(r0, data, t));
      RoundsStep(r0, data, t);
    }
    AtEnds(v[..], 64, Rounds(r0, data, 64));
    out := Feed(state, Regs(v[0], v[1], v[2], v[3]));
  }
}
