/** SHA-1's block function: the code's circular 16-word schedule and register
    rotation against section 6.1.2 of FIPS 180-4. */
module Sha1 {
  import opened Arith
  import opened Octets
  import opened Hash

  // ------------------------------------------------------------- the standard

  function K(t: nat): word {
    if t < 20 then 0x5A827999 else if t < 40 then 0x6ED9EBA1 else if t < 60 then 0x8F1BBCDC else 0xCA62C1D6
  }

  /** Ch, Parity, Maj, Parity. */
  function F(t: nat, x: word, y: word, z: word): word {
    if t < 20 then (x & y) ^ (!x & z)
    else if 40 <= t < 60 then (x & y) ^ (x & z) ^ (y & z)
    else x ^ y ^ z
  }

  function GetWord(data: seq<byte>, i: nat): word
    requires i + 4 <= |data|
  {
    Joined(data[i], data[i + 1], data[i + 2], data[i + 3])
  }

  /** The first byte is the most significant. */
  lemma GetWordBytes(data: seq<byte>, i: nat)
    requires i + 4 <= |data|
    ensures var w := GetWord(data, i);
            (w >> 24) & 0xFF == data[i] as bv32 && (w >> 16) & 0xFF == data[i + 1] as bv32
            && (w >> 8) & 0xFF == data[i + 2] as bv32 && w & 0xFF == data[i + 3] as bv32
  {
    hide Joined;
    JoinedBytes(data[i], data[i + 1], data[i + 2], data[i + 3]);
  }

  /** What the constants are the roots of. */
  function Radicand(t: nat): nat {
    if t < 20 then 2 else if t < 40 then 3 else if t < 60 then 5 else 10
  }

  function Root(t: nat): nat {
    if t < 20 then 0x5A827999 else if t < 40 then 0x6ED9EBA1 else if t < 60 then 0x8F1BBCDC else 0xCA62C1D6
  }

  /** The constants are the integer parts of 2^30 times the square roots of 2, 3, 5
      and 10. */
  lemma RootConstants(t: nat)
    ensures K(t) as nat == Root(t)
    ensures Root(t) * Root(t) <= Radicand(t) * 0x1000_0000_0000_0000 < (Root(t) + 1) * (Root(t) + 1)
  {}

  function Mix(x: word, y: word, z: word, u: word): word {
    x ^ y ^ z ^ u
  }

  /** The 80-word message schedule. */
  function Schedule(data: seq<byte>, t: nat): word
    requires |data| == 64
  {
    if t < 16 then GetWord(data, 4 * t)
    else Mix(Schedule(data, t - 3), Schedule(data, t - 8), Schedule(data, t - 14), Schedule(data, t - 16)).RotateLeft(1)
  }

  datatype Regs = Regs(a: word, b: word, c: word, d: word, e: word)

  function Sum(s: word, f: word, e: word, k: word, w: word): word {
    s + f + e + k + w
  }

  function Step(r: Regs, t: nat, w: word): Regs {
    Regs(Sum(RotL(r.a, 5), F(t, r.b, r.c, r.d), r.e, K(t), w), r.a, RotL(r.b, 30), r.c, r.d)
  }

  function Rounds(r: Regs, data: seq<byte>, t: nat): Regs
    requires |data| == 64
  {
    if t == 0 then r else Step(Rounds(r, data, t - 1), t - 1, Schedule(data, t - 1))
  }

  /** The intermediate hash value plus the working variables. */
  function Feed(s: seq<word>, r: Regs): seq<word>
    requires |s| == 5
  {
    [s[0] + r.a, s[1] + r.b, s[2] + r.c, s[3] + r.d, s[4] + r.e]
  }

  /** The compression function; inputs of any other size are left alone. */
  function Compress(s: seq<word>, data: seq<byte>): seq<word> {
    if |s| == 5 && |data| == 64 then Feed(s, Rounds(Regs(s[0], s[1], s[2], s[3], s[4]), data, 80)) else s
  }

  const SHA1: Algorithm := Algorithm(true, [0x67452301, 0xEFCDAB89, 0x98BADCFE, 0x10325476, 0xC3D2E1F0], Compress)

  // ----------------------------------------------------------------- the code

  /** The four definitions of the macro F. */
  function CodeF(t: nat, x: word, y: word, z: word): word {
    if t < 20 then z ^ (x & (y ^ z))
    else if 40 <= t < 60 then (x & y) | (z & (x | y))
    else x ^ y ^ z
  }

  lemma RotIsRotate(x: word)
    ensures Rot(x, 1) == x.RotateLeft(1) && Rot(x, 5) == RotL(x, 5) && Rot(x, 30) == RotL(x, 30)
  {}

  lemma CodeFIsF(t: nat, x: word, y: word, z: word)
    ensures CodeF(t, x, y, z) == F(t, x, y, z)
  {
    ChooseForms(x, y, z);
    MajorityForms(x, y, z);
  }

  lemma ChooseForms(x: word, y: word, z: word)
    ensures z ^ (x & (y ^ z)) == (x & y) ^ (!x & z)
  {}

  lemma MajorityForms(x: word, y: word, z: word)
    ensures (x & y) | (z & (x | y)) == (x & y) ^ (x & z) ^ (y & z)
  {}

  /** `e += S(a,5) + F(b,c,d) + K + x`. */
  function CodeSum(e: word, s: word, f: word, k: word, w: word): word {
    e + (s + f + k + w)
  }

  lemma SumOrder(e: word, s: word, f: word, k: word, w: word)
    ensures CodeSum(e, s, f, k, w) == Sum(s, f, e, k, w)
  {}

  /** Where the register playing role `k` sits before step `t`: the code renames
      its variables instead of moving them. */
  function Role(k: nat, t: nat): (i: nat)
    ensures i < 5
  {
    (k + 4 * (t % 5)) % 5
  }

  lemma RolesRotate(t: nat)
    ensures Role(0, t + 1) == Role(4, t) && Role(1, t + 1) == Role(0, t) && Role(2, t + 1) == Role(1, t)
    ensures Role(3, t + 1) == Role(2, t) && Role(4, t + 1) == Role(3, t)
  {
    var q := t % 5;
    DivMod(t, 5);
    DivModUnique(t + 1, 5, if q == 4 then t / 5 + 1 else t / 5, if q == 4 then 0 else q + 1);
    if q == 0 {} else if q == 1 {} else if q == 2 {} else if q == 3 {} else {}
  }

  lemma RolesDistinct(t: nat, j: nat, k: nat)
    requires j < k < 5
    ensures Role(j, t) != Role(k, t)
  {
    var q := t % 5;
    if q == 0 {} else if q == 1 {} else if q == 2 {} else if q == 3 {} else {}
  }

  ghost predicate InRoles(v: seq<word>, t: nat, r: Regs) {
    |v| == 5 && r == Regs(v[Role(0, t)], v[Role(1, t)], v[Role(2, t)], v[Role(3, t)], v[Role(4, t)])
  }

  /** The two assignments of the macro P, on the registers as a sequence. */
  lemma StepInRoles(v: seq<word>, t: nat, x: word, r: Regs)
    requires InRoles(v, t, r)
    ensures var v' := v[Role(4, t) := CodeSum(r.e, Rot(r.a, 5), CodeF(t, r.b, r.c, r.d), K(t), x)];
            InRoles(v'[Role(1, t) := Rot(r.b, 30)], t + 1, Step(r, t, x))
  {
    hide K, F, CodeF, Rot, Role, RotL, Sum, CodeSum, Step;
    RolesRotate(t);
    RolesDistinct(t, 0, 4);
    RolesDistinct(t, 1, 4);
    RolesDistinct(t, 2, 4);
    RolesDistinct(t, 3, 4);
    RolesDistinct(t, 0, 1);
    RolesDistinct(t, 1, 2);
    RolesDistinct(t, 1, 3);
    StepValues(r, t, x);
  }

  lemma StepValues(r: Regs, t: nat, x: word)
    ensures Step(r, t, x) == Regs(CodeSum(r.e, Rot(r.a, 5), CodeF(t, r.b, r.c, r.d), K(t), x), r.a, Rot(r.b, 30), r.c, r.d)
  {
    hide K, F, CodeF, Rot, RotL, Sum, CodeSum;
    RotIsRotate(r.a);
    RotIsRotate(r.b);
    CodeFIsF(t, r.b, r.c, r.d);
    SumOrder(r.e, RotL(r.a, 5), F(t, r.b, r.c, r.d), K(t), x);
  }

  /** The macro P at step `t` with schedule word `x`. */
  method CodeStep(v: array<word>, t: nat, x: word, ghost r: Regs)
    requires v.Length == 5 && InRoles(v[..], t, r)
    modifies v
    ensures InRoles(v[..], t + 1, Step(r, t, x))
  {
    hide K, F, CodeF, Rot, Role, RotL, Sum, CodeSum, Step;
    StepInRoles(v[..], t, x, r);
    RolesDistinct(t, 1, 4);
    var a, b, c, d, e := Role(0, t), Role(1, t), Role(2, t), Role(3, t), Role(4, t);
    ghost var v0 := v[..];
    v[e] := CodeSum(v[e], Rot(v[a], 5), CodeF(t, v[b], v[c], v[d]), K(t), x);
    v[b] := Rot(v[b], 30);
    assert v[..] == v0[e := CodeSum(r.e, Rot(r.a, 5), CodeF(t, r.b, r.c, r.d), K(t), x)][b := Rot(r.b, 30)];
  }

  /** The circular buffer holds the last sixteen schedule words. */
  ghost predicate Circular(w: seq<word>, data: seq<byte>, t: nat)
    requires |data| == 64
  {
    |w| == 16 && forall j: nat :: t <= j + 16 && j < t ==> w[j % 16] == Schedule(data, j)
  }

  /** The macro R: the word for step `t` replaces the one sixteen steps older. */
  method NextWord(w: array<word>, data: seq<byte>, t: nat) returns (x: word)
    requires w.Length == 16 && |data| == 64 && t >= 16 && Circular(w[..], data, t)
    modifies w
    ensures x == Schedule(data, t) && Circular(w[..], data, t + 1)
  {
    hide Mix, Rot, RotL, GetWord;
    ghost var w0 := w[..];
    var temp := Mix(w[(t - 3) % 16], w[(t - 8) % 16], w[(t - 14) % 16], w[t % 16]);
    w[t % 16] := Rot(temp, 1);
    x := w[t % 16];
    CircularStep(w0, w[..], data, t);
  }

  /** Overwriting the oldest word with the next one keeps the buffer circular. */
  lemma CircularStep(w0: seq<word>, w: seq<word>, data: seq<byte>, t: nat)
    requires |data| == 64 && t >= 16 && Circular(w0, data, t)
    requires w == w0[t % 16 := Rot(Mix(w0[(t - 3) % 16], w0[(t - 8) % 16], w0[(t - 14) % 16], w0[t % 16]), 1)]
    ensures w[t % 16] == Schedule(data, t) && Circular(w, data, t + 1)
  {
    hide Mix, Rot, GetWord, Schedule;
    assert (t - 16) % 16 == t % 16;
    assert w0[(t - 3) % 16] == Schedule(data, t - 3) && w0[(t - 8) % 16] == Schedule(data, t - 8);
    assert w0[(t - 14) % 16] == Schedule(data, t - 14) && w0[(t - 16) % 16] == Schedule(data, t - 16);
    ScheduleStep(data, t);
    forall j: nat | t + 1 <= j + 16 && j < t + 1
      ensures w[j % 16] == Schedule(data, j)
    {
      if j < t { OtherSlot(j, t); }
    }
  }

  lemma ScheduleStep(data: seq<byte>, t: nat)
    requires |data| == 64 && t >= 16
    ensures Schedule(data, t) == Rot(Mix(Schedule(data, t - 3), Schedule(data, t - 8), Schedule(data, t - 14), Schedule(data, t - 16)), 1)
  {
    RotIsRotate(Mix(Schedule(data, t - 3), Schedule(data, t - 8), Schedule(data, t - 14), Schedule(data, t - 16)));
    hide Mix, Rot;
  }

  lemma OtherSlot(j: nat, t: nat)
    requires t < j + 16 && j < t
    ensures j % 16 != t % 16
  {}

  /** Step `t`'s schedule word: one of the first sixteen, or the next computed. */
  method FetchWord(w: array<word>, data: seq<byte>, t: nat) returns (x: word)
    requires w.Length == 16 && |data| == 64 && Circular(w[..], data, if t < 16 then 16 else t)
    modifies w
    ensures x == Schedule(data, t) && Circular(w[..], data, if t < 15 then 16 else t + 1)
  {
    hide Schedule;
    if t < 16 {
      x := w[t];
      assert t % 16 == t && w[..][t % 16] == Schedule(data, t);
    } else {
      x := NextWord(w, data, t);
    }
  }

  /** `utils_sha1_process`. */
  method Process(state: seq<word>, data: seq<byte>) returns (out: seq<word>)
    requires |state| == 5 && |data| == 64
    ensures out == Compress(state, data)
  {
    hide Step, Schedule, Rounds, Circular, InRoles, GetWord, Feed;
    var w := new word[16](i requires 0 <= i < 16 => GetWord(data, 4 * i));
    var v := new word[5](i requires 0 <= i < 5 => state[i]);
    ghost var r0 := Regs(state[0], state[1], state[2], state[3], state[4]);
    RoundsStart(r0, data);
    FirstWords(w[..], data);
    AtEnds(v[..], 0, r0);
    for t: nat := 0 to 80
      invariant InRoles(v[..], t, Rounds(r0, data, t))
      invariant Circular(w[..], data, if t < 16 then 16 else t)
    {
      var x := FetchWord(w, data, t);
      CodeStep(v, t, x, Rounds(r0, data, t));
      RoundsStep(r0, data, t);
    }
    AtEnds(v[..], 80, Rounds(r0, data, 80));
    out := Feed(state, Regs(v[0], v[1], v[2], v[3], v[4]));
  }

  lemma RoundsStart(r: Regs, data: seq<byte>)
    requires |data| == 64
    ensures Rounds(r, data, 0) == r
  {}

  lemma RoundsStep(r: Regs, data: seq<byte>, t: nat)
    requires |data| == 64
    ensures Rounds(r, data, t + 1) == Step(Rounds(r, data, t), t, Schedule(data, t))
  {}

  /** Before the first step and after the last, every register is in its place. */
  lemma AtEnds(v: seq<word>, t: nat, r: Regs)
    requires |v| == 5 && t % 5 == 0
    ensures InRoles(v, t, r) <==> r == Regs(v[0], v[1], v[2], v[3], v[4])
  {}

  lemma FirstWords(w: seq<word>, data: seq<byte>)
    requires |data| == 64 && |w| == 16 && forall i :: 0 <= i < 16 ==> w[i] == GetWord(data, 4 * i)
    ensures Circular(w, data, 16)
  {}
}
