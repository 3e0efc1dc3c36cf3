/** The table-driven block cipher: key schedules, encryption, decryption. */
module AesCode {
  import opened Arith
  import opened Bytes
  import opened Field
  import opened Columns
  import opened SBoxes
  import opened AesTables
  import opened AesSpec

  // ----------------------------------------------------------------- lookups

  function Look(t: Tables, box: array<bv8>, b: bv8): bv8
    requires t.Ready() && box.Length == 256
    reads t.Arrays(), box
  {
    assert Ix(b) < 256;
    box[Ix(b)]
  }

  /** Four bytes through the forward box, each into its place. */
  function ForwardBytes(t: Tables, b0: bv8, b1: bv8, b2: bv8, b3: bv8): (c: Col)
    requires t.Ready()
    reads t.Arrays()
    ensures c == SubCol(Col(b0, b1, b2, b3))
  {
    hide SBox, Ix;
    Col(Look(t, t.fsb, b0), Look(t, t.fsb, b1), Look(t, t.fsb, b2), Look(t, t.fsb, b3))
  }

  function ReverseBytes(t: Tables, b0: bv8, b1: bv8, b2: bv8, b3: bv8): (c: Col)
    requires t.Ready()
    reads t.Arrays()
    ensures c == InvSubCol(Col(b0, b1, b2, b3))
  {
    hide SBox, InvSBox, Ix;
    Col(Look(t, t.rsb, b0), Look(t, t.rsb, b1), Look(t, t.rsb, b2), Look(t, t.rsb, b3))
  }

  lemma ForwardEntry(t: Tables, b: bv8)
    requires t.Ready()
    ensures t.Shaped() && Ix(b) < 256
    ensures t.ft0[Ix(b)] == Forward(SBox(b)) && t.ft1[Ix(b)] == Rot(Forward(SBox(b)))
    ensures t.ft2[Ix(b)] == Rot(Rot(Forward(SBox(b)))) && t.ft3[Ix(b)] == Rot(Rot(Rot(Forward(SBox(b)))))
  {
    hide SBox, Ix, Forward, Rot;
    assert Ix(b) < 256 && t.EntryReady(Ix(b));
  }

  lemma ReverseEntry(t: Tables, b: bv8)
    requires t.Ready()
    ensures t.Shaped() && Ix(b) < 256
    ensures t.rt0[Ix(b)] == Reverse(InvSBox(b)) && t.rt1[Ix(b)] == Rot(Reverse(InvSBox(b)))
    ensures t.rt2[Ix(b)] == Rot(Rot(Reverse(InvSBox(b)))) && t.rt3[Ix(b)] == Rot(Rot(Rot(Reverse(InvSBox(b)))))
  {
    hide SBox, InvSBox, Ix, Reverse, Rot;
    assert Ix(b) < 256 && t.EntryReady(Ix(b));
  }

  /** One line of the macro AES_FROUND. */
  function ForwardLine(t: Tables, rk: Col, b0: bv8, b1: bv8, b2: bv8, b3: bv8): (c: Col)
    requires t.Ready()
    reads t.Arrays()
    ensures c == Xor(Mix(SubCol(Col(b0, b1, b2, b3))), rk)
  {
    hide SBox, Ix, Xor, Add5, Mix, Rot, Forward, Tables.Ready;
    ForwardEntry(t, b0);
    ForwardEntry(t, b1);
    ForwardEntry(t, b2);
    ForwardEntry(t, b3);
    ForwardIsMix(SubCol(Col(b0, b1, b2, b3)));
    LineOrder(rk, t.ft0[Ix(b0)], t.ft1[Ix(b1)], t.ft2[Ix(b2)], t.ft3[Ix(b3)]);
    Add5(rk, t.ft0[Ix(b0)], t.ft1[Ix(b1)], t.ft2[Ix(b2)], t.ft3[Ix(b3)])
  }

  /** One line of the macro AES_RROUND. */
  function ReverseLine(t: Tables, rk: Col, b0: bv8, b1: bv8, b2: bv8, b3: bv8): (c: Col)
    requires t.Ready()
    reads t.Arrays()
    ensures c == Xor(InvMix(InvSubCol(Col(b0, b1, b2, b3))), rk)
  {
    hide SBox, InvSBox, Ix, Xor, Add5, Add4, InvMix, Rot, Reverse, Tables.Ready;
    ReverseEntry(t, b0);
    ReverseEntry(t, b1);
    ReverseEntry(t, b2);
    ReverseEntry(t, b3);
    ReverseIsInvMix(InvSubCol(Col(b0, b1, b2, b3)));
    LineOrder(rk, t.rt0[Ix(b0)], t.rt1[Ix(b1)], t.rt2[Ix(b2)], t.rt3[Ix(b3)]);
    Add5(rk, t.rt0[Ix(b0)], t.rt1[Ix(b1)], t.rt2[Ix(b2)], t.rt3[Ix(b3)])
  }

  function Add5(k: Col, a: Col, b: Col, c: Col, d: Col): Col {
    Xor(Xor(Xor(Xor(k, a), b), c), d)
  }

  function Add4(a: Col, b: Col, c: Col, d: Col): Col {
    Xor(Xor(Xor(a, b), c), d)
  }

  lemma Add4Order(a: Col, b: Col, c: Col, d: Col)
    ensures Add4(a, b, c, d) == Xor(Xor(a, b), Xor(c, d))
  {
    hide Xor;
    XorAssoc(Xor(a, b), c, d);
  }

  lemma LineOrder(k: Col, a: Col, b: Col, c: Col, d: Col)
    ensures Add5(k, a, b, c, d) == Xor(Xor(Xor(a, b), Xor(c, d)), k)
  {
    hide Xor;
    XorAssoc(k, a, b);
    XorAssoc(k, Xor(a, b), c);
    XorAssoc(k, Xor(Xor(a, b), c), d);
    XorAssoc(Xor(a, b), c, d);
    XorCancel(k, Xor(Xor(a, b), Xor(c, d)));
  }

  // ------------------------------------------------------------ key schedule

  function LoadCol(b: seq<bv8>, i: nat): Col
    requires i + 4 <= |b|
  {
    Col(b[i], b[i + 1], b[i + 2], b[i + 3])
  }

  /** A key as words. */
  function KeyWords(key: seq<bv8>): (w: seq<Col>)
    ensures |w| == |key| / 4
  {
    seq<Col>(|key| / 4, i requires 0 <= i < |key| / 4 => LoadCol(key, 4 * i))
  }

  /** The first `p` words of the buffer are those of the standard's schedule. */
  ghost predicate Prefix(buf: seq<Col>, key: seq<Col>, p: nat) {
    |key| > 0 && p <= |buf| && forall j :: 0 <= j < p ==> buf[j] == Word(key, j)
  }

  lemma WordStep(key: seq<Col>, p: nat)
    requires |key| > 0 && p >= |key|
    ensures var temp :=
              if p % |key| == 0 then Xor(SubCol(RotWord(Word(key, p - 1))), Col(RoundConstant(p / |key| - 1), 0, 0, 0))
              else if |key| > 6 && p % |key| == 4 then SubCol(Word(key, p - 1))
              else Word(key, p - 1);
            Word(key, p) == Xor(Word(key, p - |key|), temp)
  {
    hide Xor, SubCol, RoundConstant, RotWord;
  }

  /** The first word of a group: rotation, substitution, round constant. */
  method FirstWord(t: Tables, buf: array<Col>, ghost key: seq<Col>, nk: nat, p: nat, i: nat)
    requires t.Ready() && buf !in t.Arrays() && Prefix(buf[..], key, p) && |key| == nk && p < buf.Length
    requires i < 10 && p == nk * (i + 1) && nk > 0
    modifies buf
    ensures Prefix(buf[..], key, p + 1)
  {
    hide Word, Xor, SubCol, SBox, RoundConstant, Tables.BoxesReady, Tables.EntryReady;
    DivModUnique(p, nk, i + 1, 0);
    assert p >= nk;
    WordStep(key, p);
    var last := buf[p - 1];
    var sub := ForwardBytes(t, last.b1, last.b2, last.b3, last.b0);
    XorAssoc(buf[p - nk], t.rcon[i], sub);
    XorCancel(t.rcon[i], sub);
    buf[p] := Xor(Xor(buf[p - nk], t.rcon[i]), sub);
  }

  /** An inner word of a group. */
  method NextWord(buf: array<Col>, ghost key: seq<Col>, nk: nat, p: nat)
    requires Prefix(buf[..], key, p) && |key| == nk && nk <= p < buf.Length
    requires p % nk != 0 && (nk <= 6 || p % nk != 4)
    modifies buf
    ensures Prefix(buf[..], key, p + 1)
  {
    hide Word, Xor, SubCol, SBox, RoundConstant;
    WordStep(key, p);
    buf[p] := Xor(buf[p - nk], buf[p - 1]);
  }

  /** The middle word of an eight-word group: substitution only. */
  method MiddleWord(t: Tables, buf: array<Col>, ghost key: seq<Col>, p: nat)
    requires t.Ready() && buf !in t.Arrays() && Prefix(buf[..], key, p) && |key| == 8 <= p < buf.Length && p % 8 == 4
    modifies buf
    ensures Prefix(buf[..], key, p + 1)
  {
    hide Word, Xor, SubCol, SBox, RoundConstant, Tables.BoxesReady, Tables.EntryReady;
    WordStep(key, p);
    var last := buf[p - 1];
    buf[p] := Xor(buf[p - 8], ForwardBytes(t, last.b0, last.b1, last.b2, last.b3));
  }

  method Expand128(t: Tables, buf: array<Col>, ghost key: seq<Col>)
    requires t.Ready() && buf !in t.Arrays() && buf.Length == 68 && |key| == 4 && Prefix(buf[..], key, 4)
    modifies buf
    ensures Prefix(buf[..], key, 44)
  {
    hide Prefix, Tables.Ready;
    for i: nat := 0 to 10
      invariant Prefix(buf[..], key, 4 * i + 4)
    {
      FirstWord(t, buf, key, 4, 4 * i + 4, i);
      NextWord(buf, key, 4, 4 * i + 5);
      NextWord(buf, key, 4, 4 * i + 6);
      NextWord(buf, key, 4, 4 * i + 7);
    }
  }

  method Expand192(t: Tables, buf: array<Col>, ghost key: seq<Col>)
    requires t.Ready() && buf !in t.Arrays() && buf.Length == 68 && |key| == 6 && Prefix(buf[..], key, 6)
    modifies buf
    ensures Prefix(buf[..], key, 54)
  {
    hide Prefix, Tables.Ready;
    for i: nat := 0 to 8
      invariant Prefix(buf[..], key, 6 * i + 6)
    {
      FirstWord(t, buf, key, 6, 6 * i + 6, i);
      NextWord(buf, key, 6, 6 * i + 7);
      NextWord(buf, key, 6, 6 * i + 8);
      NextWord(buf, key, 6, 6 * i + 9);
      NextWord(buf, key, 6, 6 * i + 10);
      NextWord(buf, key, 6, 6 * i + 11);
    }
  }

  method Expand256(t: Tables, buf: array<Col>, ghost key: seq<Col>)
    requires t.Ready() && buf !in t.Arrays() && buf.Length == 68 && |key| == 8 && Prefix(buf[..], key, 8)
    modifies buf
    ensures Prefix(buf[..], key, 64)
  {
    hide Prefix, Tables.Ready;
    for i: nat := 0 to 7
      invariant Prefix(buf[..], key, 8 * i + 8)
    {
      FirstWord(t, buf, key, 8, 8 * i + 8, i);
      NextWord(buf, key, 8, 8 * i + 9);
      NextWord(buf, key, 8, 8 * i + 10);
      NextWord(buf, key, 8, 8 * i + 11);
      MiddleWord(t, buf, key, 8 * i + 12);
      NextWord(buf, key, 8, 8 * i + 13);
      NextWord(buf, key, 8, 8 * i + 14);
      NextWord(buf, key, 8, 8 * i + 15);
    }
  }

  const INVALID_KEY_LENGTH: int := -0x0020

  /** Key words, nr, and round-key words for a valid key size. */
  predicate ValidSize(keybits: nat) {
    keybits in {128, 192, 256}
  }

  function LoadState(b: seq<bv8>): State
    requires |b| == 16
  {
    State(LoadCol(b, 0), LoadCol(b, 4), LoadCol(b, 8), LoadCol(b, 12))
  }

  function StoreCol(c: Col): (b: seq<bv8>)
    ensures |b| == 4
  {
    [c.b0, c.b1, c.b2, c.b3]
  }

  function StoreState(s: State): (b: seq<bv8>)
    ensures |b| == 16
  {
    StoreCol(s.c0) + StoreCol(s.c1) + StoreCol(s.c2) + StoreCol(s.c3)
  }

  /** Section 3.4 of FIPS 197: byte `r + 4c` of a block is row `r` of column `c`. */
  lemma LoadStateEntries(b: seq<bv8>, r: nat, c: nat)
    requires |b| == 16 && r < 4 && c < 4
    ensures Row(Column(LoadState(b), c), r) == b[r + 4 * c]
  {
    if c == 0 {} else if c == 1 {} else if c == 2 {} else {}
  }

  lemma StoreStateEntries(s: State, r: nat, c: nat)
    requires r < 4 && c < 4
    ensures StoreState(s)[r + 4 * c] == Row(Column(s, c), r)
  {
    if c == 0 {} else if c == 1 {} else if c == 2 {} else {}
  }

  /** Section 5.2: four bytes of the key in a row are a word. */
  lemma KeyWordEntries(key: seq<bv8>, j: nat, r: nat)
    requires r < 4 && 4 * j + 4 <= |key|
    ensures Row(KeyWords(key)[j], r) == key[4 * j + r]
  {}

  lemma LoadStore(s: State)
    ensures LoadState(StoreState(s)) == s
  {}

  lemma StoreLoad(b: seq<bv8>)
    requires |b| == 16
    ensures StoreState(LoadState(b)) == b
  {}

  class Context {
    var nr: nat
    const buf: array<Col>
    const tables: Tables

    /** Shared, once generated tables and this context's own key buffer. */
    ghost predicate Separate() {
      tables.Shaped() && buf.Length == 68 && buf !in tables.Arrays()
    }

    /** A key schedule is loaded. */
    ghost predicate Keyed()
      reads this, tables.Arrays()
    {
      Separate() && tables.Ready() && nr in {10, 12, 14}
    }

    ghost function Schedule(): (w: seq<Col>)
      requires buf.Length == 68 && nr <= 14
      reads this, buf
      ensures |w| == 4 * nr + 4
    {
      buf[..4 * nr + 4]
    }

    /** `init`. */
    constructor (tables: Tables)
      requires tables.Shaped()
      ensures this.tables == tables && Separate() && fresh(buf)
    {
      this.tables := tables;
      nr := 0;
      buf := new Col[68](_ => ZERO);
      new;
      assert allocated(tables.Arrays()) && fresh(buf);
    }

    /** `utils_aes_setkey_enc`. */
    method SetKeyEnc(key: seq<bv8>, keybits: nat) returns (ret: int)
      requires Separate() && (tables.done ==> tables.Ready())
      requires ValidSize(keybits) ==> 8 * |key| == keybits
      modifies this, buf, tables, tables.Arrays()
      ensures !ValidSize(keybits) ==> ret == INVALID_KEY_LENGTH && nr == old(nr) && buf[..] == old(buf[..])
      ensures ValidSize(keybits) ==> ret == 0 && Keyed() && nr == |key| / 4 + 6 && Schedule() == Expanded(KeyWords(key))
      ensures tables.done ==> tables.Ready()
    {
      hide Tables.Ready, Prefix, Expanded;
      if keybits == 128 {
        nr := 10;
      } else if keybits == 192 {
        nr := 12;
      } else if keybits == 256 {
        nr := 14;
      } else {
        return INVALID_KEY_LENGTH;
      }
      tables.Prepare();
      ghost var words := KeyWords(key);
      LoadKey(key);
      ExpandKey(words);
      return 0;
    }

    /** `switch (ctx->nr)`. */
    method ExpandKey(ghost words: seq<Col>)
      requires Keyed() && |words| == nr - 6 && Prefix(buf[..], words, |words|)
      modifies buf
      ensures Keyed() && Schedule() == Expanded(words)
    {
      hide Tables.Ready;
      if nr == 10 {
        Expand128(tables, buf, words);
      } else if nr == 12 {
        Expand192(tables, buf, words);
      } else {
        Expand256(tables, buf, words);
      }
    }

    method LoadKey(key: seq<bv8>)
      requires Separate() && |key| in {16, 24, 32}
      modifies buf
      ensures Prefix(buf[..], KeyWords(key), |key| / 4)
    {
      for i: nat := 0 to |key| / 4
        invariant forall j :: 0 <= j < i ==> buf[j] == KeyWords(key)[j]
      {
        buf[i] := LoadCol(key, 4 * i);
      }
    }

    /** `utils_aes_setkey_dec`. */
    method SetKeyDec(key: seq<bv8>, keybits: nat) returns (ret: int)
      requires Separate() && (tables.done ==> tables.Ready())
      requires ValidSize(keybits) ==> 8 * |key| == keybits
      modifies this, buf, tables, tables.Arrays()
      ensures !ValidSize(keybits) ==> ret == INVALID_KEY_LENGTH && nr == old(nr) && buf[..] == old(buf[..])
      ensures ValidSize(keybits) ==> ret == 0 && Keyed() && nr == |key| / 4 + 6
      ensures ValidSize(keybits) ==> IsInverseSchedule(Schedule(), Expanded(KeyWords(key)), nr)
      ensures tables.done ==> tables.Ready()
    {
      hide Tables.Ready, IsInverseSchedule;
      var cty := new Context(tables);
      ret := cty.SetKeyEnc(key, keybits);
      if ret != 0 { return; }
      nr := cty.nr;
      InvertSchedule(cty.buf[..4 * cty.nr + 4]);
    }

    /** The copying loop: forward over this buffer, backward over `sk` by round keys. */
    method InvertSchedule(sk: seq<Col>)
      requires Keyed() && |sk| == 4 * nr + 4
      modifies buf
      ensures Keyed() && IsInverseSchedule(Schedule(), sk, nr)
    {
      hide Tables.Ready, InvMixColumns, RoundKey;
      CopyKey(0, sk, nr);
      var i: nat := nr - 1;
      while i > 0
        invariant i < nr && RoundKey(buf[..], 0) == RoundKey(sk, nr)
        invariant forall r :: 0 < r < nr - i ==> RoundKey(buf[..], r) == InvMixColumns(RoundKey(sk, nr - r))
      {
        UnmixKey(nr - i, sk, i);
        i := i - 1;
      }
      CopyKey(nr, sk, 0);
      SameRoundKeys(buf[..], nr);
      forall r | 0 < r < nr
        ensures RoundKey(Schedule(), r) == InvMixColumns(RoundKey(sk, nr - r))
      {
        assert RoundKey(buf[..], r) == InvMixColumns(RoundKey(sk, nr - r));
      }
      assert RoundKey(buf[..], 0) == RoundKey(sk, nr) && RoundKey(buf[..], nr) == RoundKey(sk, 0);
    }

    method CopyKey(k: nat, sk: seq<Col>, from: nat)
      requires 4 * k + 4 <= buf.Length && 4 * from + 4 <= |sk|
      modifies buf
      ensures RoundKey(buf[..], k) == RoundKey(sk, from)
      ensures forall r: nat :: r != k && 4 * r + 4 <= buf.Length ==> RoundKey(buf[..], r) == old(RoundKey(buf[..], r))
    {
      var rk, f := 4 * k, 4 * from;
      buf[rk] := sk[f];
      buf[rk + 1] := sk[f + 1];
      buf[rk + 2] := sk[f + 2];
      buf[rk + 3] := sk[f + 3];
    }

    method UnmixKey(k: nat, sk: seq<Col>, from: nat)
      requires Keyed() && 4 * k + 4 <= buf.Length && 4 * from + 4 <= |sk|
      modifies buf
      ensures RoundKey(buf[..], k) == InvMixColumns(RoundKey(sk, from))
      ensures forall r: nat :: r != k && 4 * r + 4 <= buf.Length ==> RoundKey(buf[..], r) == old(RoundKey(buf[..], r))
    {
      hide Tables.Ready, InvMix;
      var rk, f := 4 * k, 4 * from;
      ghost var was := buf[..];
      for j: nat := 0 to 4
        invariant Keyed()
        invariant forall l :: 0 <= l < buf.Length && !(rk <= l < rk + j) ==> buf[l] == was[l]
        invariant forall l :: rk <= l < rk + j ==> buf[l] == InvMix(sk[f + l - rk])
      {
        UnmixWord(rk + j, sk[f + j]);
      }
      assert buf[rk] == InvMix(sk[f]) && buf[rk + 1] == InvMix(sk[f + 1]) && buf[rk + 2] == InvMix(sk[f + 2]) && buf[rk + 3] == InvMix(sk[f + 3]);
    }

    method UnmixWord(p: nat, c: Col)
      requires Keyed() && p < buf.Length
      modifies buf
      ensures Keyed() && buf[..] == old(buf[..][p := InvMix(c)])
    {
      hide Tables.Ready, InvMix;
      buf[p] := UnmixLine(tables, c);
    }

    /** The macro AES_FROUND: four lines, four round-key words. */
    method ForwardRound(k: nat, y: State) returns (x: State)
      requires Keyed() && 4 * k + 4 <= buf.Length
      ensures x == AddKey(MixColumns(ShiftRows(SubBytes(y))), RoundKey(buf[..], k))
    {
      hide Xor, Mix, SBox, Tables.Ready;
      var rk := 4 * k;
      x := State(ForwardLine(tables, buf[rk], y.c0.b0, y.c1.b1, y.c2.b2, y.c3.b3),
                 ForwardLine(tables, buf[rk + 1], y.c1.b0, y.c2.b1, y.c3.b2, y.c0.b3),
                 ForwardLine(tables, buf[rk + 2], y.c2.b0, y.c3.b1, y.c0.b2, y.c1.b3),
                 ForwardLine(tables, buf[rk + 3], y.c3.b0, y.c0.b1, y.c1.b2, y.c2.b3));
    }

    /** The last round, through the S-box alone. */
    method ForwardLast(k: nat, y: State) returns (x: State)
      requires Keyed() && 4 * k + 4 <= buf.Length
      ensures x == AddKey(ShiftRows(SubBytes(y)), RoundKey(buf[..], k))
    {
      hide Xor, SBox, Tables.Ready;
      var rk := 4 * k;
      x := State(Keyed1(buf[rk], ForwardBytes(tables, y.c0.b0, y.c1.b1, y.c2.b2, y.c3.b3)),
                 Keyed1(buf[rk + 1], ForwardBytes(tables, y.c1.b0, y.c2.b1, y.c3.b2, y.c0.b3)),
                 Keyed1(buf[rk + 2], ForwardBytes(tables, y.c2.b0, y.c3.b1, y.c0.b2, y.c1.b3)),
                 Keyed1(buf[rk + 3], ForwardBytes(tables, y.c3.b0, y.c0.b1, y.c1.b2, y.c2.b3)));
    }

    /** The macro AES_RROUND. */
    method ReverseRound(k: nat, y: State) returns (x: State)
      requires Keyed() && 4 * k + 4 <= buf.Length
      ensures x == AddKey(InvMixColumns(InvShiftRows(InvSubBytes(y))), RoundKey(buf[..], k))
    {
      hide Xor, InvMix, InvSBox, Tables.Ready;
      var rk := 4 * k;
      x := State(ReverseLine(tables, buf[rk], y.c0.b0, y.c3.b1, y.c2.b2, y.c1.b3),
                 ReverseLine(tables, buf[rk + 1], y.c1.b0, y.c0.b1, y.c3.b2, y.c2.b3),
                 ReverseLine(tables, buf[rk + 2], y.c2.b0, y.c1.b1, y.c0.b2, y.c3.b3),
                 ReverseLine(tables, buf[rk + 3], y.c3.b0, y.c2.b1, y.c1.b2, y.c0.b3));
    }

    method ReverseLast(k: nat, y: State) returns (x: State)
      requires Keyed() && 4 * k + 4 <= buf.Length
      ensures x == AddKey(InvShiftRows(InvSubBytes(y)), RoundKey(buf[..], k))
    {
      hide Xor, InvSBox, Tables.Ready;
      var rk := 4 * k;
      x := State(Keyed1(buf[rk], ReverseBytes(tables, y.c0.b0, y.c3.b1, y.c2.b2, y.c1.b3)),
                 Keyed1(buf[rk + 1], ReverseBytes(tables, y.c1.b0, y.c0.b1, y.c3.b2, y.c2.b3)),
                 Keyed1(buf[rk + 2], ReverseBytes(tables, y.c2.b0, y.c1.b1, y.c0.b2, y.c3.b3)),
                 Keyed1(buf[rk + 3], ReverseBytes(tables, y.c3.b0, y.c2.b1, y.c1.b2, y.c0.b3)));
    }

    /** The four words loaded and keyed. */
    method FirstKey(input: seq<bv8>) returns (x: State)
      requires Keyed() && |input| == 16
      ensures x == AddKey(LoadState(input), RoundKey(buf[..], 0))
    {
      hide Xor;
      x := State(Xor(LoadCol(input, 0), buf[0]), Xor(LoadCol(input, 4), buf[1]), Xor(LoadCol(input, 8), buf[2]), Xor(LoadCol(input, 12), buf[3]));
    }

    method NextRound(ghost s: State, r: nat, x: State) returns (y: State)
      requires Keyed() && r < nr && x == Rounds(Schedule(), s, r)
      ensures y == Rounds(Schedule(), s, r + 1)
    {
      hide AddKey, MixColumns, ShiftRows, SubBytes, RoundKey, Tables.Ready;
      SameRoundKeys(buf[..], nr);
      y := ForwardRound(r + 1, x);
    }

    method NextInvRound(ghost s: State, r: nat, x: State) returns (y: State)
      requires Keyed() && r < nr && x == InvRounds(Schedule(), s, r)
      ensures y == InvRounds(Schedule(), s, r + 1)
    {
      hide AddKey, InvMixColumns, InvShiftRows, InvSubBytes, RoundKey, Tables.Ready;
      SameRoundKeys(buf[..], nr);
      y := ReverseRound(r + 1, x);
    }

    /** `utils_internal_aes_encrypt`: rounds in pairs, one more, then the last. */
    method Encrypt(input: seq<bv8>) returns (output: seq<bv8>)
      requires Keyed() && |input| == 16
      ensures output == StoreState(Cipher(Schedule(), nr, LoadState(input)))
    {
      hide AddKey, ShiftRows, SubBytes, LoadState, StoreState, RoundKey, Rounds, Tables.Ready;
      ghost var s := LoadState(input);
      SameRoundKeys(buf[..], nr);
      RoundsStart(Schedule(), s);
      var x := FirstKey(input);
      var r: nat, i := 0, nr / 2 - 1;
      while i > 0
        invariant 0 <= i && r == nr - 2 - 2 * i && x == Rounds(Schedule(), s, r)
      {
        var y := NextRound(s, r, x);
        x := NextRound(s, r + 1, y);
        r := r + 2;
        i := i - 1;
      }
      var y := NextRound(s, r, x);
      x := ForwardLast(r + 2, y);
      output := StoreState(x);
    }

    /** `utils_internal_aes_decrypt`. */
    method Decrypt(input: seq<bv8>) returns (output: seq<bv8>)
      requires Keyed() && |input| == 16
      ensures output == StoreState(EqInvCipher(Schedule(), nr, LoadState(input)))
    {
      hide AddKey, InvShiftRows, InvSubBytes, LoadState, StoreState, RoundKey, InvRounds, Tables.Ready;
      ghost var s := LoadState(input);
      SameRoundKeys(buf[..], nr);
      RoundsStart(Schedule(), s);
      var x := FirstKey(input);
      var r: nat, i := 0, nr / 2 - 1;
      while i > 0
        invariant 0 <= i && r == nr - 2 - 2 * i && x == InvRounds(Schedule(), s, r)
      {
        var y := NextInvRound(s, r, x);
        x := NextInvRound(s, r + 1, y);
        r := r + 2;
        i := i - 1;
      }
      var y := NextInvRound(s, r, x);
      x := ReverseLast(r + 2, y);
      output := StoreState(x);
    }
  }

  lemma RoundsStart(w: seq<Col>, s: State)
    requires |w| >= 4
    ensures Rounds(w, s, 0) == AddKey(s, RoundKey(w, 0)) == InvRounds(w, s, 0)
  {}

  lemma SameRoundKeys(buf: seq<Col>, nr: nat)
    requires 4 * nr + 4 <= |buf|
    ensures forall r {:trigger RoundKey(buf, r)} :: 0 <= r <= nr ==> RoundKey(buf[..4 * nr + 4], r) == RoundKey(buf, r)
  {}

  function Keyed1(rk: Col, c: Col): (r: Col)
    ensures r == Xor(c, rk)
  {
    XorCancel(c, rk);
    Xor(rk, c)
  }

  /** The decryption schedule's line: substitute, then the reverse tables. */
  function UnmixLine(t: Tables, c: Col): (r: Col)
    requires t.Ready()
    reads t.Arrays()
    ensures r == InvMix(c)
  {
    hide SBox, InvSBox, Ix, Xor, Add5, Add4, InvMix, Rot, Reverse, Tables.Ready;
    var s := ForwardBytes(t, c.b0, c.b1, c.b2, c.b3);
    ReverseEntry(t, s.b0);
    ReverseEntry(t, s.b1);
    ReverseEntry(t, s.b2);
    ReverseEntry(t, s.b3);
    InvSBoxIs(c.b0);
    InvSBoxIs(c.b1);
    InvSBoxIs(c.b2);
    InvSBoxIs(c.b3);
    ReverseIsInvMix(c);
    Add4Order(t.rt0[Ix(s.b0)], t.rt1[Ix(s.b1)], t.rt2[Ix(s.b2)], t.rt3[Ix(s.b3)]);
    Add4(t.rt0[Ix(s.b0)], t.rt1[Ix(s.b1)], t.rt2[Ix(s.b2)], t.rt3[Ix(s.b3)])
  }

  /** What `Decrypt` makes, under the decryption schedule, of what `Encrypt` makes
      under the encryption schedule of the same key: the block itself. */
  lemma BlockRoundTrip(w: seq<Col>, dk: seq<Col>, nr: nat, block: seq<bv8>)
    requires nr > 0 && |w| == |dk| == 4 * nr + 4 && IsInverseSchedule(dk, w, nr) && |block| == 16
    ensures StoreState(EqInvCipher(dk, nr, LoadState(StoreState(Cipher(w, nr, LoadState(block)))))) == block
  {
    hide EqInvCipher, Cipher, LoadState, StoreState;
    LoadStore(Cipher(w, nr, LoadState(block)));
    DecipherEncipher(w, dk, nr, LoadState(block));
    StoreLoad(block);
  }

  /** One key set up for both directions, the tables generated on the way if they are
      not yet: every block comes back. */
  method EncryptThenDecrypt(tables: Tables, key: seq<bv8>, block: seq<bv8>) returns (cipher: seq<bv8>, plain: seq<bv8>)
    requires |key| in {16, 24, 32} && |block| == 16 && tables.Shaped() && (tables.done ==> tables.Ready())
    modifies tables, tables.Arrays()
    ensures cipher == StoreState(Cipher(Expanded(KeyWords(key)), |key| / 4 + 6, LoadState(block)))
    ensures plain == block
  {
    hide Tables.Ready, IsInverseSchedule, Cipher, EqInvCipher, LoadState, StoreState, Expanded, KeyWords;
    var enc := new Context(tables);
    var ret := enc.SetKeyEnc(key, 8 * |key|);
    cipher := enc.Encrypt(block);
    var dec := new Context(tables);
    ret := dec.SetKeyDec(key, 8 * |key|);
    plain := dec.Decrypt(cipher);
    BlockRoundTrip(Expanded(KeyWords(key)), dec.Schedule(), dec.nr, block);
  }
}
