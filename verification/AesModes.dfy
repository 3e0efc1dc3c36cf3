/** AES as a block cipher for the modes. */
module AesModes {
  import Bytes
  import opened Octets
  import Columns
  import AesSpec
  import AesCode
  import Modes

  ghost function ToBits(b: Modes.Block): (s: seq<bv8>)
    ensures |s| == 16
  {
    seq<bv8>(16, i requires 0 <= i < 16 => Bytes.ToByte(b[i]))
  }

  ghost function ToOctets(s: seq<bv8>): Modes.Block
    requires |s| == 16
  {
    seq<byte>(16, i requires 0 <= i < 16 => Octet(s[i]))
  }

  ghost function Octet(x: bv8): byte {
    Bytes.ByteOfIndex(x);
    Bytes.Ix(x)
  }

  /** What `Encrypt` and `Decrypt` make of a block, under the two schedules. */
  ghost function Aes(w: seq<Columns.Col>, dk: seq<Columns.Col>, nr: nat): Modes.Cipher
    requires nr > 0 && |w| == |dk| == 4 * nr + 4
  {
    Modes.Cipher((b: Modes.Block) => ToOctets(AesCode.StoreState(AesSpec.Cipher(w, nr, AesCode.LoadState(ToBits(b))))),
                 (b: Modes.Block) => ToOctets(AesCode.StoreState(AesSpec.EqInvCipher(dk, nr, AesCode.LoadState(ToBits(b))))))
  }

  lemma BitsOctets(s: seq<bv8>)
    requires |s| == 16
    ensures ToBits(ToOctets(s)) == s
  {
    hide Bytes.ToByte, Bytes.Ix;
    forall i | 0 <= i < 16
      ensures ToBits(ToOctets(s))[i] == s[i]
    {
      Bytes.ByteOfIndex(s[i]);
    }
  }

  lemma OctetsBits(b: Modes.Block)
    ensures ToOctets(ToBits(b)) == b
  {
    hide Bytes.ToByte, Bytes.Ix;
    forall i | 0 <= i < 16
      ensures ToOctets(ToBits(b))[i] == b[i]
    {
      Bytes.IndexOfByte(b[i]);
    }
  }

  /** AES meets what the modes need of a block cipher, so CBC over AES restores every
      message. */
  lemma AesInverts(w: seq<Columns.Col>, dk: seq<Columns.Col>, nr: nat)
    requires nr > 0 && |w| == |dk| == 4 * nr + 4 && AesSpec.IsInverseSchedule(dk, w, nr)
    ensures Modes.Inverts(Aes(w, dk, nr))
  {
    hide ToBits, ToOctets, AesSpec.Cipher, AesSpec.EqInvCipher, AesCode.LoadState, AesCode.StoreState, AesSpec.IsInverseSchedule;
    var c := Aes(w, dk, nr);
    forall b: Modes.Block
      ensures c.dec(c.enc(b)) == b
    {
      AesCode.BlockRoundTrip(w, dk, nr, ToBits(b));
      BitsOctets(AesCode.StoreState(AesSpec.Cipher(w, nr, AesCode.LoadState(ToBits(b)))));
      OctetsBits(b);
    }
  }
}
