/** Byte arrays packed little-endian, eight to a word: what shifting by whole bytes, masking and
    combining words do to the bytes they hold. */
module Bytes {
  import opened Bits
  import opened Words

  type byte = b: nat | b < 256

  type ByteString = seq<byte>

  /** Byte `j` of a word, the least significant first; bytes past the eighth read as zero. */
  function Byte(x: Word, j: nat): byte {
    LoBound(Hi(x, 8 * j), 8);
    Lo(Hi(x, 8 * j), 8)
  }

  /** Byte `p` of an array of words; past the end it reads as zero. */
  function ByteAt(ws: seq<Word>, p: nat): byte {
    if p / 8 < |ws| then Byte(ws[p / 8], p % 8) else 0
  }

  lemma ByteBit(x: Word, j: nat, i: nat)
    ensures Bit(Byte(x, j), i) <==> i < 8 && Bit(x, 8 * j + i)
  {
    BitLo(Hi(x, 8 * j), 8, i);
    BitHi(x, 8 * j, i);
  }

  /** A word is its eight bytes. */
  lemma ByteExtensional(x: Word, y: Word)
    requires forall j: nat :: j < 8 ==> Byte(x, j) == Byte(y, j)
    ensures x == y
  {
    forall i: nat | i < 64
      ensures Bit(x, i) == Bit(y, i)
    {
      assert Byte(x, i / 8) == Byte(y, i / 8);
      ByteBit(x, i / 8, i % 8);
      ByteBit(y, i / 8, i % 8);
    }
    Pow2Values();
    Extensional(x, y, 64);
  }

  lemma ByteShr(x: Word, k: nat, j: nat)
    requires j < 8
    ensures Byte(Shr(x, 8 * k), j) == if j + k < 8 then Byte(x, j + k) else 0
  {
    var r := if j + k < 8 then Byte(x, j + k) else 0;
    forall i: nat | i < 8
      ensures Bit(Byte(Shr(x, 8 * k), j), i) == Bit(r, i)
    {
      ByteBit(Shr(x, 8 * k), j, i);
      ByteBit(x, j + k, i);
      BitHi(x, 8 * k, 8 * j + i);
      assert 8 * k + (8 * j + i) == 8 * (j + k) + i;
      if j + k >= 8 {
        Pow2Values();
        HighBitsClear(x, 64, 8 * (j + k) + i);
        HighBitsClear(0, 0, i);
      }
    }
    Extensional(Byte(Shr(x, 8 * k), j), r, 8);
  }

  lemma ByteShl(x: Word, k: nat, j: nat)
    requires j < 8
    ensures Byte(Shl(x, 8 * k), j) == if j < k then 0 else Byte(x, j - k)
  {
    var r := if j < k then 0 else Byte(x, j - k);
    forall i: nat | i < 8
      ensures Bit(Byte(Shl(x, 8 * k), j), i) == Bit(r, i)
    {
      ByteBit(Shl(x, 8 * k), j, i);
      BitLo(Up(x, 8 * k), 64, 8 * j + i);
      BitUp(x, 8 * k, 8 * j + i);
      if j < k {
        HighBitsClear(0, 0, i);
      } else {
        ByteBit(x, j - k, i);
        assert 8 * j + i - 8 * k == 8 * (j - k) + i;
      }
    }
    Extensional(Byte(Shl(x, 8 * k), j), r, 8);
  }

  /** Where one of two combined words has a zero byte, exclusive or passes the other's through. */
  lemma ByteXor(x: Word, y: Word, j: nat)
    ensures Byte(y, j) == 0 ==> Byte(Bxor(x, y), j) == Byte(x, j)
    ensures Byte(x, j) == 0 ==> Byte(Bxor(x, y), j) == Byte(y, j)
    ensures Byte(Bxor(x, y), j) == 0 <==> Byte(x, j) == Byte(y, j)
  {
    forall i: nat | i < 8
      ensures Bit(Byte(Bxor(x, y), j), i) == Bit(Xor(Byte(x, j), Byte(y, j)), i)
    {
      ByteBit(x, j, i);
      ByteBit(y, j, i);
      ByteBit(Bxor(x, y), j, i);
      BitOps(x, y, 8 * j + i);
      BitOps(Byte(x, j), Byte(y, j), i);
    }
    OpsBound(Byte(x, j), Byte(y, j), 8);
    Extensional(Byte(Bxor(x, y), j), Xor(Byte(x, j), Byte(y, j)), 8);
    ZeroOps(Byte(x, j));
    ZeroOps(Byte(y, j));
    XorZeroIff(Byte(x, j), Byte(y, j));
  }

  /** Masking with 2^(8k) - 1 keeps the first `k` bytes. */
  lemma ByteMask(x: Word, k: nat, j: nat)
    requires k <= 8 && j < 8
    ensures Pow2(8 * k) - 1 < 0x1_0000_0000_0000_0000
    ensures Byte(Band(x, Pow2(8 * k) - 1), j) == if j < k then Byte(x, j) else 0
  {
    Pow2Values();
    Pow2Mono(8 * k, 64);
    var m := Band(x, Pow2(8 * k) - 1);
    var r := if j < k then Byte(x, j) else 0;
    forall i: nat | i < 8
      ensures Bit(Byte(m, j), i) == Bit(r, i)
    {
      ByteBit(m, j, i);
      ByteBit(x, j, i);
      AndMask(x, 8 * k);
      BitLo(x, 8 * k, 8 * j + i);
      HighBitsClear(0, 0, i);
    }
    Extensional(Byte(m, j), r, 8);
  }

  lemma ByteOfOnes(i: nat)
    ensures Bit(255, i) <==> i < 8
  {
    if i < 8 {
      BitNot(0, 8, i);
      HighBitsClear(0, 0, i);
    } else {
      HighBitsClear(255, 8, i);
    }
  }

  lemma ExtractedBit(x: Word, j: nat, i: nat)
    requires j < 8 && i < 64
    ensures Bit(ExtractByte(x, j), i) == Bit(Byte(x, j), i)
  {
    var mask := Shl(255, 8 * j);
    ByteBit(x, j, i);
    BitHi(Band(x, mask), 8 * j, i);
    BitAnd(x, mask, 8 * j + i);
    BitLo(Up(255, 8 * j), 64, 8 * j + i);
    BitUp(255, 8 * j, 8 * j + i);
    ByteOfOnes(i);
    if 8 * j + i >= 64 {
      Pow2Values();
      HighBitsClear(x, 64, 8 * j + i);
    }
  }

  /** The byte-extraction gate reads the byte it names. */
  lemma ExtractByteIsByte(x: Word, j: nat)
    requires j < 8
    ensures ExtractByte(x, j) == Byte(x, j)
  {
    hide ExtractByte, Byte;
    forall i: nat | i < 64
      ensures Bit(ExtractByte(x, j), i) == Bit(Byte(x, j), i)
    {
      ExtractedBit(x, j, i);
    }
    Pow2Values();
    Extensional(ExtractByte(x, j), Byte(x, j), 64);
  }

  /** The first `n` bytes of an array of words. */
  function Take(ws: seq<Word>, n: nat): (bs: seq<byte>)
    ensures |bs| == n
  {
    seq(n, p requires 0 <= p < n => ByteAt(ws, p))
  }

  /** Up to eight bytes packed into a word, the first lowest. */
  function FromLeBytes(bs: seq<byte>): Word
    requires |bs| <= 8
    decreases |bs|
  {
    PackBound(bs);
    Pack(bs)
  }

  function Pack(bs: seq<byte>): nat {
    if bs == [] then 0 else bs[0] + 256 * Pack(bs[1..])
  }

  lemma {:induction false} PackBound(bs: seq<byte>)
    requires |bs| <= 8
    ensures Pack(bs) < Pow2(8 * |bs|) && Pack(bs) < 0x1_0000_0000_0000_0000
  {
    Pow2Values();
    Pow2Mono(8 * |bs|, 64);
    if bs != [] {
      PackBound(bs[1..]);
      Pow2Add(8, 8 * |bs| - 8);
    }
  }

  lemma ZeroBytes(j: nat)
    ensures Byte(0, j) == 0
  {
    HiLoValue(0, 8 * j);
    DivUnique(0, Pow2(8 * j), 0, 0);
  }

  lemma PackStep(b: byte, rest: nat)
    ensures Lo(b + 256 * rest, 8) == b && Hi(b + 256 * rest, 8) == rest
  {
    UpEight(rest, 0);
    hide Up, Hi, Lo;
    ZeroPlaces(rest);
    JoinedParts(rest, b, 8);
  }

  /** Packing and reading back: byte `j` of the packed word is byte `j` of the input. */
  lemma {:induction false} PackedByte(bs: seq<byte>, j: nat)
    ensures Lo(Hi(Pack(bs), 8 * j), 8) == if j < |bs| then bs[j] else 0
  {
    if bs == [] {
      ZeroBytes(j);
    } else {
      PackStep(bs[0], Pack(bs[1..]));
      if j > 0 {
        HiHi(Pack(bs), 8, 8 * j - 8);
        PackedByte(bs[1..], j - 1);
      }
    }
  }
}
