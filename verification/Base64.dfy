/** Checking that one array is the unpadded base64url text of another (section 5 of RFC 4648,
    section 2 of RFC 7515), three bytes and four characters at a time. */
module Base64 {
  import opened Bits
  import opened Words
  import opened Bytes

  // ---- The encoding itself. ----

  /** The URL-safe alphabet. */
  function Alphabet(v: nat): (c: byte)
    requires v < 64
  {
    if v < 26 then 65 + v
    else if v < 52 then 97 + v - 26
    else if v < 62 then 48 + v - 52
    else if v == 62 then 45 else 95
  }

  /** Capitals, small letters, digits, hyphen and underscore. */
  lemma AlphabetChars(v: nat)
    requires v < 64
    ensures Alphabet(v) == if v < 26 then 'A' as int + v
                           else if v < 52 then 'a' as int + (v - 26)
                           else if v < 62 then '0' as int + (v - 52)
                           else if v == 62 then '-' as int else '_' as int
  {
  }

  /** Unpadded text of a byte string: a last group of one or two bytes gives two or three characters. */
  function Encode(bs: seq<byte>): seq<byte> {
    if |bs| == 0 then []
    else if |bs| == 1 then [Alphabet(bs[0] / 4), Alphabet(bs[0] % 4 * 16)]
    else if |bs| == 2 then
      [Alphabet(bs[0] / 4), Alphabet(bs[0] % 4 * 16 + bs[1] / 16), Alphabet(bs[1] % 16 * 4)]
    else
      [Alphabet(bs[0] / 4), Alphabet(bs[0] % 4 * 16 + bs[1] / 16),
       Alphabet(bs[1] % 16 * 4 + bs[2] / 64), Alphabet(bs[2] % 64)] + Encode(bs[3..])
  }

  /** The value a character stands for. */
  function Value(c: byte): (v: nat)
    ensures v < 64
  {
    if 65 <= c <= 90 then c - 65
    else if 97 <= c <= 122 then c - 97 + 26
    else if 48 <= c <= 57 then c - 48 + 52
    else if c == 45 then 62 else 63
  }

  lemma ValueOfAlphabet(v: nat)
    requires v < 64
    ensures Value(Alphabet(v)) == v && Alphabet(v) != 0
  {
  }

  function Decode(cs: seq<byte>): seq<byte> {
    if |cs| < 2 then []
    else if |cs| == 2 then [Value(cs[0]) * 4 + Value(cs[1]) / 16]
    else if |cs| == 3 then
      [Value(cs[0]) * 4 + Value(cs[1]) / 16, Value(cs[1]) % 16 * 16 + Value(cs[2]) / 4]
    else
      [Value(cs[0]) * 4 + Value(cs[1]) / 16, Value(cs[1]) % 16 * 16 + Value(cs[2]) / 4,
       Value(cs[2]) % 4 * 64 + Value(cs[3])] + Decode(cs[4..])
  }

  lemma GroupRoundTrip(b0: byte, b1: byte, b2: byte)
    ensures b0 / 4 * 4 + (b0 % 4 * 16 + b1 / 16) / 16 == b0
    ensures (b0 % 4 * 16 + b1 / 16) % 16 * 16 + (b1 % 16 * 4 + b2 / 64) / 4 == b1
    ensures (b1 % 16 * 4 + b2 / 64) % 4 * 64 + b2 % 64 == b2
  {
  }

  lemma AlphabetRoundTrip()
    ensures forall v: nat :: v < 64 ==> Value(Alphabet(v)) == v
  {
    forall v: nat | v < 64
      ensures Value(Alphabet(v)) == v
    {
      ValueOfAlphabet(v);
    }
  }

  lemma DecodeNone()
    ensures Decode([]) == []
  {
  }

  lemma DecodeOne(b0: byte)
    ensures Decode([Alphabet(b0 / 4), Alphabet(b0 % 4 * 16)]) == [b0]
  {
    AlphabetRoundTrip();
    hide Alphabet, Value;
  }

  lemma {:induction false} DecodeTwo(b0: byte, b1: byte)
    ensures Decode([Alphabet(b0 / 4), Alphabet(b0 % 4 * 16 + b1 / 16), Alphabet(b1 % 16 * 4)]) == [b0, b1]
  {
    AlphabetRoundTrip();
    hide Alphabet, Value;
    GroupRoundTrip(b0, b1, 0);
  }

  lemma {:induction false} DecodeLast(bs: seq<byte>)
    requires |bs| < 3
    ensures Decode(Encode(bs)) == bs
  {
    DecodeNone();
    hide Alphabet, Decode;
    if |bs| == 1 {
      DecodeOne(bs[0]);
      assert bs == [bs[0]];
    } else if |bs| == 2 {
      DecodeTwo(bs[0], bs[1]);
      assert bs == [bs[0], bs[1]];
    }
  }

  lemma {:induction false} DecodeGroup(b0: byte, b1: byte, b2: byte, rest: seq<byte>)
    ensures Decode([Alphabet(b0 / 4), Alphabet(b0 % 4 * 16 + b1 / 16), Alphabet(b1 % 16 * 4 + b2 / 64),
                    Alphabet(b2 % 64)] + rest)
         == [b0, b1, b2] + Decode(rest)
  {
    AlphabetRoundTrip();
    hide Alphabet, Value;
    GroupRoundTrip(b0, b1, b2);
    var group := [Alphabet(b0 / 4), Alphabet(b0 % 4 * 16 + b1 / 16), Alphabet(b1 % 16 * 4 + b2 / 64),
                  Alphabet(b2 % 64)];
    assert (group + rest)[4..] == rest;
  }

  /** Decoding the text gives the bytes back. */
  lemma {:induction false} DecodeEncode(bs: seq<byte>)
    ensures Decode(Encode(bs)) == bs
  {
    if |bs| < 3 {
      DecodeLast(bs);
    } else {
      hide Alphabet, Decode;
      DecodeGroup(bs[0], bs[1], bs[2], Encode(bs[3..]));
      DecodeEncode(bs[3..]);
      assert bs == [bs[0], bs[1], bs[2]] + bs[3..];
    }
  }

  /** Byte `p` of a byte string, zero past its end. */
  function ByteOr0(bs: seq<byte>, p: nat): byte {
    if p < |bs| then bs[p] else 0
  }

  /** How many of the input's bytes must exist for character `c` to be written. */
  function Needed(c: nat): nat {
    c / 4 * 3 + if c % 4 < 2 then 1 else c % 4
  }

  /** The six bits character `r` of a group takes from the group's three bytes. */
  function SixBits(b0: byte, b1: byte, b2: byte, r: nat): (v: nat)
    requires r < 4
    ensures v < 64
  {
    if r == 0 then b0 / 4
    else if r == 1 then b0 % 4 * 16 + b1 / 16
    else if r == 2 then b1 % 16 * 4 + b2 / 64
    else b2 % 64
  }

  /** The six bits behind character `c`, reading zeros past the end of the input. */
  function Sextet(bs: seq<byte>, c: nat): (v: nat)
    ensures v < 64
  {
    SixBits(ByteOr0(bs, c / 4 * 3), ByteOr0(bs, c / 4 * 3 + 1), ByteOr0(bs, c / 4 * 3 + 2), c % 4)
  }

  lemma SixBitsByPosition(bs: seq<byte>)
    ensures var (b0, b1, b2) := (ByteOr0(bs, 0), ByteOr0(bs, 1), ByteOr0(bs, 2));
            && SixBits(b0, b1, b2, 0) == b0 / 4 && SixBits(b0, b1, b2, 1) == b0 % 4 * 16 + b1 / 16
            && SixBits(b0, b1, b2, 2) == b1 % 16 * 4 + b2 / 64 && SixBits(b0, b1, b2, 3) == b2 % 64
  {
  }

  /** The text, character by character. */
  lemma {:induction false} EncodedChar(bs: seq<byte>, c: nat)
    ensures c < |Encode(bs)| <==> Needed(c) <= |bs|
    ensures c < |Encode(bs)| ==> Encode(bs)[c] == Alphabet(Sextet(bs, c))
  {
    hide Alphabet, SixBits;
    SixBitsByPosition(bs);
    if |bs| >= 3 && c >= 4 {
      EncodedChar(bs[3..], c - 4);
      assert (c - 4) / 4 == c / 4 - 1 && (c - 4) % 4 == c % 4;
    }
  }

  // ---- The circuit. ----

  /** A byte of a word array, or zero past its end. */
  function ReadByte(words: seq<Word>, byteIdx: nat): (r: Word)
    ensures r == ByteAt(words, byteIdx)
  {
    var word := if byteIdx / 8 < |words| then words[byteIdx / 8] else 0;
    ExtractByteIsByte(word, byteIdx % 8);
    ZeroBytes(byteIdx % 8);
    ExtractByte(word, byteIdx % 8)
  }

  function SixBits0(byte0: Word): Word {
    Shr(byte0, 2)
  }

  function SixBits1(byte0: Word, byte1: Word): Word {
    Bxor(Shl(Band(byte0, 3), 4), Shr(byte1, 4))
  }

  function SixBits2(byte1: Word, byte2: Word): Word {
    Bxor(Shl(Band(byte1, 15), 2), Shr(byte2, 6))
  }

  function SixBits3(byte2: Word): Word {
    Band(byte2, 63)
  }

  /** The low bits of a byte, masked and shifted up to make room. */
  lemma MaskedUp(a: byte, mask: Word, keep: nat, up: nat)
    requires keep + up == 6 && mask == Pow2(keep) - 1
    ensures Shl(Band(a, mask), up) == Up(Lo(a, keep), up)
  {
    hide Lo, Up, And;
    AndMask(a, keep);
    LoBound(a, keep);
    JoinedBound(Lo(a, keep), 0, up, 6);
    Pow2Mono(6, 64);
    LoId(Up(Lo(a, keep), up), 64);
  }

  lemma {:induction false} SixBitValues(b0: byte, b1: byte, b2: byte)
    ensures SixBits0(b0) == b0 / 4
    ensures SixBits1(b0, b1) == b0 % 4 * 16 + b1 / 16
    ensures SixBits2(b1, b2) == b1 % 16 * 4 + b2 / 64
    ensures SixBits3(b2) == b2 % 64
  {
    hide Shl, Band, Hi, Lo, Up, Xor;
    HiLoValue(b0, 2);
    HiLoValue(b1, 4);
    HiLoValue(b2, 6);
    MaskedUp(b0, 3, 2, 4);
    UpValue(Lo(b0, 2), 4);
    XorDisjoint(Lo(b0, 2), Hi(b1, 4), 4);
    MaskedUp(b1, 15, 4, 2);
    UpValue(Lo(b1, 4), 2);
    XorDisjoint(Lo(b1, 4), Hi(b2, 6), 2);
    MaskSix(b2);
  }

  lemma MaskSix(b: byte)
    ensures Band(b, 63) == Lo(b, 6)
  {
    AndMask(b, 6);
  }

  /** The character for a six-bit value: three range checks and one addition, the digits' offset
      being minus four in a byte. */
  function ExpectedChar(v: Word): Word {
    var isLowercase := IcmpUge(v, 26);
    var isDigit := IcmpUge(v, 52);
    var isSymbol := IcmpUge(v, 62);
    var offset := Select(isDigit, 0xfc, Select(isLowercase, 97 - 26, 65));
    var alphanumeric := Band(Iadd32(v, offset), 0xff);
    var symbol := Select(Shl(v, 63), 95, 45);
    Select(isSymbol, symbol, alphanumeric)
  }

  lemma SmallHalves(x: nat)
    requires x < 512
    ensures Lo(x, 32) == x && Hi(x, 32) == 0
  {
    Pow2Values();
    LoId(x, 32);
    HiBound(x, 32, 32);
  }

  lemma {:induction false} SmallSum(x: Word, y: Word)
    requires x < 256 && y < 256
    ensures Band(Iadd32(x, y), 0xff) == (x + y) % 256
  {
    hide Lo, Hi, And;
    SmallHalves(x);
    SmallHalves(y);
    SmallHalves(x + y);
    SmallHalves(0);
    UpValue(0, 32);
    AndMask(x + y, 8);
    HiLoValue(x + y, 8);
  }

  /** The gates spell out the alphabet. */
  lemma {:induction false} ExpectedCharIsAlphabet(v: Word)
    requires v < 64
    ensures ExpectedChar(v) == Alphabet(v)
  {
    hide IcmpUge, Band, Iadd32, Shl, IsTrue;
    ShlTrue(v, 0);
    SmallSum(v, 0xfc);
    SmallSum(v, 97 - 26);
    SmallSum(v, 65);
  }

  /** The character a group's circuit demands at position `r`. */
  function DemandedChar(decoded: seq<Word>, len: nat, g: nat, r: nat): byte
    requires r < 4
  {
    if 3 * g + (if r < 2 then 1 else r) <= len
    then Alphabet(SixBits(ByteAt(decoded, 3 * g), ByteAt(decoded, 3 * g + 1), ByteAt(decoded, 3 * g + 2), r))
    else 0
  }

  /** What a group's circuit demands: no bytes past the length, and the right four characters. */
  ghost predicate GroupOk(decoded: seq<Word>, encoded: seq<Word>, len: nat, g: nat) {
    && (3 * g >= len ==> ByteAt(decoded, 3 * g) == 0)
    && (3 * g + 1 >= len ==> ByteAt(decoded, 3 * g + 1) == 0)
    && (3 * g + 2 >= len ==> ByteAt(decoded, 3 * g + 2) == 0)
    && forall r: nat {:trigger DemandedChar(decoded, len, g, r)} :: r < 4 ==>
         ByteAt(encoded, 4 * g + r) == DemandedChar(decoded, len, g, r)
  }

  /** The assertions on one character: the expected one where it is written, zero elsewhere. */
  function CharOk(expected: Word, actual: Word, isActive: Word): bool {
    actual == Select(isActive, expected, 0)
  }

  function EmptyOk(b: Word, isPresent: Word): bool {
    IsTrue(Bnot(isPresent)) ==> b == 0
  }

  /** Three decoded bytes against four encoded characters. */
  method VerifyGroup(decoded: seq<Word>, encoded: seq<Word>, lenBytes: Word, groupIdx: nat) returns (sat: bool)
    requires 3 * groupIdx + 2 < 0x1_0000_0000_0000_0000
    ensures sat <==> GroupOk(decoded, encoded, lenBytes, groupIdx)
  {
    hide IcmpUlt, Bnot, IsTrue, SixBits0, SixBits1, SixBits2, SixBits3, ExpectedChar, ByteAt, ReadByte, Alphabet;
    var baseByte, baseChar := groupIdx * 3, groupIdx * 4;
    var byte0 := ReadByte(decoded, baseByte);
    var byte1 := ReadByte(decoded, baseByte + 1);
    var byte2 := ReadByte(decoded, baseByte + 2);
    var has1 := IcmpUlt(baseByte, lenBytes);
    var has2 := IcmpUlt(baseByte + 1, lenBytes);
    var has3 := IcmpUlt(baseByte + 2, lenBytes);
    NotTrue(has1);
    NotTrue(has2);
    NotTrue(has3);
    sat := EmptyOk(byte0, has1) && EmptyOk(byte1, has2) && EmptyOk(byte2, has3);
    SixBitValues(byte0, byte1, byte2);
    var val0, val1 := SixBits0(byte0), SixBits1(byte0, byte1);
    var val2, val3 := SixBits2(byte1, byte2), SixBits3(byte2);
    ExpectedCharIsAlphabet(val0);
    ExpectedCharIsAlphabet(val1);
    ExpectedCharIsAlphabet(val2);
    ExpectedCharIsAlphabet(val3);
    sat := sat && CharOk(ExpectedChar(val0), ReadByte(encoded, baseChar), has1);
    sat := sat && CharOk(ExpectedChar(val1), ReadByte(encoded, baseChar + 1), has1);
    sat := sat && CharOk(ExpectedChar(val2), ReadByte(encoded, baseChar + 2), has2);
    sat := sat && CharOk(ExpectedChar(val3), ReadByte(encoded, baseChar + 3), has3);
    GroupByCases(decoded, encoded, lenBytes, groupIdx);
  }

  lemma GroupByCases(decoded: seq<Word>, encoded: seq<Word>, len: nat, g: nat)
    ensures (forall r: nat {:trigger DemandedChar(decoded, len, g, r)} :: r < 4 ==>
               ByteAt(encoded, 4 * g + r) == DemandedChar(decoded, len, g, r)) <==>
      (&& ByteAt(encoded, 4 * g) == DemandedChar(decoded, len, g, 0)
       && ByteAt(encoded, 4 * g + 1) == DemandedChar(decoded, len, g, 1)
       && ByteAt(encoded, 4 * g + 2) == DemandedChar(decoded, len, g, 2)
       && ByteAt(encoded, 4 * g + 3) == DemandedChar(decoded, len, g, 3))
  {
    hide ByteAt, DemandedChar;
  }

  /** `encoded` holds the text of `bs` and then zeros, for as many groups as the circuit has. */
  ghost predicate HoldsText(encoded: seq<Word>, bs: seq<byte>, groups: nat) {
    forall c: nat :: c < 4 * groups ==> ByteAt(encoded, c) == ByteOr0(Encode(bs), c)
  }

  ghost predicate ZeroFrom(decoded: seq<Word>, len: nat) {
    forall p: nat :: p >= len ==> ByteAt(decoded, p) == 0
  }

  /** Where nothing lies past the length, the demanded characters are the text's. */
  lemma DemandIsText(decoded: seq<Word>, len: nat, g: nat, r: nat)
    requires r < 4 && ZeroFrom(decoded, len)
    ensures DemandedChar(decoded, len, g, r) == ByteOr0(Encode(Take(decoded, len)), 4 * g + r)
  {
    hide Alphabet, SixBits, ByteAt, Encode;
    EncodedChar(Take(decoded, len), 4 * g + r);
    assert (4 * g + r) / 4 == g && (4 * g + r) % 4 == r;
    assert forall p: nat :: ByteOr0(Take(decoded, len), p) == ByteAt(decoded, p);
  }

  lemma {:induction false} GroupsAreText(decoded: seq<Word>, encoded: seq<Word>, len: nat, groups: nat)
    requires 8 * |decoded| <= 3 * groups && len <= 8 * |decoded|
    ensures (forall g: nat :: g < groups ==> GroupOk(decoded, encoded, len, g)) <==>
      ZeroFrom(decoded, len) && HoldsText(encoded, Take(decoded, len), groups)
  {
    hide DemandedChar, Encode;
    if forall g: nat :: g < groups ==> GroupOk(decoded, encoded, len, g) {
      forall p: nat | p >= len
        ensures ByteAt(decoded, p) == 0
      {
        if p < 8 * |decoded| {
          assert GroupOk(decoded, encoded, len, p / 3);
          assert p == 3 * (p / 3) || p == 3 * (p / 3) + 1 || p == 3 * (p / 3) + 2;
        }
      }
      forall c: nat | c < 4 * groups
        ensures ByteAt(encoded, c) == ByteOr0(Encode(Take(decoded, len)), c)
      {
        assert GroupOk(decoded, encoded, len, c / 4);
        DemandIsText(decoded, len, c / 4, c % 4);
      }
    }
    if ZeroFrom(decoded, len) && HoldsText(encoded, Take(decoded, len), groups) {
      forall g: nat | g < groups
        ensures GroupOk(decoded, encoded, len, g)
      {
        forall r: nat | r < 4
          ensures ByteAt(encoded, 4 * g + r) == DemandedChar(decoded, len, g, r)
        {
          DemandIsText(decoded, len, g, r);
        }
      }
    }
  }

  /** The circuit is satisfied exactly when the length fits, nothing lies past it, and the encoded
      array is the unpadded base64url text of the first `lenBytes` bytes followed by zeros. */
  method New(decoded: seq<Word>, encoded: seq<Word>, lenBytes: Word) returns (sat: bool)
    requires 8 * |decoded| + 4 < 0x1_0000_0000_0000_0000
    ensures sat <==>
      (&& lenBytes <= 8 * |decoded| && ZeroFrom(decoded, lenBytes)
       && HoldsText(encoded, Take(decoded, lenBytes), (8 * |decoded| + 2) / 3))
  {
    hide IcmpUlt, IsTrue, GroupOk;
    var tooLong := IcmpUlt(8 * |decoded|, lenBytes);
    sat := !IsTrue(tooLong);
    var groups := (8 * |decoded| + 2) / 3;
    for g := 0 to groups
      invariant sat <==> lenBytes <= 8 * |decoded| && forall k: nat :: k < g ==> GroupOk(decoded, encoded, lenBytes, k)
    {
      var ok := VerifyGroup(decoded, encoded, lenBytes, g);
      sat := sat && ok;
    }
    if lenBytes <= 8 * |decoded| {
      GroupsAreText(decoded, encoded, lenBytes, groups);
    }
  }

  lemma {:induction false} TextFits(bs: seq<byte>)
    ensures |Encode(bs)| == (4 * |bs| + 2) / 3
    ensures forall c: nat :: c < |Encode(bs)| ==> Encode(bs)[c] != 0
  {
    hide Alphabet;
    forall v: nat | v < 64
      ensures Alphabet(v) != 0
    {
      ValueOfAlphabet(v);
    }
    if |bs| >= 3 {
      TextFits(bs[3..]);
    }
  }

  /** The encoded array of a satisfied circuit determines the length and the decoded array. */
  lemma EncodedDetermines(d1: seq<Word>, len1: nat, d2: seq<Word>, len2: nat, encoded: seq<Word>, groups: nat)
    requires |d1| == |d2| && 8 * |d1| <= 3 * groups && len1 <= 8 * |d1| && len2 <= 8 * |d2|
    requires ZeroFrom(d1, len1) && HoldsText(encoded, Take(d1, len1), groups)
    requires ZeroFrom(d2, len2) && HoldsText(encoded, Take(d2, len2), groups)
    ensures len1 == len2 && d1 == d2
  {
    hide Encode, ByteAt, Decode;
    var t1, t2 := Encode(Take(d1, len1)), Encode(Take(d2, len2));
    TextFits(Take(d1, len1));
    TextFits(Take(d2, len2));
    assert forall c: nat :: c < 4 * groups ==> ByteOr0(t1, c) == ByteAt(encoded, c) == ByteOr0(t2, c);
    assert |t1| < 4 * groups ==> ByteOr0(t1, |t1|) == ByteOr0(t2, |t1|);
    assert |t2| < 4 * groups ==> ByteOr0(t1, |t2|) == ByteOr0(t2, |t2|);
    forall c: nat | c < |t1|
      ensures t1[c] == t2[c]
    {
      assert ByteOr0(t1, c) == ByteOr0(t2, c);
    }
    assert t1 == t2;
    DecodeEncode(Take(d1, len1));
    DecodeEncode(Take(d2, len2));
    assert Take(d1, len1) == Take(d2, len2);
    forall i | 0 <= i < |d1|
      ensures d1[i] == d2[i]
    {
      SameWord(d1, d2, len1, i);
    }
  }

  lemma SameWord(d1: seq<Word>, d2: seq<Word>, len: nat, i: nat)
    requires |d1| == |d2| && i < |d1| && ZeroFrom(d1, len) && ZeroFrom(d2, len) && Take(d1, len) == Take(d2, len)
    ensures d1[i] == d2[i]
  {
    forall j: nat | j < 8
      ensures Byte(d1[i], j) == Byte(d2[i], j)
    {
      var p := 8 * i + j;
      assert ByteAt(d1, p) == Byte(d1[i], j) && ByteAt(d2, p) == Byte(d2[i], j);
      if p < len {
        assert Take(d1, len)[p] == Take(d2, len)[p];
      }
    }
    ByteExtensional(d1[i], d2[i]);
  }
}
