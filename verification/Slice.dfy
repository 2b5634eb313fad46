/** Comparing and extracting byte ranges of word arrays at offsets only known at run time. */
module Slice {
  import opened Bits
  import opened Words
  import opened Bytes
  import opened Multiplexer
  import opened Shift

  const U32_MAX: nat := 0xFFFF_FFFF

  /** Two arrays hold the same first `len` bytes, as far as the arrays reach. */
  ghost predicate SamePrefix(a: seq<Word>, e: seq<Word>, len: nat) {
    forall p: nat :: p < len && p < 8 * |a| ==> ByteAt(a, p) == ByteAt(e, p)
  }

  /** The bytes of word `i` that lie below `len` agree. */
  ghost predicate WordAgrees(a: Word, e: Word, len: nat, i: nat) {
    forall j: nat :: j < 8 && 8 * i + j < len ==> Byte(a, j) == Byte(e, j)
  }

  lemma PrefixByWords(a: seq<Word>, e: seq<Word>, len: nat)
    requires |a| == |e|
    ensures SamePrefix(a, e, len) <==> forall i: nat :: i < |a| ==> WordAgrees(a[i], e[i], len, i)
  {
    if SamePrefix(a, e, len) {
      forall i: nat, j: nat | i < |a| && j < 8 && 8 * i + j < len
        ensures Byte(a[i], j) == Byte(e[i], j)
      {
        assert ByteAt(a, 8 * i + j) == ByteAt(e, 8 * i + j);
      }
    }
    if forall i: nat :: i < |a| ==> WordAgrees(a[i], e[i], len, i) {
      forall p: nat | p < len && p < 8 * |a|
        ensures ByteAt(a, p) == ByteAt(e, p)
      {
        assert WordAgrees(a[p / 8], e[p / 8], len, p / 8);
      }
    }
  }

  /** Shifting both words up by 8 - d bytes leaves exactly their low d bytes to compare. */
  lemma ShiftedCompare(a: Word, e: Word, d: nat)
    requires d <= 8
    ensures Shl(a, 8 * (8 - d)) == Shl(e, 8 * (8 - d)) <==> forall j: nat :: j < d ==> Byte(a, j) == Byte(e, j)
  {
    var sa, se := Shl(a, 8 * (8 - d)), Shl(e, 8 * (8 - d));
    if sa == se {
      forall j: nat | j < d
        ensures Byte(a, j) == Byte(e, j)
      {
        ByteShl(a, 8 - d, j + 8 - d);
        ByteShl(e, 8 - d, j + 8 - d);
      }
    }
    if forall j: nat :: j < d ==> Byte(a, j) == Byte(e, j) {
      forall j: nat | j < 8
        ensures Byte(sa, j) == Byte(se, j)
      {
        ByteShl(a, 8 - d, j);
        ByteShl(e, 8 - d, j);
      }
      ByteExtensional(sa, se);
    }
  }

  lemma PartialWordAgrees(a: Word, e: Word, len: nat, i: nat)
    requires 8 * i < len <= 8 * i + 8
    ensures Shl(a, 8 * (8 - (len - 8 * i))) == Shl(e, 8 * (8 - (len - 8 * i))) <==> WordAgrees(a, e, len, i)
  {
    var d := len - 8 * i;
    ShiftedCompare(a, e, d);
    if forall j: nat :: j < d ==> Byte(a, j) == Byte(e, j) {
      assert WordAgrees(a, e, len, i);
    }
    if WordAgrees(a, e, len, i) {
      forall j: nat | j < d
        ensures Byte(a, j) == Byte(e, j)
      {
        assert 8 * i + j < len;
      }
    }
  }

  lemma WholeWordAgrees(a: Word, e: Word, len: nat, i: nat)
    requires 8 * i + 8 <= len
    ensures a == e <==> WordAgrees(a, e, len, i)
  {
    if WordAgrees(a, e, len, i) {
      forall j: nat | j < 8
        ensures Byte(a, j) == Byte(e, j)
      {
        assert 8 * i + j < len;
      }
      ByteExtensional(a, e);
    }
  }

  /** The comparison emitted for word `i`: whole, shifted up past the length, or skipped. */
  method AssertWordEq(lenBytes: Word, i: nat, a: Word, e: Word) returns (sat: bool)
    requires 8 * i < 0x1_0000_0000_0000_0000
    ensures sat <==> WordAgrees(a, e, lenBytes, i)
  {
    hide Isub, IcmpEq, Shl;
    var startByte := 8 * i;
    var (diffRaw, borrow) := Isub(lenBytes, startByte);
    var diff := Select(borrow, 0, diffRaw);
    var (eightMinusDiff, diffGt8) := Isub(8, diff);
    var aShifted := VarSllBytes(a, eightMinusDiff);
    var eShifted := VarSllBytes(e, eightMinusDiff);
    var aPart := Select(diffGt8, a, aShifted);
    var ePart := Select(diffGt8, e, eShifted);
    var diffEq0 := IcmpEq(diff, 0);
    var aCmp := Select(diffEq0, 0, aPart);
    var eCmp := Select(diffEq0, 0, ePart);
    sat := aCmp == eCmp;
    if diff > 8 {
      WholeWordAgrees(a, e, lenBytes, i);
    } else if diff > 0 {
      assert eightMinusDiff == 8 - diff && eightMinusDiff % 8 == 8 - diff;
      PartialWordAgrees(a, e, lenBytes, i);
    } else {
      assert lenBytes <= 8 * i;
    }
  }

  /** Asserts that two word arrays agree on their first `lenBytes` bytes, for any length wire. */
  method AssertSliceEq(lenBytes: Word, actual: seq<Word>, expected: seq<Word>) returns (sat: bool)
    requires |actual| == |expected| && 8 * |actual| <= 0x1_0000_0000_0000_0000
    ensures sat <==> SamePrefix(actual, expected, lenBytes)
  {
    sat := true;
    for i := 0 to |actual|
      invariant sat <==> forall k: nat :: k < i ==> WordAgrees(actual[k], expected[k], lenBytes, k)
    {
      var ok := AssertWordEq(lenBytes, i, actual[i], expected[i]);
      sat := sat && ok;
    }
    PrefixByWords(actual, expected, lenBytes);
  }

  /** The facts the assertions of `Slice` pin down: everything fits 32 bits, the slice lies inside
      the input length and inside the output. */
  predicate SliceBounds(lenInput: Word, lenSlice: Word, offset: Word, maxNWords: nat) {
    && offset <= U32_MAX && lenSlice <= U32_MAX && lenInput <= U32_MAX
    && offset + lenSlice <= lenInput && lenSlice <= 8 * maxNWords
  }

  lemma Shr32Zero(x: Word)
    ensures Shr(x, 32) == 0 <==> x <= U32_MAX
  {
    HiLoValue(x, 32);
    Pow2Values();
  }

  /** Where an output word of the slice reads: byte `byteOffset` of word `word` onwards, running
      into its successor. */
  lemma StraddledByte(inWord: Word, nextWord: Word, byteOffset: nat, j: nat)
    requires 0 < byteOffset < 8 && j < 8
    ensures var w := Bxor(Shr(inWord, 8 * byteOffset), Shl(nextWord, 8 * (8 - byteOffset)));
            Byte(w, j) == if j + byteOffset < 8 then Byte(inWord, j + byteOffset)
                          else Byte(nextWord, j + byteOffset - 8)
  {
    var lo, hi := Shr(inWord, 8 * byteOffset), Shl(nextWord, 8 * (8 - byteOffset));
    ByteShr(inWord, byteOffset, j);
    ByteShl(nextWord, 8 - byteOffset, j);
    ByteXor(lo, hi, j);
  }

  lemma OffsetParts(offset: Word)
    ensures Shr(offset, 3) == offset / 8 && Band(offset, 7) == offset % 8
  {
    HiLoValue(offset, 3);
    AndMask(offset, 3);
  }

  /** `out` holds the eight bytes that start `byteOffset` bytes into `inWord`. */
  ghost predicate Spliced(inWord: Word, nextWord: Word, byteOffset: nat, out: Word) {
    forall j: nat :: j < 8 ==>
      Byte(out, j) == if j + byteOffset < 8 then Byte(inWord, j + byteOffset)
                      else Byte(nextWord, j + byteOffset - 8)
  }

  lemma UnalignedSplice(inWord: Word, nextWord: Word, byteOffset: nat)
    requires 0 < byteOffset < 8
    ensures Spliced(inWord, nextWord, byteOffset,
                    Bxor(Shr(inWord, 8 * byteOffset), Shl(nextWord, 8 * (8 - byteOffset))))
  {
    var out := Bxor(Shr(inWord, 8 * byteOffset), Shl(nextWord, 8 * (8 - byteOffset)));
    forall j: nat | j < 8
      ensures Byte(out, j) == if j + byteOffset < 8 then Byte(inWord, j + byteOffset)
                              else Byte(nextWord, j + byteOffset - 8)
    {
      StraddledByte(inWord, nextWord, byteOffset, j);
    }
  }

  /** One output word: the word itself when the offset is aligned, else two words spliced. */
  method SliceWord(inWord: Word, nextWord: Word, byteOffset: Word) returns (out: Word)
    requires byteOffset < 8
    ensures Spliced(inWord, nextWord, byteOffset, out)
  {
    hide Isub, IcmpEq, Shl, Shr;
    var (negByteOffset, _) := Isub(8, byteOffset);
    var isAligned := IcmpEq(byteOffset, 0);
    var low := VarSrlBytes(inWord, byteOffset);
    var high := VarSllBytes(nextWord, negByteOffset);
    out := Select(isAligned, inWord, Bxor(low, high));
    if byteOffset > 0 {
      assert negByteOffset % 8 == 8 - byteOffset && byteOffset % 8 == byteOffset;
      UnalignedSplice(inWord, nextWord, byteOffset);
    }
  }

  /** How many words of the rotated input the slice keeps. */
  function Window(n: nat, maxNWords: nat): nat {
    if maxNWords + 1 < n then maxNWords + 1 else n
  }

  /** The input word that output word `k` starts in: the words the slice reads are taken from a
      window with wrap-around, and the window from the input, rotated by the low bits of the offset. */
  function ReadIndex(n: nat, maxNWords: nat, offset: nat, k: nat): (i: nat)
    requires n > 0
    ensures i < n
  {
    Wrap(Lo(offset / 8, Log2Ceil(n)) + Wrap(k, Window(n, maxNWords)), n)
  }

  /** Output word `k` is exactly the eight bytes from that word and its successor in the window. */
  ghost predicate ReadsWord(input: seq<Word>, maxNWords: nat, offset: nat, k: nat, out: Word)
    requires |input| > 0
  {
    Spliced(input[ReadIndex(|input|, maxNWords, offset, k)], input[ReadIndex(|input|, maxNWords, offset, k + 1)],
            offset % 8, out)
  }

  /** Inside the input, neither wrap-around shows. */
  lemma ReadInside(n: nat, maxNWords: nat, offset: nat, k: nat)
    requires k <= maxNWords && offset / 8 + k < n
    ensures ReadIndex(n, maxNWords, offset, k) == offset / 8 + k
  {
    LoId(offset / 8, Log2Ceil(n));
  }

  /** Output word `k` holds the input bytes from `offset + 8 * k` on, where the input has them. */
  ghost predicate SlicedWord(input: seq<Word>, offset: nat, k: nat, out: Word) {
    forall j: nat :: j < 8 && offset + 8 * k + j < 8 * |input| ==>
      Byte(out, j) == ByteAt(input, offset + 8 * k + j)
  }

  lemma ReadIsSliced(input: seq<Word>, maxNWords: nat, offset: nat, k: nat, out: Word)
    requires |input| > 0 && k < maxNWords && ReadsWord(input, maxNWords, offset, k, out)
    ensures SlicedWord(input, offset, k, out)
  {
    hide ReadIndex, Byte;
    if offset / 8 + k < |input| {
      ReadInside(|input|, maxNWords, offset, k);
      if offset / 8 + k + 1 < |input| {
        ReadInside(|input|, maxNWords, offset, k + 1);
      }
    }
    forall j: nat | j < 8 && offset + 8 * k + j < 8 * |input|
      ensures Byte(out, j) == ByteAt(input, offset + 8 * k + j)
    {
      var p := offset + 8 * k + j;
      if j + offset % 8 < 8 {
        assert p / 8 == offset / 8 + k && p % 8 == j + offset % 8;
      } else {
        assert p / 8 == offset / 8 + k + 1 && p % 8 == j + offset % 8 - 8;
      }
    }
  }

  /** Every byte of the output whose place lies in the input is the input's. */
  lemma SlicedBytes(input: seq<Word>, offset: nat, out: seq<Word>)
    requires |out| > 0 ==> |input| > 0
    requires forall k: nat :: k < |out| ==> ReadsWord(input, |out|, offset, k, out[k])
    ensures forall p: nat :: p < 8 * |out| && offset + p < 8 * |input| ==>
      ByteAt(out, p) == ByteAt(input, offset + p)
  {
    hide ReadsWord;
    forall p: nat | p < 8 * |out| && offset + p < 8 * |input|
      ensures ByteAt(out, p) == ByteAt(input, offset + p)
    {
      ReadIsSliced(input, |out|, offset, p / 8, out[p / 8]);
      assert offset + 8 * (p / 8) + p % 8 == offset + p;
    }
  }

  /** `out` is what the slice returns for this input. */
  ghost predicate IsSlice(input: seq<Word>, offset: nat, out: seq<Word>) {
    && (|out| > 0 ==> |input| > 0)
    && forall k: nat :: k < |out| ==> ReadsWord(input, |out|, offset, k, out[k])
  }

  /** The wanted bytes are the input's. */
  ghost predicate Copies(input: seq<Word>, offset: nat, lenSlice: nat, out: seq<Word>) {
    forall p: nat :: p < lenSlice ==> offset + p < 8 * |input| && ByteAt(out, p) == ByteAt(input, offset + p)
  }

  /** Every wanted byte is the input's if and only if the slice ends inside the input array, which the
      assertions do not say. */
  lemma CopiesIff(input: seq<Word>, offset: nat, lenSlice: nat, out: seq<Word>)
    requires IsSlice(input, offset, out) && lenSlice <= 8 * |out|
    ensures Copies(input, offset, lenSlice, out) <==> lenSlice == 0 || offset + lenSlice <= 8 * |input|
  {
    hide ReadsWord;
    SlicedBytes(input, offset, out);
    if lenSlice > 0 {
      var last := lenSlice - 1;
      assert Copies(input, offset, lenSlice, out) ==> ByteAt(out, last) == ByteAt(input, offset + last);
    }
  }

  /** One word, claimed to be sixteen bytes long, sliced at byte eight: the assertions hold, and what
      comes back is the word itself, none of whose bytes was asked for. */
  lemma SlicePastArray(w: Word, out: Word)
    requires IsSlice([w], 8, [out])
    ensures SliceBounds(16, 8, 8, 1) && out == w && !Copies([w], 8, 8, [out])
  {
    CopiesIff([w], 8, 8, [out]);
    assert ReadsWord([w], 1, 8, 0, [out][0]);
    ByteExtensional(out, w);
  }

  /** The assertions emitted before any word is read. */
  method AssertSliceBounds(lenInput: Word, lenSlice: Word, offset: Word, maxNWords: nat) returns (sat: bool)
    requires 8 * maxNWords <= U32_MAX
    ensures sat <==> SliceBounds(lenInput, lenSlice, offset, maxNWords)
  {
    hide Iadd, IcmpUle, Shr;
    Shr32Zero(offset);
    Shr32Zero(lenSlice);
    Shr32Zero(lenInput);
    sat := Shr(offset, 32) == 0 && Shr(lenSlice, 32) == 0 && Shr(lenInput, 32) == 0;
    var (offsetPlusLenSlice, _) := Iadd(offset, lenSlice);
    var inBounds := IcmpUle(offsetPlusLenSlice, lenInput);
    var sufficientCapacity := IcmpUle(lenSlice, 8 * maxNWords);
    sat := sat && IsTrue(inBounds) && IsTrue(sufficientCapacity);
  }

  /** The words of the slice: one rotation of the input serves them all. */
  method SliceWords(input: seq<Word>, offset: Word, maxNWords: nat) returns (out: seq<Word>)
    requires 0 < |input| <= U32_MAX
    ensures |out| == maxNWords
    ensures forall k: nat :: k < maxNWords ==> ReadsWord(input, maxNWords, offset, k, out[k])
  {
    hide Shr, Band, Spliced, Wrap;
    var wordOffset := Shr(offset, 3);
    var byteOffset := Band(offset, 7);
    OffsetParts(offset);
    var window := if maxNWords + 1 < |input| then maxNWords + 1 else |input|;
    var rotated := RotateLeftDynamic(input, wordOffset, window);
    out := [];
    for i := 0 to maxNWords
      invariant |out| == i
      invariant forall k: nat :: k < i ==> ReadsWord(input, maxNWords, offset, k, out[k])
    {
      var inWord := rotated[Wrap(i, window)];
      var nextWord := rotated[Wrap(i + 1, window)];
      var word := SliceWord(inWord, nextWord, byteOffset);
      out := out + [word];
    }
  }

  /** Extracts `lenSlice` bytes of `input` from byte `offset` into `maxNWords` words. The assertions
      hold exactly when the slice fits the input's claimed length; then every wanted byte that lies in
      the input array is copied. Every output byte, wanted or not, is the byte of the input that
      `ReadsWord` names. */
  method Slice(lenInput: Word, lenSlice: Word, input: seq<Word>, offset: Word, maxNWords: nat)
    returns (sat: bool, out: seq<Word>)
    requires 8 * |input| <= U32_MAX && 8 * maxNWords <= U32_MAX
    requires maxNWords > 0 ==> |input| > 0
    ensures |out| == maxNWords
    ensures sat <==> SliceBounds(lenInput, lenSlice, offset, maxNWords)
    ensures sat && lenInput <= 8 * |input| ==>
              && offset + lenSlice <= lenInput
              && Take(out, lenSlice) == Take(input, lenInput)[offset..offset + lenSlice]
    ensures IsSlice(input, offset, out)
    ensures sat ==> (Copies(input, offset, lenSlice, out) <==> lenSlice == 0 || offset + lenSlice <= 8 * |input|)
    ensures sat ==> forall p: nat :: p < lenSlice && offset + p < 8 * |input| ==>
      ByteAt(out, p) == ByteAt(input, offset + p)
  {
    sat := AssertSliceBounds(lenInput, lenSlice, offset, maxNWords);
    if maxNWords == 0 {
      out := [];
      CopiesIff(input, offset, 0, out);
      return;
    }
    out := SliceWords(input, offset, maxNWords);
    SlicedBytes(input, offset, out);
    if sat {
      CopiesIff(input, offset, lenSlice, out);
    }
  }
}
