/** Concatenating byte vectors inside a circuit: the untrusted hint that proposes the output, and
    the constraints that make any accepted output the concatenation. */
module Concat {
  import opened Bits
  import opened Words
  import opened Bytes
  import opened Slice
  import opened FixedByteVec

  /** Sums over the first `i` terms: run-time lengths, their bounds, and data words. */
  function Offset(terms: seq<ByteVec>, i: nat): nat
    requires i <= |terms|
  {
    if i == 0 then 0 else Offset(terms, i - 1) + terms[i - 1].lenBytes
  }

  function OffsetLo(terms: seq<ByteVec>, i: nat): nat
    requires i <= |terms|
  {
    if i == 0 then 0 else OffsetLo(terms, i - 1) + terms[i - 1].lenLo
  }

  function OffsetHi(terms: seq<ByteVec>, i: nat): nat
    requires i <= |terms|
  {
    if i == 0 then 0 else OffsetHi(terms, i - 1) + terms[i - 1].lenHi
  }

  function WordsUpTo(terms: seq<ByteVec>, i: nat): nat
    requires i <= |terms|
  {
    if i == 0 then 0 else WordsUpTo(terms, i - 1) + |terms[i - 1].data|
  }

  /** The bytes the first `i` terms hold, one after the other. */
  function Joined(terms: seq<ByteVec>, i: nat): (bs: seq<byte>)
    requires i <= |terms|
    ensures |bs| == Offset(terms, i)
  {
    if i == 0 then [] else Joined(terms, i - 1) + terms[i - 1].Contents()
  }

  predicate AllInRange(terms: seq<ByteVec>) {
    forall i :: 0 <= i < |terms| ==> terms[i].InRange()
  }

  /** The size checks of the dynamic path, which a term takes once an earlier length is not fixed. */
  predicate DynamicTermsFit(terms: seq<ByteVec>) {
    forall i :: 0 <= i < |terms| && OffsetLo(terms, i) != OffsetHi(terms, i) ==>
      8 * WordsUpTo(terms, i + 1) <= U32_MAX
  }

  lemma {:induction false} SumsOrdered(terms: seq<ByteVec>, i: nat)
    requires i <= |terms| && AllInRange(terms)
    ensures OffsetLo(terms, i) <= Offset(terms, i) <= OffsetHi(terms, i) <= 8 * WordsUpTo(terms, i)
    ensures WordsUpTo(terms, i) <= WordsUpTo(terms, |terms|)
    decreases |terms| + i
  {
    if i > 0 {
      SumsOrdered(terms, i - 1);
    }
    WordsMono(terms, i, |terms|);
  }

  lemma {:induction false} WordsMono(terms: seq<ByteVec>, i: nat, k: nat)
    requires i <= k <= |terms|
    ensures WordsUpTo(terms, i) <= WordsUpTo(terms, k)
  {
    if i < k {
      WordsMono(terms, i, k - 1);
    }
  }

  /** `output` holds the first `len` bytes of `input` from byte `offset` on. */
  ghost predicate RegionEq(output: seq<Word>, offset: nat, input: seq<Word>, len: nat) {
    forall p: nat :: p < len ==> ByteAt(output, offset + p) == ByteAt(input, p)
  }

  lemma MaskedCompare(a: Word, e: Word, k: nat)
    requires 0 < k < 8
    ensures Pow2(8 * k) - 1 < 0x1_0000_0000_0000_0000
    ensures Band(Bxor(a, e), Pow2(8 * k) - 1) == 0 <==> forall j: nat :: j < k ==> Byte(a, j) == Byte(e, j)
  {
    ByteMask(Bxor(a, e), k, 0);
    var m := Band(Bxor(a, e), Pow2(8 * k) - 1);
    if m == 0 {
      forall j: nat | j < k
        ensures Byte(a, j) == Byte(e, j)
      {
        ByteMask(Bxor(a, e), k, j);
        ByteXor(a, e, j);
        ZeroBytes(j);
      }
    }
    if forall j: nat :: j < k ==> Byte(a, j) == Byte(e, j) {
      forall j: nat | j < 8
        ensures Byte(m, j) == Byte(0, j)
      {
        ByteMask(Bxor(a, e), k, j);
        ByteXor(a, e, j);
        ZeroBytes(j);
      }
      ByteExtensional(m, 0);
    }
  }

  lemma PartialByBytes(a: Word, e: Word, i: nat, len: nat)
    requires 8 * i < len < 8 * i + 8
    ensures WordAgrees(a, e, len, i) <==> forall j: nat :: j < len - 8 * i ==> Byte(a, j) == Byte(e, j)
  {
    if WordAgrees(a, e, len, i) {
      forall j: nat | j < len - 8 * i
        ensures Byte(a, j) == Byte(e, j)
      {
        assert 8 * i + j < len;
      }
    }
  }

  /** Comparing at a constant offset for a constant length: whole words, and one masked word. */
  method AssertConstSliceEq(output: seq<Word>, offset: nat, input: seq<Word>, len: nat) returns (sat: bool)
    requires offset + len <= 8 * |output| && len <= 8 * |input|
    ensures sat <==> RegionEq(output, offset, input, len)
  {
    hide Band, Bxor, Pow2, ExtractConstRange, RegionEq, SamePrefix, WordAgrees;
    var extracted := ExtractConstRange(output, offset, offset + len);
    var nWords := |extracted|;
    var finalBytes := len % 8;
    sat := true;
    for k := 0 to nWords
      invariant sat <==> forall i: nat :: i < k ==> WordAgrees(extracted[i], input[i], len, i)
    {
      var a, e := extracted[k], input[k];
      if k + 1 == nWords && finalBytes != 0 {
        MaskedCompare(a, e, finalBytes);
        PartialByBytes(a, e, k, len);
        var diff := Band(Bxor(a, e), Pow2(8 * finalBytes) - 1);
        sat := sat && diff == 0;
      } else {
        WholeWordAgrees(a, e, len, k);
        sat := sat && a == e;
      }
    }
    PrefixByWords(extracted, input[..nWords], len);
    ConstRegion(output, offset, input, len);
  }

  lemma ConstRegion(output: seq<Word>, offset: nat, input: seq<Word>, len: nat)
    requires offset + len <= 8 * |output| && len <= 8 * |input|
    ensures CeilDiv8(len) <= |input|
    ensures SamePrefix(ExtractConstRange(output, offset, offset + len), input[..CeilDiv8(len)], len)
            <==> RegionEq(output, offset, input, len)
  {
    var extracted := ExtractConstRange(output, offset, offset + len);
    forall p: nat | p < len
      ensures ByteAt(extracted, p) == ByteAt(output, offset + p)
      ensures ByteAt(input[..CeilDiv8(len)], p) == ByteAt(input, p)
    {
      ExtractedByte(output, offset, offset + len, p);
    }
  }

  /** A term whose offset is a constant but whose length is not: its region is extracted at its
      full capacity and compared up to the run-time length. */
  method AssertRegionEq(output: seq<Word>, offset: nat, input: seq<Word>, lenBytes: Word) returns (sat: bool)
    requires offset + 8 * |input| <= 8 * |output| && lenBytes <= 8 * |input| <= 0x1_0000_0000_0000_0000
    ensures sat <==> RegionEq(output, offset, input, lenBytes)
  {
    var region := ExtractConstRange(output, offset, offset + 8 * |input|);
    sat := AssertSliceEq(lenBytes, region, input);
    forall p: nat | p < lenBytes
      ensures ByteAt(region, p) == ByteAt(output, offset + p)
    {
      ExtractedByte(output, offset, offset + 8 * |input|, p);
    }
  }

  /** A term at a run-time offset: sliced out of the words the terms so far can reach. */
  method AssertDynamicEq(output: seq<Word>, nextOffset: Word, offset: Word, input: seq<Word>, lenBytes: Word)
    returns (sat: bool)
    requires nextOffset == offset + lenBytes <= 8 * |output| <= U32_MAX
    requires lenBytes <= 8 * |input| && |input| <= |output|
    ensures sat <==> RegionEq(output, offset, input, lenBytes)
  {
    var inBounds, extracted := Slice.Slice(nextOffset, lenBytes, output, offset, |input|);
    var equal := AssertSliceEq(lenBytes, extracted, input);
    sat := inBounds && equal;
  }

  lemma SplitEq<T>(a: seq<T>, b: seq<T>, k: nat)
    requires |a| == |b| && k <= |a|
    ensures a == b <==> a[..k] == b[..k] && a[k..] == b[k..]
  {
    assert a == a[..k] + a[k..] && b == b[..k] + b[k..];
  }

  lemma RegionTake(output: seq<Word>, offset: nat, input: seq<Word>, len: nat)
    ensures RegionEq(output, offset, input, len) <==> Take(output, offset + len)[offset..] == Take(input, len)
  {
    var region := Take(output, offset + len)[offset..];
    if RegionEq(output, offset, input, len) {
      assert region == Take(input, len);
    }
    if region == Take(input, len) {
      forall p: nat | p < len
        ensures ByteAt(output, offset + p) == ByteAt(input, p)
      {
        assert region[p] == Take(input, len)[p];
      }
    }
  }

  lemma RegionExtends(terms: seq<ByteVec>, output: seq<Word>, i: nat)
    requires i < |terms|
    ensures Take(output, Offset(terms, i + 1)) == Joined(terms, i + 1) <==>
      (&& Take(output, Offset(terms, i)) == Joined(terms, i)
       && RegionEq(output, Offset(terms, i), terms[i].data, terms[i].lenBytes))
  {
    var off, len := Offset(terms, i), terms[i].lenBytes;
    var out, joined := Take(output, off + len), Joined(terms, i + 1);
    RegionTake(output, off, terms[i].data, len);
    SplitEq(out, joined, off);
    assert out[..off] == Take(output, off);
    assert joined[..off] == Joined(terms, i) && joined[off..] == terms[i].Contents();
  }

  lemma PrefixRegion(output: seq<Word>, n: nat, offset: nat, input: seq<Word>, len: nat)
    requires n <= |output| && offset + len <= 8 * n
    ensures RegionEq(output[..n], offset, input, len) <==> RegionEq(output, offset, input, len)
  {
    forall q: nat | q < 8 * n
      ensures ByteAt(output[..n], q) == ByteAt(output, q)
    {
    }
  }

  /** Advancing the running offset past a term, as cheaply as what is known allows. */
  function NextOffset(offset: Word, offsetLo: nat, offsetHi: nat, input: ByteVec): (next: Word)
    requires input.InRange() && offsetLo <= offset <= offsetHi
    requires offsetHi + input.lenHi < 0x1_0000_0000_0000_0000
    ensures next == offset + input.lenBytes
  {
    if offsetLo == offsetHi && input.lenLo == input.lenHi then offsetLo + input.lenLo
    else if offsetLo == offsetHi && offsetLo == 0 then input.lenBytes
    else Iadd(offset, input.lenBytes).0
  }

  /** The constraints emitted for one term, by what is known of its offset and length. */
  method AssertTerm(output: seq<Word>, wordsUpperBound: nat, offset: Word, offsetLo: nat, offsetHi: nat, input: ByteVec)
    returns (ok: bool, nextOffset: Word)
    requires input.InRange() && offsetLo <= offset <= offsetHi && |input.data| <= wordsUpperBound
    requires offsetHi + 8 * |input.data| <= 8 * wordsUpperBound
    requires wordsUpperBound <= |output| && 8 * |output| < 0x1_0000_0000_0000_0000
    requires offsetLo != offsetHi ==> 8 * wordsUpperBound <= U32_MAX
    ensures ok <==> RegionEq(output, offset, input.data, input.lenBytes)
    ensures nextOffset == offset + input.lenBytes
  {
    nextOffset := NextOffset(offset, offsetLo, offsetHi, input);
    if offsetLo == offsetHi {
      if input.lenLo == input.lenHi {
        ok := AssertConstSliceEq(output, offsetLo, input.data, input.lenLo);
      } else {
        ok := AssertRegionEq(output, offsetLo, input.data, input.lenBytes);
      }
    } else {
      ok := AssertDynamicEq(output[..wordsUpperBound], nextOffset, offset, input.data, input.lenBytes);
      PrefixRegion(output, wordsUpperBound, offset, input.data, input.lenBytes);
    }
  }

  /** The constraints accept a proposed output exactly when its first bytes are the terms' contents
      joined, whichever branch each term takes. What comes after is unconstrained. */
  method Concat(terms: seq<ByteVec>, output: seq<Word>) returns (sat: bool, result: ByteVec)
    requires AllInRange(terms) && DynamicTermsFit(terms)
    requires |output| == WordsUpTo(terms, |terms|) && 8 * |output| < 0x1_0000_0000_0000_0000
    ensures sat <==> Take(output, Offset(terms, |terms|)) == Joined(terms, |terms|)
    ensures result.InRange() && result.data == output && result.lenBytes == Offset(terms, |terms|)
    ensures result.lenLo == OffsetLo(terms, |terms|) && result.lenHi == OffsetHi(terms, |terms|)
  {
    hide RegionEq, Take;
    var offset: Word, offsetLo, offsetHi := 0, 0, 0;
    var wordsUpperBound := 0;
    sat := true;
    for i := 0 to |terms|
      invariant offset == Offset(terms, i)
      invariant offsetLo == OffsetLo(terms, i) && offsetHi == OffsetHi(terms, i)
      invariant wordsUpperBound == WordsUpTo(terms, i)
      invariant sat <==> Take(output, Offset(terms, i)) == Joined(terms, i)
    {
      var input := terms[i];
      SumsOrdered(terms, i);
      SumsOrdered(terms, i + 1);
      wordsUpperBound := wordsUpperBound + |input.data|;
      var ok, nextOffset := AssertTerm(output, wordsUpperBound, offset, offsetLo, offsetHi, input);
      RegionExtends(terms, output, i);
      sat := sat && ok;
      offset := nextOffset;
      offsetLo, offsetHi := offsetLo + input.lenLo, offsetHi + input.lenHi;
    }
    SumsOrdered(terms, |terms|);
    result := ByteVec(offset, output, offsetLo, offsetHi);
  }
}
