/** Byte vectors of fixed capacity and run-time length, and extraction at constant positions. */
module FixedByteVec {
  import opened Bits
  import opened Words
  import opened Bytes
  import opened Slice

  /** `lenLo` and `lenHi` are the compile-time bounds on the run-time length. */
  datatype ByteVec = ByteVec(lenBytes: Word, data: seq<Word>, lenLo: nat, lenHi: nat) {
    /** What the constructors check. */
    predicate Valid() {
      lenLo <= lenHi <= 8 * |data|
    }

    /** What the gadgets rely on: the length wire lies in the recorded range. */
    predicate InRange() {
      Valid() && lenLo <= lenBytes <= lenHi
    }

    function Contents(): seq<byte> {
      Take(data, lenBytes)
    }
  }

  function CeilDiv8(n: nat): nat {
    (n + 7) / 8
  }

  /** Output word `i` of a constant-range extraction. The word after the last one holding a wanted
      byte is never read. */
  function ExtractWord(data: seq<Word>, start: nat, end: nat, i: nat): Word
    requires start < end <= 8 * |data| && i < CeilDiv8(end - start)
  {
    var sourceIdx := start / 8 + i;
    var byteOffset := start % 8;
    var lastWordIndex := (end - 1) / 8;
    if byteOffset == 0 then data[sourceIdx]
    else
      var shiftedCurrent := Shr(data[sourceIdx], 8 * byteOffset);
      if sourceIdx < lastWordIndex then Bxor(shiftedCurrent, Shl(data[sourceIdx + 1], 8 * (8 - byteOffset)))
      else shiftedCurrent
  }

  function ExtractConstRange(data: seq<Word>, start: nat, end: nat): (out: seq<Word>)
    requires start <= end <= 8 * |data|
    ensures |out| == CeilDiv8(end - start)
  {
    if start == end then []
    else seq(CeilDiv8(end - start), i requires 0 <= i < CeilDiv8(end - start) => ExtractWord(data, start, end, i))
  }

  /** Byte `p` of the extraction is byte `start + p` of the data, for every byte of the range. */
  lemma ExtractedByte(data: seq<Word>, start: nat, end: nat, p: nat)
    requires start <= end <= 8 * |data| && p < end - start
    ensures ByteAt(ExtractConstRange(data, start, end), p) == ByteAt(data, start + p)
  {
    var i, j, b := p / 8, p % 8, start % 8;
    hide Shr, Shl, Bxor, Byte;
    var w := ExtractWord(data, start, end, i);
    assert ExtractConstRange(data, start, end)[i] == w;
    if j + b < 8 {
      assert (start + p) / 8 == start / 8 + i && (start + p) % 8 == j + b;
    } else {
      assert (start + p) / 8 == start / 8 + i + 1 && (start + p) % 8 == j + b - 8;
    }
    if b > 0 {
      ByteShr(data[start / 8 + i], b, j);
      if start / 8 + i < (end - 1) / 8 {
        StraddledByte(data[start / 8 + i], data[start / 8 + i + 1], b, j);
      }
    }
  }

  /** Slicing at a constant range: the emitted check, and the sliced vector. A constant-length
      vector needs no check, its length being known to reach the end of the range. */
  function SliceConstRange(v: ByteVec, start: nat, end: nat): (r: (bool, ByteVec))
    requires v.Valid() && start <= end <= v.lenHi && v.lenHi < 0x1_0000_0000_0000_0000
    ensures r.1.InRange()
    ensures v.InRange() ==> (r.0 <==> start == end || end <= v.lenBytes)
  {
    if start == end then (true, ByteVec(0, [], 0, 0))
    else
      var sat := v.lenLo == v.lenHi || IsTrue(IcmpUle(end, v.lenBytes));
      (sat, ByteVec(end - start, ExtractConstRange(v.data, start, end), end - start, end - start))
  }

  /** When the check holds, the slice is that range of the vector's contents. */
  lemma {:induction false} SlicedContents(v: ByteVec, start: nat, end: nat)
    requires v.InRange() && start <= end <= v.lenHi && v.lenHi < 0x1_0000_0000_0000_0000
    requires start < end && SliceConstRange(v, start, end).0
    ensures end <= v.lenBytes
    ensures SliceConstRange(v, start, end).1.Contents() == v.Contents()[start..end]
  {
    hide IcmpUle, ExtractConstRange, ByteAt;
    var r := SliceConstRange(v, start, end).1;
    assert r == ByteVec(end - start, ExtractConstRange(v.data, start, end), end - start, end - start);
    forall p: nat | p < end - start
      ensures r.Contents()[p] == v.Contents()[start..end][p]
    {
      ExtractedByte(v.data, start, end, p);
    }
  }
}
