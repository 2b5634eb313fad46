/** Checking that a JSON string holds given attribute values: scan for the last `"name":"`, then
    for the first terminator after it, and compare what lies between. */
module JwtClaims {
  import opened Words
  import opened Bytes
  import opened Slice

  const QUOTE: byte := 34
  const COMMA: byte := 44
  const COLON: byte := 58
  const BACKSLASH: byte := 92
  const OPEN_BRACE: byte := 123
  const CLOSE_BRACE: byte := 125

  /** An attribute to look for, with the length and value wires it must match. */
  datatype Attribute = Attribute(name: seq<byte>, lenBytes: Word, value: seq<Word>) {
    /** The bytes that introduce its value: "name":" with the quotes. */
    function Pattern(): seq<byte> {
      [QUOTE] + name + [QUOTE, COLON, QUOTE]
    }
  }

  /** The pattern occurs at `s` and ends strictly inside the JSON, leaving room for a closing quote. */
  predicate MatchAt(json: seq<Word>, len: nat, pattern: seq<byte>, s: nat) {
    && s + |pattern| < len && s + |pattern| < 8 * |json|
    && forall i: nat :: i < |pattern| ==> ByteAt(json, s + i) == pattern[i]
  }

  predicate IsTerminator(b: byte) {
    b == QUOTE || b == COMMA || b == CLOSE_BRACE
  }

  /** A terminator stands at `q`, at or after `start` and inside the JSON. */
  predicate TerminatorAt(json: seq<Word>, len: nat, start: nat, q: nat) {
    start <= q < len && q < 8 * |json| && IsTerminator(ByteAt(json, q))
  }

  /** The value of an attribute runs from `start` to `end`: from the end of the last occurrence of
      its pattern to the first terminator from there on. */
  ghost predicate ValueSpan(json: seq<Word>, len: nat, pattern: seq<byte>, start: nat, end: nat) {
    && start >= |pattern| && MatchAt(json, len, pattern, start - |pattern|)
    && (forall s: nat :: s > start - |pattern| ==> !MatchAt(json, len, pattern, s))
    && TerminatorAt(json, len, start, end)
    && (forall q: nat :: q < end ==> !TerminatorAt(json, len, start, q))
  }

  /** The JSON gives the attribute exactly the claimed value. */
  ghost predicate Claims(json: seq<Word>, len: nat, attr: Attribute) {
    exists start: nat, end: nat {:trigger ValueSpan(json, len, attr.Pattern(), start, end)} ::
      && ValueSpan(json, len, attr.Pattern(), start, end)
      && attr.lenBytes == end - start <= 8 * |attr.value|
      && forall p: nat :: p < attr.lenBytes ==> ByteAt(json, start + p) == ByteAt(attr.value, p)
  }

  method MatchesHere(lenBytes: Word, json: seq<Word>, pattern: seq<byte>, startPos: nat) returns (matchesHere: Word)
    requires startPos + |pattern| < 8 * |json| <= U32_MAX
    ensures IsTrue(matchesHere) <==> MatchAt(json, lenBytes, pattern, startPos)
  {
    hide IcmpUlt, IcmpEq, IsTrue, Band, ExtractByte;
    matchesHere := IcmpUlt(startPos + |pattern|, lenBytes);
    for i := 0 to |pattern|
      invariant IsTrue(matchesHere) <==>
        (startPos + |pattern| < lenBytes && forall k: nat :: k < i ==> ByteAt(json, startPos + k) == pattern[k])
    {
      var bytePos := startPos + i;
      var actualByte := ExtractByte(json[bytePos / 8], bytePos % 8);
      ExtractByteIsByte(json[bytePos / 8], bytePos % 8);
      var byteMatches := IcmpEq(actualByte, pattern[i]);
      TrueOps(matchesHere, byteMatches);
      matchesHere := Band(matchesHere, byteMatches);
    }
  }

  /** Tries every start position and remembers the end of the last match. */
  method FindValueStart(lenBytes: Word, json: seq<Word>, pattern: seq<byte>)
    returns (valueStart: Word, foundStart: Word)
    requires 8 * |json| <= U32_MAX && |pattern| > 0
    ensures IsTrue(foundStart) <==> exists s: nat :: MatchAt(json, lenBytes, pattern, s)
    ensures IsTrue(foundStart) ==>
      && valueStart >= |pattern| && MatchAt(json, lenBytes, pattern, valueStart - |pattern|)
      && forall s: nat :: s > valueStart - |pattern| ==> !MatchAt(json, lenBytes, pattern, s)
  {
    hide IsTrue, Bor, MatchAt;
    var maxLenBytes := 8 * |json|;
    valueStart, foundStart := 0, 0;
    ZeroIsFalse();
    var starts := if maxLenBytes > |pattern| then maxLenBytes - |pattern| else 0;
    for startPos := 0 to starts
      invariant IsTrue(foundStart) <==> exists s: nat :: s < startPos && MatchAt(json, lenBytes, pattern, s)
      invariant IsTrue(foundStart) ==>
        && |pattern| <= valueStart < startPos + |pattern| && MatchAt(json, lenBytes, pattern, valueStart - |pattern|)
        && forall s: nat :: valueStart - |pattern| < s < startPos ==> !MatchAt(json, lenBytes, pattern, s)
    {
      var endWire := startPos + |pattern|;
      var matchesHere := MatchesHere(lenBytes, json, pattern, startPos);
      valueStart := Select(matchesHere, endWire, valueStart);
      TrueOps(foundStart, matchesHere);
      foundStart := Bor(foundStart, matchesHere);
    }
    MatchesInside(json, lenBytes, pattern);
  }

  lemma ZeroIsFalse()
    ensures !IsTrue(0)
  {
    TrueValue(0);
  }

  lemma MatchesInside(json: seq<Word>, len: nat, pattern: seq<byte>)
    ensures forall s: nat :: MatchAt(json, len, pattern, s) ==> s + |pattern| < 8 * |json|
  {
  }

  method TerminatorHere(lenBytes: Word, json: seq<Word>, valueStart: Word, foundEnd: Word, pos: nat)
    returns (foundHere: Word)
    requires pos < 8 * |json| <= U32_MAX
    ensures IsTrue(foundHere) <==> !IsTrue(foundEnd) && TerminatorAt(json, lenBytes, valueStart, pos)
  {
    hide IcmpUlt, IcmpEq, IsTrue, Band, Bxor, Bnot, ExtractByte;
    var withinBounds := IcmpUlt(pos, lenBytes);
    var beforeStart := IcmpUlt(pos, valueStart);
    var atOrAfterStart := Bnot(beforeStart);
    var notFoundYet := Bnot(foundEnd);
    NotTrue(beforeStart);
    NotTrue(foundEnd);
    TrueOps(atOrAfterStart, withinBounds);
    TrueOps(Band(atOrAfterStart, withinBounds), notFoundYet);
    var shouldCheck := Band(Band(atOrAfterStart, withinBounds), notFoundYet);
    var byteAtPos := ExtractByte(json[pos / 8], pos % 8);
    ExtractByteIsByte(json[pos / 8], pos % 8);
    var isQuote := IcmpEq(byteAtPos, QUOTE);
    var isComma := IcmpEq(byteAtPos, COMMA);
    var isCloseBrace := IcmpEq(byteAtPos, CLOSE_BRACE);
    TrueOps(isQuote, isComma);
    TrueOps(Bxor(isQuote, isComma), isCloseBrace);
    var isTerminator := Bxor(Bxor(isQuote, isComma), isCloseBrace);
    TrueOps(shouldCheck, isTerminator);
    foundHere := Band(shouldCheck, isTerminator);
  }

  /** Scans every position and remembers the first terminator from `valueStart` on. */
  method FindTerminator(lenBytes: Word, json: seq<Word>, valueStart: Word) returns (valueEnd: Word, foundEnd: Word)
    requires 8 * |json| <= U32_MAX
    ensures IsTrue(foundEnd) <==> exists q: nat :: TerminatorAt(json, lenBytes, valueStart, q)
    ensures IsTrue(foundEnd) ==>
      && TerminatorAt(json, lenBytes, valueStart, valueEnd)
      && forall q: nat :: q < valueEnd ==> !TerminatorAt(json, lenBytes, valueStart, q)
  {
    hide IsTrue, Bxor, TerminatorAt;
    valueEnd, foundEnd := 0, 0;
    ZeroIsFalse();
    for pos := 0 to 8 * |json|
      invariant IsTrue(foundEnd) <==> exists q: nat :: q < pos && TerminatorAt(json, lenBytes, valueStart, q)
      invariant IsTrue(foundEnd) ==>
        && valueEnd < pos && TerminatorAt(json, lenBytes, valueStart, valueEnd)
        && forall q: nat :: q < valueEnd ==> !TerminatorAt(json, lenBytes, valueStart, q)
    {
      var foundHere := TerminatorHere(lenBytes, json, valueStart, foundEnd, pos);
      valueEnd := Select(foundHere, pos, valueEnd);
      TrueOps(foundEnd, foundHere);
      foundEnd := Bxor(foundEnd, foundHere);
    }
    TerminatorsInside(json, lenBytes, valueStart);
  }

  lemma TerminatorsInside(json: seq<Word>, len: nat, start: nat)
    ensures forall q: nat :: TerminatorAt(json, len, start, q) ==> q < 8 * |json|
  {
  }

  /** A value span is unique: there is one last match and one first terminator. */
  lemma SpanUnique(json: seq<Word>, len: nat, pattern: seq<byte>, s: nat, e: nat, s': nat, e': nat)
    requires ValueSpan(json, len, pattern, s, e) && ValueSpan(json, len, pattern, s', e')
    ensures s == s' && e == e'
  {
    hide MatchAt, TerminatorAt;
    assert MatchAt(json, len, pattern, s - |pattern|) && MatchAt(json, len, pattern, s' - |pattern|);
    assert TerminatorAt(json, len, s, e) && TerminatorAt(json, len, s', e');
  }

  /** The comparison of the found span with the claimed length and value. */
  method CheckValue(lenBytes: Word, json: seq<Word>, attr: Attribute, valueStart: Word, valueEnd: Word)
    returns (sat: bool)
    requires 8 * |json| <= U32_MAX && 8 * |attr.value| <= U32_MAX && (|attr.value| > 0 ==> |json| > 0)
    ensures valueStart <= valueEnd < lenBytes <= 8 * |json| ==>
      (sat <==>
       && attr.lenBytes == valueEnd - valueStart <= 8 * |attr.value|
       && forall p: nat :: p < attr.lenBytes ==> ByteAt(json, valueStart + p) == ByteAt(attr.value, p))
  {
    hide Isub;
    var (valueLength, _) := Isub(valueEnd, valueStart);
    sat := valueLength == attr.lenBytes;
    var inBounds, extracted := Slice.Slice(lenBytes, valueLength, json, valueStart, |attr.value|);
    var equal := AssertSliceEq(valueLength, extracted, attr.value);
    sat := sat && inBounds && equal;
  }

  /** The assertions emitted for one attribute. */
  method CheckAttribute(lenBytes: Word, json: seq<Word>, attr: Attribute) returns (sat: bool)
    requires 8 * |json| <= U32_MAX && 8 * |attr.value| <= U32_MAX && (|attr.value| > 0 ==> |json| > 0)
    ensures lenBytes <= 8 * |json| ==> (sat <==> Claims(json, lenBytes, attr))
  {
    hide IsTrue, MatchAt, TerminatorAt;
    var pattern := attr.Pattern();
    var valueStart, foundStart := FindValueStart(lenBytes, json, pattern);
    var valueEnd, foundEnd := FindTerminator(lenBytes, json, valueStart);
    var valueOk := CheckValue(lenBytes, json, attr, valueStart, valueEnd);
    sat := IsTrue(foundStart) && IsTrue(foundEnd) && valueOk;
    if IsTrue(foundStart) && IsTrue(foundEnd) {
      assert ValueSpan(json, lenBytes, pattern, valueStart, valueEnd);
      SpanInside(json, lenBytes, pattern, valueStart, valueEnd);
    }
    if lenBytes <= 8 * |json| && Claims(json, lenBytes, attr) {
      var start: nat, end: nat :|
        && ValueSpan(json, lenBytes, attr.Pattern(), start, end)
        && attr.lenBytes == end - start <= 8 * |attr.value|
        && forall p: nat :: p < attr.lenBytes ==> ByteAt(json, start + p) == ByteAt(attr.value, p);
      SpanUnique(json, lenBytes, pattern, start, end, valueStart, valueEnd) by {
        LastMatchUnique(json, lenBytes, pattern, start, valueStart);
      }
    }
  }

  lemma SpanInside(json: seq<Word>, len: nat, pattern: seq<byte>, start: nat, end: nat)
    requires ValueSpan(json, len, pattern, start, end)
    ensures start <= end < len
  {
  }

  lemma LastMatchUnique(json: seq<Word>, len: nat, pattern: seq<byte>, s: nat, s': nat)
    requires s >= |pattern| && MatchAt(json, len, pattern, s - |pattern|)
    requires s' >= |pattern| && MatchAt(json, len, pattern, s' - |pattern|)
    requires forall t: nat :: t > s - |pattern| ==> !MatchAt(json, len, pattern, t)
    requires forall t: nat :: t > s' - |pattern| ==> !MatchAt(json, len, pattern, t)
    ensures s == s'
  {
    hide MatchAt;
  }

  /** The circuit is satisfied exactly when the length fits the array and the JSON gives every
      attribute its claimed value. */
  method New(lenBytes: Word, json: seq<Word>, attributes: seq<Attribute>) returns (sat: bool)
    requires 8 * |json| <= U32_MAX
    requires forall attr :: attr in attributes ==> 8 * |attr.value| <= U32_MAX && (|attr.value| > 0 ==> |json| > 0)
    ensures sat <==> lenBytes <= 8 * |json| && forall attr :: attr in attributes ==> Claims(json, lenBytes, attr)
  {
    hide IcmpUlt, IsTrue, Claims;
    var tooLong := IcmpUlt(8 * |json|, lenBytes);
    sat := !IsTrue(tooLong);
    for i := 0 to |attributes|
      invariant sat <==> lenBytes <= 8 * |json| && forall k :: 0 <= k < i ==> Claims(json, lenBytes, attributes[k])
    {
      var ok := CheckAttribute(lenBytes, json, attributes[i]);
      sat := sat && ok;
    }
  }

  /** Given the span, the claim is that the value wires start with the text of the span, and hold it. */
  lemma {:induction false} ClaimsIff(json: seq<Word>, len: nat, attr: Attribute, start: nat, end: nat)
    requires ValueSpan(json, len, attr.Pattern(), start, end)
    ensures start <= end <= 8 * |json|
    ensures Claims(json, len, attr) <==>
      && attr.lenBytes == end - start <= 8 * |attr.value|
      && Take(attr.value, end - start) == Take(json, 8 * |json|)[start..end]
  {
    hide ByteAt, MatchAt;
    if Claims(json, len, attr) {
      var s: nat, e: nat :| ValueSpan(json, len, attr.Pattern(), s, e)
        && attr.lenBytes == e - s <= 8 * |attr.value|
        && forall p: nat :: p < attr.lenBytes ==> ByteAt(json, s + p) == ByteAt(attr.value, p);
      SpanUnique(json, len, attr.Pattern(), start, end, s, e);
    }
    var text := Take(json, 8 * |json|)[start..end];
    if attr.lenBytes == end - start <= 8 * |attr.value| && Take(attr.value, end - start) == text {
      forall p: nat | p < attr.lenBytes
        ensures ByteAt(json, start + p) == ByteAt(attr.value, p)
      {
        assert text[p] == Take(attr.value, end - start)[p];
      }
    }
  }

  // ---- When the value found is the whole string. ----

  /** In a string whose text starts at `start`, the byte at `q` is escaped: the byte before it is a
      backslash that is not itself escaped. */
  predicate EscapedAt(json: seq<Word>, start: nat, q: nat)
    decreases q
  {
    start < q && ByteAt(json, q - 1) == BACKSLASH && !EscapedAt(json, start, q - 1)
  }

  /** The string whose text starts at `start` is closed at `quote`, its first quote that is not escaped. */
  ghost predicate ClosedAt(json: seq<Word>, len: nat, start: nat, quote: nat) {
    && start <= quote < len && quote < 8 * |json|
    && ByteAt(json, quote) == QUOTE && !EscapedAt(json, start, quote)
    && forall q: nat :: start <= q < quote && ByteAt(json, q) == QUOTE ==> EscapedAt(json, start, q)
  }

  /** The value ends where its string is closed if and only if the string's text holds no comma, no
      closing brace and no quote, escaped or not; otherwise it ends earlier. */
  lemma {:induction false} EndsAtQuoteIff(json: seq<Word>, len: nat, pattern: seq<byte>, start: nat, end: nat,
                                          quote: nat)
    requires ValueSpan(json, len, pattern, start, end) && ClosedAt(json, len, start, quote)
    ensures end <= quote
    ensures end == quote <==>
      forall q: nat :: start <= q < quote ==>
        ByteAt(json, q) != COMMA && ByteAt(json, q) != CLOSE_BRACE && ByteAt(json, q) != QUOTE
  {
    hide ByteAt, MatchAt, EscapedAt;
    assert TerminatorAt(json, len, start, quote);
    if end < quote {
      assert ByteAt(json, end) == COMMA || ByteAt(json, end) == CLOSE_BRACE || ByteAt(json, end) == QUOTE;
    }
    forall q: nat | start <= q < end
      ensures !IsTerminator(ByteAt(json, q))
    {
      assert !TerminatorAt(json, len, start, q);
    }
  }

  // ---- When the value found is the attribute's. ----

  /** Where a byte of the JSON stands: outside all strings, inside one, or after a backslash in one. */
  datatype Place = Outside | Inside | Escaped

  /** The place after a byte. */
  function Past(place: Place, b: byte): Place {
    match place
    case Outside => if b == QUOTE then Inside else Outside
    case Inside => if b == QUOTE then Outside else if b == BACKSLASH then Escaped else Inside
    case Escaped => Inside
  }

  /** The place of the byte at `q`, from the start of the JSON. */
  function Scan(json: seq<Word>, q: nat): Place {
    if q == 0 then Outside else Past(Scan(json, q - 1), ByteAt(json, q - 1))
  }

  /** The member whose key opens at `key` has this name, and its value is the string from `start` to
      `quote`. */
  ghost predicate MemberAt(json: seq<Word>, len: nat, name: seq<byte>, key: nat, start: nat, quote: nat) {
    && Scan(json, key) == Outside && ByteAt(json, key) == QUOTE
    && (forall i: nat :: i < |name| ==> ByteAt(json, key + 1 + i) == name[i])
    && ClosedAt(json, len, key + 1, key + 1 + |name|)
    && ByteAt(json, key + 2 + |name|) == COLON && ByteAt(json, key + 3 + |name|) == QUOTE
    && start == key + 4 + |name| && ClosedAt(json, len, start, quote)
  }

  predicate EscapedIn(name: seq<byte>, i: nat)
    requires i <= |name|
  {
    i > 0 && name[i - 1] == BACKSLASH && !EscapedIn(name, i - 1)
  }

  /** The bytes can stand between the quotes of a string: no quote in them is bare, and they do not
      escape what follows. */
  predicate Spells(name: seq<byte>) {
    && (forall i: nat :: i < |name| && name[i] == QUOTE ==> EscapedIn(name, i))
    && !EscapedIn(name, |name|)
  }

  lemma {:induction false} SameEscapes(json: seq<Word>, start: nat, name: seq<byte>, i: nat)
    requires i <= |name| && forall j: nat :: j < |name| ==> ByteAt(json, start + j) == name[j]
    ensures EscapedAt(json, start, start + i) == EscapedIn(name, i)
  {
    hide ByteAt;
    if i > 0 {
      SameEscapes(json, start, name, i - 1);
      assert ByteAt(json, start + (i - 1)) == name[i - 1];
    }
  }

  lemma {:induction false} NameIsClosedIff(json: seq<Word>, len: nat, name: seq<byte>, key: nat)
    requires MatchAt(json, len, [QUOTE] + name + [QUOTE, COLON, QUOTE], key)
    ensures ByteAt(json, key) == QUOTE && ByteAt(json, key + 1 + |name|) == QUOTE
    ensures ByteAt(json, key + 2 + |name|) == COLON && ByteAt(json, key + 3 + |name|) == QUOTE
    ensures forall i: nat :: i < |name| ==> ByteAt(json, key + 1 + i) == name[i]
    ensures ClosedAt(json, len, key + 1, key + 1 + |name|) <==> Spells(name)
  {
    hide ByteAt, EscapedAt, EscapedIn;
    var pattern, n := [QUOTE] + name + [QUOTE, COLON, QUOTE], |name|;
    assert pattern[0] == QUOTE && pattern[1 + n] == QUOTE && pattern[2 + n] == COLON && pattern[3 + n] == QUOTE;
    assert ByteAt(json, key + 0) == QUOTE;
    assert ByteAt(json, key + (1 + n)) == QUOTE && ByteAt(json, key + (2 + n)) == COLON;
    assert ByteAt(json, key + (3 + n)) == QUOTE;
    forall i: nat | i < n
      ensures ByteAt(json, key + 1 + i) == name[i]
    {
      assert ByteAt(json, key + (1 + i)) == pattern[1 + i] == name[i];
    }
    forall i: nat | i <= n
      ensures EscapedAt(json, key + 1, key + 1 + i) == EscapedIn(name, i)
    {
      SameEscapes(json, key + 1, name, i);
    }
    if Spells(name) {
      forall q: nat | key + 1 <= q < key + 1 + n && ByteAt(json, q) == QUOTE
        ensures EscapedAt(json, key + 1, q)
      {
        assert ByteAt(json, key + 1 + (q - key - 1)) == name[q - key - 1];
      }
    }
  }

  /** What is found is the value of the member with the attribute's name if and only if the name is spelled
      as strings are, its occurrence opens a string of the JSON, and the terminator is a quote that is not
      escaped. */
  lemma {:induction false} FindsMemberIff(json: seq<Word>, len: nat, attr: Attribute, start: nat, end: nat)
    requires ValueSpan(json, len, attr.Pattern(), start, end)
    ensures MemberAt(json, len, attr.name, start - |attr.Pattern()|, start, end) <==>
              && Spells(attr.name) && Scan(json, start - |attr.Pattern()|) == Outside
              && ByteAt(json, end) == QUOTE && !EscapedAt(json, start, end)
  {
    hide ByteAt, EscapedAt, EscapedIn, Scan, Spells, MatchAt;
    NameIsClosedIff(json, len, attr.name, start - |attr.Pattern()|);
    forall q: nat | start <= q < end
      ensures ByteAt(json, q) != QUOTE
    {
      assert !TerminatorAt(json, len, start, q);
    }
  }

  /** From the start of a string to its closing quote the scan is never outside. */
  lemma {:induction false} ClosedScan(json: seq<Word>, len: nat, start: nat, quote: nat, q: nat)
    requires Scan(json, start) == Inside && ClosedAt(json, len, start, quote) && start <= q <= quote
    ensures Scan(json, q) == if EscapedAt(json, start, q) then Escaped else Inside
  {
    hide ByteAt;
    if q > start {
      ClosedScan(json, len, start, quote, q - 1);
    }
  }

  /** The value of a member is a string of the JSON: the scan enters it at its start, stays inside up to
      its closing quote, and leaves it there. */
  lemma {:induction false} MemberIsScanned(json: seq<Word>, len: nat, name: seq<byte>, key: nat, start: nat, quote: nat)
    requires MemberAt(json, len, name, key, start, quote)
    ensures Scan(json, start - 1) == Outside && Scan(json, quote + 1) == Outside
    ensures forall q: nat :: start <= q <= quote ==> Scan(json, q) != Outside
  {
    hide ByteAt, ClosedAt, EscapedAt;
    var after := key + 1 + |name|;
    assert Scan(json, key + 1) == Inside;
    ClosedScan(json, len, key + 1, after, after);
    assert !EscapedAt(json, key + 1, after) && ByteAt(json, after) == QUOTE by {
      CloseIsBare(json, len, key + 1, after);
    }
    assert Scan(json, after + 1) == Outside;
    assert Scan(json, after + 2) == Outside;
    assert Scan(json, start) == Inside;
    CloseIsBare(json, len, start, quote);
    forall q: nat | start <= q <= quote
      ensures Scan(json, q) == if EscapedAt(json, start, q) then Escaped else Inside
    {
      ClosedScan(json, len, start, quote, q);
    }
  }

  lemma CloseIsBare(json: seq<Word>, len: nat, start: nat, quote: nat)
    requires ClosedAt(json, len, start, quote)
    ensures start <= quote && ByteAt(json, quote) == QUOTE && !EscapedAt(json, start, quote)
  {
  }

  // ---- Objects on which it is not. ----

  /** A text of nine to sixteen bytes, packed. */
  function Packed(text: seq<byte>): (json: seq<Word>)
    requires 8 <= |text| <= 16
    ensures |json| == 2
  {
    [FromLeBytes(text[..8]), FromLeBytes(text[8..])]
  }

  lemma PackedText(text: seq<byte>)
    requires 8 <= |text| <= 16
    ensures forall p: nat :: p < |text| ==> ByteAt(Packed(text), p) == text[p]
  {
    hide Pack;
    forall p: nat | p < |text|
      ensures ByteAt(Packed(text), p) == text[p]
    {
      if p < 8 {
        PackedByte(text[..8], p);
      } else {
        PackedByte(text[8..], p - 8);
      }
    }
  }

  lemma {:induction false} MatchIff(text: seq<byte>, pattern: seq<byte>, s: nat)
    requires 8 <= |text| <= 16
    ensures MatchAt(Packed(text), |text|, pattern, s) <==>
              s + |pattern| < |text| && text[s..s + |pattern|] == pattern
  {
    hide ByteAt, Packed;
    PackedText(text);
    if s + |pattern| < |text| && MatchAt(Packed(text), |text|, pattern, s) {
      forall i | 0 <= i < |pattern|
        ensures text[s..s + |pattern|][i] == pattern[i]
      {
        assert ByteAt(Packed(text), s + i) == pattern[i];
      }
    }
  }

  /** The attribute n, and the bytes that introduce its value: "n":" with the quotes. */
  const N: Attribute := Attribute([110], 0, [])
  const N_PATTERN: seq<byte> := [34, 110, 34, 58, 34]

  /** {"n":"a,b"} */
  const COMMA_TEXT: seq<byte> := [123, 34, 110, 34, 58, 34, 97, 44, 98, 34, 125]

  /** {"n":"","n":"b"} */
  const TWO_TEXT: seq<byte> := [123, 34, 110, 34, 58, 34, 34, 44, 34, 110, 34, 58, 34, 98, 34, 125]

  /** {"n":"a}b"} */
  const BRACE_TEXT: seq<byte> := [123, 34, 110, 34, 58, 34, 97, 125, 98, 34, 125]

  /** {"n":"a\"b"} */
  const QUOTE_TEXT: seq<byte> := [123, 34, 110, 34, 58, 34, 97, 92, 34, 98, 34, 125]

  /** {"a\"n":"x"} */
  const KEY_TEXT: seq<byte> := [123, 34, 97, 92, 34, 110, 34, 58, 34, 120, 34, 125]

  /** The span in a packed text, from the places of the last match and of the first terminator. */
  lemma {:induction false} SpanOfText(text: seq<byte>, s: nat, end: nat)
    requires 8 <= |text| <= 16 && s + 5 <= end < |text| && text[s..s + 5] == N_PATTERN
    requires forall t: nat :: s < t && t + 5 < |text| ==> text[t] != QUOTE || text[t + 1] != 110
    requires IsTerminator(text[end]) && forall q: nat :: s + 5 <= q < end ==> !IsTerminator(text[q])
    ensures N.Pattern() == N_PATTERN && ValueSpan(Packed(text), |text|, N_PATTERN, s + 5, end)
  {
    hide ByteAt, Packed, MatchAt;
    PackedText(text);
    MatchIff(text, N_PATTERN, s);
    forall t: nat | t > s
      ensures !MatchAt(Packed(text), |text|, N_PATTERN, t)
    {
      MatchIff(text, N_PATTERN, t);
      if t + 5 < |text| {
        assert text[t..t + 5][0] == text[t] && text[t..t + 5][1] == text[t + 1];
      }
    }
    Size(text);
  }

  lemma Size(text: seq<byte>)
    requires 8 <= |text| <= 16
    ensures |text| <= 8 * |Packed(text)|
  {
  }

  /** In {"n":"a,b"} the value found for n is a, though the string is a,b. */
  lemma {:induction false} CommaEndsValue()
    ensures ValueSpan(Packed(COMMA_TEXT), 11, N.Pattern(), 6, 7)
    ensures MemberAt(Packed(COMMA_TEXT), 11, N.name, 1, 6, 9)
  {
    hide ByteAt, Packed, ValueSpan;
    SpanOfText(COMMA_TEXT, 1, 7);
    PackedText(COMMA_TEXT);
    Size(COMMA_TEXT);
    var json := Packed(COMMA_TEXT);
    assert |N.name| == 1 && Scan(json, 1) == Outside;
    assert !EscapedAt(json, 2, 3) && ClosedAt(json, 11, 2, 3);
    assert !EscapedAt(json, 6, 9) && ClosedAt(json, 11, 6, 9);
  }

  /** Of two members of one name, the last is found: {"n":"","n":"b"}. */
  lemma {:induction false} LastMemberFound()
    ensures ValueSpan(Packed(TWO_TEXT), 16, N.Pattern(), 13, 14)
  {
    hide ByteAt, Packed, ValueSpan;
    SpanOfText(TWO_TEXT, 8, 14);
  }

  /** In {"n":"a}b"} it is a as well. */
  lemma {:induction false} BraceEndsValue()
    ensures ValueSpan(Packed(BRACE_TEXT), 11, N.Pattern(), 6, 7)
    ensures MemberAt(Packed(BRACE_TEXT), 11, N.name, 1, 6, 9)
  {
    hide ByteAt, Packed, ValueSpan;
    SpanOfText(BRACE_TEXT, 1, 7);
    PackedText(BRACE_TEXT);
    Size(BRACE_TEXT);
    var json := Packed(BRACE_TEXT);
    assert |N.name| == 1 && Scan(json, 1) == Outside;
    assert !EscapedAt(json, 2, 3) && ClosedAt(json, 11, 2, 3);
    assert !EscapedAt(json, 6, 9) && ClosedAt(json, 11, 6, 9);
  }

  /** In {"n":"a\"b"} no comma and no brace stands in the string, and what is found ends at the escaped
      quote. */
  lemma {:induction false} QuoteEndsValue()
    ensures ValueSpan(Packed(QUOTE_TEXT), 12, N.Pattern(), 6, 8)
    ensures MemberAt(Packed(QUOTE_TEXT), 12, N.name, 1, 6, 10)
  {
    hide ByteAt, Packed, ValueSpan;
    SpanOfText(QUOTE_TEXT, 1, 8);
    PackedText(QUOTE_TEXT);
    Size(QUOTE_TEXT);
    var json := Packed(QUOTE_TEXT);
    assert |N.name| == 1 && Scan(json, 1) == Outside;
    assert !EscapedAt(json, 2, 3) && ClosedAt(json, 12, 2, 3);
    assert !EscapedAt(json, 6, 7) && EscapedAt(json, 6, 8) && !EscapedAt(json, 6, 10);
    assert ClosedAt(json, 12, 6, 10);
  }

  lemma MemberStart(json: seq<Word>, len: nat, name: seq<byte>, key: nat, start: nat, quote: nat)
    requires |name| > 0
    ensures MemberAt(json, len, name, key, start, quote) ==>
              key + 1 + |name| < len && ByteAt(json, key + 1) == name[0] && Scan(json, key) == Outside
  {
    if MemberAt(json, len, name, key, start, quote) {
      assert ByteAt(json, key + 1 + 0) == name[0];
    }
  }

  lemma {:induction false} KeyScan()
    ensures Scan(Packed(KEY_TEXT), 1) == Outside && Scan(Packed(KEY_TEXT), 4) == Escaped
  {
    hide ByteAt, Packed;
    PackedText(KEY_TEXT);
    var json := Packed(KEY_TEXT);
    assert ByteAt(json, 0) == OPEN_BRACE && ByteAt(json, 1) == QUOTE && ByteAt(json, 2) == 97;
    assert ByteAt(json, 3) == BACKSLASH;
    assert Scan(json, 0) == Outside;
    assert Scan(json, 1) == Past(Scan(json, 0), ByteAt(json, 0)) == Outside;
    assert Scan(json, 2) == Past(Scan(json, 1), ByteAt(json, 1)) == Inside;
    assert Scan(json, 3) == Past(Scan(json, 2), ByteAt(json, 2)) == Inside;
    assert Scan(json, 4) == Past(Scan(json, 3), ByteAt(json, 3)) == Escaped;
  }

  lemma {:induction false} NoMemberN()
    ensures forall key: nat, start: nat, quote: nat :: !MemberAt(Packed(KEY_TEXT), 12, N.name, key, start, quote)
  {
    hide ByteAt, Packed, MemberAt, EscapedAt, ClosedAt;
    PackedText(KEY_TEXT);
    var json := Packed(KEY_TEXT);
    KeyScan();
    forall key: nat, start: nat, quote: nat
      ensures !MemberAt(json, 12, N.name, key, start, quote)
    {
      MemberStart(json, 12, N.name, key, start, quote);
      if key < 10 && ByteAt(json, key + 1) == 110 {
        assert KEY_TEXT[key + 1] == 110;
        assert key == 4;
      }
    }
  }

  /** In {"a\"n":"x"} a value is found for n, though no key but a"n is there. */
  lemma {:induction false} QuoteInKeyFound()
    ensures ValueSpan(Packed(KEY_TEXT), 12, N.Pattern(), 9, 10)
    ensures forall key: nat, start: nat, quote: nat :: !MemberAt(Packed(KEY_TEXT), 12, N.name, key, start, quote)
    ensures MemberAt(Packed(KEY_TEXT), 12, KEY_TEXT[2..6], 1, 9, 10)
  {
    hide ByteAt, Packed, ValueSpan;
    SpanOfText(KEY_TEXT, 4, 10);
    PackedText(KEY_TEXT);
    Size(KEY_TEXT);
    var json := Packed(KEY_TEXT);
    KeyScan();
    assert !EscapedAt(json, 2, 3) && EscapedAt(json, 2, 4) && !EscapedAt(json, 2, 6) && !EscapedAt(json, 9, 10);
    assert ClosedAt(json, 12, 2, 6) && ClosedAt(json, 12, 9, 10);
    NoMemberN();
  }
}
