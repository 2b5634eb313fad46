/** The checks on an RSA signature as a whole: what they accept, which modulus they use when its vector
    is wide, and accepted inputs whose encoded message is not the signature's power. */
module Rs256Verify {
  import opened Bits
  import opened Words
  import opened Bytes
  import opened FixedByteVec
  import opened Rs256

  /** The integer that all bytes of an array of wires spell. */
  function Number(data: seq<Word>): nat {
    BigEndian(Take(data, 8 * |data|))
  }

  /** The integer that the first 256 bytes spell: the contents of a vector of length 256. */
  function ContentsNumber(data: seq<Word>): nat {
    BigEndian(Take(data, 256))
  }

  /** The encoded message of a hash, as an integer. */
  function Encoded(hash: seq<Word>): (e: nat)
    requires |hash| == 4
    ensures 2 <= e && 4 * e < Pow2(WIDTH)
  {
    EncodedBounds(hash);
    BigEndian(EncodedMessage(HighFirstAll(hash)))
  }

  /** The checks on the length wires. A signature vector wider than 32 wires is cut to them and given a
      constant length, so that its own length wire is not looked at. */
  predicate LengthsAccepted(signature: ByteVec, modulus: ByteVec) {
    && (|signature.data| == LIMBS ==> signature.lenBytes == 256)
    && modulus.lenBytes == 256
  }

  /** All the checks. A modulus vector is taken as it is, all its wires counting. */
  ghost predicate Accepts(signature: ByteVec, modulus: ByteVec, hash: seq<Word>, w: Intermediates)
    requires |signature.data| >= LIMBS && |modulus.data| >= LIMBS && w.Valid()
  {
    && LengthsAccepted(signature, modulus)
    && ChainHolds(Number(signature.data[..LIMBS]), Number(modulus.data), w)
    && w.mulRemainder == AsLimbs(PREFIX + hash)
  }

  /** Emits the checks, given the four wires of the message's hash. When they hold, the encoded message
      is congruent to the signature's power modulo the number the modulus wires spell, which is the one
      its contents spell exactly when the vector has 32 wires or spells zero. */
  method VerifySignature(signature: ByteVec, modulus: ByteVec, hash: seq<Word>, w: Intermediates) returns (sat: bool)
    requires |signature.data| >= LIMBS && |modulus.data| >= LIMBS && |hash| == 4 && w.Valid()
    requires |w.mulRemainder| == LIMBS
    ensures sat <==> Accepts(signature, modulus, hash, w)
    ensures sat ==> modulus.lenBytes == 256 && (|signature.data| == 32 ==> signature.lenBytes == 256)
    ensures var (base, m) := (Number(signature.data[..LIMBS]), Number(modulus.data));
            sat ==>
              && Congruent(Encoded(hash), Power(base, 65537), m)
              && (m > 0 ==> (Encoded(hash) == Power(base, 65537) % m <==> Encoded(hash) < m))
    ensures Number(modulus.data) == ContentsNumber(modulus.data) <==>
              |modulus.data| == LIMBS || Number(modulus.data) == 0
    ensures sat && (|modulus.data| == LIMBS || Number(modulus.data) == 0) ==>
              Congruent(Encoded(hash), Power(Number(signature.data[..LIMBS]), 65537), ContentsNumber(modulus.data))
  {
    hide Value, ChainHolds, Number, ContentsNumber, Power, Congruent, AsLimbs, Encoded;
    var base, m := ToBigUint(signature.data[..LIMBS]), ToBigUint(modulus.data);
    LimbsSpell(signature.data[..LIMBS]);
    LimbsSpell(modulus.data);
    WidthIff(modulus.data);
    sat := (|signature.data| > LIMBS || signature.lenBytes == 256) && modulus.lenBytes == 256;
    var chain := ModexpVerify(base, m, w);
    sat := sat && chain && w.mulRemainder == AsLimbs(PREFIX + hash);
    if sat {
      ChainIsPower(Value(base), Value(m), w);
      EncodedLimbs(hash);
    }
  }

  lemma LimbsSpell(data: seq<Word>)
    ensures Value(ToBigUint(data)) == Number(data)
  {
    ToBigUintIsBigEndian(data);
  }

  lemma EncodedLimbs(hash: seq<Word>)
    requires |hash| == 4
    ensures Value(AsLimbs(PREFIX + hash)) == Encoded(hash)
  {
    hide Value, BigEndian, AsLimbs, HighFirstAll, EncodedMessage;
    LimbsAreBigEndian(PREFIX + hash);
    PrefixIsEncoding(hash);
  }

  // ---- The honest witness. ----

  lemma {:induction false} SameLimbs(a: seq<Word>, b: seq<Word>)
    requires |a| == |b| && Value(a) == Value(b)
    ensures a == b
  {
    if a != [] {
      UpValue(Value(a[1..]), 64);
      UpValue(Value(b[1..]), 64);
      Pow2Values();
      SameLimbs(a[1..], b[1..]);
    }
  }

  /** Completeness: for a signature below a modulus of at most 2048 bits, the honest witness is accepted if
      and only if the lengths are and the encoded message is the signature's power modulo the modulus. */
  lemma {:induction false} HonestAccepted(signature: ByteVec, modulus: ByteVec, hash: seq<Word>, w: Intermediates)
    requires |signature.data| >= LIMBS && |modulus.data| >= LIMBS && |hash| == 4
    requires Number(signature.data[..LIMBS]) < Number(modulus.data) < Pow2(WIDTH)
    requires Honest(Number(signature.data[..LIMBS]), Number(modulus.data), w)
    ensures Accepts(signature, modulus, hash, w) <==>
              && LengthsAccepted(signature, modulus)
              && Encoded(hash) == Power(Number(signature.data[..LIMBS]), 65537) % Number(modulus.data)
  {
    hide Value, ChainHolds, Number, Power, AsLimbs, Encoded, Remainder, Quotient, Lo, Pow2;
    SignatureBelowModulus(Number(signature.data[..LIMBS]), Number(modulus.data), w);
    EncodedLimbs(hash);
    if Value(w.mulRemainder) == Encoded(hash) {
      SameLimbs(w.mulRemainder, AsLimbs(PREFIX + hash));
    }
  }

  // ---- Which modulus is used. ----

  lemma TakeMore(data: seq<Word>, n: nat, m: nat)
    requires n <= m
    ensures Take(data, m)[..n] == Take(data, n) && Take(data, m) == Take(data, n) + Take(data, m)[n..]
  {
  }

  /** Bytes past the 256th shift the number up and add to it. */
  lemma NumberSplit(data: seq<Word>, bits: nat)
    requires |data| >= LIMBS && bits == 64 * (|data| - LIMBS)
    ensures Number(data) == ContentsNumber(data) * Pow2(bits) + BigEndian(Take(data, 8 * |data|)[256..])
  {
    hide BigEndian, Up, Take;
    var extra := Take(data, 8 * |data|)[256..];
    TakeMore(data, 256, 8 * |data|);
    BigEndianConcat(Take(data, 256), extra);
    UpValue(BigEndian(Take(data, 256)), bits);
    assert 8 * |extra| == bits;
  }

  /** The modulus used is the one the contents spell if and only if the vector is not wider than its
      contents or all its bytes are zero. */
  lemma WidthIff(data: seq<Word>)
    requires |data| >= LIMBS
    ensures Number(data) == ContentsNumber(data) <==> |data| == LIMBS || Number(data) == 0
  {
    hide BigEndian, Number, ContentsNumber;
    if |data| == LIMBS {
      SameBytes(data);
    } else {
      var bits := 64 * (|data| - LIMBS);
      NumberSplit(data, bits);
      var x, p := ContentsNumber(data), Pow2(bits);
      Pow2Mono(1, bits);
      assert Pow2(1) == 2;
      Doubles(x, p);
    }
  }

  lemma Doubles(x: nat, p: nat)
    requires p >= 2
    ensures x * p >= 2 * x
  {
    MulSign(p, x);
    assert x * (p - 2) >= 0;
    assert x * p == 2 * x + x * (p - 2);
  }

  lemma SameBytes(data: seq<Word>)
    requires |data| == LIMBS
    ensures Number(data) == ContentsNumber(data)
  {
  }

  // ---- Spelling a number on wires. ----

  /** The wires that spell a number given by limbs. */
  function Spelled(limbs: seq<Word>): (data: seq<Word>)
    ensures |data| == |limbs|
  {
    ToBigUint(limbs)
  }

  lemma SwapTwice(x: Word)
    ensures SwapBytes(SwapBytes(x)) == x
  {
    hide SwapBytes, Byte;
    forall j: nat | j < 8
      ensures Byte(SwapBytes(SwapBytes(x)), j) == Byte(x, j)
    {
      SwappedByte(SwapBytes(x), j);
      SwappedByte(x, 7 - j);
    }
    ByteExtensional(SwapBytes(SwapBytes(x)), x);
  }

  lemma SpelledNumber(limbs: seq<Word>)
    ensures Number(Spelled(limbs)) == Value(limbs)
  {
    hide SwapBytes, Value, Number;
    var data := Spelled(limbs);
    forall i | 0 <= i < |limbs|
      ensures ToBigUint(data)[i] == limbs[i]
    {
      SwapTwice(limbs[i]);
    }
    assert ToBigUint(data) == limbs;
    LimbsSpell(data);
  }

  /** A number in `k` limbs. */
  function LimbsOf(n: nat, k: nat): (limbs: seq<Word>)
    ensures |limbs| == k
  {
    Resize(Digits(n), k)
  }

  lemma LimbsOfValue(n: nat, k: nat, bits: nat)
    requires bits == 64 * k && n < Pow2(bits)
    ensures Value(LimbsOf(n, k)) == n
  {
    hide Value, Digits, Pow2, Lo;
    ResizedValue(n, k);
    LoId(n, bits);
  }

  /** A vector of `k` wires that spells `n`, with the given length wire. */
  function VectorOf(n: nat, k: nat, len: Word): ByteVec {
    ByteVec(len, Spelled(LimbsOf(n, k)), 0, 8 * k)
  }

  lemma VectorNumber(n: nat, k: nat, len: Word)
    requires k >= LIMBS && n < Pow2(WIDTH) && len <= 256
    ensures VectorOf(n, k, len).InRange() && Number(VectorOf(n, k, len).data) == n
  {
    hide Value, Number, LimbsOf, Spelled, Pow2;
    Pow2Mono(WIDTH, 64 * k);
    LimbsOfValue(n, k, 64 * k);
    SpelledNumber(LimbsOf(n, k));
  }

  // ---- How large an encoded message is. ----

  lemma {:induction false} BigEndianBound(bs: seq<byte>)
    ensures BigEndian(bs) < Pow2(8 * |bs|)
  {
    if bs != [] {
      var n := |bs| - 1;
      BigEndianBound(bs[..n]);
      UpEight(Pow2(8 * n), 0);
      UpValue(Pow2(8 * n), 8);
      Pow2Add(8 * n, 8);
      Pow2Values();
    }
  }

  lemma {:induction false} HighFirstLength(ws: seq<Word>)
    ensures |HighFirstAll(ws)| == 8 * |ws|
  {
    if ws != [] {
      HighFirstLength(ws[..|ws| - 1]);
    }
  }

  /** It begins with a zero byte and a one. */
  lemma EncodedBounds(hash: seq<Word>)
    requires |hash| == 4
    ensures var e := BigEndian(EncodedMessage(HighFirstAll(hash))); 2 <= e && 4 * e < Pow2(WIDTH)
  {
    hide BigEndian, Up, HighFirstAll;
    HighFirstLength(hash);
    var bs := EncodedMessage(HighFirstAll(hash));
    var tail := bs[2..];
    assert |bs| == 256;
    assert bs == [0, 1] + tail;
    BigEndianConcat([0, 1], tail);
    ZeroOne();
    UpValue(1, 8 * |tail|);
    BigEndianBound(tail);
    Pow2Mono(1, 8 * |tail|);
    var t := 8 * |tail|;
    assert Pow2(t + 3) == 2 * Pow2(t + 2) && Pow2(t + 2) == 2 * Pow2(t + 1) && Pow2(t + 1) == 2 * Pow2(t);
    Pow2Mono(t + 3, WIDTH);
  }

  lemma ZeroOne()
    ensures BigEndian([0, 1]) == 1
  {
    assert [0, 1][..1] == [0] && [0][..0] == [];
    assert BigEndian([0]) == 256 * BigEndian([]) + 0;
  }

  // ---- Accepted inputs. ----

  /** Intermediates whose every square is reduced to one. */
  function ReducedToOne(q: nat, last: nat, hash: seq<Word>): Intermediates {
    Intermediates([LimbsOf(q, LIMBS)] + seq(15, _ => Small(0)), seq(16, _ => Small(1)), LimbsOf(last, LIMBS),
                  AsLimbs(PREFIX + hash))
  }

  /** They satisfy the chain when one is the square's remainder and the encoded message the last one. */
  lemma {:induction false} ReducedChain(base: nat, m: nat, q: nat, last: nat, hash: seq<Word>)
    requires |hash| == 4 && q < Pow2(WIDTH) && last < Pow2(WIDTH)
    requires base * base == q * m + 1 && base == last * m + Encoded(hash)
    ensures ReducedToOne(q, last, hash).Valid() && ChainHolds(base, m, ReducedToOne(q, last, hash))
  {
    hide Value, LimbsOf, Small, AsLimbs, Encoded, Pow2;
    var w := ReducedToOne(q, last, hash);
    LimbsOfValue(q, LIMBS, WIDTH);
    LimbsOfValue(last, LIMBS, WIDTH);
    SmallValue(0);
    SmallValue(1);
    EncodedLimbs(hash);
    forall i | 0 <= i < 16
      ensures Reduces(w.Base(base, i) * w.Base(base, i), m, Value(w.squareQuotients[i]), Value(w.squareRemainders[i]))
    {
      if i > 0 {
        assert w.Base(base, i) == 1 && Value(w.squareQuotients[i]) == 0;
      }
    }
    assert w.Base(base, 16) == 1;
  }

  /** For every hash: the signature that is the encoded message itself is accepted under the modulus one
      below it, though the encoded message is not the signature's power reduced by that modulus. */
  lemma {:induction false} UnreducedAccepted(hash: seq<Word>)
    requires |hash| == 4
    ensures var e := Encoded(hash);
            var (signature, modulus, w) := (VectorOf(e, LIMBS, 256), VectorOf(e - 1, LIMBS, 256),
                                            ReducedToOne(e + 1, 0, hash));
            && signature.InRange() && modulus.InRange() && w.Valid()
            && Number(signature.data) == e && Number(modulus.data) == ContentsNumber(modulus.data) == e - 1
            && Accepts(signature, modulus, hash, w)
            && e != Power(e, 65537) % (e - 1)
  {
    hide Encoded, Number, ContentsNumber, Power, Value, ReducedToOne, Pow2, VectorOf;
    var e := Encoded(hash);
    VectorNumber(e, LIMBS, 256);
    VectorNumber(e - 1, LIMBS, 256);
    VectorShape(e, LIMBS, 256);
    VectorShape(e - 1, LIMBS, 256);
    WidthIff(VectorOf(e - 1, LIMBS, 256).data);
    Zero();
    SquareOf(e);
    ReducedChain(e, e - 1, e + 1, 0, hash);
    WitnessShape(e + 1, 0, hash);
    EncodedLimbs(hash);
    ChainIsPower(e, e - 1, ReducedToOne(e + 1, 0, hash));
  }

  lemma SquareOf(e: nat)
    ensures e * e == (e + 1) * (e - 1) + 1
  {
  }

  lemma SquareOfTwice(e: nat)
    ensures (2 * e - 1) * (2 * e - 1) == 4 * e * (e - 1) + 1
  {
  }

  lemma Zero()
    ensures 0 < Pow2(WIDTH)
  {
  }

  lemma VectorShape(n: nat, k: nat, len: Word)
    ensures |VectorOf(n, k, len).data| == k && VectorOf(n, k, len).lenBytes == len
    ensures VectorOf(n, k, len).data[..k] == VectorOf(n, k, len).data
  {
  }

  lemma WitnessShape(q: nat, last: nat, hash: seq<Word>)
    ensures ReducedToOne(q, last, hash).Valid() && ReducedToOne(q, last, hash).mulRemainder == AsLimbs(PREFIX + hash)
  {
  }

  /** A signature on 33 wires is accepted with a length wire of zero. */
  lemma {:induction false} WideSignatureAccepted(hash: seq<Word>)
    requires |hash| == 4
    ensures var e := Encoded(hash);
            var narrow := VectorOf(e, LIMBS, 256);
            var signature := ByteVec(0, narrow.data + [0], 0, 264);
            var (modulus, w) := (VectorOf(e - 1, LIMBS, 256), ReducedToOne(e + 1, 0, hash));
            && signature.InRange() && modulus.InRange() && w.Valid() && |signature.data| == 33
            && Accepts(signature, modulus, hash, w)
  {
    hide Encoded, Number, ChainHolds, ReducedToOne, VectorOf, AsLimbs, Power;
    var e := Encoded(hash);
    UnreducedAccepted(hash);
    VectorShape(e, LIMBS, 256);
    VectorShape(e - 1, LIMBS, 256);
    var narrow := VectorOf(e, LIMBS, 256);
    assert (narrow.data + [0])[..LIMBS] == narrow.data[..LIMBS] == narrow.data;
  }

  /** On 33 wires, the contents are the number without its low 64 bits. */
  lemma WideContents(data: seq<Word>)
    requires |data| == 33
    ensures ContentsNumber(data) == Hi(Number(data), 64)
  {
    hide BigEndian, Up, Hi, Take;
    var extra := Take(data, 264)[256..];
    TakeMore(data, 256, 264);
    BigEndianConcat(Take(data, 256), extra);
    BigEndianBound(extra);
    JoinedParts(BigEndian(Take(data, 256)), BigEndian(extra), 64);
  }

  /** The signature and the modulus of the example below, spelled on 32 and on 33 wires. */
  function SignatureOnTwice(hash: seq<Word>): ByteVec
    requires |hash| == 4
  {
    VectorOf(2 * Encoded(hash) - 1, LIMBS, 256)
  }

  function WideModulus(hash: seq<Word>): ByteVec
    requires |hash| == 4
  {
    VectorOf(Encoded(hash) - 1, 33, 256)
  }

  lemma {:induction false} WideNumbers(hash: seq<Word>)
    requires |hash| == 4
    ensures var (signature, modulus) := (SignatureOnTwice(hash), WideModulus(hash));
            && signature.InRange() && |signature.data| == LIMBS && signature.lenBytes == 256
            && modulus.InRange() && |modulus.data| == 33 && modulus.lenBytes == 256
            && Number(signature.data) == Number(signature.data[..LIMBS]) == 2 * Encoded(hash) - 1
            && Number(modulus.data) == Encoded(hash) - 1 != ContentsNumber(modulus.data)
            && ContentsNumber(modulus.data) == Hi(Encoded(hash) - 1, 64)
  {
    hide Encoded, Number, ContentsNumber, Pow2, VectorOf, Hi;
    var e := Encoded(hash);
    VectorNumber(2 * e - 1, LIMBS, 256);
    VectorNumber(e - 1, 33, 256);
    VectorShape(2 * e - 1, LIMBS, 256);
    VectorShape(e - 1, 33, 256);
    WidthIff(WideModulus(hash).data);
    WideContents(WideModulus(hash).data);
  }

  lemma {:induction false} WideChain(hash: seq<Word>)
    requires |hash| == 4
    ensures var e, w := Encoded(hash), ReducedToOne(4 * Encoded(hash), 1, hash);
            w.Valid() && ChainHolds(2 * e - 1, e - 1, w) && w.mulRemainder == AsLimbs(PREFIX + hash)
  {
    hide Encoded, ReducedToOne, Pow2, ChainHolds, AsLimbs;
    var e := Encoded(hash);
    OneFits();
    SquareOfTwice(e);
    ReducedChain(2 * e - 1, e - 1, 4 * e, 1, hash);
    WitnessShape(4 * e, 1, hash);
  }

  /** For every hash whose last word is even and positive and whose next word is even: a modulus on 33
      wires is accepted, and modulo the number its 256 content bytes spell the encoded message is not
      congruent to the signature's power. */
  lemma {:induction false} WideModulusAccepted(hash: seq<Word>)
    requires |hash| == 4 && hash[3] % 2 == 0 && hash[3] > 0 && hash[2] % 2 == 0
    ensures var (signature, modulus) := (SignatureOnTwice(hash), WideModulus(hash));
            var w := ReducedToOne(4 * Encoded(hash), 1, hash);
            && signature.InRange() && modulus.InRange() && w.Valid()
            && |signature.data| == LIMBS && |modulus.data| == 33
            && Accepts(signature, modulus, hash, w)
            && Number(modulus.data) != ContentsNumber(modulus.data)
            && !Congruent(Encoded(hash), Power(Number(signature.data), 65537), ContentsNumber(modulus.data))
  {
    hide Encoded, Number, ContentsNumber, Power, ReducedToOne, SignatureOnTwice, WideModulus, ChainHolds, AsLimbs, Hi;
    WideNumbers(hash);
    WideChain(hash);
    NotCongruent(hash);
  }

  lemma {:induction false} NotCongruent(hash: seq<Word>)
    requires |hash| == 4 && hash[3] % 2 == 0 && hash[3] > 0 && hash[2] % 2 == 0
    ensures !Congruent(Encoded(hash), Power(2 * Encoded(hash) - 1, 65537), Hi(Encoded(hash) - 1, 64))
  {
    hide Encoded, Power, Congruent, Hi;
    var e := Encoded(hash);
    EncodedParity(hash);
    OddPower(2 * e - 1, 65537);
    if Congruent(e, Power(2 * e - 1, 65537), Hi(e - 1, 64)) {
      EvenModulus(e, Power(2 * e - 1, 65537), Hi(e - 1, 64));
    }
  }

  lemma OneFits()
    ensures 1 < Pow2(WIDTH)
  {
    Pow2Mono(1, WIDTH);
    assert Pow2(1) == 2;
  }

  /** Congruence modulo an even number keeps parity. */
  lemma EvenModulus(a: int, b: int, m: int)
    requires Congruent(a, b, m) && m % 2 == 0
    ensures a % 2 == b % 2
  {
    var k: int :| a == b + k * m;
    var h := m / 2;
    assert k * m == 2 * (k * h) by { assert m == 2 * h; }
  }

  lemma {:induction false} OddPower(b: nat, e: nat)
    requires b % 2 == 1
    ensures Power(b, e) % 2 == 1
  {
    if e > 0 {
      OddPower(b, e - 1);
      OddProduct(b, Power(b, e - 1));
    }
  }

  lemma OddProduct(a: nat, b: nat)
    requires a % 2 == 1 && b % 2 == 1
    ensures (a * b) % 2 == 1
  {
    var h, k := a / 2, b / 2;
    assert a * b == 2 * (2 * h * k + h + k) + 1 by { assert a == 2 * h + 1 && b == 2 * k + 1; }
  }

  /** The two last words of the hash are the two lowest limbs of the encoded message. */
  lemma EncodedParity(hash: seq<Word>)
    requires |hash| == 4 && hash[3] % 2 == 0 && hash[3] > 0 && hash[2] % 2 == 0
    ensures Encoded(hash) % 2 == 0 && Hi(Encoded(hash) - 1, 64) % 2 == 0
  {
    hide Encoded, Up, Hi, Value, AsLimbs;
    var words := PREFIX + hash;
    EncodedLimbs(hash);
    LowLimbs(words);
    assert words[|words| - 1] == hash[3] && words[|words| - 2] == hash[2];
    var upper := Value(AsLimbs(words)[1..]);
    EvenUp(upper);
    BelowEven(upper, hash[3]);
  }

  lemma BelowEven(upper: nat, low: Word)
    requires low > 0
    ensures Hi(Up(upper, 64) + low - 1, 64) == upper
  {
    Pow2Values();
    JoinedParts(upper, low - 1, 64);
  }

  /** The lowest limb is the last word, and the number above it is as even as the word before. */
  lemma LowLimbs(words: seq<Word>)
    requires |words| >= 2
    ensures Value(AsLimbs(words)) == Up(Value(AsLimbs(words)[1..]), 64) + words[|words| - 1]
    ensures Value(AsLimbs(words)[1..]) % 2 == words[|words| - 2] % 2
  {
    hide Up, Value;
    var limbs := AsLimbs(words);
    ValueStep(limbs);
    ValueStep(limbs[1..]);
    EvenUp(Value(limbs[1..][1..]));
  }

  lemma ValueStep(limbs: seq<Word>)
    requires limbs != []
    ensures Value(limbs) == Up(Value(limbs[1..]), 64) + limbs[0]
  {
  }

  lemma EvenUp(x: nat)
    ensures Up(x, 64) % 2 == 0
  {
    assert Up(x, 64) == 2 * Up(x, 63);
  }
}
