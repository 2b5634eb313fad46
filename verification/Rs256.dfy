/** The exponent chain of RSA signature verification over limbs, the witness an honest prover fills
    in, and the conversion of big-endian bytes on little-endian wires to limbs. */
module Rs256 {
  import opened Bits
  import opened Words
  import opened Bytes

  const LIMBS: nat := 32

  /** How many bits 32 limbs hold. */
  const WIDTH: nat := 64 * LIMBS

  // ---- Limbs. ----

  /** The integer that limbs stand for, the lowest limb first. */
  function Value(limbs: seq<Word>): nat {
    if limbs == [] then 0 else Up(Value(limbs[1..]), 64) + limbs[0]
  }

  /** The 64-bit digits of an integer, with no leading zero. */
  function Digits(v: nat): seq<Word> {
    if v == 0 then []
    else
      Pow2Values();
      LoBound(v, 64);
      HiLess(v);
      [Lo(v, 64)] + Digits(Hi(v, 64))
  }

  lemma HiLess(v: nat)
    requires v > 0
    ensures Hi(v, 64) < v
  {
    HiLoValue(v, 64);
    Pow2Values();
  }

  /** Cuts off or pads with zeros. */
  function Resize(limbs: seq<Word>, n: nat): (r: seq<Word>)
    ensures |r| == n
  {
    if |limbs| >= n then limbs[..n] else limbs + seq(n - |limbs|, _ => 0)
  }

  lemma {:induction false} ZeroLimbs(n: nat)
    ensures Value(seq(n, _ => 0)) == 0
  {
    if n > 0 {
      ZeroLimbs(n - 1);
      var zs: seq<Word> := seq(n, _ => 0);
      assert zs[1..] == seq(n - 1, _ => 0);
      UpValue(0, 64);
    }
  }

  /** Resizing keeps an integer's low 64n bits: nothing is lost exactly when it fits. */
  lemma {:induction false} ResizedValue(v: nat, n: nat)
    ensures Value(Resize(Digits(v), n)) == Lo(v, 64 * n)
    decreases n
  {
    hide Lo, Hi, Up;
    var limbs := Resize(Digits(v), n);
    if v == 0 {
      ZeroLimbs(n);
      assert limbs == seq(n, _ => 0);
      Pow2Mono(0, 64 * n);
      LoId(0, 64 * n);
    } else if n == 0 {
      ZeroPlaces(v);
    } else {
      ResizedValue(Hi(v, 64), n - 1);
      LoSplit(v, 64, 64 * (n - 1));
      HiLess(v);
      assert limbs[1..] == Resize(Digits(Hi(v, 64)), n - 1);
      assert limbs[0] == Lo(v, 64);
    }
  }

  // ---- The verified chain. ----

  function Power(b: nat, e: nat): nat {
    if e == 0 then 1 else b * Power(b, e - 1)
  }

  lemma {:induction false} PowerAdd(b: nat, d: nat, e: nat)
    ensures Power(b, d + e) == Power(b, d) * Power(b, e)
  {
    if d > 0 {
      PowerAdd(b, d - 1, e);
      MulAssoc(b, Power(b, d - 1), Power(b, e));
    }
  }

  lemma MulAssoc(a: nat, b: nat, c: nat)
    ensures a * (b * c) == (a * b) * c
  {
  }

  /** `a` and `b` differ by a multiple of `m`. */
  ghost predicate Congruent(a: int, b: int, m: int) {
    exists k: int :: a == b + k * m
  }

  lemma CongruentMul(a: int, b: int, c: int, d: int, m: int)
    requires Congruent(a, b, m) && Congruent(c, d, m)
    ensures Congruent(a * c, b * d, m)
  {
    var k: int :| a == b + k * m;
    var l: int :| c == d + l * m;
    var n := b * l + k * d + k * l * m;
    assert a * c == b * d + n * m by {
      assert a * c == b * d + b * (l * m) + (k * m) * d + (k * m) * (l * m);
      assert b * (l * m) == (b * l) * m;
      assert (k * m) * d == (k * d) * m;
      assert (k * m) * (l * m) == (k * l * m) * m;
      assert n * m == (b * l) * m + (k * d) * m + (k * l * m) * m;
    }
  }

  lemma CongruentTrans(a: int, b: int, c: int, m: int)
    requires Congruent(a, b, m) && Congruent(b, c, m)
    ensures Congruent(a, c, m)
  {
    var k: int :| a == b + k * m;
    var l: int :| b == c + l * m;
    assert a == c + (k + l) * m;
  }

  /** The quotients and remainders of the sixteen squarings, and those of the last product. */
  datatype Intermediates = Intermediates(squareQuotients: seq<seq<Word>>, squareRemainders: seq<seq<Word>>,
                                         mulQuotient: seq<Word>, mulRemainder: seq<Word>) {
    predicate Valid() {
      |squareQuotients| == 16 && |squareRemainders| == 16
    }

    /** What squaring `i` squares. */
    function Base(base: nat, i: nat): nat
      requires Valid() && i <= 16
    {
      if i == 0 then base else Value(squareRemainders[i - 1])
    }
  }

  /** One reduction: the dividend is quotient times modulus plus remainder. */
  predicate Reduces(a: int, m: nat, q: nat, r: nat) {
    a == q * m + r
  }

  /** The first `n` squarings are reduced as claimed. */
  ghost predicate Squared(base: nat, m: nat, w: Intermediates, n: nat)
    requires w.Valid() && n <= 16
  {
    forall i :: 0 <= i < n ==>
      Reduces(w.Base(base, i) * w.Base(base, i), m, Value(w.squareQuotients[i]), Value(w.squareRemainders[i]))
  }

  ghost predicate ChainHolds(base: nat, m: nat, w: Intermediates)
    requires w.Valid()
  {
    && Squared(base, m, w, 16)
    && Reduces(w.Base(base, 16) * base, m, Value(w.mulQuotient), Value(w.mulRemainder))
  }

  /** Emits the seventeen reductions. */
  method ModexpVerify(base: seq<Word>, modulus: seq<Word>, w: Intermediates) returns (sat: bool)
    requires w.Valid()
    ensures sat <==> ChainHolds(Value(base), Value(modulus), w)
  {
    hide Value, Reduces;
    sat := true;
    var result := base;
    for i := 0 to 16
      invariant Value(result) == w.Base(Value(base), i)
      invariant sat <==> Squared(Value(base), Value(modulus), w, i)
    {
      var squared := Value(result) * Value(result);
      sat := sat && Reduces(squared, Value(modulus), Value(w.squareQuotients[i]), Value(w.squareRemainders[i]));
      result := w.squareRemainders[i];
    }
    var multiplied := Value(result) * Value(base);
    sat := sat && Reduces(multiplied, Value(modulus), Value(w.mulQuotient), Value(w.mulRemainder));
  }

  lemma ReducedCongruent(a: int, m: nat, q: nat, r: nat)
    requires Reduces(a, m, q, r)
    ensures Congruent(r, a, m)
  {
    var quotient: int := q;
    var k := -quotient;
    assert k * m == -(q * m);
    assert r == a + k * m;
  }

  lemma {:induction false} SquaresCongruent(base: nat, m: nat, w: Intermediates, i: nat)
    requires w.Valid() && i <= 16 && Squared(base, m, w, 16)
    ensures Congruent(w.Base(base, i), Power(base, Pow2(i)), m)
  {
    hide Value;
    if i == 0 {
      assert Power(base, 1) == base * Power(base, 0) == base;
      assert base == base + 0 * m;
    } else {
      var p, x := Power(base, Pow2(i - 1)), w.Base(base, i - 1);
      SquaresCongruent(base, m, w, i - 1);
      CongruentMul(x, p, x, p, m);
      PowerAdd(base, Pow2(i - 1), Pow2(i - 1));
      ReducedCongruent(x * x, m, Value(w.squareQuotients[i - 1]), w.Base(base, i));
      CongruentTrans(w.Base(base, i), x * x, p * p, m);
    }
  }

  lemma SelfCongruent(a: int, m: int)
    ensures Congruent(a, a, m)
  {
    assert a == a + 0 * m;
  }

  lemma {:induction false} LastCongruent(base: nat, m: nat, w: Intermediates)
    requires w.Valid() && ChainHolds(base, m, w)
    ensures Congruent(Value(w.mulRemainder), w.Base(base, 16) * base, m)
  {
    hide Value;
    ReducedCongruent(w.Base(base, 16) * base, m, Value(w.mulQuotient), Value(w.mulRemainder));
  }

  /** Whatever the witness, satisfied reductions make the last remainder congruent to base^65537; it is
      the residue if and only if it is below the modulus, which nothing demands. */
  lemma {:induction false} ChainIsPower(base: nat, m: nat, w: Intermediates)
    requires w.Valid() && ChainHolds(base, m, w)
    ensures Congruent(Value(w.mulRemainder), Power(base, 65537), m)
    ensures m > 0 ==> (Value(w.mulRemainder) == Power(base, 65537) % m <==> Value(w.mulRemainder) < m)
  {
    hide Value, Power, Pow2;
    Pow2Values();
    var x, p, r := w.Base(base, 16), Power(base, 65536), Value(w.mulRemainder);
    SquaresCongruent(base, m, w, 16);
    SelfCongruent(base, m);
    CongruentMul(x, p, base, base, m);
    hide Congruent;
    PowerNext(base, 65536);
    LastCongruent(base, m, w);
    CongruentTrans(r, x * base, p * base, m);
    if r < m {
      SmallResidue(r, Power(base, 65537), m);
    }
  }

  lemma {:induction false} SmallResidue(r: nat, p: nat, m: nat)
    requires Congruent(r, p, m) && r < m
    ensures r == p % m
  {
    var k: int :| r == p + k * m;
    assert p == m * (-k) + r;
    DivUnique(p, m, -k, r);
  }

  lemma PowerNext(b: nat, e: nat)
    ensures Power(b, e + 1) == Power(b, e) * b
  {
  }

  /** A small number in 32 limbs. */
  function Small(x: Word): (limbs: seq<Word>)
    ensures |limbs| == LIMBS
  {
    [x] + seq(LIMBS - 1, _ => 0)
  }

  lemma SmallValue(x: Word)
    ensures Value(Small(x)) == x
  {
    ZeroLimbs(LIMBS - 1);
    var zs: seq<Word> := seq(LIMBS - 1, _ => 0);
    assert Small(x)[1..] == zs;
    UpValue(0, 64);
  }

  /** Signature 2 and modulus 3 with every square reduced to 4 instead of 1. */
  const UNREDUCED_CHAIN: Intermediates :=
    Intermediates([Small(0)] + seq(15, _ => Small(4)), seq(16, _ => Small(4)), Small(0), Small(8))

  /** It satisfies all seventeen reductions, and its last remainder is 8, which is not below 3. */
  lemma UnreducedChain()
    ensures UNREDUCED_CHAIN.Valid() && ChainHolds(2, 3, UNREDUCED_CHAIN)
    ensures Value(UNREDUCED_CHAIN.mulRemainder) == 8 != Power(2, 65537) % 3
  {
    hide Value, Small, Power;
    SmallValue(0);
    SmallValue(4);
    SmallValue(8);
    ChainIsPower(2, 3, UNREDUCED_CHAIN);
  }

  // ---- The honest witness. ----

  /** The remainder after `i` honest squarings. */
  function Remainder(base: nat, m: nat, i: nat): nat
    requires m > 0
  {
    if i == 0 then base else Remainder(base, m, i - 1) * Remainder(base, m, i - 1) % m
  }

  function Quotient(x: nat, y: nat, m: nat): nat
    requires m > 0
  {
    x * y / m
  }

  function Residue(x: nat, y: nat, m: nat): nat
    requires m > 0
  {
    x * y % m
  }

  /** One honest division, quotient and remainder cut or padded to 32 limbs. */
  function DivRem(a: nat, m: nat): (r: (seq<Word>, seq<Word>))
    requires m > 0
    ensures |r.0| == LIMBS && |r.1| == LIMBS
    ensures Value(r.0) == Lo(a / m, WIDTH) && Value(r.1) == Lo(a % m, WIDTH)
  {
    ResizedValue(a / m, LIMBS);
    ResizedValue(a % m, LIMBS);
    (Resize(Digits(a / m), LIMBS), Resize(Digits(a % m), LIMBS))
  }

  /** Squaring `i` holds the honest quotient and remainder, each in 32 limbs. */
  ghost predicate HonestAt(base: nat, m: nat, q: seq<Word>, r: seq<Word>, i: nat)
    requires m > 0
  {
    && |q| == LIMBS && |r| == LIMBS
    && Value(q) == Lo(Quotient(Remainder(base, m, i), Remainder(base, m, i), m), WIDTH)
    && Value(r) == Lo(Remainder(base, m, i + 1), WIDTH)
  }

  /** The witness holds the honest quotients and remainders. */
  ghost predicate Honest(base: nat, m: nat, w: Intermediates)
    requires m > 0
  {
    && w.Valid()
    && (forall i :: 0 <= i < 16 ==> HonestAt(base, m, w.squareQuotients[i], w.squareRemainders[i], i))
    && |w.mulQuotient| == LIMBS && |w.mulRemainder| == LIMBS
    && Value(w.mulQuotient) == Lo(Quotient(Remainder(base, m, 16), base, m), WIDTH)
    && Value(w.mulRemainder) == Lo(Residue(Remainder(base, m, 16), base, m), WIDTH)
  }

  /** Fills the intermediates in. */
  method PopulateWitness(signature: seq<byte>, modulus: seq<byte>) returns (w: Intermediates)
    requires |signature| == 256 && |modulus| == 256 && BigEndian(modulus) > 0
    ensures Honest(BigEndian(signature), BigEndian(modulus), w)
  {
    hide Value, DivRem, Lo, BigEndian, Remainder, HonestAt;
    var base, m := BigEndian(signature), BigEndian(modulus);
    var qs, rs: seq<seq<Word>> := [], [];
    var result := base;
    FirstRemainder(base, m);
    for i := 0 to 16
      invariant |qs| == i && |rs| == i && result == Remainder(base, m, i)
      invariant forall j :: 0 <= j < i ==> HonestAt(base, m, qs[j], rs[j], j)
    {
      var squared := result * result;
      var (q, r) := DivRem(squared, m);
      NextRemainder(base, m, i);
      HonestSquaring(base, m, i);
      qs, rs := qs + [q], rs + [r];
      result := squared % m;
    }
    var (q, r) := DivRem(result * base, m);
    w := Intermediates(qs, rs, q, r);
  }

  lemma HonestSquaring(base: nat, m: nat, i: nat)
    requires m > 0
    ensures var x := Remainder(base, m, i); var (q, r) := DivRem(x * x, m); HonestAt(base, m, q, r, i)
  {
    hide DivRem, Value, Lo;
  }

  /** A quotient fits `n` bits exactly when the dividend is below the divisor shifted up by `n`. */
  lemma {:induction false} QuotientFits(a: nat, m: nat, n: nat)
    requires m > 0
    ensures a / m < Pow2(n) <==> a < m * Pow2(n)
    ensures a == m * (a / m) + a % m
  {
    hide Pow2;
    var q, p := a / m, Pow2(n);
    MulSign(m, p - q);
    MulSign(m, q - p + 1);
    MulMinus(m, p, q);
    MulMinus(m, q + 1, p);
    MulMinus(m, q + 1, q);
  }

  lemma MulMinus(m: int, p: int, q: int)
    ensures m * (p - q) == m * p - m * q
  {
  }

  lemma ProductBelow(a: nat, b: nat, c: nat, d: nat)
    requires a < c && b <= d && c > 0
    ensures a * b <= c * d && (d > 0 ==> a * b < c * d)
  {
    assert a * b <= a * d by { assert a * (d - b) >= 0; }
    assert c * d == a * d + (c - a) * d;
    assert d > 0 ==> (c - a) * d > 0;
  }

  /** A truncated quotient satisfies the reduction exactly when nothing was truncated. */
  lemma {:induction false} TruncatedReduces(a: nat, m: nat, n: nat)
    requires m > 0 && m <= Pow2(n)
    ensures Lo(a % m, n) == a % m
    ensures Reduces(a, m, Lo(a / m, n), Lo(a % m, n)) <==> a < m * Pow2(n)
  {
    hide Lo, Pow2;
    QuotientFits(a, m, n);
    LoId(a % m, n);
    LoBound(a / m, n);
    if a / m < Pow2(n) {
      LoId(a / m, n);
    }
    SameQuotient(m, a / m, Lo(a / m, n), a % m);
  }

  lemma SameQuotient(m: nat, q: int, l: int, r: int)
    requires m > 0
    ensures m * q + r == l * m + r <==> q == l
  {
    MulSign(m, q - l);
    assert m * (q - l) == m * q - l * m;
  }

  lemma RemainderBelow(base: nat, m: nat, i: nat)
    requires m > 0 && i > 0
    ensures Remainder(base, m, i) < m
  {
  }

  lemma {:induction false} HonestBase(base: nat, m: nat, w: Intermediates, i: nat)
    requires 0 < m < Pow2(WIDTH) && Honest(base, m, w) && i <= 16
    ensures w.Base(base, i) == Remainder(base, m, i)
    ensures i > 0 ==> Remainder(base, m, i) < m
  {
    hide Value, Remainder, Lo, Pow2;
    if i > 0 {
      RemainderBelow(base, m, i);
      LoId(Remainder(base, m, i), WIDTH);
      assert HonestAt(base, m, w.squareQuotients[i - 1], w.squareRemainders[i - 1], i - 1);
    } else {
      FirstRemainder(base, m);
    }
  }

  /** An honest squaring satisfies its reduction; the first only if its quotient fits. */
  lemma {:induction false} HonestStep(base: nat, m: nat, w: Intermediates, i: nat)
    requires 0 < m < Pow2(WIDTH) && Honest(base, m, w) && i < 16
    ensures Reduces(w.Base(base, i) * w.Base(base, i), m, Value(w.squareQuotients[i]), Value(w.squareRemainders[i]))
            <==> (i == 0 ==> base * base < m * Pow2(WIDTH))
  {
    hide Value, Remainder, Lo, Pow2, Reduces;
    var x := Remainder(base, m, i);
    HonestBase(base, m, w, i);
    FirstRemainder(base, m);
    TruncatedReduces(x * x, m, WIDTH);
    NextRemainder(base, m, i);
    assert HonestAt(base, m, w.squareQuotients[i], w.squareRemainders[i], i);
    if i > 0 {
      ProductBelow(x, x, m, Pow2(WIDTH));
    }
  }

  /** The honest witness satisfies the circuit if and only if the first quotient fits: the square of
      the signature is below the modulus shifted up by 2048 bits. */
  lemma {:induction false} HonestIff(base: nat, m: nat, w: Intermediates)
    requires 0 < m < Pow2(WIDTH) && base < Pow2(WIDTH) && Honest(base, m, w)
    ensures ChainHolds(base, m, w) <==> base * base < m * Pow2(WIDTH)
  {
    hide Value, Remainder, Lo, Pow2, Reduces, HonestAt;
    forall i | 0 <= i < 16
      ensures Reduces(w.Base(base, i) * w.Base(base, i), m, Value(w.squareQuotients[i]), Value(w.squareRemainders[i]))
              <==> (i == 0 ==> base * base < m * Pow2(WIDTH))
    {
      HonestStep(base, m, w, i);
    }
    HonestBase(base, m, w, 16);
    var last := Remainder(base, m, 16);
    TruncatedReduces(last * base, m, WIDTH);
    ProductBelow(last, base, m, Pow2(WIDTH));
  }

  /** The bytes of the modulus 1, and of the signature 2^1024. */
  const MODULUS_ONE: seq<byte> := seq(255, _ => 0) + [1]
  const WIDE_SIGNATURE: seq<byte> := seq(127, _ => 0) + [1] + seq(128, _ => 0)

  lemma {:induction false} ZeroBytesValue(n: nat)
    ensures BigEndian(seq(n, _ => 0)) == 0
  {
    if n > 0 {
      ZeroBytesValue(n - 1);
      var zs: seq<byte> := seq(n, _ => 0);
      assert zs[..n - 1] == seq(n - 1, _ => 0);
    }
  }

  lemma OneByteValue(n: nat)
    ensures BigEndian(seq(n, _ => 0) + [1]) == 1
  {
    ZeroBytesValue(n);
    var zs: seq<byte> := seq(n, _ => 0);
    assert (zs + [1])[..n] == zs;
  }

  lemma WideValues()
    ensures |WIDE_SIGNATURE| == 256 && BigEndian(WIDE_SIGNATURE) == Pow2(HALF_WIDTH)
    ensures |MODULUS_ONE| == 256 && BigEndian(MODULUS_ONE) == 1
  {
    hide BigEndian;
    OneByteValue(255);
    OneByteValue(127);
    ZeroBytesValue(128);
    BigEndianConcat(seq(127, _ => 0) + [1], seq(128, _ => 0));
    UpValue(1, HALF_WIDTH);
  }

  const HALF_WIDTH: nat := 8 * 128

  /** For the modulus 1 and the signature 2^1024, both of 256 bytes, the honest witness is rejected: the
      first quotient has 2049 bits. */
  lemma HonestRejected(w: Intermediates)
    requires BigEndian(MODULUS_ONE) > 0 && Honest(BigEndian(WIDE_SIGNATURE), BigEndian(MODULUS_ONE), w)
    ensures !ChainHolds(BigEndian(WIDE_SIGNATURE), BigEndian(MODULUS_ONE), w)
  {
    hide Honest, ChainHolds, BigEndian, Pow2;
    WideValues();
    Pow2Add(HALF_WIDTH, HALF_WIDTH);
    Pow2Mono(0, HALF_WIDTH);
    Pow2Less(HALF_WIDTH, WIDTH);
    Pow2Less(0, WIDTH);
    HonestIff(Pow2(HALF_WIDTH), 1, w);
  }

  lemma Pow2Less(a: nat, b: nat)
    requires a < b
    ensures 1 <= Pow2(a) < Pow2(b)
  {
    Pow2Mono(a + 1, b);
  }

  lemma FirstRemainder(base: nat, m: nat)
    requires m > 0
    ensures Remainder(base, m, 0) == base
  {
  }

  lemma NextRemainder(base: nat, m: nat, i: nat)
    requires m > 0
    ensures Remainder(base, m, i + 1) == Remainder(base, m, i) * Remainder(base, m, i) % m
  {
  }

  /** In particular a signature below the modulus always has a satisfying witness. */
  lemma {:induction false} SignatureBelowModulus(base: nat, m: nat, w: Intermediates)
    requires base < m < Pow2(WIDTH) && Honest(base, m, w)
    ensures ChainHolds(base, m, w)
    ensures Value(w.mulRemainder) == Power(base, 65537) % m
  {
    hide Value, Remainder, Lo, Pow2, Reduces, Power;
    HonestIff(base, m, w);
    ProductBelow(base, base, m, Pow2(WIDTH));
    ChainIsPower(base, m, w);
    var last := Remainder(base, m, 16) * base;
    QuotientFits(last, m, 0);
    LoId(last % m, WIDTH);
  }

  // ---- Bytes to limbs. ----

  /** The integer of bytes, the most significant first. */
  function BigEndian(bs: seq<byte>): nat {
    if bs == [] then 0 else 256 * BigEndian(bs[..|bs| - 1]) + bs[|bs| - 1]
  }

  function Rotr(x: Word, n: nat): Word
    requires 0 < n < 64
  {
    Bxor(Shr(x, n), Shl(x, 64 - n))
  }

  const MASK_00FF: Word := 0x00FF_00FF_00FF_00FF
  const MASK_0000FFFF: Word := 0x0000_FFFF_0000_FFFF

  /** Swaps the bytes within each half. */
  function SwapBytes32(x: Word): Word {
    var step1 := Bxor(Shl(Band(x, MASK_00FF), 8), Band(Shr(x, 8), MASK_00FF));
    Bxor(Shl(Band(step1, MASK_0000FFFF), 16), Band(Shr(step1, 16), MASK_0000FFFF))
  }

  function SwapBytes(x: Word): Word {
    Rotr(SwapBytes32(x), 32)
  }

  /** The limbs of a big-endian integer whose bytes lie little-endian on wires. */
  function ToBigUint(data: seq<Word>): (limbs: seq<Word>)
    ensures |limbs| == |data|
  {
    seq(|data|, i requires 0 <= i < |data| => SwapBytes(data[|data| - 1 - i]))
  }

  lemma ByteBand(x: Word, m: Word, j: nat)
    ensures Byte(m, j) == 255 ==> Byte(Band(x, m), j) == Byte(x, j)
    ensures Byte(m, j) == 0 ==> Byte(Band(x, m), j) == 0
  {
    forall i: nat | i < 8
      ensures Bit(Byte(Band(x, m), j), i) == Bit(And(Byte(x, j), Byte(m, j)), i)
    {
      ByteBit(x, j, i);
      ByteBit(m, j, i);
      ByteBit(Band(x, m), j, i);
      BitAnd(x, m, 8 * j + i);
      BitAnd(Byte(x, j), Byte(m, j), i);
    }
    OpsBound(Byte(x, j), Byte(m, j), 8);
    Extensional(Byte(Band(x, m), j), And(Byte(x, j), Byte(m, j)), 8);
    AndMask(Byte(x, j), 8);
    LoId(Byte(x, j), 8);
    ZeroOps(Byte(x, j));
  }

  lemma MaskBytes(j: nat)
    requires j < 8
    ensures Byte(MASK_00FF, j) == if j % 2 == 0 then 255 else 0
    ensures Byte(MASK_0000FFFF, j) == if j / 2 % 2 == 0 then 255 else 0
  {
    hide Byte, Pack;
    MasksPacked();
    PackedWordByte(BYTES_00FF, j);
    PackedWordByte(BYTES_0000FFFF, j);
  }

  const BYTES_00FF: seq<byte> := [255, 0, 255, 0, 255, 0, 255, 0]
  const BYTES_0000FFFF: seq<byte> := [255, 255, 0, 0, 255, 255, 0, 0]

  lemma MasksPacked()
    ensures Pack(BYTES_00FF) == MASK_00FF && Pack(BYTES_0000FFFF) == MASK_0000FFFF
  {
    PackEight(BYTES_00FF);
    PackEight(BYTES_0000FFFF);
  }

  lemma PackEight(bs: seq<byte>)
    requires |bs| == 8
    ensures Pack(bs)
            == Two(bs, 1, 0) + 0x1_0000 * (Two(bs, 3, 2) + 0x1_0000 * (Two(bs, 5, 4) + 0x1_0000 * Two(bs, 7, 6)))
  {
    assert bs[4..][1..] == bs[5..] && bs[5..][1..] == bs[6..] && bs[6..][1..] == bs[7..] && bs[7..][1..] == [];
    assert bs[1..][1..] == bs[2..] && bs[2..][1..] == bs[3..] && bs[3..][1..] == bs[4..];
    assert bs[7..] == [bs[7]] && Pack(bs[7..]) == bs[7] + 256 * Pack([]);
    assert Pack(bs[6..]) == Two(bs, 7, 6) && Pack(bs[4..]) == Two(bs, 5, 4) + 0x1_0000 * Pack(bs[6..]);
    assert Pack(bs[2..]) == Two(bs, 3, 2) + 0x1_0000 * Pack(bs[4..]);
  }

  /** Two bytes as one number. */
  function Two(bs: seq<byte>, hi: nat, lo: nat): nat
    requires hi < |bs| && lo < |bs|
  {
    var top: nat := bs[hi];
    256 * top + bs[lo]
  }

  /** Byte `i` lies in an even group of `k` bytes, one or two. */
  predicate EvenGroup(i: nat, k: nat) {
    if k == 1 then i % 2 == 0 else i / 2 % 2 == 0
  }

  /** Swapping neighbouring groups of `k` bytes, under the mask of the even groups. */
  lemma SwapStep(x: Word, m: Word, k: nat, j: nat)
    requires j < 8 && (k == 1 || k == 2)
    requires forall i: nat :: i < 8 ==> Byte(m, i) == if EvenGroup(i, k) then 255 else 0
    ensures EvenGroup(j, k) || j >= k
    ensures Byte(Bxor(Shl(Band(x, m), 8 * k), Band(Shr(x, 8 * k), m)), j)
         == Byte(x, if EvenGroup(j, k) then j + k else j - k)
  {
    hide Byte, Shl, Shr, Band, Bxor;
    var up, down := Shl(Band(x, m), 8 * k), Band(Shr(x, 8 * k), m);
    ByteXor(up, down, j);
    ByteShl(Band(x, m), k, j);
    ByteBand(Shr(x, 8 * k), m, j);
    ByteShr(x, k, j);
    if j >= k {
      ByteBand(x, m, j - k);
    }
  }

  /** The bytes of a swapped word are the word's bytes in reverse. */
  lemma {:induction false} SwappedByte(x: Word, j: nat)
    requires j < 8
    ensures Byte(SwapBytes(x), j) == Byte(x, 7 - j)
  {
    hide Byte, Shl, Shr, Band, Bxor;
    forall i: nat | i < 8
      ensures Byte(MASK_00FF, i) == if EvenGroup(i, 1) then 255 else 0
      ensures Byte(MASK_0000FFFF, i) == if EvenGroup(i, 2) then 255 else 0
    {
      MaskBytes(i);
    }
    var step1 := Bxor(Shl(Band(x, MASK_00FF), 8), Band(Shr(x, 8), MASK_00FF));
    var y := SwapBytes32(x);
    var i := if j < 4 then j + 4 else j - 4;
    ByteXor(Shr(y, 32), Shl(y, 32), j);
    ByteShr(y, 4, j);
    ByteShl(y, 4, j);
    SwapStep(step1, MASK_0000FFFF, 2, i);
    SwapStep(x, MASK_00FF, 1, if i / 2 % 2 == 0 then i + 2 else i - 2);
  }

  function Reversed(bs: seq<byte>): (r: seq<byte>)
    ensures |r| == |bs|
    ensures forall i :: 0 <= i < |bs| ==> r[i] == bs[|bs| - 1 - i]
  {
    if bs == [] then [] else [bs[|bs| - 1]] + Reversed(bs[..|bs| - 1])
  }

  lemma {:induction false} PackReversed(bs: seq<byte>)
    ensures Pack(Reversed(bs)) == BigEndian(bs)
  {
    if bs != [] {
      PackReversed(bs[..|bs| - 1]);
      assert Reversed(bs)[1..] == Reversed(bs[..|bs| - 1]);
    }
  }

  function WordBytes(x: Word): (bs: seq<byte>)
    ensures |bs| == 8
  {
    seq(8, j requires 0 <= j < 8 => Byte(x, j))
  }

  lemma {:induction false} SwappedIsBigEndian(x: Word)
    ensures SwapBytes(x) == BigEndian(WordBytes(x))
  {
    hide SwapBytes, Byte, BigEndian;
    var r := Reversed(WordBytes(x));
    PackBound(r);
    PackReversed(WordBytes(x));
    var y: Word := Pack(r);
    forall j: nat | j < 8
      ensures Byte(SwapBytes(x), j) == Byte(y, j)
    {
      SwappedByte(x, j);
      PackedWordByte(r, j);
    }
    ByteExtensional(SwapBytes(x), y);
  }

  lemma PackedWordByte(bs: seq<byte>, j: nat)
    requires |bs| == 8 && j < 8
    ensures Pack(bs) < 0x1_0000_0000_0000_0000 && Byte(Pack(bs), j) == bs[j]
  {
    PackBound(bs);
    PackedByte(bs, j);
  }

  lemma {:induction false} BigEndianConcat(a: seq<byte>, b: seq<byte>)
    ensures BigEndian(a + b) == Up(BigEndian(a), 8 * |b|) + BigEndian(b)
    decreases |b|
  {
    if b == [] {
      assert a + b == a;
    } else {
      var n := |b| - 1;
      assert (a + b)[..|a + b| - 1] == a + b[..n];
      BigEndianConcat(a, b[..n]);
      UpEight(BigEndian(a), 8 * n);
    }
  }

  /** The limbs hold exactly the big-endian integer of the bytes on the wires. */
  lemma {:induction false} ToBigUintIsBigEndian(data: seq<Word>)
    ensures Value(ToBigUint(data)) == BigEndian(Take(data, 8 * |data|))
  {
    hide SwapBytes, Byte, BigEndian, Up;
    if data == [] {
      assert Take(data, 0) == [];
      EmptyBytes();
    } else {
      var n := |data| - 1;
      ToBigUintIsBigEndian(data[..n]);
      SwappedIsBigEndian(data[n]);
      assert ToBigUint(data)[1..] == ToBigUint(data[..n]);
      assert ToBigUint(data)[0] == SwapBytes(data[n]);
      TakeSplit(data);
      BigEndianConcat(Take(data[..n], 8 * n), WordBytes(data[n]));
    }
  }

  lemma EmptyBytes()
    ensures BigEndian([]) == 0
  {
  }

  lemma TakeSplit(data: seq<Word>)
    requires data != []
    ensures var n := |data| - 1;
            Take(data, 8 * |data|) == Take(data[..n], 8 * n) + WordBytes(data[n])
  {
    hide Byte;
    var n := |data| - 1;
    var all, split := Take(data, 8 * |data|), Take(data[..n], 8 * n) + WordBytes(data[n]);
    forall p: nat | p < 8 * |data|
      ensures all[p] == split[p]
    {
      if p >= 8 * n {
        assert p / 8 == n && p % 8 == p - 8 * n;
      }
    }
  }

  // ---- The encoded message the last remainder must be. ----

  /** A word's eight bytes, the most significant first. */
  function HighFirst(x: Word): (bs: seq<byte>)
    ensures |bs| == 8
  {
    seq(8, j requires 0 <= j < 8 => Byte(x, 7 - j))
  }

  function HighFirstAll(ws: seq<Word>): seq<byte> {
    if ws == [] then [] else HighFirstAll(ws[..|ws| - 1]) + HighFirst(ws[|ws| - 1])
  }

  /** Words, the most significant first, as limbs. */
  function AsLimbs(ws: seq<Word>): (limbs: seq<Word>)
    ensures |limbs| == |ws|
  {
    seq(|ws|, i requires 0 <= i < |ws| => ws[|ws| - 1 - i])
  }

  lemma HighFirstIsBigEndian(x: Word)
    ensures BigEndian(HighFirst(x)) == x
  {
    hide Byte, BigEndian;
    var bs := HighFirst(x);
    PackReversed(bs);
    PackBound(Reversed(bs));
    var y: Word := Pack(Reversed(bs));
    forall j: nat | j < 8
      ensures Byte(y, j) == Byte(x, j)
    {
      PackedWordByte(Reversed(bs), j);
    }
    ByteExtensional(y, x);
  }

  lemma {:induction false} LimbsAreBigEndian(ws: seq<Word>)
    ensures Value(AsLimbs(ws)) == BigEndian(HighFirstAll(ws))
  {
    hide BigEndian, Byte, Up;
    if ws == [] {
      EmptyBytes();
    } else {
      var n := |ws| - 1;
      LimbsAreBigEndian(ws[..n]);
      HighFirstIsBigEndian(ws[n]);
      BigEndianConcat(HighFirstAll(ws[..n]), HighFirst(ws[n]));
      assert AsLimbs(ws)[1..] == AsLimbs(ws[..n]);
    }
  }

  /** The limbs above the hash, the most significant first. */
  const PREFIX: seq<Word> := [
    0x0001_ffff_ffff_ffff,
    ALL_ONE, ALL_ONE, ALL_ONE, ALL_ONE, ALL_ONE, ALL_ONE, ALL_ONE, ALL_ONE,
    ALL_ONE, ALL_ONE, ALL_ONE, ALL_ONE, ALL_ONE, ALL_ONE, ALL_ONE, ALL_ONE,
    ALL_ONE, ALL_ONE, ALL_ONE, ALL_ONE, ALL_ONE, ALL_ONE, ALL_ONE, ALL_ONE,
    0xffff_ffff_0030_3130, 0x0d06_0960_8648_0165, 0x0304_0201_0500_0420
  ]

  /** The algorithm identifier of SHA-256 before a hash of 32 bytes, in DER. */
  const DIGEST_INFO: seq<byte> :=
    [0x30, 0x31, 0x30, 0x0d, 0x06, 0x09, 0x60, 0x86, 0x48, 0x01, 0x65, 0x03, 0x04, 0x02, 0x01, 0x05, 0x00, 0x04, 0x20]

  /** The padded encoding of a hash: section 9.2 of RFC 8017. */
  function EncodedMessage(hash: seq<byte>): seq<byte> {
    [0x00, 0x01] + seq(202, _ => 0xff) + [0x00] + DIGEST_INFO + hash
  }

  lemma WordOfBytes(x: Word, bs: seq<byte>)
    requires |bs| == 8 && x == BigEndian(bs)
    ensures HighFirst(x) == bs
  {
    hide Byte, BigEndian;
    PackReversed(bs);
    forall j: nat | j < 8
      ensures HighFirst(x)[j] == bs[j]
    {
      PackedWordByte(Reversed(bs), 7 - j);
    }
  }

  lemma BigEndianEight(bs: seq<byte>)
    requires |bs| == 8
    ensures BigEndian(bs) == 0x1_0000_0000 * BigEndian(bs[..4]) + BigEndian(bs[4..])
    ensures BigEndian(bs[..4]) == 0x1_0000 * Two(bs[..4], 0, 1) + Two(bs[..4], 2, 3)
    ensures BigEndian(bs[4..]) == 0x1_0000 * Two(bs[4..], 0, 1) + Two(bs[4..], 2, 3)
  {
    assert bs == bs[..4] + bs[4..];
    BigEndianConcat(bs[..4], bs[4..]);
    UpValue(BigEndian(bs[..4]), 32);
    Pow2Values();
    BigEndianFour(bs[..4]);
    BigEndianFour(bs[4..]);
  }

  lemma BigEndianFour(bs: seq<byte>)
    requires |bs| == 4
    ensures BigEndian(bs) == 0x1_0000 * Two(bs, 0, 1) + Two(bs, 2, 3)
  {
    assert bs[..3][..2] == bs[..2] && bs[..2][..1] == bs[..1] && bs[..1][..0] == [];
    assert BigEndian(bs[..1]) == 256 * BigEndian([]) + bs[0];
    assert BigEndian(bs[..2]) == 256 * BigEndian(bs[..1]) + bs[1];
    assert BigEndian(bs[..3]) == 256 * BigEndian(bs[..2]) + bs[2];
  }

  lemma {:induction false} HighFirstConcat(a: seq<Word>, b: seq<Word>)
    ensures HighFirstAll(a + b) == HighFirstAll(a) + HighFirstAll(b)
    decreases |b|
  {
    hide HighFirst;
    if b == [] {
      assert a + b == a;
    } else {
      var n := |b| - 1;
      assert (a + b)[..|a + b| - 1] == a + b[..n];
      HighFirstConcat(a, b[..n]);
    }
  }

  lemma ConstantWord(x: Word, bs: seq<byte>)
    requires |bs| == 8
    requires x == 0x1_0000_0000 * (0x1_0000 * Two(bs, 0, 1) + Two(bs, 2, 3))
                  + (0x1_0000 * Two(bs, 4, 5) + Two(bs, 6, 7))
    ensures HighFirst(x) == bs
  {
    BigEndianEight(bs);
    assert Two(bs[4..], 0, 1) == Two(bs, 4, 5) && Two(bs[4..], 2, 3) == Two(bs, 6, 7);
    hide HighFirst, BigEndian;
    WordOfBytes(x, bs);
  }

  const ONES_BYTES: seq<byte> := [0xff, 0xff, 0xff, 0xff, 0xff, 0xff, 0xff, 0xff]

  lemma OnesWord()
    ensures HighFirst(ALL_ONE) == ONES_BYTES
  {
    ConstantWord(ALL_ONE, ONES_BYTES);
  }

  lemma {:induction false} OnesWords(n: nat)
    ensures HighFirstAll(seq(n, _ => ALL_ONE)) == seq(8 * n, _ => 0xff)
  {
    hide HighFirst;
    if n > 0 {
      OnesWords(n - 1);
      var ws: seq<Word> := seq(n, _ => ALL_ONE);
      assert ws[..n - 1] == seq(n - 1, _ => ALL_ONE);
      OnesWord();
    }
  }

  lemma OneWord(x: Word)
    ensures HighFirstAll([x]) == HighFirst(x)
  {
    assert [x][..0] == [];
  }

  const TOP_BYTES: seq<byte> := [0x00, 0x01, 0xff, 0xff, 0xff, 0xff, 0xff, 0xff]
  const INFO_BYTES_0: seq<byte> := [0xff, 0xff, 0xff, 0xff, 0x00, 0x30, 0x31, 0x30]
  const INFO_BYTES_1: seq<byte> := [0x0d, 0x06, 0x09, 0x60, 0x86, 0x48, 0x01, 0x65]
  const INFO_BYTES_2: seq<byte> := [0x03, 0x04, 0x02, 0x01, 0x05, 0x00, 0x04, 0x20]

  lemma TopWord()
    ensures HighFirst(0x0001_ffff_ffff_ffff) == TOP_BYTES
  {
    ConstantWord(0x0001_ffff_ffff_ffff, TOP_BYTES);
  }

  lemma InfoWord0()
    ensures HighFirst(0xffff_ffff_0030_3130) == INFO_BYTES_0
  {
    ConstantWord(0xffff_ffff_0030_3130, INFO_BYTES_0);
  }

  lemma InfoWord1()
    ensures HighFirst(0x0d06_0960_8648_0165) == INFO_BYTES_1
  {
    ConstantWord(0x0d06_0960_8648_0165, INFO_BYTES_1);
  }

  lemma InfoWord2()
    ensures HighFirst(0x0304_0201_0500_0420) == INFO_BYTES_2
  {
    ConstantWord(0x0304_0201_0500_0420, INFO_BYTES_2);
  }

  lemma FiveParts(a: Word, b: seq<Word>, c: Word, d: Word, e: Word, f: seq<Word>)
    ensures HighFirstAll([a] + b + [c] + [d] + [e] + f)
         == HighFirst(a) + HighFirstAll(b) + HighFirst(c) + HighFirst(d) + HighFirst(e) + HighFirstAll(f)
  {
    OneWord(a);
    OneWord(c);
    OneWord(d);
    OneWord(e);
    hide HighFirst, HighFirstAll;
    HighFirstConcat([a], b);
    HighFirstConcat([a] + b, [c]);
    HighFirstConcat([a] + b + [c], [d]);
    HighFirstConcat([a] + b + [c] + [d], [e]);
    HighFirstConcat([a] + b + [c] + [d] + [e], f);
  }

  /** The prefix limbs and the hash spell out the encoded message. */
  lemma PrefixIsEncoding(hash: seq<Word>)
    ensures HighFirstAll(PREFIX + hash) == EncodedMessage(HighFirstAll(hash))
  {
    hide HighFirst, HighFirstAll, EncodedMessage;
    var ones: seq<Word> := seq(24, _ => ALL_ONE);
    TopWord();
    InfoWord0();
    InfoWord1();
    InfoWord2();
    OnesWords(24);
    FiveParts(0x0001_ffff_ffff_ffff, ones, 0xffff_ffff_0030_3130, 0x0d06_0960_8648_0165, 0x0304_0201_0500_0420, hash);
    PrefixParts(ones);
    SpellOut(HighFirstAll(hash));
  }

  lemma PrefixParts(ones: seq<Word>)
    requires ones == seq(24, _ => ALL_ONE)
    ensures PREFIX == [0x0001_ffff_ffff_ffff] + ones + [0xffff_ffff_0030_3130] + [0x0d06_0960_8648_0165]
                      + [0x0304_0201_0500_0420]
  {
  }

  lemma Regroup(a: seq<byte>, b: seq<byte>, c: seq<byte>, d: seq<byte>, e: seq<byte>)
    ensures a + (b + c + d) + e == (a + b) + c + (d + e)
  {
  }

  lemma PaddingParts()
    ensures [0xff, 0xff, 0xff, 0xff, 0xff, 0xff] + seq(192, _ => 0xff) + [0xff, 0xff, 0xff, 0xff] == seq(202, _ => 0xff)
  {
  }

  lemma SpellOut(hash: seq<byte>)
    ensures TOP_BYTES + seq(192, _ => 0xff) + INFO_BYTES_0 + INFO_BYTES_1 + INFO_BYTES_2 + hash == EncodedMessage(hash)
  {
    var head: seq<byte>, tail: seq<byte> := [0x00, 0x01], [0x00] + DIGEST_INFO + hash;
    var six: seq<byte>, middle: seq<byte>, four: seq<byte> :=
      [0xff, 0xff, 0xff, 0xff, 0xff, 0xff], seq(192, _ => 0xff), [0xff, 0xff, 0xff, 0xff];
    PaddingParts();
    Regroup(head, six, middle, four, tail);
    assert TOP_BYTES == head + six;
    assert INFO_BYTES_0 + INFO_BYTES_1 + INFO_BYTES_2 == four + ([0x00] + DIGEST_INFO);
    Regroup(TOP_BYTES + middle, INFO_BYTES_0, INFO_BYTES_1, INFO_BYTES_2, hash);
    assert four + tail == (four + ([0x00] + DIGEST_INFO)) + hash;
  }
}
