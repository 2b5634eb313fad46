/** Shifts by an amount only known at run time, built as a barrel of constant shifts. */
module Shift {
  import opened Bits
  import opened Words

  datatype Direction = Left | Right | Arithmetic

  /** Arithmetic right shift: the top bit is copied in from above. */
  function Sar(x: Word, n: nat): Word {
    if IsTrue(x) then Bnot(Shr(Bnot(x), n)) else Shr(x, n)
  }

  /** The constant shift a barrel is built from. */
  function Step(dir: Direction, x: Word, n: nat): Word {
    match dir
    case Left => Shl(x, n)
    case Right => Shr(x, n)
    case Arithmetic => Sar(x, n)
  }

  lemma ShlShl(x: Word, a: nat, b: nat)
    ensures Shl(Shl(x, a), b) == Shl(x, a + b)
  {
    Pow2Values();
    forall i: nat | i < 64
      ensures Bit(Shl(Shl(x, a), b), i) == Bit(Shl(x, a + b), i)
    {
      BitLo(Up(Shl(x, a), b), 64, i);
      BitUp(Shl(x, a), b, i);
      if i >= b {
        BitLo(Up(x, a), 64, i - b);
        BitUp(x, a, i - b);
      }
      BitLo(Up(x, a + b), 64, i);
      BitUp(x, a + b, i);
    }
    Extensional(Shl(Shl(x, a), b), Shl(x, a + b), 64);
  }

  lemma BnotBnot(x: Word)
    ensures Bnot(Bnot(x)) == x
  {
    Pow2Values();
    forall i: nat | i < 64
      ensures Bit(Bnot(Bnot(x)), i) == Bit(x, i)
    {
      BitOps(x, ALL_ONE, i);
      BitOps(Bnot(x), ALL_ONE, i);
    }
    Extensional(Bnot(Bnot(x)), x, 64);
  }

  /** Every bit comes from `n` places above, and the top bit stays there for the places past it. */
  lemma {:induction false} SarBit(x: Word, n: nat, i: nat)
    requires i < 64
    ensures Bit(Sar(x, n), i) <==> Bit(x, if i + n < 64 then i + n else 63)
  {
    hide Bnot, Shr;
    var y := if IsTrue(x) then Bnot(x) else x;
    BitOfShr(y, n, i);
    BitOfBnot(x, if i + n < 64 then i + n else 63);
    BitOfBnot(x, 63);
    BitOfBnot(Shr(y, n), i);
    if i + n >= 64 {
      Pow2Values();
      HighBitsClear(y, 64, i + n);
    }
  }

  lemma BitOfShr(x: Word, n: nat, i: nat)
    ensures Bit(Shr(x, n), i) <==> Bit(x, i + n)
  {
    BitHi(x, n, i);
  }

  lemma BitOfBnot(x: Word, i: nat)
    requires i < 64
    ensures Bit(Bnot(x), i) <==> !Bit(x, i)
  {
    Pow2Values();
    XorOnes(x, 64);
    BitNot(x, 64, i);
  }

  lemma SarKeepsSign(x: Word, n: nat)
    ensures IsTrue(Sar(x, n)) == IsTrue(x)
  {
    var y := if IsTrue(x) then Bnot(x) else x;
    NotTrue(x);
    BitHi(y, n, 63);
    if n > 0 {
      Pow2Values();
      HighBitsClear(y, 64, n + 63);
    }
    NotTrue(Shr(y, n));
  }

  /** Shifting twice is shifting once by the sum, in every direction. */
  lemma StepStep(dir: Direction, x: Word, a: nat, b: nat)
    ensures Step(dir, Step(dir, x, a), b) == Step(dir, x, a + b)
  {
    match dir
    case Left => ShlShl(x, a, b);
    case Right => HiHi(x, a, b);
    case Arithmetic =>
      SarKeepsSign(x, a);
      HiHi(x, a, b);
      HiHi(Bnot(x), a, b);
      BnotBnot(Shr(Bnot(x), a));
  }

  lemma StepZero(dir: Direction, x: Word)
    ensures Step(dir, x, 0) == x
  {
    Pow2Values();
    LoId(x, 64);
    BnotBnot(x);
  }

  /** Shifts `x` by `shift` blocks of 2^blockBits bits, reading the low `shiftBits` bits of
      `shift`: one conditional constant shift for each of them. */
  method VarShiftBlocks(x: Word, shift: Word, shiftBits: nat, blockBits: nat, dir: Direction)
    returns (result: Word)
    requires shiftBits + blockBits <= 6
    ensures result == Step(dir, x, Lo(shift, shiftBits) * Pow2(blockBits))
  {
    hide Step, Lo, Pow2;
    result := x;
    StepZero(dir, x);
    ZeroPlaces(shift);
    for i := 0 to shiftBits
      invariant result == Step(dir, x, Lo(shift, i) * Pow2(blockBits))
    {
      var cond := Shl(shift, 63 - i);
      var shifted := Step(dir, result, Pow2(i + blockBits));
      ShlTrue(shift, i);
      LoNext(shift, i);
      MoreBlocks(dir, x, Lo(shift, i), i, blockBits);
      result := Select(cond, shifted, result);
    }
  }

  /** One more power of two of blocks. */
  lemma {:induction false} MoreBlocks(dir: Direction, x: Word, blocks: nat, i: nat, blockBits: nat)
    ensures Step(dir, Step(dir, x, blocks * Pow2(blockBits)), Pow2(i + blockBits))
         == Step(dir, x, (blocks + Pow2(i)) * Pow2(blockBits))
  {
    hide Step;
    Pow2Add(i, blockBits);
    StepStep(dir, x, blocks * Pow2(blockBits), Pow2(i + blockBits));
    Distribute(blocks, Pow2(i), Pow2(blockBits));
  }

  lemma Distribute(a: nat, b: nat, c: nat)
    ensures (a + b) * c == a * c + b * c
  {
  }

  method VarSllBytes(x: Word, shift: Word) returns (result: Word)
    ensures result == Shl(x, 8 * (shift % 8))
  {
    result := VarShiftBlocks(x, shift, 3, 3, Left);
    HiLoValue(shift, 3);
  }

  method VarSrlBytes(x: Word, shift: Word) returns (result: Word)
    ensures result == Shr(x, 8 * (shift % 8))
  {
    result := VarShiftBlocks(x, shift, 3, 3, Right);
    HiLoValue(shift, 3);
  }

  method VarSraBytes(x: Word, shift: Word) returns (result: Word)
    ensures result == Sar(x, 8 * (shift % 8))
  {
    result := VarShiftBlocks(x, shift, 3, 3, Arithmetic);
    HiLoValue(shift, 3);
  }
}
