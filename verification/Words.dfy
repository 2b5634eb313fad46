/** 64-bit words and the gates of the circuit builder, each computing what its evaluation computes.
    A boolean is a word whose top bit is set ("MSB-bool"); the other bits carry no meaning. */
module Words {
  import opened Bits
  import opened Carry

  type Word = x: nat | x < 0x1_0000_0000_0000_0000

  const ALL_ONE: Word := 0xFFFF_FFFF_FFFF_FFFF
  const MSB_ONE: Word := 0x8000_0000_0000_0000

  predicate IsTrue(x: Word) {
    Bit(x, 63)
  }

  lemma TrueValue(x: Word)
    ensures IsTrue(x) <==> x >= MSB_ONE
  {
    BitValue(x, 63);
    Pow2Values();
  }

  function Shl(x: Word, n: nat): Word {
    LoBound(Up(x, n), 64);
    Pow2Values();
    Lo(Up(x, n), 64)
  }

  function Shr(x: Word, n: nat): Word {
    Pow2Values();
    HiBound(x, n, 64);
    Hi(x, n)
  }

  function Band(x: Word, y: Word): Word {
    Pow2Values();
    OpsBound(x, y, 64);
    And(x, y)
  }

  function Bor(x: Word, y: Word): Word {
    Pow2Values();
    OpsBound(x, y, 64);
    Or(x, y)
  }

  function Bxor(x: Word, y: Word): Word {
    Pow2Values();
    OpsBound(x, y, 64);
    Xor(x, y)
  }

  function Bnot(x: Word): Word {
    Bxor(x, ALL_ONE)
  }

  /** Picks one of two wires by the top bit of a third. */
  function Select<T>(cond: Word, t: T, f: T): T {
    if IsTrue(cond) then t else f
  }

  /** Sum and carry word of two words without carry-in. */
  function Iadd(x: Word, y: Word): (r: (Word, Word))
    ensures r.0 == if x + y < 0x1_0000_0000_0000_0000 then x + y else x + y - 0x1_0000_0000_0000_0000
    ensures IsTrue(r.1) <==> x + y >= 0x1_0000_0000_0000_0000
  {
    Pow2Values();
    var s := if x + y < 0x1_0000_0000_0000_0000 then x + y else x + y - 0x1_0000_0000_0000_0000;
    SumIsWrapped(x, y);
    CarryWordIsRipple(x, y, false, 64, 63);
    TopCarry(x, y, false, 64);
    CarryWordBound(x, y, s);
    (s, CarryWord(x, y, s, 64))
  }

  lemma SumIsWrapped(x: Word, y: Word)
    ensures Sum(x, y, false, 64)
         == if x + y < 0x1_0000_0000_0000_0000 then x + y else x + y - 0x1_0000_0000_0000_0000
  {
    Pow2Values();
    if x + y < 0x1_0000_0000_0000_0000 {
      LoId(x + y, 64);
    } else {
      UpValue(1, 64);
      JoinedParts(1, x + y - 0x1_0000_0000_0000_0000, 64);
    }
  }

  lemma {:induction false} CarryWordBound(x: Word, y: Word, s: Word)
    ensures s < Pow2(64) && CarryWord(x, y, s, 64) < 0x1_0000_0000_0000_0000
  {
    Pow2Values();
    OpsBound(x, y, 64);
    OpsBound(Xor(x, y), Not(s, 64), 64);
    OpsBound(And(x, y), And(Xor(x, y), Not(s, 64)), 64);
  }

  /** Difference and borrow word of two words and a borrow-in. */
  function IsubBinBout(x: Word, y: Word, bin: bool): (r: (Word, Word))
    ensures r.0 == if x >= y + Num(bin) then x - y - Num(bin) else x - y - Num(bin) + 0x1_0000_0000_0000_0000
    ensures IsTrue(r.1) <==> x < y + Num(bin)
  {
    Pow2Values();
    var d := if x >= y + Num(bin) then x - y - Num(bin) else x - y - Num(bin) + 0x1_0000_0000_0000_0000;
    DiffIsWrapped(x, y, bin);
    BorrowWordIsRipple(x, y, bin, 64, 63);
    TopBorrow(x, y, bin, 64);
    BorrowWordBound(x, y, d);
    (d, BorrowWord(x, y, d, 64))
  }

  lemma DiffIsWrapped(x: Word, y: Word, bin: bool)
    ensures x < Pow2(64) && y < Pow2(64)
    ensures Diff(x, y, bin, 64)
         == if x >= y + Num(bin) then x - y - Num(bin) else x - y - Num(bin) + 0x1_0000_0000_0000_0000
  {
    Pow2Values();
  }

  lemma BorrowWordBound(x: Word, y: Word, d: Word)
    ensures x < Pow2(64) && Xor(x, y) < Pow2(64) && BorrowWord(x, y, d, 64) < 0x1_0000_0000_0000_0000
  {
    Pow2Values();
    OpsBound(x, y, 64);
    OpsBound(Not(x, 64), y, 64);
    OpsBound(Not(Xor(x, y), 64), d, 64);
    OpsBound(And(Not(x, 64), y), And(Not(Xor(x, y), 64), d), 64);
  }

  /** Every bit of the carry and borrow words: the lower bits up to it overflow, or fall short. */
  lemma {:induction false} CarryBit(x: Word, y: Word, i: nat)
    requires i < 64
    ensures Bit(Iadd(x, y).1, i) <==> x % Pow2(i + 1) + y % Pow2(i + 1) >= Pow2(i + 1)
  {
    hide CarryWord, Pow2;
    Pow2Values();
    SumIsWrapped(x, y);
    CarryWordIsRipple(x, y, false, 64, i);
    LoBound(x, i + 1);
    LoBound(y, i + 1);
    HiLoValue(x, i + 1);
    HiLoValue(y, i + 1);
    CarryLocal(x, y, false, i);
    TopCarry(Lo(x, i + 1), Lo(y, i + 1), false, i + 1);
  }

  lemma {:induction false} BorrowBit(x: Word, y: Word, bin: bool, i: nat)
    requires i < 64
    ensures Bit(IsubBinBout(x, y, bin).1, i) <==> x % Pow2(i + 1) < y % Pow2(i + 1) + Num(bin)
  {
    hide BorrowWord, Pow2;
    Pow2Values();
    DiffIsWrapped(x, y, bin);
    BorrowWordIsRipple(x, y, bin, 64, i);
    LoBound(x, i + 1);
    LoBound(y, i + 1);
    HiLoValue(x, i + 1);
    HiLoValue(y, i + 1);
    BorrowLocal(x, y, bin, i);
    TopBorrow(Lo(x, i + 1), Lo(y, i + 1), bin, i + 1);
  }

  /** The same without borrow-in. */
  function Isub(x: Word, y: Word): (r: (Word, Word))
    ensures r.0 == if x >= y then x - y else x - y + 0x1_0000_0000_0000_0000
    ensures IsTrue(r.1) <==> x < y
  {
    IsubBinBout(x, y, false)
  }

  /** Unsigned comparison: the carry word of !x + y. */
  function IcmpUlt(x: Word, y: Word): (r: Word)
    ensures IsTrue(r) <==> x < y
  {
    Iadd(ALL_ONE - x, y).1
  }

  function IcmpUle(x: Word, y: Word): (r: Word)
    ensures IsTrue(r) <==> x <= y
  {
    NotTrue(IcmpUlt(y, x));
    Bnot(IcmpUlt(y, x))
  }

  function IcmpUge(x: Word, y: Word): (r: Word)
    ensures IsTrue(r) <==> x >= y
  {
    NotTrue(IcmpUlt(x, y));
    Bnot(IcmpUlt(x, y))
  }

  /** Equality: the carry word of all-ones plus x ^ y, top bit inverted. */
  function IcmpEq(x: Word, y: Word): (r: Word)
    ensures IsTrue(r) <==> x == y
  {
    var cout := Iadd(ALL_ONE, Bxor(x, y)).1;
    XorZeroIff(x, y);
    TrueOps(cout, MSB_ONE);
    TrueValue(MSB_ONE);
    Bxor(cout, MSB_ONE)
  }

  /** Byte `j` of a word, masked in place and shifted down. */
  function ExtractByte(x: Word, j: nat): Word
    requires j < 8
  {
    Shr(Band(x, Shl(255, 8 * j)), 8 * j)
  }

  lemma TrueOps(x: Word, y: Word)
    ensures IsTrue(Band(x, y)) <==> IsTrue(x) && IsTrue(y)
    ensures IsTrue(Bor(x, y)) <==> IsTrue(x) || IsTrue(y)
    ensures IsTrue(Bxor(x, y)) <==> IsTrue(x) != IsTrue(y)
  {
    BitOps(x, y, 63);
  }

  lemma NotTrue(x: Word)
    ensures IsTrue(Bnot(x)) <==> !IsTrue(x)
  {
    TrueOps(x, ALL_ONE);
    TrueValue(ALL_ONE);
  }

  /** Shifting bit `i` into the top position makes it the condition a select reads. */
  lemma {:induction false} ShlTrue(x: Word, i: nat)
    requires i < 64
    ensures IsTrue(Shl(x, 63 - i)) <==> Bit(x, i)
  {
    BitLo(Up(x, 63 - i), 64, 63);
    BitUp(x, 63 - i, 63);
  }

  /** The low half of a word, and a word with given halves. */
  function Half(x: Word): nat {
    Lo(x, 32)
  }

  function Halves(hi: nat, lo: nat): Word {
    LoBound(hi, 32);
    LoBound(lo, 32);
    UpValue(Lo(hi, 32), 32);
    Pow2Values();
    Up(Lo(hi, 32), 32) + Lo(lo, 32)
  }

  /** The halves of two words added separately, each modulo 2^32. */
  function Iadd32(x: Word, y: Word): Word {
    Halves(Hi(x, 32) + Hi(y, 32), Half(x) + Half(y))
  }
}
