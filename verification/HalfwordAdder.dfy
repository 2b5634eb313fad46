/** Two 32-bit additions in one word, each half with its own carry in and its own carries out. */
module HalfwordAdder {
  import opened Bits
  import opened Carry
  import opened Words

  /** Carry-in comes from the top bit of each half of `cin`. */
  function Iadd32CinCout(x: Word, y: Word, cin: Word): (r: (Word, Word)) {
    var sum := Halves(Hi(x, 32) + Hi(y, 32) + Num(Bit(cin, 63)), Half(x) + Half(y) + Num(Bit(cin, 31)));
    Pow2Values();
    OpsBound(x, y, 64);
    OpsBound(Xor(x, y), Not(sum, 64), 64);
    OpsBound(And(x, y), And(Xor(x, y), Not(sum, 64)), 64);
    (sum, CarryWord(x, y, sum, 64))
  }

  /** The halves of a word made of two. */
  lemma {:induction false} HalvesParts(hi: nat, lo: nat)
    ensures Hi(Halves(hi, lo), 32) == Lo(hi, 32) && Half(Halves(hi, lo)) == Lo(lo, 32)
  {
    LoBound(lo, 32);
    JoinedParts(Lo(hi, 32), Lo(lo, 32), 32);
  }

  lemma HalfBounds(x: Word)
    ensures Half(x) < Pow2(32) && Hi(x, 32) < Pow2(32)
  {
    Pow2Values();
    LoBound(x, 32);
    HiBound(x, 32, 64);
  }

  lemma SumFits(a: nat, b: nat, c: bool)
    ensures Sum(a, b, c, 32) < Pow2(32) && Sum(a, b, c, 32) == Lo(a + b + Num(c), 32)
  {
    LoBound(a + b + Num(c), 32);
  }

  /** A carry word, bit by bit. */
  lemma CarryWordBit(a: nat, b: nat, sum: nat, w: nat, i: nat)
    requires sum < Pow2(w) && i < w
    ensures Bit(CarryWord(a, b, sum, w), i) <==> (Bit(a, i) && Bit(b, i)) || ((Bit(a, i) != Bit(b, i)) && !Bit(sum, i))
  {
    hide And, Or, Xor, Bit, Not;
    BitNot(sum, w, i);
    BitXor(a, b, i);
    BitAnd(a, b, i);
    BitAnd(Xor(a, b), Not(sum, w), i);
    BitOr(And(a, b), And(Xor(a, b), Not(sum, w)), i);
  }

  lemma {:induction false} LowCarry(x: Word, y: Word, cin: Word, i: nat)
    requires i < 32
    ensures Bit(Iadd32CinCout(x, y, cin).1, i) <==> CarryOut(Half(x), Half(y), Bit(cin, 31), i)
  {
    hide CarryWord, CarryOut, Halves, Hi, Lo, Bit;
    var c := Bit(cin, 31);
    var sum := Iadd32CinCout(x, y, cin).0;
    HalvesParts(Hi(x, 32) + Hi(y, 32) + Num(Bit(cin, 63)), Half(x) + Half(y) + Num(c));
    HalfBounds(x);
    HalfBounds(y);
    SumFits(Half(x), Half(y), c);
    Pow2Values();
    CarryWordBit(x, y, sum, 64, i);
    CarryWordBit(Half(x), Half(y), Half(sum), 32, i);
    BitLo(x, 32, i);
    BitLo(y, 32, i);
    BitLo(sum, 32, i);
    CarryWordIsRipple(Half(x), Half(y), c, 32, i);
  }

  lemma {:induction false} HighCarry(x: Word, y: Word, cin: Word, i: nat)
    requires i < 32
    ensures Bit(Iadd32CinCout(x, y, cin).1, 32 + i) <==> CarryOut(Hi(x, 32), Hi(y, 32), Bit(cin, 63), i)
  {
    hide CarryWord, CarryOut, Halves, Hi, Lo, Bit;
    var c := Bit(cin, 63);
    var sum := Iadd32CinCout(x, y, cin).0;
    HalvesParts(Hi(x, 32) + Hi(y, 32) + Num(c), Half(x) + Half(y) + Num(Bit(cin, 31)));
    HalfBounds(x);
    HalfBounds(y);
    SumFits(Hi(x, 32), Hi(y, 32), c);
    Pow2Values();
    CarryWordBit(x, y, sum, 64, 32 + i);
    CarryWordBit(Hi(x, 32), Hi(y, 32), Hi(sum, 32), 32, i);
    BitHi(x, 32, i);
    BitHi(y, 32, i);
    BitHi(sum, 32, i);
    CarryWordIsRipple(Hi(x, 32), Hi(y, 32), c, 32, i);
  }

  /** Each half adds on its own: its sum is its halves' sum with its own carry in, every bit of its
      carry word is its own ripple carry, and no carry crosses into the other half. */
  lemma {:induction false} HalvesAddIndependently(x: Word, y: Word, cin: Word)
    ensures var (sum, cout) := Iadd32CinCout(x, y, cin);
            && Half(sum) == Sum(Half(x), Half(y), Bit(cin, 31), 32)
            && Hi(sum, 32) == Sum(Hi(x, 32), Hi(y, 32), Bit(cin, 63), 32)
            && (forall i: nat :: i < 32 ==> Bit(cout, i) == CarryOut(Half(x), Half(y), Bit(cin, 31), i))
            && (forall i: nat :: i < 32 ==> Bit(cout, 32 + i) == CarryOut(Hi(x, 32), Hi(y, 32), Bit(cin, 63), i))
            && (Bit(cout, 31) <==> Half(x) + Half(y) + Num(Bit(cin, 31)) >= 0x1_0000_0000)
            && (Bit(cout, 63) <==> Hi(x, 32) + Hi(y, 32) + Num(Bit(cin, 63)) >= 0x1_0000_0000)
  {
    hide CarryWord, CarryOut, Halves, Hi, Lo, Bit, Sum;
    HalvesParts(Hi(x, 32) + Hi(y, 32) + Num(Bit(cin, 63)), Half(x) + Half(y) + Num(Bit(cin, 31)));
    SumFits(Half(x), Half(y), Bit(cin, 31));
    SumFits(Hi(x, 32), Hi(y, 32), Bit(cin, 63));
    forall i: nat | i < 32
      ensures Bit(Iadd32CinCout(x, y, cin).1, i) == CarryOut(Half(x), Half(y), Bit(cin, 31), i)
    {
      LowCarry(x, y, cin, i);
    }
    forall i: nat | i < 32
      ensures Bit(Iadd32CinCout(x, y, cin).1, 32 + i) == CarryOut(Hi(x, 32), Hi(y, 32), Bit(cin, 63), i)
    {
      HighCarry(x, y, cin, i);
    }
    HalfBounds(x);
    HalfBounds(y);
    Pow2Values();
    TopCarry(Half(x), Half(y), Bit(cin, 31), 32);
    TopCarry(Hi(x, 32), Hi(y, 32), Bit(cin, 63), 32);
    LowCarry(x, y, cin, 31);
    HighCarry(x, y, cin, 31);
  }

  /** Without carries in, it is the addition of halves used on single words. */
  lemma Iadd32IsHalves(x: Word, y: Word)
    ensures Iadd32(x, y) == Iadd32CinCout(x, y, 0).0
    ensures Hi(Iadd32(x, y), 32) == (Hi(x, 32) + Hi(y, 32)) % 0x1_0000_0000
    ensures Half(Iadd32(x, y)) == (Half(x) + Half(y)) % 0x1_0000_0000
  {
    hide Hi, Lo, Halves, Bit, CarryWord;
    HighBitsClear(0, 0, 31);
    HighBitsClear(0, 0, 63);
    HalvesParts(Hi(x, 32) + Hi(y, 32), Half(x) + Half(y));
    CutIsRemainder(Hi(x, 32) + Hi(y, 32));
    CutIsRemainder(Half(x) + Half(y));
  }

  lemma CutIsRemainder(v: nat)
    ensures Lo(v, 32) == v % 0x1_0000_0000
  {
    hide Lo;
    HiLoValue(v, 32);
    Pow2Values();
  }
}
