/** The comparison gates: the one constraint each emits has exactly one solution, the wire its
    evaluation computes. */
module Comparison {
  import opened Bits
  import opened Carry
  import opened Words

  /** ((x ^ ones) ^ (bout << 1)) & (y ^ (bout << 1)) = bout ^ (bout << 1). */
  ghost predicate UltConstraint(x: Word, y: Word, bout: Word) {
    var bin := Shl(bout, 1);
    Band(Bxor(Bxor(x, ALL_ONE), bin), Bxor(y, bin)) == Bxor(bout, bin)
  }

  /** ((x ^ y) ^ cin) & (ones ^ cin) = (cin ^ out) ^ top bit, where cin is `out << 1`. */
  ghost predicate EqConstraint(x: Word, y: Word, out: Word) {
    var cin := Shl(out, 1);
    Band(Bxor(Bxor(x, y), cin), Bxor(ALL_ONE, cin)) == Bxor(Bxor(cin, out), MSB_ONE)
  }

  lemma NoCarryIn(cout: Word)
    ensures ShiftedIn(cout, false, 64) == Shl(cout, 1)
  {
    ZeroOps(Lo(Up(cout, 1), 64));
  }

  /** A carry constraint over words, without carry-in, has the adder's carry word as its solution. */
  lemma WordCarryUnique(x: Word, y: Word, cout: Word)
    ensures And(Xor(x, Shl(cout, 1)), Xor(y, Shl(cout, 1))) == Xor(cout, Shl(cout, 1)) <==> cout == Iadd(x, y).1
  {
    hide And, Xor, Shl, CarryWord;
    Pow2Values();
    NoCarryIn(cout);
    SumIsWrapped(x, y);
    CarryWordUnique(x, y, false, cout, 64);
    IaddCarry(x, y);
  }

  lemma IaddCarry(x: Word, y: Word)
    ensures Sum(x, y, false, 64) < Pow2(64) && Iadd(x, y).1 == CarryWord(x, y, Sum(x, y, false, 64), 64)
  {
    hide CarryWord;
    Pow2Values();
    SumIsWrapped(x, y);
  }

  /** The less-than gate's constraint holds for one output, and that output is true exactly when
      x < y. */
  lemma UltGateIsLess(x: Word, y: Word, bout: Word)
    ensures UltConstraint(x, y, bout) <==> bout == IcmpUlt(x, y)
    ensures UltConstraint(x, y, bout) ==> (IsTrue(bout) <==> x < y)
  {
    Pow2Values();
    XorOnes(x, 64);
    WordCarryUnique(ALL_ONE - x, y, bout);
  }

  /** The top bit is lost when shifting up, so that it may be inverted before or after. */
  lemma TopBitShiftedOut(out: Word)
    ensures Shl(Bxor(out, MSB_ONE), 1) == Shl(out, 1)
  {
    hide Xor, Up, Lo;
    var flipped := Bxor(out, MSB_ONE);
    forall i: nat | i < 64
      ensures Bit(Shl(flipped, 1), i) == Bit(Shl(out, 1), i)
    {
      BitLo(Up(flipped, 1), 64, i);
      BitLo(Up(out, 1), 64, i);
      BitUp(flipped, 1, i);
      BitUp(out, 1, i);
      if i > 0 {
        BitXor(out, MSB_ONE, i - 1);
        TopBitOnly(i - 1);
      }
    }
    Pow2Values();
    LoBound(Up(flipped, 1), 64);
    LoBound(Up(out, 1), 64);
    Extensional(Shl(flipped, 1), Shl(out, 1), 64);
  }

  lemma TopBitOnly(i: nat)
    requires i < 63
    ensures !Bit(MSB_ONE, i)
  {
    Pow2Values();
    UpValue(1, 63);
    BitUp(1, 63, i);
  }

  /** The equality gate's constraint holds for one output, and that output is true exactly when
      x = y. */
  lemma EqGateIsEqual(x: Word, y: Word, out: Word)
    ensures EqConstraint(x, y, out) <==> out == IcmpEq(x, y)
    ensures EqConstraint(x, y, out) ==> (IsTrue(out) <==> x == y)
  {
    hide And, Xor, Shl;
    var cout, cin, d := Bxor(out, MSB_ONE), Shl(out, 1), Bxor(x, y);
    TopBitShiftedOut(out);
    WordCarryUnique(ALL_ONE, d, cout);
    AndComm(Xor(ALL_ONE, cin), Xor(d, cin));
    XorAssoc(cin, out, MSB_ONE);
    XorComm(cin, cout);
    FlipTwice(out);
    FlipTwice(Iadd(ALL_ONE, d).1);
  }

  lemma FlipTwice(x: Word)
    ensures Bxor(Bxor(x, MSB_ONE), MSB_ONE) == x
  {
    XorAssoc(x, MSB_ONE, MSB_ONE);
    ZeroOps(MSB_ONE);
    ZeroOps(x);
  }
}
