/** Addition and subtraction at any word width: the closed forms the code computes for the carry
    and borrow words, the ripple they must equal, and the constraints a circuit puts on them. */
module Carry {
  import opened Bits

  function Num(b: bool): nat {
    if b then 1 else 0
  }

  predicate Majority(a: bool, b: bool, c: bool) {
    (a && b) || (a && c) || (b && c)
  }

  /** The carry a ripple adder sends out of position `i`. */
  predicate CarryOut(a: nat, b: nat, c: bool, i: nat) {
    var m := Majority(a % 2 == 1, b % 2 == 1, c);
    if i == 0 then m else CarryOut(a / 2, b / 2, m, i - 1)
  }

  predicate CarryIn(a: nat, b: nat, c: bool, i: nat) {
    if i == 0 then c else CarryOut(a, b, c, i - 1)
  }

  /** The borrow a ripple subtractor sends out of position `i`. */
  predicate BorrowOut(a: nat, b: nat, c: bool, i: nat) {
    var m := Majority(a % 2 == 0, b % 2 == 1, c);
    if i == 0 then m else BorrowOut(a / 2, b / 2, m, i - 1)
  }

  predicate BorrowIn(a: nat, b: nat, c: bool, i: nat) {
    if i == 0 then c else BorrowOut(a, b, c, i - 1)
  }

  /** The sum and the difference, wrapped to `w` bits. */
  function Sum(a: nat, b: nat, c: bool, w: nat): nat {
    Lo(a + b + Num(c), w)
  }

  function Diff(a: nat, b: nat, c: bool, w: nat): nat
    requires a < Pow2(w) && b < Pow2(w)
  {
    if a >= b + Num(c) then a - b - Num(c) else a + Pow2(w) - b - Num(c)
  }

  /** The carry word, as the code writes it: (a & b) | ((a ^ b) & !sum). */
  function CarryWord(a: nat, b: nat, sum: nat, w: nat): nat
    requires sum < Pow2(w)
  {
    Or(And(a, b), And(Xor(a, b), Not(sum, w)))
  }

  /** The borrow word, as the code writes it: (!a & b) | (!(a ^ b) & diff). */
  function BorrowWord(a: nat, b: nat, diff: nat, w: nat): nat
    requires a < Pow2(w) && Xor(a, b) < Pow2(w)
  {
    Or(And(Not(a, w), b), And(Not(Xor(a, b), w), diff))
  }

  lemma {:induction false} SumBit(a: nat, b: nat, c: bool, w: nat, i: nat)
    requires i < w
    ensures Bit(Sum(a, b, c, w), i) <==> ((Bit(a, i) != Bit(b, i)) != CarryIn(a, b, c, i))
  {
    if i > 0 {
      var m := Majority(a % 2 == 1, b % 2 == 1, c);
      assert (a + b + Num(c)) / 2 == a / 2 + b / 2 + Num(m);
      SumBit(a / 2, b / 2, m, w - 1, i - 1);
    }
  }

  lemma {:induction false} DiffBit(a: nat, b: nat, c: bool, w: nat, i: nat)
    requires i < w && a < Pow2(w) && b < Pow2(w)
    ensures Bit(Diff(a, b, c, w), i) <==> ((Bit(a, i) != Bit(b, i)) != BorrowIn(a, b, c, i))
  {
    var m := Majority(a % 2 == 0, b % 2 == 1, c);
    assert Diff(a, b, c, w) / 2 == Diff(a / 2, b / 2, m, w - 1);
    if i > 0 {
      DiffBit(a / 2, b / 2, m, w - 1, i - 1);
    }
  }

  /** The carry out of position `i` is the ripple step from the carry into it. */
  lemma {:induction false} CarryStep(a: nat, b: nat, c: bool, i: nat)
    ensures CarryOut(a, b, c, i) <==> Majority(Bit(a, i), Bit(b, i), CarryIn(a, b, c, i))
  {
    if i > 0 {
      CarryStep(a / 2, b / 2, Majority(a % 2 == 1, b % 2 == 1, c), i - 1);
    }
  }

  lemma {:induction false} BorrowStep(a: nat, b: nat, c: bool, i: nat)
    ensures BorrowOut(a, b, c, i) <==> Majority(!Bit(a, i), Bit(b, i), BorrowIn(a, b, c, i))
  {
    if i > 0 {
      BorrowStep(a / 2, b / 2, Majority(a % 2 == 0, b % 2 == 1, c), i - 1);
    }
  }

  /** At every position the closed-form carry word holds the ripple carry. */
  lemma {:induction false} CarryWordIsRipple(a: nat, b: nat, c: bool, w: nat, i: nat)
    requires a < Pow2(w) && b < Pow2(w) && i < w
    ensures Sum(a, b, c, w) < Pow2(w)
    ensures Bit(CarryWord(a, b, Sum(a, b, c, w), w), i) <==> CarryOut(a, b, c, i)
  {
    var s := Sum(a, b, c, w);
    LoBound(a + b + Num(c), w);
    SumBit(a, b, c, w, i);
    CarryStep(a, b, c, i);
    BitOps(a, b, i);
    BitNot(s, w, i);
    BitOps(Xor(a, b), Not(s, w), i);
    BitOps(And(a, b), And(Xor(a, b), Not(s, w)), i);
  }

  /** At every position the closed-form borrow word holds the ripple borrow. */
  lemma {:induction false} BorrowWordIsRipple(a: nat, b: nat, c: bool, w: nat, i: nat)
    requires a < Pow2(w) && b < Pow2(w) && i < w
    ensures Xor(a, b) < Pow2(w)
    ensures Bit(BorrowWord(a, b, Diff(a, b, c, w), w), i) <==> BorrowOut(a, b, c, i)
  {
    var d := Diff(a, b, c, w);
    OpsBound(a, b, w);
    DiffBit(a, b, c, w, i);
    BorrowStep(a, b, c, i);
    BitOps(a, b, i);
    BitNot(a, w, i);
    BitNot(Xor(a, b), w, i);
    BitOps(Not(a, w), b, i);
    BitOps(Not(Xor(a, b), w), d, i);
    BitOps(And(Not(a, w), b), And(Not(Xor(a, b), w), d), i);
  }

  /** Only the bits up to a position decide what it sends out. */
  lemma {:induction false} CarryLocal(a: nat, b: nat, c: bool, i: nat)
    ensures CarryOut(Lo(a, i + 1), Lo(b, i + 1), c, i) == CarryOut(a, b, c, i)
  {
    if i > 0 {
      CarryLocal(a / 2, b / 2, Majority(a % 2 == 1, b % 2 == 1, c), i - 1);
    }
  }

  lemma {:induction false} BorrowLocal(a: nat, b: nat, c: bool, i: nat)
    ensures BorrowOut(Lo(a, i + 1), Lo(b, i + 1), c, i) == BorrowOut(a, b, c, i)
  {
    if i > 0 {
      BorrowLocal(a / 2, b / 2, Majority(a % 2 == 0, b % 2 == 1, c), i - 1);
    }
  }

  /** The carry out of the top position says whether the sum overflows the width. */
  lemma {:induction false} TopCarry(a: nat, b: nat, c: bool, w: nat)
    requires w > 0 && a < Pow2(w) && b < Pow2(w)
    ensures CarryOut(a, b, c, w - 1) <==> a + b + Num(c) >= Pow2(w)
  {
    if w > 1 {
      TopCarry(a / 2, b / 2, Majority(a % 2 == 1, b % 2 == 1, c), w - 1);
    }
  }

  /** The borrow out of the top position says whether the subtraction goes below zero. */
  lemma {:induction false} TopBorrow(a: nat, b: nat, c: bool, w: nat)
    requires w > 0 && a < Pow2(w) && b < Pow2(w)
    ensures BorrowOut(a, b, c, w - 1) <==> a < b + Num(c)
  {
    if w > 1 {
      TopBorrow(a / 2, b / 2, Majority(a % 2 == 0, b % 2 == 1, c), w - 1);
    }
  }

  /** A carry word shifted up one place, with the carry-in below it. */
  function ShiftedIn(cout: nat, c: bool, w: nat): nat {
    Xor(Lo(Up(cout, 1), w), Num(c))
  }

  lemma ShiftedInBit(cout: nat, c: bool, w: nat, i: nat)
    requires i < w
    ensures Bit(ShiftedIn(cout, c, w), i) <==> if i == 0 then c else Bit(cout, i - 1)
  {
    BitOps(Lo(Up(cout, 1), w), Num(c), i);
    BitLo(Up(cout, 1), w, i);
    BitUp(cout, 1, i);
    if i > 0 {
      HighBitsClear(Num(c), 1, i);
    }
  }

  /** The AND constraint of the adder gate:
      (a ^ ci) & (b ^ ci) = cout ^ ci, where ci is `cout` shifted up over the carry-in. */
  ghost predicate AdderConstraint(a: nat, b: nat, c: bool, cout: nat, w: nat) {
    var ci := ShiftedIn(cout, c, w);
    And(Xor(a, ci), Xor(b, ci)) == Xor(cout, ci)
  }

  /** The linear constraint shared by both gates: the output is a ^ b ^ ci. */
  ghost predicate LinearConstraint(a: nat, b: nat, c: bool, out: nat, cout: nat, w: nat) {
    out == Xor(Xor(a, b), ShiftedIn(cout, c, w))
  }

  lemma AdderConstraintBit(a: nat, b: nat, c: bool, cout: nat, w: nat, i: nat)
    requires i < w
    ensures var ci := ShiftedIn(cout, c, w);
            var carry := if i == 0 then c else Bit(cout, i - 1);
            Bit(And(Xor(a, ci), Xor(b, ci)), i) == Bit(Xor(cout, ci), i)
            <==> Bit(cout, i) == Majority(Bit(a, i), Bit(b, i), carry)
  {
    var ci := ShiftedIn(cout, c, w);
    ShiftedInBit(cout, c, w, i);
    BitOps(a, ci, i);
    BitOps(b, ci, i);
    BitOps(Xor(a, ci), Xor(b, ci), i);
    BitOps(cout, ci, i);
  }

  lemma {:induction false} ConstraintBounds(a: nat, b: nat, c: bool, cout: nat, w: nat)
    requires w > 0 && a < Pow2(w) && b < Pow2(w) && cout < Pow2(w)
    ensures var ci := ShiftedIn(cout, c, w);
            And(Xor(a, ci), Xor(b, ci)) < Pow2(w) && Xor(cout, ci) < Pow2(w) && Xor(Xor(a, b), ci) < Pow2(w)
  {
    var ci := ShiftedIn(cout, c, w);
    LoBound(Up(cout, 1), w);
    Pow2Mono(1, w);
    OpsBound(Lo(Up(cout, 1), w), Num(c), w);
    OpsBound(a, ci, w);
    OpsBound(b, ci, w);
    OpsBound(Xor(a, ci), Xor(b, ci), w);
    OpsBound(cout, ci, w);
    OpsBound(a, b, w);
    OpsBound(Xor(a, b), ci, w);
  }

  lemma {:induction false} ConstraintForcesRipple(a: nat, b: nat, c: bool, cout: nat, w: nat, i: nat)
    requires AdderConstraint(a, b, c, cout, w) && i < w
    ensures Bit(cout, i) <==> CarryOut(a, b, c, i)
  {
    AdderConstraintBit(a, b, c, cout, w, i);
    CarryStep(a, b, c, i);
    if i > 0 {
      ConstraintForcesRipple(a, b, c, cout, w, i - 1);
    }
  }

  /** Every bit of `cout` is the ripple carry out of its position. */
  ghost predicate IsRipple(a: nat, b: nat, c: bool, cout: nat, w: nat) {
    forall i: nat :: i < w ==> Bit(cout, i) == CarryOut(a, b, c, i)
  }

  lemma AdderForcesRipple(a: nat, b: nat, c: bool, cout: nat, w: nat)
    requires w > 0 && a < Pow2(w) && b < Pow2(w) && cout < Pow2(w)
    ensures AdderConstraint(a, b, c, cout, w) <==> IsRipple(a, b, c, cout, w)
  {
    if AdderConstraint(a, b, c, cout, w) {
      forall i: nat | i < w
        ensures Bit(cout, i) == CarryOut(a, b, c, i)
      {
        ConstraintForcesRipple(a, b, c, cout, w, i);
      }
    }
    if IsRipple(a, b, c, cout, w) {
      var ci := ShiftedIn(cout, c, w);
      forall i: nat | i < w
        ensures Bit(And(Xor(a, ci), Xor(b, ci)), i) == Bit(Xor(cout, ci), i)
      {
        AdderConstraintBit(a, b, c, cout, w, i);
        CarryStep(a, b, c, i);
      }
      ConstraintBounds(a, b, c, cout, w);
      Extensional(And(Xor(a, ci), Xor(b, ci)), Xor(cout, ci), w);
    }
  }

  /** The carry constraint alone has one solution: the carry word of the sum. */
  lemma CarryWordUnique(a: nat, b: nat, c: bool, cout: nat, w: nat)
    requires w > 0 && a < Pow2(w) && b < Pow2(w) && cout < Pow2(w)
    ensures Sum(a, b, c, w) < Pow2(w)
    ensures AdderConstraint(a, b, c, cout, w) <==> cout == CarryWord(a, b, Sum(a, b, c, w), w)
  {
    var s := Sum(a, b, c, w);
    LoBound(a + b + Num(c), w);
    var k := CarryWord(a, b, s, w);
    OpsBound(a, b, w);
    OpsBound(Xor(a, b), Not(s, w), w);
    OpsBound(And(a, b), And(Xor(a, b), Not(s, w)), w);
    forall i: nat | i < w
      ensures Bit(k, i) == CarryOut(a, b, c, i)
    {
      CarryWordIsRipple(a, b, c, w, i);
    }
    AdderForcesRipple(a, b, c, cout, w);
    if AdderConstraint(a, b, c, cout, w) {
      Extensional(cout, k, w);
    }
    AdderForcesRipple(a, b, c, k, w);
  }

  /** The two constraints of the adder gate have one solution: the wrapped sum and its carry word. */
  lemma AdderGateIsAddition(a: nat, b: nat, c: bool, sum: nat, cout: nat, w: nat)
    requires w > 0 && a < Pow2(w) && b < Pow2(w) && sum < Pow2(w) && cout < Pow2(w)
    ensures AdderConstraint(a, b, c, cout, w) && LinearConstraint(a, b, c, sum, cout, w)
            <==> sum == Sum(a, b, c, w) && cout == CarryWord(a, b, sum, w)
  {
    var s := Sum(a, b, c, w);
    CarryWordUnique(a, b, c, cout, w);
    var k := CarryWord(a, b, s, w);
    OpsBound(a, b, w);
    OpsBound(Xor(a, b), Not(s, w), w);
    OpsBound(And(a, b), And(Xor(a, b), Not(s, w)), w);
    CarryWordUnique(a, b, c, k, w);
    forall i: nat | i < w
      ensures Bit(k, i) == CarryOut(a, b, c, i)
    {
      CarryWordIsRipple(a, b, c, w, i);
    }
    var lin := Xor(Xor(a, b), ShiftedIn(k, c, w));
    ConstraintBounds(a, b, c, k, w);
    forall i: nat | i < w
      ensures Bit(lin, i) == Bit(s, i)
    {
      SumBit(a, b, c, w, i);
      ShiftedInBit(k, c, w, i);
      BitOps(a, b, i);
      BitOps(Xor(a, b), ShiftedIn(k, c, w), i);
    }
    Extensional(lin, s, w);
  }

  /** The subtractor's constraints are the adder's with the left operand complemented. */
  ghost predicate SubtractorConstraint(a: nat, b: nat, c: bool, bout: nat, w: nat)
    requires a < Pow2(w)
  {
    AdderConstraint(Not(a, w), b, c, bout, w)
  }

  lemma {:induction false} BorrowIsCarryOfComplement(a: nat, b: nat, c: bool, w: nat, i: nat)
    requires a < Pow2(w) && i < w
    ensures CarryOut(Not(a, w), b, c, i) <==> BorrowOut(a, b, c, i)
  {
    CarryStep(Not(a, w), b, c, i);
    BorrowStep(a, b, c, i);
    BitNot(a, w, i);
    if i > 0 {
      BorrowIsCarryOfComplement(a, b, c, w, i - 1);
    }
  }

  /** The two constraints of the subtractor gate have one solution: the wrapped difference and
      its borrow word. */
  lemma {:induction false} SubtractorGateIsSubtraction(a: nat, b: nat, c: bool, diff: nat, bout: nat, w: nat)
    requires w > 0 && a < Pow2(w) && b < Pow2(w) && diff < Pow2(w) && bout < Pow2(w)
    ensures Xor(a, b) < Pow2(w)
    ensures SubtractorConstraint(a, b, c, bout, w) && LinearConstraint(a, b, c, diff, bout, w)
            <==> diff == Diff(a, b, c, w) && bout == BorrowWord(a, b, diff, w)
  {
    var d := Diff(a, b, c, w);
    OpsBound(a, b, w);
    var k := BorrowWord(a, b, d, w);
    OpsBound(Not(a, w), b, w);
    OpsBound(Not(Xor(a, b), w), d, w);
    OpsBound(And(Not(a, w), b), And(Not(Xor(a, b), w), d), w);
    forall i: nat | i < w
      ensures Bit(k, i) == BorrowOut(a, b, c, i) == CarryOut(Not(a, w), b, c, i)
    {
      BorrowWordIsRipple(a, b, c, w, i);
      BorrowIsCarryOfComplement(a, b, c, w, i);
    }
    AdderForcesRipple(Not(a, w), b, c, bout, w);
    if SubtractorConstraint(a, b, c, bout, w) {
      Extensional(bout, k, w);
    }
    AdderForcesRipple(Not(a, w), b, c, k, w);
    var lin := Xor(Xor(a, b), ShiftedIn(k, c, w));
    ConstraintBounds(a, b, c, k, w);
    forall i: nat | i < w
      ensures Bit(lin, i) == Bit(d, i)
    {
      DiffBit(a, b, c, w, i);
      ShiftedInBit(k, c, w, i);
      BitOps(a, b, i);
      BitOps(Xor(a, b), ShiftedIn(k, c, w), i);
    }
    Extensional(lin, d, w);
  }
}
