/** Counting the ones of a word lane by lane: each step doubles the lanes, and no step carries or
    borrows across one. */
module Popcount {
  import opened Bits
  import opened Words

  /** The number of ones among the `n` low bits. */
  function Ones(x: nat, n: nat): (c: nat)
    ensures c <= n
  {
    if n == 0 then 0 else x % 2 + Ones(x / 2, n - 1)
  }

  /** `n` lanes of `w` bits, each holding the number of ones of the same lane of `x`. */
  function CountLanes(x: nat, w: nat, n: nat): nat
    decreases n
  {
    if n == 0 then 0 else Up(CountLanes(Hi(x, w), w, n - 1), w) + Ones(x, w)
  }

  /** The low `w` bits of each of `n` lanes of `2 * w` bits. */
  function Mask(w: nat, n: nat): nat {
    if n == 0 then 0 else Up(Mask(w, n - 1), 2 * w) + (Pow2(w) - 1)
  }

  function ClearHighBits(x: Word, n: nat): Word {
    Shr(Shl(x, n), n)
  }

  /** The number of ones of a word. */
  function Popcount(input: Word): (r: Word)
    ensures r == Ones(input, 64)
  {
    CountIsRight(input);
    CountOf(input)
  }

  function CountOf(input: Word): Word {
    var step1 := Isub(input, Band(Shr(input, 1), 0x5555_5555_5555_5555)).0;
    var step2 := Iadd(Band(step1, 0x3333_3333_3333_3333), Band(Shr(step1, 2), 0x3333_3333_3333_3333)).0;
    var step3 := Band(Iadd(step2, Shr(step2, 4)).0, 0x0F0F_0F0F_0F0F_0F0F);
    var step4 := Band(Iadd(step3, Shr(step3, 8)).0, 0x00FF_00FF_00FF_00FF);
    var step5 := Band(Iadd(step4, Shr(step4, 16)).0, 0x0000_FFFF_0000_FFFF);
    ClearHighBits(Iadd(step5, Shr(step5, 32)).0, 32)
  }

  // ---- Ones. ----

  lemma {:induction false} OnesTop(x: nat, n: nat)
    ensures Ones(x, n + 1) == Ones(x, n) + if Bit(x, n) then 1 else 0
  {
    if n > 0 {
      OnesTop(x / 2, n - 1);
    }
  }

  function OnePositions(x: nat, n: nat): set<nat> {
    set i: nat | i < n && Bit(x, i)
  }

  /** The count is the number of bit positions that hold a one. */
  lemma {:induction false} OnesIsCardinality(x: nat, n: nat)
    ensures Ones(x, n) == |OnePositions(x, n)|
  {
    if n > 0 {
      OnesIsCardinality(x, n - 1);
      OnesTop(x, n - 1);
      if Bit(x, n - 1) {
        assert OnePositions(x, n) == OnePositions(x, n - 1) + {n - 1};
      } else {
        assert OnePositions(x, n) == OnePositions(x, n - 1);
      }
    }
  }

  lemma {:induction false} OnesSplit(x: nat, a: nat, b: nat)
    ensures Ones(x, a + b) == Ones(x, a) + Ones(Hi(x, a), b)
  {
    if a > 0 {
      OnesSplit(x / 2, a - 1, b);
    }
  }

  lemma {:induction false} CountFits(w: nat)
    requires w >= 2
    ensures w < Pow2(w)
    ensures w >= 4 ==> 2 * w < Pow2(w)
  {
    if w > 4 {
      CountFits(w - 1);
    } else {
      assert Pow2(2) == 4 && Pow2(3) == 8 && Pow2(4) == 16;
    }
  }

  // ---- Lanes. ----

  lemma {:induction false} CountLanesBound(x: nat, w: nat, n: nat)
    requires w >= 2
    ensures CountLanes(x, w, n) < Pow2(w * n)
    decreases n
  {
    if n == 0 {
    } else {
      CountFits(w);
      CountLanesBound(Hi(x, w), w, n - 1);
      assert w * n - w == w * (n - 1);
      JoinedBound(CountLanes(Hi(x, w), w, n - 1), Ones(x, w), w, w * n);
    }
  }

  /** Every lane holds exactly the count of its own bits. */
  lemma {:induction false} LaneCount(x: nat, w: nat, n: nat, k: nat)
    requires w >= 2 && k < n
    ensures Lo(Hi(CountLanes(x, w, n), w * k), w) == Ones(Hi(x, w * k), w)
    decreases n
  {
    hide Up, Hi, Lo, Ones;
    CountFits(w);
    var v, upper := CountLanes(x, w, n), CountLanes(Hi(x, w), w, n - 1);
    JoinedParts(upper, Ones(x, w), w);
    if k == 0 {
      assert w * k == 0;
      ZeroPlaces(x);
      ZeroPlaces(v);
      LowestLane(upper, Ones(x, w), w);
    } else {
      assert w * k == w + w * (k - 1);
      HiHi(v, w, w * (k - 1));
      HiHi(x, w, w * (k - 1));
      LaneCount(Hi(x, w), w, n - 1, k - 1);
    }
  }

  lemma LowestLane(upper: nat, lane: nat, w: nat)
    requires lane < Pow2(w)
    ensures Lo(Up(upper, w) + lane, w) == lane
  {
    JoinedParts(upper, lane, w);
  }

  lemma {:induction false} AndParts(h: nat, l: nat, h': nat, l': nat, k: nat)
    requires l < Pow2(k) && l' < Pow2(k)
    ensures And(Up(h, k) + l, Up(h', k) + l') == Up(And(h, h'), k) + And(l, l')
  {
    hide And, Up, Lo, Hi, Pow2;
    var x, y := Up(h, k) + l, Up(h', k) + l';
    Rejoin(And(x, y), k);
    LoOps(x, y, k);
    HiAnd(x, y, k);
    JoinedParts(h, l, k);
    JoinedParts(h', l', k);
  }

  /** Masking two lanes at once: the low one stays, the high one goes. */
  lemma MaskPair(rest: nat, hi: nat, lo: nat, w: nat, n: nat)
    requires n > 0 && lo < Pow2(w) && hi < Pow2(w)
    ensures And(Up(rest, 2 * w) + (Up(hi, w) + lo), Mask(w, n)) == Up(And(rest, Mask(w, n - 1)), 2 * w) + lo
  {
    JoinedBound(hi, lo, w, 2 * w);
    Pow2Mono(w, 2 * w);
    assert Mask(w, n) == Up(Mask(w, n - 1), 2 * w) + (Pow2(w) - 1);
    hide And, Up, Lo, Hi, Mask;
    AndParts(rest, Up(hi, w) + lo, Mask(w, n - 1), Pow2(w) - 1, 2 * w);
    AndMask(Up(hi, w) + lo, w);
    JoinedParts(hi, lo, w);
  }

  lemma {:induction false} UpSum(x: nat, y: nat, k: nat)
    ensures Up(x + y, k) == Up(x, k) + Up(y, k)
    ensures x >= y ==> Up(x - y, k) == Up(x, k) - Up(y, k)
  {
    if k > 0 {
      UpSum(x, y, k - 1);
    }
  }

  lemma {:induction false} UpUp(x: nat, a: nat, b: nat)
    ensures Up(Up(x, a), b) == Up(x, a + b)
  {
    if b > 0 {
      UpUp(x, a, b - 1);
    }
  }

  lemma TwoBits(x: nat)
    ensures Hi(x, 1) == x / 2 && Hi(x, 2) == x / 2 / 2 && Lo(x, 1) == x % 2
    ensures forall y: nat :: Up(y, 2) == 4 * y && Up(y, 1) == 2 * y
    ensures Ones(x, 2) == x % 2 + x / 2 % 2
    ensures x == 4 * (x / 2 / 2) + 2 * (x / 2 % 2) + x % 2
  {
    assert Hi(x / 2, 1) == Hi(x / 2 / 2, 0);
    forall y: nat
      ensures Up(y, 2) == 4 * y && Up(y, 1) == 2 * y
    {
      assert Up(y, 0) == y && Up(y, 1) == 2 * Up(y, 0) && Up(y, 2) == 2 * Up(y, 1);
    }
    assert Ones(x / 2, 1) == x / 2 % 2 + Ones(x / 2 / 2, 0);
  }

  /** The first step, on `n` lanes of two bits: subtracting the upper bit of each lane from the lane
      leaves its count, and never borrows. */
  lemma {:induction false} SubtractStep(x: nat, n: nat)
    requires x < Pow2(2 * n)
    ensures And(Hi(x, 1), Mask(1, n)) <= x
    ensures x - And(Hi(x, 1), Mask(1, n)) == CountLanes(x, 2, n)
  {
    hide Lo, Up, Hi, Ones;
    if n == 0 {
      ZeroOps(Hi(0, 1));
      HiBound(0, 1, 0);
    } else {
      var x' := x / 2 / 2;
      TwoBits(x);
      SubtractStep(x', n - 1);
      assert Hi(x, 1) == x / 2;
      var hi := Lo(x', 1);
      TwoBits(x');
      TwoBits(x / 2);
      assert hi == x' % 2 && Pow2(1) == 2;
      assert x / 2 == Up(Hi(x', 1), 2) + (Up(hi, 1) + x / 2 % 2);
      MaskPair(Hi(x', 1), hi, x / 2 % 2, 1, n);
    }
  }

  /** The two lanes at the bottom of the counts. */
  lemma BottomPair(x: nat, w: nat, n: nat)
    requires w >= 2 && n > 0
    ensures var rest := CountLanes(Hi(x, 2 * w), w, 2 * n - 2);
            CountLanes(x, w, 2 * n) == Up(rest, 2 * w) + (Up(Ones(Hi(x, w), w), w) + Ones(x, w))
  {
    HiHi(x, w, w);
    var rest := CountLanes(Hi(x, 2 * w), w, 2 * n - 2);
    UpSum(Up(rest, w), Ones(Hi(x, w), w), w);
    UpUp(rest, w, w);
  }

  lemma BottomLane(x: nat, w: nat, n: nat)
    requires w >= 2
    ensures Lo(CountLanes(x, w, n), w) <= w && Lo(CountLanes(x, w, n), w) < Pow2(w)
  {
    CountFits(w);
    if n > 0 {
      LowestLane(CountLanes(Hi(x, w), w, n - 1), Ones(x, w), w);
    } else {
      LoId(0, w);
    }
  }

  /** The counts moved down by one lane. */
  lemma OneLaneUp(x: nat, w: nat, n: nat)
    requires w >= 2 && n > 0
    ensures var rest := CountLanes(Hi(x, 2 * w), w, 2 * n - 2);
            && Hi(CountLanes(x, w, 2 * n), w)
               == Up(Hi(rest, w), 2 * w) + (Up(Lo(rest, w), w) + Ones(Hi(x, w), w))
            && Lo(rest, w) <= w && Lo(rest, w) < Pow2(w)
  {
    hide Up, Hi, Lo, Ones;
    var rest := CountLanes(Hi(x, 2 * w), w, 2 * n - 2);
    BottomLane(Hi(x, 2 * w), w, 2 * n - 2);
    HiHi(x, w, w);
    CountFits(w);
    var upper := CountLanes(Hi(x, w), w, 2 * n - 1);
    assert upper == Up(rest, w) + Ones(Hi(x, w), w);
    JoinedParts(upper, Ones(x, w), w);
    Rejoin(rest, w);
    UpSum(Up(Hi(rest, w), w), Lo(rest, w), w);
    UpUp(Hi(rest, w), w, w);
  }

  /** Masking both summands first: neighbouring counts add up in lanes of twice the width. */
  lemma {:induction false} MaskThenAdd(x: nat, w: nat, n: nat)
    requires w >= 2
    ensures var v := CountLanes(x, w, 2 * n);
            And(v, Mask(w, n)) + And(Hi(v, w), Mask(w, n)) == CountLanes(x, 2 * w, n)
    decreases n
  {
    hide Up, Hi, Lo, Ones;
    if n == 0 {
      ZeroOps(CountLanes(x, w, 0));
      ZeroOps(Hi(CountLanes(x, w, 0), w));
    } else {
      var v, rest := CountLanes(x, w, 2 * n), CountLanes(Hi(x, 2 * w), w, 2 * n - 2);
      var a, b := Ones(x, w), Ones(Hi(x, w), w);
      CountFits(w);
      BottomPair(x, w, n);
      OneLaneUp(x, w, n);
      MaskPair(rest, b, a, w, n);
      MaskPair(Hi(rest, w), Lo(rest, w), b, w, n);
      MaskThenAdd(Hi(x, 2 * w), w, n - 1);
      assert 2 * (n - 1) == 2 * n - 2;
      UpSum(And(rest, Mask(w, n - 1)), And(Hi(rest, w), Mask(w, n - 1)), 2 * w);
      OnesSplit(x, w, w);
    }
  }

  /** A sum of the counts and the counts moved down: no lane overflows. */
  lemma SumPair(x: nat, w: nat, n: nat)
    requires w >= 4 && n > 0
    ensures var v, rest := CountLanes(x, w, 2 * n), CountLanes(Hi(x, 2 * w), w, 2 * n - 2);
            var next := Ones(Hi(x, w), w) + Lo(rest, w);
            && v + Hi(v, w) == Up(rest + Hi(rest, w), 2 * w) + (Up(next, w) + Ones(x, 2 * w))
            && next < Pow2(w) && Ones(x, 2 * w) < Pow2(w)
  {
    hide Up, Hi, Lo, Ones, CountLanes;
    var rest := CountLanes(Hi(x, 2 * w), w, 2 * n - 2);
    CountFits(w);
    BottomPair(x, w, n);
    OneLaneUp(x, w, n);
    UpSum(rest, Hi(rest, w), 2 * w);
    UpSum(Ones(Hi(x, w), w), Lo(rest, w), w);
    OnesSplit(x, w, w);
  }

  lemma {:induction false} SumFits(x: nat, w: nat, n: nat, bits: nat)
    requires w >= 4 && bits == 2 * w * n
    ensures CountLanes(x, w, 2 * n) + Hi(CountLanes(x, w, 2 * n), w) < Pow2(bits)
    decreases n
  {
    hide Up, Hi, Lo, Ones;
    if n == 0 {
      HiBound(0, w, 0);
    } else {
      var rest := CountLanes(Hi(x, 2 * w), w, 2 * n - 2);
      var next := Ones(Hi(x, w), w) + Lo(rest, w);
      assert bits - 2 * w == 2 * w * (n - 1) && 2 * (n - 1) == 2 * n - 2;
      SumFits(Hi(x, 2 * w), w, n - 1, bits - 2 * w);
      hide CountLanes;
      SumPair(x, w, n);
      JoinedBound(next, Ones(x, 2 * w), w, 2 * w);
      JoinedBound(rest + Hi(rest, w), Up(next, w) + Ones(x, 2 * w), 2 * w, bits);
    }
  }

  /** Adding first and masking after, once the lanes are wide enough that no sum overflows one. */
  lemma {:induction false} AddThenMask(x: nat, w: nat, n: nat)
    requires w >= 4
    ensures var v := CountLanes(x, w, 2 * n);
            And(v + Hi(v, w), Mask(w, n)) == CountLanes(x, 2 * w, n)
    decreases n
  {
    hide Up, Hi, Lo, Ones;
    if n == 0 {
      ZeroOps(CountLanes(x, w, 0) + Hi(CountLanes(x, w, 0), w));
    } else {
      var rest := CountLanes(Hi(x, 2 * w), w, 2 * n - 2);
      var next := Ones(Hi(x, w), w) + Lo(rest, w);
      assert 2 * (n - 1) == 2 * n - 2;
      AddThenMask(Hi(x, 2 * w), w, n - 1);
      assert CountLanes(x, 2 * w, n) == Up(CountLanes(Hi(x, 2 * w), 2 * w, n - 1), 2 * w) + Ones(x, 2 * w);
      hide CountLanes, Mask, And;
      SumPair(x, w, n);
      MaskPair(rest + Hi(rest, w), next, Ones(x, 2 * w), w, n);
    }
  }

  // ---- The constants, and the word operations. ----

  lemma {:induction false} MaskAdd(w: nat, a: nat, b: nat)
    ensures Mask(w, a + b) == Up(Mask(w, a), 2 * w * b) + Mask(w, b)
    decreases b
  {
    if b == 0 {
      assert 2 * w * b == 0;
    } else {
      MaskAdd(w, a, b - 1);
      UpSum(Up(Mask(w, a), 2 * w * (b - 1)), Mask(w, b - 1), 2 * w);
      UpUp(Mask(w, a), 2 * w * (b - 1), 2 * w);
      assert 2 * w * (b - 1) + 2 * w == 2 * w * b;
    }
  }

  lemma {:induction false} MaskDouble(w: nat, n: nat, bits: nat)
    requires bits == 2 * w * n
    ensures Mask(w, 2 * n) == Mask(w, n) * Pow2(bits) + Mask(w, n)
  {
    hide Mask, Up;
    MaskAdd(w, n, n);
    assert n + n == 2 * n;
    UpValue(Mask(w, n), bits);
  }

  lemma MaskOnce(w: nat)
    ensures Mask(w, 1) == Pow2(w) - 1
  {
    assert Mask(w, 0) == 0;
    UpValue(0, 2 * w);
  }

  lemma {:induction false} MaskOfOne()
    ensures Mask(1, 32) == 0x5555_5555_5555_5555
  {
    Pow2Values();
    assert Pow2(1) == 2 && Pow2(2) == 4 && Pow2(4) == 16;
    hide Mask, Pow2;
    MaskOnce(1);
    MaskDouble(1, 1, 2);
    MaskDouble(1, 2, 4);
    MaskDouble(1, 4, 8);
    MaskDouble(1, 8, 16);
    MaskDouble(1, 16, 32);
  }

  lemma {:induction false} MaskOfTwo()
    ensures Mask(2, 16) == 0x3333_3333_3333_3333
  {
    Pow2Values();
    assert Pow2(2) == 4 && Pow2(4) == 16;
    hide Mask, Pow2;
    MaskOnce(2);
    MaskDouble(2, 1, 4);
    MaskDouble(2, 2, 8);
    MaskDouble(2, 4, 16);
    MaskDouble(2, 8, 32);
  }

  lemma {:induction false} MaskConstants()
    ensures Mask(1, 32) == 0x5555_5555_5555_5555 && Mask(2, 16) == 0x3333_3333_3333_3333
    ensures Mask(4, 8) == 0x0F0F_0F0F_0F0F_0F0F && Mask(8, 4) == 0x00FF_00FF_00FF_00FF
    ensures Mask(16, 2) == 0x0000_FFFF_0000_FFFF
  {
    Pow2Values();
    assert Pow2(4) == 16;
    hide Mask, Pow2;
    MaskOfOne();
    MaskOfTwo();
    MaskOnce(4);
    MaskDouble(4, 1, 8);
    MaskDouble(4, 2, 16);
    MaskDouble(4, 4, 32);
    MaskOnce(8);
    MaskDouble(8, 1, 16);
    MaskDouble(8, 2, 32);
    MaskOnce(16);
    MaskDouble(16, 1, 32);
  }

  /** Shifting up and back down keeps the low bits. */
  lemma ClearHighBitsKeepsLow(x: Word, n: nat)
    requires n <= 64
    ensures ClearHighBits(x, n) == Lo(x, 64 - n)
  {
    Pow2Values();
    LoBound(x, 64 - n);
    Pow2Mono(64 - n, 64);
    HiBound(Shl(x, n), n, 64);
    forall i: nat | i < 64 - n
      ensures Bit(ClearHighBits(x, n), i) == Bit(Lo(x, 64 - n), i)
    {
      BitHi(Shl(x, n), n, i);
      BitLo(Up(x, n), 64, n + i);
      BitUp(x, n, n + i);
      BitLo(x, 64 - n, i);
    }
    Extensional(ClearHighBits(x, n), Lo(x, 64 - n), 64 - n);
  }

  lemma {:induction false} CountIsRight(x: Word)
    ensures CountOf(x) == Ones(x, 64)
  {
    hide Up, Hi, Lo, Ones, CountLanes, Mask, And, Pow2;
    Pow2Values();
    MaskConstants();
    SubtractStep(x, 32);
    MaskThenAdd(x, 2, 16);
    CountLanesBound(x, 4, 16);
    SumFits(x, 4, 8, 64);
    SumFits(x, 8, 4, 64);
    SumFits(x, 16, 2, 64);
    AddThenMask(x, 4, 8);
    AddThenMask(x, 8, 4);
    AddThenMask(x, 16, 2);
    LastStep(x);
  }

  lemma LastStep(x: Word)
    ensures var v := CountLanes(x, 32, 2);
            && v + Hi(v, 32) < 0x1_0000_0000_0000_0000
            && (v < 0x1_0000_0000_0000_0000 ==> ClearHighBits(v + Hi(v, 32), 32) == Ones(x, 64))
  {
    var v := CountLanes(x, 32, 2);
    Pow2Values();
    SumFits(x, 32, 1, 64);
    AddThenMask(x, 32, 1);
    ClearHighBitsKeepsLow(v + Hi(v, 32), 32);
    AndMask(v + Hi(v, 32), 32);
    assert Mask(32, 0) == 0;
    ZeroOps(0);
    UpUp(0, 0, 64);
    UpValue(0, 64);
    assert Mask(32, 1) == Pow2(32) - 1;
    assert CountLanes(x, 64, 1) == Up(CountLanes(Hi(x, 64), 64, 0), 64) + Ones(x, 64);
  }
}
