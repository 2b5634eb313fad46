/** Naturals read as bit strings: powers of two, single bits, and the bitwise operations
    as recursions on the lowest bit. Everything a 64-bit word does is stated in these terms. */
module Bits {

  function Pow2(n: nat): (p: nat)
    ensures p >= 1
  {
    if n == 0 then 1 else 2 * Pow2(n - 1)
  }

  /** Bit `i` of `x`, counting from the least significant. */
  predicate Bit(x: nat, i: nat) {
    if i == 0 then x % 2 == 1 else Bit(x / 2, i - 1)
  }

  function And(x: nat, y: nat): nat {
    if x == 0 && y == 0 then 0
    else 2 * And(x / 2, y / 2) + if x % 2 == 1 && y % 2 == 1 then 1 else 0
  }

  function Or(x: nat, y: nat): nat {
    if x == 0 && y == 0 then 0
    else 2 * Or(x / 2, y / 2) + if x % 2 == 1 || y % 2 == 1 then 1 else 0
  }

  function Xor(x: nat, y: nat): nat {
    if x == 0 && y == 0 then 0
    else 2 * Xor(x / 2, y / 2) + if x % 2 != y % 2 then 1 else 0
  }

  /** The complement of `x` in `w` bits. */
  function Not(x: nat, w: nat): nat
    requires x < Pow2(w)
  {
    Pow2(w) - 1 - x
  }

  lemma {:induction false} Pow2Add(a: nat, b: nat)
    ensures Pow2(a + b) == Pow2(a) * Pow2(b)
  {
    if a == 0 {
    } else {
      Pow2Add(a - 1, b);
      assert 2 * Pow2(a - 1) * Pow2(b) == 2 * (Pow2(a - 1) * Pow2(b));
    }
  }

  lemma {:induction false} Pow2Mono(a: nat, b: nat)
    requires a <= b
    ensures Pow2(a) <= Pow2(b)
  {
    if a < b {
      Pow2Mono(a, b - 1);
    }
  }

  lemma Pow2Values()
    ensures Pow2(3) == 8 && Pow2(6) == 64 && Pow2(8) == 256 && Pow2(16) == 0x1_0000
    ensures Pow2(31) == 0x8000_0000 && Pow2(32) == 0x1_0000_0000
    ensures Pow2(63) == 0x8000_0000_0000_0000 && Pow2(64) == 0x1_0000_0000_0000_0000
  {
    Pow2Add(16, 16);
    Pow2Add(32, 32);
  }

  /** Reading a bit as arithmetic: halve `i` times, then look at the parity. */
  lemma {:induction false} BitValue(x: nat, i: nat)
    ensures Bit(x, i) <==> (x / Pow2(i)) % 2 == 1
  {
    if i > 0 {
      BitValue(x / 2, i - 1);
      DivDiv(x, 2, Pow2(i - 1));
    }
  }

  lemma {:induction false} DivDiv(x: nat, a: nat, b: nat)
    requires a > 0 && b > 0
    ensures a * b > 0 && x / a / b == x / (a * b)
  {
    var q := x / a / b;
    var r := x / a % b;
    assert x == a * (q * b + r) + x % a;
    assert a * (q * b + r) == (a * b) * q + a * r by {
      assert a * (q * b) == (a * b) * q;
    }
    var s := a * r + x % a;
    assert a * r <= a * (b - 1);
    assert 0 <= s < a * b;
    DivUnique(x, a * b, q, s);
  }

  /** Quotient and remainder are determined by their defining equation. */
  lemma {:induction false} DivUnique(x: int, d: nat, q: int, r: nat)
    requires x == d * q + r && r < d
    ensures x / d == q && x % d == r
  {
    MulSign(d, q - x / d);
    assert d * (q - x / d) == x % d - r;
  }

  lemma MulSign(d: int, e: int)
    requires d >= 0
    ensures e >= 1 ==> d * e >= d
    ensures e <= -1 ==> d * e <= -d
  {
    if e >= 1 {
      assert d * (e - 1) >= 0;
    } else if e <= -1 {
      assert d * (-e - 1) >= 0;
    }
  }

  /** Two numbers below 2^w with the same `w` bits are the same number. */
  lemma {:induction false} Extensional(x: nat, y: nat, w: nat)
    requires x < Pow2(w) && y < Pow2(w)
    requires forall i: nat :: i < w ==> Bit(x, i) == Bit(y, i)
    ensures x == y
  {
    if w > 0 {
      forall i: nat | i < w - 1
        ensures Bit(x / 2, i) == Bit(y / 2, i)
      {
        assert Bit(x, i + 1) == Bit(y, i + 1);
      }
      Extensional(x / 2, y / 2, w - 1);
      assert Bit(x, 0) == Bit(y, 0);
    }
  }

  lemma {:induction false} HighBitsClear(x: nat, w: nat, i: nat)
    requires x < Pow2(w) && w <= i
    ensures !Bit(x, i)
  {
    if w == 0 {
      if i > 0 {
        HighBitsClear(0, 0, i - 1);
      }
    } else {
      HighBitsClear(x / 2, w - 1, i - 1);
    }
  }

  lemma {:induction false} BitAnd(x: nat, y: nat, i: nat)
    ensures Bit(And(x, y), i) <==> Bit(x, i) && Bit(y, i)
  {
    assert And(x, y) / 2 == And(x / 2, y / 2);
    if i > 0 {
      BitAnd(x / 2, y / 2, i - 1);
    }
  }

  lemma {:induction false} BitOr(x: nat, y: nat, i: nat)
    ensures Bit(Or(x, y), i) <==> Bit(x, i) || Bit(y, i)
  {
    assert Or(x, y) / 2 == Or(x / 2, y / 2);
    if i > 0 {
      BitOr(x / 2, y / 2, i - 1);
    }
  }

  lemma {:induction false} BitXor(x: nat, y: nat, i: nat)
    ensures Bit(Xor(x, y), i) <==> Bit(x, i) != Bit(y, i)
  {
    assert Xor(x, y) / 2 == Xor(x / 2, y / 2);
    if i > 0 {
      BitXor(x / 2, y / 2, i - 1);
    }
  }

  /** The bitwise operations, bit by bit. */
  lemma BitOps(x: nat, y: nat, i: nat)
    ensures Bit(And(x, y), i) <==> Bit(x, i) && Bit(y, i)
    ensures Bit(Or(x, y), i) <==> Bit(x, i) || Bit(y, i)
    ensures Bit(Xor(x, y), i) <==> Bit(x, i) != Bit(y, i)
  {
    BitAnd(x, y, i);
    BitOr(x, y, i);
    BitXor(x, y, i);
  }

  lemma {:induction false} BitNot(x: nat, w: nat, i: nat)
    requires x < Pow2(w) && i < w
    ensures Bit(Not(x, w), i) <==> !Bit(x, i)
  {
    assert Not(x, w) / 2 == Not(x / 2, w - 1);
    if i > 0 {
      BitNot(x / 2, w - 1, i - 1);
    }
  }

  lemma {:induction false} OpsBound(x: nat, y: nat, w: nat)
    requires x < Pow2(w) && y < Pow2(w)
    ensures And(x, y) < Pow2(w) && Or(x, y) < Pow2(w) && Xor(x, y) < Pow2(w)
  {
    if w > 0 {
      OpsBound(x / 2, y / 2, w - 1);
    }
  }

  lemma {:induction false} ZeroOps(x: nat)
    ensures Xor(x, 0) == x && Xor(0, x) == x && And(x, 0) == 0 && And(0, x) == 0 && Xor(x, x) == 0
    ensures Or(x, 0) == x && Or(0, x) == x
  {
    if x > 0 {
      ZeroOps(x / 2);
    }
  }

  lemma {:induction false} XorZeroIff(x: nat, y: nat)
    ensures Xor(x, y) == 0 <==> x == y
  {
    if x > 0 || y > 0 {
      XorZeroIff(x / 2, y / 2);
    }
  }

  /** The bitwise operations by their lowest bit and the rest. */
  lemma {:induction false} OpsHalf(x: nat, y: nat)
    ensures And(x, y) / 2 == And(x / 2, y / 2) && And(x, y) % 2 == if x % 2 == 1 && y % 2 == 1 then 1 else 0
    ensures Or(x, y) / 2 == Or(x / 2, y / 2) && Or(x, y) % 2 == if x % 2 == 1 || y % 2 == 1 then 1 else 0
    ensures Xor(x, y) / 2 == Xor(x / 2, y / 2) && Xor(x, y) % 2 == if x % 2 != y % 2 then 1 else 0
  {
  }

  /** `x` without its `k` lowest bits, and those bits, one bit at a time. */
  function Hi(x: nat, k: nat): nat {
    if k == 0 then x else Hi(x / 2, k - 1)
  }

  function Lo(x: nat, k: nat): nat {
    if k == 0 then 0 else 2 * Lo(x / 2, k - 1) + x % 2
  }

  lemma {:induction false} LoHalf(x: nat, k: nat)
    requires k > 0
    ensures Lo(x, k) / 2 == Lo(x / 2, k - 1) && Lo(x, k) % 2 == x % 2
    ensures Lo(x, k) == 2 * Lo(x / 2, k - 1) + x % 2
  {
  }

  lemma {:induction false} UpHalf(x: nat, l: nat, k: nat)
    requires k > 0
    ensures (Up(x, k) + l) / 2 == Up(x, k - 1) + l / 2 && (Up(x, k) + l) % 2 == l % 2
  {
  }

  /** `x` with `k` zero bits put below it. */
  function Up(x: nat, k: nat): nat {
    if k == 0 then x else 2 * Up(x, k - 1)
  }

  /** Cutting or shifting by no places. */
  lemma ZeroPlaces(x: nat)
    ensures Hi(x, 0) == x && Lo(x, 0) == 0 && Up(x, 0) == x
  {
  }

  lemma {:induction false} HiLoValue(x: nat, k: nat)
    ensures Hi(x, k) == x / Pow2(k) && Lo(x, k) == x % Pow2(k)
  {
    if k > 0 {
      HiLoValue(x / 2, k - 1);
      HalfSplit(x, k);
    }
  }

  lemma {:induction false} HalfSplit(z: nat, k: nat)
    requires k > 0
    ensures z / Pow2(k) == z / 2 / Pow2(k - 1)
    ensures z % Pow2(k) == 2 * (z / 2 % Pow2(k - 1)) + z % 2
  {
    DivDiv(z, 2, Pow2(k - 1));
    var q := z / Pow2(k);
    var r := 2 * (z / 2 % Pow2(k - 1)) + z % 2;
    assert z / 2 == Pow2(k - 1) * q + z / 2 % Pow2(k - 1);
    assert Pow2(k) * q == 2 * (Pow2(k - 1) * q);
    DivUnique(z, Pow2(k), q, r);
  }

  lemma {:induction false} UpValue(x: nat, k: nat)
    ensures Up(x, k) == x * Pow2(k)
  {
    if k > 0 {
      UpValue(x, k - 1);
      TwiceProduct(x, Pow2(k - 1));
    }
  }

  lemma TwiceProduct(x: nat, p: nat)
    ensures 2 * (x * p) == x * (2 * p)
  {
  }

  /** Eight places up is a factor of 256. */
  lemma UpEight(x: nat, n: nat)
    ensures Up(x, n + 8) == 256 * Up(x, n)
  {
    assert Up(x, n + 8) == 2 * Up(x, n + 7) && Up(x, n + 7) == 2 * Up(x, n + 6) && Up(x, n + 6) == 2 * Up(x, n + 5);
    assert Up(x, n + 5) == 2 * Up(x, n + 4) && Up(x, n + 4) == 2 * Up(x, n + 3) && Up(x, n + 3) == 2 * Up(x, n + 2);
    assert Up(x, n + 2) == 2 * Up(x, n + 1) && Up(x, n + 1) == 2 * Up(x, n);
  }

  /** Where each bit of a shifted or cut number comes from. */
  lemma {:induction false} BitHi(x: nat, k: nat, i: nat)
    ensures Bit(Hi(x, k), i) == Bit(x, k + i)
  {
    if k > 0 {
      BitHi(x / 2, k - 1, i);
    }
  }

  lemma {:induction false} BitLo(x: nat, k: nat, i: nat)
    ensures Bit(Lo(x, k), i) <==> i < k && Bit(x, i)
  {
    if k == 0 {
      HighBitsClear(0, 0, i);
    } else if i > 0 {
      BitLo(x / 2, k - 1, i - 1);
    }
  }

  lemma {:induction false} BitUp(x: nat, k: nat, i: nat)
    ensures Bit(Up(x, k), i) <==> i >= k && Bit(x, i - k)
  {
    if k > 0 && i > 0 {
      BitUp(x, k - 1, i - 1);
    }
  }

  lemma {:induction false} LoBound(x: nat, k: nat)
    ensures Lo(x, k) < Pow2(k)
  {
    if k > 0 {
      LoBound(x / 2, k - 1);
    }
  }

  lemma {:induction false} HiBound(x: nat, k: nat, w: nat)
    requires x < Pow2(w)
    ensures k <= w ==> Hi(x, k) < Pow2(w - k)
    ensures Hi(x, k) <= x
  {
    if k > 0 {
      if w == 0 {
        HiBound(0, k - 1, 0);
      } else {
        HiBound(x / 2, k - 1, w - 1);
      }
    }
  }

  /** The low bits, cut in two. */
  lemma {:induction false} LoSplit(v: nat, a: nat, b: nat)
    ensures Lo(v, a + b) == Up(Lo(Hi(v, a), b), a) + Lo(v, a)
  {
    if a > 0 {
      LoSplit(v / 2, a - 1, b);
    }
  }

  lemma {:induction false} LoId(x: nat, k: nat)
    requires x < Pow2(k)
    ensures Lo(x, k) == x
  {
    if k > 0 {
      LoId(x / 2, k - 1);
    }
  }

  /** Masking with 2^k - 1 keeps the low `k` bits. */
  lemma {:induction false} AndMask(x: nat, k: nat)
    ensures And(x, Pow2(k) - 1) == Lo(x, k)
  {
    if k == 0 {
      ZeroOps(x);
    } else {
      AndMask(x / 2, k - 1);
      assert (Pow2(k) - 1) / 2 == Pow2(k - 1) - 1;
    }
  }

  /** Exclusive or of a shifted-up part and a low part is their sum. */
  lemma {:induction false} XorDisjoint(hi: nat, lo: nat, k: nat)
    requires lo < Pow2(k)
    ensures Xor(Up(hi, k), lo) == Up(hi, k) + lo
  {
    if k == 0 {
      ZeroOps(hi);
    } else {
      hide Xor, Up;
      XorDisjoint(hi, lo / 2, k - 1);
      OpsHalf(Up(hi, k), lo);
      UpHalf(hi, 0, k);
      UpHalf(hi, lo, k);
    }
  }

  lemma {:induction false} HiHi(x: nat, a: nat, b: nat)
    ensures Hi(Hi(x, a), b) == Hi(x, a + b)
  {
    if a > 0 {
      HiHi(x / 2, a - 1, b);
    }
  }

  /** The low bits grow by one bit at a time from the top as well as from the bottom. */
  lemma {:induction false} LoNext(x: nat, k: nat)
    ensures Lo(x, k + 1) == Lo(x, k) + if Bit(x, k) then Pow2(k) else 0
  {
    if k > 0 {
      LoNext(x / 2, k - 1);
    }
  }

  lemma {:induction false} OrDisjoint(hi: nat, lo: nat, k: nat)
    requires lo < Pow2(k)
    ensures Or(Up(hi, k), lo) == Up(hi, k) + lo
  {
    if k == 0 {
      ZeroOps(hi);
    } else {
      hide Or, Up;
      OrDisjoint(hi, lo / 2, k - 1);
      OpsHalf(Up(hi, k), lo);
      UpHalf(hi, 0, k);
      UpHalf(hi, lo, k);
    }
  }

  /** The bitwise operations work on low and high parts separately. */
  lemma {:induction false} LoOps(x: nat, y: nat, k: nat)
    ensures Lo(And(x, y), k) == And(Lo(x, k), Lo(y, k))
    ensures Lo(Or(x, y), k) == Or(Lo(x, k), Lo(y, k))
    ensures Lo(Xor(x, y), k) == Xor(Lo(x, k), Lo(y, k))
  {
    if k == 0 {
      ZeroOps(0);
    } else {
      hide And, Or, Xor, Lo;
      OpsHalf(x, y);
      OpsHalf(Lo(x, k), Lo(y, k));
      LoHalf(x, k);
      LoHalf(y, k);
      LoHalf(And(x, y), k);
      LoHalf(Or(x, y), k);
      LoHalf(Xor(x, y), k);
      LoOps(x / 2, y / 2, k - 1);
    }
  }

  lemma {:induction false} HiAnd(x: nat, y: nat, k: nat)
    ensures Hi(And(x, y), k) == And(Hi(x, k), Hi(y, k))
  {
    if k > 0 {
      hide And;
      OpsHalf(x, y);
      HiAnd(x / 2, y / 2, k - 1);
    }
  }

  /** A number is its high part put above its low part. */
  lemma {:induction false} Rejoin(x: nat, k: nat)
    ensures x == Up(Hi(x, k), k) + Lo(x, k)
  {
    if k > 0 {
      Rejoin(x / 2, k - 1);
    }
  }

  lemma {:induction false} JoinedParts(hi: nat, lo: nat, k: nat)
    requires lo < Pow2(k)
    ensures Hi(Up(hi, k) + lo, k) == hi && Lo(Up(hi, k) + lo, k) == lo
  {
    if k > 0 {
      JoinedParts(hi, lo / 2, k - 1);
    }
  }

  lemma {:induction false} UpDouble(x: nat, n: nat)
    ensures Up(2 * x, n) == Up(x, n + 1)
    ensures Up(x + 1, n) == Up(x, n) + Pow2(n)
    ensures Hi(Up(x, n), n) == x
  {
    if n > 0 {
      UpDouble(x, n - 1);
    }
  }

  lemma {:induction false} JoinedBound(hi: nat, lo: nat, k: nat, w: nat)
    requires lo < Pow2(k) && k <= w && hi < Pow2(w - k)
    ensures Up(hi, k) + lo < Pow2(w)
  {
    if k > 0 {
      JoinedBound(hi, lo / 2, k - 1, w - 1);
    }
  }

  lemma {:induction false} XorAssoc(x: nat, y: nat, z: nat)
    ensures Xor(Xor(x, y), z) == Xor(x, Xor(y, z))
  {
    OpsHalf(x, y);
    OpsHalf(y, z);
    OpsHalf(Xor(x, y), z);
    OpsHalf(x, Xor(y, z));
    if x > 0 || y > 0 || z > 0 {
      XorAssoc(x / 2, y / 2, z / 2);
    }
  }

  lemma {:induction false} XorComm(x: nat, y: nat)
    ensures Xor(x, y) == Xor(y, x)
  {
    if x > 0 || y > 0 {
      XorComm(x / 2, y / 2);
    }
  }

  lemma {:induction false} XorOnes(x: nat, w: nat)
    requires x < Pow2(w)
    ensures Xor(x, Pow2(w) - 1) == Not(x, w)
  {
    if w > 0 {
      XorOnes(x / 2, w - 1);
    }
  }

  lemma {:induction false} AndComm(x: nat, y: nat)
    ensures And(x, y) == And(y, x)
  {
    if x > 0 || y > 0 {
      AndComm(x / 2, y / 2);
    }
  }

  /** The number of bits needed to tell `n` positions apart. */
  function Log2Ceil(n: nat): (b: nat)
    ensures n <= Pow2(b)
    ensures n > 1 ==> Pow2(b) < 2 * n
    ensures n <= 1 ==> b == 0
  {
    if n <= 1 then 0 else 1 + Log2Ceil((n + 1) / 2)
  }
}
