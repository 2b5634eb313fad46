/** What the reference function of `Ripemd` is in plain terms, without its own helpers: the selection
    functions by truth table, the rounds by arithmetic, the tables by the rules they are built from,
    the padding as one byte string. */
module RipemdReference {
  import opened Bits
  import opened Words
  import opened Bytes
  import opened Ripemd

  // ---- The selection functions, and which round takes which. ----

  /** The five selection functions on one bit of each variable. */
  predicate Chosen(which: nat, x: bool, y: bool, z: bool) {
    if which == 0 then (x != y) != z
    else if which == 1 then if x then y else z
    else if which == 2 then (x || !y) != z
    else if which == 3 then if z then x else y
    else x != (y || !z)
  }

  lemma {:induction false} SelectBit(which: nat, x: U32, y: U32, z: U32, i: nat)
    requires which < 5 && i < 32
    ensures Bit(RefSelect(which, x, y, z), i) <==> Chosen(which, Bit(x, i), Bit(y, i), Bit(z, i))
  {
    hide And, Or, Xor, Bit, Not32;
    BitNot32(x, i);
    BitNot32(y, i);
    BitNot32(z, i);
    BitOps(x, y, i);
    BitOps(x, z, i);
    BitOps(Xor32(x, y), z, i);
    BitOps(Not32(x), z, i);
    BitOps(And32(x, y), And32(Not32(x), z), i);
    BitOps(x, Not32(y), i);
    BitOps(Or32(x, Not32(y)), z, i);
    BitOps(y, Not32(z), i);
    BitOps(And32(x, z), And32(y, Not32(z)), i);
    BitOps(x, Or32(y, Not32(z)), i);
  }

  /** The left line takes them in order, sixteen rounds each, the right line in reverse. */
  lemma {:induction false} Schedule(round: nat, x: U32, y: U32, z: U32, i: nat)
    requires round < 80 && i < 32
    ensures var (a, b, c) := (Bit(x, i), Bit(y, i), Bit(z, i));
            Bit(RefSelect(LEFT.Which(round), x, y, z), i) <==>
              if round < 16 then (a != b) != c
              else if round < 32 then if a then b else c
              else if round < 48 then (a || !b) != c
              else if round < 64 then if c then a else b
              else a != (b || !c)
    ensures var (a, b, c) := (Bit(x, i), Bit(y, i), Bit(z, i));
            Bit(RefSelect(RIGHT.Which(round), x, y, z), i) <==>
              if round < 16 then a != (b || !c)
              else if round < 32 then if c then a else b
              else if round < 48 then (a || !b) != c
              else if round < 64 then if a then b else c
              else (a != b) != c
  {
    hide RefSelect, Bit;
    SelectBit(LEFT.Which(round), x, y, z, i);
    SelectBit(RIGHT.Which(round), x, y, z, i);
  }

  // ---- One round, and the sums that end a block. ----

  /** The gate rotates each half on its own. */
  lemma RotatesBothHalves(x: Word, s: Rotation)
    ensures Hi(x, 32) < 0x1_0000_0000 && Hi(Rotl32(x, s), 32) == Rol(Hi(x, 32), s)
    ensures Half(Rotl32(x, s)) == Rol(Low(x), s)
  {
    hide Hi, Lo, Up, Rol, Ror;
    Pow2Values();
    HiBound(x, 32, 64);
    LowRotl(x, s);
    RorIsRol(Hi(x, 32), s);
    LoId(Rol(Hi(x, 32), s), 32);
    LoBound(Ror(Half(x), 32 - s), 32);
    JoinedParts(Lo(Ror(Hi(x, 32), 32 - s), 32), Lo(Ror(Half(x), 32 - s), 32), 32);
  }

  lemma AddIsSum(x: U32, y: U32)
    ensures Add(x, y) == (x + y) % 0x1_0000_0000
  {
    hide Lo, Pow2;
    Pow2Values();
    HiLoValue(x + y, 32);
  }

  /** A rotation moves the low bits up and brings the high ones down. */
  lemma {:induction false} RolIsRotation(x: U32, s: Rotation)
    ensures Rol(x, s) == x * Pow2(s) % 0x1_0000_0000 + x / Pow2(32 - s)
  {
    hide Hi, Lo, Up, Or, Pow2;
    Pow2Values();
    UpValue(x, s);
    HiLoValue(Up(x, s), 32);
    HiLoValue(x, 32 - s);
    LoUp(x, s, 32);
    HiBound(x, 32 - s, 32);
    OrDisjoint(Lo(x, 32 - s), Hi(x, 32 - s), s);
  }

  lemma SumOfThree(x: U32, y: U32, z: U32)
    ensures Add(Add(x, y), z) == (x + y + z) % 0x1_0000_0000
  {
    hide Add;
    AddIsSum(x, y);
    AddIsSum(Add(x, y), z);
    SumCut(x + y, z);
  }

  lemma SumOfFour(x: U32, y: U32, z: U32, w: U32)
    ensures Add(Add(Add(x, y), z), w) == (x + y + z + w) % 0x1_0000_0000
  {
    hide Add;
    SumOfThree(x, y, z);
    AddIsSum(Add(Add(x, y), z), w);
    SumCut(x + y + z, w);
  }

  lemma SumCut(x: nat, y: nat)
    ensures (x % 0x1_0000_0000 + y) % 0x1_0000_0000 == (x + y) % 0x1_0000_0000
  {
  }

  /** One round on the variables A to E, for the value `f` of the selection function. */
  lemma {:induction false} RoundIs(l: Line<U32>, which: nat, x: U32, s: Rotation, k: U32)
    ensures var f := RefSelect(which, l.b, l.c, l.d);
            var t: U32 := (l.a + f + x + k) % 0x1_0000_0000;
            RefRound(l, which, x, s, k)
            == Line(l.e, (Rol(t, s) + l.e) % 0x1_0000_0000, l.b, Rol(l.c, 10), l.d)
  {
    hide Rol, RefSelect, Add;
    var f := RefSelect(which, l.b, l.c, l.d);
    SumOfFour(l.a, f, x, k);
    AddIsSum(Rol(Add(Add(Add(l.a, f), x), k), s), l.e);
  }

  /** Round `n` of a line reads message word `z[n]`, rotates by `s[n]` and adds `k[n / 16]`. */
  lemma LineNext(t: LineTables, l: Line<U32>, block: seq<U32>, n: nat)
    requires |block| == 16 && n < 80
    ensures RefLine(t, l, block, 0) == l
    ensures RefLine(t, l, block, n + 1)
         == RefRound(RefLine(t, l, block, n), t.Which(n), block[t.z[n]], t.s[n], t.k[n / 16])
  {
    hide RefRound;
  }

  /** The end of a block: each variable of the state is the sum of the next one, the left line's after
      it and the right line's after that. */
  lemma {:induction false} BlockIs(h: Line<U32>, block: seq<U32>)
    requires |block| == 16
    ensures var (l, r) := (RefLine(LEFT, h, block, 80), RefLine(RIGHT, h, block, 80));
            RefCompress(h, block)
            == Line((h.b + l.c + r.d) % 0x1_0000_0000, (h.c + l.d + r.e) % 0x1_0000_0000,
                    (h.d + l.e + r.a) % 0x1_0000_0000, (h.e + l.a + r.b) % 0x1_0000_0000,
                    (h.a + l.b + r.c) % 0x1_0000_0000)
  {
    hide RefLine, Add;
    var (l, r) := (RefLine(LEFT, h, block, 80), RefLine(RIGHT, h, block, 80));
    SumOfThree(h.b, l.c, r.d);
    SumOfThree(h.c, l.d, r.e);
    SumOfThree(h.d, l.e, r.a);
    SumOfThree(h.e, l.a, r.b);
    SumOfThree(h.a, l.b, r.c);
  }

  /** The first state, byte by byte: counting up, counting down, and the two interleaved. */
  lemma InitialBytes()
    ensures INITIAL_STATE.a == Pack([0x01, 0x23, 0x45, 0x67]) && INITIAL_STATE.b == Pack([0x89, 0xab, 0xcd, 0xef])
    ensures INITIAL_STATE.c == Pack([0xfe, 0xdc, 0xba, 0x98]) && INITIAL_STATE.d == Pack([0x76, 0x54, 0x32, 0x10])
    ensures INITIAL_STATE.e == Pack([0xf0, 0xe1, 0xd2, 0xc3])
  {
    PackFour(0x01, 0x23, 0x45, 0x67);
    PackFour(0x89, 0xab, 0xcd, 0xef);
    PackFour(0xfe, 0xdc, 0xba, 0x98);
    PackFour(0x76, 0x54, 0x32, 0x10);
    PackFour(0xf0, 0xe1, 0xd2, 0xc3);
  }

  // ---- The tables, by the rules they are built from. ----

  /** The permutation that carries the order of one round's message words to the next round's. */
  const NEXT_WORD: seq<Index> := [7, 4, 13, 1, 10, 6, 15, 3, 12, 0, 9, 5, 2, 14, 11, 8]

  /** By how much the word `w` is rotated in sixteen rounds, on either line. */
  const WORD_ROTATIONS: seq<seq<Rotation>> := [
    [11, 14, 15, 12, 5, 8, 7, 9, 11, 13, 14, 15, 6, 7, 9, 8],
    [12, 13, 11, 15, 6, 9, 9, 7, 12, 15, 11, 13, 7, 8, 7, 7],
    [13, 15, 14, 11, 7, 7, 6, 8, 13, 14, 13, 12, 5, 5, 6, 9],
    [14, 11, 12, 14, 8, 6, 5, 5, 15, 12, 15, 14, 9, 9, 8, 6],
    [15, 12, 13, 13, 9, 5, 8, 6, 14, 11, 12, 11, 8, 6, 5, 5]
  ]

  /** The left line starts in order, the right line with every ninth word from the fifth; both then
      follow the permutation. */
  predicate WordAt(n: nat)
    requires n < 80
  {
    if n < 16 then Z_LEFT[n] == n && Z_RIGHT[n] == (9 * n + 5) % 16
    else Z_LEFT[n] == NEXT_WORD[Z_LEFT[n - 16]] && Z_RIGHT[n] == NEXT_WORD[Z_RIGHT[n - 16]]
  }

  /** A rotation depends on the word and the sixteen rounds it is read in, not on the line. */
  predicate RotationAt(n: nat)
    requires n < 80
  {
    S_LEFT[n] == WORD_ROTATIONS[n / 16][Z_LEFT[n]] && S_RIGHT[n] == WORD_ROTATIONS[n / 16][Z_RIGHT[n]]
  }

  /** What four rounds, and eight, from round `n` read. */
  predicate FourAt(n: nat)
    requires n <= 76
  {
    && WordAt(n) && WordAt(n + 1) && WordAt(n + 2) && WordAt(n + 3)
    && RotationAt(n) && RotationAt(n + 1) && RotationAt(n + 2) && RotationAt(n + 3)
  }

  predicate EightAt(n: nat)
    requires n <= 72
  {
    FourAt(n) && FourAt(n + 4)
  }

  lemma FourFrom0()
    ensures FourAt(0)
  {
  }

  lemma FourFrom4()
    ensures FourAt(4)
  {
  }

  lemma FourFrom8()
    ensures FourAt(8)
  {
  }

  lemma FourFrom12()
    ensures FourAt(12)
  {
  }

  lemma EightFrom0()
    ensures EightAt(0)
  {
    hide FourAt;
    FourFrom0();
    FourFrom4();
  }

  lemma EightFrom8()
    ensures EightAt(8)
  {
    hide FourAt;
    FourFrom8();
    FourFrom12();
  }

  lemma EightFrom16()
    ensures EightAt(16)
  {
  }

  lemma EightFrom24()
    ensures EightAt(24)
  {
  }

  lemma EightFrom32()
    ensures EightAt(32)
  {
  }

  lemma EightFrom40()
    ensures EightAt(40)
  {
  }

  lemma EightFrom48()
    ensures EightAt(48)
  {
  }

  lemma EightFrom56()
    ensures EightAt(56)
  {
  }

  lemma EightFrom64()
    ensures EightAt(64)
  {
  }

  lemma EightFrom72()
    ensures EightAt(72)
  {
  }

  /** Every entry of the tables of words and rotations. */
  lemma TableEntries(n: nat)
    requires n < 80
    ensures WordAt(n) && RotationAt(n)
  {
    hide WordAt, RotationAt;
    EightFrom0();
    EightFrom8();
    EightFrom16();
    EightFrom24();
    EightFrom32();
    EightFrom40();
    EightFrom48();
    EightFrom56();
    EightFrom64();
    EightFrom72();
    assert EightAt(n / 8 * 8);
  }

  /** The added constants: 2^30 times the square roots of 2, 3, 5, 7 on the left, the cube roots on the
      right, cut to integers, and zero before and after. */
  lemma Roots()
    ensures K_LEFT[0] == 0 && K_RIGHT[4] == 0
    ensures IsSquareRoot(K_LEFT[1], 2) && IsSquareRoot(K_LEFT[2], 3)
    ensures IsSquareRoot(K_LEFT[3], 5) && IsSquareRoot(K_LEFT[4], 7)
    ensures IsCubeRoot(K_RIGHT[0], 2) && IsCubeRoot(K_RIGHT[1], 3)
    ensures IsCubeRoot(K_RIGHT[2], 5) && IsCubeRoot(K_RIGHT[3], 7)
  {
  }

  predicate IsSquareRoot(k: nat, p: nat) {
    k * k <= p * 0x1000_0000_0000_0000 < (k + 1) * (k + 1)
  }

  predicate IsCubeRoot(k: nat, p: nat) {
    k * k * k <= p * 0x400_0000_0000_0000_0000_0000 < (k + 1) * (k + 1) * (k + 1)
  }

  // ---- The padding. ----

  /** The padded message: its bytes, one byte 0x80, as few zeros as make whole blocks, and the length in
      bits as eight bytes, the lowest first. */
  lemma {:induction false} PaddingIs(message: seq<byte>)
    ensures var n := BlockCount(|message|);
            var zeros: seq<byte> := seq(64 * n - 9 - |message|, _ => 0);
            var length: seq<byte> := seq(8, i requires 0 <= i < 8 => 8 * |message| / Pow2(8 * i) % 256);
            seq(64 * n, p requires 0 <= p < 64 * n => PaddedByte(message, p)) == message + [0x80] + zeros + length
  {
    hide BlockCount, Pow2;
    Pow2Values();
    forall i: nat | i < 8
      ensures LengthByte(8 * |message|, i) == 8 * |message| / Pow2(8 * i) % 256
    {
      HiLoValue(8 * |message|, 8 * i);
      HiLoValue(Hi(8 * |message|, 8 * i), 8);
    }
  }

  /** Word `k` of the padded message: its four bytes, the first lowest. */
  lemma WordIs(message: seq<byte>, k: nat)
    ensures RefWord(message, k)
         == PaddedByte(message, 4 * k) + 0x100 * PaddedByte(message, 4 * k + 1)
            + 0x1_0000 * PaddedByte(message, 4 * k + 2) + 0x100_0000 * PaddedByte(message, 4 * k + 3)
  {
    hide PaddedByte;
    PackFour(PaddedByte(message, 4 * k), PaddedByte(message, 4 * k + 1), PaddedByte(message, 4 * k + 2),
             PaddedByte(message, 4 * k + 3));
  }
}
