/** RIPEMD-160 on 64-bit wires whose upper halves may hold anything: the low halves follow the hash
    function on 32-bit words, and padding lays the message out as the hash function asks. */
module Ripemd {
  import opened Bits
  import opened Words
  import opened Bytes
  import opened Popcount

  type U32 = x: nat | x < 0x1_0000_0000

  // ---- The tables of the two lines. ----

  type Index = n: nat | n < 16
  type Rotation = s: nat | 0 < s < 32 witness 1

  /** What one line reads: the message word, the rotation and, for every sixteen rounds, the added
      constant; the right line takes the selection functions in reverse. */
  datatype Tables = Tables(z: seq<Index>, s: seq<Rotation>, k: seq<U32>, reversed: bool) {
    function Which(round: nat): nat
      requires round < 80
    {
      if reversed then 4 - round / 16 else round / 16
    }
  }

  type LineTables = t: Tables | |t.z| == 80 && |t.s| == 80 && |t.k| == 5
    witness Tables(Z_LEFT, S_LEFT, K_LEFT, false)

  const Z_LEFT: seq<Index> :=
    [0, 1, 2, 3, 4, 5, 6, 7, 8, 9, 10, 11, 12, 13, 14, 15]
    + [7, 4, 13, 1, 10, 6, 15, 3, 12, 0, 9, 5, 2, 14, 11, 8]
    + [3, 10, 14, 4, 9, 15, 8, 1, 2, 7, 0, 6, 13, 11, 5, 12]
    + [1, 9, 11, 10, 0, 8, 12, 4, 13, 3, 7, 15, 14, 5, 6, 2]
    + [4, 0, 5, 9, 7, 12, 2, 10, 14, 1, 3, 8, 11, 6, 15, 13]

  const Z_RIGHT: seq<Index> :=
    [5, 14, 7, 0, 9, 2, 11, 4, 13, 6, 15, 8, 1, 10, 3, 12]
    + [6, 11, 3, 7, 0, 13, 5, 10, 14, 15, 8, 12, 4, 9, 1, 2]
    + [15, 5, 1, 3, 7, 14, 6, 9, 11, 8, 12, 2, 10, 0, 4, 13]
    + [8, 6, 4, 1, 3, 11, 15, 0, 5, 12, 2, 13, 9, 7, 10, 14]
    + [12, 15, 10, 4, 1, 5, 8, 7, 6, 2, 13, 14, 0, 3, 9, 11]

  const S_LEFT: seq<Rotation> :=
    [11, 14, 15, 12, 5, 8, 7, 9, 11, 13, 14, 15, 6, 7, 9, 8]
    + [7, 6, 8, 13, 11, 9, 7, 15, 7, 12, 15, 9, 11, 7, 13, 12]
    + [11, 13, 6, 7, 14, 9, 13, 15, 14, 8, 13, 6, 5, 12, 7, 5]
    + [11, 12, 14, 15, 14, 15, 9, 8, 9, 14, 5, 6, 8, 6, 5, 12]
    + [9, 15, 5, 11, 6, 8, 13, 12, 5, 12, 13, 14, 11, 8, 5, 6]

  const S_RIGHT: seq<Rotation> :=
    [8, 9, 9, 11, 13, 15, 15, 5, 7, 7, 8, 11, 14, 14, 12, 6]
    + [9, 13, 15, 7, 12, 8, 9, 11, 7, 7, 12, 7, 6, 15, 13, 11]
    + [9, 7, 15, 11, 8, 6, 6, 14, 12, 13, 5, 14, 13, 13, 7, 5]
    + [15, 5, 8, 11, 14, 14, 6, 14, 6, 9, 12, 9, 12, 5, 15, 8]
    + [8, 5, 12, 9, 12, 5, 14, 6, 8, 13, 6, 5, 15, 13, 11, 11]

  const K_LEFT: seq<U32> := [0x0000_0000, 0x5A82_7999, 0x6ED9_EBA1, 0x8F1B_BCDC, 0xA953_FD4E]
  const K_RIGHT: seq<U32> := [0x50A2_8BE6, 0x5C4D_D124, 0x6D70_3EF3, 0x7A6D_76E9, 0x0000_0000]

  const LEFT: LineTables := Tables(Z_LEFT, S_LEFT, K_LEFT, false)
  const RIGHT: LineTables := Tables(Z_RIGHT, S_RIGHT, K_RIGHT, true)

  // ---- The hash function on 32-bit words. ----

  function Add(x: U32, y: U32): U32 {
    LoBound(x + y, 32);
    Pow2Values();
    Lo(x + y, 32)
  }

  /** `x` shifted up by `s`, or what falls off the top. */
  function Rol(x: U32, s: Rotation): U32 {
    Pow2Values();
    LoBound(Up(x, s), 32);
    HiBound(x, 32 - s, 32);
    OpsBound(Lo(Up(x, s), 32), Hi(x, 32 - s), 32);
    Or(Lo(Up(x, s), 32), Hi(x, 32 - s))
  }

  function And32(x: U32, y: U32): U32 {
    Pow2Values();
    OpsBound(x, y, 32);
    And(x, y)
  }

  function Or32(x: U32, y: U32): U32 {
    Pow2Values();
    OpsBound(x, y, 32);
    Or(x, y)
  }

  function Xor32(x: U32, y: U32): U32 {
    Pow2Values();
    OpsBound(x, y, 32);
    Xor(x, y)
  }

  function Not32(x: U32): U32 {
    0xFFFF_FFFF - x
  }

  /** The five selection functions, in the form of their definition. */
  function RefSelect(which: nat, x: U32, y: U32, z: U32): U32 {
    if which == 0 then Xor32(Xor32(x, y), z)
    else if which == 1 then Or32(And32(x, y), And32(Not32(x), z))
    else if which == 2 then Xor32(Or32(x, Not32(y)), z)
    else if which == 3 then Or32(And32(x, z), And32(y, Not32(z)))
    else Xor32(x, Or32(y, Not32(z)))
  }

  /** The five variables of a line. */
  datatype Line<+T> = Line(a: T, b: T, c: T, d: T, e: T)

  function RefRound(l: Line<U32>, which: nat, x: U32, s: Rotation, k: U32): Line<U32> {
    var t := Add(Add(Add(l.a, RefSelect(which, l.b, l.c, l.d)), x), k);
    Line(l.e, Add(Rol(t, s), l.e), l.b, Rol(l.c, 10), l.d)
  }

  /** A line after `n` rounds. */
  function RefLine(t: LineTables, l: Line<U32>, block: seq<U32>, n: nat): Line<U32>
    requires |block| == 16 && n <= 80
  {
    if n == 0 then l
    else RefRound(RefLine(t, l, block, n - 1), t.Which(n - 1), block[t.z[n - 1]], t.s[n - 1], t.k[(n - 1) / 16])
  }

  function Combine(h: Line<U32>, l: Line<U32>, r: Line<U32>): Line<U32> {
    Line(Add(Add(h.b, l.c), r.d), Add(Add(h.c, l.d), r.e), Add(Add(h.d, l.e), r.a),
         Add(Add(h.e, l.a), r.b), Add(Add(h.a, l.b), r.c))
  }

  function RefCompress(h: Line<U32>, block: seq<U32>): Line<U32>
    requires |block| == 16
  {
    Combine(h, RefLine(LEFT, h, block, 80), RefLine(RIGHT, h, block, 80))
  }

  const INITIAL_STATE: Line<U32> := Line(0x6745_2301, 0xEFCD_AB89, 0x98BA_DCFE, 0x1032_5476, 0xC3D2_E1F0)

  /** The state after the first `n` blocks. */
  function RefHash(words: seq<U32>, n: nat): Line<U32>
    requires |words| >= 16 * n
  {
    if n == 0 then INITIAL_STATE else RefCompress(RefHash(words, n - 1), words[16 * (n - 1)..16 * n])
  }

  // ---- The circuit on wires. ----

  /** The gate behind a left rotation of both halves: a right rotation by the complement. */
  function Rotl32(x: Word, s: Rotation): Word {
    Halves(Ror(Hi(x, 32), 32 - s), Ror(Half(x), 32 - s))
  }

  function Ror(v: nat, k: nat): nat
    requires k <= 32
  {
    Up(Lo(v, k), 32 - k) + Hi(v, k)
  }

  function Select(which: nat, x: Word, y: Word, z: Word): Word {
    if which == 0 then Bxor(Bxor(x, y), z)
    else if which == 1 then Bxor(z, Band(x, Bxor(y, z)))
    else if which == 2 then Bxor(Bor(x, Bnot(y)), z)
    else if which == 3 then Bxor(y, Band(z, Bxor(x, y)))
    else Bxor(x, Bor(y, Bnot(z)))
  }

  function Round(which: nat, l: Line<Word>, x: Word, s: Rotation, k: U32): Word {
    var t := Iadd32(Iadd32(Iadd32(l.a, Select(which, l.b, l.c, l.d)), x), k);
    Iadd32(Rotl32(t, s), l.e)
  }

  // ---- What the low half of each operation is. ----

  function Low(x: Word): U32 {
    Pow2Values();
    LoBound(x, 32);
    Half(x)
  }

  function LowLine(l: Line<Word>): Line<U32> {
    Line(Low(l.a), Low(l.b), Low(l.c), Low(l.d), Low(l.e))
  }

  lemma {:induction false} LowOps(x: Word, y: Word)
    ensures Low(Band(x, y)) == And32(Low(x), Low(y))
    ensures Low(Bor(x, y)) == Or32(Low(x), Low(y))
    ensures Low(Bxor(x, y)) == Xor32(Low(x), Low(y))
    ensures Low(Bnot(x)) == Not32(Low(x))
  {
    LoOps(x, y, 32);
    LoOps(x, ALL_ONE, 32);
    Pow2Values();
    UpValue(0xFFFF_FFFF, 32);
    JoinedParts(0xFFFF_FFFF, 0xFFFF_FFFF, 32);
    LoBound(x, 32);
    XorOnes(Lo(x, 32), 32);
  }

  lemma LowOfHalves(hi: nat, lo: nat)
    ensures Half(Halves(hi, lo)) == Lo(lo, 32)
  {
    hide Lo, Up;
    Pow2Values();
    LoBound(lo, 32);
    JoinedParts(Lo(hi, 32), Lo(lo, 32), 32);
  }

  lemma LowAdd(x: Word, y: Word)
    ensures Low(Iadd32(x, y)) == Add(Low(x), Low(y))
  {
    LowOfHalves(Hi(x, 32) + Hi(y, 32), Half(x) + Half(y));
  }

  /** Rotating right by the complement is rotating left. */
  lemma RorIsRol(v: U32, s: Rotation)
    ensures Ror(v, 32 - s) == Rol(v, s)
  {
    Pow2Values();
    HiBound(v, 32 - s, 32);
    LoBound(v, 32 - s);
    LoUp(v, s, 32);
    OrDisjoint(Lo(v, 32 - s), Hi(v, 32 - s), s);
  }

  lemma {:induction false} LoUp(x: nat, s: nat, w: nat)
    requires s <= w
    ensures Lo(Up(x, s), w) == Up(Lo(x, w - s), s)
  {
    if s > 0 {
      LoUp(x, s - 1, w - 1);
    }
  }

  lemma LowRotl(x: Word, s: Rotation)
    ensures Low(Rotl32(x, s)) == Rol(Low(x), s)
  {
    LowOfHalves(Ror(Hi(x, 32), 32 - s), Ror(Half(x), 32 - s));
    RorIsRol(Low(x), s);
    Pow2Values();
    LoId(Rol(Low(x), s), 32);
  }

  lemma BitNot32(x: U32, i: nat)
    requires i < 32
    ensures Bit(Not32(x), i) <==> !Bit(x, i)
  {
    Pow2Values();
    BitNot(x, 32, i);
  }

  /** Choosing by a mask, with one gate less than its definition. */
  lemma Chooses(x: U32, y: U32, z: U32)
    ensures Xor32(z, And32(x, Xor32(y, z))) == Or32(And32(x, y), And32(Not32(x), z))
  {
    var l, r := Xor32(z, And32(x, Xor32(y, z))), Or32(And32(x, y), And32(Not32(x), z));
    hide Xor, And, Or;
    forall i: nat | i < 32
      ensures Bit(l, i) == Bit(r, i)
    {
      BitXor(y, z, i);
      BitAnd(x, Xor32(y, z), i);
      BitXor(z, And32(x, Xor32(y, z)), i);
      BitAnd(x, y, i);
      BitNot32(x, i);
      BitAnd(Not32(x), z, i);
      BitOr(And32(x, y), And32(Not32(x), z), i);
    }
    Pow2Values();
    Extensional(l, r, 32);
  }

  lemma Symmetric(x: U32, y: U32)
    ensures Xor32(x, y) == Xor32(y, x) && And32(x, y) == And32(y, x)
  {
    hide Xor, And;
    forall i: nat | i < 32
      ensures Bit(Xor32(x, y), i) == Bit(Xor32(y, x), i) && Bit(And32(x, y), i) == Bit(And32(y, x), i)
    {
      BitOps(x, y, i);
      BitOps(y, x, i);
    }
    Pow2Values();
    Extensional(Xor32(x, y), Xor32(y, x), 32);
    Extensional(And32(x, y), And32(y, x), 32);
  }

  lemma LowSelect(which: nat, x: Word, y: Word, z: Word)
    ensures Low(Select(which, x, y, z)) == RefSelect(which, Low(x), Low(y), Low(z))
  {
    hide Low, Band, Bor, Bxor, Bnot, And32, Or32, Xor32, Not32;
    if which == 0 {
      LowOps(x, y);
      LowOps(Bxor(x, y), z);
    } else if which == 1 {
      LowOps(y, z);
      LowOps(x, Bxor(y, z));
      LowOps(z, Band(x, Bxor(y, z)));
      Chooses(Low(x), Low(y), Low(z));
    } else if which == 2 {
      LowOps(y, y);
      LowOps(x, Bnot(y));
      LowOps(Bor(x, Bnot(y)), z);
    } else if which == 3 {
      LowOps(x, y);
      LowOps(z, Bxor(x, y));
      LowOps(y, Band(z, Bxor(x, y)));
      Chooses(Low(z), Low(x), Low(y));
      Symmetric(Low(z), Low(x));
      Symmetric(Not32(Low(z)), Low(y));
    } else {
      LowOps(z, z);
      LowOps(y, Bnot(z));
      LowOps(x, Bor(y, Bnot(z)));
    }
  }

  /** One round: whatever the upper halves hold, the low halves take the round of the hash function. */
  lemma {:induction false} LowRound(which: nat, l: Line<Word>, x: Word, s: Rotation, k: U32)
    ensures LowLine(Line(l.e, Round(which, l, x, s, k), l.b, Rotl32(l.c, 10), l.d))
         == RefRound(LowLine(l), which, Low(x), s, k)
  {
    hide Low, Select, RefSelect, Iadd32, Add, Rotl32, Rol;
    var f := Select(which, l.b, l.c, l.d);
    LowSelect(which, l.b, l.c, l.d);
    LowAdd(l.a, f);
    LowAdd(Iadd32(l.a, f), x);
    LowAdd(Iadd32(Iadd32(l.a, f), x), k);
    LowConstant(k);
    var t := Iadd32(Iadd32(Iadd32(l.a, f), x), k);
    LowRotl(t, s);
    LowAdd(Rotl32(t, s), l.e);
    LowRotl(l.c, 10);
  }

  lemma LowConstant(k: U32)
    ensures Low(k) == k
  {
    Pow2Values();
    LoId(k, 32);
  }

  function LowSeq(ws: seq<Word>): (us: seq<U32>)
    ensures |us| == |ws|
  {
    seq(|ws|, i requires 0 <= i < |ws| => Low(ws[i]))
  }

  /** A combined and cleared output wire. */
  function Output(x: Word, y: Word, z: Word): Word {
    ClearHighBits(Iadd32(Iadd32(x, y), z), 32)
  }

  lemma OutputIsSum(x: Word, y: Word, z: Word)
    ensures Output(x, y, z) == Add(Add(Low(x), Low(y)), Low(z))
  {
    hide Iadd32, Add;
    LowAdd(x, y);
    LowAdd(Iadd32(x, y), z);
    ClearHighBitsKeepsLow(Iadd32(Iadd32(x, y), z), 32);
  }

  /** Round `round` of a line on wires: the variables move on by one. */
  method LineRound(t: LineTables, l: Line<Word>, block: seq<Word>, round: nat) returns (l': Line<Word>)
    requires |block| == 16 && round < 80
    ensures LowLine(l') == RefRound(LowLine(l), t.Which(round), LowSeq(block)[t.z[round]], t.s[round], t.k[round / 16])
  {
    hide RefRound, Round, Rotl32, Low;
    var newB := Round(t.Which(round), l, block[t.z[round]], t.s[round], t.k[round / 16]);
    LowRound(t.Which(round), l, block[t.z[round]], t.s[round], t.k[round / 16]);
    l' := Line(l.e, newB, l.b, Rotl32(l.c, 10), l.d);
  }

  /** One block: eighty rounds of both lines. The output has clean upper halves and is the hash
      function's compression of the low halves. */
  method Compress(state: Line<Word>, block: seq<Word>) returns (out: Line<Word>)
    requires |block| == 16
    ensures out == RefCompress(LowLine(state), LowSeq(block))
  {
    hide RefRound, Round, Rotl32, Low, Output, Add;
    var left, right := state, state;
    ghost var h, words := LowLine(state), LowSeq(block);
    for round := 0 to 80
      invariant LowLine(left) == RefLine(LEFT, h, words, round)
      invariant LowLine(right) == RefLine(RIGHT, h, words, round)
    {
      left := LineRound(LEFT, left, block, round);
      right := LineRound(RIGHT, right, block, round);
    }
    OutputIsSum(state.b, left.c, right.d);
    OutputIsSum(state.c, left.d, right.e);
    OutputIsSum(state.d, left.e, right.a);
    OutputIsSum(state.e, left.a, right.b);
    OutputIsSum(state.a, left.b, right.c);
    out := Line(Output(state.b, left.c, right.d), Output(state.c, left.d, right.e), Output(state.d, left.e, right.a),
                Output(state.e, left.a, right.b), Output(state.a, left.b, right.c));
  }

  // ---- Padding. ----

  /** How many blocks a message of `len` bytes takes: it, the delimiter and the length field. */
  function BlockCount(len: nat): (n: nat)
    ensures len + 9 <= 64 * n < len + 9 + 64
  {
    (len + 9 + 63) / 64
  }

  /** The padded message as the hash function defines it: the message, a one bit, zeros up to eight
      bytes before the end of a block, and the bit length, the lowest byte first. */
  function PaddedByte(message: seq<byte>, p: nat): byte {
    var len := |message|;
    var lengthField := 64 * BlockCount(len) - 8;
    if p < len then message[p]
    else if p == len then 0x80
    else if lengthField <= p < lengthField + 8 then LengthByte(8 * len, p - lengthField)
    else 0
  }

  function LengthByte(bits: nat, i: nat): byte {
    LoBound(Hi(bits, 8 * i), 8);
    Lo(Hi(bits, 8 * i), 8)
  }

  /** Byte `p` of a message held four bytes to a wire. */
  function WireByte(message: seq<Word>, p: nat): byte
    requires p / 4 < |message|
  {
    Byte(message[p / 4], p % 4)
  }

  function MessageBytes(message: seq<Word>, len: nat): (bs: seq<byte>)
    requires |message| == (len + 3) / 4
    ensures |bs| == len
  {
    seq(len, p requires 0 <= p < len => WireByte(message, p))
  }

  /** The padded message on wires: whole words, the boundary word or the delimiter, zeros, the length. */
  method Pad(message: seq<Word>, len: nat) returns (padded: seq<Word>)
    requires |message| == (len + 3) / 4 && 8 * len <= 0xFFFF_FFFF
    ensures |padded| == 16 * BlockCount(len)
    ensures forall k :: 0 <= k < |padded| ==> padded[k] == PaddedWire(message, len, k)
  {
    var nPadded := 16 * BlockCount(len);
    var whole, boundary := len / 4, len % 4;
    padded := message[..whole];
    if boundary > 0 {
      BoundaryMask(boundary);
      padded := padded + [Bxor(Band(message[whole], Pow2(8 * boundary) - 1), Shl(0x80, 8 * boundary))];
    } else {
      padded := padded + [0x80];
    }
    padded := padded + seq(nPadded - 2 - |padded|, _ => 0);
    padded := padded + [8 * len, 0];
  }

  lemma BoundaryMask(boundary: nat)
    requires boundary < 4
    ensures Pow2(8 * boundary) <= 0x100_0000
  {
    Pow2Add(16, 8);
    Pow2Values();
    Pow2Mono(8 * boundary, 24);
  }

  /** Wire `k` of the padded message. */
  function PaddedWire(message: seq<Word>, len: nat, k: nat): Word
    requires |message| == (len + 3) / 4 && k < 16 * BlockCount(len) && 8 * len <= 0xFFFF_FFFF
  {
    var whole, boundary := len / 4, len % 4;
    if k < whole then message[k]
    else if k == whole then
      BoundaryMask(boundary);
      if boundary > 0 then Bxor(Band(message[whole], Pow2(8 * boundary) - 1), Shl(0x80, 8 * boundary)) else 0x80
    else if k == 16 * BlockCount(len) - 2 then 8 * len
    else 0
  }

  // ---- The padded wires spell out the padded bytes. ----

  lemma OneByte(b: byte, j: nat)
    ensures Byte(b, j) == if j == 0 then b else 0
  {
    PackedByte([b], j);
    assert Pack([b]) == b + 256 * Pack([]);
  }

  lemma LengthBytes(bits: U32, j: nat)
    requires j >= 4
    ensures LengthByte(bits, j) == 0
  {
    Pow2Values();
    HiBound(bits, 32, 32);
    HiHi(bits, 32, 8 * j - 32);
    HiBound(0, 8 * j - 32, 0);
    LoId(0, 8);
  }

  /** The boundary wire keeps its message bytes, then holds the delimiter. */
  lemma BoundaryByte(w: Word, b: nat, j: nat)
    requires 0 < b < 4 && j < 4
    ensures Pow2(8 * b) <= 0x100_0000
    ensures Byte(Bxor(Band(w, Pow2(8 * b) - 1), Shl(0x80, 8 * b)), j)
            == if j < b then Byte(w, j) else if j == b then 0x80 else 0
  {
    BoundaryMask(b);
    hide Byte, Band, Shl, Bxor;
    var masked, delimiter := Band(w, Pow2(8 * b) - 1), Shl(0x80, 8 * b);
    ByteMask(w, b, j);
    ByteShl(0x80, b, j);
    if j >= b {
      OneByte(0x80, j - b);
    }
    ByteXor(masked, delimiter, j);
  }

  /** Each of the four low bytes of each padded wire is the padded message's. */
  lemma PaddedWireByte(message: seq<Word>, len: nat, k: nat, j: nat)
    requires |message| == (len + 3) / 4 && k < 16 * BlockCount(len) && 8 * len <= 0xFFFF_FFFF && j < 4
    ensures Byte(PaddedWire(message, len, k), j) == PaddedByte(MessageBytes(message, len), 4 * k + j)
  {
    hide Byte, BlockCount;
    var whole, boundary, p := len / 4, len % 4, 4 * k + j;
    var bytes := MessageBytes(message, len);
    assert p / 4 == k && p % 4 == j;
    assert p < len ==> bytes[p] == Byte(message[k], j);
    if k == whole && boundary > 0 {
      BoundaryByte(message[whole], boundary, j);
    } else if k == whole {
      OneByte(0x80, j);
    } else if k > whole {
      OneByte(0, j);
      if k == 16 * BlockCount(len) - 2 {
        LengthIsByte(8 * len, j);
      } else if k == 16 * BlockCount(len) - 1 {
        LengthBytes(8 * len, 4 + j);
      }
    }
  }

  lemma LengthIsByte(bits: U32, j: nat)
    ensures LengthByte(bits, j) == Byte(bits, j)
  {
  }

  /** The low half of a wire is its four low bytes. */
  lemma LowIsFourBytes(w: Word)
    ensures Low(w) == Pack([Byte(w, 0), Byte(w, 1), Byte(w, 2), Byte(w, 3)])
  {
    hide Lo, Hi, Up;
    ZeroPlaces(w);
    LoSplit(w, 8, 24);
    LoSplit(Hi(w, 8), 8, 16);
    LoSplit(Hi(Hi(w, 8), 8), 8, 8);
    HiHi(w, 8, 8);
    HiHi(w, 16, 8);
    UpValue(Lo(Hi(w, 8), 24), 8);
    UpValue(Lo(Hi(w, 16), 16), 8);
    UpValue(Lo(Hi(w, 24), 8), 8);
    Pow2Values();
    PackFour(Byte(w, 0), Byte(w, 1), Byte(w, 2), Byte(w, 3));
  }

  lemma PackFour(a: nat, b: nat, c: nat, d: nat)
    requires a < 256 && b < 256 && c < 256 && d < 256
    ensures Pack([a, b, c, d]) == a + 256 * (b + 256 * (c + 256 * d))
  {
    assert [a, b, c, d][1..] == [b, c, d] && [b, c, d][1..] == [c, d] && [c, d][1..] == [d] && [d][1..] == [];
    assert Pack([c, d]) == c + 256 * Pack([d]) && Pack([d]) == d + 256 * Pack([]);
  }

  /** Word `k` of the padded message of the hash function. */
  function RefWord(message: seq<byte>, k: nat): U32 {
    var bs := [PaddedByte(message, 4 * k), PaddedByte(message, 4 * k + 1), PaddedByte(message, 4 * k + 2),
               PaddedByte(message, 4 * k + 3)];
    PackBound(bs);
    Pow2Values();
    Pack(bs)
  }

  function RefWords(message: seq<byte>): (ws: seq<U32>)
    ensures |ws| == 16 * BlockCount(|message|)
  {
    seq(16 * BlockCount(|message|), k requires 0 <= k < 16 * BlockCount(|message|) => RefWord(message, k))
  }

  /** RIPEMD-160 of a message. */
  function Ripemd160(message: seq<byte>): Line<U32> {
    RefHash(RefWords(message), BlockCount(|message|))
  }

  lemma PaddedIsRef(message: seq<Word>, len: nat, padded: seq<Word>)
    requires |message| == (len + 3) / 4 && 8 * len <= 0xFFFF_FFFF && |padded| == 16 * BlockCount(len)
    requires forall k :: 0 <= k < |padded| ==> padded[k] == PaddedWire(message, len, k)
    ensures LowSeq(padded) == RefWords(MessageBytes(message, len))
  {
    hide Byte, PaddedByte, PaddedWire, BlockCount, MessageBytes, Low;
    var bytes := MessageBytes(message, len);
    forall k: nat | k < |padded|
      ensures LowSeq(padded)[k] == RefWords(bytes)[k]
    {
      LowIsFourBytes(padded[k]);
      PaddedWireByte(message, len, k, 0);
      PaddedWireByte(message, len, k, 1);
      PaddedWireByte(message, len, k, 2);
      PaddedWireByte(message, len, k, 3);
    }
  }

  /** The circuit computes RIPEMD-160 of the message's bytes, whatever lies above the low halves of
      its wires and past its end in the last one. */
  method Ripemd160Fixed(message: seq<Word>, len: nat) returns (digest: Line<Word>)
    requires |message| == (len + 3) / 4 && 8 * len <= 0xFFFF_FFFF
    ensures digest == Ripemd160(MessageBytes(message, len))
  {
    hide RefCompress, RefWord, BlockCount, MessageBytes, PaddedWire, Low;
    var padded := Pad(message, len);
    PaddedIsRef(message, len, padded);
    ghost var words := RefWords(MessageBytes(message, len));
    var nBlocks := BlockCount(len);
    var state: Line<Word> := INITIAL_STATE;
    for i := 0 to nBlocks
      invariant state == RefHash(words, i)
    {
      CleanLine(RefHash(words, i));
      assert LowSeq(padded[16 * i..16 * (i + 1)]) == words[16 * i..16 * (i + 1)];
      state := Compress(state, padded[16 * i..16 * (i + 1)]);
    }
    digest := state;
  }

  lemma CleanLine(l: Line<U32>)
    ensures LowLine(l) == l
  {
    LowConstant(l.a);
    LowConstant(l.b);
    LowConstant(l.c);
    LowConstant(l.d);
    LowConstant(l.e);
  }
}
