/** In-place transposition of square blocks of scalars spread over packed elements, by a butterfly
    network that trades one bit of the element index for one bit of the lane index per round. */
module Transpose {
  import opened Bits

  /** A scalar's place: the packed element it sits in, and its lane there. */
  datatype Place = Place(elem: nat, lane: nat)

  function Flip(x: nat, b: nat): nat {
    Xor(x, Pow2(b))
  }

  lemma {:induction false} BitPow2(b: nat, i: nat)
    ensures Bit(Pow2(b), i) <==> i == b
  {
    if b == 0 {
      if i > 0 {
        HighBitsClear(0, 0, i - 1);
      }
    } else if i > 0 {
      BitPow2(b - 1, i - 1);
    }
  }

  lemma BitFlip(x: nat, b: nat, i: nat)
    ensures Bit(Flip(x, b), i) <==> (Bit(x, i) != (i == b))
  {
    BitXor(x, Pow2(b), i);
    BitPow2(b, i);
  }

  /** Flipping a bit adds or takes away its weight. */
  lemma {:induction false} FlipValue(x: nat, b: nat)
    ensures Bit(x, b) ==> x >= Pow2(b) && Flip(x, b) == x - Pow2(b)
    ensures !Bit(x, b) ==> Flip(x, b) == x + Pow2(b)
  {
    if b == 0 {
      ZeroOps(x / 2);
    } else {
      FlipValue(x / 2, b - 1);
    }
  }

  lemma FlipBound(x: nat, b: nat, w: nat)
    requires x < Pow2(w) && b < w
    ensures Flip(x, b) < Pow2(w)
  {
    Pow2Mono(b + 1, w);
    OpsBound(x, Pow2(b), w);
  }

  /** Where a round reads from: bit `p` of the element index and bit `q` of the lane trade places. */
  function Trade(y: Place, p: nat, q: nat): Place {
    if Bit(y.elem, p) == Bit(y.lane, q) then y else Place(Flip(y.elem, p), Flip(y.lane, q))
  }

  lemma TradeBits(y: Place, p: nat, q: nat, i: nat)
    ensures Bit(Trade(y, p, q).elem, i) <==> if i == p then Bit(y.lane, q) else Bit(y.elem, i)
    ensures Bit(Trade(y, p, q).lane, i) <==> if i == q then Bit(y.elem, p) else Bit(y.lane, i)
  {
    BitFlip(y.elem, p, i);
    BitFlip(y.lane, q, i);
  }

  predicate InRange(y: Place, logSize: nat, logWidth: nat) {
    y.elem < Pow2(logSize) && y.lane < Pow2(logWidth)
  }

  lemma TradeInRange(y: Place, p: nat, q: nat, logSize: nat, logWidth: nat)
    requires InRange(y, logSize, logWidth) && p < logSize && q < logWidth
    ensures InRange(Trade(y, p, q), logSize, logWidth)
  {
    FlipBound(y.elem, p, logSize);
    FlipBound(y.lane, q, logWidth);
  }

  /** Where the scalar at place `y` after `rounds` rounds came from. */
  function Origin(y: Place, logW: nat, rounds: nat): Place
    decreases rounds
  {
    if rounds == 0 then y else Origin(Trade(y, logW + rounds - 1, rounds - 1), logW, rounds - 1)
  }

  /** The transposed place: the block row, which is the element index above `logW` bits, and the
      block column, which is the low `logN` bits of the lane, are exchanged. */
  function Transposed(y: Place, logN: nat, logW: nat): Place {
    Place(Up(Lo(y.lane, logN), logW) + Lo(y.elem, logW), Up(Hi(y.lane, logN), logN) + Hi(y.elem, logW))
  }

  lemma {:induction false} OriginBits(y: Place, logW: nat, rounds: nat, i: nat)
    ensures Bit(Origin(y, logW, rounds).elem, i) <==>
      if logW <= i < logW + rounds then Bit(y.lane, i - logW) else Bit(y.elem, i)
    ensures Bit(Origin(y, logW, rounds).lane, i) <==>
      if i < rounds then Bit(y.elem, logW + i) else Bit(y.lane, i)
    decreases rounds
  {
    if rounds > 0 {
      var z := Trade(y, logW + rounds - 1, rounds - 1);
      OriginBits(z, logW, rounds - 1, i);
      TradeBits(y, logW + rounds - 1, rounds - 1, i);
      if i < rounds - 1 {
        TradeBits(y, logW + rounds - 1, rounds - 1, logW + i);
      }
      if logW <= i {
        TradeBits(y, logW + rounds - 1, rounds - 1, i - logW);
      }
    }
  }

  lemma {:induction false} OriginInRange(y: Place, logW: nat, rounds: nat, logSize: nat, logWidth: nat)
    requires InRange(y, logSize, logWidth) && logW + rounds <= logSize && rounds <= logWidth
    ensures InRange(Origin(y, logW, rounds), logSize, logWidth)
    decreases rounds
  {
    if rounds > 0 {
      TradeInRange(y, logW + rounds - 1, rounds - 1, logSize, logWidth);
      OriginInRange(Trade(y, logW + rounds - 1, rounds - 1), logW, rounds - 1, logSize, logWidth);
    }
  }

  /** The bits of two numbers joined end to end. */
  lemma JoinedBit(hi: nat, lo: nat, k: nat, i: nat)
    requires lo < Pow2(k)
    ensures Bit(Up(hi, k) + lo, i) <==> if i < k then Bit(lo, i) else Bit(hi, i - k)
  {
    XorDisjoint(hi, lo, k);
    BitXor(Up(hi, k), lo, i);
    BitUp(hi, k, i);
    if i >= k {
      HighBitsClear(lo, k, i);
    }
  }

  lemma TransposedInRange(y: Place, logN: nat, logW: nat, logWidth: nat)
    requires InRange(y, logN + logW, logWidth) && logN <= logWidth
    ensures InRange(Transposed(y, logN, logW), logN + logW, logWidth)
  {
    LoBound(y.lane, logN);
    LoBound(y.elem, logW);
    HiBound(y.elem, logW, logN + logW);
    HiBound(y.lane, logN, logWidth);
    JoinedBound(Lo(y.lane, logN), Lo(y.elem, logW), logW, logN + logW);
    JoinedBound(Hi(y.lane, logN), Hi(y.elem, logW), logN, logWidth);
  }

  /** All the rounds together read from the transposed place. */
  lemma OriginIsTransposed(y: Place, logN: nat, logW: nat, logWidth: nat)
    requires InRange(y, logN + logW, logWidth) && logN <= logWidth
    ensures Origin(y, logW, logN) == Transposed(y, logN, logW)
  {
    var o, t := Origin(y, logW, logN), Transposed(y, logN, logW);
    OriginInRange(y, logW, logN, logN + logW, logWidth);
    TransposedInRange(y, logN, logW, logWidth);
    LoBound(y.elem, logW);
    HiBound(y.elem, logW, logN + logW);
    forall i: nat | i < logN + logW
      ensures Bit(o.elem, i) == Bit(t.elem, i)
    {
      OriginBits(y, logW, logN, i);
      JoinedBit(Lo(y.lane, logN), Lo(y.elem, logW), logW, i);
      BitLo(y.elem, logW, i);
      if i >= logW {
        BitLo(y.lane, logN, i - logW);
      }
    }
    forall i: nat | i < logWidth
      ensures Bit(o.lane, i) == Bit(t.lane, i)
    {
      OriginBits(y, logW, logN, i);
      JoinedBit(Hi(y.lane, logN), Hi(y.elem, logW), logN, i);
      BitHi(y.elem, logW, i);
      if i >= logN {
        BitHi(y.lane, logN, i - logN);
      }
    }
    Extensional(o.elem, t.elem, logN + logW);
    Extensional(o.lane, t.lane, logWidth);
  }

  /** Transposing twice is the identity. */
  lemma TransposedTwice(y: Place, logN: nat, logW: nat, logWidth: nat)
    requires InRange(y, logN + logW, logWidth) && logN <= logWidth
    ensures Transposed(Transposed(y, logN, logW), logN, logW) == y
  {
    var z := Transposed(y, logN, logW);
    TransposedInRange(y, logN, logW, logWidth);
    OriginIsTransposed(y, logN, logW, logWidth);
    OriginIsTransposed(z, logN, logW, logWidth);
    OriginInRange(z, logW, logN, logN + logW, logWidth);
    var o := Origin(z, logW, logN);
    forall i: nat | i < logN + logW
      ensures Bit(o.elem, i) == Bit(y.elem, i)
    {
      OriginBits(z, logW, logN, i);
      OriginBits(y, logW, logN, i);
      if i >= logW {
        OriginBits(y, logW, logN, i - logW);
      }
    }
    forall i: nat | i < logWidth
      ensures Bit(o.lane, i) == Bit(y.lane, i)
    {
      OriginBits(z, logW, logN, i);
      OriginBits(y, logW, logN, i);
      OriginBits(y, logW, logN, logW + i);
    }
    Extensional(o.elem, y.elem, logN + logW);
    Extensional(o.lane, y.lane, logWidth);
  }

  /** Exchanges blocks of 2^i lanes between two packed elements: seen as 2x2 matrices of blocks, the
      pair is transposed. */
  function Interleave<T>(a: seq<T>, b: seq<T>, i: nat): (r: (seq<T>, seq<T>))
    requires |a| == |b| && forall x: nat :: x < |a| && !Bit(x, i) ==> x + Pow2(i) < |a|
    ensures |r.0| == |r.1| == |a|
  {
    assert forall x: nat :: Bit(x, i) ==> x >= Pow2(i) by {
      forall x: nat | Bit(x, i)
        ensures x >= Pow2(i)
      {
        FlipValue(x, i);
      }
    }
    (seq(|a|, x requires 0 <= x < |a| => if Bit(x, i) then b[x - Pow2(i)] else a[x]),
     seq(|a|, x requires 0 <= x < |a| => if Bit(x, i) then b[x] else a[x + Pow2(i)]))
  }

  /** Packed elements of 2^logWidth lanes, 2^logSize of them. */
  ghost predicate Shaped<T>(s: seq<seq<T>>, logSize: nat, logWidth: nat) {
    |s| == Pow2(logSize) && forall e :: 0 <= e < |s| ==> |s[e]| == Pow2(logWidth)
  }

  function At<T>(s: seq<seq<T>>, y: Place): T
    requires y.elem < |s| && y.lane < |s[y.elem]|
  {
    s[y.elem][y.lane]
  }

  /** Element `e` has been through the round that trades bits `p` and `q`. */
  ghost predicate Traded<T>(s: seq<seq<T>>, t: seq<seq<T>>, e: nat, p: nat, q: nat, logSize: nat, logWidth: nat)
    requires Shaped(s, logSize, logWidth) && Shaped(t, logSize, logWidth) && e < Pow2(logSize)
    requires p < logSize && q < logWidth
  {
    forall x: nat :: x < Pow2(logWidth) ==>
      (TradeInRange(Place(e, x), p, q, logSize, logWidth);
       At(t, Place(e, x)) == At(s, Trade(Place(e, x), p, q)))
  }

  lemma LaneStays(x: nat, i: nat, logWidth: nat)
    requires x < Pow2(logWidth) && i < logWidth && !Bit(x, i)
    ensures x + Pow2(i) < Pow2(logWidth)
  {
    FlipValue(x, i);
    FlipBound(x, i, logWidth);
  }

  lemma FlipFlip(x: nat, b: nat)
    ensures Flip(Flip(x, b), b) == x
  {
    BitFlip(x, b, b);
    FlipValue(x, b);
    FlipValue(Flip(x, b), b);
  }

  lemma {:induction false} InterleavedLane<T>(a: seq<T>, b: seq<T>, q: nat, x: nat, logWidth: nat)
    requires |a| == |b| == Pow2(logWidth) && x < |a| && q < logWidth
    requires forall x: nat :: x < |a| && !Bit(x, q) ==> x + Pow2(q) < |a|
    ensures Flip(x, q) < |a|
    ensures Interleave(a, b, q).0[x] == if Bit(x, q) then b[Flip(x, q)] else a[x]
    ensures Interleave(a, b, q).1[x] == if Bit(x, q) then b[x] else a[Flip(x, q)]
  {
    FlipValue(x, q);
    FlipBound(x, q, logWidth);
  }

  /** Interleaving a pair of elements that differ in bit `p` of their index trades that bit for
      bit `q` of the lane in both. */
  lemma {:induction false} PairTraded<T>(s: seq<seq<T>>, t: seq<seq<T>>, e0: nat, e1: nat, p: nat, q: nat,
                                         logSize: nat, logWidth: nat)
    requires Shaped(s, logSize, logWidth) && Shaped(t, logSize, logWidth)
    requires p < logSize && q < logWidth && e0 < Pow2(logSize) && !Bit(e0, p) && e1 == Flip(e0, p) < Pow2(logSize)
    requires forall x: nat :: x < Pow2(logWidth) && !Bit(x, q) ==> x + Pow2(q) < Pow2(logWidth)
    requires t[e0] == Interleave(s[e0], s[e1], q).0 && t[e1] == Interleave(s[e0], s[e1], q).1
    ensures Traded(s, t, e0, p, q, logSize, logWidth) && Traded(s, t, e1, p, q, logSize, logWidth)
  {
    hide Interleave, Flip, Bit;
    BitFlip(e0, p, p);
    FlipFlip(e0, p);
    forall x: nat | x < Pow2(logWidth)
      ensures InRange(Trade(Place(e0, x), p, q), logSize, logWidth)
      ensures InRange(Trade(Place(e1, x), p, q), logSize, logWidth)
      ensures At(t, Place(e0, x)) == At(s, Trade(Place(e0, x), p, q))
      ensures At(t, Place(e1, x)) == At(s, Trade(Place(e1, x), p, q))
    {
      TradeInRange(Place(e0, x), p, q, logSize, logWidth);
      TradeInRange(Place(e1, x), p, q, logSize, logWidth);
      InterleavedLane(s[e0], s[e1], q, x, logWidth);
    }
  }

  lemma OrClear(x: nat, b: nat, w: nat)
    requires !Bit(x, b) && x < Pow2(w) && b < w
    ensures Or(x, Pow2(b)) == Flip(x, b)
  {
    Pow2Mono(b + 1, w);
    OpsBound(x, Pow2(b), w);
    forall i: nat | i < w
      ensures Bit(Or(x, Pow2(b)), i) == Bit(Flip(x, b), i)
    {
      BitOr(x, Pow2(b), i);
      BitFlip(x, b, i);
      BitPow2(b, i);
    }
    Extensional(Or(x, Pow2(b)), Flip(x, b), w);
  }

  /** An index whose bits above and below bit `p` are `j` and `k`. */
  lemma IndexParts(j: nat, k: nat, p: nat, b: nat)
    requires k < Pow2(p) && b < 2
    ensures var e := Up(2 * j + b, p) + k;
            Hi(e, p + 1) == j && Lo(e, p) == k && (Bit(e, p) <==> b == 1)
  {
    var e := Up(2 * j + b, p) + k;
    JoinedParts(2 * j + b, k, p);
    HiHi(e, p, 1);
    assert Hi(2 * j + b, 1) == Hi((2 * j + b) / 2, 0);
    BitHi(e, p, 0);
  }

  lemma OnlyPair(e: nat, p: nat)
    ensures var base := Up(2 * Hi(e, p + 1), p) + Lo(e, p);
            e == base || e == base + Pow2(p)
  {
    Rejoin(e, p);
    HiHi(e, p, 1);
    assert Hi(Hi(e, p), 1) == Hi(Hi(e, p) / 2, 0);
    UpDouble(2 * Hi(e, p + 1), p);
  }

  /** The pair of element indices a round visits at (j, k), and that no other index has these parts. */
  lemma PairIndices(j: nat, k: nat, p: nat, logSize: nat)
    requires p < logSize && k < Pow2(p) && j < Pow2(logSize - p - 1)
    ensures var e0 := Or(Up(j, p + 1), k);
            && e0 < Pow2(logSize) && !Bit(e0, p) && Or(e0, Pow2(p)) == Flip(e0, p) < Pow2(logSize)
            && Hi(e0, p + 1) == Hi(Flip(e0, p), p + 1) == j && Lo(e0, p) == Lo(Flip(e0, p), p) == k
            && forall e: nat :: Hi(e, p + 1) == j && Lo(e, p) == k ==> e == e0 || e == Flip(e0, p)
  {
    hide Bit, Hi, Lo, Flip, Up, Or;
    OrDisjoint(j, k, p + 1);
    var e0 := Up(j, p + 1) + k;
    JoinedBound(j, k, p + 1, logSize);
    UpDouble(j, p);
    UpDouble(2 * j, p);
    IndexParts(j, k, p, 0);
    IndexParts(j, k, p, 1);
    OrClear(e0, p, logSize);
    FlipValue(e0, p);
    FlipBound(e0, p, logSize);
    forall e: nat | Hi(e, p + 1) == j && Lo(e, p) == k
      ensures e == e0 || e == Flip(e0, p)
    {
      OnlyPair(e, p);
    }
  }

  /** The indices whose pair comes before (j, k) in a round's loops. */
  predicate Visited(e: nat, p: nat, j: nat, k: nat) {
    Hi(e, p + 1) < j || (Hi(e, p + 1) == j && Lo(e, p) < k)
  }

  ghost predicate RoundProgress<T>(s: seq<seq<T>>, t: seq<seq<T>>, p: nat, q: nat, j: nat, k: nat, logSize: nat,
                                   logWidth: nat)
    requires Shaped(s, logSize, logWidth) && p < logSize && q < logWidth
  {
    && Shaped(t, logSize, logWidth)
    && forall e: nat :: e < Pow2(logSize) ==>
         if Visited(e, p, j, k) then Traded(s, t, e, p, q, logSize, logWidth) else t[e] == s[e]
  }

  /** Exchanging the pair at (j, k) advances the round by one pair. */
  lemma RoundStep<T>(s: seq<seq<T>>, t: seq<seq<T>>, u: seq<seq<T>>, p: nat, q: nat, j: nat, k: nat, logSize: nat,
                     logWidth: nat)
    requires p < logSize && q < logWidth && k < Pow2(p) && j < Pow2(logSize - p - 1)
    requires Shaped(s, logSize, logWidth) && RoundProgress(s, t, p, q, j, k, logSize, logWidth)
    requires forall x: nat :: x < Pow2(logWidth) && !Bit(x, q) ==> x + Pow2(q) < Pow2(logWidth)
    requires var e0 := Or(Up(j, p + 1), k);
             var e1 := Or(e0, Pow2(p));
             && e0 < Pow2(logSize) && e1 < Pow2(logSize)
             && var (v0, v1) := Interleave(t[e0], t[e1], q);
                u == t[e0 := v0][e1 := v1]
    ensures RoundProgress(s, u, p, q, j, k + 1, logSize, logWidth)
  {
    hide Interleave, Traded, Bit, Hi, Lo, Or, Flip;
    var e0 := Or(Up(j, p + 1), k);
    var e1 := Or(e0, Pow2(p));
    PairIndices(j, k, p, logSize);
    assert t[e0] == s[e0] && t[e1] == s[e1];
    FlipDiffers(e0, p);
    PairTraded(s, u, e0, e1, p, q, logSize, logWidth);
    forall e: nat | e < Pow2(logSize)
      ensures if Visited(e, p, j, k + 1) then Traded(s, u, e, p, q, logSize, logWidth) else u[e] == s[e]
    {
      if e != e0 && e != e1 && Visited(e, p, j, k) {
        TradedSame(s, t, u, e, p, q, logSize, logWidth);
      }
    }
  }

  lemma FlipDiffers(x: nat, b: nat)
    ensures Flip(x, b) != x
  {
    BitFlip(x, b, b);
  }

  lemma TradedSame<T>(s: seq<seq<T>>, t: seq<seq<T>>, u: seq<seq<T>>, e: nat, p: nat, q: nat, logSize: nat,
                      logWidth: nat)
    requires Shaped(s, logSize, logWidth) && Shaped(t, logSize, logWidth) && Shaped(u, logSize, logWidth)
    requires e < Pow2(logSize) && p < logSize && q < logWidth && t[e] == u[e]
    requires Traded(s, t, e, p, q, logSize, logWidth)
    ensures Traded(s, u, e, p, q, logSize, logWidth)
  {
  }

  lemma RoundBegins<T>(s: seq<seq<T>>, p: nat, q: nat, logSize: nat, logWidth: nat)
    requires Shaped(s, logSize, logWidth) && p < logSize && q < logWidth
    ensures RoundProgress(s, s, p, q, 0, 0, logSize, logWidth)
  {
  }

  /** A finished row of pairs is the next row not yet begun. */
  lemma RowDone<T>(s: seq<seq<T>>, t: seq<seq<T>>, p: nat, q: nat, j: nat, logSize: nat, logWidth: nat)
    requires Shaped(s, logSize, logWidth) && p < logSize && q < logWidth
    requires RoundProgress(s, t, p, q, j, Pow2(p), logSize, logWidth)
    ensures RoundProgress(s, t, p, q, j + 1, 0, logSize, logWidth)
  {
    hide Traded;
    forall e: nat | e < Pow2(logSize)
      ensures Visited(e, p, j, Pow2(p)) == Visited(e, p, j + 1, 0)
    {
      LoBound(e, p);
    }
  }

  /** The whole array has been through the round that trades bits `p` and `q`. */
  ghost predicate AllTraded<T>(s: seq<seq<T>>, t: seq<seq<T>>, p: nat, q: nat, logSize: nat, logWidth: nat)
    requires Shaped(s, logSize, logWidth) && Shaped(t, logSize, logWidth) && p < logSize && q < logWidth
  {
    forall e: nat {:trigger t[e]} :: e < Pow2(logSize) ==> Traded(s, t, e, p, q, logSize, logWidth)
  }

  lemma RoundDone<T>(s: seq<seq<T>>, t: seq<seq<T>>, p: nat, q: nat, logSize: nat, logWidth: nat)
    requires Shaped(s, logSize, logWidth) && p < logSize && q < logWidth
    requires RoundProgress(s, t, p, q, Pow2(logSize - p - 1), 0, logSize, logWidth)
    ensures AllTraded(s, t, p, q, logSize, logWidth)
  {
    hide Traded;
    var rows := Pow2(logSize - p - 1);
    forall e: nat | e < Pow2(logSize)
      ensures Visited(e, p, rows, 0)
    {
      HiBound(e, p + 1, logSize);
    }
  }

  /** One round of the butterfly: every pair of elements whose indices differ in bit logW + i. */
  method Round<T>(elems: array<seq<T>>, logN: nat, logW: nat, i: nat, logWidth: nat)
    requires i < logN <= logWidth && Shaped(elems[..], logN + logW, logWidth)
    modifies elems
    ensures Shaped(elems[..], logN + logW, logWidth)
    ensures AllTraded(old(elems[..]), elems[..], logW + i, i, logN + logW, logWidth)
  {
    hide RoundProgress, Traded, Interleave, Bit, Or;
    var p, logSize := logW + i, logN + logW;
    ghost var s := elems[..];
    RoundBegins(s, p, i, logSize, logWidth);
    forall x: nat | x < Pow2(logWidth) && !Bit(x, i)
      ensures x + Pow2(i) < Pow2(logWidth)
    {
      LaneStays(x, i, logWidth);
    }
    for j := 0 to Pow2(logN - i - 1)
      invariant Shaped(elems[..], logSize, logWidth)
      invariant RoundProgress(s, elems[..], p, i, j, 0, logSize, logWidth)
    {
      for k := 0 to Pow2(p)
        invariant Shaped(elems[..], logSize, logWidth)
        invariant RoundProgress(s, elems[..], p, i, j, k, logSize, logWidth)
      {
        PairIndices(j, k, p, logSize);
        var idx0 := Or(Up(j, p + 1), k);
        var idx1 := Or(idx0, Pow2(p));
        ghost var t := elems[..];
        var (v0, v1) := Interleave(elems[idx0], elems[idx1], i);
        elems[idx0] := v0;
        elems[idx1] := v1;
        assert elems[..] == t[idx0 := v0][idx1 := v1];
        RoundStep(s, t, elems[..], p, i, j, k, logSize, logWidth);
      }
      RowDone(s, elems[..], p, i, j, logSize, logWidth);
    }
    RoundDone(s, elems[..], p, i, logSize, logWidth);
  }

  /** After `rounds` rounds, every place holds the scalar of its origin. */
  ghost predicate AfterRounds<T>(s: seq<seq<T>>, t: seq<seq<T>>, logW: nat, rounds: nat, logSize: nat, logWidth: nat)
    requires Shaped(s, logSize, logWidth) && Shaped(t, logSize, logWidth)
    requires logW + rounds <= logSize && rounds <= logWidth
  {
    forall y: Place :: InRange(y, logSize, logWidth) ==>
      (OriginInRange(y, logW, rounds, logSize, logWidth); At(t, y) == At(s, Origin(y, logW, rounds)))
  }

  lemma OneMoreRound<T>(s: seq<seq<T>>, t: seq<seq<T>>, u: seq<seq<T>>, logW: nat, i: nat, logSize: nat, logWidth: nat)
    requires Shaped(s, logSize, logWidth) && Shaped(t, logSize, logWidth) && Shaped(u, logSize, logWidth)
    requires logW + i < logSize && i < logWidth
    requires AfterRounds(s, t, logW, i, logSize, logWidth)
    requires AllTraded(t, u, logW + i, i, logSize, logWidth)
    ensures AfterRounds(s, u, logW, i + 1, logSize, logWidth)
  {
    hide Trade;
    forall y: Place | InRange(y, logSize, logWidth)
      ensures InRange(Origin(y, logW, i + 1), logSize, logWidth)
      ensures At(u, y) == At(s, Origin(y, logW, i + 1))
    {
      TradeInRange(y, logW + i, i, logSize, logWidth);
      OriginInRange(y, logW, i + 1, logSize, logWidth);
      assert Traded(t, u, y.elem, logW + i, i, logSize, logWidth);
      assert At(u, y) == At(t, Trade(y, logW + i, i));
    }
  }

  /** Transposes, in place, every 2^logN by 2^logN block of scalars: the scalar that ends at a place
      comes from the transposed place. */
  method TransposeSquareBlocks<T>(logN: nat, elems: array<seq<T>>, logSize: nat, logWidth: nat)
    requires logN <= logWidth && logN <= logSize && Shaped(elems[..], logSize, logWidth)
    modifies elems
    ensures Shaped(elems[..], logSize, logWidth)
    ensures forall y: Place :: InRange(y, logSize, logWidth) ==>
      (TransposedInRange(y, logN, logSize - logN, logWidth);
       At(elems[..], y) == At(old(elems[..]), Transposed(y, logN, logSize - logN)))
  {
    hide Traded, At;
    var logW := logSize - logN;
    ghost var s := elems[..];
    for i := 0 to logN
      invariant Shaped(elems[..], logSize, logWidth)
      invariant AfterRounds(s, elems[..], logW, i, logSize, logWidth)
    {
      ghost var t := elems[..];
      Round(elems, logN, logW, i, logWidth);
      OneMoreRound(s, t, elems[..], logW, i, logSize, logWidth);
    }
    forall y: Place | InRange(y, logSize, logWidth)
      ensures InRange(Transposed(y, logN, logW), logSize, logWidth)
      ensures At(elems[..], y) == At(s, Transposed(y, logN, logW))
    {
      OriginIsTransposed(y, logN, logW, logWidth);
      OriginInRange(y, logW, logN, logSize, logWidth);
    }
  }

  /** The same permutation in terms of rows, columns and blocks: the scalar of element (r, w) at
      lane j of block i moves to element (j, w), lane r of block i. */
  lemma {:induction false} TransposedByParts(r: nat, w: nat, i: nat, j: nat, logN: nat, logW: nat)
    requires r < Pow2(logN) && w < Pow2(logW)
    ensures Transposed(Place(Up(j, logW) + w, Up(i, logN) + r), logN, logW)
         == Place(Up(r, logW) + w, Up(i, logN) + j)
  {
    var y := Place(Up(j, logW) + w, Up(i, logN) + r);
    JoinedParts(j, w, logW);
    JoinedParts(i, r, logN);
    assert Lo(y.lane, logN) == r && Hi(y.lane, logN) == i;
    assert Lo(y.elem, logW) == w && Hi(y.elem, logW) == j;
  }

  /** The same in terms of the array: what the method promises, element by element and lane by lane. */
  lemma {:induction false} TransposedScalars<T>(s: seq<seq<T>>, t: seq<seq<T>>, logN: nat, logW: nat, logI: nat,
                                                r: nat, w: nat, i: nat, j: nat, e: nat, e': nat, x: nat, x': nat)
    requires |s| == |t| == Pow2(logN + logW)
    requires forall e :: 0 <= e < |s| ==> |s[e]| == |t[e]| == Pow2(logI + logN)
    requires forall y: Place :: InRange(y, logN + logW, logI + logN) ==>
               (TransposedInRange(y, logN, logW, logI + logN);
                At(t, y) == At(s, Transposed(y, logN, logW)))
    requires r < Pow2(logN) && w < Pow2(logW) && i < Pow2(logI) && j < Pow2(logN)
    requires e == Up(j, logW) + w && e' == Up(r, logW) + w && x == Up(i, logN) + r && x' == Up(i, logN) + j
    ensures e < |t| && e' < |s| && x < |t[e]| && x' < |s[e']| && t[e][x] == s[e'][x']
  {
    hide Transposed, Pow2, Up;
    JoinedBound(j, w, logW, logN + logW);
    JoinedBound(r, w, logW, logN + logW);
    JoinedBound(i, r, logN, logI + logN);
    JoinedBound(i, j, logN, logI + logN);
    TransposedByParts(r, w, i, j, logN, logW);
    assert InRange(Place(e, x), logN + logW, logI + logN);
    assert At(t, Place(e, x)) == At(s, Transposed(Place(e, x), logN, logW));
  }
}
