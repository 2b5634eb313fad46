/** Tables of all subset combinations, and the matrix-vector product over GF(2) that looks a whole
    byte of the input up at a time. */
module LinearTransformation {
  import opened Bits

  /** An operation with its neutral element: exclusive or, field addition or field multiplication. */
  datatype Monoid<!T(!new)> = Monoid(unit: T, op: (T, T) -> T) {
    ghost predicate Valid() {
      && (forall a {:trigger op(unit, a)} {:trigger op(a, unit)} :: op(unit, a) == a && op(a, unit) == a)
      && (forall a, b, c :: op(op(a, b), c) == op(a, op(b, c)))
    }

    /** The elements whose bit is set in `mask`, combined in order. */
    function Combined(elems: seq<T>, mask: nat): T {
      if elems == [] then unit
      else
        var n := |elems| - 1;
        var lower := Combined(elems[..n], mask);
        if Bit(mask, n) then op(lower, elems[n]) else lower
    }

    /** All 2^n subset combinations, indexed by subset. */
    function Expanded(elems: seq<T>): (table: seq<T>)
      ensures |table| == Pow2(|elems|)
    {
      seq(Pow2(|elems|), mask requires 0 <= mask < Pow2(|elems|) => Combined(elems, mask))
    }
  }

  lemma {:induction false} CombinedLocal<T(!new)>(m: Monoid<T>, elems: seq<T>, x: nat, y: nat)
    requires forall i: nat :: i < |elems| ==> Bit(x, i) == Bit(y, i)
    ensures m.Combined(elems, x) == m.Combined(elems, y)
  {
    if elems != [] {
      CombinedLocal(m, elems[..|elems| - 1], x, y);
    }
  }

  /** A bit added on top of a smaller number. */
  lemma TopBit(i: nat, k: nat, j: nat)
    requires k < Pow2(i) && j <= i
    ensures Bit(Pow2(i) + k, j) <==> j == i || Bit(k, j)
    ensures !Bit(k, i)
  {
    UpValue(1, i);
    XorDisjoint(1, k, i);
    BitXor(Up(1, i), k, j);
    BitUp(1, i, j);
    HighBitsClear(k, i, i);
  }

  /** One doubling: an entry of the upper half is its lower twin combined with the next element. */
  lemma UpperEntry<T(!new)>(m: Monoid<T>, elems: seq<T>, i: nat, k: nat)
    requires i < |elems| && k < Pow2(i)
    ensures m.Combined(elems[..i + 1], k) == m.Combined(elems[..i], k)
    ensures m.Combined(elems[..i + 1], Pow2(i) + k) == m.op(m.Combined(elems[..i], k), elems[i])
  {
    TopBit(i, k, i);
    assert elems[..i + 1][..i] == elems[..i];
    forall j: nat | j < i
      ensures Bit(Pow2(i) + k, j) == Bit(k, j)
    {
      TopBit(i, k, j);
    }
    CombinedLocal(m, elems[..i], Pow2(i) + k, k);
  }

  /** The table is filled by doubling: each round writes the upper half of a span twice as long. */
  method ExpandSubset<T(!new)>(m: Monoid<T>, elems: seq<T>) returns (expanded: array<T>)
    ensures fresh(expanded) && expanded[..] == m.Expanded(elems)
  {
    hide m.Combined;
    expanded := new T[Pow2(|elems|)](_ => m.unit);
    CombinedNone(m, elems, 0);
    for i := 0 to |elems|
      invariant Pow2(i) <= expanded.Length
      invariant forall mask :: 0 <= mask < Pow2(i) ==> expanded[mask] == m.Combined(elems[..i], mask)
    {
      Pow2Mono(i + 1, |elems|);
      var half := Pow2(i);
      for k := 0 to half
        invariant forall mask :: 0 <= mask < half ==> expanded[mask] == m.Combined(elems[..i], mask)
        invariant forall mask :: 0 <= mask < k ==> expanded[half + mask] == m.op(m.Combined(elems[..i], mask), elems[i])
      {
        expanded[half + k] := m.op(expanded[k], elems[i]);
      }
      forall mask: nat | mask < Pow2(i + 1)
        ensures expanded[mask] == m.Combined(elems[..i + 1], mask)
      {
        UpperEntry(m, elems, i, if mask < half then mask else mask - half);
      }
    }
    assert elems[..|elems|] == elems;
  }

  lemma CombinedNone<T(!new)>(m: Monoid<T>, elems: seq<T>, mask: nat)
    ensures m.Combined(elems[..0], mask) == m.unit
  {
  }

  /** A combination of a concatenation, the upper elements selected by the upper bits. */
  lemma {:induction false} CombinedSplit<T(!new)>(m: Monoid<T>, a: seq<T>, b: seq<T>, x: nat)
    requires m.Valid()
    ensures m.Combined(a + b, x) == m.op(m.Combined(a, x), m.Combined(b, Hi(x, |a|)))
    decreases |b|
  {
    if b == [] {
      assert a + b == a;
    } else {
      var n := |b| - 1;
      assert (a + b)[..|a + b| - 1] == a + b[..n];
      CombinedSplit(m, a, b[..n], x);
      BitHi(x, |a|, n);
    }
  }

  // ---- Exclusive or. ----

  const XOR_MONOID: Monoid<nat> := Monoid(0, (x, y) => Xor(x, y))

  lemma XorMonoidValid()
    ensures XOR_MONOID.Valid()
  {
    forall a
      ensures XOR_MONOID.op(XOR_MONOID.unit, a) == a && XOR_MONOID.op(a, XOR_MONOID.unit) == a
    {
      ZeroOps(a);
    }
    forall a, b, c
      ensures XOR_MONOID.op(XOR_MONOID.op(a, b), c) == XOR_MONOID.op(a, XOR_MONOID.op(b, c))
    {
      XorAssoc(a, b, c);
    }
  }

  // ---- The bytewise table. ----

  type Table = seq<nat>

  function InputByte(x: nat, i: nat): (b: nat)
    ensures b < 256
  {
    LoBound(Hi(x, 8 * i), 8);
    Pow2Values();
    Lo(Hi(x, 8 * i), 8)
  }

  /** One table for every eight columns: the combinations of every subset of them. */
  function Tables(cols: seq<nat>, bytes: nat): (lookup: seq<Table>)
    requires |cols| == 8 * bytes
    ensures |lookup| == bytes
    ensures forall i :: 0 <= i < bytes ==> |lookup[i]| == 256
  {
    Pow2Values();
    seq(bytes, i requires 0 <= i < bytes => XOR_MONOID.Expanded(cols[8 * i..8 * i + 8]))
  }

  /** Builds the tables, filling each by doubling. */
  method New(cols: seq<nat>, bytes: nat) returns (lookup: seq<Table>)
    requires |cols| == 8 * bytes
    ensures lookup == Tables(cols, bytes)
  {
    hide XOR_MONOID.Expanded;
    lookup := [];
    for i := 0 to bytes
      invariant lookup == Tables(cols, bytes)[..i]
    {
      var table := ExpandSubset(XOR_MONOID, cols[8 * i..8 * i + 8]);
      lookup := lookup + [table[..]];
    }
  }

  /** The entries that the first `n` bytes of the input pick, reduced by exclusive or. */
  function Reduced(lookup: seq<Table>, x: nat, n: nat): nat
    requires n <= |lookup| && forall i :: 0 <= i < |lookup| ==> |lookup[i]| == 256
  {
    if n == 0 then 0
    else if n == 1 then lookup[0][InputByte(x, 0)]
    else Xor(Reduced(lookup, x, n - 1), lookup[n - 1][InputByte(x, n - 1)])
  }

  function Transform(lookup: seq<Table>, x: nat): nat
    requires forall i :: 0 <= i < |lookup| ==> |lookup[i]| == 256
  {
    Reduced(lookup, x, |lookup|)
  }

  /** The product of the matrix with the given columns and the vector of bits `x`. */
  function Product(cols: seq<nat>, x: nat): nat {
    XOR_MONOID.Combined(cols, x)
  }

  /** A table entry is the product of its eight columns with its byte of the input. */
  lemma EntryIsProduct(cols: seq<nat>, bytes: nat, x: nat, i: nat)
    requires |cols| == 8 * bytes && i < bytes
    ensures Tables(cols, bytes)[i][InputByte(x, i)] == Product(cols[8 * i..8 * i + 8], Hi(x, 8 * i))
  {
    var y := Hi(x, 8 * i);
    forall j: nat | j < 8
      ensures Bit(Lo(y, 8), j) == Bit(y, j)
    {
      BitLo(y, 8, j);
    }
    CombinedLocal(XOR_MONOID, cols[8 * i..8 * i + 8], Lo(y, 8), y);
  }

  lemma {:induction false} ReducedIsProduct(cols: seq<nat>, bytes: nat, x: nat, n: nat)
    requires |cols| == 8 * bytes && n <= bytes
    ensures Reduced(Tables(cols, bytes), x, n) == Product(cols[..8 * n], x)
  {
    if n > 0 {
      var before, last := cols[..8 * (n - 1)], cols[8 * (n - 1)..8 * n];
      ReducedIsProduct(cols, bytes, x, n - 1);
      EntryIsProduct(cols, bytes, x, n - 1);
      XorMonoidValid();
      CombinedSplit(XOR_MONOID, before, last, x);
      assert before + last == cols[..8 * n];
      ZeroOps(Product(last, Hi(x, 8 * (n - 1))));
    }
  }

  /** The lookup is the matrix-vector product. */
  lemma TransformIsProduct(cols: seq<nat>, bytes: nat, x: nat)
    requires |cols| == 8 * bytes
    ensures Transform(Tables(cols, bytes), x) == Product(cols, x)
  {
    ReducedIsProduct(cols, bytes, x, bytes);
    assert cols[..8 * bytes] == cols;
  }

  lemma {:induction false} XorSwap(a: nat, b: nat, c: nat, d: nat)
    ensures Xor(Xor(a, b), Xor(c, d)) == Xor(Xor(a, c), Xor(b, d))
  {
    XorAssoc(a, b, Xor(c, d));
    XorAssoc(b, c, d);
    XorComm(b, c);
    XorAssoc(c, b, d);
    XorAssoc(a, c, Xor(b, d));
  }

  lemma {:induction false} ProductIsLinear(cols: seq<nat>, x: nat, y: nat)
    ensures Product(cols, Xor(x, y)) == Xor(Product(cols, x), Product(cols, y))
  {
    if cols == [] {
      ZeroOps(0);
    } else {
      var n := |cols| - 1;
      var c, p, q := cols[n], Product(cols[..n], x), Product(cols[..n], y);
      ProductIsLinear(cols[..n], x, y);
      BitXor(x, y, n);
      ZeroOps(c);
      ZeroOps(p);
      ZeroOps(q);
      ZeroOps(Xor(p, q));
      XorSwap(p, if Bit(x, n) then c else 0, q, if Bit(y, n) then c else 0);
    }
  }

  /** The transformation is linear, and sends the `i`th unit vector to the `i`th column. */
  lemma {:induction false} TransformIsLinear(cols: seq<nat>, bytes: nat, x: nat, y: nat)
    requires |cols| == 8 * bytes
    ensures var t := Tables(cols, bytes); Transform(t, Xor(x, y)) == Xor(Transform(t, x), Transform(t, y))
    ensures Transform(Tables(cols, bytes), 0) == 0
    ensures forall i: nat :: i < |cols| ==> Transform(Tables(cols, bytes), Pow2(i)) == cols[i]
  {
    TransformIsProduct(cols, bytes, x);
    TransformIsProduct(cols, bytes, y);
    TransformIsProduct(cols, bytes, Xor(x, y));
    ProductIsLinear(cols, x, y);
    TransformIsProduct(cols, bytes, 0);
    ProductOfZero(cols);
    forall i: nat | i < |cols|
      ensures Transform(Tables(cols, bytes), Pow2(i)) == cols[i]
    {
      TransformIsProduct(cols, bytes, Pow2(i));
      ProductOfUnit(cols, i);
    }
  }

  lemma {:induction false} ProductOfZero(cols: seq<nat>)
    ensures Product(cols, 0) == 0
  {
    if cols != [] {
      ProductOfZero(cols[..|cols| - 1]);
      HighBitsClear(0, 0, |cols| - 1);
    }
  }

  lemma {:induction false} ProductOfUnit(cols: seq<nat>, i: nat)
    requires i < |cols|
    ensures Product(cols, Pow2(i)) == cols[i]
  {
    var n := |cols| - 1;
    UpValue(1, i);
    BitUp(1, i, n);
    if i == n {
      forall j: nat | j < n
        ensures Bit(Pow2(i), j) == Bit(0, j)
      {
        BitUp(1, i, j);
        HighBitsClear(0, 0, j);
      }
      CombinedLocal(XOR_MONOID, cols[..n], Pow2(i), 0);
      ProductOfZero(cols[..n]);
      ZeroOps(cols[n]);
    } else {
      ProductOfUnit(cols[..n], i);
      OneBit(n - i);
    }
  }

  lemma OneBit(j: int)
    requires j > 0
    ensures !Bit(1, j)
  {
    HighBitsClear(0, 0, j - 1);
  }
}
