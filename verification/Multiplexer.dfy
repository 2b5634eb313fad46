/** Dynamic selection and rotation of an array of wires, built from two-way selects. */
module Multiplexer {
  import opened Bits
  import opened Words

  /** The input a multiplexer tree over `n` inputs passes for selector `sel`: pairs are decided by
      the low bit, an unpaired last input is carried forward whatever that bit says. */
  function MuxIndex(n: nat, sel: nat): (k: nat)
    requires n > 0
    ensures k < n
  {
    if n == 1 then 0
    else
      var j := MuxIndex((n + 1) / 2, sel / 2);
      if 2 * j + 1 < n then 2 * j + sel % 2 else 2 * j
  }

  /** A selector whose low bits name an input picks that input. */
  lemma {:induction false} MuxIndexInRange(n: nat, sel: nat)
    requires n > 0 && Lo(sel, Log2Ceil(n)) < n
    ensures MuxIndex(n, sel) == Lo(sel, Log2Ceil(n))
  {
    if n > 1 {
      MuxIndexInRange((n + 1) / 2, sel / 2);
    }
  }

  /** The tree picks the input the selector's low bits name if and only if they name one. */
  lemma PicksNamedInput(n: nat, sel: nat)
    requires n > 0
    ensures MuxIndex(n, sel) == Lo(sel, Log2Ceil(n)) <==> Lo(sel, Log2Ceil(n)) < n
  {
    if Lo(sel, Log2Ceil(n)) < n {
      MuxIndexInRange(n, sel);
    }
  }

  /** Among three inputs, selector 3 names none and picks the last. */
  lemma PicksAnother()
    ensures Lo(3, Log2Ceil(3)) == 3 && MuxIndex(3, 3) == 2
  {
    assert Log2Ceil(3) == 1 + Log2Ceil(2) && Log2Ceil(2) == 1 + Log2Ceil(1);
    assert MuxIndex(2, 1) == 1;
  }

  lemma {:induction false} Log2CeilBound(n: nat, b: nat)
    requires n <= Pow2(b)
    ensures Log2Ceil(n) <= b
  {
    if n > 1 {
      Log2CeilBound((n + 1) / 2, b - 1);
    }
  }

  lemma Log2CeilWord(n: nat)
    requires n < 0x1_0000_0000_0000_0000
    ensures Log2Ceil(n) <= 64
  {
    Pow2Values();
    Log2CeilBound(n, 64);
  }

  /** One level of the tree: neighbours are paired off by bit `bitLevel` of the selector. */
  method MuxLevel<T>(current: seq<T>, sel: Word, bitLevel: nat) returns (next: seq<T>, selects: nat)
    requires bitLevel < 64
    ensures |next| == (|current| + 1) / 2 && selects == |current| / 2
    ensures forall k :: 0 <= k < |next| ==>
      next[k] == current[if 2 * k + 1 < |current| && Bit(sel, bitLevel) then 2 * k + 1 else 2 * k]
  {
    var selBit := Shl(sel, 63 - bitLevel);
    ShlTrue(sel, bitLevel);
    var m := |current|;
    next, selects := [], 0;
    for i := 0 to (m + 1) / 2
      invariant |next| == i && selects == if 2 * i <= m then i else m / 2
      invariant forall k {:trigger next[k]} :: 0 <= k < i ==>
        next[k] == current[if 2 * k + 1 < m && Bit(sel, bitLevel) then 2 * k + 1 else 2 * k]
    {
      if 2 * i + 1 < m {
        next := next + [Select(selBit, current[2 * i + 1], current[2 * i])];
        selects := selects + 1;
      } else {
        next := next + [current[2 * i]];
      }
    }
  }

  /** A level halves the tree and consumes one selector bit. */
  lemma MuxStep(n: nat, sel: nat, bitLevel: nat)
    requires Log2Ceil(n) > 0
    ensures n > 1 && Log2Ceil((n + 1) / 2) == Log2Ceil(n) - 1
    ensures var j := MuxIndex((n + 1) / 2, Hi(sel, bitLevel + 1));
            MuxIndex(n, Hi(sel, bitLevel)) == if 2 * j + 1 < n && Bit(sel, bitLevel) then 2 * j + 1 else 2 * j
  {
    BitHi(sel, bitLevel, 0);
    HiHi(sel, bitLevel, 1);
    assert Hi(sel, bitLevel + 1) == Hi(sel, bitLevel) / 2;
  }

  lemma MuxDone(n: nat, sel: nat)
    requires n > 0 && Log2Ceil(n) == 0
    ensures n == 1 && MuxIndex(n, sel) == 0
  {
  }

  lemma NoBits()
    ensures forall s: nat :: !(Lo(s, Log2Ceil(0)) < 0)
  {
  }

  /** Selects one of the inputs by a tree of two-way selects, one level per selector bit. It costs
      one select fewer than there are inputs. An empty input list gives the default wire. */
  method SingleWireMultiplex<T>(inputs: seq<T>, sel: Word, zero: T) returns (out: T, selects: nat)
    requires |inputs| < 0x1_0000_0000_0000_0000
    ensures |inputs| == 0 ==> out == zero && selects == 0
    ensures |inputs| > 0 ==> out == inputs[MuxIndex(|inputs|, sel)] && selects == |inputs| - 1
    ensures Lo(sel, Log2Ceil(|inputs|)) < |inputs| ==> out == inputs[Lo(sel, Log2Ceil(|inputs|))]
  {
    hide MuxIndex, Hi, Lo, Log2Ceil, Bit;
    var n := |inputs|;
    if n == 0 {
      NoBits();
      return zero, 0;
    }
    ZeroPlaces(sel);
    var numSelBits := Log2Ceil(n);
    Log2CeilWord(n);
    var currentLevel := inputs;
    selects := 0;
    for bitLevel := 0 to numSelBits
      invariant |currentLevel| > 0 && selects + |currentLevel| == n
      invariant Log2Ceil(|currentLevel|) == numSelBits - bitLevel
      invariant currentLevel[MuxIndex(|currentLevel|, Hi(sel, bitLevel))] == inputs[MuxIndex(n, sel)]
    {
      var nextLevel, cost := MuxLevel(currentLevel, sel, bitLevel);
      MuxStep(|currentLevel|, sel, bitLevel);
      currentLevel, selects := nextLevel, selects + cost;
    }
    MuxDone(|currentLevel|, Hi(sel, numSelBits));
    out := currentLevel[0];
    if Lo(sel, Log2Ceil(n)) < n {
      MuxIndexInRange(n, sel);
    }
  }

  /** The widths the rotating window must have: `WindowWidth(n, nOut, bit)` before the stage that
      rotates by 2^(bit-1), derived back from the `nOut` positions wanted at the end. */
  function WindowWidth(n: nat, nOut: nat, bit: nat): (w: nat)
    requires nOut <= n
    ensures nOut <= w <= n
  {
    if bit == 0 then nOut
    else
      var w := WindowWidth(n, nOut, bit - 1) + Pow2(bit - 1);
      if w < n then w else n
  }

  /** A position, wrapped around an array of `n`: the remainder. */
  function Wrap(x: nat, n: nat): (r: nat)
    requires n > 0
    ensures r < n
  {
    if x < n then x else Wrap(x - n, n)
  }

  lemma {:induction false} WrapIsRemainder(x: nat, n: nat)
    requires n > 0
    ensures Wrap(x, n) == x % n
  {
    if x < n {
      DivUnique(x, n, 0, x);
    } else {
      WrapIsRemainder(x - n, n);
      var q := (x - n) / n;
      assert n * (q + 1) == n * q + n;
      DivUnique(x, n, q + 1, (x - n) % n);
    }
  }

  /** Reading a window of `len` wires with wrap-around is reading all `n` with wrap-around, when the
      window is wide enough not to wrap or is the whole array. */
  lemma WrapWindow(n: nat, len: nat, done: nat, x: nat)
    requires 0 < len <= n && (x < len || len == n)
    ensures Wrap(done + Wrap(x, len), n) == Wrap(done + x, n)
  {
    if x >= len {
      WrapTwice(n, done, x);
    }
  }

  lemma {:induction false} WrapTwice(n: nat, done: nat, x: nat)
    requires 0 < n
    ensures Wrap(done + Wrap(x, n), n) == Wrap(done + x, n)
  {
    if x >= n {
      WrapTwice(n, done, x - n);
    }
  }

  /** Every position of `next` takes the value `amount` further on in `current`, or its own. */
  ghost predicate Moved<T>(current: seq<T>, next: seq<T>, moved: bool, amount: nat) {
    && |next| <= |current|
    && forall k {:trigger next[k]} :: 0 <= k < |next| ==>
        next[k] == if moved then current[Wrap(k + amount, |current|)] else current[k]
  }

  /** One barrel stage: every position of the shrunken window takes the word `2^bit` further on,
      or its own, by bit `bit` of the shift. */
  method RotateStage<T>(current: seq<T>, shift: Word, bit: nat, width: nat) returns (next: seq<T>)
    requires bit < 64 && width <= |current|
    ensures |next| == width
    ensures Moved(current, next, Bit(shift, bit), Pow2(bit))
  {
    hide Shl, Pow2;
    var shiftBit := Shl(shift, 63 - bit);
    ShlTrue(shift, bit);
    var amount := Pow2(bit);
    next := [];
    for i := 0 to width
      invariant |next| == i
      invariant forall k {:trigger next[k]} :: 0 <= k < i ==>
        next[k] == if Bit(shift, bit) then current[Wrap(k + amount, |current|)] else current[k]
    {
      next := next + [Select(shiftBit, current[Wrap(i + amount, |current|)], current[i])];
    }
  }

  /** The window holds the words rotated left by `done`. */
  ghost predicate Rotated<T>(words: seq<T>, done: nat, current: seq<T>)
    requires |words| > 0
  {
    forall i :: 0 <= i < |current| ==> current[i] == words[Wrap(done + i, |words|)]
  }

  lemma RotateMoreAt<T>(words: seq<T>, done: nat, current: seq<T>, amount: nat, k: nat)
    requires |words| > 0 && Rotated(words, done, current) && 0 < |current| <= |words|
    requires |current| == |words| || k + amount < |current|
    ensures current[Wrap(k + amount, |current|)] == words[Wrap(done + amount + k, |words|)]
  {
    hide Wrap;
    WrapWindow(|words|, |current|, done, k + amount);
    assert done + amount + k == done + (k + amount);
  }

  lemma RotateMore<T>(words: seq<T>, done: nat, current: seq<T>, next: seq<T>, moved: bool, amount: nat)
    requires |words| > 0 && Rotated(words, done, current) && 0 < |current| <= |words|
    requires |next| <= |current| && (|current| == |words| || |next| + amount <= |current|)
    requires Moved(current, next, moved, amount)
    ensures Rotated(words, done + if moved then amount else 0, next)
  {
    var done' := done + if moved then amount else 0;
    forall k | 0 <= k < |next|
      ensures next[k] == words[Wrap(done' + k, |words|)]
    {
      if moved {
        RotateMoreAt(words, done, current, amount, k);
        assert done' + k == done + amount + k;
      } else {
        assert done' + k == done + k;
        assert next[k] == current[k];
      }
    }
  }

  lemma RotateNone<T>(words: seq<T>, width: nat)
    requires 0 < |words| && width <= |words|
    ensures Rotated(words, 0, words[..width])
  {
    forall i | 0 <= i < width
      ensures words[..width][i] == words[Wrap(0 + i, |words|)]
    {
    }
  }

  /** The width of the window before every stage, from the last stage back to the first. */
  method WindowWidths(n: nat, nOut: nat, nBits: nat) returns (widths: seq<nat>)
    requires nOut <= n
    ensures |widths| == nBits + 1
    ensures forall k {:trigger widths[k]} :: 0 <= k <= nBits ==> widths[k] == WindowWidth(n, nOut, k)
  {
    widths := [nOut];
    for bit := 0 to nBits
      invariant |widths| == bit + 1
      invariant forall k {:trigger widths[k]} :: 0 <= k <= bit ==> widths[k] == WindowWidth(n, nOut, k)
    {
      var w := widths[|widths| - 1] + Pow2(bit);
      widths := widths + [if w < n then w else n];
    }
  }

  /** Rotates `words` left by `shift` positions and returns the first `nOut`: one barrel stage per
      bit of the shift, largest first, over a window that shrinks to `nOut`. Only the bits of the
      shift below Log2Ceil(n) count. */
  method RotateLeftDynamic<T>(words: seq<T>, shift: Word, nOut: nat) returns (current: seq<T>)
    requires 0 < |words| < 0x1_0000_0000_0000_0000 && nOut <= |words|
    ensures |current| == nOut && Rotated(words, Lo(shift, Log2Ceil(|words|)), current)
  {
    hide Moved, Rotated, Lo, Log2Ceil, Bit;
    var n := |words|;
    var nBits := Log2Ceil(n);
    Log2CeilWord(n);
    ZeroPlaces(shift);
    var widths := WindowWidths(n, nOut, nBits);
    current := words[..widths[nBits]];
    RotateNone(words, widths[nBits]);
    ghost var done: nat := 0;
    var bit := nBits;
    while bit > 0
      invariant 0 <= bit <= nBits
      invariant |current| == WindowWidth(n, nOut, bit)
      invariant done + Lo(shift, bit) == Lo(shift, nBits)
      invariant Rotated(words, done, current)
    {
      bit := bit - 1;
      var next := RotateStage(current, shift, bit, widths[bit]);
      LoNext(shift, bit);
      RotateMore(words, done, current, next, Bit(shift, bit), Pow2(bit));
      done := done + if Bit(shift, bit) then Pow2(bit) else 0;
      current := next;
    }
  }

  // ---- The rotation as it is documented. ----

  /** The position output `i` is read from, and the one the documentation names. */
  function ReadFrom(n: nat, shift: nat, i: nat): nat
    requires n > 0
  {
    Wrap(Lo(shift, Log2Ceil(n)) + i, n)
  }

  function DocumentedFrom(n: nat, shift: nat, i: nat): nat
    requires n > 0
  {
    Wrap(shift + i, n)
  }

  ghost predicate AsDocumented(n: nat, nOut: nat, shift: nat)
    requires n > 0
  {
    forall i: nat :: i < nOut ==> ReadFrom(n, shift, i) == DocumentedFrom(n, shift, i)
  }

  /** The first `nOut` words are those the documentation names if and only if none is asked for or the
      shift and its low bits agree modulo `n`. */
  lemma AsDocumentedIff(n: nat, nOut: nat, shift: nat)
    requires n > 0
    ensures AsDocumented(n, nOut, shift) <==> nOut == 0 || shift % n == Lo(shift, Log2Ceil(n)) % n
  {
    hide Lo, Log2Ceil, Wrap;
    var low := Lo(shift, Log2Ceil(n));
    WrapIsRemainder(shift, n);
    WrapIsRemainder(low, n);
    if nOut > 0 {
      assert ReadFrom(n, shift, 0) == Wrap(low, n) && DocumentedFrom(n, shift, 0) == Wrap(shift, n);
    }
    if Wrap(low, n) == Wrap(shift, n) {
      forall i: nat | i < nOut
        ensures ReadFrom(n, shift, i) == DocumentedFrom(n, shift, i)
      {
        WrapTwice(n, i, low);
        WrapTwice(n, i, shift);
      }
    }
  }

  /** Every 64-bit shift rotates as documented if and only if the number of words is a power of two, or
      so large that all 64 bits of the shift are read. */
  lemma AlwaysDocumentedIff(n: nat, nOut: nat)
    requires n > 0 && nOut > 0
    ensures (forall shift: Word :: AsDocumented(n, nOut, shift)) <==> n == Pow2(Log2Ceil(n)) || Log2Ceil(n) >= 64
  {
    hide Lo, Log2Ceil, Pow2, AsDocumented;
    var b := Log2Ceil(n);
    Pow2Values();
    if n == Pow2(b) || b >= 64 {
      forall shift: Word
        ensures AsDocumented(n, nOut, shift)
      {
        HiLoValue(shift, b);
        if b >= 64 {
          Pow2Mono(64, b);
          LoId(shift, b);
        } else {
          DivUnique(shift % n, n, 0, shift % n);
        }
        AsDocumentedIff(n, nOut, shift);
      }
    } else {
      Pow2Mono(b, 63);
      var shift: Word := Pow2(b);
      HiLoValue(shift, b);
      DivUnique(shift, shift, 1, 0);
      DivUnique(shift, n, 1, shift - n);
      AsDocumentedIff(n, nOut, shift);
      assert !AsDocumented(n, nOut, shift);
    }
  }

  /** Three words rotated by four: the code starts at word 0, the documentation at word 1. */
  lemma RotatesOtherwise()
    ensures ReadFrom(3, 4, 0) == 0 && DocumentedFrom(3, 4, 0) == 1 && !AsDocumented(3, 1, 4)
  {
    assert Log2Ceil(3) == 1 + Log2Ceil(2) && Log2Ceil(2) == 1 + Log2Ceil(1);
    assert Lo(4, 2) == 2 * Lo(2, 1) && Lo(2, 1) == 2 * Lo(1, 0);
  }
}
