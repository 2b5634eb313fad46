/** The prover-side hint that proposes a concatenation, and why the constraints accept it. */
module ConcatHint {
  import opened Bits
  import opened Words
  import opened Bytes
  import opened FixedByteVec
  import opened Concat

  /** Words taken by the first `i` inputs of the hint. */
  function Start(dimensions: seq<nat>, i: nat): nat
    requires i <= |dimensions|
  {
    if i == 0 then 0 else Start(dimensions, i - 1) + dimensions[i - 1]
  }

  lemma {:induction false} StartMono(dimensions: seq<nat>, i: nat, k: nat)
    requires i <= k <= |dimensions|
    ensures Start(dimensions, i) <= Start(dimensions, k)
  {
    if i < k {
      StartMono(dimensions, i, k - 1);
    }
  }

  /** Bytes input `i` contributes: its length wire, capped at its capacity. */
  function Taken(dimensions: seq<nat>, inputs: seq<Word>, i: nat): nat
    requires i < |dimensions| && |inputs| == Start(dimensions, |dimensions|) + |dimensions|
  {
    var len := inputs[Start(dimensions, |dimensions|) + i];
    if len < 8 * dimensions[i] then len else 8 * dimensions[i]
  }

  /** What the hint proposes: the inputs' byte prefixes joined. */
  function Proposed(dimensions: seq<nat>, inputs: seq<Word>, i: nat): seq<byte>
    requires i <= |dimensions| && |inputs| == Start(dimensions, |dimensions|) + |dimensions|
  {
    if i == 0 then []
    else
      StartMono(dimensions, i, |dimensions|);
      Proposed(dimensions, inputs, i - 1)
      + Take(inputs[Start(dimensions, i - 1)..Start(dimensions, i)], Taken(dimensions, inputs, i - 1))
  }

  lemma {:induction false} ProposedFits(dimensions: seq<nat>, inputs: seq<Word>, i: nat)
    requires i <= |dimensions| && |inputs| == Start(dimensions, |dimensions|) + |dimensions|
    ensures |Proposed(dimensions, inputs, i)| <= 8 * Start(dimensions, i)
  {
    if i > 0 {
      ProposedFits(dimensions, inputs, i - 1);
    }
  }

  /** Byte `p` of the packed output. */
  function PaddedByte(bs: seq<byte>, p: nat): byte {
    if p < |bs| then bs[p] else 0
  }

  /** Word `k` of a byte string packed eight to a word, zero-padded. */
  function PackedWord(bs: seq<byte>, k: nat): Word {
    if 8 * k >= |bs| then 0
    else FromLeBytes(bs[8 * k..if 8 * k + 8 < |bs| then 8 * k + 8 else |bs|])
  }

  lemma PackedWordByte(bs: seq<byte>, k: nat, j: nat)
    requires j < 8
    ensures Byte(PackedWord(bs, k), j) == PaddedByte(bs, 8 * k + j)
  {
    if 8 * k >= |bs| {
      ZeroBytes(j);
    } else {
      PackedByte(bs[8 * k..if 8 * k + 8 < |bs| then 8 * k + 8 else |bs|], j);
    }
  }

  /** Runs the hint: gather each input's bytes behind a cursor, then pack them into the outputs. */
  method Execute(dimensions: seq<nat>, inputs: seq<Word>, outputs: array<Word>)
    requires |inputs| == Start(dimensions, |dimensions|) + |dimensions|
    requires outputs.Length == Start(dimensions, |dimensions|)
    modifies outputs
    ensures forall p: nat :: p < 8 * outputs.Length ==>
      ByteAt(outputs[..], p) == PaddedByte(Proposed(dimensions, inputs, |dimensions|), p)
  {
    var totalData := outputs.Length;
    var bytes := [];
    var cursor := 0;
    for i := 0 to |dimensions|
      invariant cursor == Start(dimensions, i) && bytes == Proposed(dimensions, inputs, i)
    {
      StartMono(dimensions, i + 1, |dimensions|);
      var words := inputs[cursor..cursor + dimensions[i]];
      cursor := cursor + dimensions[i];
      var len := Taken(dimensions, inputs, i);
      bytes := bytes + Take(words, len);
    }
    ProposedFits(dimensions, inputs, |dimensions|);
    var nChunks := CeilDiv8(|bytes|);
    for k := 0 to nChunks
      invariant forall i :: 0 <= i < k ==> outputs[i] == PackedWord(bytes, i)
    {
      outputs[k] := FromLeBytes(bytes[8 * k..if 8 * k + 8 < |bytes| then 8 * k + 8 else |bytes|]);
    }
    for k := nChunks to outputs.Length
      invariant forall i :: 0 <= i < k ==> outputs[i] == PackedWord(bytes, i)
    {
      outputs[k] := 0;
    }
    forall p: nat | p < 8 * outputs.Length
      ensures ByteAt(outputs[..], p) == PaddedByte(bytes, p)
    {
      PackedWordByte(bytes, p / 8, p % 8);
    }
  }

  /** The hint's inputs, as `Concat` lays them out: every term's words, then every length. */
  function DataWords(terms: seq<ByteVec>, i: nat): (ws: seq<Word>)
    requires i <= |terms|
    ensures |ws| == WordsUpTo(terms, i)
  {
    if i == 0 then [] else DataWords(terms, i - 1) + terms[i - 1].data
  }

  function Dimensions(terms: seq<ByteVec>): seq<nat> {
    seq(|terms|, i requires 0 <= i < |terms| => |terms[i].data|)
  }

  function HintInputs(terms: seq<ByteVec>): seq<Word> {
    DataWords(terms, |terms|) + seq(|terms|, i requires 0 <= i < |terms| => terms[i].lenBytes)
  }

  lemma {:induction false} StartIsWords(terms: seq<ByteVec>, i: nat)
    requires i <= |terms|
    ensures Start(Dimensions(terms), i) == WordsUpTo(terms, i)
  {
    if i > 0 {
      StartIsWords(terms, i - 1);
    }
  }

  lemma {:induction false} WordsPrefix(terms: seq<ByteVec>, i: nat, k: nat)
    requires i <= k <= |terms|
    ensures DataWords(terms, i) <= DataWords(terms, k)
  {
    if i < k {
      WordsPrefix(terms, i, k - 1);
    }
  }

  lemma InputWords(terms: seq<ByteVec>, i: nat)
    requires i < |terms|
    ensures WordsUpTo(terms, i + 1) <= WordsUpTo(terms, |terms|)
    ensures HintInputs(terms)[WordsUpTo(terms, i)..WordsUpTo(terms, i + 1)] == terms[i].data
  {
    var ws, all := DataWords(terms, i + 1), DataWords(terms, |terms|);
    WordsPrefix(terms, i + 1, |terms|);
    assert ws[WordsUpTo(terms, i)..] == terms[i].data;
    assert HintInputs(terms)[..|ws|] == all[..|ws|] == ws;
    assert HintInputs(terms)[WordsUpTo(terms, i)..|ws|] == HintInputs(terms)[..|ws|][WordsUpTo(terms, i)..];
  }

  /** On lengths within range, the hint proposes exactly the joined contents. */
  lemma {:induction false} ProposesJoined(terms: seq<ByteVec>, i: nat)
    requires i <= |terms| && AllInRange(terms)
    ensures |HintInputs(terms)| == Start(Dimensions(terms), |terms|) + |terms|
    ensures Proposed(Dimensions(terms), HintInputs(terms), i) == Joined(terms, i)
  {
    StartIsWords(terms, |terms|);
    if i > 0 {
      ProposesJoined(terms, i - 1);
      StartIsWords(terms, i - 1);
      StartIsWords(terms, i);
      InputWords(terms, i - 1);
      assert terms[i - 1].InRange();
      assert Taken(Dimensions(terms), HintInputs(terms), i - 1) == terms[i - 1].lenBytes;
    }
  }

  /** Completeness: the output the hint proposes always satisfies the constraints. */
  method ConcatWithHint(terms: seq<ByteVec>) returns (sat: bool, result: ByteVec)
    requires AllInRange(terms) && DynamicTermsFit(terms)
    requires 8 * WordsUpTo(terms, |terms|) < 0x1_0000_0000_0000_0000
    ensures sat
    ensures result.InRange() && result.Contents() == Joined(terms, |terms|)
  {
    var n := WordsUpTo(terms, |terms|);
    ProposesJoined(terms, |terms|);
    StartIsWords(terms, |terms|);
    var outputs := new Word[n](_ => 0);
    Execute(Dimensions(terms), HintInputs(terms), outputs);
    SumsOrdered(terms, |terms|);
    assert Take(outputs[..], Offset(terms, |terms|)) == Joined(terms, |terms|);
    sat, result := Concat.Concat(terms, outputs[..]);
  }
}
