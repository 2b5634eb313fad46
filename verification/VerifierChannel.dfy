/** The verifier's side of the channel as a program: each operation takes the verifier's step. */
module VerifierChannel {
  import opened Options
  import opened Bits
  import opened Bytes
  import opened MerkleTree
  import opened MerkleBranch
  import opened MerkleScheme
  import opened MerkleTape
  import opened MerkleChannel

  /** A climb whose siblings are still on the tape: the digest it reaches and what it leaves. */
  ghost function ClimbOnTape<C>(suite: Suite<C>, tape: ByteString, digest: ByteString, index: nat, n: nat):
    Read<ByteString> {
    match ReadMany(tape, suite.digestSize, n)
    case Failed(e) => Failed(e)
    case Got(siblings, rest) => Got(Climb(suite.compress, digest, index, siblings), rest)
  }

  /** The values of the openings still on the tape, after those already received. */
  ghost function ValuesOnTape<C>(suite: Suite<C>, c: Commitment, layerDepth: nat, layer: seq<ByteString>,
                                 indices: seq<nat>, tape: ByteString, received: ByteString): Read<ByteString>
    requires layerDepth <= c.depth && |layer| == Pow2(layerDepth) && Below(indices, Pow2(c.depth))
  {
    match ReadOpenings(suite, c, layerDepth, layer, indices, tape)
    case Failed(e) => Failed(e)
    case Got(openings, rest) => Got(received + Values(openings), rest)
  }

  lemma ClimbNext<C>(suite: Suite<C>, tape: ByteString, digest: ByteString, index: nat, n: nat)
    requires n > 0
    ensures ClimbOnTape(suite, tape, digest, index, n)
         == match ReadBytes(tape, suite.digestSize)
            case Failed(e) => Failed(e)
            case Got(sibling, rest) =>
              ClimbOnTape(suite, rest,
                          if index % 2 == 0 then suite.compress(digest, sibling) else suite.compress(sibling, digest),
                          index / 2, n - 1)
  {
  }

  lemma ClimbDone<C>(suite: Suite<C>, tape: ByteString, digest: ByteString, index: nat)
    ensures ClimbOnTape(suite, tape, digest, index, 0) == Got(digest, tape)
  {
  }

  /** Reading an opening, told by its climb. */
  lemma OpeningOnTape<C>(suite: Suite<C>, c: Commitment, layerDepth: nat, layer: seq<ByteString>, index: nat,
                         tape: ByteString)
    requires layerDepth <= c.depth && |layer| == Pow2(layerDepth) && index < Pow2(c.depth)
    requires |tape| >= c.leafBytes
    ensures Hi(index, c.depth - layerDepth) < |layer|
    ensures var climb := ClimbOnTape(suite, tape[c.leafBytes..], suite.leafHash(tape[..c.leafBytes]), index,
                                     c.depth - layerDepth);
            var read := ReadOpening(suite, c, layerDepth, layer, index, tape);
            && (climb.Failed? ==> read == Read.Failed(climb.failure))
            && (climb.Got? && climb.value != layer[Hi(index, c.depth - layerDepth)] ==>
                  read == Read.Failed(InvalidProof))
            && (climb.Got? && climb.value == layer[Hi(index, c.depth - layerDepth)] ==>
                  read.Got? && read.value.leaf == tape[..c.leafBytes] && read.rest == climb.rest)
  {
    hide ReadMany, Climb;
    HiBound(index, c.depth - layerDepth, c.depth);
  }

  /** Digests still on the tape, after those already read. */
  ghost function DigestsOnTape<C>(suite: Suite<C>, tape: ByteString, count: nat, read: seq<ByteString>):
    Read<seq<ByteString>> {
    match ReadMany(tape, suite.digestSize, count)
    case Failed(e) => Failed(e)
    case Got(ds, rest) => Got(read + ds, rest)
  }

  lemma {:induction false} DigestsNext<C>(suite: Suite<C>, tape: ByteString, count: nat, read: seq<ByteString>)
    ensures count == 0 ==> DigestsOnTape(suite, tape, 0, read) == Got(read, tape)
    ensures DigestsOnTape(suite, tape, count, []) == ReadMany(tape, suite.digestSize, count)
    ensures count > 0 && |tape| < suite.digestSize ==>
              DigestsOnTape(suite, tape, count, read) == Read.Failed(NotEnoughBytes)
    ensures count > 0 && |tape| >= suite.digestSize ==>
              DigestsOnTape(suite, tape, count, read)
              == DigestsOnTape(suite, tape[suite.digestSize..], count - 1, read + [tape[..suite.digestSize]])
  {
    var all := ReadMany(tape, suite.digestSize, count);
    if all.Got? {
      assert [] + all.value == all.value;
      assert read + [] == read;
      if count > 0 {
        assert read + all.value == read + [tape[..suite.digestSize]] + all.value[1..];
      }
    }
  }

  lemma {:induction false} ValuesNext<C>(suite: Suite<C>, c: Commitment, layerDepth: nat, layer: seq<ByteString>,
                                         indices: seq<nat>, tape: ByteString, received: ByteString)
    requires layerDepth <= c.depth && |layer| == Pow2(layerDepth) && Below(indices, Pow2(c.depth)) && indices != []
    ensures var first := ReadOpening(suite, c, layerDepth, layer, indices[0], tape);
            && (first.Failed? ==>
                  ValuesOnTape(suite, c, layerDepth, layer, indices, tape, received) == Read.Failed(first.failure))
            && (first.Got? ==>
                  ValuesOnTape(suite, c, layerDepth, layer, indices, tape, received)
                  == ValuesOnTape(suite, c, layerDepth, layer, indices[1..], first.rest, received + first.value.leaf))
  {
    hide ReadOpening;
    var first := ReadOpening(suite, c, layerDepth, layer, indices[0], tape);
    if first.Got? {
      var others := ReadOpenings(suite, c, layerDepth, layer, indices[1..], first.rest);
      if others.Got? {
        var all := [first.value] + others.value;
        assert all[1..] == others.value;
        assert received + Values(all) == received + first.value.leaf + Values(others.value);
      }
    }
  }

  class Channel<!C> {
    const suite: Suite<C>
    var tape: ByteString
    var challenger: C
    ghost var commitments: seq<Commitment>

    constructor (suite: Suite<C>, tape: ByteString, initial: C)
      ensures this.suite == suite && State() == Verifier(tape, initial, [])
    {
      this.suite, this.tape, challenger, commitments := suite, tape, initial, [];
    }

    ghost function State(): Verifier<C>
      reads this
    {
      Verifier(tape, challenger, commitments)
    }

    /** Reads `n` bytes, observing nothing. */
    method ReadAdvice(n: nat) returns (r: Option<ByteString>)
      modifies this`tape
      ensures match ReadBytes(old(tape), n)
              case Failed(e) => r == None && tape == old(tape)
              case Got(bs, rest) => r == Some(bs) && tape == rest
    {
      if n > |tape| {
        return None;
      }
      r := Some(tape[..n]);
      tape := tape[n..];
    }

    /** Reads a vector of digests. */
    method ReadDigests(count: nat) returns (r: Option<seq<ByteString>>)
      modifies this`tape
      ensures match ReadMany(old(tape), suite.digestSize, count)
              case Failed(e) => r == None && e == NotEnoughBytes
              case Got(ds, rest) => r == Some(ds) && tape == rest
    {
      hide ReadMany, DigestsOnTape;
      var ds := [];
      ghost var start := tape;
      DigestsNext(suite, start, count, ds);
      for i := 0 to count
        invariant |ds| == i
        invariant DigestsOnTape(suite, tape, count - i, ds) == ReadMany(start, suite.digestSize, count)
      {
        DigestsNext(suite, tape, count - i, ds);
        var d := ReadAdvice(suite.digestSize);
        if d == None {
          return None;
        }
        ds := ds + [d.value];
      }
      DigestsNext(suite, tape, 0, ds);
      r := Some(ds);
    }

    method RecvMerkleCommitment(leafSize: nat, depth: nat, ghost data: ByteString) returns (r: Option<Commitment>)
      modifies this
      ensures match VerifierStep(suite, old(State()), Commit(data, leafSize, depth))
              case Rejected(e) => r == None
              case Accepted(s, _) => State() == s && r == Some(commitments[|old(commitments)|])
    {
      var root := ReadAdvice(suite.digestSize);
      if root == None {
        return None;
      }
      challenger := suite.Observe(challenger, root.value);
      r := Some(Commitment(root.value, depth, leafSize * suite.scalarSize));
      commitments := commitments + [r.value];
    }

    /** Climbs `n` levels, taking each sibling off the tape as it goes. */
    method ClimbTape(leafDigest: ByteString, index: nat, n: nat) returns (r: Option<(ByteString, nat)>)
      modifies this`tape
      ensures match ClimbOnTape(suite, old(tape), leafDigest, index, n)
              case Failed(e) => r == None && e == NotEnoughBytes
              case Got(digest, rest) => r == Some((digest, Hi(index, n))) && tape == rest
    {
      hide ClimbOnTape, Hi, ReadMany, Climb;
      var digest, running := leafDigest, index;
      ZeroPlaces(index);
      for i := 0 to n
        invariant running == Hi(index, i)
        invariant ClimbOnTape(suite, tape, digest, running, n - i)
                  == ClimbOnTape(suite, old(tape), leafDigest, index, n)
      {
        ClimbNext(suite, tape, digest, running, n - i);
        var sibling := ReadAdvice(suite.digestSize);
        if sibling == None {
          return None;
        }
        digest := if running % 2 == 0 then suite.compress(digest, sibling.value)
                  else suite.compress(sibling.value, digest);
        HiNext(index, i);
        running := running / 2;
      }
      ClimbDone(suite, tape, digest, running);
      r := Some((digest, running));
    }

    /** Reads one leaf and its siblings, and compares the climb with the layer. */
    method VerifyOpening(c: Commitment, layerDepth: nat, layer: seq<ByteString>, index: nat)
      returns (r: Reply<ByteString>)
      requires layerDepth <= c.depth && |layer| == Pow2(layerDepth) && index < Pow2(c.depth)
      modifies this`tape
      ensures match ReadOpening(suite, c, layerDepth, layer, index, old(tape))
              case Failed(e) => r == Refused(e)
              case Got(opening, rest) => r == Given(opening.leaf) && tape == rest
    {
      hide ClimbOnTape, Hi, ReadMany, Climb;
      var leaf := ReadAdvice(c.leafBytes);
      if leaf == None {
        return Refused(NotEnoughBytes);
      }
      OpeningOnTape(suite, c, layerDepth, layer, index, old(tape));
      hide ReadOpening;
      var top := ClimbTape(suite.leafHash(leaf.value), index, c.depth - layerDepth);
      if top == None {
        return Refused(NotEnoughBytes);
      }
      if top.value.0 != layer[top.value.1] {
        return Refused(InvalidProof);
      }
      r := Given(leaf.value);
    }

    /** Reads and checks the layer once, then every opening against it. */
    method RecvOpenings(c: Commitment, indices: seq<nat>, ghost which: nat) returns (r: Reply<ByteString>)
      requires which < |commitments| && commitments[which] == c && Below(indices, Pow2(c.depth))
      modifies this
      ensures match VerifierStep(suite, old(State()), Open(which, indices))
              case Rejected(e) => r == Refused(e)
              case Accepted(s, event) => State() == s && r.Given? && event == Received(r.value)
    {
      hide ReadMany, FoldToRoot, ReadOpening, ReadOpenings, ValuesOnTape;
      var layerDepth := OptimalVerifyLayer(|indices|, c.depth);
      var digests := ReadDigests(Pow2(layerDepth));
      if digests == None {
        return Refused(NotEnoughBytes);
      }
      var layer := digests.value;
      var top := FoldToRootInPlace(suite.compress, layer, layerDepth);
      if top != c.root {
        return Refused(InvalidProof);
      }
      ghost var start := tape;
      var values := [];
      ValuesAtStart(c, layerDepth, layer, indices, start);
      for i := 0 to |indices|
        invariant State() == old(State()).(tape := tape)
        invariant ValuesOnTape(suite, c, layerDepth, layer, indices[i..], tape, values)
               == ValuesOnTape(suite, c, layerDepth, layer, indices, start, [])
      {
        ValuesNext(suite, c, layerDepth, layer, indices[i..], tape, values);
        assert indices[i..][0] == indices[i] && indices[i..][1..] == indices[i + 1..];
        var leaf := VerifyOpening(c, layerDepth, layer, indices[i]);
        if leaf.Refused? {
          return Refused(leaf.failure);
        }
        values := values + leaf.value;
      }
      ValuesDone(c, layerDepth, layer, tape, values);
      assert indices[|indices|..] == [];
      r := Given(values);
    }

    lemma ValuesAtStart(c: Commitment, layerDepth: nat, layer: seq<ByteString>, indices: seq<nat>, tape: ByteString)
      requires layerDepth <= c.depth && |layer| == Pow2(layerDepth) && Below(indices, Pow2(c.depth))
      ensures indices[0..] == indices
      ensures var start := ValuesOnTape(suite, c, layerDepth, layer, indices, tape, []);
              var read := ReadOpenings(suite, c, layerDepth, layer, indices, tape);
              && (read.Failed? ==> start == Read.Failed(read.failure))
              && (read.Got? ==> start == Got(Values(read.value), read.rest))
    {
      var read := ReadOpenings(suite, c, layerDepth, layer, indices, tape);
      assert read.Got? ==> [] + Values(read.value) == Values(read.value);
    }

    lemma ValuesDone(c: Commitment, layerDepth: nat, layer: seq<ByteString>, tape: ByteString, received: ByteString)
      requires layerDepth <= c.depth && |layer| == Pow2(layerDepth)
      ensures ValuesOnTape(suite, c, layerDepth, layer, [], tape, received) == Got(received, tape)
    {
      assert received + [] == received;
    }

    /** Reads the whole vector and rebuilds the root from it. */
    method RecvCommittedVector(c: Commitment, ghost which: nat) returns (r: Reply<ByteString>)
      requires which < |commitments| && commitments[which] == c && c.leafBytes > 0
      modifies this
      ensures match VerifierStep(suite, old(State()), SendVector(which))
              case Rejected(e) => r == Refused(e)
              case Accepted(s, event) => State() == s && r.Given? && event == Received(r.value)
    {
      hide FoldToRoot, Chunks, Hashes;
      var data := ReadAdvice(c.leafBytes * Pow2(c.depth));
      if data == None {
        return Refused(NotEnoughBytes);
      }
      DivUnique(|data.value|, c.leafBytes, Pow2(c.depth), 0);
      var top := FoldToRootInPlace(suite.compress, Hashes(suite.leafHash, Chunks(data.value, c.leafBytes)), c.depth);
      if top != c.root {
        return Refused(InvalidProof);
      }
      r := Given(data.value);
    }

    /** Reads the nonce as a message and requires the sampled bits to be zero. A failed check still
        moves tape and challenger as a landing nonce would. */
    method VerifyGrind(bits: nat) returns (r: Reply<()>)
      requires bits <= MAX_GRINDING_BITS
      modifies this
      ensures match VerifierStep(suite, old(State()), Grind(bits))
              case Rejected(e) => r == Refused(e)
              case Accepted(s, _) => State() == s && r.Given?
      ensures r == Refused(InsufficientWork) ==>
                && tape == old(tape)[8..] && commitments == old(commitments)
                && challenger == suite.SampleBits(suite.Observe(old(challenger), old(tape)[..8]), bits).1
    {
      if bits == 0 {
        return Given(());
      }
      var nonce := ReadAdvice(8);
      if nonce == None {
        return Refused(NotEnoughBytes);
      }
      var (sampled, c') := suite.SampleBits(suite.Observe(challenger, nonce.value), bits);
      challenger := c';
      r := if sampled != 0 then Refused(InsufficientWork) else Given(());
    }
  }

  datatype Reply<+T> = Given(value: T) | Refused(failure: Failure)
}
