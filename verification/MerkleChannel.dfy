/** Prover and verifier channels over one proof tape and a Fiat-Shamir challenger. Whatever the
    script of steps, the verifier run on the prover's tape accepts, reads it to the end, draws the
    same challenges and receives the committed leaves. */
module MerkleChannel {
  import opened Options
  import opened Bits
  import opened Bytes
  import opened MerkleTree
  import opened MerkleBranch
  import opened MerkleScheme
  import opened MerkleTape

  /** One step of a protocol, as both sides know it. `which` names an earlier commitment. */
  datatype Step =
    | Commit(data: ByteString, leafSize: nat, depth: nat)
    | Send(message: ByteString)
    | Observe(statement: ByteString)
    | SampleScalar
    | SampleBits(bits: nat)
    | Open(which: nat, indices: seq<nat>)
    | SendVector(which: nat)
    | Grind(bits: nat)

  /** What a side has at the end of a step: the values received, or the challenge drawn. */
  datatype Event = Nothing | Received(values: ByteString) | Scalar(bytes: ByteString) | Word(bits: nat)

  /** A commitment to `data` cut into leaves of `leafSize` scalars. */
  function Cut<C>(suite: Suite<C>, data: ByteString, leafSize: nat, depth: nat): Committed {
    Committed(data, depth, leafSize * suite.scalarSize)
  }

  // ---- The prover. ----

  datatype Prover<C> = Prover(tape: ByteString, challenger: C, commitments: seq<Committed>)

  /** The step meets the prover's preconditions. */
  ghost predicate Provable<C>(suite: Suite<C>, p: Prover<C>, step: Step) {
    match step
    case Commit(data, leafSize, depth) =>
      StrictLog2(leafSize).Some? && leafSize * suite.scalarSize > 0 && Cut(suite, data, leafSize, depth).Valid()
    case Open(which, indices) => which < |p.commitments| && Below(indices, Pow2(p.commitments[which].depth))
    case SendVector(which) => which < |p.commitments|
    case Grind(bits) => bits <= MAX_GRINDING_BITS && (bits > 0 ==> suite.CanGrind(p.challenger, bits))
    case _ => true
  }

  ghost predicate ProverValid<C>(p: Prover<C>) {
    forall i :: 0 <= i < |p.commitments| ==> p.commitments[i].Valid()
  }

  lemma {:induction false} FirstNonce<C>(suite: Suite<C>, c: C, bits: nat, nonce: nat)
    requires nonce < 0x1_0000_0000_0000_0000 && suite.Lands(c, bits, nonce)
    ensures exists n: nat :: suite.IsNonce(c, bits, n)
    decreases nonce
  {
    if m: nat :| m < nonce && suite.Lands(c, bits, m) {
      FirstNonce(suite, c, bits, m);
    } else {
      assert suite.IsNonce(c, bits, nonce);
    }
  }

  ghost function NonceFor<C>(suite: Suite<C>, c: C, bits: nat): (nonce: nat)
    requires suite.CanGrind(c, bits)
    ensures suite.IsNonce(c, bits, nonce)
  {
    var landing: nat :| landing < 0x1_0000_0000_0000_0000 && suite.Lands(c, bits, landing);
    FirstNonce(suite, c, bits, landing);
    var nonce: nat :| suite.IsNonce(c, bits, nonce);
    nonce
  }

  /** A message goes on the tape and is observed; advice only goes on the tape. */
  ghost function WriteMessage<C>(suite: Suite<C>, p: Prover<C>, bs: ByteString): Prover<C> {
    p.(tape := p.tape + bs, challenger := suite.Observe(p.challenger, bs))
  }

  ghost function ProverStep<C>(suite: Suite<C>, p: Prover<C>, step: Step): (r: (Prover<C>, Event))
    requires ProverValid(p) && Provable(suite, p, step)
    ensures ProverValid(r.0)
  {
    match step
    case Commit(data, leafSize, depth) =>
      var c := Cut(suite, data, leafSize, depth);
      (WriteMessage(suite, p, c.Root(suite)).(commitments := p.commitments + [c]), Nothing)
    case Send(message) => (WriteMessage(suite, p, message), Received(message))
    case Observe(statement) => (p.(challenger := suite.Observe(p.challenger, statement)), Nothing)
    case SampleScalar =>
      var (bs, c') := suite.Sample(p.challenger, suite.scalarSize);
      (p.(challenger := c'), Scalar(bs))
    case SampleBits(bits) =>
      var (w, c') := suite.SampleBits(p.challenger, bits);
      (p.(challenger := c'), Word(w))
    case Open(which, indices) =>
      (p.(tape := p.tape + MultiOpenBytes(suite, p.commitments[which], indices)),
       Received(LeafValues(p.commitments[which], indices)))
    case SendVector(which) =>
      (p.(tape := p.tape + p.commitments[which].data), Received(p.commitments[which].data))
    case Grind(bits) =>
      if bits == 0 then (p, Nothing)
      else
        var p' := WriteMessage(suite, p, LeBytes(NonceFor(suite, p.challenger, bits), 8));
        (p'.(challenger := suite.SampleBits(p'.challenger, bits).1), Nothing)
  }

  // ---- The verifier. ----

  datatype Verifier<C> = Verifier(tape: ByteString, challenger: C, commitments: seq<Commitment>)

  datatype Verdict<C> = Accepted(state: Verifier<C>, event: Event) | Rejected(failure: Failure)

  /** The step meets the verifier's preconditions, which do not concern the tape. */
  predicate Verifiable<C>(v: Verifier<C>, step: Step) {
    match step
    case Open(which, indices) => which < |v.commitments| && Below(indices, Pow2(v.commitments[which].depth))
    case SendVector(which) => which < |v.commitments| && v.commitments[which].leafBytes > 0
    case Grind(bits) => bits <= MAX_GRINDING_BITS
    case _ => true
  }

  function VerifierStep<C>(suite: Suite<C>, v: Verifier<C>, step: Step): Verdict<C>
    requires Verifiable(v, step)
  {
    match step
    case Commit(data, leafSize, depth) =>
      (match ReadBytes(v.tape, suite.digestSize)
       case Failed(e) => Rejected(e)
       case Got(root, rest) =>
         Accepted(Verifier(rest, suite.Observe(v.challenger, root),
                           v.commitments + [Commitment(root, depth, leafSize * suite.scalarSize)]), Nothing))
    case Send(message) =>
      (match ReadBytes(v.tape, |message|)
       case Failed(e) => Rejected(e)
       case Got(bs, rest) => Accepted(v.(tape := rest, challenger := suite.Observe(v.challenger, bs)), Received(bs)))
    case Observe(statement) => Accepted(v.(challenger := suite.Observe(v.challenger, statement)), Nothing)
    case SampleScalar =>
      var (bs, c') := suite.Sample(v.challenger, suite.scalarSize);
      Accepted(v.(challenger := c'), Scalar(bs))
    case SampleBits(bits) =>
      var (w, c') := suite.SampleBits(v.challenger, bits);
      Accepted(v.(challenger := c'), Word(w))
    case Open(which, indices) =>
      (match ReadMultiOpen(suite, v.commitments[which], indices, v.tape)
       case Failed(e) => Rejected(e)
       case Got((layer, openings), rest) => Accepted(v.(tape := rest), Received(Values(openings))))
    case SendVector(which) =>
      (match ReadVector(suite, v.commitments[which], v.tape)
       case Failed(e) => Rejected(e)
       case Got(data, rest) => Accepted(v.(tape := rest), Received(data)))
    case Grind(bits) =>
      if bits == 0 then Accepted(v, Nothing)
      else
        (match ReadBytes(v.tape, 8)
         case Failed(e) => Rejected(e)
         case Got(nonce, rest) =>
           var (sampled, c') := suite.SampleBits(suite.Observe(v.challenger, nonce), bits);
           if sampled != 0 then Rejected(InsufficientWork)
           else Accepted(v.(tape := rest, challenger := c'), Nothing))
  }

  // ---- The two together. ----

  /** The verifier stands where the prover stood, with `rest` of the tape still to read. */
  ghost predicate InStep<C>(suite: Suite<C>, p: Prover<C>, v: Verifier<C>)
    requires ProverValid(p)
  {
    && v.challenger == p.challenger && |v.commitments| == |p.commitments|
    && forall i :: 0 <= i < |p.commitments| ==> v.commitments[i] == CommitmentTo(suite, p.commitments[i])
  }

  /** What the prover appends to the tape in one step. */
  ghost function Written<C>(suite: Suite<C>, p: Prover<C>, step: Step): ByteString
    requires ProverValid(p) && Provable(suite, p, step)
  {
    match step
    case Commit(data, leafSize, depth) => Cut(suite, data, leafSize, depth).Root(suite)
    case Send(message) => message
    case Open(which, indices) => MultiOpenBytes(suite, p.commitments[which], indices)
    case SendVector(which) => p.commitments[which].data
    case Grind(bits) => if bits == 0 then [] else LeBytes(NonceFor(suite, p.challenger, bits), 8)
    case _ => []
  }

  lemma RootSize<C>(suite: Suite<C>, c: Committed)
    requires suite.Valid() && c.Valid()
    ensures |c.Root(suite)| == suite.digestSize
  {
    DigestSize(suite, c.LeafDigests(suite), c.depth, c.depth, 0);
  }

  /** One step: the verifier accepts what the prover wrote, consumes exactly it, and both stay in
      step with the same event. */
  lemma {:induction false} StepAccepted<C>(suite: Suite<C>, p: Prover<C>, v: Verifier<C>, step: Step, rest: ByteString)
    requires suite.Valid() && ProverValid(p) && Provable(suite, p, step) && InStep(suite, p, v)
    requires v.tape == Written(suite, p, step) + rest
    ensures var (p', event) := ProverStep(suite, p, step);
            && p'.tape == p.tape + Written(suite, p, step)
            && Verifiable(v, step)
            && VerifierStep(suite, v, step).Accepted?
            && var (v', event') := (VerifierStep(suite, v, step).state, VerifierStep(suite, v, step).event);
               v'.tape == rest && event' == event && InStep(suite, p', v')
  {
    hide ReadMultiOpen, MultiOpenBytes, LeafValues, ReadVector;
    ReadBytesBack(Written(suite, p, step), rest);
    match step
    case Commit(data, leafSize, depth) =>
      RootSize(suite, Cut(suite, data, leafSize, depth));
    case Open(which, indices) =>
      MultiOpenReadBack(suite, p.commitments[which], indices, rest);
    case SendVector(which) =>
      VectorReadBack(suite, p.commitments[which], rest);
    case _ =>
  }

  // ---- Whole scripts. ----

  ghost predicate Script<C>(suite: Suite<C>, p: Prover<C>, steps: seq<Step>)
    requires ProverValid(p)
    decreases |steps|
  {
    steps == [] || (Provable(suite, p, steps[0]) && Script(suite, ProverStep(suite, p, steps[0]).0, steps[1..]))
  }

  ghost function ProverRun<C>(suite: Suite<C>, p: Prover<C>, steps: seq<Step>): (Prover<C>, seq<Event>)
    requires ProverValid(p) && Script(suite, p, steps)
    decreases |steps|
  {
    if steps == [] then (p, [])
    else
      var (p', event) := ProverStep(suite, p, steps[0]);
      var (end, events) := ProverRun(suite, p', steps[1..]);
      (end, [event] + events)
  }

  datatype Outcome<C> = Finished(state: Verifier<C>, events: seq<Event>) | Stopped(failure: Failure) | BadStep

  function VerifierRun<C>(suite: Suite<C>, v: Verifier<C>, steps: seq<Step>): Outcome<C>
    decreases |steps|
  {
    if steps == [] then Finished(v, [])
    else if !Verifiable(v, steps[0]) then BadStep
    else
      match VerifierStep(suite, v, steps[0])
      case Rejected(e) => Stopped(e)
      case Accepted(v', event) =>
        match VerifierRun(suite, v', steps[1..])
        case Finished(end, events) => Finished(end, [event] + events)
        case failed => failed
  }

  /** What the prover appends to the tape over a script. */
  ghost function WrittenBy<C>(suite: Suite<C>, p: Prover<C>, steps: seq<Step>): ByteString
    requires ProverValid(p) && Script(suite, p, steps)
    decreases |steps|
  {
    if steps == [] then []
    else Written(suite, p, steps[0]) + WrittenBy(suite, ProverStep(suite, p, steps[0]).0, steps[1..])
  }

  lemma StepWrites<C>(suite: Suite<C>, p: Prover<C>, step: Step)
    requires ProverValid(p) && Provable(suite, p, step)
    ensures ProverStep(suite, p, step).0.tape == p.tape + Written(suite, p, step)
  {
    hide MultiOpenBytes, LeafValues;
  }

  lemma {:induction false} RunWrites<C>(suite: Suite<C>, p: Prover<C>, steps: seq<Step>)
    requires ProverValid(p) && Script(suite, p, steps)
    ensures ProverRun(suite, p, steps).0.tape == p.tape + WrittenBy(suite, p, steps)
    decreases |steps|
  {
    hide ProverStep, Written, Provable;
    if steps != [] {
      StepWrites(suite, p, steps[0]);
      RunWrites(suite, ProverStep(suite, p, steps[0]).0, steps[1..]);
    }
  }

  /** From wherever both sides stand: the verifier, given what the prover goes on to write, accepts
      every step, reads exactly that much, and sees the prover's events. */
  lemma {:induction false} RunAccepted<C>(suite: Suite<C>, p: Prover<C>, v: Verifier<C>, steps: seq<Step>,
                                          rest: ByteString)
    requires suite.Valid() && ProverValid(p) && Script(suite, p, steps) && InStep(suite, p, v)
    requires v.tape == WrittenBy(suite, p, steps) + rest
    ensures var (end, events) := ProverRun(suite, p, steps);
            var outcome := VerifierRun(suite, v, steps);
            && outcome.Finished? && outcome.state.tape == rest && outcome.events == events
            && outcome.state.challenger == end.challenger
    decreases |steps|
  {
    hide ProverStep, VerifierStep, Written, Provable, Verifiable;
    if steps == [] {
      assert v.tape == rest;
    } else {
      var p' := ProverStep(suite, p, steps[0]).0;
      var tail := WrittenBy(suite, p', steps[1..]) + rest;
      assert v.tape == Written(suite, p, steps[0]) + tail;
      StepAccepted(suite, p, v, steps[0], tail);
      RunAccepted(suite, p', VerifierStep(suite, v, steps[0]).state, steps[1..], rest);
    }
  }

  /** For any script, the verifier run on the finished proof accepts it, leaves nothing unread, draws
      the same challenges and receives the committed leaves. */
  lemma {:induction false} ProofAccepted<C>(suite: Suite<C>, initial: C, steps: seq<Step>)
    requires suite.Valid() && Script(suite, Prover([], initial, []), steps)
    ensures var (end, events) := ProverRun(suite, Prover([], initial, []), steps);
            var outcome := VerifierRun(suite, Verifier(end.tape, initial, []), steps);
            && outcome.Finished? && outcome.state.tape == [] && outcome.events == events
            && outcome.state.challenger == end.challenger
  {
    var p := Prover([], initial, []);
    var tape := ProverRun(suite, p, steps).0.tape;
    RunWrites(suite, p, steps);
    assert tape == WrittenBy(suite, p, steps) + [];
    RunAccepted(suite, p, Verifier(tape, initial, []), steps, []);
  }

  // ---- What the challenger goes through. ----

  /** The challenger takes bytes in, or gives some out. */
  datatype Exchange = In(bytes: ByteString) | Out(count: nat)

  function Play<C>(suite: Suite<C>, c: C, exchanges: seq<Exchange>): C {
    if exchanges == [] then c
    else if exchanges[0].In? then Play(suite, suite.Observe(c, exchanges[0].bytes), exchanges[1..])
    else Play(suite, suite.Sample(c, exchanges[0].count).1, exchanges[1..])
  }

  /** The exchanges of one step: roots, messages, statements and nonces go in, a scalar or four bytes come
      out, and what is sent to open a commitment does not touch the challenger. */
  ghost function Exchanges<C>(suite: Suite<C>, c: C, step: Step): seq<Exchange>
    requires step.Commit? ==> Cut(suite, step.data, step.leafSize, step.depth).Valid()
    requires step.Grind? && step.bits > 0 ==> suite.CanGrind(c, step.bits)
  {
    match step
    case Commit(data, leafSize, depth) => [In(Cut(suite, data, leafSize, depth).Root(suite))]
    case Send(message) => [In(message)]
    case Observe(statement) => [In(statement)]
    case SampleScalar => [Out(suite.scalarSize)]
    case SampleBits(bits) => [Out(4)]
    case Open(which, indices) => []
    case SendVector(which) => []
    case Grind(bits) => if bits == 0 then [] else [In(LeBytes(NonceFor(suite, c, bits), 8)), Out(4)]
  }

  /** One step takes the challenger through exactly these exchanges, and its event is what was sampled,
      sent or opened. */
  lemma {:induction false} StepExchanges<C>(suite: Suite<C>, p: Prover<C>, step: Step)
    requires ProverValid(p) && Provable(suite, p, step)
    ensures ProverStep(suite, p, step).0.challenger == Play(suite, p.challenger, Exchanges(suite, p.challenger, step))
    ensures step.SampleScalar? ==>
              ProverStep(suite, p, step).1 == Scalar(suite.Sample(p.challenger, suite.scalarSize).0)
    ensures step.SampleBits? ==> ProverStep(suite, p, step).1 == Word(suite.SampleBits(p.challenger, step.bits).0)
    ensures step.Send? ==> ProverStep(suite, p, step).1 == Received(step.message)
    ensures step.Open? ==>
              ProverStep(suite, p, step).1 == Received(LeafValues(p.commitments[step.which], step.indices))
    ensures step.SendVector? ==> ProverStep(suite, p, step).1 == Received(p.commitments[step.which].data)
  {
    var c := p.challenger;
    match step
    case Commit(data, leafSize, depth) =>
      PlayOne(suite, c, In(Cut(suite, data, leafSize, depth).Root(suite)));
    case Send(message) => PlayOne(suite, c, In(message));
    case Observe(statement) => PlayOne(suite, c, In(statement));
    case SampleScalar => PlayOne(suite, c, Out(suite.scalarSize));
    case SampleBits(bits) => PlayOne(suite, c, Out(4));
    case Grind(bits) =>
      if bits > 0 {
        var nonce := LeBytes(NonceFor(suite, c, bits), 8);
        PlayOne(suite, suite.Observe(c, nonce), Out(4));
        assert [In(nonce), Out(4)][1..] == [Out(4)];
      }
    case _ =>
  }

  lemma PlayOne<C>(suite: Suite<C>, c: C, exchange: Exchange)
    ensures Play(suite, c, [exchange])
         == if exchange.In? then suite.Observe(c, exchange.bytes) else suite.Sample(c, exchange.count).1
  {
    assert [exchange][1..] == [];
  }

  /** The challenger after a script, by its exchanges alone. */
  ghost function Replayed<C>(suite: Suite<C>, p: Prover<C>, c: C, steps: seq<Step>): C
    requires ProverValid(p) && Script(suite, p, steps) && c == p.challenger
    decreases |steps|
  {
    if steps == [] then c
    else
      StepExchanges(suite, p, steps[0]);
      Replayed(suite, ProverStep(suite, p, steps[0]).0, Play(suite, c, Exchanges(suite, c, steps[0])), steps[1..])
  }

  /** After any script the challenger, the prover's and the verifier's, is what the exchanges of its steps
      make of it, in order. */
  lemma {:induction false} RunReplays<C>(suite: Suite<C>, p: Prover<C>, steps: seq<Step>)
    requires ProverValid(p) && Script(suite, p, steps)
    ensures ProverRun(suite, p, steps).0.challenger == Replayed(suite, p, p.challenger, steps)
    decreases |steps|
  {
    hide ProverStep, Provable, Exchanges, Play;
    if steps != [] {
      StepExchanges(suite, p, steps[0]);
      RunReplays(suite, ProverStep(suite, p, steps[0]).0, steps[1..]);
    }
  }
}
