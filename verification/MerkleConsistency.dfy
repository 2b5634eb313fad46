/** Binding without an honest prover: whatever root was committed, and by whatever means, two accepted
    openings of one leaf hold the same bytes, or the pairs the verifier hashed collide. And with one: over
    a whole run, what is received of its commitment is what it committed. */
module MerkleConsistency {
  import opened Bits
  import opened Bytes
  import opened MerkleTree
  import opened MerkleBranch
  import opened MerkleScheme
  import opened MerkleTape
  import opened MerkleChannel

  /** Two different pairs, one hashed here and one there, with one digest. */
  ghost predicate Collision<D>(compress: (D, D) -> D, here: set<(D, D)>, there: set<(D, D)>) {
    exists p, q :: p in here && q in there && p != q && compress(p.0, p.1) == compress(q.0, q.1)
  }

  lemma CollisionMore<D>(compress: (D, D) -> D, here: set<(D, D)>, there: set<(D, D)>, here': set<(D, D)>,
                         there': set<(D, D)>)
    requires Collision(compress, here, there) && here <= here' && there <= there'
    ensures Collision(compress, here', there')
  {
  }

  /** Two climbs of one path to one digest start at one digest, or exhibit a collision. */
  lemma {:induction false} ClimbsAgree<D>(compress: (D, D) -> D, d: D, e: D, index: nat, s: seq<D>, t: seq<D>)
    requires |s| == |t| && Climb(compress, d, index, s) == Climb(compress, e, index, t)
    ensures d == e || Collision(compress, ClimbInputs(compress, d, index, s), ClimbInputs(compress, e, index, t))
    decreases |s|
  {
    if s != [] {
      var p := if index % 2 == 0 then (d, s[0]) else (s[0], d);
      var q := if index % 2 == 0 then (e, t[0]) else (t[0], e);
      var d', e' := compress(p.0, p.1), compress(q.0, q.1);
      var here, there := ClimbInputs(compress, d, index, s), ClimbInputs(compress, e, index, t);
      ClimbsAgree(compress, d', e', index / 2, s[1..], t[1..]);
      if d' == e' {
        assert p in here && q in there;
      } else {
        CollisionMore(compress, ClimbInputs(compress, d', index / 2, s[1..]),
                      ClimbInputs(compress, e', index / 2, t[1..]), here, there);
      }
    }
  }

  /** The siblings that take entry `i` of a layer of 2^d digests up to the root above it. */
  function LayerPath<D>(compress: (D, D) -> D, layer: seq<D>, d: nat, i: nat): (path: seq<D>)
    requires |layer| == Pow2(d) && i < |layer|
    ensures |path| == d
    decreases d
  {
    if d == 0 then []
    else
      FoldHalves(compress, layer);
      [layer[Sibling(i)]] + LayerPath(compress, FoldPairs(compress, layer), d - 1, i / 2)
  }

  /** The entry and its sibling, in order, are a pair of the layer. */
  lemma PathStep<D>(compress: (D, D) -> D, layer: seq<D>, d: nat, i: nat)
    requires |layer| == Pow2(d) && i < |layer| && d > 0
    ensures Sibling(i) < |layer| && i / 2 < |FoldPairs(compress, layer)| == Pow2(d - 1)
    ensures var p := if i % 2 == 0 then (layer[i], layer[Sibling(i)]) else (layer[Sibling(i)], layer[i]);
            && compress(p.0, p.1) == FoldPairs(compress, layer)[i / 2]
            && p in FoldInputs(compress, layer, d)
  {
    FoldStep(compress, layer, d);
    PairAt(compress, layer, i / 2);
    hide FoldInputs, FoldPairs;
    var k := i / 2;
    assert i == 2 * k || i == 2 * k + 1;
    assert (layer[2 * k], layer[2 * k + 1]) in FoldInputs(compress, layer, d);
  }

  /** The path leads to what the layer folds to, hashing no pair that the fold does not. */
  lemma {:induction false} PathLeadsUp<D>(compress: (D, D) -> D, layer: seq<D>, d: nat, i: nat)
    requires |layer| == Pow2(d) && i < |layer|
    ensures Climb(compress, layer[i], i, LayerPath(compress, layer, d, i)) == FoldToRoot(compress, layer, d)
    ensures ClimbInputs(compress, layer[i], i, LayerPath(compress, layer, d, i)) <= FoldInputs(compress, layer, d)
    decreases d
  {
    hide FoldInputs, FoldPairs, FoldToRoot, Sibling, Pow2;
    if d == 0 {
      LoneEntry(compress, layer);
    } else {
      PathStep(compress, layer, d, i);
      FoldStep(compress, layer, d);
      FoldRootStep(compress, layer, d);
      PathLeadsUp(compress, FoldPairs(compress, layer), d - 1, i / 2);
    }
  }

  lemma LoneEntry<D>(compress: (D, D) -> D, layer: seq<D>)
    requires |layer| == Pow2(0)
    ensures |layer| == 1 && FoldToRoot(compress, layer, 0) == layer[0]
  {
  }

  /** A climb in two parts. */
  lemma {:induction false} ClimbOn<D>(compress: (D, D) -> D, d: D, index: nat, s: seq<D>, t: seq<D>)
    ensures Climb(compress, d, index, s + t) == Climb(compress, Climb(compress, d, index, s), Hi(index, |s|), t)
    ensures ClimbInputs(compress, d, index, s + t)
         == ClimbInputs(compress, d, index, s) + ClimbInputs(compress, Climb(compress, d, index, s), Hi(index, |s|), t)
    decreases |s|
  {
    if s == [] {
      assert s + t == t;
    } else {
      var p := if index % 2 == 0 then (d, s[0]) else (s[0], d);
      assert (s + t)[1..] == s[1..] + t;
      ClimbOn(compress, compress(p.0, p.1), index / 2, s[1..], t);
    }
  }

  /** The opening at `index` was checked against this layer, and the layer against this root. */
  ghost predicate Accepted<C>(suite: Suite<C>, c: Commitment, layerDepth: nat, layer: seq<ByteString>, index: nat,
                              o: Opening) {
    && layerDepth <= c.depth && |layer| == Pow2(layerDepth) && index < Pow2(c.depth)
    && FoldToRoot(suite.compress, layer, layerDepth) == c.root && |o.siblings| == c.depth - layerDepth
    && Hi(index, c.depth - layerDepth) < |layer|
    && Climb(suite.compress, suite.leafHash(o.leaf), index, o.siblings) == layer[Hi(index, c.depth - layerDepth)]
  }

  /** All the pairs hashed on the way from the leaf to the root. */
  ghost function HashedFor<C>(suite: Suite<C>, layerDepth: nat, layer: seq<ByteString>, index: nat,
                              o: Opening): set<(ByteString, ByteString)>
    requires |layer| == Pow2(layerDepth)
  {
    ClimbInputs(suite.compress, suite.leafHash(o.leaf), index, o.siblings)
    + FoldInputs(suite.compress, layer, layerDepth)
  }

  /** An accepted opening is a climb from its leaf to the root. */
  lemma {:induction false} AcceptedClimbs<C>(suite: Suite<C>, c: Commitment, layerDepth: nat, layer: seq<ByteString>,
                                             index: nat, o: Opening)
    returns (path: seq<ByteString>)
    requires Accepted(suite, c, layerDepth, layer, index, o)
    ensures |path| == c.depth && Climb(suite.compress, suite.leafHash(o.leaf), index, path) == c.root
    ensures ClimbInputs(suite.compress, suite.leafHash(o.leaf), index, path)
            <= HashedFor(suite, layerDepth, layer, index, o)
  {
    hide Climb, ClimbInputs, FoldInputs, FoldToRoot, LayerPath;
    var i := Hi(index, c.depth - layerDepth);
    var upper := LayerPath(suite.compress, layer, layerDepth, i);
    PathLeadsUp(suite.compress, layer, layerDepth, i);
    ClimbOn(suite.compress, suite.leafHash(o.leaf), index, o.siblings, upper);
    path := o.siblings + upper;
  }

  /** Two accepted openings of one index, against whatever layers, hold one leaf, or exhibit a
      collision of leaves or of pairs. */
  lemma {:induction false} OpeningsAgree<C>(suite: Suite<C>, c: Commitment, index: nat,
                                            d: nat, layer: seq<ByteString>, o: Opening,
                                            d': nat, layer': seq<ByteString>, o': Opening)
    requires Accepted(suite, c, d, layer, index, o) && Accepted(suite, c, d', layer', index, o')
    ensures || o.leaf == o'.leaf
            || suite.leafHash(o.leaf) == suite.leafHash(o'.leaf)
            || Collision(suite.compress, HashedFor(suite, d, layer, index, o), HashedFor(suite, d', layer', index, o'))
  {
    hide Accepted, HashedFor, Climb, ClimbInputs, Collision;
    AcceptedShapes(suite, c, d, layer, index, o);
    AcceptedShapes(suite, c, d', layer', index, o');
    var path := AcceptedClimbs(suite, c, d, layer, index, o);
    var path' := AcceptedClimbs(suite, c, d', layer', index, o');
    var leaf, leaf' := suite.leafHash(o.leaf), suite.leafHash(o'.leaf);
    ClimbsAgree(suite.compress, leaf, leaf', index, path, path');
    if leaf != leaf' {
      CollisionMore(suite.compress, ClimbInputs(suite.compress, leaf, index, path),
                    ClimbInputs(suite.compress, leaf', index, path'),
                    HashedFor(suite, d, layer, index, o), HashedFor(suite, d', layer', index, o'));
    }
  }

  lemma AcceptedShapes<C>(suite: Suite<C>, c: Commitment, d: nat, layer: seq<ByteString>, index: nat, o: Opening)
    requires Accepted(suite, c, d, layer, index, o)
    ensures |layer| == Pow2(d)
  {
  }

  /** Every opening the verifier read was accepted. */
  lemma {:induction false} ReadIsAccepted<C>(suite: Suite<C>, c: Commitment, d: nat, layer: seq<ByteString>,
                                             indices: seq<nat>, tape: ByteString, j: nat)
    requires d <= c.depth && |layer| == Pow2(d) && Below(indices, Pow2(c.depth)) && j < |indices|
    requires FoldToRoot(suite.compress, layer, d) == c.root
    requires ReadOpenings(suite, c, d, layer, indices, tape).Got?
    ensures Accepted(suite, c, d, layer, indices[j], ReadOpenings(suite, c, d, layer, indices, tape).value[j])
    decreases |indices|
  {
    hide FoldToRoot, Climb, ReadMany;
    HiBound(indices[0], c.depth - d, c.depth);
    var first := ReadOpening(suite, c, d, layer, indices[0], tape);
    if j > 0 {
      ReadIsAccepted(suite, c, d, layer, indices[1..], first.rest, j - 1);
    }
  }

  /** For any root and any two tapes: accepted multi-openings agree on every index they share, or what
      the verifier hashed for the two exhibits a collision. */
  lemma {:induction false} MultiOpeningsAgree<C>(suite: Suite<C>, c: Commitment, indices: seq<nat>, tape: ByteString,
                                                 j: nat, indices': seq<nat>, tape': ByteString, j': nat)
    requires Below(indices, Pow2(c.depth)) && Below(indices', Pow2(c.depth))
    requires j < |indices| && j' < |indices'| && indices[j] == indices'[j']
    requires ReadMultiOpen(suite, c, indices, tape).Got? && ReadMultiOpen(suite, c, indices', tape').Got?
    ensures var (layer, openings) := ReadMultiOpen(suite, c, indices, tape).value;
            var (layer', openings') := ReadMultiOpen(suite, c, indices', tape').value;
            var (d, d') := (LayerDepth(c.depth, |indices|), LayerDepth(c.depth, |indices'|));
            var (o, o') := (openings[j], openings'[j']);
            && |layer| == Pow2(d) && |layer'| == Pow2(d')
            && (|| o.leaf == o'.leaf
                || suite.leafHash(o.leaf) == suite.leafHash(o'.leaf)
                || Collision(suite.compress, HashedFor(suite, d, layer, indices[j], o),
                             HashedFor(suite, d', layer', indices[j], o')))
  {
    hide ReadMany, ReadOpenings, FoldToRoot, Accepted, HashedFor, Collision, LayerDepth;
    var d, d' := LayerDepth(c.depth, |indices|), LayerDepth(c.depth, |indices'|);
    DepthBound(c.depth, |indices|);
    DepthBound(c.depth, |indices'|);
    var (layer, openings) := ReadMultiOpen(suite, c, indices, tape).value;
    var (layer', openings') := ReadMultiOpen(suite, c, indices', tape').value;
    ReadIsAccepted(suite, c, d, layer, indices, ReadMany(tape, suite.digestSize, Pow2(d)).rest, j);
    ReadIsAccepted(suite, c, d', layer', indices', ReadMany(tape', suite.digestSize, Pow2(d')).rest, j');
    OpeningsAgree(suite, c, indices[j], d, layer, openings[j], d', layer', openings'[j']);
  }

  // ---- All the leaves a verifier receives in a run. ----

  /** A leaf the verifier received as leaf `index` of a commitment, with the pairs it compressed before
      accepting it. */
  datatype Claim = Claim(c: Commitment, index: nat, leaf: ByteString, hashed: set<(ByteString, ByteString)>)

  /** The leaf climbs to the commitment's root through pairs that were compressed. */
  ghost predicate Founded<C>(suite: Suite<C>, claim: Claim) {
    exists path: seq<ByteString> {:trigger Leads(suite, claim, path)} :: Leads(suite, claim, path)
  }

  ghost predicate Leads<C>(suite: Suite<C>, claim: Claim, path: seq<ByteString>) {
    && |path| == claim.c.depth
    && Climb(suite.compress, suite.leafHash(claim.leaf), claim.index, path) == claim.c.root
    && ClimbInputs(suite.compress, suite.leafHash(claim.leaf), claim.index, path) <= claim.hashed
  }

  /** Two founded claims about one leaf of one commitment agree, or exhibit a collision. */
  lemma {:induction false} ClaimsAgree<C>(suite: Suite<C>, a: Claim, b: Claim)
    requires Founded(suite, a) && Founded(suite, b) && a.c == b.c && a.index == b.index
    ensures || a.leaf == b.leaf
            || suite.leafHash(a.leaf) == suite.leafHash(b.leaf)
            || Collision(suite.compress, a.hashed, b.hashed)
  {
    hide Climb, ClimbInputs, Collision;
    var s :| Leads(suite, a, s);
    var t :| Leads(suite, b, t);
    var d, e := suite.leafHash(a.leaf), suite.leafHash(b.leaf);
    ClimbsAgree(suite.compress, d, e, a.index, s, t);
    if d != e {
      CollisionMore(suite.compress, ClimbInputs(suite.compress, d, a.index, s),
                    ClimbInputs(suite.compress, e, a.index, t),
                    a.hashed, b.hashed);
    }
  }

  /** The claims of a multi-opening, in order. */
  ghost function OpeningClaims<C>(suite: Suite<C>, c: Commitment, layer: seq<ByteString>, indices: seq<nat>,
                                  openings: seq<Opening>):
      (claims: seq<Claim>)
    requires |openings| == |indices| && |layer| == Pow2(LayerDepth(c.depth, |indices|))
    ensures |claims| == |indices|
  {
    seq(|indices|, j requires 0 <= j < |indices| =>
      Claim(c, indices[j], openings[j].leaf,
            HashedFor(suite, LayerDepth(c.depth, |indices|), layer, indices[j], openings[j])))
  }

  /** The claims of a whole vector: every leaf of it. */
  ghost function VectorClaims<C>(suite: Suite<C>, c: Commitment, data: ByteString): (claims: seq<Claim>)
    requires c.leafBytes > 0 && |data| == c.leafBytes * Pow2(c.depth)
  {
    DivUnique(|data|, c.leafBytes, Pow2(c.depth), 0);
    var chunks := Chunks(data, c.leafBytes);
    var layer := Hashes(suite.leafHash, chunks);
    seq(|chunks|, k requires 0 <= k < |chunks| => Claim(c, k, chunks[k], FoldInputs(suite.compress, layer, c.depth)))
  }

  /** The leaves of some claims, one after the other. */
  ghost function ClaimedBytes(claims: seq<Claim>): ByteString {
    if claims == [] then [] else claims[0].leaf + ClaimedBytes(claims[1..])
  }

  /** The claims one accepted step makes. */
  ghost function StepClaims<C>(suite: Suite<C>, v: Verifier<C>, step: Step): seq<Claim>
    requires Verifiable(v, step) && VerifierStep(suite, v, step).Accepted?
  {
    match step
    case Open(which, indices) =>
      var (layer, openings) := ReadMultiOpen(suite, v.commitments[which], indices, v.tape).value;
      OpeningClaims(suite, v.commitments[which], layer, indices, openings)
    case SendVector(which) => VectorClaims(suite, v.commitments[which],
                                           ReadVector(suite, v.commitments[which], v.tape).value)
    case _ => []
  }

  /** What the step receives of a commitment is exactly what it claims. */
  lemma {:induction false} ReceivedIsClaimed<C>(suite: Suite<C>, v: Verifier<C>, step: Step)
    requires Verifiable(v, step) && VerifierStep(suite, v, step).Accepted? && (step.Open? || step.SendVector?)
    ensures VerifierStep(suite, v, step).event == Received(ClaimedBytes(StepClaims(suite, v, step)))
  {
    hide ReadMany, ReadOpenings, FoldToRoot, FoldInputs, HashedFor, Chunks;
    match step
    case Open(which, indices) =>
      var c := v.commitments[which];
      var (layer, openings) := ReadMultiOpen(suite, c, indices, v.tape).value;
      OpeningBytesClaimed(OpeningClaims(suite, c, layer, indices, openings), openings);
    case SendVector(which) =>
      var c := v.commitments[which];
      var data := ReadVector(suite, c, v.tape).value;
      DivUnique(|data|, c.leafBytes, Pow2(c.depth), 0);
      VectorBytesClaimed(VectorClaims(suite, c, data), Chunks(data, c.leafBytes));
  }

  lemma {:induction false} OpeningBytesClaimed(claims: seq<Claim>, openings: seq<Opening>)
    requires |claims| == |openings| && forall j :: 0 <= j < |claims| ==> claims[j].leaf == openings[j].leaf
    ensures ClaimedBytes(claims) == Values(openings)
  {
    if claims != [] {
      OpeningBytesClaimed(claims[1..], openings[1..]);
    }
  }

  lemma {:induction false} VectorBytesClaimed(claims: seq<Claim>, chunks: seq<ByteString>)
    requires |claims| == |chunks| && forall j :: 0 <= j < |claims| ==> claims[j].leaf == chunks[j]
    ensures ClaimedBytes(claims) == Flatten(chunks)
  {
    if claims != [] {
      VectorBytesClaimed(claims[1..], chunks[1..]);
    }
  }

  lemma {:induction false} OpeningFounded<C>(suite: Suite<C>, c: Commitment, d: nat, layer: seq<ByteString>, index: nat,
                                             o: Opening)
    requires Accepted(suite, c, d, layer, index, o)
    ensures |layer| == Pow2(d) && Founded(suite, Claim(c, index, o.leaf, HashedFor(suite, d, layer, index, o)))
  {
    hide Climb, ClimbInputs, HashedFor, FoldToRoot;
    var path := AcceptedClimbs(suite, c, d, layer, index, o);
    assert Leads(suite, Claim(c, index, o.leaf, HashedFor(suite, d, layer, index, o)), path);
  }

  /** Every claim of an accepted multi-opening is founded. */
  lemma {:induction false} OpeningsFounded<C>(suite: Suite<C>, c: Commitment, indices: seq<nat>, tape: ByteString,
                                              j: nat)
    requires Below(indices, Pow2(c.depth)) && j < |indices| && ReadMultiOpen(suite, c, indices, tape).Got?
    ensures var (layer, openings) := ReadMultiOpen(suite, c, indices, tape).value;
            Founded(suite, OpeningClaims(suite, c, layer, indices, openings)[j])
  {
    hide ReadMany, ReadOpenings, FoldToRoot, Accepted, HashedFor, LayerDepth, Founded;
    var d := LayerDepth(c.depth, |indices|);
    DepthBound(c.depth, |indices|);
    var (layer, openings) := ReadMultiOpen(suite, c, indices, tape).value;
    ReadIsAccepted(suite, c, d, layer, indices, ReadMany(tape, suite.digestSize, Pow2(d)).rest, j);
    OpeningFounded(suite, c, d, layer, indices[j], openings[j]);
  }

  /** Every leaf of an accepted vector is founded. */
  lemma {:induction false} VectorFounded<C>(suite: Suite<C>, c: Commitment, tape: ByteString, k: nat)
    requires c.leafBytes > 0 && ReadVector(suite, c, tape).Got? && k < Pow2(c.depth)
    ensures var data := ReadVector(suite, c, tape).value;
            && |data| == c.leafBytes * Pow2(c.depth) && |VectorClaims(suite, c, data)| == Pow2(c.depth)
            && Founded(suite, VectorClaims(suite, c, data)[k])
  {
    hide FoldToRoot, FoldInputs, Climb, ClimbInputs, Chunks, LayerPath;
    var data := ReadVector(suite, c, tape).value;
    DivUnique(|data|, c.leafBytes, Pow2(c.depth), 0);
    var chunks := Chunks(data, c.leafBytes);
    var layer := Hashes(suite.leafHash, chunks);
    var path := LayerPath(suite.compress, layer, c.depth, k);
    PathLeadsUp(suite.compress, layer, c.depth, k);
    assert Leads(suite, VectorClaims(suite, c, data)[k], path);
  }

  lemma {:induction false} StepFounded<C>(suite: Suite<C>, v: Verifier<C>, step: Step, claim: Claim)
    requires Verifiable(v, step) && VerifierStep(suite, v, step).Accepted? && claim in StepClaims(suite, v, step)
    ensures Founded(suite, claim)
  {
    hide Founded, ReadMultiOpen, ReadVector, OpeningClaims, VectorClaims, FoldInputs, HashedFor;
    match step
    case Open(which, indices) =>
      var c := v.commitments[which];
      var (layer, openings) := ReadMultiOpen(suite, c, indices, v.tape).value;
      var j :| 0 <= j < |indices| && OpeningClaims(suite, c, layer, indices, openings)[j] == claim;
      OpeningsFounded(suite, c, indices, v.tape, j);
    case SendVector(which) =>
      var c := v.commitments[which];
      VectorFounded(suite, c, v.tape, 0);
      var claims := VectorClaims(suite, c, ReadVector(suite, c, v.tape).value);
      var k :| 0 <= k < |claims| && claims[k] == claim;
      VectorFounded(suite, c, v.tape, k);
    case _ =>
  }

  /** All the claims of a finished run. */
  ghost function RunClaims<C>(suite: Suite<C>, v: Verifier<C>, steps: seq<Step>): seq<Claim>
    requires VerifierRun(suite, v, steps).Finished?
    decreases |steps|
  {
    if steps == [] then []
    else StepClaims(suite, v, steps[0]) + RunClaims(suite, VerifierStep(suite, v, steps[0]).state, steps[1..])
  }

  lemma {:induction false} RunFounded<C>(suite: Suite<C>, v: Verifier<C>, steps: seq<Step>, claim: Claim)
    requires VerifierRun(suite, v, steps).Finished? && claim in RunClaims(suite, v, steps)
    ensures Founded(suite, claim)
    decreases |steps|
  {
    hide Founded, VerifierStep, Verifiable, StepClaims;
    if claim in StepClaims(suite, v, steps[0]) {
      StepFounded(suite, v, steps[0], claim);
    } else {
      RunFounded(suite, VerifierStep(suite, v, steps[0]).state, steps[1..], claim);
    }
  }

  lemma {:induction false} StepInRange<C>(suite: Suite<C>, v: Verifier<C>, step: Step, claim: Claim)
    requires Verifiable(v, step) && VerifierStep(suite, v, step).Accepted? && claim in StepClaims(suite, v, step)
    ensures claim.index < Pow2(claim.c.depth)
  {
    hide ReadMultiOpen, ReadVector, FoldInputs, HashedFor, Chunks;
    if step.SendVector? {
      var c := v.commitments[step.which];
      VectorFounded(suite, c, v.tape, 0);
    }
  }

  /** Every claim of a run names a leaf of its commitment. */
  lemma {:induction false} RunInRange<C>(suite: Suite<C>, v: Verifier<C>, steps: seq<Step>, claim: Claim)
    requires VerifierRun(suite, v, steps).Finished? && claim in RunClaims(suite, v, steps)
    ensures claim.index < Pow2(claim.c.depth)
    decreases |steps|
  {
    hide VerifierStep, Verifiable, StepClaims;
    if claim in StepClaims(suite, v, steps[0]) {
      StepInRange(suite, v, steps[0], claim);
    } else {
      RunInRange(suite, VerifierStep(suite, v, steps[0]).state, steps[1..], claim);
    }
  }

  /** In any finished run, on any tape, all that was received as one leaf of one commitment, by openings
      or in vectors, is the same, or what the verifier hashed exhibits a collision. */
  lemma {:induction false} RunIsConsistent<C>(suite: Suite<C>, v: Verifier<C>, steps: seq<Step>, a: Claim, b: Claim)
    requires VerifierRun(suite, v, steps).Finished? && a in RunClaims(suite, v, steps)
    requires b in RunClaims(suite, v, steps)
    requires a.c == b.c && a.index == b.index
    ensures || a.leaf == b.leaf
            || suite.leafHash(a.leaf) == suite.leafHash(b.leaf)
            || Collision(suite.compress, a.hashed, b.hashed)
  {
    hide Founded, VerifierRun, RunClaims, Collision;
    RunFounded(suite, v, steps, a);
    RunFounded(suite, v, steps, b);
    ClaimsAgree(suite, a, b);
  }

  /** A founded claim on what an honest prover committed to holds the committed leaf, or exhibits a
      collision. */
  lemma {:induction false} ClaimIsCommitted<C>(suite: Suite<C>, c: Committed, claim: Claim)
    requires c.Valid() && Founded(suite, claim) && claim.c == CommitmentTo(suite, c) && claim.index < Pow2(c.depth)
    ensures || claim.leaf == c.Leaf(claim.index)
            || LeafCollides(suite, c, claim.index, claim.leaf)
            || Collides(suite.compress, c.LeafDigests(suite), c.depth, claim.hashed)
  {
    hide Digest, Climb, ClimbInputs;
    var leaves, leaf := c.LeafDigests(suite), suite.leafHash(claim.leaf);
    var path :| Leads(suite, claim, path);
    HiBound(claim.index, c.depth, c.depth);
    if !Collides(suite.compress, leaves, c.depth, claim.hashed) {
      ClimbBinding(suite.compress, leaves, c.depth, 0, claim.index, leaf, path);
      LeafDigest(suite.compress, leaves, c.depth, claim.index);
    }
  }

  /** In any finished run, on any tape, all that was received of a commitment an honest prover made is
      what was committed, or what the verifier hashed exhibits a collision. */
  lemma {:induction false} RunIsCommitted<C>(suite: Suite<C>, v: Verifier<C>, steps: seq<Step>, c: Committed,
                                             claim: Claim)
    requires VerifierRun(suite, v, steps).Finished? && claim in RunClaims(suite, v, steps)
    requires c.Valid() && claim.c == CommitmentTo(suite, c)
    ensures claim.index < Pow2(c.depth)
    ensures || claim.leaf == c.Leaf(claim.index)
            || LeafCollides(suite, c, claim.index, claim.leaf)
            || Collides(suite.compress, c.LeafDigests(suite), c.depth, claim.hashed)
  {
    hide Founded, VerifierRun, RunClaims, Collides;
    RunFounded(suite, v, steps, claim);
    RunInRange(suite, v, steps, claim);
    ClaimIsCommitted(suite, c, claim);
  }

  /** In particular, if nothing hashed for two claims of one leaf collides, they hold the same bytes. */
  lemma {:induction false} FreeRunIsConsistent<C>(suite: Suite<C>, v: Verifier<C>, steps: seq<Step>, a: Claim, b: Claim)
    requires VerifierRun(suite, v, steps).Finished? && a in RunClaims(suite, v, steps)
    requires b in RunClaims(suite, v, steps)
    requires a.c == b.c && a.index == b.index
    requires CollisionFree(suite, a.hashed + b.hashed, {a.leaf, b.leaf})
    ensures a.leaf == b.leaf
  {
    hide VerifierRun, RunClaims;
    RunIsConsistent(suite, v, steps, a, b);
  }

  /** A vector and an opening of one commitment, on any two tapes, agree on the opened leaf, or exhibit a
      collision; so do two vectors, leaf by leaf. */
  lemma {:induction false} VectorAgrees<C>(suite: Suite<C>, c: Commitment, tape: ByteString, k: nat, other: Claim)
    requires c.leafBytes > 0 && ReadVector(suite, c, tape).Got? && k < Pow2(c.depth)
    requires Founded(suite, other) && other.c == c && other.index == k
    ensures var data := ReadVector(suite, c, tape).value;
            && |data| == c.leafBytes * Pow2(c.depth) && |VectorClaims(suite, c, data)| == Pow2(c.depth)
            && var claim := VectorClaims(suite, c, data)[k];
               (|| claim.leaf == other.leaf
                   || suite.leafHash(claim.leaf) == suite.leafHash(other.leaf)
                   || Collision(suite.compress, claim.hashed, other.hashed))
  {
    hide Founded, Collision, FoldInputs, FoldToRoot;
    VectorFounded(suite, c, tape, k);
    ClaimsAgree(suite, VectorClaims(suite, c, ReadVector(suite, c, tape).value)[k], other);
  }
}
