/**
 The reasoning trace of `src/provenance.rs`: steps committed to, with their indices, in a Merkle
 tree padded to a power of two.
 */
module Provenance {
  import opened Basics
  import opened Encoding
  import opened Hashing
  import opened Intents
  import opened IntentProperties
  import opened Preimages
  import opened Chains

  datatype StepKind = Thought | ToolCall | Observation | Decision | PlanStep | FinalAction | Error | Retrieval

  function AsU8(k: StepKind): Byte {
    match k
    case Thought => 1
    case ToolCall => 2
    case Observation => 3
    case Decision => 4
    case PlanStep => 5
    case FinalAction => 6
    case Error => 7
    case Retrieval => 8
  }

  /** A Rust `u32`, and the truncating cast to it. */
  type Index = n: nat | n < 0x1_0000_0000

  function AsU32(n: nat): Index {
    n % 0x1_0000_0000
  }

  lemma NeighboursDiffer(n: nat)
    requires n > 0
    ensures AsU32(n - 1) != AsU32(n)
  {
  }

  datatype ReasoningStep = ReasoningStep(
    index: Index, kind: StepKind, contentHash: Digest, timestamp: U64, metadataHash: Digest)

  // ---------------------------------------------------------------- leaves

  const HALF_WORD: nat := 4

  function StepPreimage(s: ReasoningStep): Bytes {
    [CERT_VERSION] +
    (LeBytes(s.index, HALF_WORD) + ([AsU8(s.kind)] + (s.contentHash + (U64Be(s.timestamp) + s.metadataHash))))
  }

  function LeafHash(s: ReasoningStep): Hash {
    Leaf(StepLeaf, StepPreimage(s))
  }

  lemma {:induction false} LeafHashInjective(a: ReasoningStep, b: ReasoningStep)
    requires LeafHash(a) == LeafHash(b)
    ensures a == b
  {
    var ra := a.contentHash + (U64Be(a.timestamp) + a.metadataHash);
    var rb := b.contentHash + (U64Be(b.timestamp) + b.metadataHash);
    Cancel([CERT_VERSION], LeBytes(a.index, HALF_WORD) + ([AsU8(a.kind)] + ra),
           LeBytes(b.index, HALF_WORD) + ([AsU8(b.kind)] + rb));
    SplitAt(LeBytes(a.index, HALF_WORD), [AsU8(a.kind)] + ra, LeBytes(b.index, HALF_WORD), [AsU8(b.kind)] + rb);
    WordWidths();
    LeBytesInjective(a.index, b.index, HALF_WORD);
    SplitAt([AsU8(a.kind)], ra, [AsU8(b.kind)], rb);
    assert [AsU8(a.kind)][0] == [AsU8(b.kind)][0];
    SplitAt(a.contentHash, U64Be(a.timestamp) + a.metadataHash, b.contentHash, U64Be(b.timestamp) + b.metadataHash);
    U64BeSplit(a.timestamp, a.metadataHash, b.timestamp, b.metadataHash);
  }

  /** No step leaf is the hash of an intent: the two are hashed under contexts of their own. */
  lemma StepsAreNoIntents(s: ReasoningStep, i: Intent)
    ensures LeafHash(s) != IntentHash(i)
  {
  }

  // ---------------------------------------------------------------- powers of two

  function Pow2(k: nat): (p: nat)
    ensures p >= 1
  {
    if k == 0 then 1 else 2 * Pow2(k - 1)
  }

  /** The height of the least perfect binary tree with `n` leaves or more. */
  function Height(n: nat): nat {
    if n <= 1 then 0 else 1 + Height((n + 1) / 2)
  }

  /** `usize::trailing_zeros`. */
  function TrailingZeros(p: nat): nat
    requires p > 0
  {
    if p % 2 == 1 then 0 else 1 + TrailingZeros(p / 2)
  }

  lemma {:induction false} HeightIsLeast(n: nat, k: nat)
    ensures n <= Pow2(k) <==> Height(n) <= k
    decreases n
  {
    if n > 1 {
      if k > 0 { HeightIsLeast((n + 1) / 2, k - 1); }
    }
  }

  lemma LeastPowerFits(n: nat)
    requires n > 0
    ensures n <= Pow2(Height(n)) < 2 * n
  {
    HeightIsLeast(n, Height(n));
    if Height(n) > 0 { HeightIsLeast(n, Height(n) - 1); }
  }

  lemma {:induction false} TrailingZerosOfPow2(k: nat)
    ensures TrailingZeros(Pow2(k)) == k
  {
    if k > 0 {
      TrailingZerosOfPow2(k - 1);
      assert Pow2(k) % 2 == 0 && Pow2(k) / 2 == Pow2(k - 1);
    }
  }

  /** The least power of two that is at least `n`. */
  method NextPowerOfTwo(n: nat) returns (p: nat)
    ensures p == Pow2(Height(n)) && n <= p
    ensures forall k :: n <= Pow2(k) ==> Height(n) <= k
  {
    forall k ensures n <= Pow2(k) <==> Height(n) <= k { HeightIsLeast(n, k); }
    if n <= 1 {
      return 1;
    }
    p := 1;
    ghost var k := 0;
    while p < n
      invariant p == Pow2(k) && k <= Height(n)
      decreases Height(n) - k
    {
      p := 2 * p;
      k := k + 1;
    }
  }

  // ---------------------------------------------------------------- the padded tree

  function LeafHashes(steps: seq<ReasoningStep>): seq<Hash> {
    seq(|steps|, i requires 0 <= i < |steps| => LeafHash(steps[i]))
  }

  /** `Vec::resize` with the last leaf. */
  function Padded(steps: seq<ReasoningStep>): (s: seq<Hash>)
    requires steps != []
    ensures |s| == Pow2(Height(|steps|)) >= |steps|
  {
    HeightIsLeast(|steps|, Height(|steps|));
    seq(Pow2(Height(|steps|)), i requires 0 <= i => LeafHash(steps[if i < |steps| then i else |steps| - 1]))
  }

  function TraceRoot(steps: seq<ReasoningStep>): Hash
    requires steps != []
  {
    RootOf(Padded(steps))
  }

  method PairAll(layer: seq<Hash>) returns (next: seq<Hash>)
    requires |layer| % 2 == 0
    ensures next == NextLayer(layer)
  {
    next := [];
    for i := 0 to |layer| / 2
      invariant |next| == i && forall k :: 0 <= k < i ==> next[k] == NextLayer(layer)[k]
    {
      NextLayerAt(layer, i);
      next := next + [Node(layer[2 * i], layer[2 * i + 1])];
    }
  }

  method PaddedLeaves(steps: seq<ReasoningStep>) returns (layer: seq<Hash>, leafCount: nat)
    requires steps != []
    ensures layer == Padded(steps) && leafCount == |layer|
  {
    leafCount := NextPowerOfTwo(|steps|);
    var leaves := LeafHashes(steps);
    layer := leaves + seq(leafCount - |leaves|, _ => leaves[|leaves| - 1]);
  }

  lemma NextLayerHalves(layer: seq<Hash>, h: nat)
    requires |layer| == Pow2(h) && h > 0
    ensures |layer| > 1 && |layer| % 2 == 0 && |NextLayer(layer)| == Pow2(h - 1)
    ensures RootOf(layer) == RootOf(NextLayer(layer))
  {
  }

  method BuildMerkleRoot(steps: seq<ReasoningStep>) returns (root: Hash)
    requires steps != []
    ensures root == TraceRoot(steps)
  {
    var layer, _ := PaddedLeaves(steps);
    ghost var h := Height(|steps|);
    while |layer| > 1
      invariant |layer| == Pow2(h)
      invariant RootOf(layer) == TraceRoot(steps)
      decreases h
    {
      NextLayerHalves(layer, h);
      layer := PairAll(layer);
      h := h - 1;
    }
    root := layer[0];
  }

  // ---------------------------------------------------------------- the trace

  datatype StepProof = StepProof(step: ReasoningStep, siblings: seq<Hash>, stepCount: Index)

  /** The hash that binds a root to a chain, as the fixed-width fields it is made from. */
  datatype Binding = Binding(
    stepCount: Index, merkleRoot: Hash, traceId: Nonce, startedAt: U64, finalizedAt: U64, chain: ChainFingerprint)

  datatype ProvenanceRoot = ProvenanceRoot(
    stepCount: Index, merkleRoot: Hash, traceId: Nonce, startedAt: U64, finalizedAt: U64, chainBinding: Binding)

  /** `compute_chain_binding`. */
  function BindingOf(root: ProvenanceRoot, chain: ChainFingerprint): Binding {
    Binding(root.stepCount, root.merkleRoot, root.traceId, root.startedAt, root.finalizedAt, chain)
  }

  predicate VerifiesBinding(root: ProvenanceRoot, chain: ChainFingerprint) {
    BindingOf(root, chain) == root.chainBinding
  }

  /** The root commits to these steps. */
  predicate Commits(root: ProvenanceRoot, steps: seq<ReasoningStep>) {
    steps != [] && root.stepCount == AsU32(|steps|) && root.merkleRoot == TraceRoot(steps)
  }

  /** Every step carries its position, truncated to `u32`. */
  ghost predicate Recorded(steps: seq<ReasoningStep>) {
    forall i :: 0 <= i < |steps| ==> steps[i].index == AsU32(i)
  }

  /** The other child of the parent of position `idx`; in a layer of even length it is always there. */
  function SiblingOf(layer: seq<Hash>, idx: nat): (h: Hash)
    requires idx < |layer|
    ensures |layer| % 2 == 0 && idx % 2 == 0 ==> idx + 1 < |layer| && h == layer[idx + 1]
    ensures idx % 2 != 0 ==> h == layer[idx - 1]
  {
    var sibling := if idx % 2 == 0 then idx + 1 else idx - 1;
    if sibling < |layer| then layer[sibling] else layer[idx]
  }

  /** The sibling hashes met from position `idx` of a layer up to the root. */
  function SiblingPath(layer: seq<Hash>, idx: nat): (path: seq<Hash>)
    requires idx < |layer|
    decreases |layer|
  {
    if |layer| == 1 then []
    else [SiblingOf(layer, idx)] + SiblingPath(NextLayer(layer), idx / 2)
  }

  lemma CollectStep(before: seq<Hash>, layer: seq<Hash>, idx: nat, h: nat)
    requires |layer| == Pow2(h) && h > 0 && idx < |layer|
    ensures |layer| > 1 && |layer| % 2 == 0 && idx / 2 < |NextLayer(layer)| == Pow2(h - 1)
    ensures before + SiblingPath(layer, idx) ==
            (before + [SiblingOf(layer, idx)]) + SiblingPath(NextLayer(layer), idx / 2)
  {
    NextLayerHalves(layer, h);
  }

  lemma CollectDone(before: seq<Hash>, layer: seq<Hash>, idx: nat)
    requires |layer| == Pow2(0) && idx < |layer|
    ensures before + SiblingPath(layer, idx) == before
  {
  }

  /** The loop of `step_proof`: one sibling a level, then the level above. */
  method CollectSiblings(leaves: seq<Hash>, index: nat, depth: nat) returns (siblings: seq<Hash>)
    requires |leaves| == Pow2(depth) && index < |leaves|
    ensures siblings == SiblingPath(leaves, index)
  {
    siblings := [];
    var layer := leaves;
    var idx: nat := index;
    ghost var h := depth;
    for done := 0 to depth
      invariant h == depth - done && |layer| == Pow2(h) && idx < |layer|
      invariant siblings + SiblingPath(layer, idx) == SiblingPath(leaves, index)
    {
      CollectStep(siblings, layer, idx, h);
      siblings := siblings + [SiblingOf(layer, idx)];
      layer := PairAll(layer);
      idx := idx / 2;
      h := h - 1;
    }
    CollectDone(siblings, layer, idx);
  }

  function HonestProof(steps: seq<ReasoningStep>, index: nat): StepProof
    requires index < |steps|
  {
    StepProof(steps[index], SiblingPath(Padded(steps), index), AsU32(|steps|))
  }

  class ReasoningTrace {
    var steps: seq<ReasoningStep>
    const traceId: Nonce
    const startedAt: U64

    ghost predicate Valid()
      reads this
    {
      Recorded(steps)
    }

    constructor (traceId: Nonce, startedAt: U64)
      ensures Valid() && steps == [] && this.traceId == traceId && this.startedAt == startedAt
    {
      steps := [];
      this.traceId := traceId;
      this.startedAt := startedAt;
    }

    method RecordHashed(kind: StepKind, contentHash: Digest, metadataHash: Digest, timestamp: U64)
      returns (step: ReasoningStep)
      requires Valid()
      modifies this
      ensures Valid() && steps == old(steps) + [step]
      ensures step == ReasoningStep(AsU32(|old(steps)|), kind, contentHash, timestamp, metadataHash)
    {
      step := ReasoningStep(AsU32(|steps|), kind, contentHash, timestamp, metadataHash);
      steps := steps + [step];
    }

    method Finalize(finalizedAt: U64, chain: ChainFingerprint) returns (r: Result<ProvenanceRoot, A1Error>)
      ensures r.Err? <==> steps == []
      ensures r.Ok? ==> Commits(r.value, steps) && VerifiesBinding(r.value, chain)
      ensures r.Ok? ==> r.value.chainBinding ==
                        Binding(AsU32(|steps|), TraceRoot(steps), traceId, startedAt, finalizedAt, chain)
      ensures r.Ok? ==> r.value.traceId == traceId && r.value.startedAt == startedAt &&
                         r.value.finalizedAt == finalizedAt
    {
      if steps == [] {
        return Err(EmptyTree);
      }
      var root := BuildMerkleRoot(steps);
      var count := AsU32(|steps|);
      r := Ok(ProvenanceRoot(count, root, traceId, startedAt, finalizedAt,
                             Binding(count, root, traceId, startedAt, finalizedAt, chain)));
    }

    method ProveStep(index: nat) returns (r: Option<StepProof>)
      ensures r.None? <==> index >= |steps|
      ensures r.Some? ==> r.value == HonestProof(steps, index)
    {
      if index >= |steps| {
        return None;
      }
      var layer, leafCount := PaddedLeaves(steps);
      TrailingZerosOfPow2(Height(|steps|));
      var siblings := CollectSiblings(layer, index, TrailingZeros(leafCount));
      r := Some(StepProof(steps[index], siblings, AsU32(|steps|)));
    }
  }

  /** The root reached from a hash at position `idx`. */
  function ClimbFrom(current: Hash, idx: nat, siblings: seq<Hash>): Hash
    decreases |siblings|
  {
    if siblings == [] then current
    else
      var parent := if idx % 2 == 0 then Node(current, siblings[0]) else Node(siblings[0], current);
      ClimbFrom(parent, idx / 2, siblings[1..])
  }

  predicate ProofVerifies(p: StepProof, root: ProvenanceRoot) {
    p.step.index < p.stepCount && p.stepCount == root.stepCount && |p.siblings| == Height(p.stepCount) &&
    ClimbFrom(LeafHash(p.step), p.step.index, p.siblings) == root.merkleRoot
  }

  method VerifyStep(p: StepProof, root: ProvenanceRoot) returns (ok: bool)
    ensures ok <==> ProofVerifies(p, root)
  {
    if p.step.index >= p.stepCount {
      return false;
    }
    if p.stepCount != root.stepCount {
      return false;
    }
    var leafCount := NextPowerOfTwo(p.stepCount);
    TrailingZerosOfPow2(Height(p.stepCount));
    if |p.siblings| != TrailingZeros(leafCount) {
      return false;
    }
    var current := LeafHash(p.step);
    var idx := p.step.index;
    for i := 0 to |p.siblings|
      invariant ClimbFrom(LeafHash(p.step), p.step.index, p.siblings) == ClimbFrom(current, idx, p.siblings[i..])
    {
      assert p.siblings[i..][1..] == p.siblings[i + 1..];
      if idx % 2 == 0 {
        current := Node(current, p.siblings[i]);
      } else {
        current := Node(p.siblings[i], current);
      }
      idx := idx / 2;
    }
    ok := current == root.merkleRoot;
  }

  // ---------------------------------------------------------------- what a root binds

  lemma PaddedAt(steps: seq<ReasoningStep>, i: nat)
    requires steps != [] && i < |Padded(steps)|
    ensures Padded(steps)[i] == LeafHash(steps[if i < |steps| then i else |steps| - 1])
  {
  }

  lemma PaddedAreLeaves(a: seq<ReasoningStep>)
    requires a != []
    ensures AllLeaves(Padded(a))
  {
    forall h | h in Padded(a) ensures !h.Node? {
      var i :| 0 <= i < |Padded(a)| && Padded(a)[i] == h;
      PaddedAt(a, i);
    }
  }

  /**
   The leaves under a trace's root, left to right: every step's own in order, and the last one
   repeated up to the least power of two.
   */
  lemma {:induction false} TraceFrontier(steps: seq<ReasoningStep>, i: nat)
    requires steps != []
    ensures var f := Frontier(TraceRoot(steps));
            |f| == Pow2(Height(|steps|)) && |steps| <= |f| < 2 * |steps| &&
            (i < |f| ==> f[i] == LeafHash(steps[if i < |steps| then i else |steps| - 1]))
  {
    RootFrontier(Padded(steps));
    PaddedAreLeaves(steps);
    FrontierOfLeaves(Padded(steps));
    if i < |Padded(steps)| { PaddedAt(steps, i); }
    LeastPowerFits(|steps|);
  }

  /** A longer trace has a fresh index where the shorter one is padded. */
  lemma {:induction false} PaddingEndsTrace(a: seq<ReasoningStep>, b: seq<ReasoningStep>)
    requires a != [] && b != [] && Recorded(a) && Recorded(b) && Padded(a) == Padded(b)
    ensures |a| >= |b|
  {
    var n := |a|;
    if n < |b| {
      PaddedAt(a, n);
      PaddedAt(b, n);
      NeighboursDiffer(n);
      LeafHashInjective(a[n - 1], b[n]);
      assert false;
    }
  }

  /** Equal roots come from equal traces: same steps, in the same order, and no more of them. */
  lemma {:induction false} TraceIsBound(a: seq<ReasoningStep>, b: seq<ReasoningStep>)
    requires a != [] && b != [] && Recorded(a) && Recorded(b)
    requires TraceRoot(a) == TraceRoot(b)
    ensures a == b
  {
    RootFrontier(Padded(a));
    RootFrontier(Padded(b));
    PaddedAreLeaves(a);
    PaddedAreLeaves(b);
    FrontierOfLeaves(Padded(a));
    FrontierOfLeaves(Padded(b));
    PaddingEndsTrace(a, b);
    PaddingEndsTrace(b, a);
    forall i | 0 <= i < |a| ensures a[i] == b[i] {
      PaddedAt(a, i);
      PaddedAt(b, i);
      LeafHashInjective(a[i], b[i]);
    }
  }

  /** One level: the node over `x` and its sibling is the parent exactly if both are the layer's own. */
  lemma ParentIsExact(layer: seq<Hash>, x: Hash, idx: nat, sibling: Hash)
    requires |layer| % 2 == 0 && idx < |layer|
    ensures idx / 2 < |NextLayer(layer)|
    ensures (if idx % 2 == 0 then Node(x, sibling) else Node(sibling, x)) == NextLayer(layer)[idx / 2] <==>
            x == layer[idx] && sibling == SiblingOf(layer, idx)
  {
    var k := idx / 2;
    assert idx == 2 * k || idx == 2 * k + 1;
    NextLayerAt(layer, k);
  }

  /** In a perfect tree a climb ends at the root exactly from the hash at that position with its own siblings. */
  lemma {:induction false} ClimbIsExact(layer: seq<Hash>, h: nat, x: Hash, idx: nat, siblings: seq<Hash>)
    requires |layer| == Pow2(h) && idx < |layer| && |siblings| == h
    ensures ClimbFrom(x, idx, siblings) == RootOf(layer) <==> x == layer[idx] && siblings == SiblingPath(layer, idx)
    decreases h
  {
    if h > 0 {
      var sibling, rest := siblings[0], siblings[1..];
      var parent := if idx % 2 == 0 then Node(x, sibling) else Node(sibling, x);
      NextLayerHalves(layer, h);
      ParentIsExact(layer, x, idx, sibling);
      ClimbIsExact(NextLayer(layer), h - 1, parent, idx / 2, rest);
      assert siblings == [sibling] + rest;
      assert SiblingPath(layer, idx) == [SiblingOf(layer, idx)] + SiblingPath(NextLayer(layer), idx / 2);
    }
  }

  lemma {:induction false} HonestPathLength(layer: seq<Hash>, h: nat, idx: nat)
    requires |layer| == Pow2(h) && idx < |layer|
    ensures |SiblingPath(layer, idx)| == h
    decreases h
  {
    if h > 0 {
      NextLayerHalves(layer, h);
      HonestPathLength(NextLayer(layer), h - 1, idx / 2);
    }
  }

  /** A step hashes to the leaf of its position exactly if it is the recorded one. */
  lemma {:induction false} LeafIdentifiesStep(steps: seq<ReasoningStep>, step: ReasoningStep, i: nat)
    requires i < |steps|
    ensures i < |Padded(steps)| && (LeafHash(step) == Padded(steps)[i] <==> step == steps[i])
  {
    PaddedAt(steps, i);
    if LeafHash(step) == LeafHash(steps[i]) { LeafHashInjective(step, steps[i]); }
  }

  lemma {:induction false} ExactStep(steps: seq<ReasoningStep>, p: StepProof, i: nat)
    requires p.step.index == i < |steps| && |p.siblings| == Height(|steps|)
    ensures ClimbFrom(LeafHash(p.step), i, p.siblings) == TraceRoot(steps) <==>
            p.step == steps[i] && p.siblings == SiblingPath(Padded(steps), i)
  {
    LeafIdentifiesStep(steps, p.step, i);
    ClimbIsExact(Padded(steps), Height(|steps|), LeafHash(p.step), i, p.siblings);
  }

  lemma {:induction false} OnlyHonestProof(steps: seq<ReasoningStep>, root: ProvenanceRoot, p: StepProof, i: nat)
    requires Commits(root, steps) && p.step.index == i < |steps| < 0x1_0000_0000
    ensures ProofVerifies(p, root) <==> p == HonestProof(steps, i)
  {
    assert AsU32(|steps|) == |steps|;
    HonestPathLength(Padded(steps), Height(|steps|), i);
    if p.stepCount == |steps| && |p.siblings| == Height(|steps|) {
      ExactStep(steps, p, i);
    }
  }

  /**
   Against the root of a trace whose length fits a `u32`, exactly one proof per index verifies:
   the recorded step with the siblings of its own path.
   */
  lemma {:induction false} StepProofsAreExact(steps: seq<ReasoningStep>, root: ProvenanceRoot, p: StepProof)
    requires Commits(root, steps) && |steps| < 0x1_0000_0000
    ensures ProofVerifies(p, root) <==> p.step.index < |steps| && p == HonestProof(steps, p.step.index)
  {
    assert AsU32(|steps|) == |steps|;
    if p.step.index < |steps| { OnlyHonestProof(steps, root, p, p.step.index); }
  }

  lemma HonestIndex(steps: seq<ReasoningStep>, i: nat)
    requires Recorded(steps) && i < |steps| && i < 0x1_0000_0000
    ensures HonestProof(steps, i).step.index == i
  {
    assert steps[i].index == AsU32(i);
  }

  /** `step_proof` succeeds at every position of such a trace, and its proof verifies. */
  lemma {:induction false} StepProofsAreComplete(steps: seq<ReasoningStep>, root: ProvenanceRoot, i: nat)
    requires Commits(root, steps) && Recorded(steps) && i < |steps| < 0x1_0000_0000
    ensures ProofVerifies(HonestProof(steps, i), root)
  {
    HonestIndex(steps, i);
    OnlyHonestProof(steps, root, HonestProof(steps, i), i);
  }

  /**
   Two finalized roots carry one binding only if everything about them is the same: the trace,
   its identity and times, and the chain. So a verified root belongs to one trace and one chain.
   */
  lemma {:induction false} BindingFixesTrace(
      a: seq<ReasoningStep>, x: ProvenanceRoot, forA: ChainFingerprint,
      b: seq<ReasoningStep>, y: ProvenanceRoot, forB: ChainFingerprint)
    requires Commits(x, a) && Recorded(a) && VerifiesBinding(x, forA)
    requires Commits(y, b) && Recorded(b) && VerifiesBinding(y, forB)
    ensures x.chainBinding == y.chainBinding <==> x == y && a == b && forA == forB
  {
    if x.chainBinding == y.chainBinding { TraceIsBound(a, b); }
  }

  // ---------------------------------------------------------------- traces too long for a u32

  /** The layer `times` levels up. */
  function Lift(layer: seq<Hash>, times: nat): seq<Hash>
    decreases times
  {
    if times == 0 then layer else Lift(NextLayer(layer), times - 1)
  }

  lemma {:induction false} LiftKeepsRoot(layer: seq<Hash>, h: nat, times: nat)
    requires |layer| == Pow2(h) && times <= h
    ensures |Lift(layer, times)| == Pow2(h - times)
    ensures RootOf(Lift(layer, times)) == RootOf(layer)
    decreases times
  {
    if times > 0 {
      NextLayerHalves(layer, h);
      LiftKeepsRoot(NextLayer(layer), h - 1, times - 1);
    }
  }

  lemma {:induction false} LiftedAreNodes(layer: seq<Hash>, h: nat, times: nat, k: nat)
    requires |layer| == Pow2(h) && 0 < times <= h && k < |Lift(layer, times)|
    ensures Lift(layer, times)[k].Node?
    decreases times
  {
    NextLayerHalves(layer, h);
    if times == 1 {
      assert Lift(layer, times) == NextLayer(layer);
      NextLayerAt(layer, k);
    } else {
      LiftedAreNodes(NextLayer(layer), h - 1, times - 1, k);
    }
  }

  /** A climb from a leaf that is shorter than the tree does not end at its root. */
  lemma {:induction false} ShortClimbMisses(layer: seq<Hash>, h: nat, x: Hash, idx: nat, siblings: seq<Hash>)
    requires |layer| == Pow2(h) && |siblings| < h && idx < Pow2(|siblings|) && !x.Node?
    ensures ClimbFrom(x, idx, siblings) != RootOf(layer)
  {
    var d := |siblings|;
    var up := Lift(layer, h - d);
    LiftKeepsRoot(layer, h, h - d);
    assert |up| == Pow2(d) by { assert h - (h - d) == d; }
    LiftedAreNodes(layer, h, h - d, idx);
    ClimbIsExact(up, d, x, idx, siblings);
  }

  lemma NotAMultiple(n: nat)
    requires n >= 0x1_0000_0000 && AsU32(n) > 0
    ensures n > 0x1_0000_0000
  {
  }

  lemma U32IsPow2()
    ensures Pow2(32) == 0x1_0000_0000
  {
    assert Pow2(8) == 0x100;
    assert Pow2(16) == 0x1_0000;
    assert Pow2(24) == 0x100_0000;
  }

  lemma {:induction false} TruncatedCountIsLower(n: nat)
    requires n >= 0x1_0000_0000 && AsU32(n) > 0
    ensures Height(AsU32(n)) < Height(n) && AsU32(n) <= Pow2(Height(AsU32(n)))
  {
    var m := AsU32(n);
    U32IsPow2();
    NotAMultiple(n);
    HeightIsLeast(m, 32);
    HeightIsLeast(m, Height(m));
    HeightIsLeast(n, 32);
  }

  /** Past 2^32 steps the truncated count no longer matches the tree, and no proof verifies at all. */
  lemma {:induction false} LongTracesHaveNoProofs(steps: seq<ReasoningStep>, root: ProvenanceRoot, p: StepProof)
    requires Commits(root, steps) && Recorded(steps) && |steps| >= 0x1_0000_0000
    ensures !ProofVerifies(p, root)
  {
    var n := |steps|;
    if p.step.index < p.stepCount == AsU32(n) && |p.siblings| == Height(p.stepCount) {
      TruncatedCountIsLower(n);
      ShortClimbMisses(Padded(steps), Height(n), LeafHash(p.step), p.step.index, p.siblings);
    }
  }
}
