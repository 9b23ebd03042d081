/**
 The intent tree of `src/intent.rs`: a Merkle tree over a sorted, deduplicated set whose odd
 nodes are promoted to the next layer, its membership proofs and sub-scope proofs.
 */
module Intents {
  import opened Basics
  import opened Hashing

  datatype SiblingNode<+H> = SiblingNode(hash: H, isLeft: bool)

  datatype MerkleProof<+H> = MerkleProof(siblings: seq<SiblingNode<H>>)

  datatype SubScopeProof<+H> = SubScopeProof(subset: seq<H>, proofs: seq<MerkleProof<H>>)

  datatype IntentTree = IntentTree(leaves: seq<Hash>, layers: seq<seq<Hash>>)

  // ---------------------------------------------------------------- leaves under a hash

  /** The non-node hashes under `h`, left to right. */
  function Frontier(h: Hash): (f: seq<Hash>)
    ensures |f| > 0
  {
    if h.Node? then Frontier(h.left) + Frontier(h.right) else [h]
  }

  /** Everything a scope root commits to. */
  function Leaves(h: Hash): set<Hash> {
    Elems(Frontier(h))
  }

  function FrontierAll(s: seq<Hash>): seq<Hash> {
    if s == [] then [] else Frontier(s[0]) + FrontierAll(s[1..])
  }

  ghost predicate AllLeaves(s: seq<Hash>) {
    forall h :: h in s ==> !h.Node?
  }

  // ---------------------------------------------------------------- tree construction

  function NextLayer(s: seq<Hash>): (r: seq<Hash>)
    ensures |r| == (|s| + 1) / 2
  {
    if |s| <= 1 then s else [Node(s[0], s[1])] + NextLayer(s[2..])
  }

  /** Position `k` of a layer is over positions `2k` and `2k + 1` below, or over `2k` alone. */
  lemma {:induction false} NextLayerAt(s: seq<Hash>, k: nat)
    requires k < |NextLayer(s)|
    ensures 2 * k < |s|
    ensures NextLayer(s)[k] == if 2 * k + 1 < |s| then Node(s[2 * k], s[2 * k + 1]) else s[2 * k]
  {
    if |s| > 1 && k > 0 { NextLayerAt(s[2..], k - 1); }
  }

  function RootOf(s: seq<Hash>): Hash
    requires s != []
    decreases |s|
  {
    if |s| == 1 then s[0] else RootOf(NextLayer(s))
  }

  function LayersOf(s: seq<Hash>): (r: seq<seq<Hash>>)
    requires s != []
    ensures r != [] && r[0] == s && r[|r| - 1] == [RootOf(s)]
    decreases |s|
  {
    if |s| == 1 then [s] else [s] + LayersOf(NextLayer(s))
  }

  lemma SortDedupNonEmpty(s: seq<Hash>)
    requires s != []
    ensures SortDedup(s) != []
  {
    assert s[0] in Elems(SortDedup(s));
  }

  /** The tree over a set of intents. */
  function TreeOf(intents: seq<Hash>): IntentTree
    requires intents != []
  {
    SortDedupNonEmpty(intents);
    IntentTree(SortDedup(intents), LayersOf(SortDedup(intents)))
  }

  /** What `build` establishes and the private fields keep. */
  ghost predicate ValidTree(t: IntentTree) {
    t.leaves != [] && StrictlySorted(t.leaves) && t.layers == LayersOf(t.leaves)
  }

  /** One pass of `chunks(2)`: pairs become nodes, an odd last hash is promoted. */
  method PairUp(current: seq<Hash>) returns (next: seq<Hash>)
    ensures next == NextLayer(current)
  {
    next := [];
    var i := 0;
    while i < |current|
      invariant 0 <= i <= |current|
      invariant i == 2 * |next| || (i == |current| && |next| == (|current| + 1) / 2)
      invariant |next| <= (|current| + 1) / 2
      invariant forall k :: 0 <= k < |next| ==> next[k] == NextLayer(current)[k]
    {
      NextLayerAt(current, |next|);
      if i + 1 < |current| {
        next := next + [Node(current[i], current[i + 1])];
        i := i + 2;
      } else {
        next := next + [current[i]];
        i := i + 1;
      }
    }
  }

  lemma LayerAdded(before: seq<seq<Hash>>, current: seq<Hash>)
    requires |current| > 1
    ensures before + LayersOf(current)[1..] == (before + [NextLayer(current)]) + LayersOf(NextLayer(current))[1..]
  {
  }

  lemma TopLayer(before: seq<seq<Hash>>, current: seq<Hash>)
    requires |current| == 1
    ensures before + LayersOf(current)[1..] == before
  {
  }

  method Build(intents: seq<Hash>) returns (r: Result<IntentTree, A1Error>)
    ensures r.Err? <==> intents == []
    ensures r.Ok? ==> ValidTree(r.value) && r.value == TreeOf(intents)
    ensures r.Ok? ==> Elems(r.value.leaves) == Elems(intents)
  {
    if intents == [] {
      return Err(EmptyTree);
    }
    SortDedupNonEmpty(intents);
    var leaves := SortDedup(intents);
    var layers := [leaves];
    var current := leaves;
    while |current| > 1
      invariant |current| > 0
      invariant layers + LayersOf(current)[1..] == LayersOf(leaves)
      decreases |current|
    {
      var next := PairUp(current);
      LayerAdded(layers, current);
      layers := layers + [next];
      current := next;
    }
    TopLayer(layers, current);
    r := Ok(IntentTree(leaves, layers));
  }

  function Root(t: IntentTree): Hash
    requires ValidTree(t)
  {
    t.layers[|t.layers| - 1][0]
  }

  // ---------------------------------------------------------------- membership proofs

  function Climb(current: Hash, node: SiblingNode<Hash>): Hash {
    if node.isLeft then Node(node.hash, current) else Node(current, node.hash)
  }

  /** The root reached from `leaf` along a path. */
  function Fold(leaf: Hash, path: seq<SiblingNode<Hash>>): Hash
    decreases |path|
  {
    if path == [] then leaf else Fold(Climb(leaf, path[0]), path[1..])
  }

  predicate Verifies(proof: MerkleProof<Hash>, leaf: Hash, root: Hash) {
    Fold(leaf, proof.siblings) == root
  }

  method Verify(proof: MerkleProof<Hash>, leaf: Hash, root: Hash) returns (ok: bool)
    ensures ok <==> Verifies(proof, leaf, root)
  {
    var current := leaf;
    for i := 0 to |proof.siblings|
      invariant Fold(leaf, proof.siblings) == Fold(current, proof.siblings[i..])
    {
      var node := proof.siblings[i];
      assert proof.siblings[i..][0] == node && proof.siblings[i..][1..] == proof.siblings[i + 1..];
      current := if node.isLeft then Node(node.hash, current) else Node(current, node.hash);
    }
    ok := current == root;
  }

  /** The sibling entry that one layer contributes to a path. */
  function SiblingAt(s: seq<Hash>, pos: nat): seq<SiblingNode<Hash>> {
    var sibling := if pos % 2 == 0 then pos + 1 else pos - 1;
    if sibling < |s| then [SiblingNode(s[sibling], pos % 2 != 0)] else []
  }

  /** The siblings met on the way up from position `pos` of a layer. */
  function PathAt(s: seq<Hash>, pos: nat): seq<SiblingNode<Hash>>
    requires pos < |s|
    decreases |s|
  {
    if |s| == 1 then [] else SiblingAt(s, pos) + PathAt(NextLayer(s), pos / 2)
  }

  /** `binary_search` on a strictly sorted slice: the one position of `x`, if there is one. */
  function Search(s: seq<Hash>, x: Hash): (r: Option<nat>)
    ensures r.Some? ==> r.value < |s| && s[r.value] == x
    ensures r.None? <==> x !in s
  {
    if s == [] then None
    else if s[0] == x then Some(0)
    else
      var r := Search(s[1..], x);
      assert s == [s[0]] + s[1..];
      if r.Some? then Some(r.value + 1) else None
  }

  function ProofFor(t: IntentTree, x: Hash): Result<MerkleProof<Hash>, A1Error> {
    match Search(t.leaves, x)
    case None => Err(IntentNotFound)
    case Some(pos) => Ok(MerkleProof(PathAt(t.leaves, pos)))
  }

  lemma LayerStep(t: IntentTree, i: nat, layer: seq<Hash>)
    requires i + 1 < |t.layers| && layer != [] && LayersOf(layer) == t.layers[i..]
    ensures |layer| > 1 && t.layers[i] == layer && LayersOf(NextLayer(layer)) == t.layers[i + 1..]
  {
    assert t.layers[i] == t.layers[i..][0] && t.layers[i + 1..] == t.layers[i..][1..];
  }

  lemma LayersTop(t: IntentTree, layer: seq<Hash>)
    requires t.layers != [] && layer != [] && LayersOf(layer) == t.layers[|t.layers| - 1..]
    ensures |layer| == 1
  {
    assert |LayersOf(layer)| == 1;
  }

  lemma PathStep(before: seq<SiblingNode<Hash>>, s: seq<Hash>, pos: nat)
    requires pos < |s| && |s| > 1
    ensures before + PathAt(s, pos) == (before + SiblingAt(s, pos)) + PathAt(NextLayer(s), pos / 2)
  {
  }

  method Prove(t: IntentTree, intent: Hash) returns (r: Result<MerkleProof<Hash>, A1Error>)
    requires ValidTree(t)
    ensures r == ProofFor(t, intent)
  {
    var found := Search(t.leaves, intent);
    if found.None? {
      return Err(IntentNotFound);
    }
    var pos: nat := found.value;
    var siblings: seq<SiblingNode<Hash>> := [];
    ghost var path := PathAt(t.leaves, pos);
    ghost var layer := t.leaves;
    for i := 0 to |t.layers| - 1
      invariant layer != [] && pos < |layer|
      invariant LayersOf(layer) == t.layers[i..]
      invariant path == siblings + PathAt(layer, pos)
    {
      LayerStep(t, i, layer);
      PathStep(siblings, layer, pos);
      siblings := siblings + SiblingAt(t.layers[i], pos);
      pos := pos / 2;
      layer := NextLayer(layer);
    }
    LayersTop(t, layer);
    assert PathAt(layer, pos) == [] && path == siblings;
    r := Ok(MerkleProof(siblings));
  }

  function Contains(t: IntentTree, x: Hash): bool {
    Search(t.leaves, x).Some?
  }

  // ---------------------------------------------------------------- sub-scope proofs

  function FullPassthrough(): SubScopeProof<Hash> {
    SubScopeProof([], [])
  }

  function ProofsFor(t: IntentTree, intents: seq<Hash>): (r: Result<seq<MerkleProof<Hash>>, A1Error>)
    ensures r.Ok? <==> forall x :: x in intents ==> x in t.leaves
    ensures r.Ok? ==> |r.value| == |intents|
    ensures r.Ok? ==> forall i :: 0 <= i < |intents| ==> ProofFor(t, intents[i]) == Ok(r.value[i])
  {
    if intents == [] then Ok([])
    else
      assert intents == [intents[0]] + intents[1..];
      match ProofFor(t, intents[0])
      case Err(e) => Err(e)
      case Ok(p) =>
        match ProofsFor(t, intents[1..])
        case Err(e) => Err(e)
        case Ok(rest) => Ok([p] + rest)
  }

  /** `SubScopeProof::build`. */
  function BuildSubScope(parent: IntentTree, intents: seq<Hash>): Result<SubScopeProof<Hash>, A1Error> {
    match ProofsFor(parent, intents)
    case Err(e) => Err(e)
    case Ok(proofs) => Ok(SubScopeProof(intents, proofs))
  }

  /** What makes a sub-scope proof acceptable against a parent root. */
  predicate SubScopeOk(p: SubScopeProof<Hash>, parentRoot: Hash) {
    p.subset == [] ||
    (|p.subset| == |p.proofs| && forall i :: 0 <= i < |p.subset| ==> Verifies(p.proofs[i], p.subset[i], parentRoot))
  }

  function DerivedRoot(p: SubScopeProof<Hash>, parentRoot: Hash): Hash {
    if p.subset == [] then parentRoot else RootOf(TreeOf(p.subset).leaves)
  }

  method VerifyAndDeriveRoot(p: SubScopeProof<Hash>, parentRoot: Hash) returns (r: Result<Hash, A1Error>)
    ensures r.Ok? <==> SubScopeOk(p, parentRoot)
    ensures r.Ok? ==> r.value == DerivedRoot(p, parentRoot)
  {
    if p.subset == [] {
      return Ok(parentRoot);
    }
    if |p.subset| != |p.proofs| {
      return Err(InvalidSubScopeProof);
    }
    for i := 0 to |p.subset|
      invariant forall j :: 0 <= j < i ==> Verifies(p.proofs[j], p.subset[j], parentRoot)
    {
      var ok := Verify(p.proofs[i], p.subset[i], parentRoot);
      if !ok {
        return Err(InvalidSubScopeProof);
      }
    }
    var sub := Build(p.subset);
    match sub
    case Err(e) => return Err(e);
    case Ok(tree) => return Ok(Root(tree));
  }
}
