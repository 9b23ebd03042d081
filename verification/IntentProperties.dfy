/** What an intent-tree root and its proofs mean. */
module IntentProperties {
  import opened Basics
  import opened Hashing
  import opened Intents

  // ---------------------------------------------------------------- the root's frontier

  lemma {:induction false} NextLayerKeepsFrontier(s: seq<Hash>)
    ensures FrontierAll(NextLayer(s)) == FrontierAll(s)
  {
    if |s| > 1 {
      NextLayerKeepsFrontier(s[2..]);
      var n := [Node(s[0], s[1])] + NextLayer(s[2..]);
      assert n[1..] == NextLayer(s[2..]);
      assert s[1..][1..] == s[2..];
      assert FrontierAll(s[1..]) == Frontier(s[1]) + FrontierAll(s[2..]);
    }
  }

  /** Pairing and promotion keep the leaves in order: the root's frontier is the bottom layer's. */
  lemma {:induction false} RootFrontier(s: seq<Hash>)
    requires s != []
    ensures Frontier(RootOf(s)) == FrontierAll(s)
    decreases |s|
  {
    if |s| == 1 {
      assert s[1..] == [];
    } else {
      NextLayerKeepsFrontier(s);
      RootFrontier(NextLayer(s));
    }
  }

  lemma {:induction false} FrontierOfLeaves(s: seq<Hash>)
    requires AllLeaves(s)
    ensures FrontierAll(s) == s
  {
    if s != [] {
      assert s == [s[0]] + s[1..];
      FrontierOfLeaves(s[1..]);
    }
  }

  lemma {:induction false} FrontierMembers(s: seq<Hash>, x: Hash)
    ensures x in FrontierAll(s) <==> exists i :: 0 <= i < |s| && x in Frontier(s[i])
  {
    if s != [] {
      FrontierMembers(s[1..], x);
      if exists i :: 0 <= i < |s[1..]| && x in Frontier(s[1..][i]) {
        var i :| 0 <= i < |s[1..]| && x in Frontier(s[1..][i]);
        assert x in Frontier(s[i + 1]);
      }
      if i :| 0 <= i < |s| && x in Frontier(s[i]) {
        if i > 0 { assert s[1..][i - 1] == s[i]; }
      }
    }
  }

  lemma {:induction false} FrontierHasNoNodes(h: Hash)
    ensures AllLeaves(Frontier(h))
  {
    if h.Node? {
      FrontierHasNoNodes(h.left);
      FrontierHasNoNodes(h.right);
    }
  }

  function TreeRoot(intents: seq<Hash>): Hash
    requires intents != []
  {
    RootOf(TreeOf(intents).leaves)
  }

  /** A root commits to exactly the leaves under the given hashes. */
  lemma {:induction false} RootCommitment(intents: seq<Hash>, x: Hash)
    requires intents != []
    ensures x in Leaves(TreeRoot(intents)) <==> exists h :: h in intents && x in Leaves(h)
  {
    var s := TreeOf(intents).leaves;
    RootFrontier(s);
    FrontierMembers(s, x);
    assert Elems(s) == Elems(intents);
    if h :| h in intents && x in Leaves(h) {
      assert h in Elems(s);
      var i :| 0 <= i < |s| && s[i] == h;
      assert x in Frontier(s[i]);
    }
    if i :| 0 <= i < |s| && x in Frontier(s[i]) {
      assert s[i] in Elems(intents) && x in Leaves(s[i]);
    }
  }

  /** For leaf intents the committed set is the set itself. */
  lemma {:induction false} RootCommitsToLeaves(intents: seq<Hash>)
    requires intents != [] && AllLeaves(intents)
    ensures Frontier(TreeRoot(intents)) == TreeOf(intents).leaves
    ensures Leaves(TreeRoot(intents)) == Elems(intents)
  {
    var s := TreeOf(intents).leaves;
    forall h | h in s ensures !h.Node? { assert h in Elems(s); }
    RootFrontier(s);
    FrontierOfLeaves(s);
  }

  /** The root is a canonical commitment: equal roots exactly for equal sets of leaves. */
  lemma {:induction false} RootIsCanonical(a: seq<Hash>, b: seq<Hash>)
    requires a != [] && b != [] && AllLeaves(a) && AllLeaves(b)
    ensures TreeRoot(a) == TreeRoot(b) <==> Elems(a) == Elems(b)
  {
    RootCommitsToLeaves(a);
    RootCommitsToLeaves(b);
    if Elems(a) == Elems(b) {
      StrictlySortedUnique(SortDedup(a), SortDedup(b));
    }
  }

  lemma {:induction false} SingletonRoot(h: Hash)
    ensures TreeOf([h]).leaves == [h] && TreeRoot([h]) == h
  {
    assert Elems([h]) == {h} && StrictlySorted([h]);
    StrictlySortedUnique(SortDedup([h]), [h]);
  }

  lemma {:induction false} OneElementRoot(a: seq<Hash>)
    requires a != [] && |Elems(a)| == 1
    ensures Elems(a) == {TreeRoot(a)}
  {
    var x := a[0];
    assert x in Elems(a) && |Elems(a) - {x}| == 0;
    assert Elems(a) == {x} == Elems([x]);
    SingletonRoot(x);
    StrictlySortedUnique(SortDedup(a), SortDedup([x]));
  }

  /**
   Inner nodes given as intents break this: the root of any list, as the one intent of another,
   has the same root again, and is another set unless the list has one element only.
   */
  lemma {:induction false} NodesAsIntentsCollide(a: seq<Hash>)
    requires a != []
    ensures TreeRoot([TreeRoot(a)]) == TreeRoot(a)
    ensures Elems([TreeRoot(a)]) == Elems(a) <==> |Elems(a)| == 1
  {
    var root := TreeRoot(a);
    SingletonRoot(root);
    assert Elems([root]) == {root};
    if |Elems(a)| == 1 { OneElementRoot(a); }
  }

  // ---------------------------------------------------------------- membership proofs

  /** One step up lands on the parent, which is the hash itself when its sibling is missing. */
  lemma {:induction false} SiblingLeadsToParent(s: seq<Hash>, pos: nat)
    requires pos < |s| && |s| > 1
    ensures pos / 2 < |NextLayer(s)|
    ensures Fold(s[pos], SiblingAt(s, pos)) == NextLayer(s)[pos / 2]
  {
    var parent := pos / 2;
    NextLayerAt(s, parent);
    if pos % 2 == 0 {
      assert pos == 2 * parent;
    } else {
      assert pos == 2 * parent + 1;
    }
  }

  lemma {:induction false} FoldAppend(x: Hash, p: seq<SiblingNode<Hash>>, q: seq<SiblingNode<Hash>>)
    ensures Fold(x, p + q) == Fold(Fold(x, p), q)
    decreases |p|
  {
    if p == [] {
      assert p + q == q;
    } else {
      assert (p + q)[1..] == p[1..] + q;
      FoldAppend(Climb(x, p[0]), p[1..], q);
    }
  }

  /** The path taken at any position of any layer leads to the root, whatever was promoted. */
  lemma {:induction false} PathReachesRoot(s: seq<Hash>, pos: nat)
    requires pos < |s|
    ensures Fold(s[pos], PathAt(s, pos)) == RootOf(s)
    decreases |s|
  {
    if |s| > 1 {
      SiblingLeadsToParent(s, pos);
      FoldAppend(s[pos], SiblingAt(s, pos), PathAt(NextLayer(s), pos / 2));
      PathReachesRoot(NextLayer(s), pos / 2);
    }
  }

  /** A proof exists exactly for the members, and it verifies. */
  lemma {:induction false} ProofsAreComplete(intents: seq<Hash>, x: Hash)
    requires intents != []
    ensures ProofFor(TreeOf(intents), x).Ok? <==> x in intents
    ensures ProofFor(TreeOf(intents), x).Ok? ==> Verifies(ProofFor(TreeOf(intents), x).value, x, TreeRoot(intents))
  {
    var t := TreeOf(intents);
    assert x in t.leaves <==> x in Elems(t.leaves);
    var found := Search(t.leaves, x);
    if found.Some? {
      PathReachesRoot(t.leaves, found.value);
    }
  }

  lemma {:induction false} FoldKeepsLeaves(x: Hash, path: seq<SiblingNode<Hash>>)
    ensures Leaves(x) <= Leaves(Fold(x, path))
    decreases |path|
  {
    if path != [] {
      FoldKeepsLeaves(Climb(x, path[0]), path[1..]);
      assert Leaves(x) <= Leaves(Climb(x, path[0]));
    }
  }

  /** Whatever a proof shows against a root, the root committed to it. */
  lemma {:induction false} VerifiedIsCommitted(proof: MerkleProof<Hash>, x: Hash, root: Hash)
    requires Verifies(proof, x, root)
    ensures Leaves(x) <= Leaves(root)
    ensures !x.Node? ==> x in Leaves(root)
  {
    FoldKeepsLeaves(x, proof.siblings);
    if !x.Node? { assert x in Leaves(x); }
  }

  /** A leaf has a verifying proof exactly when the tree contains it. */
  lemma {:induction false} ProofsAreSound(intents: seq<Hash>, x: Hash, proof: MerkleProof<Hash>)
    requires intents != [] && AllLeaves(intents) && !x.Node?
    requires Verifies(proof, x, TreeRoot(intents))
    ensures Contains(TreeOf(intents), x) && x in intents
  {
    VerifiedIsCommitted(proof, x, TreeRoot(intents));
    RootCommitsToLeaves(intents);
    assert x in Elems(TreeOf(intents).leaves);
  }

  /** `contains` is membership in the list the tree was built from. */
  lemma {:induction false} ContainsExactly(intents: seq<Hash>, x: Hash)
    requires intents != []
    ensures Contains(TreeOf(intents), x) <==> x in intents
  {
    assert x in TreeOf(intents).leaves <==> x in Elems(TreeOf(intents).leaves);
    assert x in intents <==> x in Elems(intents);
  }

  // ---------------------------------------------------------------- one proof per leaf

  lemma {:induction false} FoldLast(x: Hash, path: seq<SiblingNode<Hash>>)
    requires path != []
    ensures Fold(x, path) == Climb(Fold(x, path[..|path| - 1]), path[|path| - 1])
    decreases |path|
  {
    if |path| == 1 {
      assert path[..0] == [] && path[1..] == [];
    } else {
      FoldLast(Climb(x, path[0]), path[1..]);
      assert path[1..][..|path| - 2] == path[..|path| - 1][1..];
    }
  }

  ghost predicate Distinct(s: seq<Hash>) {
    forall i, j :: 0 <= i < j < |s| ==> s[i] != s[j]
  }

  lemma {:induction false} DistinctHalves(a: seq<Hash>, b: seq<Hash>)
    requires Distinct(a + b)
    ensures Distinct(a) && Distinct(b)
    ensures forall x :: x in a ==> x !in b
  {
    var s := a + b;
    assert forall i :: 0 <= i < |a| ==> s[i] == a[i];
    assert forall j :: 0 <= j < |b| ==> s[|a| + j] == b[j];
  }

  /** In a tree without repeated leaves two paths from one leaf to the root are the same path. */
  lemma {:induction false} PathsAreUnique(x: Hash, p: seq<SiblingNode<Hash>>, q: seq<SiblingNode<Hash>>)
    requires !x.Node? && Fold(x, p) == Fold(x, q) && Distinct(Frontier(Fold(x, p)))
    ensures p == q
    decreases |p|
  {
    if p != [] { FoldLast(x, p); }
    if q != [] { FoldLast(x, q); }
    if p != [] && q != [] {
      var p0, q0 := p[..|p| - 1], q[..|q| - 1];
      var root := Fold(x, p);
      var fl, fr := Frontier(root.left), Frontier(root.right);
      assert Frontier(root) == fl + fr;
      FoldKeepsLeaves(x, p0);
      FoldKeepsLeaves(x, q0);
      assert x in Leaves(x) && x in Leaves(Fold(x, p0)) && x in Leaves(Fold(x, q0));
      DistinctHalves(fl, fr);
      assert p[|p| - 1] == q[|q| - 1];
      PathsAreUnique(x, p0, q0);
      assert p == p0 + [p[|p| - 1]] && q == q0 + [q[|q| - 1]];
    }
  }

  /** The proof that verifies for a leaf is the one `prove` returns, and no other. */
  lemma {:induction false} ProofIsUnique(intents: seq<Hash>, x: Hash, proof: MerkleProof<Hash>)
    requires intents != [] && AllLeaves(intents) && !x.Node?
    ensures Verifies(proof, x, TreeRoot(intents)) <==> ProofFor(TreeOf(intents), x) == Ok(proof)
  {
    ProofsAreComplete(intents, x);
    if Verifies(proof, x, TreeRoot(intents)) {
      ProofsAreSound(intents, x, proof);
      RootCommitsToLeaves(intents);
      SortDedupDistinct(intents);
      var honest := ProofFor(TreeOf(intents), x).value;
      PathsAreUnique(x, proof.siblings, honest.siblings);
    }
  }

  // ---------------------------------------------------------------- what can be proved against a root

  /** `x` is the root itself or a leaf or inner node below it. */
  predicate Under(x: Hash, root: Hash) {
    x == root || (root.Node? && (Under(x, root.left) || Under(x, root.right)))
  }

  lemma {:induction false} LeavesAreUnder(x: Hash, root: Hash)
    requires !x.Node?
    ensures x in Leaves(root) <==> Under(x, root)
  {
    if root.Node? {
      LeavesAreUnder(x, root.left);
      LeavesAreUnder(x, root.right);
    }
  }

  lemma {:induction false} FoldIsAbove(x: Hash, path: seq<SiblingNode<Hash>>)
    ensures Under(x, Fold(x, path))
    decreases |path|
  {
    if path != [] {
      FoldLast(x, path);
      FoldIsAbove(x, path[..|path| - 1]);
    }
  }

  lemma {:induction false} PathFromBelow(x: Hash, root: Hash) returns (proof: MerkleProof<Hash>)
    requires Under(x, root)
    ensures Verifies(proof, x, root)
  {
    if x == root {
      proof := MerkleProof([]);
    } else if Under(x, root.left) {
      var below := PathFromBelow(x, root.left);
      var last := SiblingNode(root.right, false);
      proof := MerkleProof(below.siblings + [last]);
      FoldAppend(x, below.siblings, [last]);
    } else {
      var below := PathFromBelow(x, root.right);
      var last := SiblingNode(root.left, true);
      proof := MerkleProof(below.siblings + [last]);
      FoldAppend(x, below.siblings, [last]);
    }
  }

  /** A proof against a root exists for exactly what is under it, its inner nodes included. */
  lemma {:induction false} ProvableExactly(x: Hash, root: Hash)
    ensures (exists proof :: Verifies(proof, x, root)) <==> Under(x, root)
  {
    if proof :| Verifies(proof, x, root) { FoldIsAbove(x, proof.siblings); }
    if Under(x, root) { var proof := PathFromBelow(x, root); }
  }

  /** Against a leaf only the leaf itself verifies, with the empty proof. */
  lemma {:induction false} LeafVerifiesItself(proof: MerkleProof<Hash>, x: Hash, root: Hash)
    requires !root.Node?
    ensures Verifies(proof, x, root) <==> x == root && proof.siblings == []
  {
    if proof.siblings != [] { FoldLast(x, proof.siblings); }
  }

  // ---------------------------------------------------------------- sub-scopes

  /** A derived scope commits to nothing its parent did not commit to. */
  lemma {:induction false} DerivedScopeNarrows(p: SubScopeProof<Hash>, parentRoot: Hash)
    requires SubScopeOk(p, parentRoot)
    ensures Leaves(DerivedRoot(p, parentRoot)) <= Leaves(parentRoot)
  {
    if p.subset != [] {
      forall x | x in Leaves(TreeRoot(p.subset)) ensures x in Leaves(parentRoot) {
        RootCommitment(p.subset, x);
        var h :| h in p.subset && x in Leaves(h);
        var i :| 0 <= i < |p.subset| && p.subset[i] == h;
        VerifiedIsCommitted(p.proofs[i], h, parentRoot);
      }
    }
  }

  /** `SubScopeProof::build` succeeds exactly for sub-lists of the parent, and what it builds is accepted. */
  lemma {:induction false} BuiltSubScopeIsAccepted(parent: seq<Hash>, intents: seq<Hash>)
    requires parent != []
    ensures BuildSubScope(TreeOf(parent), intents).Ok? <==> Elems(intents) <= Elems(parent)
    ensures BuildSubScope(TreeOf(parent), intents).Ok? ==>
              var p := BuildSubScope(TreeOf(parent), intents).value;
              p.subset == intents && SubScopeOk(p, TreeRoot(parent))
  {
    var t := TreeOf(parent);
    assert Elems(t.leaves) == Elems(parent);
    assert (forall x :: x in intents ==> x in t.leaves) <==> Elems(intents) <= Elems(parent) by {
      assert forall x :: x in t.leaves <==> x in Elems(parent) by {
        forall x ensures x in t.leaves <==> x in Elems(parent) { assert x in t.leaves <==> x in Elems(t.leaves); }
      }
      assert forall x :: x in intents <==> x in Elems(intents);
    }
    if BuildSubScope(t, intents).Ok? {
      var p := BuildSubScope(t, intents).value;
      forall i | 0 <= i < |intents| ensures Verifies(p.proofs[i], intents[i], TreeRoot(parent)) {
        ProofsAreComplete(parent, intents[i]);
      }
    }
  }
}
