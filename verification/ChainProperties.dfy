/** What an accepted chain guarantees, and which honest chains are accepted. */
module ChainProperties {
  import opened Basics
  import opened Encoding
  import opened Hashing
  import opened Intents
  import opened IntentProperties
  import opened Preimages
  import opened Certs
  import opened Chains

  // ---------------------------------------------------------------- closed form

  predicate LinkedAt(c: Chain, i: nat)
    requires i < |c.certs|
  {
    c.certs[i].delegator == DelegatorBefore(c, i)
  }

  ghost predicate Linked(c: Chain) {
    forall i :: 0 <= i < |c.certs| ==> LinkedAt(c, i)
  }

  ghost predicate ExpiriesNonIncreasing(certs: seq<Cert>) {
    forall i, j :: 0 <= i < j < |certs| ==> certs[j].expiration <= certs[i].expiration
  }

  /** No certificate but the last is outrun by the whole chain. */
  ghost predicate DepthsSuffice(certs: seq<Cert>) {
    forall i :: 0 <= i < |certs| - 1 ==> |certs| <= certs[i].maxDepth
  }

  ghost predicate DistinctNonces(certs: seq<Cert>) {
    forall i, j :: 0 <= i < j < |certs| ==> certs[i].nonce != certs[j].nonce
  }

  predicate ScopeStepAt(c: Chain, i: nat)
    requires i < |c.certs|
  {
    ScopeStep(ScopeBefore(c, i), c.certs[i])
  }

  ghost predicate ScopesStep(c: Chain) {
    forall i :: 0 <= i < |c.certs| ==> ScopeStepAt(c, i)
  }

  ghost predicate Versioned(certs: seq<Cert>) {
    forall i :: 0 <= i < |certs| ==> certs[i].version == CERT_VERSION
  }

  /** Everything the loop asks of a chain apart from the time. */
  ghost predicate WellLinked(c: Chain) {
    Linked(c) && Versioned(c.certs) && ExpiriesNonIncreasing(c.certs) && DepthsSuffice(c.certs) &&
    DistinctNonces(c.certs) && ScopesStep(c)
  }

  ghost predicate AllInWindow(certs: seq<Cert>, drift: U64, now: U64) {
    forall i :: 0 <= i < |certs| ==> InWindow(certs[i], drift, now)
  }

  /** The acceptance conditions that do not depend on the time. */
  ghost predicate Timeless(c: Chain, agent: Key, intent: Hash, proof: MerkleProof<Hash>) {
    EndsOk(c, agent, intent, proof) && WellLinked(c)
  }

  function LatestIssue(certs: seq<Cert>): (m: nat)
    ensures forall i :: 0 <= i < |certs| ==> certs[i].issuedAt <= m
    ensures certs != [] ==> exists i :: 0 <= i < |certs| && certs[i].issuedAt == m
  {
    if certs == [] then 0
    else
      var n := |certs| - 1;
      var rest := LatestIssue(certs[..n]);
      if certs[n].issuedAt >= rest then certs[n].issuedAt
      else
        assert certs[..n] != [];
        assert exists i :: 0 <= i < n && certs[..n][i].issuedAt == rest;
        rest
  }

  lemma WindowArithmetic(issued: U64, expiration: U64, drift: U64, now: U64)
    ensures issued <= SatAdd(now, drift) <==> issued <= now + drift
    ensures SatSub(now, drift) <= expiration <==> now <= expiration + drift
  {
  }

  lemma {:induction false} ExpiriesChain(certs: seq<Cert>, i: nat, j: nat)
    requires forall k, m :: 0 <= k && m == k + 1 < |certs| ==> certs[m].expiration <= certs[k].expiration
    requires i <= j < |certs|
    ensures certs[j].expiration <= certs[i].expiration
    decreases j - i
  {
    if i < j { ExpiriesChain(certs, i, j - 1); }
  }

  lemma {:induction false} HopsGiveShape(c: Chain, now: U64)
    requires HopsOk(c, now)
    ensures WellLinked(c) && AllInWindow(c.certs, c.drift, now)
  {
    var n := |c.certs|;
    forall k, m | 0 <= k && m == k + 1 < n ensures c.certs[m].expiration <= c.certs[k].expiration {
      assert HopOk(c, m, now);
    }
    forall i, j | 0 <= i < j < n ensures c.certs[j].expiration <= c.certs[i].expiration {
      ExpiriesChain(c.certs, i, j);
    }
    forall i | 0 <= i < n - 1 ensures n <= c.certs[i].maxDepth { assert HopOk(c, n - 1, now); }
    forall i, j | 0 <= i < j < n ensures c.certs[i].nonce != c.certs[j].nonce { assert HopOk(c, j, now); }
    forall i | 0 <= i < n
      ensures LinkedAt(c, i) && c.certs[i].version == CERT_VERSION
      ensures ScopeStepAt(c, i) && InWindow(c.certs[i], c.drift, now)
    {
      assert HopOk(c, i, now);
    }
  }

  lemma {:induction false} ShapeGivesHop(c: Chain, now: U64, i: nat)
    requires WellLinked(c) && AllInWindow(c.certs, c.drift, now) && i < |c.certs|
    ensures HopOk(c, i, now)
  {
    assert LinkedAt(c, i) && ScopeStepAt(c, i);
    assert DepthOk(c, i) && NonceFresh(c, i) && ExpiryOk(c, i);
  }

  /** The hop-by-hop checks amount to the shape of the chain plus the window of every certificate. */
  lemma {:induction false} HopsInClosedForm(c: Chain, now: U64)
    ensures HopsOk(c, now) <==> WellLinked(c) && AllInWindow(c.certs, c.drift, now)
  {
    if WellLinked(c) && AllInWindow(c.certs, c.drift, now) {
      forall i | 0 <= i < |c.certs| ensures HopOk(c, i, now) { ShapeGivesHop(c, now, i); }
    }
    if HopsOk(c, now) {
      HopsGiveShape(c, now);
    }
  }

  /** Not before the latest issue time and not after the last expiry, give or take the drift. */
  ghost predicate InInterval(certs: seq<Cert>, drift: U64, now: U64) {
    certs != [] && LatestIssue(certs) <= now + drift && now <= certs[|certs| - 1].expiration + drift
  }

  lemma {:induction false} WindowsAreOneInterval(certs: seq<Cert>, drift: U64, now: U64)
    requires certs != [] && ExpiriesNonIncreasing(certs)
    ensures AllInWindow(certs, drift, now) <==> InInterval(certs, drift, now)
  {
    var n := |certs|;
    forall i | 0 <= i < n
      ensures InWindow(certs[i], drift, now) <==> certs[i].issuedAt <= now + drift && now <= certs[i].expiration + drift
    {
      WindowArithmetic(certs[i].issuedAt, certs[i].expiration, drift, now);
    }
    var latest :| 0 <= latest < n && certs[latest].issuedAt == LatestIssue(certs);
    assert forall i :: 0 <= i < n ==> certs[n - 1].expiration <= certs[i].expiration;
    assert AllInWindow(certs, drift, now) ==> InWindow(certs[latest], drift, now) && InWindow(certs[n - 1], drift, now);
  }

  /** The accepted times form one interval, fixed by the latest issue time and the last expiry. */
  lemma {:induction false} AcceptanceInClosedForm(
      c: Chain, agent: Key, intent: Hash, proof: MerkleProof<Hash>, now: U64)
    ensures Accepts(c, agent, intent, proof, now) <==>
            Timeless(c, agent, intent, proof) && InInterval(c.certs, c.drift, now)
  {
    HopsInClosedForm(c, now);
    if c.certs != [] && ExpiriesNonIncreasing(c.certs) {
      WindowsAreOneInterval(c.certs, c.drift, now);
    }
  }

  // ---------------------------------------------------------------- who signed what

  /**
   Every certificate of an accepted chain carries the signature of the key it was delegated by,
   the principal's first, over exactly its own fields; the last one names the agent.
   */
  lemma {:induction false} AcceptedIsSigned(
      c: Chain, agent: Key, intent: Hash, proof: MerkleProof<Hash>, now: U64, i: nat)
    requires Accepts(c, agent, intent, proof, now) && i < |c.certs|
    ensures var cert := c.certs[i];
            var parent := if i == 0 then c.principal else c.certs[i - 1].delegate;
            cert.delegator == parent &&
            cert.signature ==
            Signature(parent,
                      Signable(1, parent, cert.delegate, cert.scopeRoot, cert.scopeProof, cert.nonce, cert.issuedAt,
                               cert.expiration, cert.maxDepth, ExtPreimage(cert.extensions)))
    ensures agent == c.certs[|c.certs| - 1].delegate
  {
    assert HopOk(c, i, now);
    assert VerifySignature(c.certs[i]);
  }

  /** What a key issues is signed by that key, carries what the builder was given and is not otherwise changed. */
  lemma IssuedCarriesBuilder(b: CertBuilder, signer: Key)
    ensures BuildCert(b, signer).Ok? <==> b.issuedAt < b.expiration
    ensures var cert := IssueCert(b, signer);
            VerifySignature(cert) && cert.version == 1 && cert.delegator == signer && cert.signature.signer == signer &&
            CertBuilder(cert.delegate, cert.scopeRoot, cert.scopeProof, cert.nonce, cert.issuedAt, cert.expiration,
                        cert.maxDepth, cert.extensions) == b
  {
  }

  // ---------------------------------------------------------------- narrowing

  lemma {:induction false} StepNarrows(parent: Hash, cert: Cert)
    requires ScopeStep(parent, cert)
    ensures Leaves(cert.scopeRoot) <= Leaves(parent)
  {
    DerivedScopeNarrows(cert.scopeProof, parent);
  }

  lemma HopNarrows(c: Chain, i: nat, above: Hash)
    requires ScopesStep(c) && i < |c.certs| && Leaves(ScopeBefore(c, i)) <= Leaves(above)
    ensures Leaves(ScopeBefore(c, i + 1)) <= Leaves(above)
  {
    assert ScopeStepAt(c, i);
    StepNarrows(ScopeBefore(c, i), c.certs[i]);
  }

  /** Along an accepted chain every scope commits to no more than any earlier one. */
  lemma {:induction false} ScopesNarrow(c: Chain, i: nat, j: nat)
    requires ScopesStep(c) && i <= j <= |c.certs|
    ensures Leaves(ScopeBefore(c, j)) <= Leaves(ScopeBefore(c, i))
    decreases j - i
  {
    if i < j {
      ScopesNarrow(c, i, j - 1);
      HopNarrows(c, j - 1, ScopeBefore(c, i));
    }
  }

  /** An accepted intent lies within every scope on the way back to the principal. */
  lemma {:induction false} AcceptedIntentIsNarrow(
      c: Chain, agent: Key, intent: Hash, proof: MerkleProof<Hash>, now: U64, i: nat)
    requires Accepts(c, agent, intent, proof, now) && i <= |c.certs|
    ensures Leaves(intent) <= Leaves(ScopeBefore(c, |c.certs|)) <= Leaves(ScopeBefore(c, i)) <= Leaves(c.scope)
    ensures !intent.Node? ==> intent in Leaves(c.scope)
  {
    HopsInClosedForm(c, now);
    VerifiedIsCommitted(proof, intent, ScopeBefore(c, |c.certs|));
    ScopesNarrow(c, i, |c.certs|);
    ScopesNarrow(c, 0, i);
  }

  /** For a principal who committed to a list of leaf intents, nothing outside the list is accepted. */
  lemma {:induction false} OnlyCommittedIntents(
      c: Chain, committed: seq<Hash>, agent: Key, intent: Hash, proof: MerkleProof<Hash>, now: U64)
    requires committed != [] && AllLeaves(committed) && c.scope == TreeRoot(committed) && !intent.Node?
    requires Accepts(c, agent, intent, proof, now)
    ensures intent in committed
  {
    AcceptedIntentIsNarrow(c, agent, intent, proof, now, 0);
    RootCommitsToLeaves(committed);
    assert intent in Elems(committed);
  }

  /** A certificate that hands on the whole scope: passed through, or proved part by part from itself. */
  predicate RepeatsScope(cert: Cert, scope: Hash) {
    var p := cert.scopeProof;
    cert.scopeRoot == scope &&
    (p.subset == [] ||
     (|p.subset| == |p.proofs| &&
      forall i :: 0 <= i < |p.subset| ==> p.subset[i] == scope && p.proofs[i].siblings == []))
  }

  lemma {:induction false} RepeatedLeafRoot(s: seq<Hash>, h: Hash)
    requires s != [] && forall i :: 0 <= i < |s| ==> s[i] == h
    ensures TreeRoot(s) == h
  {
    assert s[0] in Elems(s);
    assert Elems(s) == {h};
    OneElementRoot(s);
  }

  /** A scope that is a single leaf cannot be narrowed further: a hop keeps to it exactly by repeating it. */
  lemma {:induction false} LeafScopeIsFixed(parent: Hash, cert: Cert)
    requires !parent.Node?
    ensures ScopeStep(parent, cert) <==> RepeatsScope(cert, parent)
  {
    var p := cert.scopeProof;
    if p.subset != [] && |p.subset| == |p.proofs| {
      forall i | 0 <= i < |p.subset|
        ensures Verifies(p.proofs[i], p.subset[i], parent) <==> p.subset[i] == parent && p.proofs[i].siblings == []
      {
        LeafVerifiesItself(p.proofs[i], p.subset[i], parent);
      }
      if forall i :: 0 <= i < |p.subset| ==> p.subset[i] == parent { RepeatedLeafRoot(p.subset, parent); }
    }
  }

  lemma LeafScopeRepeats(c: Chain, i: nat)
    requires ScopesStep(c) && i < |c.certs| && !ScopeBefore(c, i).Node?
    ensures ScopeBefore(c, i + 1) == ScopeBefore(c, i) && RepeatsScope(c.certs[i], ScopeBefore(c, i))
  {
    assert ScopeStepAt(c, i);
    LeafScopeIsFixed(ScopeBefore(c, i), c.certs[i]);
  }

  lemma {:induction false} LeafScopePersists(c: Chain, i: nat)
    requires ScopesStep(c) && !c.scope.Node? && i <= |c.certs|
    ensures ScopeBefore(c, i) == c.scope
  {
    if i > 0 {
      LeafScopePersists(c, i - 1);
      LeafScopeRepeats(c, i - 1);
    }
  }

  ghost predicate AllRepeatScope(c: Chain) {
    forall i :: 0 <= i < |c.certs| ==> RepeatsScope(c.certs[i], c.scope)
  }

  lemma {:induction false} LeafScopesStep(c: Chain)
    requires !c.scope.Node?
    ensures ScopesStep(c) <==> AllRepeatScope(c)
  {
    if ScopesStep(c) {
      forall i | 0 <= i < |c.certs| ensures RepeatsScope(c.certs[i], c.scope) {
        LeafScopePersists(c, i);
        LeafScopeRepeats(c, i);
      }
    }
    if AllRepeatScope(c) {
      forall i | 0 <= i < |c.certs| ensures ScopeStepAt(c, i) {
        assert i > 0 ==> RepeatsScope(c.certs[i - 1], c.scope);
        assert ScopeBefore(c, i) == c.scope;
        LeafScopeIsFixed(c.scope, c.certs[i]);
      }
    }
  }

  /**
   Under a namespaced principal scope exactly that scope itself is accepted, with the empty proof
   and along certificates that repeat it, so tenants never mix.
   */
  lemma {:induction false} NamespacesAreIsolated(
      c: Chain, ns: Text, scope: Hash, agent: Key, intent: Hash, proof: MerkleProof<Hash>, now: U64)
    requires c.scope == Ns(ns, scope)
    ensures Accepts(c, agent, intent, proof, now) <==>
            intent == Ns(ns, scope) && proof.siblings == [] && AllRepeatScope(c) &&
            0 < |c.certs| <= 255 && DelegatorBefore(c, |c.certs|) == agent && Signed(c.certs) && Linked(c) &&
            Versioned(c.certs) && ExpiriesNonIncreasing(c.certs) && DepthsSuffice(c.certs) && DistinctNonces(c.certs) &&
            AllInWindow(c.certs, c.drift, now)
  {
    HopsInClosedForm(c, now);
    LeafScopesStep(c);
    if ScopesStep(c) {
      LeafScopePersists(c, |c.certs|);
      LeafVerifiesItself(proof, intent, c.scope);
    }
  }

  // ---------------------------------------------------------------- one certificate that passes its scope through

  function PassThrough(
      principal: Key, scope: Hash, delegate: Key, issued: U64, expiration: U64, nonce: Nonce, drift: U64,
      namespace: Option<Text>): Chain
  {
    var cert := IssueCert(NewBuilder(delegate, scope, issued, expiration, nonce), principal);
    Chain(principal, scope, [cert], drift, namespace)
  }

  lemma FirstHop(c: Chain, now: U64)
    requires |c.certs| == 1 && c.certs[0].delegator == c.principal && c.certs[0].version == CERT_VERSION
    requires c.certs[0].scopeProof == FullPassthrough() && c.certs[0].scopeRoot == c.scope
    ensures HopOk(c, 0, now) <==>
            c.certs[0].issuedAt <= now + c.drift && now <= c.certs[0].expiration + c.drift
  {
    WindowArithmetic(c.certs[0].issuedAt, c.certs[0].expiration, c.drift, now);
  }

  lemma OneEnd(c: Chain, agent: Key, x: Hash, proof: MerkleProof<Hash>)
    requires |c.certs| == 1 && Signed(c.certs)
    ensures EndsOk(c, agent, x, proof) <==> agent == c.certs[0].delegate && Verifies(proof, x, c.certs[0].scopeRoot)
  {
  }

  lemma SignedOne(cert: Cert)
    requires VerifySignature(cert)
    ensures Signed([cert])
  {
  }

  /** A single signed certificate that passes the scope through accepts whatever is proved against it in its window. */
  lemma {:induction false} OneCertExactly(c: Chain, agent: Key, x: Hash, proof: MerkleProof<Hash>, now: U64)
    requires |c.certs| == 1 && c.certs[0].delegator == c.principal && c.certs[0].version == CERT_VERSION
    requires VerifySignature(c.certs[0])
    requires c.certs[0].scopeProof == FullPassthrough() && c.certs[0].scopeRoot == c.scope
    ensures Accepts(c, agent, x, proof, now) <==>
            agent == c.certs[0].delegate && Verifies(proof, x, c.scope) &&
            c.certs[0].issuedAt <= now + c.drift && now <= c.certs[0].expiration + c.drift
  {
    FirstHop(c, now);
    SignedOne(c.certs[0]);
    assert c.certs == [c.certs[0]];
    OneEnd(c, agent, x, proof);
    assert HopsOk(c, now) <==> HopOk(c, 0, now);
  }

  /** Whichever the scope is; no lifetime is asked for. */
  lemma {:induction false} PassThroughExactly(
      principal: Key, scope: Hash, delegate: Key, issued: U64, expiration: U64, nonce: Nonce, drift: U64,
      namespace: Option<Text>, agent: Key, x: Hash, proof: MerkleProof<Hash>, now: U64)
    ensures Accepts(PassThrough(principal, scope, delegate, issued, expiration, nonce, drift, namespace),
                    agent, x, proof, now) <==>
            agent == delegate && Verifies(proof, x, scope) && issued <= now + drift && now <= expiration + drift
  {
    var c := PassThrough(principal, scope, delegate, issued, expiration, nonce, drift, namespace);
    OneCertExactly(c, agent, x, proof, now);
  }

  // ---------------------------------------------------------------- fingerprints of chains

  /** The fingerprint of a signed chain fixes its principal, scope, namespace and certificates. */
  lemma {:induction false} ChainFingerprintIdentifies(a: Chain, b: Chain)
    requires Signed(a.certs) && Signed(b.certs)
    requires forall i :: 0 <= i < |a.certs| ==> ExtFits(a.certs[i].extensions)
    requires forall i :: 0 <= i < |b.certs| ==> ExtFits(b.certs[i].extensions)
    ensures FingerprintOfChain(a) == FingerprintOfChain(b) <==>
            a.principal == b.principal && a.scope == b.scope && a.certs == b.certs &&
            NamespaceText(a.namespace) == NamespaceText(b.namespace)
  {
    if Fingerprints(a.certs) == Fingerprints(b.certs) {
      assert |Fingerprints(a.certs)| == |a.certs| && |Fingerprints(b.certs)| == |b.certs|;
      forall i | 0 <= i < |a.certs| ensures a.certs[i] == b.certs[i] {
        assert Fingerprints(a.certs)[i] == Fingerprints(b.certs)[i];
        FingerprintIdentifies(a.certs[i], b.certs[i]);
      }
    }
  }

  // ---------------------------------------------------------------- prefixes

  function Cut(c: Chain, k: nat): Chain
    requires k <= |c.certs|
  {
    c.(certs := c.certs[..k])
  }

  lemma HopOfCut(c: Chain, k: nat, i: nat, now: U64)
    requires i < k <= |c.certs|
    ensures HopOk(Cut(c, k), i, now) <==> HopOk(c, i, now)
  {
    var d := Cut(c, k);
    assert ScopeBefore(d, i) == ScopeBefore(c, i) && DelegatorBefore(d, i) == DelegatorBefore(c, i);
    assert DepthOk(d, i) <==> DepthOk(c, i);
    assert NonceFresh(d, i) <==> NonceFresh(c, i);
  }

  lemma {:induction false} HopsOfCut(c: Chain, k: nat, now: U64)
    requires HopsOk(c, now) && k <= |c.certs|
    ensures HopsOk(Cut(c, k), now)
  {
    forall i | 0 <= i < k ensures HopOk(Cut(c, k), i, now) {
      assert HopOk(c, i, now);
      HopOfCut(c, k, i, now);
    }
  }

  lemma {:induction false} EndsOfCut(c: Chain, k: nat)
    requires 0 < k <= |c.certs| <= 255 && Signed(c.certs)
    ensures EndsOk(Cut(c, k), c.certs[k - 1].delegate, c.certs[k - 1].scopeRoot, MerkleProof([]))
  {
    var d := Cut(c, k);
    assert d.certs[k - 1] == c.certs[k - 1];
    forall i | 0 <= i < k ensures VerifySignature(d.certs[i]) { assert d.certs[i] == c.certs[i]; }
  }

  /** Every prefix of an accepted chain is itself accepted, for its own delegate and scope. */
  lemma {:induction false} PrefixesAreAccepted(
      c: Chain, agent: Key, intent: Hash, proof: MerkleProof<Hash>, now: U64, k: nat)
    requires Accepts(c, agent, intent, proof, now) && 0 < k <= |c.certs|
    ensures Accepts(Cut(c, k), c.certs[k - 1].delegate, c.certs[k - 1].scopeRoot, MerkleProof([]), now)
  {
    HopsOfCut(c, k, now);
    EndsOfCut(c, k);
  }

  // ---------------------------------------------------------------- honest chains

  /** One honest delegation: the holder hands `intents` on to `delegate`. */
  datatype Hop = Hop(
    delegate: Key, intents: seq<Hash>, nonce: Nonce, issuedAt: U64, expiration: U64, maxDepth: Byte,
    extensions: map<Text, ExtValue>)

  function ParentAt(committed: seq<Hash>, hops: seq<Hop>, i: nat): seq<Hash>
    requires i <= |hops|
  {
    if i == 0 then committed else hops[i - 1].intents
  }

  function HolderAt(principal: Key, hops: seq<Hop>, i: nat): Key
    requires i <= |hops|
  {
    if i == 0 then principal else hops[i - 1].delegate
  }

  ghost predicate Delegable(parent: seq<Hash>, hop: Hop) {
    parent != [] && hop.intents != [] && Elems(hop.intents) <= Elems(parent) && hop.issuedAt < hop.expiration
  }

  /** Each hop delegates a non-empty part of what it was given, for a proper span of time. */
  ghost predicate Descending(committed: seq<Hash>, hops: seq<Hop>) {
    committed != [] && AllLeaves(committed) &&
    forall i :: 0 <= i < |hops| ==> Delegable(ParentAt(committed, hops, i), hops[i])
  }

  /** The certificate of one hop, by `SubScopeProof::build`, `IntentTree::build` and `CertBuilder::build`. */
  function HonestCert(parent: seq<Hash>, holder: Key, hop: Hop): Cert
    requires Delegable(parent, hop)
  {
    BuiltSubScopeIsAccepted(parent, hop.intents);
    var proof := BuildSubScope(TreeOf(parent), hop.intents).value;
    var builder := NewBuilder(hop.delegate, TreeRoot(hop.intents), hop.issuedAt, hop.expiration, hop.nonce)
                   .(scopeProof := proof, maxDepth := hop.maxDepth, extensions := hop.extensions);
    BuildCert(builder, holder).value
  }

  function HonestCertAt(principal: Key, committed: seq<Hash>, hops: seq<Hop>, i: nat): Cert
    requires Descending(committed, hops) && i < |hops|
  {
    HonestCert(ParentAt(committed, hops, i), HolderAt(principal, hops, i), hops[i])
  }

  function HonestChain(principal: Key, committed: seq<Hash>, hops: seq<Hop>, drift: U64): Chain
    requires Descending(committed, hops)
  {
    Chain(principal, TreeRoot(committed),
          seq(|hops|, i requires 0 <= i < |hops| => HonestCertAt(principal, committed, hops, i)), drift, None)
  }

  ghost predicate RepeatsHop(cert: Cert, hop: Hop) {
    hop.intents != [] && cert.scopeRoot == TreeRoot(hop.intents) && VerifySignature(cert) &&
    cert.version == CERT_VERSION &&
    cert.delegate == hop.delegate && cert.expiration == hop.expiration && cert.issuedAt == hop.issuedAt &&
    cert.nonce == hop.nonce && cert.maxDepth == hop.maxDepth
  }

  /** The certificate repeats its hop, is signed by the holder and narrows the holder's scope. */
  lemma {:induction false} HonestCertFacts(parent: seq<Hash>, holder: Key, hop: Hop)
    requires Delegable(parent, hop)
    ensures var cert := HonestCert(parent, holder, hop);
            RepeatsHop(cert, hop) && cert.delegator == holder && ScopeStep(TreeRoot(parent), cert)
  {
    BuiltSubScopeIsAccepted(parent, hop.intents);
  }

  lemma PartsAreLeaves(parent: seq<Hash>, part: seq<Hash>)
    requires AllLeaves(parent) && Elems(part) <= Elems(parent)
    ensures AllLeaves(part)
  {
    forall h | h in part ensures !h.Node? { assert h in Elems(parent); }
  }

  lemma {:induction false} DescendingLeaves(committed: seq<Hash>, hops: seq<Hop>, i: nat)
    requires Descending(committed, hops) && i <= |hops|
    ensures AllLeaves(ParentAt(committed, hops, i))
  {
    if i > 0 {
      DescendingLeaves(committed, hops, i - 1);
      assert Delegable(ParentAt(committed, hops, i - 1), hops[i - 1]);
      PartsAreLeaves(ParentAt(committed, hops, i - 1), hops[i - 1].intents);
    }
  }

  ghost predicate HopsInTime(hops: seq<Hop>, drift: U64, now: U64) {
    forall i :: 0 <= i < |hops| ==> hops[i].issuedAt <= now + drift && now <= hops[i].expiration + drift
  }

  ghost predicate HopsOrdered(hops: seq<Hop>) {
    forall i, j :: 0 <= i < j < |hops| ==> hops[j].expiration <= hops[i].expiration && hops[i].nonce != hops[j].nonce
  }

  ghost predicate HopDepthsSuffice(hops: seq<Hop>) {
    forall i :: 0 <= i < |hops| - 1 ==> |hops| <= hops[i].maxDepth
  }

  /** What the delegators have to keep to besides handing on only what they hold. */
  ghost predicate WithinLimits(hops: seq<Hop>, drift: U64, now: U64) {
    0 < |hops| <= 255 && HopsOrdered(hops) && HopDepthsSuffice(hops) && HopsInTime(hops, drift, now)
  }

  /** A builder that was not told otherwise makes certificates for chains of up to 16. */
  lemma {:induction false} DefaultDepthAllows(
      hops: seq<Hop>, delegate: Key, scopeRoot: Hash, issued: U64, expiration: U64, nonce: Nonce)
    requires forall i :: 0 <= i < |hops| ==>
               hops[i].maxDepth == NewBuilder(delegate, scopeRoot, issued, expiration, nonce).maxDepth
    ensures HopDepthsSuffice(hops) <==> |hops| <= 16
  {
    if |hops| > 1 { assert hops[0].maxDepth == DEFAULT_MAX_DEPTH; }
  }

  lemma {:induction false} SameOrder(certs: seq<Cert>, hops: seq<Hop>)
    requires |hops| == |certs|
    requires forall i :: 0 <= i < |hops| ==>
               certs[i].expiration == hops[i].expiration && certs[i].nonce == hops[i].nonce &&
               certs[i].maxDepth == hops[i].maxDepth
    ensures HopsOrdered(hops) <==> ExpiriesNonIncreasing(certs) && DistinctNonces(certs)
    ensures HopDepthsSuffice(hops) <==> DepthsSuffice(certs)
  {
  }

  lemma {:induction false} HonestOrder(certs: seq<Cert>, hops: seq<Hop>)
    requires |hops| == |certs|
    requires forall i :: 0 <= i < |hops| ==> RepeatsHop(certs[i], hops[i])
    ensures HopsOrdered(hops) <==> ExpiriesNonIncreasing(certs) && DistinctNonces(certs)
    ensures HopDepthsSuffice(hops) <==> DepthsSuffice(certs)
  {
    assert forall i :: 0 <= i < |hops| ==>
             certs[i].expiration == hops[i].expiration && certs[i].nonce == hops[i].nonce &&
             certs[i].maxDepth == hops[i].maxDepth;
    SameOrder(certs, hops);
  }

  /** The limits of an honest chain are those of its hops. */
  lemma {:induction false} HonestLimits(certs: seq<Cert>, hops: seq<Hop>, drift: U64, now: U64)
    requires |hops| == |certs|
    requires forall i :: 0 <= i < |hops| ==> RepeatsHop(certs[i], hops[i])
    ensures HopsOrdered(hops) <==> ExpiriesNonIncreasing(certs) && DistinctNonces(certs)
    ensures HopDepthsSuffice(hops) <==> DepthsSuffice(certs)
    ensures HopsInTime(hops, drift, now) <==> AllInWindow(certs, drift, now)
  {
    forall i | 0 <= i < |hops|
      ensures InWindow(certs[i], drift, now) <==> hops[i].issuedAt <= now + drift && now <= hops[i].expiration + drift
    {
      assert RepeatsHop(certs[i], hops[i]);
      WindowArithmetic(hops[i].issuedAt, hops[i].expiration, drift, now);
    }
    HonestOrder(certs, hops);
  }

  lemma {:induction false} HonestHop(principal: Key, committed: seq<Hash>, hops: seq<Hop>, drift: U64, i: nat)
    requires Descending(committed, hops) && i < |hops|
    ensures var c := HonestChain(principal, committed, hops, drift);
            RepeatsHop(c.certs[i], hops[i]) && c.certs[i].delegator == HolderAt(principal, hops, i) &&
            ScopeStep(TreeRoot(ParentAt(committed, hops, i)), c.certs[i])
  {
    HonestCertFacts(ParentAt(committed, hops, i), HolderAt(principal, hops, i), hops[i]);
  }

  /** An honest chain is linked, signed and narrowing by construction. */
  lemma {:induction false} HonestShape(principal: Key, committed: seq<Hash>, hops: seq<Hop>, drift: U64)
    requires Descending(committed, hops)
    ensures var c := HonestChain(principal, committed, hops, drift);
            Linked(c) && ScopesStep(c) && forall i :: 0 <= i < |hops| ==> RepeatsHop(c.certs[i], hops[i])
  {
    var c := HonestChain(principal, committed, hops, drift);
    forall i | 0 <= i < |hops| ensures RepeatsHop(c.certs[i], hops[i]) {
      HonestHop(principal, committed, hops, drift, i);
    }
    forall i | 0 <= i < |hops| ensures LinkedAt(c, i) {
      HonestHop(principal, committed, hops, drift, i);
    }
    forall i | 0 <= i < |hops| ensures ScopeStepAt(c, i) {
      HonestHop(principal, committed, hops, drift, i);
      assert ScopeBefore(c, i) == TreeRoot(ParentAt(committed, hops, i));
    }
  }

  lemma {:induction false} HonestEnds(c: Chain, hops: seq<Hop>, agent: Key, x: Hash, proof: MerkleProof<Hash>)
    requires 0 < |hops| == |c.certs| && forall i :: 0 <= i < |hops| ==> RepeatsHop(c.certs[i], hops[i])
    ensures Versioned(c.certs) && hops[|hops| - 1].intents != []
    ensures EndsOk(c, agent, x, proof) <==>
            |hops| <= 255 && agent == hops[|hops| - 1].delegate &&
            Verifies(proof, x, TreeRoot(hops[|hops| - 1].intents))
  {
    assert RepeatsHop(c.certs[|hops| - 1], hops[|hops| - 1]);
  }

  /** A linked and narrowing chain that repeats its hops is accepted exactly within their limits. */
  lemma {:induction false} RepeatedHopsAccepted(
      c: Chain, hops: seq<Hop>, agent: Key, x: Hash, proof: MerkleProof<Hash>, now: U64)
    requires Linked(c) && ScopesStep(c)
    requires 0 < |hops| == |c.certs| && forall i :: 0 <= i < |hops| ==> RepeatsHop(c.certs[i], hops[i])
    ensures hops[|hops| - 1].intents != []
    ensures Accepts(c, agent, x, proof, now) <==>
            WithinLimits(hops, c.drift, now) && agent == hops[|hops| - 1].delegate &&
            Verifies(proof, x, TreeRoot(hops[|hops| - 1].intents))
  {
    HonestEnds(c, hops, agent, x, proof);
    HopsInClosedForm(c, now);
    HonestLimits(c.certs, hops, c.drift, now);
  }

  lemma {:induction false} LastHopProof(committed: seq<Hash>, hops: seq<Hop>, x: Hash, proof: MerkleProof<Hash>)
    requires Descending(committed, hops) && hops != []
    ensures hops[|hops| - 1].intents != [] && AllLeaves(hops[|hops| - 1].intents)
    ensures !x.Node? ==> (Verifies(proof, x, TreeRoot(hops[|hops| - 1].intents)) <==>
                          ProofFor(TreeOf(hops[|hops| - 1].intents), x) == Ok(proof))
  {
    var n := |hops|;
    assert Delegable(ParentAt(committed, hops, n - 1), hops[n - 1]);
    DescendingLeaves(committed, hops, n);
    if !x.Node? { ProofIsUnique(hops[n - 1].intents, x, proof); }
  }

  /**
   An honest chain is accepted exactly within those limits, for the last delegate and with a proof
   against the last hop's root. For a leaf intent that is exactly the proof `prove` returns.
   */
  lemma {:induction false} HonestChainsAreAcceptedExactly(
      principal: Key, committed: seq<Hash>, hops: seq<Hop>, drift: U64, agent: Key, x: Hash,
      proof: MerkleProof<Hash>, now: U64)
    requires Descending(committed, hops) && hops != []
    ensures hops[|hops| - 1].intents != []
    ensures Accepts(HonestChain(principal, committed, hops, drift), agent, x, proof, now) <==>
            WithinLimits(hops, drift, now) && agent == hops[|hops| - 1].delegate &&
            Verifies(proof, x, TreeRoot(hops[|hops| - 1].intents))
    ensures !x.Node? ==> (Verifies(proof, x, TreeRoot(hops[|hops| - 1].intents)) <==>
                          ProofFor(TreeOf(hops[|hops| - 1].intents), x) == Ok(proof))
  {
    LastHopProof(committed, hops, x, proof);
    HonestShape(principal, committed, hops, drift);
    RepeatedHopsAccepted(HonestChain(principal, committed, hops, drift), hops, agent, x, proof, now);
  }

  /**
   Some proof is accepted exactly for what is under the last hop's root: its intents and, given as
   intents, the inner nodes over them.
   */
  lemma {:induction false} HonestChainsAdmitTheirScope(
      principal: Key, committed: seq<Hash>, hops: seq<Hop>, drift: U64, x: Hash, now: U64)
    requires Descending(committed, hops) && hops != [] && WithinLimits(hops, drift, now)
    ensures hops[|hops| - 1].intents != []
    ensures var c, last := HonestChain(principal, committed, hops, drift), hops[|hops| - 1];
            ((exists proof :: Accepts(c, last.delegate, x, proof, now)) <==> Under(x, TreeRoot(last.intents))) &&
            (!x.Node? ==> (Under(x, TreeRoot(last.intents)) <==> x in last.intents))
  {
    var last := hops[|hops| - 1];
    var c := HonestChain(principal, committed, hops, drift);
    LastHopProof(committed, hops, x, MerkleProof([]));
    forall proof: MerkleProof<Hash>
      ensures Accepts(c, last.delegate, x, proof, now) <==> Verifies(proof, x, TreeRoot(last.intents))
    {
      HonestChainsAreAcceptedExactly(principal, committed, hops, drift, last.delegate, x, proof, now);
    }
    ProvableExactly(x, TreeRoot(last.intents));
    if !x.Node? {
      LeavesAreUnder(x, TreeRoot(last.intents));
      RootCommitsToLeaves(last.intents);
      assert x in last.intents <==> x in Elems(last.intents);
    }
    if proof :| Verifies(proof, x, TreeRoot(last.intents)) { assert Accepts(c, last.delegate, x, proof, now); }
  }
}
