/** The chain verifier of `src/chain.rs`: the checks of its loop and the loop itself. */
module Chains {
  import opened Basics
  import opened Encoding
  import opened Hashing
  import opened Intents
  import opened Preimages
  import opened Certs

  /** The value of a chain. */
  datatype Chain = Chain(principal: Key, scope: Hash, certs: seq<Cert>, drift: U64, namespace: Option<Text>)

  datatype ChainFingerprint = ChainFingerprint(principal: Key, scope: Hash, namespace: Text, certs: seq<Fingerprint>)

  datatype Validation = Validation(
    depth: nat, scopeRoot: Hash, verifiedAt: U64, nonces: seq<Nonce>, fingerprints: seq<Fingerprint>,
    chainFingerprint: ChainFingerprint)

  function Nonces(certs: seq<Cert>): seq<Nonce> {
    seq(|certs|, i requires 0 <= i < |certs| => certs[i].nonce)
  }

  function Fingerprints(certs: seq<Cert>): seq<Fingerprint> {
    seq(|certs|, i requires 0 <= i < |certs| => FingerprintOf(certs[i]))
  }

  /** An absent namespace and an empty one are hashed alike. */
  function FingerprintOfChain(c: Chain): ChainFingerprint {
    ChainFingerprint(c.principal, c.scope, NamespaceText(c.namespace), Fingerprints(c.certs))
  }

  // ---------------------------------------------------------------- the checks of one hop

  function ScopeBefore(c: Chain, i: nat): Hash
    requires i <= |c.certs|
  {
    if i == 0 then c.scope else c.certs[i - 1].scopeRoot
  }

  function DelegatorBefore(c: Chain, i: nat): Key
    requires i <= |c.certs|
  {
    if i == 0 then c.principal else c.certs[i - 1].delegate
  }

  predicate LinkOk(c: Chain, i: nat)
    requires i < |c.certs|
  {
    c.certs[i].delegator == DelegatorBefore(c, i) && c.certs[i].version == CERT_VERSION
  }

  predicate InWindow(cert: Cert, drift: U64, now: U64) {
    cert.issuedAt <= SatAdd(now, drift) && SatSub(now, drift) <= cert.expiration
  }

  predicate ExpiryOk(c: Chain, i: nat)
    requires i < |c.certs|
  {
    i > 0 ==> c.certs[i].expiration <= c.certs[i - 1].expiration
  }

  predicate DepthOk(c: Chain, i: nat)
    requires i < |c.certs|
  {
    forall j :: 0 <= j < i ==> i + 1 <= c.certs[j].maxDepth
  }

  predicate NonceFresh(c: Chain, i: nat)
    requires i < |c.certs|
  {
    forall j :: 0 <= j < i ==> c.certs[j].nonce != c.certs[i].nonce
  }

  predicate ScopeStep(parent: Hash, cert: Cert) {
    SubScopeOk(cert.scopeProof, parent) && DerivedRoot(cert.scopeProof, parent) == cert.scopeRoot
  }

  /** Everything the loop asks of certificate `i`. */
  predicate HopOk(c: Chain, i: nat, now: U64)
    requires i < |c.certs|
  {
    LinkOk(c, i) && InWindow(c.certs[i], c.drift, now) && ExpiryOk(c, i) && DepthOk(c, i) && NonceFresh(c, i) &&
    ScopeStep(ScopeBefore(c, i), c.certs[i])
  }

  predicate HopsOk(c: Chain, now: U64) {
    forall i :: 0 <= i < |c.certs| ==> HopOk(c, i, now)
  }

  predicate Signed(certs: seq<Cert>) {
    forall i :: 0 <= i < |certs| ==> VerifySignature(certs[i])
  }

  /** The checks before and after the loop. */
  predicate EndsOk(c: Chain, agent: Key, intent: Hash, proof: MerkleProof<Hash>) {
    0 < |c.certs| <= 255 && DelegatorBefore(c, |c.certs|) == agent && Signed(c.certs) &&
    Verifies(proof, intent, ScopeBefore(c, |c.certs|))
  }

  /** When `validate_structure` accepts. */
  predicate Accepts(c: Chain, agent: Key, intent: Hash, proof: MerkleProof<Hash>, now: U64) {
    EndsOk(c, agent, intent, proof) && HopsOk(c, now)
  }

  function ValidationOf(c: Chain, now: U64): Validation {
    Validation(|c.certs|, ScopeBefore(c, |c.certs|), now, Nonces(c.certs), Fingerprints(c.certs), FingerprintOfChain(c))
  }

  // ---------------------------------------------------------------- the loop's variables

  /** What the loop carries from one certificate to the next. */
  datatype LoopState = LoopState(
    currentScope: Hash, expectedDelegator: Key, depth: nat, maxAllowedDepth: Byte, parentExpiry: U64,
    seenNonces: seq<Nonce>)

  function Advance(st: LoopState, cert: Cert): LoopState {
    LoopState(cert.scopeRoot, cert.delegate, st.depth + 1,
              if cert.maxDepth < st.maxAllowedDepth then cert.maxDepth else st.maxAllowedDepth,
              cert.expiration, st.seenNonces + [cert.nonce])
  }

  /** The loop variables after the first `i` certificates. */
  ghost predicate Reflects(c: Chain, i: nat, st: LoopState) {
    i <= |c.certs| && st.currentScope == ScopeBefore(c, i) && st.expectedDelegator == DelegatorBefore(c, i) &&
    st.depth == i &&
    (forall j :: 0 <= j < i ==> st.maxAllowedDepth <= c.certs[j].maxDepth) &&
    (st.maxAllowedDepth == 255 || exists j :: 0 <= j < i && c.certs[j].maxDepth == st.maxAllowedDepth) &&
    st.parentExpiry == (if i == 0 then U64_MAX else c.certs[i - 1].expiration) &&
    st.seenNonces == Nonces(c.certs)[..i]
  }

  predicate Passes(cert: Cert, st: LoopState, early: U64, late: U64) {
    cert.delegator == st.expectedDelegator && cert.version == CERT_VERSION &&
    cert.issuedAt <= early && late <= cert.expiration <= st.parentExpiry &&
    st.depth + 1 <= st.maxAllowedDepth && cert.nonce !in st.seenNonces && ScopeStep(st.currentScope, cert)
  }

  /** The scan of the nonces met so far. */
  method Seen(seen: seq<Nonce>, nonce: Nonce) returns (found: bool)
    ensures found <==> nonce in seen
  {
    for i := 0 to |seen|
      invariant nonce !in seen[..i]
    {
      if seen[i] == nonce {
        return true;
      }
    }
    assert seen[..|seen|] == seen;
    found := false;
  }

  /** The scope check of one hop: pass-through keeps the root, a sub-scope proof derives it. */
  method Escalates(cert: Cert, currentScope: Hash) returns (bad: bool)
    ensures bad <==> !ScopeStep(currentScope, cert)
  {
    var passthrough := cert.scopeProof.subset == [] && cert.scopeProof.proofs == [];
    if passthrough {
      return cert.scopeRoot != currentScope;
    }
    var derived := VerifyAndDeriveRoot(cert.scopeProof, currentScope);
    bad := derived.Err? || derived.value != cert.scopeRoot;
  }

  /** One iteration's refusals, in the order of the code. */
  method CheckCert(cert: Cert, i: nat, st: LoopState, early: U64, late: U64) returns (refusal: Option<A1Error>)
    ensures refusal.None? <==> Passes(cert, st, early, late)
  {
    if cert.delegator != st.expectedDelegator {
      return Some(BrokenLinkage(i));
    }
    if cert.version != CERT_VERSION {
      return Some(UnsupportedVersion);
    }
    if early < cert.issuedAt {
      return Some(NotYetValid(i));
    }
    if cert.expiration < late {
      return Some(Expired(i));
    }
    if cert.expiration > st.parentExpiry {
      return Some(TemporalViolation(i));
    }
    if st.depth + 1 > st.maxAllowedDepth {
      return Some(MaxDepthExceeded(i));
    }
    var replayed := Seen(st.seenNonces, cert.nonce);
    if replayed {
      return Some(NonceReplay);
    }
    var escalates := Escalates(cert, st.currentScope);
    if escalates {
      return Some(ScopeEscalation(i));
    }
    refusal := None;
  }

  /** The running minimum and the nonce scan decide exactly the declared checks of hop `i`. */
  lemma LoopChecksHop(c: Chain, i: nat, st: LoopState, now: U64)
    requires i < |c.certs| <= 255 && Reflects(c, i, st)
    ensures Passes(c.certs[i], st, SatAdd(now, c.drift), SatSub(now, c.drift)) <==> HopOk(c, i, now)
  {
    var seen := Nonces(c.certs)[..i];
    assert c.certs[i].nonce !in seen <==> NonceFresh(c, i) by {
      assert forall j :: 0 <= j < i ==> seen[j] == c.certs[j].nonce;
    }
    assert st.depth + 1 <= st.maxAllowedDepth <==> DepthOk(c, i);
  }

  lemma LoopAdvances(c: Chain, i: nat, st: LoopState)
    requires i < |c.certs| && Reflects(c, i, st)
    ensures Reflects(c, i + 1, Advance(st, c.certs[i]))
  {
    var next := Advance(st, c.certs[i]);
    assert Nonces(c.certs)[..i + 1] == Nonces(c.certs)[..i] + [c.certs[i].nonce];
    if next.maxAllowedDepth == c.certs[i].maxDepth {
      assert exists j :: 0 <= j < i + 1 && c.certs[j].maxDepth == next.maxAllowedDepth;
    }
  }

  /** The loop over the certificates. */
  method WalkCerts(c: Chain, now: U64) returns (r: Result<LoopState, A1Error>, fingerprints: seq<Fingerprint>)
    requires 0 < |c.certs| <= 255
    ensures r.Ok? <==> HopsOk(c, now)
    ensures r.Ok? ==> Reflects(c, |c.certs|, r.value) && fingerprints == Fingerprints(c.certs)
  {
    var toleratedEarly := SatAdd(now, c.drift);
    var toleratedLate := SatSub(now, c.drift);
    var st := LoopState(c.scope, c.principal, 0, 255, 0xFFFF_FFFF_FFFF_FFFF, []);
    fingerprints := [];
    for i := 0 to |c.certs|
      invariant forall j :: 0 <= j < i ==> HopOk(c, j, now)
      invariant Reflects(c, i, st) && fingerprints == Fingerprints(c.certs)[..i]
    {
      LoopChecksHop(c, i, st, now);
      var refusal := CheckCert(c.certs[i], i, st, toleratedEarly, toleratedLate);
      if refusal.Some? {
        return Err(refusal.value), fingerprints;
      }
      LoopAdvances(c, i, st);
      st := Advance(st, c.certs[i]);
      fingerprints := fingerprints + [FingerprintOf(c.certs[i])];
    }
    assert Fingerprints(c.certs)[..|c.certs|] == Fingerprints(c.certs);
    r := Ok(st);
  }

  /** `verify_batch`, followed on failure by the search for the culprit. */
  method FirstBadSignature(certs: seq<Cert>) returns (bad: Option<nat>)
    ensures bad.None? <==> Signed(certs)
    ensures bad.Some? ==> bad.value < |certs| && !VerifySignature(certs[bad.value])
    ensures bad.Some? ==> forall i :: 0 <= i < bad.value ==> VerifySignature(certs[i])
  {
    for i := 0 to |certs|
      invariant forall j :: 0 <= j < i ==> VerifySignature(certs[j])
    {
      if !VerifySignature(certs[i]) {
        return Some(i);
      }
    }
    bad := None;
  }

  /** The final check: an empty proof must name the scope itself, a longer one leads to it. */
  method IntentAuthorized(proof: MerkleProof<Hash>, intent: Hash, scope: Hash) returns (ok: bool)
    ensures ok <==> Verifies(proof, intent, scope)
  {
    if proof.siblings == [] {
      ok := intent == scope;
    } else {
      ok := Verify(proof, intent, scope);
    }
  }

  // ---------------------------------------------------------------- the verifier

  class DyoloChain {
    var principalPk: Key
    var principalScope: Hash
    var certs: seq<Cert>
    var driftTolerance: U64
    var namespace: Option<Text>

    function Snapshot(): Chain
      reads this
    {
      Chain(principalPk, principalScope, certs, driftTolerance, namespace)
    }

    constructor (pk: Key, scope: Hash)
      ensures Snapshot() == Chain(pk, scope, [], 15, None)
    {
      principalPk, principalScope, certs, driftTolerance, namespace := pk, scope, [], 15, None;
    }

    method WithNamespace(ns: Text)
      modifies this
      ensures Snapshot() == old(Snapshot()).(scope := Ns(ns, old(principalScope)), namespace := Some(ns))
    {
      principalScope := Ns(ns, principalScope);
      namespace := Some(ns);
    }

    method WithDriftTolerance(secs: U64)
      modifies this
      ensures Snapshot() == old(Snapshot()).(drift := secs)
    {
      driftTolerance := secs;
    }

    method Push(cert: Cert)
      modifies this
      ensures Snapshot() == old(Snapshot()).(certs := old(certs) + [cert])
    {
      certs := certs + [cert];
    }

    method ValidateStructure(agent: Key, intent: Hash, proof: MerkleProof<Hash>, now: U64)
      returns (r: Result<Validation, A1Error>)
      ensures r.Ok? <==> Accepts(Snapshot(), agent, intent, proof, now)
      ensures r.Ok? ==> r.value == ValidationOf(Snapshot(), now)
    {
      var c := Snapshot();
      if certs == [] {
        return Err(EmptyChain);
      }
      if certs[0].delegator != principalPk {
        assert !HopOk(c, 0, now);
        return Err(RootMismatch);
      }
      if |certs| > 255 {
        return Err(MaxDepthExceeded(255));
      }
      var walked, fingerprints := WalkCerts(c, now);
      if walked.Err? {
        return Err(walked.error);
      }
      var st := walked.value;
      if st.expectedDelegator != agent {
        return Err(UnauthorizedLeaf);
      }
      var badSignature := FirstBadSignature(certs);
      if badSignature.Some? {
        return Err(InvalidSignature(badSignature.value));
      }
      var authorized := IntentAuthorized(proof, intent, st.currentScope);
      if !authorized {
        return Err(ScopeViolation);
      }
      assert Nonces(certs)[..|certs|] == Nonces(certs);
      r := Ok(Validation(st.depth, st.currentScope, now, st.seenNonces, fingerprints, FingerprintOfChain(c)));
    }
  }
}
