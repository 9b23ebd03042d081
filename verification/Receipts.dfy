/** What the receipts of `authorize` and `authorize_batch` say. */
module Receipts {
  import opened Basics
  import opened Encoding
  import opened Hashing
  import opened Intents
  import opened IntentProperties
  import opened Preimages
  import opened Certs
  import opened Chains
  import opened ChainProperties
  import opened NonceStores
  import opened Authorization

  /**
   A receipt for a request on a chain: the request's intent, proved against the scope of the last
   certificate and within every scope before, the length of the chain, the time and the namespace.
   */
  ghost predicate Describes(r: Receipt, c: Chain, req: Request, at: U64) {
    c.certs != [] && r.chainDepth == |c.certs| && r.intent == req.intent && r.verifiedAt == at &&
    r.namespace == c.namespace && r.verifiedScopeRoot == c.certs[|c.certs| - 1].scopeRoot &&
    Verifies(req.proof, r.intent, r.verifiedScopeRoot) &&
    Leaves(r.intent) <= Leaves(r.verifiedScopeRoot) <= Leaves(c.scope)
  }

  lemma {:induction false} AcceptedIsDescribed(c: Chain, agent: Key, req: Request, now: U64, at: U64)
    requires Accepts(c, agent, req.intent, req.proof, now)
    ensures Describes(ReceiptOf(c, req.intent, at), c, req, at)
  {
    AcceptedIntentIsNarrow(c, agent, req.intent, req.proof, now, 0);
  }

  /** The receipt of a granted request describes it. */
  lemma {:induction false} ReceiptDescribes(
      c: Chain, agent: Key, req: Request, now: U64, revoked: set<Fingerprint>, nonces: Deadlines, storeNow: U64,
      at: U64)
    requires Grants(c, agent, req, now, revoked, nonces, storeNow)
    ensures Describes(ReceiptOf(c, req.intent, at), c, req, at)
  {
    AcceptedIsDescribed(c, agent, req, now, at);
  }

  /** So does every receipt in the result of a batch, each for the request at its own index. */
  lemma {:induction false} BatchReceiptsDescribe(
      b: BatchCall, nonces: Deadlines, storeNow: U64, r: BatchResult, i: nat)
    requires BatchResultOk(b, nonces, storeNow, r) && i < |b.requests| && r.receipts[i].Some?
    ensures Describes(r.receipts[i].value, b.chain, b.requests[i], b.receiptNow)
  {
    assert GivesReceipt(b, i, nonces, storeNow);
    AcceptedIsDescribed(b.chain, b.agent, b.requests[i], b.now, b.receiptNow);
  }

  /** And receipts with one chain fingerprint come from one chain. */
  lemma {:induction false} ReceiptIdentifiesChain(a: Chain, x: Hash, s: U64, b: Chain, y: Hash, t: U64)
    requires Signed(a.certs) && Signed(b.certs)
    requires forall i :: 0 <= i < |a.certs| ==> ExtFits(a.certs[i].extensions)
    requires forall i :: 0 <= i < |b.certs| ==> ExtFits(b.certs[i].extensions)
    ensures ReceiptOf(a, x, s).chainFingerprint == ReceiptOf(b, y, t).chainFingerprint <==>
            a.principal == b.principal && a.scope == b.scope && a.certs == b.certs &&
            NamespaceText(a.namespace) == NamespaceText(b.namespace)
  {
    ChainFingerprintIdentifies(a, b);
  }

  /**
   Where a batch gives no receipt its error tells why: a revoked certificate, a replayed nonce once
   every request verified, or else the index of the request, for the chain or its own proof.
   */
  lemma {:induction false} BatchErrorsExplain(
      b: BatchCall, nonces: Deadlines, storeNow: U64, r: BatchResult, i: nat)
    requires b.requests != [] && BatchResultOk(b, nonces, storeNow, r) && i < |b.requests|
    ensures var accepted := Accepts(b.chain, b.agent, b.requests[0].intent, b.requests[0].proof, b.now);
            var revoked := exists k :: 0 <= k < |b.chain.certs| && FingerprintOf(b.chain.certs[k]) in b.revoked;
            var verified := AllVerify(b.requests, LastScope(b.chain));
            (r.errors[i] == Some(Revoked) <==> accepted && revoked) &&
            (r.errors[i] == Some(NonceReplay) <==>
             accepted && !revoked && verified && AnyLive(nonces, Nonces(b.chain.certs), storeNow)) &&
            (r.errors[i] == Some(BatchItemFailed(i)) <==>
             !accepted ||
             (!revoked && !Verifies(b.requests[i].proof, b.requests[i].intent, LastScope(b.chain)))) &&
            (r.errors[i].None? <==> r.receipts[i].Some?)
  {
    assert AnyRevoked(b.chain.certs, b.revoked) <==>
           exists k :: 0 <= k < |b.chain.certs| && FingerprintOf(b.chain.certs[k]) in b.revoked;
    assert GivesReceipt(b, i, nonces, storeNow) <==> r.receipts[i].Some?;
  }
}
