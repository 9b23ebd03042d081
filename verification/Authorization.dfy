/** `authorize` and `authorize_batch` of `src/chain.rs`: the verifier in front of its two stores. */
module Authorization {
  import opened Basics
  import opened Encoding
  import opened Hashing
  import opened Intents
  import opened Preimages
  import opened Certs
  import opened Chains
  import opened NonceStores
  import opened RevocationStores

  type Receipt = VerificationReceipt<Hash, ChainFingerprint>

  datatype Request = Request(intent: Hash, proof: MerkleProof<Hash>)

  datatype BatchResult = BatchResult(
    receipts: seq<Option<Receipt>>, errors: seq<Option<A1Error>>, allAuthorized: bool)

  function ReceiptOf(c: Chain, intent: Hash, at: U64): Receipt {
    VerificationReceipt(|c.certs|, ScopeBefore(c, |c.certs|), intent, at, FingerprintOfChain(c), c.namespace)
  }

  predicate AnyRevoked(certs: seq<Cert>, revoked: set<Fingerprint>) {
    exists i :: 0 <= i < |certs| && FingerprintOf(certs[i]) in revoked
  }

  /** When a policy-free `authorize` succeeds; `storeNow` is the nonce store's own reading of the clock. */
  predicate Grants(
      c: Chain, agent: Key, req: Request, now: U64, revoked: set<Fingerprint>, nonces: Deadlines, storeNow: U64)
  {
    Accepts(c, agent, req.intent, req.proof, now) && !AnyRevoked(c.certs, revoked) &&
    !AnyLive(nonces, Nonces(c.certs), storeNow)
  }

  /** The loop over the fingerprints that the verifier returned. */
  method ChecksRevoked(revocation: MemoryRevocationStore, ghost certs: seq<Cert>, fingerprints: seq<Fingerprint>)
    returns (bad: bool)
    requires revocation.Valid() && fingerprints == Fingerprints(certs)
    ensures bad <==> AnyRevoked(certs, revocation.revoked)
  {
    for i := 0 to |fingerprints|
      invariant forall j :: 0 <= j < i ==> FingerprintOf(certs[j]) !in revocation.revoked
    {
      assert fingerprints[i] == FingerprintOf(certs[i]);
      var answer := revocation.IsRevoked(fingerprints[i]);
      if answer {
        return true;
      }
    }
    bad := false;
  }

  method Authorize(
      chain: DyoloChain, agent: Key, req: Request, now: U64,
      revocation: MemoryRevocationStore, nonces: MemoryNonceStore, storeNow: U64, policyPasses: bool)
    returns (r: Result<Receipt, A1Error>)
    requires revocation.Valid() && nonces.Valid() && nonces.bloom != revocation.bloom
    modifies nonces`store, nonces.bloom
    ensures revocation.Valid() && nonces.Valid()
    ensures r.Ok? <==> policyPasses &&
                       Grants(chain.Snapshot(), agent, req, now, revocation.revoked, old(nonces.store), storeNow)
    ensures r.Ok? ==> r.value == ReceiptOf(chain.Snapshot(), req.intent, now)
    ensures nonces.store == if r.Ok? then Consumed(old(nonces.store), nonces.ttlSecs, Nonces(chain.certs), storeNow)
                            else old(nonces.store)
  {
    ghost var c := chain.Snapshot();
    if !policyPasses {
      return Err(PolicyViolation);
    }
    var checked := chain.ValidateStructure(agent, req.intent, req.proof, now);
    if checked.Err? {
      return Err(checked.error);
    }
    var v := checked.value;
    assert v == ValidationOf(c, now);
    var bad := ChecksRevoked(revocation, chain.certs, v.fingerprints);
    if bad {
      return Err(Revoked);
    }
    var unused := nonces.TryConsumeBatch(v.nonces, storeNow);
    if !unused {
      return Err(NonceReplay);
    }
    r := Ok(VerificationReceipt(v.depth, v.scopeRoot, req.intent, v.verifiedAt, v.chainFingerprint, chain.namespace));
  }

  // ---------------------------------------------------------------- batches

  /** A call of `authorize_batch`, with its two readings of the clock and the revocations it saw. */
  datatype BatchCall = BatchCall(
    chain: Chain, agent: Key, requests: seq<Request>, receiptNow: U64, now: U64, revoked: set<Fingerprint>)

  function LastScope(c: Chain): Hash {
    ScopeBefore(c, |c.certs|)
  }

  predicate AllVerify(requests: seq<Request>, root: Hash) {
    forall i :: 0 <= i < |requests| ==> Verifies(requests[i].proof, requests[i].intent, root)
  }

  /** What the whole batch shares: the chain, judged with the first request, and its revocations. */
  predicate BatchBase(b: BatchCall)
    requires b.requests != []
  {
    Accepts(b.chain, b.agent, b.requests[0].intent, b.requests[0].proof, b.now) && !AnyRevoked(b.chain.certs, b.revoked)
  }

  predicate GrantsAlone(b: BatchCall, i: nat, nonces: Deadlines, storeNow: U64)
    requires i < |b.requests|
  {
    Grants(b.chain, b.agent, b.requests[i], b.now, b.revoked, nonces, storeNow)
  }

  predicate GrantsEach(b: BatchCall, nonces: Deadlines, storeNow: U64) {
    forall i :: 0 <= i < |b.requests| ==> GrantsAlone(b, i, nonces, storeNow)
  }

  /** At which positions a non-empty batch hands out a receipt. */
  predicate GivesReceipt(b: BatchCall, i: nat, nonces: Deadlines, storeNow: U64)
    requires i < |b.requests|
  {
    BatchBase(b) && Verifies(b.requests[i].proof, b.requests[i].intent, LastScope(b.chain)) &&
    (AllVerify(b.requests, LastScope(b.chain)) ==> !AnyLive(nonces, Nonces(b.chain.certs), storeNow))
  }

  /** The error at a position that gets no receipt. */
  function ErrorFor(b: BatchCall, i: nat): A1Error
    requires i < |b.requests|
  {
    if !Accepts(b.chain, b.agent, b.requests[0].intent, b.requests[0].proof, b.now) then BatchItemFailed(i)
    else if AnyRevoked(b.chain.certs, b.revoked) then Revoked
    else if !Verifies(b.requests[i].proof, b.requests[i].intent, LastScope(b.chain)) then BatchItemFailed(i)
    else NonceReplay
  }

  /**
   The result of a batch: receipts exactly where they are given, the error everywhere else, and
   authorization of the whole exactly when each request alone would be granted.
   */
  ghost predicate BatchResultOk(b: BatchCall, nonces: Deadlines, storeNow: U64, r: BatchResult) {
    |r.receipts| == |r.errors| == |b.requests| &&
    (forall i :: 0 <= i < |b.requests| ==>
       r.receipts[i] == if GivesReceipt(b, i, nonces, storeNow) then
                          Some(ReceiptOf(b.chain, b.requests[i].intent, b.receiptNow))
                        else None) &&
    (forall i :: 0 <= i < |b.requests| ==>
       r.errors[i] == if GivesReceipt(b, i, nonces, storeNow) then None else Some(ErrorFor(b, i))) &&
    (r.allAuthorized <==> GrantsEach(b, nonces, storeNow))
  }

  /** A non-empty batch is authorized exactly when each request alone would be, from the same stores. */
  lemma {:induction false} BatchIsEverySingle(b: BatchCall, nonces: Deadlines, storeNow: U64)
    requires b.requests != []
    ensures GrantsEach(b, nonces, storeNow) <==>
            BatchBase(b) && AllVerify(b.requests, LastScope(b.chain)) &&
            !AnyLive(nonces, Nonces(b.chain.certs), storeNow)
  {
    if GrantsEach(b, nonces, storeNow) {
      assert GrantsAlone(b, 0, nonces, storeNow);
      forall i | 0 <= i < |b.requests|
        ensures Verifies(b.requests[i].proof, b.requests[i].intent, LastScope(b.chain))
      {
        assert GrantsAlone(b, i, nonces, storeNow);
      }
    }
  }

  function AllRefused(n: nat, error: nat -> A1Error): BatchResult {
    BatchResult(seq(n, _ => None), seq(n, i requires i >= 0 => Some(error(i))), false)
  }

  lemma RefusedBatch(b: BatchCall, nonces: Deadlines, storeNow: U64, error: nat -> A1Error)
    requires b.requests != []
    requires BatchBase(b) ==>
               AllVerify(b.requests, LastScope(b.chain)) && AnyLive(nonces, Nonces(b.chain.certs), storeNow)
    requires forall i :: 0 <= i < |b.requests| ==> error(i) == ErrorFor(b, i)
    ensures BatchResultOk(b, nonces, storeNow, AllRefused(|b.requests|, error))
  {
    BatchIsEverySingle(b, nonces, storeNow);
  }

  /** Receipts and errors of the requests themselves, before the nonces are consumed. */
  ghost predicate PerRequest(c: Chain, requests: seq<Request>, at: U64, r: BatchResult) {
    |r.receipts| == |r.errors| == |requests| &&
    forall i :: 0 <= i < |requests| ==>
      if Verifies(requests[i].proof, requests[i].intent, LastScope(c)) then
        r.receipts[i] == Some(ReceiptOf(c, requests[i].intent, at)) && r.errors[i] == None
      else
        r.receipts[i] == None && r.errors[i] == Some(BatchItemFailed(i))
  }

  lemma JudgedBatch(b: BatchCall, nonces: Deadlines, storeNow: U64, r: BatchResult)
    requires b.requests != [] && BatchBase(b) && PerRequest(b.chain, b.requests, b.receiptNow, r)
    requires r.allAuthorized <==> AllVerify(b.requests, LastScope(b.chain))
    requires r.allAuthorized ==> !AnyLive(nonces, Nonces(b.chain.certs), storeNow)
    ensures BatchResultOk(b, nonces, storeNow, r)
  {
    BatchIsEverySingle(b, nonces, storeNow);
  }

  method JudgeRequests(ghost c: Chain, requests: seq<Request>, v: Validation, at: U64, namespace: Option<Text>)
    returns (r: BatchResult)
    requires v.scopeRoot == LastScope(c) && v.depth == |c.certs| && v.chainFingerprint == FingerprintOfChain(c)
    requires namespace == c.namespace
    ensures PerRequest(c, requests, at, r)
    ensures r.allAuthorized <==> AllVerify(requests, LastScope(c))
  {
    var receipts: seq<Option<Receipt>> := [];
    var errors: seq<Option<A1Error>> := [];
    var allOk := true;
    for i := 0 to |requests|
      invariant PerRequest(c, requests[..i], at, BatchResult(receipts, errors, allOk))
      invariant allOk <==> AllVerify(requests[..i], v.scopeRoot)
    {
      var intent := requests[i].intent;
      var authorized := IntentAuthorized(requests[i].proof, intent, v.scopeRoot);
      assert requests[..i + 1] == requests[..i] + [requests[i]];
      if authorized {
        var receipt := VerificationReceipt(v.depth, v.scopeRoot, intent, at, v.chainFingerprint, namespace);
        receipts := receipts + [Some(receipt)];
        errors := errors + [None];
      } else {
        receipts := receipts + [None];
        errors := errors + [Some(BatchItemFailed(i))];
        allOk := false;
      }
    }
    assert requests[..|requests|] == requests;
    r := BatchResult(receipts, errors, allOk);
  }

  /** Everything `authorize_batch` does before it turns to the nonces: the result as if none were live. */
  method JudgeBatch(
      chain: DyoloChain, agent: Key, requests: seq<Request>, receiptNow: U64, now: U64,
      revocation: MemoryRevocationStore, ghost b: BatchCall)
    returns (r: BatchResult, seen: seq<Nonce>)
    requires revocation.Valid() && requests != []
    requires b == BatchCall(chain.Snapshot(), agent, requests, receiptNow, now, revocation.revoked)
    ensures BatchResultOk(b, map[], 0, r)
    ensures r.allAuthorized ==> seen == Nonces(chain.certs)
  {
    seen := [];
    var checked := chain.ValidateStructure(agent, requests[0].intent, requests[0].proof, now);
    if checked.Err? {
      r := AllRefused(|requests|, (i: nat) => BatchItemFailed(i));
      RefusedBatch(b, map[], 0, (i: nat) => BatchItemFailed(i));
      return;
    }
    var v := checked.value;
    var bad := ChecksRevoked(revocation, chain.certs, v.fingerprints);
    if bad {
      r := AllRefused(|requests|, _ => Revoked);
      RefusedBatch(b, map[], 0, _ => Revoked);
      return;
    }
    seen := v.nonces;
    r := JudgeRequests(b.chain, requests, v, receiptNow, chain.namespace);
    JudgedBatch(b, map[], 0, r);
  }

  /** The nonces matter only to a batch whose requests all verify. */
  lemma {:induction false} NoncesDecideLast(b: BatchCall, nonces: Deadlines, storeNow: U64, r: BatchResult)
    requires b.requests != [] && BatchResultOk(b, map[], 0, r)
    ensures !AnyLive(map[], Nonces(b.chain.certs), 0)
    ensures !r.allAuthorized || !AnyLive(nonces, Nonces(b.chain.certs), storeNow) ==>
              BatchResultOk(b, nonces, storeNow, r)
    ensures r.allAuthorized && AnyLive(nonces, Nonces(b.chain.certs), storeNow) ==>
              BatchResultOk(b, nonces, storeNow, AllRefused(|b.requests|, _ => NonceReplay))
  {
    BatchIsEverySingle(b, map[], 0);
    if r.allAuthorized && AnyLive(nonces, Nonces(b.chain.certs), storeNow) {
      RefusedBatch(b, nonces, storeNow, _ => NonceReplay);
    } else {
      BatchIsEverySingle(b, nonces, storeNow);
      forall i | 0 <= i < |b.requests| ensures GivesReceipt(b, i, map[], 0) <==> GivesReceipt(b, i, nonces, storeNow) {}
    }
  }

  method AuthorizeBatch(
      chain: DyoloChain, agent: Key, requests: seq<Request>, receiptNow: U64, now: U64,
      revocation: MemoryRevocationStore, nonces: MemoryNonceStore, storeNow: U64)
    returns (r: BatchResult)
    requires revocation.Valid() && nonces.Valid() && nonces.bloom != revocation.bloom
    modifies nonces`store, nonces.bloom
    ensures revocation.Valid() && nonces.Valid()
    ensures BatchResultOk(BatchCall(chain.Snapshot(), agent, requests, receiptNow, now, revocation.revoked),
                          old(nonces.store), storeNow, r)
    ensures nonces.store == if r.allAuthorized && requests != [] then
                              Consumed(old(nonces.store), nonces.ttlSecs, Nonces(chain.certs), storeNow)
                            else old(nonces.store)
  {
    if requests == [] {
      return BatchResult([], [], true);
    }
    ghost var b := BatchCall(chain.Snapshot(), agent, requests, receiptNow, now, revocation.revoked);
    var seen;
    r, seen := JudgeBatch(chain, agent, requests, receiptNow, now, revocation, b);
    NoncesDecideLast(b, nonces.store, storeNow, r);
    if !r.allAuthorized {
      return;
    }
    var unused := nonces.TryConsumeBatch(seen, storeNow);
    if !unused {
      r := AllRefused(|requests|, _ => NonceReplay);
    }
  }

  // ---------------------------------------------------------------- all or nothing

  predicate AllOrNothing(r: BatchResult) {
    r.allAuthorized || forall i :: 0 <= i < |r.receipts| ==> r.receipts[i].None?
  }

  /** A batch is all or nothing exactly when what its requests share fails, or each of them verifies. */
  lemma {:induction false} AllOrNothingExactly(b: BatchCall, nonces: Deadlines, storeNow: U64, r: BatchResult)
    requires b.requests != [] && BatchResultOk(b, nonces, storeNow, r)
    ensures AllOrNothing(r) <==> !BatchBase(b) || AllVerify(b.requests, LastScope(b.chain))
  {
    BatchIsEverySingle(b, nonces, storeNow);
    assert r.receipts[0].Some? <==> GivesReceipt(b, 0, nonces, storeNow);
  }

  /**
   In a batch that is refused because some request fails, the others keep receipts that were not
   checked for replay: every receipt given is one that `authorize` would give exactly when the
   batch is all or nothing, or no nonce of the chain is live.
   */
  lemma {:induction false} PartialReceiptsSkipReplay(b: BatchCall, nonces: Deadlines, storeNow: U64, r: BatchResult)
    requires b.requests != [] && BatchResultOk(b, nonces, storeNow, r)
    ensures (forall i :: 0 <= i < |b.requests| && r.receipts[i].Some? ==> GrantsAlone(b, i, nonces, storeNow)) <==>
            !BatchBase(b) || AllVerify(b.requests, LastScope(b.chain)) ||
            !AnyLive(nonces, Nonces(b.chain.certs), storeNow)
  {
    assert r.receipts[0].Some? <==> GivesReceipt(b, 0, nonces, storeNow);
  }

  /** So a chain whose nonces are used obtains a receipt for a good first request beside a bad one. */
  lemma {:induction false} BadRequestKeepsReceipt(
      b: BatchCall, nonces: Deadlines, storeNow: U64, bad: nat, r: BatchResult)
    requires b.requests != [] && BatchResultOk(b, nonces, storeNow, r) && GrantsAlone(b, 0, map[], storeNow)
    requires bad < |b.requests| && !Verifies(b.requests[bad].proof, b.requests[bad].intent, LastScope(b.chain))
    ensures r.receipts[0].Some? && !AllOrNothing(r)
    ensures GrantsAlone(b, 0, nonces, storeNow) <==> !AnyLive(nonces, Nonces(b.chain.certs), storeNow)
  {
    assert !AllVerify(b.requests, LastScope(b.chain));
    AllOrNothingExactly(b, nonces, storeNow, r);
    assert GivesReceipt(b, 0, nonces, storeNow);
  }
}
