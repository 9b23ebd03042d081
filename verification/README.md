# A1 delegation chains in Dafny

A1 lets a human principal hand authority to an executing agent through a chain of signed
certificates. This project models the core of that library and proves what it promises: the
chain verifier and its two stores, the Merkle trees that scopes and reasoning traces are
committed with, passports and their capability masks, the rate limiter, the hashed encodings
and the calendar arithmetic. `dafny verify dfyconfig.toml` checks everything.

## How the model is set up

- **Hashes are terms.** BLAKE3 is a free datatype (`Hashing.Hash`): a domain-separated leaf over
  a byte string, a namespaced scope, or a Merkle node over two children. Equal hashes come from
  equal inputs, so no collision assumption is written down anywhere. Intents, trace steps,
  extensions, sub-scope proofs and receipts are hashed as the real byte strings, and that these
  encodings are injective is proved. Namespaced scopes, signed messages, fingerprints of
  certificates and chains, and chain bindings are free datatypes over their fields: that their
  bytes determine the fields is assumed. The order that sorting uses is structural; no theorem
  depends on which order it is.
- **Signatures are pairs** of a key and the signed fields (`Certs.Signature`). The signed fields
  keep the scope proof itself; that its hashed encoding determines it is
  `Preimages.SubScopePreimageInjective`. `verify_batch` is the conjunction of the single checks.
  Extensions are those of the `wire` feature.
- **Clocks are arguments.** The chain's reading (`now`) and the nonce store's own reading
  (`storeNow`) are different arguments, as they are different calls in the code. Fresh nonces are
  arguments too. Policy is a boolean decided before any store is touched.
- **Stores** are classes over arrays and maps. Each method is proved against a function of the
  plain map or set, and the theorems about whole runs are about those functions. A word of a
  Bloom filter is the set of its one bits. Where a fingerprint's or nonce's bits lie is a
  parameter of the store: the theorems hold for every placement, the code's included.
- **Capability positions.** `capability_to_bit` is an arbitrary function from names to the 256
  positions, so that every pattern of collisions is covered.
- **Concurrency.** The revocation store is also a state machine with one shared-memory access a
  step and any number of callers (`RevocationInterleaving`).

## Main results

- Every certificate of an accepted chain is signed, over exactly its own fields, by the key it was
  delegated by, the principal's first. A receipt names the intent, proved against the last scope.
- An accepted intent lies inside every scope back to the principal's, for chains of any length
  and any mix of pass-through and sub-scope hops. Honest chains are accepted exactly within
  their limits, and with one proof only, the one `prove` returns.
- No run authorizes a certificate twice if and only if a nonce consumed at the earliest
  acceptable moment outlives the latest moment it could be reused, or the certificate is never
  acceptable at all. The time to live documented for the Redis store (lifetime plus drift plus
  margin) suffices exactly when the margin exceeds the drift plus the lag between the two clock
  readings; in the in-memory map, which reads whole seconds, a margin of just that much is enough.
- The evicting nonce store answers as a log that forgets nothing, at given clock readings,
  exactly when no reading falls back behind a deadline that an earlier one had passed.
- A batch is all or nothing exactly when what its requests share fails or every request verifies.
- After `revoke` returns, no check started later passes, under any interleaving, nor one in flight
  that has not yet come to the fingerprint. Without
  interleaving the step-by-step calls do what the store's own methods do.
- Trace roots bind the step sequence, their chain binding also its identity, times and chain, and
  exactly one step proof per index verifies. Past 2^32 steps none does.
- `issue_sub` accepts exactly parts of what was granted, whatever bits collide. On chains of any
  length from the passport's own scope, `guard` and `guard_local` admit only what the passport
  grants, and on honest ones exactly what the chain hands on. On chains from any other scope
  `guard` admits exactly the intents under that scope whose mask position the passport has.
- The rate limiter grants exactly the limit per aligned window in every run if and only if twice
  every window in use, as a wrapping `u64`, is at least the key's window. A span of one window sees
  at most twice the limit, and that is reached; the limit itself holds in every span only for
  windows of one second (or a limit of zero).
- What a certificate's extensions store reads back: version, namespace, names and the mask itself
  from its hexadecimal digits.
- Date strings read back as the time they were made from, and up to the year 9999 they sort as it.

## Where the code and its documentation differ

The model follows the code in each case.

- A batch is described as all or nothing, but when one request fails the others keep receipts
  for which neither replay was checked nor nonces consumed
  (`Authorization.AllOrNothingExactly`, `Authorization.PartialReceiptsSkipReplay`,
  `Replay.UsedChainGetsReceipt`).
- Sub-scopes and sub-passports are described as strict subsets; equal sets are accepted.
- The rate limiter is described as a sliding window; its windows are aligned and fixed
  (`RateLimits.SlidingExactly`, `RateLimits.SpanBoundIsReached`).
- The documented time to live of consumed nonces asks for a safety margin without a size; a margin
  up to the drift plus the clock lag lets a certificate be used twice
  (`Replay.DocumentedTtlNeedsMargin`).
- `guard` is described as taking a chain built for the passport, but neither it nor `guard_local`
  compares the chain's principal or scope with the passport. A chain of another principal gets
  past them with a name that only shares its mask position with a granted one
  (`Passports.CollidingNameIsAdmitted`, `Passports.GuardAdmitsExactly`).
- A chain made with `with_namespace` can authorize only the namespaced scope itself
  (`ChainProperties.NamespacesAreIsolated`).

## Files

| file | content |
|---|---|
| `Basics`, `Encoding`, `Hashing` | words, results, byte order; integers and fields as bytes; hashes and their order |
| `Intents`, `IntentProperties` | intent trees, membership and sub-scope proofs |
| `Preimages`, `Layouts` | hashed encodings of intents, extensions, sub-scope proofs and receipts; their bytes spelled out |
| `Certs`, `Chains`, `ChainProperties` | certificates, the verifier loop, what acceptance means |
| `NonceStores`, `RevocationStores`, `RevocationInterleaving`, `RateLimits` | the stores |
| `Authorization`, `Receipts`, `Replay` | `authorize`, `authorize_batch`, what receipts say, at-most-once over runs |
| `Provenance` | reasoning traces and step proofs |
| `Narrowing`, `Passports` | capability masks and their hexadecimal form, the registry, issuing and guarding |
| `Calendar` | Unix seconds to sortable dates and back |

## Model

| member | source | states |
|---|---|---|
| Intents.Build | src/intent.rs:242-270 | building fails only on the empty list and yields the layered tree over exactly the given set of intents |
| Intents.PairUp | src/intent.rs:255-263 | one pass over chunks of two makes a node of each pair and promotes an odd last hash |
| Intents.NextLayerAt | src/intent.rs:257-263 | position k of a layer covers positions 2k and 2k+1 below, or 2k alone |
| Intents.Prove | src/intent.rs:279-302 | the returned proof is the path of missing-or-present siblings of the leaf's one position; absent intents are refused |
| Intents.Verify | src/intent.rs:213-224 | the loop accepts exactly if the path leads from the leaf to the expected root |
| Intents.ProofsFor | src/intent.rs:341-350 | proofs are collected exactly if every intent is a leaf of the parent, one per intent in order |
| Intents.VerifyAndDeriveRoot | src/intent.rs:356-370 | accepts exactly if every subset intent verifies against the parent root, and returns the subset's own root |
| IntentProperties.RootFrontier | src/intent.rs:253-275 | the in-order leaves of the root are those of the bottom layer, whatever was paired or promoted |
| IntentProperties.RootCommitment | src/intent.rs:242-275 | a root commits to exactly the leaves under the given hashes |
| IntentProperties.RootCommitsToLeaves | src/intent.rs:227-275 | for leaf intents the root's frontier is the sorted list and its content is the set itself |
| IntentProperties.RootIsCanonical | src/intent.rs:229-275 | two lists of leaf intents have one root exactly if they have the same elements |
| IntentProperties.NodesAsIntentsCollide | src/intent.rs:242-275 | the root of any list, given as the one intent of another list, is its root too, and the two sets differ exactly unless the list has one element only |
| IntentProperties.PathReachesRoot | src/intent.rs:285-299 | from any position of any layer the siblings met lead to the root, also where a sibling is missing |
| IntentProperties.ProofsAreComplete | src/intent.rs:277-302 | a proof is returned exactly for the members, and it verifies against the root |
| IntentProperties.VerifiedIsCommitted | src/intent.rs:213-224 | whatever verifies against a root has all its leaves under that root |
| IntentProperties.ProofsAreSound | src/intent.rs:304-306 | a verifying proof of a leaf intent means the tree contains it |
| IntentProperties.ContainsExactly | src/intent.rs:304-306 | a tree contains exactly the intents of the list it was built from |
| IntentProperties.PathsAreUnique | src/intent.rs:213-224 | in a tree without repeated leaves two paths from one leaf to the root are the same |
| IntentProperties.ProofIsUnique | src/intent.rs:279-302 | a proof verifies for a leaf exactly if it is the one `prove` returns |
| IntentProperties.ProvableExactly | src/intent.rs:213-224 | some proof verifies exactly for what is under the root: itself, its leaves and its inner nodes |
| IntentProperties.DerivedScopeNarrows | src/intent.rs:352-370 | a derived scope commits to nothing its parent did not |
| IntentProperties.BuiltSubScopeIsAccepted | src/intent.rs:339-350 | building a sub-scope proof succeeds exactly for part of the parent's set, and the result is accepted |
| Preimages.HashIntent | src/intent.rs:134-147 | the hasher is fed the tagged, length-prefixed fields with parameters in key order |
| Preimages.IntentHashInjective | src/intent.rs:130-147 | intents with one hash have the same action and parameters |
| Preimages.SetCheckedKeepsLimit | src/cert_extensions.rs:68-103 | a stored value reads back and the other fields stay; stored bytes stay within the counted bytes and those within the limit of 16384; refusal exactly for an empty key or an exceeded limit |
| Preimages.CommitExtensions | src/cert_extensions.rs:120-157 | the bytes hashed are the tagged encoding of all fields in key order, with the sentinel for none |
| Preimages.ExtPreimageInjective | src/cert_extensions.rs:119-157 | extension maps with one commitment are equal, types included |
| Preimages.CommitSubScope | src/intent.rs:376-392 | the bytes hashed are the counted subset followed by the counted proofs |
| Preimages.SubScopePreimageInjective | src/intent.rs:372-392 | one commitment means the same subset, order, paths and directions |
| Preimages.CanonicalBytesInjective | src/chain.rs:51-66 | canonical receipts agree exactly if all fields do, an absent namespace counting as an empty one |
| Layouts.IntentLayout | src/intent.rs:134-147 | the bytes of an intent spelled out: version, tag, little-endian lengths, action and parameter |
| Layouts.ExtensionLayout | src/cert_extensions.rs:120-157 | the same for extensions, none and one |
| Layouts.ValueLayout | src/cert_extensions.rs:137-153 | and for a value of each type |
| Layouts.SubScopeLayout | src/intent.rs:376-392 | the same for a sub-scope proof, its direction byte included |
| Layouts.ReceiptLayout | src/chain.rs:51-66 | every field of a canonical receipt is at its offset, numbers big-endian |
| Layouts.StepLayout | src/provenance.rs:120-129 | every field of a hashed step is at its offset, the index little-endian and the time big-endian |
| Certs.FingerprintIdentifies | src/cert.rs:146-152 | two signed certificates with one fingerprint are the same certificate |
| ChainProperties.IssuedCarriesBuilder | src/cert.rs:83-133 | an issued certificate is signed by its signer and carries every field of the builder; a builder is refused exactly without a lifetime |
| ChainProperties.AcceptedIsSigned | src/chain.rs:229-361 | every certificate of an accepted chain is signed by the delegate before it, the first by the principal, over exactly its own fields; the last names the agent |
| ChainProperties.DefaultDepthAllows | src/cert.rs:194-214 | certificates built without a depth of their own allow chains of up to 16 |
| Chains.DyoloChain.ValidateStructure | src/chain.rs:221-380 | succeeds exactly if the chain is accepted, and returns depth, last scope, time, nonces and fingerprints |
| Chains.WalkCerts | src/chain.rs:236-348 | the loop passes exactly if every hop passes its declared checks |
| Chains.CheckCert | src/chain.rs:258-343 | one iteration refuses exactly if some check against the loop variables fails |
| Chains.LoopChecksHop | src/chain.rs:301-319 | the running depth minimum and the nonce scan decide the declared conditions on all earlier certificates |
| Chains.LoopAdvances | src/chain.rs:301-347 | the updated loop variables describe the longer prefix |
| Chains.Escalates | src/chain.rs:322-343 | the pass-through and sub-scope branches together accept exactly a derived root equal to the scope root |
| Chains.FirstBadSignature | src/chain.rs:350-361 | reports the first certificate whose signature fails, if there is one |
| Chains.IntentAuthorized | src/chain.rs:363-371 | an empty proof must name the scope itself, any other must lead to it |
| Chains.DyoloChain.WithNamespace | src/chain.rs:171-176 | replaces the scope by its namespaced derivation and records the namespace |
| Chains.DyoloChain.Push | src/chain.rs:183-186 | appends the certificate and changes nothing else |
| ChainProperties.HopsInClosedForm | src/chain.rs:229-348 | hop checks hold exactly for unbroken linkage, versions, non-increasing expiries, depth limits no shorter than the chain, distinct nonces, scope steps and windows |
| ChainProperties.AcceptanceInClosedForm | src/chain.rs:229-298 | the accepted times are one interval fixed by the latest issue time, the last expiry and the drift |
| ChainProperties.ScopesNarrow | src/chain.rs:322-346 | every scope of the chain commits to no more than any earlier one |
| ChainProperties.AcceptedIntentIsNarrow | src/chain.rs:257-370 | an accepted intent lies within every scope back to the principal's |
| ChainProperties.OnlyCommittedIntents | src/chain.rs:257-370 | for a principal who committed to a list of leaf intents, only listed intents are accepted |
| ChainProperties.LeafScopeIsFixed | src/chain.rs:322-343 | a hop keeps to a scope that is a single leaf exactly by repeating it, passed through or proved from itself |
| ChainProperties.NamespacesAreIsolated | src/chain.rs:123-176 | under a namespaced scope exactly that very scope is accepted, with the empty proof, along linked, signed and timely certificates that all repeat it |
| ChainProperties.OneCertExactly | src/chain.rs:221-380 | a signed certificate that passes the principal's scope through is accepted alone exactly for its delegate, in its window, with a proof against the scope |
| ChainProperties.PassThroughExactly | src/chain.rs:221-380 | so for any scope, a namespaced one included, and any times |
| ChainProperties.ChainFingerprintIdentifies | src/chain.rs:198-217 | signed chains have one fingerprint exactly if principal, scope, namespace and certificates agree |
| ChainProperties.PrefixesAreAccepted | src/chain.rs:257-348 | cutting certificates off the end keeps the chain acceptable for its own delegate and scope |
| ChainProperties.HonestChainsAreAcceptedExactly | src/chain.rs:221-380 | a chain built hop by hop from descending sets is accepted exactly within its limits, for the last delegate and with a proof against the last root, which for a leaf intent is the one `prove` returns |
| ChainProperties.HonestChainsAdmitTheirScope | src/chain.rs:363-370 | some proof is accepted exactly for what is under the last root, and of leaf intents for those of the last hop |
| NonceStores.MemoryNonceStore.TryConsume | src/registry.rs:220-246 | succeeds exactly if no live entry blocks the nonce; then drops expired entries and records the deadline, else changes nothing |
| NonceStores.MemoryNonceStore.TryConsumeBatch | src/registry.rs:248-283 | succeeds exactly if no nonce is live; then all are recorded with one deadline, else nothing changes |
| NonceStores.MemoryNonceStore.IsConsumed | src/registry.rs:285-300 | answers the map's own liveness, whatever the filter holds |
| NonceStores.MemoryNonceStore.MarkConsumed | src/registry.rs:302-304 | consumes the nonce unless it is live |
| NonceStores.ConsumedIsLive | src/registry.rs:265-282 | an accepted batch leaves each of its nonces consumed until the deadline |
| NonceStores.RefinesLogExactly | src/registry.rs:220-300 | at given clock readings every answer, whatever is asked, is that of a log that forgets nothing exactly if no reading runs back behind a deadline an earlier one had passed |
| NonceStores.StoreRefinesLog | src/registry.rs:220-300 | in particular with a clock that never runs back |
| NonceStores.ClockRunningBackForgets | src/registry.rs:265-266 | at any readings that do so an evicted nonce is accepted again that the log refuses |
| RevocationStores.MemoryRevocationStore.IsRevoked | src/registry.rs:133-143 | answers membership in the set of all revoked fingerprints |
| RevocationStores.MemoryRevocationStore.Revoke | src/registry.rs:145-154 | adds exactly the fingerprint |
| RevocationStores.MemoryRevocationStore.RevokeBatch | src/registry.rs:156-169 | adds exactly the fingerprints of the batch |
| RevocationInterleaving.StepKeepsInv | src/registry.rs:133-169 | at every step of every caller a stored fingerprint has its filter bits set and every caller is where the shared state says |
| RevocationInterleaving.AnswersAreMembership | src/registry.rs:133-143 | in any run an answer is the membership at the step that gives it |
| RevocationInterleaving.OnlyRequestedIsStored | src/registry.rs:145-169 | nothing is reported revoked that no call asked to revoke |
| RevocationInterleaving.RevocationTakesEffect | src/registry.rs:106-169 | once a revocation has returned, no check started later over a chain with that fingerprint passes |
| RevocationInterleaving.ChecksInFlightRefuse | src/registry.rs:106-169 | nor does one in flight that has not yet passed the fingerprint's place |
| RevocationInterleaving.CheckAlone | src/registry.rs:133-143 | after any run a check that nobody interleaves with ends as the revocation check of `authorize` does on the stored set, and changes nothing |
| RevocationInterleaving.RevokeAlone | src/registry.rs:145-169 | a revocation that nobody interleaves with returns with exactly its fingerprints added to the stored set |
| Authorization.Authorize | src/chain.rs:461-499 | succeeds exactly if policy, structure, revocations and nonces allow; then consumes all nonces, else changes nothing; the receipt describes the chain |
| Authorization.AuthorizeBatch | src/chain.rs:503-652 | receipts exactly where given and the error of each other index, nonces consumed exactly when the whole non-empty batch is authorized |
| Authorization.JudgeBatch | src/chain.rs:526-620 | everything before the nonces decides the result as if none were live |
| Authorization.JudgeRequests | src/chain.rs:579-612 | each request gets a receipt or an indexed error by its own proof |
| Receipts.ReceiptDescribes | src/chain.rs:491-498 | the receipt of a granted request gives its intent, proved against the last certificate's scope and within all scopes before, with the length, time and namespace |
| Receipts.BatchReceiptsDescribe | src/chain.rs:579-612 | so does every receipt of a batch for the request at its index, at the batch's own reading of the clock |
| Receipts.BatchErrorsExplain | src/chain.rs:528-640 | a batch's error at an index is a revocation, a replay once all verified, or the index itself, exactly in those cases |
| Receipts.ReceiptIdentifiesChain | src/chain.rs:198-217 | receipts of signed chains carry one fingerprint exactly if the chains agree |
| Authorization.BatchIsEverySingle | src/chain.rs:503-652 | a non-empty batch is authorized exactly if each request alone would be from the same stores |
| Authorization.AllOrNothingExactly | src/chain.rs:579-620 | a non-empty batch is authorized whole or gives no receipt exactly if what its requests share fails or every request verifies |
| Authorization.PartialReceiptsSkipReplay | src/chain.rs:579-620 | every receipt given is one `authorize` would give exactly if that holds or no nonce of the chain is live |
| Authorization.BadRequestKeepsReceipt | src/chain.rs:579-620 | a request outside the scope leaves the first request its receipt, live nonces or not |
| Replay.NonceUsedOnce | src/chain.rs:488-495 | two certificates with one nonce are not both accepted while the first deadline covers the second's last use |
| Replay.ShortDeadlineAllowsReplay | src/registry.rs:265-275 | a shorter deadline admits a run that uses the certificate twice, if it is usable at all |
| Replay.AtMostOnceExactly | src/chain.rs:236-298 | for any times, no run authorizes a certificate twice exactly if the earliest deadline reaches the latest reuse or no moment is in its window |
| Replay.WithoutTtlAlwaysSafe | src/registry.rs:276-280 | without a time to live nothing is authorized twice |
| Replay.KeysSafeExactly | a1-redis/src/lib.rs:296-351 | with keys set for some milliseconds no run authorizes a certificate twice exactly if a key of the earliest use still blocks in the last millisecond of the latest reuse, under either convention at the deadline |
| Replay.DocumentedTtlNeedsMargin | a1-redis/src/lib.rs:37-42 | the documented formula is enough for such keys exactly if the margin exceeds the drift plus the lag, and for the in-memory map exactly if it reaches them |
| Replay.UsedChainGetsReceipt | src/chain.rs:579-620 | after its one success an event is refused, yet its requests with a bad one added obtain a receipt |
| Replay.SampleIsUsedTwice | src/chain.rs:579-620 | there is such a chain for any issue and expiry time and any moment in the window |
| RateLimits.MemoryRateLimitStore.CheckAndRecord | src/registry.rs:339-372 | grants exactly below the limit of the kept bucket's window and records the grant |
| RateLimits.FloorIsQuotient | src/registry.rs:345-346 | the window start is the greatest multiple of the width up to now |
| RateLimits.EvictionSparesWindow | src/registry.rs:353-353 | a call whose horizon is no shorter than the window evicts no bucket of the current and later windows |
| RateLimits.GrantedByCount | src/registry.rs:339-372 | a call is granted exactly if fewer than the limit of the key's earlier calls were in its window |
| RateLimits.WindowGrantsExactly | src/registry.rs:339-372 | each aligned window grants the smaller of the limit and its calls |
| RateLimits.SpanBound | src/registry.rs:314-319 | no span as long as the window sees more than twice the limit |
| RateLimits.SpanBoundIsReached | src/registry.rs:314-319 | a burst around the end of a window is granted twice the limit within one span |
| RateLimits.SlidingExactly | src/registry.rs:314-319 | the limit holds in every span of every run exactly if it is zero, or the window is at most one second and covered by twice every window in use, modulo 2^64 |
| RateLimits.LimitsWindowsExactly | src/registry.rs:339-372 | every span between multiples of the window grants exactly the smaller of limit and calls, in every run, if and only if twice every window in use, modulo 2^64, is at least the window, or the limit is zero |
| RateLimits.WrappedWidthNeverLimits | src/registry.rs:353-353 | a call is granted whatever came before exactly if the limit is not zero and its wrapped horizon lies in the part of the window that has passed |
| RateLimits.ShortWindowForgets | src/registry.rs:353-353 | after another key's call with a horizon shorter than the window one more than the limit is granted in it |
| Provenance.LeafHashInjective | src/provenance.rs:120-129 | steps with one leaf hash agree in every field, the index included |
| Provenance.StepsAreNoIntents | src/provenance.rs:120-129 | no step leaf is the hash of an intent |
| Provenance.NextPowerOfTwo | src/provenance.rs:505-514 | the result is the least power of two that is not below the argument |
| Provenance.TrailingZerosOfPow2 | src/provenance.rs:244-245 | the trailing zeros of a power of two are its exponent, the height of the tree |
| Provenance.BuildMerkleRoot | src/provenance.rs:485-503 | the loop computes the root over the leaves padded with the last one |
| Provenance.TraceFrontier | src/provenance.rs:485-503 | the leaves under a root are the steps in order and the last one repeated up to the least power of two |
| Provenance.ReasoningTrace.RecordHashed | src/provenance.rs:378-394 | appends a step with its position truncated to 32 bits |
| Provenance.ReasoningTrace.Finalize | src/provenance.rs:412-433 | fails only on an empty trace; the root commits to the steps, carries the trace's identity and times, and is bound to the chain |
| Provenance.BindingFixesTrace | src/provenance.rs:181-206 | roots whose binding verifies share one binding exactly if root, trace and chain are the same |
| Provenance.ReasoningTrace.ProveStep | src/provenance.rs:439-475 | returns the step with the siblings of its own path, for positions in range |
| Provenance.VerifyStep | src/provenance.rs:238-266 | accepts exactly if counts agree, the path has the tree's height and leads to the root |
| Provenance.TraceIsBound | src/provenance.rs:107-129 | equal roots come from equal step sequences, lengths included |
| Provenance.ClimbIsExact | src/provenance.rs:251-265 | in a perfect tree a climb ends at the root exactly from that position's hash with its own siblings |
| Provenance.StepProofsAreExact | src/provenance.rs:238-266 | for fewer than 2^32 steps exactly one proof per index verifies |
| Provenance.StepProofsAreComplete | src/provenance.rs:435-475 | every recorded position of such a trace has a verifying proof |
| Provenance.LongTracesHaveNoProofs | src/provenance.rs:424-424 | past 2^32 steps the truncated count makes every proof fail |
| Narrowing.SubsetIsInclusion | src/identity/narrowing.rs:88-101 | the four-word test is inclusion of the 256-bit sets |
| Narrowing.Intersect | src/identity/narrowing.rs:115-121 | the result is the intersection of the sets and the greatest mask below both |
| Narrowing.FromCapabilities | src/identity/narrowing.rs:57-64 | the mask has exactly the positions of the names |
| Narrowing.OneNameMask | src/identity/narrowing.rs:57-64 | the mask of one name is that bit of that byte and nothing else |
| Narrowing.HexRoundTrip | src/identity/narrowing.rs:139-154 | a mask written in hexadecimal reads back |
| Narrowing.CountIsSize | src/identity/narrowing.rs:163-165 | the bit count is the size of the set |
| Narrowing.CapabilityRegistry.Register | src/identity/narrowing.rs:256-271 | known names keep their position, new ones get the next, the 257th is refused, and positions never collide |
| Narrowing.CapabilityRegistry.BuildMask | src/identity/narrowing.rs:287-305 | fails exactly on an unregistered name, else has exactly the names' positions |
| Narrowing.CapabilityRegistry.BuildFullMask | src/identity/narrowing.rs:308-316 | the mask has exactly all registered positions |
| Narrowing.BuiltMasksNarrowExactly | src/identity/narrowing.rs:199-305 | one built mask is within another exactly if the name sets are |
| Narrowing.BuiltMaskCountsNames | src/identity/narrowing.rs:163-305 | the count of a built mask is the number of distinct names |
| Passports.NameHashesInclusion | src/passport/mod.rs:459-463 | hashing names keeps inclusion of name sets both ways |
| Passports.IssueExactly | src/passport/mod.rs:168-212 | issuing succeeds exactly for names of 1 to 256 bytes, a lifetime and at most 16384 bytes of names, namespace and fixed fields, and the passport is self-signed over those names |
| Passports.IssuedCertificate | src/passport/mod.rs:181-205 | its certificate has the issuer on both sides, the window, the depth 255, and readable version, namespace, mask and names and no other extension |
| Passports.IssuedCertificateAccepted | src/passport/mod.rs:181-205 | as a chain of one it is accepted exactly from issue to expiry, give or take the drift |
| Passports.IssueSubAnyExactly | src/passport/mod.rs:264-307 | for any passport sub-delegation succeeds exactly if the names are its own, their positions in its mask, and lifetime and namespace fit |
| Passports.IssueSubExactly | src/passport/mod.rs:264-307 | sub-delegation succeeds exactly for a non-empty part of the passport's names and a lifetime |
| Passports.SubCertificate | src/passport/mod.rs:280-300 | the sub-certificate is the signer's for the delegate, with the window, the depth 16, the scope of the names, and readable version, namespace and mask and no other extension |
| Passports.Guard | src/passport/mod.rs:350-373 | succeeds exactly if the mask allows the action and the chain authorizes its hash, consuming nonces exactly then |
| Passports.GuardLocal | src/passport/mod.rs:387-413 | the same with the empty proof and stores made for the call |
| Passports.NewChain | src/passport/mod.rs:234-246 | an empty chain at the passport's key and scope with its namespace recorded |
| Passports.MaskAllowsExactly | src/passport/mod.rs:360-361 | the mask test passes exactly if the position of the action is in the mask, that is, if a granted name shares it |
| Passports.GuardStaysGranted | src/passport/mod.rs:350-373 | on a chain of any length from the passport's scope only granted names without parameters pass |
| Passports.GuardHonestChains | src/passport/mod.rs:350-373 | on an honest chain of any length from there exactly the last hop's intents pass, within the limits, unrevoked and unused |
| Passports.GuardAdmitsExactly | src/passport/mod.rs:350-373 | on chains of any principal and scope exactly the intents under the scope whose position the mask has get past |
| Passports.GuardIsExactFor | src/passport/mod.rs:350-373 | a scope admits only granted names exactly if every intent under it with its position in the mask is granted |
| Passports.CollidingNameIsAdmitted | src/passport/mod.rs:350-413 | a name that was not granted but shares a granted one's position gets past with a chain of another principal, also with fresh stores and the empty proof |
| Passports.GuardExactly | src/passport/mod.rs:350-373 | on a chain of `new_chain` and one sub-certificate exactly the granted names without parameters pass, with the sub-tree proof, for the delegate, holder-signed, in the window, unrevoked and unused |
| Passports.GuardLocalExactly | src/passport/mod.rs:376-413 | a granted name passes exactly if it is the only distinct name granted |
| Calendar.DaysToYmd | src/did.rs:406-430 | the loops end with a valid date whose closed-form day number is the input |
| Calendar.DatesFollowNumbers | src/did.rs:406-434 | a day number has one date, and the order of numbers is the order of dates |
| Calendar.NextYear | src/did.rs:408-415 | the closed form counts leap days by the leap rule of Appendix C of RFC 3339 |
| Calendar.NextMonth | src/did.rs:416-428 | the closed form for the start of a month grows by the month lengths of the table |
| Calendar.StringsReadBack | src/did.rs:397-404 | a string has its separators in their places and its numbers are a valid date and time of day that make up the given second; 20 characters up to the end of 9999 |
| Calendar.StringsSort | src/did.rs:397-404 | up to the end of 9999 the strings sort in time order, as section 5.1 of RFC 3339 describes |
| Calendar.FiveDigitYearsSortFirst | src/did.rs:403-403 | strings of the year 10000 sort before those of 9999 |
| Calendar.StringsSortExactly | src/did.rs:397-404 | the strings up to a bound sort in time order exactly if the bound is within 9999 |

## Left out

- Gateway, command line, language bindings, Studio and examples: input and output around the core.
- Redis and Postgres stores: round trips to servers; of the Redis nonce store only what its keys block and the documented time to live are modelled. Assumed of the server, which the repository does not contain: its clock does not run back, its seconds lag the chain's reading by at most a bound, and a key blocks until its deadline in milliseconds; whether also at it is left open.
- BLAKE3, Ed25519, constant-time comparison and random bytes: symbolic, as described above.
- Which error is returned first: contracts fix success or failure and every effect on the stores, and those of a batch its errors; the bodies return the code's errors in the code's order. The text of `BatchItemFailed` is left out.
- Async methods: the same text as the synchronous ones.
- Placement of filter bits and shards (src/registry.rs:107-123, src/registry.rs:199-210): arbitrary functions with values in range, so their mixing arithmetic is not modelled.
- Memory orderings and poisoned locks: shared accesses interleave as whole steps and locks never poison.
- NonceStores.MemoryNonceStore: its calls run one at a time, as under the lock of the code; the unlocked filter test of `is_consumed` is not interleaved.
- Integer overflow in debug builds: `window * 2` is modelled as it wraps in release builds; `next_power_of_two` is on unbounded numbers, since no vector has more than 2^63 elements.
- `try_param`, `names_in_order`, `from_csv` and file storage: they would only add easy members.
- Audit events, verifiable credentials, zero-knowledge, swarm, governance, negotiation, anchoring and hybrid signatures: one hash and one comparison each.
- `ProvableReceipt`: `guard` wraps the receipt with namespace, mask and a hash of the mask; the model returns the receipt itself.
- Certificates without the `wire` feature, whose extension hash is an opaque field.
- Deserialized extensions: the byte count restarts at zero after deserialization, which is not modelled.
