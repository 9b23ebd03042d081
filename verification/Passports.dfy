/** Passports of `src/passport/mod.rs`: issuing, delegating a part, and guarding an intent. */
module Passports {
  import opened Basics
  import opened Encoding
  import opened Hashing
  import opened Intents
  import opened IntentProperties
  import opened Preimages
  import opened Certs
  import opened Chains
  import opened ChainProperties
  import opened NonceStores
  import opened RevocationStores
  import opened Authorization
  import opened Narrowing

  datatype Passport = Passport(namespace: Text, mask: Mask, capabilities: seq<Text>, cert: Cert)

  // ---------------------------------------------------------------- capability names

  predicate ValidName(name: Text) {
    name != [] && |name| <= MAX_ACTION_LEN
  }

  function NameHash(name: Text): Hash {
    IntentHash(Intent(name, map[]))
  }

  function NameHashes(names: seq<Text>): seq<Hash> {
    seq(|names|, i requires 0 <= i < |names| => NameHash(names[i]))
  }

  /** `cap_hashes`: collects the hashes, or fails if some name makes no intent. */
  function CapHashes(names: seq<Text>): Result<seq<Hash>, A1Error> {
    if forall n :: n in names ==> NewIntent(n).Ok? then Ok(NameHashes(names)) else Err(WireFormatError)
  }

  lemma NameHashesMember(names: seq<Text>, intent: Intent)
    requires |intent.params| <= U64_MAX
    ensures IntentHash(intent) in NameHashes(names) <==> intent.params == map[] && intent.action in names
  {
    if IntentHash(intent) in NameHashes(names) {
      var i :| 0 <= i < |names| && NameHash(names[i]) == IntentHash(intent);
      IntentHashInjective(intent, Intent(names[i], map[]));
    }
    if intent.params == map[] && intent.action in names {
      var i :| 0 <= i < |names| && names[i] == intent.action;
      assert NameHashes(names)[i] == IntentHash(intent);
    }
  }

  lemma NameHashesAreLeaves(names: seq<Text>)
    ensures AllLeaves(NameHashes(names))
  {
    forall h | h in NameHashes(names) ensures !h.Node? { var i :| 0 <= i < |names| && NameHashes(names)[i] == h; }
  }

  /** Hashing keeps inclusion of name sets, both ways. */
  lemma {:induction false} NameHashesInclusion(a: seq<Text>, b: seq<Text>)
    ensures Elems(NameHashes(a)) <= Elems(NameHashes(b)) <==> Elems(a) <= Elems(b)
  {
    if Elems(NameHashes(a)) <= Elems(NameHashes(b)) {
      forall n | n in Elems(a) ensures n in Elems(b) {
        NameHashesMember(a, Intent(n, map[]));
        assert NameHash(n) in Elems(NameHashes(a));
        NameHashesMember(b, Intent(n, map[]));
      }
    }
    if Elems(a) <= Elems(b) {
      forall h | h in Elems(NameHashes(a)) ensures h in Elems(NameHashes(b)) {
        var i :| 0 <= i < |a| && NameHashes(a)[i] == h;
        assert a[i] in Elems(a);
        NameHashesMember(b, Intent(a[i], map[]));
      }
    }
  }

  // ---------------------------------------------------------------- extensions

  const KEY_VERSION: Text := Ascii("dyolo.passport.v")

  const KEY_NAMESPACE: Text := Ascii("dyolo.passport.namespace")

  const KEY_MASK: Text := Ascii("dyolo.passport.mask")

  const KEY_CAPS: Text := Ascii("dyolo.passport.caps")

  /** `CertExtensions::set`: a refused value panics. */
  function Set(ext: Result<CertExtensions, A1Error>, key: Text, value: ExtValue): Result<CertExtensions, A1Error> {
    match ext
    case Err(e) => Err(e)
    case Ok(x) =>
      match SetChecked(x, key, value)
      case Err(_) => Err(Panic)
      case Ok(y) => Ok(y)
  }

  function SubExtensions(namespace: Text, mask: Mask): Result<CertExtensions, A1Error> {
    Set(Set(Set(Ok(NO_EXTENSIONS), KEY_VERSION, Num(1)), KEY_NAMESPACE, Str(namespace)), KEY_MASK, Str(ToHex(mask)))
  }

  function RootExtensions(namespace: Text, mask: Mask, capabilities: seq<Text>): Result<CertExtensions, A1Error> {
    Set(SubExtensions(namespace, mask), KEY_CAPS, Strings(capabilities))
  }

  lemma KeyLengths()
    ensures |KEY_VERSION| == 16 && |KEY_NAMESPACE| == 24 && |KEY_MASK| == 19 && |KEY_CAPS| == 19
  {
  }

  lemma {:induction false} SubExtensionBytes(namespace: Text, mask: Mask)
    ensures SubExtensions(namespace, mask).Ok? <==> 131 + |namespace| <= MAX_EXTENSION_BYTES
    ensures SubExtensions(namespace, mask).Ok? ==> SubExtensions(namespace, mask).value.byteCount == 131 + |namespace|
  {
    KeyLengths();
    var version := Set(Ok(NO_EXTENSIONS), KEY_VERSION, Num(1));
    assert version.Ok? && version.value.byteCount == 24;
    var named := Set(version, KEY_NAMESPACE, Str(namespace));
    assert named.Ok? <==> 48 + |namespace| <= MAX_EXTENSION_BYTES;
    assert named.Ok? ==> named.value.byteCount == 48 + |namespace|;
  }

  /** The extensions of a passport fit exactly within so many bytes of namespace and names. */
  lemma {:induction false} RootExtensionBytes(namespace: Text, mask: Mask, capabilities: seq<Text>)
    ensures RootExtensions(namespace, mask, capabilities).Ok? <==>
            150 + |namespace| + TextBytes(capabilities) <= MAX_EXTENSION_BYTES
  {
    KeyLengths();
    SubExtensionBytes(namespace, mask);
  }

  /** What a holder of the certificate can read back: version, namespace and the mask itself. */
  ghost predicate Stores(fields: map<Text, ExtValue>, namespace: Text, mask: Mask) {
    var v, n, m := Ascii("dyolo.passport.v"), Ascii("dyolo.passport.namespace"), Ascii("dyolo.passport.mask");
    v in fields && n in fields && m in fields &&
    fields[v] == Num(1) && fields[n] == Str(namespace) && fields[m].Str? && FromHex(fields[m].s) == Ok(mask)
  }

  lemma KeysDiffer()
    ensures KEY_MASK != KEY_CAPS && KEY_VERSION != KEY_NAMESPACE && KEY_VERSION != KEY_MASK && KEY_VERSION != KEY_CAPS
    ensures KEY_NAMESPACE != KEY_MASK && KEY_NAMESPACE != KEY_CAPS
  {
    KeyLengths();
    assert KEY_MASK[15] == 109 && KEY_CAPS[15] == 99;
  }

  lemma {:induction false} SubExtensionsStore(namespace: Text, mask: Mask)
    requires SubExtensions(namespace, mask).Ok?
    ensures var fields := SubExtensions(namespace, mask).value.fields;
            Stores(fields, namespace, mask) &&
            fields.Keys ==
            {Ascii("dyolo.passport.v"), Ascii("dyolo.passport.namespace"), Ascii("dyolo.passport.mask")}
  {
    KeysDiffer();
    HexRoundTrip(mask);
    assert SubExtensions(namespace, mask).value.fields ==
           map[KEY_VERSION := Num(1)][KEY_NAMESPACE := Str(namespace)][KEY_MASK := Str(ToHex(mask))];
  }

  lemma {:induction false} RootExtensionsStore(namespace: Text, mask: Mask, capabilities: seq<Text>)
    requires RootExtensions(namespace, mask, capabilities).Ok?
    ensures var fields := RootExtensions(namespace, mask, capabilities).value.fields;
            var caps := Ascii("dyolo.passport.caps");
            Stores(fields, namespace, mask) && caps in fields && fields[caps] == Strings(capabilities) &&
            fields.Keys ==
            {Ascii("dyolo.passport.v"), Ascii("dyolo.passport.namespace"), Ascii("dyolo.passport.mask"), caps}
  {
    KeysDiffer();
    SubExtensionsStore(namespace, mask);
    var before := SubExtensions(namespace, mask).value.fields;
    assert RootExtensions(namespace, mask, capabilities).value.fields == before[KEY_CAPS := Strings(capabilities)];
  }

  // ---------------------------------------------------------------- issuing

  /** `issue_inner`. */
  function IssuePassport(
      namespace: Text, capabilities: seq<Text>, ttl: U64, signer: Key, now: U64, nonce: Nonce, slotOf: Text -> Slot)
    : Result<Passport, A1Error>
  {
    var mask := MaskOf(capabilities, slotOf);
    match CapHashes(capabilities)
    case Err(e) => Err(e)
    case Ok(hashes) =>
      if hashes == [] then Err(EmptyTree)
      else
        match RootExtensions(namespace, mask, capabilities)
        case Err(e) => Err(e)
        case Ok(ext) =>
          var builder := NewBuilder(signer, TreeRoot(hashes), now, SatAdd(now, ttl), nonce)
                         .(maxDepth := 255, extensions := ext.fields);
          match BuildCert(builder, signer)
          case Err(e) => Err(e)
          case Ok(cert) => Ok(Passport(namespace, mask, capabilities, cert))
  }

  /** The certificate of `issue_sub`, once both name lists are hashed. */
  function SubCert(
      parent: seq<Hash>, sub: seq<Hash>, extensions: Result<CertExtensions, A1Error>, delegate: Key, expiration: U64,
      signer: Key, now: U64, nonce: Nonce)
    : Result<Cert, A1Error>
    requires parent != []
  {
    match BuildSubScope(TreeOf(parent), sub)
    case Err(e) => Err(e)
    case Ok(proof) =>
      if sub == [] then Err(EmptyTree)
      else
        match extensions
        case Err(e) => Err(e)
        case Ok(ext) =>
          BuildCert(NewBuilder(delegate, TreeRoot(sub), now, expiration, nonce)
                    .(scopeProof := proof, extensions := ext.fields), signer)
  }

  /** `issue_sub`. */
  function IssueSub(
      p: Passport, delegate: Key, capabilities: seq<Text>, ttl: U64, signer: Key, now: U64, nonce: Nonce,
      slotOf: Text -> Slot)
    : Result<Cert, A1Error>
  {
    var requested := MaskOf(capabilities, slotOf);
    if !IsSubsetOf(requested, p.mask) then Err(PassportNarrowingViolation)
    else
      match CapHashes(p.capabilities)
      case Err(e) => Err(e)
      case Ok(parent) =>
        if parent == [] then Err(EmptyTree)
        else
          match CapHashes(capabilities)
          case Err(e) => Err(e)
          case Ok(sub) =>
            SubCert(parent, sub, SubExtensions(p.namespace, requested), delegate, SatAdd(now, ttl), signer, now, nonce)
  }

  /** It is made exactly for a non-empty part, a lifetime and fitting extensions, and is an honest hop. */
  lemma {:induction false} SubCertExactly(
      parent: seq<Hash>, sub: seq<Hash>, extensions: Result<CertExtensions, A1Error>, delegate: Key, expiration: U64,
      signer: Key, now: U64, nonce: Nonce)
    requires parent != []
    ensures var r := SubCert(parent, sub, extensions, delegate, expiration, signer, now, nonce);
            (r.Ok? <==> sub != [] && Elems(sub) <= Elems(parent) && extensions.Ok? && now < expiration) &&
            (r.Ok? ==>
               var hop := Hop(delegate, sub, nonce, now, expiration, DEFAULT_MAX_DEPTH, extensions.value.fields);
               Delegable(parent, hop) && r.value == HonestCert(parent, signer, hop))
  {
    BuiltSubScopeIsAccepted(parent, sub);
  }

  /** What a passport issued by `holder` looks like. */
  ghost predicate IssuedBy(p: Passport, holder: Key, slotOf: Text -> Slot) {
    p.capabilities != [] && (forall n :: n in p.capabilities ==> ValidName(n)) &&
    p.mask == MaskOf(p.capabilities, slotOf) && SubExtensions(p.namespace, p.mask).Ok? &&
    p.cert.delegator == p.cert.delegate == holder && p.cert.scopeRoot == TreeRoot(NameHashes(p.capabilities)) &&
    VerifySignature(p.cert)
  }

  predicate NamesFit(names: seq<Text>) {
    forall n :: n in names ==> 0 < |n| <= 256
  }

  /** Issuing succeeds exactly for valid names, a lifetime and few enough bytes of names and namespace. */
  lemma {:induction false} IssueExactly(
      namespace: Text, capabilities: seq<Text>, ttl: U64, signer: Key, now: U64, nonce: Nonce, slotOf: Text -> Slot)
    ensures var r := IssuePassport(namespace, capabilities, ttl, signer, now, nonce, slotOf);
            (r.Ok? <==> capabilities != [] && NamesFit(capabilities) && now < SatAdd(now, ttl) &&
                        150 + |namespace| + TextBytes(capabilities) <= 16384) &&
            (r.Ok? ==> IssuedBy(r.value, signer, slotOf) && r.value.capabilities == capabilities &&
                       r.value.namespace == namespace)
  {
    assert |NameHashes(capabilities)| == |capabilities|;
    RootExtensionBytes(namespace, MaskOf(capabilities, slotOf), capabilities);
  }

  lemma InclusionOfSlots(names: seq<Text>, slotOf: Text -> Slot, slots: set<Slot>)
    ensures SlotsOf(names, slotOf) <= slots <==> forall n :: n in names ==> slotOf(n) in slots
  {
    if SlotsOf(names, slotOf) <= slots {
      forall n | n in names ensures slotOf(n) in slots { assert slotOf(n) in SlotsOf(names, slotOf); }
    }
  }

  lemma PartsFit(part: seq<Text>, names: seq<Text>)
    requires NamesFit(names)
    ensures Elems(part) <= Elems(names) ==> NamesFit(part)
  {
    if Elems(part) <= Elems(names) {
      forall n | n in part ensures 0 < |n| <= 256 { assert n in Elems(part); }
    }
  }

  /**
   The certificate of an issued passport: self-signed, valid from now for the time to live, good
   for chains of any length, with readable version, namespace, mask and names and nothing else.
   */
  lemma {:induction false} IssuedCertificate(
      namespace: Text, capabilities: seq<Text>, ttl: U64, signer: Key, now: U64, nonce: Nonce, slotOf: Text -> Slot)
    requires IssuePassport(namespace, capabilities, ttl, signer, now, nonce, slotOf).Ok?
    ensures var p := IssuePassport(namespace, capabilities, ttl, signer, now, nonce, slotOf).value;
            var caps := Ascii("dyolo.passport.caps");
            p.cert.delegator == p.cert.delegate == p.cert.signature.signer == signer &&
            p.cert.issuedAt == now && p.cert.expiration == SatAdd(now, ttl) && p.cert.nonce == nonce &&
            p.cert.maxDepth == 255 && Stores(p.cert.extensions, namespace, MaskOf(capabilities, slotOf)) &&
            caps in p.cert.extensions && p.cert.extensions[caps] == Strings(capabilities) &&
            p.cert.extensions.Keys ==
            {Ascii("dyolo.passport.v"), Ascii("dyolo.passport.namespace"), Ascii("dyolo.passport.mask"), caps}
  {
    RootExtensionsStore(namespace, MaskOf(capabilities, slotOf), capabilities);
  }

  /** Taken as a chain of one it is accepted exactly in that time, give or take the drift. */
  lemma {:induction false} IssuedCertificateAccepted(
      namespace: Text, capabilities: seq<Text>, ttl: U64, signer: Key, now: U64, nonce: Nonce, slotOf: Text -> Slot,
      drift: U64, chainNamespace: Option<Text>, agent: Key, x: Hash, proof: MerkleProof<Hash>, at: U64)
    requires IssuePassport(namespace, capabilities, ttl, signer, now, nonce, slotOf).Ok? && capabilities != []
    ensures NameHashes(capabilities) != []
    ensures var cert := IssuePassport(namespace, capabilities, ttl, signer, now, nonce, slotOf).value.cert;
            Accepts(Chain(signer, cert.scopeRoot, [cert], drift, chainNamespace), agent, x, proof, at) <==>
            agent == signer && Verifies(proof, x, TreeRoot(NameHashes(capabilities))) &&
            now <= at + drift && at <= SatAdd(now, ttl) + drift
  {
    assert |NameHashes(capabilities)| == |capabilities|;
    var cert := IssuePassport(namespace, capabilities, ttl, signer, now, nonce, slotOf).value.cert;
    OneCertExactly(Chain(signer, cert.scopeRoot, [cert], drift, chainNamespace), agent, x, proof, at);
  }

  /** What has to hold before the certificate of `issue_sub` is made. */
  lemma {:induction false} IssueSubReaches(
      p: Passport, delegate: Key, capabilities: seq<Text>, ttl: U64, signer: Key, now: U64, nonce: Nonce,
      slotOf: Text -> Slot)
    ensures var r := IssueSub(p, delegate, capabilities, ttl, signer, now, nonce, slotOf);
            if IsSubsetOf(MaskOf(capabilities, slotOf), p.mask) && NamesFit(p.capabilities) && p.capabilities != [] &&
               NamesFit(capabilities)
            then
              NameHashes(p.capabilities) != [] &&
              r == SubCert(NameHashes(p.capabilities), NameHashes(capabilities),
                           SubExtensions(p.namespace, MaskOf(capabilities, slotOf)), delegate, SatAdd(now, ttl), signer,
                           now, nonce)
            else r.Err?
  {
    assert |NameHashes(p.capabilities)| == |p.capabilities|;
    assert NamesFit(p.capabilities) <==> CapHashes(p.capabilities).Ok?;
    assert NamesFit(capabilities) <==> CapHashes(capabilities).Ok?;
  }

  lemma {:induction false} PartIsWithin(p: Passport, holder: Key, capabilities: seq<Text>, slotOf: Text -> Slot)
    requires IssuedBy(p, holder, slotOf) && Elems(capabilities) <= Elems(p.capabilities)
    ensures IsSubsetOf(MaskOf(capabilities, slotOf), p.mask) && NamesFit(p.capabilities) && NamesFit(capabilities)
  {
    forall n | n in capabilities ensures n in p.capabilities { assert n in Elems(capabilities); }
    SubsetIsInclusion(MaskOf(capabilities, slotOf), p.mask);
  }

  /** For any passport, however it came about: the positions and the names requested are both its own. */
  lemma {:induction false} IssueSubAnyExactly(
      p: Passport, delegate: Key, capabilities: seq<Text>, ttl: U64, signer: Key, now: U64, nonce: Nonce,
      slotOf: Text -> Slot)
    ensures IssueSub(p, delegate, capabilities, ttl, signer, now, nonce, slotOf).Ok? <==>
            (forall n :: n in capabilities ==> slotOf(n) in Slots(p.mask)) &&
            capabilities != [] && Elems(capabilities) <= Elems(p.capabilities) &&
            NamesFit(p.capabilities) && now < SatAdd(now, ttl) && 131 + |p.namespace| <= 16384
  {
    var parent, sub := NameHashes(p.capabilities), NameHashes(capabilities);
    assert |parent| == |p.capabilities| && |sub| == |capabilities|;
    var extensions := SubExtensions(p.namespace, MaskOf(capabilities, slotOf));
    SubExtensionBytes(p.namespace, MaskOf(capabilities, slotOf));
    IssueSubReaches(p, delegate, capabilities, ttl, signer, now, nonce, slotOf);
    if parent != [] { SubCertExactly(parent, sub, extensions, delegate, SatAdd(now, ttl), signer, now, nonce); }
    NameHashesInclusion(capabilities, p.capabilities);
    SubsetIsInclusion(MaskOf(capabilities, slotOf), p.mask);
    InclusionOfSlots(capabilities, slotOf, Slots(p.mask));
    if NamesFit(p.capabilities) { PartsFit(capabilities, p.capabilities); }
    if capabilities != [] { assert capabilities[0] in Elems(capabilities); }
  }

  /**
   Sub-delegation succeeds exactly for a non-empty part of an issued passport's own names and a
   lifetime: colliding mask bits never let another name through.
   */
  lemma {:induction false} IssueSubExactly(
      p: Passport, holder: Key, delegate: Key, capabilities: seq<Text>, ttl: U64, signer: Key, now: U64,
      nonce: Nonce, slotOf: Text -> Slot)
    requires IssuedBy(p, holder, slotOf)
    ensures IssueSub(p, delegate, capabilities, ttl, signer, now, nonce, slotOf).Ok? <==>
            capabilities != [] && Elems(capabilities) <= Elems(p.capabilities) && now < SatAdd(now, ttl)
  {
    IssueSubAnyExactly(p, delegate, capabilities, ttl, signer, now, nonce, slotOf);
    SubExtensionBytes(p.namespace, p.mask);
    if Elems(capabilities) <= Elems(p.capabilities) {
      PartIsWithin(p, holder, capabilities, slotOf);
      SubsetIsInclusion(MaskOf(capabilities, slotOf), p.mask);
      InclusionOfSlots(capabilities, slotOf, Slots(p.mask));
    }
  }

  /**
   The certificate: signed by the signer for the delegate, valid from now for the time to live,
   for chains of up to 16, with the part's scope, readable version, namespace and mask and nothing else.
   */
  lemma {:induction false} SubCertificate(
      p: Passport, delegate: Key, capabilities: seq<Text>, ttl: U64, signer: Key, now: U64, nonce: Nonce,
      slotOf: Text -> Slot)
    requires IssueSub(p, delegate, capabilities, ttl, signer, now, nonce, slotOf).Ok?
    ensures NameHashes(capabilities) != []
    ensures var cert := IssueSub(p, delegate, capabilities, ttl, signer, now, nonce, slotOf).value;
            cert.delegator == cert.signature.signer == signer && cert.delegate == delegate &&
            cert.issuedAt == now && cert.expiration == SatAdd(now, ttl) && cert.nonce == nonce && cert.maxDepth == 16 &&
            cert.scopeRoot == TreeRoot(NameHashes(capabilities)) &&
            Stores(cert.extensions, p.namespace, MaskOf(capabilities, slotOf)) &&
            cert.extensions.Keys ==
            {Ascii("dyolo.passport.v"), Ascii("dyolo.passport.namespace"), Ascii("dyolo.passport.mask")}
  {
    var parent, sub := NameHashes(p.capabilities), NameHashes(capabilities);
    var extensions := SubExtensions(p.namespace, MaskOf(capabilities, slotOf));
    IssueSubReaches(p, delegate, capabilities, ttl, signer, now, nonce, slotOf);
    SubCertExactly(parent, sub, extensions, delegate, SatAdd(now, ttl), signer, now, nonce);
    SubExtensionsStore(p.namespace, MaskOf(capabilities, slotOf));
  }

  // ---------------------------------------------------------------- guarding

  /** `new_chain` with the sub-certificate pushed. */
  function ChainOf(p: Passport, sub: Cert): Chain {
    Chain(p.cert.delegator, p.cert.scopeRoot, [sub], 15, Some(p.namespace))
  }

  predicate MaskAllows(p: Passport, intent: Intent, slotOf: Text -> Slot) {
    IsSubsetOf(MaskOf([intent.action], slotOf), p.mask)
  }

  /** The mask test is about one position, which other names may share. */
  lemma {:induction false} MaskAllowsExactly(p: Passport, intent: Intent, slotOf: Text -> Slot)
    ensures MaskAllows(p, intent, slotOf) <==> slotOf(intent.action) in Slots(p.mask)
    ensures p.mask == MaskOf(p.capabilities, slotOf) ==>
              (MaskAllows(p, intent, slotOf) <==> exists n :: n in p.capabilities && slotOf(n) == slotOf(intent.action))
  {
    SubsetIsInclusion(MaskOf([intent.action], slotOf), p.mask);
    InclusionOfSlots([intent.action], slotOf, Slots(p.mask));
  }

  predicate GuardOk(
      p: Passport, c: Chain, agent: Key, intent: Intent, proof: MerkleProof<Hash>, now: U64,
      revoked: set<Fingerprint>, nonces: Deadlines, storeNow: U64, slotOf: Text -> Slot)
  {
    MaskAllows(p, intent, slotOf) &&
    Grants(c, agent, Request(IntentHash(intent), proof), now, revoked, nonces, storeNow)
  }

  method NewChain(p: Passport) returns (chain: DyoloChain)
    ensures fresh(chain) && chain.Snapshot() == Chain(p.cert.delegator, p.cert.scopeRoot, [], 15, Some(p.namespace))
    ensures forall sub :: ChainOf(p, sub) == chain.Snapshot().(certs := [sub])
  {
    chain := new DyoloChain(p.cert.delegator, p.cert.scopeRoot);
    chain.namespace := Some(p.namespace);
  }

  method Guard(
      p: Passport, chain: DyoloChain, agent: Key, intent: Intent, proof: MerkleProof<Hash>, now: U64,
      revocation: MemoryRevocationStore, nonces: MemoryNonceStore, storeNow: U64, slotOf: Text -> Slot)
    returns (r: Result<Receipt, A1Error>)
    requires revocation.Valid() && nonces.Valid() && nonces.bloom != revocation.bloom
    modifies nonces`store, nonces.bloom
    ensures revocation.Valid() && nonces.Valid()
    ensures r.Ok? <==> GuardOk(p, chain.Snapshot(), agent, intent, proof, now, revocation.revoked,
                               old(nonces.store), storeNow, slotOf)
    ensures r.Ok? ==> r.value == ReceiptOf(chain.Snapshot(), IntentHash(intent), now)
    ensures nonces.store == if r.Ok? then Consumed(old(nonces.store), nonces.ttlSecs, Nonces(chain.certs), storeNow)
                            else old(nonces.store)
  {
    var requested := FromCapabilities([intent.action], slotOf);
    if !IsSubsetOf(requested, p.mask) {
      return Err(PassportNarrowingViolation);
    }
    var h := HashIntent(intent);
    r := Authorize(chain, agent, Request(h, proof), now, revocation, nonces, storeNow, true);
  }

  /** Authorizes with stores made for this one call. */
  method AuthorizeLocally(
      chain: DyoloChain, agent: Key, req: Request, now: U64, storeNow: U64, layout: Layout,
      indices: Nonce -> (nat, nat))
    returns (r: Result<Receipt, A1Error>)
    requires ValidLayout(layout) && ValidIndices(indices)
    ensures r.Ok? <==> Grants(chain.Snapshot(), agent, req, now, {}, map[], storeNow)
    ensures r.Ok? ==> r.value == ReceiptOf(chain.Snapshot(), req.intent, now)
  {
    ghost var c := chain.Snapshot();
    var revocation := new MemoryRevocationStore(layout);
    var nonces := new MemoryNonceStore(indices);
    assert chain.Snapshot() == c;
    r := Authorize(chain, agent, req, now, revocation, nonces, storeNow, true);
  }

  /** The same with the empty proof and stores of its own. */
  method GuardLocal(
      p: Passport, chain: DyoloChain, agent: Key, intent: Intent, now: U64, storeNow: U64, slotOf: Text -> Slot,
      layout: Layout, indices: Nonce -> (nat, nat))
    returns (r: Result<Receipt, A1Error>)
    requires ValidLayout(layout) && ValidIndices(indices)
    ensures r.Ok? <==> GuardOk(p, chain.Snapshot(), agent, intent, MerkleProof([]), now, {}, map[], storeNow, slotOf)
    ensures r.Ok? ==> r.value == ReceiptOf(chain.Snapshot(), IntentHash(intent), now)
  {
    var requested := FromCapabilities([intent.action], slotOf);
    if !IsSubsetOf(requested, p.mask) {
      return Err(PassportNarrowingViolation);
    }
    var h := HashIntent(intent);
    r := AuthorizeLocally(chain, agent, Request(h, MerkleProof([])), now, storeNow, layout, indices);
  }

  // ---------------------------------------------------------------- guarding any chain

  /** What a passport grants. */
  predicate Granted(p: Passport, intent: Intent) {
    intent.params == map[] && intent.action in p.capabilities
  }

  lemma {:induction false} AcceptedIsGranted(
      p: Passport, holder: Key, c: Chain, agent: Key, intent: Intent, proof: MerkleProof<Hash>, now: U64,
      slotOf: Text -> Slot)
    requires IssuedBy(p, holder, slotOf) && |intent.params| <= U64_MAX
    requires c.scope == p.cert.scopeRoot && Accepts(c, agent, IntentHash(intent), proof, now)
    ensures Granted(p, intent) && MaskAllows(p, intent, slotOf)
  {
    var names := NameHashes(p.capabilities);
    assert |names| == |p.capabilities|;
    NameHashesAreLeaves(p.capabilities);
    OnlyCommittedIntents(c, names, agent, IntentHash(intent), proof, now);
    NameHashesMember(p.capabilities, intent);
    PartIsWithin(p, holder, [intent.action], slotOf);
  }

  /** On a chain of any length from the passport's scope `guard` admits only what the passport grants. */
  lemma {:induction false} GuardStaysGranted(
      p: Passport, holder: Key, c: Chain, agent: Key, intent: Intent, proof: MerkleProof<Hash>, now: U64,
      revoked: set<Fingerprint>, nonces: Deadlines, storeNow: U64, slotOf: Text -> Slot)
    requires IssuedBy(p, holder, slotOf) && |intent.params| <= U64_MAX && c.scope == p.cert.scopeRoot
    requires GuardOk(p, c, agent, intent, proof, now, revoked, nonces, storeNow, slotOf)
    ensures Granted(p, intent)
  {
    AcceptedIsGranted(p, holder, c, agent, intent, proof, now, slotOf);
  }

  lemma NamespaceDoesNotMatter(c: Chain, agent: Key, intent: Hash, proof: MerkleProof<Hash>, now: U64)
    ensures Accepts(c, agent, intent, proof, now) <==> Accepts(c.(namespace := None), agent, intent, proof, now)
  {
    var d := c.(namespace := None);
    forall i | 0 <= i < |c.certs| ensures HopOk(c, i, now) <==> HopOk(d, i, now) {
      assert ScopeBefore(c, i) == ScopeBefore(d, i) && DelegatorBefore(c, i) == DelegatorBefore(d, i);
      assert DepthOk(c, i) <==> DepthOk(d, i);
      assert NonceFresh(c, i) <==> NonceFresh(d, i);
    }
    assert HopsOk(c, now) <==> HopsOk(d, now);
  }

  /**
   And on an honest chain from there, of any length, it admits exactly what the chain hands on:
   the mask refuses nothing more, whatever the namespace.
   */
  lemma {:induction false} GuardHonestChains(
      p: Passport, holder: Key, hops: seq<Hop>, drift: U64, namespace: Option<Text>, agent: Key, intent: Intent,
      proof: MerkleProof<Hash>, now: U64, revoked: set<Fingerprint>, nonces: Deadlines, storeNow: U64,
      slotOf: Text -> Slot)
    requires IssuedBy(p, holder, slotOf) && |intent.params| <= U64_MAX
    requires Descending(NameHashes(p.capabilities), hops) && hops != []
    ensures hops[|hops| - 1].intents != []
    ensures var last := hops[|hops| - 1];
            var c := HonestChain(holder, NameHashes(p.capabilities), hops, drift).(namespace := namespace);
            GuardOk(p, c, agent, intent, proof, now, revoked, nonces, storeNow, slotOf) <==>
            WithinLimits(hops, drift, now) && agent == last.delegate &&
            ProofFor(TreeOf(last.intents), IntentHash(intent)) == Ok(proof) &&
            !AnyRevoked(c.certs, revoked) && !AnyLive(nonces, Nonces(c.certs), storeNow)
  {
    var c := HonestChain(holder, NameHashes(p.capabilities), hops, drift).(namespace := namespace);
    HonestChainsAreAcceptedExactly(
      holder, NameHashes(p.capabilities), hops, drift, agent, IntentHash(intent), proof, now);
    NamespaceDoesNotMatter(c, agent, IntentHash(intent), proof, now);
    if Accepts(c, agent, IntentHash(intent), proof, now) {
      AcceptedIsGranted(p, holder, c, agent, intent, proof, now, slotOf);
    }
  }

  /** One certificate that passes its scope through admits whatever is proved against it, if the mask allows. */
  lemma {:induction false} PassThroughAdmits(
      p: Passport, principal: Key, scope: Hash, agent: Key, issued: U64, expiration: U64, nonce: Nonce, intent: Intent,
      proof: MerkleProof<Hash>, now: U64, storeNow: U64, slotOf: Text -> Slot)
    requires MaskAllows(p, intent, slotOf) && Verifies(proof, IntentHash(intent), scope)
    requires issued <= now + 15 && now <= expiration + 15
    ensures GuardOk(p, PassThrough(principal, scope, agent, issued, expiration, nonce, 15, None), agent, intent, proof,
                    now, {}, map[], storeNow, slotOf)
  {
    PassThroughExactly(principal, scope, agent, issued, expiration, nonce, 15, None,
                       agent, IntentHash(intent), proof, now);
  }

  /** Some chain of this principal and scope gets the intent past `guard`. */
  ghost predicate GuardAdmits(p: Passport, principal: Key, scope: Hash, intent: Intent, slotOf: Text -> Slot) {
    exists c: Chain, agent: Key, proof: MerkleProof<Hash>, now: U64, revoked: set<Fingerprint>, nonces: Deadlines,
      storeNow: U64 ::
      c.principal == principal && c.scope == scope &&
      GuardOk(p, c, agent, intent, proof, now, revoked, nonces, storeNow, slotOf)
  }

  /**
   `guard` does not compare the chain's principal and scope with the passport: on chains from any
   scope it admits exactly the intents under that scope whose position the mask has.
   */
  lemma {:induction false} GuardAdmitsExactly(
      p: Passport, principal: Key, scope: Hash, intent: Intent, slotOf: Text -> Slot)
    ensures GuardAdmits(p, principal, scope, intent, slotOf) <==>
            IntentHash(intent) in Leaves(scope) && slotOf(intent.action) in Slots(p.mask)
  {
    MaskAllowsExactly(p, intent, slotOf);
    var x := IntentHash(intent);
    if GuardAdmits(p, principal, scope, intent, slotOf) {
      var c: Chain, agent, proof, now: U64, revoked, nonces: Deadlines, storeNow: U64 :|
        c.principal == principal && c.scope == scope &&
        GuardOk(p, c, agent, intent, proof, now, revoked, nonces, storeNow, slotOf);
      AcceptedIntentIsNarrow(c, agent, x, proof, now, 0);
    }
    if x in Leaves(scope) && MaskAllows(p, intent, slotOf) {
      LeavesAreUnder(x, scope);
      var proof := PathFromBelow(x, scope);
      PassThroughAdmits(p, principal, scope, principal, 0, 0, seq(16, _ => 0), intent, proof, 0, 0, slotOf);
    }
  }

  /** So it admits only what was granted exactly if nothing else under the scope has its position in the mask. */
  lemma {:induction false} GuardIsExactFor(p: Passport, principal: Key, scope: Hash, slotOf: Text -> Slot)
    ensures (forall intent :: GuardAdmits(p, principal, scope, intent, slotOf) ==> Granted(p, intent)) <==>
            (forall intent :: IntentHash(intent) in Leaves(scope) && slotOf(intent.action) in Slots(p.mask) ==>
               Granted(p, intent))
  {
    forall intent
      ensures GuardAdmits(p, principal, scope, intent, slotOf) <==>
              IntentHash(intent) in Leaves(scope) && slotOf(intent.action) in Slots(p.mask)
    {
      GuardAdmitsExactly(p, principal, scope, intent, slotOf);
    }
  }

  /** A chain of another principal gets past `guard` with a name that only collides with a granted one. */
  lemma {:induction false} CollidingNameIsAdmitted(
      p: Passport, holder: Key, granted: Text, name: Text, principal: Key, agent: Key, issued: U64, expiration: U64,
      nonce: Nonce, now: U64, storeNow: U64, slotOf: Text -> Slot)
    requires IssuedBy(p, holder, slotOf) && granted in p.capabilities
    requires name !in p.capabilities && slotOf(name) == slotOf(granted)
    requires issued <= now + 15 && now <= expiration + 15
    ensures GuardOk(p, PassThrough(principal, NameHash(name), agent, issued, expiration, nonce, 15, None), agent,
                    Intent(name, map[]), MerkleProof([]), now, {}, map[], storeNow, slotOf)
    ensures !Granted(p, Intent(name, map[]))
  {
    PartIsWithin(p, holder, [granted], slotOf);
    assert [granted][0] == granted && [name][0] == name;
    SubsetIsInclusion(MaskOf([granted], slotOf), p.mask);
    SubsetIsInclusion(MaskOf([name], slotOf), p.mask);
    PassThroughAdmits(p, principal, NameHash(name), agent, issued, expiration, nonce, Intent(name, map[]),
                      MerkleProof([]), now, storeNow, slotOf);
  }

  // ---------------------------------------------------------------- end to end

  /** The hop that a successful `issue_sub` amounts to. */
  function SubHop(
      p: Passport, delegate: Key, capabilities: seq<Text>, ttl: U64, now: U64, nonce: Nonce,
      slotOf: Text -> Slot): Hop
    requires SubExtensions(p.namespace, MaskOf(capabilities, slotOf)).Ok?
  {
    Hop(delegate, NameHashes(capabilities), nonce, now, SatAdd(now, ttl), DEFAULT_MAX_DEPTH,
        SubExtensions(p.namespace, MaskOf(capabilities, slotOf)).value.fields)
  }

  lemma {:induction false} SubCertIsHonest(
      p: Passport, holder: Key, delegate: Key, capabilities: seq<Text>, ttl: U64, signer: Key, now: U64,
      nonce: Nonce, slotOf: Text -> Slot)
    requires IssuedBy(p, holder, slotOf)
    requires IssueSub(p, delegate, capabilities, ttl, signer, now, nonce, slotOf).Ok?
    ensures SubExtensions(p.namespace, MaskOf(capabilities, slotOf)).Ok?
    ensures var hop := SubHop(p, delegate, capabilities, ttl, now, nonce, slotOf);
            Delegable(NameHashes(p.capabilities), hop) &&
            IssueSub(p, delegate, capabilities, ttl, signer, now, nonce, slotOf).value ==
            HonestCert(NameHashes(p.capabilities), signer, hop)
  {
    IssueSubReaches(p, delegate, capabilities, ttl, signer, now, nonce, slotOf);
    SubCertExactly(NameHashes(p.capabilities), NameHashes(capabilities),
                   SubExtensions(p.namespace, MaskOf(capabilities, slotOf)), delegate, SatAdd(now, ttl), signer, now,
                   nonce);
  }

  lemma OneHopDescends(parent: seq<Hash>, hop: Hop)
    requires Delegable(parent, hop) && AllLeaves(parent)
    ensures Descending(parent, [hop])
  {
  }

  lemma OneHopLimits(hop: Hop, now: U64)
    ensures WithinLimits([hop], 15, now) <==> hop.issuedAt <= now + 15 && now <= hop.expiration + 15
  {
    assert HopsInTime([hop], 15, now) <==> [hop][0].issuedAt <= now + 15 && now <= [hop][0].expiration + 15;
  }

  lemma OneHopChain(p: Passport, holder: Key, parent: seq<Hash>, hop: Hop)
    requires p.cert.delegator == holder && parent != [] && p.cert.scopeRoot == TreeRoot(parent)
    requires Descending(parent, [hop]) && Delegable(parent, hop)
    ensures ChainOf(p, HonestCert(parent, holder, hop)).(namespace := None) == HonestChain(holder, parent, [hop], 15)
  {
    assert HonestChain(holder, parent, [hop], 15).certs == [HonestCert(parent, holder, hop)];
  }

  lemma {:induction false} HolderSignedAccepts(
      p: Passport, holder: Key, hop: Hop, agent: Key, x: Hash, proof: MerkleProof<Hash>, now: U64,
      slotOf: Text -> Slot)
    requires IssuedBy(p, holder, slotOf) && Delegable(NameHashes(p.capabilities), hop) && !x.Node?
    ensures Accepts(ChainOf(p, HonestCert(NameHashes(p.capabilities), holder, hop)), agent, x, proof, now) <==>
            agent == hop.delegate && hop.issuedAt <= now + 15 && now <= hop.expiration + 15 &&
            ProofFor(TreeOf(hop.intents), x) == Ok(proof)
  {
    var parent := NameHashes(p.capabilities);
    NameHashesAreLeaves(p.capabilities);
    OneHopDescends(parent, hop);
    OneHopChain(p, holder, parent, hop);
    NamespaceDoesNotMatter(ChainOf(p, HonestCert(parent, holder, hop)), agent, x, proof, now);
    HonestChainsAreAcceptedExactly(holder, parent, [hop], 15, agent, x, proof, now);
    OneHopLimits(hop, now);
  }

  lemma {:induction false} SubChainAccepts(
      p: Passport, holder: Key, hop: Hop, signer: Key, agent: Key, x: Hash, proof: MerkleProof<Hash>,
      now: U64, slotOf: Text -> Slot)
    requires IssuedBy(p, holder, slotOf) && Delegable(NameHashes(p.capabilities), hop) && !x.Node?
    ensures Accepts(ChainOf(p, HonestCert(NameHashes(p.capabilities), signer, hop)), agent, x, proof, now) <==>
            signer == holder && agent == hop.delegate && hop.issuedAt <= now + 15 && now <= hop.expiration + 15 &&
            ProofFor(TreeOf(hop.intents), x) == Ok(proof)
  {
    if signer == holder {
      HolderSignedAccepts(p, holder, hop, agent, x, proof, now, slotOf);
    } else {
      var c := ChainOf(p, HonestCert(NameHashes(p.capabilities), signer, hop));
      assert !LinkOk(c, 0);
      assert !HopOk(c, 0, now);
    }
  }

  lemma {:induction false} GrantedNameHasBit(
      p: Passport, holder: Key, delegate: Key, granted: seq<Text>, ttl: U64, signer: Key, issued: U64, nonce: Nonce,
      intent: Intent, slotOf: Text -> Slot)
    requires IssuedBy(p, holder, slotOf) && intent.action in granted
    requires IssueSub(p, delegate, granted, ttl, signer, issued, nonce, slotOf).Ok?
    ensures MaskAllows(p, intent, slotOf)
  {
    IssueSubExactly(p, holder, delegate, granted, ttl, signer, issued, nonce, slotOf);
    assert intent.action in Elems(granted);
    SubsetIsInclusion(MaskOf([intent.action], slotOf), p.mask);
  }

  lemma StoresOfOne(c: Chain, revoked: set<Fingerprint>, nonces: Deadlines, storeNow: U64)
    requires |c.certs| == 1
    ensures AnyRevoked(c.certs, revoked) <==> FingerprintOf(c.certs[0]) in revoked
    ensures AnyLive(nonces, Nonces(c.certs), storeNow) <==> Live(nonces, c.certs[0].nonce, storeNow)
  {
    assert Nonces(c.certs) == [c.certs[0].nonce];
  }

  /**
   For a sub-certificate of an issued passport, `guard` accepts exactly the granted names without
   parameters, each with the proof from the sub-scope tree, for the named agent, signed by the
   passport's holder, within the window, neither revoked nor used.
   */
  lemma {:induction false} GuardExactly(
      p: Passport, holder: Key, delegate: Key, granted: seq<Text>, ttl: U64, signer: Key, issued: U64, nonce: Nonce,
      agent: Key, intent: Intent, proof: MerkleProof<Hash>, now: U64,
      revoked: set<Fingerprint>, nonces: Deadlines, storeNow: U64, slotOf: Text -> Slot)
    requires IssuedBy(p, holder, slotOf) && |intent.params| <= U64_MAX
    requires IssueSub(p, delegate, granted, ttl, signer, issued, nonce, slotOf).Ok?
    ensures NameHashes(granted) != []
    ensures var sub := IssueSub(p, delegate, granted, ttl, signer, issued, nonce, slotOf).value;
            GuardOk(p, ChainOf(p, sub), agent, intent, proof, now, revoked, nonces, storeNow, slotOf) <==>
            intent.params == map[] && intent.action in granted &&
            ProofFor(TreeOf(NameHashes(granted)), IntentHash(intent)) == Ok(proof) &&
            signer == holder && agent == delegate && issued <= now + 15 && now <= SatAdd(issued, ttl) + 15 &&
            FingerprintOf(sub) !in revoked && !Live(nonces, nonce, storeNow)
  {
    var sub := IssueSub(p, delegate, granted, ttl, signer, issued, nonce, slotOf).value;
    SubCertIsHonest(p, holder, delegate, granted, ttl, signer, issued, nonce, slotOf);
    var hop := SubHop(p, delegate, granted, ttl, issued, nonce, slotOf);
    SubChainAccepts(p, holder, hop, signer, agent, IntentHash(intent), proof, now, slotOf);
    ProofsAreComplete(NameHashes(granted), IntentHash(intent));
    NameHashesMember(granted, intent);
    StoresOfOne(ChainOf(p, sub), revoked, nonces, storeNow);
    if intent.action in granted {
      GrantedNameHasBit(p, holder, delegate, granted, ttl, signer, issued, nonce, intent, slotOf);
    }
  }

  /** The empty proof reaches a root exactly if nothing else is under it. */
  lemma {:induction false} EmptyProofMeansSingle(names: seq<Text>, name: Text)
    requires names != []
    ensures NameHashes(names) != []
    ensures Verifies(MerkleProof([]), NameHash(name), TreeRoot(NameHashes(names))) <==> Elems(names) == {name}
  {
    var hs, h := NameHashes(names), NameHash(name);
    assert |hs| == |names|;
    NameHashesAreLeaves(names);
    RootCommitsToLeaves(hs);
    if h == TreeRoot(hs) {
      assert Elems(hs) == {h};
      forall n | n in names ensures n == name {
        NameHashesMember(names, Intent(n, map[]));
        assert NameHash(n) in Elems(hs);
        IntentHashInjective(Intent(n, map[]), Intent(name, map[]));
      }
      assert names[0] in names;
    }
    if Elems(names) == {name} {
      forall i | 0 <= i < |hs| ensures hs[i] == h { assert names[i] in Elems(names); }
      assert hs[0] in hs;
      assert Elems(hs) == Elems([h]);
      StrictlySortedUnique(SortDedup(hs), [h]);
    }
  }

  lemma {:induction false} EmptyProofIsProver(names: seq<Text>, name: Text)
    requires names != []
    ensures NameHashes(names) != []
    ensures ProofFor(TreeOf(NameHashes(names)), NameHash(name)) == Ok(MerkleProof([])) <==> Elems(names) == {name}
  {
    EmptyProofMeansSingle(names, name);
    NameHashesAreLeaves(names);
    ProofIsUnique(NameHashes(names), NameHash(name), MerkleProof([]));
  }

  /** `guard_local` accepts a granted name exactly when it is the only distinct name granted. */
  lemma {:induction false} GuardLocalExactly(
      p: Passport, holder: Key, delegate: Key, granted: seq<Text>, ttl: U64, issued: U64, nonce: Nonce,
      name: Text, now: U64, storeNow: U64, slotOf: Text -> Slot)
    requires IssuedBy(p, holder, slotOf) && name in granted
    requires IssueSub(p, delegate, granted, ttl, holder, issued, nonce, slotOf).Ok?
    requires issued <= now + 15 && now <= SatAdd(issued, ttl) + 15
    ensures var sub := IssueSub(p, delegate, granted, ttl, holder, issued, nonce, slotOf).value;
            GuardOk(p, ChainOf(p, sub), delegate, Intent(name, map[]), MerkleProof([]), now,
                    {}, map[], storeNow, slotOf) <==>
            Elems(granted) == {name}
  {
    var intent := Intent(name, map[]);
    var sub := IssueSub(p, delegate, granted, ttl, holder, issued, nonce, slotOf).value;
    GuardExactly(p, holder, delegate, granted, ttl, holder, issued, nonce, delegate, intent, MerkleProof([]), now,
                 {}, map[], storeNow, slotOf);
    EmptyProofIsProver(granted, name);
  }
}
