/** Delegation certificates: what is signed, how they are built and fingerprinted. */
module Certs {
  import opened Basics
  import opened Encoding
  import opened Hashing
  import opened Intents
  import opened Preimages

  type Key = Bytes

  /** The message under a certificate's signature, one component per hashed field. */
  datatype Signable = Signable(
    version: Byte, delegator: Key, delegate: Key, scopeRoot: Hash, scopeProof: SubScopeProof<Hash>, nonce: Nonce,
    issuedAt: U64, expiration: U64, maxDepth: Byte, extPreimage: Bytes)

  /** A signature carries the key that made it and the message it was made over. */
  datatype Signature = Signature(signer: Key, message: Signable)

  datatype Cert = Cert(
    version: Byte, delegator: Key, delegate: Key, scopeRoot: Hash, scopeProof: SubScopeProof<Hash>, nonce: Nonce,
    issuedAt: U64, expiration: U64, maxDepth: Byte, extensions: map<Text, ExtValue>, signature: Signature)

  datatype Fingerprint = Fingerprint(version: Byte, signature: Signature)

  datatype CertBuilder = CertBuilder(
    delegate: Key, scopeRoot: Hash, scopeProof: SubScopeProof<Hash>, nonce: Nonce,
    issuedAt: U64, expiration: U64, maxDepth: Byte, extensions: map<Text, ExtValue>)

  const DEFAULT_MAX_DEPTH: Byte := 16

  function SignableOf(c: Cert): Signable {
    Signable(c.version, c.delegator, c.delegate, c.scopeRoot, c.scopeProof, c.nonce,
             c.issuedAt, c.expiration, c.maxDepth, ExtPreimage(c.extensions))
  }

  predicate VerifySignature(c: Cert) {
    c.signature == Signature(c.delegator, SignableOf(c))
  }

  function FingerprintOf(c: Cert): Fingerprint {
    Fingerprint(c.version, c.signature)
  }

  function NewBuilder(delegate: Key, scopeRoot: Hash, issuedAt: U64, expiration: U64, nonce: Nonce): CertBuilder {
    CertBuilder(delegate, scopeRoot, FullPassthrough(), nonce, issuedAt, expiration, DEFAULT_MAX_DEPTH, map[])
  }

  /** `DelegationCert::issue`. */
  function IssueCert(b: CertBuilder, signer: Key): Cert {
    var message := Signable(CERT_VERSION, signer, b.delegate, b.scopeRoot, b.scopeProof, b.nonce,
                            b.issuedAt, b.expiration, b.maxDepth, ExtPreimage(b.extensions));
    Cert(CERT_VERSION, signer, b.delegate, b.scopeRoot, b.scopeProof, b.nonce,
         b.issuedAt, b.expiration, b.maxDepth, b.extensions, Signature(signer, message))
  }

  /** `CertBuilder::build`. */
  function BuildCert(b: CertBuilder, signer: Key): Result<Cert, A1Error> {
    if b.issuedAt >= b.expiration then Err(WireFormatError) else Ok(IssueCert(b, signer))
  }

  /** Two signed certificates with one fingerprint are the same certificate. */
  lemma {:induction false} FingerprintIdentifies(a: Cert, b: Cert)
    requires VerifySignature(a) && VerifySignature(b) && ExtFits(a.extensions) && ExtFits(b.extensions)
    requires FingerprintOf(a) == FingerprintOf(b)
    ensures a == b
  {
    ExtPreimageInjective(a.extensions, b.extensions);
  }
}
