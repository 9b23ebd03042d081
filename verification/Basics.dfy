/** Values shared by every part of the model: bytes, 64-bit words and results. */
module Basics {

  type Byte = n: nat | n < 256

  type Bytes = seq<Byte>

  const U64_MAX: nat := 0xFFFF_FFFF_FFFF_FFFF

  /** A Rust `u64`; arithmetic on it is written out with its saturation or wrap-around. */
  type U64 = n: nat | n <= 0xFFFF_FFFF_FFFF_FFFF

  type Nonce = s: Bytes | |s| == 16 witness seq(16, _ => 0)

  /** `u64::saturating_add`. */
  function SatAdd(a: U64, b: U64): U64 {
    if a + b <= U64_MAX then a + b else U64_MAX
  }

  /** `u64::saturating_sub`. */
  function SatSub(a: U64, b: U64): U64 {
    if b <= a then a - b else 0
  }

  datatype Option<+T> = None | Some(value: T)

  datatype Result<+T, +E> = Ok(value: T) | Err(error: E)

  /** The refusals of the modelled code. `Panic` stands for an `expect` on a refused value. */
  datatype A1Error =
    | EmptyChain
    | RootMismatch
    | BrokenLinkage(hop: nat)
    | InvalidSignature(hop: nat)
    | NotYetValid(hop: nat)
    | Expired(hop: nat)
    | TemporalViolation(hop: nat)
    | MaxDepthExceeded(hop: nat)
    | InvalidSubScopeProof
    | ScopeEscalation(hop: nat)
    | UnauthorizedLeaf
    | ScopeViolation
    | NonceReplay
    | Revoked
    | IntentNotFound
    | EmptyTree
    | WireFormatError
    | UnsupportedVersion
    | PolicyViolation
    | BatchItemFailed(index: nat)
    | PassportNarrowingViolation
    | Panic

  /** The elements of a sequence, as a set. */
  function Elems<T>(s: seq<T>): set<T> {
    set x | x in s
  }

  /** A `u64` of a Bloom filter, as the set of its one bits: `fetch_or(1 << k)` adds `k`, a masked load tests it. */
  type Word = set<nat>

  predicate BitSet(words: seq<Word>, at: (nat, nat)) {
    at.0 < |words| && at.1 in words[at.0]
  }

  /** Lexicographic order on byte strings: the order of Rust's `String` and `[u8; N]`. */
  predicate BytesLt(a: Bytes, b: Bytes) {
    b != [] && (a == [] || a[0] < b[0] || (a[0] == b[0] && BytesLt(a[1..], b[1..])))
  }

  lemma {:induction false} BytesLtTrichotomy(a: Bytes, b: Bytes)
    ensures BytesLt(a, b) || a == b || BytesLt(b, a)
    ensures !(BytesLt(a, b) && BytesLt(b, a))
    ensures !BytesLt(a, a)
  {
    if a != [] {
      BytesLtTrichotomy(a[1..], if b == [] then [] else b[1..]);
      if b != [] && a[0] == b[0] {
        assert a == [a[0]] + a[1..] && b == [b[0]] + b[1..];
      }
    }
  }

  lemma {:induction false} BytesLtTransitive(a: Bytes, b: Bytes, c: Bytes)
    requires BytesLt(a, b) && BytesLt(b, c)
    ensures BytesLt(a, c)
  {
    if a != [] && a[0] == b[0] && b[0] == c[0] {
      BytesLtTransitive(a[1..], b[1..], c[1..]);
    }
  }
}
