/**
 The byte strings that the code feeds to its hashers, and that each of them determines the
 value it was made from.
 */
module Preimages {
  import opened Basics
  import opened Encoding
  import opened Hashing
  import opened Intents

  const CERT_VERSION: Byte := 1

  lemma Cancel(p: Bytes, x: Bytes, y: Bytes)
    requires p + x == p + y
    ensures x == y
  {
    SplitAt(p, x, p, y);
  }

  // ---------------------------------------------------------------- intents

  const MAX_ACTION_LEN: nat := 256

  const INTENT_TAG: Bytes := [CERT_VERSION] + Ascii("a1::dyolo::intent::v2.8.0")

  datatype Intent = Intent(action: Text, params: map<Text, Text>)

  /** `Intent::new`. */
  function NewIntent(action: Text): Result<Intent, A1Error> {
    if action == [] || |action| > MAX_ACTION_LEN then Err(WireFormatError) else Ok(Intent(action, map[]))
  }

  /** Keys and values alternate, keys in iteration order. */
  function ParamFields(params: map<Text, Text>, keys: seq<Text>): (fs: seq<Text>)
    requires forall k :: k in keys ==> k in params
    ensures |fs| == 2 * |keys|
  {
    if keys == [] then []
    else ParamFields(params, keys[..|keys| - 1]) + [keys[|keys| - 1], params[keys[|keys| - 1]]]
  }

  function IntentBody(intent: Intent): Bytes {
    Field(intent.action) + (U64Le(|intent.params|) + Fields(ParamFields(intent.params, SortedKeys(intent.params.Keys))))
  }

  function IntentPreimage(intent: Intent): Bytes {
    INTENT_TAG + IntentBody(intent)
  }

  function IntentHash(intent: Intent): Hash {
    Leaf(IntentLeaf, IntentPreimage(intent))
  }

  lemma ParamFieldsStep(params: map<Text, Text>, keys: seq<Text>, i: nat)
    requires i < |keys| && forall k :: k in keys ==> k in params
    ensures Fields(ParamFields(params, keys[..i + 1])) ==
            Fields(ParamFields(params, keys[..i])) + Field(keys[i]) + Field(params[keys[i]])
  {
    var before, k := ParamFields(params, keys[..i]), keys[i];
    assert keys[..i + 1][..i] == keys[..i];
    assert before + [k, params[k]] == before + [k] + [params[k]];
    FieldsAppend(before, k);
    FieldsAppend(before + [k], params[k]);
  }

  /** `Intent::hash`, field by field into the hasher. */
  method HashIntent(intent: Intent) returns (h: Hash)
    ensures h == IntentHash(intent)
  {
    var keys := SortedKeys(intent.params.Keys);
    var body: Bytes := Field(intent.action) + U64Le(|intent.params|);
    ghost var head := body;
    for i := 0 to |keys|
      invariant body == head + Fields(ParamFields(intent.params, keys[..i]))
    {
      var k, v := Field(keys[i]), Field(intent.params[keys[i]]);
      ParamFieldsStep(intent.params, keys, i);
      Assoc(head, Fields(ParamFields(intent.params, keys[..i])), k);
      Assoc(head, Fields(ParamFields(intent.params, keys[..i])) + k, v);
      body := body + k + v;
    }
    assert keys[..|keys|] == keys;
    Assoc(Field(intent.action), U64Le(|intent.params|), Fields(ParamFields(intent.params, keys)));
    h := Leaf(IntentLeaf, INTENT_TAG + body);
  }

  lemma {:induction false} ParamFieldsInjective(m: map<Text, Text>, ks: seq<Text>, n: map<Text, Text>, ls: seq<Text>)
    requires forall k :: k in ks ==> k in m
    requires forall k :: k in ls ==> k in n
    requires |ks| == |ls| && ParamFields(m, ks) == ParamFields(n, ls)
    ensures ks == ls && forall k :: k in ks ==> m[k] == n[k]
    decreases |ks|
  {
    if ks != [] {
      var i := |ks| - 1;
      var a, b := ParamFields(m, ks), ParamFields(n, ls);
      assert a[2 * i] == ks[i] && a[2 * i + 1] == m[ks[i]] && b[2 * i] == ls[i] && b[2 * i + 1] == n[ls[i]];
      assert a[..2 * i] == ParamFields(m, ks[..i]) && b[..2 * i] == ParamFields(n, ls[..i]);
      ParamFieldsInjective(m, ks[..i], n, ls[..i]);
      assert ks == ks[..i] + [ks[i]] && ls == ls[..i] + [ls[i]];
    }
  }

  lemma SameEntries<V>(m: map<Text, V>, n: map<Text, V>)
    requires SortedKeys(m.Keys) == SortedKeys(n.Keys)
    requires forall k :: k in SortedKeys(m.Keys) ==> m[k] == n[k]
    ensures m == n
  {
    var ks := SortedKeys(m.Keys);
    forall k ensures k in m <==> k in n { assert k in ks <==> k in m.Keys; }
  }

  lemma {:induction false} IntentBodyInjective(a: Intent, b: Intent)
    requires |a.params| <= U64_MAX && |b.params| <= U64_MAX
    requires IntentBody(a) == IntentBody(b)
    ensures a == b
  {
    var ka, kb := SortedKeys(a.params.Keys), SortedKeys(b.params.Keys);
    var fa, fb := ParamFields(a.params, ka), ParamFields(b.params, kb);
    FieldSplit(a.action, U64Le(|a.params|) + Fields(fa), b.action, U64Le(|b.params|) + Fields(fb));
    U64LeSplit(|a.params|, Fields(fa), |b.params|, Fields(fb));
    FieldsInjective(fa, fb);
    ParamFieldsInjective(a.params, ka, b.params, kb);
    SameEntries(a.params, b.params);
  }

  /** Intents with equal hashes are equal, whatever the order their parameters were given in. */
  lemma {:induction false} IntentHashInjective(a: Intent, b: Intent)
    requires |a.params| <= U64_MAX && |b.params| <= U64_MAX
    requires IntentHash(a) == IntentHash(b)
    ensures a == b
  {
    Cancel(INTENT_TAG, IntentBody(a), IntentBody(b));
    IntentBodyInjective(a, b);
  }

  // ---------------------------------------------------------------- certificate extensions

  const MAX_EXTENSION_BYTES: nat := 16384

  const EXT_TAG: Bytes := [CERT_VERSION] + Ascii("a1::dyolo::cert::ext::v2.8.0")

  datatype ExtValue = Str(s: Text) | Num(n: U64) | Strings(v: seq<Text>)

  datatype CertExtensions = CertExtensions(fields: map<Text, ExtValue>, byteCount: nat)

  const NO_EXTENSIONS := CertExtensions(map[], 0)

  function TextBytes(v: seq<Text>): nat {
    if v == [] then 0 else |v[0]| + TextBytes(v[1..])
  }

  function ValueBytes(v: ExtValue): nat {
    match v
    case Str(s) => |s|
    case Num(_) => 8
    case Strings(ss) => TextBytes(ss)
  }

  /** `set_checked`; a replaced field keeps counting against the limit. */
  function SetChecked(ext: CertExtensions, key: Text, value: ExtValue): Result<CertExtensions, A1Error> {
    var added := |key| + ValueBytes(value);
    if key == [] || ext.byteCount + added > MAX_EXTENSION_BYTES then Err(WireFormatError)
    else Ok(CertExtensions(ext.fields[key := value], ext.byteCount + added))
  }

  /** The bytes of all keys and values present. */
  ghost function StoredBytes(fields: map<Text, ExtValue>): nat
    decreases |fields|
  {
    if fields == map[] then 0
    else
      var k :| k in fields;
      |k| + ValueBytes(fields[k]) + StoredBytes(fields - {k})
  }

  lemma {:induction false} StoredBytesWithout(fields: map<Text, ExtValue>, k: Text)
    requires k in fields
    ensures StoredBytes(fields) == |k| + ValueBytes(fields[k]) + StoredBytes(fields - {k})
    decreases |fields|
  {
    var j :| j in fields && StoredBytes(fields) == |j| + ValueBytes(fields[j]) + StoredBytes(fields - {j});
    if j != k {
      StoredBytesWithout(fields - {j}, k);
      StoredBytesWithout(fields - {k}, j);
      assert fields - {j} - {k} == fields - {k} - {j};
    }
  }

  /** Whatever sequence of `set_checked` calls was made, the stored bytes never exceed the limit. */
  ghost predicate WithinLimit(ext: CertExtensions) {
    StoredBytes(ext.fields) <= ext.byteCount <= MAX_EXTENSION_BYTES && [] !in ext.fields
  }

  /** A stored value reads back, the other fields stay, and the byte count bounds what is stored. */
  lemma {:induction false} SetCheckedKeepsLimit(ext: CertExtensions, key: Text, value: ExtValue)
    requires WithinLimit(ext)
    ensures SetChecked(ext, key, value).Ok? ==>
              var after := SetChecked(ext, key, value).value;
              WithinLimit(after) && key in after.fields && after.fields[key] == value &&
              forall k :: k != key ==>
                (k in after.fields <==> k in ext.fields) && (k in ext.fields ==> after.fields[k] == ext.fields[k])
    ensures SetChecked(ext, key, value).Ok? <==>
            key != [] && ext.byteCount + |key| + ValueBytes(value) <= 16384
  {
    if SetChecked(ext, key, value).Ok? {
      var fields := ext.fields[key := value];
      StoredBytesWithout(fields, key);
      assert fields - {key} == ext.fields - {key};
      if key in ext.fields {
        StoredBytesWithout(ext.fields, key);
      } else {
        assert ext.fields - {key} == ext.fields;
      }
    }
  }

  function ValueTag(v: ExtValue): Byte {
    match v
    case Str(_) => 0
    case Num(_) => 1
    case Strings(_) => 2
  }

  function ValuePayload(v: ExtValue): Bytes {
    match v
    case Str(s) => Field(s)
    case Num(n) => U64Le(n)
    case Strings(ss) => U64Le(|ss|) + Fields(ss)
  }

  function ValuePreimage(v: ExtValue): Bytes {
    [ValueTag(v)] + ValuePayload(v)
  }

  predicate ValueFits(v: ExtValue) {
    v.Strings? ==> |v.v| <= U64_MAX
  }

  /** Tag and payload of an encoded value, read off the front of any continuation. */
  lemma TaggedSplit(t: Byte, p: Bytes, x: Bytes, u: Byte, q: Bytes, y: Bytes)
    requires ([t] + p) + x == ([u] + q) + y
    ensures t == u && p + x == q + y
  {
    assert ([t] + p) + x == [t] + (p + x) && ([u] + q) + y == [u] + (q + y);
    SplitAt([t], p + x, [u], q + y);
    assert [t][0] == [u][0];
  }

  lemma StringsSplit(ss: seq<Text>, x: Bytes, tt: seq<Text>, y: Bytes)
    requires |ss| <= U64_MAX && |tt| <= U64_MAX
    requires (U64Le(|ss|) + Fields(ss)) + x == (U64Le(|tt|) + Fields(tt)) + y
    ensures ss == tt && x == y
  {
    Assoc(U64Le(|ss|), Fields(ss), x);
    Assoc(U64Le(|tt|), Fields(tt), y);
    U64LeSplit(|ss|, Fields(ss) + x, |tt|, Fields(tt) + y);
    FieldsSplit(ss, x, tt, y);
  }

  lemma PayloadSplit(v: ExtValue, x: Bytes, w: ExtValue, y: Bytes)
    requires ValueFits(v) && ValueFits(w) && ValueTag(v) == ValueTag(w) && ValuePayload(v) + x == ValuePayload(w) + y
    ensures v == w && x == y
  {
    match v
    case Str(s) =>
      FieldSplit(s, x, w.s, y);
    case Num(n) =>
      U64LeSplit(n, x, w.n, y);
    case Strings(ss) =>
      StringsSplit(ss, x, w.v, y);
  }

  lemma ValueSplit(v: ExtValue, x: Bytes, w: ExtValue, y: Bytes)
    requires ValueFits(v) && ValueFits(w) && ValuePreimage(v) + x == ValuePreimage(w) + y
    ensures v == w && x == y
  {
    TaggedSplit(ValueTag(v), ValuePayload(v), x, ValueTag(w), ValuePayload(w), y);
    PayloadSplit(v, x, w, y);
  }

  function EntriesPreimage(fields: map<Text, ExtValue>, keys: seq<Text>): Bytes
    requires forall k :: k in keys ==> k in fields
  {
    if keys == [] then []
    else Field(keys[0]) + (ValuePreimage(fields[keys[0]]) + EntriesPreimage(fields, keys[1..]))
  }

  function ExtBody(fields: map<Text, ExtValue>): Bytes {
    U64Le(|fields|) + EntriesPreimage(fields, SortedKeys(fields.Keys))
  }

  function ExtPreimage(fields: map<Text, ExtValue>): Bytes {
    EXT_TAG + ExtBody(fields)
  }

  method EncodeValue(value: ExtValue) returns (encoded: Bytes)
    ensures encoded == ValuePreimage(value)
  {
    match value
    case Str(s) =>
      encoded := [0] + Field(s);
    case Num(n) =>
      encoded := [1] + U64Le(n);
    case Strings(ss) =>
      encoded := U64Le(|ss|);
      for i := 0 to |ss|
        invariant encoded + Fields(ss[i..]) == ValuePayload(value)
      {
        assert ss[i..][1..] == ss[i + 1..];
        ghost var before, rest := encoded, Fields(ss[i + 1..]);
        encoded := encoded + Field(ss[i]);
        assert before + (Field(ss[i]) + rest) == encoded + rest;
      }
      assert ss[|ss|..] == [] && encoded + [] == encoded;
      encoded := [2] + encoded;
  }

  lemma EntriesStep(body: Bytes, fields: map<Text, ExtValue>, keys: seq<Text>)
    requires keys != [] && forall k :: k in keys ==> k in fields
    ensures body + EntriesPreimage(fields, keys) ==
            (body + Field(keys[0]) + ValuePreimage(fields[keys[0]])) + EntriesPreimage(fields, keys[1..])
  {
    var key, value, rest := Field(keys[0]), ValuePreimage(fields[keys[0]]), EntriesPreimage(fields, keys[1..]);
    Assoc(body, key, value + rest);
    Assoc(body + key, value, rest);
  }

  /** `CertExtensions::commitment`: the bytes hashed, with the explicit empty sentinel. */
  method CommitExtensions(ext: CertExtensions) returns (preimage: Bytes)
    ensures preimage == ExtPreimage(ext.fields)
  {
    var fields := ext.fields;
    var keys := SortedKeys(fields.Keys);
    if fields == map[] {
      assert U64Le(0) + [] == U64Le(0);
      return EXT_TAG + U64Le(0);
    }
    var body: Bytes := U64Le(|fields|);
    for i := 0 to |keys|
      invariant body + EntriesPreimage(fields, keys[i..]) == ExtBody(fields)
    {
      assert keys[i..][1..] == keys[i + 1..];
      EntriesStep(body, fields, keys[i..]);
      var encoded := EncodeValue(fields[keys[i]]);
      body := body + Field(keys[i]) + encoded;
    }
    assert keys[|keys|..] == [] && body + [] == body;
    preimage := EXT_TAG + body;
  }

  ghost predicate ExtFits(fields: map<Text, ExtValue>) {
    |fields| <= U64_MAX && forall k :: k in fields ==> ValueFits(fields[k])
  }

  lemma {:induction false} EntriesInjective(
      m: map<Text, ExtValue>, ks: seq<Text>, n: map<Text, ExtValue>, ls: seq<Text>)
    requires ExtFits(m) && ExtFits(n)
    requires forall k :: k in ks ==> k in m
    requires forall k :: k in ls ==> k in n
    requires |ks| == |ls| && EntriesPreimage(m, ks) == EntriesPreimage(n, ls)
    ensures ks == ls && forall k :: k in ks ==> m[k] == n[k]
  {
    if ks != [] {
      var k, l := ks[0], ls[0];
      FieldSplit(k, ValuePreimage(m[k]) + EntriesPreimage(m, ks[1..]),
                 l, ValuePreimage(n[l]) + EntriesPreimage(n, ls[1..]));
      ValueSplit(m[k], EntriesPreimage(m, ks[1..]), n[l], EntriesPreimage(n, ls[1..]));
      EntriesInjective(m, ks[1..], n, ls[1..]);
      assert ks == [k] + ks[1..] && ls == [l] + ls[1..];
    }
  }

  /** Extension maps with equal commitments are equal. */
  lemma {:induction false} ExtPreimageInjective(m: map<Text, ExtValue>, n: map<Text, ExtValue>)
    requires ExtFits(m) && ExtFits(n) && ExtPreimage(m) == ExtPreimage(n)
    ensures m == n
  {
    var ks, ls := SortedKeys(m.Keys), SortedKeys(n.Keys);
    Cancel(EXT_TAG, ExtBody(m), ExtBody(n));
    U64LeSplit(|m|, EntriesPreimage(m, ks), |n|, EntriesPreimage(n, ls));
    EntriesInjective(m, ks, n, ls);
    SameEntries(m, n);
  }

  // ---------------------------------------------------------------- sub-scope proofs

  const SUBSCOPE_TAG: Bytes := [CERT_VERSION] + Ascii("a1::dyolo::subscope::v2.8.0")

  function Digests(ds: seq<Digest>): Bytes {
    if ds == [] then [] else ds[0] + Digests(ds[1..])
  }

  function SiblingBytes(path: seq<SiblingNode<Digest>>): Bytes {
    if path == [] then [] else path[0].hash + ([if path[0].isLeft then 1 else 0] + SiblingBytes(path[1..]))
  }

  function Proofs(ps: seq<MerkleProof<Digest>>): Bytes {
    if ps == [] then [] else U64Le(|ps[0].siblings|) + (SiblingBytes(ps[0].siblings) + Proofs(ps[1..]))
  }

  function SubScopePreimage(p: SubScopeProof<Digest>): Bytes {
    SUBSCOPE_TAG + (U64Le(|p.subset|) + (Digests(p.subset) + (U64Le(|p.proofs|) + Proofs(p.proofs))))
  }

  lemma SiblingAppended(before: Bytes, path: seq<SiblingNode<Digest>>, i: nat)
    requires i < |path|
    ensures before + SiblingBytes(path[i..]) ==
            (before + path[i].hash + [if path[i].isLeft then 1 else 0]) + SiblingBytes(path[i + 1..])
  {
    assert path[i..][1..] == path[i + 1..];
    var flag: Byte, rest := if path[i].isLeft then 1 else 0, SiblingBytes(path[i + 1..]);
    assert before + (path[i].hash + ([flag] + rest)) == (before + path[i].hash + [flag]) + rest;
  }

  method EncodeSiblings(path: seq<SiblingNode<Digest>>) returns (encoded: Bytes)
    ensures encoded == SiblingBytes(path)
  {
    encoded := [];
    for i := 0 to |path|
      invariant encoded + SiblingBytes(path[i..]) == SiblingBytes(path)
    {
      SiblingAppended(encoded, path, i);
      encoded := encoded + path[i].hash + [if path[i].isLeft then 1 else 0];
    }
    assert path[|path|..] == [] && encoded + [] == encoded;
  }

  /** `SubScopeProof::commitment`: the bytes hashed. */
  method CommitSubScope(p: SubScopeProof<Digest>) returns (preimage: Bytes)
    ensures preimage == SubScopePreimage(p)
  {
    preimage := SUBSCOPE_TAG + U64Le(|p.subset|);
    ghost var tail := U64Le(|p.proofs|) + Proofs(p.proofs);
    Assoc(SUBSCOPE_TAG, U64Le(|p.subset|), Digests(p.subset) + tail);
    for i := 0 to |p.subset|
      invariant preimage + (Digests(p.subset[i..]) + tail) == SubScopePreimage(p)
    {
      assert p.subset[i..][1..] == p.subset[i + 1..];
      ghost var rest := Digests(p.subset[i + 1..]);
      Assoc(p.subset[i], rest, tail);
      Assoc(preimage, p.subset[i], rest + tail);
      preimage := preimage + p.subset[i];
    }
    assert p.subset[|p.subset|..] == [] && [] + tail == tail;
    Assoc(preimage, U64Le(|p.proofs|), Proofs(p.proofs));
    preimage := preimage + U64Le(|p.proofs|);
    for i := 0 to |p.proofs|
      invariant preimage + Proofs(p.proofs[i..]) == SubScopePreimage(p)
    {
      assert p.proofs[i..][1..] == p.proofs[i + 1..];
      var encoded := EncodeSiblings(p.proofs[i].siblings);
      var count := U64Le(|p.proofs[i].siblings|);
      ghost var rest := Proofs(p.proofs[i + 1..]);
      Assoc(preimage, count, encoded + rest);
      Assoc(preimage + count, encoded, rest);
      preimage := preimage + count + encoded;
    }
    assert p.proofs[|p.proofs|..] == [] && preimage + [] == preimage;
  }

  lemma {:induction false} DigestsSplit(ds: seq<Digest>, x: Bytes, es: seq<Digest>, y: Bytes)
    requires |ds| == |es| && Digests(ds) + x == Digests(es) + y
    ensures ds == es && x == y
  {
    if ds == [] {
      assert Digests(ds) + x == x && Digests(es) + y == y;
    } else {
      assert Digests(ds) + x == ds[0] + (Digests(ds[1..]) + x) && Digests(es) + y == es[0] + (Digests(es[1..]) + y);
      SplitAt(ds[0], Digests(ds[1..]) + x, es[0], Digests(es[1..]) + y);
      DigestsSplit(ds[1..], x, es[1..], y);
      assert ds == [ds[0]] + ds[1..] && es == [es[0]] + es[1..];
    }
  }

  lemma {:induction false} SiblingsSplit(p: seq<SiblingNode<Digest>>, x: Bytes, q: seq<SiblingNode<Digest>>, y: Bytes)
    requires |p| == |q| && SiblingBytes(p) + x == SiblingBytes(q) + y
    ensures p == q && x == y
  {
    if p == [] {
      assert SiblingBytes(p) + x == x && SiblingBytes(q) + y == y;
    } else {
      var a: Bytes, b: Bytes := [if p[0].isLeft then 1 else 0], [if q[0].isLeft then 1 else 0];
      assert SiblingBytes(p) + x == p[0].hash + (a + (SiblingBytes(p[1..]) + x));
      assert SiblingBytes(q) + y == q[0].hash + (b + (SiblingBytes(q[1..]) + y));
      SplitAt(p[0].hash, a + (SiblingBytes(p[1..]) + x), q[0].hash, b + (SiblingBytes(q[1..]) + y));
      SplitAt(a, SiblingBytes(p[1..]) + x, b, SiblingBytes(q[1..]) + y);
      assert a[0] == b[0];
      SiblingsSplit(p[1..], x, q[1..], y);
      assert p == [p[0]] + p[1..] && q == [q[0]] + q[1..];
    }
  }

  predicate ProofsFit(ps: seq<MerkleProof<Digest>>) {
    |ps| <= U64_MAX && forall i :: 0 <= i < |ps| ==> |ps[i].siblings| <= U64_MAX
  }

  lemma {:induction false} FirstProofSplit(p: MerkleProof<Digest>, x: Bytes, q: MerkleProof<Digest>, y: Bytes)
    requires |p.siblings| <= U64_MAX && |q.siblings| <= U64_MAX
    requires U64Le(|p.siblings|) + (SiblingBytes(p.siblings) + x) ==
             U64Le(|q.siblings|) + (SiblingBytes(q.siblings) + y)
    ensures p == q && x == y
  {
    U64LeSplit(|p.siblings|, SiblingBytes(p.siblings) + x, |q.siblings|, SiblingBytes(q.siblings) + y);
    SiblingsSplit(p.siblings, x, q.siblings, y);
  }

  lemma {:induction false} ProofsInjective(ps: seq<MerkleProof<Digest>>, qs: seq<MerkleProof<Digest>>)
    requires ProofsFit(ps) && ProofsFit(qs) && |ps| == |qs| && Proofs(ps) == Proofs(qs)
    ensures ps == qs
  {
    if ps != [] {
      FirstProofSplit(ps[0], Proofs(ps[1..]), qs[0], Proofs(qs[1..]));
      ProofsInjective(ps[1..], qs[1..]);
      assert ps == [ps[0]] + ps[1..] && qs == [qs[0]] + qs[1..];
    }
  }

  /** A commitment fixes the whole proof: subset, order, paths and directions. */
  lemma {:induction false} SubScopePreimageInjective(p: SubScopeProof<Digest>, q: SubScopeProof<Digest>)
    requires |p.subset| <= U64_MAX && |q.subset| <= U64_MAX && ProofsFit(p.proofs) && ProofsFit(q.proofs)
    requires SubScopePreimage(p) == SubScopePreimage(q)
    ensures p == q
  {
    var tp, tq := U64Le(|p.proofs|) + Proofs(p.proofs), U64Le(|q.proofs|) + Proofs(q.proofs);
    Cancel(SUBSCOPE_TAG, U64Le(|p.subset|) + (Digests(p.subset) + tp), U64Le(|q.subset|) + (Digests(q.subset) + tq));
    U64LeSplit(|p.subset|, Digests(p.subset) + tp, |q.subset|, Digests(q.subset) + tq);
    DigestsSplit(p.subset, tp, q.subset, tq);
    U64LeSplit(|p.proofs|, Proofs(p.proofs), |q.proofs|, Proofs(q.proofs));
    ProofsInjective(p.proofs, q.proofs);
  }

  // ---------------------------------------------------------------- verification receipts

  datatype VerificationReceipt<+H, +F> = VerificationReceipt(
    chainDepth: nat, verifiedScopeRoot: H, intent: H, verifiedAt: U64, chainFingerprint: F, namespace: Option<Text>)

  const RECEIPT_TAG: Bytes := Ascii("a1_dyolo_v2.8.0:")

  function CanonicalBytes(r: VerificationReceipt<Digest, Digest>): Bytes {
    RECEIPT_TAG + (U64Be(r.chainDepth) + (r.verifiedScopeRoot + (r.intent + (U64Be(r.verifiedAt) + (r.chainFingerprint +
    match r.namespace
    case Some(ns) => U64Be(|ns|) + ns
    case None => U64Be(0))))))
  }

  function NamespaceText(ns: Option<Text>): Text {
    match ns
    case Some(t) => t
    case None => []
  }

  /** Canonical receipts are equal exactly up to reading an absent namespace as an empty one. */
  lemma {:induction false} CanonicalBytesInjective(
      r: VerificationReceipt<Digest, Digest>, s: VerificationReceipt<Digest, Digest>)
    requires r.chainDepth <= U64_MAX && s.chainDepth <= U64_MAX
    ensures CanonicalBytes(r) == CanonicalBytes(s) <==>
            r.(namespace := None) == s.(namespace := None) && NamespaceText(r.namespace) == NamespaceText(s.namespace)
  {
    var nr, ns := NamespaceText(r.namespace), NamespaceText(s.namespace);
    var er, es := U64Be(|nr|) + nr, U64Be(|ns|) + ns;
    assert U64Be(0) + [] == U64Be(0);
    var r5, s5 := r.chainFingerprint + er, s.chainFingerprint + es;
    var r4, s4 := U64Be(r.verifiedAt) + r5, U64Be(s.verifiedAt) + s5;
    var r3, s3 := r.intent + r4, s.intent + s4;
    var r2, s2 := r.verifiedScopeRoot + r3, s.verifiedScopeRoot + s3;
    assert CanonicalBytes(r) == RECEIPT_TAG + (U64Be(r.chainDepth) + r2);
    assert CanonicalBytes(s) == RECEIPT_TAG + (U64Be(s.chainDepth) + s2);
    if CanonicalBytes(r) == CanonicalBytes(s) {
      Cancel(RECEIPT_TAG, U64Be(r.chainDepth) + r2, U64Be(s.chainDepth) + s2);
      U64BeSplit(r.chainDepth, r2, s.chainDepth, s2);
      SplitAt(r.verifiedScopeRoot, r3, s.verifiedScopeRoot, s3);
      SplitAt(r.intent, r4, s.intent, s4);
      U64BeSplit(r.verifiedAt, r5, s.verifiedAt, s5);
      SplitAt(r.chainFingerprint, er, s.chainFingerprint, es);
      U64BeSplit(|nr|, nr, |ns|, ns);
    }
  }
}
