/** The hashed byte strings spelled out: tags, order, widths and byte order of every field. */
module Layouts {
  import opened Basics
  import opened Encoding
  import opened Hashing
  import opened Intents
  import opened Preimages
  import opened Provenance

  /** Eight bytes, the least significant first. */
  function Little(n: nat): Bytes {
    var a := n / 256;
    var b := a / 256;
    var c := b / 256;
    var d := c / 256;
    var e := d / 256;
    var f := e / 256;
    var g := f / 256;
    [n % 256, a % 256, b % 256, c % 256, d % 256, e % 256, f % 256, g % 256]
  }

  /** Eight bytes, the most significant first. */
  function Big(n: nat): Bytes {
    var b := Little(n);
    [b[7], b[6], b[5], b[4], b[3], b[2], b[1], b[0]]
  }

  lemma {:induction false} LeStep(n: nat, k: nat)
    requires k > 0
    ensures LeBytes(n, k) == [n % 256] + LeBytes(n / 256, k - 1)
    ensures BeBytes(n, k) == BeBytes(n / 256, k - 1) + [n % 256]
  {
  }

  lemma WordsAre(n: nat)
    ensures U64Le(n) == Little(n) && U64Be(n) == Big(n)
  {
    var a := n / 256;
    var b := a / 256;
    var c := b / 256;
    var d := c / 256;
    var e := d / 256;
    var f := e / 256;
    var g := f / 256;
    LeStep(n, 8);
    LeStep(a, 7);
    LeStep(b, 6);
    LeStep(c, 5);
    LeStep(d, 4);
    LeStep(e, 3);
    LeStep(f, 2);
    LeStep(g, 1);
  }

  lemma HalfWordIs(n: nat)
    ensures LeBytes(n, 4) == [n % 256, n / 256 % 256, n / 256 / 256 % 256, n / 256 / 256 / 256 % 256]
  {
    LeStep(n, 4);
    LeStep(n / 256, 3);
    LeStep(n / 256 / 256, 2);
    LeStep(n / 256 / 256 / 256, 1);
  }

  lemma OneKey(k: Text)
    ensures SortedKeys({k}) == [k]
  {
    var ks := SortedKeys({k});
    assert |ks| == 1 && ks[0] in ks;
  }

  lemma OneField(t: Text)
    ensures Fields([t]) == Field(t)
  {
    assert Fields([t]) == Field(t) + Fields([t][1..]) && [t][1..] == [];
  }

  lemma FieldIs(t: Text)
    ensures Field(t) == Little(|t|) + t
  {
    WordsAre(|t|);
  }

  lemma OneParameter(k: Text, v: Text)
    ensures Fields(ParamFields(map[k := v], [k])) == Field(k) + Field(v)
  {
    assert [k][..0] == [] && ParamFields(map[k := v], [k]) == [k, v];
    assert [k, v] == [k] + [v];
    FieldsAppend([k], v);
    OneField(k);
  }

  /** What an intent hashes: without parameters, and with one. */
  lemma {:induction false} IntentLayout(action: Text, k: Text, v: Text)
    ensures IntentPreimage(Intent(action, map[])) ==
            ([1] + Ascii("a1::dyolo::intent::v2.8.0")) + ((Little(|action|) + action) + Little(0))
    ensures IntentPreimage(Intent(action, map[k := v])) ==
            ([1] + Ascii("a1::dyolo::intent::v2.8.0")) +
            ((Little(|action|) + action) + (Little(1) + ((Little(|k|) + k) + (Little(|v|) + v))))
  {
    FieldIs(action);
    FieldIs(k);
    FieldIs(v);
    WordsAre(0);
    WordsAre(1);
    OneKey(k);
    OneParameter(k, v);
    var none: map<Text, Text>, one := map[], map[k := v];
    assert none.Keys == {} && one.Keys == {k} && |one| == 1;
    assert SortedKeys(none.Keys) == [] && Fields(ParamFields(none, [])) == [] && Little(0) + [] == Little(0);
  }

  lemma OneEntry(k: Text, v: ExtValue)
    ensures EntriesPreimage(map[k := v], [k]) == Field(k) + ValuePreimage(v)
  {
    assert [k][1..] == [] && EntriesPreimage(map[k := v], []) == [];
    assert ValuePreimage(v) + [] == ValuePreimage(v);
  }

  /** What extensions hash: none, and one value. */
  lemma {:induction false} ExtensionLayout(k: Text, v: ExtValue)
    ensures ExtPreimage(map[]) == ([1] + Ascii("a1::dyolo::cert::ext::v2.8.0")) + Little(0)
    ensures ExtPreimage(map[k := v]) ==
            ([1] + Ascii("a1::dyolo::cert::ext::v2.8.0")) + (Little(1) + ((Little(|k|) + k) + ValuePreimage(v)))
  {
    FieldIs(k);
    WordsAre(0);
    WordsAre(1);
    OneKey(k);
    OneEntry(k, v);
    var none: map<Text, ExtValue>, one := map[], map[k := v];
    assert none.Keys == {} && one.Keys == {k} && |one| == 1;
    assert SortedKeys(none.Keys) == [] && EntriesPreimage(none, []) == [] && Little(0) + [] == Little(0);
  }

  /** Values by type: a tag, then the text, the number, or the counted texts. */
  lemma {:induction false} ValueLayout(s: Text, n: U64)
    ensures ValuePreimage(Str(s)) == [0] + (Little(|s|) + s)
    ensures ValuePreimage(Num(n)) == [1] + Little(n)
    ensures ValuePreimage(Strings([s])) == [2] + (Little(1) + (Little(|s|) + s))
  {
    FieldIs(s);
    WordsAre(1);
    WordsAre(n);
    OneField(s);
  }

  lemma SiblingIs(node: SiblingNode<Digest>)
    ensures SiblingBytes([node]) == node.hash + [if node.isLeft then 1 else 0]
  {
    assert [node][1..] == [] && SiblingBytes([]) == [];
    assert [if node.isLeft then 1 else 0] + [] == [if node.isLeft then 1 else 0];
  }

  lemma OneSibling(node: SiblingNode<Digest>)
    ensures Proofs([MerkleProof([node])]) == U64Le(1) + (node.hash + [if node.isLeft then 1 else 0])
  {
    SiblingIs(node);
    assert [MerkleProof([node])][1..] == [] && Proofs([]) == [];
    assert SiblingBytes([node]) + [] == SiblingBytes([node]);
  }

  lemma OneDigest(d: Digest)
    ensures Digests([d]) == d
  {
    assert [d][1..] == [] && Digests([]) == [];
  }

  lemma {:induction false} PassThroughLayout()
    ensures SubScopePreimage(SubScopeProof([], [])) ==
            ([1] + Ascii("a1::dyolo::subscope::v2.8.0")) + (Little(0) + Little(0))
  {
    WordsAre(0);
    assert Little(0) + Proofs([]) == Little(0) && [] + Little(0) == Little(0);
  }

  /** What a sub-scope proof hashes: here one intent with a proof of one sibling. */
  lemma {:induction false} SubScopeLayout(d: Digest, sibling: Digest, isLeft: bool)
    ensures SubScopePreimage(SubScopeProof([d], [MerkleProof([SiblingNode(sibling, isLeft)])])) ==
            ([1] + Ascii("a1::dyolo::subscope::v2.8.0")) +
            (Little(1) + (d + (Little(1) + (Little(1) + (sibling + [if isLeft then 1 else 0])))))
  {
    WordsAre(1);
    OneDigest(d);
    OneSibling(SiblingNode(sibling, isLeft));
  }

  lemma ReceiptSlices(
      b: Bytes, tag: Bytes, depth: Bytes, root: Bytes, intent: Bytes, at: Bytes, fp: Bytes, len: Bytes, ns: Bytes)
    requires b == tag + (depth + (root + (intent + (at + (fp + (len + ns))))))
    requires |tag| == 16 && |depth| == |at| == |len| == 8 && |root| == |intent| == |fp| == 32
    ensures |b| == 136 + |ns| && b[..16] == tag && b[16..24] == depth && b[24..56] == root && b[56..88] == intent
    ensures b[88..96] == at && b[96..128] == fp && b[128..136] == len && b[136..] == ns
  {
  }

  /** Where the fields of a canonical receipt are. */
  lemma {:induction false} ReceiptLayout(r: VerificationReceipt<Digest, Digest>)
    ensures var b := CanonicalBytes(r);
            |b| == 136 + |NamespaceText(r.namespace)| && b[..16] == Ascii("a1_dyolo_v2.8.0:") &&
            b[16..24] == Big(r.chainDepth) && b[24..56] == r.verifiedScopeRoot && b[56..88] == r.intent &&
            b[88..96] == Big(r.verifiedAt) && b[96..128] == r.chainFingerprint &&
            b[128..136] == Big(|NamespaceText(r.namespace)|) && b[136..] == NamespaceText(r.namespace)
  {
    var ns := NamespaceText(r.namespace);
    WordsAre(r.chainDepth);
    WordsAre(r.verifiedAt);
    WordsAre(|ns|);
    assert Big(0) + [] == Big(0);
    ReceiptSlices(CanonicalBytes(r), Ascii("a1_dyolo_v2.8.0:"), Big(r.chainDepth), r.verifiedScopeRoot, r.intent,
                  Big(r.verifiedAt), r.chainFingerprint, Big(|ns|), ns);
  }

  /** Where the fields of a hashed step are. */
  lemma {:induction false} StepLayout(s: ReasoningStep)
    ensures var b := StepPreimage(s);
            |b| == 78 && b[0] == 1 && b[5] == AsU8(s.kind) &&
            b[1] == s.index % 256 && b[2] == s.index / 256 % 256 && b[3] == s.index / 256 / 256 % 256 &&
            b[4] == s.index / 256 / 256 / 256 % 256 &&
            b[6..38] == s.contentHash && b[38..46] == Big(s.timestamp) && b[46..] == s.metadataHash
  {
    HalfWordIs(s.index);
    WordsAre(s.timestamp);
    var tail := [AsU8(s.kind)] + (s.contentHash + (Big(s.timestamp) + s.metadataHash));
    assert StepPreimage(s) == [1] + (LeBytes(s.index, 4) + tail);
  }
}
