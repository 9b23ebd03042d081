/**
 BLAKE3 as a free datatype, with the order in which hashes are sorted.

 A hash value is the term that was hashed, so two hashes are equal exactly when the same
 derivation was applied to the same input. The order is structural; every theorem that
 sorts by it is stated without mentioning it.
 */
module Hashing {
  import opened Basics

  /** The key-derivation contexts under which leaf values are hashed. */
  datatype Domain = IntentLeaf | StepLeaf

  /**
   `Leaf` is a domain-separated hash of a byte string, `Ns` a namespace-derived scope and
   `Node` the Merkle node over two children.
   */
  datatype Hash =
    | Leaf(domain: Domain, preimage: Bytes)
    | Ns(namespace: Bytes, scope: Hash)
    | Node(left: Hash, right: Hash)

  predicate Lt(a: Hash, b: Hash) {
    match a
    case Leaf(d, p) =>
      (match b
       case Leaf(d', p') => (d == IntentLeaf && d' == StepLeaf) || (d == d' && BytesLt(p, p'))
       case Ns(_, _) => true
       case Node(_, _) => true)
    case Ns(n, s) =>
      (match b
       case Leaf(_, _) => false
       case Ns(n', s') => BytesLt(n, n') || (n == n' && Lt(s, s'))
       case Node(_, _) => true)
    case Node(l, r) =>
      b.Node? && (Lt(l, b.left) || (l == b.left && Lt(r, b.right)))
  }

  lemma {:induction false} LtTrichotomy(a: Hash, b: Hash)
    ensures Lt(a, b) || a == b || Lt(b, a)
    ensures !(Lt(a, b) && Lt(b, a))
    ensures !Lt(a, a)
    decreases a, b
  {
    match a
    case Leaf(_, p) =>
      BytesLtTrichotomy(p, p);
      if b.Leaf? { BytesLtTrichotomy(p, b.preimage); }
    case Ns(n, s) =>
      BytesLtTrichotomy(n, n);
      LtTrichotomy(s, s);
      if b.Ns? {
        BytesLtTrichotomy(n, b.namespace);
        LtTrichotomy(s, b.scope);
      }
    case Node(l, r) =>
      LtTrichotomy(l, l);
      LtTrichotomy(r, r);
      if b.Node? {
        LtTrichotomy(l, b.left);
        LtTrichotomy(r, b.right);
      }
  }

  lemma {:induction false} LtTransitive(a: Hash, b: Hash, c: Hash)
    requires Lt(a, b) && Lt(b, c)
    ensures Lt(a, c)
  {
    match b
    case Leaf(_, p) =>
      if c.Leaf? && a.domain == b.domain == c.domain {
        BytesLtTransitive(a.preimage, p, c.preimage);
      }
    case Ns(n, s) =>
      if a.Ns? && c.Ns? {
        if BytesLt(a.namespace, n) && BytesLt(n, c.namespace) {
          BytesLtTransitive(a.namespace, n, c.namespace);
        } else if a.namespace == n == c.namespace {
          BytesLtTrichotomy(n, n);
          LtTransitive(a.scope, s, c.scope);
        }
      }
    case Node(l, r) =>
      if a.Node? {
        if Lt(a.left, l) && Lt(l, c.left) {
          LtTransitive(a.left, l, c.left);
        } else if a.left == l == c.left {
          LtTrichotomy(l, l);
          LtTransitive(a.right, r, c.right);
        }
      }
  }

  ghost predicate StrictlySorted(s: seq<Hash>) {
    forall i, j :: 0 <= i < j < |s| ==> Lt(s[i], s[j])
  }

  lemma ElemsCons(x: Hash, s: seq<Hash>)
    ensures Elems([x] + s) == {x} + Elems(s)
  {
    assert ([x] + s)[0] == x && ([x] + s)[1..] == s;
    forall y | y in s ensures y in [x] + s {
      var i :| 0 <= i < |s| && s[i] == y;
      assert ([x] + s)[i + 1] == y;
    }
  }

  function Insert(x: Hash, s: seq<Hash>): (r: seq<Hash>)
    requires StrictlySorted(s)
    ensures StrictlySorted(r)
    ensures Elems(r) == Elems(s) + {x}
  {
    if s == [] then [x]
    else if Lt(x, s[0]) then
      assert forall j :: 0 < j < |s| ==> Lt(x, s[j]) by {
        forall j | 0 < j < |s| ensures Lt(x, s[j]) { LtTransitive(x, s[0], s[j]); }
      }
      [x] + s
    else if x == s[0] then s
    else
      LtTrichotomy(x, s[0]);
      var t := Insert(x, s[1..]);
      assert Elems([s[0]] + t) == Elems(s) + {x} by {
        assert s == [s[0]] + s[1..];
        ElemsCons(s[0], t);
        ElemsCons(s[0], s[1..]);
      }
      assert forall y :: y in t ==> Lt(s[0], y) by {
        forall y | y in t ensures Lt(s[0], y) { assert y in Elems(t); }
      }
      [s[0]] + t
  }

  /** `sort_unstable` followed by `dedup`. */
  function SortDedup(s: seq<Hash>): (r: seq<Hash>)
    ensures StrictlySorted(r)
    ensures Elems(r) == Elems(s)
  {
    if s == [] then []
    else
      assert s == [s[0]] + s[1..];
      Insert(s[0], SortDedup(s[1..]))
  }

  /** A strictly sorted sequence is determined by its set of elements. */
  lemma {:induction false} StrictlySortedUnique(s: seq<Hash>, t: seq<Hash>)
    requires StrictlySorted(s) && StrictlySorted(t) && Elems(s) == Elems(t)
    ensures s == t
  {
    if t != [] { assert t[0] in Elems(t); }
    if s == [] {
    } else {
      assert s[0] in Elems(s);
      assert s[0] in Elems(t) && t[0] in Elems(s);
      LtTrichotomy(s[0], t[0]);
      assert s[0] == t[0];
      forall x | x in s[1..] ensures x in t[1..] { assert x in Elems(t); LtTrichotomy(s[0], s[0]); }
      forall x | x in t[1..] ensures x in s[1..] { assert x in Elems(s); LtTrichotomy(t[0], t[0]); }
      StrictlySortedUnique(s[1..], t[1..]);
      assert s == [s[0]] + s[1..] && t == [t[0]] + t[1..];
    }
  }

  lemma {:induction false} SortDedupDistinct(s: seq<Hash>)
    ensures forall i, j :: 0 <= i < j < |SortDedup(s)| ==> SortDedup(s)[i] != SortDedup(s)[j]
  {
    forall i, j | 0 <= i < j < |SortDedup(s)| ensures SortDedup(s)[i] != SortDedup(s)[j] {
      LtTrichotomy(SortDedup(s)[i], SortDedup(s)[i]);
    }
  }
}
