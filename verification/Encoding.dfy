/** Fixed-width integers and length-prefixed fields, and why they can be read back. */
module Encoding {
  import opened Basics

  /** A Rust `String` or slice: its length fits a `usize`. */
  type Text = s: Bytes | |s| <= 0x7FFF_FFFF_FFFF_FFFF

  type Digest = s: Bytes | |s| == 32 witness seq(32, _ => 0)

  function Ascii(s: string): Bytes {
    seq(|s|, i requires 0 <= i < |s| => s[i] as int % 256)
  }

  function Pow256(k: nat): nat {
    if k == 0 then 1 else 256 * Pow256(k - 1)
  }

  /** `to_le_bytes` of a `k`-byte integer. */
  function LeBytes(n: nat, k: nat): (b: Bytes)
    ensures |b| == k
  {
    if k == 0 then [] else [n % 256] + LeBytes(n / 256, k - 1)
  }

  /** `to_be_bytes` of a `k`-byte integer. */
  function BeBytes(n: nat, k: nat): (b: Bytes)
    ensures |b| == k
  {
    if k == 0 then [] else BeBytes(n / 256, k - 1) + [n % 256]
  }

  lemma {:induction false} LeBytesInjective(a: nat, b: nat, k: nat)
    requires a < Pow256(k) && b < Pow256(k) && LeBytes(a, k) == LeBytes(b, k)
    ensures a == b
  {
    if k > 0 {
      var x, y := LeBytes(a, k), LeBytes(b, k);
      assert x[0] == y[0] && x[1..] == LeBytes(a / 256, k - 1) && y[1..] == LeBytes(b / 256, k - 1);
      LeBytesInjective(a / 256, b / 256, k - 1);
    }
  }

  lemma {:induction false} BeBytesInjective(a: nat, b: nat, k: nat)
    requires a < Pow256(k) && b < Pow256(k) && BeBytes(a, k) == BeBytes(b, k)
    ensures a == b
  {
    if k > 0 {
      var x, y := BeBytes(a, k), BeBytes(b, k);
      assert x[k - 1] == y[k - 1] && x[..k - 1] == BeBytes(a / 256, k - 1) && y[..k - 1] == BeBytes(b / 256, k - 1);
      BeBytesInjective(a / 256, b / 256, k - 1);
    }
  }

  lemma WordWidths()
    ensures Pow256(1) == 0x100 && Pow256(4) == 0x1_0000_0000 && Pow256(8) == U64_MAX + 1
  {
    assert Pow256(2) == 0x1_0000;
    assert Pow256(3) == 0x100_0000;
    assert Pow256(4) == 0x1_0000_0000;
    assert Pow256(5) == 0x100_0000_0000;
    assert Pow256(6) == 0x1_0000_0000_0000;
    assert Pow256(7) == 0x100_0000_0000_0000;
  }

  /** Bytes in a `u64`. */
  const WORD: nat := 8

  function U64Le(n: nat): Bytes { LeBytes(n, WORD) }

  function U64Be(n: nat): Bytes { BeBytes(n, WORD) }

  lemma Assoc(a: Bytes, b: Bytes, c: Bytes)
    ensures (a + b) + c == a + (b + c)
  {
  }

  /** Equal concatenations whose first parts have equal length split alike. */
  lemma SplitAt(a: Bytes, x: Bytes, b: Bytes, y: Bytes)
    requires a + x == b + y && |a| == |b|
    ensures a == b && x == y
  {
    assert (a + x)[..|a|] == a && (b + y)[..|b|] == b;
    assert (a + x)[|a|..] == x && (b + y)[|b|..] == y;
  }

  lemma U64LeSplit(m: nat, x: Bytes, n: nat, y: Bytes)
    requires m <= U64_MAX && n <= U64_MAX && U64Le(m) + x == U64Le(n) + y
    ensures m == n && x == y
  {
    SplitAt(U64Le(m), x, U64Le(n), y);
    WordWidths();
    LeBytesInjective(m, n, WORD);
  }

  lemma U64BeSplit(m: nat, x: Bytes, n: nat, y: Bytes)
    requires m <= U64_MAX && n <= U64_MAX && U64Be(m) + x == U64Be(n) + y
    ensures m == n && x == y
  {
    SplitAt(U64Be(m), x, U64Be(n), y);
    WordWidths();
    BeBytesInjective(m, n, WORD);
  }

  // ---------------------------------------------------------------- length-prefixed fields

  function Field(s: Text): Bytes {
    U64Le(|s|) + s
  }

  /** The field can be read off the front of any continuation. */
  lemma FieldSplit(s: Text, x: Bytes, t: Text, y: Bytes)
    requires Field(s) + x == Field(t) + y
    ensures s == t && x == y
  {
    assert Field(s) + x == U64Le(|s|) + (s + x) && Field(t) + y == U64Le(|t|) + (t + y);
    U64LeSplit(|s|, s + x, |t|, t + y);
    SplitAt(s, x, t, y);
  }

  function Fields(ss: seq<Text>): Bytes {
    if ss == [] then [] else Field(ss[0]) + Fields(ss[1..])
  }

  lemma {:induction false} FieldsSplit(ss: seq<Text>, x: Bytes, tt: seq<Text>, y: Bytes)
    requires |ss| == |tt| && Fields(ss) + x == Fields(tt) + y
    ensures ss == tt && x == y
  {
    if ss == [] {
      assert Fields(ss) + x == x && Fields(tt) + y == y;
    } else {
      assert Fields(ss) + x == Field(ss[0]) + (Fields(ss[1..]) + x);
      assert Fields(tt) + y == Field(tt[0]) + (Fields(tt[1..]) + y);
      FieldSplit(ss[0], Fields(ss[1..]) + x, tt[0], Fields(tt[1..]) + y);
      FieldsSplit(ss[1..], x, tt[1..], y);
      assert ss == [ss[0]] + ss[1..] && tt == [tt[0]] + tt[1..];
    }
  }

  lemma FieldsInjective(ss: seq<Text>, tt: seq<Text>)
    requires |ss| == |tt| && Fields(ss) == Fields(tt)
    ensures ss == tt
  {
    FieldsSplit(ss, [], tt, []);
  }

  lemma {:induction false} FieldsAppend(ss: seq<Text>, t: Text)
    ensures Fields(ss + [t]) == Fields(ss) + Field(t)
  {
    if ss == [] {
      assert (ss + [t])[1..] == [] && Fields([]) == [];
    } else {
      assert (ss + [t])[1..] == ss[1..] + [t];
      FieldsAppend(ss[1..], t);
      assert Field(ss[0]) + (Fields(ss[1..]) + Field(t)) == Fields(ss) + Field(t);
    }
  }

  // ---------------------------------------------------------------- BTreeMap iteration

  predicate IsLeast(k: Text, keys: set<Text>) {
    k in keys && forall j :: j in keys && j != k ==> BytesLt(k, j)
  }

  lemma {:induction false} LeastKeyExists(keys: set<Text>)
    requires keys != {}
    ensures exists k :: IsLeast(k, keys)
    decreases |keys|
  {
    var k :| k in keys;
    if keys == {k} {
      assert IsLeast(k, keys);
    } else {
      LeastKeyExists(keys - {k});
      var m: Text :| IsLeast(m, keys - {k});
      BytesLtTrichotomy(k, m);
      if BytesLt(k, m) {
        forall j | j in keys && j != k ensures BytesLt(k, j) {
          assert j in keys - {k};
          if j != m { BytesLtTransitive(k, m, j); }
        }
        assert IsLeast(k, keys);
      } else {
        assert IsLeast(m, keys);
      }
    }
  }

  lemma LeastKeyUnique(k: Text, m: Text, keys: set<Text>)
    requires IsLeast(k, keys) && IsLeast(m, keys)
    ensures k == m
  {
    BytesLtTrichotomy(k, m);
  }

  function LeastKey(keys: set<Text>): (k: Text)
    requires keys != {}
    ensures IsLeast(k, keys)
  {
    LeastKeyExists(keys);
    assert forall k, m :: IsLeast(k, keys) && IsLeast(m, keys) ==> k == m by {
      forall k, m | IsLeast(k, keys) && IsLeast(m, keys) ensures k == m { LeastKeyUnique(k, m, keys); }
    }
    var k :| k in keys && IsLeast(k, keys);
    k
  }

  /** The keys of a `BTreeMap<String, _>` in iteration order. */
  function SortedKeys(keys: set<Text>): (ks: seq<Text>)
    ensures |ks| == |keys|
    ensures forall k :: k in ks <==> k in keys
    ensures forall i, j :: 0 <= i < j < |ks| ==> BytesLt(ks[i], ks[j])
    decreases |keys|
  {
    if keys == {} then []
    else
      var k := LeastKey(keys);
      assert |keys - {k}| == |keys| - 1;
      [k] + SortedKeys(keys - {k})
  }
}
