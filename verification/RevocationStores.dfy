/** The revocation store of `src/registry.rs`: a Bloom filter in front of sharded sets. */
module RevocationStores {
  import opened Basics
  import opened Certs

  const SHARDS: nat := 64

  /** Where a fingerprint's three filter bits and its shard are. */
  datatype Layout = Layout(bits: Fingerprint -> seq<(nat, nat)>, shard: Fingerprint -> nat)

  ghost predicate ValidLayout(l: Layout) {
    (forall fp :: |l.bits(fp)| == 3 && l.shard(fp) < SHARDS) &&
    forall fp, k :: 0 <= k < 3 ==> l.bits(fp)[k].0 < SHARDS
  }

  /** All three bits of a fingerprint are set. */
  ghost predicate Filtered(words: seq<Word>, l: Layout, fp: Fingerprint) {
    forall k :: 0 <= k < |l.bits(fp)| ==> BitSet(words, l.bits(fp)[k])
  }

  class MemoryRevocationStore {
    const layout: Layout
    const bloom: array<Word>
    const shards: array<set<Fingerprint>>
    /** Everything revoked so far. */
    ghost var revoked: set<Fingerprint>

    ghost predicate Valid()
      reads this, bloom, shards
    {
      ValidLayout(layout) && bloom.Length == SHARDS && shards.Length == SHARDS && bloom as object != shards as object &&
      (forall fp :: fp in revoked <==> fp in shards[layout.shard(fp)]) &&
      forall fp :: fp in revoked ==> Filtered(bloom[..], layout, fp)
    }

    constructor (layout: Layout)
      requires ValidLayout(layout)
      ensures Valid() && revoked == {} && fresh(bloom) && fresh(shards)
    {
      this.layout := layout;
      bloom := new Word[SHARDS](_ => {});
      shards := new set<Fingerprint>[SHARDS](_ => {});
      revoked := {};
    }

    method IsRevoked(fp: Fingerprint) returns (answer: bool)
      requires Valid()
      ensures answer <==> fp in revoked
    {
      var bits := layout.bits(fp);
      for k := 0 to |bits| {
        if bits[k].1 !in bloom[bits[k].0] {
          return false;
        }
      }
      answer := fp in shards[layout.shard(fp)];
    }

    method SetBits(fp: Fingerprint)
      requires Valid()
      modifies bloom
      ensures Valid() && Filtered(bloom[..], layout, fp)
      ensures forall at :: BitSet(old(bloom[..]), at) ==> BitSet(bloom[..], at)
    {
      var bits := layout.bits(fp);
      for k := 0 to |bits|
        invariant forall at :: BitSet(old(bloom[..]), at) ==> BitSet(bloom[..], at)
        invariant forall j :: 0 <= j < k ==> BitSet(bloom[..], bits[j])
      {
        bloom[bits[k].0] := bloom[bits[k].0] + {bits[k].1};
      }
    }

    method InsertShard(fp: Fingerprint)
      requires Valid() && Filtered(bloom[..], layout, fp)
      modifies shards, this`revoked
      ensures Valid() && revoked == old(revoked) + {fp}
    {
      var shard := layout.shard(fp);
      shards[shard] := shards[shard] + {fp};
      revoked := revoked + {fp};
    }

    method Revoke(fp: Fingerprint)
      requires Valid()
      modifies bloom, shards, this`revoked
      ensures Valid() && revoked == old(revoked) + {fp}
    {
      SetBits(fp);
      InsertShard(fp);
    }

    method RevokeBatch(fps: seq<Fingerprint>)
      requires Valid()
      modifies bloom, shards, this`revoked
      ensures Valid() && revoked == old(revoked) + Elems(fps)
    {
      for i := 0 to |fps|
        invariant Valid() && revoked == old(revoked)
        invariant forall j :: 0 <= j < i ==> Filtered(bloom[..], layout, fps[j])
      {
        SetBits(fps[i]);
      }
      for i := 0 to |fps|
        invariant Valid() && revoked == old(revoked) + Elems(fps[..i])
        invariant forall j :: 0 <= j < |fps| ==> Filtered(bloom[..], layout, fps[j])
      {
        InsertShard(fps[i]);
        assert Elems(fps[..i + 1]) == Elems(fps[..i]) + {fps[i]};
      }
      assert fps[..|fps|] == fps;
    }
  }
}
