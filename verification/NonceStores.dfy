/**
 The nonce store of `src/registry.rs`: a Bloom filter in front of a map whose entries expire,
 proved against the map alone, and the map proved against a log that forgets nothing.
 */
module NonceStores {
  import opened Basics

  const BLOOM_WORDS: nat := 1024

  // ---------------------------------------------------------------- the map alone

  type Deadlines = map<Nonce, U64>

  predicate Live(store: Deadlines, nonce: Nonce, now: U64) {
    nonce in store && store[nonce] >= now
  }

  predicate AnyLive(store: Deadlines, nonces: seq<Nonce>, now: U64) {
    exists n :: n in nonces && Live(store, n, now)
  }

  /** The deadline given to a nonce consumed at `now`. */
  function Deadline(ttl: Option<U64>, now: U64): U64 {
    match ttl
    case Some(secs) => SatAdd(now, secs)
    case None => U64_MAX
  }

  /** Expired entries are dropped only by a store that has a time to live. */
  function Retained(store: Deadlines, ttl: Option<U64>, now: U64): Deadlines {
    if ttl.Some? then map n | n in store && store[n] >= now :: store[n] else store
  }

  function Marked(store: Deadlines, nonces: seq<Nonce>, deadline: U64): Deadlines {
    store + map n | n in nonces :: deadline
  }

  function Consumed(store: Deadlines, ttl: Option<U64>, nonces: seq<Nonce>, now: U64): Deadlines {
    Marked(Retained(store, ttl, now), nonces, Deadline(ttl, now))
  }

  // ---------------------------------------------------------------- the store

  lemma MarkedStep(store: Deadlines, nonces: seq<Nonce>, deadline: U64, i: nat)
    requires i < |nonces|
    ensures Marked(store, nonces[..0], deadline) == store
    ensures Marked(store, nonces[..i + 1], deadline) == Marked(store, nonces[..i], deadline)[nonces[i] := deadline]
    ensures i + 1 == |nonces| ==> nonces[..i + 1] == nonces
  {
    assert forall n :: n in nonces[..i + 1] <==> n in nonces[..i] || n == nonces[i];
  }

  ghost predicate ValidIndices(indices: Nonce -> (nat, nat)) {
    forall n: Nonce :: indices(n).0 < BLOOM_WORDS && indices(n).1 < 64
  }

  class MemoryNonceStore {
    /** Word and bit of a nonce; what the proofs need is only that there is one. */
    const indices: Nonce -> (nat, nat)
    const bloom: array<Word>
    var store: Deadlines
    var ttlSecs: Option<U64>

    ghost predicate Valid()
      reads this, bloom
    {
      bloom.Length == BLOOM_WORDS && ValidIndices(indices) &&
      forall n :: n in store ==> BitSet(bloom[..], indices(n))
    }

    constructor (indices: Nonce -> (nat, nat))
      requires ValidIndices(indices)
      ensures Valid() && fresh(bloom) && store == map[] && ttlSecs == None
    {
      this.indices := indices;
      bloom := new Word[BLOOM_WORDS](_ => {});
      store := map[];
      ttlSecs := None;
    }

    method WithTtlSecs(secs: U64)
      requires Valid()
      modifies this`ttlSecs
      ensures Valid() && ttlSecs == Some(secs)
    {
      ttlSecs := Some(secs);
    }

    /** The answer behind the filter is the map's own. */
    method Blocks(nonce: Nonce, now: U64) returns (blocked: bool)
      requires Valid()
      ensures blocked <==> Live(store, nonce, now)
    {
      var (word, bit) := indices(nonce);
      blocked := bit in bloom[word] && nonce in store && store[nonce] >= now;
    }

    method Mark(nonce: Nonce, deadline: U64)
      requires Valid()
      modifies this`store, bloom
      ensures Valid() && store == old(store)[nonce := deadline]
    {
      var (word, bit) := indices(nonce);
      store := store[nonce := deadline];
      bloom[word] := bloom[word] + {bit};
    }

    /** `retain`: drops expired entries when there is a time to live. */
    method Evict(now: U64)
      requires Valid()
      modifies this`store
      ensures Valid() && store == Retained(old(store), ttlSecs, now)
    {
      if ttlSecs.Some? {
        store := map n | n in store && store[n] >= now :: store[n];
      }
    }

    method TryConsume(nonce: Nonce, now: U64) returns (ok: bool)
      requires Valid()
      modifies this`store, bloom
      ensures Valid()
      ensures ok <==> !Live(old(store), nonce, now)
      ensures store == if ok then Consumed(old(store), ttlSecs, [nonce], now) else old(store)
    {
      var blocked := Blocks(nonce, now);
      if blocked {
        return false;
      }
      Evict(now);
      MarkedStep(store, [nonce], Deadline(ttlSecs, now), 0);
      Mark(nonce, Deadline(ttlSecs, now));
      ok := true;
    }

    method TryConsumeBatch(nonces: seq<Nonce>, now: U64) returns (ok: bool)
      requires Valid()
      modifies this`store, bloom
      ensures Valid()
      ensures ok <==> !AnyLive(old(store), nonces, now)
      ensures store == if ok then Consumed(old(store), ttlSecs, nonces, now) else old(store)
    {
      for i := 0 to |nonces|
        invariant Valid() && store == old(store)
        invariant forall j :: 0 <= j < i ==> !Live(store, nonces[j], now)
      {
        var blocked := Blocks(nonces[i], now);
        if blocked {
          return false;
        }
      }
      Evict(now);
      MarkAll(nonces, Deadline(ttlSecs, now));
      ok := true;
    }

    method MarkAll(nonces: seq<Nonce>, deadline: U64)
      requires Valid()
      modifies this`store, bloom
      ensures Valid() && store == Marked(old(store), nonces, deadline)
    {
      for i := 0 to |nonces|
        invariant Valid() && store == Marked(old(store), nonces[..i], deadline)
      {
        MarkedStep(old(store), nonces, deadline, i);
        Mark(nonces[i], deadline);
      }
      assert nonces[..|nonces|] == nonces;
    }

    method IsConsumed(nonce: Nonce, now: U64) returns (consumed: bool)
      requires Valid()
      ensures consumed <==> Live(store, nonce, now)
    {
      consumed := Blocks(nonce, now);
    }

    method MarkConsumed(nonce: Nonce, now: U64)
      requires Valid()
      modifies this`store, bloom
      ensures Valid()
      ensures store == if Live(old(store), nonce, now) then old(store) else Consumed(old(store), ttlSecs, [nonce], now)
    {
      var _ := TryConsume(nonce, now);
    }
  }

  /** An accepted batch leaves every one of its nonces consumed. */
  lemma ConsumedIsLive(store: Deadlines, ttl: Option<U64>, nonces: seq<Nonce>, n: Nonce, now: U64)
    requires n in nonces
    ensures Live(Consumed(store, ttl, nonces, now), n, now)
    ensures Consumed(store, ttl, nonces, now)[n] == Deadline(ttl, now)
  {
  }

  // ---------------------------------------------------------------- against a log that forgets nothing

  datatype Op = Consume(nonces: seq<Nonce>, at: U64) | Query(nonce: Nonce, at: U64)

  predicate Answer(store: Deadlines, op: Op) {
    match op
    case Consume(nonces, now) => !AnyLive(store, nonces, now)
    case Query(nonce, now) => Live(store, nonce, now)
  }

  function StoreStep(store: Deadlines, ttl: Option<U64>, op: Op): Deadlines {
    if op.Consume? && Answer(store, op) then Consumed(store, ttl, op.nonces, op.at) else store
  }

  function LogStep(log: Deadlines, ttl: Option<U64>, op: Op): Deadlines {
    if op.Consume? && Answer(log, op) then Marked(log, op.nonces, Deadline(ttl, op.at)) else log
  }

  function StoreAfter(ttl: Option<U64>, ops: seq<Op>): Deadlines {
    if ops == [] then map[] else StoreStep(StoreAfter(ttl, ops[..|ops| - 1]), ttl, ops[|ops| - 1])
  }

  function LogAfter(ttl: Option<U64>, ops: seq<Op>): Deadlines {
    if ops == [] then map[] else LogStep(LogAfter(ttl, ops[..|ops| - 1]), ttl, ops[|ops| - 1])
  }

  /** The operations are made at these times, one each. */
  ghost predicate MadeAt(ops: seq<Op>, times: seq<U64>) {
    |ops| == |times| && forall i :: 0 <= i < |ops| ==> ops[i].at == times[i]
  }

  /** Every answer of the store is the log's. */
  ghost predicate AnswersAlike(ttl: Option<U64>, ops: seq<Op>) {
    forall k :: 0 <= k < |ops| ==> Answer(StoreAfter(ttl, ops[..k]), ops[k]) == Answer(LogAfter(ttl, ops[..k]), ops[k])
  }

  /** What is consumed at reading `i` has expired at reading `j`, and has not at the later reading `k`. */
  predicate RunsBack(ttl: Option<U64>, times: seq<U64>, i: nat, j: nat, k: nat) {
    i < j < k < |times| && times[k] <= Deadline(ttl, times[i]) < times[j]
  }

  // ---------------------------------------------------------------- what every step keeps

  /** Some reading gave this deadline. */
  predicate Given(ttl: Option<U64>, times: seq<U64>, p: nat, deadline: U64) {
    exists i :: 0 <= i < p <= |times| && Deadline(ttl, times[i]) == deadline
  }

  /** Some reading gave this deadline, and a later one had passed it. */
  predicate Passed(ttl: Option<U64>, times: seq<U64>, p: nat, deadline: U64) {
    exists i, j :: 0 <= i < j < p <= |times| && Deadline(ttl, times[i]) == deadline < times[j]
  }

  /** After `p` readings the store is the log less entries whose deadline one of them had passed. */
  ghost predicate Agrees(ttl: Option<U64>, times: seq<U64>, p: nat, store: Deadlines, log: Deadlines) {
    (forall n :: n in store ==> n in log && store[n] == log[n]) &&
    (forall n :: n in log ==> Given(ttl, times, p, log[n])) &&
    forall n :: n in log && n !in store ==> Passed(ttl, times, p, log[n])
  }

  lemma AgreeingAnswers(ttl: Option<U64>, times: seq<U64>, store: Deadlines, log: Deadlines, p: nat, op: Op)
    requires p < |times| && op.at == times[p] && Agrees(ttl, times, p, store, log)
    requires forall i: nat, j: nat :: !RunsBack(ttl, times, i, j, p)
    ensures Answer(store, op) == Answer(log, op)
  {
    forall n ensures Live(store, n, op.at) <==> Live(log, n, op.at) {
      if n in log && n !in store {
        var i, j :| 0 <= i < j < p && Deadline(ttl, times[i]) == log[n] < times[j];
        assert !RunsBack(ttl, times, i, j, p);
      }
    }
  }

  lemma OneReadingMore(ttl: Option<U64>, times: seq<U64>, p: nat, deadline: U64)
    requires p < |times|
    ensures Given(ttl, times, p, deadline) ==> Given(ttl, times, p + 1, deadline)
    ensures Passed(ttl, times, p, deadline) ==> Passed(ttl, times, p + 1, deadline)
    ensures Given(ttl, times, p, deadline) && deadline < times[p] ==> Passed(ttl, times, p + 1, deadline)
    ensures Given(ttl, times, p + 1, Deadline(ttl, times[p]))
  {
  }

  lemma AgreementIsKept(ttl: Option<U64>, times: seq<U64>, store: Deadlines, log: Deadlines, p: nat, op: Op)
    requires p < |times| && op.at == times[p] && Agrees(ttl, times, p, store, log)
    requires Answer(store, op) == Answer(log, op)
    ensures Agrees(ttl, times, p + 1, StoreStep(store, ttl, op), LogStep(log, ttl, op))
  {
    var store', log' := StoreStep(store, ttl, op), LogStep(log, ttl, op);
    forall n | n in log'
      ensures Given(ttl, times, p + 1, log'[n]) && (n !in store' ==> Passed(ttl, times, p + 1, log'[n]))
    {
      OneReadingMore(ttl, times, p, log'[n]);
    }
  }

  lemma {:induction false} RunsAgree(ttl: Option<U64>, times: seq<U64>, ops: seq<Op>, p: nat)
    requires MadeAt(ops, times) && p <= |ops|
    requires forall i: nat, j: nat, k: nat :: !RunsBack(ttl, times, i, j, k)
    ensures Agrees(ttl, times, p, StoreAfter(ttl, ops[..p]), LogAfter(ttl, ops[..p]))
  {
    if p > 0 {
      var before, op := ops[..p - 1], ops[p - 1];
      assert ops[..p][..p - 1] == before && ops[..p][p - 1] == op;
      RunsAgree(ttl, times, ops, p - 1);
      AgreeingAnswers(ttl, times, StoreAfter(ttl, before), LogAfter(ttl, before), p - 1, op);
      AgreementIsKept(ttl, times, StoreAfter(ttl, before), LogAfter(ttl, before), p - 1, op);
    }
  }

  // ---------------------------------------------------------------- a clock that runs back

  /** Consumes `n` at readings `i` and `k` and `m` at reading `j`, and asks about `n` at the others. */
  function ForgettingOps(times: seq<U64>, i: nat, j: nat, k: nat, n: Nonce, m: Nonce): seq<Op> {
    seq(|times|, p requires 0 <= p < |times| =>
      if p == i || p == k then Consume([n], times[p])
      else if p == j then Consume([m], times[p])
      else Query(n, times[p]))
  }

  /** What the store and the log hold along the way. */
  lemma {:induction false} ForgettingStores(
      ttl: Option<U64>, times: seq<U64>, i: nat, j: nat, k: nat, n: Nonce, m: Nonce, p: nat)
    requires RunsBack(ttl, times, i, j, k) && n != m && p <= k
    ensures var ops := ForgettingOps(times, i, j, k, n, m)[..p];
            var store, log, deadline := StoreAfter(ttl, ops), LogAfter(ttl, ops), Deadline(ttl, times[i]);
            if p <= i then store == log == map[]
            else if p <= j then store == log == map[n := deadline]
            else n !in store && n in log && log[n] == deadline
  {
    var all := ForgettingOps(times, i, j, k, n, m);
    if p > 0 {
      assert all[..p][..p - 1] == all[..p - 1];
      ForgettingStores(ttl, times, i, j, k, n, m, p - 1);
      if p - 1 == i { assert Consumed(map[], ttl, [n], times[i]) == Marked(map[], [n], Deadline(ttl, times[i])); }
    }
  }

  /** Where the clock runs back behind an expired deadline, a nonce is accepted that the log still refuses. */
  lemma {:induction false} ClockRunningBackForgets(
      ttl: Option<U64>, times: seq<U64>, i: nat, j: nat, k: nat, n: Nonce, m: Nonce)
    requires RunsBack(ttl, times, i, j, k) && n != m
    ensures var ops := ForgettingOps(times, i, j, k, n, m);
            MadeAt(ops, times) && ops[k] == Consume([n], times[k]) &&
            Answer(StoreAfter(ttl, ops[..k]), ops[k]) && !Answer(LogAfter(ttl, ops[..k]), ops[k])
  {
    ForgettingStores(ttl, times, i, j, k, n, m, k);
    assert n in [n];
  }

  /**
   The evicting store answers as the log that forgets nothing does, whatever is asked at these
   times, exactly when no reading runs back behind a deadline that an earlier one had passed.
   */
  lemma {:induction false} RefinesLogExactly(ttl: Option<U64>, times: seq<U64>)
    ensures (forall ops :: MadeAt(ops, times) ==> AnswersAlike(ttl, ops)) <==>
            forall i: nat, j: nat, k: nat :: !RunsBack(ttl, times, i, j, k)
  {
    if i: nat, j: nat, k: nat :| RunsBack(ttl, times, i, j, k) {
      var n, m: Nonce := seq(16, _ => 0), seq(16, _ => 1);
      assert n[0] != m[0];
      ClockRunningBackForgets(ttl, times, i, j, k, n, m);
      assert !AnswersAlike(ttl, ForgettingOps(times, i, j, k, n, m));
    } else {
      forall ops: seq<Op>, k: nat | MadeAt(ops, times) && k < |ops|
        ensures Answer(StoreAfter(ttl, ops[..k]), ops[k]) == Answer(LogAfter(ttl, ops[..k]), ops[k])
      {
        RunsAgree(ttl, times, ops, k);
        AgreeingAnswers(ttl, times, StoreAfter(ttl, ops[..k]), LogAfter(ttl, ops[..k]), k, ops[k]);
      }
    }
  }

  ghost predicate ClockNeverRunsBack(ops: seq<Op>) {
    forall i, j :: 0 <= i < j < |ops| ==> ops[i].at <= ops[j].at
  }

  /** After any history, the next answer of the evicting store is the answer of the full log. */
  lemma {:induction false} StoreRefinesLog(ttl: Option<U64>, ops: seq<Op>, next: Op)
    requires ClockNeverRunsBack(ops + [next])
    ensures Answer(StoreAfter(ttl, ops), next) == Answer(LogAfter(ttl, ops), next)
  {
    var all := ops + [next];
    var times := seq(|all|, i requires 0 <= i < |all| => all[i].at);
    assert all[..|ops|] == ops && all[|ops|] == next;
    RefinesLogExactly(ttl, times);
    assert MadeAt(all, times);
  }
}
