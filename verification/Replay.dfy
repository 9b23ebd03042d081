/**
 At-most-once authorization over whole runs, although consumed nonces are forgotten again.

 Events are ordered by the nonce store's lock. The chain's own clock reading precedes the
 store's by at most `lag`; only the store's readings are assumed not to run back, so the calls
 themselves may overlap.
 */
module Replay {
  import opened Basics
  import opened Encoding
  import opened Hashing
  import opened Intents
  import opened IntentProperties
  import opened Preimages
  import opened Certs
  import opened Chains
  import opened ChainProperties
  import opened NonceStores
  import opened Authorization

  /** One call of `authorize` (a single request) or `authorize_batch`, with the revocations it saw. */
  datatype Event = Event(
    chain: Chain, agent: Key, requests: seq<Request>, policyPasses: bool, revoked: set<Fingerprint>, now: U64,
    storeNow: U64)

  predicate Succeeds(e: Event, nonces: Deadlines) {
    e.policyPasses && e.requests != [] &&
    forall i :: 0 <= i < |e.requests| ==> Grants(e.chain, e.agent, e.requests[i], e.now, e.revoked, nonces, e.storeNow)
  }

  function StoreAfterEvents(ttl: Option<U64>, run: seq<Event>): Deadlines {
    if run == [] then map[]
    else
      var before, e := StoreAfterEvents(ttl, run[..|run| - 1]), run[|run| - 1];
      if Succeeds(e, before) then Consumed(before, ttl, Nonces(e.chain.certs), e.storeNow) else before
  }

  predicate SucceedsAt(ttl: Option<U64>, run: seq<Event>, i: nat)
    requires i < |run|
  {
    Succeeds(run[i], StoreAfterEvents(ttl, run[..i]))
  }

  ghost predicate Timed(run: seq<Event>, drift: U64, lag: U64) {
    (forall i :: 0 <= i < |run| ==> run[i].now <= run[i].storeNow <= run[i].now + lag && run[i].chain.drift <= drift) &&
    forall i, j :: 0 <= i < j < |run| ==> run[i].storeNow <= run[j].storeNow
  }

  // ---------------------------------------------------------------- a consumed nonce stays live

  lemma {:induction false} StaysLive(
      ttl: Option<U64>, run: seq<Event>, drift: U64, lag: U64, i: nat, n: Nonce, limit: U64)
    requires Timed(run, drift, lag) && i < |run| && SucceedsAt(ttl, run, i) && n in Nonces(run[i].chain.certs)
    requires Deadline(ttl, run[i].storeNow) >= limit
    requires forall k :: 0 <= k < |run| ==> run[k].storeNow <= limit
    ensures Live(StoreAfterEvents(ttl, run), n, limit)
    decreases |run|
  {
    var last := |run| - 1;
    var before, e := StoreAfterEvents(ttl, run[..last]), run[last];
    if i == last {
      ConsumedIsLive(before, ttl, Nonces(e.chain.certs), n, e.storeNow);
    } else {
      assert run[..last][..i] == run[..i];
      StaysLive(ttl, run[..last], drift, lag, i, n, limit);
      assert run[i].storeNow <= e.storeNow <= limit;
    }
  }

  lemma AcceptedInWindow(
      c: Chain, agent: Key, req: Request, now: U64, revoked: set<Fingerprint>, nonces: Deadlines, storeNow: U64,
      k: nat)
    requires Grants(c, agent, req, now, revoked, nonces, storeNow) && k < |c.certs|
    ensures InWindow(c.certs[k], c.drift, now)
  {
    assert HopOk(c, k, now);
  }

  lemma SuccessInWindow(e: Event, nonces: Deadlines, k: nat)
    requires Succeeds(e, nonces) && k < |e.chain.certs|
    ensures e.chain.certs[k].issuedAt <= e.now + e.chain.drift && e.now <= e.chain.certs[k].expiration + e.chain.drift
    ensures e.chain.certs[k].nonce in Nonces(e.chain.certs) && !Live(nonces, e.chain.certs[k].nonce, e.storeNow)
  {
    assert Grants(e.chain, e.agent, e.requests[0], e.now, e.revoked, nonces, e.storeNow);
    AcceptedInWindow(e.chain, e.agent, e.requests[0], e.now, e.revoked, nonces, e.storeNow, k);
    WindowArithmetic(e.chain.certs[k].issuedAt, e.chain.certs[k].expiration, e.chain.drift, e.now);
    assert Nonces(e.chain.certs)[k] == e.chain.certs[k].nonce;
  }

  /** The deadline every consumption of a certificate gets at least, and the last moment it could be reused. */
  function EarliestDeadline(ttl: Option<U64>, issued: U64, drift: U64): U64 {
    Deadline(ttl, SatSub(issued, drift))
  }

  function LatestReuse(expiration: U64, drift: U64, lag: U64): U64 {
    SatAdd(SatAdd(expiration, drift), lag)
  }

  /** Two certificates with one nonce are not both accepted while the first deadline outlasts the second's reuse. */
  lemma {:induction false} NonceUsedOnce(
      ttl: Option<U64>, run: seq<Event>, drift: U64, lag: U64, i: nat, j: nat, p: nat, q: nat)
    requires Timed(run, drift, lag) && i < j < |run| && p < |run[i].chain.certs| && q < |run[j].chain.certs|
    requires run[i].chain.certs[p].nonce == run[j].chain.certs[q].nonce
    requires EarliestDeadline(ttl, run[i].chain.certs[p].issuedAt, drift) >=
             LatestReuse(run[j].chain.certs[q].expiration, drift, lag)
    ensures !(SucceedsAt(ttl, run, i) && SucceedsAt(ttl, run, j))
  {
    if SucceedsAt(ttl, run, i) {
      var x, y := run[i].chain.certs[p], run[j].chain.certs[q];
      SuccessInWindow(run[i], StoreAfterEvents(ttl, run[..i]), p);
      if SucceedsAt(ttl, run, j) {
        SuccessInWindow(run[j], StoreAfterEvents(ttl, run[..j]), q);
        assert run[j].storeNow <= LatestReuse(y.expiration, drift, lag);
        assert run[..j][..i] == run[..i];
        forall k | 0 <= k < j ensures run[..j][k].storeNow <= run[j].storeNow { assert run[..j][k] == run[k]; }
        StaysLive(ttl, run[..j], drift, lag, i, x.nonce, run[j].storeNow);
        assert false;
      }
    }
  }

  // ---------------------------------------------------------------- the exact bound

  /** Certificate `p` of event `i` is certificate `q` of the later event `j`, and has these times. */
  predicate UsedTwice(run: seq<Event>, i: nat, j: nat, p: nat, q: nat, issued: U64, expiration: U64) {
    i < j < |run| && p < |run[i].chain.certs| && q < |run[j].chain.certs| &&
    run[i].chain.certs[p] == run[j].chain.certs[q] &&
    run[i].chain.certs[p].issuedAt == issued && run[i].chain.certs[p].expiration == expiration
  }

  /** Some certificate with these times is in two successful events of the run. */
  ghost predicate Replayed(ttl: Option<U64>, run: seq<Event>, issued: U64, expiration: U64) {
    exists i: nat, j: nat, p: nat, q: nat ::
      UsedTwice(run, i, j, p, q, issued, expiration) && SucceedsAt(ttl, run, i) && SucceedsAt(ttl, run, j)
  }

  ghost predicate ReplaySafe(ttl: Option<U64>, issued: U64, expiration: U64, drift: U64, lag: U64) {
    forall run :: Timed(run, drift, lag) ==> !Replayed(ttl, run, issued, expiration)
  }

  const SAMPLE_INTENT: Hash := Leaf(IntentLeaf, [])

  const SAMPLE_KEY: Key := []

  function SampleNonce(): Nonce {
    seq(16, _ => 0)
  }

  /** The times at which a certificate is within its window, give or take the drift. */
  predicate Usable(issued: U64, expiration: U64, drift: U64, now: U64) {
    issued <= now + drift && now <= expiration + drift
  }

  /** A one-certificate chain with the given times, and the call that uses it. */
  function SampleEvent(issued: U64, expiration: U64, drift: U64, now: U64, storeNow: U64): Event {
    Event(PassThrough(SAMPLE_KEY, SAMPLE_INTENT, SAMPLE_KEY, issued, expiration, SampleNonce(), drift, None),
          SAMPLE_KEY, [Request(SAMPLE_INTENT, MerkleProof([]))], true, {}, now, storeNow)
  }

  lemma {:induction false} SampleSucceeds(
      issued: U64, expiration: U64, drift: U64, now: U64, storeNow: U64, store: Deadlines)
    requires Usable(issued, expiration, drift, now)
    requires !AnyLive(store, Nonces(SampleEvent(issued, expiration, drift, now, storeNow).chain.certs), storeNow)
    ensures Succeeds(SampleEvent(issued, expiration, drift, now, storeNow), store)
  {
    var e := SampleEvent(issued, expiration, drift, now, storeNow);
    PassThroughExactly(SAMPLE_KEY, SAMPLE_INTENT, SAMPLE_KEY, issued, expiration, SampleNonce(), drift, None,
                       SAMPLE_KEY, SAMPLE_INTENT, MerkleProof([]), now);
    assert Grants(e.chain, e.agent, e.requests[0], now, {}, store, storeNow);
  }

  lemma StoreAfterFirst(ttl: Option<U64>, a: Event, b: Event)
    requires Succeeds(a, map[])
    ensures [a, b][..0] == [] && [a, b][..1] == [a]
    ensures StoreAfterEvents(ttl, [a]) == Consumed(map[], ttl, Nonces(a.chain.certs), a.storeNow)
  {
    assert [a][..0] == [];
  }

  lemma ShortStore(ttl: Option<U64>, nonces: seq<Nonce>, first: U64, reuse: U64)
    requires Deadline(ttl, first) < reuse
    ensures !AnyLive(Consumed(map[], ttl, nonces, first), nonces, reuse)
  {
  }

  lemma TwoUses(ttl: Option<U64>, a: Event, b: Event, drift: U64, lag: U64, issued: U64, expiration: U64)
    requires Succeeds(a, map[]) && Succeeds(b, StoreAfterEvents(ttl, [a]))
    requires Timed([a, b], drift, lag) && UsedTwice([a, b], 0, 1, 0, 0, issued, expiration)
    ensures !ReplaySafe(ttl, issued, expiration, drift, lag)
  {
    var run := [a, b];
    assert run[..0] == [] && run[..1] == [a];
    assert SucceedsAt(ttl, run, 0) && SucceedsAt(ttl, run, 1);
    assert Replayed(ttl, run, issued, expiration);
  }

  /** No time lies in the window of a certificate that is issued too late after it expires. */
  predicate NeverUsable(issued: U64, expiration: U64, drift: U64) {
    issued > expiration + 2 * drift
  }

  /** The first and last moment at which a certificate that is ever usable can be used. */
  lemma FirstAndLast(issued: U64, expiration: U64, drift: U64)
    requires !NeverUsable(issued, expiration, drift)
    ensures Usable(issued, expiration, drift, SatSub(issued, drift))
    ensures Usable(issued, expiration, drift, SatAdd(expiration, drift))
    ensures SatSub(issued, drift) <= SatAdd(expiration, drift)
  {
  }

  /** When the deadline falls short, the certificate is used at the first and again at the last moment. */
  lemma {:induction false} ShortDeadlineAllowsReplay(
      ttl: Option<U64>, issued: U64, expiration: U64, drift: U64, lag: U64)
    requires !NeverUsable(issued, expiration, drift)
    requires EarliestDeadline(ttl, issued, drift) < LatestReuse(expiration, drift, lag)
    ensures !ReplaySafe(ttl, issued, expiration, drift, lag)
  {
    var first, last, reuse := SatSub(issued, drift), SatAdd(expiration, drift), LatestReuse(expiration, drift, lag);
    var a := SampleEvent(issued, expiration, drift, first, first);
    var b := SampleEvent(issued, expiration, drift, last, reuse);
    FirstAndLast(issued, expiration, drift);
    SampleSucceeds(issued, expiration, drift, first, first, map[]);
    StoreAfterFirst(ttl, a, b);
    ShortStore(ttl, Nonces(a.chain.certs), first, reuse);
    SampleSucceeds(issued, expiration, drift, last, reuse, StoreAfterEvents(ttl, [a]));
    TwoUses(ttl, a, b, drift, lag, issued, expiration);
  }

  /**
   At most once, exactly: no run authorizes a certificate of these times twice if and only if a
   nonce consumed at the earliest acceptable moment outlives the latest moment it could be reused,
   or there is no acceptable moment at all.
   */
  lemma {:induction false} AtMostOnceExactly(ttl: Option<U64>, issued: U64, expiration: U64, drift: U64, lag: U64)
    ensures ReplaySafe(ttl, issued, expiration, drift, lag) <==>
            EarliestDeadline(ttl, issued, drift) >= LatestReuse(expiration, drift, lag) ||
            NeverUsable(issued, expiration, drift)
  {
    if EarliestDeadline(ttl, issued, drift) >= LatestReuse(expiration, drift, lag) ||
       NeverUsable(issued, expiration, drift) {
      forall run: seq<Event> | Timed(run, drift, lag) ensures !Replayed(ttl, run, issued, expiration) {
        forall i: nat, j: nat, p: nat, q: nat | UsedTwice(run, i, j, p, q, issued, expiration)
          ensures !(SucceedsAt(ttl, run, i) && SucceedsAt(ttl, run, j))
        {
          if NeverUsable(issued, expiration, drift) {
            if SucceedsAt(ttl, run, i) { SuccessInWindow(run[i], StoreAfterEvents(ttl, run[..i]), p); }
          } else {
            NonceUsedOnce(ttl, run, drift, lag, i, j, p, q);
          }
        }
      }
    } else {
      ShortDeadlineAllowsReplay(ttl, issued, expiration, drift, lag);
    }
  }

  /** Without a time to live nothing is ever authorized twice. */
  lemma {:induction false} WithoutTtlAlwaysSafe(issued: U64, expiration: U64, drift: U64, lag: U64)
    ensures ReplaySafe(None, issued, expiration, drift, lag)
  {
    AtMostOnceExactly(None, issued, expiration, drift, lag);
  }

  // ---------------------------------------------------------------- a store whose keys expire

  /**
   A server that sets keys with an expiry in milliseconds. Whether a key still blocks at the very
   millisecond of its deadline is the server's convention, and left open.
   */
  datatype KeyServer = KeyServer(ttlMs: nat, blocksAtDeadline: bool)

  type Keys = map<Nonce, nat>

  /** An event with the server's reading of the clock, of which `storeNow` is the whole seconds. */
  datatype KeyEvent = KeyEvent(event: Event, at: nat)

  function Events(run: seq<KeyEvent>): seq<Event> {
    seq(|run|, i requires 0 <= i < |run| => run[i].event)
  }

  predicate Present(s: KeyServer, keys: Keys, n: Nonce, at: nat) {
    n in keys && (at < keys[n] || (s.blocksAtDeadline && at == keys[n]))
  }

  /** Everything but the nonces allows the event, and no key of its nonces exists. */
  predicate KeySucceeds(s: KeyServer, e: KeyEvent, keys: Keys) {
    Succeeds(e.event, map[]) && forall n :: n in Nonces(e.event.chain.certs) ==> !Present(s, keys, n, e.at)
  }

  function KeysAfter(s: KeyServer, run: seq<KeyEvent>): Keys {
    if run == [] then map[]
    else
      var before, e := KeysAfter(s, run[..|run| - 1]), run[|run| - 1];
      if KeySucceeds(s, e, before) then before + map n | n in Nonces(e.event.chain.certs) :: e.at + s.ttlMs else before
  }

  predicate KeySucceedsAt(s: KeyServer, run: seq<KeyEvent>, i: nat)
    requires i < |run|
  {
    KeySucceeds(s, run[i], KeysAfter(s, run[..i]))
  }

  ghost predicate KeyTimed(run: seq<KeyEvent>, drift: U64, lag: U64) {
    (forall i :: 0 <= i < |run| ==>
       run[i].event.now <= run[i].event.storeNow <= run[i].event.now + lag && run[i].event.chain.drift <= drift &&
       1000 * run[i].event.storeNow <= run[i].at < 1000 * run[i].event.storeNow + 1000) &&
    forall i, j :: 0 <= i < j < |run| ==> run[i].at <= run[j].at
  }

  ghost predicate KeyReplayed(s: KeyServer, run: seq<KeyEvent>, issued: U64, expiration: U64) {
    exists i: nat, j: nat, p: nat, q: nat ::
      UsedTwice(Events(run), i, j, p, q, issued, expiration) && KeySucceedsAt(s, run, i) && KeySucceedsAt(s, run, j)
  }

  ghost predicate KeyReplaySafe(s: KeyServer, issued: U64, expiration: U64, drift: U64, lag: U64) {
    forall run :: KeyTimed(run, drift, lag) ==> !KeyReplayed(s, run, issued, expiration)
  }

  /** A key set by a success is never there for less long than that success asked. */
  lemma {:induction false} KeyStays(s: KeyServer, run: seq<KeyEvent>, drift: U64, lag: U64, i: nat, n: Nonce)
    requires KeyTimed(run, drift, lag) && i < |run| && KeySucceedsAt(s, run, i) && n in Nonces(run[i].event.chain.certs)
    ensures n in KeysAfter(s, run) && KeysAfter(s, run)[n] >= run[i].at + s.ttlMs
    decreases |run|
  {
    var last := |run| - 1;
    if i < last {
      assert run[..last][..i] == run[..i];
      KeyStays(s, run[..last], drift, lag, i, n);
      assert run[i].at <= run[last].at;
    }
  }

  /** The last millisecond of the latest reuse against the deadline of the earliest use. */
  predicate KeysOutlast(s: KeyServer, issued: U64, expiration: U64, drift: U64, lag: U64) {
    1000 * LatestReuse(expiration, drift, lag) + 999 <
    1000 * SatSub(issued, drift) + s.ttlMs + if s.blocksAtDeadline then 1 else 0
  }

  lemma {:induction false} KeyUsedOnce(
      s: KeyServer, run: seq<KeyEvent>, drift: U64, lag: U64, i: nat, j: nat, p: nat, q: nat, issued: U64,
      expiration: U64)
    requires KeyTimed(run, drift, lag) && UsedTwice(Events(run), i, j, p, q, issued, expiration)
    requires KeysOutlast(s, issued, expiration, drift, lag) || NeverUsable(issued, expiration, drift)
    ensures !(KeySucceedsAt(s, run, i) && KeySucceedsAt(s, run, j))
  {
    if KeySucceedsAt(s, run, i) {
      var a, b := run[i].event, run[j].event;
      SuccessInWindow(a, map[], p);
      assert run[..j][..i] == run[..i];
      KeyStays(s, run[..j], drift, lag, i, a.chain.certs[p].nonce);
      if Succeeds(b, map[]) {
        SuccessInWindow(b, map[], q);
        assert b.storeNow <= LatestReuse(expiration, drift, lag);
        assert Present(s, KeysAfter(s, run[..j]), b.chain.certs[q].nonce, run[j].at);
      }
    }
  }

  lemma ShortKeys(s: KeyServer, a: KeyEvent, b: KeyEvent)
    requires KeySucceeds(s, a, map[]) && Succeeds(b.event, map[])
    requires Nonces(a.event.chain.certs) == Nonces(b.event.chain.certs)
    requires b.at >= a.at + s.ttlMs + if s.blocksAtDeadline then 1 else 0
    ensures KeySucceedsAt(s, [a, b], 0) && KeySucceedsAt(s, [a, b], 1)
  {
    var run := [a, b];
    assert run[..0] == [] && run[..1] == [a] && [a][..0] == [];
    assert KeysAfter(s, [a]) == map n | n in Nonces(a.event.chain.certs) :: a.at + s.ttlMs;
  }

  lemma TwoKeyUses(
      s: KeyServer, a: KeyEvent, b: KeyEvent, drift: U64, lag: U64, issued: U64, expiration: U64)
    requires KeySucceedsAt(s, [a, b], 0) && KeySucceedsAt(s, [a, b], 1)
    requires KeyTimed([a, b], drift, lag) && UsedTwice([a.event, b.event], 0, 1, 0, 0, issued, expiration)
    ensures !KeyReplaySafe(s, issued, expiration, drift, lag)
  {
    assert Events([a, b]) == [a.event, b.event];
    assert KeyReplayed(s, [a, b], issued, expiration);
  }

  /** Where the keys fall short, the certificate is used at the first and again at the last millisecond. */
  lemma {:induction false} ShortKeysAllowReplay(
      s: KeyServer, issued: U64, expiration: U64, drift: U64, lag: U64)
    requires !NeverUsable(issued, expiration, drift) && !KeysOutlast(s, issued, expiration, drift, lag)
    ensures !KeyReplaySafe(s, issued, expiration, drift, lag)
  {
    var first: nat, reuse: nat := SatSub(issued, drift), LatestReuse(expiration, drift, lag);
    var last := SatAdd(expiration, drift);
    var a := KeyEvent(SampleEvent(issued, expiration, drift, first, first), 1000 * first);
    var b := KeyEvent(SampleEvent(issued, expiration, drift, last, reuse), 1000 * reuse + 999);
    FirstAndLast(issued, expiration, drift);
    SampleSucceeds(issued, expiration, drift, first, first, map[]);
    SampleSucceeds(issued, expiration, drift, last, reuse, map[]);
    ShortKeys(s, a, b);
    TwoKeyUses(s, a, b, drift, lag, issued, expiration);
  }

  /** At most once with such a server, exactly, to the millisecond. */
  lemma {:induction false} KeysSafeExactly(s: KeyServer, issued: U64, expiration: U64, drift: U64, lag: U64)
    ensures KeyReplaySafe(s, issued, expiration, drift, lag) <==>
            KeysOutlast(s, issued, expiration, drift, lag) || NeverUsable(issued, expiration, drift)
  {
    if KeysOutlast(s, issued, expiration, drift, lag) || NeverUsable(issued, expiration, drift) {
      forall run: seq<KeyEvent> | KeyTimed(run, drift, lag) ensures !KeyReplayed(s, run, issued, expiration) {
        forall i: nat, j: nat, p: nat, q: nat | UsedTwice(Events(run), i, j, p, q, issued, expiration)
          ensures !(KeySucceedsAt(s, run, i) && KeySucceedsAt(s, run, j))
        {
          KeyUsedOnce(s, run, drift, lag, i, j, p, q, issued, expiration);
        }
      }
    } else {
      ShortKeysAllowReplay(s, issued, expiration, drift, lag);
    }
  }

  /**
   The documented time to live, lifetime plus drift plus margin, is enough exactly when the
   margin covers more than the drift a second time and the lag between the two clock readings,
   whatever the server does at a deadline. In the map of the memory store, which reads whole
   seconds and still blocks at its deadline, as much is enough.
   */
  lemma {:induction false} DocumentedTtlNeedsMargin(
      issued: U64, expiration: U64, drift: U64, lag: U64, margin: U64, blocksAtDeadline: bool)
    requires drift <= issued <= expiration && expiration + drift + lag <= U64_MAX
    requires (expiration - issued) + drift + margin <= U64_MAX
    ensures var ttl := (expiration - issued) + drift + margin;
            (KeyReplaySafe(KeyServer(1000 * ttl, blocksAtDeadline), issued, expiration, drift, lag) <==>
             margin > drift + lag) &&
            (ReplaySafe(Some(ttl), issued, expiration, drift, lag) <==> margin >= drift + lag)
  {
    var ttl := (expiration - issued) + drift + margin;
    KeysSafeExactly(KeyServer(1000 * ttl, blocksAtDeadline), issued, expiration, drift, lag);
    AtMostOnceExactly(Some(ttl), issued, expiration, drift, lag);
  }

  // ---------------------------------------------------------------- a batch of a used chain

  /** The event's requests followed by one for an intent that is not in scope. */
  function WithBadRequest(e: Event): BatchCall {
    var bad := Request(Ns([], LastScope(e.chain)), MerkleProof([]));
    BatchCall(e.chain, e.agent, e.requests + [bad], e.now, e.now, e.revoked)
  }

  /** After its one use a chain still obtains a receipt for a good request, by adding a bad one. */
  lemma {:induction false} UsedChainGetsReceipt(e: Event, ttl: Option<U64>, r: BatchResult)
    requires Succeeds(e, map[])
    ensures var used := Consumed(map[], ttl, Nonces(e.chain.certs), e.storeNow);
            !Succeeds(e, used) &&
            (BatchResultOk(WithBadRequest(e), used, e.storeNow, r) ==>
               r.receipts[0].Some? && !GrantsAlone(WithBadRequest(e), 0, used, e.storeNow) && !AllOrNothing(r))
  {
    var b, used := WithBadRequest(e), Consumed(map[], ttl, Nonces(e.chain.certs), e.storeNow);
    assert b.requests[0] == e.requests[0] && b.requests[|e.requests|].intent != LastScope(e.chain);
    assert Grants(e.chain, e.agent, e.requests[0], e.now, e.revoked, map[], e.storeNow);
    ConsumedIsLive(map[], ttl, Nonces(e.chain.certs), Nonces(e.chain.certs)[0], e.storeNow);
    assert AnyLive(used, Nonces(e.chain.certs), e.storeNow);
    assert !Grants(e.chain, e.agent, e.requests[0], e.now, e.revoked, used, e.storeNow);
    if BatchResultOk(b, used, e.storeNow, r) { BadRequestKeepsReceipt(b, used, e.storeNow, |e.requests|, r); }
  }

  /** There is such a chain for any times: the one-certificate sample. */
  lemma {:induction false} SampleIsUsedTwice(
      ttl: Option<U64>, issued: U64, expiration: U64, drift: U64, now: U64, r: BatchResult)
    requires Usable(issued, expiration, drift, now)
    ensures var e := SampleEvent(issued, expiration, drift, now, now);
            var used := Consumed(map[], ttl, Nonces(e.chain.certs), now);
            Succeeds(e, map[]) && !Succeeds(e, used) &&
            (BatchResultOk(WithBadRequest(e), used, now, r) ==> r.receipts[0].Some? && !AllOrNothing(r))
  {
    SampleSucceeds(issued, expiration, drift, now, now, map[]);
    UsedChainGetsReceipt(SampleEvent(issued, expiration, drift, now, now), ttl, r);
  }
}
