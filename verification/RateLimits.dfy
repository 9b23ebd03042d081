/**
 The rate limiter of `src/registry.rs`: one bucket a key, reset at aligned window starts and
 evicted after two windows, against a plain count of the calls in a window.
 */
module RateLimits {
  import opened Basics

  type Limit = n: nat | n < 0x1_0000_0000

  datatype Bucket = Bucket(start: U64, count: Limit)

  type Buckets = map<Bytes, Bucket>

  datatype Call = Call(key: Bytes, max: Limit, window: U64, now: U64)

  // ---------------------------------------------------------------- windows

  /** `window_secs.max(1)`. */
  function Width(window: U64): (w: U64)
    ensures w > 0
  {
    if window == 0 then 1 else window
  }

  /** `Width * 2` in a `u64` that wraps around. */
  function Horizon(window: U64): U64 {
    if 2 * Width(window) <= U64_MAX then 2 * Width(window) else 2 * Width(window) - (U64_MAX + 1)
  }

  /** The greatest multiple of `w` that is at most `a`. */
  function Floor(a: nat, w: nat): (f: nat)
    requires w > 0
    ensures f <= a < f + w
  {
    if a < w then 0 else w + Floor(a - w, w)
  }

  lemma TimesBounds(k: nat, w: nat)
    requires w > 0
    ensures k > 0 ==> k * w == (k - 1) * w + w && k * w >= w
    ensures k == 0 ==> k * w == 0
  {
    if k > 0 { assert (k - 1) * w >= 0; }
  }

  lemma {:induction false} FloorIsMultiple(a: nat, w: nat, k: nat)
    requires w > 0 && k * w <= a < k * w + w
    ensures Floor(a, w) == k * w
  {
    TimesBounds(k, w);
    if a >= w { FloorIsMultiple(a - w, w, k - 1); }
  }

  /** The code's `(a / w) * w`. */
  lemma {:induction false} FloorIsQuotient(a: nat, w: nat)
    requires w > 0
    ensures (a / w) * w == Floor(a, w)
  {
    assert (a / w) * w <= a < (a / w) * w + w;
    FloorIsMultiple(a, w, a / w);
  }

  function WindowStart(now: U64, window: U64): U64 {
    Floor(now, Width(window))
  }

  lemma {:induction false} FloorsInOrder(a: nat, b: nat, w: nat)
    requires w > 0 && a <= b
    ensures Floor(a, w) == Floor(b, w) || Floor(a, w) + w <= Floor(b, w)
    ensures b < a + w ==> Floor(b, w) == Floor(a, w) || Floor(b, w) == Floor(a, w) + w
    decreases a
  {
    if a >= w { FloorsInOrder(a - w, b - w, w); }
  }

  /** Later times start in the same window or at least one window later. */
  lemma {:induction false} WindowsInOrder(a: U64, b: U64, window: U64)
    requires a <= b
    ensures WindowStart(a, window) == WindowStart(b, window) ||
            WindowStart(a, window) + Width(window) <= WindowStart(b, window)
    ensures b < a + Width(window) ==>
              WindowStart(b, window) == WindowStart(a, window) ||
              WindowStart(b, window) == WindowStart(a, window) + Width(window)
  {
    FloorsInOrder(a, b, Width(window));
  }

  // ---------------------------------------------------------------- the store

  function Kept(buckets: Buckets, call: Call): Buckets {
    map k | k in buckets && SatSub(call.now, buckets[k].start) < Horizon(call.window) :: buckets[k]
  }

  /** What a bucket map says was granted to a key in the window that starts at `start`. */
  function CountAt(buckets: Buckets, key: Bytes, start: nat): nat {
    if key in buckets && buckets[key].start == start then buckets[key].count else 0
  }

  predicate Admits(buckets: Buckets, call: Call) {
    CountAt(Kept(buckets, call), call.key, WindowStart(call.now, call.window)) < call.max
  }

  function After(buckets: Buckets, call: Call): Buckets {
    var kept, start := Kept(buckets, call), WindowStart(call.now, call.window);
    var count := CountAt(kept, call.key, start);
    kept[call.key := Bucket(start, if count < call.max then count + 1 else count)]
  }

  class MemoryRateLimitStore {
    var buckets: Buckets

    constructor ()
      ensures buckets == map[]
    {
      buckets := map[];
    }

    method CheckAndRecord(call: Call) returns (ok: bool)
      modifies this
      ensures ok <==> Admits(old(buckets), call)
      ensures buckets == After(old(buckets), call)
    {
      FloorIsQuotient(call.now, Width(call.window));
      var windowStart: U64 := (call.now / Width(call.window)) * Width(call.window);
      buckets := map k | k in buckets && SatSub(call.now, buckets[k].start) < Horizon(call.window) :: buckets[k];
      if call.key !in buckets {
        buckets := buckets[call.key := Bucket(windowStart, 0)];
      }
      if buckets[call.key].start != windowStart {
        buckets := buckets[call.key := Bucket(windowStart, 0)];
      }
      if buckets[call.key].count >= call.max {
        return false;
      }
      buckets := buckets[call.key := Bucket(windowStart, buckets[call.key].count + 1)];
      ok := true;
    }
  }

  // ---------------------------------------------------------------- runs

  function BucketsAfter(calls: seq<Call>): Buckets {
    if calls == [] then map[] else After(BucketsAfter(calls[..|calls| - 1]), calls[|calls| - 1])
  }

  predicate Granted(calls: seq<Call>, i: nat)
    requires i < |calls|
  {
    Admits(BucketsAfter(calls[..i]), calls[i])
  }

  predicate InWindow(c: Call, key: Bytes, start: nat) {
    c.key == key && WindowStart(c.now, c.window) == start
  }

  /** Calls of a key in one window. */
  function CallsIn(calls: seq<Call>, key: Bytes, start: nat): nat {
    if calls == [] then 0
    else
      var n := |calls| - 1;
      CallsIn(calls[..n], key, start) + if InWindow(calls[n], key, start) then 1 else 0
  }

  function GrantsIn(calls: seq<Call>, key: Bytes, start: nat): nat {
    if calls == [] then 0
    else
      var n := |calls| - 1;
      GrantsIn(calls[..n], key, start) + if InWindow(calls[n], key, start) && Granted(calls, n) then 1 else 0
  }

  /** Calls of a key at times from `lo` up to, but not including, `hi`. */
  function CallsBetween(calls: seq<Call>, key: Bytes, lo: nat, hi: nat): nat {
    if calls == [] then 0
    else
      var n := |calls| - 1;
      CallsBetween(calls[..n], key, lo, hi) + if calls[n].key == key && lo <= calls[n].now < hi then 1 else 0
  }

  /** Those of them that were granted. */
  function GrantsBetween(calls: seq<Call>, key: Bytes, lo: nat, hi: nat): nat {
    if calls == [] then 0
    else
      var n := |calls| - 1;
      GrantsBetween(calls[..n], key, lo, hi) +
      if calls[n].key == key && lo <= calls[n].now < hi && Granted(calls, n) then 1 else 0
  }

  function Min(a: nat, b: nat): nat {
    if a <= b then a else b
  }

  /** The clock never runs back, and the key's own calls agree on window and limit. */
  ghost predicate Uniform(calls: seq<Call>, key: Bytes, window: U64, max: Limit) {
    (forall i, j :: 0 <= i < j < |calls| ==> calls[i].now <= calls[j].now) &&
    forall i :: 0 <= i < |calls| && calls[i].key == key ==> calls[i].window == window && calls[i].max == max
  }

  /** And no call of the run, whoever makes it, has an eviction horizon within the key's window. */
  ghost predicate Regular(calls: seq<Call>, key: Bytes, window: U64, max: Limit) {
    Uniform(calls, key, window, max) &&
    forall i :: 0 <= i < |calls| ==> Width(window) <= Horizon(calls[i].window)
  }

  lemma RegularPrefix(calls: seq<Call>, key: Bytes, window: U64, max: Limit, n: nat)
    requires Regular(calls, key, window, max) && n <= |calls|
    ensures Regular(calls[..n], key, window, max)
  {
  }

  /** No eviction touches a bucket of the window containing the current time or a later one. */
  lemma {:induction false} EvictionSparesWindow(buckets: Buckets, call: Call, key: Bytes, window: U64, t: U64)
    requires call.now <= t && Width(window) <= Horizon(call.window)
    ensures CountAt(Kept(buckets, call), key, WindowStart(t, window)) == CountAt(buckets, key, WindowStart(t, window))
  {
  }

  lemma {:induction false} NoCallsYet(calls: seq<Call>, key: Bytes, window: U64, max: Limit, start: nat)
    requires Regular(calls, key, window, max)
    requires forall i :: 0 <= i < |calls| ==> WindowStart(calls[i].now, window) < start
    ensures CallsIn(calls, key, start) == 0
  {
    if calls != [] {
      var n := |calls| - 1;
      RegularPrefix(calls, key, window, max, n);
      NoCallsYet(calls[..n], key, window, max, start);
    }
  }

  /** The bucket of every window still to come holds the count of the calls in it, capped by the limit. */
  lemma {:induction false} BucketsCount(calls: seq<Call>, key: Bytes, window: U64, max: Limit, t: U64)
    requires Regular(calls, key, window, max)
    requires forall i :: 0 <= i < |calls| ==> calls[i].now <= t
    ensures CountAt(BucketsAfter(calls), key, WindowStart(t, window)) ==
            Min(max, CallsIn(calls, key, WindowStart(t, window)))
  {
    if calls != [] {
      var n, s := |calls| - 1, WindowStart(t, window);
      var before, call := calls[..n], calls[n];
      RegularPrefix(calls, key, window, max, n);
      EvictionSparesWindow(BucketsAfter(before), call, key, window, t);
      BucketsCount(before, key, window, max, t);
      if call.key == key {
        WindowsInOrder(call.now, t, window);
        if WindowStart(call.now, window) != s {
          forall i | 0 <= i < |before| ensures WindowStart(before[i].now, window) < s {
            WindowsInOrder(calls[i].now, call.now, window);
          }
          NoCallsYet(before, key, window, max, s);
        }
      }
    }
  }

  /** A call is granted exactly when fewer than the limit of the key's earlier calls were in its window. */
  lemma {:induction false} GrantedByCount(calls: seq<Call>, key: Bytes, window: U64, max: Limit, i: nat)
    requires Regular(calls, key, window, max) && i < |calls| && calls[i].key == key
    ensures Granted(calls, i) <==> CallsIn(calls[..i], key, WindowStart(calls[i].now, window)) < max
  {
    RegularPrefix(calls, key, window, max, i);
    BucketsCount(calls[..i], key, window, max, calls[i].now);
    EvictionSparesWindow(BucketsAfter(calls[..i]), calls[i], key, window, calls[i].now);
  }

  /** Each aligned window grants exactly the calls made in it, up to the limit. */
  lemma {:induction false} WindowGrantsExactly(calls: seq<Call>, key: Bytes, window: U64, max: Limit, start: nat)
    requires Regular(calls, key, window, max)
    ensures GrantsIn(calls, key, start) == Min(max, CallsIn(calls, key, start))
  {
    if calls != [] {
      var n := |calls| - 1;
      RegularPrefix(calls, key, window, max, n);
      WindowGrantsExactly(calls[..n], key, window, max, start);
      if InWindow(calls[n], key, start) {
        GrantedByCount(calls, key, window, max, n);
      }
    }
  }

  lemma {:induction false} SpanMeetsTwoWindows(
      calls: seq<Call>, key: Bytes, window: U64, max: Limit, lo: U64, next: nat)
    requires Regular(calls, key, window, max)
    requires next == WindowStart(lo, window) + Width(window)
    ensures GrantsBetween(calls, key, lo, lo + Width(window)) <=
            GrantsIn(calls, key, WindowStart(lo, window)) + GrantsIn(calls, key, next)
  {
    if calls != [] {
      var n := |calls| - 1;
      RegularPrefix(calls, key, window, max, n);
      SpanMeetsTwoWindows(calls[..n], key, window, max, lo, next);
      var call := calls[n];
      if call.key == key && lo <= call.now < lo + Width(window) {
        WindowsInOrder(lo, call.now, window);
      }
    }
  }

  /** No span as long as the window ever sees more than twice the limit. */
  lemma {:induction false} SpanBound(calls: seq<Call>, key: Bytes, window: U64, max: Limit, lo: U64)
    requires Regular(calls, key, window, max)
    ensures GrantsBetween(calls, key, lo, lo + Width(window)) <= 2 * max
  {
    var next := WindowStart(lo, window) + Width(window);
    SpanMeetsTwoWindows(calls, key, window, max, lo, next);
    WindowGrantsExactly(calls, key, window, max, WindowStart(lo, window));
    WindowGrantsExactly(calls, key, window, max, next);
  }

  // ---------------------------------------------------------------- runs that exceed the limit

  /** Runs in which the key's calls are uniform and the other keys use only some windows. */
  ghost predicate Mixed(calls: seq<Call>, key: Bytes, window: U64, max: Limit, others: set<U64>) {
    Uniform(calls, key, window, max) &&
    forall i :: 0 <= i < |calls| && calls[i].key != key ==> calls[i].window in others
  }

  function Copies(call: Call, n: nat): seq<Call> {
    seq(n, _ => call)
  }

  lemma {:induction false} CallsInCopies(call: Call, n: nat, key: Bytes, start: nat)
    ensures CallsIn(Copies(call, n), key, start) == if InWindow(call, key, start) then n else 0
  {
    if n > 0 {
      assert Copies(call, n)[..n - 1] == Copies(call, n - 1);
      CallsInCopies(call, n - 1, key, start);
    }
  }

  lemma {:induction false} CallsInConcat(a: seq<Call>, b: seq<Call>, key: Bytes, start: nat)
    ensures CallsIn(a + b, key, start) == CallsIn(a, key, start) + CallsIn(b, key, start)
  {
    if b == [] {
      assert a + b == a;
    } else {
      assert (a + b)[..|a + b| - 1] == a + b[..|b| - 1];
      CallsInConcat(a, b[..|b| - 1], key, start);
    }
  }

  /** A span that holds the key's calls of one window, and no other, sees that window's grants. */
  lemma {:induction false} SpanIsWindow(calls: seq<Call>, key: Bytes, lo: nat, hi: nat, start: nat)
    requires forall i :: 0 <= i < |calls| && calls[i].key == key ==>
               (lo <= calls[i].now < hi <==> InWindow(calls[i], key, start))
    ensures GrantsBetween(calls, key, lo, hi) == GrantsIn(calls, key, start)
    ensures CallsBetween(calls, key, lo, hi) == CallsIn(calls, key, start)
  {
    if calls != [] { SpanIsWindow(calls[..|calls| - 1], key, lo, hi, start); }
  }

  lemma {:induction false} SpanIsTwoWindows(calls: seq<Call>, key: Bytes, lo: U64, hi: nat, first: nat, second: nat)
    requires first != second
    requires forall i :: 0 <= i < |calls| && calls[i].key == key ==>
               (lo <= calls[i].now < hi <==> InWindow(calls[i], key, first) || InWindow(calls[i], key, second))
    ensures GrantsBetween(calls, key, lo, hi) == GrantsIn(calls, key, first) + GrantsIn(calls, key, second)
  {
    if calls != [] { SpanIsTwoWindows(calls[..|calls| - 1], key, lo, hi, first, second); }
  }

  /** What was granted in a window before is granted still. */
  lemma GrantsInLonger(calls: seq<Call>, call: Call, key: Bytes, start: nat)
    ensures GrantsIn(calls + [call], key, start) ==
            GrantsIn(calls, key, start) +
            if InWindow(call, key, start) && Admits(BucketsAfter(calls), call) then 1 else 0
    ensures CallsIn(calls + [call], key, start) ==
            CallsIn(calls, key, start) + if InWindow(call, key, start) then 1 else 0
  {
    assert (calls + [call])[..|calls|] == calls;
  }

  /**
   A call is granted whatever was recorded before it exactly when the limit is not zero and its
   own eviction horizon, wrapped around, lies within the part of the window that has passed.
   */
  lemma {:induction false} WrappedWidthNeverLimits(call: Call)
    ensures (forall buckets :: Admits(buckets, call)) <==>
            call.max > 0 && call.now - WindowStart(call.now, call.window) >= Horizon(call.window)
  {
    var start := WindowStart(call.now, call.window);
    if call.now - start >= Horizon(call.window) {
      assert forall buckets :: CountAt(Kept(buckets, call), call.key, start) == 0;
      assert Admits(map[], call) <==> call.max > 0;
    } else {
      assert !Admits(map[call.key := Bucket(start, call.max)], call);
    }
  }

  lemma {:induction false} AllCopiesGranted(call: Call, n: nat)
    requires forall buckets :: Admits(buckets, call)
    ensures GrantsIn(Copies(call, n), call.key, WindowStart(call.now, call.window)) == n
  {
    if n > 0 {
      AllCopiesGranted(call, n - 1);
      assert Copies(call, n) == Copies(call, n - 1) + [call];
      GrantsInLonger(Copies(call, n - 1), call, call.key, WindowStart(call.now, call.window));
    }
  }

  /** Where a key's own horizon is shorter than its window, any number of calls is granted at one instant. */
  lemma {:induction false} OwnHorizonForgets(key: Bytes, window: U64, max: Limit, n: nat)
    requires Horizon(window) < Width(window) && max > 0
    ensures GrantsIn(Copies(Call(key, max, window, Horizon(window)), n), key, 0) == n
  {
    var call := Call(key, max, window, Horizon(window));
    assert WindowStart(call.now, window) == 0;
    WrappedWidthNeverLimits(call);
    AllCopiesGranted(call, n);
  }

  /** The limit at time 0, a call of another key at its horizon, and one call more. */
  function ForgettingRun(key: Bytes, other: Bytes, window: U64, max: Limit, short: U64): seq<Call> {
    Copies(Call(key, max, window, 0), max) + [Call(other, 1, short, Horizon(short))] +
    [Call(key, max, window, Horizon(short))]
  }

  lemma {:induction false} ForgettingRunAt(key: Bytes, other: Bytes, window: U64, max: Limit, short: U64, i: nat)
    requires i < max + 2
    ensures ForgettingRun(key, other, window, max, short)[i] ==
            if i == max then Call(other, 1, short, Horizon(short))
            else Call(key, max, window, if i < max then 0 else Horizon(short))
  {
  }

  lemma {:induction false} ForgettingRunIsMixed(
      key: Bytes, other: Bytes, window: U64, max: Limit, short: U64, others: set<U64>)
    requires key != other && short in others
    ensures Mixed(ForgettingRun(key, other, window, max, short), key, window, max, others)
  {
    var calls := ForgettingRun(key, other, window, max, short);
    forall i | 0 <= i < |calls|
      ensures calls[i] == if i == max then Call(other, 1, short, Horizon(short))
                          else Call(key, max, window, if i < max then 0 else Horizon(short))
    {
      ForgettingRunAt(key, other, window, max, short, i);
    }
  }

  /** At its own horizon a call evicts every bucket of the first window, and the next call is granted. */
  lemma {:induction false} GrantedAfterEviction(before: seq<Call>, call: Call, next: Call)
    requires call.key != next.key && call.now == next.now == Horizon(call.window) && next.max > 0
    requires WindowStart(next.now, next.window) == 0
    ensures GrantsIn(before + [call] + [next], next.key, 0) == GrantsIn(before, next.key, 0) + 1
  {
    var calls := before + [call];
    assert calls[..|before|] == before;
    assert next.key !in Kept(BucketsAfter(before), call) || BucketsAfter(before)[next.key].start != 0;
    assert CountAt(BucketsAfter(calls), next.key, 0) == 0;
    GrantsInLonger(before, call, next.key, 0);
    GrantsInLonger(calls, next, next.key, 0);
  }

  /** A call of another key with a shorter horizon makes the limiter forget this key's current window. */
  lemma {:induction false} ShortWindowForgets(key: Bytes, other: Bytes, window: U64, max: Limit, short: U64)
    requires key != other && max > 0 && Horizon(short) < Width(window) <= Horizon(window)
    ensures GrantsIn(ForgettingRun(key, other, window, max, short), key, 0) == max + 1
  {
    var h := Horizon(short);
    assert WindowStart(0, window) == 0 && WindowStart(h, window) == 0;
    WindowGrantsExactly(Copies(Call(key, max, window, 0), max), key, window, max, 0);
    CallsInCopies(Call(key, max, window, 0), max, key, 0);
    GrantedAfterEviction(Copies(Call(key, max, window, 0), max), Call(other, 1, short, h), Call(key, max, window, h));
  }

  // ---------------------------------------------------------------- exactly when the limiter limits

  /** The limit is kept to in every span that starts at a multiple of the window and is as long. */
  ghost predicate LimitsWindows(key: Bytes, window: U64, max: Limit, others: set<U64>) {
    var w: nat := if window == 0 then 1 else window;
    forall calls: seq<Call>, lo: nat, hi: nat ::
      Mixed(calls, key, window, max, others) && lo % w == 0 && hi == lo + w ==>
        GrantsBetween(calls, key, lo, hi) == Min(max, CallsBetween(calls, key, lo, hi))
  }

  /** And in every span as long as the window, wherever it starts. */
  ghost predicate LimitsSpans(key: Bytes, window: U64, max: Limit, others: set<U64>) {
    var w: nat := if window == 0 then 1 else window;
    forall calls: seq<Call>, lo: nat, hi: nat ::
      Mixed(calls, key, window, max, others) && hi == lo + w ==> GrantsBetween(calls, key, lo, hi) <= max
  }

  /** Twice any window in use, the key's own included, is at least the key's window, also as a wrapping `u64`. */
  ghost predicate DoublesCover(window: U64, others: set<U64>) {
    var w: nat := if window == 0 then 1 else window;
    w <= (2 * w) % 0x1_0000_0000_0000_0000 &&
    forall o :: o in others ==> w <= (2 * if o == 0 then 1 else o) % 0x1_0000_0000_0000_0000
  }

  /** No horizon in use, the key's own included, is shorter than the key's window. */
  ghost predicate HorizonsCover(window: U64, others: set<U64>) {
    Width(window) <= Horizon(window) && forall o :: o in others ==> Width(window) <= Horizon(o)
  }

  lemma HorizonIsDouble(window: U64)
    ensures Horizon(window) == (2 * if window == 0 then 1 else window) % 0x1_0000_0000_0000_0000
  {
  }

  lemma CoverIsDouble(window: U64, others: set<U64>)
    ensures HorizonsCover(window, others) <==> DoublesCover(window, others)
  {
    HorizonIsDouble(window);
    forall o | o in others
      ensures Horizon(o) == (2 * if o == 0 then 1 else o) % 0x1_0000_0000_0000_0000
    {
      HorizonIsDouble(o);
    }
  }

  lemma {:induction false} AlignedSpan(
      calls: seq<Call>, key: Bytes, window: U64, max: Limit, lo: nat, hi: nat)
    requires Uniform(calls, key, window, max) && lo % Width(window) == 0 && hi == lo + Width(window)
    ensures GrantsBetween(calls, key, lo, hi) == GrantsIn(calls, key, lo)
    ensures CallsBetween(calls, key, lo, hi) == CallsIn(calls, key, lo)
  {
    var w := Width(window);
    forall now: U64 | lo <= now < hi ensures WindowStart(now, window) == lo {
      assert lo == (lo / w) * w;
      FloorIsMultiple(now, w, lo / w);
    }
    SpanIsWindow(calls, key, lo, hi, lo);
  }

  /** Calls of the first window, seen by a span of its width. */
  lemma SpanOfFirstWindow(calls: seq<Call>, key: Bytes, window: U64, max: Limit, lo: U64)
    requires Uniform(calls, key, window, max)
    requires forall i :: 0 <= i < |calls| && calls[i].key == key ==> lo <= calls[i].now < Width(window)
    ensures GrantsBetween(calls, key, lo, lo + Width(window)) == GrantsIn(calls, key, 0)
  {
    SpanIsWindow(calls, key, lo, lo + Width(window), 0);
  }

  lemma {:induction false} OwnHorizonExceeds(key: Bytes, window: U64, max: Limit, others: set<U64>)
    returns (calls: seq<Call>, lo: U64)
    requires Horizon(window) < Width(window) && max > 0
    ensures Mixed(calls, key, window, max, others)
    ensures GrantsBetween(calls, key, lo, lo + Width(window)) == GrantsIn(calls, key, 0) == max + 1
  {
    lo := Horizon(window);
    calls := Copies(Call(key, max, window, lo), max + 1);
    OwnHorizonForgets(key, window, max, max + 1);
    SpanOfFirstWindow(calls, key, window, max, lo);
  }

  lemma {:induction false} ShortWindowExceeds(
      key: Bytes, other: Bytes, window: U64, max: Limit, short: U64, others: set<U64>)
    returns (calls: seq<Call>)
    requires key != other && max > 0 && Horizon(short) < Width(window) <= Horizon(window) && short in others
    ensures Mixed(calls, key, window, max, others)
    ensures GrantsBetween(calls, key, 0, Width(window)) == GrantsIn(calls, key, 0) == max + 1
  {
    calls := ForgettingRun(key, other, window, max, short);
    ShortWindowForgets(key, other, window, max, short);
    ForgettingRunIsMixed(key, other, window, max, short, others);
    forall i | 0 <= i < |calls| && calls[i].key == key ensures calls[i].now < Width(window) {
      ForgettingRunAt(key, other, window, max, short, i);
    }
    SpanOfFirstWindow(calls, key, window, max, 0);
  }

  /** Without that, some run is granted one more than the limit, all of it in one window and one span. */
  lemma {:induction false} ShortHorizonExceeds(key: Bytes, window: U64, max: Limit, others: set<U64>)
    returns (calls: seq<Call>, lo: U64)
    requires max > 0 && !HorizonsCover(window, others)
    ensures Mixed(calls, key, window, max, others)
    ensures GrantsBetween(calls, key, lo, lo + Width(window)) == GrantsIn(calls, key, 0) == max + 1
  {
    if Horizon(window) < Width(window) {
      calls, lo := OwnHorizonExceeds(key, window, max, others);
    } else {
      var short :| short in others && Horizon(short) < Width(window);
      assert |key + [0]| != |key|;
      lo := 0;
      calls := ShortWindowExceeds(key, key + [0], window, max, short, others);
    }
  }

  lemma {:induction false} NothingGranted(calls: seq<Call>, key: Bytes, window: U64, start: nat, lo: nat, hi: nat)
    requires Uniform(calls, key, window, 0)
    ensures GrantsIn(calls, key, start) == 0 && GrantsBetween(calls, key, lo, hi) == 0
  {
    if calls != [] { NothingGranted(calls[..|calls| - 1], key, window, start, lo, hi); }
  }

  /**
   Every aligned window of every run grants exactly the smaller of the limit and the calls made
   in it if and only if twice any window in use covers the key's window, or the limit is zero.
   */
  lemma {:induction false} LimitsWindowsExactly(key: Bytes, window: U64, max: Limit, others: set<U64>)
    ensures LimitsWindows(key, window, max, others) <==> max == 0 || DoublesCover(window, others)
  {
    CoverIsDouble(window, others);
    if max > 0 && !HorizonsCover(window, others) {
      var calls, _ := ShortHorizonExceeds(key, window, max, others);
      AlignedSpan(calls, key, window, max, 0, Width(window));
      assert GrantsBetween(calls, key, 0, Width(window)) > max;
    } else {
      forall calls: seq<Call>, lo: nat, hi: nat
        | Mixed(calls, key, window, max, others) && lo % Width(window) == 0 && hi == lo + Width(window)
        ensures GrantsBetween(calls, key, lo, hi) == Min(max, CallsBetween(calls, key, lo, hi))
      {
        AlignedSpan(calls, key, window, max, lo, hi);
        if max == 0 {
          NothingGranted(calls, key, window, lo, lo, hi);
        } else {
          WindowGrantsExactly(calls, key, window, max, lo);
        }
      }
    }
  }

  // ---------------------------------------------------------------- spans across a window's end

  /** The limit at the end of the first window and again at the start of the second. */
  function Burst(key: Bytes, window: U64, max: Limit): seq<Call> {
    var w := Width(window);
    Copies(Call(key, max, window, w - 1), max) + Copies(Call(key, max, window, w), max)
  }

  lemma BurstAt(key: Bytes, window: U64, max: Limit, i: nat)
    requires i < 2 * max
    ensures Burst(key, window, max)[i] == Call(key, max, window, if i < max then Width(window) - 1 else Width(window))
  {
  }

  lemma BurstWindows(window: U64)
    ensures WindowStart(Width(window) - 1, window) == 0 && WindowStart(Width(window), window) == Width(window)
  {
  }

  lemma {:induction false} BurstGrants(key: Bytes, window: U64, max: Limit, start: nat)
    requires Regular(Burst(key, window, max), key, window, max) && (start == 0 || start == Width(window))
    ensures GrantsIn(Burst(key, window, max), key, start) == max
  {
    var w := Width(window);
    var a, b := Call(key, max, window, w - 1), Call(key, max, window, w);
    BurstWindows(window);
    WindowGrantsExactly(Burst(key, window, max), key, window, max, start);
    CallsInConcat(Copies(a, max), Copies(b, max), key, start);
    CallsInCopies(a, max, key, start);
    CallsInCopies(b, max, key, start);
  }

  lemma {:induction false} BurstIsRegular(key: Bytes, window: U64, max: Limit)
    requires 1 < Width(window) <= Horizon(window)
    ensures Regular(Burst(key, window, max), key, window, max)
    ensures forall i :: 0 <= i < 2 * max ==> Width(window) - 1 <= Burst(key, window, max)[i].now <= Width(window)
  {
    forall i | 0 <= i < 2 * max
      ensures Burst(key, window, max)[i] == Call(key, max, window, if i < max then Width(window) - 1 else Width(window))
    {
      BurstAt(key, window, max, i);
    }
  }

  /** Calls around the end of the first window, seen by a span that begins just before it. */
  lemma {:induction false} SpanAcrossEnd(calls: seq<Call>, key: Bytes, window: U64, max: Limit)
    requires Uniform(calls, key, window, max) && Width(window) > 1
    requires forall i :: 0 <= i < |calls| && calls[i].key == key ==> Width(window) - 1 <= calls[i].now <= Width(window)
    ensures GrantsBetween(calls, key, Width(window) - 1, Width(window) - 1 + Width(window)) ==
            GrantsIn(calls, key, 0) + GrantsIn(calls, key, Width(window))
  {
    BurstWindows(window);
    SpanIsTwoWindows(calls, key, Width(window) - 1, Width(window) - 1 + Width(window), 0, Width(window));
  }

  /** So twice the limit, the most that `SpanBound` allows, is reached by a span of one window. */
  lemma {:induction false} SpanBoundIsReached(key: Bytes, window: U64, max: Limit)
    requires 1 < Width(window) <= Horizon(window)
    ensures Regular(Burst(key, window, max), key, window, max)
    ensures GrantsBetween(Burst(key, window, max), key, Width(window) - 1, Width(window) - 1 + Width(window)) == 2 * max
  {
    BurstIsRegular(key, window, max);
    BurstGrants(key, window, max, 0);
    BurstGrants(key, window, max, Width(window));
    SpanAcrossEnd(Burst(key, window, max), key, window, max);
  }

  /**
   The limit holds in every span as long as the window if and only if the limit is zero, or the
   window is one second and covered: only there is the window a sliding one.
   */
  lemma {:induction false} SlidingExactly(key: Bytes, window: U64, max: Limit, others: set<U64>)
    ensures LimitsSpans(key, window, max, others) <==> max == 0 || (window <= 1 && DoublesCover(window, others))
  {
    CoverIsDouble(window, others);
    if max > 0 && !HorizonsCover(window, others) {
      var calls, lo := ShortHorizonExceeds(key, window, max, others);
      assert GrantsBetween(calls, key, lo, lo + Width(window)) > max;
    } else if max > 0 && Width(window) > 1 {
      SpanBoundIsReached(key, window, max);
      assert Mixed(Burst(key, window, max), key, window, max, others);
    } else {
      forall calls: seq<Call>, lo: nat, hi: nat | Mixed(calls, key, window, max, others) && hi == lo + Width(window)
        ensures GrantsBetween(calls, key, lo, hi) <= max
      {
        if max == 0 {
          NothingGranted(calls, key, window, 0, lo, hi);
        } else {
          AlignedSpan(calls, key, window, max, lo, hi);
          WindowGrantsExactly(calls, key, window, max, lo);
        }
      }
    }
  }
}
