/**
 The revocation store under concurrent callers, one shared-memory access a step.

 A call to `revoke` or `revoke_batch` sets filter bits one at a time and then fills shards one
 at a time; a check of a list of fingerprints, as `authorize` makes it, loads bits one at a
 time and then reads a shard. Steps of different callers interleave freely.
 */
module RevocationInterleaving {
  import opened Basics
  import opened Certs
  import opened Chains
  import opened RevocationStores
  import opened Authorization

  type Caller = nat

  /** How far a caller has come; `b` counts the filter bits of fingerprint `k` already seen to. */
  datatype Task =
    | SettingBits(fps: seq<Fingerprint>, k: nat, b: nat)
    | FillingShards(fps: seq<Fingerprint>, k: nat)
    | RevokeReturned(fps: seq<Fingerprint>)
    | Checking(fps: seq<Fingerprint>, k: nat, b: nat)
    | CheckRefused(fps: seq<Fingerprint>)
    | CheckPassed(fps: seq<Fingerprint>)

  datatype State = State(bloom: set<(nat, nat)>, shards: set<(nat, Fingerprint)>, tasks: map<Caller, Task>)

  datatype Action =
    | StartRevoke(who: Caller, fps: seq<Fingerprint>)
    | StartCheck(who: Caller, fps: seq<Fingerprint>)
    | Advance(who: Caller)

  const INITIAL := State({}, {}, map[])

  predicate Stored(l: Layout, s: State, fp: Fingerprint) {
    (l.shard(fp), fp) in s.shards
  }

  /** A caller may start once it has nothing in progress. */
  predicate Idle(s: State, who: Caller) {
    who in s.tasks ==> s.tasks[who].RevokeReturned? || s.tasks[who].CheckRefused? || s.tasks[who].CheckPassed?
  }

  function AfterShards(fps: seq<Fingerprint>, k: nat): Task {
    if k < |fps| then FillingShards(fps, k) else RevokeReturned(fps)
  }

  function AfterBits(fps: seq<Fingerprint>, k: nat): Task {
    if k < |fps| then SettingBits(fps, k, 0) else AfterShards(fps, 0)
  }

  function AfterCheck(fps: seq<Fingerprint>, k: nat): Task {
    if k < |fps| then Checking(fps, k, 0) else CheckPassed(fps)
  }

  /** The answer `is_revoked(fps[k])` gives in this step, if this is the step it answers in. */
  function AnswerNow(l: Layout, s: State, t: Task): Option<bool>
    requires t.Checking? && t.k < |t.fps|
  {
    var bits := l.bits(t.fps[t.k]);
    if t.b >= |bits| then Some(Stored(l, s, t.fps[t.k]))
    else if bits[t.b] !in s.bloom then Some(false)
    else None
  }

  function Step(l: Layout, s: State, a: Action): State {
    match a
    case StartRevoke(who, fps) =>
      if Idle(s, who) then s.(tasks := s.tasks[who := AfterBits(fps, 0)]) else s
    case StartCheck(who, fps) =>
      if Idle(s, who) then s.(tasks := s.tasks[who := AfterCheck(fps, 0)]) else s
    case Advance(who) =>
      if who !in s.tasks then s
      else
        var t := s.tasks[who];
        match t
        case SettingBits(fps, k, b) =>
          if k >= |fps| then s
          else if b < |l.bits(fps[k])| then
            s.(bloom := s.bloom + {l.bits(fps[k])[b]}, tasks := s.tasks[who := SettingBits(fps, k, b + 1)])
          else s.(tasks := s.tasks[who := AfterBits(fps, k + 1)])
        case FillingShards(fps, k) =>
          if k >= |fps| then s
          else s.(shards := s.shards + {(l.shard(fps[k]), fps[k])}, tasks := s.tasks[who := AfterShards(fps, k + 1)])
        case Checking(fps, k, b) =>
          if k >= |fps| then s
          else
            (match AnswerNow(l, s, t)
             case None => s.(tasks := s.tasks[who := Checking(fps, k, b + 1)])
             case Some(true) => s.(tasks := s.tasks[who := CheckRefused(fps)])
             case Some(false) => s.(tasks := s.tasks[who := AfterCheck(fps, k + 1)]))
        case _ => s
  }

  /** The state after a run of any callers' steps. */
  function Run(l: Layout, actions: seq<Action>): State {
    if actions == [] then INITIAL else Step(l, Run(l, actions[..|actions| - 1]), actions[|actions| - 1])
  }

  // ---------------------------------------------------------------- what every step keeps

  ghost predicate BitsIn(l: Layout, s: State, fp: Fingerprint) {
    forall k :: 0 <= k < |l.bits(fp)| ==> l.bits(fp)[k] in s.bloom
  }

  ghost predicate TaskOk(l: Layout, s: State, t: Task) {
    match t
    case SettingBits(fps, k, b) =>
      k < |fps| && (forall j :: 0 <= j < k ==> BitsIn(l, s, fps[j])) &&
      b <= |l.bits(fps[k])| && forall j :: 0 <= j < b ==> l.bits(fps[k])[j] in s.bloom
    case FillingShards(fps, k) =>
      k < |fps| && (forall fp :: fp in fps ==> BitsIn(l, s, fp)) && forall j :: 0 <= j < k ==> Stored(l, s, fps[j])
    case RevokeReturned(fps) => forall fp :: fp in fps ==> Stored(l, s, fp)
    case Checking(fps, k, _) => k < |fps|
    case _ => true
  }

  /** A stored fingerprint has its bits set, and every task is where its shared state says. */
  ghost predicate Inv(l: Layout, s: State) {
    (forall fp :: Stored(l, s, fp) ==> BitsIn(l, s, fp)) && forall who :: who in s.tasks ==> TaskOk(l, s, s.tasks[who])
  }

  /** Shared state only grows. */
  ghost predicate Grows(s: State, s': State) {
    s.bloom <= s'.bloom && s.shards <= s'.shards
  }

  lemma TaskOkGrows(l: Layout, s: State, s': State, t: Task)
    requires Grows(s, s') && TaskOk(l, s, t)
    ensures TaskOk(l, s', t)
  {
  }

  lemma StepGrows(l: Layout, s: State, a: Action)
    ensures Grows(s, Step(l, s, a))
  {
  }

  lemma SettingAdvances(l: Layout, s: State, who: Caller)
    requires Inv(l, s) && who in s.tasks && s.tasks[who].SettingBits?
    ensures TaskOk(l, Step(l, s, Advance(who)), Step(l, s, Advance(who)).tasks[who])
  {
    var t := s.tasks[who];
    assert TaskOk(l, s, t);
    var s' := Step(l, s, Advance(who));
    if t.b >= |l.bits(t.fps[t.k])| {
      assert BitsIn(l, s, t.fps[t.k]);
      if t.k + 1 >= |t.fps| {
        forall fp | fp in t.fps ensures BitsIn(l, s, fp) {
          var j :| 0 <= j < |t.fps| && t.fps[j] == fp;
        }
      }
    }
  }

  lemma FillingAdvances(l: Layout, s: State, who: Caller)
    requires Inv(l, s) && who in s.tasks && s.tasks[who].FillingShards?
    ensures TaskOk(l, Step(l, s, Advance(who)), Step(l, s, Advance(who)).tasks[who])
  {
    var t := s.tasks[who];
    assert TaskOk(l, s, t);
    var s' := Step(l, s, Advance(who));
    assert forall j :: 0 <= j <= t.k ==> Stored(l, s', t.fps[j]);
  }

  lemma {:induction false} StepKeepsInv(l: Layout, s: State, a: Action)
    requires Inv(l, s)
    ensures Inv(l, Step(l, s, a))
  {
    var s' := Step(l, s, a);
    StepGrows(l, s, a);
    forall fp | Stored(l, s', fp) ensures BitsIn(l, s', fp) {
      if !Stored(l, s, fp) {
        var t := s.tasks[a.who];
        assert TaskOk(l, s, t);
        assert fp == t.fps[t.k] && fp in t.fps;
      }
    }
    forall who | who in s'.tasks ensures TaskOk(l, s', s'.tasks[who]) {
      if who in s.tasks {
        TaskOkGrows(l, s, s', s.tasks[who]);
      }
      if who == a.who && a.Advance? {
        if s.tasks[who].SettingBits? { SettingAdvances(l, s, who); }
        if s.tasks[who].FillingShards? { FillingAdvances(l, s, who); }
      }
    }
  }

  lemma {:induction false} RunsKeepInv(l: Layout, actions: seq<Action>)
    ensures Inv(l, Run(l, actions))
  {
    if actions != [] {
      RunsKeepInv(l, actions[..|actions| - 1]);
      StepKeepsInv(l, Run(l, actions[..|actions| - 1]), actions[|actions| - 1]);
    }
  }

  // ---------------------------------------------------------------- what the answers mean

  /** In any run every answer is the membership of the moment it is given. */
  lemma {:induction false} AnswersAreMembership(l: Layout, actions: seq<Action>, who: Caller)
    ensures var s := Run(l, actions);
            who in s.tasks && s.tasks[who].Checking? ==>
              var t := s.tasks[who];
              t.k < |t.fps| &&
              (AnswerNow(l, s, t).Some? ==> (AnswerNow(l, s, t).value <==> Stored(l, s, t.fps[t.k])))
  {
    RunsKeepInv(l, actions);
    var s := Run(l, actions);
    if who in s.tasks && s.tasks[who].Checking? {
      assert TaskOk(l, s, s.tasks[who]);
    }
  }

  ghost predicate EverRequested(actions: seq<Action>, fp: Fingerprint) {
    exists i :: 0 <= i < |actions| && actions[i].StartRevoke? && fp in actions[i].fps
  }

  ghost predicate RevokeTask(t: Task) {
    t.SettingBits? || t.FillingShards? || t.RevokeReturned?
  }

  /** Nothing is ever reported revoked that nobody asked to revoke. */
  lemma {:induction false} OnlyRequestedIsStored(l: Layout, actions: seq<Action>)
    ensures forall fp :: Stored(l, Run(l, actions), fp) ==> EverRequested(actions, fp)
    ensures forall who :: who in Run(l, actions).tasks && RevokeTask(Run(l, actions).tasks[who]) ==>
              forall fp :: fp in Run(l, actions).tasks[who].fps ==> EverRequested(actions, fp)
  {
    if actions != [] {
      var n := |actions| - 1;
      OnlyRequestedIsStored(l, actions[..n]);
      forall fp | EverRequested(actions[..n], fp) ensures EverRequested(actions, fp) {
        var i :| 0 <= i < n && actions[..n][i].StartRevoke? && fp in actions[..n][i].fps;
        assert actions[i].StartRevoke? && fp in actions[i].fps;
      }
      var a := actions[n];
      forall fp | a.StartRevoke? && fp in a.fps ensures EverRequested(actions, fp) { assert actions[n].StartRevoke?; }
    }
  }

  // ---------------------------------------------------------------- revocation takes effect

  lemma {:induction false} StoredPersists(l: Layout, actions: seq<Action>, i: nat, fp: Fingerprint)
    requires i <= |actions| && Stored(l, Run(l, actions[..i]), fp)
    ensures Stored(l, Run(l, actions), fp)
  {
    if i == |actions| {
      assert actions[..i] == actions;
    } else {
      var n := |actions| - 1;
      assert actions[..n][..i] == actions[..i];
      StoredPersists(l, actions[..n], i, fp);
      StepGrows(l, Run(l, actions[..n]), actions[n]);
    }
  }

  ghost predicate NoRestart(actions: seq<Action>, from: nat, who: Caller) {
    forall i :: from <= i < |actions| ==> actions[i].who == who ==> actions[i].Advance?
  }

  /** A check still short of a stored fingerprint, or refused. */
  ghost predicate NotPast(t: Task, certs: seq<Fingerprint>, p: nat) {
    t == CheckRefused(certs) || (t.Checking? && t.fps == certs && t.k <= p)
  }

  lemma NotPastIsKept(l: Layout, s: State, a: Action, who: Caller, certs: seq<Fingerprint>, p: nat)
    requires Inv(l, s) && who in s.tasks && NotPast(s.tasks[who], certs, p)
    requires p < |certs| && Stored(l, s, certs[p])
    requires a.who == who ==> a.Advance?
    ensures who in Step(l, s, a).tasks && NotPast(Step(l, s, a).tasks[who], certs, p)
  {
    assert TaskOk(l, s, s.tasks[who]);
    assert BitsIn(l, s, certs[p]);
  }

  lemma {:induction false} CheckStaysShort(
      l: Layout, actions: seq<Action>, from: nat, who: Caller, certs: seq<Fingerprint>, p: nat)
    requires from <= |actions| && who in Run(l, actions[..from]).tasks
    requires NotPast(Run(l, actions[..from]).tasks[who], certs, p)
    requires p < |certs| && Stored(l, Run(l, actions[..from]), certs[p]) && NoRestart(actions, from, who)
    ensures who in Run(l, actions).tasks && NotPast(Run(l, actions).tasks[who], certs, p)
  {
    if from == |actions| {
      assert actions[..from] == actions;
    } else {
      var n := |actions| - 1;
      assert actions[..n][..from] == actions[..from];
      CheckStaysShort(l, actions[..n], from, who, certs, p);
      StoredPersists(l, actions[..n], from, certs[p]);
      RunsKeepInv(l, actions[..n]);
      NotPastIsKept(l, Run(l, actions[..n]), actions[n], who, certs, p);
    }
  }

  /** A call that revokes the fingerprint had returned after the first `returned` steps. */
  ghost predicate RevokedBy(l: Layout, actions: seq<Action>, returned: nat, revoker: Caller, fp: Fingerprint)
    requires returned <= |actions|
  {
    var tasks := Run(l, actions[..returned]).tasks;
    revoker in tasks && tasks[revoker].RevokeReturned? && fp in tasks[revoker].fps
  }

  lemma {:induction false} ReturnedIsStored(
      l: Layout, actions: seq<Action>, returned: nat, revoker: Caller, fp: Fingerprint, later: nat)
    requires returned <= later <= |actions| && RevokedBy(l, actions, returned, revoker, fp)
    ensures Stored(l, Run(l, actions[..later]), fp)
  {
    RunsKeepInv(l, actions[..returned]);
    assert TaskOk(l, Run(l, actions[..returned]), Run(l, actions[..returned]).tasks[revoker]);
    assert actions[..later][..returned] == actions[..returned];
    StoredPersists(l, actions[..later], returned, fp);
  }

  /**
   When a `revoke` or `revoke_batch` holding a fingerprint returns, a check in flight that has not
   yet passed the fingerprint's place in its chain never passes, however other callers interleave.
   */
  lemma {:induction false} ChecksInFlightRefuse(
      l: Layout, actions: seq<Action>, returned: nat, revoker: Caller, who: Caller, certs: seq<Fingerprint>, p: nat)
    requires returned <= |actions| && p < |certs| && RevokedBy(l, actions, returned, revoker, certs[p])
    requires who in Run(l, actions[..returned]).tasks && NotPast(Run(l, actions[..returned]).tasks[who], certs, p)
    requires NoRestart(actions, returned, who)
    ensures who in Run(l, actions).tasks && NotPast(Run(l, actions).tasks[who], certs, p)
    ensures !Run(l, actions).tasks[who].CheckPassed?
  {
    ReturnedIsStored(l, actions, returned, revoker, certs[p], returned);
    CheckStaysShort(l, actions, returned, who, certs, p);
  }

  /** And no check started later over a chain with that fingerprint passes. */
  lemma {:induction false} RevocationTakesEffect(
      l: Layout, actions: seq<Action>, returned: nat, revoker: Caller, start: nat, who: Caller,
      certs: seq<Fingerprint>, fp: Fingerprint)
    requires returned <= start < |actions| && RevokedBy(l, actions, returned, revoker, fp) && fp in certs
    requires actions[start] == StartCheck(who, certs) && Idle(Run(l, actions[..start]), who)
    requires NoRestart(actions, start + 1, who)
    ensures who in Run(l, actions).tasks && !Run(l, actions).tasks[who].CheckPassed?
  {
    var p :| 0 <= p < |certs| && certs[p] == fp;
    ReturnedIsStored(l, actions, returned, revoker, fp, start + 1);
    assert actions[..start + 1][..start] == actions[..start];
    CheckStaysShort(l, actions, start + 1, who, certs, p);
  }

  // ---------------------------------------------------------------- a call nobody interleaves with

  /** `n` steps of one caller. */
  function Solo(l: Layout, s: State, who: Caller, n: nat): State
    decreases n
  {
    if n == 0 then s else Solo(l, Step(l, s, Advance(who)), who, n - 1)
  }

  ghost predicate StoredAreFiltered(l: Layout, s: State) {
    forall fp :: Stored(l, s, fp) ==> BitsIn(l, s, fp)
  }

  lemma SameShared(l: Layout, s: State, s': State)
    requires s'.bloom == s.bloom && s'.shards == s.shards
    ensures StoredAreFiltered(l, s) ==> StoredAreFiltered(l, s')
    ensures forall fp :: Stored(l, s', fp) <==> Stored(l, s, fp)
  {
    if StoredAreFiltered(l, s) {
      forall fp | Stored(l, s', fp) ensures BitsIn(l, s', fp) { assert Stored(l, s, fp) && BitsIn(l, s, fp); }
    }
  }

  lemma {:induction false} SoloCheck(l: Layout, s: State, who: Caller, fps: seq<Fingerprint>, k: nat, b: nat)
    returns (n: nat)
    requires StoredAreFiltered(l, s) && who in s.tasks && s.tasks[who] == Checking(fps, k, b)
    requires k < |fps| && b <= |l.bits(fps[k])|
    ensures var found := exists j :: k <= j < |fps| && Stored(l, s, fps[j]);
            var done := if found then CheckRefused(fps) else CheckPassed(fps);
            Solo(l, s, who, n) == s.(tasks := s.tasks[who := done])
    decreases |fps| - k, |l.bits(fps[k])| - b
  {
    var next, m := Step(l, s, Advance(who)), 0;
    SameShared(l, s, next);
    match AnswerNow(l, s, s.tasks[who]) {
      case None => m := SoloCheck(l, next, who, fps, k, b + 1);
      case Some(true) =>
      case Some(false) =>
        assert BitsIn(l, s, fps[k]) ==> b == |l.bits(fps[k])|;
        if k + 1 < |fps| { m := SoloCheck(l, next, who, fps, k + 1, 0); }
    }
    n := m + 1;
  }

  lemma {:induction false} SoloFill(l: Layout, s: State, who: Caller, fps: seq<Fingerprint>, k: nat) returns (n: nat)
    requires who in s.tasks && s.tasks[who] == FillingShards(fps, k) && k < |fps|
    ensures var s' := Solo(l, s, who, n);
            s'.bloom == s.bloom && s'.tasks == s.tasks[who := RevokeReturned(fps)] &&
            forall fp :: Stored(l, s', fp) <==> Stored(l, s, fp) || fp in fps[k..]
    decreases |fps| - k
  {
    var next, m := Step(l, s, Advance(who)), 0;
    assert fps[k..] == [fps[k]] + fps[k + 1..];
    if k + 1 < |fps| { m := SoloFill(l, next, who, fps, k + 1); }
    n := m + 1;
  }

  lemma {:induction false} SoloSet(l: Layout, s: State, who: Caller, fps: seq<Fingerprint>, k: nat, b: nat)
    returns (n: nat)
    requires who in s.tasks && s.tasks[who] == SettingBits(fps, k, b) && k < |fps| && b <= |l.bits(fps[k])|
    ensures var s' := Solo(l, s, who, n);
            s'.tasks == s.tasks[who := RevokeReturned(fps)] &&
            forall fp :: Stored(l, s', fp) <==> Stored(l, s, fp) || fp in fps
    decreases |fps| - k, |l.bits(fps[k])| - b
  {
    var next, m := Step(l, s, Advance(who)), 0;
    if b < |l.bits(fps[k])| {
      m := SoloSet(l, next, who, fps, k, b + 1);
    } else if k + 1 < |fps| {
      m := SoloSet(l, next, who, fps, k + 1, 0);
    } else {
      assert fps[0..] == fps;
      m := SoloFill(l, next, who, fps, 0);
    }
    n := m + 1;
  }

  /** A call and `n` steps of its caller with nobody else in between. */
  function Alone(call: Action, n: nat): seq<Action> {
    [call] + seq(n, _ => Advance(call.who))
  }

  lemma {:induction false} AdvancesAreSolo(l: Layout, actions: seq<Action>, who: Caller, n: nat)
    ensures Run(l, actions + seq(n, _ => Advance(who))) == Solo(l, Run(l, actions), who, n)
    decreases n
  {
    var steps := seq(n, _ => Advance(who));
    if n == 0 {
      assert actions + steps == actions;
    } else {
      var more := actions + [Advance(who)];
      assert more[..|actions|] == actions;
      assert actions + steps == more + seq(n - 1, _ => Advance(who));
      AdvancesAreSolo(l, more, who, n - 1);
    }
  }

  lemma {:induction false} AloneIsSolo(l: Layout, actions: seq<Action>, call: Action, n: nat)
    ensures Run(l, actions + Alone(call, n)) == Solo(l, Step(l, Run(l, actions), call), call.who, n)
  {
    assert (actions + [call])[..|actions|] == actions;
    assert actions + Alone(call, n) == (actions + [call]) + seq(n, _ => Advance(call.who));
    AdvancesAreSolo(l, actions + [call], call.who, n);
  }

  /**
   After any run, a check made with nobody in between ends as `ChecksRevoked` does on the set of
   what is stored, and changes nothing shared.
   */
  lemma {:induction false} CheckAlone(
      l: Layout, actions: seq<Action>, who: Caller, certs: seq<Cert>, revoked: set<Fingerprint>)
    returns (n: nat)
    requires Idle(Run(l, actions), who) && forall fp :: fp in revoked <==> Stored(l, Run(l, actions), fp)
    ensures var s, fps := Run(l, actions), Fingerprints(certs);
            Run(l, actions + Alone(StartCheck(who, fps), n)) ==
            s.(tasks := s.tasks[who := if AnyRevoked(certs, revoked) then CheckRefused(fps) else CheckPassed(fps)])
  {
    var s, fps := Run(l, actions), Fingerprints(certs);
    RunsKeepInv(l, actions);
    var started := Step(l, s, StartCheck(who, fps));
    SameShared(l, s, started);
    assert AnyRevoked(certs, revoked) <==> exists j :: 0 <= j < |fps| && Stored(l, s, fps[j]) by {
      assert forall j :: 0 <= j < |fps| ==> fps[j] == FingerprintOf(certs[j]);
    }
    n := 0;
    if fps != [] { n := SoloCheck(l, started, who, fps, 0, 0); }
    AloneIsSolo(l, actions, StartCheck(who, fps), n);
  }

  /** And a revocation made so returns with exactly its fingerprints added, as `RevokeBatch` does. */
  lemma {:induction false} RevokeAlone(
      l: Layout, actions: seq<Action>, who: Caller, fps: seq<Fingerprint>, revoked: set<Fingerprint>)
    returns (n: nat)
    requires Idle(Run(l, actions), who) && forall fp :: fp in revoked <==> Stored(l, Run(l, actions), fp)
    ensures var s, s' := Run(l, actions), Run(l, actions + Alone(StartRevoke(who, fps), n));
            s'.tasks == s.tasks[who := RevokeReturned(fps)] &&
            forall fp :: fp in revoked + Elems(fps) <==> Stored(l, s', fp)
  {
    var s := Run(l, actions);
    var started := Step(l, s, StartRevoke(who, fps));
    SameShared(l, s, started);
    n := 0;
    if fps != [] { n := SoloSet(l, started, who, fps, 0, 0); }
    AloneIsSolo(l, actions, StartRevoke(who, fps), n);
  }
}
