/** The circuit breaker of one provider: its health record, the operations on it, and what holds over
    every run of requests, replies, health checks and resets. */
module CircuitBreaker {
  import opened Clock
  import opened Wrappers

  datatype Status = Healthy | Degraded | HalfOpen | Offline

  datatype Health = Health(status: Status, failures: nat, lastFailure: int, lastSuccess: int,
                           lastError: string, probeInFlight: bool)

  const FRESH := Health(Healthy, 0, 0, 0, "", false)

  // ---- the operations

  predicate Allows(h: Health, now: int, cooldown: int) {
    match h.status
    case Offline => Seconds(now - h.lastFailure) >= cooldown && !h.probeInFlight
    case HalfOpen => false
    case Healthy => true
    case Degraded => true
  }

  function Asked(h: Health, now: int, cooldown: int): Health {
    if h.status.Offline? && Allows(h, now, cooldown) then h.(probeInFlight := true, status := HalfOpen) else h
  }

  function Succeeded(h: Health, now: int): Health {
    h.(status := Healthy, failures := 0, probeInFlight := false, lastSuccess := now)
  }

  function Failed(h: Health, now: int, error: string): Health {
    h.(failures := h.failures + 1, lastFailure := now, lastError := error, probeInFlight := false,
    status := if h.failures + 1 >= 3 then Offline else Degraded)
  }

  function Checked(h: Health, healthy: bool): Health {
    if healthy then h.(status := Healthy, failures := 0, probeInFlight := false) else h.(status := Degraded)
  }

  // ---- runs of one provider

  datatype Event =
    | Ask(at: int)
    | Success(at: int)
    | Failure(at: int, error: string)
    | Check(healthy: bool)
    | Reset

  function Next(h: Health, e: Event, cooldown: int): Health {
    match e
    case Ask(at) => Asked(h, at, cooldown)
    case Success(at) => Succeeded(h, at)
    case Failure(at, error) => Failed(h, at, error)
    case Check(healthy) => Checked(h, healthy)
    case Reset => FRESH
  }

  function After(h: Health, es: seq<Event>, cooldown: int): Health {
    if es == [] then h else Next(After(h, es[..|es| - 1], cooldown), es[|es| - 1], cooldown)
  }

  lemma {:induction false} AfterAppend(h: Health, a: seq<Event>, b: seq<Event>, cooldown: int)
    ensures After(h, a + b, cooldown) == After(After(h, a, cooldown), b, cooldown)
  {
    if b == [] {
      assert a + b == a;
    } else {
      assert (a + b)[..|a + b| - 1] == a + b[..|b| - 1];
      AfterAppend(h, a, b[..|b| - 1], cooldown);
    }
  }

  predicate Consistent(h: Health) {
    match h.status
    case Healthy => h.failures == 0 && !h.probeInFlight
    case Degraded => true
    case HalfOpen => h.failures >= 3 && h.probeInFlight
    case Offline => h.failures >= 3 && !h.probeInFlight
  }

  /** Safety over every interleaving of all operations. */
  lemma {:induction false} AlwaysConsistent(h: Health, es: seq<Event>, cooldown: int)
    requires Consistent(h)
    ensures Consistent(After(h, es, cooldown))
  {
    if es == [] {
    } else {
      AlwaysConsistent(h, es[..|es| - 1], cooldown);
    }
  }

  /** Until a health check reports trouble, the status is a function of the failure count and the probe flag. */
  predicate Determined(h: Health) {
    h.status == (if h.failures == 0 then Healthy else if h.failures < 3 then Degraded
                 else if h.probeInFlight then HalfOpen else Offline)
    && (h.probeInFlight ==> h.failures >= 3)
  }

  lemma {:induction false} DeterminedWithoutBadChecks(h: Health, es: seq<Event>, cooldown: int)
    requires Determined(h)
    requires forall i | 0 <= i < |es| :: es[i] != Check(false)
    ensures Determined(After(h, es, cooldown))
  {
    if es == [] {
    } else {
      DeterminedWithoutBadChecks(h, es[..|es| - 1], cooldown);
    }
  }

  // ---- the status, read off the history of a provider

  /** What brings the failure count back to nothing: a success, a passing health check or a reset. */
  predicate Clears(e: Event) {
    e.Success? || e.Reset? || (e.Check? && e.healthy)
  }

  /** Failures recorded since the last event that clears the count. */
  function FailuresSince(es: seq<Event>): nat {
    if es == [] then 0
    else
      var last := es[|es| - 1];
      if Clears(last) then 0 else FailuresSince(es[..|es| - 1]) + if last.Failure? then 1 else 0
  }

  /** The last event that is not a request. */
  function LastReport(es: seq<Event>): Option<Event> {
    if es == [] then None
    else if es[|es| - 1].Ask? then LastReport(es[..|es| - 1])
    else Some(es[|es| - 1])
  }

  /** A request a full cooldown after time t has come since the last report. */
  predicate Probed(es: seq<Event>, t: int, cooldown: int) {
    es != [] && es[|es| - 1].Ask?
    && (Seconds(es[|es| - 1].at - t) >= cooldown || Probed(es[..|es| - 1], t, cooldown))
  }

  function StatusOf(es: seq<Event>, cooldown: int): Status {
    match LastReport(es)
    case None => Healthy
    case Some(Failure(at, _)) =>
      if FailuresSince(es) < 3 then Degraded else if Probed(es, at, cooldown) then HalfOpen else Offline
    case Some(Check(false)) => Degraded
    case _ => Healthy
  }

  /** After every run the status is what the history says, and a failure that was reported last is the last
      failure on record. */
  lemma {:induction false} StatusFromHistory(es: seq<Event>, cooldown: int)
    ensures var h := After(FRESH, es, cooldown);
            && h.failures == FailuresSince(es) && h.status == StatusOf(es, cooldown) && Consistent(h)
            && (LastReport(es).Some? && LastReport(es).value.Failure? ==> h.lastFailure == LastReport(es).value.at)
  {
    hide Seconds;
    AlwaysConsistent(FRESH, es, cooldown);
    if es == [] {
    } else {
      StatusFromHistory(es[..|es| - 1], cooldown);
    }
  }

  /** The times and the error on record, read off the history: a reset forgets them. */
  function LastFailureAt(es: seq<Event>): int {
    if es == [] then 0
    else match es[|es| - 1] {
      case Failure(at, _) => at
      case Reset => 0
      case _ => LastFailureAt(es[..|es| - 1])
    }
  }

  function LastErrorOf(es: seq<Event>): string {
    if es == [] then ""
    else match es[|es| - 1] {
      case Failure(_, error) => error
      case Reset => ""
      case _ => LastErrorOf(es[..|es| - 1])
    }
  }

  function LastSuccessAt(es: seq<Event>): int {
    if es == [] then 0
    else match es[|es| - 1] {
      case Success(at) => at
      case Reset => 0
      case _ => LastSuccessAt(es[..|es| - 1])
    }
  }

  lemma {:induction false} RecordFromHistory(es: seq<Event>, cooldown: int)
    ensures var h := After(FRESH, es, cooldown);
            h.lastFailure == LastFailureAt(es) && h.lastError == LastErrorOf(es) && h.lastSuccess == LastSuccessAt(es)
  {
    hide Seconds;
    if es == [] {
    } else {
      RecordFromHistory(es[..|es| - 1], cooldown);
    }
  }

  /** No cooldown is in force: the provider has failed less than three times since its count was cleared, or a
      failing health check was reported last, which marks even an offline provider as merely degraded. */
  predicate Lifted(es: seq<Event>) {
    FailuresSince(es) < 3 || LastReport(es) == Some(Check(false))
  }

  /** After every run, requests pass at any time if and only if the history lifts the cooldown. */
  lemma AdmittedAtAnyTime(es: seq<Event>, cooldown: int)
    ensures (forall now :: Allows(After(FRESH, es, cooldown), now, cooldown)) <==> Lifted(es)
  {
    StatusFromHistory(es, cooldown);
    var h := After(FRESH, es, cooldown);
    if !Lifted(es) {
      var early := h.lastFailure - (if cooldown <= 0 then 1 - cooldown else 1) * TICKS_PER_SECOND;
      assert !Allows(h, early, cooldown);
    }
  }

  /** After every run, a request inside the cooldown of the last failure passes if and only if the history
      lifts it. */
  lemma AdmittedInsideCooldown(es: seq<Event>, now: int, cooldown: int)
    requires Seconds(now - After(FRESH, es, cooldown).lastFailure) < cooldown
    ensures Allows(After(FRESH, es, cooldown), now, cooldown) <==> Lifted(es)
  {
    hide Seconds;
    StatusFromHistory(es, cooldown);
  }

  // ---- spacing of admissions

  /** The event at position i is a request that was let through. */
  predicate Admitted(es: seq<Event>, i: nat, cooldown: int)
    requires i < |es|
  {
    es[i].Ask? && Allows(After(FRESH, es[..i], cooldown), es[i].at, cooldown)
  }

  predicate Timed(e: Event) {
    e.Ask? || e.Success? || e.Failure?
  }

  /** A clock that never runs backwards; health checks and resets carry no time. */
  predicate Monotone(es: seq<Event>) {
    forall i, j | 0 <= i < j < |es| && Timed(es[i]) && Timed(es[j]) :: es[i].at <= es[j].at
  }

  /** A record that is offline some time after an admission has failed at that admission's time or later. */
  lemma {:induction false} ReportedAfter(es: seq<Event>, i: nat, j: nat, cooldown: int)
    requires Monotone(es) && i < j <= |es| && Admitted(es, i, cooldown)
    ensures var h := After(FRESH, es[..j], cooldown);
            h.status.Offline? ==> h.lastFailure >= es[i].at
  {
    hide Seconds;
    assert es[..j][..j - 1] == es[..j - 1];
    assert After(FRESH, es[..j], cooldown) == Next(After(FRESH, es[..j - 1], cooldown), es[j - 1], cooldown);
    if j == i + 1 {
    } else {
      ReportedAfter(es, i, j - 1, cooldown);
    }
  }

  /** Over every run, a request that is let through comes at least a cooldown after every earlier admission,
      unless the history lifts the cooldown, in which case it would pass at any time. */
  lemma AdmissionsSpaced(es: seq<Event>, i: nat, j: nat, cooldown: int)
    requires Monotone(es) && i < j < |es| && Admitted(es, i, cooldown) && Admitted(es, j, cooldown)
    requires cooldown >= 0 && !Lifted(es[..j])
    ensures es[j].at - es[i].at >= cooldown * TICKS_PER_SECOND
  {
    StatusFromHistory(es[..j], cooldown);
    ReportedAfter(es, i, j, cooldown);
  }

  /** Three ways to admit two requests at once, right after the third failure: a failing health check, a passing
      one, and a reset. */
  lemma CooldownLifted(now: int, cooldown: int, relief: Event)
    requires cooldown > 0 && (relief.Check? || relief.Reset?)
    ensures var failed := [Failure(now, "down"), Failure(now, "down"), Failure(now, "down")];
            && !Allows(After(FRESH, failed, cooldown), now, cooldown)
            && var es := failed + [relief, Ask(now), Ask(now)];
               Admitted(es, 4, cooldown) && Admitted(es, 5, cooldown)
  {
    var failed := [Failure(now, "down"), Failure(now, "down"), Failure(now, "down")];
    var es := failed + [relief, Ask(now), Ask(now)];
    assert failed[..2] == [failed[0], failed[1]] && failed[..2][..1] == [failed[0]] && failed[..2][..1][..0] == [];
    assert FailuresSince(failed[..2][..1]) == 1 && FailuresSince(failed[..2]) == 2;
    AdmittedInsideCooldown(failed, now, cooldown);
    assert es[..4][..3] == failed && es[..5][..4] == es[..4];
    AdmittedAtAnyTime(es[..4], cooldown);
    AdmittedAtAnyTime(es[..5], cooldown);
  }

  /** After every run, an offline provider is asked again exactly when a full cooldown has passed since its
      last failure. */
  lemma {:induction false} OfflineUntilCooldown(es: seq<Event>, cooldown: int, now: int)
    requires cooldown >= 0
    ensures var h := After(FRESH, es, cooldown);
            h.status.Offline? && now >= h.lastFailure ==>
              (Allows(h, now, cooldown) <==> now - h.lastFailure >= cooldown * TICKS_PER_SECOND)
  {
    AlwaysConsistent(FRESH, es, cooldown);
  }

  /** After every run, a probe that fails reopens the breaker at once: no request passes before a full
      cooldown, and the first one after it passes. */
  lemma {:induction false} FailedProbeReopens(es: seq<Event>, failedAt: int, error: string, now: int, cooldown: int)
    requires After(FRESH, es, cooldown).status.HalfOpen? && now >= failedAt && cooldown >= 0
    ensures var h := After(FRESH, es + [Failure(failedAt, error)], cooldown);
            h.status.Offline? && (Allows(h, now, cooldown) <==> now - failedAt >= cooldown * TICKS_PER_SECOND)
  {
    AlwaysConsistent(FRESH, es, cooldown);
    assert (es + [Failure(failedAt, error)])[..|es|] == es;
  }

  // ---- how many requests are in flight

  type Thread = nat

  datatype System = System(health: Health, calling: set<Thread>, clock: int)

  datatype Action =
    | Begin(thread: Thread, at: int)
    | End(thread: Thread, ok: bool, at: int, error: string)
    | Inspect(healthy: bool, at: int)
    | Restore(at: int)

  predicate Enabled(s: System, a: Action) {
    a.at >= s.clock && (a.Begin? ==> a.thread !in s.calling) && (a.End? ==> a.thread in s.calling)
  }

  function Act(s: System, a: Action, cooldown: int): System {
    match a
    case Begin(t, at) =>
      System(Asked(s.health, at, cooldown),
             if Allows(s.health, at, cooldown) then s.calling + {t} else s.calling, at)
    case End(t, ok, at, error) =>
      System(if ok then Succeeded(s.health, at) else Failed(s.health, at, error), s.calling - {t}, at)
    case Inspect(healthy, at) => System(Checked(s.health, healthy), s.calling, at)
    case Restore(at) => System(FRESH, s.calling, at)
  }

  predicate IsRun(s: System, acts: seq<Action>, cooldown: int)
    decreases |acts|
  {
    acts == [] || (Enabled(s, acts[0]) && IsRun(Act(s, acts[0], cooldown), acts[1..], cooldown))
  }

  function Run(s: System, acts: seq<Action>, cooldown: int): System
    decreases |acts|
  {
    if acts == [] then s else Run(Act(s, acts[0], cooldown), acts[1..], cooldown)
  }

  /** Only requests begin and fail: no success, no health check and no reset. */
  predicate Quiet(acts: seq<Action>) {
    forall i | 0 <= i < |acts| :: acts[i].Begin? || (acts[i].End? && !acts[i].ok)
  }

  predicate Open(h: Health) {
    h.status.Offline? || h.status.HalfOpen?
  }

  /** While open, the only call in flight is the probe. */
  predicate OnlyProbe(s: System) {
    |s.calling| <= if s.health.status.HalfOpen? then 1 else 0
  }

  lemma {:induction false} ConsistentRun(s: System, acts: seq<Action>, cooldown: int)
    requires Consistent(s.health)
    ensures Consistent(Run(s, acts, cooldown).health)
    decreases |acts|
  {
    if acts == [] {
    } else {
      ConsistentRun(Act(s, acts[0], cooldown), acts[1..], cooldown);
    }
  }

  lemma {:induction false} OnlyProbeKept(s: System, acts: seq<Action>, cooldown: int)
    requires Consistent(s.health) && Open(s.health) && OnlyProbe(s)
    requires IsRun(s, acts, cooldown) && Quiet(acts)
    ensures var s' := Run(s, acts, cooldown); Consistent(s'.health) && Open(s'.health) && OnlyProbe(s')
    decreases |acts|
  {
    hide Seconds;
    if acts == [] {
    } else {
      OnlyProbeKept(Act(s, acts[0], cooldown), acts[1..], cooldown);
    }
  }

  lemma {:induction false} FreshThread(used: set<Thread>) returns (t: Thread)
    ensures t !in used && forall u | u in used :: u < t
  {
    if used == {} {
      t := 0;
    } else {
      var u :| u in used;
      t := FreshThread(used - {u});
      assert used == used - {u} + {u};
      if u >= t {
        t := u + 1;
      }
    }
  }

  /** From every consistent state, at most one request is in flight over every quiet interleaving if and only if
      the breaker is open and nothing but its probe is in flight. A straggler from before is enough for two,
      and so is a breaker that is not open. */
  lemma OneProbeAtATime(s: System, cooldown: int)
    requires Consistent(s.health)
    ensures (forall acts | IsRun(s, acts, cooldown) && Quiet(acts) :: |Run(s, acts, cooldown).calling| <= 1)
            <==> Open(s.health) && OnlyProbe(s)
  {
    if Open(s.health) && OnlyProbe(s) {
      forall acts | IsRun(s, acts, cooldown) && Quiet(acts)
        ensures |Run(s, acts, cooldown).calling| <= 1
      {
        OnlyProbeKept(s, acts, cooldown);
      }
    } else if s.health.status.HalfOpen? {
      var none: seq<Action> := [];
      assert IsRun(s, none, cooldown) && Quiet(none) && Run(s, none, cooldown) == s;
    } else if s.health.status.Offline? {
      ProbeJoinsStraggler(s, cooldown);
    } else {
      TwoBegin(s, cooldown);
    }
  }

  /** A success, a health check or a reset ends the protection at once, whatever its outcome: from there a quiet
      run has two calls in flight. */
  lemma ReliefAdmitsTwo(s: System, relief: Action, cooldown: int)
    requires Consistent(s.health) && !Quiet([relief])
    ensures !Open(Act(s, relief, cooldown).health)
    ensures exists acts :: IsRun(Act(s, relief, cooldown), acts, cooldown) && Quiet(acts)
                           && |Run(Act(s, relief, cooldown), acts, cooldown).calling| >= 2
  {
    assert !([relief][0].Begin? || ([relief][0].End? && !relief.ok));
    TwoBegin(Act(s, relief, cooldown), cooldown);
  }

  lemma ProbeJoinsStraggler(s: System, cooldown: int)
    requires Consistent(s.health) && s.health.status.Offline? && s.calling != {}
    ensures exists acts :: IsRun(s, acts, cooldown) && Quiet(acts) && |Run(s, acts, cooldown).calling| >= 2
  {
    var t := FreshThread(s.calling);
    var due := s.health.lastFailure + (if cooldown >= 0 then cooldown else 0) * TICKS_PER_SECOND;
    var at := if s.clock >= due then s.clock else due;
    var acts := [Begin(t, at)];
    assert Allows(s.health, at, cooldown);
    var s' := Act(s, acts[0], cooldown);
    assert acts[1..] == [] && Run(s', acts[1..], cooldown) == s';
    assert IsRun(s, acts, cooldown);
    var u :| u in s.calling;
    assert {u, t} <= s'.calling && |{u, t}| == 2;
    SubsetSize({u, t}, s'.calling);
  }

  lemma TwoBegin(s: System, cooldown: int)
    requires !Open(s.health)
    ensures exists acts :: IsRun(s, acts, cooldown) && Quiet(acts) && |Run(s, acts, cooldown).calling| >= 2
  {
    hide Seconds;
    var t := FreshThread(s.calling);
    var u := FreshThread(s.calling + {t});
    var acts := [Begin(t, s.clock), Begin(u, s.clock)];
    var s1 := Act(s, acts[0], cooldown);
    var s2 := Act(s1, acts[1], cooldown);
    assert acts[1..] == [acts[1]] && acts[1..][1..] == [];
    assert Run(s2, [], cooldown) == s2 && IsRun(s2, [], cooldown);
    assert Run(s1, acts[1..], cooldown) == s2 && IsRun(s1, acts[1..], cooldown);
    assert Run(s, acts, cooldown) == s2 && IsRun(s, acts, cooldown);
    assert {u, t} <= s2.calling && |{u, t}| == 2;
    SubsetSize({u, t}, s2.calling);
  }

  lemma {:induction false} SubsetSize(a: set<Thread>, b: set<Thread>)
    requires a <= b
    ensures |a| <= |b|
  {
    if a == {} {
    } else {
      var x :| x in a;
      SubsetSize(a - {x}, b - {x});
    }
  }
}
