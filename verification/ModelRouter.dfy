/** The model router: the registry, the breakers and the ledgers it keeps, and the fallback loop.
    Clock readings and provider answers are inputs. */
module ModelRouters {
  import opened CircuitBreaker
  import opened Clock
  import opened MetricsLedger
  import opened FallbackRouting
  import opened Sequences

  class ModelRouter {
    var providers: set<string>
    var fallbackChain: seq<string>
    var healthMap: map<string, Health>
    var metricsMap: map<string, Ledger>
    var globalMetrics: Ledger
    var cooldownSeconds: int
    /** What has happened to each provider: requests, replies, health checks and resets. */
    ghost var history: map<string, seq<Event>>

    /** Every health record is what the breaker makes of the provider's history. */
    ghost predicate Valid()
      reads this
    {
      Remembers(healthMap, history, cooldownSeconds)
    }

    function BooksNow(): Books
      reads this
    {
      Books(healthMap, metricsMap, globalMetrics)
    }

    constructor ()
      ensures Valid() && history == map[]
      ensures providers == {} && BooksNow() == Books(map[], map[], EMPTY) && cooldownSeconds == 30
      ensures fallbackChain == ["lm_studio", "ollama", "openrouter", "openai", "anthropic"]
    {
      providers, healthMap, metricsMap, globalMetrics, cooldownSeconds := {}, map[], map[], EMPTY, 30;
      fallbackChain := ["lm_studio", "ollama", "openrouter", "openai", "anthropic"];
      history := map[];
    }

    method RegisterProvider(name: string)
      requires Valid()
      modifies this`providers, this`healthMap, this`history
      ensures Valid() && history == Extend(old(history), name, Reset)
      ensures providers == old(providers) + {name} && healthMap == old(healthMap)[name := FRESH]
    {
      hide Remembers, Extend;
      Remembered(healthMap, history, cooldownSeconds, name, Reset, FRESH);
      providers := providers + {name};
      healthMap := healthMap[name := FRESH];
      history := Extend(history, name, Reset);
    }

    method ResetHealth(name: string)
      requires Valid()
      modifies this`healthMap, this`history
      ensures Valid() && history == Extend(old(history), name, Reset)
      ensures healthMap == old(healthMap)[name := FRESH]
    {
      hide Remembers, Extend;
      Remembered(healthMap, history, cooldownSeconds, name, Reset, FRESH);
      healthMap := healthMap[name := FRESH];
      history := Extend(history, name, Reset);
    }

    /** A provider without a record is let through, and no record is made for it. Inside the cooldown of the
        last failure a request passes if and only if the provider's history lifts the cooldown. */
    method ShouldAttempt(name: string, now: int) returns (ok: bool)
      requires Valid()
      modifies this`healthMap, this`history
      ensures Valid() && history == Extend(old(history), name, Ask(now))
      ensures ok == Allows(HealthOf(old(healthMap), name), now, cooldownSeconds)
      ensures HealthOf(healthMap, name) == Next(HealthOf(old(healthMap), name), Ask(now), cooldownSeconds)
      ensures BooksNow() == AfterAsking(old(BooksNow()), name, now, cooldownSeconds)
      ensures var es := HistoryIn(old(history), name);
              Seconds(now - LastFailureAt(es)) < cooldownSeconds ==> (ok <==> Lifted(es))
    {
      hide Remembers, Extend, HistoryIn, Seconds, Lifted, LastFailureAt;
      InsideCooldown(healthMap, history, cooldownSeconds, name, now);
      Remembered(healthMap, history, cooldownSeconds, name, Ask(now), Asked(HealthOf(healthMap, name), now, cooldownSeconds));
      history := Extend(history, name, Ask(now));
      if name !in healthMap {
        return true;
      }
      var h := healthMap[name];
      if h.status == Offline {
        if Seconds(now - h.lastFailure) >= cooldownSeconds {
          if !h.probeInFlight {
            healthMap := healthMap[name := h.(probeInFlight := true, status := HalfOpen)];
            return true;
          }
        }
        assert healthMap[name := h] == healthMap;
        return false;
      }
      assert healthMap[name := h] == healthMap;
      return h.status != HalfOpen;
    }

    /** The breaker closes: the record is that of the history with the success added. */
    method RecordSuccess(name: string, r: Reply, now: int)
      requires Valid() && r.ok
      modifies this`healthMap, this`metricsMap, this`globalMetrics, this`history
      ensures Valid() && history == Extend(old(history), name, Event.Success(now))
      ensures HealthOf(healthMap, name) == Next(HealthOf(old(healthMap), name), Event.Success(now), cooldownSeconds)
      ensures BooksNow() == AfterReply(old(BooksNow()), name, r, now)
    {
      hide Remembers, Extend, SuccessRecorded;
      var h := HealthOf(healthMap, name);
      Remembered(healthMap, history, cooldownSeconds, name, Event.Success(now), Succeeded(h, now));
      healthMap := healthMap[name := h.(status := Healthy, failures := 0, probeInFlight := false, lastSuccess := now)];
      metricsMap := metricsMap[name := SuccessRecorded(LedgerOf(metricsMap, name), r.usage)];
      globalMetrics := SuccessRecorded(globalMetrics, r.usage);
      history := Extend(history, name, Event.Success(now));
    }

    /** The record is that of the history with the failure added, and so offline from the third failure on. */
    method RecordFailure(name: string, r: Reply, now: int)
      requires Valid() && !r.ok
      modifies this`healthMap, this`metricsMap, this`globalMetrics, this`history
      ensures Valid() && history == Extend(old(history), name, Event.Failure(now, r.error))
      ensures HealthOf(healthMap, name) == Next(HealthOf(old(healthMap), name), Event.Failure(now, r.error), cooldownSeconds)
      ensures HealthOf(healthMap, name).status == if FailuresSince(HistoryIn(old(history), name)) >= 2 then Offline else Degraded
      ensures BooksNow() == AfterReply(old(BooksNow()), name, r, now)
    {
      hide Remembers, Extend, HistoryIn, FailuresSince, FailureRecorded;
      FailuresRemembered(healthMap, history, cooldownSeconds, name);
      var h := HealthOf(healthMap, name);
      Remembered(healthMap, history, cooldownSeconds, name, Event.Failure(now, r.error), Failed(h, now, r.error));
      h := h.(failures := h.failures + 1, lastFailure := now, lastError := r.error, probeInFlight := false);
      h := h.(status := if h.failures >= 3 then Offline else Degraded);
      healthMap := healthMap[name := h];
      metricsMap := metricsMap[name := FailureRecorded(LedgerOf(metricsMap, name))];
      globalMetrics := FailureRecorded(globalMetrics);
      history := Extend(history, name, Event.Failure(now, r.error));
    }

    /** `answers` gives what each registered provider reports about itself. */
    method CheckHealthAll(answers: map<string, bool>)
      requires Valid() && providers <= answers.Keys
      modifies this`healthMap, this`history
      ensures Valid() && healthMap.Keys == old(healthMap).Keys + providers
      ensures forall p | p in providers :: HistoryIn(history, p) == HistoryIn(old(history), p) + [Check(answers[p])]
      ensures forall p | p !in providers :: HistoryIn(history, p) == HistoryIn(old(history), p)
      ensures forall p | p in healthMap && p !in providers :: healthMap[p] == old(healthMap)[p]
    {
      hide Remembers, HistoryIn, Extend;
      var rest := providers;
      while rest != {}
        invariant Valid() && rest <= providers && healthMap.Keys == old(healthMap).Keys + (providers - rest)
        invariant forall p | p in providers - rest :: HistoryIn(history, p) == HistoryIn(old(history), p) + [Check(answers[p])]
        invariant forall p | p !in providers - rest :: HistoryIn(history, p) == HistoryIn(old(history), p)
        invariant forall p | p in healthMap && p !in providers :: healthMap[p] == old(healthMap)[p]
      {
        var p :| p in rest;
        var h := HealthOf(healthMap, p);
        Remembered(healthMap, history, cooldownSeconds, p, Check(answers[p]), Checked(h, answers[p]));
        Extended(history, p, Check(answers[p]));
        if answers[p] {
          h := h.(status := Healthy, failures := 0, probeInFlight := false);
        } else {
          h := h.(status := Degraded);
        }
        healthMap := healthMap[p := h];
        history := Extend(history, p, Check(answers[p]));
        rest := rest - {p};
      }
    }

    method BuildChain(initial: string) returns (chain: seq<string>)
      ensures chain == Chain(initial, fallbackChain) && |chain| <= |fallbackChain| + 1
    {
      chain := [initial];
      for i := 0 to |fallbackChain|
        invariant chain == Chain(initial, fallbackChain[..i]) && |chain| <= i + 1
      {
        assert fallbackChain[..i + 1][..i] == fallbackChain[..i];
        if fallbackChain[i] != initial {
          chain := chain + [fallbackChain[i]];
        }
      }
      assert fallbackChain[..|fallbackChain|] == fallbackChain;
    }

    /** The chain, tried in order. The reply is that of the first position that is let through, registered
        and successful; nothing after it is contacted; failure means that there is no such position. Each
        provider's history grows by the events that the visited positions are for it. */
    method RouteWithFallback(initial: string, turns: seq<Turn>) returns (reply: Reply, contacted: seq<nat>, ghost visited: nat)
      requires Valid() && |turns| > |fallbackChain|
      modifies this`healthMap, this`metricsMap, this`globalMetrics, this`history
      ensures Valid()
      ensures var r := Routing(old(BooksNow()), Chain(initial, fallbackChain), turns, providers, cooldownSeconds);
              && r.WellFormed() && r.Outcome(reply, contacted, BooksNow())
              && visited <= |r.chain| && BooksNow() == r.Before(visited) && Lived(old(history), history, r, visited)
    {
      hide Allows, AfterAsking, AfterReply, Chain, Remembers, HistoryIn, Extend, Lifted, LastFailureAt, FailuresSince, Seconds,
           Lived, Next, Routing.EventsOf;
      var chain := BuildChain(initial);
      ghost var r := Routing(BooksNow(), chain, turns, providers, cooldownSeconds);
      var lastError := "";
      contacted := [];
      visited := 0;
      NothingYet(history, r);
      for i := 0 to |chain|
        invariant Valid() && BooksNow() == r.Before(i) && contacted == r.Contacted(i) && r.NoneServes(i)
        invariant lastError == r.LastError(i) && visited == i
        invariant Lived(old(history), history, r, i)
      {
        visited := i + 1;
        LivedOn(old(history), history, r, i);
        var ok := ShouldAttempt(chain[i], turns[i].askedAt);
        if !ok || chain[i] !in providers {
          continue;
        }
        contacted := contacted + [i];
        reply := turns[i].reply;
        if reply.ok {
          RecordSuccess(chain[i], reply, turns[i].answeredAt);
          assert r.Serves(i) && r.NoneServes(i) && BooksNow() == r.Before(i + 1) && contacted == r.Contacted(i + 1);
          return;
        }
        lastError := reply.error;
        RecordFailure(chain[i], reply, turns[i].answeredAt);
      }
      reply := Reply(false, "", "All providers in fallback chain exhausted. Last error: " + lastError, Usage(0, 0, 0, 0.0));
    }
  }

  // ---- health records and histories

  ghost function HistoryIn(history: map<string, seq<Event>>, p: string): seq<Event> {
    if p in history then history[p] else []
  }

  ghost function Extend(history: map<string, seq<Event>>, p: string, e: Event): map<string, seq<Event>> {
    history[p := HistoryIn(history, p) + [e]]
  }

  ghost predicate Remembers(health: map<string, Health>, history: map<string, seq<Event>>, cooldown: int) {
    forall p :: HealthOf(health, p) == After(FRESH, HistoryIn(history, p), cooldown)
  }

  lemma Extended(history: map<string, seq<Event>>, p: string, e: Event)
    ensures forall q :: HistoryIn(Extend(history, p, e), q) ==
                        if q == p then HistoryIn(history, q) + [e] else HistoryIn(history, q)
  {
  }

  /** An event that changes the record as the breaker does keeps records and histories together. A provider
      without a record may go on without one if the record would be fresh. */
  lemma Remembered(health: map<string, Health>, history: map<string, seq<Event>>, cooldown: int, p: string, e: Event, h: Health)
    requires Remembers(health, history, cooldown) && h == Next(HealthOf(health, p), e, cooldown)
    ensures Remembers(health[p := h], Extend(history, p, e), cooldown)
    ensures p !in health && h == FRESH ==> Remembers(health, Extend(history, p, e), cooldown)
  {
    hide After, Next, Extend;
    Extended(history, p, e);
    AfterOneMore(HistoryIn(history, p), e, cooldown);
  }

  lemma AfterOneMore(es: seq<Event>, e: Event, cooldown: int)
    ensures After(FRESH, es + [e], cooldown) == Next(After(FRESH, es, cooldown), e, cooldown)
  {
    assert (es + [e])[..|es|] == es;
  }

  lemma FailuresRemembered(health: map<string, Health>, history: map<string, seq<Event>>, cooldown: int, p: string)
    requires Remembers(health, history, cooldown)
    ensures HealthOf(health, p).failures == FailuresSince(HistoryIn(history, p))
  {
    hide After, HistoryIn, HealthOf, FailuresSince;
    StatusFromHistory(HistoryIn(history, p), cooldown);
  }

  /** The histories have grown by what the first n positions are for each provider. */
  ghost predicate Lived(before: map<string, seq<Event>>, history: map<string, seq<Event>>, r: Routing, n: nat)
    requires r.WellFormed() && n <= |r.chain|
  {
    forall p :: HistoryIn(history, p) == HistoryIn(before, p) + r.EventsOf(p, n)
  }

  lemma NothingYet(history: map<string, seq<Event>>, r: Routing)
    requires r.WellFormed()
    ensures Lived(history, history, r, 0)
  {
  }

  /** One more position: the question, and the answer if it is contacted. */
  lemma LivedOn(before: map<string, seq<Event>>, history: map<string, seq<Event>>, r: Routing, i: nat)
    requires r.WellFormed() && i < |r.chain| && Lived(before, history, r, i)
    ensures var p, turn := r.chain[i], r.turns[i];
            var asked := Extend(history, p, Ask(turn.askedAt));
            if !r.Dispatched(i) then Lived(before, asked, r, i + 1)
            else if turn.reply.ok then Lived(before, Extend(asked, p, Event.Success(turn.answeredAt)), r, i + 1)
            else Lived(before, Extend(asked, p, Event.Failure(turn.answeredAt, turn.reply.error)), r, i + 1)
  {
    hide Extend, HistoryIn, Routing.Dispatched, Routing.EventsOf;
    var p, turn := r.chain[i], r.turns[i];
    var asked := Extend(history, p, Ask(turn.askedAt));
    var answer := if turn.reply.ok then Event.Success(turn.answeredAt) else Event.Failure(turn.answeredAt, turn.reply.error);
    NextEvents(r, i);
    Extended(history, p, Ask(turn.askedAt));
    Extended(asked, p, answer);
    assert HistoryIn(history, p) == HistoryIn(before, p) + r.EventsOf(p, i);
    Regroup(HistoryIn(before, p), r.EventsOf(p, i), [Ask(turn.askedAt)]);
    Regroup(HistoryIn(before, p), r.EventsOf(p, i) + [Ask(turn.askedAt)], [answer]);
  }

  lemma NextEvents(r: Routing, i: nat)
    requires r.WellFormed() && i < |r.chain|
    ensures var p, turn := r.chain[i], r.turns[i];
            var answer := if turn.reply.ok then Event.Success(turn.answeredAt) else Event.Failure(turn.answeredAt, turn.reply.error);
            && (forall q | q != p :: r.EventsOf(q, i + 1) == r.EventsOf(q, i))
            && r.EventsOf(p, i + 1) == (if r.Dispatched(i) then r.EventsOf(p, i) + [Ask(turn.askedAt)] + [answer]
                                        else r.EventsOf(p, i) + [Ask(turn.askedAt)])
  {
    hide Allows, After, Routing.Dispatched;
    r.HealthIsHistory(r.chain[i], i);
    r.DispatchedWhenAdmitted(i);
  }

  lemma InsideCooldown(health: map<string, Health>, history: map<string, seq<Event>>, cooldown: int, p: string, now: int)
    requires Remembers(health, history, cooldown)
    ensures var es := HistoryIn(history, p);
            Seconds(now - LastFailureAt(es)) < cooldown ==> (Allows(HealthOf(health, p), now, cooldown) <==> Lifted(es))
  {
    hide Seconds, Lifted, After, LastFailureAt, HistoryIn, HealthOf, Allows;
    var es := HistoryIn(history, p);
    RecordFromHistory(es, cooldown);
    assert HealthOf(health, p) == After(FRESH, es, cooldown);
    if Seconds(now - LastFailureAt(es)) < cooldown {
      AdmittedInsideCooldown(es, now, cooldown);
    }
  }
}
