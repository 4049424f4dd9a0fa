/** One routed request as a value: the chain of providers, what each would answer, and the books
    (health records and ledgers) after each position of the chain has been visited. */
module FallbackRouting {
  import opened CircuitBreaker
  import opened MetricsLedger
  import opened Sequences
  import opened Wrappers

  datatype Reply = Reply(ok: bool, content: string, error: string, usage: Usage)

  /** What happens at one chain position: when the breaker is asked, what the provider would answer, and
      when the answer is recorded. */
  datatype Turn = Turn(askedAt: int, reply: Reply, answeredAt: int)

  datatype Books = Books(health: map<string, Health>, metrics: map<string, Ledger>, global: Ledger)

  function HealthOf(m: map<string, Health>, p: string): Health {
    if p in m then m[p] else FRESH
  }

  // ---- the chain

  function Chain(initial: string, fallback: seq<string>): seq<string> {
    [initial] + Without(fallback, initial)
  }

  lemma {:induction false} WithoutCounts(names: seq<string>, p: string)
    ensures multiset(Without(names, p)) == multiset(names)[p := 0]
  {
    if names == [] {
    } else {
      var most, last := names[..|names| - 1], names[|names| - 1];
      WithoutCounts(most, p);
      assert names == most + [last];
    }
  }

  /** The initial provider occurs once, in front; the others follow as often as they are listed, and in
      the listed order: what precedes a place in the list precedes what follows it. */
  lemma ChainShape(initial: string, fallback: seq<string>)
    ensures Chain(initial, fallback)[0] == initial && initial !in Chain(initial, fallback)[1..]
    ensures multiset(Chain(initial, fallback)[1..]) == multiset(fallback)[initial := 0]
    ensures forall i | 0 <= i <= |fallback| ::
              Chain(initial, fallback)[1..] == Without(fallback[..i], initial) + Without(fallback[i..], initial)
  {
    var rest := Without(fallback, initial);
    assert Chain(initial, fallback)[1..] == rest;
    WithoutCounts(fallback, initial);
    assert multiset(rest)[initial] == 0;
    forall i | 0 <= i <= |fallback|
      ensures rest == Without(fallback[..i], initial) + Without(fallback[i..], initial)
    {
      WithoutAppend(fallback[..i], fallback[i..], initial);
      assert fallback == fallback[..i] + fallback[i..];
    }
  }

  // ---- one position

  function SuccessRecorded(l: Ledger, u: Usage): Ledger {
    Ledger(Plus(l.requests, 1), Plus(l.successes, 1), l.failures, Plus(l.prompt, u.prompt),
           Plus(l.completion, u.completion), Plus(l.tokens, u.tokens), l.latency + u.latency)
  }

  function FailureRecorded(l: Ledger): Ledger {
    l.(requests := Plus(l.requests, 1), failures := Plus(l.failures, 1))
  }

  function AfterAsking(b: Books, p: string, at: int, cooldown: int): Books {
    if p in b.health then b.(health := b.health[p := Asked(b.health[p], at, cooldown)]) else b
  }

  function AfterReply(b: Books, p: string, r: Reply, at: int): Books {
    if r.ok then
      Books(b.health[p := Succeeded(HealthOf(b.health, p), at)],
            b.metrics[p := SuccessRecorded(LedgerOf(b.metrics, p), r.usage)], SuccessRecorded(b.global, r.usage))
    else
      Books(b.health[p := Failed(HealthOf(b.health, p), at, r.error)],
            b.metrics[p := FailureRecorded(LedgerOf(b.metrics, p))], FailureRecorded(b.global))
  }

  lemma AddedHolds(l: Ledger, l': Ledger, f: Field, a: Amount, d: Amount)
    requires Holds(l, f, a) && Get(l', f) == Plus(Get(l, f), d.count) && l'.latency == l.latency + d.latency
    ensures Holds(l', f, Add(a, d))
  {
    WrapMix(a.count, d.count, d.count);
  }

  /** Recording a reply in one go adds what its atomic steps add together. */
  lemma RecordedAtOnce(l: Ledger, p: string, u: Usage, f: Field, a: Amount)
    requires Holds(l, f, a)
    ensures Holds(SuccessRecorded(l, u), f, Add(a, Contribution(MetricsLedger.Success(p, u), DONE, f)))
    ensures Holds(FailureRecorded(l), f, Add(a, Contribution(MetricsLedger.Failure(p), DONE, f)))
  {
    hide Holds;
    PlusZero(Get(l, f));
    AddedHolds(l, SuccessRecorded(l, u), f, a, Contribution(MetricsLedger.Success(p, u), DONE, f));
    AddedHolds(l, FailureRecorded(l), f, a, Contribution(MetricsLedger.Failure(p), DONE, f));
  }

  lemma RecordedOnTop(l: Ledger, op: Op, f: Field, a: Amount, ops: seq<Op>)
    requires Holds(l, f, Add(a, Recorded(ops, f)))
    ensures op.Success? ==> Holds(SuccessRecorded(l, op.usage), f, Add(a, Recorded(ops + [op], f)))
    ensures op.Failure? ==> Holds(FailureRecorded(l), f, Add(a, Recorded(ops + [op], f)))
  {
    hide Holds, Contribution;
    assert (ops + [op])[..|ops|] == ops;
    RecordedAtOnce(l, op.provider, if op.Success? then op.usage else Usage(0, 0, 0, 0.0), f, Add(a, Recorded(ops, f)));
  }

  lemma NothingRecorded(a: Amount, f: Field)
    ensures Add(a, Recorded([], f)) == a
  {
  }

  lemma PlusZero(w: Word)
    ensures Plus(w, 0) == w
  {
  }

  // ---- a whole request

  /** A request against a router: the books at its start, the chain, the turns by chain position, the
      registered providers, and the cooldown. */
  datatype Routing = Routing(start: Books, chain: seq<string>, turns: seq<Turn>, providers: set<string>, cooldown: int) {
    predicate WellFormed() {
      |chain| <= |turns|
    }

    predicate Dispatched(i: nat)
      requires WellFormed() && i < |chain|
      decreases i, 1
    {
      Allows(HealthOf(Before(i).health, chain[i]), turns[i].askedAt, cooldown) && chain[i] in providers
    }

    /** The books once the first n positions have been visited. */
    function Before(n: nat): Books
      requires WellFormed() && n <= |chain|
      decreases n, 0
    {
      if n == 0 then start
      else
        var b := AfterAsking(Before(n - 1), chain[n - 1], turns[n - 1].askedAt, cooldown);
        if Dispatched(n - 1) then AfterReply(b, chain[n - 1], turns[n - 1].reply, turns[n - 1].answeredAt) else b
    }

    predicate Serves(i: nat)
      requires WellFormed() && i < |chain|
    {
      Dispatched(i) && turns[i].reply.ok
    }

    /** The positions contacted among the first n. */
    function Contacted(n: nat): (at: seq<nat>)
      requires WellFormed() && n <= |chain|
      ensures forall i | 0 <= i < |at| :: at[i] < n
    {
      if n == 0 then [] else if Dispatched(n - 1) then Contacted(n - 1) + [n - 1] else Contacted(n - 1)
    }

    /** Failed dispatches to one provider among the first n positions. */
    function FailuresOf(p: string, n: nat): nat
      requires WellFormed() && n <= |chain|
    {
      if n == 0 then 0
      else FailuresOf(p, n - 1) + if Dispatched(n - 1) && chain[n - 1] == p && !turns[n - 1].reply.ok then 1 else 0
    }

    function LastError(n: nat): string
      requires WellFormed() && n <= |chain|
    {
      if n == 0 then "" else if Dispatched(n - 1) then turns[n - 1].reply.error else LastError(n - 1)
    }

    predicate NoneServes(n: nat)
      requires WellFormed() && n <= |chain|
    {
      forall i | 0 <= i < n :: !Serves(i)
    }

    /** The reply is that of the first position that serves, and only positions up to it are visited; if
        none serves, all have been visited and the last error is reported. */
    predicate Outcome(reply: Reply, contacted: seq<nat>, books: Books)
      requires WellFormed()
    {
      if reply.ok then
        exists i | 0 <= i < |chain| ::
          && Serves(i) && NoneServes(i) && reply == turns[i].reply
          && contacted == Contacted(i + 1) && books == Before(i + 1)
      else
        && NoneServes(|chain|)
        && contacted == Contacted(|chain|) && books == Before(|chain|)
        && reply.error == "All providers in fallback chain exhausted. Last error: " + LastError(|chain|)
    }

    /** The events that the first n positions are for one provider: it is asked once at each position that names
        it, and answers if its breaker lets the request through and it is registered. */
    function EventsOf(p: string, n: nat): seq<Event>
      requires WellFormed() && n <= |chain|
      decreases n, 0
    {
      if n == 0 then []
      else if chain[n - 1] != p then EventsOf(p, n - 1)
      else EventsOf(p, n - 1) + EventsAt(HistoryAt(p, n - 1), p, turns[n - 1])
    }

    function HistoryAt(p: string, n: nat): Health
      requires WellFormed() && n <= |chain|
      decreases n, 1
    {
      After(HealthOf(start.health, p), EventsOf(p, n), cooldown)
    }

    function EventsAt(h: Health, p: string, turn: Turn): seq<Event> {
      [Ask(turn.askedAt)]
      + (if !Allows(h, turn.askedAt, cooldown) || p !in providers then []
         else if turn.reply.ok then [Event.Success(turn.answeredAt)]
         else [Event.Failure(turn.answeredAt, turn.reply.error)])
    }

    /** After any prefix of the chain, every provider's health record is what its breaker makes of the events
        that concern it. */
    lemma {:induction false} HealthIsHistory(p: string, n: nat)
      requires WellFormed() && n <= |chain|
      ensures HealthOf(Before(n).health, p) == HistoryAt(p, n)
    {
      hide Allows, Asked, Succeeded, Failed;
      if n == 0 {
      } else {
        HealthIsHistory(p, n - 1);
        StepIsEvents(n - 1, p);
        if chain[n - 1] == p {
          AfterAppend(HealthOf(start.health, p), EventsOf(p, n - 1), EventsAt(HistoryAt(p, n - 1), p, turns[n - 1]), cooldown);
        }
      }
    }

    lemma StepIsEvents(i: nat, p: string)
      requires WellFormed() && i < |chain|
      ensures HealthOf(Before(i + 1).health, p) ==
              if chain[i] == p then After(HealthOf(Before(i).health, p), EventsAt(HealthOf(Before(i).health, p), p, turns[i]), cooldown)
              else HealthOf(Before(i).health, p)
    {
      hide Allows;
      var h, turn := HealthOf(Before(i).health, p), turns[i];
      var es := EventsAt(h, p, turn);
      assert After(h, [Ask(turn.askedAt)], cooldown) == Asked(h, turn.askedAt, cooldown) by {
        assert [Ask(turn.askedAt)][..0] == [];
        assert After(h, [], cooldown) == h;
      }
      if |es| == 2 {
        assert es[..1] == [Ask(turn.askedAt)];
        assert After(h, es, cooldown) == Next(After(h, es[..1], cooldown), es[1], cooldown);
      }
    }

    /** A position is contacted if and only if its provider is registered and its breaker, after all events
        before, lets the request through. */
    lemma DispatchedWhenAdmitted(i: nat)
      requires WellFormed() && i < |chain|
      ensures Dispatched(i) <==> chain[i] in providers && Allows(HistoryAt(chain[i], i), turns[i].askedAt, cooldown)
    {
      HealthIsHistory(chain[i], i);
    }

    function OpAt(i: nat): Op
      requires WellFormed() && i < |chain|
    {
      if turns[i].reply.ok then MetricsLedger.Success(chain[i], turns[i].reply.usage) else MetricsLedger.Failure(chain[i])
    }

    /** The positions contacted, in order: those that are admitted by a breaker with that history, and registered. */
    lemma {:induction false} ContactedAre(n: nat)
      requires WellFormed() && n <= |chain|
      ensures forall i: nat :: i in Contacted(n) <==>
                i < n && chain[i] in providers && Allows(HistoryAt(chain[i], i), turns[i].askedAt, cooldown)
      ensures forall i, j | 0 <= i < j < |Contacted(n)| :: Contacted(n)[i] < Contacted(n)[j]
      ensures LastError(n) == if Contacted(n) == [] then "" else turns[Contacted(n)[|Contacted(n)| - 1]].reply.error
    {
      hide Allows, Routing.Before, Routing.Dispatched, Routing.HistoryAt, Routing.EventsOf;
      if n == 0 {
      } else {
        ContactedAre(n - 1);
        DispatchedWhenAdmitted(n - 1);
      }
    }

    /** An outcome in terms of the positions contacted: all but the last have failed; the reply is that of the
        last if this one succeeded, else everyone admitted was contacted, in vain, and the last error is passed on. */
    lemma OutcomeMeans(reply: Reply, contacted: seq<nat>, books: Books)
      requires WellFormed() && Outcome(reply, contacted, books)
      ensures forall i | 0 <= i < |contacted| - 1 :: contacted[i] < |chain| && !turns[contacted[i]].reply.ok
      ensures reply.ok ==> contacted != [] && contacted[|contacted| - 1] < |chain| && reply == turns[contacted[|contacted| - 1]].reply
      ensures !reply.ok ==>
                && (forall i: nat :: i in contacted <==>
                      i < |chain| && chain[i] in providers && Allows(HistoryAt(chain[i], i), turns[i].askedAt, cooldown))
                && (forall i | 0 <= i < |contacted| :: !turns[contacted[i]].reply.ok)
                && reply.error == "All providers in fallback chain exhausted. Last error: " +
                                  if contacted == [] then "" else turns[contacted[|contacted| - 1]].reply.error
    {
      hide Allows, Routing.Before, Routing.Dispatched, Routing.HistoryAt, Routing.EventsOf, Routing.Contacted, Routing.LastError;
      var n := |chain|;
      if reply.ok {
        var i :| 0 <= i < |chain| && Serves(i) && NoneServes(i) && reply == turns[i].reply && contacted == Contacted(i + 1);
        n := i;
        ContactedNext(i);
      }
      ContactedAre(n);
      forall k | 0 <= k < |Contacted(n)|
        ensures Contacted(n)[k] < n && !turns[Contacted(n)[k]].reply.ok
      {
        var i := Contacted(n)[k];
        assert i in Contacted(n);
        DispatchedWhenAdmitted(i);
        assert !Serves(i);
      }
    }

    lemma ContactedNext(i: nat)
      requires WellFormed() && i < |chain|
      ensures Contacted(i + 1) == if Dispatched(i) then Contacted(i) + [i] else Contacted(i)
    {
    }

    /** What the first n positions record for one provider, or in all. */
    function OpsOf(p: Option<string>, n: nat): seq<Op>
      requires WellFormed() && n <= |chain|
    {
      if n == 0 then []
      else if Dispatched(n - 1) && (p == None || p == Some(chain[n - 1])) then OpsOf(p, n - 1) + [OpAt(n - 1)]
      else OpsOf(p, n - 1)
    }

    /** Every ledger holds what it held before, and the full record of the dispatches that concern it. */
    lemma {:induction false} LedgersRecordDispatches(p: string, n: nat, f: Field, a: Amount, g: Amount)
      requires WellFormed() && n <= |chain|
      requires Holds(LedgerOf(start.metrics, p), f, a) && Holds(start.global, f, g)
      ensures Holds(LedgerOf(Before(n).metrics, p), f, Add(a, Recorded(OpsOf(Some(p), n), f)))
      ensures Holds(Before(n).global, f, Add(g, Recorded(OpsOf(None, n), f)))
    {
      hide Holds, Allows, Recorded, SuccessRecorded, FailureRecorded, Routing.Before, Routing.Dispatched;
      if n == 0 {
        NothingRecorded(a, f);
        NothingRecorded(g, f);
        StartsBefore();
      } else {
        LedgersRecordDispatches(p, n - 1, f, a, g);
        LedgerStep(n - 1, p);
        RecordedOnTop(LedgerOf(Before(n - 1).metrics, p), OpAt(n - 1), f, a, OpsOf(Some(p), n - 1));
        RecordedOnTop(Before(n - 1).global, OpAt(n - 1), f, g, OpsOf(None, n - 1));
      }
    }

    lemma StartsBefore()
      requires WellFormed()
      ensures Before(0) == start
    {
    }

    /** The ledgers after one more position. */
    lemma LedgerStep(i: nat, p: string)
      requires WellFormed() && i < |chain|
      ensures var b, l := Before(i + 1), LedgerOf(Before(i).metrics, p);
              && LedgerOf(b.metrics, p) == (if !Dispatched(i) || chain[i] != p then l
                                            else if turns[i].reply.ok then SuccessRecorded(l, turns[i].reply.usage)
                                            else FailureRecorded(l))
              && b.global == (if !Dispatched(i) then Before(i).global
                              else if turns[i].reply.ok then SuccessRecorded(Before(i).global, turns[i].reply.usage)
                              else FailureRecorded(Before(i).global))
    {
      hide Allows, Asked, SuccessRecorded, FailureRecorded;
    }

    /** As long as nobody has served, each dispatch has recorded exactly one failure in the health record
        of the provider it went to. */
    lemma {:induction false} OneFailurePerDispatch(p: string, n: nat)
      requires WellFormed() && n <= |chain| && NoneServes(n)
      ensures HealthOf(Before(n).health, p).failures == HealthOf(start.health, p).failures + FailuresOf(p, n)
    {
      if n == 0 {
      } else {
        OneFailurePerDispatch(p, n - 1);
        assert !Serves(n - 1);
      }
    }

    /** Likewise in the ledger of that provider. */
    lemma {:induction false} OneLedgerFailurePerDispatch(p: string, n: nat)
      requires WellFormed() && n <= |chain| && NoneServes(n)
      ensures LedgerOf(Before(n).metrics, p).failures == Plus(LedgerOf(start.metrics, p).failures, FailuresOf(p, n))
    {
      hide Allows, Plus;
      if n > 0 {
        OneLedgerFailurePerDispatch(p, n - 1);
        assert !Serves(n - 1);
        PlusTwice(LedgerOf(start.metrics, p).failures, FailuresOf(p, n - 1), 1);
      } else {
        PlusZero(LedgerOf(start.metrics, p).failures);
      }
    }

    /** The global ledger has then counted one failure per contacted position, and no success. */
    lemma {:induction false} GlobalFailures(n: nat)
      requires WellFormed() && n <= |chain| && NoneServes(n)
      ensures Before(n).global.failures == Plus(start.global.failures, |Contacted(n)|)
      ensures Before(n).global.successes == start.global.successes
    {
      if n == 0 {
      } else {
        GlobalFailures(n - 1);
        assert !Serves(n - 1);
        PlusTwice(start.global.failures, |Contacted(n - 1)|, 1);
      }
    }

    /** A provider that no visited position names keeps its records. */
    lemma {:induction false} OthersUntouched(p: string, n: nat)
      requires WellFormed() && n <= |chain| && p !in chain[..n]
      ensures HealthOf(Before(n).health, p) == HealthOf(start.health, p)
      ensures LedgerOf(Before(n).metrics, p) == LedgerOf(start.metrics, p)
    {
      if n == 0 {
      } else {
        assert chain[..n] == chain[..n - 1] + [chain[n - 1]];
        OthersUntouched(p, n - 1);
      }
    }

    lemma {:induction false} KeepsConsistent(n: nat)
      requires WellFormed() && n <= |chain|
      requires forall p | p in start.health :: Consistent(start.health[p])
      ensures forall p | p in Before(n).health :: Consistent(Before(n).health[p])
    {
      if n == 0 {
      } else {
        KeepsConsistent(n - 1);
      }
    }
  }

  lemma PlusTwice(a: Word, b: int, c: int)
    ensures Plus(Plus(a, b), c) == Plus(a, b + c)
  {
  }
}
