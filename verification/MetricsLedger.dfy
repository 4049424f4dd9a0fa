/** The lock-free metrics ledgers: one per provider and one global. Each record operation is a sequence
    of single atomic steps on the provider's ledger and then on the global one; any number of operations
    interleave. Counters are 64-bit and wrap around; latencies are summed over the reals. */
module MetricsLedger {
  const WORD := 0x1_0000_0000_0000_0000

  type Word = x: int | 0 <= x < WORD witness 0

  datatype Usage = Usage(prompt: nat, completion: nat, tokens: nat, latency: real)

  datatype Op = Success(provider: string, usage: Usage) | Failure(provider: string)

  datatype Ledger = Ledger(requests: Word, successes: Word, failures: Word,
                           prompt: Word, completion: Word, tokens: Word, latency: real)

  const EMPTY := Ledger(0, 0, 0, 0, 0, 0, 0.0)

  function Plus(a: Word, b: int): Word {
    (a + b) % WORD
  }

  // ---- one operation on one ledger

  /** The last stage: all steps of the operation on this ledger are done. */
  const DONE := 7

  type Stage = s: nat | s <= DONE

  /** One atomic step. Stage 5 loads the latency; stage 6 is the compare-exchange, which fails when the
      latency has changed, and may also fail without cause, and then has loaded the latency afresh. */
  function StepLedger(op: Op, stage: Stage, loaded: real, spurious: bool, l: Ledger): (Ledger, Stage, real)
    requires stage < DONE
  {
    if stage == 0 then (l.(requests := Plus(l.requests, 1)), 1, loaded)
    else
      match op
      case Failure(_) => (l.(failures := Plus(l.failures, 1)), DONE, loaded)
      case Success(_, u) =>
        if stage == 1 then (l.(successes := Plus(l.successes, 1)), 2, loaded)
        else if stage == 2 then (l.(prompt := Plus(l.prompt, u.prompt)), 3, loaded)
        else if stage == 3 then (l.(completion := Plus(l.completion, u.completion)), 4, loaded)
        else if stage == 4 then (l.(tokens := Plus(l.tokens, u.tokens)), 5, loaded)
        else if stage == 5 then (l, 6, l.latency)
        else if !spurious && l.latency == loaded then (l.(latency := loaded + u.latency), DONE, loaded)
        else (l, 6, l.latency)
  }

  // ---- all operations together

  datatype Progress = Progress(created: bool, local: Stage, global: Stage, loaded: real)

  datatype State = State(progress: seq<Progress>, ledgers: map<string, Ledger>, global: Ledger)

  function Start(ops: seq<Op>): State {
    State(seq(|ops|, _ => Progress(false, 0, 0, 0.0)), map[], EMPTY)
  }

  function LedgerOf(m: map<string, Ledger>, p: string): Ledger {
    if p in m then m[p] else EMPTY
  }

  /** The scheduler picks an operation; a finished one does nothing. */
  datatype Pick = Pick(who: nat, spurious: bool)

  function Step(ops: seq<Op>, s: State, k: Pick): State
    requires |s.progress| == |ops|
  {
    if k.who >= |ops| then s
    else
      var op, pr := ops[k.who], s.progress[k.who];
      var mine := LedgerOf(s.ledgers, op.provider);
      if !pr.created then
        State(s.progress[k.who := pr.(created := true)], s.ledgers[op.provider := mine], s.global)
      else if pr.local < DONE then
        var (l, stage, loaded) := StepLedger(op, pr.local, pr.loaded, k.spurious, mine);
        State(s.progress[k.who := pr.(local := stage, loaded := loaded)], s.ledgers[op.provider := l], s.global)
      else if pr.global < DONE then
        var (l, stage, loaded) := StepLedger(op, pr.global, pr.loaded, k.spurious, s.global);
        State(s.progress[k.who := pr.(global := stage, loaded := loaded)], s.ledgers, l)
      else s
  }

  function Exec(ops: seq<Op>, picks: seq<Pick>): (s: State)
    ensures |s.progress| == |ops|
  {
    if picks == [] then Start(ops) else Step(ops, Exec(ops, picks[..|picks| - 1]), picks[|picks| - 1])
  }

  // ---- what the ledgers should hold: the sum of what each operation has contributed so far

  datatype Field = Requests | Successes | Failures | Prompt | Completion | Tokens

  function Get(l: Ledger, f: Field): Word {
    match f
    case Requests => l.requests
    case Successes => l.successes
    case Failures => l.failures
    case Prompt => l.prompt
    case Completion => l.completion
    case Tokens => l.tokens
  }

  /** What has been added to one counter, before any wrap-around, and to the latency. */
  datatype Amount = Amount(count: int, latency: real)

  function Add(a: Amount, b: Amount): Amount {
    Amount(a.count + b.count, a.latency + b.latency)
  }

  const ZERO := Amount(0, 0.0)

  ghost predicate Holds(l: Ledger, f: Field, a: Amount) {
    Get(l, f) == a.count % WORD && l.latency == a.latency
  }

  function Count(op: Op, stage: Stage, f: Field): int {
    match f
    case Requests => if stage >= 1 then 1 else 0
    case Successes => if op.Success? && stage >= 2 then 1 else 0
    case Failures => if op.Failure? && stage >= 2 then 1 else 0
    case Prompt => if op.Success? && stage >= 3 then op.usage.prompt else 0
    case Completion => if op.Success? && stage >= 4 then op.usage.completion else 0
    case Tokens => if op.Success? && stage >= 5 then op.usage.tokens else 0
  }

  function Contribution(op: Op, stage: Stage, f: Field): Amount {
    Amount(Count(op, stage, f), if op.Success? && stage == DONE then op.usage.latency else 0.0)
  }

  /** Failures have two steps only. */
  predicate Possible(op: Op, stage: Stage) {
    op.Failure? ==> stage <= 1 || stage == DONE
  }

  lemma WrapMix(a: int, b: int, c: int)
    requires b % WORD == c % WORD
    ensures (a % WORD + b) % WORD == (a + c) % WORD
  {
  }

  /** One atomic step moves a ledger from what the operation had contributed to what it has now; in
      particular, the compare-exchange never overwrites another operation's latency. */
  lemma StepContributes(op: Op, stage: Stage, loaded: real, spurious: bool, l: Ledger, f: Field, rest: Amount)
    requires stage < DONE && Possible(op, stage)
    requires Holds(l, f, Add(rest, Contribution(op, stage, f)))
    ensures var (l', stage', loaded') := StepLedger(op, stage, loaded, spurious, l);
            Holds(l', f, Add(rest, Contribution(op, stage', f))) && Possible(op, stage') && stage' > 0
  {
    var (l', stage', loaded') := StepLedger(op, stage, loaded, spurious, l);
    var had, has := Count(op, stage, f), Count(op, stage', f);
    assert Get(l', f) == (Get(l, f) + (has - had)) % WORD;
    WrapMix(rest.count + had, has - had, has - had);
  }

  /** A ledger, or the provider ledgers of several providers taken together. */
  datatype Target = Global | Local(providers: set<string>)

  function Part(op: Op, pr: Progress, t: Target, f: Field): Amount {
    match t
    case Global => Contribution(op, pr.global, f)
    case Local(ps) => if op.provider in ps then Contribution(op, pr.local, f) else ZERO
  }

  /** What the operations have contributed to the target so far. */
  function Total(ops: seq<Op>, progress: seq<Progress>, t: Target, f: Field): Amount
    requires |progress| == |ops|
  {
    if |ops| == 0 then ZERO
    else
      var n := |ops| - 1;
      Add(Total(ops[..n], progress[..n], t, f), Part(ops[n], progress[n], t, f))
  }

  lemma {:induction false} TotalZero(ops: seq<Op>, progress: seq<Progress>, t: Target, f: Field)
    requires |progress| == |ops| && forall i | 0 <= i < |ops| :: Part(ops[i], progress[i], t, f) == ZERO
    ensures Total(ops, progress, t, f) == ZERO
  {
    if |ops| == 0 {
    } else {
      var n := |ops| - 1;
      TotalZero(ops[..n], progress[..n], t, f);
    }
  }

  /** When one operation makes progress, the totals differ by its two contributions only. */
  lemma {:induction false} TotalReplace(ops: seq<Op>, progress: seq<Progress>, i: nat, pr: Progress, t: Target, f: Field)
    returns (rest: Amount)
    requires |progress| == |ops| && i < |ops|
    ensures Total(ops, progress, t, f) == Add(rest, Part(ops[i], progress[i], t, f))
    ensures Total(ops, progress[i := pr], t, f) == Add(rest, Part(ops[i], pr, t, f))
  {
    hide Part;
    var n := |ops| - 1;
    var progress' := progress[i := pr];
    if i == n {
      rest := Total(ops[..n], progress[..n], t, f);
      assert progress'[..n] == progress[..n];
    } else {
      var most := TotalReplace(ops[..n], progress[..n], i, pr, t, f);
      assert progress'[..n] == progress[..n][i := pr];
      rest := Add(most, Part(ops[n], progress[n], t, f));
    }
  }

  // ---- every interleaving

  predicate Plausible(op: Op, pr: Progress, ledgers: map<string, Ledger>) {
    && Possible(op, pr.local) && Possible(op, pr.global)
    && (pr.created ==> op.provider in ledgers)
    && (pr.local > 0 ==> pr.created)
    && (pr.global > 0 ==> pr.local == DONE)
  }

  /** Every ledger holds exactly what the operations have contributed to it so far. */
  ghost predicate Accounted(ops: seq<Op>, s: State) {
    && |s.progress| == |ops|
    && (forall i | 0 <= i < |ops| :: Plausible(ops[i], s.progress[i], s.ledgers))
    && (forall p, f :: Holds(LedgerOf(s.ledgers, p), f, Total(ops, s.progress, Local({p}), f)))
    && (forall f :: Holds(s.global, f, Total(ops, s.progress, Global, f)))
  }

  lemma StartAccounted(ops: seq<Op>)
    ensures Accounted(ops, Start(ops))
  {
    var s := Start(ops);
    forall t: Target, f: Field
      ensures Total(ops, s.progress, t, f) == ZERO
    {
      TotalZero(ops, s.progress, t, f);
    }
    assert forall f :: Holds(EMPTY, f, ZERO);
  }

  /** Progress that changes no contribution to a target leaves its total alone. */
  lemma SameTotal(ops: seq<Op>, progress: seq<Progress>, i: nat, pr: Progress, t: Target, f: Field)
    requires |progress| == |ops| && i < |ops|
    requires Part(ops[i], progress[i], t, f) == Part(ops[i], pr, t, f)
    ensures Total(ops, progress[i := pr], t, f) == Total(ops, progress, t, f)
  {
    var rest := TotalReplace(ops, progress, i, pr, t, f);
  }

  lemma StepAccounted(ops: seq<Op>, s: State, k: Pick)
    requires Accounted(ops, s)
    ensures Accounted(ops, Step(ops, s, k))
  {
    if k.who < |ops| {
      var op, pr, s' := ops[k.who], s.progress[k.who], Step(ops, s, k);
      var pr' := s'.progress[k.who];
      assert Plausible(op, pr, s.ledgers);
      forall p, f
        ensures Holds(LedgerOf(s'.ledgers, p), f, Total(ops, s'.progress, Local({p}), f))
      {
        assert Holds(LedgerOf(s.ledgers, p), f, Total(ops, s.progress, Local({p}), f));
        if p == op.provider && pr.created && pr.local < DONE {
          var rest := TotalReplace(ops, s.progress, k.who, pr', Local({p}), f);
          StepContributes(op, pr.local, pr.loaded, k.spurious, LedgerOf(s.ledgers, p), f, rest);
        } else {
          SameTotal(ops, s.progress, k.who, pr', Local({p}), f);
        }
      }
      forall f
        ensures Holds(s'.global, f, Total(ops, s'.progress, Global, f))
      {
        assert Holds(s.global, f, Total(ops, s.progress, Global, f));
        if pr.local == DONE && pr.global < DONE {
          var rest := TotalReplace(ops, s.progress, k.who, pr', Global, f);
          StepContributes(op, pr.global, pr.loaded, k.spurious, s.global, f, rest);
        } else {
          SameTotal(ops, s.progress, k.who, pr', Global, f);
        }
      }
    }
  }

  /** Under every interleaving, at every moment, no update has been lost and none counted twice. */
  lemma {:induction false} AlwaysAccounted(ops: seq<Op>, picks: seq<Pick>)
    ensures Accounted(ops, Exec(ops, picks))
  {
    if picks == [] {
      StartAccounted(ops);
    } else {
      AlwaysAccounted(ops, picks[..|picks| - 1]);
      StepAccounted(ops, Exec(ops, picks[..|picks| - 1]), picks[|picks| - 1]);
    }
  }

  // ---- totals against successes and failures

  /** How many operations stand between their two counter updates on the target. */
  function Between(ops: seq<Op>, progress: seq<Progress>, t: Target): nat
    requires |progress| == |ops|
  {
    if ops == [] then 0
    else
      var n := |ops| - 1;
      Between(ops[..n], progress[..n], t) + if StageOf(ops[n], progress[n], t) == 1 then 1 else 0
  }

  /** How far an operation has come on the target; not at all on the ledger of another provider. */
  function StageOf(op: Op, pr: Progress, t: Target): Stage {
    match t
    case Global => pr.global
    case Local(ps) => if op.provider in ps then pr.local else 0
  }

  lemma PartBalance(op: Op, pr: Progress, t: Target)
    requires Possible(op, pr.global) && Possible(op, pr.local)
    ensures Part(op, pr, t, Requests).count ==
            Part(op, pr, t, Successes).count + Part(op, pr, t, Failures).count + if StageOf(op, pr, t) == 1 then 1 else 0
  {
  }

  lemma {:induction false} TotalBalance(ops: seq<Op>, progress: seq<Progress>, t: Target)
    requires |progress| == |ops|
    requires forall i | 0 <= i < |ops| :: Possible(ops[i], progress[i].global) && Possible(ops[i], progress[i].local)
    ensures Total(ops, progress, t, Requests).count ==
            Total(ops, progress, t, Successes).count + Total(ops, progress, t, Failures).count + Between(ops, progress, t)
  {
    hide Part, StageOf, Possible;
    if ops == [] {
    } else {
      var n := |ops| - 1;
      TotalBalance(ops[..n], progress[..n], t);
      PartBalance(ops[n], progress[n], t);
    }
  }

  lemma WrapThree(a: int, b: int, c: int)
    ensures (a % WORD + b % WORD + c) % WORD == (a + b + c) % WORD
  {
    WrapMix(b, a % WORD + c, a % WORD + c);
    WrapMix(a, b + c, b + c);
  }

  lemma HeldBalance(l: Ledger, r: Amount, s: Amount, f: Amount, between: nat)
    requires Holds(l, Requests, r) && Holds(l, Successes, s) && Holds(l, Failures, f)
    requires r.count == s.count + f.count + between
    ensures Balanced(l, between)
  {
    WrapThree(s.count, f.count, between);
  }

  /** Requests are successes plus failures plus the given number, modulo the word size. */
  predicate Balanced(l: Ledger, between: nat) {
    l.requests == (l.successes + l.failures + between) % WORD
  }

  lemma TargetBalance(ops: seq<Op>, s: State, l: Ledger, t: Target)
    requires |s.progress| == |ops| && forall i | 0 <= i < |ops| :: Plausible(ops[i], s.progress[i], s.ledgers)
    requires forall f :: Holds(l, f, Total(ops, s.progress, t, f))
    ensures Balanced(l, Between(ops, s.progress, t))
  {
    hide Balanced, Holds, Total, Between;
    forall i | 0 <= i < |ops|
      ensures Possible(ops[i], s.progress[i].global) && Possible(ops[i], s.progress[i].local)
    {
      assert Plausible(ops[i], s.progress[i], s.ledgers);
    }
    TotalBalance(ops, s.progress, t);
    HeldBalance(l, Total(ops, s.progress, t, Requests), Total(ops, s.progress, t, Successes),
                Total(ops, s.progress, t, Failures), Between(ops, s.progress, t));
  }

  /** On the global ledger and on that of each provider, requests are successes plus failures plus the
      operations caught between their two updates there, at every moment of every interleaving. */
  lemma RequestsBalance(ops: seq<Op>, picks: seq<Pick>)
    ensures var s := Exec(ops, picks);
            && Balanced(s.global, Between(ops, s.progress, Global))
            && forall p :: Balanced(LedgerOf(s.ledgers, p), Between(ops, s.progress, Local({p})))
  {
    hide Balanced, Holds, Between, Total;
    AlwaysAccounted(ops, picks);
    var s := Exec(ops, picks);
    TargetBalance(ops, s, s.global, Global);
    forall p
      ensures Balanced(LedgerOf(s.ledgers, p), Between(ops, s.progress, Local({p})))
    {
      TargetBalance(ops, s, LedgerOf(s.ledgers, p), Local({p}));
    }
  }

  // ---- when all operations are done

  predicate Quiescent(s: State) {
    forall i | 0 <= i < |s.progress| :: s.progress[i].global == DONE
  }

  /** The sum of one counter, and of the latencies, over all provider ledgers. */
  ghost function SumLedgers(m: map<string, Ledger>, f: Field): Amount
    decreases |m|
  {
    if m == map[] then ZERO
    else
      var p :| p in m;
      Add(Amount(Get(m[p], f), m[p].latency), SumLedgers(m - {p}, f))
  }

  lemma {:induction false} LocalSplit(ops: seq<Op>, progress: seq<Progress>, p: string, ps: set<string>, f: Field)
    requires |progress| == |ops| && p !in ps
    ensures Total(ops, progress, Local({p} + ps), f)
            == Add(Total(ops, progress, Local({p}), f), Total(ops, progress, Local(ps), f))
  {
    hide Part;
    if |ops| == 0 {
    } else {
      var n := |ops| - 1;
      LocalSplit(ops[..n], progress[..n], p, ps, f);
      PartSplit(ops[n], progress[n], p, ps, f);
    }
  }

  lemma PartSplit(op: Op, pr: Progress, p: string, ps: set<string>, f: Field)
    requires p !in ps
    ensures Part(op, pr, Local({p} + ps), f) == Add(Part(op, pr, Local({p}), f), Part(op, pr, Local(ps), f))
  {
  }

  /** Equal up to wrap-around of the counter. */
  predicate Congruent(a: Amount, b: Amount) {
    a.count % WORD == b.count % WORD && a.latency == b.latency
  }

  lemma HeldSum(l: Ledger, f: Field, mine: Amount, sum: Amount, others: Amount)
    requires Holds(l, f, mine) && Congruent(sum, others)
    ensures Congruent(Add(Amount(Get(l, f), l.latency), sum), Add(mine, others))
  {
    WrapMix(mine.count, sum.count, others.count);
  }

  lemma KeysPeel(m: map<string, Ledger>, p: string)
    requires p in m
    ensures m.Keys == {p} + (m - {p}).Keys && p !in (m - {p}).Keys
    ensures forall q | q in m - {p} :: q in m && (m - {p})[q] == m[q]
  {
  }

  lemma {:induction false} SumLedgersIsLocal(ops: seq<Op>, progress: seq<Progress>, m: map<string, Ledger>, f: Field)
    requires |progress| == |ops|
    requires forall p | p in m :: Holds(m[p], f, Total(ops, progress, Local({p}), f))
    ensures Congruent(SumLedgers(m, f), Total(ops, progress, Local(m.Keys), f))
    decreases |m|
  {
    hide Holds, Congruent, Get;
    if m == map[] {
      TotalZero(ops, progress, Local({}), f);
      CongruentSelf(ZERO);
    } else {
      hide Total, Part;
      var p :| p in m && SumLedgers(m, f) == Add(Amount(Get(m[p], f), m[p].latency), SumLedgers(m - {p}, f));
      var rest := m - {p};
      KeysPeel(m, p);
      SumLedgersIsLocal(ops, progress, rest, f);
      LocalSplit(ops, progress, p, rest.Keys, f);
      HeldSum(m[p], f, Total(ops, progress, Local({p}), f), SumLedgers(rest, f),
              Total(ops, progress, Local(rest.Keys), f));
    }
  }

  lemma CongruentSelf(a: Amount)
    ensures Congruent(a, a)
  {
  }

  /** What the operations record in full. */
  function Recorded(ops: seq<Op>, f: Field): Amount {
    if ops == [] then ZERO else Add(Recorded(ops[..|ops| - 1], f), Contribution(ops[|ops| - 1], DONE, f))
  }

  lemma {:induction false} FullTotal(ops: seq<Op>, progress: seq<Progress>, t: Target, f: Field)
    requires |progress| == |ops|
    requires forall i | 0 <= i < |ops| :: progress[i].local == progress[i].global == DONE
    requires t.Local? ==> forall i | 0 <= i < |ops| :: ops[i].provider in t.providers
    ensures Total(ops, progress, t, f) == Recorded(ops, f)
  {
    if |ops| == 0 {
    } else {
      var n := |ops| - 1;
      FullTotal(ops[..n], progress[..n], t, f);
    }
  }

  lemma AccountedAtRest(ops: seq<Op>, s: State, f: Field)
    requires Accounted(ops, s) && Quiescent(s)
    ensures Get(s.global, f) == Recorded(ops, f).count % WORD == SumLedgers(s.ledgers, f).count % WORD
    ensures s.global.latency == Recorded(ops, f).latency == SumLedgers(s.ledgers, f).latency
  {
    forall i | 0 <= i < |ops|
      ensures s.progress[i].local == DONE && ops[i].provider in s.ledgers
    {
      assert Plausible(ops[i], s.progress[i], s.ledgers);
    }
    forall p | p in s.ledgers
      ensures Holds(s.ledgers[p], f, Total(ops, s.progress, Local({p}), f))
    {
      assert LedgerOf(s.ledgers, p) == s.ledgers[p];
    }
    SumLedgersIsLocal(ops, s.progress, s.ledgers, f);
    FullTotal(ops, s.progress, Global, f);
    FullTotal(ops, s.progress, Local(s.ledgers.Keys), f);
    assert Holds(s.global, f, Total(ops, s.progress, Global, f));
  }

  /** Once all operations are done, every counter of the global ledger and its latency hold everything the
      operations recorded, and equal the sum over the provider ledgers. */
  lemma QuiescentTotals(ops: seq<Op>, picks: seq<Pick>, f: Field)
    requires Quiescent(Exec(ops, picks))
    ensures var s := Exec(ops, picks);
            && Get(s.global, f) == Recorded(ops, f).count % WORD == SumLedgers(s.ledgers, f).count % WORD
            && s.global.latency == Recorded(ops, f).latency == SumLedgers(s.ledgers, f).latency
  {
    AlwaysAccounted(ops, picks);
    AccountedAtRest(ops, Exec(ops, picks), f);
  }

  // ---- what is recorded, in the operations' own terms

  function SuccessCount(ops: seq<Op>): nat {
    if ops == [] then 0 else SuccessCount(ops[..|ops| - 1]) + if ops[|ops| - 1].Success? then 1 else 0
  }

  /** Every operation is one request, and either a success or a failure. */
  lemma {:induction false} RecordedRequests(ops: seq<Op>)
    ensures Recorded(ops, Requests).count == |ops|
    ensures Recorded(ops, Successes).count == SuccessCount(ops) && Recorded(ops, Failures).count == |ops| - SuccessCount(ops)
  {
    if ops == [] {
    } else {
      RecordedRequests(ops[..|ops| - 1]);
    }
  }

  /** A success adds its prompt, completion and total tokens and its latency; a failure adds nothing to these. */
  lemma RecordedUsage(ops: seq<Op>, p: string, u: Usage, f: Field)
    ensures Recorded([], f) == Amount(0, 0.0)
    ensures Recorded(ops + [Success(p, u)], Prompt).count == Recorded(ops, Prompt).count + u.prompt
    ensures Recorded(ops + [Success(p, u)], Completion).count == Recorded(ops, Completion).count + u.completion
    ensures Recorded(ops + [Success(p, u)], Tokens).count == Recorded(ops, Tokens).count + u.tokens
    ensures Recorded(ops + [Success(p, u)], f).latency == Recorded(ops, f).latency + u.latency
    ensures f in {Prompt, Completion, Tokens} ==> Recorded(ops + [Failure(p)], f) == Recorded(ops, f)
  {
    assert (ops + [Success(p, u)])[..|ops|] == ops && (ops + [Failure(p)])[..|ops|] == ops;
  }

  /** At rest, what has been recorded below two to the sixty-fourth is read back exactly. */
  lemma ExactBelowWord(ops: seq<Op>, picks: seq<Pick>)
    requires Quiescent(Exec(ops, picks)) && |ops| < 18446744073709551616
    ensures var l := Exec(ops, picks).global;
            l.requests == |ops| && l.successes == SuccessCount(ops) && l.failures == |ops| - SuccessCount(ops)
    ensures forall f | 0 <= Recorded(ops, f).count < 18446744073709551616 ::
              Get(Exec(ops, picks).global, f) == Recorded(ops, f).count
  {
    hide Recorded, Quiescent;
    RecordedRequests(ops);
    SuccessesWithin(ops);
    forall f
      ensures Get(Exec(ops, picks).global, f) == Recorded(ops, f).count % WORD
    {
      QuiescentTotals(ops, picks, f);
    }
    var l := Exec(ops, picks).global;
    assert Get(l, Requests) == l.requests && Get(l, Successes) == l.successes && Get(l, Failures) == l.failures;
  }

  lemma {:induction false} SuccessesWithin(ops: seq<Op>)
    ensures SuccessCount(ops) <= |ops|
  {
    if ops == [] {
    } else {
      SuccessesWithin(ops[..|ops| - 1]);
    }
  }
}
