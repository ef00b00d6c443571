/** What holds over every run of interleaved chats
    (crates/vil_ai_gateway/src/gateway.rs:149-232, circuit_breaker.rs:35-104, health.rs:138-166, metrics.rs:35-54). */
module GatewayRuns {
  import opened Breaker
  import opened Health
  import opened Metrics
  import opened GatewayProtocol

  /** A freshly built gateway with one breaker for each model. */
  ghost function Initial(models: set<string>, config: BreakerConfig, clock: nat): State {
    State(clock, config, map b | b in models :: Closed(0), map[], NO_COUNTS, [], map b | b in models :: [])
  }

  /** run lists the states a gateway goes through, each reached from the one before by some enabled action. */
  ghost predicate IsRun(run: seq<State>) {
    && |run| > 0
    && (exists models: set<string>, config: BreakerConfig, clock: nat :: run[0] == Initial(models, config, clock))
    && forall k :: 0 < k < |run| ==> IsStep(run[k - 1], run[k])
  }

  ghost predicate IsStep(s: State, s': State) {
    exists a: Action :: StepsTo(s, a, s')
  }

  ghost predicate StepsTo(s: State, a: Action, s': State) {
    Enabled(s, a) && (a.Advance? ==> Placed(s, a.chat)) && s' == Step(s, a)
  }

  ghost predicate Reachable(s: State) {
    exists run: seq<State> :: IsRun(run) && run[|run| - 1] == s
  }

  lemma InitialIsFine(models: set<string>, config: BreakerConfig, clock: nat)
    ensures Inv(Initial(models, config, clock)) && Balanced(Initial(models, config, clock))
  {
    var s := Initial(models, config, clock);
    forall b | b in s.breakers ensures BreakerOk(s, b) { }
  }

  lemma {:induction false} RunsKeepInvariants(run: seq<State>, k: nat)
    requires IsRun(run) && k < |run|
    ensures Inv(run[k]) && Balanced(run[k])
    decreases k
  {
    if k == 0 {
      var models: set<string>, config: BreakerConfig, clock: nat :| run[0] == Initial(models, config, clock);
      InitialIsFine(models, config, clock);
    } else {
      RunsKeepInvariants(run, k - 1);
      assert IsStep(run[k - 1], run[k]);
      var a: Action :| StepsTo(run[k - 1], a, run[k]);
      StepKeepsInv(run[k - 1], a);
      StepKeepsBalance(run[k - 1], a);
    }
  }

  /** No reachable chat is stuck: its next statement is always defined. */
  lemma ReachableIsFine(s: State)
    requires Reachable(s)
    ensures Inv(s) && Balanced(s)
    ensures forall c: nat :: c < |s.chats| ==> Placed(s, c)
  {
    var run: seq<State> :| IsRun(run) && run[|run| - 1] == s;
    RunsKeepInvariants(run, |run| - 1);
    forall c: nat | c < |s.chats| ensures Placed(s, c) { InvPlaces(s, c); }
  }

  lemma ReachableStep(s: State, a: Action)
    requires Reachable(s) && Enabled(s, a)
    ensures a.Advance? ==> Placed(s, a.chat)
    ensures Reachable(Step(s, a))
  {
    ReachableIsFine(s);
    var run: seq<State> :| IsRun(run) && run[|run| - 1] == s;
    var s' := Step(s, a);
    var run' := run + [s'];
    assert StepsTo(s, a, s');
    forall k | 0 < k < |run'| ensures IsStep(run'[k - 1], run'[k]) {
      if k < |run| { assert IsStep(run[k - 1], run[k]); }
    }
    assert run'[0] == run[0];
    assert IsRun(run') && run'[|run'| - 1] == s';
  }

  // ----- the breaker -----

  /** In every run a breaker that is not closed admits at most one request before the next recorded outcome, and that
      one no earlier than the recovery timeout after the failure that opened the breaker. */
  lemma BreakerAdmitsOneProbe(s: State, b: string, i: nat, j: nat) returns (k: nat)
    requires Reachable(s) && b in s.history && i < j < |s.history[b]|
    requires !Replay(s.history[b][..i], s.config).Closed?
    requires s.history[b][i].Admits() && s.history[b][j].Admits()
    ensures i + 1 < j && s.history[b][i + 1].Records()
    ensures s.history[b][i].Probed?
    ensures k < i && OpensAt(s.history[b], s.config, k) && OnlyFailures(s.history[b], k, i)
    ensures s.config.recoveryTimeoutMs > 0 ==>
      s.history[b][i].now >= s.history[b][k].now + s.config.recoveryTimeoutMs * 1_000_000
  {
    ReachableIsFine(s);
    assert BreakerOk(s, b);
    AtMostOneAdmission(s.history[b], s.config, i, j);
    k := ProbeWaitsForRecovery(s.history[b], s.config, i);
  }

  ghost predicate IsOpen(s: State, b: string) {
    b in s.breakers && s.breakers[b].Open?
  }

  ghost predicate IsHalfOpen(s: State, b: string) {
    b in s.breakers && s.breakers[b].HalfOpen?
  }

  /** A breaker opens at the clock's reading, stays open since then, and half-opens no earlier than the recovery
      timeout after that. */
  ghost predicate OpensInTime(before: CircuitState, after: CircuitState, config: BreakerConfig, clock: nat) {
    && (!before.Open? && after.Open? ==> after.since == clock)
    && (before.Open? && after.Open? ==> after.since == before.since)
    && (before.Open? && after.HalfOpen? && config.recoveryTimeoutMs > 0 ==>
      clock >= before.since + config.recoveryTimeoutMs * 1_000_000)
  }

  lemma UpgradeInTime(state: CircuitState, config: BreakerConfig, now: nat, clock: nat)
    requires now <= clock
    ensures OpensInTime(state, AfterWrite(state, config, now), config, clock)
  {
    if state.Open? { ElapsedExactly(now, state.since, config.recoveryTimeoutMs); }
  }

  lemma ProceedInTime(s: State, c: nat, b: string)
    requires Inv(s) && Enabled(s, Advance(c)) && Placed(s, c) && b in s.breakers
    ensures b in Proceed(s, c).breakers && OpensInTime(s.breakers[b], Proceed(s, c).breakers[b], s.config, s.clock)
  {
    var chat := s.chats[c];
    assert ChatOk(s, chat);
    if chat.phase.Upgrading? {
      UpgradeInTime(s.breakers[b], s.config, chat.phase.now, s.clock);
    } else if chat.phase.HealthRecorded? {
      ReportInTime(s, c, b);
    } else {
      assert Proceed(s, c).breakers == s.breakers;
    }
  }

  lemma ReportInTime(s: State, c: nat, b: string)
    requires Enabled(s, Advance(c)) && Placed(s, c) && s.chats[c].phase.HealthRecorded? && b in s.breakers
    ensures b in Proceed(s, c).breakers && OpensInTime(s.breakers[b], Proceed(s, c).breakers[b], s.config, s.clock)
  {
  }

  ghost predicate StepInTime(run: seq<State>, b: string, k: nat) {
    && k + 1 < |run|
    && b in run[k].breakers && b in run[k + 1].breakers
    && OpensInTime(run[k].breakers[b], run[k + 1].breakers[b], run[k].config, run[k].clock)
  }

  lemma RunInTime(run: seq<State>, b: string, k: nat)
    requires IsRun(run) && k + 1 < |run| && b in run[k].breakers
    ensures StepInTime(run, b, k)
  {
    RunsKeepInvariants(run, k);
    assert IsStep(run[k + 1 - 1], run[k + 1]);
    var a: Action :| StepsTo(run[k], a, run[k + 1]);
    if a.Advance? { ProceedInTime(run[k], a.chat, b); } else { assert run[k + 1].breakers == run[k].breakers; }
  }

  /** A breaker that opens stays open since the clock's reading at that step. */
  lemma {:induction false} OpenSince(run: seq<State>, b: string, a: nat, c: nat)
    requires a < c < |run| && b in run[a].breakers && !IsOpen(run[a], b)
    requires forall k: nat :: a <= k < c ==> StepInTime(run, b, k)
    requires forall k :: a < k <= c ==> IsOpen(run[k], b)
    ensures IsOpen(run[c], b) && run[c].breakers[b].since == run[a].clock
  {
    assert StepInTime(run, b, c - 1);
    if c - 1 > a { OpenSince(run, b, a, c - 1); }
  }

  /** In every run, from the step that opens a breaker to the step that admits its probe at least the recovery
      timeout passes on the gateway's clock. */
  lemma RecoveryTakesTime(run: seq<State>, b: string, a: nat, c: nat)
    requires IsRun(run) && a < c && c + 1 < |run| && b in run[a].breakers && !IsOpen(run[a], b)
    requires forall k :: a < k <= c ==> IsOpen(run[k], b)
    requires IsHalfOpen(run[c + 1], b) && run[c].config.recoveryTimeoutMs > 0
    ensures run[c].clock >= run[a].clock + run[c].config.recoveryTimeoutMs * 1_000_000
  {
    forall k: nat | a <= k <= c ensures StepInTime(run, b, k) {
      assert k > a ==> IsOpen(run[k], b);
      RunInTime(run, b, k);
    }
    OpenSince(run, b, a, c);
    assert StepInTime(run, b, c);
  }

  /** What a reachable breaker decides about a request at `now`: it admits below the failure threshold, rejects behind
      a probe, and otherwise rejects until the recovery timeout after the failure that opened it. */
  lemma BreakerDecides(s: State, b: string, now: nat) returns (k: nat)
    requires Reachable(s) && b in s.breakers
    ensures b in s.history
    ensures var decision, h := ReadState(s.breakers[b], s.config, now), s.history[b];
      if TrailingFailures(h) == 0 || TrailingFailures(h) < s.config.failureThreshold then decision.Admit?
      else if h[|h| - 1].Probed? then decision.Reject?
      else
        && OpensAt(h, s.config, k) && OnlyFailures(h, k, |h|)
        && (if s.config.recoveryTimeoutMs == 0 || now >= h[k].now + s.config.recoveryTimeoutMs * 1_000_000
            then decision.Upgrade? && WriteAdmits(s.breakers[b], s.config, now) else decision.Reject?)
  {
    ReachableIsFine(s);
    assert BreakerOk(s, b);
    k := DecisionFromHistory(s.history[b], s.config, now);
  }

  /** Chat c stands before an entry of its order, or has read the clock for it. */
  ghost predicate Asks(s: State, c: nat) {
    && c < |s.chats|
    && s.chats[c].next < |s.chats[c].order| && s.chats[c].order[s.chats[c].next] in s.breakers
    && (s.chats[c].phase.AtEntry? || s.chats[c].phase.Reading?)
  }

  /** One step leaves an asking chat alone, has it read the clock, or takes it where its breaker's decision leads. */
  ghost predicate AskStep(s: State, s': State, c: nat) {
    Asks(s, c) && c < |s'.chats| &&
    var chat := s.chats[c];
    s'.chats[c] == chat ||
    s'.chats[c] == chat.(phase :=
      match chat.phase
      case Reading(now) =>
        (match ReadState(s.breakers[chat.order[chat.next]], s.config, now)
         case Admit => Admitted
         case Reject => Refused
         case Upgrade => Upgrading(now))
      case _ => Reading(s.clock))
  }

  lemma StepAsks(run: seq<State>, c: nat, k: nat)
    requires IsRun(run) && k + 1 < |run| && Asks(run[k], c)
    ensures AskStep(run[k], run[k + 1], c)
  {
    RunsKeepInvariants(run, k);
    assert IsStep(run[k + 1 - 1], run[k + 1]);
    var a: Action :| StepsTo(run[k], a, run[k + 1]);
    if a == Advance(c) { ProceedAsks(run[k], c); } else { OthersLeave(run[k], a, c); }
  }

  lemma ProceedAsks(s: State, c: nat)
    requires Enabled(s, Advance(c)) && Placed(s, c) && Asks(s, c)
    ensures AskStep(s, Proceed(s, c), c)
  {
  }

  lemma OthersLeave(s: State, a: Action, c: nat)
    requires Enabled(s, a) && (a.Advance? ==> Placed(s, a.chat)) && Asks(s, c) && a != Advance(c)
    ensures c < |Step(s, a).chats| && Step(s, a).chats[c] == s.chats[c]
  {
    if a.Advance? { OneChatProceeds(s, a.chat, Step(s, a)); }
  }

  ghost predicate IsReading(s: State, c: nat) {
    Asks(s, c) && s.chats[c].phase.Reading?
  }

  /** Until the breaker answers, the chat keeps the clock's reading from the step it began to ask. */
  lemma {:induction false} ReadingKept(run: seq<State>, c: nat, a: nat, m: nat)
    requires a < m < |run| && Asks(run[a], c) && run[a].chats[c].phase.AtEntry?
    requires forall k: nat :: a <= k < m ==> AskStep(run[k], run[k + 1], c)
    requires forall k :: a < k <= m ==> IsReading(run[k], c)
    ensures c < |run[m].chats| && run[m].chats[c] == run[a].chats[c].(phase := Reading(run[a].clock))
  {
    assert AskStep(run[m - 1], run[m - 1 + 1], c);
    assert IsReading(run[m], c);
    if m - 1 > a {
      ReadingKept(run, c, a, m - 1);
      assert IsReading(run[m - 1], c);
    }
  }

  /** In every run, the read-locked answer to a chat is the breaker's decision about the instant at which the chat
      began to ask, however long it waits for the lock. */
  lemma AnswerIsAboutArrival(run: seq<State>, c: nat, a: nat, m: nat)
    requires IsRun(run) && a < m && m + 1 < |run| && Asks(run[a], c) && run[a].chats[c].phase.AtEntry?
    requires forall k :: a < k <= m ==> IsReading(run[k], c)
    requires c < |run[m + 1].chats| && !run[m + 1].chats[c].phase.Reading?
    ensures var chat := run[a].chats[c];
      && chat.order[chat.next] in run[m].breakers
      && var decision := ReadState(run[m].breakers[chat.order[chat.next]], run[m].config, run[a].clock);
         run[m + 1].chats[c] == chat.(phase :=
           if decision.Admit? then Admitted else if decision.Reject? then Refused else Upgrading(run[a].clock))
  {
    forall k: nat | a <= k <= m ensures AskStep(run[k], run[k + 1], c) {
      assert k > a ==> IsReading(run[k], c);
      StepAsks(run, c, k);
    }
    ReadingKept(run, c, a, m);
    assert IsReading(run[m], c);
    AnswerStep(run[m], run[m + 1], c, run[a].chats[c], run[a].clock);
  }

  lemma AnswerStep(s: State, s': State, c: nat, chat: Chat, now: nat)
    requires AskStep(s, s', c) && s.chats[c] == chat.(phase := Reading(now)) && !s'.chats[c].phase.Reading?
    ensures var decision := ReadState(s.breakers[chat.order[chat.next]], s.config, now);
      s'.chats[c] == chat.(phase :=
        if decision.Admit? then Admitted else if decision.Reject? then Refused else Upgrading(now))
  {
  }

  /** The chat's next statement records an outcome with the breaker of model b. */
  predicate AboutToReport(chat: Chat, b: string) {
    chat.phase.HealthRecorded? && chat.next < |chat.order| && chat.order[chat.next] == b
  }

  /** Whenever a breaker is half-open, the chat it admitted last is still on its way to report to it;
      the breaker admits nobody in the meantime, and any report, the probe's included, leaves half-open. */
  lemma HalfOpenHasProbeInFlight(s: State, b: string) returns (c: nat)
    requires Reachable(s) && b in s.breakers && s.breakers[b].HalfOpen?
    ensures c < |s.chats| && s.chats[c].InFlightFor(b)
    ensures b in s.history && s.history[b] != [] && s.history[b][|s.history[b]| - 1].Probed?
    ensures s.history[b][|s.history[b]| - 1].request == c
    ensures forall now: nat ::
      ReadState(s.breakers[b], s.config, now).Reject? && !WriteAdmits(s.breakers[b], s.config, now)
    ensures forall d: nat :: d < |s.chats| && AboutToReport(s.chats[d], b) ==>
      Placed(s, d) && b in Proceed(s, d).breakers && !Proceed(s, d).breakers[b].HalfOpen?
  {
    ReachableIsFine(s);
    assert BreakerOk(s, b);
    var h := s.history[b];
    c := h[|h| - 1].request;
    forall d: nat | d < |s.chats| && AboutToReport(s.chats[d], b)
      ensures Placed(s, d) && b in Proceed(s, d).breakers && !Proceed(s, d).breakers[b].HalfOpen?
    {
      ReportLeavesHalfOpen(s, d, b);
    }
  }

  lemma ReportLeavesHalfOpen(s: State, d: nat, b: string)
    requires Inv(s) && d < |s.chats| && AboutToReport(s.chats[d], b)
    ensures Placed(s, d) && b in Proceed(s, d).breakers && !Proceed(s, d).breakers[b].HalfOpen?
  {
    InvPlaces(s, d);
  }

  /** A reachable breaker is Closed{k} exactly when k failures were recorded since the last success and k is below
      the threshold, one at least. */
  lemma BreakerRefinesOutcomes(s: State, b: string)
    requires Reachable(s) && b in s.breakers
    ensures b in s.history
    ensures forall k: U32 :: s.breakers[b] == Closed(k) <==>
      TrailingFailures(s.history[b]) == k && (k == 0 || k < s.config.failureThreshold)
  {
    ReachableIsFine(s);
    assert BreakerOk(s, b);
    StateRefinesHistory(s.history[b], s.config);
  }

  // ----- the answer -----

  /** A chat that fails everywhere reports every entry of its route once, in route order. */
  lemma FailureListsTheRoute(s: State, c: nat)
    requires Reachable(s) && c < |s.chats| && s.chats[c].phase.Finished? && s.chats[c].phase.result.AllProvidersFailed?
    ensures SameNames(s.chats[c].phase.result.attempts, s.chats[c].order)
  {
    ReachableIsFine(s);
    var chat := s.chats[c];
    assert ChatOk(s, chat);
    assert chat.order[..|chat.order|] == chat.order;
  }

  // ----- accounting -----

  datatype Tally = Tally(
    requests: int, successes: int, failures: int, failovers: int, rejections: int,
    healthRequests: int, healthErrors: int)

  function Plus(a: Tally, b: Tally): Tally {
    Tally(a.requests + b.requests, a.successes + b.successes, a.failures + b.failures, a.failovers + b.failovers,
          a.rejections + b.rejections, a.healthRequests + b.healthRequests, a.healthErrors + b.healthErrors)
  }

  const ZERO := Tally(0, 0, 0, 0, 0, 0, 0)

  function Bit(b: bool): int {
    if b then 1 else 0
  }

  predicate Succeeds(chat: Chat) {
    chat.phase.Finished? && chat.phase.result.Answered?
  }

  predicate Fails(chat: Chat) {
    chat.phase.Finished? && chat.phase.result.AllProvidersFailed?
  }

  predicate FindsNobody(chat: Chat) {
    chat.phase.Finished? && chat.phase.result.NoHealthyProviders?
  }

  /** The current attempt has not reached the health tracker yet. */
  predicate AttemptUnrecorded(chat: Chat) {
    chat.phase.Calling? || chat.phase.Returned?
  }

  /** The current attempt is known to have succeeded. */
  predicate SuccessRecorded(chat: Chat) {
    || (chat.phase.HealthRecorded? && chat.phase.reply.Answer?)
    || (chat.phase.BreakerRecorded? && chat.phase.reply.Answer?)
    || Succeeds(chat)
  }

  /** The entry at `next` has already been counted as an attempt. */
  predicate AttemptCounted(chat: Chat) {
    chat.phase.Calling? || chat.phase.Returned? || chat.phase.HealthRecorded? || chat.phase.BreakerRecorded? ||
      Succeeds(chat)
  }

  /** What one chat has added to the shared counters. */
  function TallyOf(chat: Chat): Tally {
    Tally(1,
          Bit(Succeeds(chat)),
          Bit(Fails(chat)),
          if chat.attemptCount > 1 then chat.attemptCount - 1 else 0,
          chat.next - (chat.attemptCount - Bit(AttemptCounted(chat))),
          chat.attemptCount - Bit(AttemptUnrecorded(chat)),
          chat.attemptCount - Bit(AttemptUnrecorded(chat)) - Bit(SuccessRecorded(chat)))
  }

  function SumOf(chats: seq<Chat>): Tally {
    if chats == [] then ZERO else Plus(SumOf(chats[..|chats| - 1]), TallyOf(chats[|chats| - 1]))
  }

  lemma {:induction false} SumUpdate(chats: seq<Chat>, c: nat, chat: Chat)
    requires c < |chats|
    ensures Plus(SumOf(chats[c := chat]), TallyOf(chats[c])) == Plus(SumOf(chats), TallyOf(chat))
    decreases |chats|
  {
    var m := |chats| - 1;
    var front, last, after := chats[..m], chats[m], chats[c := chat];
    SumLast(chats, front, last);
    if c < m {
      SumUpdate(front, c, chat);
      assert after[..m] == front[c := chat];
      SumLast(after, front[c := chat], last);
    } else {
      SumLast(after, front, chat);
    }
  }

  lemma SumLast(chats: seq<Chat>, front: seq<Chat>, last: Chat)
    requires |chats| == |front| + 1 && chats[..|front|] == front && chats[|front|] == last
    ensures SumOf(chats) == Plus(SumOf(front), TallyOf(last))
  {
  }

  ghost function TotalOf(counts: map<string, nat>): nat {
    if counts == map[] then 0 else
    var b :| b in counts;
    counts[b] + TotalOf(counts - {b})
  }

  lemma {:induction false} TotalWithout(counts: map<string, nat>, b: string)
    requires b in counts
    ensures TotalOf(counts) == counts[b] + TotalOf(counts - {b})
    decreases |counts|
  {
    var d :| d in counts && TotalOf(counts) == counts[d] + TotalOf(counts - {d});
    if d != b {
      TotalWithout(counts - {d}, b);
      TotalWithout(counts - {b}, d);
      assert counts - {d} - {b} == counts - {b} - {d};
    }
  }

  lemma TotalUpdate(counts: map<string, nat>, b: string, n: nat)
    ensures TotalOf(counts[b := n]) == TotalOf(counts) - (if b in counts then counts[b] else 0) + n
  {
    TotalWithout(counts[b := n], b);
    assert counts[b := n] - {b} == counts - {b};
    if b in counts { TotalWithout(counts, b); } else { assert counts - {b} == counts; }
  }

  ghost function RequestCounts(health: map<string, ModelHealth>): map<string, nat> {
    map b | b in health :: health[b].totalRequests
  }

  ghost function ErrorCounts(health: map<string, ModelHealth>): map<string, nat> {
    map b | b in health :: health[b].totalErrors
  }

  function CounterTally(counters: Counters, healthRequests: int, healthErrors: int): Tally {
    Tally(counters.requests, counters.successes, counters.failures, counters.failovers, counters.rejections,
          healthRequests, healthErrors)
  }

  /** What the shared counters say. */
  ghost function Recorded(s: State): Tally {
    CounterTally(s.counters, TotalOf(RequestCounts(s.health)), TotalOf(ErrorCounts(s.health)))
  }

  /** The shared counters are the sum of what the chats have added. */
  ghost predicate Balanced(s: State) {
    Recorded(s) == SumOf(s.chats)
  }

  lemma HealthStep(health: map<string, ModelHealth>, b: string, sample: Sample)
    ensures var health' := health[b := AfterSample(StateOf(health, b), sample)];
      && TotalOf(RequestCounts(health')) == TotalOf(RequestCounts(health)) + 1
      && TotalOf(ErrorCounts(health')) == TotalOf(ErrorCounts(health)) + if sample.isError then 1 else 0
  {
    var after := AfterSample(StateOf(health, b), sample);
    assert RequestCounts(health[b := after]) == RequestCounts(health)[b := after.totalRequests];
    assert ErrorCounts(health[b := after]) == ErrorCounts(health)[b := after.totalErrors];
    TotalUpdate(RequestCounts(health), b, after.totalRequests);
    TotalUpdate(ErrorCounts(health), b, after.totalErrors);
  }

  /** What one statement adds to the health totals. */
  predicate RecordsHealth(chat: Chat) {
    chat.phase.Returned?
  }

  /** chat' has the tally of chat, plus what the step adds to the counters and to the health totals. */
  ghost predicate TallyMoves(counters: Counters, counters': Counters, chat: Chat, chat': Chat, requests: int,
                             errors: int) {
    Plus(CounterTally(counters', requests, errors), TallyOf(chat)) == Plus(CounterTally(counters, 0, 0), TallyOf(chat'))
  }

  /** Statements that only read or change breakers and health leave the counters alone. */
  lemma QuietStatement(s: State, c: nat)
    requires Enabled(s, Advance(c)) && Placed(s, c)
    requires s.chats[c].phase.Reading? || s.chats[c].phase.Upgrading? || s.chats[c].phase.HealthRecorded?
    ensures TallyMoves(s.counters, Proceed(s, c).counters, s.chats[c], Proceed(s, c).chats[c], 0, 0)
  {
    var chat, chat' := s.chats[c], Proceed(s, c).chats[c];
    assert Proceed(s, c).counters == s.counters;
    assert TallyOf(chat') == TallyOf(chat);
  }

  /** The other statements change a counter, or the health totals, as they change the chat's tally. */
  lemma CountingStatement(s: State, c: nat, s': State)
    requires Enabled(s, Advance(c)) && Placed(s, c) && s' == Proceed(s, c)
    requires !s.chats[c].phase.Reading? && !s.chats[c].phase.Upgrading? && !s.chats[c].phase.HealthRecorded?
    ensures TallyMoves(s.counters, s'.counters, s.chats[c], s'.chats[c],
                       Bit(RecordsHealth(s.chats[c])),
                       Bit(RecordsHealth(s.chats[c]) && s.chats[c].phase.reply.Failure?))
  {
    if !s.chats[c].phase.Returned? { CountedStatement(s, c, s'); }
  }

  lemma CountedStatement(s: State, c: nat, s': State)
    requires Enabled(s, Advance(c)) && Placed(s, c) && s' == Proceed(s, c)
    requires var phase := s.chats[c].phase;
      phase.AtEntry? || phase.Refused? || phase.Admitted? || phase.BreakerRecorded?
    ensures TallyMoves(s.counters, s'.counters, s.chats[c], s'.chats[c], 0, 0)
  {
  }

  lemma OneChatProceeds(s: State, c: nat, s': State)
    requires Enabled(s, Advance(c)) && Placed(s, c) && s' == Proceed(s, c)
    ensures |s'.chats| == |s.chats| && s'.chats == s.chats[c := s'.chats[c]]
  {
  }

  lemma StatementTally(s: State, c: nat)
    requires Enabled(s, Advance(c)) && Placed(s, c)
    ensures |Proceed(s, c).chats| == |s.chats| && Proceed(s, c).chats == s.chats[c := Proceed(s, c).chats[c]]
    ensures TallyMoves(s.counters, Proceed(s, c).counters, s.chats[c], Proceed(s, c).chats[c],
                       Bit(RecordsHealth(s.chats[c])),
                       Bit(RecordsHealth(s.chats[c]) && s.chats[c].phase.reply.Failure?))
  {
    OneChatProceeds(s, c, Proceed(s, c));
    if s.chats[c].phase.Reading? || s.chats[c].phase.Upgrading? || s.chats[c].phase.HealthRecorded? {
      QuietStatement(s, c);
    } else {
      CountingStatement(s, c, Proceed(s, c));
    }
  }

  /** A chat's statement adds to the health totals one request, and one error for a failed reply, or nothing. */
  lemma ProceedHealth(s: State, c: nat)
    requires Enabled(s, Advance(c)) && Placed(s, c)
    ensures var chat, health' := s.chats[c], Proceed(s, c).health;
      && TotalOf(RequestCounts(health')) == TotalOf(RequestCounts(s.health)) + Bit(RecordsHealth(chat))
      && TotalOf(ErrorCounts(health')) ==
           TotalOf(ErrorCounts(s.health)) + Bit(RecordsHealth(chat) && chat.phase.reply.Failure?)
  {
    var chat := s.chats[c];
    if chat.phase.Returned? {
      HealthStep(s.health, chat.order[chat.next], SampleOf(chat.phase.reply));
    } else {
      assert Proceed(s, c).health == s.health;
    }
  }

  /** Balance moves along with a single chat's tally. */
  lemma BalanceMoves(s: State, s': State, c: nat, chat': Chat, requests: int, errors: int)
    requires Balanced(s) && c < |s.chats| && s'.chats == s.chats[c := chat']
    requires TallyMoves(s.counters, s'.counters, s.chats[c], chat', requests, errors)
    requires Recorded(s') ==
      CounterTally(s'.counters, Recorded(s).healthRequests + requests, Recorded(s).healthErrors + errors)
    ensures Balanced(s')
  {
    SumUpdate(s.chats, c, chat');
  }

  lemma ProceedKeepsBalance(s: State, c: nat)
    requires Balanced(s) && Enabled(s, Advance(c)) && Placed(s, c)
    ensures Balanced(Proceed(s, c))
  {
    ProceedHealth(s, c);
    StatementTally(s, c);
    BalanceMoves(s, Proceed(s, c), c, Proceed(s, c).chats[c],
                 Bit(RecordsHealth(s.chats[c])), Bit(RecordsHealth(s.chats[c]) && s.chats[c].phase.reply.Failure?));
  }

  lemma SumAppend(chats: seq<Chat>, chat: Chat)
    ensures SumOf(chats + [chat]) == Plus(SumOf(chats), TallyOf(chat))
  {
    assert (chats + [chat])[..|chats|] == chats;
  }

  lemma NewChatTally(chat: Chat)
    requires chat.next == 0 && chat.attemptCount == 0
    requires chat.phase.AtEntry? || FindsNobody(chat)
    ensures TallyOf(chat) == Tally(1, 0, 0, 0, 0, 0, 0)
  {
  }

  lemma BalanceGrows(s: State, s': State, chat: Chat)
    requires Balanced(s) && s'.chats == s.chats + [chat]
    requires Recorded(s') == Plus(Recorded(s), TallyOf(chat))
    ensures Balanced(s')
  {
    SumAppend(s.chats, chat);
  }

  ghost function NewChat(order: seq<string>): Chat {
    Chat(order, 0, if order == [] then Finished(NoHealthyProviders) else AtEntry, 0, [])
  }

  lemma StartRecords(s: State, order: seq<string>, s': State)
    requires Enabled(s, Start(order)) && s' == Step(s, Start(order))
    ensures s'.chats == s.chats + [NewChat(order)]
    ensures Recorded(s') == Plus(Recorded(s), Tally(1, 0, 0, 0, 0, 0, 0))
  {
    assert s'.health == s.health;
    assert s'.counters == s.counters.(requests := s.counters.requests + 1);
  }

  lemma StartKeepsBalance(s: State, order: seq<string>, s': State)
    requires Balanced(s) && Enabled(s, Start(order)) && s' == Step(s, Start(order))
    ensures Balanced(s')
  {
    StartRecords(s, order, s');
    NewChatTally(NewChat(order));
    BalanceGrows(s, s', NewChat(order));
  }

  lemma ReturnKeepsBalance(s: State, c: nat, reply: Reply)
    requires Balanced(s) && Enabled(s, Return(c, reply))
    ensures Balanced(Step(s, Return(c, reply)))
  {
    var chat := s.chats[c];
    SumUpdate(s.chats, c, chat.(phase := Returned(reply)));
    assert TallyOf(chat.(phase := Returned(reply))) == TallyOf(chat);
    assert Step(s, Return(c, reply)).health == s.health;
  }

  lemma StepKeepsBalance(s: State, a: Action)
    requires Balanced(s) && Enabled(s, a) && (a.Advance? ==> Placed(s, a.chat))
    ensures Balanced(Step(s, a))
  {
    match a
    case Tick(nanos) => assert Recorded(Step(s, a)) == Recorded(s);
    case Start(order) => StartKeepsBalance(s, order, Step(s, a));
    case Advance(c) => ProceedKeepsBalance(s, c);
    case Return(c, reply) => ReturnKeepsBalance(s, c, reply);
  }

  // ----- what the balance means -----

  function CountChats(chats: seq<Chat>, p: Chat -> bool): nat {
    if chats == [] then 0 else CountChats(chats[..|chats| - 1], p) + if p(chats[|chats| - 1]) then 1 else 0
  }

  predicate InFlight(chat: Chat) {
    !chat.phase.Finished?
  }

  predicate WasAdmitted(chat: Chat) {
    chat.attemptCount > 0
  }

  lemma {:induction false} SumCountsChats(chats: seq<Chat>)
    ensures SumOf(chats).requests == |chats|
    ensures SumOf(chats).successes == CountChats(chats, Succeeds)
    ensures SumOf(chats).failures == CountChats(chats, Fails)
    ensures |chats| == CountChats(chats, Succeeds) + CountChats(chats, Fails) +
                       CountChats(chats, FindsNobody) + CountChats(chats, InFlight)
    decreases |chats|
  {
    if chats != [] { SumCountsChats(chats[..|chats| - 1]); }
  }

  /** At every moment: requests = successes + failures + chats without providers + chats in flight. */
  lemma RequestsAddUp(s: State)
    requires Reachable(s)
    ensures s.counters.requests == |s.chats|
    ensures s.counters.requests ==
      s.counters.successes + s.counters.failures + CountChats(s.chats, FindsNobody) + CountChats(s.chats, InFlight)
  {
    ReachableIsFine(s);
    SumCountsChats(s.chats);
  }

  ghost predicate Quiescent(s: State) {
    forall c: nat {:trigger s.chats[c]} :: c < |s.chats| ==> s.chats[c].phase.Finished?
  }

  lemma {:induction false} QuiescentSums(s: State, chats: seq<Chat>)
    requires forall c: nat :: c < |chats| ==> chats[c].phase.Finished? && ChatOk(s, chats[c])
    ensures SumOf(chats).healthRequests == SumOf(chats).failovers + CountChats(chats, WasAdmitted)
    ensures SumOf(chats).healthRequests - SumOf(chats).healthErrors == SumOf(chats).successes
    ensures SumOf(chats).healthRequests + SumOf(chats).rejections == EntriesTried(chats)
    decreases |chats|
  {
    if chats != [] { QuiescentSums(s, chats[..|chats| - 1]); }
  }

  /** The route entries the chats have gone through, an answering one included. */
  function EntriesTried(chats: seq<Chat>): nat {
    if chats == [] then 0 else
    var chat := chats[|chats| - 1];
    EntriesTried(chats[..|chats| - 1]) + chat.next + if Succeeds(chat) then 1 else 0
  }

  /** When no chat is in flight, the health trackers' requests are the failovers plus the chats that were admitted
      at least once, requests minus errors are the successes, and every entry tried was either recorded or rejected. */
  lemma QuiescentAccounts(s: State)
    requires Reachable(s) && Quiescent(s)
    ensures TotalOf(RequestCounts(s.health)) == s.counters.failovers + CountChats(s.chats, WasAdmitted)
    ensures TotalOf(RequestCounts(s.health)) - TotalOf(ErrorCounts(s.health)) == s.counters.successes
    ensures TotalOf(RequestCounts(s.health)) + s.counters.rejections == EntriesTried(s.chats)
  {
    ReachableIsFine(s);
    forall c: nat | c < |s.chats| ensures s.chats[c].phase.Finished? && ChatOk(s, s.chats[c]) { }
    QuiescentSums(s, s.chats);
  }
}
