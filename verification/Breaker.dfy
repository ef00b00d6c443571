/** The circuit breaker of one model (crates/vil_ai_gateway/src/circuit_breaker.rs). */
module Breaker {

  type U32 = n: int | 0 <= n < 0x1_0000_0000 witness 0

  const NANOS_PER_MILLI: nat := 1_000_000

  /** Instants are counted in nanoseconds. */
  datatype CircuitState =
    | Closed(consecutiveFailures: U32)
    | Open(since: nat)
    | HalfOpen(testInProgress: bool)

  datatype BreakerConfig = BreakerConfig(failureThreshold: U32, recoveryTimeoutMs: nat) {
    /** The number of consecutive failures that opens the breaker: a threshold of zero acts like one. */
    function TripCount(): (n: U32)
      ensures n > 0
    {
      if failureThreshold == 0 then 1 else failureThreshold
    }
  }

  /** Whole milliseconds since `since`; zero when the clock was read before `since` was set. */
  function ElapsedMs(now: nat, since: nat): nat {
    if now < since then 0 else (now - since) / NANOS_PER_MILLI
  }

  /** Whole milliseconds reach a positive bound exactly when that many millions of nanoseconds have passed. */
  lemma ElapsedExactly(now: nat, since: nat, ms: nat)
    ensures ElapsedMs(now, since) >= ms <==> ms == 0 || now >= since + ms * 1_000_000
  {
  }

  /** What the read-locked phase of `can_proceed` decides. */
  datatype ReadDecision = Admit | Reject | Upgrade

  function ReadState(state: CircuitState, config: BreakerConfig, now: nat): ReadDecision {
    match state
    case Closed(_) => Admit
    case Open(since) => if ElapsedMs(now, since) < config.recoveryTimeoutMs then Reject else Upgrade
    case HalfOpen(testInProgress) => if testInProgress then Reject else Admit
  }

  /** Whether the write-locked phase admits the request; it does so by moving to HalfOpen. */
  predicate WriteAdmits(state: CircuitState, config: BreakerConfig, now: nat) {
    state.Open? && ElapsedMs(now, state.since) >= config.recoveryTimeoutMs
  }

  function AfterWrite(state: CircuitState, config: BreakerConfig, now: nat): CircuitState {
    if WriteAdmits(state, config, now) then HalfOpen(true) else state
  }

  function AfterSuccess(state: CircuitState): CircuitState {
    Closed(0)
  }

  /** A closed breaker never holds as many failures as open it. */
  predicate Wellformed(state: CircuitState, config: BreakerConfig) {
    state.Closed? ==> state.consecutiveFailures < config.TripCount()
  }

  function AfterFailure(state: CircuitState, config: BreakerConfig, now: nat): CircuitState
    requires Wellformed(state, config)
  {
    match state
    case Closed(failures) =>
      if failures + 1 >= config.failureThreshold then Open(now) else Closed(failures + 1)
    case HalfOpen(_) => Open(now)
    case Open(_) => state
  }

  class CircuitBreaker {
    var state: CircuitState
    const config: BreakerConfig

    ghost predicate Valid()
      reads this
    {
      Wellformed(state, config)
    }

    constructor (config: BreakerConfig)
      ensures this.config == config && state == Closed(0) && Valid()
    {
      this.config := config;
      state := Closed(0);
    }

    method ReadPhase(now: nat) returns (decision: ReadDecision)
      ensures decision == ReadState(state, config, now)
    {
      match state
      case Closed(_) => return Admit;
      case Open(since) =>
        var elapsed := ElapsedMs(now, since);
        if elapsed < config.recoveryTimeoutMs {
          return Reject;
        }
        return Upgrade;
      case HalfOpen(testInProgress) =>
        return if testInProgress then Reject else Admit;
    }

    method WritePhase(now: nat) returns (admitted: bool)
      requires Valid()
      modifies this`state
      ensures Valid() && admitted == WriteAdmits(old(state), config, now)
      ensures state == AfterWrite(old(state), config, now)
    {
      if state.Open? {
        var elapsed := ElapsedMs(now, state.since);
        if elapsed >= config.recoveryTimeoutMs {
          state := HalfOpen(true);
          return true;
        }
      }
      return false;
    }

    method CanProceed(now: nat) returns (admitted: bool)
      requires Valid()
      modifies this`state
      ensures Valid()
      ensures ReadState(old(state), config, now).Upgrade? ==>
        admitted == WriteAdmits(old(state), config, now) && state == AfterWrite(old(state), config, now)
      ensures !ReadState(old(state), config, now).Upgrade? ==>
        admitted == ReadState(old(state), config, now).Admit? && state == old(state)
    {
      var decision := ReadPhase(now);
      if decision.Upgrade? {
        admitted := WritePhase(now);
      } else {
        admitted := decision.Admit?;
      }
    }

    method RecordSuccess()
      modifies this`state
      ensures Valid() && state == AfterSuccess(old(state))
    {
      state := Closed(0);
    }

    method RecordFailure(now: nat)
      requires Valid()
      modifies this`state
      ensures Valid() && state == AfterFailure(old(state), config, now)
    {
      match state
      case Closed(consecutiveFailures) =>
        var newCount: U32 := consecutiveFailures + 1;
        if newCount >= config.failureThreshold {
          state := Open(now);
        } else {
          state := Closed(newCount);
        }
      case HalfOpen(_) =>
        state := Open(now);
      case Open(_) =>
    }
  }

  // ----- histories -----

  /** What a breaker lives through, in the order of its lock acquisitions. */
  datatype BreakerEvent =
    | Passed(request: nat)                     // admitted while closed
    | Probed(request: nat, now: nat)           // admitted by the transition to half-open, with the instant it used
    | Succeeded(request: nat)
    | FailedAt(request: nat, now: nat)
  {
    predicate Admits() { Passed? || Probed? }
    predicate Records() { Succeeded? || FailedAt? }
  }

  function Apply(state: CircuitState, config: BreakerConfig, event: BreakerEvent): (next: CircuitState)
    requires Wellformed(state, config)
    ensures Wellformed(next, config)
  {
    match event
    case Passed(_) => state
    case Probed(_, _) => HalfOpen(true)
    case Succeeded(_) => AfterSuccess(state)
    case FailedAt(_, now) => AfterFailure(state, config, now)
  }

  /** The state a history leads to. */
  function Replay(history: seq<BreakerEvent>, config: BreakerConfig): (state: CircuitState)
    ensures Wellformed(state, config)
  {
    if history == [] then Closed(0) else
    Apply(Replay(history[..|history| - 1], config), config, history[|history| - 1])
  }

  /** Admissions happen as the two phases allow them. */
  ghost predicate Lawful(history: seq<BreakerEvent>, config: BreakerConfig) {
    forall j: nat {:trigger LawfulAt(history, config, j)} :: j < |history| ==> LawfulAt(history, config, j)
  }

  ghost predicate LawfulAt(history: seq<BreakerEvent>, config: BreakerConfig, j: nat)
    requires j < |history|
  {
    var before := Replay(history[..j], config);
    match history[j]
    case Passed(_) => before.Closed?
    case Probed(_, now) => before.Open? && ElapsedMs(now, before.since) >= config.recoveryTimeoutMs
    case _ => true
  }

  lemma LawfulExtend(history: seq<BreakerEvent>, config: BreakerConfig, event: BreakerEvent)
    requires Lawful(history, config)
    requires event.Passed? ==> Replay(history, config).Closed?
    requires event.Probed? ==> WriteAdmits(Replay(history, config), config, event.now)
    ensures Lawful(history + [event], config)
    ensures Replay(history + [event], config) == Apply(Replay(history, config), config, event)
  {
    var all := history + [event];
    assert all[..|history|] == history;
    forall j: nat | j < |all| ensures LawfulAt(all, config, j) {
      if j < |history| {
        assert LawfulAt(history, config, j);
        assert all[..j] == history[..j];
      }
    }
  }

  /** While half-open the breaker admits nobody: its next event is a recorded outcome. */
  lemma HalfOpenWaitsForRecord(history: seq<BreakerEvent>, config: BreakerConfig, i: nat)
    requires Lawful(history, config) && i < |history| && Replay(history[..i], config).HalfOpen?
    ensures history[i].Records()
  {
    assert LawfulAt(history, config, i);
  }

  lemma ReplayStep(history: seq<BreakerEvent>, config: BreakerConfig, j: nat)
    requires j < |history|
    ensures Replay(history[..j + 1], config) == Apply(Replay(history[..j], config), config, history[j])
  {
    assert history[..j + 1][..j] == history[..j];
  }

  /** A breaker that is not closed admits at most one request before the next recorded outcome. */
  lemma AtMostOneAdmission(history: seq<BreakerEvent>, config: BreakerConfig, i: nat, j: nat)
    requires Lawful(history, config) && i < j < |history|
    requires !Replay(history[..i], config).Closed?
    requires history[i].Admits() && history[j].Admits()
    ensures i + 1 < j && history[i + 1].Records()
  {
    assert LawfulAt(history, config, i);
    ReplayStep(history, config, i);
    HalfOpenWaitsForRecord(history, config, i + 1);
  }

  /** While half-open, the latest event is the probe's admission. */
  lemma HalfOpenEndsInProbe(history: seq<BreakerEvent>, config: BreakerConfig)
    requires Lawful(history, config) && Replay(history, config).HalfOpen?
    ensures history != [] && history[|history| - 1].Probed?
  {
    assert LawfulAt(history, config, |history| - 1);
  }

  // ----- the breaker as a function of the recorded outcomes -----

  /** How many failures have been recorded since the last success. */
  function TrailingFailures(history: seq<BreakerEvent>): nat {
    if history == [] then 0 else
    match history[|history| - 1]
    case Succeeded(_) => 0
    case FailedAt(_, _) => 1 + TrailingFailures(history[..|history| - 1])
    case _ => TrailingFailures(history[..|history| - 1])
  }

  lemma LawfulPrefix(history: seq<BreakerEvent>, config: BreakerConfig, n: nat)
    requires Lawful(history, config) && n <= |history|
    ensures Lawful(history[..n], config)
  {
    forall j: nat | j < n ensures LawfulAt(history[..n], config, j) {
      assert LawfulAt(history, config, j);
      assert history[..n][..j] == history[..j];
    }
  }

  /** The breaker is Closed{k} exactly when k failures trail and k is below the threshold, one at least; otherwise it
      is open or half-open. In particular the failure counter never overflows. */
  lemma {:induction false} StateRefinesHistory(history: seq<BreakerEvent>, config: BreakerConfig)
    requires Lawful(history, config)
    ensures var k := TrailingFailures(history);
      if k == 0 || k < config.failureThreshold then Replay(history, config) == Closed(k)
      else !Replay(history, config).Closed?
    decreases |history|
  {
    if history != [] {
      var m := |history| - 1;
      LawfulPrefix(history, config, m);
      StateRefinesHistory(history[..m], config);
      assert LawfulAt(history, config, m);
    }
  }

  // ----- when a breaker opened, told from the events alone -----

  /** Event k is the failure that opens the breaker: the probe's own, or the one that completes the threshold. */
  ghost predicate OpensAt(history: seq<BreakerEvent>, config: BreakerConfig, k: nat) {
    && k < |history|
    && history[k].FailedAt?
    && var threshold := if config.failureThreshold > 1 then config.failureThreshold else 1;
       || (k > 0 && history[k - 1].Probed?)
       || TrailingFailures(history[..k]) < threshold <= TrailingFailures(history[..k + 1])
  }

  /** From a to b-1 nothing succeeded and nobody was admitted. */
  ghost predicate OnlyFailures(history: seq<BreakerEvent>, a: nat, b: nat) {
    forall j {:trigger history[j]} :: a <= j < b && j < |history| ==> history[j].FailedAt?
  }

  /** An open breaker was opened by the latest failure that can have done so, and has been open since. */
  lemma {:induction false} OpenSinceFailure(history: seq<BreakerEvent>, config: BreakerConfig) returns (k: nat)
    requires Lawful(history, config) && Replay(history, config).Open?
    ensures OpensAt(history, config, k) && OnlyFailures(history, k, |history|)
    ensures history[k].now == Replay(history, config).since
    decreases |history|
  {
    var m := |history| - 1;
    var front := history[..m];
    LawfulPrefix(history, config, m);
    assert LawfulAt(history, config, m);
    if Replay(front, config).Open? {
      k := OpenSinceFailure(front, config);
      assert front[..k] == history[..k] && front[..k + 1] == history[..k + 1];
      assert forall j :: 0 <= j < m ==> front[j] == history[j];
    } else {
      k := m;
      OpensNow(history, config, front);
    }
  }

  lemma OpensNow(history: seq<BreakerEvent>, config: BreakerConfig, front: seq<BreakerEvent>)
    requires Lawful(history, config) && Replay(history, config).Open?
    requires history != [] && front == history[..|history| - 1] && Lawful(front, config) && !Replay(front, config).Open?
    ensures OpensAt(history, config, |history| - 1)
    ensures history[|history| - 1].now == Replay(history, config).since
  {
    var m := |history| - 1;
    assert LawfulAt(history, config, m);
    assert history[..m + 1] == history;
    if Replay(front, config).HalfOpen? {
      HalfOpenEndsInProbe(front, config);
    } else {
      StateRefinesHistory(front, config);
      StateRefinesHistory(history, config);
    }
  }

  /** Whoever a non-closed breaker admits is its probe, and comes no earlier than the recovery timeout after the
      failure that opened the breaker. */
  lemma ProbeWaitsForRecovery(history: seq<BreakerEvent>, config: BreakerConfig, i: nat) returns (k: nat)
    requires Lawful(history, config) && i < |history| && !Replay(history[..i], config).Closed? && history[i].Admits()
    ensures history[i].Probed?
    ensures k < i && OpensAt(history, config, k) && OnlyFailures(history, k, i)
    ensures config.recoveryTimeoutMs > 0 ==>
      history[i].now >= history[k].now + config.recoveryTimeoutMs * 1_000_000
    ensures Replay(history[..i + 1], config) == HalfOpen(true)
  {
    var before := history[..i];
    assert LawfulAt(history, config, i);
    ReplayStep(history, config, i);
    LawfulPrefix(history, config, i);
    k := OpenSinceFailure(before, config);
    assert before[..k] == history[..k] && before[..k + 1] == history[..k + 1];
    assert forall j :: 0 <= j < i ==> before[j] == history[j];
    if config.recoveryTimeoutMs > 0 {
      ElapsedExactly(history[i].now, history[k].now, config.recoveryTimeoutMs);
    }
  }

  /** What a breaker decides, told from its events alone. Below the threshold it admits. Behind a probe it rejects.
      Otherwise it was opened by some failure, rejects until the recovery timeout after that one has passed, and
      lets through both phases of the decision from then on. */
  lemma DecisionFromHistory(history: seq<BreakerEvent>, config: BreakerConfig, now: nat) returns (k: nat)
    requires Lawful(history, config)
    ensures var decision, failures := ReadState(Replay(history, config), config, now), TrailingFailures(history);
      if failures == 0 || failures < config.failureThreshold then decision.Admit?
      else if history[|history| - 1].Probed? then decision.Reject?
      else
        && OpensAt(history, config, k) && OnlyFailures(history, k, |history|)
        && (if config.recoveryTimeoutMs == 0 || now >= history[k].now + config.recoveryTimeoutMs * 1_000_000
            then decision.Upgrade? else decision.Reject?)
    ensures WriteAdmits(Replay(history, config), config, now) <==>
      ReadState(Replay(history, config), config, now).Upgrade?
  {
    StateRefinesHistory(history, config);
    k := 0;
    if Replay(history, config).HalfOpen? {
      HalfOpenEndsInProbe(history, config);
      HalfOpenIsProbing(history, config);
    } else if Replay(history, config).Open? {
      k := OpenSinceFailure(history, config);
      assert history[|history| - 1].FailedAt?;
      ElapsedExactly(now, history[k].now, config.recoveryTimeoutMs);
    }
  }

  lemma HalfOpenIsProbing(history: seq<BreakerEvent>, config: BreakerConfig)
    requires history != [] && history[|history| - 1].Probed?
    ensures Replay(history, config) == HalfOpen(true)
  {
  }
}
