/** The gateway object and its `chat` loop, in place. Every statement that touches shared state is one step of the
    concurrent protocol, so the object never leaves the protocol's reachable states
    (crates/vil_ai_gateway/src/gateway.rs:59-232). */
module Gateway {
  import opened Seqs
  import opened Breaker
  import opened Health
  import opened Metrics
  import opened GatewayProtocol
  import opened GatewayRuns
  import opened Routing

  lemma InitialIsReachable(models: set<string>, config: BreakerConfig, clock: nat)
    ensures Reachable(Initial(models, config, clock))
  {
    var run := [Initial(models, config, clock)];
    assert IsRun(run) && run[|run| - 1] == Initial(models, config, clock);
  }

  /** A closed breaker for every model; a repeated name gets the later one. */
  method MakeBreakers(models: seq<string>, config: BreakerConfig) returns (breakers: map<string, CircuitBreaker>)
    ensures breakers.Keys == Elements(models)
    ensures forall b :: b in breakers ==>
      fresh(breakers[b]) && breakers[b].config == config && breakers[b].state == Closed(0)
    ensures forall a, b :: a in breakers && b in breakers && a != b ==> breakers[a] != breakers[b]
  {
    breakers := map[];
    for k := 0 to |models|
      invariant breakers.Keys == Elements(models[..k])
      invariant forall b :: b in breakers ==>
        fresh(breakers[b]) && breakers[b].config == config && breakers[b].state == Closed(0)
      invariant forall a, b :: a in breakers && b in breakers && a != b ==> breakers[a] != breakers[b]
    {
      var cb := new CircuitBreaker(config);
      assert models[..k + 1] == models[..k] + [models[k]];
      breakers := breakers[models[k] := cb];
    }
    assert models[..|models|] == models;
  }

  /** Chat c alone has changed, and is now `chat`. */
  ghost predicate OnlyChatMoved(before: State, after: State, c: nat, chat: Chat) {
    && c < |before.chats|
    && after.chats == before.chats[c := chat]
  }

  /** A result that fits the route: nobody to ask exactly on an empty route, a failure note for every entry in route
      order, or an answer by a model of the route after at least one attempt. */
  predicate FitsRoute(result: ChatResult, route: seq<string>) {
    match result
    case NoHealthyProviders => route == []
    case AllProvidersFailed(attempts) => route != [] && SameNames(attempts, route)
    case Answered(model, count) => model in route && 1 <= count <= |route|
  }

  /** Where the read-locked decision takes a chat. */
  function AfterRead(decision: ReadDecision, now: nat): Phase {
    match decision
    case Admit => Admitted
    case Reject => Refused
    case Upgrade => Upgrading(now)
  }

  /** What the outside contributes to one chat: the providers' replies and the time that passes. */
  datatype World = World(reply: nat -> Reply, readDelay: nat -> nat, writeDelay: nat -> nat, callDelay: nat -> nat)

  /** Every failure note is the breaker's refusal or the message of that entry's own reply. */
  predicate NotesFit(world: World, attempts: seq<(string, string)>) {
    forall j :: 0 <= j < |attempts| ==> NoteFits(world, j, attempts[j].1)
  }

  predicate NoteFits(world: World, j: nat, note: string) {
    note == "circuit_breaker_open" || world.reply(j) == Failure(note)
  }

  /** A result that fits the replies: an answer comes from a provider that answered, and the notes fit. */
  predicate FitsReplies(result: ChatResult, route: seq<string>, world: World) {
    match result
    case NoHealthyProviders => true
    case AllProvidersFailed(attempts) => NotesFit(world, attempts)
    case Answered(model, _) => exists i: nat :: i < |route| && route[i] == model && world.reply(i).Answer?
  }

  lemma NotesGrow(world: World, attempts: seq<(string, string)>, model: string, note: string)
    requires NotesFit(world, attempts) && NoteFits(world, |attempts|, note)
    ensures NotesFit(world, attempts + [(model, note)])
  {
  }

  lemma SameProviders(route: seq<string>, providers: seq<string>)
    requires multiset(route) == multiset(providers)
    ensures Elements(route) == Elements(providers)
  {
    forall x ensures x in route <==> x in providers {
      assert x in multiset(route) <==> x in multiset(providers);
    }
  }

  /** The model's tracker has taken one sample: the reply's own latency, or an error. */
  ghost predicate HealthTold(before: map<string, ModelHealth>, after: map<string, ModelHealth>, model: string,
                             reply: Reply)
  {
    match reply
    case Answer(latencyMs) => after == before[model := AfterSample(StateOf(before, model), Sample(false, latencyMs))]
    case Failure(_) => after == before[model := AfterSample(StateOf(before, model), Sample(true, 0))]
  }

  class AiGateway {
    const config: BreakerConfig
    const health: HealthTracker
    const metrics: GatewayMetrics
    const breakers: map<string, CircuitBreaker>
    var clock: nat
    ghost var proto: State

    /** The objects hold what the protocol state says, and that state can be reached. */
    ghost predicate Valid()
      reads this, health, metrics, breakers.Values
    {
      && Reachable(proto)
      && proto.config == config
      && proto.clock == clock
      && proto.health == health.models
      && proto.counters == metrics.counters
      && BreakersMatch()
    }

    ghost predicate BreakersMatch()
      reads this, breakers.Values
    {
      && proto.breakers.Keys == breakers.Keys
      && (forall b :: b in breakers ==>
            breakers[b].config == config && breakers[b].Valid() && breakers[b].state == proto.breakers[b])
      && (forall a, b :: a in breakers && b in breakers && a != b ==> breakers[a] != breakers[b])
    }

    ghost predicate ChatAt(c: nat, order: seq<string>, i: nat, phase: Phase, attemptCount: nat,
                           attempts: seq<(string, string)>)
      reads this
    {
      c < |proto.chats| && proto.chats[c] == GatewayProtocol.Chat.Chat(order, i, phase, attemptCount, attempts)
    }

    constructor (models: seq<string>, config: BreakerConfig)
      ensures Valid() && this.config == config && breakers.Keys == Elements(models)
      ensures fresh(health) && fresh(metrics) && fresh(breakers.Values)
      ensures proto == Initial(Elements(models), config, 0)
    {
      this.config := config;
      health := new HealthTracker();
      metrics := new GatewayMetrics();
      var made := MakeBreakers(models, config);
      breakers := made;
      clock := 0;
      proto := Initial(Elements(models), config, 0);
      new;
      InitialIsReachable(Elements(models), config, 0);
    }

    ghost method Take(a: Action)
      requires Reachable(proto) && Enabled(proto, a)
      modifies this`proto
      ensures a.Advance? ==> Placed(old(proto), a.chat)
      ensures Reachable(proto) && proto == Step(old(proto), a)
    {
      ReachableStep(proto, a);
      proto := Step(proto, a);
    }

    /** Lets time pass. */
    method Wait(nanos: nat)
      requires Valid()
      modifies this`proto, this`clock
      ensures Valid() && proto == old(proto).(clock := clock)
    {
      clock := clock + nanos;
      Take(Tick(nanos));
    }

    /** `can_proceed` starts by reading the clock. */
    ghost method BeginEntry(c: nat, order: seq<string>, i: nat, attemptCount: nat, attempts: seq<(string, string)>)
      requires Valid() && i < |order| && ChatAt(c, order, i, AtEntry, attemptCount, attempts)
      modifies this`proto
      ensures Valid() && ChatAt(c, order, i, Reading(clock), attemptCount, attempts)
      ensures OnlyChatMoved(old(proto), proto, c, proto.chats[c])
    {
      Take(Advance(c));
    }

    /** The read-locked phase. */
    method ReadBreaker(now: nat, ghost c: nat, order: seq<string>, i: nat, ghost attemptCount: nat,
                       ghost attempts: seq<(string, string)>)
      returns (decision: ReadDecision)
      requires Valid() && i < |order| && order[i] in breakers
      requires ChatAt(c, order, i, Reading(now), attemptCount, attempts)
      modifies this`proto
      ensures Valid()
      ensures ChatAt(c, order, i, AfterRead(decision, now), attemptCount, attempts)
      ensures OnlyChatMoved(old(proto), proto, c, proto.chats[c])
    {
      decision := breakers[order[i]].ReadPhase(now);
      Take(Advance(c));
    }

    /** The write-locked phase. */
    method WriteBreaker(now: nat, ghost c: nat, order: seq<string>, i: nat, ghost attemptCount: nat,
                        ghost attempts: seq<(string, string)>)
      returns (admitted: bool)
      requires Valid() && i < |order| && order[i] in breakers
      requires ChatAt(c, order, i, Upgrading(now), attemptCount, attempts)
      modifies this`proto, breakers[order[i]]
      ensures Valid()
      ensures ChatAt(c, order, i, if admitted then Admitted else Refused, attemptCount, attempts)
      ensures OnlyChatMoved(old(proto), proto, c, proto.chats[c])
    {
      admitted := breakers[order[i]].WritePhase(now);
      Take(Advance(c));
    }

    /** `can_proceed` up to the read-locked decision. */
    method AskBreaker(world: World, ghost c: nat, order: seq<string>, i: nat, ghost attemptCount: nat,
                      ghost attempts: seq<(string, string)>)
      returns (now: nat, decision: ReadDecision)
      requires Valid() && i < |order| && order[i] in breakers
      requires ChatAt(c, order, i, AtEntry, attemptCount, attempts)
      modifies this`proto, this`clock
      ensures Valid()
      ensures ChatAt(c, order, i, AfterRead(decision, now), attemptCount, attempts)
      ensures OnlyChatMoved(old(proto), proto, c, proto.chats[c])
    {
      now := clock;
      BeginEntry(c, order, i, attemptCount, attempts);
      Wait(world.readDelay(i));
      decision := ReadBreaker(now, c, order, i, attemptCount, attempts);
    }

    /** `can_proceed` for entry i of the chat's order. */
    method TryAdmit(world: World, ghost c: nat, order: seq<string>, i: nat, ghost attemptCount: nat,
                    ghost attempts: seq<(string, string)>)
      returns (admitted: bool)
      requires Valid() && i < |order| && order[i] in breakers
      requires ChatAt(c, order, i, AtEntry, attemptCount, attempts)
      modifies this`proto, this`clock, breakers[order[i]]
      ensures Valid()
      ensures ChatAt(c, order, i, if admitted then Admitted else Refused, attemptCount, attempts)
      ensures OnlyChatMoved(old(proto), proto, c, proto.chats[c])
    {
      var now, decision := AskBreaker(world, c, order, i, attemptCount, attempts);
      if decision.Upgrade? {
        Wait(world.writeDelay(i));
        admitted := WriteBreaker(now, c, order, i, attemptCount, attempts);
      } else {
        admitted := decision.Admit?;
      }
    }

    /** Notes a refused entry and moves on. */
    method NoteRefusal(ghost c: nat, order: seq<string>, i: nat, ghost attemptCount: nat,
                       attempts: seq<(string, string)>)
      returns (noted: seq<(string, string)>)
      requires Valid() && i < |order| && ChatAt(c, order, i, Refused, attemptCount, attempts)
      modifies this`proto, metrics
      ensures Valid() && noted == attempts + [(order[i], "circuit_breaker_open")]
      ensures ChatAt(c, order, i + 1, AtEntry, attemptCount, noted)
      ensures OnlyChatMoved(old(proto), proto, c, proto.chats[c])
    {
      metrics.RecordCircuitRejection();
      noted := attempts + [(order[i], "circuit_breaker_open")];
      Take(Advance(c));
    }

    /** Counts the attempt, and a failover from the second one on. */
    method CountAttempt(ghost c: nat, order: seq<string>, i: nat, attemptCount: nat,
                        ghost attempts: seq<(string, string)>)
      returns (count: nat)
      requires Valid() && i < |order| && ChatAt(c, order, i, Admitted, attemptCount, attempts)
      modifies this`proto, metrics
      ensures Valid() && count == attemptCount + 1 && ChatAt(c, order, i, Calling, count, attempts)
      ensures OnlyChatMoved(old(proto), proto, c, proto.chats[c])
    {
      count := attemptCount + 1;
      if count > 1 {
        metrics.RecordFailover();
      }
      Take(Advance(c));
    }

    /** Counts the attempt and waits for the provider's reply. */
    method CallProvider(world: World, ghost c: nat, order: seq<string>, i: nat, attemptCount: nat,
                        ghost attempts: seq<(string, string)>)
      returns (count: nat, reply: Reply)
      requires Valid() && i < |order| && ChatAt(c, order, i, Admitted, attemptCount, attempts)
      modifies this`proto, this`clock, metrics
      ensures Valid() && count == attemptCount + 1 && reply == world.reply(i)
      ensures ChatAt(c, order, i, Returned(reply), count, attempts)
      ensures OnlyChatMoved(old(proto), proto, c, proto.chats[c])
    {
      count := CountAttempt(c, order, i, attemptCount, attempts);
      Wait(world.callDelay(i));
      reply := world.reply(i);
      Take(Return(c, reply));
    }

    /** Reports the reply to the health tracker. */
    method TellHealth(reply: Reply, ghost c: nat, order: seq<string>, i: nat, ghost attemptCount: nat,
                      ghost attempts: seq<(string, string)>)
      requires Valid() && i < |order| && ChatAt(c, order, i, Returned(reply), attemptCount, attempts)
      modifies this`proto, health
      ensures Valid() && ChatAt(c, order, i, HealthRecorded(reply), attemptCount, attempts)
      ensures HealthTold(old(health.models), health.models, order[i], reply)
      ensures OnlyChatMoved(old(proto), proto, c, proto.chats[c])
    {
      match reply {
        case Answer(latencyMs) => health.RecordSuccess(order[i], latencyMs);
        case Failure(_) => health.RecordFailure(order[i]);
      }
      Take(Advance(c));
    }

    /** Reports the reply to the model's breaker. */
    method TellBreaker(reply: Reply, ghost c: nat, order: seq<string>, i: nat, ghost attemptCount: nat,
                       ghost attempts: seq<(string, string)>)
      requires Valid() && i < |order| && order[i] in breakers
      requires ChatAt(c, order, i, HealthRecorded(reply), attemptCount, attempts)
      modifies this`proto, breakers[order[i]]
      ensures Valid() && ChatAt(c, order, i, BreakerRecorded(reply), attemptCount, attempts)
      ensures OnlyChatMoved(old(proto), proto, c, proto.chats[c])
    {
      match reply {
        case Answer(_) => breakers[order[i]].RecordSuccess();
        case Failure(_) => breakers[order[i]].RecordFailure(clock);
      }
      Take(Advance(c));
    }

    method CountSuccess(ghost reply: Reply, ghost c: nat, order: seq<string>, i: nat, attemptCount: nat,
                        ghost attempts: seq<(string, string)>)
      requires Valid() && i < |order| && reply.Answer?
      requires ChatAt(c, order, i, BreakerRecorded(reply), attemptCount, attempts)
      modifies this`proto, metrics
      ensures Valid() && ChatAt(c, order, i, Finished(Answered(order[i], attemptCount)), attemptCount, attempts)
      ensures OnlyChatMoved(old(proto), proto, c, proto.chats[c])
    {
      metrics.RecordSuccess();
      Take(Advance(c));
    }

    ghost method NoteFailure(reply: Reply, c: nat, order: seq<string>, i: nat, attemptCount: nat,
                             attempts: seq<(string, string)>)
      requires Valid() && i < |order| && reply.Failure?
      requires ChatAt(c, order, i, BreakerRecorded(reply), attemptCount, attempts)
      modifies this`proto
      ensures Valid() && ChatAt(c, order, i + 1, AtEntry, attemptCount, attempts + [(order[i], reply.message)])
      ensures OnlyChatMoved(old(proto), proto, c, proto.chats[c])
    {
      Take(Advance(c));
    }

    method CountFailure(ghost c: nat, order: seq<string>, ghost attemptCount: nat,
                        ghost attempts: seq<(string, string)>)
      requires Valid() && ChatAt(c, order, |order|, AtEntry, attemptCount, attempts)
      modifies this`proto, metrics
      ensures Valid() && ChatAt(c, order, |order|, Finished(AllProvidersFailed(attempts)), attemptCount, attempts)
      ensures OnlyChatMoved(old(proto), proto, c, proto.chats[c])
    {
      metrics.RecordFailure();
      Take(Advance(c));
    }

    method Begin(order: seq<string>) returns (ghost c: nat)
      requires Valid() && Elements(order) <= breakers.Keys
      modifies this`proto, metrics
      ensures Valid() && c == |old(proto).chats| && proto.chats == old(proto).chats + [NewChat(order)]
    {
      metrics.RecordRequest();
      c := |proto.chats|;
      Take(Start(order));
    }

    /** Reports the reply to the health tracker, then to the breaker. */
    method Report(reply: Reply, ghost c: nat, order: seq<string>, i: nat, ghost attemptCount: nat,
                  ghost attempts: seq<(string, string)>)
      requires Valid() && i < |order| && order[i] in breakers
      requires ChatAt(c, order, i, Returned(reply), attemptCount, attempts)
      modifies this`proto, health, breakers[order[i]]
      ensures Valid() && ChatAt(c, order, i, BreakerRecorded(reply), attemptCount, attempts)
      ensures HealthTold(old(health.models), health.models, order[i], reply)
      ensures OnlyChatMoved(old(proto), proto, c, proto.chats[c])
    {
      TellHealth(reply, c, order, i, attemptCount, attempts);
      TellBreaker(reply, c, order, i, attemptCount, attempts);
    }

    /** Counts an answer, or notes a failure and moves on. */
    method Settle(reply: Reply, ghost c: nat, order: seq<string>, i: nat, attemptCount: nat,
                  attempts: seq<(string, string)>)
      returns (noted: seq<(string, string)>)
      requires Valid() && i < |order| && ChatAt(c, order, i, BreakerRecorded(reply), attemptCount, attempts)
      modifies this`proto, metrics
      ensures Valid() && noted == if reply.Answer? then attempts else attempts + [(order[i], reply.message)]
      ensures ChatAt(c, order, if reply.Answer? then i else i + 1,
                     if reply.Answer? then Finished(Answered(order[i], attemptCount)) else AtEntry, attemptCount, noted)
      ensures OnlyChatMoved(old(proto), proto, c, proto.chats[c])
    {
      match reply {
        case Answer(_) =>
          CountSuccess(reply, c, order, i, attemptCount, attempts);
          noted := attempts;
        case Failure(message) =>
          NoteFailure(reply, c, order, i, attemptCount, attempts);
          noted := attempts + [(order[i], message)];
      }
    }

    /** Calls the provider of entry i and reports its reply. */
    method CallAndReport(world: World, ghost c: nat, order: seq<string>, i: nat, attemptCount: nat,
                         ghost attempts: seq<(string, string)>)
      returns (count: nat, reply: Reply)
      requires Valid() && i < |order| && order[i] in breakers
      requires ChatAt(c, order, i, Admitted, attemptCount, attempts)
      modifies this`proto, this`clock, metrics, health, breakers[order[i]]
      ensures Valid() && count == attemptCount + 1 && reply == world.reply(i)
      ensures ChatAt(c, order, i, BreakerRecorded(reply), count, attempts)
      ensures OnlyChatMoved(old(proto), proto, c, proto.chats[c])
    {
      count, reply := CallProvider(world, c, order, i, attemptCount, attempts);
      Report(reply, c, order, i, count, attempts);
    }

    /** Entry i is done: the chat has its answer, or has noted the entry and stands before the next one. */
    ghost predicate EntryDone(world: World, c: nat, order: seq<string>, i: nat, answered: bool, count: nat,
                              noted: seq<(string, string)>)
      reads this
    {
      && NotesFit(world, noted)
      && i < |order|
      && if answered
         then world.reply(i).Answer? && ChatAt(c, order, i, Finished(Answered(order[i], count)), count, noted)
         else |noted| == i + 1 && ChatAt(c, order, i + 1, AtEntry, count, noted)
    }

    /** One attempt at entry i, from the admission to the answer or the note. */
    method Attempt(world: World, ghost c: nat, order: seq<string>, i: nat, attemptCount: nat,
                   attempts: seq<(string, string)>)
      returns (answered: bool, count: nat, noted: seq<(string, string)>)
      requires Valid() && i < |order| && order[i] in breakers && |attempts| == i && NotesFit(world, attempts)
      requires ChatAt(c, order, i, Admitted, attemptCount, attempts)
      modifies this`proto, this`clock, metrics, health, breakers[order[i]]
      ensures Valid() && count == attemptCount + 1 && EntryDone(world, c, order, i, answered, count, noted)
      ensures OnlyChatMoved(old(proto), proto, c, proto.chats[c])
    {
      var reply;
      count, reply := CallAndReport(world, c, order, i, attemptCount, attempts);
      if reply.Failure? { NotesGrow(world, attempts, order[i], reply.message); }
      noted := Settle(reply, c, order, i, count, attempts);
      answered := reply.Answer?;
    }

    /** Takes one entry of the order: a refusal or a failure is noted, an answer ends the chat. */
    method TryEntry(world: World, ghost c: nat, order: seq<string>, i: nat, attemptCount: nat,
                    attempts: seq<(string, string)>)
      returns (answered: bool, count: nat, noted: seq<(string, string)>)
      requires Valid() && i < |order| && order[i] in breakers && |attempts| == i && NotesFit(world, attempts)
      requires ChatAt(c, order, i, AtEntry, attemptCount, attempts)
      modifies this`proto, this`clock, metrics, health, breakers[order[i]]
      ensures Valid() && EntryDone(world, c, order, i, answered, count, noted)
      ensures attemptCount <= count <= attemptCount + 1 && (answered ==> count > attemptCount)
      ensures OnlyChatMoved(old(proto), proto, c, proto.chats[c])
    {
      var admitted := TryAdmit(world, c, order, i, attemptCount, attempts);
      if admitted {
        answered, count, noted := Attempt(world, c, order, i, attemptCount, attempts);
      } else {
        NotesGrow(world, attempts, order[i], "circuit_breaker_open");
        answered, count := false, attemptCount;
        noted := NoteRefusal(c, order, i, attemptCount, attempts);
      }
    }

    /** Routes one chat through the given order of models. The outcome is the one the protocol assigns to this chat,
        the other chats are untouched, and the gateway stays in a reachable state. */
    method Chat(order: seq<string>, world: World) returns (result: ChatResult)
      requires Valid() && Elements(order) <= breakers.Keys
      modifies this`proto, this`clock, health, metrics, breakers.Values
      ensures Valid()
      ensures |proto.chats| == |old(proto).chats| + 1 && proto.chats[..|old(proto).chats|] == old(proto).chats
      ensures proto.chats[|old(proto).chats|].order == order
      ensures proto.chats[|old(proto).chats|].phase == Finished(result)
      ensures FitsRoute(result, order) && FitsReplies(result, order, world)
    {
      ghost var c := Begin(order);
      if order == [] {
        return NoHealthyProviders;
      }
      var attempts: seq<(string, string)> := [];
      var attemptCount := 0;
      for i := 0 to |order|
        invariant Valid()
        invariant ChatAt(c, order, i, AtEntry, attemptCount, attempts)
        invariant |proto.chats| == c + 1 && proto.chats[..c] == old(proto).chats
        invariant attemptCount <= i && |attempts| == i && NotesFit(world, attempts)
      {
        assert order[i] in Elements(order);
        var answered;
        answered, attemptCount, attempts := TryEntry(world, c, order, i, attemptCount, attempts);
        if answered {
          return Answered(order[i], attemptCount);
        }
      }
      CountFailure(c, order, attemptCount, attempts);
      FailureListsTheRoute(proto, c);
      return AllProvidersFailed(attempts);
    }

    /** A chat as the gateway starts it: over a route the policy makes of the configured providers. */
    method RouteAndChat(router: Router, costs: Key, latencies: Key, world: World)
      returns (result: ChatResult, ghost route: seq<string>)
      requires Valid() && Elements(router.providers) <= breakers.Keys && router.roundRobinIdx < USIZE_LIMIT
      modifies this`proto, this`clock, health, metrics, breakers.Values, router`roundRobinIdx
      ensures Valid() && router.roundRobinIdx < USIZE_LIMIT
      ensures multiset(route) == multiset(router.providers)
      ensures FitsRoute(result, route) && FitsReplies(result, route, world)
      ensures |proto.chats| == |old(proto).chats| + 1 && proto.chats[..|old(proto).chats|] == old(proto).chats
      ensures proto.chats[|old(proto).chats|].order == route
      ensures proto.chats[|old(proto).chats|].phase == Finished(result)
    {
      var ordered := router.RouteOrder(costs, latencies);
      route := ordered;
      SameProviders(ordered, router.providers);
      result := Chat(ordered, world);
    }
  }
}
