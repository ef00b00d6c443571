/** Concurrent chats through the gateway, one atomic step at a time: lock acquisitions, counter increments and
    clock readings are separate steps, provider calls return anything at any time
    (crates/vil_ai_gateway/src/gateway.rs:149-232). */
module GatewayProtocol {
  import opened Seqs
  import opened Breaker
  import opened Health
  import opened Metrics

  /** How a provider call ends; a timeout is a failure with the message "timeout". */
  datatype Reply = Answer(latencyMs: nat) | Failure(message: string)

  datatype ChatResult =
    | Answered(model: string, attemptCount: nat)
    | AllProvidersFailed(attempts: seq<(string, string)>)
    | NoHealthyProviders

  /** Where a chat stands; all phases but AtEntry and Finished concern entry `next` of its order. */
  datatype Phase =
    | AtEntry
    | Reading(now: nat)
    | Upgrading(now: nat)
    | Refused
    | Admitted
    | Calling
    | Returned(reply: Reply)
    | HealthRecorded(reply: Reply)
    | BreakerRecorded(reply: Reply)
    | Finished(result: ChatResult)

  datatype Chat = Chat(
    order: seq<string>,
    next: nat,
    phase: Phase,
    attemptCount: nat,
    attempts: seq<(string, string)>)
  {
    /** Admitted by the breaker of model b and not yet recorded there. */
    predicate InFlightFor(b: string) {
      && next < |order| && order[next] == b
      && (phase.Admitted? || phase.Calling? || phase.Returned? || phase.HealthRecorded?)
    }
  }

  datatype State = State(
    clock: nat,
    config: BreakerConfig,
    breakers: map<string, CircuitState>,
    health: map<string, ModelHealth>,
    counters: Counters,
    chats: seq<Chat>,
    history: map<string, seq<BreakerEvent>>)

  datatype Action =
    | Tick(nanos: nat)
    | Start(order: seq<string>)
    | Advance(chat: nat)
    | Return(chat: nat, reply: Reply)

  ghost predicate Enabled(s: State, a: Action) {
    match a
    case Tick(_) => true
    case Start(order) => Elements(order) <= s.breakers.Keys
    case Advance(c) => c < |s.chats| && !s.chats[c].phase.Calling? && !s.chats[c].phase.Finished?
    case Return(c, _) => c < |s.chats| && s.chats[c].phase.Calling?
  }

  /** The chat is at an entry of its order that has a breaker, and the breaker is well formed. */
  ghost predicate Placed(s: State, c: nat) {
    && c < |s.chats|
    && var chat := s.chats[c];
       && chat.next <= |chat.order|
       && (!chat.phase.AtEntry? && !chat.phase.Finished? ==> chat.next < |chat.order|)
       && (chat.next < |chat.order| ==>
             chat.order[chat.next] in s.breakers && chat.order[chat.next] in s.history &&
             Wellformed(s.breakers[chat.order[chat.next]], s.config))
  }

  function Log(history: map<string, seq<BreakerEvent>>, b: string, e: BreakerEvent): map<string, seq<BreakerEvent>>
    requires b in history
  {
    history[b := history[b] + [e]]
  }

  function WithChat(s: State, c: nat, chat: Chat): State
    requires c < |s.chats|
  {
    s.(chats := s.chats[c := chat])
  }

  function NextEntry(chat: Chat, note: string): Chat
    requires chat.next < |chat.order|
  {
    chat.(next := chat.next + 1, phase := AtEntry, attempts := chat.attempts + [(chat.order[chat.next], note)])
  }

  function SampleOf(reply: Reply): Sample {
    match reply
    case Answer(latencyMs) => Sample(false, latencyMs)
    case Failure(_) => Sample(true, 0)
  }

  function EventOf(reply: Reply, c: nat, clock: nat): BreakerEvent {
    match reply
    case Answer(_) => Succeeded(c)
    case Failure(_) => FailedAt(c, clock)
  }

  /** One statement of chat c. */
  ghost function Proceed(s: State, c: nat): State
    requires Enabled(s, Advance(c)) && Placed(s, c)
  {
    var chat := s.chats[c];
    match chat.phase
    case AtEntry =>
      if chat.next < |chat.order| then WithChat(s, c, chat.(phase := Reading(s.clock)))
      else
        WithChat(s, c, chat.(phase := Finished(AllProvidersFailed(chat.attempts))))
          .(counters := s.counters.(failures := s.counters.failures + 1))
    case Reading(now) =>
      var b := chat.order[chat.next];
      (match ReadState(s.breakers[b], s.config, now)
       case Admit => WithChat(s, c, chat.(phase := Admitted)).(history := Log(s.history, b, Passed(c)))
       case Reject => WithChat(s, c, chat.(phase := Refused))
       case Upgrade => WithChat(s, c, chat.(phase := Upgrading(now))))
    case Upgrading(now) =>
      var b := chat.order[chat.next];
      if WriteAdmits(s.breakers[b], s.config, now) then
        WithChat(s, c, chat.(phase := Admitted))
          .(breakers := s.breakers[b := HalfOpen(true)], history := Log(s.history, b, Probed(c, now)))
      else WithChat(s, c, chat.(phase := Refused))
    case Refused =>
      WithChat(s, c, NextEntry(chat, "circuit_breaker_open"))
        .(counters := s.counters.(rejections := s.counters.rejections + 1))
    case Admitted =>
      WithChat(s, c, chat.(phase := Calling, attemptCount := chat.attemptCount + 1))
        .(counters := if chat.attemptCount + 1 > 1 then s.counters.(failovers := s.counters.failovers + 1)
                      else s.counters)
    case Returned(reply) =>
      var b := chat.order[chat.next];
      WithChat(s, c, chat.(phase := HealthRecorded(reply)))
        .(health := s.health[b := AfterSample(StateOf(s.health, b), SampleOf(reply))])
    case HealthRecorded(reply) =>
      var b := chat.order[chat.next];
      WithChat(s, c, chat.(phase := BreakerRecorded(reply)))
        .(breakers := s.breakers[b := Apply(s.breakers[b], s.config, EventOf(reply, c, s.clock))],
          history := Log(s.history, b, EventOf(reply, c, s.clock)))
    case BreakerRecorded(reply) =>
      (match reply
       case Answer(_) =>
         WithChat(s, c, chat.(phase := Finished(Answered(chat.order[chat.next], chat.attemptCount))))
           .(counters := s.counters.(successes := s.counters.successes + 1))
       case Failure(message) => WithChat(s, c, NextEntry(chat, message)))
    case _ => s
  }

  ghost function Step(s: State, a: Action): State
    requires Enabled(s, a) && (a.Advance? ==> Placed(s, a.chat))
  {
    match a
    case Tick(nanos) => s.(clock := s.clock + nanos)
    case Start(order) =>
      var phase := if order == [] then Finished(NoHealthyProviders) else AtEntry;
      s.(chats := s.chats + [Chat(order, 0, phase, 0, [])],
         counters := s.counters.(requests := s.counters.requests + 1))
    case Advance(c) => Proceed(s, c)
    case Return(c, reply) => WithChat(s, c, s.chats[c].(phase := Returned(reply)))
  }

  // ----- invariant: every chat walks its order -----

  predicate SameNames(attempts: seq<(string, string)>, names: seq<string>) {
    |attempts| == |names| && forall i :: 0 <= i < |names| ==> attempts[i].0 == names[i]
  }

  /** Entries before `next` have been noted in order; an exhausted chat reports the whole order. */
  ghost predicate ChatOk(s: State, chat: Chat) {
    && Elements(chat.order) <= s.breakers.Keys
    && chat.next <= |chat.order|
    && (!chat.phase.AtEntry? && !chat.phase.Finished? ==> chat.next < |chat.order|)
    && SameNames(chat.attempts, chat.order[..chat.next])
    && (match chat.phase
        case Reading(now) => now <= s.clock
        case Upgrading(now) => now <= s.clock
        case Finished(AllProvidersFailed(attempts)) =>
          chat.next == |chat.order| && attempts == chat.attempts
        case Finished(Answered(model, count)) =>
          chat.next < |chat.order| && model == chat.order[chat.next] && count == chat.attemptCount
        case Finished(NoHealthyProviders) => chat.order == []
        case _ => true)
  }

  ghost predicate ChatsOk(s: State) {
    forall c: nat {:trigger s.chats[c]} :: c < |s.chats| ==> ChatOk(s, s.chats[c])
  }

  // ----- invariant: breakers are what their histories say -----

  ghost predicate BreakerOk(s: State, b: string)
    requires b in s.breakers && b in s.history
  {
    && Lawful(s.history[b], s.config)
    && Replay(s.history[b], s.config) == s.breakers[b]
    && s.breakers[b] != HalfOpen(false)
    && (s.breakers[b].HalfOpen? ==> ProbeInFlight(s, b))
  }

  /** The latest event of b admitted a probe, and that probe's chat has yet to report to b's breaker. */
  ghost predicate ProbeInFlight(s: State, b: string)
    requires b in s.history
  {
    var h := s.history[b];
    && h != []
    && h[|h| - 1].Probed?
    && h[|h| - 1].request < |s.chats|
    && s.chats[h[|h| - 1].request].InFlightFor(b)
  }

  ghost predicate BreakersOk(s: State) {
    && s.breakers.Keys == s.history.Keys
    && forall b {:trigger s.breakers[b]} :: b in s.breakers ==> BreakerOk(s, b)
  }

  ghost predicate Inv(s: State) {
    ChatsOk(s) && BreakersOk(s)
  }

  lemma InvPlaces(s: State, c: nat)
    requires Inv(s) && c < |s.chats|
    ensures Placed(s, c)
  {
    var chat := s.chats[c];
    assert ChatOk(s, chat);
    if chat.next < |chat.order| {
      var b := chat.order[chat.next];
      assert b in Elements(chat.order);
      assert BreakerOk(s, b);
    }
  }

  /** A step that leaves breakers and histories alone and keeps chat c in flight wherever it was keeps them in order. */
  lemma ChatOnlyStep(s: State, s': State, c: nat, chat': Chat)
    requires Inv(s) && c < |s.chats| && s'.chats == s.chats[c := chat'] && ChatOk(s', chat')
    requires s'.breakers == s.breakers && s'.history == s.history && s'.config == s.config && s'.clock == s.clock
    requires forall b :: s.chats[c].InFlightFor(b) ==> chat'.InFlightFor(b)
    ensures Inv(s')
  {
    forall d: nat | d < |s'.chats| ensures ChatOk(s', s'.chats[d]) {
      if d != c { assert ChatOk(s, s.chats[d]); }
    }
    forall b | b in s'.breakers ensures BreakerOk(s', b) {
      assert BreakerOk(s, b);
    }
  }

  /** A step in which chat c acts on the breaker of model b. */
  lemma BreakerStep(s: State, s': State, c: nat, chat': Chat, b: string, e: BreakerEvent)
    requires Inv(s) && c < |s.chats| && s'.chats == s.chats[c := chat'] && ChatOk(s', chat')
    requires b in s.breakers && s'.config == s.config && s'.clock == s.clock
    requires Wellformed(s.breakers[b], s.config)
    requires s'.breakers == s.breakers[b := Apply(s.breakers[b], s.config, e)] && s'.history == Log(s.history, b, e)
    requires e.Passed? ==> s.breakers[b].Closed?
    requires e.Probed? ==> WriteAdmits(s.breakers[b], s.config, e.now) && e.request == c && chat'.InFlightFor(b)
    requires forall x :: x != b && s.chats[c].InFlightFor(x) ==> chat'.InFlightFor(x)
    ensures Inv(s')
  {
    assert BreakerOk(s, b);
    LawfulExtend(s.history[b], s.config, e);
    forall d: nat | d < |s'.chats| ensures ChatOk(s', s'.chats[d]) {
      if d != c { assert ChatOk(s, s.chats[d]); }
    }
    forall x | x in s'.breakers ensures BreakerOk(s', x) {
      assert BreakerOk(s, x);
    }
  }

  lemma NextEntryOk(s: State, chat: Chat, note: string)
    requires ChatOk(s, chat) && chat.next < |chat.order|
    ensures ChatOk(s, NextEntry(chat, note))
  {
    assert chat.order[..chat.next + 1] == chat.order[..chat.next] + [chat.order[chat.next]];
  }

  lemma ReadingKeepsInv(s: State, s': State, c: nat, now: nat)
    requires Inv(s) && c < |s.chats| && s.chats[c].phase == Reading(now) && Placed(s, c) && s' == Proceed(s, c)
    ensures Inv(s')
  {
    var b := s.chats[c].order[s.chats[c].next];
    assert ChatOk(s, s.chats[c]) && BreakerOk(s, b);
    if ReadState(s.breakers[b], s.config, now).Admit? {
      assert s'.breakers == s.breakers[b := s.breakers[b]];
      BreakerStep(s, s', c, s'.chats[c], b, Passed(c));
    } else {
      ChatOnlyStep(s, s', c, s'.chats[c]);
    }
  }

  lemma UpgradingKeepsInv(s: State, s': State, c: nat, now: nat)
    requires Inv(s) && c < |s.chats| && s.chats[c].phase == Upgrading(now) && Placed(s, c) && s' == Proceed(s, c)
    ensures Inv(s')
  {
    var b := s.chats[c].order[s.chats[c].next];
    assert ChatOk(s, s.chats[c]) && BreakerOk(s, b);
    if WriteAdmits(s.breakers[b], s.config, now) {
      BreakerStep(s, s', c, s'.chats[c], b, Probed(c, now));
    } else {
      ChatOnlyStep(s, s', c, s'.chats[c]);
    }
  }

  lemma ReportKeepsInv(s: State, s': State, c: nat, reply: Reply)
    requires Inv(s) && c < |s.chats| && s.chats[c].phase == HealthRecorded(reply) && Placed(s, c) && s' == Proceed(s, c)
    ensures Inv(s')
  {
    var b := s.chats[c].order[s.chats[c].next];
    assert ChatOk(s, s.chats[c]) && BreakerOk(s, b);
    BreakerStep(s, s', c, s'.chats[c], b, EventOf(reply, c, s.clock));
  }

  lemma ProceedKeepsInv(s: State, c: nat)
    requires Inv(s) && Enabled(s, Advance(c)) && Placed(s, c)
    ensures Inv(Proceed(s, c))
  {
    var chat := s.chats[c];
    var s' := Proceed(s, c);
    assert ChatOk(s, chat);
    match chat.phase
    case AtEntry => ChatOnlyStep(s, s', c, s'.chats[c]);
    case Reading(now) => ReadingKeepsInv(s, s', c, now);
    case Upgrading(now) => UpgradingKeepsInv(s, s', c, now);
    case Refused =>
      NextEntryOk(s, chat, "circuit_breaker_open");
      ChatOnlyStep(s, s', c, s'.chats[c]);
    case Admitted => ChatOnlyStep(s, s', c, s'.chats[c]);
    case Returned(reply) => ChatOnlyStep(s, s', c, s'.chats[c]);
    case HealthRecorded(reply) => ReportKeepsInv(s, s', c, reply);
    case BreakerRecorded(reply) =>
      if reply.Failure? { NextEntryOk(s, chat, reply.message); }
      ChatOnlyStep(s, s', c, s'.chats[c]);
  }

  lemma StepKeepsInv(s: State, a: Action)
    requires Inv(s) && Enabled(s, a)
    ensures a.Advance? ==> Placed(s, a.chat)
    ensures Inv(Step(s, a))
  {
    match a
    case Tick(nanos) =>
      var s' := Step(s, a);
      forall d: nat | d < |s'.chats| ensures ChatOk(s', s'.chats[d]) { assert ChatOk(s, s.chats[d]); }
      forall b | b in s'.breakers ensures BreakerOk(s', b) { assert BreakerOk(s, b); }
    case Start(order) =>
      var s' := Step(s, a);
      forall d: nat | d < |s'.chats| ensures ChatOk(s', s'.chats[d]) {
        if d < |s.chats| { assert ChatOk(s, s.chats[d]); }
      }
      forall b | b in s'.breakers ensures BreakerOk(s', b) { assert BreakerOk(s, b); }
    case Advance(c) =>
      InvPlaces(s, c);
      ProceedKeepsInv(s, c);
    case Return(c, reply) =>
      assert ChatOk(s, s.chats[c]);
      ChatOnlyStep(s, Step(s, a), c, s.chats[c].(phase := Returned(reply)));
  }
}
