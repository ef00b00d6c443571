/** Every chat comes to its end within a number of its own steps linear in its route
    (crates/vil_ai_gateway/src/gateway.rs:149-232). */
module GatewayProgress {
  import opened GatewayProtocol
  import opened GatewayRuns

  /** Steps to the end of the current entry, at most. */
  function PhaseSteps(phase: Phase): nat {
    match phase
    case AtEntry => 8
    case Reading(_) => 7
    case Upgrading(_) => 6
    case Admitted => 5
    case Calling => 4
    case Returned(_) => 3
    case HealthRecorded(_) => 2
    case BreakerRecorded(_) => 1
    case Refused => 1
    case Finished(_) => 0
  }

  /** Steps to the end of the chat, at most: eight for an entry, and one when no entry is left. */
  function StepsLeft(chat: Chat): nat {
    if chat.phase.Finished? then 0
    else if chat.next < |chat.order| then 8 * (|chat.order| - chat.next - 1) + PhaseSteps(chat.phase) + 1
    else 1
  }

  lemma StepsLeftBound(chat: Chat)
    ensures StepsLeft(chat) <= 8 * |chat.order| + 1
    ensures StepsLeft(chat) == 0 <==> chat.phase.Finished?
  {
  }

  /** A statement of chat c, or the return of the provider it waits for. */
  predicate OwnStep(a: Action, c: nat) {
    (a.Advance? || a.Return?) && a.chat == c
  }

  lemma OwnStepAdvances(s: State, a: Action, c: nat)
    requires Enabled(s, a) && Placed(s, c) && OwnStep(a, c)
    ensures |Step(s, a).chats| == |s.chats| && StepsLeft(Step(s, a).chats[c]) < StepsLeft(s.chats[c])
  {
    if a.Advance? { StatementAdvances(s, c, Proceed(s, c)); }
  }

  lemma StatementAdvances(s: State, c: nat, s': State)
    requires Enabled(s, Advance(c)) && Placed(s, c) && s' == Proceed(s, c)
    ensures |s'.chats| == |s.chats| && StepsLeft(s'.chats[c]) < StepsLeft(s.chats[c])
  {
    OneChatProceeds(s, c, s');
    if s.chats[c].phase.BreakerRecorded? || s.chats[c].phase.Refused? {
      EntryEnds(s, c, s');
    } else {
      EntryAdvances(s, c, s');
    }
  }

  lemma EntryEnds(s: State, c: nat, s': State)
    requires Enabled(s, Advance(c)) && Placed(s, c) && s' == Proceed(s, c) && |s'.chats| == |s.chats|
    requires s.chats[c].phase.BreakerRecorded? || s.chats[c].phase.Refused?
    ensures StepsLeft(s'.chats[c]) < StepsLeft(s.chats[c])
  {
  }

  lemma EntryAdvances(s: State, c: nat, s': State)
    requires Enabled(s, Advance(c)) && Placed(s, c) && s' == Proceed(s, c) && |s'.chats| == |s.chats|
    requires !s.chats[c].phase.BreakerRecorded? && !s.chats[c].phase.Refused?
    ensures StepsLeft(s'.chats[c]) < StepsLeft(s.chats[c])
  {
  }

  lemma OtherStepLeavesChat(s: State, a: Action, c: nat)
    requires Enabled(s, a) && (a.Advance? ==> Placed(s, a.chat)) && c < |s.chats| && !OwnStep(a, c)
    ensures |Step(s, a).chats| >= |s.chats| && Step(s, a).chats[c] == s.chats[c]
  {
    if a.Advance? { OneChatProceeds(s, a.chat, Proceed(s, a.chat)); }
  }

  /** actions lead from each state of the run to the next. */
  ghost predicate Acts(run: seq<State>, actions: seq<Action>) {
    |run| == |actions| + 1 && forall k: nat :: k < |actions| ==> StepsTo(run[k], actions[k], run[k + 1])
  }

  function OwnSteps(actions: seq<Action>, c: nat): nat {
    if actions == [] then 0 else
    OwnSteps(actions[..|actions| - 1], c) + if OwnStep(actions[|actions| - 1], c) then 1 else 0
  }

  /** Along a run every own step of a chat brings it closer to its end, and no other step moves it. */
  lemma {:induction false} OwnStepsUseUp(run: seq<State>, actions: seq<Action>, c: nat)
    requires Acts(run, actions) && Reachable(run[0]) && c < |run[0].chats|
    ensures Reachable(run[|actions|]) && c < |run[|actions|].chats|
    ensures OwnSteps(actions, c) + StepsLeft(run[|actions|].chats[c]) <= StepsLeft(run[0].chats[c])
    decreases |actions|
  {
    if actions != [] {
      var m := |actions| - 1;
      var front, a, s := actions[..m], actions[m], run[m];
      forall k: nat | k < m ensures StepsTo(run[..m + 1][k], front[k], run[..m + 1][k + 1]) {
        assert StepsTo(run[k], actions[k], run[k + 1]);
      }
      OwnStepsUseUp(run[..m + 1], front, c);
      assert StepsTo(s, a, run[m + 1]);
      ReachableIsFine(s);
      ReachableStep(s, a);
      if OwnStep(a, c) { OwnStepAdvances(s, a, c); } else { OtherStepLeavesChat(s, a, c); }
    }
  }

  /** However chats are interleaved, a chat takes at most eight steps for each entry of its route and one more, and
      has finished once it has taken them. */
  lemma ChatFinishes(run: seq<State>, actions: seq<Action>, c: nat)
    requires Acts(run, actions) && Reachable(run[0]) && c < |run[0].chats|
    ensures c < |run[|actions|].chats|
    ensures OwnSteps(actions, c) <= 8 * |run[0].chats[c].order| + 1
    ensures OwnSteps(actions, c) == 8 * |run[0].chats[c].order| + 1 ==> run[|actions|].chats[c].phase.Finished?
  {
    OwnStepsUseUp(run, actions, c);
    StepsLeftBound(run[0].chats[c]);
    StepsLeftBound(run[|actions|].chats[c]);
  }

  /** A chat that has not finished can always take its next step: no chat waits for another one. */
  lemma UnfinishedCanMove(s: State, c: nat)
    requires Reachable(s) && c < |s.chats| && !s.chats[c].phase.Finished?
    ensures if s.chats[c].phase.Calling? then forall reply :: Enabled(s, Return(c, reply))
            else Enabled(s, Advance(c)) && Placed(s, c)
  {
    ReachableIsFine(s);
  }
}
