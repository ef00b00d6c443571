/** Running a compiled plan (crates/vil_ai_compiler/src/executor.rs). */
module Executor {
  import opened Seqs
  import opened Graphs
  import opened Pipeline
  import opened Plan
  import opened Lowering
  import opened Reachability

  datatype StepStatus = Ok | Skipped | Failed(message: string)

  datatype StepResult = StepResult(nodeId: string, status: StepStatus)

  datatype ExecutionReport = ExecutionReport(results: seq<StepResult>, tiersExecuted: nat) {
    predicate AllOk() {
      forall k :: 0 <= k < |results| ==> results[k].status.Ok? || results[k].status.Skipped?
    }

    function FailedCount(): nat {
      CountFailed(results)
    }
  }

  function CountFailed(results: seq<StepResult>): nat {
    if results == [] then 0 else
    CountFailed(results[..|results| - 1]) + if results[|results| - 1].status.Failed? then 1 else 0
  }

  /** The report is clean exactly when nothing failed. */
  lemma {:induction false} AllOkMeansNoneFailed(report: ExecutionReport)
    ensures report.AllOk() <==> report.FailedCount() == 0
    decreases |report.results|
  {
    if report.results != [] {
      var m := |report.results| - 1;
      var shorter := ExecutionReport(report.results[..m], report.tiersExecuted);
      AllOkMeansNoneFailed(shorter);
      if report.AllOk() {
        forall k | 0 <= k < m ensures shorter.results[k].status.Ok? || shorter.results[k].status.Skipped? {
          assert shorter.results[k] == report.results[k];
        }
      }
    }
  }

  /** The positions of the results that report a failure. */
  ghost function FailedAt(results: seq<StepResult>): set<int> {
    set k | 0 <= k < |results| && results[k].status.Failed?
  }

  /** The failure count is the number of results that report a failure. */
  lemma {:induction false} FailedCountExactly(report: ExecutionReport)
    ensures report.FailedCount() == |FailedAt(report.results)|
    decreases |report.results|
  {
    if report.results != [] {
      var m := |report.results| - 1;
      FailedCountExactly(ExecutionReport(report.results[..m], report.tiersExecuted));
      var before, after := FailedAt(report.results[..m]), FailedAt(report.results);
      assert after == if report.results[m].status.Failed? then before + {m} else before;
    } else {
      assert FailedAt(report.results) == {};
    }
  }

  datatype Outcome = Success | Failure(message: string)

  /** A step handler sees the step and the ids completed so far. */
  type Handler = (ExecutionStep, set<string>) -> Outcome

  function StatusFor(outcome: Outcome): StepStatus {
    match outcome
    case Success => StepStatus.Ok
    case Failure(message) => Failed(message)
  }

  /** The status of a step run when completed is the set of completed ids. */
  function RunStep(step: ExecutionStep, handler: Handler, completed: set<string>): StepStatus {
    if forall dep :: dep in step.dependencies ==> dep in completed then StatusFor(handler(step, completed)) else Skipped
  }

  datatype RunState = RunState(results: seq<StepResult>, completed: set<string>)

  /** Running the listed steps one after the other. */
  function Run(steps: seq<ExecutionStep>, handler: Handler, schedule: seq<nat>): (r: RunState)
    requires Below(schedule, |steps|)
    ensures |r.results| == |schedule|
  {
    if schedule == [] then RunState([], {}) else
    var before := Run(steps, handler, schedule[..|schedule| - 1]);
    var step := steps[schedule[|schedule| - 1]];
    var status := RunStep(step, handler, before.completed);
    RunState(before.results + [StepResult(step.nodeId, status)],
             if status.Ok? then before.completed + {step.nodeId} else before.completed)
  }

  predicate TiersInRange(plan: CompiledPlan) {
    forall t :: 0 <= t < |plan.parallelizable| ==> Below(plan.parallelizable[t], |plan.steps|)
  }

  lemma {:induction false} FlattenBelow(tiers: seq<seq<nat>>, n: nat)
    requires forall t :: 0 <= t < |tiers| ==> Below(tiers[t], n)
    ensures Below(Flatten(tiers), n)
  {
    if tiers != [] { FlattenBelow(tiers[..|tiers| - 1], n); }
  }

  lemma RunAppend(steps: seq<ExecutionStep>, handler: Handler, schedule: seq<nat>, si: nat)
    requires Below(schedule, |steps|) && si < |steps|
    ensures Below(schedule + [si], |steps|)
    ensures var before, after := Run(steps, handler, schedule), Run(steps, handler, schedule + [si]);
      var status := RunStep(steps[si], handler, before.completed);
      && after.results == before.results + [StepResult(steps[si].nodeId, status)]
      && after.completed == if status.Ok? then before.completed + {steps[si].nodeId} else before.completed
  {
    assert (schedule + [si])[..|schedule|] == schedule;
  }

  /** Skips a step whose dependencies have not all completed, else hands it to the handler. */
  method ExecuteStep(step: ExecutionStep, handler: Handler, results0: seq<StepResult>, completed0: set<string>)
    returns (results: seq<StepResult>, completed: set<string>)
    ensures results == results0 + [StepResult(step.nodeId, RunStep(step, handler, completed0))]
    ensures completed == if RunStep(step, handler, completed0).Ok? then completed0 + {step.nodeId} else completed0
  {
    results, completed := results0, completed0;
    var depsMet := forall dep :: dep in step.dependencies ==> dep in completed;
    if !depsMet {
      results := results + [StepResult(step.nodeId, Skipped)];
      return;
    }
    match handler(step, completed)
    case Success =>
      completed := completed + {step.nodeId};
      results := results + [StepResult(step.nodeId, StepStatus.Ok)];
    case Failure(message) =>
      results := results + [StepResult(step.nodeId, Failed(message))];
  }

  /** Runs the steps of one tier in order. */
  method ExecuteTier(steps: seq<ExecutionStep>, handler: Handler, tier: seq<nat>,
                     results0: seq<StepResult>, completed0: set<string>, ghost ran: seq<nat>)
    returns (results: seq<StepResult>, completed: set<string>)
    requires Below(tier, |steps|) && Below(ran, |steps|)
    requires RunState(results0, completed0) == Run(steps, handler, ran)
    ensures Below(ran + tier, |steps|) && RunState(results, completed) == Run(steps, handler, ran + tier)
  {
    results, completed := results0, completed0;
    assert ran + tier[..0] == ran;
    for k := 0 to |tier|
      invariant Below(ran + tier[..k], |steps|)
      invariant RunState(results, completed) == Run(steps, handler, ran + tier[..k])
    {
      assert ran + tier[..k + 1] == (ran + tier[..k]) + [tier[k]];
      RunAppend(steps, handler, ran + tier[..k], tier[k]);
      results, completed := ExecuteStep(steps[tier[k]], handler, results, completed);
    }
    assert ran + tier[..|tier|] == ran + tier;
  }

  method Execute(plan: CompiledPlan, handler: Handler) returns (report: ExecutionReport)
    requires TiersInRange(plan)
    ensures Below(Flatten(plan.parallelizable), |plan.steps|)
    ensures report.results == Run(plan.steps, handler, Flatten(plan.parallelizable)).results
    ensures report.tiersExecuted == |plan.parallelizable|
  {
    var results: seq<StepResult> := [];
    var completed: set<string> := {};
    var tiersExecuted := 0;
    ghost var ran: seq<nat> := [];
    FlattenBelow(plan.parallelizable, |plan.steps|);
    for t := 0 to |plan.parallelizable|
      invariant tiersExecuted == t
      invariant ran == Flatten(plan.parallelizable[..t]) && Below(ran, |plan.steps|)
      invariant RunState(results, completed) == Run(plan.steps, handler, ran)
    {
      tiersExecuted := tiersExecuted + 1;
      var tier := plan.parallelizable[t];
      assert plan.parallelizable[..t + 1] == plan.parallelizable[..t] + [tier];
      FlattenAppend(plan.parallelizable[..t], tier);
      results, completed := ExecuteTier(plan.steps, handler, tier, results, completed, ran);
      ran := ran + tier;
    }
    assert plan.parallelizable[..|plan.parallelizable|] == plan.parallelizable;
    report := ExecutionReport(results, tiersExecuted);
  }

  function Noop(step: ExecutionStep, completed: set<string>): Outcome {
    Success
  }

  method DryRun(plan: CompiledPlan) returns (report: ExecutionReport)
    requires TiersInRange(plan)
    ensures Below(Flatten(plan.parallelizable), |plan.steps|)
    ensures report.results == Run(plan.steps, Noop, Flatten(plan.parallelizable)).results
    ensures report.tiersExecuted == |plan.parallelizable|
  {
    report := Execute(plan, Noop);
  }

  // ----- any plan, any handler -----

  /** The results of a prefix of the schedule are a prefix of the results. */
  lemma {:induction false} RunPrefix(steps: seq<ExecutionStep>, handler: Handler, schedule: seq<nat>, k: nat)
    requires Below(schedule, |steps|) && k <= |schedule|
    ensures Run(steps, handler, schedule[..k]).results == Run(steps, handler, schedule).results[..k]
    decreases |schedule|
  {
    var m := |schedule| - 1;
    if k == |schedule| {
      assert schedule[..k] == schedule;
    } else {
      RunPrefix(steps, handler, schedule[..m], k);
      assert schedule[..m][..k] == schedule[..k];
      assert schedule == schedule[..m] + [schedule[m]];
      RunAppend(steps, handler, schedule[..m], schedule[m]);
    }
  }

  /** Result k is that of step schedule[k], run on what the earlier entries completed. */
  lemma ResultAt(steps: seq<ExecutionStep>, handler: Handler, schedule: seq<nat>, k: nat)
    requires Below(schedule, |steps|) && k < |schedule|
    ensures Run(steps, handler, schedule).results[k] ==
      StepResult(steps[schedule[k]].nodeId,
                 RunStep(steps[schedule[k]], handler, Run(steps, handler, schedule[..k]).completed))
  {
    var before, si := schedule[..k], schedule[k];
    assert schedule[..k + 1] == before + [si];
    RunPrefix(steps, handler, schedule, k + 1);
    RunAppend(steps, handler, before, si);
    assert Run(steps, handler, schedule).results[..k + 1][k] == Run(steps, handler, before + [si]).results[k];
  }

  /** The results name the scheduled steps, in order. */
  predicate ResultsOf(steps: seq<ExecutionStep>, schedule: seq<nat>, results: seq<StepResult>)
    requires Below(schedule, |steps|)
  {
    |results| == |schedule| && forall x: nat :: x < |schedule| ==> results[x].nodeId == steps[schedule[x]].nodeId
  }

  lemma RunGivesResultsOf(steps: seq<ExecutionStep>, handler: Handler, schedule: seq<nat>)
    requires Below(schedule, |steps|)
    ensures ResultsOf(steps, schedule, Run(steps, handler, schedule).results)
  {
    forall x: nat | x < |schedule|
      ensures Run(steps, handler, schedule).results[x].nodeId == steps[schedule[x]].nodeId
    {
      ResultAt(steps, handler, schedule, x);
    }
  }

  /** One of the first k results says that the step with this id completed. */
  ghost predicate OkBefore(results: seq<StepResult>, k: nat, id: string)
    requires k <= |results|
  {
    exists i: nat :: i < k && results[i] == StepResult(id, StepStatus.Ok)
  }

  lemma OkBeforeAppend(results: seq<StepResult>, r: StepResult, id: string)
    ensures OkBefore(results + [r], |results| + 1, id) <==>
            OkBefore(results, |results|, id) || r == StepResult(id, StepStatus.Ok)
  {
    var all := results + [r];
    if i: nat :| i < |results| && results[i] == StepResult(id, StepStatus.Ok) { assert all[i] == results[i]; }
    if r == StepResult(id, StepStatus.Ok) { assert all[|results|] == r; }
    if i: nat :| i < |all| && all[i] == StepResult(id, StepStatus.Ok) {
      if i < |results| { assert results[i] == all[i]; }
    }
  }

  /** A completed id is one with an Ok result. */
  lemma {:induction false} CompletedMeansOk(steps: seq<ExecutionStep>, handler: Handler, schedule: seq<nat>, id: string)
    requires Below(schedule, |steps|)
    ensures id in Run(steps, handler, schedule).completed <==>
            OkBefore(Run(steps, handler, schedule).results, |schedule|, id)
    decreases |schedule|
  {
    if schedule != [] {
      var m := |schedule| - 1;
      var before := Run(steps, handler, schedule[..m]);
      CompletedMeansOk(steps, handler, schedule[..m], id);
      assert schedule == schedule[..m] + [schedule[m]];
      RunAppend(steps, handler, schedule[..m], schedule[m]);
      OkBeforeAppend(before.results,
        StepResult(steps[schedule[m]].nodeId, RunStep(steps[schedule[m]], handler, before.completed)), id);
    }
  }

  /** The handler runs a step exactly when every dependency has an earlier Ok result; otherwise the step is skipped. */
  lemma HandlerRunsAfterDependencies(steps: seq<ExecutionStep>, handler: Handler, schedule: seq<nat>, k: nat)
    requires Below(schedule, |steps|) && k < |schedule|
    ensures var results := Run(steps, handler, schedule).results;
      results[k].status != Skipped <==>
      forall dep :: dep in steps[schedule[k]].dependencies ==> OkBefore(results, k, dep)
  {
    ResultAt(steps, handler, schedule, k);
    forall dep ensures dep in Run(steps, handler, schedule[..k]).completed <==>
                       OkBefore(Run(steps, handler, schedule).results, k, dep)
    {
      CompletedIsOkBefore(steps, handler, schedule, k, dep);
    }
  }

  /** What is completed when entry k's turn comes are the ids with an Ok result before it. */
  lemma CompletedIsOkBefore(steps: seq<ExecutionStep>, handler: Handler, schedule: seq<nat>, k: nat, id: string)
    requires Below(schedule, |steps|) && k < |schedule|
    ensures id in Run(steps, handler, schedule[..k]).completed <==>
            OkBefore(Run(steps, handler, schedule).results, k, id)
  {
    RunPrefix(steps, handler, schedule, k);
    CompletedMeansOk(steps, handler, schedule[..k], id);
    var results, earlier := Run(steps, handler, schedule).results, Run(steps, handler, schedule[..k]).results;
    if i: nat :| i < k && earlier[i] == StepResult(id, StepStatus.Ok) {
      assert results[i] == StepResult(id, StepStatus.Ok);
    }
    if i: nat :| i < k && results[i] == StepResult(id, StepStatus.Ok) { assert earlier[i] == results[i]; }
  }

  /** A step that is not skipped is handed the ids with an earlier Ok result, and gets what its handler says: Ok for
      a success, and for a failure the handler's own message. */
  lemma HandlerDecides(steps: seq<ExecutionStep>, handler: Handler, schedule: seq<nat>, k: nat, completed: set<string>)
    requires Below(schedule, |steps|) && k < |schedule|
    requires forall id :: id in completed <==> OkBefore(Run(steps, handler, schedule).results, k, id)
    requires Run(steps, handler, schedule).results[k].status != Skipped
    ensures var r, outcome := Run(steps, handler, schedule).results[k], handler(steps[schedule[k]], completed);
      && r.nodeId == steps[schedule[k]].nodeId
      && (outcome.Success? ==> r.status.Ok?)
      && (outcome.Failure? ==> r.status == Failed(outcome.message))
  {
    ResultAt(steps, handler, schedule, k);
    var earlier := Run(steps, handler, schedule[..k]).completed;
    forall id ensures id in completed <==> id in earlier { CompletedIsOkBefore(steps, handler, schedule, k, id); }
    assert completed == earlier;
  }

  // ----- compiled plans -----

  /** The status step j gets under a schedule that lists it. */
  ghost function StatusIn(steps: seq<ExecutionStep>, handler: Handler, schedule: seq<nat>, j: nat): StepStatus
    requires Below(schedule, |steps|) && j in schedule
  {
    Run(steps, handler, schedule).results[IndexOf(schedule, j)].status
  }

  /** The completed ids when the schedule reaches step j. */
  ghost function CompletedAt(steps: seq<ExecutionStep>, handler: Handler, schedule: seq<nat>, j: nat): set<string>
    requires Below(schedule, |steps|) && j in schedule
  {
    Run(steps, handler, schedule[..IndexOf(schedule, j)]).completed
  }

  /** A schedule of all steps that lists every step after its dependencies. */
  ghost predicate RespectsDependencies(steps: seq<ExecutionStep>, schedule: seq<nat>) {
    && DependsBackwards(steps) && Distinct(StepIds(steps))
    && TopoOrder(StepGraph(steps), schedule)
    && forall j: nat :: j < |steps| ==> j in schedule
  }

  /** A dependency of step j is scheduled before it. */
  lemma DependencyIsEarlier(steps: seq<ExecutionStep>, schedule: seq<nat>, i: nat, j: nat)
    requires RespectsDependencies(steps, schedule) && Edge(StepGraph(steps), i, j)
    ensures i < j && IndexOf(schedule, i) < IndexOf(schedule, j) && schedule[IndexOf(schedule, i)] == i
  {
    StepGraphEdgesBackwards(steps, i, j);
    var k := IndexOf(schedule, j);
    assert PredsIn(StepGraph(steps), schedule[k], schedule[..k]);
    assert i in schedule[..k];
    var m: nat :| m < k && schedule[..k][m] == i;
    IndexOfDistinct(schedule, m);
  }

  /** Without repeats, a step is among the first k completed ones exactly when its own result is Ok. */
  lemma OkBeforeIsOwn(steps: seq<ExecutionStep>, schedule: seq<nat>, results: seq<StepResult>, k: nat, m: nat)
    requires Below(schedule, |steps|) && Distinct(schedule) && Distinct(StepIds(steps)) && m < k <= |schedule|
    requires ResultsOf(steps, schedule, results)
    ensures OkBefore(results[..k], k, steps[schedule[m]].nodeId) <==> results[m].status.Ok?
  {
    var id := steps[schedule[m]].nodeId;
    assert results[m] == results[..k][m];
    if x: nat :| x < k && results[..k][x] == StepResult(id, StepStatus.Ok) {
      assert results[x].nodeId == steps[schedule[x]].nodeId;
      SameStep(steps, schedule[x], schedule[m]);
    }
  }

  lemma SameStep(steps: seq<ExecutionStep>, i: nat, j: nat)
    requires Distinct(StepIds(steps)) && i < |steps| && j < |steps| && steps[i].nodeId == steps[j].nodeId
    ensures i == j
  {
    assert StepIds(steps)[i] == StepIds(steps)[j];
  }

  /** A dependency of step j has completed when j's turn comes exactly when its own status is Ok. */
  lemma DependencyCompleted(steps: seq<ExecutionStep>, handler: Handler, schedule: seq<nat>, i: nat, j: nat)
    requires RespectsDependencies(steps, schedule) && Edge(StepGraph(steps), i, j)
    ensures i < |steps|
    ensures steps[i].nodeId in CompletedAt(steps, handler, schedule, j) <==> StatusIn(steps, handler, schedule, i).Ok?
  {
    DependencyIsEarlier(steps, schedule, i, j);
    var k := IndexOf(schedule, j);
    CompletedMeansOk(steps, handler, schedule[..k], steps[i].nodeId);
    RunPrefix(steps, handler, schedule, k);
    RunGivesResultsOf(steps, handler, schedule);
    OkBeforeIsOwn(steps, schedule, Run(steps, handler, schedule).results, k, IndexOf(schedule, i));
  }

  ghost predicate AllDependenciesOk(steps: seq<ExecutionStep>, handler: Handler, schedule: seq<nat>, j: nat)
    requires RespectsDependencies(steps, schedule) && j < |steps|
  {
    forall i: nat :: i < |steps| && Edge(StepGraph(steps), i, j) ==> StatusIn(steps, handler, schedule, i).Ok?
  }

  /** When step j's turn comes, all the ids it names have completed exactly when all its dependencies are Ok. */
  lemma DependenciesMet(steps: seq<ExecutionStep>, handler: Handler, schedule: seq<nat>, j: nat, completed: set<string>)
    requires RespectsDependencies(steps, schedule) && j < |steps|
    requires completed == CompletedAt(steps, handler, schedule, j)
    ensures (forall dep :: dep in steps[j].dependencies ==> dep in completed) <==>
            AllDependenciesOk(steps, handler, schedule, j)
  {
    DependencyPositions(steps, j);
    var deps, ps := steps[j].dependencies, StepGraph(steps)[j];
    forall k | 0 <= k < |deps|
      ensures deps[k] in completed <==> StatusIn(steps, handler, schedule, ps[k]).Ok?
    {
      assert ps[k] in ps;
      DependencyCompleted(steps, handler, schedule, ps[k], j);
    }
    if forall dep :: dep in deps ==> dep in completed {
      forall i: nat | i < |steps| && Edge(StepGraph(steps), i, j) ensures StatusIn(steps, handler, schedule, i).Ok? {
        var k :| 0 <= k < |ps| && ps[k] == i;
        assert deps[k] in deps;
      }
    }
    if AllDependenciesOk(steps, handler, schedule, j) {
      forall dep | dep in deps ensures dep in completed {
        var k :| 0 <= k < |deps| && deps[k] == dep;
        assert Edge(StepGraph(steps), ps[k], j);
      }
    }
  }

  /** A step is skipped exactly when one of its dependencies is not Ok; otherwise its handler decides. */
  lemma StatusUnfold(steps: seq<ExecutionStep>, handler: Handler, schedule: seq<nat>, j: nat)
    requires RespectsDependencies(steps, schedule) && j < |steps|
    ensures StatusIn(steps, handler, schedule, j) ==
      if AllDependenciesOk(steps, handler, schedule, j)
      then StatusFor(handler(steps[j], CompletedAt(steps, handler, schedule, j))) else Skipped
  {
    ResultAt(steps, handler, schedule, IndexOf(schedule, j));
    DependenciesMet(steps, handler, schedule, j, CompletedAt(steps, handler, schedule, j));
  }

  /** Some transitive dependency of step j failed. */
  ghost predicate FailedUpstream(steps: seq<ExecutionStep>, handler: Handler, schedule: seq<nat>, j: nat)
    requires RespectsDependencies(steps, schedule)
  {
    exists i: nat :: i < |steps| && Reaches(StepGraph(steps), i, j) && StatusIn(steps, handler, schedule, i).Failed?
  }

  /** A step is skipped exactly when some transitive dependency failed. */
  lemma {:induction false} SkippedMeansFailedUpstream(steps: seq<ExecutionStep>, handler: Handler, schedule: seq<nat>,
                                                      j: nat)
    requires RespectsDependencies(steps, schedule) && j < |steps|
    ensures StatusIn(steps, handler, schedule, j).Skipped? <==> FailedUpstream(steps, handler, schedule, j)
    decreases j
  {
    var g := StepGraph(steps);
    StatusUnfold(steps, handler, schedule, j);
    if StatusIn(steps, handler, schedule, j).Skipped? {
      var i: nat :| i < |steps| && Edge(g, i, j) && !StatusIn(steps, handler, schedule, i).Ok?;
      StepGraphEdgesBackwards(steps, i, j);
      EdgeReaches(g, i, j);
      SkippedMeansFailedUpstream(steps, handler, schedule, i);
      if StatusIn(steps, handler, schedule, i).Skipped? {
        var x: nat :| x < |steps| && Reaches(g, x, i) && StatusIn(steps, handler, schedule, x).Failed?;
        ReachesTransitive(g, x, i, j);
      }
    }
    if FailedUpstream(steps, handler, schedule, j) {
      var x: nat :| x < |steps| && Reaches(g, x, j) && StatusIn(steps, handler, schedule, x).Failed?;
      var w := ReachesLastEdge(g, x, j);
      StepGraphEdgesBackwards(steps, w, j);
      SkippedMeansFailedUpstream(steps, handler, schedule, w);
      assert !StatusIn(steps, handler, schedule, w).Ok?;
    }
  }

  // ----- handlers that depend only on the step -----

  function StepOnly(own: ExecutionStep -> Outcome): Handler {
    (step, completed) => own(step)
  }

  /** Step j and all its transitive dependencies succeed on their own. */
  ghost predicate SucceedsWithUpstream(steps: seq<ExecutionStep>, own: ExecutionStep -> Outcome, j: nat)
    requires j < |steps|
  {
    own(steps[j]).Success? &&
    forall i: nat :: i < |steps| && Reaches(StepGraph(steps), i, j) ==> own(steps[i]).Success?
  }

  lemma SucceedsUnfold(steps: seq<ExecutionStep>, own: ExecutionStep -> Outcome, j: nat)
    requires DependsBackwards(steps) && j < |steps|
    ensures SucceedsWithUpstream(steps, own, j) <==>
      own(steps[j]).Success? &&
      forall i: nat :: i < |steps| && Edge(StepGraph(steps), i, j) ==> SucceedsWithUpstream(steps, own, i)
  {
    var g := StepGraph(steps);
    if SucceedsWithUpstream(steps, own, j) {
      forall i: nat | i < |steps| && Edge(g, i, j) ensures SucceedsWithUpstream(steps, own, i) {
        EdgeReaches(g, i, j);
        forall x: nat | x < |steps| && Reaches(g, x, i) ensures own(steps[x]).Success? {
          ReachesTransitive(g, x, i, j);
        }
      }
    }
    if own(steps[j]).Success? && forall i: nat :: i < |steps| && Edge(g, i, j) ==> SucceedsWithUpstream(steps, own, i) {
      forall x: nat | x < |steps| && Reaches(g, x, j) ensures own(steps[x]).Success? {
        var w := ReachesLastEdge(g, x, j);
        assert SucceedsWithUpstream(steps, own, w);
      }
    }
  }

  /** What a step ends with, said without any schedule. */
  ghost function FinalStatus(steps: seq<ExecutionStep>, own: ExecutionStep -> Outcome, j: nat): StepStatus
    requires j < |steps|
  {
    if SucceedsWithUpstream(steps, own, j) then StepStatus.Ok
    else if exists i: nat :: i < |steps| && Reaches(StepGraph(steps), i, j) && !own(steps[i]).Success? then Skipped
    else StatusFor(own(steps[j]))
  }

  lemma {:induction false} StatusIsFinal(steps: seq<ExecutionStep>, own: ExecutionStep -> Outcome, schedule: seq<nat>,
                                         j: nat)
    requires RespectsDependencies(steps, schedule) && j < |steps|
    ensures StatusIn(steps, StepOnly(own), schedule, j) == FinalStatus(steps, own, j)
    decreases j
  {
    var g := StepGraph(steps);
    StatusUnfold(steps, StepOnly(own), schedule, j);
    forall i: nat | i < |steps| && Edge(g, i, j)
      ensures StatusIn(steps, StepOnly(own), schedule, i).Ok? <==> SucceedsWithUpstream(steps, own, i)
    {
      StepGraphEdgesBackwards(steps, i, j);
      StatusIsFinal(steps, own, schedule, i);
    }
    SucceedsUnfold(steps, own, j);
    if AllDependenciesOk(steps, StepOnly(own), schedule, j) {
      forall x: nat | x < |steps| && Reaches(g, x, j) ensures own(steps[x]).Success? {
        var w := ReachesLastEdge(g, x, j);
        assert SucceedsWithUpstream(steps, own, w);
      }
    } else {
      var i: nat :| i < |steps| && Edge(g, i, j) && !SucceedsWithUpstream(steps, own, i);
      EdgeReaches(g, i, j);
      if own(steps[i]).Success? {
        var x: nat :| x < |steps| && Reaches(g, x, i) && !own(steps[x]).Success?;
        ReachesTransitive(g, x, i, j);
      }
    }
  }

  /** Any two schedules that respect the dependencies give every step the same status. */
  lemma ScheduleIndependence(steps: seq<ExecutionStep>, own: ExecutionStep -> Outcome, s: seq<nat>, t: seq<nat>, j: nat)
    requires RespectsDependencies(steps, s) && RespectsDependencies(steps, t) && j < |steps|
    ensures StatusIn(steps, StepOnly(own), s, j) == StatusIn(steps, StepOnly(own), t, j)
  {
    StatusIsFinal(steps, own, s, j);
    StatusIsFinal(steps, own, t, j);
  }

  /** Running in index order respects the dependencies. */
  lemma IndexOrderRespects(steps: seq<ExecutionStep>)
    requires DependsBackwards(steps) && Distinct(StepIds(steps))
    ensures RespectsDependencies(steps, Identity(|steps|))
  {
    BackwardStepsAcyclic(steps);
    forall j: nat | j < |steps| ensures j in Identity(|steps|) { assert Identity(|steps|)[j] == j; }
  }

  /** tiers' lists the same steps tier by tier, in any order inside each tier. */
  ghost predicate Shuffles(tiers': seq<seq<nat>>, tiers: seq<seq<nat>>) {
    && |tiers'| == |tiers|
    && forall t :: 0 <= t < |tiers| ==> Distinct(tiers'[t]) && forall x :: x in tiers'[t] <==> x in tiers[t]
  }

  lemma {:induction false} ShuffledLayersTopological(g: Graph, tiers: seq<seq<nat>>, k: nat)
    requires Dag(g) && Shuffles(tiers, Layers(g)) && k <= |tiers|
    ensures TopoPrefix(g, Flatten(tiers[..k])) && HoldsDepthsBelow(g, Flatten(tiers[..k]), k)
  {
    if k > 0 {
      var m := k - 1;
      ShuffledLayersTopological(g, tiers, m);
      FlattenTake(tiers, m);
      assert Layers(g)[m] == Layer(g, m);
      ShuffledLayerExtends(g, Flatten(tiers[..m]), tiers[m], m);
    }
  }

  lemma ShuffledLayerExtends(g: Graph, before: seq<nat>, tier: seq<nat>, k: nat)
    requires Dag(g) && TopoPrefix(g, before) && HoldsDepthsBelow(g, before, k)
    requires Distinct(tier) && forall x :: x in tier <==> x in Layer(g, k)
    ensures TopoPrefix(g, before + tier) && HoldsDepthsBelow(g, before + tier, k + 1)
  {
    forall i | 0 <= i < |tier| ensures tier[i] < |g| && tier[i] !in before && PredsIn(g, tier[i], before) {
      assert tier[i] in tier;
      LayerIsReady(g, before, k, tier[i]);
    }
    TopoPrefixExtendAll(g, before, tier);
    DepthsBelowExtend(g, before, k);
    forall v: nat ensures v in before + tier <==> v in before + Layer(g, k) { }
  }

  /** Layers in order, each in any order, list every vertex after its predecessors. */
  lemma ShuffledLayersCover(g: Graph, tiers: seq<seq<nat>>, ord: seq<nat>)
    requires Dag(g) && Shuffles(tiers, Layers(g)) && ord == Flatten(tiers)
    ensures TopoOrder(g, ord) && forall j: nat :: j < |g| ==> j in ord
  {
    ShuffledLayersTopological(g, tiers, |tiers|);
    assert tiers[..|tiers|] == tiers;
    HeightBounds(g);
    DistinctBounded(ord, |g|);
    DistinctSize(ord);
    assert Range(|g|) <= Elements(ord);
    SubsetSize(Range(|g|), Elements(ord));
  }

  /** Running the tiers in order, in any order inside each tier, respects the dependencies. */
  lemma ShuffledTiersRespect(bare: seq<ExecutionStep>, tiers: seq<seq<nat>>)
    requires DependsBackwards(bare) && Distinct(StepIds(bare)) && Shuffles(tiers, Scheduled(bare).parallelizable)
    ensures RespectsDependencies(Scheduled(bare).steps, Flatten(tiers))
  {
    ScheduledKeepsGraph(bare);
    BackwardStepsAcyclic(bare);
    ShuffledLayersCover(StepGraph(bare), tiers, Flatten(tiers));
  }

  /** Result k is the one result with this id. */
  ghost predicate OnlyResult(results: seq<StepResult>, id: string, k: nat) {
    k < |results| && results[k].nodeId == id && forall x: nat :: x < |results| && results[x].nodeId == id ==> x == k
  }

  /** A schedule that respects the dependencies gives every step exactly one result, and no other results. */
  lemma OneResultEach(steps: seq<ExecutionStep>, handler: Handler, schedule: seq<nat>, j: nat)
    requires RespectsDependencies(steps, schedule) && j < |steps|
    ensures |Run(steps, handler, schedule).results| == |steps|
    ensures OnlyResult(Run(steps, handler, schedule).results, steps[j].nodeId, IndexOf(schedule, j))
  {
    RunGivesResultsOf(steps, handler, schedule);
    ResultIsOnly(steps, schedule, Run(steps, handler, schedule).results, IndexOf(schedule, j));
  }

  lemma ResultIsOnly(steps: seq<ExecutionStep>, schedule: seq<nat>, results: seq<StepResult>, k: nat)
    requires Below(schedule, |steps|) && Distinct(schedule) && Distinct(StepIds(steps)) && k < |schedule|
    requires ResultsOf(steps, schedule, results)
    ensures OnlyResult(results, steps[schedule[k]].nodeId, k)
  {
    forall x: nat | x < |results| && results[x].nodeId == steps[schedule[k]].nodeId ensures x == k {
      SameStep(steps, schedule[x], schedule[k]);
    }
  }

  /** On a compiled plan every step ends with the status its own handler and those of its transitive dependencies
      determine, whether the tiers are run in order, shuffled inside, or the steps simply in index order. */
  lemma PlanOutcome(dag: PipelineDag, mode: CacheDependency, own: ExecutionStep -> Outcome, tiers: seq<seq<nat>>,
                    j: nat)
    requires dag.Valid() && Shuffles(tiers, PlanOf(dag, mode).parallelizable) && j < |PlanOf(dag, mode).steps|
    ensures RespectsDependencies(PlanOf(dag, mode).steps, Flatten(tiers))
    ensures StatusIn(PlanOf(dag, mode).steps, StepOnly(own), Flatten(tiers), j) ==
            FinalStatus(PlanOf(dag, mode).steps, own, j)
    ensures RespectsDependencies(PlanOf(dag, mode).steps, Identity(|PlanOf(dag, mode).steps|))
    ensures StatusIn(PlanOf(dag, mode).steps, StepOnly(own), Identity(|PlanOf(dag, mode).steps|), j) ==
            FinalStatus(PlanOf(dag, mode).steps, own, j)
  {
    var bare, steps := Lowered(dag, mode), PlanOf(dag, mode).steps;
    ScheduledKeepsGraph(bare);
    LoweredIds(dag, mode);
    ShuffledTiersRespect(bare, tiers);
    StatusIsFinal(steps, own, Flatten(tiers), j);
    IndexOrderRespects(steps);
    StatusIsFinal(steps, own, Identity(|steps|), j);
  }

  /** Running the tiers of a compiled plan as they are listed respects the dependencies. */
  lemma PlanScheduleRespects(dag: PipelineDag, mode: CacheDependency)
    requires dag.Valid()
    ensures RespectsDependencies(PlanOf(dag, mode).steps, Flatten(PlanOf(dag, mode).parallelizable))
  {
    var plan := PlanOf(dag, mode);
    BackwardStepsAcyclic(Lowered(dag, mode));
    LoweredIds(dag, mode);
    forall t | 0 <= t < |plan.parallelizable| ensures Distinct(plan.parallelizable[t]) {
      assert plan.parallelizable[t] == Layer(StepGraph(Lowered(dag, mode)), t);
    }
    ShuffledTiersRespect(Lowered(dag, mode), plan.parallelizable);
  }

  /** Step j and all steps whose nodes reach its own node in g succeed on their own. */
  ghost predicate SucceedsOver(steps: seq<ExecutionStep>, own: ExecutionStep -> Outcome, g: Graph, nodes: seq<nat>,
                               j: nat)
    requires |nodes| == |steps| && j < |steps|
  {
    own(steps[j]).Success? &&
    forall i: nat :: i < |steps| && Reaches(g, nodes[i], nodes[j]) ==> own(steps[i]).Success?
  }

  /** The outcome read off the DAG: on a compiled plan a step ends Ok exactly when it succeeds with all survivors that
      reach its node over kept edges. */
  lemma OutcomeOnDag(dag: PipelineDag, mode: CacheDependency, own: ExecutionStep -> Outcome, tiers: seq<seq<nat>>,
                     j: nat)
    requires dag.Valid() && Shuffles(tiers, PlanOf(dag, mode).parallelizable) && j < |PlanOf(dag, mode).steps|
    ensures RespectsDependencies(PlanOf(dag, mode).steps, Flatten(tiers))
    ensures StatusIn(PlanOf(dag, mode).steps, StepOnly(own), Flatten(tiers), j).Ok? <==>
            SucceedsOver(PlanOf(dag, mode).steps, own, KeptGraph(dag, mode), StepNodes(dag), j)
  {
    PlanOutcome(dag, mode, own, tiers, j);
    FinalOkMeansUpstream(PlanOf(dag, mode).steps, own, j);
    forall i: nat | i < |PlanOf(dag, mode).steps|
      ensures SameReach(StepGraph(PlanOf(dag, mode).steps), KeptGraph(dag, mode), StepNodes(dag), i, j)
    {
      DependenciesAreKeptPaths(dag, mode, i, j);
    }
    UpstreamOver(PlanOf(dag, mode).steps, own, KeptGraph(dag, mode), StepNodes(dag), j);
  }

  ghost predicate SameReach(sg: Graph, g: Graph, nodes: seq<nat>, i: nat, j: nat)
    requires i < |nodes| && j < |nodes|
  {
    Reaches(sg, i, j) <==> Reaches(g, nodes[i], nodes[j])
  }

  lemma UpstreamOver(steps: seq<ExecutionStep>, own: ExecutionStep -> Outcome, g: Graph, nodes: seq<nat>, j: nat)
    requires |nodes| == |steps| && j < |steps|
    requires forall i: nat :: i < |steps| ==> SameReach(StepGraph(steps), g, nodes, i, j)
    ensures SucceedsWithUpstream(steps, own, j) <==> SucceedsOver(steps, own, g, nodes, j)
  {
    forall i: nat | i < |steps| ensures Reaches(StepGraph(steps), i, j) <==> Reaches(g, nodes[i], nodes[j]) {
      assert SameReach(StepGraph(steps), g, nodes, i, j);
    }
  }

  lemma FinalOkMeansUpstream(steps: seq<ExecutionStep>, own: ExecutionStep -> Outcome, j: nat)
    requires j < |steps|
    ensures FinalStatus(steps, own, j).Ok? <==> SucceedsWithUpstream(steps, own, j)
  {
  }

  /** On a compiled plan `all_ok` means that every step completed: none is skipped unless another one failed. */
  lemma AllOkMeansAllCompleted(dag: PipelineDag, mode: CacheDependency, handler: Handler, report: ExecutionReport)
    requires dag.Valid()
    requires Below(Flatten(PlanOf(dag, mode).parallelizable), |PlanOf(dag, mode).steps|)
    requires report.results == Run(PlanOf(dag, mode).steps, handler, Flatten(PlanOf(dag, mode).parallelizable)).results
    ensures report.AllOk() <==> forall k :: 0 <= k < |report.results| ==> report.results[k].status.Ok?
  {
    PlanScheduleRespects(dag, mode);
    NoneFailedAllOk(PlanOf(dag, mode).steps, handler, Flatten(PlanOf(dag, mode).parallelizable), report);
  }

  lemma NoneFailedAllOk(steps: seq<ExecutionStep>, handler: Handler, schedule: seq<nat>, report: ExecutionReport)
    requires RespectsDependencies(steps, schedule) && report.results == Run(steps, handler, schedule).results
    ensures report.AllOk() <==> forall k :: 0 <= k < |report.results| ==> report.results[k].status.Ok?
  {
    if report.AllOk() {
      forall k: nat | k < |report.results| ensures report.results[k].status.Ok? {
        NotFailedMeansOk(steps, handler, schedule, report.results, k);
      }
    }
  }

  lemma NotFailedMeansOk(steps: seq<ExecutionStep>, handler: Handler, schedule: seq<nat>, results: seq<StepResult>,
                         k: nat)
    requires RespectsDependencies(steps, schedule) && results == Run(steps, handler, schedule).results
    requires k < |results| && forall x :: 0 <= x < |results| ==> !results[x].status.Failed?
    ensures results[k].status.Ok?
  {
    IndexOfDistinct(schedule, k);
    SkippedMeansFailedUpstream(steps, handler, schedule, schedule[k]);
  }

  /** A dry run of a compiled plan completes every step. */
  lemma DryRunCompletesEverything(dag: PipelineDag, mode: CacheDependency, k: nat)
    requires dag.Valid() && k < |Flatten(PlanOf(dag, mode).parallelizable)|
    ensures Below(Flatten(PlanOf(dag, mode).parallelizable), |PlanOf(dag, mode).steps|)
    ensures Run(PlanOf(dag, mode).steps, Noop, Flatten(PlanOf(dag, mode).parallelizable)).results[k].status.Ok?
  {
    PlanScheduleRespects(dag, mode);
    var schedule := Flatten(PlanOf(dag, mode).parallelizable);
    NoopNeverSkips(PlanOf(dag, mode).steps, schedule, schedule[k]);
    IndexOfDistinct(schedule, k);
  }

  lemma {:induction false} NoopNeverSkips(steps: seq<ExecutionStep>, schedule: seq<nat>, j: nat)
    requires RespectsDependencies(steps, schedule) && j < |steps|
    ensures StatusIn(steps, Noop, schedule, j).Ok?
    decreases j
  {
    StatusUnfold(steps, Noop, schedule, j);
    forall i: nat | i < |steps| && Edge(StepGraph(steps), i, j) ensures StatusIn(steps, Noop, schedule, i).Ok? {
      StepGraphEdgesBackwards(steps, i, j);
      NoopNeverSkips(steps, schedule, i);
    }
  }
}
