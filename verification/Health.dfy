/** Per-model health with a rolling window (crates/vil_ai_gateway/src/health.rs). */
module Health {

  const WINDOW_SIZE: nat := 100

  /** One recorded call: whether it failed, and its latency (0 for a failure). */
  datatype Sample = Sample(isError: bool, latencyMs: nat)

  datatype ModelHealth = ModelHealth(totalRequests: nat, totalErrors: nat, window: seq<Sample>) {

    function ErrorsInWindow(): nat {
      CountErrors(window)
    }

    /** The share of errors in the window. */
    function ErrorRate(): real {
      if window == [] then 0.0 else ErrorsInWindow() as real / |window| as real
    }

    function Status(): HealthStatus {
      if totalRequests == 0 then Unknown
      else if ErrorRate() > 0.5 then Unhealthy
      else if ErrorRate() > 0.1 then Degraded
      else Healthy
    }
  }

  datatype HealthStatus = Healthy | Degraded | Unhealthy | Unknown

  const NO_HEALTH: ModelHealth := ModelHealth(0, 0, [])

  function CountErrors(samples: seq<Sample>): nat {
    if samples == [] then 0 else
    CountErrors(samples[..|samples| - 1]) + if samples[|samples| - 1].isError then 1 else 0
  }

  function PushSample(window: seq<Sample>, sample: Sample): seq<Sample> {
    (if |window| >= WINDOW_SIZE && window != [] then window[1..] else window) + [sample]
  }

  function AfterSample(health: ModelHealth, sample: Sample): ModelHealth {
    ModelHealth(health.totalRequests + 1,
                health.totalErrors + if sample.isError then 1 else 0,
                PushSample(health.window, sample))
  }

  class HealthTracker {
    var models: map<string, ModelHealth>

    constructor ()
      ensures models == map[]
    {
      models := map[];
    }

    method RecordSuccess(model: string, latencyMs: nat)
      modifies this
      ensures models == old(models)[model := AfterSample(StateOf(old(models), model), Sample(false, latencyMs))]
    {
      var state := if model in models then models[model] else NO_HEALTH;
      var window := state.window;
      if |window| >= WINDOW_SIZE {
        window := window[1..];
      }
      window := window + [Sample(false, latencyMs)];
      models := models[model := ModelHealth(state.totalRequests + 1, state.totalErrors, window)];
    }

    method RecordFailure(model: string)
      modifies this
      ensures models == old(models)[model := AfterSample(StateOf(old(models), model), Sample(true, 0))]
    {
      var state := if model in models then models[model] else NO_HEALTH;
      var window := state.window;
      if |window| >= WINDOW_SIZE {
        window := window[1..];
      }
      window := window + [Sample(true, 0)];
      models := models[model := ModelHealth(state.totalRequests + 1, state.totalErrors + 1, window)];
    }
  }

  function StateOf(models: map<string, ModelHealth>, model: string): ModelHealth {
    if model in models then models[model] else NO_HEALTH
  }

  // ----- a model's health as a function of everything recorded for it -----

  /** The state after a list of samples. */
  function HealthAfter(samples: seq<Sample>): ModelHealth {
    if samples == [] then NO_HEALTH else AfterSample(HealthAfter(samples[..|samples| - 1]), samples[|samples| - 1])
  }

  /** The last n samples, or all of them. */
  function Latest(samples: seq<Sample>, n: nat): seq<Sample> {
    if |samples| <= n then samples else samples[|samples| - n..]
  }

  /** The positions of the failed calls. */
  ghost function ErrorsAt(samples: seq<Sample>): set<int> {
    set k | 0 <= k < |samples| && samples[k].isError
  }

  lemma {:induction false} CountErrorsExactly(samples: seq<Sample>)
    ensures CountErrors(samples) == |ErrorsAt(samples)|
    decreases |samples|
  {
    if samples != [] {
      var m := |samples| - 1;
      CountErrorsExactly(samples[..m]);
      assert ErrorsAt(samples) == if samples[m].isError then ErrorsAt(samples[..m]) + {m} else ErrorsAt(samples[..m]);
    } else {
      assert ErrorsAt(samples) == {};
    }
  }

  /** The totals count every sample, the window holds exactly the latest hundred. */
  lemma {:induction false} HealthRefinesSamples(samples: seq<Sample>)
    ensures HealthAfter(samples).totalRequests == |samples|
    ensures HealthAfter(samples).totalErrors == |ErrorsAt(samples)|
    ensures HealthAfter(samples).window == if |samples| <= 100 then samples else samples[|samples| - 100..]
    decreases |samples|
  {
    CountErrorsExactly(samples);
    if samples != [] {
      CountErrorsExactly(samples[..|samples| - 1]);
      var m := |samples| - 1;
      HealthRefinesSamples(samples[..m]);
      LatestPush(samples, samples[..m], samples[m]);
    }
  }

  /** Pushing a sample into a window of the latest ones gives the window of the latest ones. */
  lemma LatestPush(samples: seq<Sample>, earlier: seq<Sample>, sample: Sample)
    requires samples == earlier + [sample]
    ensures Latest(samples, WINDOW_SIZE) == PushSample(Latest(earlier, WINDOW_SIZE), sample)
  {
    var before, after := Latest(earlier, WINDOW_SIZE), Latest(samples, WINDOW_SIZE);
    if |earlier| < WINDOW_SIZE {
      assert after == before + [sample];
    } else {
      assert after == before[1..] + [sample];
    }
  }

  /** The status depends on nothing but the latest hundred samples, and is unknown only before the first one. */
  lemma StatusFromLatest(samples: seq<Sample>)
    ensures var latest := if |samples| <= 100 then samples else samples[|samples| - 100..];
      var errors, n := |ErrorsAt(latest)|, |latest|;
      HealthAfter(samples).Status() ==
        if samples == [] then Unknown
        else if 2 * errors > n then Unhealthy
        else if 10 * errors > n then Degraded
        else Healthy
  {
    HealthRefinesSamples(samples);
    var window := Latest(samples, WINDOW_SIZE);
    CountErrorsExactly(window);
    if samples != [] {
      RateAgainstHalf(CountErrors(window), |window|);
      RateAgainstTenth(CountErrors(window), |window|);
    }
  }

  lemma RateAgainstHalf(errors: nat, n: nat)
    requires n > 0
    ensures errors as real / n as real > 0.5 <==> 2 * errors > n
  {
    ScaleComparison(errors as real / n as real, 0.5, n as real);
    assert errors as real / n as real * n as real == errors as real;
  }

  lemma RateAgainstTenth(errors: nat, n: nat)
    requires n > 0
    ensures errors as real / n as real > 0.1 <==> 10 * errors > n
  {
    ScaleComparison(errors as real / n as real, 0.1, n as real);
    assert errors as real / n as real * n as real == errors as real;
  }

  lemma ScaleComparison(q: real, c: real, d: real)
    requires d > 0.0
    ensures q > c <==> q * d > c * d
  {
    if q > c { assert (q - c) * d > 0.0; } else { assert (c - q) * d >= 0.0; }
  }
}
