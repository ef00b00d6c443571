/** The gateway's five counters (crates/vil_ai_gateway/src/metrics.rs). */
module Metrics {

  datatype Counters = Counters(requests: nat, successes: nat, failures: nat, failovers: nat, rejections: nat)

  const NO_COUNTS: Counters := Counters(0, 0, 0, 0, 0)

  class GatewayMetrics {
    var counters: Counters

    constructor ()
      ensures counters == NO_COUNTS
    {
      counters := NO_COUNTS;
    }

    method RecordRequest()
      modifies this
      ensures counters == old(counters).(requests := old(counters).requests + 1)
    {
      counters := counters.(requests := counters.requests + 1);
    }

    method RecordSuccess()
      modifies this
      ensures counters == old(counters).(successes := old(counters).successes + 1)
    {
      counters := counters.(successes := counters.successes + 1);
    }

    method RecordFailure()
      modifies this
      ensures counters == old(counters).(failures := old(counters).failures + 1)
    {
      counters := counters.(failures := counters.failures + 1);
    }

    method RecordFailover()
      modifies this
      ensures counters == old(counters).(failovers := old(counters).failovers + 1)
    {
      counters := counters.(failovers := counters.failovers + 1);
    }

    method RecordCircuitRejection()
      modifies this
      ensures counters == old(counters).(rejections := old(counters).rejections + 1)
    {
      counters := counters.(rejections := counters.rejections + 1);
    }
  }
}
