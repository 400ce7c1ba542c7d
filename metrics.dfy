/**
 The metric selector of a matrix request: a bitmask over the three
 metrics a matrix can hold. The bit values and the test `IsSet` follow
 the metric-type constants used by the matrix code (1, 2 and 4, and a
 metric is requested when all of its bits are set in the mask).
 */
module Metrics {

  datatype Metric = Duration | Distance | Weight

  /** The bit that stands for `m` in a metric mask. */
  function Bit(m: Metric): bv32 {
    match m
    case Duration => 1
    case Distance => 2
    case Weight => 4
  }

  /** Whether the mask `metrics` requests metric `m`. */
  predicate IsSet(metrics: bv32, m: Metric) {
    metrics & Bit(m) == Bit(m)
  }

  /** The metrics a mask requests. */
  function RequestedMetrics(metrics: bv32): (r: set<Metric>)
    ensures forall m :: m in r <==> IsSet(metrics, m)
  {
    (if IsSet(metrics, Duration) then {Duration} else {}) +
    (if IsSet(metrics, Distance) then {Distance} else {}) +
    (if IsSet(metrics, Weight) then {Weight} else {})
  }
}
