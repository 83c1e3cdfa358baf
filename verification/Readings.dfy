/**
 The values the two monitoring collectors pass around: the identity of a
 resource to measure, one reading, and the outcome of measuring one resource.
 */
module Readings {
  /** One emitted sample: the metric it belongs to, its label values, its value. */
  datatype Point = Point(metric: string, labels: seq<string>, value: real)

  /** What one measurement learned: the points, and the newest sample's Unix time (0 if none). */
  datatype Reading = Reading(points: seq<Point>, sampled: int)

  /** A resource that never reported anything. */
  const NOTHING := Reading([], 0)

  /** The identity of a resource to measure. */
  datatype Reference = Reference(id: string, name: string)

  /**
   How one measurement ended. A failure matters to the collector only through
   whether it is nothing but the refresh running out of time (`starved`).
   */
  datatype Outcome = Measured(reading: Reading) | Failed(starved: bool)
  {
    /** Whether the resource had its turn, successfully or not. */
    predicate Reached() {
      Measured? || !starved
    }
  }

  /** One slot of the results slice. */
  datatype Result = Result(ref: Reference, outcome: Outcome)

  /** How many of the results had their turn. */
  function ReachedCount(results: seq<Result>): (count: nat)
    ensures count <= |results|
  {
    if results == [] then 0
    else ReachedCount(results[..|results| - 1]) + (if results[|results| - 1].outcome.Reached() then 1 else 0)
  }

  /** How many of the results are successful measurements. */
  function MeasuredCount(results: seq<Result>): (count: nat)
    ensures count <= |results|
  {
    if results == [] then 0
    else MeasuredCount(results[..|results| - 1]) + (if results[|results| - 1].outcome.Measured? then 1 else 0)
  }

  /** Counting splits along a concatenation of one element. */
  lemma CountsExtend(results: seq<Result>, i: nat)
    requires i < |results|
    ensures ReachedCount(results[..i + 1]) ==
            ReachedCount(results[..i]) + (if results[i].outcome.Reached() then 1 else 0)
    ensures MeasuredCount(results[..i + 1]) ==
            MeasuredCount(results[..i]) + (if results[i].outcome.Measured? then 1 else 0)
  {
    assert results[..i + 1][..i] == results[..i];
  }

  lemma {:induction false} SomeMeasured(results: seq<Result>, i: nat)
    requires i < |results| && results[i].outcome.Measured?
    ensures MeasuredCount(results) >= 1
  {
    if i < |results| - 1 {
      SomeMeasured(results[..|results| - 1], i);
    }
  }

  lemma {:induction false} NoneMeasured(results: seq<Result>)
    requires forall i :: 0 <= i < |results| ==> !results[i].outcome.Measured?
    ensures MeasuredCount(results) == 0
  {
    if results != [] {
      NoneMeasured(results[..|results| - 1]);
    }
  }

  /** Where the successful measurements are. */
  ghost function MeasuredAt(results: seq<Result>): set<nat> {
    set i: nat | i < |results| && results[i].outcome.Measured?
  }

  lemma {:induction false} MeasuredCountIsTheirNumber(results: seq<Result>)
    ensures MeasuredCount(results) == |MeasuredAt(results)|
  {
    if results == [] {
      assert MeasuredAt(results) == {};
    } else {
      var m := |results| - 1;
      MeasuredCountIsTheirNumber(results[..m]);
      assert MeasuredAt(results) == MeasuredAt(results[..m]) + if results[m].outcome.Measured? then {m} else {};
    }
  }
}
