/**
 One resource's measurement: a required set of metric requests, any of whose
 failures fails the resource, and an optional extended set whose failures are
 contained unless they are the refresh running out of time. The droplet
 collector is the case without an extended set.
 */
module Measuring {
  import opened Readings
  import opened TimeSeries

  datatype Spec = Spec(metric: string, seriesLabels: seq<string>)

  /** What one metric request came back with: a failure, or a response. */
  datatype Reply = Failure(starved: bool) | Answer(response: Response)

  /** A request of the measurement, and what was made of its reply: an error, or the samples in it. */
  datatype Call = Call(spec: Spec, failed: bool, starved: bool, samples: seq<Sample>)

  /** A response that is missing or unsuccessful is an error of its own, and never a starved one. */
  function Read(spec: Spec, reply: Reply): Call {
    match reply
    case Failure(starved) => Call(spec, true, starved, [])
    case Answer(response) =>
      if response.Response? && response.status == SUCCESS then Call(spec, false, false, Samples(response.result))
      else Call(spec, true, false, [])
  }

  /** The calls a measurement makes, when its requests come back with these replies. */
  ghost predicate Calls(specs: seq<Spec>, replies: seq<Reply>, calls: seq<Call>) {
    && |specs| == |replies| == |calls|
    && forall i :: 0 <= i < |calls| ==> calls[i] == Read(specs[i], replies[i])
  }

  /** The Unix time of a sample, in whole seconds. */
  function Unix(milliseconds: int): int {
    milliseconds / 1000
  }

  function PointOf(ref: Reference, spec: Spec, sample: Sample): Point {
    Point(spec.metric,
          [ref.id, ref.name] + seq(|spec.seriesLabels|, i requires 0 <= i < |spec.seriesLabels| =>
                                     sample.Label(spec.seriesLabels[i])),
          sample.value)
  }

  function PointsOf(ref: Reference, spec: Spec, samples: seq<Sample>): (points: seq<Point>)
    ensures |points| == |samples|
    ensures forall i :: 0 <= i < |samples| ==> points[i] == PointOf(ref, spec, samples[i])
  {
    seq(|samples|, i requires 0 <= i < |samples| => PointOf(ref, spec, samples[i]))
  }

  /** A point carries its metric, the resource's id and name, the metric's series labels in order, and the value. */
  lemma PointCarries(ref: Reference, spec: Spec, sample: Sample)
    ensures var point := PointOf(ref, spec, sample);
            && point.metric == spec.metric && point.value == sample.value
            && |point.labels| == 2 + |spec.seriesLabels|
            && point.labels[0] == ref.id && point.labels[1] == ref.name
            && forall i :: 0 <= i < |spec.seriesLabels| ==>
                 var name := spec.seriesLabels[i];
                 point.labels[2 + i] == if name in sample.labels then sample.labels[name] else ""
  {
  }

  /** A request fails if it failed or was answered without a success, and is out of time only if it failed so. */
  lemma ReadMeans(spec: Spec, reply: Reply)
    ensures var call := Read(spec, reply);
            && (call.failed <==> reply.Failure? || reply.response.NoResponse? || reply.response.status != "success")
            && (call.starved <==> reply == Failure(true))
            && call.spec == spec
            && call.samples == if call.failed then [] else Samples(reply.response.result)
  {
  }

  /** A sample's Unix time is its milliseconds in whole seconds, rounded down. */
  lemma UnixIsWholeSeconds(milliseconds: int)
    ensures Unix(milliseconds) * 1000 <= milliseconds < (Unix(milliseconds) + 1) * 1000
  {
  }

  /** The points of the first `k` calls, in order; a failed call contributes nothing. */
  function PointsTo(ref: Reference, calls: seq<Call>, k: nat): seq<Point>
    requires k <= |calls|
  {
    if k == 0 then []
    else PointsTo(ref, calls, k - 1) + PointsOf(ref, calls[k - 1].spec, calls[k - 1].samples)
  }

  /** How many samples the first `k` calls brought. */
  function SamplesTo(calls: seq<Call>, k: nat): nat
    requires k <= |calls|
  {
    if k == 0 then 0 else SamplesTo(calls, k - 1) + |calls[k - 1].samples|
  }

  /** Sample `i` of call `j` is where it belongs: behind those of all earlier calls and the earlier ones of its own. */
  lemma {:induction false} PointsAreInOrder(ref: Reference, calls: seq<Call>, k: nat, j: nat, i: nat)
    requires j < k <= |calls| && i < |calls[j].samples|
    ensures |PointsTo(ref, calls, k)| == SamplesTo(calls, k)
    ensures SamplesTo(calls, j) + i < SamplesTo(calls, k)
    ensures PointsTo(ref, calls, k)[SamplesTo(calls, j) + i] == PointOf(ref, calls[j].spec, calls[j].samples[i])
  {
    PointsAreAsMany(ref, calls, k - 1);
    if j < k - 1 {
      PointsAreInOrder(ref, calls, k - 1, j, i);
    }
  }

  lemma {:induction false} PointsAreAsMany(ref: Reference, calls: seq<Call>, k: nat)
    requires k <= |calls|
    ensures |PointsTo(ref, calls, k)| == SamplesTo(calls, k)
  {
    if k > 0 {
      PointsAreAsMany(ref, calls, k - 1);
    }
  }

  /** The newest Unix time of the first `k` samples, or `floor` if that is later. */
  function Newer(samples: seq<Sample>, k: nat, floor: int): int
    requires k <= |samples|
  {
    if k == 0 then floor
    else
      var before := Newer(samples, k - 1, floor);
      if Unix(samples[k - 1].time) > before then Unix(samples[k - 1].time) else before
  }

  /** Some of the samples was taken at `at`. */
  ghost predicate TakenAt(samples: seq<Sample>, at: int) {
    exists i :: 0 <= i < |samples| && Unix(samples[i].time) == at
  }

  lemma {:induction false} NewerIsTheNewest(samples: seq<Sample>, k: nat, floor: int)
    requires k <= |samples|
    ensures Newer(samples, k, floor) >= floor
    ensures forall i :: 0 <= i < k ==> Newer(samples, k, floor) >= Unix(samples[i].time)
    ensures Newer(samples, k, floor) != floor ==> TakenAt(samples, Newer(samples, k, floor))
  {
    if k > 0 {
      NewerIsTheNewest(samples, k - 1, floor);
    }
  }

  /** The newest Unix time of the samples of the first `k` calls, 0 if there is none after 1970. */
  function SampledTo(calls: seq<Call>, k: nat): int
    requires k <= |calls|
  {
    if k == 0 then 0
    else Newer(calls[k - 1].samples, |calls[k - 1].samples|, SampledTo(calls, k - 1))
  }

  /** The reported time is no earlier than any sample's, and is a sample's own or zero. */
  lemma {:induction false} SampledIsTheNewest(calls: seq<Call>, k: nat)
    requires k <= |calls|
    ensures SampledTo(calls, k) >= 0
    ensures forall j, at :: 0 <= j < k && TakenAt(calls[j].samples, at) ==> at <= SampledTo(calls, k)
    ensures SampledTo(calls, k) != 0 ==> exists j :: 0 <= j < k && TakenAt(calls[j].samples, SampledTo(calls, k))
  {
    if k > 0 {
      SampledIsTheNewest(calls, k - 1);
      var samples := calls[k - 1].samples;
      NewerIsTheNewest(samples, |samples|, SampledTo(calls, k - 1));
    }
  }

  lemma {:induction false} PrefixOfCalls(ref: Reference, a: seq<Call>, b: seq<Call>, k: nat)
    requires k <= |a| <= |b| && forall j :: 0 <= j < k ==> a[j] == b[j]
    ensures PointsTo(ref, a, k) == PointsTo(ref, b, k) && SampledTo(a, k) == SampledTo(b, k)
  {
    if k > 0 {
      PrefixOfCalls(ref, a, b, k - 1);
    }
  }

  /** The reading under construction, which `Fetch` extends in place. */
  class Draft {
    var points: seq<Point>
    var sampled: int

    constructor ()
      ensures points == [] && sampled == 0
    {
      points, sampled := [], 0;
    }

    /** One metric request: appends what came back, or leaves the draft alone and says why. */
    method Fetch(ref: Reference, spec: Spec, reply: Reply) returns (failed: bool, starved: bool)
      modifies this
      ensures var call := Read(spec, reply);
              && failed == call.failed && starved == call.starved
              && points == old(points) + PointsOf(ref, spec, call.samples)
              && sampled == Newer(call.samples, |call.samples|, old(sampled))
    {
      if reply.Failure? {
        return true, reply.starved;
      }
      var latest := Latest(reply.response);
      if latest.Err? {
        return true, false;
      }
      var samples := latest.value;
      for i := 0 to |samples|
        invariant points == old(points) + PointsOf(ref, spec, samples[..i])
        invariant sampled == Newer(samples, i, old(sampled))
      {
        points := points + [PointOf(ref, spec, samples[i])];
        var at := Unix(samples[i].time);
        if at > sampled {
          sampled := at;
        }
      }
      assert samples[..|samples|] == samples;
      return false, false;
    }
  }

  /** The first of the first `k` calls that failed. */
  predicate FirstFailed(calls: seq<Call>, k: nat) {
    k < |calls| && calls[k].failed && forall j :: 0 <= j < k ==> !calls[j].failed
  }

  predicate NoneFailed(calls: seq<Call>) {
    forall j :: 0 <= j < |calls| ==> !calls[j].failed
  }

  predicate NoneStarved(calls: seq<Call>) {
    forall j :: 0 <= j < |calls| ==> !calls[j].starved
  }

  /** The required part: stops at the first failure. */
  method FetchRequired(out: Draft, ref: Reference, specs: seq<Spec>, replies: seq<Reply>, ghost calls: seq<Call>)
    returns (failed: bool, starved: bool)
    requires Calls(specs, replies, calls)
    requires out.points == [] && out.sampled == 0
    modifies out
    ensures failed <==> !NoneFailed(calls)
    ensures !failed ==> out.points == PointsTo(ref, calls, |calls|) && out.sampled == SampledTo(calls, |calls|)
    ensures forall k: nat :: FirstFailed(calls, k) ==> starved == calls[k].starved
  {
    failed, starved := false, false;
    for i := 0 to |specs|
      invariant forall j :: 0 <= j < i ==> !calls[j].failed
      invariant out.points == PointsTo(ref, calls, i) && out.sampled == SampledTo(calls, i)
      invariant !failed
    {
      failed, starved := out.Fetch(ref, specs[i], replies[i]);
      if failed {
        return;
      }
    }
  }

  /** The extended part: a failure is left out, unless it is time running out. */
  method FetchExtended(out: Draft, ref: Reference, specs: seq<Spec>, replies: seq<Reply>,
                       ghost first: nat, ghost calls: seq<Call>) returns (starved: bool)
    requires first <= |calls| && Calls(specs, replies, calls[first..])
    requires out.points == PointsTo(ref, calls, first) && out.sampled == SampledTo(calls, first)
    modifies out
    ensures starved <==> !NoneStarved(calls[first..])
    ensures !starved ==> out.points == PointsTo(ref, calls, |calls|) && out.sampled == SampledTo(calls, |calls|)
  {
    for i := 0 to |specs|
      invariant forall j :: 0 <= j < i ==> !calls[first..][j].starved
      invariant out.points == PointsTo(ref, calls, first + i) && out.sampled == SampledTo(calls, first + i)
    {
      assert calls[first..][i] == calls[first + i];
      var failed, late := out.Fetch(ref, specs[i], replies[i]);
      if failed && late {
        return true;
      }
    }
    starved := false;
  }

  /**
   A successful measurement holds the points of the required calls followed by
   those of exactly the extended calls that succeeded, and the newest sample time
   of them all. Any failed required call fails the resource with its own error;
   an extended call fails it only by running out of time.
   */
  method Measure(ref: Reference, specs: seq<Spec>, replies: seq<Reply>,
                 extendedSpecs: seq<Spec>, extendedReplies: seq<Reply>,
                 ghost required: seq<Call>, ghost extended: seq<Call>) returns (outcome: Outcome)
    requires Calls(specs, replies, required) && Calls(extendedSpecs, extendedReplies, extended)
    ensures outcome.Measured? <==> NoneFailed(required) && NoneStarved(extended)
    ensures var calls := required + extended;
            outcome.Measured? ==> outcome.reading == Reading(PointsTo(ref, calls, |calls|), SampledTo(calls, |calls|))
    ensures forall k: nat :: FirstFailed(required, k) ==> outcome == Failed(required[k].starved)
    ensures NoneFailed(required) && !NoneStarved(extended) ==> outcome == Failed(true)
  {
    var out := new Draft();
    var failed, starved := FetchRequired(out, ref, specs, replies, required);
    if failed {
      return Failed(starved);
    }
    ghost var calls := required + extended;
    PrefixOfCalls(ref, required, calls, |required|);
    assert calls[|required|..] == extended;
    starved := FetchExtended(out, ref, extendedSpecs, extendedReplies, |required|, calls);
    if starved {
      return Failed(true);
    }
    outcome := Measured(Reading(out.points, out.sampled));
  }

  /** A contained failure leaves no trace: the calls that succeeded alone give the same points and time. */
  lemma {:induction false} ContainedFailuresAddNothing(ref: Reference, calls: seq<Call>, k: nat)
    returns (good: seq<Call>)
    requires k <= |calls|
    requires forall j :: 0 <= j < k && calls[j].failed ==> calls[j].samples == []
    ensures NoneFailed(good) && forall c :: c in good ==> c in calls
    ensures forall j :: 0 <= j < k && !calls[j].failed ==> calls[j] in good
    ensures PointsTo(ref, good, |good|) == PointsTo(ref, calls, k)
    ensures SampledTo(good, |good|) == SampledTo(calls, k)
  {
    if k == 0 {
      good := [];
    } else {
      var before := ContainedFailuresAddNothing(ref, calls, k - 1);
      if calls[k - 1].failed {
        good := before;
      } else {
        good := before + [calls[k - 1]];
        PrefixOfCalls(ref, before, good, |before|);
      }
    }
  }
}
