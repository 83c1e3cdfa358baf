/**
 What a successful report is worth. The limiter refuses, before the deadline, a
 request it would have to hold past it, and a request can overrun a timeout of
 its own; either counts as a context error. A droplet can then be starved by a
 refresh whose context is not done when it reports.
 */
module EarlyErrors {
  import opened Wrappers
  import opened Readings
  import opened FanOut
  import opened Deadlines
  import opened Rotation
  import opened DropletMetrics

  /** Whenever a refresh reports success, every droplet had its turn. */
  ghost predicate SuccessCoversTheFleet(config: Config, refs: seq<Reference>, concurrency: nat) {
    forall events: seq<Event>, done: bool ::
      Possible(config, refs, concurrency, events) && (Final(refs, concurrency, events).cancelled ==> done) ==>
        Reported(Returned(refs, concurrency, events), done).None? ==>
          ReachedCount(Returned(refs, concurrency, events)) == |refs|
  }

  // ----- A run that succeeds and starves all droplets but one -----

  /** Every droplet from `k` on is handed out and refused at once. */
  function Refusals(k: nat, count: nat, rest: seq<Event>): seq<Event>
    requires k <= count
    decreases count - k
  {
    if k == count then rest else [HandOut(0), Finish(0, Failed(true))] + Refusals(k + 1, count, rest)
  }

  function RefusedRound(pool: nat, count: nat): seq<Event>
    requires count >= 1
  {
    [HandOut(0), Finish(0, Measured(NOTHING))] + Refusals(1, count, [Close] + LeaveFrom(0, pool))
  }

  /** The first `k` droplets are done, the first of them measured, the others refused; nobody is busy. */
  ghost predicate Refused(s: State, k: nat) {
    && |s.results| == |s.refs| && 1 <= k <= |s.refs| && |s.workers| > 0
    && s.next == k && s.open && !s.cancelled && !s.done
    && (forall w :: 0 <= w < |s.workers| ==> s.workers[w].Idle?)
    && s.results[0] == Some(Result(s.refs[0], Measured(NOTHING)))
    && (forall i :: 1 <= i < k ==> s.results[i] == Some(Result(s.refs[i], Failed(true))))
  }

  lemma LimitedPair(s: State, w: nat, outcome: Outcome, rest: seq<Event>)
    requires |s.results| == |s.refs| && Enabled(s, HandOut(w)) && !s.cancelled
    requires LimitedRun(Apply(Apply(s, HandOut(w)), Finish(w, outcome)), rest)
    ensures var events := [HandOut(w), Finish(w, outcome)] + rest;
            && LimitedRun(s, events)
            && Exec(s, events) == Exec(Apply(Apply(s, HandOut(w)), Finish(w, outcome)), rest)
  {
    var events := [HandOut(w), Finish(w, outcome)] + rest;
    var t := Apply(s, HandOut(w));
    assert events[1..] == [Finish(w, outcome)] + rest && events[1..][1..] == rest;
    assert Enabled(t, Finish(w, outcome)) && LimitedRun(t, events[1..]);
  }

  lemma {:induction false} LawfulIsLimited(s: State, events: seq<Event>)
    requires |s.results| == |s.refs| && LawfulRun(s, events)
    ensures LimitedRun(s, events)
    decreases |events|
  {
    if events != [] {
      LawfulIsLimited(Apply(s, events[0]), events[1..]);
    }
  }

  lemma {:induction false} RefusalsRun(s: State, k: nat)
    requires Refused(s, k)
    ensures var events := Refusals(k, |s.refs|, [Close] + LeaveFrom(0, |s.workers|));
            && LimitedRun(s, events)
            && var final := Exec(s, events);
               && final.Some? && final.value.done && !final.value.cancelled
               && Refused(final.value.(next := |s.refs|, open := true, done := false, workers := s.workers), |s.refs|)
    decreases |s.refs| - k
  {
    var rest := [Close] + LeaveFrom(0, |s.workers|);
    if k == |s.refs| {
      var t := Apply(s, Close);
      LeavingRuns(t, 0);
      assert rest[1..] == LeaveFrom(0, |s.workers|);
      LawfulIsLimited(t, LeaveFrom(0, |s.workers|));
      LeavingCancelsNothing(0, |s.workers|);
      LeavingKeepsFlags(t, LeaveFrom(0, |s.workers|));
    } else {
      var t := Apply(Apply(s, HandOut(0)), Finish(0, Failed(true)));
      RefusalsRun(t, k + 1);
      LimitedPair(s, 0, Failed(true), Refusals(k + 1, |s.refs|, rest));
    }
  }

  lemma {:induction false} LeavingCancelsNothing(w: nat, pool: nat)
    requires w <= pool
    ensures forall i :: 0 <= i < |LeaveFrom(w, pool)| ==> !LeaveFrom(w, pool)[i].Cancel?
    decreases pool - w
  {
    if w < pool {
      LeavingCancelsNothing(w + 1, pool);
    }
  }

  /** A run that ends no context leaves it unended. */
  lemma {:induction false} LeavingKeepsFlags(s: State, events: seq<Event>)
    requires |s.results| == |s.refs| && Exec(s, events).Some?
    requires forall i :: 0 <= i < |events| ==> !events[i].Cancel?
    ensures Exec(s, events).value.cancelled == s.cancelled
    decreases |events|
  {
    if events != [] {
      LeavingKeepsFlags(Apply(s, events[0]), events[1..]);
    }
  }

  /** With a limiter: one droplet measured, all others starved, the context not done, a success by the report. */
  lemma RefusedRoundSucceeds(config: Config, refs: seq<Reference>, concurrency: nat)
    requires |refs| >= 2 && concurrency >= 1
    requires config.limited && config.refreshTimeout > 0
    ensures var events := RefusedRound(PoolSize(concurrency, |refs|), |refs|);
            && Possible(config, refs, concurrency, events)
            && !Final(refs, concurrency, events).cancelled
            && Reported(Returned(refs, concurrency, events), false).None?
            && ReachedCount(Returned(refs, concurrency, events)) == 1
  {
    var pool := PoolSize(concurrency, |refs|);
    var s := Init(refs, concurrency);
    var t := Apply(Apply(s, HandOut(0)), Finish(0, Measured(NOTHING)));
    RefusalsRun(t, 1);
    LimitedPair(s, 0, Measured(NOTHING), Refusals(1, |refs|, [Close] + LeaveFrom(0, pool)));
    LimitedIsTimed(config, s, Always(|s.workers|, 0), RefusedRound(pool, |refs|));
    assert Timed(config, refs, concurrency, RefusedRound(pool, |refs|), Always(|RefusedRound(pool, |refs|)|, 0));
    var results := Returned(refs, concurrency, RefusedRound(pool, |refs|));
    OnlyOneReached(results, 0);
    SomeMeasured(results, 0);
  }

  lemma {:induction false} MeasuredAreReached(results: seq<Result>)
    ensures MeasuredCount(results) <= ReachedCount(results)
  {
    if results != [] {
      MeasuredAreReached(results[..|results| - 1]);
    }
  }

  // ----- A run that succeeds and starves one droplet -----

  /** Every droplet from `k` on is handed out and measured at once. */
  function Measurements(k: nat, count: nat, rest: seq<Event>): seq<Event>
    requires k <= count
    decreases count - k
  {
    if k == count then rest
    else [HandOut(0), Finish(0, Measured(NOTHING))] + Measurements(k + 1, count, rest)
  }

  function TimedOutRound(pool: nat, count: nat): seq<Event>
    requires count >= 1
  {
    StarvedFirst(Measurements(1, count, [Close] + LeaveFrom(0, pool)))
  }

  /** The first `k` droplets are done, the first of them starved, the others measured; nobody is busy. */
  ghost predicate FirstStarved(s: State, k: nat) {
    && |s.results| == |s.refs| && 1 <= k <= |s.refs| && |s.workers| > 0
    && s.next == k && s.open && !s.cancelled && !s.done
    && (forall w :: 0 <= w < |s.workers| ==> s.workers[w].Idle?)
    && s.results[0] == Some(Result(s.refs[0], Failed(true)))
    && (forall i :: 1 <= i < k ==> s.results[i] == Some(Result(s.refs[i], Measured(NOTHING))))
  }

  lemma {:induction false} MeasurementsRun(s: State, k: nat)
    requires FirstStarved(s, k)
    ensures var events := Measurements(k, |s.refs|, [Close] + LeaveFrom(0, |s.workers|));
            && LawfulRun(s, events)
            && var final := Exec(s, events);
               && final.Some? && final.value.done && !final.value.cancelled
               && FirstStarved(
                    final.value.(next := |s.refs|, open := true, done := false, workers := s.workers), |s.refs|)
    decreases |s.refs| - k
  {
    var rest := [Close] + LeaveFrom(0, |s.workers|);
    if k == |s.refs| {
      var t := Apply(s, Close);
      LeavingRuns(t, 0);
      assert rest[1..] == LeaveFrom(0, |s.workers|);
    } else {
      var t := Apply(Apply(s, HandOut(0)), Finish(0, Measured(NOTHING)));
      MeasurementsRun(t, k + 1);
      Two(s, HandOut(0), Finish(0, Measured(NOTHING)));
      RunsAppend(s, [HandOut(0), Finish(0, Measured(NOTHING))], Measurements(k + 1, |s.refs|, rest));
    }
  }

  /** With any early error: one droplet starved, all others measured, the context not done, a success by the report. */
  lemma TimedOutRoundSucceeds(config: Config, refs: seq<Reference>, concurrency: nat)
    requires |refs| >= 2 && concurrency >= 1
    requires config.EarlyErrors() && config.refreshTimeout > 0
    ensures var events := TimedOutRound(PoolSize(concurrency, |refs|), |refs|);
            && Possible(config, refs, concurrency, events)
            && !Final(refs, concurrency, events).cancelled
            && Reported(Returned(refs, concurrency, events), false).None?
            && ReachedCount(Returned(refs, concurrency, events)) == |refs| - 1
  {
    var pool := PoolSize(concurrency, |refs|);
    MeasurementsRun(Starved(refs, concurrency), 1);
    StarvedFirstRuns(config, refs, concurrency, Measurements(1, |refs|, [Close] + LeaveFrom(0, pool)));
    OnlyFirstStarved(Returned(refs, concurrency, TimedOutRound(pool, |refs|)));
  }

  lemma OnlyFirstStarved(results: seq<Result>)
    requires |results| >= 2 && results[0].outcome == Failed(true)
    requires forall i :: 1 <= i < |results| ==> results[i].outcome.Measured?
    ensures MeasuredCount(results) >= 1 && ReachedCount(results) == |results| - 1
  {
    SomeMeasured(results, 1);
    CountFromUnreached(results, |results|);
    assert Unreached(results) == {0};
  }

  /**
   A reported success means the whole fleet had its turn exactly when nothing can
   starve a droplet before the context ends: no limiter, and no request timeout
   shorter than the refresh's.
   */
  lemma SuccessCoversTheFleetWithoutEarlyErrors(config: Config, refs: seq<Reference>, concurrency: nat)
    requires concurrency >= 1 && config.refreshTimeout > 0
    ensures SuccessCoversTheFleet(config, refs, concurrency) <==> !config.EarlyErrors() || |refs| <= 1
  {
    if !config.EarlyErrors() || |refs| <= 1 {
      forall events: seq<Event>, done: bool |
        Possible(config, refs, concurrency, events) && (Final(refs, concurrency, events).cancelled ==> done) &&
        Reported(Returned(refs, concurrency, events), done).None?
        ensures ReachedCount(Returned(refs, concurrency, events)) == |refs|
      {
        if !config.EarlyErrors() {
          PossibleIsLawful(config, refs, concurrency, events);
          FewStarvedBelowReached(refs, concurrency, events);
        } else {
          MeasuredAreReached(Returned(refs, concurrency, events));
        }
      }
    } else {
      TimedOutRoundSucceeds(config, refs, concurrency);
      assert Possible(config, refs, concurrency, TimedOutRound(PoolSize(concurrency, |refs|), |refs|));
    }
  }
}
