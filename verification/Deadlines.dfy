/**
 Which courses of a fan-out a configuration allows. Every measurement runs under
 the refresh's context, and each of its requests under shorter deadlines of its
 own: the client's timeout, and the one the base transport connects under. A
 request that overruns its own deadline fails with an error that reads as a
 deadline exceeded, and so does one the rate limiter would hold past it, while
 the refresh's context may not be done at all.
 */
module Deadlines {
  import opened Wrappers
  import opened Readings
  import opened FanOut

  /**
   A timeout that is not positive is none, and `connectTimeout` the shortest time
   in which connecting to one address of the API can time out. Times count from
   the start of the refresh.
   */
  datatype Config = Config(limited: bool, requestTimeout: int, connectTimeout: int, refreshTimeout: int)
  {
    /** Whether a request under this timeout can overrun it while the refresh still has time. */
    predicate Overruns(timeout: int) {
      0 < timeout < refreshTimeout
    }

    /** Whether a droplet can be starved before the context ends. */
    predicate EarlyErrors() {
      limited || Overruns(requestTimeout) || Overruns(connectTimeout)
    }

    /** A request of a measurement begun at `begun` can have overrun a deadline of its own by `at`. */
    predicate TimedOut(begun: int, at: int) {
      || (requestTimeout > 0 && begun + requestTimeout <= at)
      || (connectTimeout > 0 && begun + connectTimeout <= at)
    }

    /** The context ends at the refresh's deadline if nothing ends it before. */
    predicate InTime(s: State, e: Event, at: int) {
      !s.cancelled ==> at < refreshTimeout || (e.Cancel? && at == refreshTimeout)
    }

    /** A measurement begun too late is starved; any other is only for a reason of its own. */
    predicate Explains(s: State, begun: seq<int>, e: Event, at: int)
      requires |begun| == |s.workers|
    {
      e.Finish? && e.worker < |s.workers| && s.workers[e.worker].Busy? ==>
        && (s.workers[e.worker].late ==> e.outcome == Failed(true))
        && (!s.cancelled && e.outcome == Failed(true) ==> limited || TimedOut(begun[e.worker], at))
    }
  }

  /** When each worker began its measurement, after one more event. */
  function Begin(begun: seq<int>, e: Event, at: int): (after: seq<int>)
    ensures |after| == |begun|
  {
    if e.HandOut? && e.worker < |begun| then begun[e.worker := at] else begun
  }

  /** A run whose events happen at these times. */
  predicate TimedRun(config: Config, s: State, begun: seq<int>, now: int, events: seq<Event>, times: seq<int>)
    requires |s.results| == |s.refs| && |begun| == |s.workers| && |times| == |events|
    decreases |events|
  {
    events != [] ==>
      && now <= times[0]
      && Enabled(s, events[0])
      && config.InTime(s, events[0], times[0])
      && config.Explains(s, begun, events[0], times[0])
      && TimedRun(config, Apply(s, events[0]), Begin(begun, events[0], times[0]), times[0], events[1..], times[1..])
  }

  function Always(count: nat, x: int): (s: seq<int>)
    ensures |s| == count && forall i :: 0 <= i < count ==> s[i] == x
  {
    seq(count, _ => x)
  }

  /** The run can happen at these times, from the start of the fan-out on. */
  predicate Timed(config: Config, refs: seq<Reference>, concurrency: nat, events: seq<Event>, times: seq<int>) {
    var s := Init(refs, concurrency);
    |times| == |events| && TimedRun(config, s, Always(|s.workers|, 0), 0, events, times)
  }

  /** A course that measureAll can take under this configuration. */
  ghost predicate Possible(config: Config, refs: seq<Reference>, concurrency: nat, events: seq<Event>) {
    Complete(refs, concurrency, events) && exists times :: Timed(config, refs, concurrency, events, times)
  }

  lemma {:induction false} TimedIsLawful(
      config: Config, s: State, begun: seq<int>, now: int, events: seq<Event>, times: seq<int>)
    requires |s.results| == |s.refs| && |begun| == |s.workers| && |times| == |events|
    requires !config.EarlyErrors() && now >= 0 && forall w :: 0 <= w < |begun| ==> begun[w] >= 0
    requires TimedRun(config, s, begun, now, events, times)
    ensures LawfulRun(s, events)
    decreases |events|
  {
    if events != [] {
      TimedIsLawful(config, Apply(s, events[0]), Begin(begun, events[0], times[0]), times[0], events[1..], times[1..]);
    }
  }

  /** Without early errors, every course keeps the promise the counting results rest on. */
  lemma PossibleIsLawful(config: Config, refs: seq<Reference>, concurrency: nat, events: seq<Event>)
    requires !config.EarlyErrors() && Possible(config, refs, concurrency, events)
    ensures LawfulComplete(refs, concurrency, events)
  {
    var times :| Timed(config, refs, concurrency, events, times);
    var s := Init(refs, concurrency);
    TimedIsLawful(config, s, Always(|s.workers|, 0), 0, events, times);
  }

  /** A lawful run can happen at any one moment before the refresh's deadline. */
  lemma {:induction false} LawfulIsTimed(config: Config, s: State, begun: seq<int>, at: int, events: seq<Event>)
    requires |s.results| == |s.refs| && |begun| == |s.workers|
    requires at < config.refreshTimeout && LawfulRun(s, events)
    ensures TimedRun(config, s, begun, at, events, Always(|events|, at))
    decreases |events|
  {
    if events != [] {
      assert Always(|events|, at)[1..] == Always(|events[1..]|, at);
      LawfulIsTimed(config, Apply(s, events[0]), Begin(begun, events[0], at), at, events[1..]);
    }
  }

  /** A lawful course is possible whatever the configuration. */
  lemma LawfulIsPossible(config: Config, refs: seq<Reference>, concurrency: nat, events: seq<Event>)
    requires config.refreshTimeout > 0 && LawfulComplete(refs, concurrency, events)
    ensures Possible(config, refs, concurrency, events)
  {
    var s := Init(refs, concurrency);
    LawfulIsTimed(config, s, Always(|s.workers|, 0), 0, events);
    assert Timed(config, refs, concurrency, events, Always(|events|, 0));
  }

  /** With a limiter, a measurement may be starved at any moment; only what is begun too late has to be. */
  predicate LimitedRun(s: State, events: seq<Event>)
    requires |s.results| == |s.refs|
    decreases |events|
  {
    events != [] ==>
      && Enabled(s, events[0])
      && (events[0].Finish? && s.workers[events[0].worker].late ==> events[0].outcome == Failed(true))
      && LimitedRun(Apply(s, events[0]), events[1..])
  }

  lemma {:induction false} LimitedIsTimed(config: Config, s: State, begun: seq<int>, events: seq<Event>)
    requires |s.results| == |s.refs| && |begun| == |s.workers|
    requires config.limited && config.refreshTimeout > 0 && LimitedRun(s, events)
    ensures TimedRun(config, s, begun, 0, events, Always(|events|, 0))
    decreases |events|
  {
    if events != [] {
      assert Always(|events|, 0)[1..] == Always(|events[1..]|, 0);
      LimitedIsTimed(config, Apply(s, events[0]), Begin(begun, events[0], 0), events[1..]);
    }
  }

  // ----- One early error -----

  /** How long the first droplet is in flight before it is starved early. */
  function Delay(config: Config): (delay: int)
    requires config.EarlyErrors() && config.refreshTimeout > 0
    ensures 0 <= delay < config.refreshTimeout
  {
    if config.limited then 0
    else if config.Overruns(config.requestTimeout) then config.requestTimeout
    else config.connectTimeout
  }

  /** The first droplet is starved while the context still lives; what follows is lawful. */
  function StarvedFirst(rest: seq<Event>): seq<Event> {
    [HandOut(0), Finish(0, Failed(true))] + rest
  }

  function Starved(refs: seq<Reference>, concurrency: nat): State
    requires |refs| > 0 && concurrency > 0
  {
    Apply(Apply(Init(refs, concurrency), HandOut(0)), Finish(0, Failed(true)))
  }

  lemma StarvedFirstRuns(config: Config, refs: seq<Reference>, concurrency: nat, rest: seq<Event>)
    requires |refs| > 0 && concurrency > 0
    requires config.EarlyErrors() && config.refreshTimeout > 0
    requires LawfulRun(Starved(refs, concurrency), rest)
    requires Exec(Starved(refs, concurrency), rest).Some? && Exec(Starved(refs, concurrency), rest).value.done
    ensures Possible(config, refs, concurrency, StarvedFirst(rest))
    ensures Final(refs, concurrency, StarvedFirst(rest)) == Exec(Starved(refs, concurrency), rest).value
  {
    var s := Init(refs, concurrency);
    var delay := Delay(config);
    var events := StarvedFirst(rest);
    var times := [0, delay] + Always(|rest|, delay);
    var begun := Always(|s.workers|, 0);
    var t := Apply(s, HandOut(0));
    LawfulIsTimed(config, Starved(refs, concurrency), begun, delay, rest);
    assert events[1..] == [Finish(0, Failed(true))] + rest && events[1..][1..] == rest;
    assert times[1..] == [delay] + Always(|rest|, delay) && times[1..][1..] == Always(|rest|, delay);
    assert Begin(begun, HandOut(0), 0) == begun;
    assert Exec(t, events[1..]) == Exec(Starved(refs, concurrency), rest);
    assert TimedRun(config, t, begun, 0, events[1..], times[1..]);
    assert Timed(config, refs, concurrency, events, times);
  }
}
