/**
 The scheduler's loops as a transition system over one clock and one context:
 every collector waits out its offset, starts a ticker and a first refresh, and
 then a refresh for every tick it takes. A ticker holds at most one tick.
 */
module Loops {
  import opened Wrappers
  import opened Arithmetic
  import opened Stagger

  datatype Phase = Waiting | Refreshing | Between | Stopped

  /**
   One collector's loop. `due` is when its next tick fires, `fired` how many ticks
   have fired (taken, held or lost), `created` when its ticker was started.
   */
  datatype Loop = Loop(
    offset: int, interval: int,
    phase: Phase, created: int, due: int, fired: nat, held: bool,
    started: nat, finished: nat)

  datatype State = State(now: int, cancelled: bool, loops: seq<Loop>)

  datatype Event =
    | Elapse(time: nat)   // the clock moves
    | Cancel              // the context ends
    | First(i: nat)       // the offset is over: ticker and first refresh
    | GiveUp(i: nat)      // cancelled while waiting out the offset
    | Tick(i: nat)        // the ticker fires; a tick already held is all there is room for
    | Take(i: nat)        // the loop receives the held tick and refreshes
    | Finish(i: nat)      // a refresh returns
    | Stop(i: nat)        // the loop sees the context done

  function InitLoop(offset: int, interval: int): Loop {
    Loop(offset, interval, Waiting, 0, 0, 0, false, 0, 0)
  }

  /** Run starts every loop at time 0, the offsets taken from the registration order. */
  function Init(entries: seq<Entry>): State {
    State(0, false, seq(|entries|, i requires 0 <= i < |entries| =>
      InitLoop(Offset(i, |entries|, Window(entries)), entries[i].interval)))
  }

  predicate Enabled(s: State, e: Event) {
    match e
    case Elapse(_) => true
    case Cancel => !s.cancelled
    case First(i) => i < |s.loops| && s.loops[i].phase.Waiting? && s.now >= s.loops[i].offset
    case GiveUp(i) => i < |s.loops| && s.loops[i].phase.Waiting? && s.loops[i].offset > 0 && s.cancelled
    case Tick(i) => i < |s.loops| && s.loops[i].phase in {Refreshing, Between} && s.now >= s.loops[i].due
    case Take(i) => i < |s.loops| && s.loops[i].phase.Between? && s.loops[i].held
    case Finish(i) => i < |s.loops| && s.loops[i].phase.Refreshing?
    case Stop(i) => i < |s.loops| && s.loops[i].phase.Between? && s.cancelled
  }

  function Step(loop: Loop, e: Event, now: int): Loop {
    match e
    case First(_) =>
      loop.(phase := Refreshing, created := now, due := now + loop.interval, started := loop.started + 1)
    case GiveUp(_) => loop.(phase := Stopped)
    case Tick(_) => loop.(fired := loop.fired + 1, due := loop.due + loop.interval, held := true)
    case Take(_) => loop.(phase := Refreshing, held := false, started := loop.started + 1)
    case Finish(_) => loop.(phase := Between, finished := loop.finished + 1)
    case Stop(_) => loop.(phase := Stopped)
    case _ => loop
  }

  function Apply(s: State, e: Event): State
    requires Enabled(s, e)
  {
    match e
    case Elapse(time) => s.(now := s.now + time)
    case Cancel => s.(cancelled := true)
    case _ => s.(loops := s.loops[e.i := Step(s.loops[e.i], e, s.now)])
  }

  function Exec(s: State, events: seq<Event>): Option<State>
    decreases |events|
  {
    if events == [] then Some(s)
    else if !Enabled(s, events[0]) then None
    else Exec(Apply(s, events[0]), events[1..])
  }

  /** What every loop keeps, whatever the others and the clock do. */
  ghost predicate LoopInv(loop: Loop, now: int) {
    && loop.interval > 0
    && loop.started == loop.finished + (if loop.phase.Refreshing? then 1 else 0)
    && (loop.phase.Waiting? ==> loop.started == 0 && !loop.held && loop.fired == 0)
    && (loop.started == 0 ==> loop.phase in {Waiting, Stopped})
    && (loop.started > 0 ==>
          && loop.offset <= loop.created <= now
          && loop.due == loop.created + loop.fired * loop.interval + loop.interval
          && loop.due <= now + loop.interval
          && loop.started + (if loop.held then 1 else 0) <= 1 + loop.fired)
  }

  ghost predicate Inv(s: State) {
    s.now >= 0 && forall i :: 0 <= i < |s.loops| ==> LoopInv(s.loops[i], s.now)
  }

  lemma StepInv(s: State, e: Event)
    requires Inv(s) && Enabled(s, e)
    ensures Inv(Apply(s, e))
  {
    var t := Apply(s, e);
    if e.Elapse? || e.Cancel? {
    } else {
      var loop := s.loops[e.i];
      assert (loop.fired + 1) * loop.interval == loop.fired * loop.interval + loop.interval;
      assert LoopInv(loop, s.now);
      assert LoopInv(Step(loop, e, s.now), s.now);
    }
  }

  lemma {:induction false} RunInv(s: State, events: seq<Event>)
    requires Inv(s) && Exec(s, events).Some?
    ensures Inv(Exec(s, events).value)
    decreases |events|
  {
    if events != [] {
      StepInv(s, events[0]);
      RunInv(Apply(s, events[0]), events[1..]);
    }
  }

  lemma InitInv(entries: seq<Entry>)
    requires Registered(entries)
    ensures Inv(Init(entries))
  {
  }

  /** A loop keeps its offset and its interval. */
  lemma {:induction false} RunKeepsSchedule(s: State, events: seq<Event>, i: nat)
    requires i < |s.loops| && Exec(s, events).Some?
    ensures var t := Exec(s, events).value;
            && |t.loops| == |s.loops|
            && t.loops[i].offset == s.loops[i].offset && t.loops[i].interval == s.loops[i].interval
    decreases |events|
  {
    if events != [] {
      RunKeepsSchedule(Apply(s, events[0]), events[1..], i);
    }
  }

  ghost predicate Reachable(entries: seq<Entry>, events: seq<Event>) {
    Registered(entries) && Exec(Init(entries), events).Some?
  }

  /** The schedule of collector `i`, as Run hands it out. */
  function OffsetOf(entries: seq<Entry>, i: nat): int
    requires i < |entries|
  {
    Offset(i, |entries|, Window(entries))
  }

  /** No collector ever has two refreshes in flight, and none before its offset is over. */
  lemma NoOverlap(entries: seq<Entry>, events: seq<Event>, i: nat)
    requires Reachable(entries, events) && i < |entries|
    ensures var s := Exec(Init(entries), events).value;
            && |s.loops| == |entries|
            && s.loops[i].finished <= s.loops[i].started <= s.loops[i].finished + 1
            && (s.loops[i].started > 0 ==> s.now >= OffsetOf(entries, i))
  {
    InitInv(entries);
    RunInv(Init(entries), events);
    RunKeepsSchedule(Init(entries), events, i);
  }

  /**
   However long its refreshes take, by time t a collector with offset o and
   interval v has started at most 1 + floor((t - o) / v) of them: a refresh that
   outlasts several ticks is followed by one, not by all it missed.
   */
  lemma StartsAreBounded(entries: seq<Entry>, events: seq<Event>, i: nat)
    requires Reachable(entries, events) && i < |entries|
    ensures var s := Exec(Init(entries), events).value;
            && |s.loops| == |entries|
            && s.loops[i].started <=
               if s.now < OffsetOf(entries, i) then 0 else 1 + (s.now - OffsetOf(entries, i)) / entries[i].interval
  {
    NoOverlap(entries, events, i);
    InitInv(entries);
    RunInv(Init(entries), events);
    RunKeepsSchedule(Init(entries), events, i);
    var s := Exec(Init(entries), events).value;
    var loop := s.loops[i];
    assert LoopInv(loop, s.now);
    if s.now >= loop.offset {
      if loop.started > 0 {
        AtMostQuotient(loop.fired, loop.interval, s.now - loop.offset);
      } else {
        AtMostQuotient(0, loop.interval, s.now - loop.offset);
      }
    }
  }

  /** Nobody comes up for a second refresh before everybody's offset is over. */
  lemma SecondRefreshesComeAfterAllFirst(entries: seq<Entry>, events: seq<Event>, i: nat, j: nat)
    requires Reachable(entries, events) && i < |entries| && j < |entries|
    requires var s := Exec(Init(entries), events).value; j < |s.loops| && s.loops[j].started >= 2
    ensures Exec(Init(entries), events).value.now > OffsetOf(entries, i)
  {
    InitInv(entries);
    RunInv(Init(entries), events);
    RunKeepsSchedule(Init(entries), events, j);
    var s := Exec(Init(entries), events).value;
    var loop := s.loops[j];
    assert LoopInv(loop, s.now) && loop.fired >= 1;
    AtLeastOneTime(loop.interval, loop.fired);
    FirstRefreshesPrecedeSecondOnes(entries, i, j);
  }

  /** A stopped loop starts nothing any more. */
  lemma {:induction false} StoppedStaysStopped(s: State, events: seq<Event>, i: nat)
    requires i < |s.loops| && s.loops[i].phase.Stopped? && Exec(s, events).Some?
    ensures var t := Exec(s, events).value; |t.loops| == |s.loops| && t.loops[i] == s.loops[i]
    decreases |events|
  {
    if events != [] {
      StoppedStaysStopped(Apply(s, events[0]), events[1..], i);
    }
  }

  // ----- The next refresh -----

  lemma {:induction false} StoppedOnlyByTheContext(s: State, events: seq<Event>)
    requires s.cancelled || forall i :: 0 <= i < |s.loops| ==> !s.loops[i].phase.Stopped?
    requires Exec(s, events).Some?
    ensures var t := Exec(s, events).value;
            t.cancelled || forall i :: 0 <= i < |t.loops| ==> !t.loops[i].phase.Stopped?
    decreases |events|
  {
    if events != [] {
      StoppedOnlyByTheContext(Apply(s, events[0]), events[1..]);
    }
  }

  lemma Prepended(s: State, e: Event, rest: seq<Event>)
    requires Enabled(s, e)
    ensures Exec(s, [e] + rest) == Exec(Apply(s, e), rest)
  {
    assert ([e] + rest)[1..] == rest;
  }

  lemma Taken(s: State, e: Event)
    requires Enabled(s, e)
    ensures Exec(s, [e]) == Some(Apply(s, e))
  {
    var t := Apply(s, e);
    assert [e][1..] == [] && Exec(t, []) == Some(t);
  }

  /** `events` lead to the next refresh of collector `i`, by this time and without the context ending. */
  ghost predicate LeadsToARefresh(s: State, i: nat, events: seq<Event>, latest: int) {
    && i < |s.loops| && Cancel !in events
    && var t := Exec(s, events);
       && t.Some? && t.value.now <= latest && i < |t.value.loops|
       && t.value.loops[i].phase.Refreshing? && t.value.loops[i].started == s.loops[i].started + 1
  }

  lemma LeadsOn(s: State, i: nat, e: Event, events: seq<Event>, latest: int)
    requires Enabled(s, e) && e != Cancel && LeadsToARefresh(Apply(s, e), i, events, latest)
    requires i < |s.loops| && Apply(s, e).loops[i].started == s.loops[i].started
    ensures LeadsToARefresh(s, i, [e] + events, latest)
  {
    Prepended(s, e, events);
  }

  /** A loop between two refreshes takes the tick it holds, or waits for the next one. */
  lemma TickLeadsToARefresh(s: State, i: nat) returns (events: seq<Event>)
    requires Inv(s) && i < |s.loops| && s.loops[i].phase.Between?
    ensures LeadsToARefresh(s, i, events, s.now + s.loops[i].interval)
  {
    var loop := s.loops[i];
    assert LoopInv(loop, s.now);
    if loop.held {
      Taken(s, Take(i));
      events := [Take(i)];
    } else {
      var e := Elapse(if loop.due > s.now then loop.due - s.now else 0);
      var t := Apply(s, e);
      var u := Apply(t, Tick(i));
      Taken(u, Take(i));
      LeadsOn(t, i, Tick(i), [Take(i)], s.now + loop.interval);
      LeadsOn(s, i, e, [Tick(i)] + [Take(i)], s.now + loop.interval);
      events := [e] + ([Tick(i)] + [Take(i)]);
    }
  }

  /**
   As long as the context lives no collector is done: from every reachable state
   its next refresh can come, a first one when its offset is over and any other
   no later than an interval from now, once the one in flight returns.
   */
  lemma NextRefreshCanCome(entries: seq<Entry>, events: seq<Event>, i: nat) returns (more: seq<Event>)
    requires Reachable(entries, events) && i < |entries| && !Exec(Init(entries), events).value.cancelled
    ensures var s := Exec(Init(entries), events).value;
            && |s.loops| == |entries|
            && LeadsToARefresh(s, i, more,
                               if s.loops[i].started > 0 then s.now + entries[i].interval
                               else if s.now < OffsetOf(entries, i) then OffsetOf(entries, i)
                               else s.now)
  {
    InitInv(entries);
    RunInv(Init(entries), events);
    RunKeepsSchedule(Init(entries), events, i);
    StoppedOnlyByTheContext(Init(entries), events);
    var s := Exec(Init(entries), events).value;
    var loop := s.loops[i];
    assert LoopInv(loop, s.now) && !loop.phase.Stopped?;
    if loop.phase.Waiting? {
      var e := Elapse(if loop.offset > s.now then loop.offset - s.now else 0);
      var t := Apply(s, e);
      Taken(t, First(i));
      LeadsOn(s, i, e, [First(i)], t.now);
      more := [e] + [First(i)];
    } else if loop.phase.Refreshing? {
      StepInv(s, Finish(i));
      var rest := TickLeadsToARefresh(Apply(s, Finish(i)), i);
      LeadsOn(s, i, Finish(i), rest, s.now + loop.interval);
      more := [Finish(i)] + rest;
    } else {
      more := TickLeadsToARefresh(s, i);
    }
  }

  // ----- Shutdown -----

  /** How many of its own steps a loop still has, if nothing ticks any more. */
  function LoopRank(loop: Loop): nat {
    (match loop.phase case Stopped => 0 case Between => 1 case Refreshing => 2 case Waiting => 3) +
    (if loop.held && !loop.phase.Stopped? then 2 else 0)
  }

  function Rank(loops: seq<Loop>): nat {
    if loops == [] then 0 else Rank(loops[..|loops| - 1]) + LoopRank(loops[|loops| - 1])
  }

  lemma {:induction false} RankUpdate(loops: seq<Loop>, i: nat, now: Loop)
    requires i < |loops|
    ensures Rank(loops[i := now]) == Rank(loops) - LoopRank(loops[i]) + LoopRank(now)
  {
    var m := |loops| - 1;
    if i == m {
      assert loops[i := now][..m] == loops[..m];
    } else {
      assert loops[i := now][..m] == loops[..m][i := now];
      RankUpdate(loops[..m], i, now);
    }
  }

  /** Steps of the loops themselves, as opposed to the clock, the context and the tickers. */
  predicate OwnStep(e: Event) {
    e.First? || e.GiveUp? || e.Take? || e.Finish? || e.Stop?
  }

  function OwnSteps(events: seq<Event>): nat {
    if events == [] then 0 else (if OwnStep(events[0]) then 1 else 0) + OwnSteps(events[1..])
  }

  function Ticks(events: seq<Event>): nat {
    if events == [] then 0 else (if events[0].Tick? then 1 else 0) + Ticks(events[1..])
  }

  lemma StepRank(s: State, e: Event)
    requires Inv(s) && Enabled(s, e)
    ensures Rank(Apply(s, e).loops) + (if OwnStep(e) then 1 else 0) <= Rank(s.loops) + (if e.Tick? then 2 else 0)
  {
    if !e.Elapse? && !e.Cancel? {
      assert LoopInv(s.loops[e.i], s.now);
      RankUpdate(s.loops, e.i, Step(s.loops[e.i], e, s.now));
    }
  }

  /** In any run the loops make only so many steps for every tick. */
  lemma {:induction false} StepsAreBounded(s: State, events: seq<Event>)
    requires Inv(s) && Exec(s, events).Some?
    ensures Rank(Exec(s, events).value.loops) + OwnSteps(events) <= Rank(s.loops) + 2 * Ticks(events)
    decreases |events|
  {
    if events != [] {
      StepRank(s, events[0]);
      StepInv(s, events[0]);
      StepsAreBounded(Apply(s, events[0]), events[1..]);
    }
  }

  lemma {:induction false} RankBound(loops: seq<Loop>)
    ensures Rank(loops) <= 5 * |loops|
  {
    if loops != [] {
      RankBound(loops[..|loops| - 1]);
    }
  }

  /**
   Run returns: once the context is done, as long as some loop has not stopped
   some loop can take a step other than starting a refresh for a tick, and in all
   they take at most five steps each and two for every tick still to fire.
   */
  lemma ShutdownEnds(s: State, events: seq<Event>)
    requires Inv(s) && s.cancelled && Exec(s, events).Some?
    ensures OwnSteps(events) <= 5 * |s.loops| + 2 * Ticks(events)
    ensures var t := Exec(s, events).value;
            (exists i :: 0 <= i < |t.loops| && !t.loops[i].phase.Stopped?) ==>
              exists e :: OwnStep(e) && !e.Take? && Enabled(t, e)
  {
    StepsAreBounded(s, events);
    RankBound(s.loops);
    RunInv(s, events);
    StaysCancelled(s, events);
    var t := Exec(s, events).value;
    if i :| 0 <= i < |t.loops| && !t.loops[i].phase.Stopped? {
      var loop := t.loops[i];
      var e := if loop.phase.Between? then Stop(i)
               else if loop.phase.Refreshing? then Finish(i)
               else if loop.offset > 0 then GiveUp(i)
               else First(i);
      assert Enabled(t, e);
    }
  }

  lemma {:induction false} StaysCancelled(s: State, events: seq<Event>)
    requires s.cancelled && Exec(s, events).Some?
    ensures Exec(s, events).value.cancelled
    decreases |events|
  {
    if events != [] {
      StaysCancelled(Apply(s, events[0]), events[1..]);
    }
  }
}
