/**
 The rotating starting point of the fan-out, over whole runs of refreshes on a
 fixed listing: which droplets get their turn, how often, and when some droplet
 never does.
 */
module Rotation {
  import opened Wrappers
  import opened Readings
  import opened FanOut
  import opened Deadlines
  import opened Arithmetic
  import opened Sequences

  /** x % n, defined by repeated subtraction so that what follows needs no division. */
  function Wrap(x: nat, n: nat): (r: nat)
    requires n > 0
    ensures r < n
    decreases x
  {
    if x < n then x else Wrap(x - n, n)
  }

  lemma {:induction false} WrapIsRemainder(x: nat, n: nat)
    requires n > 0
    ensures Wrap(x, n) == x % n
    decreases x
  {
    if x < n {
      Remainder(x, n, 0, x);
    } else {
      WrapIsRemainder(x - n, n);
      DivisionStep(x - n, n);
    }
  }

  /** The listing in the order the next fan-out takes it. */
  function Rotated<T>(refs: seq<T>, cursor: nat): seq<T> {
    if |refs| == 0 then refs
    else var from := Wrap(cursor, |refs|); refs[from..] + refs[..from]
  }

  /** The cursor after a refresh that got through `reached` of `total`. */
  function Advanced(cursor: nat, reached: nat, total: nat): nat {
    if total == 0 then cursor else Wrap(cursor + reached, total)
  }

  /** The place droplet `d` of a listing of `n` has in the rotated order. */
  function Turn(n: nat, cursor: nat, d: nat): (place: nat)
    requires d < n
    ensures place < n
  {
    var from := Wrap(cursor, n);
    if d >= from then d - from else d - from + n
  }

  lemma RotatedAt<T>(refs: seq<T>, cursor: nat, d: nat)
    requires d < |refs|
    ensures |Rotated(refs, cursor)| == |refs|
    ensures Rotated(refs, cursor)[Turn(|refs|, cursor, d)] == refs[d]
  {
  }

  /** The cursor moving on by `reached` brings every droplet that much closer, around the circle. */
  lemma TurnAdvances(n: nat, cursor: nat, reached: nat, d: nat)
    requires d < n && reached <= n
    ensures Turn(n, Advanced(cursor, reached, n), d) ==
            if Turn(n, cursor, d) >= reached then Turn(n, cursor, d) - reached else Turn(n, cursor, d) - reached + n
  {
    WrapAdds(cursor, reached, n);
  }

  lemma {:induction false} WrapAdds(x: nat, y: nat, n: nat)
    requires y <= n && n > 0
    ensures Wrap(x + y, n) == if Wrap(x, n) + y < n then Wrap(x, n) + y else Wrap(x, n) + y - n
    decreases x
  {
    if x >= n {
      WrapAdds(x - n, y, n);
    }
  }

  // ----- Runs of refreshes on a fixed listing -----

  /** What one refresh returns when its fan-out takes this course. */
  ghost function Round(listing: seq<Reference>, concurrency: nat, cursor: nat, events: seq<Event>): seq<Result>
    requires Complete(Rotated(listing, cursor), concurrency, events)
  {
    Returned(Rotated(listing, cursor), concurrency, events)
  }

  ghost function Next(listing: seq<Reference>, concurrency: nat, cursor: nat, events: seq<Event>): nat
    requires Complete(Rotated(listing, cursor), concurrency, events)
  {
    Advanced(cursor, ReachedCount(Round(listing, concurrency, cursor, events)), |listing|)
  }

  /** A run of refreshes, each from the cursor the previous one left. */
  ghost predicate Run(listing: seq<Reference>, concurrency: nat, cursor: nat, rounds: seq<seq<Event>>)
    decreases |rounds|
  {
    rounds != [] ==>
      && Complete(Rotated(listing, cursor), concurrency, rounds[0])
      && Run(listing, concurrency, Next(listing, concurrency, cursor, rounds[0]), rounds[1..])
  }

  /** Every refresh of the run takes a course the configuration allows. */
  ghost predicate AllPossible(config: Config, listing: seq<Reference>, concurrency: nat, cursor: nat,
                              rounds: seq<seq<Event>>)
    requires Run(listing, concurrency, cursor, rounds)
    decreases |rounds|
  {
    rounds != [] ==>
      && Possible(config, Rotated(listing, cursor), concurrency, rounds[0])
      && AllPossible(config, listing, concurrency, Next(listing, concurrency, cursor, rounds[0]), rounds[1..])
  }

  ghost predicate Rounds(config: Config, listing: seq<Reference>, concurrency: nat, cursor: nat,
                         rounds: seq<seq<Event>>)
  {
    Run(listing, concurrency, cursor, rounds) && AllPossible(config, listing, concurrency, cursor, rounds)
  }

  /** Every refresh of the run reaches a prefix of its order. */
  ghost predicate AllReachPrefixes(listing: seq<Reference>, concurrency: nat, cursor: nat, rounds: seq<seq<Event>>)
    requires Run(listing, concurrency, cursor, rounds)
    decreases |rounds|
  {
    rounds != [] ==>
      && ReachesAPrefix(Round(listing, concurrency, cursor, rounds[0]))
      && AllReachPrefixes(listing, concurrency, Next(listing, concurrency, cursor, rounds[0]), rounds[1..])
  }

  ghost predicate PrefixRounds(listing: seq<Reference>, concurrency: nat, cursor: nat, rounds: seq<seq<Event>>) {
    Run(listing, concurrency, cursor, rounds) && AllReachPrefixes(listing, concurrency, cursor, rounds)
  }

  /** How many turns the run handed out in all. */
  ghost function Total(listing: seq<Reference>, concurrency: nat, cursor: nat, rounds: seq<seq<Event>>): nat
    requires Run(listing, concurrency, cursor, rounds)
    decreases |rounds|
  {
    if rounds == [] then 0
    else ReachedCount(Round(listing, concurrency, cursor, rounds[0])) +
         Total(listing, concurrency, Next(listing, concurrency, cursor, rounds[0]), rounds[1..])
  }

  /** Whether some result says that `ref` had its turn. */
  ghost predicate HadItsTurn(results: seq<Result>, ref: Reference) {
    exists i :: 0 <= i < |results| && results[i].ref == ref && results[i].outcome.Reached()
  }

  /** In how many refreshes of the run `ref` had its turn. */
  ghost function Visits(listing: seq<Reference>, concurrency: nat, cursor: nat, rounds: seq<seq<Event>>,
                        ref: Reference): nat
    requires Run(listing, concurrency, cursor, rounds)
    decreases |rounds|
  {
    if rounds == [] then 0
    else (if HadItsTurn(Round(listing, concurrency, cursor, rounds[0]), ref) then 1 else 0) +
         Visits(listing, concurrency, Next(listing, concurrency, cursor, rounds[0]), rounds[1..], ref)
  }

  /** Rotation keeps references distinct, so a droplet's turn is its own slot's outcome. */
  lemma TurnIsItsSlot(listing: seq<Reference>, concurrency: nat, cursor: nat, events: seq<Event>, d: nat)
    requires Distinct(listing) && d < |listing|
    requires Complete(Rotated(listing, cursor), concurrency, events)
    ensures var results := Round(listing, concurrency, cursor, events);
            && |results| == |listing|
            && (HadItsTurn(results, listing[d]) <==> results[Turn(|listing|, cursor, d)].outcome.Reached())
  {
    var results := Round(listing, concurrency, cursor, events);
    var rotated := Rotated(listing, cursor);
    RotatedAt(listing, cursor, d);
    assert forall i, j :: 0 <= i < j < |rotated| ==> rotated[i] != rotated[j];
  }

  /** How many of the turns place, place + n, place + 2n, ... come before `total`. */
  function Share(total: int, place: nat, n: nat): nat
    requires n > 0
    decreases total
  {
    if total <= place then 0 else 1 + Share(total - n, place, n)
  }

  /** One refresh's part in it: a droplet it reached is one turn up, and back at the end of the order. */
  lemma ShareOfARound(total: nat, rest: nat, reached: nat, n: nat, place: nat, after: nat)
    requires total == reached + rest
    requires place < n && reached <= n
    requires after == if place < reached then place - reached + n else place - reached
    ensures Share(total, place, n) == (if place < reached then 1 else 0) + Share(rest, after, n)
  {
    if place < reached {
      ShareShifts(total - n, place, n, reached - n);
    } else {
      ShareShifts(total, place, n, reached);
    }
  }

  lemma {:induction false} ShareShifts(total: int, place: nat, n: nat, shift: int)
    requires n > 0 && place >= shift
    ensures Share(total, place, n) == Share(total - shift, place - shift, n)
    decreases total
  {
    if total > place {
      ShareShifts(total - n, place, n, shift);
    }
  }

  /**
   One refresh that reaches a prefix of its order: the droplets whose place is
   below the count reached had their turn, and every next place follows.
   */
  lemma PrefixRound(listing: seq<Reference>, concurrency: nat, cursor: nat, events: seq<Event>, d: nat)
    requires Distinct(listing) && d < |listing|
    requires Complete(Rotated(listing, cursor), concurrency, events)
    requires ReachesAPrefix(Round(listing, concurrency, cursor, events))
    ensures var n := |listing|;
            var place := Turn(n, cursor, d);
            var reached := ReachedCount(Round(listing, concurrency, cursor, events));
            var after := Turn(n, Next(listing, concurrency, cursor, events), d);
            && reached <= n
            && (HadItsTurn(Round(listing, concurrency, cursor, events), listing[d]) <==> place < reached)
            && after == if place < reached then place - reached + n else place - reached
  {
    var reached := ReachedCount(Round(listing, concurrency, cursor, events));
    RotatedAt(listing, cursor, d);
    TurnIsItsSlot(listing, concurrency, cursor, events, d);
    TurnAdvances(|listing|, cursor, reached, d);
  }

  /**
   Over any run of refreshes each of which reaches a prefix of its order, whatever
   the pool and whatever cut them short: with S turns in all, every droplet had
   exactly those of them that fall on its place in the first refresh's order,
   going around and around. The reached segments tile the circle.
   */
  lemma {:induction false} PrefixesTileTheCircle(
      listing: seq<Reference>, concurrency: nat, cursor: nat, rounds: seq<seq<Event>>, d: nat)
    requires Distinct(listing) && d < |listing|
    requires PrefixRounds(listing, concurrency, cursor, rounds)
    ensures Visits(listing, concurrency, cursor, rounds, listing[d]) ==
            Share(Total(listing, concurrency, cursor, rounds), Turn(|listing|, cursor, d), |listing|)
    decreases |rounds|
  {
    if rounds == [] {
      assert Total(listing, concurrency, cursor, rounds) == 0;
      assert Visits(listing, concurrency, cursor, rounds, listing[d]) == 0;
    } else {
      var n := |listing|;
      var next := Next(listing, concurrency, cursor, rounds[0]);
      PrefixRound(listing, concurrency, cursor, rounds[0], d);
      PrefixesTileTheCircle(listing, concurrency, next, rounds[1..], d);
      var rest := Total(listing, concurrency, next, rounds[1..]);
      var reached := ReachedCount(Round(listing, concurrency, cursor, rounds[0]));
      var place, after := Turn(n, cursor, d), Turn(n, next, d);
      assert Total(listing, concurrency, cursor, rounds) == reached + rest;
      assert Visits(listing, concurrency, cursor, rounds, listing[d]) ==
             (if place < reached then 1 else 0) + Share(rest, after, n);
      ShareOfARound(Total(listing, concurrency, cursor, rounds), rest, reached, n, place, after);
    }
  }

  /** x / n, by repeated subtraction like `Wrap`. */
  function Quotient(x: nat, n: nat): nat
    requires n > 0
    decreases x
  {
    if x < n then 0 else 1 + Quotient(x - n, n)
  }

  lemma {:induction false} QuotientIsDivision(x: nat, n: nat)
    requires n > 0
    ensures Quotient(x, n) == x / n
    decreases x
  {
    if x < n {
      Remainder(x, n, 0, x);
    } else {
      QuotientIsDivision(x - n, n);
      DivisionStep(x - n, n);
    }
  }

  /** `turns` is total / n, rounded down or up. */
  predicate Even(turns: nat, total: nat, n: nat)
    requires n > 0
  {
    Quotient(total, n) <= turns <= Quotient(total + n - 1, n)
  }

  lemma {:induction false} ShareIsEven(total: nat, place: nat, n: nat, share: nat)
    requires place < n && share == Share(total, place, n)
    ensures Even(share, total, n)
    decreases total
  {
    if total > n {
      ShareIsEven(total - n, place, n, share - 1);
    } else if total == n {
      assert Quotient(0, n) == 0 && Quotient(n - 1, n) == 0;
    }
  }

  /** The same, as a balance: every droplet had the total divided by n turns, rounded down or up. */
  lemma PrefixesAreFair(listing: seq<Reference>, concurrency: nat, cursor: nat, rounds: seq<seq<Event>>, d: nat)
    requires Distinct(listing) && d < |listing|
    requires PrefixRounds(listing, concurrency, cursor, rounds)
    ensures Even(Visits(listing, concurrency, cursor, rounds, listing[d]),
                 Total(listing, concurrency, cursor, rounds), |listing|)
  {
    PrefixesTileTheCircle(listing, concurrency, cursor, rounds, d);
    ShareIsEven(Total(listing, concurrency, cursor, rounds), Turn(|listing|, cursor, d), |listing|,
                Visits(listing, concurrency, cursor, rounds, listing[d]));
  }

  /** So n turns in all give every droplet one. */
  lemma PrefixesCoverTheFleet(listing: seq<Reference>, concurrency: nat, cursor: nat, rounds: seq<seq<Event>>, d: nat)
    requires Distinct(listing) && d < |listing|
    requires PrefixRounds(listing, concurrency, cursor, rounds)
    requires Total(listing, concurrency, cursor, rounds) >= |listing|
    ensures Visits(listing, concurrency, cursor, rounds, listing[d]) >= 1
  {
    PrefixesAreFair(listing, concurrency, cursor, rounds, d);
    assert Quotient(Total(listing, concurrency, cursor, rounds), |listing|) >= 1;
  }

  /** A course that no early error and no end of the context cut short reaches everybody, and so a prefix. */
  lemma UncutReachesAPrefix(refs: seq<Reference>, concurrency: nat, events: seq<Event>)
    requires concurrency >= 1 && LawfulComplete(refs, concurrency, events)
    requires !Final(refs, concurrency, events).cancelled
    ensures ReachesAPrefix(Returned(refs, concurrency, events))
  {
    FewStarvedBelowReached(refs, concurrency, events);
    AllReached(Returned(refs, concurrency, events));
  }

  // ----- One worker -----

  /** With one worker and no early errors every run reaches nothing but prefixes. */
  lemma {:induction false} OneWorkerRunsAreOfPrefixes(
      config: Config, listing: seq<Reference>, concurrency: nat, cursor: nat, rounds: seq<seq<Event>>)
    requires PoolSize(concurrency, |listing|) <= 1 && !config.EarlyErrors()
    requires Rounds(config, listing, concurrency, cursor, rounds)
    ensures PrefixRounds(listing, concurrency, cursor, rounds)
    decreases |rounds|
  {
    if rounds != [] {
      PossibleIsLawful(config, Rotated(listing, cursor), concurrency, rounds[0]);
      OneWorkerReachesAPrefix(Rotated(listing, cursor), concurrency, rounds[0]);
      OneWorkerRunsAreOfPrefixes(
        config, listing, concurrency, Next(listing, concurrency, cursor, rounds[0]), rounds[1..]);
    }
  }

  lemma OneWorkerRound(listing: seq<Reference>, concurrency: nat, cursor: nat, events: seq<Event>, d: nat)
    requires Distinct(listing) && d < |listing|
    requires PoolSize(concurrency, |listing|) <= 1
    requires LawfulComplete(Rotated(listing, cursor), concurrency, events)
    ensures var n := |listing|;
            var place := Turn(n, cursor, d);
            var reached := ReachedCount(Round(listing, concurrency, cursor, events));
            var after := Turn(n, Next(listing, concurrency, cursor, events), d);
            && reached <= n
            && (HadItsTurn(Round(listing, concurrency, cursor, events), listing[d]) <==> place < reached)
            && after == if place < reached then place - reached + n else place - reached
  {
    OneWorkerReachesAPrefix(Rotated(listing, cursor), concurrency, events);
    PrefixRound(listing, concurrency, cursor, events, d);
  }

  lemma OneWorkerTilesTheCircle(
      config: Config, listing: seq<Reference>, concurrency: nat, cursor: nat, rounds: seq<seq<Event>>, d: nat)
    requires Distinct(listing) && d < |listing|
    requires PoolSize(concurrency, |listing|) <= 1 && !config.EarlyErrors()
    requires Rounds(config, listing, concurrency, cursor, rounds)
    ensures Visits(listing, concurrency, cursor, rounds, listing[d]) ==
            Share(Total(listing, concurrency, cursor, rounds), Turn(|listing|, cursor, d), |listing|)
  {
    OneWorkerRunsAreOfPrefixes(config, listing, concurrency, cursor, rounds);
    PrefixesTileTheCircle(listing, concurrency, cursor, rounds, d);
  }

  lemma OneWorkerIsFair(
      config: Config, listing: seq<Reference>, concurrency: nat, cursor: nat, rounds: seq<seq<Event>>, d: nat)
    requires Distinct(listing) && d < |listing|
    requires PoolSize(concurrency, |listing|) <= 1 && !config.EarlyErrors()
    requires Rounds(config, listing, concurrency, cursor, rounds)
    ensures Even(Visits(listing, concurrency, cursor, rounds, listing[d]),
                 Total(listing, concurrency, cursor, rounds), |listing|)
  {
    OneWorkerRunsAreOfPrefixes(config, listing, concurrency, cursor, rounds);
    PrefixesAreFair(listing, concurrency, cursor, rounds, d);
  }

  // ----- More than one worker -----

  function LeaveFrom(w: nat, pool: nat): (events: seq<Event>)
    requires w <= pool
    decreases pool - w
  {
    if w == pool then [Fill] else [Leave(w)] + LeaveFrom(w + 1, pool)
  }

  /** Once the queue is closed, workers that are all idle leave one by one and the rest is filled in. */
  lemma {:induction false} LeavingRuns(s: State, w: nat)
    requires |s.results| == |s.refs| && w <= |s.workers| && !s.open && !s.done
    requires forall v :: 0 <= v < w ==> s.workers[v].Gone?
    requires forall v :: w <= v < |s.workers| ==> s.workers[v].Idle?
    ensures LawfulRun(s, LeaveFrom(w, |s.workers|))
    ensures var t := Exec(s, LeaveFrom(w, |s.workers|));
            t.Some? && t.value.done && t.value.results == Filled(s) && t.value.cancelled == s.cancelled
    decreases |s.workers| - w
  {
    var events := LeaveFrom(w, |s.workers|);
    if w == |s.workers| {
      assert Enabled(s, Fill) && events[1..] == [];
    } else {
      var t := Apply(s, Leave(w));
      LeavingRuns(t, w + 1);
      assert Filled(t) == Filled(s);
      assert events[0] == Leave(w) && events[1..] == LeaveFrom(w + 1, |s.workers|);
    }
  }

  lemma {:induction false} RunsAppend(s: State, first: seq<Event>, then': seq<Event>)
    requires |s.results| == |s.refs|
    requires LawfulRun(s, first) && Exec(s, first).Some? && LawfulRun(Exec(s, first).value, then')
    ensures LawfulRun(s, first + then') && Exec(s, first + then') == Exec(Exec(s, first).value, then')
    decreases |first|
  {
    if first == [] {
      assert first + then' == then';
    } else {
      RunsAppend(Apply(s, first[0]), first[1..], then');
      assert (first + then')[1..] == first[1..] + then';
    }
  }

  lemma Two(s: State, e: Event, f: Event)
    requires |s.results| == |s.refs| && Enabled(s, e) && Lawful(s, e)
    requires Enabled(Apply(s, e), f) && Lawful(Apply(s, e), f)
    ensures LawfulRun(s, [e, f]) && Exec(s, [e, f]) == Some(Apply(Apply(s, e), f))
  {
    var t := Apply(s, e);
    assert [e, f][1..] == [f] && [f][1..] == [];
    var u := Apply(t, f);
    assert Exec(u, []) == Some(u) && LawfulRun(u, []);
    assert Exec(t, [f]) == Exec(u, [f][1..]);
  }

  /** Nobody is busy. */
  ghost predicate Quiet(s: State) {
    && |s.results| == |s.refs| && s.next <= |s.refs|
    && s.open && !s.cancelled && !s.done
    && forall w :: 0 <= w < |s.workers| ==> s.workers[w].Idle?
  }

  function Dispatched(s: State): Event {
    if s.next == |s.refs| then Close else GiveUp
  }

  /** The context ends and with it the dispatch. */
  function Stopping(pool: nat, stop: Event): seq<Event> {
    [Cancel, stop] + LeaveFrom(0, pool)
  }

  /** Nothing more is handed out. */
  lemma StoppingRuns(s: State)
    requires Quiet(s)
    ensures var events := Stopping(|s.workers|, Dispatched(s));
            && LawfulRun(s, events)
            && var final := Exec(s, events);
               final.Some? && final.value.done && final.value.cancelled && final.value.results == Filled(s)
  {
    var t := Apply(Apply(s, Cancel), Dispatched(s));
    LeavingRuns(t, 0);
    Two(s, Cancel, Dispatched(s));
    RunsAppend(s, [Cancel, Dispatched(s)], LeaveFrom(0, |s.workers|));
  }

  /** The context ends before anything is handed out. */
  function NothingRound(pool: nat, count: nat): seq<Event> {
    Stopping(pool, if count == 0 then Close else GiveUp)
  }

  lemma NothingRoundRuns(refs: seq<Reference>, concurrency: nat)
    ensures var events := NothingRound(PoolSize(concurrency, |refs|), |refs|);
            && LawfulComplete(refs, concurrency, events)
            && Final(refs, concurrency, events).cancelled
            && forall i :: 0 <= i < |refs| ==> Returned(refs, concurrency, events)[i] == NotMeasured(refs[i])
  {
    StoppingRuns(Init(refs, concurrency));
  }

  /** A worker takes the next droplet and measures it, and then the context ends. */
  function LastOne(pool: nat, stop: Event): seq<Event> {
    [HandOut(0), Finish(0, Measured(NOTHING))] + Stopping(pool, stop)
  }

  /** That one droplet is measured and everything after it is never handed out. */
  lemma LastOneRuns(s: State)
    requires Quiet(s) && s.next < |s.refs| && |s.workers| > 0
    ensures var t := Apply(Apply(s, HandOut(0)), Finish(0, Measured(NOTHING)));
            var events := LastOne(|s.workers|, Dispatched(t));
            && LawfulRun(s, events)
            && var final := Exec(s, events);
               final.Some? && final.value.done && final.value.cancelled && final.value.results == Filled(t)
  {
    var t := Apply(Apply(s, HandOut(0)), Finish(0, Measured(NOTHING)));
    assert t.workers == s.workers;
    StoppingRuns(t);
    Two(s, HandOut(0), Finish(0, Measured(NOTHING)));
    RunsAppend(s, [HandOut(0), Finish(0, Measured(NOTHING))], Stopping(|s.workers|, Dispatched(t)));
  }

  /** The context ends right after the first droplet was measured. */
  function ShortRound(pool: nat, count: nat): seq<Event> {
    LastOne(pool, if count == 1 then Close else GiveUp)
  }

  /** The second worker is done with the second droplet when the context ends under the first. */
  function OvertakenRound(pool: nat, count: nat): seq<Event> {
    [HandOut(0), HandOut(1)] + ([Finish(1, Measured(NOTHING)), Cancel] +
    ([Finish(0, Failed(true)), if count == 2 then Close else GiveUp] + LeaveFrom(0, pool)))
  }

  /** After a short round the first droplet of the order is measured, and only it had its turn. */
  lemma ShortRoundRuns(refs: seq<Reference>, concurrency: nat)
    requires |refs| >= 1 && concurrency >= 1
    ensures var events := ShortRound(PoolSize(concurrency, |refs|), |refs|);
            && LawfulComplete(refs, concurrency, events)
            && Final(refs, concurrency, events).cancelled
            && (var results := Returned(refs, concurrency, events);
                && results[0].outcome == Measured(NOTHING)
                && forall i :: 0 <= i < |refs| ==> (results[i].outcome.Reached() <==> i == 0))
  {
    LastOneRuns(Init(refs, concurrency));
  }

  /** The two droplets in flight, and the second one measured. */
  lemma OvertakenStart(refs: seq<Reference>, concurrency: nat) returns (s: State)
    requires |refs| >= 2 && concurrency >= 2
    ensures LawfulRun(Init(refs, concurrency), [HandOut(0), HandOut(1)])
    ensures Exec(Init(refs, concurrency), [HandOut(0), HandOut(1)]) == Some(s)
    ensures s == Init(refs, concurrency).(next := 2, frontier := 2, workers := s.workers)
    ensures |s.workers| == PoolSize(concurrency, |refs|)
    ensures s.workers[0] == Busy(0, false) && s.workers[1] == Busy(1, false)
    ensures forall w :: 2 <= w < |s.workers| ==> s.workers[w] == Idle
  {
    var s0 := Init(refs, concurrency);
    Two(s0, HandOut(0), HandOut(1));
    s := Apply(Apply(s0, HandOut(0)), HandOut(1));
  }

  /** The context ends under the first of them. */
  lemma OvertakenEnd(s: State, concurrency: nat) returns (t: State)
    requires |s.refs| >= 2 && concurrency >= 2
    requires s == Init(s.refs, concurrency).(next := 2, frontier := 2, workers := s.workers)
    requires |s.workers| >= 2 && s.workers[0] == Busy(0, false) && s.workers[1] == Busy(1, false)
    requires forall w :: 2 <= w < |s.workers| ==> s.workers[w] == Idle
    ensures var events := [Finish(1, Measured(NOTHING)), Cancel] +
                          [Finish(0, Failed(true)), if |s.refs| == 2 then Close else GiveUp];
            LawfulRun(s, events) && Exec(s, events) == Some(t)
    ensures !t.open && !t.done && t.next == 2 && |t.workers| == |s.workers| && t.refs == s.refs
    ensures forall w :: 0 <= w < |t.workers| ==> t.workers[w] == Idle
    ensures |t.results| == |t.refs|
    ensures t.results[0] == Some(Result(t.refs[0], Failed(true)))
    ensures t.results[1] == Some(Result(t.refs[1], Measured(NOTHING)))
  {
    var stop := if |s.refs| == 2 then Close else GiveUp;
    var s2 := Apply(Apply(s, Finish(1, Measured(NOTHING))), Cancel);
    Two(s, Finish(1, Measured(NOTHING)), Cancel);
    Two(s2, Finish(0, Failed(true)), stop);
    RunsAppend(s, [Finish(1, Measured(NOTHING)), Cancel], [Finish(0, Failed(true)), stop]);
    t := Apply(Apply(s2, Finish(0, Failed(true))), stop);
  }

  lemma OvertakenRoundEnds(refs: seq<Reference>, concurrency: nat) returns (t: State)
    requires |refs| >= 2 && concurrency >= 2
    ensures LawfulComplete(refs, concurrency, OvertakenRound(PoolSize(concurrency, |refs|), |refs|))
    ensures t.refs == refs && |t.results| == |refs| && t.next == 2
    ensures t.results[0] == Some(Result(refs[0], Failed(true)))
    ensures t.results[1] == Some(Result(refs[1], Measured(NOTHING)))
    ensures Exec(Init(refs, concurrency), OvertakenRound(PoolSize(concurrency, |refs|), |refs|)).value.results ==
            Filled(t)
  {
    var pool := PoolSize(concurrency, |refs|);
    var middle := [Finish(1, Measured(NOTHING)), Cancel];
    var last := [Finish(0, Failed(true)), if |refs| == 2 then Close else GiveUp];
    var s := OvertakenStart(refs, concurrency);
    t := OvertakenEnd(s, concurrency);
    LeavingRuns(t, 0);
    RunsAppend(s, middle + last, LeaveFrom(0, pool));
    RunsAppend(Init(refs, concurrency), [HandOut(0), HandOut(1)], middle + last + LeaveFrom(0, pool));
    assert OvertakenRound(pool, |refs|) == [HandOut(0), HandOut(1)] + (middle + last + LeaveFrom(0, pool));
  }

  /** After an overtaken round only the second droplet of the order had its turn. */
  lemma OvertakenRoundRuns(refs: seq<Reference>, concurrency: nat)
    requires |refs| >= 2 && concurrency >= 2
    ensures var events := OvertakenRound(PoolSize(concurrency, |refs|), |refs|);
            && LawfulComplete(refs, concurrency, events)
            && (var results := Returned(refs, concurrency, events);
                forall i :: 0 <= i < |refs| ==> (results[i].outcome.Reached() <==> i == 1))
  {
    var t := OvertakenRoundEnds(refs, concurrency);
    var events := OvertakenRound(PoolSize(concurrency, |refs|), |refs|);
    var results := Returned(refs, concurrency, events);
    assert forall i :: 0 <= i < |refs| ==> Some(results[i]) == Filled(t)[i];
  }

  lemma {:induction false} OnlyOneReached(results: seq<Result>, place: nat)
    requires place < |results|
    requires forall i :: 0 <= i < |results| ==> (results[i].outcome.Reached() <==> i == place)
    ensures ReachedCount(results) == 1
  {
    CountFromUnreached(results, |results|);
    assert Unreached(results) == Range(0, |results|) - {place};
  }

  /**
   With two workers or more the rotation can pass over one droplet for ever: for
   every number of refreshes there is a run, each refresh of which gives exactly
   one droplet its turn, in which droplet `d` never has one.
   */
  lemma {:induction false} TwoWorkersCanStarveADroplet(
      config: Config, listing: seq<Reference>, concurrency: nat, cursor: nat, d: nat, refreshes: nat)
    returns (rounds: seq<seq<Event>>)
    requires Distinct(listing) && d < |listing| && config.refreshTimeout > 0
    requires PoolSize(concurrency, |listing|) >= 2
    ensures |rounds| == refreshes
    ensures Rounds(config, listing, concurrency, cursor, rounds)
    ensures Total(listing, concurrency, cursor, rounds) == refreshes
    ensures Visits(listing, concurrency, cursor, rounds, listing[d]) == 0
    decreases refreshes
  {
    if refreshes == 0 {
      rounds := [];
    } else {
      var n := |listing|;
      var pool := PoolSize(concurrency, n);
      var rotated := Rotated(listing, cursor);
      var events;
      RotatedAt(listing, cursor, d);
      if Turn(n, cursor, d) == 0 {
        events := OvertakenRound(pool, n);
        OvertakenRoundRuns(rotated, concurrency);
        OnlyOneReached(Round(listing, concurrency, cursor, events), 1);
      } else {
        events := ShortRound(pool, n);
        ShortRoundRuns(rotated, concurrency);
        OnlyOneReached(Round(listing, concurrency, cursor, events), 0);
      }
      LawfulIsPossible(config, rotated, concurrency, events);
      TurnIsItsSlot(listing, concurrency, cursor, events, d);
      var next := Next(listing, concurrency, cursor, events);
      var rest := TwoWorkersCanStarveADroplet(config, listing, concurrency, next, d, refreshes - 1);
      rounds := [events] + rest;
      assert rounds[1..] == rest;
    }
  }

  // ----- Early errors -----

  /** The first droplet is starved early, the second is measured, and then the context ends. */
  function PassedOverRound(pool: nat, count: nat): seq<Event> {
    StarvedFirst(LastOne(pool, if count == 2 then Close else GiveUp))
  }

  /** With early errors one worker is enough: only the second droplet of the order had its turn. */
  lemma PassedOverRoundRuns(config: Config, refs: seq<Reference>, concurrency: nat)
    requires |refs| >= 2 && concurrency >= 1
    requires config.EarlyErrors() && config.refreshTimeout > 0
    ensures var events := PassedOverRound(PoolSize(concurrency, |refs|), |refs|);
            && Possible(config, refs, concurrency, events)
            && (var results := Returned(refs, concurrency, events);
                forall i :: 0 <= i < |refs| ==> (results[i].outcome.Reached() <==> i == 1))
  {
    var pool := PoolSize(concurrency, |refs|);
    var stop := if |refs| == 2 then Close else GiveUp;
    LastOneRuns(Starved(refs, concurrency));
    StarvedFirstRuns(config, refs, concurrency, LastOne(pool, stop));
  }

  /**
   When a droplet can be starved before the context ends, any pool can pass over
   one droplet for ever, handing out one turn in every refresh.
   */
  lemma {:induction false} EarlyErrorsCanStarveADroplet(
      config: Config, listing: seq<Reference>, concurrency: nat, cursor: nat, d: nat, refreshes: nat)
    returns (rounds: seq<seq<Event>>)
    requires Distinct(listing) && d < |listing| && |listing| >= 2 && concurrency >= 1
    requires config.EarlyErrors() && config.refreshTimeout > 0
    ensures |rounds| == refreshes
    ensures Rounds(config, listing, concurrency, cursor, rounds)
    ensures Total(listing, concurrency, cursor, rounds) == refreshes
    ensures Visits(listing, concurrency, cursor, rounds, listing[d]) == 0
    decreases refreshes
  {
    if refreshes == 0 {
      rounds := [];
    } else {
      var n := |listing|;
      var pool := PoolSize(concurrency, n);
      var rotated := Rotated(listing, cursor);
      var events;
      RotatedAt(listing, cursor, d);
      if Turn(n, cursor, d) == 0 {
        events := PassedOverRound(pool, n);
        PassedOverRoundRuns(config, rotated, concurrency);
        OnlyOneReached(Round(listing, concurrency, cursor, events), 1);
      } else {
        events := ShortRound(pool, n);
        ShortRoundRuns(rotated, concurrency);
        LawfulIsPossible(config, rotated, concurrency, events);
        OnlyOneReached(Round(listing, concurrency, cursor, events), 0);
      }
      TurnIsItsSlot(listing, concurrency, cursor, events, d);
      var next := Next(listing, concurrency, cursor, events);
      var rest := EarlyErrorsCanStarveADroplet(config, listing, concurrency, next, d, refreshes - 1);
      rounds := [events] + rest;
      assert rounds[1..] == rest;
    }
  }

  // ----- When every refresh reaches a prefix -----

  ghost predicate OnlyPrefixes(config: Config, refs: seq<Reference>, concurrency: nat) {
    forall events :: Possible(config, refs, concurrency, events) ==> ReachesAPrefix(Returned(refs, concurrency, events))
  }

  lemma ShortIsAPrefix(results: seq<Result>)
    requires |results| <= 1
    ensures ReachesAPrefix(results)
  {
    if |results| == 1 {
      CountsExtend(results, 0);
      assert results[..1] == results && results[..0] == [];
    }
  }

  /** A cut-short course can reach a prefix whatever the pool. */
  lemma ShortRoundReachesAPrefix(refs: seq<Reference>, concurrency: nat)
    requires |refs| >= 1 && concurrency >= 1
    ensures var events := ShortRound(PoolSize(concurrency, |refs|), |refs|);
            LawfulComplete(refs, concurrency, events) && ReachesAPrefix(Returned(refs, concurrency, events))
  {
    ShortRoundRuns(refs, concurrency);
    OnlyOneReached(Returned(refs, concurrency, ShortRound(PoolSize(concurrency, |refs|), |refs|)), 0);
  }

  lemma SecondAloneIsNoPrefix(results: seq<Result>)
    requires |results| >= 2
    requires forall i :: 0 <= i < |results| ==> (results[i].outcome.Reached() <==> i == 1)
    ensures !ReachesAPrefix(results)
  {
    OnlyOneReached(results, 1);
    assert !results[0].outcome.Reached();
  }

  /** Every course reaches a prefix exactly when one worker takes the droplets and nothing starves one early. */
  lemma PrefixesNeedASingleWorker(config: Config, refs: seq<Reference>, concurrency: nat)
    requires concurrency >= 1 && config.refreshTimeout > 0
    ensures OnlyPrefixes(config, refs, concurrency) <==>
              |refs| <= 1 || (!config.EarlyErrors() && PoolSize(concurrency, |refs|) <= 1)
  {
    var pool := PoolSize(concurrency, |refs|);
    if |refs| <= 1 || (!config.EarlyErrors() && pool <= 1) {
      forall events | Possible(config, refs, concurrency, events)
        ensures ReachesAPrefix(Returned(refs, concurrency, events))
      {
        if |refs| <= 1 {
          ShortIsAPrefix(Returned(refs, concurrency, events));
        } else {
          PossibleIsLawful(config, refs, concurrency, events);
          OneWorkerReachesAPrefix(refs, concurrency, events);
        }
      }
    } else if config.EarlyErrors() {
      PassedOverRoundRuns(config, refs, concurrency);
      SecondAloneIsNoPrefix(Returned(refs, concurrency, PassedOverRound(pool, |refs|)));
    } else {
      OvertakenRoundRuns(refs, concurrency);
      LawfulIsPossible(config, refs, concurrency, OvertakenRound(pool, |refs|));
      SecondAloneIsNoPrefix(Returned(refs, concurrency, OvertakenRound(pool, |refs|)));
    }
  }

  // ----- The promise -----

  /** The promise of the rotation: enough turns in all give every droplet one. */
  ghost predicate CoversTheFleet(config: Config, listing: seq<Reference>, concurrency: nat) {
    forall cursor: nat, rounds: seq<seq<Event>>, d: nat ::
      d < |listing| && Rounds(config, listing, concurrency, cursor, rounds) &&
      Total(listing, concurrency, cursor, rounds) >= |listing| ==>
        Visits(listing, concurrency, cursor, rounds, listing[d]) >= 1
  }

  /** A droplet that is alone in its listing gets every turn there is. */
  lemma {:induction false} OnlyDropletGetsEveryTurn(
      config: Config, listing: seq<Reference>, concurrency: nat, cursor: nat, rounds: seq<seq<Event>>)
    requires |listing| == 1 && Rounds(config, listing, concurrency, cursor, rounds)
    ensures Visits(listing, concurrency, cursor, rounds, listing[0]) ==
            Total(listing, concurrency, cursor, rounds)
    decreases |rounds|
  {
    if rounds != [] {
      var results := Round(listing, concurrency, cursor, rounds[0]);
      TurnIsItsSlot(listing, concurrency, cursor, rounds[0], 0);
      CountsExtend(results, 0);
      assert results[..1] == results && results[..0] == [];
      OnlyDropletGetsEveryTurn(
        config, listing, concurrency, Next(listing, concurrency, cursor, rounds[0]), rounds[1..]);
    }
  }

  lemma OneWorkerCoversTheFleet(config: Config, listing: seq<Reference>, concurrency: nat)
    requires Distinct(listing)
    requires |listing| <= 1 || (!config.EarlyErrors() && PoolSize(concurrency, |listing|) <= 1)
    ensures CoversTheFleet(config, listing, concurrency)
  {
    forall cursor: nat, rounds: seq<seq<Event>>, d: nat |
      d < |listing| && Rounds(config, listing, concurrency, cursor, rounds) &&
      Total(listing, concurrency, cursor, rounds) >= |listing|
      ensures Visits(listing, concurrency, cursor, rounds, listing[d]) >= 1
    {
      if |listing| == 1 {
        OnlyDropletGetsEveryTurn(config, listing, concurrency, cursor, rounds);
      } else {
        OneWorkerRunsAreOfPrefixes(config, listing, concurrency, cursor, rounds);
        PrefixesCoverTheFleet(listing, concurrency, cursor, rounds, d);
      }
    }
  }

  /**
   The promise holds exactly when the pool has a single worker and nothing can
   starve a droplet before the context ends, or there is no second droplet.
   */
  lemma CoverageNeedsASingleWorker(config: Config, listing: seq<Reference>, concurrency: nat)
    requires Distinct(listing) && concurrency >= 1 && config.refreshTimeout > 0
    ensures CoversTheFleet(config, listing, concurrency) <==>
              |listing| <= 1 || (!config.EarlyErrors() && PoolSize(concurrency, |listing|) <= 1)
  {
    if |listing| <= 1 || (!config.EarlyErrors() && PoolSize(concurrency, |listing|) <= 1) {
      OneWorkerCoversTheFleet(config, listing, concurrency);
    } else {
      var rounds;
      if config.EarlyErrors() {
        rounds := EarlyErrorsCanStarveADroplet(config, listing, concurrency, 0, 0, |listing|);
      } else {
        rounds := TwoWorkersCanStarveADroplet(config, listing, concurrency, 0, 0, |listing|);
      }
      assert Visits(listing, concurrency, 0, rounds, listing[0]) == 0;
    }
  }
}
