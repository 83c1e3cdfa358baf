/**
 The worker pool of the monitoring collectors as a step machine: a dispatcher
 that hands out indices in order through an unbuffered queue, a fixed set of
 workers, and a context that can end at any moment. Every interleaving is a
 sequence of events; nothing here assumes which enabled event comes next.
 */
module FanOut {
  import opened Wrappers
  import opened Readings

  /** Idle: blocked on the queue. Busy: measuring `index`. Gone: saw the queue closed. */
  datatype Worker = Idle | Busy(index: nat, late: bool) | Gone

  datatype Event =
    | HandOut(worker: nat)                   // `queue <- i` meets a worker that is ready
    | GiveUp                                 // the other select arm: the context is done
    | Close                                  // every index was handed out
    | Finish(worker: nat, outcome: Outcome)  // a measurement returns and is stored
    | Leave(worker: nat)                     // an idle worker finds the queue closed
    | Cancel                                 // the context ends
    | Fill                                   // all workers gone: report what was never handed out

  /**
   `next` is the next index to hand out. `frontier` is how many had been handed
   out when the context ended (`next` until then); it is bookkeeping for the
   proofs and influences no step.
   */
  datatype State = State(
    refs: seq<Reference>,
    next: nat,
    open: bool,
    workers: seq<Worker>,
    cancelled: bool,
    frontier: nat,
    results: seq<Option<Result>>,
    done: bool)

  function PoolSize(concurrency: nat, count: nat): nat {
    if concurrency < count then concurrency else count
  }

  function Init(refs: seq<Reference>, concurrency: nat): State {
    State(refs, 0, true, seq(PoolSize(concurrency, |refs|), _ => Idle), false, 0,
          seq(|refs|, _ => None), false)
  }

  predicate AllGone(workers: seq<Worker>) {
    forall w :: 0 <= w < |workers| ==> workers[w].Gone?
  }

  /** Whether the event can happen now. With both select arms ready, either can. */
  predicate Enabled(s: State, e: Event) {
    match e
    case HandOut(w) => s.open && s.next < |s.refs| && w < |s.workers| && s.workers[w].Idle?
    case GiveUp => s.open && s.next < |s.refs| && s.cancelled
    case Close => s.open && s.next == |s.refs|
    case Finish(w, _) => w < |s.workers| && s.workers[w].Busy? && s.workers[w].index < |s.refs| == |s.results|
    case Leave(w) => !s.open && w < |s.workers| && s.workers[w].Idle?
    case Cancel => !s.cancelled && !s.done
    case Fill => !s.open && !s.done && AllGone(s.workers)
  }

  /** A slot of an index that was never handed out: its own reference, and a context error. */
  function NotMeasured(ref: Reference): Result {
    Result(ref, Failed(true))
  }

  function Filled(s: State): (results: seq<Option<Result>>)
    requires |s.results| == |s.refs|
    ensures |results| == |s.refs|
  {
    seq(|s.refs|, i requires 0 <= i < |s.refs| =>
      if i < s.next then s.results[i] else Some(NotMeasured(s.refs[i])))
  }

  function Apply(s: State, e: Event): State
    requires Enabled(s, e) && |s.results| == |s.refs|
  {
    match e
    case HandOut(w) =>
      s.(next := s.next + 1, workers := s.workers[w := Busy(s.next, s.cancelled)],
         frontier := if s.cancelled then s.frontier else s.next + 1)
    case GiveUp => s.(open := false)
    case Close => s.(open := false)
    case Finish(w, outcome) =>
      var i := s.workers[w].index;
      s.(workers := s.workers[w := Idle], results := s.results[i := Some(Result(s.refs[i], outcome))])
    case Leave(w) => s.(workers := s.workers[w := Gone])
    case Cancel => s.(cancelled := true)
    case Fill => s.(results := Filled(s), done := true)
  }

  /** The state a run of events leads to, or None when some event of it was not enabled. */
  function Exec(s: State, events: seq<Event>): (t: Option<State>)
    requires |s.results| == |s.refs|
    ensures t.Some? ==> t.value.refs == s.refs && |t.value.results| == |s.refs|
    decreases |events|
  {
    if events == [] then Some(s)
    else if !Enabled(s, events[0]) then None
    else Exec(Apply(s, events[0]), events[1..])
  }

  // ----- The invariant of every reachable state -----

  predicate InFlight(s: State, w: nat, i: nat) {
    w < |s.workers| && s.workers[w].Busy? && s.workers[w].index == i
  }

  /** Sizes, flags and counters. */
  ghost predicate Shape(s: State, concurrency: nat) {
    && |s.results| == |s.refs|
    && |s.workers| == PoolSize(concurrency, |s.refs|)
    && s.next <= |s.refs|
    && s.frontier <= s.next
    && (!s.cancelled ==> s.frontier == s.next)
    && (!s.open && s.next < |s.refs| ==> s.cancelled)
    && (s.done ==> !s.open && AllGone(s.workers))
  }

  /** Every worker's own state: what it measures was handed out, is not stored yet, and is its alone. */
  ghost predicate Pool(s: State)
    requires |s.results| == |s.refs| && s.next <= |s.refs|
  {
    && (forall w :: 0 <= w < |s.workers| && s.workers[w].Gone? ==> !s.open)
    && (forall w :: 0 <= w < |s.workers| && s.workers[w].Busy? ==>
          && s.workers[w].index < s.next
          && s.results[s.workers[w].index].None?
          && (s.workers[w].late ==> s.cancelled)
          && (s.workers[w].index >= s.frontier ==> s.workers[w].late))
    && (forall v, w :: 0 <= v < w < |s.workers| && s.workers[v].Busy? && s.workers[w].Busy? ==>
          s.workers[v].index != s.workers[w].index)
  }

  /** Every slot: filled under its own reference, or in flight, or not handed out. */
  ghost predicate Slots(s: State)
    requires |s.results| == |s.refs| && s.next <= |s.refs|
  {
    && (forall i :: 0 <= i < |s.refs| && s.results[i].Some? ==> s.results[i].value.ref == s.refs[i])
    && (forall i :: 0 <= i < s.next && s.results[i].None? ==> exists w :: InFlight(s, w, i))
    && (forall i :: s.next <= i < |s.refs| ==>
          s.results[i] == if s.done then Some(NotMeasured(s.refs[i])) else None)
  }

  ghost predicate Inv(s: State, concurrency: nat) {
    Shape(s, concurrency) && Pool(s) && Slots(s)
  }

  lemma InitInv(refs: seq<Reference>, concurrency: nat)
    ensures Inv(Init(refs, concurrency), concurrency)
  {
  }

  lemma HandOutInv(s: State, concurrency: nat, w: nat)
    requires Inv(s, concurrency) && Enabled(s, HandOut(w))
    ensures Inv(Apply(s, HandOut(w)), concurrency)
  {
    var t := Apply(s, HandOut(w));
    assert Slots(t) by {
      forall i | 0 <= i < t.next && t.results[i].None? ensures exists v :: InFlight(t, v, i) {
        if i == s.next {
          assert InFlight(t, w, i);
        } else {
          var v :| InFlight(s, v, i);
          assert InFlight(t, v, i);
        }
      }
    }
  }

  lemma FinishInv(s: State, concurrency: nat, w: nat, outcome: Outcome)
    requires Inv(s, concurrency) && Enabled(s, Finish(w, outcome))
    ensures Inv(Apply(s, Finish(w, outcome)), concurrency)
  {
    var t := Apply(s, Finish(w, outcome));
    assert Slots(t) by {
      forall i | 0 <= i < t.next && t.results[i].None? ensures exists v :: InFlight(t, v, i) {
        var v :| InFlight(s, v, i);
        assert InFlight(t, v, i);
      }
    }
  }

  lemma LeaveInv(s: State, concurrency: nat, w: nat)
    requires Inv(s, concurrency) && Enabled(s, Leave(w))
    ensures Inv(Apply(s, Leave(w)), concurrency)
  {
    var t := Apply(s, Leave(w));
    assert Slots(t) by {
      forall i | 0 <= i < t.next && t.results[i].None? ensures exists v :: InFlight(t, v, i) {
        var v :| InFlight(s, v, i);
        assert InFlight(t, v, i);
      }
    }
  }

  lemma FillInv(s: State, concurrency: nat)
    requires Inv(s, concurrency) && Enabled(s, Fill)
    ensures Inv(Apply(s, Fill), concurrency)
  {
    assert forall w, i :: !InFlight(s, w, i);
  }

  /** The steps that change nothing but a flag. */
  lemma FlagInv(s: State, concurrency: nat, e: Event)
    requires Inv(s, concurrency) && Enabled(s, e) && (e.GiveUp? || e.Close? || e.Cancel?)
    ensures Inv(Apply(s, e), concurrency)
  {
    var t := Apply(s, e);
    assert Slots(t) by {
      forall i | 0 <= i < t.next && t.results[i].None? ensures exists v :: InFlight(t, v, i) {
        var v :| InFlight(s, v, i);
        assert InFlight(t, v, i);
      }
    }
  }

  /** Every step keeps the invariant. */
  lemma StepInv(s: State, concurrency: nat, e: Event)
    requires Inv(s, concurrency) && Enabled(s, e)
    ensures Inv(Apply(s, e), concurrency)
  {
    match e
    case HandOut(w) => HandOutInv(s, concurrency, w);
    case Finish(w, outcome) => FinishInv(s, concurrency, w, outcome);
    case Leave(w) => LeaveInv(s, concurrency, w);
    case Fill => FillInv(s, concurrency);
    case _ => FlagInv(s, concurrency, e);
  }

  /** No slot is ever written twice: once filled, it keeps its result to the end of the run. */
  lemma {:induction false} SlotsAreWrittenOnce(s: State, concurrency: nat, events: seq<Event>, i: nat)
    requires Inv(s, concurrency) && Exec(s, events).Some?
    requires i < |s.refs| && s.results[i].Some?
    ensures var t := Exec(s, events).value; i < |t.results| && t.results[i] == s.results[i]
    decreases |events|
  {
    if events != [] {
      StepInv(s, concurrency, events[0]);
      SlotsAreWrittenOnce(Apply(s, events[0]), concurrency, events[1..], i);
    }
  }

  lemma {:induction false} RunInv(s: State, concurrency: nat, events: seq<Event>)
    requires Inv(s, concurrency) && Exec(s, events).Some?
    ensures Inv(Exec(s, events).value, concurrency)
    ensures Exec(s, events).value.refs == s.refs
    decreases |events|
  {
    if events != [] {
      StepInv(s, concurrency, events[0]);
      RunInv(Apply(s, events[0]), concurrency, events[1..]);
    }
  }

  // ----- Complete runs -----

  /** A run in which measureAll returns. */
  ghost predicate Complete(refs: seq<Reference>, concurrency: nat, events: seq<Event>) {
    var final := Exec(Init(refs, concurrency), events);
    final.Some? && final.value.done
  }

  ghost function Final(refs: seq<Reference>, concurrency: nat, events: seq<Event>): (s: State)
    requires Complete(refs, concurrency, events)
    ensures Inv(s, concurrency) && s.refs == refs && s.done
    ensures forall i :: 0 <= i < |refs| ==> s.results[i].Some?
  {
    InitInv(refs, concurrency);
    RunInv(Init(refs, concurrency), concurrency, events);
    var s := Exec(Init(refs, concurrency), events).value;
    assert forall w, i :: InFlight(s, w, i) ==> false;
    s
  }

  /** What measureAll returns after this run. */
  ghost function Returned(refs: seq<Reference>, concurrency: nat, events: seq<Event>): (results: seq<Result>)
    requires Complete(refs, concurrency, events)
    ensures |results| == |refs|
  {
    var s := Final(refs, concurrency, events);
    seq(|refs|, i requires 0 <= i < |refs| => s.results[i].value)
  }

  /**
   Whatever the interleaving, measureAll returns one result for every reference,
   in order and under its own reference, and everything from the first index
   that was never handed out is a context error.
   */
  lemma EveryReferenceGetsItsResult(refs: seq<Reference>, concurrency: nat, events: seq<Event>)
    requires Complete(refs, concurrency, events)
    ensures var results := Returned(refs, concurrency, events);
            && |results| == |refs|
            && (forall i :: 0 <= i < |refs| ==> results[i].ref == refs[i])
            && (forall i :: Final(refs, concurrency, events).next <= i < |refs| ==> results[i] == NotMeasured(refs[i]))
            && (Final(refs, concurrency, events).next < |refs| ==> Final(refs, concurrency, events).cancelled)
  {
  }

  // ----- What a slot holds -----

  /** Event `k` ends the measurement of index `i`. */
  ghost predicate Finishes(refs: seq<Reference>, concurrency: nat, events: seq<Event>, k: nat, i: nat) {
    && k < |events| && events[k].Finish?
    && var s := Exec(Init(refs, concurrency), events[..k]);
       s.Some? && InFlight(s.value, events[k].worker, i)
  }

  lemma {:induction false} ExecSplits(s: State, events: seq<Event>, k: nat)
    requires |s.results| == |s.refs| && k <= |events| && Exec(s, events).Some?
    ensures Exec(s, events[..k]).Some?
    ensures Exec(Exec(s, events[..k]).value, events[k..]) == Exec(s, events)
    decreases k
  {
    if k == 0 {
      assert events[..0] == [] && events[0..] == events;
    } else {
      ExecSplits(Apply(s, events[0]), events[1..], k - 1);
      assert events[..k][1..] == events[1..][..k - 1] && events[1..][k - 1..] == events[k..];
    }
  }

  /** Where a run stands before event `k`, and that it takes it. */
  lemma Before(refs: seq<Reference>, concurrency: nat, events: seq<Event>, k: nat) returns (s: State)
    requires Exec(Init(refs, concurrency), events).Some? && k < |events|
    ensures Exec(Init(refs, concurrency), events[..k]) == Some(s)
    ensures Inv(s, concurrency) && s.refs == refs && Enabled(s, events[k])
    ensures Inv(Apply(s, events[k]), concurrency)
    ensures Exec(Apply(s, events[k]), events[k + 1..]) == Exec(Init(refs, concurrency), events)
    ensures Exec(Init(refs, concurrency), events[..k + 1]) == Some(Apply(s, events[k]))
  {
    InitInv(refs, concurrency);
    ExecSplits(Init(refs, concurrency), events, k);
    s := Exec(Init(refs, concurrency), events[..k]).value;
    RunInv(Init(refs, concurrency), concurrency, events[..k]);
    assert events[k..][0] == events[k] && events[k..][1..] == events[k + 1..];
    StepInv(s, concurrency, events[k]);
    ExecSplits(Init(refs, concurrency), events, k + 1);
    ExecSplits(Init(refs, concurrency), events[..k + 1], k);
    assert events[..k + 1][..k] == events[..k] && events[..k + 1][k..] == [events[k]];
    assert [events[k]][1..] == [];
    assert Exec(Apply(s, events[k]), []) == Some(Apply(s, events[k]));
  }

  /** Whatever the run, a slot holds in the end what the measurement of its own reference came back with. */
  lemma SlotHoldsItsMeasurement(refs: seq<Reference>, concurrency: nat, events: seq<Event>, k: nat, i: nat)
    requires Complete(refs, concurrency, events) && Finishes(refs, concurrency, events, k, i)
    ensures i < |refs| && Returned(refs, concurrency, events)[i] == Result(refs[i], events[k].outcome)
  {
    var s := Before(refs, concurrency, events, k);
    var t := Apply(s, events[k]);
    assert t.results[i] == Some(Result(refs[i], events[k].outcome));
    SlotsAreWrittenOnce(t, concurrency, events[k + 1..], i);
  }

  /** Every slot filled so far, of an index that was handed out, was filled by a measurement of that index. */
  lemma {:induction false} FilledByAMeasurement(
      refs: seq<Reference>, concurrency: nat, events: seq<Event>, n: nat, i: nat)
    requires n <= |events| && Exec(Init(refs, concurrency), events).Some?
    requires var s := Exec(Init(refs, concurrency), events[..n]);
             s.Some? && i < s.value.next && i < |s.value.results| && s.value.results[i].Some?
    ensures exists k: nat :: k < n && Finishes(refs, concurrency, events, k, i)
  {
    assert events[..0] == [];
    if n > 0 {
      var s := Before(refs, concurrency, events, n - 1);
      var t := Apply(s, events[n - 1]);
      if events[n - 1].Finish? && s.workers[events[n - 1].worker].index == i {
        assert Finishes(refs, concurrency, events, n - 1, i);
      } else {
        assert s.results[i].Some? && i < s.next;
        FilledByAMeasurement(refs, concurrency, events, n - 1, i);
      }
    }
  }

  /** Every index handed out is measured exactly once. */
  lemma MeasuredExactlyOnce(refs: seq<Reference>, concurrency: nat, events: seq<Event>, i: nat)
    requires Complete(refs, concurrency, events) && i < Final(refs, concurrency, events).next
    ensures exists k: nat :: Finishes(refs, concurrency, events, k, i)
    ensures forall j: nat, k: nat ::
              Finishes(refs, concurrency, events, j, i) && Finishes(refs, concurrency, events, k, i) ==> j == k
  {
    assert events[..|events|] == events;
    FilledByAMeasurement(refs, concurrency, events, |events|, i);
    forall j: nat, k: nat | Finishes(refs, concurrency, events, j, i) && Finishes(refs, concurrency, events, k, i)
      ensures j == k
    {
      if j < k {
        NotMeasuredAgain(refs, concurrency, events, j, k, i);
      } else if k < j {
        NotMeasuredAgain(refs, concurrency, events, k, j, i);
      }
    }
  }

  lemma NotMeasuredAgain(refs: seq<Reference>, concurrency: nat, events: seq<Event>, j: nat, k: nat, i: nat)
    requires Complete(refs, concurrency, events) && j < k < |events| && Finishes(refs, concurrency, events, j, i)
    ensures !Finishes(refs, concurrency, events, k, i)
  {
    var s := Before(refs, concurrency, events, j);
    var later := Before(refs, concurrency, events, k);
    var t := Apply(s, events[j]);
    ExecSplits(t, events[j + 1..], k - j - 1);
    ExecSplits(Init(refs, concurrency), events[..k], j + 1);
    assert events[..k][..j + 1] == events[..j + 1] && events[..k][j + 1..] == events[j + 1..][..k - j - 1];
    SlotsAreWrittenOnce(t, concurrency, events[j + 1..][..k - j - 1], i);
    assert later.results[i].Some?;
  }

  // ----- What a worker has -----

  /** How many indices were handed out. */
  function HandOuts(events: seq<Event>): nat {
    if events == [] then 0
    else HandOuts(events[..|events| - 1]) + (if events[|events| - 1].HandOut? then 1 else 0)
  }

  /** Event `p` handed worker `w` its index, before which `i` others were handed out. */
  ghost predicate Handed(events: seq<Event>, p: nat, w: nat, i: nat) {
    p < |events| && events[p] == HandOut(w) && HandOuts(events[..p]) == i
  }

  /** The worker measures the index it was handed, late exactly if the context had ended by then. */
  ghost predicate HasItsOwn(events: seq<Event>, worker: Worker, w: nat) {
    worker.Busy? ==>
      exists p: nat :: Handed(events, p, w, worker.index) && (worker.late <==> Cancel in events[..p])
  }

  lemma StillHasItsOwn(events: seq<Event>, e: Event, worker: Worker, w: nat)
    requires HasItsOwn(events, worker, w)
    ensures HasItsOwn(events + [e], worker, w)
  {
    if worker.Busy? {
      var p: nat :| Handed(events, p, w, worker.index) && (worker.late <==> Cancel in events[..p]);
      assert (events + [e])[..p] == events[..p];
      assert Handed(events + [e], p, w, worker.index);
    }
  }

  ghost predicate Counted(s: State, concurrency: nat, events: seq<Event>) {
    && s.next == HandOuts(events)
    && (s.cancelled <==> Cancel in events)
    && |s.workers| == (if concurrency <= |s.refs| then concurrency else |s.refs|)
  }

  lemma CountedStep(s: State, concurrency: nat, events: seq<Event>, e: Event)
    requires Inv(s, concurrency) && Enabled(s, e) && Counted(s, concurrency, events)
    ensures Counted(Apply(s, e), concurrency, events + [e])
  {
    assert (events + [e])[..|events|] == events;
  }

  lemma HasItsOwnStep(s: State, concurrency: nat, events: seq<Event>, e: Event, w: nat)
    requires Inv(s, concurrency) && Enabled(s, e) && Counted(s, concurrency, events)
    requires w < |s.workers| && HasItsOwn(events, s.workers[w], w)
    ensures HasItsOwn(events + [e], Apply(s, e).workers[w], w)
  {
    if e == HandOut(w) {
      assert (events + [e])[..|events|] == events;
      assert Handed(events + [e], |events|, w, s.next);
    } else {
      StillHasItsOwn(events, e, s.workers[w], w);
    }
  }

  /**
   Indices are handed out in order, to whoever was ready: a busy worker has the
   index that was next when it was handed one, and its measurement is late exactly
   if the context had ended by then. There are as many workers as the collector's
   concurrency, or as references if they are fewer.
   */
  lemma {:induction false} HandedOutInOrder(refs: seq<Reference>, concurrency: nat, events: seq<Event>)
    requires Exec(Init(refs, concurrency), events).Some?
    ensures var s := Exec(Init(refs, concurrency), events).value;
            Counted(s, concurrency, events) && forall w: nat :: w < |s.workers| ==> HasItsOwn(events, s.workers[w], w)
    decreases |events|
  {
    if events != [] {
      var m := |events| - 1;
      var s := Before(refs, concurrency, events, m);
      assert events[..m + 1] == events == events[..m] + [events[m]];
      HandedOutInOrder(refs, concurrency, events[..m]);
      CountedStep(s, concurrency, events[..m], events[m]);
      forall w: nat | w < |s.workers| ensures HasItsOwn(events, Apply(s, events[m]).workers[w], w) {
        HasItsOwnStep(s, concurrency, events[..m], events[m], w);
      }
    }
  }

  /** The context can end at any moment before the function returns. */
  lemma CanEndAtAnyMoment(refs: seq<Reference>, concurrency: nat, events: seq<Event>)
    requires Exec(Init(refs, concurrency), events).Some?
    requires Cancel !in events && !Exec(Init(refs, concurrency), events).value.done
    ensures Exec(Init(refs, concurrency), events + [Cancel]).Some?
  {
    HandedOutInOrder(refs, concurrency, events);
    ExecAppends(Init(refs, concurrency), events, Cancel);
  }

  /** Once it has, an index can still be handed to an idle worker, or none any more: the select takes either arm. */
  lemma EitherArmCanBeTaken(refs: seq<Reference>, concurrency: nat, events: seq<Event>, w: nat)
    requires Exec(Init(refs, concurrency), events).Some? && Cancel in events
    requires var s := Exec(Init(refs, concurrency), events).value;
             s.open && HandOuts(events) < |refs| && w < |s.workers| && s.workers[w].Idle?
    ensures Exec(Init(refs, concurrency), events + [HandOut(w)]).Some?
    ensures Exec(Init(refs, concurrency), events + [GiveUp]).Some?
  {
    HandedOutInOrder(refs, concurrency, events);
    ExecAppends(Init(refs, concurrency), events, HandOut(w));
    ExecAppends(Init(refs, concurrency), events, GiveUp);
  }

  /** A measurement can come back with anything, at any time. */
  lemma AnyOutcomeIsPossible(refs: seq<Reference>, concurrency: nat, events: seq<Event>, w: nat, outcome: Outcome)
    requires Exec(Init(refs, concurrency), events).Some?
    requires var s := Exec(Init(refs, concurrency), events).value; w < |s.workers| && s.workers[w].Busy?
    ensures Exec(Init(refs, concurrency), events + [Finish(w, outcome)]).Some?
  {
    InitInv(refs, concurrency);
    RunInv(Init(refs, concurrency), concurrency, events);
    ExecAppends(Init(refs, concurrency), events, Finish(w, outcome));
  }

  lemma {:induction false} ExecAppends(s: State, events: seq<Event>, e: Event)
    requires |s.results| == |s.refs| && Exec(s, events).Some?
    ensures Exec(s, events + [e]).Some? <==> Enabled(Exec(s, events).value, e)
    decreases |events|
  {
    if events == [] {
      assert events + [e] == [e] && [e][1..] == [];
    } else {
      assert (events + [e])[1..] == events[1..] + [e];
      ExecAppends(Apply(s, events[0]), events[1..], e);
    }
  }

  // ----- measureAll -----

  /** The slice holds every result stored so far. */
  ghost predicate Stored(s: State, results: seq<Result>) {
    && |results| == |s.refs| == |s.results|
    && forall i :: 0 <= i < |s.refs| && s.results[i].Some? ==> results[i] == s.results[i].value
  }

  /** The loop after `wg.Wait()`: the slots that were never handed out. */
  method FillRest(refs: seq<Reference>, next: nat, results: array<Result>, ghost s: State)
    requires Enabled(s, Fill) && Stored(s, results[..])
    requires refs == s.refs && next == s.next <= |refs|
    modifies results
    ensures Stored(Apply(s, Fill), results[..])
  {
    for i := next to |refs|
      invariant forall j :: 0 <= j < next ==> results[j] == old(results[j])
      invariant forall j :: next <= j < i ==> results[j] == NotMeasured(refs[j])
    {
      results[i] := NotMeasured(refs[i]);
    }
    assert forall j :: 0 <= j < next ==> results[j] == old(results[..])[j];
  }

  /** One step, on the real workers and the real slice. */
  method Perform(refs: seq<Reference>, workers: array<Worker>, results: array<Result>, next: nat, cancelled: bool,
                 e: Event, ghost s: State) returns (next': nat, cancelled': bool)
    requires Enabled(s, e) && refs == s.refs && next == s.next <= |refs| && cancelled == s.cancelled
    requires workers[..] == s.workers && Stored(s, results[..])
    modifies workers, results
    ensures next' == Apply(s, e).next && cancelled' == Apply(s, e).cancelled
    ensures workers[..] == Apply(s, e).workers && Stored(Apply(s, e), results[..])
  {
    next', cancelled' := next, cancelled;
    match e
    case HandOut(w) =>
      workers[w] := Busy(next, cancelled);
      next' := next + 1;
    case Finish(w, outcome) =>
      var i := workers[w].index;
      results[i] := Result(refs[i], outcome);
      workers[w] := Idle;
    case Leave(w) =>
      workers[w] := Gone;
    case Cancel =>
      cancelled' := true;
    case Fill =>
      FillRest(refs, next, results, s);
    case _ =>
  }

  /**
   measureAll itself, driven by one interleaving: the slice the workers write in
   place ends as what the run returns, and no slot keeps its zero value.
   */
  method MeasureAll(refs: seq<Reference>, concurrency: nat, events: seq<Event>) returns (results: array<Result>)
    requires Complete(refs, concurrency, events)
    ensures fresh(results)
    ensures results[..] == Returned(refs, concurrency, events)
    ensures forall i :: 0 <= i < |refs| ==> results[i].ref == refs[i]
    ensures forall k: nat, i: nat :: Finishes(refs, concurrency, events, k, i) ==>
              i < |refs| && results[i] == Result(refs[i], events[k].outcome)
  {
    results := new Result[|refs|](_ => Result(Reference("", ""), Measured(NOTHING)));
    var workers := new Worker[PoolSize(concurrency, |refs|)](_ => Idle);
    var next, cancelled := 0, false;
    ghost var s := Init(refs, concurrency);
    InitInv(refs, concurrency);
    for k := 0 to |events|
      invariant Inv(s, concurrency) && s.refs == refs
      invariant Exec(s, events[k..]) == Exec(Init(refs, concurrency), events)
      invariant next == s.next && cancelled == s.cancelled
      invariant workers[..] == s.workers && Stored(s, results[..])
    {
      assert events[k..][0] == events[k] && events[k..][1..] == events[k + 1..];
      next, cancelled := Perform(refs, workers, results, next, cancelled, events[k], s);
      StepInv(s, concurrency, events[k]);
      s := Apply(s, events[k]);
    }
    assert s == Final(refs, concurrency, events);
    ghost var all := results[..];
    forall k: nat, i: nat | Finishes(refs, concurrency, events, k, i)
      ensures i < |refs| && all[i] == Result(refs[i], events[k].outcome)
    {
      SlotHoldsItsMeasurement(refs, concurrency, events, k, i);
    }
  }

  // ----- Progress: no deadlock, and a bound on every run -----

  function Weight(workers: seq<Worker>): nat {
    if workers == [] then 0
    else Weight(workers[..|workers| - 1]) +
         (match workers[|workers| - 1] case Idle => 1 case Busy(_, _) => 2 case Gone => 0)
  }

  lemma WeightUpdate(workers: seq<Worker>, w: nat, now: Worker)
    requires w < |workers|
    ensures Weight(workers[w := now]) == Weight(workers) - Weight([workers[w]]) + Weight([now])
  {
    if w == |workers| - 1 {
      assert workers[w := now][..w] == workers[..w];
    } else {
      var m := |workers| - 1;
      assert workers[w := now][..m] == workers[..m][w := now];
      WeightUpdate(workers[..m], w, now);
    }
  }

  lemma {:induction false} WeightBound(workers: seq<Worker>)
    ensures Weight(workers) <= 2 * |workers|
    ensures (forall w :: 0 <= w < |workers| ==> workers[w].Idle?) ==> Weight(workers) == |workers|
  {
    if workers != [] {
      var m := |workers| - 1;
      WeightBound(workers[..m]);
      assert forall w :: 0 <= w < m ==> workers[..m][w] == workers[w];
    }
  }

  /** A measure every step decreases. */
  function Rank(s: State): nat
    requires s.next <= |s.refs|
  {
    2 * (|s.refs| - s.next) + Weight(s.workers) +
    (if s.open then 1 else 0) + (if s.cancelled then 0 else 1) + (if s.done then 0 else 1)
  }

  lemma StepDescends(s: State, concurrency: nat, e: Event)
    requires Inv(s, concurrency) && Enabled(s, e)
    ensures Inv(Apply(s, e), concurrency)
    ensures Rank(Apply(s, e)) < Rank(s)
  {
    StepInv(s, concurrency, e);
    match e
    case HandOut(w) => WeightUpdate(s.workers, w, Busy(s.next, s.cancelled));
    case Finish(w, _) => WeightUpdate(s.workers, w, Idle);
    case Leave(w) => WeightUpdate(s.workers, w, Gone);
    case _ =>
  }

  lemma {:induction false} RunDescends(s: State, concurrency: nat, events: seq<Event>)
    requires Inv(s, concurrency) && Exec(s, events).Some?
    ensures Inv(Exec(s, events).value, concurrency)
    ensures Rank(Exec(s, events).value) + |events| <= Rank(s)
    decreases |events|
  {
    if events != [] {
      StepDescends(s, concurrency, events[0]);
      RunDescends(Apply(s, events[0]), concurrency, events[1..]);
    }
  }

  /** measureAll always returns: no run is longer than this bound. */
  lemma RunsAreBounded(refs: seq<Reference>, concurrency: nat, events: seq<Event>)
    requires Exec(Init(refs, concurrency), events).Some?
    ensures |events| <= 2 * |refs| + PoolSize(concurrency, |refs|) + 3
  {
    var s := Init(refs, concurrency);
    InitInv(refs, concurrency);
    RunDescends(s, concurrency, events);
    WeightBound(s.workers);
  }

  /** ... and no run gets stuck before it: short of returning, some event is always enabled. */
  lemma NoDeadlock(refs: seq<Reference>, concurrency: nat, events: seq<Event>)
    requires concurrency >= 1
    requires Exec(Init(refs, concurrency), events).Some?
    requires !Exec(Init(refs, concurrency), events).value.done
    ensures exists e: Event :: e != Cancel && Enabled(Exec(Init(refs, concurrency), events).value, e)
  {
    InitInv(refs, concurrency);
    RunInv(Init(refs, concurrency), concurrency, events);
    var s := Exec(Init(refs, concurrency), events).value;
    if |s.workers| == 0 {
      assert Enabled(s, if s.open then Close else Fill);
    } else if w :| 0 <= w < |s.workers| && s.workers[w].Busy? {
      assert Enabled(s, Finish(w, Failed(false)));
    } else if w :| 0 <= w < |s.workers| && s.workers[w].Idle? {
      assert Enabled(s, if !s.open then Leave(w) else if s.next < |s.refs| then HandOut(w) else Close);
    } else {
      assert s.workers[0].Gone?;
      assert Enabled(s, Fill);
    }
  }

  // ----- What a cut-short run leaves unmeasured -----

  /**
   What the environment promises about errors when no rate limiter refuses a
   request early: a measurement that finished before the context ended did not
   fail with a context error, and one begun after it ended did.
   */
  predicate Lawful(s: State, e: Event) {
    e.Finish? && e.worker < |s.workers| && s.workers[e.worker].Busy? ==>
      && (!s.cancelled ==> e.outcome != Failed(true))
      && (s.workers[e.worker].late ==> e.outcome == Failed(true))
  }

  predicate LawfulRun(s: State, events: seq<Event>)
    requires |s.results| == |s.refs|
    decreases |events|
  {
    events != [] ==>
      && Enabled(s, events[0])
      && Lawful(s, events[0])
      && LawfulRun(Apply(s, events[0]), events[1..])
  }

  /** Handed out before the context ended, and without a measurement to show for it (yet). */
  predicate Missed(s: State, i: nat)
    requires |s.results| == |s.refs|
  {
    i < s.frontier && i < |s.refs| && (s.results[i].None? || !s.results[i].value.outcome.Reached())
  }

  function MissedSet(s: State): set<nat>
    requires |s.results| == |s.refs|
  {
    set i: nat | i < |s.refs| && Missed(s, i)
  }

  function BusyIndices(workers: seq<Worker>): set<nat> {
    if workers == [] then {}
    else
      var last := workers[|workers| - 1];
      BusyIndices(workers[..|workers| - 1]) + (if last.Busy? then {last.index} else {})
  }

  lemma {:induction false} BusyIndicesBound(workers: seq<Worker>)
    ensures |BusyIndices(workers)| <= |workers|
    ensures |BusyIndices(workers)| == |workers| ==> forall w :: 0 <= w < |workers| ==> workers[w].Busy?
    ensures forall w :: 0 <= w < |workers| && workers[w].Busy? ==> workers[w].index in BusyIndices(workers)
  {
    if workers != [] {
      var m := |workers| - 1;
      BusyIndicesBound(workers[..m]);
      assert forall w :: 0 <= w < m ==> workers[..m][w] == workers[w];
    }
  }

  /** No worker is waiting for an index. */
  predicate Saturated(workers: seq<Worker>) {
    |workers| > 0 && forall w :: 0 <= w < |workers| ==> workers[w].Busy?
  }

  /** Before the context ends nothing is starved, and a pool with no idle worker is busy with the newest index. */
  ghost predicate BeforeCancel(s: State)
    requires |s.results| == |s.refs| && s.next <= |s.refs|
  {
    && (forall i :: 0 <= i < s.next && s.results[i].Some? ==> s.results[i].value.outcome.Reached())
    && (Saturated(s.workers) ==> s.next > 0 && s.results[s.next - 1].None?)
  }

  /** Afterwards at most one index per worker was missed, and one per worker only if the newest was. */
  ghost predicate AfterCancel(s: State)
    requires |s.results| == |s.refs|
  {
    && (forall i :: s.frontier <= i < |s.refs| && s.results[i].Some? ==> !s.results[i].value.outcome.Reached())
    && |MissedSet(s)| <= |s.workers|
    && (|s.workers| > 0 && |MissedSet(s)| == |s.workers| ==> s.frontier > 0 && s.frontier - 1 in MissedSet(s))
  }

  ghost predicate LawfulInv(s: State, concurrency: nat) {
    Inv(s, concurrency) && if s.cancelled then AfterCancel(s) else BeforeCancel(s)
  }

  lemma LawfulInit(refs: seq<Reference>, concurrency: nat)
    ensures LawfulInv(Init(refs, concurrency), concurrency)
  {
    InitInv(refs, concurrency);
    var workers := Init(refs, concurrency).workers;
    assert |workers| > 0 ==> workers[0].Idle?;
  }

  lemma MissedAreInFlight(s: State)
    requires |s.results| == |s.refs| && s.next <= |s.refs| && s.frontier == s.next
    requires Slots(s) && BeforeCancel(s)
    ensures MissedSet(s) <= BusyIndices(s.workers)
  {
    forall i | i in MissedSet(s) ensures i in BusyIndices(s.workers) {
      var w :| InFlight(s, w, i);
      BusyIndicesBound(s.workers);
    }
  }

  /** When the context ends, no more was missed than there are workers, and only the newest index completes the set. */
  lemma MissedAtCancel(s: State)
    requires |s.results| == |s.refs| && s.next <= |s.refs| && s.frontier == s.next
    requires Slots(s) && BeforeCancel(s)
    ensures |MissedSet(s)| <= |s.workers|
    ensures |s.workers| > 0 && |MissedSet(s)| == |s.workers| ==> s.next > 0 && s.next - 1 in MissedSet(s)
  {
    MissedAreInFlight(s);
    BusyIndicesBound(s.workers);
    SubsetCardinality(MissedSet(s), BusyIndices(s.workers));
    if |s.workers| > 0 && |MissedSet(s)| == |s.workers| {
      assert Saturated(s.workers);
    }
  }

  lemma LawfulCancel(s: State, concurrency: nat)
    requires LawfulInv(s, concurrency) && Enabled(s, Cancel)
    ensures AfterCancel(Apply(s, Cancel))
  {
    var t := Apply(s, Cancel);
    assert MissedSet(t) == MissedSet(s);
    MissedAtCancel(s);
  }

  lemma {:induction false} SubsetCardinality(a: set<nat>, b: set<nat>)
    requires a <= b
    ensures |a| <= |b|
    ensures |a| == |b| ==> a == b
  {
    if a != {} {
      var x :| x in a;
      SubsetCardinality(a - {x}, b - {x});
    }
  }

  lemma LawfulFinish(s: State, concurrency: nat, w: nat, outcome: Outcome)
    requires LawfulInv(s, concurrency) && Enabled(s, Finish(w, outcome)) && Lawful(s, Finish(w, outcome))
    ensures var t := Apply(s, Finish(w, outcome)); if s.cancelled then AfterCancel(t) else BeforeCancel(t)
  {
    var t := Apply(s, Finish(w, outcome));
    if s.cancelled {
      assert MissedSet(t) <= MissedSet(s);
      SubsetCardinality(MissedSet(t), MissedSet(s));
    } else {
      assert t.workers[w].Idle?;
    }
  }

  lemma LawfulHandOut(s: State, concurrency: nat, w: nat)
    requires LawfulInv(s, concurrency) && Enabled(s, HandOut(w))
    ensures var t := Apply(s, HandOut(w)); if s.cancelled then AfterCancel(t) else BeforeCancel(t)
  {
    var t := Apply(s, HandOut(w));
    assert s.cancelled ==> MissedSet(t) == MissedSet(s);
  }

  lemma LawfulFill(s: State, concurrency: nat)
    requires LawfulInv(s, concurrency) && Enabled(s, Fill)
    ensures var t := Apply(s, Fill); if s.cancelled then AfterCancel(t) else BeforeCancel(t)
  {
    var t := Apply(s, Fill);
    assert s.cancelled ==> MissedSet(t) == MissedSet(s);
    assert |s.workers| > 0 ==> s.workers[0].Gone?;
  }

  lemma LawfulFlag(s: State, concurrency: nat, e: Event)
    requires LawfulInv(s, concurrency) && Enabled(s, e) && (e.GiveUp? || e.Close? || e.Leave?)
    ensures var t := Apply(s, e); if s.cancelled then AfterCancel(t) else BeforeCancel(t)
  {
    var t := Apply(s, e);
    assert s.cancelled ==> MissedSet(t) == MissedSet(s);
    assert e.Leave? ==> t.workers[e.worker].Gone?;
  }

  lemma LawfulStep(s: State, concurrency: nat, e: Event)
    requires LawfulInv(s, concurrency) && Enabled(s, e) && Lawful(s, e)
    ensures LawfulInv(Apply(s, e), concurrency)
  {
    StepInv(s, concurrency, e);
    match e
    case Cancel => LawfulCancel(s, concurrency);
    case Finish(w, outcome) => LawfulFinish(s, concurrency, w, outcome);
    case HandOut(w) => LawfulHandOut(s, concurrency, w);
    case Fill => LawfulFill(s, concurrency);
    case _ => LawfulFlag(s, concurrency, e);
  }

  lemma {:induction false} LawfulRunInv(s: State, concurrency: nat, events: seq<Event>)
    requires LawfulInv(s, concurrency) && LawfulRun(s, events)
    ensures Exec(s, events).Some? && LawfulInv(Exec(s, events).value, concurrency)
    decreases |events|
  {
    if events != [] {
      LawfulStep(s, concurrency, events[0]);
      LawfulRunInv(Apply(s, events[0]), concurrency, events[1..]);
    }
  }

  /** How many of the first `k` results had their turn is `k` less the missed ones below `k`. */
  lemma {:induction false} ReachedBelow(results: seq<Result>, missed: set<nat>, k: nat)
    requires k <= |results|
    requires forall i: nat :: i < k ==> (i in missed <==> !results[i].outcome.Reached())
    ensures ReachedCount(results[..k]) + |set i: nat | i < k && i in missed| == k
  {
    var below := set i: nat | i < k && i in missed;
    if k == 0 {
      assert below == {};
    } else {
      CountsExtend(results, k - 1);
      ReachedBelow(results, missed, k - 1);
      var before := set i: nat | i < k - 1 && i in missed;
      assert below == if k - 1 in missed then before + {k - 1} else before;
    }
  }

  /** The starved results of a final state. */
  function Unreached(results: seq<Result>): set<nat> {
    set i: nat | i < |results| && !results[i].outcome.Reached()
  }

  lemma CountFromUnreached(results: seq<Result>, k: nat)
    requires k <= |results|
    ensures ReachedCount(results[..k]) + |set i: nat | i < k && i in Unreached(results)| == k
    ensures ReachedCount(results) + |Unreached(results)| == |results|
  {
    var unreached := Unreached(results);
    ReachedBelow(results, unreached, k);
    ReachedBelow(results, unreached, |results|);
    assert results[..|results|] == results;
    assert (set i: nat | i < |results| && i in unreached) == unreached;
  }

  lemma FinalUnreached(s: State, concurrency: nat, results: seq<Result>)
    requires LawfulInv(s, concurrency) && s.done && |results| == |s.refs|
    requires forall i :: 0 <= i < |s.refs| ==> s.results[i] == Some(results[i])
    ensures !s.cancelled ==> Unreached(results) == {}
    ensures s.cancelled ==> Unreached(results) == MissedSet(s) + Range(s.frontier, |results|)
    ensures s.cancelled ==> |Unreached(results)| == |MissedSet(s)| + |results| - s.frontier
  {
    if s.cancelled {
      assert Unreached(results) == MissedSet(s) + Range(s.frontier, |results|);
      assert MissedSet(s) !! Range(s.frontier, |results|);
    }
  }

  lemma FinalMissed(s: State, concurrency: nat, results: seq<Result>)
    requires LawfulInv(s, concurrency) && s.done && |results| == |s.refs|
    requires forall i :: 0 <= i < |s.refs| ==> s.results[i] == Some(results[i])
    ensures !s.cancelled ==> ReachedCount(results) == |results|
    ensures var reached := ReachedCount(results);
            reached - ReachedCount(results[..reached]) <= if |s.workers| == 0 then 0 else |s.workers| - 1
  {
    var reached := ReachedCount(results);
    CountFromUnreached(results, reached);
    FinalUnreached(s, concurrency, results);
    var below := set i: nat | i < reached && i in Unreached(results);
    if s.cancelled {
      assert below <= MissedSet(s);
      SubsetCardinality(below, MissedSet(s));
      assert |MissedSet(s)| == |s.workers| > 0 ==> s.frontier - 1 !in below;
    } else {
      assert below == {};
    }
  }

  function Range(lo: nat, hi: nat): (range: set<nat>)
    requires lo <= hi
    ensures |range| == hi - lo
    ensures forall i: nat :: i in range <==> lo <= i < hi
    decreases hi - lo
  {
    if lo == hi then {} else {lo} + Range(lo + 1, hi)
  }

  ghost predicate LawfulComplete(refs: seq<Reference>, concurrency: nat, events: seq<Event>) {
    Complete(refs, concurrency, events) && LawfulRun(Init(refs, concurrency), events)
  }

  /**
   For every lawful interleaving, the starved results below the count the cursor
   advances by are at most one fewer than the workers. An uncancelled run
   starves nothing.
   */
  lemma FewStarvedBelowReached(refs: seq<Reference>, concurrency: nat, events: seq<Event>)
    requires concurrency >= 1
    requires LawfulComplete(refs, concurrency, events)
    ensures var results := Returned(refs, concurrency, events);
            var reached := ReachedCount(results);
            && reached - ReachedCount(results[..reached]) <= concurrency - 1
            && (!Final(refs, concurrency, events).cancelled ==> reached == |refs|)
  {
    LawfulInit(refs, concurrency);
    LawfulRunInv(Init(refs, concurrency), concurrency, events);
    FinalMissed(Final(refs, concurrency, events), concurrency, Returned(refs, concurrency, events));
  }

  /** The reached results are exactly the first ones. */
  ghost predicate ReachesAPrefix(results: seq<Result>) {
    forall i :: 0 <= i < |results| ==> (results[i].outcome.Reached() <==> i < ReachedCount(results))
  }

  /** With one worker, the droplets a refresh reached are exactly a prefix of its order. */
  lemma OneWorkerReachesAPrefix(refs: seq<Reference>, concurrency: nat, events: seq<Event>)
    requires PoolSize(concurrency, |refs|) <= 1
    requires LawfulComplete(refs, concurrency, events)
    ensures ReachesAPrefix(Returned(refs, concurrency, events))
  {
    LawfulInit(refs, concurrency);
    LawfulRunInv(Init(refs, concurrency), concurrency, events);
    var results := Returned(refs, concurrency, events);
    FinalMissed(Final(refs, concurrency, events), concurrency, results);
    FullPrefix(results, ReachedCount(results));
  }

  /** When the first `reached` results hold all `reached` of the reached ones, they are the reached ones. */
  lemma {:induction false} FullPrefix(results: seq<Result>, reached: nat)
    requires reached <= |results|
    requires ReachedCount(results) == reached == ReachedCount(results[..reached])
    ensures forall i :: 0 <= i < |results| ==> (results[i].outcome.Reached() <==> i < reached)
  {
    if |results| == reached {
      assert results[..reached] == results;
      AllReached(results);
    } else {
      var m := |results| - 1;
      assert results[..m][..reached] == results[..reached];
      CountMonotone(results[..m], reached);
      FullPrefix(results[..m], reached);
      assert forall i :: 0 <= i < m ==> results[..m][i] == results[i];
    }
  }

  lemma {:induction false} CountMonotone(results: seq<Result>, k: nat)
    requires k <= |results|
    ensures ReachedCount(results[..k]) <= ReachedCount(results)
  {
    if k == |results| {
      assert results[..k] == results;
    } else {
      var m := |results| - 1;
      assert results[..m][..k] == results[..k];
      CountMonotone(results[..m], k);
    }
  }

  lemma {:induction false} AllReached(results: seq<Result>)
    requires ReachedCount(results) == |results|
    ensures forall i :: 0 <= i < |results| ==> results[i].outcome.Reached()
  {
    if results != [] {
      var m := |results| - 1;
      AllReached(results[..m]);
      assert forall i :: 0 <= i < m ==> results[..m][i] == results[i];
    }
  }
}
