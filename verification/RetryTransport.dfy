/**
 The retrying transport of the API client: an attempt budget, the server's own
 Retry-After, a deadline every wait has to fit, and response bodies that are
 drained before they are discarded.
 */
module RetryTransport {
  import opened Wrappers
  import opened Durations

  const TOO_MANY_REQUESTS := 429
  const INTERNAL_SERVER_ERROR := 500
  const NOT_IMPLEMENTED := 501

  /** `remaining` is what RateLimit-Remaining parsed to, if it is a number. */
  datatype Response = Response(status: int, retryAfter: RetryAfter, remaining: Option<real>)

  /** What one attempt ends with; `context` says the error is a cancellation or a deadline. */
  datatype Attempted = Got(resp: Response) | Error(context: bool)

  /** The limiter's answer; a refusal says whether the context is done already. */
  datatype Admission = Admitted | Refused(done: bool)

  /** How a wait ends. */
  datatype Slept = Woke(at: int) | Interrupted

  /**
   What the world does around one attempt: the limiter's answer, what the base
   transport returns, the clock when the wait is computed and when it is held
   against the deadline, and how the wait ends.
   */
  datatype Turn = Turn(admission: Admission, base: Attempted, now: int, checked: int, slept: Slept)

  datatype Request = Request(hasBody: bool, deadline: Option<int>)

  /** What RoundTrip hands back: the outcome of an attempt, or the context's error from a wait. */
  datatype Outcome = Returned(attempted: Attempted) | ContextDone

  predicate Retryable(status: int) {
    status == TOO_MANY_REQUESTS || (status >= INTERNAL_SERVER_ERROR && status != NOT_IMPLEMENTED)
  }

  predicate BudgetSpent(resp: Response) {
    resp.remaining.Some? && resp.remaining.value <= 0.0
  }

  function RetryDelay(resp: Response, attempt: nat, now: int): Option<Int64>
    requires attempt >= 1
  {
    if !Retryable(resp.status) then None
    else if RetryAfterWait(resp.retryAfter, now).Some? then RetryAfterWait(resp.retryAfter, now)
    else if resp.status == TOO_MANY_REQUESTS && BudgetSpent(resp) then None
    else Some(FallbackBackoff(attempt))
  }

  function NextWait(attempted: Attempted, attempt: nat, now: int): Option<Int64>
    requires attempt >= 1
  {
    match attempted
    case Error(context) => if context then None else Some(FallbackBackoff(attempt))
    case Got(resp) => RetryDelay(resp, attempt, now)
  }

  predicate Fits(deadline: Option<int>, now: int, wait: int) {
    deadline.None? || now + wait < deadline.value
  }

  /** A refused wait is named a context error whenever the context is done or has a deadline. */
  predicate LimiterError(done: bool, deadline: Option<int>) {
    done || deadline.Some?
  }

  /** The label one counted request is recorded under. */
  datatype Label = Status(code: int) | Failure

  function LabelOf(base: Attempted): Label {
    if base.Got? then Status(base.resp.status) else Failure
  }

  // ----- What a round trip is meant to do, attempt by attempt -----

  /** One call: the transport's settings, the request, and what the world does at every attempt. */
  datatype Call = Call(maxAttempts: nat, limited: bool, req: Request, world: nat -> Turn)
  {
    /** A body is read by the first attempt and cannot be replayed. */
    function Budget(): nat {
      if req.hasBody then 1 else maxAttempts
    }

    predicate Reaches(k: nat) {
      !limited || world(k).admission.Admitted?
    }

    function Attempt(k: nat): Attempted {
      if Reaches(k) then world(k).base else Error(LimiterError(world(k).admission.done, req.deadline))
    }

    function Wait(k: nat): Option<Int64>
      requires k >= 1
    {
      NextWait(Attempt(k), k, world(k).now)
    }

    /** Attempt `k` is followed by a wait: there is budget left, a wait to make, and time for it. */
    predicate Enters(k: nat)
      requires k >= 1
    {
      k < Budget() && Wait(k).Some? && Fits(req.deadline, world(k).checked, Wait(k).value)
    }

    /** The wait after attempt `k` is cut short. */
    predicate CutShort(k: nat)
      requires k >= 1
    {
      Enters(k) && Wait(k).value > 0 && world(k).slept.Interrupted?
    }

    /** Attempt `k` is the last one. */
    predicate Stops(k: nat)
      requires k >= 1
    {
      !Enters(k) || CutShort(k)
    }

    /** Attempt `k` is made: every earlier one went on. */
    predicate Made(k: nat) {
      k == 1 || (k > 1 && Made(k - 1) && !Stops(k - 1))
    }

    function End(k: nat): Outcome
      requires k >= 1
    {
      if CutShort(k) then ContextDone else Returned(Attempt(k))
    }

    /** The responses drained up to attempt `k`: the ones that were followed by a wait, in order. */
    function Drained(k: nat): seq<nat> {
      if k == 0 then []
      else if Enters(k) && Attempt(k).Got? then Drained(k - 1) + [k]
      else Drained(k - 1)
    }

    /** What attempt `k` adds to the request counter: one, if it reaches the API. */
    function Counts(k: nat): multiset<Label> {
      if Reaches(k) then multiset{LabelOf(world(k).base)} else multiset{}
    }

    /** The requests counted up to attempt `k`, by label. */
    function Counted(k: nat): multiset<Label> {
      if k == 0 then multiset{} else Counted(k - 1) + Counts(k)
    }

    /** How many of the first `k` attempts reached the API. */
    function Reached(k: nat): (n: nat)
      ensures n <= k
    {
      if k == 0 then 0 else Reached(k - 1) + (if Reaches(k) then 1 else 0)
    }
  }

  // ----- The transport -----

  class Transport {
    const maxAttempts: nat
    const limited: bool
    /** The request counter, by label, and the number of durations observed. */
    var requests: multiset<Label>
    var durations: nat

    /** A non-positive budget means the default of three attempts. */
    constructor (maxAttempts: int, limited: bool)
      ensures this.maxAttempts == if maxAttempts <= 0 then 3 else maxAttempts
      ensures this.limited == limited && requests == multiset{} && durations == 0
    {
      this.maxAttempts := if maxAttempts <= 0 then 3 else maxAttempts;
      this.limited := limited;
      requests, durations := multiset{}, 0;
    }

    /** One attempt: held by the limiter first, counted afterwards if it reached the API. */
    method Attempt(req: Request, turn: Turn) returns (attempted: Attempted)
      modifies this
      ensures limited && turn.admission.Refused? ==>
                attempted == Error(turn.admission.done || req.deadline.Some?) &&
                requests == old(requests) && durations == old(durations)
      ensures !limited || turn.admission.Admitted? ==>
                attempted == turn.base &&
                requests ==
                  old(requests) + multiset{if turn.base.Got? then Status(turn.base.resp.status) else Failure} &&
                durations == old(durations) + 1
    {
      if limited && turn.admission.Refused? {
        return Error(LimiterError(turn.admission.done, req.deadline));
      }
      durations := durations + 1;
      if turn.base.Error? {
        requests := requests + multiset{Failure};
        return turn.base;
      }
      requests := requests + multiset{Status(turn.base.resp.status)};
      attempted := turn.base;
    }

    /** One turn of the loop: the attempt, and what becomes of it. */
    method Once(req: Request, turn: Turn, k: nat, attempts: nat, ghost call: Call)
      returns (stop: bool, discarded: bool, outcome: Outcome)
      requires k >= 1 && req == call.req && turn == call.world(k) && limited == call.limited
      requires k <= attempts == call.Budget()
      modifies this
      ensures stop <==> call.Stops(k)
      ensures stop ==> outcome == call.End(k)
      ensures !stop ==> k < attempts
      ensures call.Drained(k) == if discarded then call.Drained(k - 1) + [k] else call.Drained(k - 1)
      ensures requests == old(requests) + call.Counts(k)
      ensures durations == old(durations) + (if call.Reaches(k) then 1 else 0)
    {
      var attempted := Attempt(req, turn);
      stop, discarded, outcome := After(req, turn, attempted, k, attempts, call);
    }

    /**
     The retry loop. It makes `made` attempts, the first of which that does not go
     on decides the outcome, and drains exactly the responses it discards.
     */
    method RoundTrip(req: Request, world: nat -> Turn) returns (outcome: Outcome, made: nat, drained: seq<nat>)
      requires maxAttempts >= 1
      modifies this
      ensures var call := Call(maxAttempts, limited, req, world);
              && 1 <= made <= call.Budget()
              && call.Made(made) && call.Stops(made)
              && outcome == call.End(made)
              && drained == call.Drained(made)
              && requests == old(requests) + call.Counted(made)
              && durations == old(durations) + call.Reached(made)
    {
      ghost var call := Call(maxAttempts, limited, req, world);
      var attempts := maxAttempts;
      if req.hasBody {
        attempts := 1;
      }
      made, drained := 0, [];
      while true
        invariant made < attempts == call.Budget()
        invariant call.Made(made + 1)
        invariant Recorded(call, made, drained, requests, old(requests), durations, old(durations))
        decreases attempts - made
      {
        made := made + 1;
        ghost var counted, timed := requests, durations;
        var stop, discarded, result := Once(req, world(made), made, attempts, call);
        RecordedStep(call, made, drained, discarded, counted, old(requests), timed, old(durations));
        if discarded {
          drained := drained + [made];
        }
        if stop {
          return result, made, drained;
        }
        assert call.Made(made + 1);
      }
    }
  }

  /** What the books and the list of drained responses say after `k` attempts of a call. */
  ghost predicate Recorded(call: Call, k: nat, drained: seq<nat>, requests: multiset<Label>, before: multiset<Label>,
                           durations: nat, timed: nat)
  {
    && drained == call.Drained(k)
    && requests == before + call.Counted(k)
    && durations == timed + call.Reached(k)
  }

  lemma RecordedStep(call: Call, k: nat, drained: seq<nat>, discarded: bool, requests: multiset<Label>,
                     before: multiset<Label>, durations: nat, timed: nat)
    requires k >= 1 && Recorded(call, k - 1, drained, requests, before, durations, timed)
    requires call.Drained(k) == if discarded then call.Drained(k - 1) + [k] else call.Drained(k - 1)
    ensures Recorded(call, k, if discarded then drained + [k] else drained,
                     requests + call.Counts(k), before, durations + (if call.Reaches(k) then 1 else 0), timed)
  {
  }

  /** What becomes of one attempt's outcome: whether it is the last, whether its response is discarded. */
  method After(req: Request, turn: Turn, attempted: Attempted, k: nat, attempts: nat, ghost call: Call)
    returns (stop: bool, discarded: bool, outcome: Outcome)
    requires k >= 1 && req == call.req && turn == call.world(k)
    requires attempted == call.Attempt(k) && k <= attempts == call.Budget()
    ensures stop <==> call.Stops(k)
    ensures stop ==> outcome == call.End(k)
    ensures discarded <==> call.Enters(k) && attempted.Got?
    ensures !stop ==> k < attempts
  {
    outcome := Returned(attempted);
    if k >= attempts {
      return true, false, outcome;
    }
    var wait := NextWait(attempted, k, turn.now);
    if wait.None? || !Fits(req.deadline, turn.checked, wait.value) {
      return true, false, outcome;
    }
    if wait.value > 0 && turn.slept.Interrupted? {
      return true, attempted.Got?, ContextDone;
    }
    return false, attempted.Got?, outcome;
  }

  // ----- What follows for every call -----

  lemma {:induction false} EarlierGoOn(call: Call, k: nat)
    requires call.Made(k)
    ensures forall j :: 1 <= j < k ==> !call.Stops(j)
  {
    if k > 1 {
      EarlierGoOn(call, k - 1);
    }
  }

  /** At most one attempt is the last, so a call has one outcome. */
  lemma OneEnd(call: Call, j: nat, k: nat)
    requires call.Made(j) && call.Stops(j) && call.Made(k) && call.Stops(k)
    ensures j == k
  {
    EarlierGoOn(call, j);
    EarlierGoOn(call, k);
  }

  lemma {:induction false} DrainedAre(call: Call, k: nat)
    ensures forall j :: j in call.Drained(k) <==> 1 <= j <= k && call.Enters(j) && call.Attempt(j).Got?
    ensures forall a, b :: 0 <= a < b < |call.Drained(k)| ==> call.Drained(k)[a] < call.Drained(k)[b]
  {
    if k > 0 {
      DrainedAre(call, k - 1);
      var before := call.Drained(k - 1);
      assert forall a :: 0 <= a < |before| ==> before[a] in before;
    }
  }

  /** Every response obtained is drained exactly once or returned undrained, and never both. */
  lemma ResponsesAreConserved(call: Call, made: nat, j: nat)
    requires call.Made(made) && call.Stops(made)
    requires 1 <= j <= made && call.Attempt(j).Got?
    ensures var drained := call.Drained(made);
            var returned := call.End(made) == Returned(call.Attempt(made)) && j == made;
            && (j in drained <==> !returned)
            && multiset(drained)[j] == if returned then 0 else 1
  {
    EarlierGoOn(call, made);
    DrainedAre(call, made);
    IncreasingOnce(call.Drained(made), j);
    assert j < made ==> !call.Stops(j);
  }

  lemma {:induction false} IncreasingOnce(s: seq<nat>, x: nat)
    requires forall a, b :: 0 <= a < b < |s| ==> s[a] < s[b]
    ensures multiset(s)[x] == if x in s then 1 else 0
  {
    if s != [] {
      var m := |s| - 1;
      IncreasingOnce(s[..m], x);
      assert s == s[..m] + [s[m]];
    }
  }

  /** Requests counted, durations observed and requests that reached the API are one number. */
  lemma {:induction false} CountsAgree(call: Call, k: nat)
    ensures |call.Counted(k)| == call.Reached(k)
  {
    if k > 0 {
      CountsAgree(call, k - 1);
    }
  }

  /** What the limiter may do: it refuses only when the context is done or has a deadline to overrun. */
  predicate LimiterContract(call: Call, k: nat) {
    call.world(k).admission.Refused? ==> call.world(k).admission.done || call.req.deadline.Some?
  }

  /** A refusal ends the call, so all attempts but the last reached the API, and at most one was refused. */
  lemma {:induction false} AtMostOneRefusal(call: Call, made: nat)
    requires call.Made(made) && forall j :: 1 <= j <= made ==> LimiterContract(call, j)
    ensures forall j :: 1 <= j < made ==> call.Reaches(j)
    ensures made - 1 <= call.Reached(made) <= made
  {
    EarlierGoOn(call, made);
    forall j | 1 <= j < made ensures call.Reaches(j) {
      assert !call.Stops(j) && LimiterContract(call, j);
    }
    AllReach(call, made - 1);
  }

  lemma {:induction false} AllReach(call: Call, k: nat)
    requires forall j :: 1 <= j <= k ==> call.Reaches(j)
    ensures call.Reached(k) == k
  {
    if k > 0 {
      AllReach(call, k - 1);
    }
  }

  /** Which outcomes are worth another attempt. */
  predicate IsWorthRetrying(attempted: Attempted) {
    match attempted
    case Error(context) => !context
    case Got(resp) =>
      && (resp.status == 429 || (resp.status >= 500 && resp.status != 501))
      && (resp.retryAfter.Seconds? || resp.retryAfter.Date? ||
          resp.status != 429 || resp.remaining.None? || resp.remaining.value > 0.0)
  }

  /** An attempt is followed by a wait, budget and time allowing, exactly when its outcome is worth another. */
  lemma WorthRetrying(call: Call, k: nat)
    requires k >= 1
    ensures call.Wait(k).Some? <==> IsWorthRetrying(call.Attempt(k))
  {
  }

  // ----- Waiting, against the clock -----

  /**
   The clock of a call begun at `start`: time does not run backwards, and a wait
   that is not interrupted lasts at least as long as it was asked to.
   */
  ghost predicate Clock(call: Call, start: int) {
    && start <= call.world(1).checked
    && forall k :: k >= 1 && call.Wait(k).Some? ==>
         && call.world(k).now <= call.world(k).checked
         && (call.Wait(k).value > 0 && call.world(k).slept.Woke? ==>
               call.world(k).checked + call.Wait(k).value <= call.world(k).slept.at <= call.world(k + 1).checked)
         && (call.Wait(k).value <= 0 ==> call.world(k).checked <= call.world(k + 1).checked)
  }

  /** How long the waits after attempts 1 to `k` are in all; a negative one takes no time. */
  function Waited(call: Call, k: nat): nat
    requires forall j :: 1 <= j <= k ==> call.Wait(j).Some?
  {
    if k == 0 then 0 else Waited(call, k - 1) + Max(call.Wait(k).value, 0)
  }

  /** No wait is negative while the budget keeps the fallback inside its range. */
  lemma WaitsAreNotNegative(call: Call, k: nat)
    requires call.maxAttempts <= 35 && 1 <= k < call.Budget() && call.Wait(k).Some?
    ensures call.Wait(k).value >= 0
  {
    if call.Attempt(k).Error? || RetryAfterWait(call.Attempt(k).resp.retryAfter, call.world(k).now).None? {
      BackoffDoubles(k);
    }
  }

  lemma FirstWaitIsNotNegative(call: Call)
    requires call.Wait(1).Some?
    ensures call.Wait(1).value >= 0
  {
    BackoffDoubles(1);
  }

  ghost predicate WentOn(call: Call, k: nat) {
    forall j :: 1 <= j < k ==> !call.Stops(j)
  }

  lemma {:induction false} WaitedByTheClock(call: Call, start: int, k: nat)
    requires Clock(call, start) && k >= 1 && WentOn(call, k)
    ensures forall j :: 1 <= j < k ==> call.Wait(j).Some?
    ensures start + Waited(call, k - 1) <= call.world(k).checked
  {
    forall j | 1 <= j < k ensures call.Wait(j).Some? {
      assert !call.Stops(j);
    }
    if k > 1 {
      WaitedByTheClock(call, start, k - 1);
      assert !call.Stops(k - 1);
    }
  }

  /** However the call goes, all the waits it enters together fit strictly inside what the deadline leaves. */
  lemma {:induction false} WaitsFitTheDeadline(call: Call, start: int, k: nat)
    requires Clock(call, start) && call.req.deadline.Some?
    requires k >= 1 && WentOn(call, k) && call.Enters(k)
    ensures forall j :: 1 <= j <= k ==> call.Wait(j).Some?
    ensures Waited(call, k) < call.req.deadline.value - start
  {
    WaitedByTheClock(call, start, k);
    FirstWaitIsNotNegative(call);
    if call.Wait(k).value < 0 {
      assert !call.Stops(k - 1);
      WaitsFitTheDeadline(call, start, k - 1);
    }
  }

  /** When the server asked for the next attempt: this many seconds after `now`, or at a date. */
  function AskedFor(header: RetryAfter, now: int): int {
    match header
    case Seconds(n) => now + n * SECOND
    case Date(at) => at
    case _ => now
  }

  /**
   The next attempt after a readable Retry-After never comes before the server
   asked for it, if a duration can hold the wait.
   */
  lemma RetryAfterIsWaitedOut(call: Call, start: int, k: nat)
    requires Clock(call, start) && call.Made(k + 1) && k >= 1
    requires call.Attempt(k).Got?
    requires var header := call.Attempt(k).resp.retryAfter;
             (header.Seconds? && header.n <= MAX_SECONDS) || (header.Date? && header.at - call.world(k).now < TWO_63)
    ensures call.world(k + 1).checked >= AskedFor(call.Attempt(k).resp.retryAfter, call.world(k).now)
  {
    assert !call.Stops(k);
  }

  /** There is still time for the wait. */
  predicate HasTime(call: Call, k: nat)
    requires k >= 1 && call.Wait(k).Some?
  {
    call.req.deadline.None? || call.world(k).checked + call.Wait(k).value < call.req.deadline.value
  }

  /**
   What was tried again, and why no more: every attempt but the last was worth
   another, had time for its wait and sat it out; the last one was the budget's
   last, not worth another or without time for it, and is what is returned, or
   else its wait was interrupted, and that is.
   */
  lemma OnlyWhatIsWorthItIsRetried(call: Call, made: nat)
    requires call.Budget() >= 1 && call.Made(made) && call.Stops(made)
    ensures made <= if call.req.hasBody then 1 else call.maxAttempts
    ensures forall j :: 1 <= j < made ==>
              && IsWorthRetrying(call.Attempt(j)) && call.Wait(j).Some? && HasTime(call, j)
              && (call.Wait(j).value > 0 ==> call.world(j).slept.Woke?)
    ensures call.Wait(made).Some? <==> IsWorthRetrying(call.Attempt(made))
    ensures call.End(made) ==
            if && made < (if call.req.hasBody then 1 else call.maxAttempts)
               && IsWorthRetrying(call.Attempt(made)) && HasTime(call, made)
               && call.Wait(made).value > 0 && call.world(made).slept.Interrupted?
            then ContextDone else Returned(call.Attempt(made))
    ensures call.End(made) != ContextDone ==>
              || made == (if call.req.hasBody then 1 else call.maxAttempts)
              || !IsWorthRetrying(call.Attempt(made))
              || !HasTime(call, made)
  {
    EarlierGoOn(call, made);
    forall j | 1 <= j < made
      ensures IsWorthRetrying(call.Attempt(j)) && j < call.Budget() && call.Wait(j).Some? && HasTime(call, j)
      ensures call.Wait(j).value > 0 ==> call.world(j).slept.Woke?
    {
      assert !call.Stops(j);
      WorthRetrying(call, j);
    }
    WorthRetrying(call, made);
    if made > 1 {
      assert made - 1 < call.Budget();
    }
  }

  // ----- How long it waits -----

  /** The response names a wait of its own. */
  predicate NamesItsWait(attempted: Attempted) {
    attempted.Got? && (attempted.resp.retryAfter.Seconds? || attempted.resp.retryAfter.Date?)
  }

  /** One second before the first retry, doubled with each, ten at most, unless the response names its wait. */
  lemma FallbackIsWaited(call: Call, k: nat)
    requires 1 <= k <= 34 && IsWorthRetrying(call.Attempt(k)) && !NamesItsWait(call.Attempt(k))
    ensures call.Wait(k) == Some(if Pow2(k - 1) < 10 then 1_000_000_000 * Pow2(k - 1) else 10_000_000_000)
  {
    BackoffDoubles(k);
  }

  /** A wait the response names is exactly the one to wait for, if a duration can hold it. */
  lemma NamedWaitIsWaited(call: Call, k: nat)
    requires k >= 1 && IsWorthRetrying(call.Attempt(k)) && NamesItsWait(call.Attempt(k))
    ensures var header, now := call.Attempt(k).resp.retryAfter, call.world(k).now;
            && (header.Seconds? && 0 <= header.n <= MAX_SECONDS ==> call.Wait(k) == Some(header.n * 1_000_000_000))
            && (header.Date? && now <= header.at < now + TWO_63 ==> call.Wait(k) == Some(header.at - now))
            && (header.Date? && header.at < now ==> call.Wait(k) == Some(0))
  {
  }

  /** No attempt comes before the wait in front of it is over. */
  lemma WaitIsMade(call: Call, start: int, k: nat)
    requires Clock(call, start) && k >= 1 && call.Made(k + 1)
    ensures call.Wait(k).Some? && call.world(k + 1).checked >= call.world(k).checked + call.Wait(k).value
  {
    assert !call.Stops(k);
  }

  // ----- What is counted -----

  /** The attempts among the first `k` that reached the API and came back so. */
  ghost function AttemptsLike(call: Call, k: nat, like: Attempted -> bool): set<nat> {
    set j: nat | 1 <= j <= k && (!call.limited || call.world(j).admission.Admitted?) && like(call.world(j).base)
  }

  ghost function HasStatus(code: int): Attempted -> bool {
    (base: Attempted) => base.Got? && base.resp.status == code
  }

  ghost function HasFailed(): Attempted -> bool {
    (base: Attempted) => base.Error?
  }

  /** Every attempt that reached the API is counted once, under its own status, or as a failure. */
  lemma {:induction false} CountedByStatus(call: Call, k: nat, code: int)
    ensures call.Counted(k)[Status(code)] == |AttemptsLike(call, k, HasStatus(code))|
    ensures call.Counted(k)[Failure] == |AttemptsLike(call, k, HasFailed())|
  {
    if k == 0 {
      assert AttemptsLike(call, 0, HasStatus(code)) == {} && AttemptsLike(call, 0, HasFailed()) == {};
    } else {
      CountedByStatus(call, k - 1, code);
      OneMoreLike(call, k, HasStatus(code));
      OneMoreLike(call, k, HasFailed());
    }
  }

  lemma OneMoreLike(call: Call, k: nat, like: Attempted -> bool)
    requires k >= 1
    ensures |AttemptsLike(call, k, like)| ==
            |AttemptsLike(call, k - 1, like)| + if call.Reaches(k) && like(call.world(k).base) then 1 else 0
  {
    assert AttemptsLike(call, k, like) ==
           AttemptsLike(call, k - 1, like) + if call.Reaches(k) && like(call.world(k).base) then {k} else {};
  }
}
