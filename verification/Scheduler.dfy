/**
 The scheduler's bookkeeping: what a refresh's outcome does to the health gauges
 and to readiness, over any history of refreshes, panics and shutdown included.
 */
module Scheduler {
  import opened Wrappers
  import opened Stagger

  /** What a collector's Refresh does. */
  datatype Behaviour = Succeeds | Fails | Panics

  /** guardedRefresh: a panic becomes an error of its own type. */
  datatype RefreshError = Ordinary | Panic

  function GuardedRefresh(b: Behaviour): Option<RefreshError> {
    match b
    case Succeeds => None
    case Fails => Some(Ordinary)
    case Panics => Some(Panic)
  }

  /**
   One finished refresh: whose it was, what it did, whether the run context was
   done when it returned, how long it took, and when it ended.
   */
  datatype Finished = Finished(name: string, did: Behaviour, shuttingDown: bool, took: int, at: int)
  {
    /** Whether the success gauge hears of it: anything but an ordinary failure during shutdown. */
    predicate Recorded() {
      did.Succeeds? || did.Panics? || !shuttingDown
    }
  }

  // ----- What a history of refreshes says -----

  /** Refresh `k` is the last of the history that `counts`. */
  ghost predicate LastWhere(log: seq<Finished>, k: nat, counts: Finished -> bool) {
    k < |log| && counts(log[k]) && forall j :: k < j < |log| ==> !counts(log[j])
  }

  function RecordedFor(name: string): Finished -> bool {
    (f: Finished) => f.name == name && f.Recorded()
  }

  function SucceededFor(name: string): Finished -> bool {
    (f: Finished) => f.name == name && f.did.Succeeds?
  }

  function FinishedFor(name: string): Finished -> bool {
    (f: Finished) => f.name == name
  }

  /** Where the last refresh that counts is, if there is one. */
  function Last(log: seq<Finished>, counts: Finished -> bool): (at: Option<nat>)
    ensures at.Some? ==> LastWhere(log, at.value, counts)
    ensures at.None? ==> forall k :: 0 <= k < |log| ==> !counts(log[k])
  {
    if log == [] then None
    else if counts(log[|log| - 1]) then Some(|log| - 1)
    else
      var before := Last(log[..|log| - 1], counts);
      assert forall k :: 0 <= k < |log| - 1 ==> log[..|log| - 1][k] == log[k];
      before
  }

  lemma LastGrows(log: seq<Finished>, more: Finished, counts: Finished -> bool)
    ensures Last(log + [more], counts) == if counts(more) then Some(|log|) else Last(log, counts)
  {
    assert (log + [more])[..|log|] == log;
  }

  /** A gauge by name: what the last counting refresh of each name set it to. */
  ghost predicate Gauge<V>(gauge: map<string, V>, log: seq<Finished>, counts: string -> Finished -> bool,
                           value: Finished -> V)
  {
    forall name ::
      && (name in gauge <==> Last(log, counts(name)).Some?)
      && (name in gauge ==> gauge[name] == value(log[Last(log, counts(name)).value]))
  }

  /** Some refresh under this name returned nil. */
  ghost predicate HasSucceeded(log: seq<Finished>, name: string) {
    exists k :: 0 <= k < |log| && log[k].name == name && log[k].did.Succeeds?
  }

  // ----- Readiness -----

  function Names(entries: seq<Entry>): (names: seq<string>)
    ensures |names| == |entries|
    ensures forall i :: 0 <= i < |entries| ==> names[i] == entries[i].name
  {
    seq(|entries|, i requires 0 <= i < |entries| => entries[i].name)
  }

  /** The names, in order, that are not ready. */
  function NotReady(names: seq<string>, ready: set<string>): seq<string> {
    if names == [] then []
    else
      var last := names[|names| - 1];
      var before := NotReady(names[..|names| - 1], ready);
      if last in ready then before else before + [last]
  }

  lemma {:induction false} NotReadyAre(names: seq<string>, ready: set<string>)
    ensures forall name :: name in NotReady(names, ready) <==> name in names && name !in ready
  {
    if names != [] {
      var m := |names| - 1;
      NotReadyAre(names[..m], ready);
      assert names == names[..m] + [names[m]];
    }
  }

  /** They are the names at exactly the places that are not ready, in order. */
  lemma {:induction false} NotReadyInOrder(names: seq<string>, ready: set<string>) returns (at: seq<nat>)
    ensures |at| == |NotReady(names, ready)|
    ensures forall i :: 0 <= i < |at| ==> at[i] < |names| && names[at[i]] == NotReady(names, ready)[i]
    ensures forall i, j :: 0 <= i < j < |at| ==> at[i] < at[j]
    ensures forall k: nat :: k in at <==> k < |names| && names[k] !in ready
  {
    if names == [] {
      at := [];
    } else {
      var m := |names| - 1;
      at := NotReadyInOrder(names[..m], ready);
      if names[m] !in ready {
        at := at + [m];
      }
    }
  }

  /** More readiness only takes names out of the list: what is pending later is the pending part of what was. */
  lemma {:induction false} PendingOnlyShrinks(names: seq<string>, ready: set<string>, later: set<string>)
    requires ready <= later
    ensures NotReady(names, later) == NotReady(NotReady(names, ready), later)
    ensures |NotReady(names, later)| <= |NotReady(names, ready)|
  {
    if names != [] {
      var m := |names| - 1;
      PendingOnlyShrinks(names[..m], ready, later);
      var before := NotReady(names[..m], ready);
      if names[m] !in ready {
        assert (before + [names[m]])[..|before|] == before;
      }
    }
  }

  // ----- The books -----

  /** The gauges and the ready set. */
  datatype Books = Books(success: map<string, bool>, duration: map<string, int>, lastOK: map<string, int>,
                         ready: set<string>)

  function WentWell(): Finished -> bool {
    (f: Finished) => f.did.Succeeds?
  }

  function Took(): Finished -> int {
    (f: Finished) => f.took
  }

  function EndedAt(): Finished -> int {
    (f: Finished) => f.at
  }

  /** The books say what the history says. */
  ghost predicate Balanced(books: Books, log: seq<Finished>) {
    && Gauge(books.success, log, RecordedFor, WentWell())
    && Gauge(books.duration, log, FinishedFor, Took())
    && Gauge(books.lastOK, log, SucceededFor, EndedAt())
    && forall name :: name in books.ready <==> HasSucceeded(log, name)
  }

  /** What one refresh does to them: nothing but its duration, if it failed because of shutdown. */
  function Booked(books: Books, f: Finished): Books {
    var timed := books.(duration := books.duration[f.name := f.took]);
    match f.did
    case Succeeds =>
      timed.(success := books.success[f.name := true], lastOK := books.lastOK[f.name := f.at],
             ready := books.ready + {f.name})
    case Panics => timed.(success := books.success[f.name := false])
    case Fails => if f.shuttingDown then timed else timed.(success := books.success[f.name := false])
  }

  /**
   In so many words: a panic is always a failure, an error only if the exporter is
   not shutting down, and readiness and the time of success are a success's alone.
   */
  lemma BookedMeans(books: Books, f: Finished)
    ensures var after := Booked(books, f);
            && after.duration == books.duration[f.name := f.took]
            && after.success == (if f.did.Succeeds? then books.success[f.name := true]
                                 else if f.did.Panics? || !f.shuttingDown then books.success[f.name := false]
                                 else books.success)
            && after.lastOK == (if f.did.Succeeds? then books.lastOK[f.name := f.at] else books.lastOK)
            && after.ready == (if f.did.Succeeds? then books.ready + {f.name} else books.ready)
  {
  }

  /** One more refresh sets the gauge of its own name if it counts, and leaves the others. */
  lemma GaugeGrows<V>(gauge: map<string, V>, log: seq<Finished>, f: Finished, counts: string -> Finished -> bool,
                      value: Finished -> V)
    requires Gauge(gauge, log, counts, value)
    requires forall name :: counts(name)(f) ==> name == f.name
    ensures Gauge(if counts(f.name)(f) then gauge[f.name := value(f)] else gauge, log + [f], counts, value)
  {
    forall name
      ensures Last(log + [f], counts(name)) == if counts(name)(f) then Some(|log|) else Last(log, counts(name))
    {
      LastGrows(log, f, counts(name));
    }
  }

  lemma HasSucceededGrows(log: seq<Finished>, f: Finished)
    ensures forall name ::
              HasSucceeded(log + [f], name) <==> HasSucceeded(log, name) || (name == f.name && f.did.Succeeds?)
  {
    var longer := log + [f];
    forall name ensures HasSucceeded(longer, name) <==> HasSucceeded(log, name) || (name == f.name && f.did.Succeeds?) {
      if k :| 0 <= k < |log| && log[k].name == name && log[k].did.Succeeds? {
        assert longer[k] == log[k];
      }
      if name == f.name && f.did.Succeeds? {
        assert longer[|log|] == f;
      }
    }
  }

  /** Every refresh leaves the books saying what the history, with it, says. */
  lemma BookedIsBalanced(books: Books, log: seq<Finished>, f: Finished)
    requires Balanced(books, log)
    ensures Balanced(Booked(books, f), log + [f])
  {
    GaugeGrows(books.success, log, f, RecordedFor, WentWell());
    GaugeGrows(books.duration, log, f, FinishedFor, Took());
    GaugeGrows(books.lastOK, log, f, SucceededFor, EndedAt());
    HasSucceededGrows(log, f);
  }

  // ----- The scheduler -----

  class Scheduler {
    const timeout: int
    var entries: seq<Entry>
    var success: map<string, bool>
    var duration: map<string, int>
    var lastOK: map<string, int>
    var ready: set<string>
    ghost var log: seq<Finished>

    ghost function Kept(): Books
      reads this
    {
      Books(success, duration, lastOK, ready)
    }

    /** The gauges and the readiness are what the history says they are. */
    ghost predicate Valid()
      reads this
    {
      Registered(entries) && Balanced(Kept(), log)
    }

    constructor (timeout: int)
      ensures Valid() && log == [] && entries == [] && this.timeout == timeout
    {
      this.timeout := timeout;
      entries, success, duration, lastOK, ready, log := [], map[], map[], map[], {}, [];
    }

    /** Adds a collector; a non-positive interval or timeout falls back to the default. */
    method Register(name: string, interval: int, timeout: int)
      requires Valid()
      modifies this`entries
      ensures Valid()
      ensures entries == old(entries) + [Entry(name, if interval <= 0 then 300_000_000_000 else interval,
                                                     if timeout <= 0 then this.timeout else timeout)]
    {
      var bounded := timeout;
      if timeout <= 0 {
        bounded := this.timeout;
      }
      var every := interval;
      if interval <= 0 {
        every := DEFAULT_INTERVAL;
      }
      entries := entries + [Entry(name, every, bounded)];
    }

    /** The registered collectors that have not completed a successful refresh, in registration order. */
    method Pending() returns (pending: seq<string>)
      requires Valid()
      ensures pending == NotReady(Names(entries), ready)
      ensures forall name :: name in pending <==> name in Names(entries) && !HasSucceeded(log, name)
    {
      pending := [];
      ghost var names := Names(entries);
      for i := 0 to |entries|
        invariant pending == NotReady(names[..i], ready)
      {
        assert names[..i + 1][..i] == names[..i];
        if entries[i].name !in ready {
          pending := pending + [entries[i].name];
        }
      }
      assert names[..|entries|] == names;
      NotReadyAre(names, ready);
    }

    method MarkReady(name: string)
      modifies this`ready
      ensures ready == old(ready) + {name}
    {
      ready := ready + {name};
    }

    /** One refresh: what it did is recorded, unless it failed because the exporter is shutting down. */
    method Refresh(name: string, did: Behaviour, shuttingDown: bool, took: int, at: int)
      requires Valid()
      modifies this
      ensures Valid()
      ensures log == old(log) + [Finished(name, did, shuttingDown, took, at)]
      ensures entries == old(entries)
      ensures Kept() == Booked(old(Kept()), Finished(name, did, shuttingDown, took, at))
    {
      ghost var f := Finished(name, did, shuttingDown, took, at);
      BookedIsBalanced(Kept(), log, f);
      var err := GuardedRefresh(did);
      duration := duration[name := took];
      log := log + [f];
      if err.Some? {
        if err.value.Panic? {
        } else if shuttingDown {
          return;
        }
        success := success[name := false];
        return;
      }
      success := success[name := true];
      lastOK := lastOK[name := at];
      MarkReady(name);
    }
  }

  /** The books after more refreshes. */
  function BookedAll(books: Books, more: seq<Finished>): Books {
    if more == [] then books else Booked(BookedAll(books, more[..|more| - 1]), more[|more| - 1])
  }

  /** However a run goes, the books stay what its whole history says, and no name loses its readiness. */
  lemma {:induction false} RunIsBalanced(books: Books, log: seq<Finished>, more: seq<Finished>)
    requires Balanced(books, log)
    ensures Balanced(BookedAll(books, more), log + more)
    ensures books.ready <= BookedAll(books, more).ready
  {
    if more == [] {
      assert log + more == log;
    } else {
      var m := |more| - 1;
      RunIsBalanced(books, log, more[..m]);
      BookedIsBalanced(BookedAll(books, more[..m]), log + more[..m], more[m]);
      assert log + more == log + more[..m] + [more[m]];
    }
  }

  /** So over any run what is pending only shrinks, and what goes is exactly what succeeded in it. */
  lemma PendingShrinksOverARun(entries: seq<Entry>, books: Books, log: seq<Finished>, more: seq<Finished>)
    requires Balanced(books, log)
    ensures var before := NotReady(Names(entries), books.ready);
            var after := NotReady(Names(entries), BookedAll(books, more).ready);
            && after == NotReady(before, BookedAll(books, more).ready)
            && |after| <= |before|
            && forall name :: name in after <==> name in before && !HasSucceeded(more, name)
  {
    var later := BookedAll(books, more).ready;
    RunIsBalanced(books, log, more);
    PendingOnlyShrinks(Names(entries), books.ready, later);
    NotReadyAre(Names(entries), books.ready);
    NotReadyAre(Names(entries), later);
    forall name ensures HasSucceeded(log + more, name) <==> HasSucceeded(log, name) || HasSucceeded(more, name) {
      SucceededInEither(log, more, name);
    }
  }

  lemma SucceededInEither(log: seq<Finished>, more: seq<Finished>, name: string)
    ensures HasSucceeded(log + more, name) <==> HasSucceeded(log, name) || HasSucceeded(more, name)
  {
    if k :| 0 <= k < |more| && more[k].name == name && more[k].did.Succeeds? {
      assert (log + more)[|log| + k] == more[k];
    }
    if HasSucceeded(log, name) {
      ReadinessIsPermanent(log, more, name);
    }
  }

  /** Over any run, no name that became ready is pending again, and none becomes ready but by a success. */
  lemma ReadinessIsPermanent(log: seq<Finished>, more: seq<Finished>, name: string)
    requires HasSucceeded(log, name)
    ensures HasSucceeded(log + more, name)
  {
    var k :| 0 <= k < |log| && log[k].name == name && log[k].did.Succeeds?;
    assert (log + more)[k] == log[k];
  }
}
