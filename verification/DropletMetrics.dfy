/**
 The droplet monitoring collector: one refresh lists, rotates, fans out, merges
 and reports, and the snapshot remembers what earlier refreshes measured.
 */
module DropletMetrics {
  import opened Wrappers
  import opened Sequences
  import opened Readings
  import opened FanOut
  import opened Deadlines
  import opened Rotation
  import opened Decimal
  import Paging
  import Filters
  import Droplets

  /** A snapshot entry: `up` is false when the last fetch failed, and the reading then a stale one. */
  datatype Entry = Entry(id: string, name: string, up: bool, reading: Reading)

  datatype Error =
    | ErrList
    | ErrRefreshCutShort(measured: nat, total: nat)
    | ErrNoDropletMeasured(attempted: nat)

  // ----- Listing -----

  const MONITORING := "monitoring"

  /** What a refresh measures of a listing: what the filter admits and, with agentOnly, the agent runs on. */
  function Measurable(f: Filters.Filter, agentOnly: bool): Droplets.Droplet -> bool {
    (d: Droplets.Droplet) => f.Matches(d.tags, Droplets.RegionSlug(d)) && (!agentOnly || MONITORING in d.features)
  }

  function ReferenceOf(d: Droplets.Droplet): Reference {
    Reference(Sprint(d.id), d.name)
  }

  function References(droplets: seq<Droplets.Droplet>): (refs: seq<Reference>)
    ensures |refs| == |droplets|
  {
    seq(|droplets|, i requires 0 <= i < |droplets| => ReferenceOf(droplets[i]))
  }

  /** The droplets to measure, given everything the listing's walk was served. */
  function ToMeasure(served: seq<Droplets.Droplet>, f: Filters.Filter, agentOnly: bool): seq<Droplets.Droplet> {
    Paging.Kept(Paging.FirstOccurrences(served, Droplets.ID), Measurable(f, agentOnly))
  }

  /** Reference and droplet are the same one. */
  ghost predicate Refers(ref: Reference, d: Droplets.Droplet) {
    && ref.name == d.name
    && (d.id >= 0 ==> Value(ref.id) == d.id)
    && (d.id < 0 ==> |ref.id| > 0 && ref.id[0] == '-' && Value(ref.id[1..]) == -d.id)
  }

  /** What a refresh measures: a droplet the filter asks for and, if so configured, one with the agent. */
  ghost predicate IsAskedFor(d: Droplets.Droplet, f: Filters.Filter, agentOnly: bool) {
    && (f.tags.None? || exists i :: 0 <= i < |d.tags| && d.tags[i] in f.tags.value)
    && (f.regions.None? || (if d.region.Some? then d.region.value else "") in f.regions.value)
    && (agentOnly ==> "monitoring" in d.features)
  }

  ghost predicate IsListed(ref: Reference, served: seq<Droplets.Droplet>, f: Filters.Filter, agentOnly: bool) {
    exists d :: Droplets.IsFirstCopyOf(served, d) && IsAskedFor(d, f, agentOnly) && Refers(ref, d)
  }

  ghost predicate HasReference(d: Droplets.Droplet, refs: seq<Reference>) {
    exists i :: 0 <= i < |refs| && Refers(refs[i], d)
  }

  /** What is listed are exactly the droplets asked for, of the first copies served, under their ids and names. */
  lemma ListedAreAskedFor(served: seq<Droplets.Droplet>, f: Filters.Filter, agentOnly: bool)
    ensures var refs := References(ToMeasure(served, f, agentOnly));
            && (forall i :: 0 <= i < |refs| ==> IsListed(refs[i], served, f, agentOnly))
            && (forall d :: Droplets.IsFirstCopyOf(served, d) && IsAskedFor(d, f, agentOnly) ==> HasReference(d, refs))
  {
    var first := Paging.FirstOccurrences(served, Droplets.ID);
    var chosen := ToMeasure(served, f, agentOnly);
    var refs := References(chosen);
    Droplets.FirstCopiesAreKept(served);
    Paging.KeptAre(first, Measurable(f, agentOnly));
    forall i | 0 <= i < |refs| ensures IsListed(refs[i], served, f, agentOnly) {
      SprintReadsBack(chosen[i].id);
      assert chosen[i] in chosen && Measurable(f, agentOnly)(chosen[i]) && Refers(refs[i], chosen[i]);
    }
    forall d | Droplets.IsFirstCopyOf(served, d) && IsAskedFor(d, f, agentOnly) ensures HasReference(d, refs) {
      assert d in first && Measurable(f, agentOnly)(d);
      var i :| 0 <= i < |chosen| && chosen[i] == d;
      SprintReadsBack(d.id);
      assert Refers(refs[i], d);
    }
  }

  ghost predicate DistinctIds(refs: seq<Reference>) {
    DistinctKeys(refs, (ref: Reference) => ref.id)
  }

  lemma {:induction false} KeptStaysDistinct(items: seq<Droplets.Droplet>, keep: Droplets.Droplet -> bool)
    requires DistinctKeys(items, Droplets.ID)
    ensures DistinctKeys(Paging.Kept(items, keep), Droplets.ID)
  {
    if items != [] {
      var m := |items| - 1;
      KeptStaysDistinct(items[..m], keep);
      Paging.KeptAre(items[..m], keep);
      assert forall d :: d in items[..m] ==> Droplets.ID(d) != Droplets.ID(items[m]);
    }
  }

  /** However the server shifts its pages, no droplet is measured twice in a refresh. */
  lemma ListedIdsAreDistinct(served: seq<Droplets.Droplet>, f: Filters.Filter, agentOnly: bool)
    ensures DistinctIds(References(ToMeasure(served, f, agentOnly)))
  {
    var first := Paging.FirstOccurrences(served, Droplets.ID);
    Paging.FirstOccurrencesKeys(served, Droplets.ID);
    KeptStaysDistinct(first, Measurable(f, agentOnly));
    var chosen := ToMeasure(served, f, agentOnly);
    forall i, j | 0 <= i < j < |chosen| ensures Sprint(chosen[i].id) != Sprint(chosen[j].id) {
      assert Droplets.ID(chosen[i]) != Droplets.ID(chosen[j]);
      if Sprint(chosen[i].id) == Sprint(chosen[j].id) {
        SprintInjective(chosen[i].id, chosen[j].id);
      }
    }
  }

  // ----- Merging -----

  /** The snapshot by id; should an id ever repeat, the later entry wins. */
  function ById(snap: seq<Entry>): (m: map<string, Entry>)
    ensures forall id :: id in m <==> exists i :: 0 <= i < |snap| && snap[i].id == id
    ensures forall id :: id in m ==> m[id] in snap && m[id].id == id
  {
    if snap == [] then map[]
    else
      var last := snap[|snap| - 1];
      assert forall i :: 0 <= i < |snap| - 1 ==> snap[..|snap| - 1][i] == snap[i];
      ById(snap[..|snap| - 1])[last.id := last]
  }

  /** What the next snapshot says of one result: the fresh reading, or the previous one marked down. */
  function EntryOf(previous: map<string, Entry>, r: Result): Entry {
    match r.outcome
    case Measured(reading) => Entry(r.ref.id, r.ref.name, true, reading)
    case Failed(_) =>
      Entry(r.ref.id, r.ref.name, false, if r.ref.id in previous then previous[r.ref.id].reading else NOTHING)
  }

  function Merged(snap: seq<Entry>, results: seq<Result>): (next: seq<Entry>)
    ensures |next| == |results|
    ensures forall i :: 0 <= i < |results| ==> next[i] == EntryOf(ById(snap), results[i])
  {
    var previous := ById(snap);
    seq(|results|, i requires 0 <= i < |results| => EntryOf(previous, results[i]))
  }

  // ----- What a run of refreshes leaves -----

  /** One refresh as the snapshot sees it: its listing failed, or admitted these and its fan-out returned that. */
  datatype Refreshed = ListingFailed | Ran(listed: seq<Reference>, results: seq<Result>)

  function SnapAfter(log: seq<Refreshed>): seq<Entry> {
    if log == [] then []
    else
      var before := SnapAfter(log[..|log| - 1]);
      match log[|log| - 1]
      case ListingFailed => before
      case Ran(_, results) => Merged(before, results)
  }

  function CursorAfter(log: seq<Refreshed>): nat {
    if log == [] then 0
    else
      var before := CursorAfter(log[..|log| - 1]);
      match log[|log| - 1]
      case ListingFailed => before
      case Ran(_, results) => Advanced(before, ReachedCount(results), |results|)
  }

  ghost predicate WellFormed(log: seq<Refreshed>) {
    DistinctEach(log) && forall k :: 0 <= k < |log| && log[k].Ran? ==> Serves(log[k])
  }

  ghost predicate DistinctEach(log: seq<Refreshed>) {
    forall k :: 0 <= k < |log| && log[k].Ran? ==> DistinctResults(log[k].results)
  }

  /** The results are those of the listed droplets, in an order rotated from some cursor. */
  ghost predicate Serves(refreshed: Refreshed)
    requires refreshed.Ran?
  {
    DistinctIds(refreshed.listed) && exists cursor :: InOrder(refreshed.results, refreshed.listed, cursor)
  }

  predicate InOrder(results: seq<Result>, listed: seq<Reference>, cursor: nat) {
    && |results| == |listed| == |Rotated(listed, cursor)|
    && forall i :: 0 <= i < |results| ==> results[i].ref == Rotated(listed, cursor)[i]
  }

  ghost predicate DistinctEntries(snap: seq<Entry>) {
    DistinctKeys(snap, (entry: Entry) => entry.id)
  }

  ghost predicate DistinctResults(results: seq<Result>) {
    DistinctKeys(results, (r: Result) => r.ref.id)
  }

  predicate Lists(results: seq<Result>, id: string) {
    exists i :: 0 <= i < |results| && results[i].ref.id == id
  }

  predicate Measures(results: seq<Result>, id: string, reading: Reading) {
    exists i :: 0 <= i < |results| && results[i].ref.id == id && results[i].outcome == Measured(reading)
  }

  /** Refresh `m` left what is known of `id` alone: its listing failed, or it listed `id` and failed to measure it. */
  ghost predicate Passes(refreshed: Refreshed, id: string) {
    refreshed.Ran? ==> Lists(refreshed.results, id) && forall reading :: !Measures(refreshed.results, id, reading)
  }

  /** Refresh `k` is the last that measured `id`, and `id` has been listed ever since. */
  ghost predicate LastMeasured(log: seq<Refreshed>, id: string, k: nat, reading: Reading) {
    && k < |log| && log[k].Ran? && Measures(log[k].results, id, reading)
    && forall m :: k < m < |log| ==> Passes(log[m], id)
  }

  /** Refresh `k` is the last whose listing succeeded. */
  predicate LastRan(log: seq<Refreshed>, k: nat) {
    k < |log| && log[k].Ran? && forall m :: k < m < |log| ==> log[m].ListingFailed?
  }

  /** The snapshot holds exactly the droplets of the last successful listing, each once, in its order. */
  lemma {:induction false} SnapshotHoldsTheLastListing(log: seq<Refreshed>, k: nat)
    requires LastRan(log, k)
    ensures |SnapAfter(log)| == |log[k].results|
    ensures forall i :: 0 <= i < |log[k].results| ==>
              && SnapAfter(log)[i].id == log[k].results[i].ref.id
              && SnapAfter(log)[i].name == log[k].results[i].ref.name
              && (SnapAfter(log)[i].up <==> log[k].results[i].outcome.Measured?)
  {
    var m := |log| - 1;
    if k < m {
      assert log[m].ListingFailed?;
      assert LastRan(log[..m], k);
      SnapshotHoldsTheLastListing(log[..m], k);
    }
  }

  lemma {:induction false} NothingBeforeTheFirstListing(log: seq<Refreshed>)
    requires forall k :: 0 <= k < |log| ==> log[k].ListingFailed?
    ensures SnapAfter(log) == []
  {
    if log != [] {
      NothingBeforeTheFirstListing(log[..|log| - 1]);
    }
  }

  lemma {:induction false} SnapshotIdsAreDistinct(log: seq<Refreshed>)
    requires DistinctEach(log)
    ensures DistinctEntries(SnapAfter(log))
  {
    if log != [] {
      var m := |log| - 1;
      assert forall k :: 0 <= k < m ==> log[..m][k] == log[k];
      SnapshotIdsAreDistinct(log[..m]);
      if log[m].Ran? {
        assert DistinctResults(log[m].results);
      }
    }
  }

  lemma ByIdFinds(snap: seq<Entry>, i: nat)
    requires i < |snap|
    requires DistinctEntries(snap)
    ensures snap[i].id in ById(snap) && ById(snap)[snap[i].id] == snap[i]
  {
    var found := ById(snap)[snap[i].id];
    var j :| 0 <= j < |snap| && snap[j] == found;
    assert i == j;
  }

  /** The entry of `id`, or None when the snapshot does not hold it. */
  function Entered(log: seq<Refreshed>, id: string): Option<Entry> {
    if id in ById(SnapAfter(log)) then Some(ById(SnapAfter(log))[id]) else None
  }

  /** One more refresh: how the entry of `id` follows from the one before. */
  lemma EnteredStep(log: seq<Refreshed>, listed: seq<Reference>, results: seq<Result>, id: string)
    requires DistinctEach(log) && DistinctResults(results)
    ensures var before, after := Entered(log, id), Entered(log + [Ran(listed, results)], id);
            && (after.Some? <==> Lists(results, id))
            && (forall reading :: Measures(results, id, reading) ==>
                  after.Some? && after.value.up && after.value.reading == reading)
            && ((forall reading :: !Measures(results, id, reading)) && after.Some? ==>
                  !after.value.up && after.value.reading == if before.Some? then before.value.reading else NOTHING)
  {
    var longer := log + [Ran(listed, results)];
    assert longer[..|log|] == log;
    var snap := SnapAfter(longer);
    if i :| 0 <= i < |results| && results[i].ref.id == id {
      EnteredResult(log, listed, results, i);
      forall reading | Measures(results, id, reading) ensures results[i].outcome == Measured(reading) {
        var j :| 0 <= j < |results| && results[j].ref.id == id && results[j].outcome == Measured(reading);
        assert j == i;
      }
      if results[i].outcome.Measured? {
        assert Measures(results, id, results[i].outcome.reading);
      }
    } else {
      assert forall i :: 0 <= i < |snap| ==> snap[i].id == results[i].ref.id;
    }
  }

  /** The entry of a droplet is the one merged from its own result. */
  lemma EnteredResult(log: seq<Refreshed>, listed: seq<Reference>, results: seq<Result>, i: nat)
    requires DistinctResults(results) && i < |results|
    ensures Entered(log + [Ran(listed, results)], results[i].ref.id) == Some(EntryOf(ById(SnapAfter(log)), results[i]))
  {
    var longer := log + [Ran(listed, results)];
    assert longer[..|log|] == log;
    var snap := SnapAfter(longer);
    assert snap == Merged(SnapAfter(log), results);
    assert forall j :: 0 <= j < |snap| ==> snap[j].id == results[j].ref.id;
    ByIdFinds(snap, i);
  }

  /** What the history says of `id` is what the snapshot says of it. */
  ghost predicate Remembered(log: seq<Refreshed>, id: string) {
    && (forall k: nat, reading :: LastMeasured(log, id, k, reading) ==>
          Entered(log, id).Some? && Entered(log, id).value.reading == reading)
    && ((forall k: nat, reading :: !LastMeasured(log, id, k, reading)) && Entered(log, id).Some? ==>
          Entered(log, id).value.reading == NOTHING)
  }

  /** The refresh measured the droplet: that is the reading now, whatever came before. */
  lemma RememberedFresh(before: seq<Refreshed>, listed: seq<Reference>, results: seq<Result>, id: string,
                        reading: Reading)
    requires DistinctEach(before) && DistinctResults(results)
    requires Measures(results, id, reading)
    ensures Remembered(before + [Ran(listed, results)], id)
  {
    var log := before + [Ran(listed, results)];
    EnteredStep(before, listed, results, id);
    assert LastMeasured(log, id, |before|, reading);
    assert !Passes(log[|before|], id);
    forall k: nat, other | LastMeasured(log, id, k, other) ensures other == reading {
      assert k == |before|;
      MeasuresOnce(results, id, reading, other);
    }
  }

  /** The refresh listed the droplet and failed to measure it: the reading stays what it was. */
  lemma RememberedStale(before: seq<Refreshed>, listed: seq<Reference>, results: seq<Result>, id: string)
    requires DistinctEach(before) && DistinctResults(results)
    requires Remembered(before, id)
    requires Lists(results, id) && forall reading :: !Measures(results, id, reading)
    ensures Remembered(before + [Ran(listed, results)], id)
  {
    var log := before + [Ran(listed, results)];
    assert log[..|log| - 1] == before;
    EnteredStep(before, listed, results, id);
    LastMeasuredShifts(log, id);
    if k: nat, reading :| LastMeasured(before, id, k, reading) {
      assert Entered(before, id).Some?;
      assert LastMeasured(log, id, k, reading);
    }
  }

  /** The droplet is gone from the listing: so is its entry, and any claim to an earlier reading. */
  lemma RememberedGone(before: seq<Refreshed>, listed: seq<Reference>, results: seq<Result>, id: string)
    requires DistinctEach(before) && DistinctResults(results)
    requires !Lists(results, id)
    ensures Remembered(before + [Ran(listed, results)], id)
  {
    var log := before + [Ran(listed, results)];
    EnteredStep(before, listed, results, id);
    forall k: nat, reading ensures !LastMeasured(log, id, k, reading) {
      assert !Passes(log[|before|], id);
    }
  }

  /** The listing failed: nothing changes. */
  lemma RememberedUnlisted(before: seq<Refreshed>, id: string)
    requires Remembered(before, id)
    ensures Remembered(before + [ListingFailed], id)
  {
    var log := before + [ListingFailed];
    assert log[..|log| - 1] == before;
    LastMeasuredShifts(log, id);
    if k: nat, reading :| LastMeasured(before, id, k, reading) {
      assert LastMeasured(log, id, k, reading);
    }
  }

  /**
   In every reachable state, an entry's reading is that of the last refresh that
   measured its droplet, provided the droplet has been listed ever since, and
   empty when there is none; failed listings and cut-short refreshes included.
   */
  lemma {:induction false} SnapshotRemembersTheLastReading(log: seq<Refreshed>, id: string)
    requires DistinctEach(log)
    ensures Remembered(log, id)
  {
    if log != [] {
      var m := |log| - 1;
      var before := log[..m];
      assert log == before + [log[m]];
      assert DistinctEach(before);
      SnapshotRemembersTheLastReading(before, id);
      match log[m]
      case ListingFailed => RememberedUnlisted(before, id);
      case Ran(listed, results) =>
        assert DistinctResults(results);
        if reading :| Measures(results, id, reading) {
          RememberedFresh(before, listed, results, id, reading);
        } else if Lists(results, id) {
          RememberedStale(before, listed, results, id);
        } else {
          RememberedGone(before, listed, results, id);
        }
    }
  }

  lemma MeasuresOnce(results: seq<Result>, id: string, a: Reading, b: Reading)
    requires DistinctResults(results) && Measures(results, id, a) && Measures(results, id, b)
    ensures a == b
  {
  }

  /** A refresh that passes a droplet by leaves the last measurement of it where it was. */
  lemma LastMeasuredShifts(log: seq<Refreshed>, id: string)
    requires log != [] && Passes(log[|log| - 1], id)
    ensures forall k: nat, reading ::
              LastMeasured(log, id, k, reading) <==> LastMeasured(log[..|log| - 1], id, k, reading)
  {
    var m := |log| - 1;
    var before := log[..m];
    forall k: nat, reading ensures LastMeasured(log, id, k, reading) <==> LastMeasured(before, id, k, reading) {
      if LastMeasured(log, id, k, reading) {
        assert k < m;
        assert forall j :: k < j < m ==> before[j] == log[j];
      }
      if LastMeasured(before, id, k, reading) {
        assert forall j :: k < j < m ==> before[j] == log[j];
      }
    }
  }

  method Choose(droplets: seq<Droplets.Droplet>, f: Filters.Filter, agentOnly: bool)
    returns (chosen: seq<Droplets.Droplet>)
    ensures chosen == Paging.Kept(droplets, Measurable(f, agentOnly))
  {
    chosen := [];
    for i := 0 to |droplets|
      invariant chosen == Paging.Kept(droplets[..i], Measurable(f, agentOnly))
    {
      var d := droplets[i];
      assert droplets[..i + 1] == droplets[..i] + [d];
      Paging.KeptStep(droplets[..i], d, Measurable(f, agentOnly));
      var matched := f.Match(d.tags, Droplets.RegionSlug(d));
      if !matched {
        continue;
      }
      if agentOnly && MONITORING !in d.features {
        continue;
      }
      chosen := chosen + [d];
    }
    assert droplets[..|droplets|] == droplets;
  }

  lemma RotationKeepsIdsDistinct(refs: seq<Reference>, cursor: nat)
    requires DistinctIds(refs)
    ensures DistinctIds(Rotated(refs, cursor))
  {
  }

  /** Uniqueness survives rotation and fan-out. */
  lemma ReturnedIdsAreDistinct(refs: seq<Reference>, cursor: nat, concurrency: nat, events: seq<Event>)
    requires DistinctIds(refs) && Complete(Rotated(refs, cursor), concurrency, events)
    ensures DistinctResults(Returned(Rotated(refs, cursor), concurrency, events))
  {
    RotationKeepsIdsDistinct(refs, cursor);
    EveryReferenceGetsItsResult(Rotated(refs, cursor), concurrency, events);
  }

  predicate Names(entry: Entry, ref: Reference) {
    entry.id == ref.id && entry.name == ref.name
  }

  ghost predicate Holds(snap: seq<Entry>, ref: Reference) {
    exists i :: 0 <= i < |snap| && Names(snap[i], ref)
  }

  ghost predicate Named(entry: Entry, refs: seq<Reference>) {
    exists k :: 0 <= k < |refs| && Names(entry, refs[k])
  }

  /** Each reference has its entry, every entry is some reference's, and no id appears twice. */
  ghost predicate HoldsExactly(snap: seq<Entry>, refs: seq<Reference>) {
    && |snap| == |refs| && DistinctEntries(snap)
    && (forall k :: 0 <= k < |refs| ==> Holds(snap, refs[k]))
    && (forall i :: 0 <= i < |snap| ==> Named(snap[i], refs))
  }

  lemma RotationInvents(refs: seq<Reference>, cursor: nat, i: nat)
    requires i < |refs| == |Rotated(refs, cursor)|
    ensures exists k :: 0 <= k < |refs| && refs[k] == Rotated(refs, cursor)[i]
  {
    var from := Wrap(cursor, |refs|);
    var k := if i < |refs| - from then from + i else i - (|refs| - from);
    assert refs[k] == Rotated(refs, cursor)[i];
  }

  /** Entries named in a rotated order of the references hold exactly those. */
  lemma RotatedHoldsExactly(refs: seq<Reference>, snap: seq<Entry>, cursor: nat)
    requires DistinctIds(refs) && |snap| == |refs| == |Rotated(refs, cursor)|
    requires forall i :: 0 <= i < |snap| ==> Names(snap[i], Rotated(refs, cursor)[i])
    ensures HoldsExactly(snap, refs)
  {
    var rotated := Rotated(refs, cursor);
    RotationKeepsIdsDistinct(refs, cursor);
    forall k | 0 <= k < |refs| ensures Holds(snap, refs[k]) {
      RotatedAt(refs, cursor, k);
      assert Names(snap[Turn(|refs|, cursor, k)], refs[k]);
    }
    forall i | 0 <= i < |snap| ensures Named(snap[i], refs) {
      RotationInvents(refs, cursor, i);
      var k :| 0 <= k < |refs| && refs[k] == rotated[i];
      assert Names(snap[i], refs[k]);
    }
  }

  /**
   Rotation, fan-out and merge lose no droplet and invent none: after any history,
   however the server shifted its pages and wherever refreshes were cut short, the
   snapshot holds each droplet the last successful listing admitted exactly once,
   and no other.
   */
  lemma SnapshotHoldsExactlyTheAdmitted(log: seq<Refreshed>, k: nat)
    requires WellFormed(log) && LastRan(log, k)
    ensures HoldsExactly(SnapAfter(log), log[k].listed)
  {
    SnapshotHoldsTheLastListing(log, k);
    var snap, results, listed := SnapAfter(log), log[k].results, log[k].listed;
    assert Serves(log[k]);
    var cursor :| InOrder(results, listed, cursor);
    forall i | 0 <= i < |snap| ensures Names(snap[i], Rotated(listed, cursor)[i]) {
      assert results[i].ref == Rotated(listed, cursor)[i];
    }
    RotatedHoldsExactly(listed, snap, cursor);
  }

  /** What a fan-out over the rotated references returns serves them. */
  lemma ReturnedServes(refs: seq<Reference>, cursor: nat, concurrency: nat, events: seq<Event>)
    requires DistinctIds(refs) && Complete(Rotated(refs, cursor), concurrency, events)
    ensures var results := Returned(Rotated(refs, cursor), concurrency, events);
            DistinctResults(results) && Serves(Ran(refs, results))
  {
    ReturnedIdsAreDistinct(refs, cursor, concurrency, events);
    assert InOrder(Returned(Rotated(refs, cursor), concurrency, events), refs, cursor);
  }

  lemma LogGrows(log: seq<Refreshed>, more: Refreshed)
    requires WellFormed(log) && (more.Ran? ==> DistinctResults(more.results) && Serves(more))
    ensures WellFormed(log + [more])
    ensures more.ListingFailed? ==>
              SnapAfter(log + [more]) == SnapAfter(log) && CursorAfter(log + [more]) == CursorAfter(log)
    ensures more.Ran? ==>
              && SnapAfter(log + [more]) == Merged(SnapAfter(log), more.results)
              && CursorAfter(log + [more]) == Advanced(CursorAfter(log), ReachedCount(more.results), |more.results|)
  {
    assert (log + [more])[..|log|] == log;
  }

  // ----- Reporting -----

  /** What the scheduler hears of a refresh, by its results and whether its context is done by then. */
  function Reported(results: seq<Result>, done: bool): Option<Error> {
    if done then Some(ErrRefreshCutShort(MeasuredCount(results), |results|))
    else if MeasuredCount(results) == 0 && |results| > 0 then Some(ErrNoDropletMeasured(|results|))
    else None
  }

  /**
   What the scheduler has to hear, by the results themselves: a success exactly if
   the context is not done and something was measured, unless there was nothing to.
   */
  ghost predicate IsRightReport(results: seq<Result>, done: bool, err: Option<Error>) {
    && (err == None <==>
          !done && (results == [] || exists i :: 0 <= i < |results| && results[i].outcome.Measured?))
    && (done ==> err == Some(ErrRefreshCutShort(|MeasuredAt(results)|, |results|)))
    && (!done && results != [] && (forall i :: 0 <= i < |results| ==> results[i].outcome.Failed?) ==>
          err == Some(ErrNoDropletMeasured(|results|)))
  }

  lemma ReportedIsRight(results: seq<Result>, done: bool)
    ensures IsRightReport(results, done, Reported(results, done))
  {
    MeasuredCountIsTheirNumber(results);
    if MeasuredCount(results) == 0 {
      AllFailed(results);
    } else if forall i :: 0 <= i < |results| ==> results[i].outcome.Failed? {
      NoneMeasured(results);
    }
  }

  /** What a measurement came back with is what the snapshot says of its droplet. */
  lemma FinishedIsInTheSnapshot(refs: seq<Reference>, cursor: nat, concurrency: nat, events: seq<Event>, k: nat, i: nat,
                                snap: seq<Entry>)
    requires Complete(Rotated(refs, cursor), concurrency, events)
    requires Finishes(Rotated(refs, cursor), concurrency, events, k, i) && events[k].outcome.Measured?
    ensures var next := Merged(snap, Returned(Rotated(refs, cursor), concurrency, events));
            && i < |next| == |Rotated(refs, cursor)|
            && Names(next[i], Rotated(refs, cursor)[i])
            && next[i].up && next[i].reading == events[k].outcome.reading
  {
    SlotHoldsItsMeasurement(Rotated(refs, cursor), concurrency, events, k, i);
  }

  // ----- When a merge changes nothing -----

  /** The result says of its droplet what the entry says already. */
  predicate SaysTheSame(entry: Entry, r: Result) {
    && Names(entry, r.ref)
    && match r.outcome
       case Measured(reading) => entry.up && entry.reading == reading
       case Failed(_) => !entry.up
  }

  /**
   A merge keeps the snapshot exactly when the results name the same droplets in
   the same order, those that failed were down already, and those that were
   measured were up with that very reading.
   */
  lemma MergeKeepsTheSnapshot(snap: seq<Entry>, results: seq<Result>)
    requires DistinctEntries(snap)
    ensures Merged(snap, results) == snap <==>
              |results| == |snap| && forall i :: 0 <= i < |snap| ==> SaysTheSame(snap[i], results[i])
  {
    var next := Merged(snap, results);
    if |results| == |snap| {
      forall i | 0 <= i < |snap| ensures next[i] == snap[i] <==> SaysTheSame(snap[i], results[i]) {
        ByIdFinds(snap, i);
        assert next[i] == EntryOf(ById(snap), results[i]);
      }
    }
  }

  /** The snapshot names the droplets in the order the next fan-out takes them, and none of them is up. */
  predicate DownInOrder(snap: seq<Entry>, rotated: seq<Reference>) {
    |snap| == |rotated| && forall i :: 0 <= i < |snap| ==> Names(snap[i], rotated[i]) && !snap[i].up
  }

  /** A refresh that measured nothing keeps the snapshot exactly when all of it was down already, in that order. */
  lemma UnmeasuredKeepsTheSnapshot(snap: seq<Entry>, refs: seq<Reference>, cursor: nat, concurrency: nat,
                                   events: seq<Event>)
    requires DistinctEntries(snap) && Complete(Rotated(refs, cursor), concurrency, events)
    requires MeasuredCount(Returned(Rotated(refs, cursor), concurrency, events)) == 0
    ensures Merged(snap, Returned(Rotated(refs, cursor), concurrency, events)) == snap <==>
              DownInOrder(snap, Rotated(refs, cursor))
  {
    var rotated := Rotated(refs, cursor);
    var results := Returned(rotated, concurrency, events);
    EveryReferenceGetsItsResult(rotated, concurrency, events);
    AllFailed(results);
    MergeKeepsTheSnapshot(snap, results);
    FailedSayDown(snap, rotated, results);
  }

  lemma AllFailed(results: seq<Result>)
    requires MeasuredCount(results) == 0
    ensures forall i :: 0 <= i < |results| ==> results[i].outcome.Failed?
  {
    forall i | 0 <= i < |results| ensures results[i].outcome.Failed? {
      if results[i].outcome.Measured? {
        SomeMeasured(results, i);
      }
    }
  }

  lemma FailedSayDown(snap: seq<Entry>, rotated: seq<Reference>, results: seq<Result>)
    requires |results| == |rotated| && forall i :: 0 <= i < |results| ==> results[i].ref == rotated[i]
    requires forall i :: 0 <= i < |results| ==> results[i].outcome.Failed?
    ensures DownInOrder(snap, rotated) <==>
              |results| == |snap| && forall i :: 0 <= i < |snap| ==> SaysTheSame(snap[i], results[i])
  {
    if |results| == |snap| {
      assert forall i :: 0 <= i < |snap| ==>
               (SaysTheSame(snap[i], results[i]) <==> Names(snap[i], rotated[i]) && !snap[i].up);
    }
  }

  /** A refresh cut short after its first droplet was measured changes a snapshot whose first entry is down. */
  lemma ShortRoundChangesTheSnapshot(snap: seq<Entry>, refs: seq<Reference>, cursor: nat, concurrency: nat)
    requires |refs| >= 1 && concurrency >= 1 && (snap != [] ==> !snap[0].up)
    ensures var rotated := Rotated(refs, cursor);
            var events := ShortRound(PoolSize(concurrency, |rotated|), |rotated|);
            && LawfulComplete(rotated, concurrency, events)
            && Final(rotated, concurrency, events).cancelled
            && Reported(Returned(rotated, concurrency, events), true).value.ErrRefreshCutShort?
            && Merged(snap, Returned(rotated, concurrency, events)) != snap
  {
    var rotated := Rotated(refs, cursor);
    ShortRoundRuns(rotated, concurrency);
    var results := Returned(rotated, concurrency, ShortRound(PoolSize(concurrency, |rotated|), |rotated|));
    assert Merged(snap, results)[0] == EntryOf(ById(snap), results[0]);
  }

  /** The promise that a refresh running out of time keeps the previous snapshot. */
  ghost predicate CutShortKeepsTheSnapshot(config: Config, snap: seq<Entry>, refs: seq<Reference>, cursor: nat,
                                           concurrency: nat)
  {
    forall events ::
      Possible(config, Rotated(refs, cursor), concurrency, events) &&
      Final(Rotated(refs, cursor), concurrency, events).cancelled ==>
        Merged(snap, Returned(Rotated(refs, cursor), concurrency, events)) == snap
  }

  /** The promise holds exactly when there is nothing to keep and nothing to measure. */
  lemma CutShortKeepsNothing(config: Config, snap: seq<Entry>, refs: seq<Reference>, cursor: nat, concurrency: nat)
    requires DistinctEntries(snap) && concurrency >= 1 && config.refreshTimeout > 0
    ensures CutShortKeepsTheSnapshot(config, snap, refs, cursor, concurrency) <==> snap == [] && refs == []
  {
    var rotated := Rotated(refs, cursor);
    var pool := PoolSize(concurrency, |rotated|);
    if CutShortKeepsTheSnapshot(config, snap, refs, cursor, concurrency) {
      NothingRoundRuns(rotated, concurrency);
      LawfulIsPossible(config, rotated, concurrency, NothingRound(pool, |rotated|));
      NoneMeasured(Returned(rotated, concurrency, NothingRound(pool, |rotated|)));
      UnmeasuredKeepsTheSnapshot(snap, refs, cursor, concurrency, NothingRound(pool, |rotated|));
      assert DownInOrder(snap, rotated);
      if refs != [] {
        ShortRoundChangesTheSnapshot(snap, refs, cursor, concurrency);
        LawfulIsPossible(config, rotated, concurrency, ShortRound(pool, |rotated|));
        assert false;
      }
    }
  }

  // ----- The collector -----

  class Collector {
    const concurrency: nat
    const agentOnly: bool
    const filter: Filters.Filter
    var snap: seq<Entry>
    var cursor: nat
    ghost var log: seq<Refreshed>

    /** Every reachable state is what its own history of refreshes says. */
    ghost predicate Valid()
      reads this
    {
      && concurrency >= 1
      && WellFormed(log)
      && snap == SnapAfter(log)
      && cursor == CursorAfter(log)
    }

    constructor (concurrency: int, agentOnly: bool, filter: Filters.Filter)
      ensures Valid() && log == []
      ensures this.concurrency == if concurrency < 1 then 1 else concurrency
      ensures this.agentOnly == agentOnly && this.filter == filter
    {
      this.concurrency := if concurrency < 1 then 1 else concurrency;
      this.agentOnly := agentOnly;
      this.filter := filter;
      snap, cursor, log := [], 0, [];
    }

    /** The references a refresh measures when its walk is served this. */
    function Listed(served: seq<Droplets.Droplet>): seq<Reference>
      reads this
    {
      References(ToMeasure(served, filter, agentOnly))
    }

    method ListDroplets(api: Droplets.Api, done: nat -> bool, ghost bound: nat) returns (refs: Option<seq<Reference>>)
      requires Paging.Ends(Droplets.Source(api, filter), done, 0, 0, bound)
      ensures var served := Paging.Served(Droplets.Source(api, filter), done, 0, 0, bound);
              refs == if served.None? then None else Some(Listed(served.value))
    {
      var server := Droplets.Listing(api, filter);
      var listed, _ := Paging.All(server, Droplets.ID, done, bound);
      if listed.None? {
        return None;
      }
      var chosen := Choose(listed.value, filter, agentOnly);
      refs := Some(References(chosen));
    }

    method Rotate(refs: seq<Reference>) returns (rotated: seq<Reference>)
      ensures rotated == Rotated(refs, cursor)
    {
      if |refs| == 0 {
        return refs;
      }
      var from := cursor % |refs|;
      WrapIsRemainder(cursor, |refs|);
      rotated := refs[from..] + refs[..from];
    }

    method Advance(reached: nat, total: nat)
      modifies this`cursor
      ensures cursor == Advanced(old(cursor), reached, total)
    {
      if total == 0 {
        return;
      }
      WrapIsRemainder(cursor + reached, total);
      cursor := (cursor + reached) % total;
    }

    method Merge(results: array<Result>)
      modifies this`snap
      ensures snap == Merged(old(snap), results[..])
    {
      var previous: map<string, Entry> := map[];
      for i := 0 to |snap|
        invariant previous == ById(snap[..i])
      {
        assert snap[..i + 1][..i] == snap[..i];
        previous := previous[snap[i].id := snap[i]];
      }
      assert snap[..|snap|] == snap;
      var next: seq<Entry> := [];
      for i := 0 to results.Length
        invariant |next| == i
        invariant forall j :: 0 <= j < i ==> next[j] == EntryOf(previous, results[j])
      {
        var r := results[i];
        if r.outcome.Measured? {
          next := next + [Entry(r.ref.id, r.ref.name, true, r.outcome.reading)];
          continue;
        }
        var stale := if r.ref.id in previous then previous[r.ref.id] else Entry("", "", false, NOTHING);
        next := next + [stale.(id := r.ref.id, name := r.ref.name, up := false)];
      }
      snap := next;
    }

    method Report(results: array<Result>, done: bool) returns (err: Option<Error>)
      modifies this`cursor
      ensures cursor == Advanced(old(cursor), ReachedCount(results[..]), results.Length)
      ensures err == Reported(results[..], done)
      ensures IsRightReport(results[..], done, err)
    {
      ReportedIsRight(results[..], done);
      var measured, reached := 0, 0;
      for i := 0 to results.Length
        invariant cursor == old(cursor)
        invariant measured == MeasuredCount(results[..i]) && reached == ReachedCount(results[..i])
      {
        CountsExtend(results[..], i);
        assert results[..][..i + 1] == results[..i + 1] && results[..][..i] == results[..i];
        if results[i].outcome.Measured? {
          measured, reached := measured + 1, reached + 1;
          continue;
        }
        if !results[i].outcome.starved {
          reached := reached + 1;
        }
      }
      ghost var all := results[..];
      assert results[..results.Length] == all;
      Advance(reached, results.Length);
      assert results[..] == all;
      if done {
        return Some(ErrRefreshCutShort(measured, results.Length));
      }
      if measured == 0 && results.Length > 0 {
        return Some(ErrNoDropletMeasured(results.Length));
      }
      err := None;
    }

    /** The end of a refresh: the results are merged, then reported. */
    method Settle(ghost listed: seq<Reference>, results: array<Result>, done: bool) returns (err: Option<Error>)
      requires Valid() && DistinctResults(results[..]) && Serves(Ran(listed, results[..]))
      modifies this
      ensures Valid()
      ensures err == Reported(results[..], done)
      ensures snap == Merged(old(snap), results[..])
      ensures cursor == Advanced(old(cursor), ReachedCount(results[..]), results.Length)
      ensures log == old(log) + [Ran(listed, results[..])]
    {
      ghost var all := results[..];
      ghost var longer := log + [Ran(listed, all)];
      LogGrows(log, Ran(listed, all));
      Merge(results);
      assert snap == SnapAfter(longer);
      err := Report(results, done);
      assert results[..] == all && cursor == CursorAfter(longer);
      log := longer;
    }

    /** The part of a refresh after its listing: rotate, fan out, merge, report. */
    method Measure(refs: seq<Reference>, events: seq<Event>, done: bool) returns (err: Option<Error>)
      requires Valid() && DistinctIds(refs)
      requires Complete(Rotated(refs, cursor), concurrency, events)
      modifies this
      ensures Valid()
      ensures var results := Returned(Rotated(refs, old(cursor)), concurrency, events);
              && err == Reported(results, done)
              && snap == Merged(old(snap), results)
              && cursor == Advanced(old(cursor), ReachedCount(results), |results|)
              && log == old(log) + [Ran(refs, results)]
    {
      ReturnedServes(refs, cursor, concurrency, events);
      var rotated := Rotate(refs);
      var results := MeasureAll(rotated, concurrency, events);
      err := Settle(refs, results, done);
    }

    /**
     One refresh. Its fan-out takes the course `events`, and `done` says whether
     the context has ended by the time it reports. A failed listing changes
     nothing; otherwise the results are merged whatever the report says.
     */
    method Refresh(api: Droplets.Api, walkDone: nat -> bool, ghost bound: nat, events: seq<Event>, done: bool)
      returns (err: Option<Error>)
      requires Valid()
      requires Paging.Ends(Droplets.Source(api, filter), walkDone, 0, 0, bound)
      requires var served := Paging.Served(Droplets.Source(api, filter), walkDone, 0, 0, bound);
               served.Some? ==> Complete(Rotated(Listed(served.value), cursor), concurrency, events)
      modifies this
      ensures Valid()
      ensures var served := Paging.Served(Droplets.Source(api, filter), walkDone, 0, 0, bound);
              if served.None? then
                err == Some(ErrList) && snap == old(snap) && cursor == old(cursor) && log == old(log) + [ListingFailed]
              else
                var results := Returned(Rotated(old(Listed(served.value)), old(cursor)), concurrency, events);
                && err == Reported(results, done)
                && snap == Merged(old(snap), results)
                && cursor == Advanced(old(cursor), ReachedCount(results), |results|)
                && log == old(log) + [Ran(old(Listed(served.value)), results)]
    {
      var refs := ListDroplets(api, walkDone, bound);
      if refs.None? {
        LogGrows(log, ListingFailed);
        log := log + [ListingFailed];
        return Some(ErrList);
      }
      ghost var served := Paging.Served(Droplets.Source(api, filter), walkDone, 0, 0, bound);
      ListedIdsAreDistinct(served.value, filter, agentOnly);
      err := Measure(refs.value, events, done);
    }
  }
}
