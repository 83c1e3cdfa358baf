/**
 The Spaces collector: bucket discovery with a cache of regions, one measurement
 per bucket, and a snapshot keyed by name and region.
 */
module Spaces {
  import opened Wrappers
  import opened Histories

  datatype Bucket = Bucket(name: string, region: string)

  datatype Usage = Usage(size: real, objects: real)

  /** `known` says the figures come from a measurement; `up` that it was the last one. */
  datatype Stats = Stats(usage: Usage, up: bool, known: bool)

  const NEVER := Stats(Usage(0.0, 0.0), false, false)

  datatype Result = Result(bucket: Bucket, usage: Option<Usage>)

  datatype Error = ErrList | ErrNoBucketMeasured(attempted: nat)

  /** What locating a bucket answers: nothing, or its constraint, empty for the default region. */
  type Locator = string -> Option<string>

  /** What measuring a bucket answers. */
  type Gauge = Bucket -> Option<Usage>

  // ----- One refresh, as values -----

  function Located(locate: Locator, home: string, name: string): string {
    if locate(name).None? || locate(name).value == "" then home else locate(name).value
  }

  /** The region a listed bucket is measured in. */
  function RegionOf(cache: map<string, string>, locate: Locator, home: string, name: string): string {
    if name in cache then cache[name] else Located(locate, home, name)
  }

  /** A cached bucket is measured where it last was, a located one where locating says, any other at home. */
  lemma RegionIsTheBestKnown(cache: map<string, string>, locate: Locator, home: string, name: string)
    ensures name in cache ==> RegionOf(cache, locate, home, name) == cache[name]
    ensures name !in cache && locate(name).Some? && locate(name).value != "" ==>
              RegionOf(cache, locate, home, name) == locate(name).value
    ensures name !in cache && (locate(name).None? || locate(name).value == "") ==>
              RegionOf(cache, locate, home, name) == home
  {
  }

  function Discovered(names: seq<string>, cache: map<string, string>, locate: Locator, home: string)
    : (buckets: seq<Bucket>)
    ensures |buckets| == |names|
  {
    seq(|names|, i requires 0 <= i < |names| => Bucket(names[i], RegionOf(cache, locate, home, names[i])))
  }

  function Configured(buckets: seq<Bucket>, home: string): (out: seq<Bucket>)
    ensures |out| == |buckets|
  {
    seq(|buckets|, i requires 0 <= i < |buckets| =>
      if buckets[i].region == "" then buckets[i].(region := home) else buckets[i])
  }

  /** A configured bucket keeps its name and the region it names; without one it is in the default region. */
  lemma ConfiguredKeepsRegions(buckets: seq<Bucket>, home: string, i: nat)
    requires i < |buckets|
    ensures Configured(buckets, home)[i].name == buckets[i].name
    ensures buckets[i].region != "" ==> Configured(buckets, home)[i].region == buckets[i].region
    ensures buckets[i].region == "" ==> Configured(buckets, home)[i].region == home
  {
  }

  function Results(buckets: seq<Bucket>, measure: Gauge): (results: seq<Result>)
    ensures |results| == |buckets|
  {
    seq(|buckets|, i requires 0 <= i < |buckets| => Result(buckets[i], measure(buckets[i])))
  }

  function StatsOf(snap: map<Bucket, Stats>, r: Result): Stats {
    if r.usage.Some? then Stats(r.usage.value, true, true)
    else (if r.bucket in snap then snap[r.bucket] else NEVER).(up := false)
  }

  /** The snapshot the first `k` results build on the previous one. */
  function Merged(snap: map<Bucket, Stats>, results: seq<Result>, k: nat): map<Bucket, Stats>
    requires k <= |results|
  {
    if k == 0 then map[] else Merged(snap, results, k - 1)[results[k - 1].bucket := StatsOf(snap, results[k - 1])]
  }

  /** The region cache the first `k` results build. */
  function Regions(results: seq<Result>, k: nat): map<string, string>
    requires k <= |results|
  {
    if k == 0 then map[]
    else if results[k - 1].usage.Some? then
      Regions(results, k - 1)[results[k - 1].bucket.name := results[k - 1].bucket.region]
    else Regions(results, k - 1)
  }

  /** Should a name be listed twice, it was located and measured to the same effect both times. */
  ghost predicate OneResultEach(results: seq<Result>) {
    forall i, j :: 0 <= i < j < |results| && results[i].bucket.name == results[j].bucket.name ==>
      results[i] == results[j]
  }

  ghost predicate OneResultPerBucket(results: seq<Result>) {
    forall i, j :: 0 <= i < j < |results| && results[i].bucket == results[j].bucket ==> results[i] == results[j]
  }

  /** Result `i` is the one for `bucket`. */
  predicate For(results: seq<Result>, k: nat, i: int, bucket: Bucket) {
    0 <= i < k <= |results| && results[i].bucket == bucket
  }

  lemma {:induction false} MergedHolds(snap: map<Bucket, Stats>, results: seq<Result>, k: nat)
    requires k <= |results| && OneResultPerBucket(results)
    ensures forall b :: b in Merged(snap, results, k) ==> exists i :: For(results, k, i, b)
    ensures forall i, b :: For(results, k, i, b) ==>
              b in Merged(snap, results, k) && Merged(snap, results, k)[b] == StatsOf(snap, results[i])
  {
    if k > 0 {
      MergedHolds(snap, results, k - 1);
      forall b | b in Merged(snap, results, k) ensures exists i :: For(results, k, i, b) {
        if b == results[k - 1].bucket {
          assert For(results, k, k - 1, b);
        } else {
          assert b in Merged(snap, results, k - 1);
          var i :| For(results, k - 1, i, b);
          assert For(results, k, i, b);
        }
      }
      forall i, b | For(results, k, i, b)
        ensures b in Merged(snap, results, k) && Merged(snap, results, k)[b] == StatsOf(snap, results[i])
      {
        if i < k - 1 {
          assert For(results, k - 1, i, b);
          assert b == results[k - 1].bucket ==> results[i] == results[k - 1];
        }
      }
    }
  }

  /** The cache holds exactly the names of the buckets measured, each with the region it was measured in. */
  lemma {:induction false} RegionsHold(results: seq<Result>, k: nat)
    requires k <= |results| && OneResultEach(results)
    ensures forall name :: name in Regions(results, k) ==>
              exists i :: For(results, k, i, Bucket(name, Regions(results, k)[name])) && results[i].usage.Some?
    ensures forall i, b :: For(results, k, i, b) && results[i].usage.Some? ==>
              b.name in Regions(results, k) && Regions(results, k)[b.name] == b.region
  {
    if k > 0 {
      RegionsHold(results, k - 1);
      forall name | name in Regions(results, k)
        ensures exists i :: For(results, k, i, Bucket(name, Regions(results, k)[name])) && results[i].usage.Some?
      {
        if results[k - 1].usage.Some? && name == results[k - 1].bucket.name {
          assert For(results, k, k - 1, Bucket(name, Regions(results, k)[name]));
        } else {
          var i :| For(results, k - 1, i, Bucket(name, Regions(results, k - 1)[name])) && results[i].usage.Some?;
          assert For(results, k, i, Bucket(name, Regions(results, k)[name]));
        }
      }
      forall i, b | For(results, k, i, b) && results[i].usage.Some?
        ensures b.name in Regions(results, k) && Regions(results, k)[b.name] == b.region
      {
        if i < k - 1 {
          assert For(results, k - 1, i, b);
          assert b.name == results[k - 1].bucket.name ==> results[i] == results[k - 1];
        }
      }
    }
  }

  // ----- The cache against the snapshot -----

  /** The region cache is the name-to-region projection of the snapshot entries that are up. */
  ghost predicate CacheMirrors(cache: map<string, string>, snap: map<Bucket, Stats>) {
    forall name, region ::
      (name in cache && cache[name] == region) <==> (Bucket(name, region) in snap && snap[Bucket(name, region)].up)
  }

  /** A discovered bucket is in the snapshot under one region. */
  ghost predicate OneRegionEach(snap: map<Bucket, Stats>) {
    forall a, b :: a in snap && b in snap && a.name == b.name ==> a == b
  }

  lemma DiscoveryKeepsTheCacheMirrored(snap: map<Bucket, Stats>, results: seq<Result>)
    requires OneResultEach(results)
    ensures CacheMirrors(Regions(results, |results|), Merged(snap, results, |results|))
    ensures OneRegionEach(Merged(snap, results, |results|))
  {
    var n := |results|;
    var cache, next := Regions(results, n), Merged(snap, results, n);
    MergedHolds(snap, results, n);
    RegionsHold(results, n);
    forall name, region
      ensures (name in cache && cache[name] == region) <==>
                (Bucket(name, region) in next && next[Bucket(name, region)].up)
    {
      var b := Bucket(name, region);
      if b in next && next[b].up {
        var i :| For(results, n, i, b);
      }
      if name in cache && cache[name] == region {
        var i :| For(results, n, i, b) && results[i].usage.Some?;
      }
    }
    forall a, b | a in next && b in next && a.name == b.name ensures a == b {
      var i :| For(results, n, i, a);
      SameNameSameBucket(results, i, b);
    }
  }

  /** No two results are for buckets of one name and different regions. */
  lemma SameNameSameBucket(results: seq<Result>, i: nat, other: Bucket)
    requires OneResultEach(results)
    requires i < |results| && results[i].bucket.name == other.name
    ensures other != results[i].bucket ==> forall j :: !For(results, |results|, j, other)
  {
    if j :| For(results, |results|, j, other) {
      assert i < j ==> results[i] == results[j];
      assert j < i ==> results[j] == results[i];
    }
  }

  /** If a bucket can be measured only where it really is, every cached region is the real one. */
  lemma CachedRegionsAreTrue(results: seq<Result>, truth: string -> string)
    requires OneResultEach(results)
    requires forall i :: 0 <= i < |results| && results[i].usage.Some? ==>
               results[i].bucket.region == truth(results[i].bucket.name)
    ensures forall name :: name in Regions(results, |results|) ==> Regions(results, |results|)[name] == truth(name)
  {
    RegionsHold(results, |results|);
    forall name | name in Regions(results, |results|) ensures Regions(results, |results|)[name] == truth(name) {
      var i :| For(results, |results|, i, Bucket(name, Regions(results, |results|)[name])) && results[i].usage.Some?;
    }
  }

  /**
   A bucket that cannot be measured keeps what it last reported exactly when it
   is looked for in the region it last reported from: the figures are kept by
   name and region, so a bucket assumed elsewhere starts from nothing.
   */
  lemma FiguresAreKeptWithinTheRegion(snap: map<Bucket, Stats>, results: seq<Result>, i: nat, last: Bucket)
    requires OneResultEach(results) && OneRegionEach(snap)
    requires i < |results| && results[i].usage.None?
    requires last in snap && snap[last].known && last.name == results[i].bucket.name
    ensures var next := Merged(snap, results, |results|);
            var b := results[i].bucket;
            && b in next && !next[b].up
            && (next[b].known && next[b].usage == snap[last].usage <==> b.region == last.region)
            && (b.region != last.region ==> next[b] == NEVER && last !in next)
  {
    var b := results[i].bucket;
    MergedHolds(snap, results, |results|);
    assert For(results, |results|, i, b);
    assert b == last <==> b.region == last.region;
    SameNameSameBucket(results, i, last);
  }

  lemma DownIsNotCached(snap: map<Bucket, Stats>, cache: map<string, string>, last: Bucket)
    requires CacheMirrors(cache, snap) && OneRegionEach(snap)
    requires last in snap && !snap[last].up
    ensures last.name !in cache
  {
    var b := Bucket(last.name, if last.name in cache then cache[last.name] else last.region);
    assert last.name in cache ==> b in snap;
  }

  /** That is what happens when such a bucket was down already and cannot be located either. */
  lemma UnlocatableBucketLosesItsFigures(snap: map<Bucket, Stats>, cache: map<string, string>, names: seq<string>,
                                         locate: Locator, measure: Gauge, home: string, i: nat, last: Bucket)
    requires CacheMirrors(cache, snap) && OneRegionEach(snap)
    requires i < |names| && last in snap && last.name == names[i] && snap[last].known
    requires !snap[last].up && locate(names[i]).None? && home != last.region
    requires measure(Bucket(names[i], home)).None?
    ensures var results := Results(Discovered(names, cache, locate, home), measure);
            var next := Merged(snap, results, |results|);
            Bucket(names[i], home) in next && next[Bucket(names[i], home)] == NEVER && last !in next
  {
    var results := Results(Discovered(names, cache, locate, home), measure);
    assert last == Bucket(names[i], last.region);
    DownIsNotCached(snap, cache, last);
    assert results[i].bucket == Bucket(names[i], home);
    FiguresAreKeptWithinTheRegion(snap, results, i, last);
  }

  // ----- Over a run of refreshes -----

  /** What one refresh measured, by bucket. */
  ghost function RoundOf(buckets: seq<Bucket>, measure: Gauge): Round<Bucket, Usage> {
    map b | b in (set i | 0 <= i < |buckets| :: buckets[i]) :: measure(b)
  }

  /**
   A bucket is in the snapshot exactly if the last refresh looked for it in that
   region, up exactly if that refresh measured it, and its figures are those of
   its last measurement in that region since it was last missing there.
   */
  ghost predicate Remembers(snap: map<Bucket, Stats>, log: seq<Round<Bucket, Usage>>) {
    && (forall b :: b in snap <==> log != [] && b in log[|log| - 1])
    && (forall b :: b in snap ==>
          && snap[b].up == log[|log| - 1][b].Some?
          && snap[b].known == LastKnown(log, b).Some?
          && snap[b].usage == if snap[b].known then LastKnown(log, b).value else NEVER.usage)
  }

  /** One refresh keeps every bucket's figures in step with the whole history of measurements. */
  lemma RemembersStep(snap: map<Bucket, Stats>, log: seq<Round<Bucket, Usage>>, buckets: seq<Bucket>, measure: Gauge)
    requires Remembers(snap, log)
    ensures Remembers(Merged(snap, Results(buckets, measure), |buckets|), log + [RoundOf(buckets, measure)])
  {
    var results := Results(buckets, measure);
    var next := Merged(snap, results, |buckets|);
    var round := RoundOf(buckets, measure);
    MergedHolds(snap, results, |buckets|);
    forall b ensures b in next <==> b in round {
      if b in next {
        var i :| For(results, |buckets|, i, b);
        assert buckets[i] == b;
      }
      if b in round {
        var i :| 0 <= i < |buckets| && buckets[i] == b;
        assert For(results, |buckets|, i, b);
      }
    }
    forall b | b in next ensures next[b] == StatsOf(snap, Result(b, measure(b))) && round[b] == measure(b) {
      var i :| For(results, |buckets|, i, b);
    }
    forall b | b in next
      ensures LastKnown(log + [round], b) == if measure(b).Some? then measure(b) else LastKnown(log, b)
    {
      LastKnownStep(log, round, b);
    }
  }

  // ----- The collector -----

  function FailedCount(results: seq<Result>, k: nat): nat
    requires k <= |results|
  {
    if k == 0 then 0 else FailedCount(results, k - 1) + (if results[k - 1].usage.None? then 1 else 0)
  }

  ghost predicate NoneMeasured(results: seq<Result>) {
    forall i :: 0 <= i < |results| ==> results[i].usage.None?
  }

  lemma {:induction false} FailedCountIsAll(results: seq<Result>, k: nat)
    requires k <= |results|
    ensures FailedCount(results, k) <= k
    ensures FailedCount(results, k) == k <==> forall i :: 0 <= i < k ==> results[i].usage.None?
  {
    if k > 0 {
      FailedCountIsAll(results, k - 1);
    }
  }

  /** The names discovery has to ask about: the listed ones the cache does not hold, in order. */
  function Unlocated(names: seq<string>, cache: map<string, string>, k: nat): seq<string>
    requires k <= |names|
  {
    if k == 0 then []
    else if names[k - 1] in cache then Unlocated(names, cache, k - 1)
    else Unlocated(names, cache, k - 1) + [names[k - 1]]
  }

  lemma {:induction false} UnlocatedAre(names: seq<string>, cache: map<string, string>, k: nat)
    requires k <= |names|
    ensures forall name :: name in Unlocated(names, cache, k) <==> name in names[..k] && name !in cache
  {
    if k > 0 {
      UnlocatedAre(names, cache, k - 1);
      assert names[..k] == names[..k - 1] + [names[k - 1]];
    }
  }

  class Collector {
    const buckets: seq<Bucket>
    const region: string
    var snap: map<Bucket, Stats>
    var located: map<string, string>
    /** What every refresh that replaced the snapshot measured. */
    ghost var log: seq<Round<Bucket, Usage>>

    predicate Discovering()
      reads this
    {
      |buckets| == 0
    }

    ghost predicate Valid()
      reads this
    {
      && Remembers(snap, log)
      && if Discovering() then CacheMirrors(located, snap) && OneRegionEach(snap) else located == map[]
    }

    constructor (buckets: seq<Bucket>, region: string)
      ensures Valid() && snap == map[] && located == map[] && log == []
      ensures this.buckets == buckets && this.region == region
    {
      this.buckets, this.region := buckets, region;
      snap, located, log := map[], map[], [];
    }

    /** Lists the buckets and locates the ones the cache does not know; `asked` is whom it asked about. */
    method Discover(names: seq<string>, locate: Locator) returns (found: seq<Bucket>, asked: seq<string>)
      ensures found == Discovered(names, located, locate, region)
      ensures asked == Unlocated(names, located, |names|)
      ensures forall name :: name in asked <==> name in names && name !in located
    {
      UnlocatedAre(names, located, |names|);
      assert names[..|names|] == names;
      found, asked := [], [];
      for i := 0 to |names|
        invariant |found| == i
        invariant forall j :: 0 <= j < i ==> found[j] == Bucket(names[j], RegionOf(located, locate, region, names[j]))
        invariant asked == Unlocated(names, located, i)
      {
        var name := names[i];
        if name in located {
          found := found + [Bucket(name, located[name])];
        } else {
          asked := asked + [name];
          var answer := locate(name);
          var at := region;
          if answer.Some? && answer.value != "" {
            at := answer.value;
          }
          found := found + [Bucket(name, at)];
        }
      }
    }

    /** One slot per bucket, filled with its own measurement. */
    method MeasureAll(found: seq<Bucket>, measure: Gauge) returns (results: array<Result>)
      ensures fresh(results) && results[..] == Results(found, measure)
    {
      results := new Result[|found|](_ => Result(Bucket("", ""), None));
      for i := 0 to |found|
        invariant forall j :: 0 <= j < i ==> results[j] == Result(found[j], measure(found[j]))
      {
        results[i] := Result(found[i], measure(found[i]));
      }
    }

    method Merge(results: array<Result>)
      modifies this`snap
      ensures snap == Merged(old(snap), results[..], results.Length)
    {
      var next: map<Bucket, Stats> := map[];
      for i := 0 to results.Length
        invariant next == Merged(snap, results[..], i)
      {
        var r := results[i];
        if r.usage.Some? {
          next := next[r.bucket := Stats(r.usage.value, true, true)];
          continue;
        }
        var previous := if r.bucket in snap then snap[r.bucket] else NEVER;
        next := next[r.bucket := previous.(up := false)];
      }
      snap := next;
    }

    method RememberRegions(results: array<Result>)
      modifies this`located
      ensures located == Regions(results[..], results.Length)
    {
      var regions: map<string, string> := map[];
      for i := 0 to results.Length
        invariant regions == Regions(results[..], i)
      {
        if results[i].usage.Some? {
          regions := regions[results[i].bucket.name := results[i].bucket.region];
        }
      }
      located := regions;
    }

    /**
     One refresh. Only a failed listing leaves the snapshot alone. Within one
     refresh, asking about a name, or measuring a bucket, has one answer.
     */
    method Refresh(listing: Option<seq<string>>, locate: Locator, measure: Gauge) returns (err: Option<Error>)
      requires Valid()
      modifies this
      ensures Valid()
      ensures buckets == [] && listing.None? ==>
                err == Some(ErrList) && snap == old(snap) && located == old(located) && log == old(log)
      ensures buckets != [] || listing.Some? ==>
                var chosen := if buckets == [] then Discovered(listing.value, old(located), locate, region)
                              else Configured(buckets, region);
                var results := Results(chosen, measure);
                && log == old(log) + [RoundOf(chosen, measure)]
                && snap == Merged(old(snap), results, |results|)
                && (buckets == [] ==> located == Regions(results, |results|))
                && err == if |results| > 0 && NoneMeasured(results)
                          then Some(ErrNoBucketMeasured(|results|)) else None
    {
      var found;
      if Discovering() {
        if listing.None? {
          return Some(ErrList);
        }
        var asked;
        found, asked := Discover(listing.value, locate);
      } else {
        found := Configured(buckets, region);
      }
      var results := MeasureAll(found, measure);
      ghost var all := results[..];
      RemembersStep(snap, log, found, measure);
      log := log + [RoundOf(found, measure)];
      Merge(results);
      if Discovering() {
        DiscoveryKeepsTheCacheMirrored(old(snap), all);
        RememberRegions(results);
      }
      var failed := 0;
      for i := 0 to results.Length
        invariant failed == FailedCount(all, i)
      {
        if results[i].usage.None? {
          failed := failed + 1;
        }
      }
      FailedCountIsAll(all, |all|);
      if failed > 0 && failed == results.Length {
        return Some(ErrNoBucketMeasured(failed));
      }
      err := None;
    }
  }
}
