/**
 The database clusters: a list walk without links, which ends at a short page or
 at the first repeated cluster, and detail lookups that fall back on what the
 previous refresh knew.
 */
module Databases {
  import opened Wrappers
  import opened Sequences
  import opened Decimal
  import opened Histories
  import Paging
  import Filters

  const PER_PAGE: nat := 200

  datatype Cluster = Cluster(id: string, name: string, tags: seq<string>, region: string)

  const ID: Cluster -> string := (c: Cluster) => c.id

  function Admits(f: Filters.Filter): Cluster -> bool {
    (c: Cluster) => f.Matches(c.tags, c.region)
  }

  /** The endpoint: its reply to a request for a page, None when the request fails. */
  type Endpoint = nat -> Option<seq<Cluster>>

  // ----- Where the walk ends, and what it lists -----

  /** The clusters of pages 1 to `n`; a failed page counts as empty. */
  function Pages(server: Endpoint, n: nat): seq<Cluster> {
    if n == 0 then [] else Pages(server, n - 1) + (if server(n).Some? then server(n).value else [])
  }

  /** The walk asks for page `n + 1`: page `n` came, was full, and repeated nothing. */
  ghost predicate GoesOn(server: Endpoint, n: nat) {
    server(n).Some? && |server(n).value| >= PER_PAGE && DistinctKeys(Pages(server, n), ID)
  }

  /** The walk makes exactly `n` requests. */
  ghost predicate EndsAt(server: Endpoint, n: nat) {
    n >= 1 && (forall q :: 1 <= q < n ==> GoesOn(server, q)) && !GoesOn(server, n)
  }

  /** The longest prefix in which no id repeats. */
  ghost predicate IsDistinctPrefix(clusters: seq<Cluster>, length: nat) {
    && length <= |clusters|
    && DistinctKeys(clusters[..length], ID)
    && (length < |clusters| ==> !DistinctKeys(clusters[..length + 1], ID))
  }

  lemma DistinctPrefixIsUnique(clusters: seq<Cluster>, a: nat, b: nat)
    requires IsDistinctPrefix(clusters, a) && IsDistinctPrefix(clusters, b)
    ensures a == b
  {
    PrefixOfDistinct(clusters, if a < b then a + 1 else 0, b);
    PrefixOfDistinct(clusters, if b < a then b + 1 else 0, a);
  }

  lemma PrefixOfDistinct(clusters: seq<Cluster>, a: nat, b: nat)
    requires a <= b <= |clusters| && DistinctKeys(clusters[..b], ID)
    ensures DistinctKeys(clusters[..a], ID)
  {
    assert forall i :: 0 <= i < a ==> clusters[..a][i] == clusters[..b][i];
  }

  /** Of a list, the filter keeps exactly the clusters carrying one of its tags and lying in one of its regions. */
  lemma AdmittedAre(clusters: seq<Cluster>, f: Filters.Filter)
    ensures forall c :: c in Paging.Kept(clusters, Admits(f)) <==>
              && c in clusters
              && (f.tags.None? || exists i :: 0 <= i < |c.tags| && c.tags[i] in f.tags.value)
              && (f.regions.None? || c.region in f.regions.value)
  {
    Paging.KeptAre(clusters, Admits(f));
  }

  // ----- The walk -----

  ghost predicate Seen(clusters: seq<Cluster>, ids: set<string>) {
    forall id :: id in ids <==> Paging.Holds(clusters, ID, id)
  }

  lemma DistinctStep(before: seq<Cluster>, c: Cluster, ids: set<string>)
    requires DistinctKeys(before, ID) && Seen(before, ids)
    ensures DistinctKeys(before + [c], ID) <==> c.id !in ids
    ensures Seen(before + [c], ids + {c.id})
  {
    Paging.HoldsStep(before, c, ID);
    if c.id in ids {
      var i :| 0 <= i < |before| && ID(before[i]) == c.id;
      assert ID((before + [c])[i]) == ID((before + [c])[|before|]);
    } else {
      forall i, j | 0 <= i < j < |before + [c]| ensures ID((before + [c])[i]) != ID((before + [c])[j]) {
        if j == |before| {
          assert ID(before[i]) == ID((before + [c])[i]);
        }
      }
    }
  }

  /** The walk has taken the first `length` of `all`. */
  ghost predicate Taken(all: seq<Cluster>, length: nat, seen: set<string>, next: seq<Cluster>, f: Filters.Filter) {
    && length <= |all|
    && DistinctKeys(all[..length], ID) && Seen(all[..length], seen)
    && next == Paging.Kept(all[..length], Admits(f))
  }

  lemma TakeOne(all: seq<Cluster>, length: nat, seen: set<string>, next: seq<Cluster>, f: Filters.Filter)
    requires Taken(all, length, seen, next, f) && length < |all|
    ensures var c := all[length];
            && (c.id in seen ==> IsDistinctPrefix(all, length) && !DistinctKeys(all, ID))
            && (c.id !in seen ==>
                  Taken(all, length + 1, seen + {c.id},
                        if f.Matches(c.tags, c.region) then next + [c] else next, f))
  {
    var c := all[length];
    assert all[..length + 1] == all[..length] + [c];
    DistinctStep(all[..length], c, seen);
    Paging.KeptStep(all[..length], c, Admits(f));
    if c.id in seen {
      NotDistinctExtends(all, length + 1);
    }
  }

  /** One cluster: a repeat, or recorded and, if the filter matches it, listed. */
  method TakeCluster(c: Cluster, seen: set<string>, next: seq<Cluster>, f: Filters.Filter,
                     ghost all: seq<Cluster>, ghost length: nat)
    returns (seen': set<string>, next': seq<Cluster>, repeated: bool)
    requires Taken(all, length, seen, next, f) && length < |all| && c == all[length]
    ensures repeated ==> seen' == seen && next' == next && IsDistinctPrefix(all, length) && !DistinctKeys(all, ID)
    ensures !repeated ==> Taken(all, length + 1, seen', next', f)
  {
    TakeOne(all, length, seen, next, f);
    if c.id in seen {
      return seen, next, true;
    }
    var matched := f.Match(c.tags, c.region);
    return seen + {c.id}, if matched then next + [c] else next, false;
  }

  /** One page: the clusters up to a repeat, filtered, and whether a repeat ended it. */
  method TakePage(ghost before: seq<Cluster>, page: seq<Cluster>, seen: set<string>, next: seq<Cluster>,
                  f: Filters.Filter)
    returns (seen': set<string>, next': seq<Cluster>, repeated: bool, ghost length: nat)
    requires Taken(before, |before|, seen, next, f)
    ensures Taken(before + page, length, seen', next', f) && IsDistinctPrefix(before + page, length)
    ensures repeated <==> !DistinctKeys(before + page, ID)
    ensures !repeated ==> length == |before + page|
  {
    seen', next', repeated, length := seen, next, false, |before|;
    ghost var all := before + page;
    assert all[..|before|] == before[..|before|];
    for i := 0 to |page|
      invariant length == |before| + i
      invariant Taken(all, length, seen', next', f)
    {
      seen', next', repeated := TakeCluster(page[i], seen', next', f, all, length);
      if repeated {
        return;
      }
      length := length + 1;
    }
    repeated := false;
    assert all[..length] == all;
  }

  lemma NotDistinctExtends(clusters: seq<Cluster>, k: nat)
    requires k <= |clusters| && !DistinctKeys(clusters[..k], ID)
    ensures !DistinctKeys(clusters, ID)
  {
    var i, j :| 0 <= i < j < k && ID(clusters[..k][i]) == ID(clusters[..k][j]);
    assert ID(clusters[i]) == ID(clusters[j]);
  }

  /** Distinct ids drawn from a universe are no more than it has. */
  lemma {:induction false} DistinctFitsUniverse(clusters: seq<Cluster>, universe: set<string>)
    requires DistinctKeys(clusters, ID) && forall c :: c in clusters ==> c.id in universe
    ensures |clusters| <= |universe|
  {
    if clusters != [] {
      var m := |clusters| - 1;
      var last := clusters[m].id;
      forall c | c in clusters[..m] ensures c.id in universe - {last} {
        var i :| 0 <= i < m && clusters[i] == c;
        assert ID(clusters[i]) != ID(clusters[m]);
      }
      DistinctFitsUniverse(clusters[..m], universe - {last});
    }
  }

  /** Every id the endpoint ever serves is in the universe. */
  ghost predicate Draws(server: Endpoint, universe: set<string>) {
    forall n: nat, c :: server(n).Some? && c in server(n).value ==> c.id in universe
  }

  lemma {:induction false} PagesDraw(server: Endpoint, universe: set<string>, n: nat)
    requires Draws(server, universe)
    ensures forall c :: c in Pages(server, n) ==> c.id in universe
  {
    if n > 0 {
      PagesDraw(server, universe, n - 1);
    }
  }

  lemma {:induction false} FullPages(server: Endpoint, n: nat)
    requires forall q :: 1 <= q <= n ==> GoesOn(server, q)
    ensures |Pages(server, n)| >= n * PER_PAGE
  {
    if n > 0 {
      FullPages(server, n - 1);
      assert GoesOn(server, n);
    }
  }

  /** `n` full pages without a repeat need that many clusters: an endpoint that ignores the page is soon found out. */
  lemma RequestsAreBounded(server: Endpoint, universe: set<string>, n: nat)
    requires Draws(server, universe)
    requires forall q :: 1 <= q <= n ==> GoesOn(server, q)
    ensures n <= |universe| / 200
  {
    PagesDraw(server, universe, n);
    FullPages(server, n);
    if n > 0 {
      assert GoesOn(server, n);
      DistinctFitsUniverse(Pages(server, n), universe);
    }
  }

  /**
   listClusters: terminates whatever the endpoint does with the page number, as
   long as its ids come from some finite universe, and lists the filtered clusters
   up to the first repeat. A failed request fails the walk.
   */
  method ListClusters(server: Endpoint, f: Filters.Filter, ghost universe: set<string>)
    returns (clusters: Option<seq<Cluster>>, requests: nat)
    requires Draws(server, universe)
    ensures EndsAt(server, requests)
    ensures requests <= |universe| / 200 + 1
    ensures clusters.None? <==> server(requests).None?
    ensures clusters.Some? ==> exists length: nat ::
              && IsDistinctPrefix(Pages(server, requests), length)
              && clusters.value == Paging.Kept(Pages(server, requests)[..length], Admits(f))
  {
    var next: seq<Cluster> := [];
    var seen: set<string> := {};
    requests := 0;
    while true
      invariant forall q :: 1 <= q <= requests ==> GoesOn(server, q)
      invariant Taken(Pages(server, requests), |Pages(server, requests)|, seen, next, f)
      decreases |universe| / PER_PAGE - requests
    {
      RequestsAreBounded(server, universe, requests);
      requests := requests + 1;
      var reply := server(requests);
      if reply.None? {
        return None, requests;
      }
      ghost var before := Pages(server, requests - 1);
      assert Pages(server, requests) == before + reply.value;
      var repeated;
      ghost var length;
      seen, next, repeated, length := TakePage(before, reply.value, seen, next, f);
      if repeated || |reply.value| < PER_PAGE {
        return Some(next), requests;
      }
      assert GoesOn(server, requests);
      RequestsAreBounded(server, universe, requests);
    }
  }

  // ----- Endpoints -----

  /** An endpoint that pages: page `n` is the n-th two hundred of the list. */
  function PagedEndpoint(list: seq<Cluster>): Endpoint {
    (n: nat) =>
      var from := if n == 0 then 0 else (n - 1) * PER_PAGE;
      if from >= |list| then Some([])
      else Some(list[from..if from + PER_PAGE < |list| then from + PER_PAGE else |list|])
  }

  lemma {:induction false} PagedPages(list: seq<Cluster>, n: nat)
    ensures Pages(PagedEndpoint(list), n) == list[..if n * PER_PAGE < |list| then n * PER_PAGE else |list|]
  {
    if n > 0 {
      PagedPages(list, n - 1);
    }
  }

  /** It is walked once through, and every cluster is listed. */
  lemma PagedEndpointIsListedWhole(list: seq<Cluster>)
    requires DistinctKeys(list, ID)
    ensures var n := |list| / PER_PAGE + 1;
            EndsAt(PagedEndpoint(list), n) && Pages(PagedEndpoint(list), n) == list && IsDistinctPrefix(list, |list|)
  {
    var server := PagedEndpoint(list);
    var n := |list| / PER_PAGE + 1;
    PagedPages(list, n);
    assert list[..|list|] == list;
    forall q | 1 <= q < n ensures GoesOn(server, q) {
      PagedPages(list, q);
    }
    assert |server(n).value| < PER_PAGE;
  }

  function UnpagedEndpoint(list: seq<Cluster>): Endpoint {
    (_: nat) => Some(list)
  }

  /** An endpoint that ignores the page number costs one more request, if its list fills a page at all. */
  lemma UnpagedEndpointIsListedWhole(list: seq<Cluster>)
    requires DistinctKeys(list, ID)
    ensures var server := UnpagedEndpoint(list);
            var n := if |list| < PER_PAGE then 1 else 2;
            && EndsAt(server, n)
            && IsDistinctPrefix(Pages(server, n), |list|) && Pages(server, n)[..|list|] == list
  {
    var server := UnpagedEndpoint(list);
    assert Pages(server, 0) == [];
    assert Pages(server, 1) == list && list[..|list|] == list;
    if |list| >= PER_PAGE {
      assert GoesOn(server, 1) && server(2) == Some(list);
      assert ID(list[0]) == list[0].id;
      ShiftedListIsCutOff(server, 1);
    }
  }

  lemma RepeatEndsIt(before: seq<Cluster>, page: seq<Cluster>)
    requires DistinctKeys(before, ID) && page != [] && Paging.Holds(before, ID, page[0].id)
    ensures !DistinctKeys(before + page, ID) && IsDistinctPrefix(before + page, |before|)
    ensures (before + page)[..|before|] == before
  {
    var i :| 0 <= i < |before| && ID(before[i]) == page[0].id;
    var all := before + page;
    assert all[..|before|] == before;
    assert ID(all[..|before| + 1][i]) == ID(all[..|before| + 1][|before|]);
    NotDistinctExtends(all, |before| + 1);
  }

  /**
   The price of ending at a repeat: when a page starts with a cluster of an
   earlier one, as it does when a cluster is created between the two requests,
   whatever follows on it is not listed, however much is new.
   */
  lemma ShiftedListIsCutOff(server: Endpoint, n: nat)
    requires n >= 1 && forall q :: 1 <= q <= n ==> GoesOn(server, q)
    requires server(n + 1).Some? && server(n + 1).value != []
    requires Paging.Holds(Pages(server, n), ID, server(n + 1).value[0].id)
    ensures EndsAt(server, n + 1)
    ensures IsDistinctPrefix(Pages(server, n + 1), |Pages(server, n)|)
    ensures Pages(server, n + 1)[..|Pages(server, n)|] == Pages(server, n)
  {
    assert GoesOn(server, n);
    RepeatEndsIt(Pages(server, n), server(n + 1).value);
  }

  // ----- What ending at a repeat costs -----

  lemma {:induction false} PagesExtend(server: Endpoint, n: nat, m: nat)
    requires n <= m
    ensures Pages(server, n) <= Pages(server, m)
  {
    if n < m {
      PagesExtend(server, n, m - 1);
    }
  }

  /**
   Whatever the endpoint: of everything its first `m` pages hold, pages the walk
   never asked for included, the walk lists each admitted cluster once exactly
   when no admitted cluster after the first repeat is new.
   */
  lemma ListedWholeExactlyWhenNothingNewFollows(server: Endpoint, f: Filters.Filter, n: nat, m: nat, length: nat)
    requires EndsAt(server, n) && n <= m
    requires IsDistinctPrefix(Pages(server, n), length)
    ensures Paging.Kept(Pages(server, n)[..length], Admits(f)) ==
            Paging.Kept(Paging.FirstOccurrences(Pages(server, m), ID), Admits(f)) <==>
              Paging.NoneNew(Pages(server, m), ID, Admits(f), length, |Pages(server, m)|)
  {
    var all := Pages(server, m);
    PagesExtend(server, n, m);
    assert all[..length] == Pages(server, n)[..length];
    assert all[..|all|] == all;
    Paging.NewFollows(all, ID, Admits(f), length, |all|);
  }

  /** The list was one longer by the time its second page was asked for: that page starts one cluster early. */
  function ShiftedEndpoint(list: seq<Cluster>): Endpoint
    requires |list| > PER_PAGE
  {
    (n: nat) => if n <= 1 then Some(list[..PER_PAGE]) else Some(list[PER_PAGE - 1..])
  }

  /** Then the walk ends at the second page, and every cluster beyond the first page is served and never listed. */
  lemma ShiftedListLosesClusters(list: seq<Cluster>, f: Filters.Filter, i: nat)
    requires DistinctKeys(list, ID) && PER_PAGE <= i < |list|
    ensures var server := ShiftedEndpoint(list);
            && EndsAt(server, 2) && IsDistinctPrefix(Pages(server, 2), PER_PAGE)
            && list[i] in server(2).value
            && list[i] !in Paging.Kept(Pages(server, 2)[..PER_PAGE], Admits(f))
  {
    var server := ShiftedEndpoint(list);
    var first, second := list[..PER_PAGE], list[PER_PAGE - 1..];
    assert Pages(server, 0) == [];
    assert Pages(server, 1) == first;
    PrefixOfDistinct(list, PER_PAGE, |list|);
    assert list[..|list|] == list;
    assert GoesOn(server, 1);
    assert second[0] == first[PER_PAGE - 1] && ID(first[PER_PAGE - 1]) == second[0].id;
    ShiftedListIsCutOff(server, 1);
    assert second[i - (PER_PAGE - 1)] == list[i];
    Paging.KeptAre(first, Admits(f));
    assert forall j :: 0 <= j < PER_PAGE ==> ID(first[j]) != ID(list[i]);
  }

  /** A fleet of as many clusters as one likes. */
  function Fleet(count: nat): seq<Cluster> {
    seq(count, i requires 0 <= i < count => Cluster(Sprint(i), "", [], ""))
  }

  /** The smallest such list: 201 clusters, the last of which is lost to one created between the two requests. */
  lemma OneClusterIsLost(f: Filters.Filter)
    ensures var list := Fleet(PER_PAGE + 1);
            var server := ShiftedEndpoint(list);
            && EndsAt(server, 2) && IsDistinctPrefix(Pages(server, 2), PER_PAGE)
            && list[PER_PAGE] in server(2).value
            && list[PER_PAGE] !in Paging.Kept(Pages(server, 2)[..PER_PAGE], Admits(f))
  {
    var list := Fleet(PER_PAGE + 1);
    forall i, j | 0 <= i < j < |list| ensures ID(list[i]) != ID(list[j]) {
      if Sprint(i) == Sprint(j) {
        SprintInjective(i, j);
      }
    }
    ShiftedListLosesClusters(list, f, PER_PAGE);
  }

  // ----- Details carried forward -----

  /** A cluster's replicas and backups; `known` separates "none" from "never looked up". */
  datatype Details = Details(known: bool, replicas: seq<string>, lastBackup: Option<int>)

  const UNKNOWN := Details(false, [], None)

  datatype Entry = Entry(cluster: Cluster, details: Details)

  /** A detail lookup: found, failed, or failed because the refresh's context is done. */
  datatype Lookup = Found(details: Details) | Failed(done: bool)

  datatype Error = ErrList | ErrDone

  function PreviousDetails(snap: seq<Entry>): map<string, Details> {
    if snap == [] then map[]
    else PreviousDetails(snap[..|snap| - 1])[snap[|snap| - 1].cluster.id := snap[|snap| - 1].details]
  }

  /** What the new snapshot says of a cluster: what was found, or what was last known. */
  function DetailsOf(ask: bool, lookup: string -> Lookup, previous: map<string, Details>, c: Cluster): Details {
    if !ask then UNKNOWN
    else
      match lookup(c.id)
      case Found(details) => details
      case Failed(_) => if c.id in previous then previous[c.id] else UNKNOWN
  }

  predicate RunsOut(ask: bool, lookup: string -> Lookup, c: Cluster) {
    ask && lookup(c.id) == Failed(true)
  }

  /** The details of every listed cluster, or None when time ran out. */
  method LookUp(clusters: seq<Cluster>, ask: bool, lookup: string -> Lookup, previous: map<string, Details>)
    returns (next: Option<seq<Entry>>)
    ensures next.None? <==> exists c :: c in clusters && RunsOut(ask, lookup, c)
    ensures next.None? ==> ask && exists c :: c in clusters && lookup(c.id) == Failed(true)
    ensures ask && (exists c :: c in clusters && lookup(c.id) == Failed(true)) ==> next.None?
    ensures next.Some? ==>
              && |next.value| == |clusters|
              && forall j :: 0 <= j < |clusters| ==>
                   next.value[j] == Entry(clusters[j], DetailsOf(ask, lookup, previous, clusters[j]))
  {
    var entries: seq<Entry> := [];
    for i := 0 to |clusters|
      invariant |entries| == i
      invariant forall j :: 0 <= j < i ==>
                  entries[j] == Entry(clusters[j], DetailsOf(ask, lookup, previous, clusters[j]))
      invariant forall j :: 0 <= j < i ==> !RunsOut(ask, lookup, clusters[j])
    {
      var details := UNKNOWN;
      if ask {
        var found := lookup(clusters[i].id);
        if found.Found? {
          details := found.details;
        } else if found.done {
          assert RunsOut(ask, lookup, clusters[i]) && clusters[i] in clusters;
          return None;
        } else if clusters[i].id in previous {
          details := previous[clusters[i].id];
        }
      }
      entries := entries + [Entry(clusters[i], details)];
    }
    next := Some(entries);
  }

  // ----- Over a run of refreshes -----

  /** What the lookups of one refresh found, by listed cluster. */
  ghost function RoundOf(listed: seq<Cluster>, ask: bool, lookup: string -> Lookup): Round<string, Details> {
    map id | id in (set i | 0 <= i < |listed| :: listed[i].id) ::
      if ask && lookup(id).Found? then Some(lookup(id).details) else None
  }

  ghost function Known(log: seq<Round<string, Details>>, id: string): Details {
    if LastKnown(log, id).Some? then LastKnown(log, id).value else UNKNOWN
  }

  predicate Lists(snap: seq<Entry>, id: string) {
    exists i :: 0 <= i < |snap| && snap[i].cluster.id == id
  }

  /** Every listed cluster has the details of the last lookup that succeeded since it was last missing. */
  ghost predicate Remembers(snap: seq<Entry>, log: seq<Round<string, Details>>, ask: bool) {
    && (!ask ==> forall id :: LastKnown(log, id).None?)
    && (forall id :: Lists(snap, id) <==> log != [] && id in log[|log| - 1])
    && (forall i :: 0 <= i < |snap| ==> snap[i].details == Known(log, snap[i].cluster.id))
  }

  lemma {:induction false} PreviousAreKnown(snap: seq<Entry>, log: seq<Round<string, Details>>)
    requires forall i :: 0 <= i < |snap| ==> snap[i].details == Known(log, snap[i].cluster.id)
    ensures forall id :: id in PreviousDetails(snap) <==> Lists(snap, id)
    ensures forall id :: id in PreviousDetails(snap) ==> PreviousDetails(snap)[id] == Known(log, id)
  {
    if snap != [] {
      var m := |snap| - 1;
      PreviousAreKnown(snap[..m], log);
      forall id ensures Lists(snap, id) <==> Lists(snap[..m], id) || snap[m].cluster.id == id {
        if i :| 0 <= i < m && snap[..m][i].cluster.id == id {
          assert snap[i].cluster.id == id;
        }
        if i :| 0 <= i < |snap| && snap[i].cluster.id == id {
          assert i < m ==> snap[..m][i].cluster.id == id;
        }
      }
    }
  }

  /** The clusters listed, each with what was found about it or what the snapshot said before. */
  ghost predicate Reports(next: seq<Entry>, listed: seq<Cluster>, ask: bool, lookup: string -> Lookup,
                          snap: seq<Entry>)
  {
    && |next| == |listed|
    && forall i :: 0 <= i < |listed| ==>
         next[i] == Entry(listed[i], DetailsOf(ask, lookup, PreviousDetails(snap), listed[i]))
  }

  /** One refresh keeps every cluster's details in step with the whole history of lookups. */
  lemma RemembersStep(snap: seq<Entry>, log: seq<Round<string, Details>>, next: seq<Entry>, listed: seq<Cluster>,
                      ask: bool, lookup: string -> Lookup)
    requires Remembers(snap, log, ask) && Reports(next, listed, ask, lookup, snap)
    ensures Remembers(next, log + [RoundOf(listed, ask, lookup)], ask)
  {
    var round := RoundOf(listed, ask, lookup);
    PreviousAreKnown(snap, log);
    forall id ensures Lists(next, id) <==> id in round {
      if i :| 0 <= i < |next| && next[i].cluster.id == id {
        assert listed[i].id == id;
      }
      if id in round {
        var i :| 0 <= i < |listed| && listed[i].id == id;
        assert next[i].cluster.id == id;
      }
    }
    if !ask {
      forall id ensures LastKnown(log + [round], id).None? {
        LastKnownStep(log, round, id);
      }
    }
    forall i | 0 <= i < |next| ensures next[i].details == Known(log + [round], next[i].cluster.id) {
      var id := listed[i].id;
      assert Lists(next, id);
      LastKnownStep(log, round, id);
    }
  }

  class Collector {
    const ask: bool
    const filter: Filters.Filter
    var snap: seq<Entry>
    /** What every refresh that replaced the snapshot looked up. */
    ghost var log: seq<Round<string, Details>>

    ghost predicate Valid()
      reads this
    {
      Remembers(snap, log, ask)
    }

    constructor (ask: bool, filter: Filters.Filter)
      ensures Valid()
      ensures this.ask == ask && this.filter == filter && snap == [] && log == []
    {
      this.ask, this.filter, snap, log := ask, filter, [], [];
    }

    /**
     One refresh. A failed listing, or a lookup that failed because time ran out,
     leaves the snapshot alone; any other failed lookup costs its cluster nothing
     but freshness.
     */
    method Refresh(server: Endpoint, lookup: string -> Lookup, ghost universe: set<string>) returns (err: Option<Error>)
      requires Draws(server, universe) && Valid()
      modifies this
      ensures Valid()
      ensures err.Some? ==> snap == old(snap) && log == old(log)
      ensures forall n: nat, length: nat ::
                EndsAt(server, n) && IsDistinctPrefix(Pages(server, n), length) ==>
                  var listed := Paging.Kept(Pages(server, n)[..length], Admits(filter));
                  && (err == Some(ErrList) <==> server(n).None?)
                  && (err == Some(ErrDone) <==> server(n).Some? && exists c :: c in listed && RunsOut(ask, lookup, c))
                  && (err == None ==>
                        && Reports(snap, listed, ask, lookup, old(snap))
                        && log == old(log) + [RoundOf(listed, ask, lookup)])
    {
      var listed, requests := ListClusters(server, filter, universe);
      forall n: nat | EndsAt(server, n) ensures n == requests {
        EndIsUnique(server, n, requests);
      }
      if listed.None? {
        return Some(ErrList);
      }
      ghost var length: nat :| IsDistinctPrefix(Pages(server, requests), length) &&
                               listed.value == Paging.Kept(Pages(server, requests)[..length], Admits(filter));
      forall other: nat | IsDistinctPrefix(Pages(server, requests), other) ensures other == length {
        DistinctPrefixIsUnique(Pages(server, requests), other, length);
      }
      var next := LookUp(listed.value, ask, lookup, PreviousDetails(snap));
      if next.None? {
        return Some(ErrDone);
      }
      RemembersStep(snap, log, next.value, listed.value, ask, lookup);
      snap := next.value;
      log := log + [RoundOf(listed.value, ask, lookup)];
      err := None;
    }
  }

  lemma EndIsUnique(server: Endpoint, a: nat, b: nat)
    requires EndsAt(server, a) && EndsAt(server, b)
    ensures a == b
  {
  }
}
