/**
 The projects collector: resources counted by type in one canonical order, and a
 snapshot in which a project that could not be counted keeps its last counts.
 */
module Projects {
  import opened Wrappers
  import opened Sequences
  import opened Histories
  import opened Urns
  import Paging

  datatype TypeCount = TypeCount(kind: string, count: nat)

  // ----- Counting -----

  const TYPE: string -> string := (urn: string) => UrnType(urn)

  /** How many of the first `n` items are of this kind. */
  function CountUpTo(items: seq<string>, n: nat, of: string -> string, kind: string): nat
    requires n <= |items|
  {
    if n == 0 then 0 else CountUpTo(items, n - 1, of, kind) + (if of(items[n - 1]) == kind then 1 else 0)
  }

  function CountOf(urns: seq<string>, kind: string): nat {
    CountUpTo(urns, |urns|, TYPE, kind)
  }

  ghost predicate Sorted(counts: seq<TypeCount>) {
    forall i, j :: 0 <= i < j < |counts| ==> Less(counts[i].kind, counts[j].kind)
  }

  /** Every count is positive and right, and no type with a resource is missing. */
  ghost predicate Complete(counts: seq<TypeCount>, urns: seq<string>) {
    && (forall i :: 0 <= i < |counts| ==> counts[i].count > 0 && counts[i].count == CountOf(urns, counts[i].kind))
    && (forall kind :: CountOf(urns, kind) > 0 ==> exists i :: 0 <= i < |counts| && counts[i].kind == kind)
  }

  ghost predicate Canonical(counts: seq<TypeCount>, urns: seq<string>) {
    Sorted(counts) && Complete(counts, urns)
  }

  /** Two strictly sorted lists of the same entries are one list. */
  lemma {:induction false} SortedIsUnique(a: seq<TypeCount>, b: seq<TypeCount>)
    requires Sorted(a) && Sorted(b)
    requires forall c :: c in a <==> c in b
    ensures a == b
  {
    assert a != [] ==> a[0] in b;
    assert b != [] ==> b[0] in a;
    if a != [] {
      FirstIsLeast(a, b);
      forall c ensures c in a[1..] <==> c in b[1..] {
        LessIsIrreflexive(a[0].kind);
        assert c in a <==> c == a[0] || c in a[1..];
        assert c in b <==> c == b[0] || c in b[1..];
      }
      SortedIsUnique(a[1..], b[1..]);
    }
  }

  lemma FirstIsLeast(a: seq<TypeCount>, b: seq<TypeCount>)
    requires Sorted(a) && Sorted(b) && a != [] && b != []
    requires forall c :: c in a <==> c in b
    ensures a[0] == b[0]
  {
    assert a[0] in b && b[0] in a;
    var i :| 0 <= i < |b| && b[i] == a[0];
    var j :| 0 <= j < |a| && a[j] == b[0];
    if i > 0 && j > 0 {
      LessIsTransitive(a[0].kind, a[j].kind, b[i].kind);
      LessIsIrreflexive(a[0].kind);
    }
  }

  /**
   The counts depend on nothing but how many resources of each type there are:
   not on the order they were served in, nor on the order a map is walked in.
   */
  lemma CountsAreCanonical(a: seq<TypeCount>, b: seq<TypeCount>, urns: seq<string>, others: seq<string>)
    requires Canonical(a, urns) && Canonical(b, others)
    requires multiset(urns) == multiset(others)
    ensures a == b
  {
    forall kind ensures CountOf(urns, kind) == CountOf(others, kind) {
      CountsIgnoreOrder(urns, others, TYPE, kind);
    }
    SameEntries(a, b, urns, others);
    SameEntries(b, a, others, urns);
    SortedIsUnique(a, b);
  }

  lemma SameEntries(a: seq<TypeCount>, b: seq<TypeCount>, urns: seq<string>, others: seq<string>)
    requires Complete(a, urns) && Complete(b, others)
    requires forall kind :: CountOf(urns, kind) == CountOf(others, kind)
    ensures forall c :: c in a ==> c in b
  {
    forall c | c in a ensures c in b {
      var i :| 0 <= i < |a| && a[i] == c;
      assert CountOf(others, c.kind) > 0;
      var j :| 0 <= j < |b| && b[j].kind == c.kind;
      assert b[j] == c;
    }
  }

  lemma {:induction false} CountsIgnoreOrder(
      items: seq<string>, others: seq<string>, of: string -> string, kind: string)
    requires multiset(items) == multiset(others)
    ensures CountUpTo(items, |items|, of, kind) == CountUpTo(others, |others|, of, kind)
    decreases |items|
  {
    assert |items| == |multiset(items)| == |multiset(others)| == |others|;
    if items != [] {
      var k := Find(others, items[0]);
      Removed(items, 0);
      Removed(others, k);
      CountsIgnoreOrder(Without(items, 0), Without(others, k), of, kind);
      CountWithout(items, 0, |items|, of, kind);
      CountWithout(others, k, |others|, of, kind);
    }
  }

  lemma Find(items: seq<string>, item: string) returns (k: nat)
    requires item in multiset(items)
    ensures k < |items| && items[k] == item
  {
    k :| 0 <= k < |items| && items[k] == item;
  }

  function Without<T>(s: seq<T>, k: nat): (r: seq<T>)
    requires k < |s|
    ensures |r| == |s| - 1
  {
    s[..k] + s[k + 1..]
  }

  lemma Removed(items: seq<string>, k: nat)
    requires k < |items|
    ensures multiset(Without(items, k)) == multiset(items) - multiset{items[k]}
  {
    assert items == items[..k] + [items[k]] + items[k + 1..];
  }

  lemma {:induction false} CountWithout(items: seq<string>, k: nat, n: nat, of: string -> string, kind: string)
    requires k < |items| && n <= |items|
    ensures n <= k ==> CountUpTo(Without(items, k), n, of, kind) == CountUpTo(items, n, of, kind)
    ensures n > k ==>
              CountUpTo(items, n, of, kind) ==
              CountUpTo(Without(items, k), n - 1, of, kind) + (if of(items[k]) == kind then 1 else 0)
  {
    if n > 0 {
      CountWithout(items, k, n - 1, of, kind);
    }
  }

  /** The first `k` counts added up. */
  function SumUpTo(counts: seq<TypeCount>, k: nat): nat
    requires k <= |counts|
  {
    if k == 0 then 0 else SumUpTo(counts, k - 1) + counts[k - 1].count
  }

  function Sum(counts: seq<TypeCount>): nat {
    SumUpTo(counts, |counts|)
  }

  ghost predicate DistinctKinds(counts: seq<TypeCount>) {
    DistinctKeys(counts, (c: TypeCount) => c.kind)
  }

  /** How many of the first `n` items are of one of the first `k` types. */
  ghost function Covered(counts: seq<TypeCount>, k: nat, items: seq<string>, n: nat, of: string -> string): nat
    requires k <= |counts| && n <= |items|
  {
    if k == 0 then 0 else Covered(counts, k - 1, items, n, of) + CountUpTo(items, n, of, counts[k - 1].kind)
  }

  ghost predicate Listed(counts: seq<TypeCount>, k: nat, kind: string)
    requires k <= |counts|
  {
    exists i :: 0 <= i < k && counts[i].kind == kind
  }

  /** One more item counts once, under its own kind and no other. */
  lemma {:induction false} CoveredStep(counts: seq<TypeCount>, k: nat, items: seq<string>, n: nat, of: string -> string)
    requires DistinctKinds(counts) && k <= |counts| && 0 < n <= |items|
    ensures Covered(counts, k, items, n, of) ==
            Covered(counts, k, items, n - 1, of) + (if Listed(counts, k, of(items[n - 1])) then 1 else 0)
  {
    if k > 0 {
      var kind := of(items[n - 1]);
      CoveredStep(counts, k - 1, items, n, of);
      if counts[k - 1].kind == kind {
        assert Listed(counts, k, kind);
        assert !Listed(counts, k - 1, kind);
      } else if Listed(counts, k, kind) {
        assert Listed(counts, k - 1, kind);
      }
    }
  }

  lemma {:induction false} AllCovered(counts: seq<TypeCount>, items: seq<string>, n: nat, of: string -> string)
    requires DistinctKinds(counts) && n <= |items|
    requires forall i :: 0 <= i < n ==> Listed(counts, |counts|, of(items[i]))
    ensures Covered(counts, |counts|, items, n, of) == n
  {
    if n == 0 {
      NothingCovered(counts, |counts|, items, of);
    } else {
      AllCovered(counts, items, n - 1, of);
      CoveredStep(counts, |counts|, items, n, of);
    }
  }

  lemma {:induction false} NothingCovered(counts: seq<TypeCount>, k: nat, items: seq<string>, of: string -> string)
    requires k <= |counts|
    ensures Covered(counts, k, items, 0, of) == 0
  {
    if k > 0 {
      NothingCovered(counts, k - 1, items, of);
    }
  }

  lemma {:induction false} SumIsCovered(counts: seq<TypeCount>, k: nat, urns: seq<string>)
    requires Complete(counts, urns) && k <= |counts|
    ensures SumUpTo(counts, k) == Covered(counts, k, urns, |urns|, TYPE)
  {
    if k > 0 {
      SumIsCovered(counts, k - 1, urns);
    }
  }

  lemma {:induction false} CountedOnce(items: seq<string>, n: nat, of: string -> string, i: nat)
    requires i < n <= |items|
    ensures CountUpTo(items, n, of, of(items[i])) > 0
  {
    if i < n - 1 {
      CountedOnce(items, n - 1, of, i);
    }
  }

  /** Nothing is lost or counted twice: the counts add up to the number of resources. */
  lemma CountsAddUp(counts: seq<TypeCount>, urns: seq<string>)
    requires Canonical(counts, urns)
    ensures Sum(counts) == |urns|
  {
    SortedIsDistinct(counts);
    forall i | 0 <= i < |urns| ensures Listed(counts, |counts|, TYPE(urns[i])) {
      CountedOnce(urns, |urns|, TYPE, i);
      assert CountOf(urns, TYPE(urns[i])) > 0;
    }
    AllCovered(counts, urns, |urns|, TYPE);
    SumIsCovered(counts, |counts|, urns);
  }

  lemma SortedIsDistinct(counts: seq<TypeCount>)
    requires Sorted(counts)
    ensures DistinctKinds(counts)
  {
    forall i, j | 0 <= i < j < |counts| ensures counts[i].kind != counts[j].kind {
      LessIsIrreflexive(counts[i].kind);
    }
  }

  // ----- What is counted -----

  /** The resources of this type. */
  ghost function OfType(urns: seq<string>, kind: string): set<nat> {
    set j: nat | j < |urns| && UrnType(urns[j]) == kind
  }

  lemma {:induction false} CountIsTheirNumber(items: seq<string>, n: nat, of: string -> string, kind: string)
    requires n <= |items|
    ensures CountUpTo(items, n, of, kind) == |set j: nat | j < n && of(items[j]) == kind|
  {
    var counted := set j: nat | j < n && of(items[j]) == kind;
    if n == 0 {
      assert counted == {};
    } else {
      CountIsTheirNumber(items, n - 1, of, kind);
      var before := set j: nat | j < n - 1 && of(items[j]) == kind;
      assert counted == before + if of(items[n - 1]) == kind then {n - 1} else {};
    }
  }

  lemma CountOfIsTheirNumber(urns: seq<string>, kind: string)
    ensures CountOf(urns, kind) == |OfType(urns, kind)|
  {
    CountIsTheirNumber(urns, |urns|, TYPE, kind);
    assert OfType(urns, kind) == set j: nat | j < |urns| && TYPE(urns[j]) == kind;
  }

  /** The entry says how many resources there are of its type. */
  ghost predicate Says(c: TypeCount, urns: seq<string>) {
    c.count == |OfType(urns, c.kind)|
  }

  /** A resource named `do:<type>:<id>` is counted under that type, along with all others of it. */
  lemma UrnIsCounted(counts: seq<TypeCount>, urns: seq<string>, kind: string, id: string)
    requires Canonical(counts, urns)
    requires kind != "" && (forall j :: 0 <= j < |kind| ==> kind[j] != ':') && "do:" + kind + ":" + id in urns
    ensures exists c :: c in counts && c.kind == kind && c.count > 0 && Says(c, urns)
  {
    TypeOfAUrn(kind, id);
    var i: nat :| i < |urns| && urns[i] == "do:" + kind + ":" + id;
    assert TYPE(urns[i]) == kind;
    CountedOnce(urns, |urns|, TYPE, i);
    assert CountOf(urns, kind) > 0;
    var k :| 0 <= k < |counts| && counts[k].kind == kind;
    CountOfIsTheirNumber(urns, kind);
    assert counts[k] in counts && Says(counts[k], urns);
  }

  // ----- countResources -----

  method Tally(urns: seq<string>) returns (byType: map<string, nat>)
    ensures forall kind :: kind in byType <==> CountOf(urns, kind) > 0
    ensures forall kind :: kind in byType ==> byType[kind] == CountOf(urns, kind)
  {
    byType := map[];
    for i := 0 to |urns|
      invariant forall kind :: kind in byType <==> CountUpTo(urns, i, TYPE, kind) > 0
      invariant forall kind :: kind in byType ==> byType[kind] == CountUpTo(urns, i, TYPE, kind)
    {
      var kind := TYPE(urns[i]);
      byType := byType[kind := (if kind in byType then byType[kind] else 0) + 1];
    }
  }

  /** The entries of the tally, in whatever order the map is walked. */
  method Entries(byType: map<string, nat>) returns (counts: seq<TypeCount>)
    ensures DistinctKinds(counts)
    ensures forall c :: c in counts <==> c.kind in byType && byType[c.kind] == c.count
  {
    counts := [];
    var rest := byType.Keys;
    while rest != {}
      invariant rest <= byType.Keys
      invariant DistinctKinds(counts)
      invariant forall c :: c in counts <==> c.kind in byType && c.kind !in rest && byType[c.kind] == c.count
      decreases rest
    {
      var kind :| kind in rest;
      forall i | 0 <= i < |counts| ensures counts[i].kind != kind {
        assert counts[i] in counts;
      }
      counts := counts + [TypeCount(kind, byType[kind])];
      rest := rest - {kind};
    }
  }

  /** Where an entry belongs in a sorted list. */
  method Place(sorted: seq<TypeCount>, c: TypeCount) returns (at: nat)
    requires Sorted(sorted)
    ensures at <= |sorted|
    ensures forall i :: 0 <= i < at ==> Less(sorted[i].kind, c.kind)
    ensures forall i :: at <= i < |sorted| ==> !Less(sorted[i].kind, c.kind)
  {
    at := 0;
    while at < |sorted| && Less(sorted[at].kind, c.kind)
      invariant at <= |sorted|
      invariant forall i :: 0 <= i < at ==> Less(sorted[i].kind, c.kind)
    {
      at := at + 1;
    }
    forall i | at <= i < |sorted| ensures !Less(sorted[i].kind, c.kind) {
      if i > at && Less(sorted[i].kind, c.kind) {
        LessIsTransitive(sorted[at].kind, sorted[i].kind, c.kind);
      }
    }
  }

  lemma PlacedIsSorted(sorted: seq<TypeCount>, c: TypeCount, at: nat)
    requires Sorted(sorted) && at <= |sorted|
    requires forall i :: 0 <= i < |sorted| ==> sorted[i].kind != c.kind
    requires forall i :: 0 <= i < at ==> Less(sorted[i].kind, c.kind)
    requires forall i :: at <= i < |sorted| ==> !Less(sorted[i].kind, c.kind)
    ensures Sorted(sorted[..at] + [c] + sorted[at..])
  {
    forall i | at <= i < |sorted| ensures Less(c.kind, sorted[i].kind) {
      LessIsTotal(c.kind, sorted[i].kind);
    }
  }

  /** Sorting by type, with the contract of sort.Slice on distinct keys: the same entries, in order. */
  method SortByType(counts: seq<TypeCount>) returns (sorted: seq<TypeCount>)
    requires DistinctKinds(counts)
    ensures Sorted(sorted)
    ensures forall c :: c in sorted <==> c in counts
  {
    sorted := [];
    for i := 0 to |counts|
      invariant Sorted(sorted)
      invariant forall c :: c in sorted <==> c in counts[..i]
    {
      var c := counts[i];
      forall j | 0 <= j < |sorted| ensures sorted[j].kind != c.kind {
        assert sorted[j] in counts[..i];
        var k :| 0 <= k < i && counts[k] == sorted[j];
        assert counts[k].kind != counts[i].kind;
      }
      var at := Place(sorted, c);
      PlacedIsSorted(sorted, c, at);
      assert counts[..i + 1] == counts[..i] + [c];
      assert sorted == sorted[..at] + sorted[at..];
      sorted := sorted[..at] + [c] + sorted[at..];
    }
    assert counts[..|counts|] == counts;
  }

  /** The counts of a project's resources: positive, sorted by type, adding up to all of them. */
  method CountResources(urns: seq<string>) returns (counts: seq<TypeCount>)
    ensures Canonical(counts, urns)
    ensures forall i :: 0 <= i < |counts| ==> Says(counts[i], urns)
    ensures Sum(counts) == |urns|
  {
    var byType := Tally(urns);
    var listed := Entries(byType);
    counts := SortByType(listed);
    forall i | 0 <= i < |counts| ensures counts[i].count > 0 && counts[i].count == CountOf(urns, counts[i].kind) {
      assert counts[i] in listed;
    }
    forall kind | CountOf(urns, kind) > 0 ensures exists i :: 0 <= i < |counts| && counts[i].kind == kind {
      assert TypeCount(kind, byType[kind]) in counts;
    }
    forall i | 0 <= i < |counts| ensures Says(counts[i], urns) {
      CountOfIsTheirNumber(urns, counts[i].kind);
    }
    CountsAddUp(counts, urns);
  }

  // ----- The collector -----

  datatype Info = Info(id: string, name: string, purpose: string, environment: string, isDefault: bool)

  /** `known` says the counts come from a lookup that succeeded, this refresh's or an earlier one's. */
  datatype Project = Project(info: Info, counts: seq<TypeCount>, known: bool)

  datatype Error = ErrList | ErrNoProjectMeasured(attempted: nat)

  const ID: Info -> string := (p: Info) => p.id
  const URN: string -> string := (urn: string) => urn

  /** The walks of the projects' resources, one per project id. */
  datatype Resources = Resources(server: string -> Paging.Server<string>, done: string -> nat -> bool)
  {
    /** Every project's walk comes to an end. */
    ghost predicate End(bounds: string -> nat) {
      forall id :: Paging.Ends(server(id), done(id), 0, 0, bounds(id))
    }

    /** The distinct URNs of a project, in the order served, or None when the walk fails. */
    ghost function Urns(id: string, bound: nat): Option<seq<string>>
      requires Paging.Ends(server(id), done(id), 0, 0, bound)
    {
      var served := Paging.Served(server(id), done(id), 0, 0, bound);
      if served.None? then None else Some(Paging.FirstOccurrences(served.value, URN))
    }
  }

  /** Every URN served is among them, once, and nothing else is. */
  lemma UrnsAreTheServedOnes(resources: Resources, id: string, bound: nat)
    requires Paging.Ends(resources.server(id), resources.done(id), 0, 0, bound)
    requires Paging.Served(resources.server(id), resources.done(id), 0, 0, bound).Some?
    ensures var served := Paging.Served(resources.server(id), resources.done(id), 0, 0, bound).value;
            var urns := resources.Urns(id, bound);
            urns.Some? && Distinct(urns.value) && forall urn :: urn in urns.value <==> urn in served
  {
    var served := Paging.Served(resources.server(id), resources.done(id), 0, 0, bound).value;
    var urns := resources.Urns(id, bound).value;
    Paging.FirstOccurrencesKeys(served, URN);
    forall urn ensures urn in urns <==> urn in served {
      HeldIsIn(urns, urn);
      HeldIsIn(served, urn);
    }
    assert forall i, j :: 0 <= i < j < |urns| ==> URN(urns[i]) != URN(urns[j]);
  }

  lemma HeldIsIn(urns: seq<string>, urn: string)
    ensures Paging.Holds(urns, URN, urn) <==> urn in urns
  {
    if urn in urns {
      var i :| 0 <= i < |urns| && urns[i] == urn;
      assert URN(urns[i]) == urn;
    }
  }

  /** What the snapshot says of a project: its fresh counts, or the last known ones. */
  ghost predicate IsEntry(entry: Project, info: Info, urns: Option<seq<string>>, previous: map<string, Project>) {
    && entry.info == info
    && (urns.Some? ==> entry.known && Canonical(entry.counts, urns.value))
    && (urns.None? && info.id in previous && previous[info.id].known ==>
          entry.known && entry.counts == previous[info.id].counts)
    && (urns.None? && !(info.id in previous && previous[info.id].known) ==> !entry.known && entry.counts == [])
  }

  /** What a snapshot says of each listed project, `previous` being what it said before. */
  ghost predicate Reports(snap: map<string, Project>, list: seq<Info>, k: nat, resources: Resources,
                          bounds: string -> nat, previous: map<string, Project>)
    requires k <= |list|
    requires resources.End(bounds)
  {
    forall i :: 0 <= i < k ==>
      && ID(list[i]) in snap
      && IsEntry(snap[ID(list[i])], list[i], resources.Urns(ID(list[i]), bounds(ID(list[i]))), previous)
  }

  /** Every listed project is in the snapshot under its id, described as it was listed. */
  lemma ReportedAsListed(snap: map<string, Project>, list: seq<Info>, resources: Resources, bounds: string -> nat,
                         previous: map<string, Project>, i: nat)
    requires resources.End(bounds)
    requires Reports(snap, list, |list|, resources, bounds, previous) && i < |list|
    ensures list[i].id in snap && snap[list[i].id].info == list[i]
  {
    assert ID(list[i]) == list[i].id;
  }

  lemma ReportsStep(next: map<string, Project>, list: seq<Info>, k: nat, resources: Resources,
                    bounds: string -> nat, previous: map<string, Project>, entry: Project)
    requires DistinctKeys(list, ID) && k < |list|
    requires resources.End(bounds)
    requires Reports(next, list, k, resources, bounds, previous)
    requires IsEntry(entry, list[k], resources.Urns(ID(list[k]), bounds(ID(list[k]))), previous)
    ensures Reports(next[ID(list[k]) := entry], list, k + 1, resources, bounds, previous)
  {
    assert forall i :: 0 <= i < k ==> ID(list[i]) != ID(list[k]);
  }

  ghost predicate NoneMeasured(list: seq<Info>, k: nat, resources: Resources, bounds: string -> nat)
    requires k <= |list|
    requires resources.End(bounds)
  {
    forall i :: 0 <= i < k ==> resources.Urns(ID(list[i]), bounds(ID(list[i]))).None?
  }

  // ----- Over a run of refreshes -----

  /** What the lookups of one successful refresh yielded, by listed project. */
  ghost function RoundOf(list: seq<Info>, resources: Resources, bounds: string -> nat): Round<string, seq<string>>
    requires resources.End(bounds)
  {
    map id | id in (set i | 0 <= i < |list| :: ID(list[i])) :: resources.Urns(id, bounds(id))
  }

  /** An entry agrees with the URNs of the last lookup that succeeded since the project was last missing. */
  ghost predicate Agrees(entry: Project, counted: Option<seq<string>>) {
    && entry.known == counted.Some?
    && (counted.Some? ==> Canonical(entry.counts, counted.value) && Sum(entry.counts) == |counted.value|)
    && (counted.None? ==> entry.counts == [])
  }

  ghost predicate Remembers(snap: map<string, Project>, log: seq<Round<string, seq<string>>>) {
    && (forall id :: id in snap <==> log != [] && id in log[|log| - 1])
    && (forall id :: id in snap ==> Agrees(snap[id], LastKnown(log, id)))
  }

  /** One refresh keeps every snapshot entry in step with the whole history of lookups. */
  lemma RemembersStep(snap: map<string, Project>, log: seq<Round<string, seq<string>>>, next: map<string, Project>,
                      list: seq<Info>, resources: Resources, bounds: string -> nat)
    requires resources.End(bounds)
    requires Remembers(snap, log)
    requires forall id :: id in next <==> Paging.Holds(list, ID, id)
    requires Reports(next, list, |list|, resources, bounds, snap)
    ensures Remembers(next, log + [RoundOf(list, resources, bounds)])
  {
    var round := RoundOf(list, resources, bounds);
    var longer := log + [round];
    forall id | id in next ensures Agrees(next[id], LastKnown(longer, id)) {
      var i :| 0 <= i < |list| && ID(list[i]) == id;
      var urns := resources.Urns(id, bounds(id));
      assert IsEntry(next[id], list[i], urns, snap);
      assert round[id] == urns;
      LastKnownStep(log, round, id);
      if urns.Some? {
        CountsAddUp(next[id].counts, urns.value);
      }
    }
  }

  class Collector {
    var snap: map<string, Project>
    /** What every successful refresh so far looked up. */
    ghost var log: seq<Round<string, seq<string>>>

    ghost predicate Valid()
      reads this
    {
      Remembers(snap, log)
    }

    constructor ()
      ensures Valid() && snap == map[] && log == []
    {
      snap, log := map[], [];
    }

    method Measure(info: Info, resources: Resources, previous: map<string, Project>, ghost bound: nat)
      returns (entry: Project, failed: bool)
      requires Paging.Ends(resources.server(info.id), resources.done(info.id), 0, 0, bound)
      ensures failed <==> resources.Urns(info.id, bound).None?
      ensures IsEntry(entry, info, resources.Urns(info.id, bound), previous)
      ensures entry.info == info
    {
      var urns, _ := Paging.All(resources.server(info.id), URN, resources.done(info.id), bound);
      if urns.None? {
        if info.id in previous && previous[info.id].known {
          return Project(info, previous[info.id].counts, true), true;
        }
        return Project(info, [], false), true;
      }
      var counts := CountResources(urns.value);
      return Project(info, counts, true), false;
    }

    /** Measures every listed project; the ids are distinct, so every entry stays. */
    method MeasureAll(list: seq<Info>, resources: Resources, ghost bounds: string -> nat)
      returns (next: map<string, Project>, failed: nat)
      requires DistinctKeys(list, ID)
      requires resources.End(bounds)
      ensures forall id :: id in next <==> Paging.Holds(list, ID, id)
      ensures Reports(next, list, |list|, resources, bounds, snap)
      ensures failed <= |list|
      ensures failed == |list| <==> NoneMeasured(list, |list|, resources, bounds)
    {
      next, failed := map[], 0;
      for k := 0 to |list|
        invariant failed <= k
        invariant forall id :: id in next <==> exists i :: 0 <= i < k && ID(list[i]) == id
        invariant Reports(next, list, k, resources, bounds, snap)
        invariant failed == k <==> NoneMeasured(list, k, resources, bounds)
      {
        var entry, bad := Measure(list[k], resources, snap, bounds(ID(list[k])));
        ReportsStep(next, list, k, resources, bounds, snap, entry);
        next := next[entry.info.id := entry];
        if bad {
          failed := failed + 1;
        }
      }
    }

    /** Every listed project is measured before the snapshot is swapped, unless none could be. */
    method Rebuild(list: seq<Info>, resources: Resources, ghost bounds: string -> nat) returns (err: Option<Error>)
      requires DistinctKeys(list, ID)
      requires resources.End(bounds)
      requires Valid()
      modifies this
      ensures Valid()
      ensures err == if |list| > 0 && NoneMeasured(list, |list|, resources, bounds)
                     then Some(ErrNoProjectMeasured(|list|)) else None
      ensures err.Some? ==> snap == old(snap) && log == old(log)
      ensures err.None? ==>
                && (forall id :: id in snap <==> Paging.Holds(list, ID, id))
                && Reports(snap, list, |list|, resources, bounds, old(snap))
                && log == old(log) + [RoundOf(list, resources, bounds)]
    {
      var next, failed := MeasureAll(list, resources, bounds);
      if failed > 0 && failed == |list| {
        return Some(ErrNoProjectMeasured(failed));
      }
      RemembersStep(snap, log, next, list, resources, bounds);
      snap := next;
      log := log + [RoundOf(list, resources, bounds)];
      err := None;
    }

    /** One refresh: a failed listing, or every lookup failing, leaves the snapshot untouched. */
    method Refresh(projects: Paging.Server<Info>, done: nat -> bool, resources: Resources,
                   ghost bound: nat, ghost bounds: string -> nat) returns (err: Option<Error>)
      requires Paging.Ends(projects, done, 0, 0, bound)
      requires resources.End(bounds)
      requires Valid()
      modifies this
      ensures Valid()
      ensures err.Some? ==> snap == old(snap) && log == old(log)
      ensures var served := Paging.Served(projects, done, 0, 0, bound);
              if served.None? then err == Some(ErrList)
              else
                var list := Paging.FirstOccurrences(served.value, ID);
                && err == (if |list| > 0 && NoneMeasured(list, |list|, resources, bounds)
                           then Some(ErrNoProjectMeasured(|list|)) else None)
                && (err.None? ==>
                      && (forall id :: id in snap <==> Paging.Holds(served.value, ID, id))
                      && Reports(snap, list, |list|, resources, bounds, old(snap))
                      && log == old(log) + [RoundOf(list, resources, bounds)])
    {
      var list, _ := Paging.All(projects, ID, done, bound);
      if list.None? {
        return Some(ErrList);
      }
      Paging.FirstOccurrencesKeys(Paging.Served(projects, done, 0, 0, bound).value, ID);
      err := Rebuild(list.value, resources, bounds);
    }
  }
}
