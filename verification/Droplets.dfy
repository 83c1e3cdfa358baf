/**
 The droplet listing two collectors share, and the collector that reports it: a
 filter of exactly one tag and no region is applied by the API, every other one
 client-side, and the two ways report the same droplets.
 */
module Droplets {
  import opened Wrappers
  import opened Sequences
  import opened Paging
  import opened Filters

  /** What the API says of one droplet, as far as listing and filtering look at it. */
  datatype Droplet = Droplet(id: int, name: string, tags: seq<string>, region: Option<string>, features: seq<string>)

  function RegionSlug(d: Droplet): string {
    if d.region.Some? then d.region.value else ""
  }

  function Admits(f: Filter): Droplet -> bool {
    (d: Droplet) => f.Matches(d.tags, RegionSlug(d))
  }

  function Carries(tag: string): Droplet -> bool {
    (d: Droplet) => tag in d.tags
  }

  const ID: Droplet -> int := (d: Droplet) => d.id

  /** The endpoints the droplets can be listed from: all of them, or those carrying one tag. */
  datatype Api = Api(all: Server<Droplet>, byTag: string -> Server<Droplet>)

  /** Which endpoint a filter's listing walks. */
  ghost function Source(api: Api, f: Filter): (server: Server<Droplet>)
    ensures forall tag :: f.IsSingleTag(tag) ==> server == api.byTag(tag)
    ensures (forall tag :: !f.IsSingleTag(tag)) ==> server == api.all
  {
    if tag :| f.IsSingleTag(tag) then api.byTag(tag) else api.all
  }

  method Listing(api: Api, f: Filter) returns (server: Server<Droplet>)
    ensures server == Source(api, f)
  {
    var tag := f.SingleTag();
    server := if tag.Some? then api.byTag(tag.value) else api.all;
  }

  /** The droplets a listing admits, given everything its walk was served. */
  function Admitted(served: seq<Droplet>, f: Filter): seq<Droplet> {
    Kept(FirstOccurrences(served, ID), Admits(f))
  }

  /** No earlier droplet served has its id. */
  ghost predicate IsFirstCopy(served: seq<Droplet>, i: nat) {
    i < |served| && forall j :: 0 <= j < i ==> served[j].id != served[i].id
  }

  ghost predicate IsFirstCopyOf(served: seq<Droplet>, d: Droplet) {
    exists i: nat :: IsFirstCopy(served, i) && served[i] == d
  }

  /** What is kept of everything served is the first copy of every droplet, by its id. */
  lemma FirstCopiesAreKept(served: seq<Droplet>)
    ensures forall d :: d in FirstOccurrences(served, ID) <==> IsFirstCopyOf(served, d)
  {
    var at := FirstOccurrencesAre(served, ID);
    var kept := FirstOccurrences(served, ID);
    forall i: nat ensures IsFirst(served, ID, i) <==> IsFirstCopy(served, i) {
      assert i < |served| ==>
               forall j :: 0 <= j < i ==> (ID(served[j]) != ID(served[i]) <==> served[j].id != served[i].id);
    }
    forall d ensures d in kept <==> IsFirstCopyOf(served, d) {
      if d in kept {
        var k :| 0 <= k < |kept| && kept[k] == d;
        assert IsFirstCopy(served, at[k]);
      }
      if i: nat :| IsFirstCopy(served, i) && served[i] == d {
        var k :| 0 <= k < |at| && at[k] == i;
        assert kept[k] == d;
      }
    }
  }

  /** What a listing admits are the first copies the filter asks for. */
  lemma AdmittedAre(served: seq<Droplet>, f: Filter)
    ensures forall d :: d in Admitted(served, f) <==>
              && IsFirstCopyOf(served, d)
              && (f.tags.None? || exists i :: 0 <= i < |d.tags| && d.tags[i] in f.tags.value)
              && (f.regions.None? || (if d.region.Some? then d.region.value else "") in f.regions.value)
  {
    FirstCopiesAreKept(served);
    KeptAre(FirstOccurrences(served, ID), Admits(f));
  }

  /**
   Whatever a walk of the full listing is served, a walk of the tag-scoped one
   that is served the tagged part of it admits the same droplets in the same
   order, as long as two copies of one droplet agree on the tag.
   */
  lemma TagScopedListingAgrees(f: Filter, tag: string, served: seq<Droplet>, tagged: seq<Droplet>)
    requires f.IsSingleTag(tag)
    requires tagged == Kept(served, Carries(tag))
    requires RespectsKeys(served, ID, Carries(tag))
    ensures Admitted(tagged, f) == Admitted(served, f)
  {
    FilteringCommutes(served, ID, Carries(tag));
    SingleTagAdmitsThatTag(f, tag);
    var kept := FirstOccurrences(served, ID);
    KeptTwice(kept, Carries(tag), Admits(f));
  }

  lemma {:induction false} KeptTwice(items: seq<Droplet>, first: Droplet -> bool, second: Droplet -> bool)
    requires forall d :: first(d) <==> second(d)
    ensures Kept(Kept(items, first), second) == Kept(items, second)
  {
    if items != [] {
      var m := |items| - 1;
      KeptTwice(items[..m], first, second);
      KeptStep(Kept(items[..m], first), items[m], second);
    }
  }

  /** In particular for honest servers of any two page sizes, on any account whose droplet ids are distinct. */
  lemma FastPathReportsTheSame(account: seq<Droplet>, f: Filter, tag: string, size: nat, tagSize: nat)
    requires f.IsSingleTag(tag) && size > 0 && tagSize > 0 && DistinctKeys(account, ID)
    ensures var tagged := Kept(account, Carries(tag));
            var never := (_: nat) => false;
            && Ends(Honest(account, size), never, 0, 0, |account|)
            && Ends(Honest(tagged, tagSize), never, 0, 0, |tagged|)
            && var slow := Served(Honest(account, size), never, 0, 0, |account|);
               var fast := Served(Honest(tagged, tagSize), never, 0, 0, |tagged|);
               && slow.Some? && fast.Some?
               && Admitted(fast.value, f) == Admitted(slow.value, f)
               && Admitted(slow.value, f) == Kept(account, Admits(f))
  {
    var tagged := Kept(account, Carries(tag));
    HonestListIsReproduced(account, size, ID);
    HonestRest(tagged, tagSize, 0, 0);
    assert tagged[0..] == tagged;
    forall a, b | a in account && b in account && ID(a) == ID(b) ensures a == b {
      var i :| 0 <= i < |account| && account[i] == a;
      var j :| 0 <= j < |account| && account[j] == b;
      assert i == j;
    }
    TagScopedListingAgrees(f, tag, account, tagged);
  }

  /** The droplets the filter matches, one by one. */
  method Select(droplets: seq<Droplet>, f: Filter) returns (selected: seq<Droplet>)
    ensures selected == Kept(droplets, Admits(f))
  {
    selected := [];
    for i := 0 to |droplets|
      invariant selected == Kept(droplets[..i], Admits(f))
    {
      assert droplets[..i + 1] == droplets[..i] + [droplets[i]];
      KeptStep(droplets[..i], droplets[i], Admits(f));
      var matched := f.Match(droplets[i].tags, RegionSlug(droplets[i]));
      if matched {
        selected := selected + [droplets[i]];
      }
    }
    assert droplets[..|droplets|] == droplets;
  }

  datatype Error = ErrList

  /** The droplet collector: its snapshot is replaced only once every page was read. */
  class Collector {
    const filter: Filter
    var snap: seq<Droplet>

    constructor (filter: Filter)
      ensures this.filter == filter && snap == []
    {
      this.filter := filter;
      snap := [];
    }

    method Refresh(api: Api, done: nat -> bool, ghost bound: nat) returns (err: Option<Error>)
      requires Ends(Source(api, filter), done, 0, 0, bound)
      modifies this
      ensures var served := Served(Source(api, filter), done, 0, 0, bound);
              if served.None? then err == Some(ErrList) && snap == old(snap)
              else err == None && snap == Admitted(served.value, filter)
    {
      var server := Listing(api, filter);
      var listed, _ := All(server, ID, done, bound);
      if listed.None? {
        return Some(ErrList);
      }
      snap := Select(listed.value, filter);
      err := None;
    }
  }
}
