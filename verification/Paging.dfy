/**
 The page walk every list endpoint shares: it follows the links to the last
 page, drops every item whose key was seen before, and returns nothing at all on
 any failure.
 */
module Paging {
  import opened Wrappers
  import opened Sequences

  /** What a successful reply says about the rest: nothing follows, the page this was, or unreadable links. */
  datatype Links = Last | Current(page: int) | Broken

  datatype Reply<+T> = Page(items: seq<T>, links: Links) | Failed

  /**
   A server: its reply to request number `i`, asking for page `page`. The request
   number lets the list change between two requests of one walk.
   */
  type Server<!T> = (nat, int) -> Reply<T>

  // ----- Keeping the first occurrence -----

  predicate Holds<T, K(==)>(items: seq<T>, key: T -> K, k: K) {
    exists i :: 0 <= i < |items| && key(items[i]) == k
  }

  /** The items whose key no earlier item has, in order. */
  function FirstOccurrences<T, K(==)>(items: seq<T>, key: T -> K): (out: seq<T>)
    ensures |out| <= |items|
  {
    if items == [] then []
    else
      var before := items[..|items| - 1];
      var item := items[|items| - 1];
      if Holds(before, key, key(item)) then FirstOccurrences(before, key) else FirstOccurrences(before, key) + [item]
  }

  /** Item `i` is the first with its key. */
  ghost predicate IsFirst<T, K>(items: seq<T>, key: T -> K, i: nat) {
    i < |items| && forall j :: 0 <= j < i ==> key(items[j]) != key(items[i])
  }

  /**
   What keeping the first occurrences means: there are increasing positions of
   the input, exactly those of the items that come first with their key, and the
   output is the items at those positions.
   */
  lemma {:induction false} FirstOccurrencesAre<T, K>(items: seq<T>, key: T -> K) returns (at: seq<nat>)
    ensures |at| == |FirstOccurrences(items, key)|
    ensures forall i :: 0 <= i < |at| ==> IsFirst(items, key, at[i]) && FirstOccurrences(items, key)[i] == items[at[i]]
    ensures forall i, j :: 0 <= i < j < |at| ==> at[i] < at[j]
    ensures forall i: nat :: IsFirst(items, key, i) ==> i in at
  {
    if items == [] {
      at := [];
    } else {
      var m := |items| - 1;
      var before := items[..m];
      at := FirstOccurrencesAre(before, key);
      FirstsExtend(items, key);
      if !Holds(before, key, key(items[m])) {
        at := at + [m];
      }
    }
  }

  /** Which items come first with their key, when one more item is looked at. */
  lemma FirstsExtend<T, K>(items: seq<T>, key: T -> K)
    requires items != []
    ensures var m := |items| - 1;
            && (forall i: nat :: i < m ==> (IsFirst(items, key, i) <==> IsFirst(items[..m], key, i)))
            && (IsFirst(items, key, m) <==> !Holds(items[..m], key, key(items[m])))
  {
    var m := |items| - 1;
    var before := items[..m];
    assert forall j :: 0 <= j < m ==> before[j] == items[j];
  }

  /** No key appears twice in the output, and it has exactly the keys of the input. */
  lemma {:induction false} FirstOccurrencesKeys<T, K>(items: seq<T>, key: T -> K)
    ensures DistinctKeys(FirstOccurrences(items, key), key)
    ensures forall k :: Holds(FirstOccurrences(items, key), key, k) <==> Holds(items, key, k)
  {
    if items != [] {
      var m := |items| - 1;
      var before, item := items[..m], items[m];
      FirstOccurrencesKeys(before, key);
      var kept := FirstOccurrences(before, key);
      var out := FirstOccurrences(items, key);
      forall k ensures Holds(out, key, k) <==> Holds(items, key, k) {
        HoldsAppend(kept, out[|kept|..], key, k);
        HoldsAppend(before, [item], key, k);
        assert out == kept + out[|kept|..] && items == before + [item];
        assert Holds([item], key, k) <==> key([item][0]) == k;
      }
      if !Holds(before, key, key(item)) {
        forall i | 0 <= i < |kept| ensures key(kept[i]) != key(item) {
          assert Holds(kept, key, key(kept[i]));
        }
      }
    }
  }

  lemma HoldsAppend<T, K>(a: seq<T>, b: seq<T>, key: T -> K, k: K)
    ensures Holds(a + b, key, k) <==> Holds(a, key, k) || Holds(b, key, k)
  {
    if i :| 0 <= i < |a| && key(a[i]) == k {
      assert key((a + b)[i]) == k;
    }
    if i :| 0 <= i < |b| && key(b[i]) == k {
      assert key((a + b)[|a| + i]) == k;
    }
    if i :| 0 <= i < |a + b| && key((a + b)[i]) == k {
      if i < |a| {
        assert key(a[i]) == k;
      } else {
        assert key(b[i - |a|]) == k;
      }
    }
  }

  lemma HoldsStep<T, K>(before: seq<T>, item: T, key: T -> K)
    ensures forall k :: Holds(before + [item], key, k) <==> Holds(before, key, k) || key(item) == k
  {
    forall k ensures Holds(before + [item], key, k) <==> Holds(before, key, k) || key(item) == k {
      HoldsAppend(before, [item], key, k);
      assert Holds([item], key, k) <==> key([item][0]) == k;
    }
  }

  /** A list whose keys are distinct is kept whole. */
  lemma {:induction false} DistinctIsKept<T, K>(items: seq<T>, key: T -> K)
    requires DistinctKeys(items, key)
    ensures FirstOccurrences(items, key) == items
  {
    if items != [] {
      DistinctIsKept(items[..|items| - 1], key);
    }
  }

  /** The items that pass, in order. */
  function Kept<T>(items: seq<T>, keep: T -> bool): seq<T> {
    if items == [] then []
    else
      var item := items[|items| - 1];
      if keep(item) then Kept(items[..|items| - 1], keep) + [item] else Kept(items[..|items| - 1], keep)
  }

  lemma {:induction false} KeptAre<T>(items: seq<T>, keep: T -> bool)
    ensures forall item :: item in Kept(items, keep) <==> item in items && keep(item)
  {
    if items != [] {
      var m := |items| - 1;
      KeptAre(items[..m], keep);
      assert items == items[..m] + [items[m]];
    }
  }

  /** Items with the same key are kept or dropped alike. */
  ghost predicate RespectsKeys<T(!new), K>(items: seq<T>, key: T -> K, keep: T -> bool) {
    forall a, b :: a in items && b in items && key(a) == key(b) ==> keep(a) == keep(b)
  }

  /** Filtering before or after dropping duplicates is the same, when equal keys pass the filter alike. */
  lemma {:induction false} FilteringCommutes<T(!new), K>(items: seq<T>, key: T -> K, keep: T -> bool)
    requires RespectsKeys(items, key, keep)
    ensures FirstOccurrences(Kept(items, keep), key) == Kept(FirstOccurrences(items, key), keep)
  {
    if items != [] {
      var m := |items| - 1;
      var before, item := items[..m], items[m];
      FilteringCommutes(before, key, keep);
      assert items == before + [item];
      FirstOccurrencesStep(before, item, key);
      KeptStep(before, item, keep);
      KeptStep(FirstOccurrences(before, key), item, keep);
      FirstOccurrencesStep(Kept(before, keep), item, key);
      if keep(item) {
        KeptHolds(before, key, keep, item);
      }
    }
  }

  lemma FirstOccurrencesStep<T, K>(before: seq<T>, item: T, key: T -> K)
    ensures FirstOccurrences(before + [item], key) ==
            if Holds(before, key, key(item)) then FirstOccurrences(before, key)
            else FirstOccurrences(before, key) + [item]
  {
    assert (before + [item])[..|before|] == before;
  }

  lemma KeptStep<T>(before: seq<T>, item: T, keep: T -> bool)
    ensures Kept(before + [item], keep) == if keep(item) then Kept(before, keep) + [item] else Kept(before, keep)
  {
    assert (before + [item])[..|before|] == before;
  }

  /** A kept item's key is among the kept ones exactly when it is among all of them. */
  lemma {:induction false} KeptHolds<T(!new), K>(items: seq<T>, key: T -> K, keep: T -> bool, item: T)
    requires keep(item)
    requires forall a :: a in items && key(a) == key(item) ==> keep(a)
    ensures Holds(Kept(items, keep), key, key(item)) <==> Holds(items, key, key(item))
  {
    if items != [] {
      var m := |items| - 1;
      var before, last := items[..m], items[m];
      KeptHolds(before, key, keep, item);
      var tail := if keep(last) then [last] else [];
      HoldsAppend(Kept(before, keep), tail, key, key(item));
      HoldsAppend(before, [last], key, key(item));
      assert items == before + [last];
      assert Holds([last], key, key(item)) <==> key([last][0]) == key(item);
      assert Holds(tail, key, key(item)) <==> keep(last) && key(last) == key(item) by {
        if keep(last) {
          assert tail[0] == last;
        }
      }
    }
  }

  // ----- Ending early -----

  /** Item `i` passes, and is the first with its key. */
  ghost predicate IsNew<T, K>(items: seq<T>, key: T -> K, keep: T -> bool, i: nat) {
    IsFirst(items, key, i) && keep(items[i])
  }

  ghost predicate NoneNew<T, K>(items: seq<T>, key: T -> K, keep: T -> bool, from: nat, k: nat) {
    forall i :: from <= i < k ==> !IsNew(items, key, keep, i)
  }

  /** A prefix without a repeat yields all there is to list exactly as long as nothing new follows it. */
  lemma {:induction false} NewFollows<T, K>(items: seq<T>, key: T -> K, keep: T -> bool, length: nat, k: nat)
    requires length <= k <= |items| && DistinctKeys(items[..length], key)
    ensures Kept(items[..length], keep) <= Kept(FirstOccurrences(items[..k], key), keep)
    ensures Kept(items[..length], keep) == Kept(FirstOccurrences(items[..k], key), keep) <==>
              NoneNew(items, key, keep, length, k)
  {
    if k == length {
      DistinctIsKept(items[..length], key);
    } else {
      NewFollows(items, key, keep, length, k - 1);
      NewStep(items, key, keep, k - 1);
      NoneNewStep(items, key, keep, length, k - 1);
      Extends(Kept(items[..length], keep), Kept(FirstOccurrences(items[..k - 1], key), keep),
              if IsNew(items, key, keep, k - 1) then [items[k - 1]] else []);
    }
  }

  lemma NoneNewStep<T, K>(items: seq<T>, key: T -> K, keep: T -> bool, from: nat, k: nat)
    requires from <= k < |items|
    ensures NoneNew(items, key, keep, from, k + 1) <==>
              NoneNew(items, key, keep, from, k) && !IsNew(items, key, keep, k)
  {
  }

  lemma Extends<T>(first: seq<T>, more: seq<T>, tail: seq<T>)
    requires first <= more
    ensures first <= more + tail
    ensures first == more + tail <==> first == more && tail == []
  {
    assert |more + tail| == |more| + |tail|;
    assert tail == [] ==> more + tail == more;
  }

  /** One more item is listed exactly when it is new. */
  lemma NewStep<T, K>(items: seq<T>, key: T -> K, keep: T -> bool, i: nat)
    requires i < |items|
    ensures Kept(FirstOccurrences(items[..i + 1], key), keep) ==
            Kept(FirstOccurrences(items[..i], key), keep) + if IsNew(items, key, keep, i) then [items[i]] else []
  {
    var before, item := items[..i], items[i];
    assert items[..i + 1] == before + [item];
    assert forall j :: 0 <= j < i ==> key(before[j]) == key(items[j]);
    FirstOccurrencesStep(before, item, key);
    KeptStep(FirstOccurrences(before, key), item, keep);
  }

  // ----- The walk -----

  /** Whether the walk goes on after this reply. */
  predicate Continues<T>(reply: Reply<T>) {
    reply.Page? && reply.links.Current?
  }

  /** The walk that is about to make request `i`, for page `page`, makes none after request `bound`. */
  ghost predicate Ends<T>(server: Server<T>, done: nat -> bool, i: nat, page: int, bound: nat)
    decreases bound - i
  {
    i <= bound &&
    (done(i) || !Continues(server(i, page)) || Ends(server, done, i + 1, server(i, page).links.page + 1, bound))
  }

  /**
   Everything a walk is served from request `i` on, page after page, or None when
   it fails: the context was done before a request, a request failed, or the
   links of a page could not be read.
   */
  ghost function Served<T>(server: Server<T>, done: nat -> bool, i: nat, page: int, bound: nat): Option<seq<T>>
    requires Ends(server, done, i, page, bound)
    decreases bound - i
  {
    if done(i) then None
    else
      match server(i, page)
      case Failed => None
      case Page(items, Last) => Some(items)
      case Page(items, Broken) => None
      case Page(items, Current(current)) => Joined(items, Served(server, done, i + 1, current + 1, bound))
  }

  function Joined<T>(items: seq<T>, rest: Option<seq<T>>): Option<seq<T>> {
    if rest.None? then None else Some(items + rest.value)
  }

  lemma ServedStep<T>(server: Server<T>, done: nat -> bool, i: nat, page: int, bound: nat, walked: seq<T>)
    requires Ends(server, done, i, page, bound) && !done(i) && Continues(server(i, page))
    ensures var reply := server(i, page);
            Joined(walked, Served(server, done, i, page, bound)) ==
            Joined(walked + reply.items, Served(server, done, i + 1, reply.links.page + 1, bound))
  {
    var reply := server(i, page);
    var rest := Served(server, done, i + 1, reply.links.page + 1, bound);
    assert rest.Some? ==> walked + (reply.items + rest.value) == walked + reply.items + rest.value;
  }

  /** A server that offers a next page every time is walked until the context ends: no bound holds. */
  lemma {:induction false} EndlessListNeverEnds<T>(server: Server<T>, i: nat, page: int, bound: nat)
    requires forall j: nat, p: int :: Continues(server(j, p))
    ensures !Ends(server, (_: nat) => false, i, page, bound)
    decreases bound - i
  {
    if i <= bound {
      EndlessListNeverEnds(server, i + 1, server(i, page).links.page + 1, bound);
    }
  }

  // ----- The walk by its replies -----

  /** `asked[j]` is the page of request `j`: every reply before the last was a page that said which it was. */
  ghost predicate Path<T>(server: Server<T>, done: nat -> bool, asked: seq<int>) {
    && |asked| >= 1 && asked[0] == 0
    && forall j :: 0 <= j < |asked| - 1 ==>
         && !done(j) && Continues(server(j, asked[j]))
         && asked[j + 1] == server(j, asked[j]).links.page + 1
  }

  /** The last request of the path brought the last page. */
  ghost predicate Walked<T>(server: Server<T>, done: nat -> bool, asked: seq<int>) {
    && Path(server, done, asked)
    && var n := |asked| - 1; !done(n) && server(n, asked[n]).Page? && server(n, asked[n]).links.Last?
  }

  /** The path ended in a failure: the context was done before its last request, or that failed, or named no page. */
  ghost predicate Broke<T>(server: Server<T>, done: nat -> bool, asked: seq<int>) {
    && Path(server, done, asked)
    && var n := |asked| - 1;
       done(n) || server(n, asked[n]).Failed? || (server(n, asked[n]).Page? && server(n, asked[n]).links.Broken?)
  }

  /** The items of the first `k` replies, page after page. */
  function Items<T>(server: Server<T>, asked: seq<int>, k: nat): seq<T>
    requires k <= |asked|
  {
    if k == 0 then []
    else
      var reply := server(k - 1, asked[k - 1]);
      Items(server, asked, k - 1) + if reply.Page? then reply.items else []
  }

  /** Two ways of walking to the end are one. */
  lemma {:induction false} PathsAgree<T>(server: Server<T>, done: nat -> bool, a: seq<int>, b: seq<int>, j: nat)
    requires Path(server, done, a) && Path(server, done, b) && j < |a| && j < |b|
    ensures a[j] == b[j]
  {
    if j > 0 {
      PathsAgree(server, done, a, b, j - 1);
    }
  }

  lemma OneWalk<T>(server: Server<T>, done: nat -> bool, a: seq<int>, b: seq<int>)
    requires Walked(server, done, a) || Broke(server, done, a)
    requires Walked(server, done, b) || Broke(server, done, b)
    ensures a == b
  {
    var shorter := if |a| < |b| then |a| else |b|;
    forall j | 0 <= j < shorter ensures a[j] == b[j] {
      PathsAgree(server, done, a, b, j);
    }
  }

  lemma {:induction false} ItemsAgree<T>(server: Server<T>, a: seq<int>, b: seq<int>, k: nat)
    requires k <= |a| <= |b| && a == b[..|a|]
    ensures Items(server, a, k) == Items(server, b, k)
  {
    if k > 0 {
      ItemsAgree(server, a, b, k - 1);
    }
  }

  /** About to make the request for `page`, the walk has seen the items of all requests before it. */
  ghost predicate OnPath<T>(server: Server<T>, done: nat -> bool, asked: seq<int>, walked: seq<T>, requests: nat,
                            page: int)
  {
    && Path(server, done, asked) && |asked| == requests + 1 && asked[requests] == page
    && walked == Items(server, asked, requests)
  }

  lemma PathGoesOn<T>(server: Server<T>, done: nat -> bool, asked: seq<int>, walked: seq<T>, requests: nat, page: int)
    requires OnPath(server, done, asked, walked, requests, page)
    requires !done(requests) && Continues(server(requests, page))
    ensures var next := server(requests, page).links.page + 1;
            OnPath(server, done, asked + [next], walked + server(requests, page).items, requests + 1, next)
  {
    var next := server(requests, page).links.page + 1;
    ItemsAgree(server, asked, asked + [next], requests);
  }

  /**
   What All owes its caller, by the replies alone: everything once, in order, if
   the walk came to the last page, and nothing if it did not.
   */
  ghost predicate IsWalk<T, K>(server: Server<T>, done: nat -> bool, key: T -> K, out: Option<seq<T>>,
                                   requests: nat)
  {
    && (out.Some? <==> exists asked :: Walked(server, done, asked))
    && (forall asked :: Walked(server, done, asked) ==>
          requests == |asked| && out == Some(FirstOccurrences(Items(server, asked, |asked|), key)))
    && (forall asked :: Broke(server, done, asked) ==>
          requests == |asked| - (if done(|asked| - 1) then 1 else 0) && out == None)
  }

  lemma WalkedIsWalk<T, K>(server: Server<T>, done: nat -> bool, key: T -> K, asked: seq<int>)
    requires Walked(server, done, asked)
    ensures IsWalk(server, done, key, Some(FirstOccurrences(Items(server, asked, |asked|), key)), |asked|)
  {
    forall other | Walked(server, done, other) || Broke(server, done, other) ensures other == asked {
      OneWalk(server, done, asked, other);
    }
  }

  lemma BrokeIsWalk<T, K>(server: Server<T>, done: nat -> bool, key: T -> K, asked: seq<int>)
    requires Broke(server, done, asked)
    ensures IsWalk(server, done, key, None, |asked| - (if done(|asked| - 1) then 1 else 0))
  {
    forall other | Walked(server, done, other) || Broke(server, done, other) ensures other == asked {
      OneWalk(server, done, asked, other);
    }
  }

  /** keepNew: appends the items of one page whose keys are new, and records their keys. */
  method KeepNew<T, K(==)>(out: seq<T>, page: seq<T>, seen: set<K>, key: T -> K, ghost walked: seq<T>)
    returns (out': seq<T>, seen': set<K>)
    requires out == FirstOccurrences(walked, key)
    requires forall k :: k in seen <==> Holds(walked, key, k)
    ensures out' == FirstOccurrences(walked + page, key)
    ensures forall k :: k in seen' <==> Holds(walked + page, key, k)
  {
    out', seen' := out, seen;
    assert walked + [] == walked;
    for i := 0 to |page|
      invariant out' == FirstOccurrences(walked + page[..i], key)
      invariant forall k :: k in seen' <==> Holds(walked + page[..i], key, k)
    {
      var item := page[i];
      ghost var before := walked + page[..i];
      assert walked + page[..i + 1] == before + [item];
      FirstOccurrencesStep(before, item, key);
      HoldsStep(before, item, key);
      assert key(item) in seen' <==> Holds(before, key, key(item));
      if key(item) !in seen' {
        seen' := seen' + {key(item)};
        out' := out' + [item];
      }
      assert out' == FirstOccurrences(before + [item], key);
    }
    assert page[..|page|] == page;
  }

  /**
   All: the first occurrence by key of everything served, in order, or nothing on
   any failure. `requests` counts the page requests made.
   */
  method All<T, K(==)>(server: Server<T>, key: T -> K, done: nat -> bool, ghost bound: nat)
    returns (out: Option<seq<T>>, requests: nat)
    requires Ends(server, done, 0, 0, bound)
    ensures var served := Served(server, done, 0, 0, bound);
            out == if served.None? then None else Some(FirstOccurrences(served.value, key))
    ensures IsWalk(server, done, key, out, requests)
    ensures requests <= bound + 1
  {
    var items: seq<T> := [];
    var seen: set<K> := {};
    var page: int := 0;
    requests := 0;
    ghost var walked: seq<T> := [];
    ghost var asked := [0];
    ghost var served := Served(server, done, 0, 0, bound);
    assert served == Joined(walked, served) by {
      assert served.Some? ==> walked + served.value == served.value;
    }
    while true
      invariant Ends(server, done, requests, page, bound)
      invariant OnPath(server, done, asked, walked, requests, page)
      invariant items == FirstOccurrences(walked, key)
      invariant forall k :: k in seen <==> Holds(walked, key, k)
      invariant served == Joined(walked, Served(server, done, requests, page, bound))
      decreases bound - requests
    {
      if done(requests) {
        BrokeIsWalk(server, done, key, asked);
        return None, requests;
      }
      var reply := server(requests, page);
      if reply.Failed? {
        BrokeIsWalk(server, done, key, asked);
        return None, requests + 1;
      }
      items, seen := KeepNew(items, reply.items, seen, key, walked);
      if reply.links.Last? {
        WalkedIsWalk(server, done, key, asked);
        return Some(items), requests + 1;
      }
      if reply.links.Broken? {
        BrokeIsWalk(server, done, key, asked);
        return None, requests + 1;
      }
      ServedStep(server, done, requests, page, bound, walked);
      PathGoesOn(server, done, asked, walked, requests, page);
      walked := walked + reply.items;
      asked := asked + [reply.links.page + 1];
      page := reply.links.page + 1;
      requests := requests + 1;
    }
  }

  // ----- Honest servers -----

  /** Page `page` (numbered from 1, with 0 meaning the first) of a list that does not change. */
  function HonestPage<T>(list: seq<T>, size: nat, page: int): Reply<T>
    requires size > 0
  {
    var number := if page < 1 then 1 else page;
    Numbered(list, (number - 1) * size, size, number)
  }

  /** The page that starts at item `from`. */
  function Numbered<T>(list: seq<T>, from: int, size: nat, number: int): Reply<T>
    requires size > 0
  {
    if from < 0 || from + size >= |list| then Page(if 0 <= from <= |list| then list[from..] else [], Last)
    else Page(list[from..from + size], Current(number))
  }

  function Honest<T>(list: seq<T>, size: nat): Server<T>
    requires size > 0
  {
    (_: nat, page: int) => HonestPage(list, size, page)
  }

  /** From page `i + 1` on, the walk is served exactly the rest of the list. */
  lemma {:induction false} HonestRest<T>(list: seq<T>, size: nat, i: nat, page: int)
    requires size > 0 && i <= |list| && i * size <= |list|
    requires page == i + 1 || (i == 0 && page == 0)
    ensures Ends(Honest(list, size), (_: nat) => false, i, page, |list|)
    ensures Served(Honest(list, size), (_: nat) => false, i, page, |list|) == Some(list[i * size..])
    decreases |list| - i
  {
    var from := i * size;
    assert (i + 1) * size == from + size;
    assert Honest(list, size)(i, page) == Numbered(list, from, size, i + 1);
    if from + size < |list| {
      AtLeast(i + 1, size);
      HonestRest(list, size, i + 1, i + 2);
      assert list[from..from + size] + list[from + size..] == list[from..];
    }
  }

  lemma AtLeast(a: nat, b: nat)
    requires b >= 1
    ensures a * b >= a
  {
    assert a * b == a + a * (b - 1);
  }

  /** Against an honest pager over a keyed list, with any page size, the walk ends and reproduces that list. */
  lemma HonestListIsReproduced<T, K>(list: seq<T>, size: nat, key: T -> K)
    requires size > 0 && DistinctKeys(list, key)
    ensures Ends(Honest(list, size), (_: nat) => false, 0, 0, |list|)
    ensures Served(Honest(list, size), (_: nat) => false, 0, 0, |list|) == Some(list)
    ensures FirstOccurrences(list, key) == list
  {
    HonestRest(list, size, 0, 0);
    assert list[0..] == list;
    DistinctIsKept(list, key);
  }
}
