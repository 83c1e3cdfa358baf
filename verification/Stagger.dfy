/** How the first refreshes are spread: one window for all collectors, an even share of it each. */
module Stagger {
  import opened Arithmetic

  const SECOND := 1_000_000_000
  const MAX_STAGGER := 3 * SECOND
  const DEFAULT_INTERVAL := 300 * SECOND

  datatype Entry = Entry(name: string, interval: int, timeout: int)

  /** What Register guarantees: time.NewTicker accepts every interval. */
  predicate Registered(entries: seq<Entry>) {
    forall i :: 0 <= i < |entries| ==> entries[i].interval > 0
  }

  /** `window` is the shortest interval, or the ceiling if that is shorter. */
  ghost predicate IsWindow(entries: seq<Entry>, window: int) {
    && window <= 3_000_000_000
    && (forall i :: 0 <= i < |entries| ==> window <= entries[i].interval)
    && (window == 3_000_000_000 || exists i :: 0 <= i < |entries| && entries[i].interval == window)
  }

  function Window(entries: seq<Entry>): int {
    if entries == [] then MAX_STAGGER
    else
      var before := Window(entries[..|entries| - 1]);
      var interval := entries[|entries| - 1].interval;
      if interval < before then interval else before
  }

  lemma {:induction false} WindowIsTheShortest(entries: seq<Entry>)
    ensures IsWindow(entries, Window(entries))
    ensures Registered(entries) ==> Window(entries) > 0
  {
    if entries != [] {
      var m := |entries| - 1;
      WindowIsTheShortest(entries[..m]);
      assert forall i :: 0 <= i < m ==> entries[..m][i] == entries[i];
      if Window(entries) < MAX_STAGGER {
        if Window(entries) == Window(entries[..m]) {
          var i :| 0 <= i < m && entries[..m][i].interval == Window(entries);
          assert entries[i].interval == Window(entries);
        } else {
          assert entries[m].interval == Window(entries);
        }
      }
    }
  }

  method StaggerWindow(entries: seq<Entry>) returns (window: int)
    ensures window == Window(entries)
    ensures IsWindow(entries, window)
  {
    window := MAX_STAGGER;
    for i := 0 to |entries|
      invariant window == Window(entries[..i])
    {
      assert entries[..i + 1][..i] == entries[..i];
      if entries[i].interval < window {
        window := entries[i].interval;
      }
    }
    assert entries[..|entries|] == entries;
    WindowIsTheShortest(entries);
  }

  /** The wait of collector `index` of `count` before its first refresh. */
  function Offset(index: nat, count: nat, window: int): int {
    if index <= 0 || count <= 1 then 0 else window / count * index
  }

  /** The window is shared out evenly: the first collector starts at once, and every next one a share later. */
  lemma OffsetsAreEvenlySpread(index: nat, count: nat, window: int)
    requires index + 1 < count && window > 0
    ensures Offset(0, count, window) == 0
    ensures Offset(index + 1, count, window) == Offset(index, count, window) + window / count
  {
    assert window / count * (index + 1) == window / count * index + window / count;
  }

  /** Every offset lies in the window. */
  lemma OffsetsLieInTheWindow(index: nat, count: nat, window: int)
    requires index < count && window > 0
    ensures 0 <= Offset(index, count, window) < window
  {
    if index > 0 {
      var share := window / count;
      assert window == count * share + window % count;
      assert share * index == share * count - share * (count - index);
      assert share >= 0;
      if share > 0 {
        AtLeastOneTime(share, count - index);
      }
    }
  }

  /** Offsets grow with the registration order exactly when the window has a nanosecond for each. */
  lemma OffsetsAreDistinctWhenTheWindowDivides(count: nat, window: int)
    requires count >= 2 && window > 0
    ensures (forall i: nat, j: nat :: i < j < count ==> Offset(i, count, window) < Offset(j, count, window)) <==>
              window >= count
  {
    var share := window / count;
    assert window == count * share + window % count;
    if window >= count {
      AtMostQuotient(1, count, window);
      forall i: nat, j: nat | i < j < count ensures Offset(i, count, window) < Offset(j, count, window) {
        assert share * j == share * i + share * (j - i);
        AtLeastOneTime(share, j - i);
      }
    } else {
      if share >= 1 {
        AtLeastOneTime(count, share);
      }
      assert Offset(0, count, window) == 0 && Offset(1, count, window) == share * 1;
      assert share < 1;
    }
  }

  /** Nobody's first refresh waits as long as it takes anybody to come up for a second one. */
  lemma FirstRefreshesPrecedeSecondOnes(entries: seq<Entry>, i: nat, j: nat)
    requires Registered(entries) && i < |entries| && j < |entries|
    ensures var window := Window(entries);
            && 0 < window <= MAX_STAGGER
            && 0 <= Offset(i, |entries|, window) < window
            && Offset(i, |entries|, window) < Offset(j, |entries|, window) + entries[j].interval
  {
    WindowIsTheShortest(entries);
    OffsetsLieInTheWindow(i, |entries|, Window(entries));
    OffsetsLieInTheWindow(j, |entries|, Window(entries));
  }
}
