/** What a run of refreshes last learned about a key, as long as the key stayed listed. */
module Histories {
  import opened Wrappers

  /** What one refresh learned: for every key it listed, a value or, if asking for it failed, none. */
  type Round<!K, +V> = map<K, Option<V>>

  ghost function LastKnown<K(!new), V>(log: seq<Round<K, V>>, k: K): Option<V> {
    if log == [] || k !in log[|log| - 1] then None
    else if log[|log| - 1][k].Some? then log[|log| - 1][k]
    else LastKnown(log[..|log| - 1], k)
  }

  lemma LastKnownStep<K(!new), V>(log: seq<Round<K, V>>, round: Round<K, V>, k: K)
    ensures LastKnown(log + [round], k) ==
            if k !in round then None else if round[k].Some? then round[k] else LastKnown(log, k)
  {
    assert (log + [round])[..|log|] == log;
  }

  /** Refresh `i` learned the value, and every later one listed the key and learned nothing. */
  ghost predicate LearnedLast<K(!new), V>(log: seq<Round<K, V>>, k: K, i: nat, v: V) {
    && i < |log| && k in log[i] && log[i][k] == Some(v)
    && forall j :: i < j < |log| ==> k in log[j] && log[j][k].None?
  }

  /** What is known is what was learned last while the key was listed without a break. */
  lemma {:induction false} LastKnownIsLearnedLast<K(!new), V>(log: seq<Round<K, V>>, k: K, v: V)
    ensures LastKnown(log, k) == Some(v) <==> exists i :: LearnedLast(log, k, i, v)
  {
    if log != [] {
      var m := |log| - 1;
      var before := log[..m];
      LastKnownIsLearnedLast(before, k, v);
      if k in log[m] && log[m][k].None? {
        forall i: nat ensures LearnedLast(log, k, i, v) <==> LearnedLast(before, k, i, v) {
          if LearnedLast(before, k, i, v) {
            assert forall j :: i < j < m ==> log[j] == before[j];
          }
          if LearnedLast(log, k, i, v) {
            assert forall j :: i <= j < m ==> log[j] == before[j];
          }
        }
      } else if k in log[m] && log[m][k] == Some(v) {
        assert LearnedLast(log, k, m, v);
      }
    }
  }
}
