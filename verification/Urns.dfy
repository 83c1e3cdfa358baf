/** Resource URNs, their types, and the order the types are reported in. */
module Urns {
  import opened Wrappers

  /** Where the first ':' at or after `from` is. */
  function Colon(s: string, from: nat): (at: Option<nat>)
    requires from <= |s|
    ensures at.Some? ==> from <= at.value < |s|
    decreases |s| - from
  {
    if from == |s| then None else if s[from] == ':' then Some(from) else Colon(s, from + 1)
  }

  /** Nothing but the position of the first ':' will do. */
  lemma {:induction false} ColonIsTheFirst(s: string, from: nat, at: nat)
    requires from <= at <= |s|
    requires forall j :: from <= j < at ==> s[j] != ':'
    ensures at < |s| && s[at] == ':' ==> Colon(s, from) == Some(at)
    ensures at == |s| ==> Colon(s, from) == None
    decreases at - from
  {
    if from < at {
      ColonIsTheFirst(s, from + 1, at);
    }
  }

  lemma {:induction false} NoColonBefore(s: string, from: nat)
    requires from <= |s|
    ensures var at := if Colon(s, from).Some? then Colon(s, from).value else |s|;
            (at < |s| ==> s[at] == ':') && forall j :: from <= j < at ==> s[j] != ':'
    decreases |s| - from
  {
    if from < |s| && s[from] != ':' {
      NoColonBefore(s, from + 1);
    }
  }

  const UNKNOWN := "unknown"

  /** The middle part of `do:<type>:<id>`; anything of another shape is unknown. */
  function UrnType(urn: string): string {
    match Colon(urn, 0)
    case None => UNKNOWN
    case Some(a) =>
      match Colon(urn, a + 1)
      case None => UNKNOWN
      case Some(b) => if urn[..a] == "do" && b > a + 1 then urn[a + 1..b] else UNKNOWN
  }

  /** The type of a well-formed URN is what stands between its first two colons. */
  lemma TypeOfAUrn(kind: string, id: string)
    requires kind != "" && forall j :: 0 <= j < |kind| ==> kind[j] != ':'
    ensures UrnType("do:" + kind + ":" + id) == kind
  {
    var urn := "do:" + kind + ":" + id;
    assert urn[0] == 'd' && urn[1] == 'o' && urn[2] == ':';
    ColonIsTheFirst(urn, 0, 2);
    assert forall j :: 3 <= j < 3 + |kind| ==> urn[j] == kind[j - 3];
    assert urn[3 + |kind|] == ':';
    ColonIsTheFirst(urn, 3, 3 + |kind|);
    assert urn[..2] == "do" && urn[3..3 + |kind|] == kind;
  }

  /** A type other than unknown is only ever given to a URN of that shape. */
  lemma OnlyUrnsHaveATypeOfTheirOwn(urn: string)
    requires UrnType(urn) != UNKNOWN
    ensures exists id :: urn == "do:" + UrnType(urn) + ":" + id
    ensures UrnType(urn) != "" && forall j :: 0 <= j < |UrnType(urn)| ==> UrnType(urn)[j] != ':'
  {
    var a := Colon(urn, 0).value;
    var b := Colon(urn, a + 1).value;
    var kind, id := urn[a + 1..b], urn[b + 1..];
    NoColonBefore(urn, 0);
    NoColonBefore(urn, a + 1);
    assert UrnType(urn) == kind && urn[..a] == "do";
    assert urn == urn[..a] + [urn[a]] + kind + [urn[b]] + id;
    assert "do" + [':'] == "do:" && [urn[b]] == ":";
    assert urn == "do:" + kind + ":" + id;
    assert forall j :: 0 <= j < |kind| ==> kind[j] == urn[a + 1 + j];
  }

  // ----- The order of strings -----

  predicate Less(a: string, b: string) {
    b != "" && (a == "" || a[0] < b[0] || (a[0] == b[0] && Less(a[1..], b[1..])))
  }

  /** Where two strings first differ. */
  predicate DifferFirst(a: string, b: string, k: nat) {
    && k <= |a| && k <= |b| && a[..k] == b[..k]
    && (k < |a| && k < |b| ==> a[k] != b[k])
  }

  /** The order is that of the first characters that differ, a prefix coming before what it is a prefix of. */
  lemma {:induction false} LessIsLexicographic(a: string, b: string, k: nat)
    requires DifferFirst(a, b, k)
    ensures Less(a, b) <==> k < |b| && (k == |a| || a[k] < b[k])
  {
    if k > 0 {
      assert a[..k][0] == a[0] && b[..k][0] == b[0];
      assert a[1..][..k - 1] == a[..k][1..] && b[1..][..k - 1] == b[..k][1..];
      LessIsLexicographic(a[1..], b[1..], k - 1);
    }
  }

  lemma {:induction false} LessIsIrreflexive(a: string)
    ensures !Less(a, a)
  {
    if a != "" {
      LessIsIrreflexive(a[1..]);
    }
  }

  lemma {:induction false} LessIsTransitive(a: string, b: string, c: string)
    requires Less(a, b) && Less(b, c)
    ensures Less(a, c)
  {
    if a != "" && a[0] == b[0] && b[0] == c[0] {
      LessIsTransitive(a[1..], b[1..], c[1..]);
    }
  }

  lemma {:induction false} LessIsTotal(a: string, b: string)
    ensures Less(a, b) || a == b || Less(b, a)
  {
    if a != "" && b != "" && a[0] == b[0] {
      LessIsTotal(a[1..], b[1..]);
      assert a == [a[0]] + a[1..] && b == [b[0]] + b[1..];
    }
  }
}
