/** The tag and region filter, and the one shape of it the API can apply itself. */
module Filters {
  import opened Wrappers

  /** A condition nobody configured is None and holds for everything. */
  datatype Filter = Filter(tags: Option<set<string>>, regions: Option<set<string>>)
  {
    predicate Tagged(carried: seq<string>) {
      tags.None? || exists i :: 0 <= i < |carried| && carried[i] in tags.value
    }

    predicate Lies(region: string) {
      regions.None? || region in regions.value
    }

    predicate Matches(carried: seq<string>, region: string) {
      Tagged(carried) && Lies(region)
    }

    /** Exactly one tag and no region. */
    predicate IsSingleTag(tag: string) {
      tags == Some({tag}) && regions == None
    }

    method MatchTags(carried: seq<string>) returns (matched: bool)
      ensures matched == Tagged(carried)
    {
      if tags.None? {
        return true;
      }
      for i := 0 to |carried|
        invariant forall j :: 0 <= j < i ==> carried[j] !in tags.value
      {
        if carried[i] in tags.value {
          return true;
        }
      }
      return false;
    }

    method Match(carried: seq<string>, region: string) returns (matched: bool)
      ensures matched == Matches(carried, region)
    {
      matched := MatchTags(carried);
      matched := matched && (regions.None? || region in regions.value);
    }

    /** The filter's one tag, when it is exactly one tag and no region. */
    method SingleTag() returns (tag: Option<string>)
      ensures tag.Some? ==> IsSingleTag(tag.value)
      ensures tag.None? ==> forall t :: !IsSingleTag(t)
    {
      if tags.None? || |tags.value| != 1 || regions.Some? {
        assert forall t: string :: |{t}| == 1;
        return None;
      }
      var t :| t in tags.value;
      OnlyMember(tags.value, t);
      tag := Some(t);
    }
  }

  lemma OnlyMember(s: set<string>, t: string)
    requires |s| == 1 && t in s
    ensures s == {t}
  {
    assert |s - {t}| == 0;
    assert s == (s - {t}) + {t};
  }

  /** The members of a list, or None for an empty one, so that an empty list asks for nothing. */
  method AsSet(values: seq<string>) returns (members: Option<set<string>>)
    ensures members.None? <==> values == []
    ensures members.Some? ==> forall v :: v in members.value <==> v in values
  {
    if |values| == 0 {
      return None;
    }
    var collected: set<string> := {};
    for i := 0 to |values|
      invariant forall v :: v in collected <==> v in values[..i]
    {
      collected := collected + {values[i]};
    }
    assert values[..|values|] == values;
    members := Some(collected);
  }

  /** The filter for these lists: one of the tags (if any are named), in one of the regions (if any are). */
  method New(tags: seq<string>, regions: seq<string>) returns (f: Filter)
    ensures forall carried, region ::
      f.Matches(carried, region) <==>
        && (tags == [] || exists i :: 0 <= i < |carried| && carried[i] in tags)
        && (regions == [] || region in regions)
  {
    var t := AsSet(tags);
    var r := AsSet(regions);
    f := Filter(t, r);
  }

  /** Some string is not in a finite set: one longer than all of them. */
  lemma LongerString(s: set<string>) returns (longer: string)
    ensures forall member :: member in s ==> |member| < |longer|
  {
    longer := "x";
    var rest := s;
    while rest != {}
      invariant rest <= s
      invariant forall member :: member in s - rest ==> |member| < |longer|
      decreases rest
    {
      var member :| member in rest;
      rest := rest - {member};
      if |member| >= |longer| {
        longer := member + "x";
      }
    }
  }

  /** A filter is a single tag exactly when it admits precisely the resources carrying that tag. */
  lemma SingleTagAdmitsThatTag(f: Filter, tag: string)
    ensures f.IsSingleTag(tag) <==>
              forall carried: seq<string>, region :: f.Matches(carried, region) <==> tag in carried
  {
    if forall carried: seq<string>, region :: f.Matches(carried, region) <==> tag in carried {
      assert !f.Matches([], "");
      var far := LongerString(if f.regions.Some? then f.regions.value else {});
      assert f.Matches([tag], far) <==> tag in [tag];
      assert f.regions == None;
      assert f.Matches([tag], "") && [tag][0] == tag;
      forall t | t in f.tags.value ensures t == tag {
        assert [t][0] in f.tags.value;
        assert f.Matches([t], "") <==> tag in [t];
      }
      assert f.tags.value == {tag};
    }
  }
}
