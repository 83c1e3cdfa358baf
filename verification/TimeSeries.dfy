/** The newest usable point of each series of a monitoring response. */
module TimeSeries {
  import opened Wrappers

  /** A sample value: the API uses NaN to say it has nothing for that moment. */
  datatype Value = NaN | Number(n: real)

  /** One timestamped value; the time is in milliseconds. */
  datatype SamplePair = SamplePair(time: int, value: Value)

  datatype Series = Series(labels: map<string, string>, values: seq<SamplePair>)

  /** A response: missing altogether, or carrying a status and its series. */
  datatype Response = NoResponse | Response(status: string, result: seq<Series>)

  datatype Error = ErrNoResponse | ErrNotSuccess

  datatype Result<+T> = Ok(value: T) | Err(error: Error)

  const SUCCESS := "success"

  datatype Sample = Sample(labels: map<string, string>, value: real, time: int)
  {
    /** The named label, or the empty string when the series does not carry it. */
    function Label(name: string): string {
      if name in labels then labels[name] else ""
    }
  }

  predicate Usable(p: SamplePair) {
    p.value.Number?
  }

  /** `at` is the first of the usable points that no usable point is newer than. */
  predicate IsNewest(values: seq<SamplePair>, at: nat) {
    && at < |values| && Usable(values[at])
    && (forall j :: 0 <= j < |values| && Usable(values[j]) ==> values[j].time <= values[at].time)
    && (forall j :: 0 <= j < at && Usable(values[j]) ==> values[j].time < values[at].time)
  }

  predicate NothingUsable(values: seq<SamplePair>) {
    forall j :: 0 <= j < |values| ==> !Usable(values[j])
  }

  /** At most one point qualifies. */
  lemma NewestIsUnique(values: seq<SamplePair>, j: nat, k: nat)
    requires IsNewest(values, j) && IsNewest(values, k)
    ensures j == k
  {
  }

  /** Where the newest of the first `k` points is, or None when none of them is usable. */
  function NewestAt(values: seq<SamplePair>, k: nat): (at: Option<nat>)
    requires k <= |values|
    ensures at.Some? ==> at.value < k && Usable(values[at.value])
  {
    if k == 0 then None
    else
      var before := NewestAt(values, k - 1);
      if Usable(values[k - 1]) && (before.None? || values[k - 1].time > values[before.value].time) then Some(k - 1)
      else before
  }

  lemma {:induction false} NewestAtIsNewest(values: seq<SamplePair>, k: nat)
    requires k <= |values|
    ensures NewestAt(values, k).None? ==> NothingUsable(values[..k])
    ensures NewestAt(values, k).Some? ==> IsNewest(values[..k], NewestAt(values, k).value)
  {
    if k > 0 {
      NewestAtIsNewest(values, k - 1);
      assert forall j :: 0 <= j < k - 1 ==> values[..k][j] == values[..k - 1][j];
    }
  }

  /** The scan for the newest point; it does not rely on the points' order in time. */
  method Newest(values: seq<SamplePair>) returns (best: SamplePair, found: bool)
    ensures !found <==> NothingUsable(values)
    ensures found <==> NewestAt(values, |values|).Some?
    ensures found ==> IsNewest(values, NewestAt(values, |values|).value)
    ensures found ==> best == values[NewestAt(values, |values|).value]
  {
    best, found := SamplePair(0, Number(0.0)), false;
    for i := 0 to |values|
      invariant found <==> NewestAt(values, i).Some?
      invariant found ==> best == values[NewestAt(values, i).value]
    {
      if Usable(values[i]) && (!found || values[i].time > best.time) {
        best, found := values[i], true;
      }
    }
    NewestAtIsNewest(values, |values|);
    assert values[..|values|] == values;
  }

  /** What one series contributes: its newest usable point under its own labels, if it has one. */
  function SampleOf(series: Series): (sample: Option<Sample>) {
    match NewestAt(series.values, |series.values|)
    case None => None
    case Some(k) => Some(Sample(series.labels, series.values[k].value.n, series.values[k].time))
  }

  /** The newest sample of each of the first `k` series that has a usable point, in their order. */
  function SamplesOf(result: seq<Series>, k: nat): (samples: seq<Sample>)
    requires k <= |result|
  {
    if k == 0 then []
    else
      match SampleOf(result[k - 1])
      case None => SamplesOf(result, k - 1)
      case Some(sample) => SamplesOf(result, k - 1) + [sample]
  }

  function Samples(result: seq<Series>): seq<Sample> {
    SamplesOf(result, |result|)
  }

  method Latest(resp: Response) returns (r: Result<seq<Sample>>)
    ensures resp.NoResponse? ==> r == Err(ErrNoResponse)
    ensures resp.Response? && resp.status != SUCCESS ==> r == Err(ErrNotSuccess)
    ensures resp.Response? && resp.status == SUCCESS ==> r == Ok(Samples(resp.result))
  {
    if resp.NoResponse? {
      return Err(ErrNoResponse);
    }
    if resp.status != SUCCESS {
      return Err(ErrNotSuccess);
    }
    var samples: seq<Sample> := [];
    for i := 0 to |resp.result|
      invariant samples == SamplesOf(resp.result, i)
    {
      var series := resp.result[i];
      var point, ok := Newest(series.values);
      if ok {
        samples := samples + [Sample(series.labels, point.value.n, point.time)];
      }
    }
    r := Ok(samples);
  }

  /** The sample is the newest usable point of the series, under the series' labels. */
  ghost predicate IsNewestOf(sample: Sample, series: Series) {
    && sample.labels == series.labels
    && exists at: nat ::
         && IsNewest(series.values, at)
         && series.values[at] == SamplePair(sample.time, Number(sample.value))
  }

  lemma SampleIsTheNewest(series: Series)
    ensures SampleOf(series).None? <==> NothingUsable(series.values)
    ensures SampleOf(series).Some? ==> IsNewestOf(SampleOf(series).value, series)
  {
    NewestAtIsNewest(series.values, |series.values|);
    assert series.values[..|series.values|] == series.values;
    if SampleOf(series).Some? {
      var at := NewestAt(series.values, |series.values|).value;
      assert IsNewest(series.values, at);
    }
  }

  /** Where the samples come from: the places of the series that have one, in order. */
  lemma {:induction false} PlacesOf(result: seq<Series>, k: nat) returns (from: seq<nat>)
    requires k <= |result|
    ensures |from| == |SamplesOf(result, k)|
    ensures forall i :: 0 <= i < |from| ==> from[i] < k && SampleOf(result[from[i]]) == Some(SamplesOf(result, k)[i])
    ensures forall i, j :: 0 <= i < j < |from| ==> from[i] < from[j]
    ensures forall m :: 0 <= m < k && SampleOf(result[m]).Some? ==> m in from
  {
    if k == 0 {
      from := [];
    } else {
      from := PlacesOf(result, k - 1);
      if SampleOf(result[k - 1]).Some? {
        from := from + [k - 1];
      }
    }
  }

  /**
   Every sample handed on is the newest usable point of a series of its own, the
   series appear in their own order, and no series with a usable point is left out.
   */
  lemma SamplesComeFromSeries(result: seq<Series>) returns (from: seq<nat>)
    ensures |from| == |Samples(result)|
    ensures forall i :: 0 <= i < |from| ==> from[i] < |result| && IsNewestOf(Samples(result)[i], result[from[i]])
    ensures forall i, j :: 0 <= i < j < |from| ==> from[i] < from[j]
    ensures forall m :: 0 <= m < |result| && !NothingUsable(result[m].values) ==> m in from
  {
    from := PlacesOf(result, |result|);
    forall i | 0 <= i < |from| ensures IsNewestOf(Samples(result)[i], result[from[i]]) {
      SampleIsTheNewest(result[from[i]]);
    }
    forall m | 0 <= m < |result| && !NothingUsable(result[m].values) ensures m in from {
      SampleIsTheNewest(result[m]);
    }
  }
}
