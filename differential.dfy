/** The first-order discrete differential of a respiration series (`calcDifferential`). */
module Differential {
  import opened PyLists

  /** `np.diff(vals, n = 1)`: forward differences, one fewer than the values. */
  function Diff(vals: seq<real>): (d: seq<real>)
  {
    if |vals| == 0 then []
    else seq(|vals| - 1, k requires 0 <= k < |vals| - 1 => vals[k + 1] - vals[k])
  }

  /** The inverse of `Diff`: the running sums of `d` starting from `start`. */
  function Cumulate(start: real, d: seq<real>): (vals: seq<real>)
    ensures |vals| == |d| + 1 && vals[0] == start
    decreases |d|
  {
    if |d| == 0 then [start] else [start] + Cumulate(start + d[0], d[1..])
  }

  /** Summing the differences back up from the first value recovers the series. */
  lemma {:induction false} CumulateOfDiff(vals: seq<real>)
    requires |vals| > 0
    ensures Cumulate(vals[0], Diff(vals)) == vals
    decreases |vals|
  {
    if |vals| > 1 {
      var d := Diff(vals);
      assert d[0] == vals[1] - vals[0];
      assert d[1..] == Diff(vals[1..]);
      CumulateOfDiff(vals[1..]);
      assert vals == [vals[0]] + vals[1..];
    }
  }

  /** Differencing running sums gives back the increments. */
  lemma {:induction false} DiffOfCumulate(start: real, d: seq<real>)
    ensures Diff(Cumulate(start, d)) == d
    decreases |d|
  {
    if |d| > 0 {
      var vals := Cumulate(start, d);
      DiffOfCumulate(start + d[0], d[1..]);
      assert vals[1..] == Cumulate(start + d[0], d[1..]);
      assert Diff(vals)[1..] == Diff(vals[1..]);
      assert Diff(vals) == [d[0]] + d[1..];
    }
  }

  /** The two lists `calcDifferential` returns. */
  datatype Series = Series(diff: seq<real>, diffTimes: seq<real>)

  /** `calcDifferential`: the differences of `vals`, each paired with the time
      `(t[k+1] - t[k]) + t[k]` (the mean of a single number is that number),
      which in exact arithmetic is the time of the later sample. A time list
      shorter than the values raises IndexError. */
  method CalcDifferential(vals: seq<real>, timeList: seq<real>) returns (r: Result<Series>)
    ensures r.Err? <==> 2 <= |vals| && |timeList| < |vals|
    ensures r.Err? ==> r.error == IndexError
    ensures r.Ok? ==> r.value.diff == Diff(vals) && |r.value.diffTimes| == |r.value.diff|
    ensures r.Ok? && |vals| > 0 ==> |r.value.diff| == |vals| - 1
    ensures r.Ok? ==> forall k :: 0 <= k < |r.value.diff| ==> r.value.diff[k] == vals[k + 1] - vals[k]
    ensures r.Ok? ==> forall k :: 0 <= k < |r.value.diffTimes| ==> r.value.diffTimes[k] == timeList[k + 1]
    ensures r.Ok? && StrictlyIncreasing(timeList) ==> StrictlyIncreasing(r.value.diffTimes)
  {
    var diff := Diff(vals);
    var diffTimes := [];
    var i := 1;
    while i < |vals|
      invariant 1 <= i && (i <= |vals| || i == 1)
      invariant i <= |timeList| || i == 1
      invariant |diffTimes| == i - 1
      invariant forall k :: 0 <= k < i - 1 ==> diffTimes[k] == timeList[k + 1]
    {
      if i >= |timeList| {
        return Err(IndexError);
      }
      var end := timeList[i];
      var start := timeList[i - 1];
      diffTimes := diffTimes + [(end - start) + start];
      i := i + 1;
    }
    assert |diff| == if |vals| == 0 then 0 else |vals| - 1;
    r := Ok(Series(diff, diffTimes));
  }
}
