/** Sample rate and time axis of a force-sensitive-resistor recording
    (`calcHz` and the rate choice and time loop of `readRespData`). */
module SampleRate {
  import opened PyLists

  /** The rate assumed when the recording carries no millisecond timestamps. */
  const DefaultHz: real := 11.7

  /** One line of a recording, already split: whether it contains a ';' (a
      timestamped line), the number before its first ';' (milliseconds), and
      its last space-separated field (the sensor reading). */
  datatype Line = Line(stamped: bool, millis: real, value: int)

  /** The outcome of the rate search: a rate, no rate at all (the variable is
      never assigned), or the exception `calcHz` raised. */
  datatype Rate = Hz(hz: real) | Unbound | Failed(error: PyError)

  /** The values and time axis `readRespData` returns. */
  datatype RespData = RespData(vals: seq<int>, timeList: seq<real>)

  /** Milliseconds to seconds, element by element. */
  function ToSeconds(millis: seq<real>): (seconds: seq<real>)
    ensures |seconds| == |millis|
    ensures forall k :: 0 <= k < |seconds| ==> seconds[k] * 1000.0 == millis[k]
  {
    seq(|millis|, k requires 0 <= k < |millis| => millis[k] / 1000.0)
  }

  /** `calcHz`: the number of timestamps divided by the gap, in seconds, between
      the first two. Too few timestamps raise IndexError, two equal ones
      ZeroDivisionError. */
  function CalcHz(millis: seq<real>): (r: Result<real>)
    ensures r.Ok? <==> |millis| >= 2 && millis[0] != millis[1]
    ensures |millis| < 2 ==> r == Err(IndexError)
    ensures |millis| >= 2 && millis[0] == millis[1] ==> r == Err(ZeroDivisionError)
    ensures r.Ok? ==> r.value != 0.0 && r.value * (millis[1] - millis[0]) == |millis| as real * 1000.0
  {
    var seconds := ToSeconds(millis);
    if |seconds| < 2 then Err(IndexError)
    else
      var gap := seconds[1] - seconds[0];
      assert gap * 1000.0 == millis[1] - millis[0];
      if gap == 0.0 then Err(ZeroDivisionError)
      else
        var hz := |seconds| as real / gap;
        assert hz * gap == |seconds| as real;
        assert hz * (millis[1] - millis[0]) == hz * gap * 1000.0;
        Ok(hz)
  }

  /** With the two timestamps it is called with, `calcHz` yields 2000 / (m1 - m0):
      one step of the time axis is half the measured gap between the stamps. */
  lemma {:induction false} CalcHzOfTwoStamps(m0: real, m1: real)
    requires m0 != m1
    ensures CalcHz([m0, m1]).Ok?
    ensures CalcHz([m0, m1]).value == 2000.0 / (m1 - m0)
    ensures 1.0 / CalcHz([m0, m1]).value == ((m1 - m0) / 1000.0) / 2.0
  {
    var hz := CalcHz([m0, m1]).value;
    assert hz * (m1 - m0) == 2000.0;
  }

  /** The rate `readRespData` settles on, by cases on the first two lines:
      a line without ';' among them gives the default rate; two timestamped
      lines give `calcHz` of their stamps; fewer than two lines, all
      timestamped, leave the rate unassigned. */
  function RateOf(lines: seq<Line>): (r: Rate)
    ensures r.Unbound? <==> |lines| < 2 && forall k :: 0 <= k < |lines| ==> lines[k].stamped
    ensures (exists k :: 0 <= k < |lines| && k < 2 && !lines[k].stamped) ==> r == Hz(DefaultHz)
    ensures r.Hz? ==> r.hz != 0.0
    ensures r.Failed? <==> |lines| >= 2 && lines[0].stamped && lines[1].stamped && lines[0].millis == lines[1].millis
    ensures r.Failed? ==> r.error == ZeroDivisionError
    ensures |lines| >= 2 && lines[0].stamped && lines[1].stamped && lines[0].millis != lines[1].millis ==>
              r == Hz(2000.0 / (lines[1].millis - lines[0].millis))
  {
    if |lines| == 0 then Unbound
    else if !lines[0].stamped then Hz(DefaultHz)
    else if |lines| == 1 then Unbound
    else if !lines[1].stamped then Hz(DefaultHz)
    else
      CalcHzOfTwoStampsIfDistinct(lines[0].millis, lines[1].millis);
      match CalcHz([lines[0].millis, lines[1].millis])
      case Ok(hz) => Hz(hz)
      case Err(e) => Failed(e)
  }

  lemma CalcHzOfTwoStampsIfDistinct(m0: real, m1: real)
    ensures m0 != m1 ==> CalcHz([m0, m1]) == Ok(2000.0 / (m1 - m0))
  {
    if m0 != m1 { CalcHzOfTwoStamps(m0, m1); }
  }

  /** The rate loop of `readRespData`: collect timestamps line by line, fall
      back to the default rate at the first line without ';', and stop with
      `calcHz` as soon as two timestamps are in hand. */
  method SelectRate(lines: seq<Line>) returns (rate: Rate)
    ensures rate == RateOf(lines)
  {
    var millis: seq<real> := [];
    rate := Unbound;
    var i := 0;
    while i < |lines|
      invariant 0 <= i <= |lines| && i < 2
      invariant |millis| == i
      invariant forall k :: 0 <= k < i ==> lines[k].stamped && millis[k] == lines[k].millis
      invariant rate == Unbound
    {
      var line := lines[i];
      if line.stamped {
        millis := millis + [line.millis];
      } else {
        rate := Hz(DefaultHz);
        break;
      }
      if |millis| == 2 {
        assert millis == [lines[0].millis, lines[1].millis];
        var hz := CalcHz(millis);
        rate := match hz case Ok(v) => Hz(v) case Err(e) => Failed(e);
        break;
      }
      i := i + 1;
    }
  }

  /** The time of every sample, `i / Hz`. */
  function AxisTimes(n: nat, hz: real): (ts: seq<real>)
    requires hz != 0.0
    ensures |ts| == n
    ensures forall i :: 0 <= i < n ==> ts[i] * hz == i as real
  {
    seq(n, i requires 0 <= i < n => i as real / hz)
  }

  /** The time loop of `readRespData`: append `i / Hz` for every reading. */
  method TimeAxis(n: nat, hz: real) returns (timeList: seq<real>)
    requires hz != 0.0
    ensures timeList == AxisTimes(n, hz)
  {
    timeList := [];
    for i := 0 to n
      invariant |timeList| == i
      invariant forall k :: 0 <= k < i ==> timeList[k] == k as real / hz
    {
      timeList := timeList + [i as real / hz];
    }
  }

  /** Consecutive samples are one period `1 / Hz` apart, starting at zero. */
  lemma AxisSpacing(n: nat, hz: real, i: nat)
    requires hz != 0.0 && 0 < n && i + 1 < n
    ensures AxisTimes(n, hz)[0] == 0.0
    ensures AxisTimes(n, hz)[i + 1] - AxisTimes(n, hz)[i] == 1.0 / hz
  {
    var ts := AxisTimes(n, hz);
    assert ts[i + 1] == (i + 1) as real / hz && ts[i] == i as real / hz;
    assert (i + 1) as real / hz - i as real / hz == 1.0 / hz;
  }

  /** With a positive rate the time axis is strictly increasing. */
  lemma AxisIncreasing(n: nat, hz: real)
    requires hz > 0.0
    ensures StrictlyIncreasing(AxisTimes(n, hz))
  {
    var ts := AxisTimes(n, hz);
    forall i, j | 0 <= i < j < n ensures ts[i] < ts[j] {
      assert ts[i] * hz < ts[j] * hz;
    }
  }

  /** The sensor values, one per line. */
  function Values(lines: seq<Line>): (vals: seq<int>)
    ensures |vals| == |lines|
    ensures forall k :: 0 <= k < |lines| ==> vals[k] == lines[k].value
  {
    seq(|lines|, k requires 0 <= k < |lines| => lines[k].value)
  }

  /** `readRespData` on already-parsed lines: the values, and a time axis at the
      chosen rate. `calcHz` failing aborts; an unassigned rate aborts with
      UnboundLocalError as soon as the time loop first runs, so an empty
      recording still succeeds. */
  method ReadRespData(lines: seq<Line>) returns (r: Result<RespData>)
    ensures RateOf(lines).Failed? ==> r == Err(RateOf(lines).error)
    ensures RateOf(lines).Unbound? && |lines| > 0 ==> r == Err(UnboundLocalError)
    ensures RateOf(lines).Unbound? && |lines| == 0 ==> r == Ok(RespData([], []))
    ensures RateOf(lines).Hz? ==> r == Ok(RespData(Values(lines), AxisTimes(|lines|, RateOf(lines).hz)))
  {
    var vals := Values(lines);
    var rate := SelectRate(lines);
    match rate
    case Failed(e) =>
      r := Err(e);
    case Unbound =>
      if |vals| == 0 {
        r := Ok(RespData(vals, []));
      } else {
        r := Err(UnboundLocalError);
      }
    case Hz(hz) =>
      var timeList := TimeAxis(|vals|, hz);
      r := Ok(RespData(vals, timeList));
  }
}
