/** Splitting a differential respiration series into inspiration (rising) and
    expiration (falling) phases (`findRespiratoryPhase`). */
module RespiratoryPhase {
  import opened PyLists

  /** A phase as positions in the differential series: its direction and the
      first and last index of a non-zero value in it. */
  datatype Segment = Segment(inspiration: bool, first: nat, last: nat)

  /** A `[start, end]` pair of times. */
  datatype Interval = Interval(start: real, end: real)

  /** The two lists of the result dictionary, under 'insp' and 'exp'. */
  datatype Phases = Phases(insp: seq<Interval>, exp: seq<Interval>)

  /** The sign a value must have to belong to a phase of the given direction. */
  predicate Signed(x: real, inspiration: bool)
  {
    if inspiration then x > 0.0 else x < 0.0
  }

  predicate Within(segs: seq<Segment>, n: nat)
  {
    forall k :: 0 <= k < |segs| ==> segs[k].first <= segs[k].last < n
  }

  /** The phases after one more value `x` at index `n`: zero changes nothing, a
      value of the open phase's sign extends it, any other opens a new phase. */
  function Extend(segs: seq<Segment>, n: nat, x: real): (segs': seq<Segment>)
  {
    if x == 0.0 then segs
    else if |segs| > 0 && segs[|segs| - 1].inspiration == (x > 0.0) then
      segs[..|segs| - 1] + [segs[|segs| - 1].(last := n)]
    else segs + [Segment(x > 0.0, n, n)]
  }

  /** The phases of a differential series, value by value. */
  function Segments(diff: seq<real>): (segs: seq<Segment>)
    ensures Within(segs, |diff|)
    decreases |diff|
  {
    if |diff| == 0 then []
    else Extend(Segments(diff[..|diff| - 1]), |diff| - 1, diff[|diff| - 1])
  }

  /** A phase starts and ends on a value of its own sign. */
  ghost predicate EndsSigned(diff: seq<real>, segs: seq<Segment>)
    requires Within(segs, |diff|)
  {
    forall k :: 0 <= k < |segs| ==>
      Signed(diff[segs[k].first], segs[k].inspiration) && Signed(diff[segs[k].last], segs[k].inspiration)
  }

  /** A phase holds no value of the opposite sign (zeros inside it are skipped). */
  ghost predicate SameSign(diff: seq<real>, segs: seq<Segment>)
    requires Within(segs, |diff|)
  {
    forall k, j :: 0 <= k < |segs| && segs[k].first <= j <= segs[k].last ==>
      diff[j] == 0.0 || Signed(diff[j], segs[k].inspiration)
  }

  /** Phases come in order and do not overlap. */
  ghost predicate Ordered(segs: seq<Segment>)
  {
    forall k, l :: 0 <= k < l < |segs| ==> segs[k].last < segs[l].first
  }

  /** Neighbouring phases have opposite directions. */
  ghost predicate Alternating(segs: seq<Segment>)
  {
    forall k, l :: 0 <= k < |segs| && 0 <= l < |segs| && l == k + 1 ==> segs[k].inspiration != segs[l].inspiration
  }

  /** Index `j` lies between the first and last index of some phase. */
  ghost predicate InPhase(segs: seq<Segment>, j: int)
  {
    exists k :: 0 <= k < |segs| && segs[k].first <= j <= segs[k].last
  }

  /** Every non-zero value lies in some phase. */
  ghost predicate Covers(diff: seq<real>, segs: seq<Segment>)
  {
    forall j {:trigger InPhase(segs, j)} :: 0 <= j < |diff| && diff[j] != 0.0 ==> InPhase(segs, j)
  }

  /** `segs` lists, in order, the maximal runs of same-signed values of `diff`,
      zeros inside a run being skipped. */
  ghost predicate Segmentation(diff: seq<real>, segs: seq<Segment>)
  {
    Within(segs, |diff|) && EndsSigned(diff, segs) && SameSign(diff, segs)
    && Ordered(segs) && Alternating(segs) && Covers(diff, segs)
  }

  /** `Segments` is exactly the split into maximal same-signed runs. */
  lemma {:induction false} SegmentsAreRuns(diff: seq<real>)
    ensures Segmentation(diff, Segments(diff))
    decreases |diff|
  {
    if |diff| > 0 {
      var n := |diff| - 1;
      var pre, x := diff[..n], diff[n];
      var segs := Segments(pre);
      SegmentsAreRuns(pre);
      assert diff == pre + [x];
      ExtendEndsSigned(pre, segs, x);
      ExtendSameSign(pre, segs, x);
      ExtendOrdered(segs, n, x);
      ExtendAlternating(segs, n, x);
      ExtendCovers(pre, segs, x);
    }
  }

  lemma ExtendEndsSigned(pre: seq<real>, segs: seq<Segment>, x: real)
    requires Within(segs, |pre|) && EndsSigned(pre, segs)
    ensures Within(Extend(segs, |pre|, x), |pre| + 1)
    ensures EndsSigned(pre + [x], Extend(segs, |pre|, x))
  {
    var d, n := pre + [x], |pre|;
    assert forall j :: 0 <= j < n ==> d[j] == pre[j];
    var segs' := Extend(segs, n, x);
    assert forall k :: 0 <= k < |segs| && k < |segs'| - 1 ==> segs'[k] == segs[k];
  }

  lemma ExtendSameSign(pre: seq<real>, segs: seq<Segment>, x: real)
    requires Within(segs, |pre|) && SameSign(pre, segs) && Ordered(segs) && Covers(pre, segs)
    ensures Within(Extend(segs, |pre|, x), |pre| + 1)
    ensures SameSign(pre + [x], Extend(segs, |pre|, x))
  {
    var d, n := pre + [x], |pre|;
    assert forall j :: 0 <= j < n ==> d[j] == pre[j];
    var segs' := Extend(segs, n, x);
    assert forall k :: 0 <= k < |segs| && k < |segs'| - 1 ==> segs'[k] == segs[k];
    if x != 0.0 && |segs| > 0 && segs[|segs| - 1].inspiration == (x > 0.0) {
      var m := |segs| - 1;
      forall j | segs'[m].first <= j <= segs'[m].last
        ensures d[j] == 0.0 || Signed(d[j], segs'[m].inspiration)
      {
        if segs[m].last < j < n && pre[j] != 0.0 {
          // between the old end of the open run and `x` every value is zero
          assert InPhase(segs, j);
        }
      }
    }
  }

  lemma ExtendOrdered(segs: seq<Segment>, n: nat, x: real)
    requires Within(segs, n) && Ordered(segs)
    ensures Ordered(Extend(segs, n, x))
  {
    var segs' := Extend(segs, n, x);
    assert forall k :: 0 <= k < |segs| && k < |segs'| - 1 ==> segs'[k] == segs[k];
  }

  lemma ExtendAlternating(segs: seq<Segment>, n: nat, x: real)
    requires Alternating(segs)
    ensures Alternating(Extend(segs, n, x))
  {
    var segs' := Extend(segs, n, x);
    assert forall k :: 0 <= k < |segs| && k < |segs'| - 1 ==> segs'[k] == segs[k];
  }

  lemma ExtendCovers(pre: seq<real>, segs: seq<Segment>, x: real)
    requires Within(segs, |pre|) && Covers(pre, segs)
    ensures Covers(pre + [x], Extend(segs, |pre|, x))
  {
    var d, n := pre + [x], |pre|;
    var segs' := Extend(segs, n, x);
    assert forall k :: 0 <= k < |segs| && k < |segs'| - 1 ==> segs'[k] == segs[k];
    forall j | 0 <= j < |d| && d[j] != 0.0
      ensures InPhase(segs', j)
    {
      if j == n {
        assert segs'[|segs'| - 1].first <= j <= segs'[|segs'| - 1].last;
      } else {
        assert pre[j] == d[j] && InPhase(segs, j);
        var k :| 0 <= k < |segs| && segs[k].first <= j <= segs[k].last;
        assert segs'[k].first <= j <= segs'[k].last;
      }
    }
  }

  /** Each non-zero value lies in exactly one phase, and that phase has its sign:
      a positive value is routed to an inspiration, a negative one to an expiration. */
  lemma SignRouting(diff: seq<real>, j: nat)
    requires j < |diff| && diff[j] != 0.0
    ensures exists k :: 0 <= k < |Segments(diff)| && Segments(diff)[k].first <= j <= Segments(diff)[k].last
                        && Segments(diff)[k].inspiration == (diff[j] > 0.0)
    ensures forall k, l :: (0 <= k < |Segments(diff)| && 0 <= l < |Segments(diff)|
                            && Segments(diff)[k].first <= j <= Segments(diff)[k].last
                            && Segments(diff)[l].first <= j <= Segments(diff)[l].last) ==> k == l
  {
    var segs := Segments(diff);
    SegmentsAreRuns(diff);
    assert InPhase(segs, j);
    var k :| 0 <= k < |segs| && segs[k].first <= j <= segs[k].last;
    assert Signed(diff[j], segs[k].inspiration);
  }

  /** Zeros neither extend nor close a phase: rise, pause, rise is one inspiration. */
  lemma ZeroInsideRun()
    ensures Segments([1.0, 0.0, 1.0]) == [Segment(true, 0, 2)]
    ensures Segments([1.0, 0.0, -1.0]) == [Segment(true, 0, 0), Segment(false, 2, 2)]
  {
    assert Segments([1.0]) == [Segment(true, 0, 0)] by { assert [1.0][..0] == []; }
    assert Segments([1.0, 0.0]) == [Segment(true, 0, 0)] by { assert [1.0, 0.0][..1] == [1.0]; }
    assert [1.0, 0.0, 1.0][..2] == [1.0, 0.0];
    assert [1.0, 0.0, -1.0][..2] == [1.0, 0.0];
  }

  /** The `[start, end]` times of the phases of one direction, in order. */
  function Intervals(segs: seq<Segment>, times: seq<real>, inspiration: bool): (ivs: seq<Interval>)
    requires Within(segs, |times|)
    decreases |segs|
  {
    if |segs| == 0 then []
    else
      var s := segs[|segs| - 1];
      Intervals(segs[..|segs| - 1], times, inspiration)
        + (if s.inspiration == inspiration then [Interval(times[s.first], times[s.last])] else [])
  }

  /** The intervals recorded before the final widening step. */
  function Recorded(diff: seq<real>, times: seq<real>): (p: Phases)
    requires Within(Segments(diff), |times|)
  {
    var segs := Segments(diff);
    Phases(Intervals(segs, times, true), Intervals(segs, times, false))
  }

  /** One pair of the rewriting comprehension: `(start, end)` becomes
      `(times[i - 1], times[j + 1])`, where `i` and `j` are the first positions of
      `start` and `end` in `times`, with Python's indexing (`times[-1]` is the
      last time, `times[len(times)]` raises IndexError, a time not in the list
      raises ValueError), evaluated left to right. */
  function WidenPair(iv: Interval, times: seq<real>): (r: Result<Interval>)
  {
    match Index(times, iv.start)
    case Err(e) => Err(e)
    case Ok(i) =>
      match At(times, i - 1)
      case Err(e) => Err(e)
      case Ok(start) =>
        match Index(times, iv.end)
        case Err(e) => Err(e)
        case Ok(j) =>
          match At(times, j + 1)
          case Err(e) => Err(e)
          case Ok(end) => Ok(Interval(start, end))
  }

  /** The rewriting comprehension over one list: the first pair that raises
      decides the exception. */
  function Widen(ivs: seq<Interval>, times: seq<real>): (r: Result<seq<Interval>>)
    ensures r.Ok? ==> |r.value| == |ivs|
    decreases |ivs|
  {
    if |ivs| == 0 then Ok([])
    else
      match Widen(ivs[..|ivs| - 1], times)
      case Err(e) => Err(e)
      case Ok(front) =>
        match WidenPair(ivs[|ivs| - 1], times)
        case Err(e) => Err(e)
        case Ok(iv) => Ok(front + [iv])
  }

  /** Widening a list succeeds exactly when every pair widens, and then widens
      each pair in place; otherwise it raises what the first failing pair raises. */
  lemma {:induction false} WidenElementwise(ivs: seq<Interval>, times: seq<real>)
    ensures Widen(ivs, times).Ok? <==> forall k :: 0 <= k < |ivs| ==> WidenPair(ivs[k], times).Ok?
    ensures Widen(ivs, times).Ok? ==>
      forall k :: 0 <= k < |ivs| ==> Widen(ivs, times).value[k] == WidenPair(ivs[k], times).value
    ensures Widen(ivs, times).Err? ==>
      exists k :: (0 <= k < |ivs| && WidenPair(ivs[k], times).Err?
                   && Widen(ivs, times).error == WidenPair(ivs[k], times).error
                   && forall l :: 0 <= l < k ==> WidenPair(ivs[l], times).Ok?)
    decreases |ivs|
  {
    if |ivs| > 0 {
      var m := |ivs| - 1;
      var front := ivs[..m];
      assert forall k :: 0 <= k < m ==> front[k] == ivs[k];
      WidenElementwise(front, times);
    }
  }

  /** Widening both lists, inspiration first. */
  function WidenPhases(p: Phases, times: seq<real>): (r: Result<Phases>)
  {
    match Widen(p.insp, times)
    case Err(e) => Err(e)
    case Ok(insp) =>
      match Widen(p.exp, times)
      case Err(e) => Err(e)
      case Ok(exp) => Ok(Phases(insp, exp))
  }

  /** Some non-zero value lies beyond the time list, so looking up its time raises IndexError. */
  predicate Untimed(diff: seq<real>, times: seq<real>)
  {
    exists j :: |times| <= j < |diff| && diff[j] != 0.0
  }

  /** When every non-zero value has a time, so has every phase. */
  lemma TimedWithin(diff: seq<real>, times: seq<real>)
    requires !Untimed(diff, times)
    ensures Within(Segments(diff), |times|)
  {
    var segs := Segments(diff);
    SegmentsAreRuns(diff);
    forall k | 0 <= k < |segs| ensures segs[k].last < |times| {
      assert Signed(diff[segs[k].last], segs[k].inspiration);
    }
  }

  /** What `findRespiratoryPhase` returns or raises. */
  function PhaseIntervals(diff: seq<real>, times: seq<real>): (r: Result<Phases>)
  {
    if Untimed(diff, times) then Err(IndexError)
    else
      TimedWithin(diff, times);
      WidenPhases(Recorded(diff, times), times)
  }

  /** The two run buffers and the two recorded lists after a prefix of the series
      whose phases are `segs`: every phase but the last is recorded, and the last
      one is the open buffer, holding its first and last time at its ends. */
  ghost predicate Tracks(segs: seq<Segment>, times: seq<real>,
                         inspRun: seq<real>, expRun: seq<real>, insp: seq<Interval>, exp: seq<Interval>)
  {
    Within(segs, |times|) &&
    if |segs| == 0 then inspRun == [] && expRun == [] && insp == [] && exp == []
    else
      var open := segs[|segs| - 1];
      var closed := segs[..|segs| - 1];
      insp == Intervals(closed, times, true) && exp == Intervals(closed, times, false)
      && var run := if open.inspiration then inspRun else expRun;
      (if open.inspiration then expRun == [] else inspRun == [])
      && run != [] && run[0] == times[open.first] && run[|run| - 1] == times[open.last]
  }

  lemma SegmentsStep(diff: seq<real>, i: nat)
    requires i < |diff|
    ensures Segments(diff[..i + 1]) == Extend(Segments(diff[..i]), i, diff[i])
  {
    assert diff[..i + 1][..i] == diff[..i];
  }

  /** How one more value changes the list of phases: the open phase is
      extended, or a new one is opened behind the others. */
  lemma ExtendShape(segs: seq<Segment>, times: seq<real>, i: nat, x: real)
    requires Within(segs, i) && i < |times|
    ensures Within(Extend(segs, i, x), |times|)
    ensures x != 0.0 && |segs| > 0 && segs[|segs| - 1].inspiration == (x > 0.0) ==>
      var e := Extend(segs, i, x);
      |e| == |segs| && e[..|e| - 1] == segs[..|segs| - 1] && e[|e| - 1] == segs[|segs| - 1].(last := i)
    ensures x != 0.0 && !(|segs| > 0 && segs[|segs| - 1].inspiration == (x > 0.0)) ==>
      var e := Extend(segs, i, x);
      |e| == |segs| + 1 && e[..|e| - 1] == segs && e[|e| - 1] == Segment(x > 0.0, i, i)
  {
    var e := Extend(segs, i, x);
    if x != 0.0 && |segs| > 0 && segs[|segs| - 1].inspiration == (x > 0.0) {
      assert e[..|e| - 1] == segs[..|segs| - 1];
    } else if x != 0.0 {
      assert e[..|e| - 1] == segs;
    }
  }

  /** Each pair is ordered, and the pairs follow one another in time. */
  ghost predicate Ascending(ivs: seq<Interval>)
  {
    (forall k :: 0 <= k < |ivs| ==> ivs[k].start <= ivs[k].end)
    && (forall k, l :: 0 <= k < l < |ivs| ==> ivs[k].end < ivs[l].start)
  }

  lemma {:induction false} IntervalsAscending(segs: seq<Segment>, times: seq<real>, w: bool)
    requires Within(segs, |times|) && Ordered(segs) && StrictlyIncreasing(times)
    ensures Ascending(Intervals(segs, times, w))
    ensures |segs| > 0 ==> forall iv :: iv in Intervals(segs, times, w) ==> iv.end <= times[segs[|segs| - 1].last]
    decreases |segs|
  {
    if |segs| > 0 {
      var m := |segs| - 1;
      var pre, s := segs[..m], segs[m];
      assert forall k :: 0 <= k < m ==> pre[k] == segs[k];
      IntervalsAscending(pre, times, w);
      var front := Intervals(pre, times, w);
      assert forall iv :: iv in front ==> iv.end < times[s.first] by {
        if m > 0 {
          assert pre[m - 1].last < s.first;
        }
      }
    }
  }

  /** With strictly increasing times, the pairs recorded for each direction are
      `[start, end]` with `start <= end`, listed in ascending time order. */
  lemma RecordedAscending(diff: seq<real>, times: seq<real>)
    requires |diff| <= |times| && StrictlyIncreasing(times)
    ensures Ascending(Recorded(diff, times).insp) && Ascending(Recorded(diff, times).exp)
  {
    SegmentsAreRuns(diff);
    IntervalsAscending(Segments(diff), times, true);
    IntervalsAscending(Segments(diff), times, false);
  }

  lemma {:induction false} IntervalsAlternate(segs: seq<Segment>, times: seq<real>)
    requires Within(segs, |times|) && Alternating(segs)
    ensures var d := |Intervals(segs, times, true)| - |Intervals(segs, times, false)|;
      -1 <= d <= 1 && (|segs| > 0 ==> if segs[|segs| - 1].inspiration then 0 <= d else d <= 0)
    decreases |segs|
  {
    if |segs| > 0 {
      var m := |segs| - 1;
      var pre := segs[..m];
      assert forall k :: 0 <= k < m ==> pre[k] == segs[k];
      IntervalsAlternate(pre, times);
      if m > 0 {
        assert segs[m - 1].inspiration != segs[m].inspiration;
      }
    }
  }

  /** Inspirations and expirations take turns, so their counts differ by at most one. */
  lemma RecordedAlternate(diff: seq<real>, times: seq<real>)
    requires |diff| <= |times|
    ensures -1 <= |Recorded(diff, times).insp| - |Recorded(diff, times).exp| <= 1
  {
    SegmentsAreRuns(diff);
    IntervalsAlternate(Segments(diff), times);
  }

  /** The recorded pairs of direction `w` are exactly the first and last times
      of the phases of that direction. */
  lemma {:induction false} IntervalsOf(segs: seq<Segment>, times: seq<real>, w: bool, iv: Interval)
    requires Within(segs, |times|)
    ensures iv in Intervals(segs, times, w) <==>
      exists k :: 0 <= k < |segs| && segs[k].inspiration == w && iv == Interval(times[segs[k].first], times[segs[k].last])
    decreases |segs|
  {
    if |segs| > 0 {
      var m := |segs| - 1;
      var pre := segs[..m];
      assert forall k :: 0 <= k < m ==> pre[k] == segs[k];
      IntervalsOf(pre, times, w, iv);
    }
  }

  /** Between two phases of one direction, the earlier ending before the later
      begins, lies the next phase, of the other direction. */
  lemma PhaseBetween(segs: seq<Segment>, n: nat, k: nat, l: nat)
    requires Within(segs, n) && Ordered(segs) && Alternating(segs)
    requires k < |segs| && l < |segs| && segs[k].inspiration == segs[l].inspiration
    requires segs[k].last < segs[l].first
    ensures k + 1 < l && segs[k + 1].inspiration != segs[k].inspiration
    ensures segs[k].last < segs[k + 1].first && segs[k + 1].last < segs[l].first
  {
    assert segs[k].inspiration != segs[k + 1].inspiration;
  }

  /** Between two pairs of direction `w`, one after the other, lies a pair of
      the other direction: the phase right after the earlier one. */
  lemma IntervalsInterleave(segs: seq<Segment>, times: seq<real>, w: bool, a: Interval, b: Interval)
    requires Within(segs, |times|) && Ordered(segs) && Alternating(segs) && StrictlyIncreasing(times)
    requires a in Intervals(segs, times, w) && b in Intervals(segs, times, w) && a.end < b.start
    ensures exists e :: e in Intervals(segs, times, !w) && a.end < e.start && e.end < b.start
  {
    var k := PhaseOfPair(segs, times, w, a);
    var l := PhaseOfPair(segs, times, w, b);
    PhaseBetween(segs, |times|, k, l);
    var e := PairOfPhase(segs, times, k + 1);
    assert times[segs[k].last] < times[segs[k + 1].first] && times[segs[k + 1].last] < times[segs[l].first];
  }

  /** The phase a recorded pair comes from. */
  lemma PhaseOfPair(segs: seq<Segment>, times: seq<real>, w: bool, iv: Interval) returns (k: nat)
    requires Within(segs, |times|) && iv in Intervals(segs, times, w)
    ensures k < |segs| && segs[k].inspiration == w && iv == Interval(times[segs[k].first], times[segs[k].last])
  {
    IntervalsOf(segs, times, w, iv);
    k :| 0 <= k < |segs| && segs[k].inspiration == w && iv == Interval(times[segs[k].first], times[segs[k].last]);
  }

  /** The pair a phase is recorded as. */
  lemma PairOfPhase(segs: seq<Segment>, times: seq<real>, k: nat) returns (iv: Interval)
    requires Within(segs, |times|) && k < |segs|
    ensures iv == Interval(times[segs[k].first], times[segs[k].last])
    ensures iv in Intervals(segs, times, segs[k].inspiration)
  {
    iv := Interval(times[segs[k].first], times[segs[k].last]);
    IntervalsOf(segs, times, segs[k].inspiration, iv);
  }

  /** Inspirations and expirations interleave in time: between two recorded
      inspirations lies an expiration, and between two expirations an inspiration. */
  lemma RecordedInterleave(diff: seq<real>, times: seq<real>, w: bool, a: Interval, b: Interval)
    requires |diff| <= |times| && StrictlyIncreasing(times)
    requires a in (if w then Recorded(diff, times).insp else Recorded(diff, times).exp)
    requires b in (if w then Recorded(diff, times).insp else Recorded(diff, times).exp)
    requires a.end < b.start
    ensures exists e :: e in (if w then Recorded(diff, times).exp else Recorded(diff, times).insp)
                        && a.end < e.start && e.end < b.start
  {
    SegmentsAreRuns(diff);
    IntervalsInterleave(Segments(diff), times, w, a, b);
  }

  /** A recorded pair containing the time of index `j` comes from a phase
      containing `j`. */
  lemma PairContains(segs: seq<Segment>, times: seq<real>, w: bool, iv: Interval, j: nat)
    requires Within(segs, |times|) && StrictlyIncreasing(times) && j < |times|
    requires iv in Intervals(segs, times, w) && iv.start <= times[j] <= iv.end
    ensures exists l :: 0 <= l < |segs| && segs[l].inspiration == w && segs[l].first <= j <= segs[l].last
                        && iv == Interval(times[segs[l].first], times[segs[l].last])
  {
    IntervalsOf(segs, times, w, iv);
    var l :| 0 <= l < |segs| && segs[l].inspiration == w && iv == Interval(times[segs[l].first], times[segs[l].last]);
    assert segs[l].first <= j <= segs[l].last;
  }

  /** With strictly increasing times, the time of every non-zero value lies in a
      recorded pair of the direction of its sign. */
  lemma RecordedCovers(diff: seq<real>, times: seq<real>, j: nat)
    requires |diff| <= |times| && StrictlyIncreasing(times) && j < |diff| && diff[j] != 0.0
    ensures exists iv :: iv in (if diff[j] > 0.0 then Recorded(diff, times).insp else Recorded(diff, times).exp)
                         && iv.start <= times[j] <= iv.end
  {
    var segs := Segments(diff);
    SignRouting(diff, j);
    var k :| 0 <= k < |segs| && segs[k].first <= j <= segs[k].last && segs[k].inspiration == (diff[j] > 0.0);
    var mine := Interval(times[segs[k].first], times[segs[k].last]);
    IntervalsOf(segs, times, diff[j] > 0.0, mine);
    assert mine.start <= times[j] <= mine.end by {
      assert segs[k].first == j || times[segs[k].first] < times[j];
      assert j == segs[k].last || times[j] < times[segs[k].last];
    }
    assert mine in Intervals(segs, times, diff[j] > 0.0);
  }

  /** ... and in no other pair of either list: two recorded pairs containing the
      time of a non-zero value are the same pair, in the list of its sign. */
  lemma RecordedUnique(diff: seq<real>, times: seq<real>, j: nat, iv: Interval, iv': Interval)
    requires |diff| <= |times| && StrictlyIncreasing(times) && j < |diff| && diff[j] != 0.0
    requires iv in Recorded(diff, times).insp + Recorded(diff, times).exp && iv.start <= times[j] <= iv.end
    requires iv' in Recorded(diff, times).insp + Recorded(diff, times).exp && iv'.start <= times[j] <= iv'.end
    ensures iv == iv'
    ensures iv in (if diff[j] > 0.0 then Recorded(diff, times).insp else Recorded(diff, times).exp)
  {
    var segs := Segments(diff);
    SignRouting(diff, j);
    var k :| 0 <= k < |segs| && segs[k].first <= j <= segs[k].last && segs[k].inspiration == (diff[j] > 0.0);
    PairOfIndex(diff, times, j, k, iv);
    PairOfIndex(diff, times, j, k, iv');
  }

  /** A recorded pair containing the time of index `j` is the pair of the phase `k` holding `j`. */
  lemma PairOfIndex(diff: seq<real>, times: seq<real>, j: nat, k: nat, iv: Interval)
    requires |diff| <= |times| && StrictlyIncreasing(times) && j < |diff| && diff[j] != 0.0
    requires k < |Segments(diff)| && Segments(diff)[k].first <= j <= Segments(diff)[k].last
    requires iv in Recorded(diff, times).insp + Recorded(diff, times).exp && iv.start <= times[j] <= iv.end
    ensures iv == Interval(times[Segments(diff)[k].first], times[Segments(diff)[k].last])
    ensures iv in (if Segments(diff)[k].inspiration then Recorded(diff, times).insp else Recorded(diff, times).exp)
  {
    var segs := Segments(diff);
    SignRouting(diff, j);
    var w := iv in Recorded(diff, times).insp;
    PairContains(segs, times, w, iv, j);
    var l :| 0 <= l < |segs| && segs[l].inspiration == w && segs[l].first <= j <= segs[l].last
             && iv == Interval(times[segs[l].first], times[segs[l].last]);
    assert l == k;
  }

  /** No phase ends on the last time. */
  predicate ClearOfEnd(segs: seq<Segment>, n: nat)
  {
    forall k :: 0 <= k < |segs| ==> segs[k].last + 1 < n
  }

  /** The time before index `j`, Python style: before index 0 comes the last time. */
  function TimeBefore(times: seq<real>, j: nat): (t: real)
    requires j < |times|
  {
    if j == 0 then times[|times| - 1] else times[j - 1]
  }

  /** The widened pairs stated by position: one sample earlier (wrapping to the
      last time before the first sample) and one sample later. */
  function Widened(segs: seq<Segment>, times: seq<real>, w: bool): (ivs: seq<Interval>)
    requires Within(segs, |times|) && ClearOfEnd(segs, |times|)
    decreases |segs|
  {
    if |segs| == 0 then []
    else
      var s := segs[|segs| - 1];
      Widened(segs[..|segs| - 1], times, w)
        + (if s.inspiration == w then [Interval(TimeBefore(times, s.first), times[s.last + 1])] else [])
  }

  /** Some phase of direction `w` ends on the last of `n` times. */
  ghost predicate EndsAtLast(segs: seq<Segment>, n: nat, w: bool)
  {
    exists k :: 0 <= k < |segs| && segs[k].inspiration == w && segs[k].last + 1 == n
  }

  lemma EndsAtLastSnoc(segs: seq<Segment>, n: nat, w: bool)
    requires |segs| > 0
    ensures EndsAtLast(segs, n, w) <==>
      EndsAtLast(segs[..|segs| - 1], n, w) || (segs[|segs| - 1].inspiration == w && segs[|segs| - 1].last + 1 == n)
  {
    var m := |segs| - 1;
    assert forall k :: 0 <= k < m ==> segs[..m][k] == segs[k];
    if EndsAtLast(segs, n, w) {
      var k :| 0 <= k < |segs| && segs[k].inspiration == w && segs[k].last + 1 == n;
      if k < m { assert segs[..m][k] == segs[k]; }
    }
  }

  /** Widening the pair of a phase: `index` finds its own positions again, so
      only a phase ending on the last time fails, with IndexError. */
  lemma WidenOne(times: seq<real>, s: Segment)
    requires StrictlyIncreasing(times) && s.first <= s.last < |times|
    ensures WidenPair(Interval(times[s.first], times[s.last]), times) ==
      if s.last + 1 < |times| then Ok(Interval(TimeBefore(times, s.first), times[s.last + 1])) else Err(IndexError)
  {
    IndexOfIncreasing(times, s.first);
    IndexOfIncreasing(times, s.last);
    assert At(times, s.first - 1) == Ok(TimeBefore(times, s.first));
  }

  lemma WidenSnoc(front: seq<Interval>, iv: Interval, times: seq<real>)
    ensures Widen(front + [iv], times) ==
      match Widen(front, times)
      case Err(e) => Err(e)
      case Ok(f) => match WidenPair(iv, times) case Err(e) => Err(e) case Ok(v) => Ok(f + [v])
  {
    var ivs := front + [iv];
    assert ivs[..|ivs| - 1] == front;
  }

  lemma {:induction false} WidenFails(segs: seq<Segment>, times: seq<real>, w: bool)
    requires Within(segs, |times|) && StrictlyIncreasing(times)
    ensures Widen(Intervals(segs, times, w), times).Err? <==> EndsAtLast(segs, |times|, w)
    ensures Widen(Intervals(segs, times, w), times).Err? ==> Widen(Intervals(segs, times, w), times).error == IndexError
    decreases |segs|
  {
    if |segs| > 0 {
      var m := |segs| - 1;
      var pre, s := segs[..m], segs[m];
      assert Within(pre, |times|) by { assert forall k :: 0 <= k < m ==> pre[k] == segs[k]; }
      WidenFails(pre, times, w);
      EndsAtLastSnoc(segs, |times|, w);
      var front := Intervals(pre, times, w);
      if s.inspiration == w {
        var iv := Interval(times[s.first], times[s.last]);
        assert Intervals(segs, times, w) == front + [iv];
        WidenSnoc(front, iv, times);
        WidenOne(times, s);
      } else {
        assert Intervals(segs, times, w) == front;
      }
    }
  }

  /** One widening step: the last phase, of direction `w`, clear of the end. */
  lemma WidenValueSnoc(pre: seq<Segment>, s: Segment, times: seq<real>, w: bool)
    requires Within(pre + [s], |times|) && StrictlyIncreasing(times) && ClearOfEnd(pre + [s], |times|)
    requires Within(pre, |times|) && ClearOfEnd(pre, |times|)
    requires s.inspiration == w
    requires Widen(Intervals(pre, times, w), times) == Ok(Widened(pre, times, w))
    ensures Widen(Intervals(pre + [s], times, w), times) == Ok(Widened(pre + [s], times, w))
  {
    var segs := pre + [s];
    assert segs[..|segs| - 1] == pre && segs[|segs| - 1] == s;
    var front := Intervals(pre, times, w);
    var iv := Interval(times[s.first], times[s.last]);
    assert Intervals(segs, times, w) == front + [iv];
    WidenSnoc(front, iv, times);
    WidenOne(times, s);
    assert s.last + 1 < |times|;
    var widened := Interval(TimeBefore(times, s.first), times[s.last + 1]);
    assert Widen(front + [iv], times) == Ok(Widened(pre, times, w) + [widened]);
    assert Widened(segs, times, w) == Widened(pre, times, w) + [widened];
  }

  /** A phase of the other direction changes neither side. */
  lemma WidenValueSkip(pre: seq<Segment>, s: Segment, times: seq<real>, w: bool)
    requires Within(pre + [s], |times|) && ClearOfEnd(pre + [s], |times|)
    requires Within(pre, |times|) && ClearOfEnd(pre, |times|)
    requires s.inspiration != w
    ensures Intervals(pre + [s], times, w) == Intervals(pre, times, w)
    ensures Widened(pre + [s], times, w) == Widened(pre, times, w)
  {
    var segs := pre + [s];
    assert segs[..|segs| - 1] == pre && segs[|segs| - 1] == s;
    assert Intervals(segs, times, w) == Intervals(pre, times, w) + [];
    assert Widened(segs, times, w) == Widened(pre, times, w) + [];
  }

  lemma {:induction false} WidenValue(segs: seq<Segment>, times: seq<real>, w: bool)
    requires Within(segs, |times|) && StrictlyIncreasing(times) && ClearOfEnd(segs, |times|)
    ensures Widen(Intervals(segs, times, w), times) == Ok(Widened(segs, times, w))
    decreases |segs|
  {
    if |segs| > 0 {
      var m := |segs| - 1;
      var pre, s := segs[..m], segs[m];
      assert segs == pre + [s];
      assert Within(pre, |times|) && ClearOfEnd(pre, |times|) by {
        assert forall k :: 0 <= k < m ==> pre[k] == segs[k];
      }
      WidenValue(pre, times, w);
      if s.inspiration == w {
        WidenValueSnoc(pre, s, times, w);
      } else {
        WidenValueSkip(pre, s, times, w);
      }
    }
  }

  /** With strictly increasing times, `findRespiratoryPhase` raises IndexError
      exactly when some phase ends on the last time; otherwise each phase
      `[first, last]` becomes the pair of the times one sample outside it, and
      a phase starting on the first sample takes the last time as its start. */
  lemma WidenedPhases(diff: seq<real>, times: seq<real>)
    requires |diff| <= |times| && StrictlyIncreasing(times)
    ensures PhaseIntervals(diff, times).Err? <==>
      EndsAtLast(Segments(diff), |times|, true) || EndsAtLast(Segments(diff), |times|, false)
    ensures PhaseIntervals(diff, times).Err? ==> PhaseIntervals(diff, times).error == IndexError
    ensures ClearOfEnd(Segments(diff), |times|) ==>
      PhaseIntervals(diff, times) == Ok(Phases(Widened(Segments(diff), times, true), Widened(Segments(diff), times, false)))
  {
    var segs := Segments(diff);
    WidenFails(segs, times, true);
    WidenFails(segs, times, false);
    if ClearOfEnd(segs, |times|) {
      WidenValue(segs, times, true);
      WidenValue(segs, times, false);
    }
  }

  /** Some phase ends on the last index exactly when the last value is not zero. */
  lemma LastInPhase(diff: seq<real>)
    requires |diff| > 0
    ensures diff[|diff| - 1] != 0.0 <==>
      exists k :: 0 <= k < |Segments(diff)| && Segments(diff)[k].last == |diff| - 1
  {
    var segs := Segments(diff);
    var n := |diff| - 1;
    SegmentsAreRuns(diff);
    if diff[n] != 0.0 {
      assert InPhase(segs, n);
      var k :| 0 <= k < |segs| && segs[k].first <= n <= segs[k].last;
      assert segs[k].last < |diff|;
      assert Segments(diff)[k].last == |diff| - 1;
    } else {
      forall k | 0 <= k < |segs| ensures segs[k].last != n {
        assert Signed(diff[segs[k].last], segs[k].inspiration);
      }
    }
  }

  /** In the pipeline the differential and its times have the same length, and
      a recording whose last differential value is not zero raises IndexError. */
  lemma EndOfRecording(diff: seq<real>, times: seq<real>)
    requires |diff| == |times| > 0 && StrictlyIncreasing(times)
    ensures PhaseIntervals(diff, times).Err? <==> diff[|diff| - 1] != 0.0
  {
    var segs := Segments(diff);
    WidenedPhases(diff, times);
    LastInPhase(diff);
    if diff[|diff| - 1] != 0.0 {
      var k :| 0 <= k < |segs| && segs[k].last == |diff| - 1;
      assert EndsAtLast(segs, |times|, segs[k].inspiration);
    }
  }

  /** Rise then fall, then flat: an inspiration at sample 0, an expiration at sample 1. */
  lemma RiseFallSegments()
    ensures Segments([1.0, -1.0, 0.0]) == [Segment(true, 0, 0), Segment(false, 1, 1)]
  {
    var diff := [1.0, -1.0, 0.0];
    assert Segments(diff[..1]) == [Segment(true, 0, 0)] by { assert diff[..1][..0] == []; }
    assert diff[..2][..1] == diff[..1];
    assert diff[..2] == diff[..|diff| - 1];
  }

  lemma RiseFallWidened(times: seq<real>)
    requires times == [0.1, 0.2, 0.3]
    ensures Within([Segment(true, 0, 0), Segment(false, 1, 1)], |times|)
    ensures ClearOfEnd([Segment(true, 0, 0), Segment(false, 1, 1)], |times|)
    ensures Widened([Segment(true, 0, 0), Segment(false, 1, 1)], times, true) == [Interval(0.3, 0.2)]
    ensures Widened([Segment(true, 0, 0), Segment(false, 1, 1)], times, false) == [Interval(0.1, 0.3)]
  {
    var a, b := Segment(true, 0, 0), Segment(false, 1, 1);
    assert [a, b][..1] == [a] && [a][..0] == [];
    assert Widened([a], times, true) == [Interval(0.3, 0.2)];
    assert Widened([a], times, false) == [];
  }

  /** Rise then fall, sampled at 0.1, 0.2, 0.3 s: the inspiration at the first
      sample is widened to start at the last time, 0.3 s, after its own end. */
  lemma WrapAtFirstSample(diff: seq<real>, times: seq<real>)
    requires diff == [1.0, -1.0, 0.0] && times == [0.1, 0.2, 0.3]
    ensures PhaseIntervals(diff, times) == Ok(Phases([Interval(0.3, 0.2)], [Interval(0.1, 0.3)]))
  {
    RiseFallSegments();
    RiseFallWidened(times);
    assert StrictlyIncreasing(times);
    WidenedPhases(diff, times);
  }

  /** Every value before index `i` that lies beyond the time list is zero. */
  ghost predicate TimedUpTo(diff: seq<real>, times: seq<real>, i: nat)
  {
    forall j :: |times| <= j < i && j < |diff| ==> diff[j] == 0.0
  }

  lemma TimedStep(diff: seq<real>, times: seq<real>, i: nat)
    requires TimedUpTo(diff, times, i) && i < |diff| && (i < |times| || diff[i] == 0.0)
    ensures TimedUpTo(diff, times, i + 1)
  {
  }

  /** `Tracks` with the buffers and lists named by direction: `w` for the
      direction of the value at hand, `!w` for the other one. */
  ghost predicate TracksBy(segs: seq<Segment>, times: seq<real>, w: bool,
                           run: seq<real>, other: seq<real>, ivs: seq<Interval>, otherIvs: seq<Interval>)
  {
    if w then Tracks(segs, times, run, other, ivs, otherIvs)
    else Tracks(segs, times, other, run, otherIvs, ivs)
  }

  /** A value of the open phase's sign is appended to its buffer. */
  lemma StepExtend(segs: seq<Segment>, times: seq<real>, i: nat, x: real, w: bool,
                   run: seq<real>, ivs: seq<Interval>, otherIvs: seq<Interval>)
    requires Within(segs, i) && i < |times| && Signed(x, w)
    requires TracksBy(segs, times, w, run, [], ivs, otherIvs) && run != []
    ensures TracksBy(Extend(segs, i, x), times, w, run + [times[i]], [], ivs, otherIvs)
  {
    ExtendShape(segs, times, i, x);
  }

  /** A value of the other sign closes the open buffer into a pair and starts a
      new buffer. */
  lemma StepClose(segs: seq<Segment>, times: seq<real>, i: nat, x: real, w: bool,
                  other: seq<real>, ivs: seq<Interval>, otherIvs: seq<Interval>)
    requires Within(segs, i) && i < |times| && Signed(x, w)
    requires TracksBy(segs, times, w, [], other, ivs, otherIvs) && other != []
    ensures TracksBy(Extend(segs, i, x), times, w, [times[i]], [],
                     ivs, otherIvs + [Interval(other[0], other[|other| - 1])])
  {
    ExtendShape(segs, times, i, x);
  }

  /** The first non-zero value opens the first buffer. */
  lemma StepOpen(segs: seq<Segment>, times: seq<real>, i: nat, x: real, w: bool,
                 ivs: seq<Interval>, otherIvs: seq<Interval>)
    requires Within(segs, i) && i < |times| && Signed(x, w)
    requires TracksBy(segs, times, w, [], [], ivs, otherIvs)
    ensures TracksBy(Extend(segs, i, x), times, w, [times[i]], [], ivs, otherIvs)
  {
    ExtendShape(segs, times, i, x);
  }

  /** Flushing the open buffer at the end records every phase. */
  lemma Flush(segs: seq<Segment>, times: seq<real>, w: bool,
              run: seq<real>, ivs: seq<Interval>, otherIvs: seq<Interval>)
    requires TracksBy(segs, times, w, run, [], ivs, otherIvs)
    ensures Within(segs, |times|)
    ensures ivs + (if run == [] then [] else [Interval(run[0], run[|run| - 1])]) == Intervals(segs, times, w)
    ensures otherIvs == Intervals(segs, times, !w)
  {
    if |segs| > 0 {
      var m := |segs| - 1;
      assert segs[..m] + [segs[m]] == segs;
    }
  }

  /** `findRespiratoryPhase`: walk the differential series keeping one buffer of
      times per direction; a value of either sign first closes the other buffer
      into a `[first, last]` pair, and zeros are skipped; flush what is still
      open at the end, then widen every pair by one sample on each side. */
  method FindRespiratoryPhase(diff: seq<real>, times: seq<real>) returns (r: Result<Phases>)
    ensures r == PhaseIntervals(diff, times)
  {
    var inspRun: seq<real> := [];
    var expRun: seq<real> := [];
    var insp: seq<Interval> := [];
    var exp: seq<Interval> := [];
    for i := 0 to |diff|
      invariant inspRun == [] || expRun == []
      invariant TimedUpTo(diff, times, i)
      invariant Tracks(Segments(diff[..i]), times, inspRun, expRun, insp, exp)
    {
      SegmentsStep(diff, i);
      ghost var prev := Segments(diff[..i]);
      var num := diff[i];
      if num != 0.0 && i >= |times| {
        assert diff[i] != 0.0;
        return Err(IndexError);
      }
      TimedStep(diff, times, i);
      if num > 0.0 {
        if expRun != [] {
          StepClose(prev, times, i, num, true, expRun, insp, exp);
          exp := exp + [Interval(expRun[0], expRun[|expRun| - 1])];
          expRun := [];
        } else if inspRun != [] {
          StepExtend(prev, times, i, num, true, inspRun, insp, exp);
        } else {
          StepOpen(prev, times, i, num, true, insp, exp);
        }
        inspRun := inspRun + [times[i]];
      } else if num < 0.0 {
        if inspRun != [] {
          StepClose(prev, times, i, num, false, inspRun, exp, insp);
          insp := insp + [Interval(inspRun[0], inspRun[|inspRun| - 1])];
          inspRun := [];
        } else if expRun != [] {
          StepExtend(prev, times, i, num, false, expRun, exp, insp);
        } else {
          StepOpen(prev, times, i, num, false, exp, insp);
        }
        expRun := expRun + [times[i]];
      }
    }
    assert diff[..|diff|] == diff;
    assert !Untimed(diff, times);
    ghost var segs := Segments(diff);
    if inspRun == [] {
      Flush(segs, times, false, expRun, exp, insp);
    } else {
      Flush(segs, times, true, inspRun, insp, exp);
    }
    if expRun != [] {
      exp := exp + [Interval(expRun[0], expRun[|expRun| - 1])];
      expRun := [];
    }
    if inspRun != [] {
      insp := insp + [Interval(inspRun[0], inspRun[|inspRun| - 1])];
      inspRun := [];
    }
    r := WidenPhases(Phases(insp, exp), times);
  }
}
