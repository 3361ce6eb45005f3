# Respiration phase analysis, modelled in Dafny

`respiration_phase.py` turns a force-sensitive-resistor recording of breathing
into phases of inspiration and expiration. The recording is a text file, one
reading per line. Optionally, each line is prefixed by a millisecond timestamp and a `;`.
The pipeline modelled here has four parts:

- **Sample rate and time axis** (`calcHz` and the body of `readRespData`). The
  rate comes from the first two timestamps. If either of the first two lines
  carries no stamp, it defaults to 11.7 Hz. Sample `i` is placed at `i / Hz`
  seconds.
- **Discrete differential** (`calcDifferential`). This is the forward
  differences of the readings, each paired with the time of the later sample.
- **Phase segmentation** (`findRespiratoryPhase`). A two-buffer state machine
  over the differential. Positive values are collected as an inspiration,
  negative ones as an expiration. A value of the other sign closes the open
  buffer into a `[start, end]` pair of times, and zeros are skipped. After the
  walk, what is still open is flushed. Each pair is then widened by one sample
  on each side, using Python list indexing.
- **Nearest index** (`indexOfClosest`). The position of the element nearest to
  a number.

Times and values are exact `real`s. Python exceptions are an error value:
`Result<T>` is `Ok(value)` or `Err(IndexError | ValueError | ZeroDivisionError
| UnboundLocalError)`.

Files:

- `pylists.dfy` (module `PyLists`): the exception values, `list.index`,
  negative indexing, and "strictly increasing".
- `sample_rate.dfy` (module `SampleRate`): `calcHz`, the choice of rate, the
  time axis, and `readRespData` over already-parsed lines.
- `differential.dfy` (module `Differential`): `np.diff`, its inverse (running
  sums), and `calcDifferential`.
- `closest.dfy` (module `Closest`): `indexOfClosest`.
- `respiratory_phase.dfy` (module `RespiratoryPhase`): `findRespiratoryPhase`
  and the four specification functions it is proved against:
  - `Segments` splits the differential into maximal same-signed runs.
  - `Intervals` gives the `[first time, last time]` pair of each run.
  - `Widen` is the rewriting comprehension.
  - `PhaseIntervals` is what the function returns or raises.

  The rewrite visits `'insp'` before `'exp'`, which is dictionary insertion
  order. The first failing pair decides the exception.

  The imperative method `FindRespiratoryPhase` keeps the source's loop, its two
  run buffers and its two result lists. Its postcondition is
  `r == PhaseIntervals(diff, times)`. The lemmas state what that function
  promises.

## Model

| member | source | states |
|---|---|---|
| PyLists.Index | respiration_phase.py:178 | `list.index` yields the first position holding the value, or ValueError exactly when the value is absent |
| PyLists.IndexOfIncreasing | respiration_phase.py:158 | in a strictly increasing time list, `index(t[k])` is `k`, so each time is found at its own position |
| SampleRate.ToSeconds | respiration_phase.py:23 | one value per stamp, each the stamp divided by 1000 |
| SampleRate.CalcHz | respiration_phase.py:17-26 | succeeds exactly when there are two stamps and the first two differ; fewer raise IndexError, equal ones ZeroDivisionError; the rate is nonzero and rate × (m1 − m0) = count × 1000 |
| SampleRate.CalcHzOfTwoStamps | respiration_phase.py:17-26 | called with two stamps, the rate is 2000 / (m1 − m0), so one step of the axis is half the measured gap between the stamps |
| SampleRate.RateOf | respiration_phase.py:47-58 | a line without `;` among the first two gives 11.7 Hz; the rate stays unassigned exactly when there are fewer than two lines and all are stamped; `calcHz` fails (ZeroDivisionError) exactly when both stamps are equal; otherwise the rate is 2000 / (m1 − m0) |
| SampleRate.SelectRate | respiration_phase.py:47-58 | the search loop, with its two `break`s, ends on exactly the rate `RateOf` describes |
| SampleRate.AxisTimes | respiration_phase.py:61-64 | the axis has one time per reading, and time `i` times the rate is `i` |
| SampleRate.TimeAxis | respiration_phase.py:61-64 | the append loop builds exactly `AxisTimes` |
| SampleRate.AxisSpacing | respiration_phase.py:61-64 | the axis starts at 0 and successive times are exactly one period `1 / Hz` apart |
| SampleRate.AxisIncreasing | respiration_phase.py:61-64 | with a positive rate the time axis is strictly increasing |
| SampleRate.Values | respiration_phase.py:40-43 | one reading per line, in line order |
| SampleRate.ReadRespData | respiration_phase.py:29-66 | a failing `calcHz` propagates its exception; an unassigned rate raises UnboundLocalError unless there are no readings; otherwise the result is the readings and the axis at the chosen rate |
| Differential.CumulateOfDiff | respiration_phase.py:86 | summing the differences back up from the first value recovers the series |
| Differential.DiffOfCumulate | respiration_phase.py:86 | differencing running sums gives back the increments, so `Diff` loses only the first value |
| Differential.CalcDifferential | respiration_phase.py:79-96 | IndexError exactly when there are at least two values and fewer times than values; otherwise `diff` has one value fewer than `vals`, the k-th being `vals[k+1] − vals[k]`, the k-th time is `t[k+1]`, and a strictly increasing time list stays strictly increasing |
| Closest.FirstMinimiser | respiration_phase.py:177 | `min` over the index range with the distance key returns an index of least distance, strictly closer than every earlier index |
| Closest.IndexOfClosest | respiration_phase.py:172-178 | ValueError exactly for an empty list; otherwise an in-range index whose element is at least as close as every element and strictly closer than every earlier one |
| RespiratoryPhase.Segments | respiration_phase.py:117-138 | every phase found lies within the series |
| RespiratoryPhase.SegmentsAreRuns | respiration_phase.py:117-138 | the phases are maximal same-signed runs: each starts and ends on a value of its sign and holds no value of the other sign; phases are in order and do not overlap; neighbours have opposite directions; every non-zero value is in a phase |
| RespiratoryPhase.SignRouting | respiration_phase.py:117-138 | every non-zero value lies in exactly one phase, an inspiration if positive, an expiration if negative |
| RespiratoryPhase.ZeroInsideRun | respiration_phase.py:117-138 | zeros neither close nor extend a phase: `[+, 0, +]` is one inspiration over indices 0-2, `[+, 0, −]` is an inspiration then an expiration |
| RespiratoryPhase.TimedWithin | respiration_phase.py:117-138 | when every non-zero value has a time, every phase's first and last index have one |
| RespiratoryPhase.RecordedAscending | respiration_phase.py:117-152 | with strictly increasing times, each recorded pair has start ≤ end, and each list is in ascending time order without overlap |
| RespiratoryPhase.RecordedAlternate | respiration_phase.py:117-152 | the numbers of inspirations and expirations differ by at most one |
| RespiratoryPhase.IntervalsInterleave | respiration_phase.py:117-152 | between two recorded pairs of one direction, the earlier ending before the later starts, lies a pair of the other direction |
| RespiratoryPhase.RecordedInterleave | respiration_phase.py:117-152 | with strictly increasing times, between two recorded inspirations lies a recorded expiration, and between two expirations an inspiration |
| RespiratoryPhase.IntervalsOf | respiration_phase.py:117-152 | the pairs recorded for a direction are exactly the first and last times of that direction's phases |
| RespiratoryPhase.RecordedCovers | respiration_phase.py:142-152 | after the flush, the time of every non-zero value lies in a recorded pair of its sign's list |
| RespiratoryPhase.RecordedUnique | respiration_phase.py:142-152 | two recorded pairs, of either list, that contain the time of a non-zero value are the same pair, and it is in its sign's list |
| RespiratoryPhase.PairOfIndex | respiration_phase.py:142-152 | a recorded pair containing the time of index `j` is the pair of the phase holding `j`, in that phase's list |
| RespiratoryPhase.Widen | respiration_phase.py:157-158 | a successful rewrite keeps one pair per recorded pair |
| RespiratoryPhase.WidenElementwise | respiration_phase.py:157-158 | the rewrite succeeds exactly when every pair can be widened, and then widens each pair in place; otherwise it raises what the first failing pair raises |
| RespiratoryPhase.WidenOne | respiration_phase.py:158 | a phase's pair becomes (time before its first sample, time after its last); before sample 0 comes `t[-1]`, the last time; a phase ending on the last time raises IndexError |
| RespiratoryPhase.WidenFails | respiration_phase.py:157-158 | with strictly increasing times, widening a list raises exactly when some phase of that direction ends on the last time, and then raises IndexError |
| RespiratoryPhase.WidenValue | respiration_phase.py:157-158 | when no phase ends on the last time, the widened list is the pairs (time before first, time after last), phase by phase |
| RespiratoryPhase.WidenedPhases | respiration_phase.py:157-158 | `findRespiratoryPhase` raises exactly when some phase ends on the last time, always IndexError; otherwise both lists are widened phase by phase |
| RespiratoryPhase.LastInPhase | respiration_phase.py:117-152 | some phase ends on the last index exactly when the last differential value is non-zero |
| RespiratoryPhase.EndOfRecording | respiration_phase.py:157-158 | with as many times as values, the function raises IndexError exactly when the last differential value is non-zero |
| RespiratoryPhase.WrapAtFirstSample | respiration_phase.py:158 | for `[1, −1, 0]` at 0.1, 0.2, 0.3 s, the inspiration at sample 0 wraps to start at 0.3 s, after its end at 0.2 s |
| RespiratoryPhase.FindRespiratoryPhase | respiration_phase.py:99-169 | the loop with its two buffers, the two flushes and the rewrite return or raise exactly `PhaseIntervals`; at most one buffer is open at a time (loop invariant); a non-zero value beyond the time list raises IndexError |

## Left out

- Reading the file and parsing its text (respiration_phase.py:39-43, 47-52) is
  left out, being input/output and string conversion. The model takes each
  line already split: whether it holds a `;`, the number before it, and the
  last space-separated field. A malformed number (a ValueError from `int` or
  `float`) is therefore not modelled.
- The `startstop` parameter of `readRespData` is not modelled; the source
  never uses it.
- `runningMean` (respiration_phase.py:69-76) is not modelled. It delegates to
  scipy's `uniform_filter1d`, whose boundary handling is not part of this model.
- `graphResp`, `main` and the commented-out plotting code
  (respiration_phase.py:160-166, 181-226, 249-259) are not modelled: they are
  plotting and command-line handling.
- `doRespAnalysis` (respiration_phase.py:229-246) is not modelled as a member.
  It chains `readRespData`, `runningMean` (not part of this model),
  `calcDifferential` and `findRespiratoryPhase`, and discards the phases.
  Its differential and time list have equal lengths, so by
  `RespiratoryPhase.EndOfRecording` its call at line 244 raises IndexError
  whenever the last differential value is not zero.
- The other scripts of the repository (spectrogram and filtering scripts, and
  their tests) are not part of this model. `sound_analysis.py`, which the
  tests exercise, is not part of this model.
- IEEE floating point is not modelled: times and values are exact reals. So
  `(t[k+1] − t[k]) + t[k]` is exactly `t[k+1]`, and `i / Hz` is exact. The
  equality tests inside `list.index` are exact too.
- `np.diff` yields an integer array when given integer readings. The model
  differentiates reals, which include the integer readings.
- RespiratoryPhase.WidenedPhases: stated only for a time list at least as
  long as the differential, and for strictly increasing times (the pipeline's
  case). The method itself handles every input.
- RespiratoryPhase.RecordedAscending: stated for strictly increasing times
  and a time list at least as long as the differential.
- RespiratoryPhase.RecordedAlternate: stated for a time list at least as
  long as the differential.
- RespiratoryPhase.RecordedCovers: stated for strictly increasing times and
  a time list at least as long as the differential.
- RespiratoryPhase.RecordedInterleave: stated for strictly increasing times
  and a time list at least as long as the differential.
- RespiratoryPhase.RecordedUnique: stated for strictly increasing times and
  a time list at least as long as the differential.
- RespiratoryPhase.EndOfRecording: stated for the pipeline's case: as many
  times as values, strictly increasing.
