# nvidia-fan-control: the fan-speed decision engine in Dafny

This project models the part of `nvidia_fan_control` (main.go) that decides
fan speeds. The hardware is reduced to the answers it gives. The model covers:

- **Step policy** (`getFanSpeedForTemperature`). The first configured range
  with `min < temp <= max` sets the fan speed. If no range matches, the
  previous speed is kept. Module `StepPolicy`.
- **Curve profile builder** (`buildCurveProfileFromRanges`). The ranges are
  stably sorted by `(min, max)`.
  - The least range becomes the *floor*: its `max` is `floorEndTemp`, and its
    clamped speed and its hysteresis become the floor speed and hysteresis.
  - Every other range becomes a *setpoint* at its `min`.
  - The setpoints are stably sorted by temperature and de-duplicated, with the
    last one winning.

  Module `CurveBuild`. `sort.SliceStable` is modelled in module `StableSort`.
- **Curve lookup** (`curveSpeedForTempWithProfile`). Three clamps (below the
  floor end, no setpoints, before the first setpoint) give the floor speed.
  At or past the last setpoint the ceiling clamp gives the last speed.
  Between two setpoints the speed is interpolated linearly, rounded and
  clamped to `[0, 100]`. Module `CurveLookup`.
- **Per-device tick** of `runMonitoringLoop`. One tick for one GPU is a pure
  state transition over `(fanCount, inAuto, lastChangeTemp, prevTemp,
  speeds)`. Its inputs are the temperature sample (`None` when the handle or
  temperature read failed) and, per fan, whether the manual-policy write and
  the speed write succeeded. Module `Monitor`. It covers:
  - the AUTO/MANUAL deadband around `floorEndTemp`;
  - the MANUAL hysteresis gate, which compares against the temperature of
    the last successful change on the device;
  - the step-mode per-fan update.
- **Fan-list parser** (`parseFanList`), with the parts of Go's library it
  relies on: `strings.TrimSpace` (Go's `unicode.IsSpace` set),
  `strings.Split` and `strconv.Atoi` (optional sign, decimal digits, 64-bit
  range). Module `FanList`.
- **Configuration defaults**: the `time_to_update <= 0 → 5` default and the
  `-curve` override. Module `FanConfig`.

Shared helpers sit in `Arith` (`abs`, `clampInt`, rounding) and `Wrappers`
(`Option`, `Result`).

Behaviours of the code that the proofs bring out:

- **The step policy's hysteresis test never changes the outcome.** Its
  fallback branch runs only when `prevSpeed == r.FanSpeed`, so the result is
  always the first matching range's speed. `StepPolicy.StepIgnoresPrevTemp`
  shows that the previous temperature is irrelevant.
- **With a floor hysteresis of 0, the mode flips on every tick at exactly
  `floorEndTemp`.** AUTO leaves at `temp >= floorEndTemp` and MANUAL
  re-enters at `temp <= floorEndTemp`. See
  `Monitor.ModeFlipsAtFloorEndWithoutHysteresis`. With a positive hysteresis
  the mode settles (`Monitor.ModeSettles`).
- **The MANUAL hysteresis reference is shared by all fans of a device.** Once
  one fan changes, a fan whose write failed on that tick is not retried until
  the temperature moves by the hysteresis. See
  `Monitor.ManualChangesWaitForHysteresis`.
- **A negative fan count is not skipped** by the tick, which only tests
  `fanCounts[i] == 0`. Such a device has no fans to loop over, so only its
  temperatures and mode are updated. The model does the same.

## Model

| member | source | states |
|---|---|---|
| Arith.Abs | main.go:42-47 | the result is non-negative and is `x` or `-x` |
| Arith.Clamp | main.go:203-211 | the result lies in `[lo, hi]`; it is `x` inside the range, `lo` below it and `hi` above it |
| Arith.RoundHalfAway | main.go:305-307 | `math.Round` of `p/q`: within one half of `p/q`, with ties rounded away from zero |
| Arith.RoundExact | main.go:305-307 | an exact quotient `k*q/q` rounds to `k`, so interpolation is exact at a setpoint |
| Arith.RoundMonotone | main.go:305-307 | rounding never reverses the order of two quotients with the same denominator |
| Arith.RoundBetween | main.go:305-307 | a quotient between two integers rounds to a value between them |
| FanConfig.EffectiveInterval | main.go:79-82 | the update interval is positive: a positive setting is kept, anything else becomes 5 seconds |
| FanConfig.LoadDefaults | main.go:79-82 | the loaded configuration has a positive interval and keeps the ranges and curve flag as read |
| FanConfig.ApplyCurveOverride | main.go:750-752 | `-curve` turns curve mode on and never off, and leaves the rest of the configuration alone |
| StepPolicy.StepSpeed | main.go:50-60 | with no range containing `temp` the previous speed is kept; otherwise the result is the fan speed of the first range with `min < temp <= max` |
| StepPolicy.MatchOrNoMatch | main.go:51-58 | proof helper: every temperature either has a first matching range or matches none |
| StepPolicy.StepIgnoresPrevTemp | main.go:53-56 | the hysteresis test is dead: the decision does not depend on the previous temperature |
| StepPolicy.StepKeepsSpeedIff | main.go:50-60 | the speed is kept exactly when no range matches or the first match's speed is the previous speed |
| StepPolicy.FirstMatchUnique | main.go:51-52 | proof helper: the range that decides is unique |
| StableSort.Sort | main.go:230-235 | `sort.SliceStable`: the output is sorted, a permutation of the input, and keeps the input order among equal keys |
| StableSort.SortUnique | main.go:230-235 | any two stably sorted arrangements of the same input are equal, so the insertion sort agrees with Go's algorithm |
| StableSort.SortOfSorted | main.go:253 | stably sorting an already sorted sequence changes nothing |
| CurveBuild.ToPoints | main.go:242-250 | one setpoint per remaining range, at its `min`, with its clamped speed and its hysteresis, in order |
| CurveBuild.RunLasts | main.go:252-266 | reference de-duplication ("last one wins"): never longer than its input and keeps only input points |
| CurveBuild.RunLastsKeepsLasts | main.go:255-265 | the last point of every temperature survives de-duplication |
| CurveBuild.RunLastsAscending | main.go:252-266 | on points sorted by temperature, the survivors of de-duplication strictly ascend in temperature |
| CurveBuild.DedupStep | main.go:256-264 | one iteration of the loop: the new point always ends the result; it replaces the last kept point when their temperatures are equal and is appended otherwise |
| CurveBuild.DedupFrom | main.go:255-265 | the loop as written, run from an accumulator; `DedupFromIsRunLasts` relates it to the reference de-duplication |
| CurveBuild.Dedup | main.go:254-265 | the loop as written from an empty `dedup` slice; `DedupIsRunLasts` shows it equals the reference de-duplication |
| CurveBuild.DedupFromEnds | main.go:255-265 | the loop adds at most one point per input point, and the last input point always ends the result |
| CurveBuild.DedupFromIsRunLasts | main.go:254-265 | the de-duplication loop, from any non-empty accumulator, equals the reference applied to the open run |
| CurveBuild.DedupIsRunLasts | main.go:254-266 | the de-duplication loop computes the reference de-duplication |
| CurveBuild.Setpoints | main.go:242-266 | the setpoints are strictly ascending percentages, no more than the remaining ranges, each made from one of those ranges |
| CurveBuild.BuildCurveProfile | main.go:221-270 | an error exactly for no ranges; otherwise the floor is a least range in `(min, max)` order and gives `floorEndTemp`, the clamped floor speed and the floor hysteresis; all speeds are in `[0, 100]`; there are at most `len(ranges)-1` setpoints, strictly ascending |
| CurveBuild.BuildFloorIsFirstLeast | main.go:227-240 | the floor is the first range, in the caller's order, among those least in `(min, max)` |
| CurveBuild.ToPointsSorted | main.go:242-253 | setpoints made from `(min, max)`-sorted ranges are already sorted by temperature |
| CurveBuild.BuildPointsAreRunLasts | main.go:242-266 | the profile's setpoints are the reference de-duplication of the sorted non-floor ranges' points |
| CurveBuild.BuildSetpointsLastWins | main.go:252-266 | among setpoints of equal temperature, the last in stable-sorted order is the one kept |
| CurveBuild.BuildSetpointsCoverRanges | main.go:242-266 | every non-floor range's `min` is the temperature of some setpoint |
| CurveBuild.LastIndexOfTemp | main.go:255-265 | proof helper: every point has a last occurrence of its temperature at or after it |
| CurveLookup.FindSegment | main.go:297-311 | the search returns the first segment with `a.temp <= temp < b.temp`, or none when no segment contains `temp` |
| CurveLookup.SegmentTarget | main.go:301-309 | the interpolation step: it always carries `a.hyst`; the `den <= 0` guard returns `a.speed`; otherwise the rounded, clamped speed is a percentage |
| CurveLookup.CurveSpeed | main.go:274-315 | floor speed and hysteresis for the three floor cases; the last setpoint's values at or past it; the hysteresis is always the floor's or a setpoint's |
| CurveLookup.SegmentBounds | main.go:297-310 | the interpolated speed is a percentage between the two setpoints' speeds, equals `a.speed` at `a.temp`, and carries `a.hyst` |
| CurveLookup.LerpRising | main.go:301-307 | proof helper: on a rising segment the scaled interpolation numerator lies between the two scaled speeds |
| CurveLookup.LerpFalling | main.go:301-307 | proof helper: on a falling segment the scaled interpolation numerator lies between the two scaled speeds |
| CurveLookup.SegmentMonotone | main.go:301-308 | on a rising segment the interpolated speed never falls as the temperature rises |
| CurveLookup.FindSegmentAscending | main.go:297-300 | with strictly ascending setpoints the search finds the segment that contains `temp` |
| CurveLookup.SegmentExists | main.go:296-311 | between the first and the last setpoint some segment contains `temp` |
| CurveLookup.FallbackUnreachable | main.go:313-314 | with strictly ascending setpoints the fallback after the search is never reached |
| CurveLookup.CurveInterpolates | main.go:296-310 | in segment `k` past the floor end, the speed lies between the two setpoints' speeds, equals setpoint `k`'s at its temperature, and the hysteresis is setpoint `k`'s |
| CurveLookup.CurveHitsSetpoints | main.go:286-310 | the curve passes through every setpoint at or past the floor end |
| CurveLookup.CurveSpeedIsPercent | main.go:274-315 | the curve asks only for speeds in `[0, 100]` when the profile's speeds are |
| CurveLookup.CurveBetweenSetpoints | main.go:290-310 | requires a rising curve (`RisingCurve`: strictly ascending setpoints, percentage speeds, setpoint speeds that never fall, the floor speed at most every setpoint's); then, outside the floor, the speed lies between the speeds of the setpoints around `temp` |
| CurveLookup.CurveMonotone | main.go:274-315 | on a rising curve the commanded speed never falls as the temperature rises |
| Monitor.SelectPolicy | main.go:325-336 | the curve runs exactly when curve mode is on and the ranges are non-empty, with the built profile; otherwise the step policy runs over the configured ranges |
| Monitor.InitialState | main.go:339-346 | a device starts in AUTO exactly when its initial temperature is below the floor end (0 in step mode), with both reference temperatures equal to it |
| Monitor.WriteFans | main.go:408-442 | each fan's recorded speed becomes its request when both writes succeed and is kept otherwise; some fan was updated exactly when a request met two successful writes |
| Monitor.NextMode | main.go:370-384 | AUTO leaves only at `temp >= floorEnd + floorHyst`, MANUAL re-enters AUTO only at `temp <= floorEnd - floorHyst`, and strictly inside the deadband the mode is kept |
| Monitor.CurveRequest | main.go:409-420 | a fan is asked to change exactly when the curve target differs from its speed and the temperature moved by at least the hysteresis since the last change |
| Monitor.CurveTick | main.go:370-448 | the mode follows the deadband; in AUTO no speed changes and the change reference becomes `temp`; in MANUAL a fan changes exactly when its target differs, the hysteresis allows it and both writes succeed, and only to the target; the change reference moves to `temp` exactly when some fan changed; `prevTemp` becomes `temp` |
| Monitor.StepRequest | main.go:452-457 | a fan is asked to change exactly when the step decision differs from its recorded speed |
| Monitor.StepTick | main.go:452-479 | mode and change reference are untouched; a fan changes exactly when the step decision differs and both writes succeed, and only to that decision; `prevTemp` becomes `temp` |
| Monitor.DeviceTick | main.go:352-479 | a device with fan count 0 or a failed read keeps its whole state; otherwise `prevTemp` becomes the sample; one speed per fan is kept |
| Monitor.ModeSettles | main.go:374-384 | with a positive floor hysteresis, a repeated temperature never flips the mode back |
| Monitor.ModeFlipsAtFloorEndWithoutHysteresis | main.go:374-384 | with zero floor hysteresis, at `floorEndTemp` AUTO switches to MANUAL and MANUAL switches to AUTO |
| Monitor.RepeatTickKeepsUpdatedFans | main.go:370-479 | at an unchanged temperature, a fan that just changed is not changed again on the next tick, in either mode |
| Monitor.ManualChangesWaitForHysteresis | main.go:417-420 | after any fan changes at `temp`, no fan changes at a temperature within the hysteresis of `temp` |
| FanList.IsSpace | main.go:507 | Go's `unicode.IsSpace` as code-point ranges: tab through carriage return, space, U+0085, U+00A0, U+1680, U+2000 to U+200A, U+2028, U+2029, U+202F, U+205F, U+3000 |
| FanList.IsSpaceMatchesTable | main.go:507 | the range form of `IsSpace` accepts exactly the 25 characters Go's `unicode` package lists as white space |
| FanList.TrimStart | main.go:507 | the scan stops at the first non-space character, with only white space before it, or at the end |
| FanList.TrimEnd | main.go:507 | the backward scan stops just after the last non-space character, with only white space after it, or at the start |
| FanList.TrimSpace | main.go:507 | `strings.TrimSpace`: a middle slice with only white space cut off, starting and ending with a non-space, empty exactly for all-space input |
| FanList.TrimSpaceIsMiddle | main.go:507 | the trimmed string is the slice of `s` left after cutting only white space off both ends |
| FanList.TrimSpaceOfTrimmed | main.go:514 | trimming a string with no white space at its ends changes nothing |
| FanList.Split | main.go:511 | `strings.Split`: at least one piece, and no piece contains the separator |
| FanList.JoinSplit | main.go:511 | joining the pieces with the separator gives the string back |
| FanList.SplitJoin | main.go:511 | splitting a join of separator-free pieces gives the pieces back |
| FanList.Atoi | main.go:518 | `strconv.Atoi`: succeeds exactly for an optional sign followed by decimal digits whose value fits a 64-bit `int`; the result is the digits' decimal value, negated after a `-`; negative only with a `-` |
| FanList.DecimalValueLeadingZeros | main.go:518 | leading zeros do not change the decimal value of a run of digits |
| FanList.AtoiSignAndLeadingZeros | main.go:518 | a `+` sign and leading zeros do not change what `Atoi` reads (`"+007"` reads as 7), and a `-` sign negates it (`"-0"` reads as 0) |
| FanList.ShowNat | main.go:518 | decimal notation of a natural number, whose digits denote it |
| FanList.ParseItem | main.go:513-525 | a blank item is skipped; an item yields an index exactly when it reads as a non-negative integer; otherwise it is an invalid or negative index error |
| FanList.ParseItems | main.go:513-526 | the loop fails only with an invalid or negative index, and collects only indices `>= 0` |
| FanList.ParseItemsSucceeds | main.go:513-526 | the loop succeeds exactly when every item is blank or a non-negative integer |
| FanList.ParseItemsEmpty | main.go:527-529 | the loop collects nothing exactly when no item carries an index |
| FanList.ParseItemsSkipsBlank | main.go:514-517 | removing a blank item anywhere does not change the outcome |
| FanList.ParseItemsAppend | main.go:513-526 | indices come out in input order: two runs of items parse to the first's indices followed by the second's |
| FanList.ParseItemsSingle | main.go:518-525 | a single index item parses to exactly its value |
| FanList.ParseFanList | main.go:506-531 | blank input is exactly the empty-list error; success exactly when every item is blank or a non-negative integer and at least one is an index; a success is non-empty and all `>= 0` |
| FanList.ParseItemShowNat | main.go:513-525 | a non-negative index written in decimal reads back as that index |
| FanList.ParseItemsValid | main.go:513-529 | the item loop yields a non-empty list exactly when every item is valid and at least one is an index |
| FanList.ParseFormatted | main.go:506-531 | a non-empty list of indices written with commas parses back to the same list |

## Left out

- NVML calls (initialisation, device handles, fan counts, reading temperatures and speeds, `DeviceSetFanControlPolicy`, `DeviceSetFanSpeed_v2`) are foreign hardware calls. They become inputs: the temperature sample is an `Option`, and each fan's two writes are success flags. A failure to get the handle and a failed temperature read give the same `None`.
- Writes of the AUTO policy (main.go:389-398) only log their errors and change no state, so they are not inputs.
- `initializeDevices` (main.go:112-186) reads the initial fan counts, temperatures and speeds from the hardware. `Monitor.InitialState` takes them as parameters.
- The loop over devices and the ticker (main.go:348-352) are left out: devices share no state, so a tick of the loop is `Monitor.DeviceTick` applied to each device. Logging, log-file setup and timing are I/O.
- Reading the configuration file and decoding JSON (main.go:32-40, 73-78) are I/O. Only the interval default and the `-curve` override are modelled.
- The CLI commands `status`, `set`, `auto` and the flag parsing (main.go:487-852) are process plumbing around hardware calls. Of these, only `parseFanList` is modelled.
- Arith.RoundHalfAway: idealises the float64 computation at main.go:305-307 as exact rational arithmetic rounded half away from zero, as `math.Round` does. A float64 quotient can differ from the exact one in its last bit, which can move a value sitting exactly on a `.5` boundary.
- CurveLookup.SegmentTarget: inherits the exact-arithmetic idealisation of `Arith.RoundHalfAway`.
- CurveLookup.CurveSpeed: inherits the exact-arithmetic idealisation of `Arith.RoundHalfAway` on the interpolation branch.
- Integers are unbounded. Go's 64-bit `int` wrap-around is not modelled in `abs` (main.go:42-47), in `floorEndTemp ± floorHyst` (main.go:375, 380), in the segment differences `temp - a.MinTemperature` and `b.MinTemperature - a.MinTemperature` (main.go:301-302), or in the hysteresis differences `temp - prevTemp` (main.go:53) and `tempInt - lastFanChangeTemp[i]` (main.go:418). The interpolation products at main.go:305-307 are float64 in Go and exact here, as the rounding line above says. Temperatures, speeds and hysteresis values are small in practice. `strconv.Atoi`'s 64-bit range check is modelled.
- Strings are sequences of Unicode code points. Invalid UTF-8 in the `-fans` argument, which Go's `TrimSpace` passes through byte by byte, is not modelled.
- The builder sorts a copy of the caller's slice, so the caller's ranges are never reordered. This holds by construction in the model, because sequences are immutable values, and it is not stated as a contract.
- The error messages' text is not modelled, only which error occurs and the item or index it names.
- A "game mode" override, an external latch that would keep a device in MANUAL even when the deadband says AUTO, is not in main.go. The device's mode is decided by the deadband alone, as modelled.
