/**
 * The original step policy, `getFanSpeedForTemperature`: the first range
 * whose half-open band `(minTemp, maxTemp]` holds the temperature decides
 * the speed; outside every band the previous speed is kept.
 */
module StepPolicy {
  import opened Arith
  import opened FanConfig

  /** The band test of the Go loop: exclusive lower bound, inclusive upper bound. */
  predicate Contains(r: TemperatureRange, temp: int) {
    r.minTemp < temp <= r.maxTemp
  }

  /** `i` is the first index whose range contains `temp`. */
  predicate FirstMatch(ranges: seq<TemperatureRange>, temp: int, i: int) {
    && 0 <= i < |ranges|
    && Contains(ranges[i], temp)
    && forall j :: 0 <= j < i ==> !Contains(ranges[j], temp)
  }

  /** No range contains `temp`. */
  predicate NoMatch(ranges: seq<TemperatureRange>, temp: int) {
    forall j :: 0 <= j < |ranges| ==> !Contains(ranges[j], temp)
  }

  /**
   * The Go scan. With no containing range the result is `prevSpeed`; otherwise
   * it is the first containing range's speed, whichever way the hysteresis
   * test goes (the "hold" branch only runs when `prevSpeed` already equals it).
   */
  function StepSpeed(temp: int, prevTemp: int, prevSpeed: int, ranges: seq<TemperatureRange>): (speed: int)
    ensures NoMatch(ranges, temp) ==> speed == prevSpeed
    ensures forall i :: FirstMatch(ranges, temp, i) ==> speed == ranges[i].fanSpeed
  {
    if |ranges| == 0 then prevSpeed
    else if Contains(ranges[0], temp) then
      var r := ranges[0];
      if Abs(temp - prevTemp) >= r.hysteresis || prevSpeed != r.fanSpeed then r.fanSpeed else prevSpeed
    else
      var speed := StepSpeed(temp, prevTemp, prevSpeed, ranges[1..]);
      assert forall i :: FirstMatch(ranges, temp, i) ==> FirstMatch(ranges[1..], temp, i - 1) by {
        forall i | FirstMatch(ranges, temp, i) ensures FirstMatch(ranges[1..], temp, i - 1) {
          assert i != 0;
          forall j | 0 <= j < i - 1 ensures !Contains(ranges[1..][j], temp) {
            assert ranges[1..][j] == ranges[j + 1];
          }
        }
      }
      assert NoMatch(ranges, temp) ==> NoMatch(ranges[1..], temp) by {
        if NoMatch(ranges, temp) {
          forall j | 0 <= j < |ranges[1..]| ensures !Contains(ranges[1..][j], temp) {
            assert ranges[1..][j] == ranges[j + 1];
          }
        }
      }
      speed
  }

  /** Either no range contains `temp` or there is a first one that does. */
  lemma {:induction false} MatchOrNoMatch(ranges: seq<TemperatureRange>, temp: int) returns (i: int)
    ensures NoMatch(ranges, temp) || FirstMatch(ranges, temp, i)
  {
    i := 0;
    while i < |ranges| && !Contains(ranges[i], temp)
      invariant 0 <= i <= |ranges|
      invariant forall j :: 0 <= j < i ==> !Contains(ranges[j], temp)
    {
      i := i + 1;
    }
  }

  /**
   * The hysteresis test of the step policy never changes the outcome: the
   * result does not depend on the previous temperature at all.
   */
  lemma StepIgnoresPrevTemp(temp: int, prevTemp1: int, prevTemp2: int, prevSpeed: int, ranges: seq<TemperatureRange>)
    ensures StepSpeed(temp, prevTemp1, prevSpeed, ranges) == StepSpeed(temp, prevTemp2, prevSpeed, ranges)
  {
    var i := MatchOrNoMatch(ranges, temp);
  }

  /** The step policy keeps the current speed exactly when no band applies or the first applicable band asks for it. */
  lemma StepKeepsSpeedIff(temp: int, prevTemp: int, prevSpeed: int, ranges: seq<TemperatureRange>)
    ensures StepSpeed(temp, prevTemp, prevSpeed, ranges) == prevSpeed
        <==> NoMatch(ranges, temp) || exists i :: FirstMatch(ranges, temp, i) && ranges[i].fanSpeed == prevSpeed
  {
    var i := MatchOrNoMatch(ranges, temp);
    if !NoMatch(ranges, temp) {
      FirstMatchUnique(ranges, temp, i);
    }
  }

  /** At most one index is the first match. */
  lemma FirstMatchUnique(ranges: seq<TemperatureRange>, temp: int, i: int)
    requires FirstMatch(ranges, temp, i)
    ensures forall k :: FirstMatch(ranges, temp, k) ==> k == i
  {
  }
}
