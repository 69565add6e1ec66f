/**
 * `curveSpeedForTempWithProfile`: the speed and hysteresis the curve asks
 * for at a temperature. Below the floor end, and in the gap before the first
 * setpoint, it is the floor; at or beyond the last setpoint it is the last
 * setpoint; in between it interpolates linearly between the two setpoints
 * around the temperature.
 *
 * The Go code interpolates in float64 and rounds with `math.Round`; this
 * model does the same division exactly and rounds halves away from zero.
 */
module CurveLookup {
  import opened Wrappers
  import opened Arith
  import opened CurveBuild

  /** What the curve asks for: a speed and the hysteresis that guards changing to it. */
  datatype Target = Target(speed: int, hyst: int)

  /** `temp` lies in the segment that starts at setpoint `k`. */
  predicate InSegment(pts: seq<CurvePoint>, k: int, temp: int)
    requires 0 <= k < |pts| - 1
  {
    pts[k].temp <= temp < pts[k + 1].temp
  }

  /** The Go segment scan, from index `i` on: the first segment holding `temp`, if any. */
  function FindSegment(pts: seq<CurvePoint>, temp: int, i: nat): (r: Option<nat>)
    ensures r.Some? ==> i <= r.value < |pts| - 1 && InSegment(pts, r.value, temp)
    ensures r.Some? ==> forall k :: i <= k < r.value ==> !InSegment(pts, k, temp)
    ensures r.None? ==> forall k :: i <= k < |pts| - 1 ==> !InSegment(pts, k, temp)
    decreases |pts| - i
  {
    if i + 1 >= |pts| then None
    else if InSegment(pts, i, temp) then Some(i)
    else FindSegment(pts, temp, i + 1)
  }

  /**
   * The value at `temp` on the line from `a` to `b`, rounded and clamped to a
   * percentage, with `a`'s hysteresis; the Go code's guard for a
   * non-positive run returns `a` unchanged.
   */
  function SegmentTarget(a: CurvePoint, b: CurvePoint, temp: int): (t: Target)
    ensures t.hyst == a.hyst
    ensures b.temp <= a.temp ==> t.speed == a.speed
    ensures a.temp < b.temp ==> IsPercent(t.speed)
  {
    var den := b.temp - a.temp;
    if den <= 0 then Target(a.speed, a.hyst)
    else
      var num := a.speed * den + (temp - a.temp) * (b.speed - a.speed);
      Target(Clamp(RoundHalfAway(num, den), 0, 100), a.hyst)
  }

  /** The temperature selects the floor: below its end, no setpoints, or before the first one. */
  predicate InFloor(temp: int, prof: CurveProfile) {
    temp < prof.floorEndTemp || |prof.points| == 0 || temp < prof.points[0].temp
  }

  /** The temperature selects the ceiling: not the floor, and at or past the last setpoint. */
  predicate InCeiling(temp: int, prof: CurveProfile) {
    !InFloor(temp, prof) && temp >= prof.points[|prof.points| - 1].temp
  }

  /** The Go lookup, branch for branch. */
  function CurveSpeed(temp: int, prof: CurveProfile): (t: Target)
    ensures InFloor(temp, prof) ==> t == Target(prof.floorSpeed, prof.floorHyst)
    ensures InCeiling(temp, prof) ==>
      t == Target(prof.points[|prof.points| - 1].speed, prof.points[|prof.points| - 1].hyst)
    ensures t.hyst == prof.floorHyst || exists p :: p in prof.points && t.hyst == p.hyst
  {
    if temp < prof.floorEndTemp then Target(prof.floorSpeed, prof.floorHyst)
    else if |prof.points| == 0 then Target(prof.floorSpeed, prof.floorHyst)
    else if temp < prof.points[0].temp then Target(prof.floorSpeed, prof.floorHyst)
    else
      var last := prof.points[|prof.points| - 1];
      if temp >= last.temp then Target(last.speed, last.hyst)
      else match FindSegment(prof.points, temp, 0)
        case Some(k) =>
          assert prof.points[k] in prof.points;
          SegmentTarget(prof.points[k], prof.points[k + 1], temp)
        case None => Target(last.speed, last.hyst)
  }

  // ---------- Interpolation ----------

  /**
   * Between two percentage setpoints the interpolated speed stays between
   * their speeds, equals the lower setpoint's speed at its temperature, and
   * carries the lower setpoint's hysteresis.
   */
  lemma SegmentBounds(a: CurvePoint, b: CurvePoint, temp: int)
    requires a.temp <= temp < b.temp
    requires IsPercent(a.speed) && IsPercent(b.speed)
    ensures var t := SegmentTarget(a, b, temp);
      && IsPercent(t.speed)
      && t.hyst == a.hyst
      && (a.speed <= b.speed ==> a.speed <= t.speed <= b.speed)
      && (b.speed <= a.speed ==> b.speed <= t.speed <= a.speed)
      && (temp == a.temp ==> t.speed == a.speed)
  {
    var den := b.temp - a.temp;
    var x := temp - a.temp;
    var num := a.speed * den + x * (b.speed - a.speed);
    var speed := Clamp(RoundHalfAway(num, den), 0, 100);
    assert SegmentTarget(a, b, temp) == Target(speed, a.hyst);
    if a.speed <= b.speed {
      LerpRising(a.speed, b.speed, den, x);
      ClampedRoundBetween(num, den, a.speed, b.speed);
    } else {
      LerpFalling(a.speed, b.speed, den, x);
      ClampedRoundBetween(num, den, b.speed, a.speed);
    }
    if temp == a.temp {
      assert num == a.speed * den;
      RoundExact(a.speed, den);
    }
  }

  /** Linear interpolation from `s0` up to `s1`, scaled by `den`, stays between the ends. */
  lemma LerpRising(s0: int, s1: int, den: int, x: int)
    requires 0 <= x < den
    requires s0 <= s1
    ensures s0 * den <= s0 * den + x * (s1 - s0) <= s1 * den
  {
    MulBetween(x, den, s1 - s0);
    assert den * (s1 - s0) == s1 * den - s0 * den;
  }

  /** Linear interpolation from `s0` down to `s1`, scaled by `den`, stays between the ends. */
  lemma LerpFalling(s0: int, s1: int, den: int, x: int)
    requires 0 <= x < den
    requires s1 <= s0
    ensures s1 * den <= s0 * den + x * (s1 - s0) <= s0 * den
  {
    MulBetween(x, den, s0 - s1);
    assert x * (s1 - s0) == -(x * (s0 - s1));
    assert den * (s0 - s1) == s0 * den - s1 * den;
  }

  /** A rational between two percentages rounds and clamps to a value between them. */
  lemma ClampedRoundBetween(num: int, den: int, lo: int, hi: int)
    requires den > 0
    requires IsPercent(lo) && IsPercent(hi)
    requires lo * den <= num <= hi * den
    ensures lo <= Clamp(RoundHalfAway(num, den), 0, 100) <= hi
  {
    RoundBetween(num, den, lo, hi);
  }

  /** `0 <= x * d <= den * d` when `0 <= x < den` and `d >= 0`. */
  lemma MulBetween(x: int, den: int, d: int)
    requires 0 <= x < den
    requires d >= 0
    ensures 0 <= x * d <= den * d
  {
  }

  /** Within one segment whose speed rises, the interpolated speed never falls as the temperature rises. */
  lemma SegmentMonotone(a: CurvePoint, b: CurvePoint, t1: int, t2: int)
    requires a.temp <= t1 <= t2 < b.temp
    requires a.speed <= b.speed
    ensures SegmentTarget(a, b, t1).speed <= SegmentTarget(a, b, t2).speed
  {
    var den := b.temp - a.temp;
    var d := b.speed - a.speed;
    MultiplyMonotoneRight(t1 - a.temp, t2 - a.temp, d);
    RoundMonotone(a.speed * den + (t1 - a.temp) * d, a.speed * den + (t2 - a.temp) * d, den);
    ClampMonotone(
      RoundHalfAway(a.speed * den + (t1 - a.temp) * d, den),
      RoundHalfAway(a.speed * den + (t2 - a.temp) * d, den), 0, 100);
  }

  lemma MultiplyMonotoneRight(x: int, y: int, d: int)
    requires x <= y && d >= 0
    ensures x * d <= y * d
  {
  }

  // ---------- The segment scan on an ascending curve ----------

  /** On strictly ascending setpoints the segment holding `temp` is unique, so the scan finds exactly it. */
  lemma FindSegmentAscending(pts: seq<CurvePoint>, temp: int, k: nat)
    requires StrictlyAscending(pts)
    requires k < |pts| - 1 && InSegment(pts, k, temp)
    ensures FindSegment(pts, temp, 0) == Some(k)
  {
    var r := FindSegment(pts, temp, 0);
    forall j | 0 <= j < |pts| - 1 && j != k ensures !InSegment(pts, j, temp) {
      if j < k {
        assert pts[j + 1].temp <= pts[k].temp;
      } else {
        assert pts[k + 1].temp <= pts[j].temp;
      }
    }
  }

  /** `pts[j + 1].temp <= pts[k].temp` whenever `j < k` on strictly ascending points. */
  lemma AscendingStep(pts: seq<CurvePoint>, j: int, k: int)
    requires StrictlyAscending(pts)
    requires 0 <= j < k < |pts|
    ensures pts[j + 1].temp <= pts[k].temp
  {
  }

  /** Some segment holds every temperature from the first setpoint up to (not including) the last. */
  lemma {:induction false} SegmentExists(pts: seq<CurvePoint>, temp: int) returns (k: nat)
    requires |pts| >= 2
    requires pts[0].temp <= temp < pts[|pts| - 1].temp
    ensures k < |pts| - 1 && InSegment(pts, k, temp)
  {
    k := 0;
    while pts[k + 1].temp <= temp
      invariant 0 <= k < |pts| - 1
      invariant pts[k].temp <= temp
      decreases |pts| - k
    {
      k := k + 1;
    }
  }

  /**
   * With strictly ascending setpoints the Go fallback after the segment scan
   * (`// Fallback (shouldn't hit)`) is indeed never reached.
   */
  lemma FallbackUnreachable(temp: int, prof: CurveProfile)
    requires StrictlyAscending(prof.points)
    requires !InFloor(temp, prof) && !InCeiling(temp, prof)
    ensures FindSegment(prof.points, temp, 0).Some?
  {
    var k := SegmentExists(prof.points, temp);
    FindSegmentAscending(prof.points, temp, k);
  }

  /**
   * Interpolation: for a temperature in the segment from setpoint `k` to
   * `k + 1` (and not in the floor), the curve's speed lies between the two
   * setpoints' speeds, equals setpoint `k`'s speed at its temperature, and
   * the hysteresis used is setpoint `k`'s.
   */
  lemma CurveInterpolates(temp: int, prof: CurveProfile, k: nat)
    requires StrictlyAscending(prof.points) && SpeedsArePercent(prof)
    requires k < |prof.points| - 1 && InSegment(prof.points, k, temp)
    requires temp >= prof.floorEndTemp
    ensures var a, b, t := prof.points[k], prof.points[k + 1], CurveSpeed(temp, prof);
      && IsPercent(t.speed)
      && t.hyst == a.hyst
      && (a.speed <= b.speed ==> a.speed <= t.speed <= b.speed)
      && (b.speed <= a.speed ==> b.speed <= t.speed <= a.speed)
      && (temp == a.temp ==> t.speed == a.speed)
  {
    var pts := prof.points;
    AscendingStep(pts, k, |pts| - 1);
    FindSegmentAscending(pts, temp, k);
    assert pts[k] in pts && pts[k + 1] in pts;
    SegmentBounds(pts[k], pts[k + 1], temp);
  }

  /** The curve passes through every setpoint at or past the floor's end. */
  lemma CurveHitsSetpoints(prof: CurveProfile, k: nat)
    requires StrictlyAscending(prof.points) && SpeedsArePercent(prof)
    requires k < |prof.points|
    requires prof.points[k].temp >= prof.floorEndTemp
    ensures CurveSpeed(prof.points[k].temp, prof) == Target(prof.points[k].speed, prof.points[k].hyst)
  {
    var pts := prof.points;
    if k == 0 && |pts| == 1 {
    } else if k < |pts| - 1 {
      if k > 0 {
        assert pts[0].temp < pts[k].temp;
      }
      CurveInterpolates(pts[k].temp, prof, k);
    }
  }

  /** Every speed the curve asks for is a percentage when the profile's speeds are. */
  lemma CurveSpeedIsPercent(temp: int, prof: CurveProfile)
    requires SpeedsArePercent(prof)
    ensures IsPercent(CurveSpeed(temp, prof).speed)
  {
    if !InFloor(temp, prof) && !InCeiling(temp, prof) {
      match FindSegment(prof.points, temp, 0)
      case Some(k) =>
        var a, b := prof.points[k], prof.points[k + 1];
        assert a in prof.points && b in prof.points;
        if b.temp - a.temp > 0 {
          SegmentBounds(a, b, temp);
        }
      case None =>
        assert prof.points[|prof.points| - 1] in prof.points;
    } else if InCeiling(temp, prof) {
      assert prof.points[|prof.points| - 1] in prof.points;
    }
  }

  // ---------- Monotonicity ----------

  /** Setpoint speeds never fall as the temperature rises, and the floor is at most every setpoint. */
  predicate RisingCurve(prof: CurveProfile) {
    && StrictlyAscending(prof.points)
    && SpeedsArePercent(prof)
    && (forall i, j :: 0 <= i < j < |prof.points| ==> prof.points[i].speed <= prof.points[j].speed)
    && (forall i :: 0 <= i < |prof.points| ==> prof.floorSpeed <= prof.points[i].speed)
  }

  /** Outside the floor, the speed lies between the speeds of the setpoints around the temperature. */
  lemma CurveBetweenSetpoints(temp: int, prof: CurveProfile) returns (k: nat)
    requires RisingCurve(prof)
    requires !InFloor(temp, prof)
    ensures k < |prof.points| && prof.points[k].temp <= temp
    ensures prof.points[k].speed <= CurveSpeed(temp, prof).speed
    ensures k + 1 < |prof.points| ==>
      temp < prof.points[k + 1].temp && CurveSpeed(temp, prof).speed <= prof.points[k + 1].speed
    ensures k + 1 == |prof.points| ==> CurveSpeed(temp, prof).speed == prof.points[k].speed
  {
    var pts := prof.points;
    if InCeiling(temp, prof) {
      k := |pts| - 1;
    } else {
      k := SegmentExists(pts, temp);
      CurveInterpolates(temp, prof, k);
    }
  }

  /**
   * On a rising curve the commanded speed never falls as the temperature
   * rises: the floor, interpolation and ceiling pieces join up monotonically.
   */
  lemma CurveMonotone(t1: int, t2: int, prof: CurveProfile)
    requires RisingCurve(prof)
    requires t1 <= t2
    ensures CurveSpeed(t1, prof).speed <= CurveSpeed(t2, prof).speed
  {
    var pts := prof.points;
    if InFloor(t2, prof) {
      // t1 <= t2 puts t1 in the floor too.
    } else if InFloor(t1, prof) {
      var k2 := CurveBetweenSetpoints(t2, prof);
    } else {
      var k1 := CurveBetweenSetpoints(t1, prof);
      var k2 := CurveBetweenSetpoints(t2, prof);
      if k1 == k2 {
        if k1 + 1 < |pts| {
          SegmentMonotone(pts[k1], pts[k1 + 1], t1, t2);
          FindSegmentAscending(pts, t1, k1);
          FindSegmentAscending(pts, t2, k1);
        }
      } else {
        // Distinct segments: t1's segment lies wholly below t2's.
        assert k1 < k2 by {
          if k2 < k1 {
            AscendingStep(pts, k2, k1);
          }
        }
        AscendingStep(pts, k1, k2);
      }
    }
  }
}
