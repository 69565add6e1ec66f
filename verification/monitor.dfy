/**
 * One tick of `runMonitoringLoop` for one device, as a state transition.
 *
 * The device's in-memory state (`inAuto[i]`, `lastFanChangeTemp[i]`,
 * `prevTemps[i]`, `prevFanSpeeds[i]`) is a `DeviceState`; the hardware is
 * reduced to its answers: the temperature read (`None` when the handle or the
 * read failed) and, per fan, whether the manual-policy write and the speed
 * write succeeded. Writes of the AUTO policy change no state, so their
 * outcome is not an input.
 */
module Monitor {
  import opened Wrappers
  import opened Arith
  import opened FanConfig
  import opened StepPolicy
  import opened CurveBuild
  import opened CurveLookup

  /** The policy fixed for a whole run of the loop. */
  datatype Policy = Step(ranges: seq<TemperatureRange>) | Curve(prof: CurveProfile)

  /** What the two hardware calls that change a fan's speed returned. */
  datatype FanWrite = FanWrite(policyOk: bool, speedOk: bool)

  /** A speed change takes effect only when both the manual-policy and the speed write succeed. */
  predicate Succeeded(w: FanWrite) {
    w.policyOk && w.speedOk
  }

  /** The loop's memory of one device. */
  datatype DeviceState = DeviceState(
    fanCount: int,
    inAuto: bool,
    lastChangeTemp: int,
    prevTemp: int,
    speeds: seq<int>
  )

  /** One recorded speed per controllable fan (none when the device reports no fans). */
  predicate WellFormed(s: DeviceState) {
    |s.speeds| == (if s.fanCount > 0 then s.fanCount else 0)
  }

  // ---------- Start-up ----------

  /**
   * The policy the loop runs: the curve only when curve mode is on and a
   * profile can be built; otherwise (including an empty range list in
   * curve mode) the step policy over the configured ranges.
   */
  function SelectPolicy(c: Config): (p: Policy)
    ensures p.Curve? <==> c.curve && |c.ranges| > 0
    ensures p.Step? ==> p.ranges == c.ranges
    ensures p.Curve? ==> BuildCurveProfile(c.ranges) == Success(p.prof)
  {
    if c.curve then
      match BuildCurveProfile(c.ranges)
      case Success(prof) => Curve(prof)
      case Failure(_) => Step(c.ranges)
    else Step(c.ranges)
  }

  /**
   * The floor end the start-up mode test compares with: the profile's in
   * curve mode; the zero value of an unbuilt profile otherwise.
   */
  function FloorEnd(p: Policy): int {
    match p
    case Curve(prof) => prof.floorEndTemp
    case Step(_) => 0
  }

  /**
   * A device's state when the loop starts: AUTO exactly when the initial
   * temperature is below the floor end, and the hysteresis reference is the
   * initial temperature.
   */
  function InitialState(p: Policy, fanCount: int, initialTemp: int, initialSpeeds: seq<int>): (s: DeviceState)
    requires |initialSpeeds| == (if fanCount > 0 then fanCount else 0)
    ensures WellFormed(s)
    ensures s.inAuto <==> initialTemp < FloorEnd(p)
    ensures s.lastChangeTemp == initialTemp && s.prevTemp == initialTemp
    ensures s.speeds == initialSpeeds && s.fanCount == fanCount
  {
    DeviceState(fanCount, initialTemp < FloorEnd(p), initialTemp, initialTemp, initialSpeeds)
  }

  // ---------- Per-fan writes ----------

  /** The fan speeds after one pass of a fan loop, and whether any fan was updated. */
  datatype FanPass = FanPass(speeds: seq<int>, anyUpdated: bool)

  /**
   * A fan loop: fan `i` is asked to move to `requests[i]` (if any); its
   * recorded speed changes only when both writes succeed.
   */
  function WriteFans(prev: seq<int>, requests: seq<Option<int>>, writes: seq<FanWrite>): (r: FanPass)
    requires |requests| == |prev| && |writes| == |prev|
    ensures |r.speeds| == |prev|
    ensures forall i :: 0 <= i < |prev| ==>
      r.speeds[i] == (if requests[i].Some? && Succeeded(writes[i]) then requests[i].value else prev[i])
    ensures r.anyUpdated <==> exists i :: 0 <= i < |prev| && requests[i].Some? && Succeeded(writes[i])
  {
    if |prev| == 0 then FanPass([], false)
    else
      var rest := WriteFans(prev[1..], requests[1..], writes[1..]);
      var updated := requests[0].Some? && Succeeded(writes[0]);
      var head := if updated then requests[0].value else prev[0];
      var r := FanPass([head] + rest.speeds, updated || rest.anyUpdated);
      assert forall i :: 1 <= i < |prev| ==>
        requests[1..][i - 1] == requests[i] && writes[1..][i - 1] == writes[i] && prev[1..][i - 1] == prev[i];
      assert rest.anyUpdated ==> exists i :: 0 <= i < |prev| && requests[i].Some? && Succeeded(writes[i]) by {
        if rest.anyUpdated {
          var j :| 0 <= j < |prev| - 1 && requests[1..][j].Some? && Succeeded(writes[1..][j]);
          assert requests[j + 1].Some? && Succeeded(writes[j + 1]);
        }
      }
      r
  }

  // ---------- Curve mode ----------

  /**
   * The AUTO/MANUAL deadband around the floor end: AUTO is left only at or
   * above `floorEndTemp + floorHyst`, MANUAL only at or below
   * `floorEndTemp - floorHyst`; in between the mode is kept.
   */
  function NextMode(inAuto: bool, temp: int, prof: CurveProfile): (auto: bool)
    ensures inAuto ==> (auto <==> temp < prof.floorEndTemp + prof.floorHyst)
    ensures !inAuto ==> (auto <==> temp <= prof.floorEndTemp - prof.floorHyst)
    ensures prof.floorEndTemp - prof.floorHyst < temp < prof.floorEndTemp + prof.floorHyst ==> auto == inAuto
  {
    if inAuto then !(temp >= prof.floorEndTemp + prof.floorHyst)
    else temp <= prof.floorEndTemp - prof.floorHyst
  }

  /** In MANUAL, the curve's request for one fan: none if already at the target or inside the hysteresis. */
  function CurveRequest(target: Target, temp: int, lastChangeTemp: int, prevSpeed: int): (r: Option<int>)
    ensures r.Some? <==> target.speed != prevSpeed && Abs(temp - lastChangeTemp) >= target.hyst
    ensures r.Some? ==> r.value == target.speed
  {
    if target.speed == prevSpeed then None
    else if Abs(temp - lastChangeTemp) < target.hyst then None
    else Some(target.speed)
  }

  /**
   * A curve-mode tick with temperature `temp`. In AUTO no fan speed changes
   * and the hysteresis reference follows the temperature; in MANUAL a fan
   * changes only to the curve's target, only when it differs from the
   * recorded speed, the temperature has moved at least the target's
   * hysteresis from the reference, and both writes succeed; the reference
   * moves to `temp` exactly when some fan changed.
   */
  function CurveTick(prof: CurveProfile, s: DeviceState, temp: int, writes: seq<FanWrite>): (r: DeviceState)
    requires |writes| == |s.speeds|
    ensures r.fanCount == s.fanCount && |r.speeds| == |s.speeds|
    ensures r.prevTemp == temp
    ensures s.inAuto ==> (r.inAuto <==> temp < prof.floorEndTemp + prof.floorHyst)
    ensures !s.inAuto ==> (r.inAuto <==> temp <= prof.floorEndTemp - prof.floorHyst)
    ensures r.inAuto ==> r.speeds == s.speeds && r.lastChangeTemp == temp
    ensures !r.inAuto ==> forall i :: 0 <= i < |s.speeds| ==>
      (r.speeds[i] != s.speeds[i] <==>
        && CurveSpeed(temp, prof).speed != s.speeds[i]
        && Abs(temp - s.lastChangeTemp) >= CurveSpeed(temp, prof).hyst
        && Succeeded(writes[i]))
    ensures !r.inAuto ==> forall i :: 0 <= i < |s.speeds| ==>
      r.speeds[i] == s.speeds[i] || r.speeds[i] == CurveSpeed(temp, prof).speed
    ensures !r.inAuto ==>
      r.lastChangeTemp == (if r.speeds != s.speeds then temp else s.lastChangeTemp)
  {
    var auto := NextMode(s.inAuto, temp, prof);
    if auto then
      s.(inAuto := true, lastChangeTemp := temp, prevTemp := temp)
    else
      var target := CurveSpeed(temp, prof);
      var requests := seq(|s.speeds|, i requires 0 <= i < |s.speeds| =>
        CurveRequest(target, temp, s.lastChangeTemp, s.speeds[i]));
      var pass := WriteFans(s.speeds, requests, writes);
      assert pass.anyUpdated <==> pass.speeds != s.speeds by {
        if pass.speeds != s.speeds {
          var i :| 0 <= i < |s.speeds| && pass.speeds[i] != s.speeds[i];
          assert requests[i].Some? && Succeeded(writes[i]);
        }
      }
      s.(inAuto := false,
         speeds := pass.speeds,
         lastChangeTemp := if pass.anyUpdated then temp else s.lastChangeTemp,
         prevTemp := temp)
  }

  // ---------- Step mode ----------

  /** The step policy's request for one fan: its decision, unless that is the recorded speed. */
  function StepRequest(ranges: seq<TemperatureRange>, temp: int, prevTemp: int, prevSpeed: int): (r: Option<int>)
    ensures r.Some? <==> StepSpeed(temp, prevTemp, prevSpeed, ranges) != prevSpeed
    ensures r.Some? ==> r.value == StepSpeed(temp, prevTemp, prevSpeed, ranges)
  {
    var speed := StepSpeed(temp, prevTemp, prevSpeed, ranges);
    if speed == prevSpeed then None else Some(speed)
  }

  /**
   * A step-mode tick: the mode flag and the hysteresis reference are not
   * touched; a fan changes only to the step policy's decision, only when it
   * differs from the recorded speed and both writes succeed.
   */
  function StepTick(ranges: seq<TemperatureRange>, s: DeviceState, temp: int, writes: seq<FanWrite>): (r: DeviceState)
    requires |writes| == |s.speeds|
    ensures r.fanCount == s.fanCount && |r.speeds| == |s.speeds|
    ensures r.inAuto == s.inAuto && r.lastChangeTemp == s.lastChangeTemp
    ensures r.prevTemp == temp
    ensures forall i :: 0 <= i < |s.speeds| ==>
      (r.speeds[i] != s.speeds[i] <==>
        StepSpeed(temp, s.prevTemp, s.speeds[i], ranges) != s.speeds[i] && Succeeded(writes[i]))
    ensures forall i :: 0 <= i < |s.speeds| ==>
      r.speeds[i] == s.speeds[i] || r.speeds[i] == StepSpeed(temp, s.prevTemp, s.speeds[i], ranges)
  {
    var requests := seq(|s.speeds|, i requires 0 <= i < |s.speeds| =>
      StepRequest(ranges, temp, s.prevTemp, s.speeds[i]));
    var pass := WriteFans(s.speeds, requests, writes);
    s.(speeds := pass.speeds, prevTemp := temp)
  }

  // ---------- The device tick ----------

  /**
   * One tick for one device. A device with a fan count of zero, or whose
   * handle or temperature could not be read, is skipped and keeps its state;
   * otherwise the run's policy decides.
   */
  function DeviceTick(p: Policy, s: DeviceState, sample: Option<int>, writes: seq<FanWrite>): (r: DeviceState)
    requires WellFormed(s) && |writes| == |s.speeds|
    ensures WellFormed(r) && r.fanCount == s.fanCount
    ensures s.fanCount == 0 || sample.None? ==> r == s
    ensures s.fanCount != 0 && sample.Some? ==> r.prevTemp == sample.value
    ensures p.Step? ==> r.inAuto == s.inAuto && r.lastChangeTemp == s.lastChangeTemp
  {
    if s.fanCount == 0 || sample.None? then s
    else
      match p
      case Curve(prof) => CurveTick(prof, s, sample.value, writes)
      case Step(ranges) => StepTick(ranges, s, sample.value, writes)
  }

  // ---------- Properties across ticks ----------

  /** With a positive floor hysteresis, a second look at the same temperature never flips the mode back. */
  lemma ModeSettles(inAuto: bool, temp: int, prof: CurveProfile)
    requires prof.floorHyst > 0
    ensures NextMode(NextMode(inAuto, temp, prof), temp, prof) == NextMode(inAuto, temp, prof)
  {
  }

  /**
   * With a zero floor hysteresis the deadband is empty and its two edges meet
   * at `floorEndTemp`: a device sitting exactly there flips mode on every tick.
   */
  lemma ModeFlipsAtFloorEndWithoutHysteresis(prof: CurveProfile)
    requires prof.floorHyst == 0
    ensures !NextMode(true, prof.floorEndTemp, prof)
    ensures NextMode(false, prof.floorEndTemp, prof)
  {
  }

  /**
   * Idempotence: at an unchanged temperature, a fan whose speed was just
   * changed is not asked to change again on the next tick, whatever the
   * hardware answers then.
   */
  lemma RepeatTickKeepsUpdatedFans(p: Policy, s: DeviceState, temp: int, w1: seq<FanWrite>, w2: seq<FanWrite>, i: int)
    requires WellFormed(s) && |w1| == |s.speeds| && |w2| == |s.speeds|
    requires 0 <= i < |s.speeds|
    ensures var s1 := DeviceTick(p, s, Some(temp), w1);
      var s2 := DeviceTick(p, s1, Some(temp), w2);
      s1.speeds[i] != s.speeds[i] ==> s2.speeds[i] == s1.speeds[i]
  {
    var s1 := DeviceTick(p, s, Some(temp), w1);
    match p
    case Curve(prof) =>
    case Step(ranges) =>
      var v := StepSpeed(temp, s.prevTemp, s.speeds[i], ranges);
      StepIgnoresPrevTemp(temp, s.prevTemp, temp, s.speeds[i], ranges);
      var k := MatchOrNoMatch(ranges, temp);
      if s1.speeds[i] != s.speeds[i] {
        assert s1.speeds[i] == v;
        assert StepSpeed(temp, temp, v, ranges) == v;
      }
  }

  /**
   * The MANUAL hysteresis is shared by the device's fans: once any fan has
   * changed at `temp`, no fan changes at a later temperature closer to `temp`
   * than the curve's hysteresis there, even one whose own write had failed.
   */
  lemma ManualChangesWaitForHysteresis(
    prof: CurveProfile, s: DeviceState, temp: int, w1: seq<FanWrite>, next: int, w2: seq<FanWrite>)
    requires WellFormed(s) && s.fanCount != 0
    requires |w1| == |s.speeds| && |w2| == |s.speeds|
    requires var s1 := DeviceTick(Curve(prof), s, Some(temp), w1);
      !s1.inAuto && s1.speeds != s.speeds
    requires Abs(next - temp) < CurveSpeed(next, prof).hyst
    ensures var s1 := DeviceTick(Curve(prof), s, Some(temp), w1);
      DeviceTick(Curve(prof), s1, Some(next), w2).speeds == s1.speeds
  {
    var s1 := DeviceTick(Curve(prof), s, Some(temp), w1);
    assert s1.lastChangeTemp == temp;
    var s2 := DeviceTick(Curve(prof), s1, Some(next), w2);
    assert |s2.speeds| == |s1.speeds|;
    forall j | 0 <= j < |s1.speeds| ensures s2.speeds[j] == s1.speeds[j] {
    }
  }
}
