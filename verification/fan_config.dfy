/** The configuration records of main.go (`Config`, `TemperatureRange`) and the defaults applied to them. */
module FanConfig {

  /** One configured band: speeds apply for `minTemp < temp <= maxTemp` (degrees Celsius, percent). */
  datatype TemperatureRange = TemperatureRange(
    minTemp: int,
    maxTemp: int,
    fanSpeed: int,
    hysteresis: int
  )

  /** The decoded configuration file; `curve` selects the curve policy over the step policy. */
  datatype Config = Config(
    timeToUpdate: int,
    ranges: seq<TemperatureRange>,
    curve: bool
  )

  /** The polling period used by the daemon: a non-positive configured value falls back to 5 seconds. */
  function EffectiveInterval(configured: int): (seconds: int)
    ensures seconds > 0
    ensures configured > 0 ==> seconds == configured
    ensures configured <= 0 ==> seconds == 5
  {
    if configured <= 0 then 5 else configured
  }

  /** Applies the loading defaults to a decoded configuration; only the interval is touched. */
  function LoadDefaults(c: Config): (r: Config)
    ensures r.timeToUpdate > 0
    ensures r.ranges == c.ranges && r.curve == c.curve
    ensures c.timeToUpdate > 0 ==> r == c
  {
    c.(timeToUpdate := EffectiveInterval(c.timeToUpdate))
  }

  /** The daemon's `-curve` flag can only switch curve mode on, never off. */
  function ApplyCurveOverride(c: Config, curveFlag: bool): (r: Config)
    ensures r.curve == (c.curve || curveFlag)
    ensures r.ranges == c.ranges && r.timeToUpdate == c.timeToUpdate
  {
    if curveFlag then c.(curve := true) else c
  }
}
