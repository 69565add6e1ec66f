/**
 * Curve mode's profile (`curvePoint`, `curveProfile`) and its builder
 * `buildCurveProfileFromRanges`: the range least in `(minTemp, maxTemp)`
 * order becomes the floor, every other range a setpoint at its `minTemp`,
 * and setpoints sharing a temperature collapse to the last of them.
 */
module CurveBuild {
  import opened Wrappers
  import opened Arith
  import opened StableSort
  import opened FanConfig

  /** One setpoint of the curve: at `temp`, run at `speed` percent, with hysteresis `hyst`. */
  datatype CurvePoint = CurvePoint(temp: int, speed: int, hyst: int)

  /**
   * Below `floorEndTemp` the fans run at `floorSpeed`; from the first setpoint
   * on, the speed is interpolated between `points` and held at the last one.
   */
  datatype CurveProfile = CurveProfile(
    floorEndTemp: int,
    floorSpeed: int,
    floorHyst: int,
    points: seq<CurvePoint>
  )

  /** The builder's only failure: curve mode asked for with no ranges configured. */
  datatype BuildError = NoRanges

  /** The order of the first `sort.SliceStable`: by `minTemp`, ties by `maxTemp`. */
  function RangeKey(r: TemperatureRange): Key {
    Key(r.minTemp, r.maxTemp)
  }

  /** The order of the second `sort.SliceStable`: by temperature alone. */
  function PointKey(p: CurvePoint): Key {
    Key(p.temp, 0)
  }

  /** The setpoint a non-floor range contributes: at its `minTemp`, speed clamped to a percentage. */
  function ToPoint(r: TemperatureRange): CurvePoint {
    CurvePoint(r.minTemp, Clamp(r.fanSpeed, 0, 100), r.hysteresis)
  }

  function ToPoints(rs: seq<TemperatureRange>): (pts: seq<CurvePoint>)
    ensures |pts| == |rs|
    ensures forall i :: 0 <= i < |rs| ==> pts[i] == ToPoint(rs[i])
  {
    seq(|rs|, i requires 0 <= i < |rs| => ToPoint(rs[i]))
  }

  /** Setpoint temperatures strictly increase. */
  predicate StrictlyAscending(pts: seq<CurvePoint>) {
    forall i, j :: 0 <= i < j < |pts| ==> pts[i].temp < pts[j].temp
  }

  /** Every speed of the profile is a percentage. */
  predicate SpeedsArePercent(prof: CurveProfile) {
    && IsPercent(prof.floorSpeed)
    && forall p :: p in prof.points ==> IsPercent(p.speed)
  }

  /** No later point of `pts` shares the temperature of `pts[j]`. */
  predicate LastOfTemp(pts: seq<CurvePoint>, j: int)
    requires 0 <= j < |pts|
  {
    forall k :: j < k < |pts| ==> pts[k].temp != pts[j].temp
  }

  // ---------- De-duplication ----------

  /** One iteration of the Go de-duplication loop: a point with the last kept temperature replaces it. */
  function DedupStep(acc: seq<CurvePoint>, p: CurvePoint): (r: seq<CurvePoint>)
    ensures |r| > 0 && r[|r| - 1] == p
    ensures |acc| > 0 && acc[|acc| - 1].temp == p.temp ==> r[..|r| - 1] == acc[..|acc| - 1]
    ensures (|acc| == 0 || acc[|acc| - 1].temp != p.temp) ==> r[..|r| - 1] == acc
  {
    if |acc| == 0 then [p]
    else if acc[|acc| - 1].temp == p.temp then acc[..|acc| - 1] + [p]
    else acc + [p]
  }

  function DedupFrom(acc: seq<CurvePoint>, pts: seq<CurvePoint>): seq<CurvePoint>
    decreases |pts|
  {
    if |pts| == 0 then acc else DedupFrom(DedupStep(acc, pts[0]), pts[1..])
  }

  /** The Go de-duplication loop, run from an empty `dedup` slice. */
  function Dedup(pts: seq<CurvePoint>): seq<CurvePoint> {
    DedupFrom([], pts)
  }

  /** The loop never grows the list by more than the input, and the last input point always ends it. */
  lemma {:induction false} DedupFromEnds(acc: seq<CurvePoint>, pts: seq<CurvePoint>)
    ensures |DedupFrom(acc, pts)| <= |acc| + |pts|
    ensures |pts| > 0 ==> |DedupFrom(acc, pts)| > 0 && DedupFrom(acc, pts)[|DedupFrom(acc, pts)| - 1] == pts[|pts| - 1]
    decreases |pts|
  {
    if |pts| > 0 {
      var next := DedupStep(acc, pts[0]);
      assert |next| <= |acc| + 1 by {
        if |acc| > 0 && acc[|acc| - 1].temp == pts[0].temp {
          assert |next| - 1 == |acc| - 1;
        }
      }
      DedupFromEnds(next, pts[1..]);
      if |pts| == 1 {
        assert DedupFrom(next, pts[1..]) == next;
      }
    }
  }

  /**
   * Reference definition of "last one wins": a point is kept exactly when the
   * point after it has a different temperature (or there is none).
   */
  function RunLasts(pts: seq<CurvePoint>): (r: seq<CurvePoint>)
    ensures |r| <= |pts|
    ensures forall x :: x in r ==> x in pts
  {
    if |pts| == 0 then []
    else
      var rest := RunLasts(pts[1..]);
      assert forall x :: x in rest ==> x in pts by {
        assert forall x :: x in pts[1..] ==> x in pts;
      }
      if |pts| >= 2 && pts[0].temp == pts[1].temp then rest else [pts[0]] + rest
  }

  /** The last point of each run of equal temperatures survives. */
  lemma {:induction false} RunLastsKeepsLasts(pts: seq<CurvePoint>, j: int)
    requires 0 <= j < |pts| && LastOfTemp(pts, j)
    ensures pts[j] in RunLasts(pts)
  {
    var rest := RunLasts(pts[1..]);
    if j == 0 {
      assert |pts| >= 2 ==> pts[1].temp != pts[0].temp;
    } else {
      forall k | j - 1 < k < |pts[1..]| ensures pts[1..][k].temp != pts[1..][j - 1].temp {
        assert pts[1..][k] == pts[k + 1];
      }
      RunLastsKeepsLasts(pts[1..], j - 1);
      assert pts[1..][j - 1] == pts[j];
    }
  }

  /** On points sorted by temperature, the survivors strictly ascend. */
  lemma {:induction false} RunLastsAscending(pts: seq<CurvePoint>)
    requires SortedBy(PointKey, pts)
    ensures StrictlyAscending(RunLasts(pts))
  {
    if |pts| > 0 {
      var rest := RunLasts(pts[1..]);
      assert SortedBy(PointKey, pts[1..]);
      RunLastsAscending(pts[1..]);
      if !(|pts| >= 2 && pts[0].temp == pts[1].temp) {
        var r := [pts[0]] + rest;
        forall i, j | 0 <= i < j < |r| ensures r[i].temp < r[j].temp {
          if i == 0 {
            assert r[j] in rest;
            var m :| 0 <= m < |pts[1..]| && pts[1..][m] == r[j];
            assert !Below(PointKey(pts[m + 1]), PointKey(pts[1]));
            assert !Below(PointKey(pts[1]), PointKey(pts[0]));
          } else {
            assert r[i] == rest[i - 1] && r[j] == rest[j - 1];
          }
        }
      }
    }
  }

  /** The Go loop's state after a prefix: the kept points so far, the last one still open. */
  lemma {:induction false} DedupFromIsRunLasts(acc: seq<CurvePoint>, pts: seq<CurvePoint>)
    requires |acc| > 0
    ensures DedupFrom(acc, pts) == acc[..|acc| - 1] + RunLasts([acc[|acc| - 1]] + pts)
    decreases |pts|
  {
    var last := acc[|acc| - 1];
    var front := acc[..|acc| - 1];
    assert acc == front + [last];
    if |pts| == 0 {
      assert RunLasts([last]) == [last] + RunLasts([]);
    } else {
      var p := pts[0];
      var next := DedupStep(acc, p);
      DedupFromIsRunLasts(next, pts[1..]);
      var s := [last] + pts;
      assert s[1..] == pts && s[0] == last && s[1] == p;
      assert pts == [p] + pts[1..];
      assert RunLasts(s) == (if last.temp == p.temp then RunLasts(pts) else [last] + RunLasts(pts));
      if last.temp == p.temp {
        assert next == front + [p];
        assert next[..|next| - 1] == front;
      } else {
        assert next == acc + [p];
        assert next[..|next| - 1] == acc;
      }
    }
  }

  /** The Go de-duplication loop keeps exactly the last point of each run of equal temperatures. */
  lemma DedupIsRunLasts(pts: seq<CurvePoint>)
    ensures Dedup(pts) == RunLasts(pts)
  {
    if |pts| > 0 {
      DedupFromIsRunLasts([pts[0]], pts[1..]);
      assert [pts[0]] + pts[1..] == pts;
    }
  }

  // ---------- Builder ----------

  /** `f` is least among `ranges` in `(minTemp, maxTemp)` order. */
  predicate IsFloorOf(f: TemperatureRange, ranges: seq<TemperatureRange>) {
    forall g :: g in ranges ==> !Below(RangeKey(g), RangeKey(f))
  }

  /** The setpoints the non-floor ranges give: converted, sorted by temperature, de-duplicated. */
  function Setpoints(rest: seq<TemperatureRange>): (pts: seq<CurvePoint>)
    ensures |pts| <= |rest|
    ensures StrictlyAscending(pts)
    ensures forall p :: p in pts ==> IsPercent(p.speed)
    ensures forall p :: p in pts ==> exists r :: r in rest && p == ToPoint(r)
  {
    var sorted := Sort(PointKey, ToPoints(rest));
    DedupIsRunLasts(sorted);
    RunLastsAscending(sorted);
    assert forall p :: p in sorted ==> p in multiset(ToPoints(rest));
    Dedup(sorted)
  }

  /**
   * `buildCurveProfileFromRanges`. Fails exactly on an empty range list;
   * otherwise all speeds are percentages, the setpoints strictly ascend and
   * number fewer than the ranges, and the floor comes from a range whose
   * `(minTemp, maxTemp)` is least.
   */
  function BuildCurveProfile(ranges: seq<TemperatureRange>): (r: Result<CurveProfile, BuildError>)
    ensures r.Failure? <==> |ranges| == 0
    ensures r.Success? ==> SpeedsArePercent(r.value)
    ensures r.Success? ==> StrictlyAscending(r.value.points)
    ensures r.Success? ==> |r.value.points| <= |ranges| - 1
    ensures r.Success? ==>
      exists f :: f in ranges && IsFloorOf(f, ranges) && r.value.floorEndTemp == f.maxTemp
        && r.value.floorSpeed == Clamp(f.fanSpeed, 0, 100) && r.value.floorHyst == f.hysteresis
  {
    if |ranges| == 0 then Failure(NoRanges)
    else
      var rs := Sort(RangeKey, ranges);
      var floor := rs[0];
      assert floor in multiset(ranges);
      forall g | g in ranges ensures !Below(RangeKey(g), RangeKey(floor)) {
        assert g in multiset(rs);
        SortedHeadIsLeast(RangeKey, rs, g);
      }
      Success(CurveProfile(
        floor.maxTemp,
        Clamp(floor.fanSpeed, 0, 100),
        floor.hysteresis,
        Setpoints(rs[1..])))
  }

  // ---------- What the builder promises about its inputs ----------

  /**
   * The floor is the first range, in the caller's order, among those least in
   * `(minTemp, maxTemp)` order: `index` is its position in `ranges`.
   */
  lemma BuildFloorIsFirstLeast(ranges: seq<TemperatureRange>) returns (index: nat)
    requires |ranges| > 0
    ensures index < |ranges| && BuildCurveProfile(ranges).Success?
    ensures IsFloorOf(ranges[index], ranges)
    ensures forall i :: 0 <= i < index ==> RangeKey(ranges[i]) != RangeKey(ranges[index])
    ensures var prof := BuildCurveProfile(ranges).value;
      && prof.floorEndTemp == ranges[index].maxTemp
      && prof.floorSpeed == Clamp(ranges[index].fanSpeed, 0, 100)
      && prof.floorHyst == ranges[index].hysteresis
  {
    var rs := Sort(RangeKey, ranges);
    var k := RangeKey(rs[0]);
    assert Filter(RangeKey, rs, k) == [rs[0]] + Filter(RangeKey, rs[1..], k);
    index := FilterHead(RangeKey, ranges, k);
    forall g | g in ranges ensures !Below(RangeKey(g), k) {
      assert g in multiset(rs);
      SortedHeadIsLeast(RangeKey, rs, g);
    }
  }

  /** Converting sorted ranges keeps setpoint temperatures in ascending order. */
  lemma ToPointsSorted(rs: seq<TemperatureRange>)
    requires SortedBy(RangeKey, rs)
    ensures SortedBy(PointKey, ToPoints(rs))
  {
    var pts := ToPoints(rs);
    forall i, j | 0 <= i < j < |pts| ensures !Below(PointKey(pts[j]), PointKey(pts[i])) {
      assert !Below(RangeKey(rs[j]), RangeKey(rs[i]));
    }
  }

  /** The non-floor ranges in stable `(minTemp, maxTemp)` order, as setpoints before de-duplication. */
  function CandidatePoints(ranges: seq<TemperatureRange>): seq<CurvePoint>
    requires |ranges| > 0
  {
    ToPoints(Sort(RangeKey, ranges)[1..])
  }

  /**
   * The second sort of the builder is a no-op (the candidates already ascend
   * by temperature), so the setpoints are the candidates with each run of
   * equal temperatures reduced to its last member.
   */
  lemma BuildPointsAreRunLasts(ranges: seq<TemperatureRange>)
    requires |ranges| > 0
    ensures BuildCurveProfile(ranges).Success?
    ensures BuildCurveProfile(ranges).value.points == RunLasts(CandidatePoints(ranges))
  {
    var rs := Sort(RangeKey, ranges);
    var pts := ToPoints(rs[1..]);
    assert SortedBy(RangeKey, rs[1..]);
    ToPointsSorted(rs[1..]);
    SortOfSorted(PointKey, pts);
    DedupIsRunLasts(pts);
  }

  /** No range after position `k` of `rs` shares its `minTemp`. */
  predicate LastWithMinTemp(rs: seq<TemperatureRange>, k: int)
    requires 0 <= k < |rs|
  {
    forall m :: k < m < |rs| ==> rs[m].minTemp != rs[k].minTemp
  }

  lemma CandidateKept(rs: seq<TemperatureRange>, k: int)
    requires 1 <= k < |rs|
    requires LastWithMinTemp(rs, k)
    ensures ToPoint(rs[k]) in RunLasts(ToPoints(rs[1..]))
  {
    var rest := rs[1..];
    var pts := ToPoints(rest);
    var t := rs[k].minTemp;
    assert pts[k - 1] == ToPoint(rs[k]);
    forall m | k - 1 < m < |pts| ensures pts[m].temp != t {
      assert rest[m] == rs[m + 1];
      assert pts[m].temp == rs[m + 1].minTemp;
    }
    RunLastsKeepsLasts(pts, k - 1);
  }

  /**
   * Last one wins: among the non-floor ranges (in stable `(minTemp, maxTemp)`
   * order) sharing a `minTemp`, the setpoint kept is the one from the last of them.
   */
  lemma BuildSetpointsLastWins(ranges: seq<TemperatureRange>, k: int)
    requires 1 <= k < |ranges|
    requires LastWithMinTemp(Sort(RangeKey, ranges), k)
    ensures BuildCurveProfile(ranges).Success?
    ensures ToPoint(Sort(RangeKey, ranges)[k]) in BuildCurveProfile(ranges).value.points
  {
    CandidateKept(Sort(RangeKey, ranges), k);
    BuildPointsAreRunLasts(ranges);
  }

  /** Every range other than the floor contributes its `minTemp` as a setpoint temperature. */
  lemma BuildSetpointsCoverRanges(ranges: seq<TemperatureRange>, k: int)
    requires |ranges| > 0
    requires 1 <= k < |ranges|
    ensures BuildCurveProfile(ranges).Success?
    ensures exists p ::
      p in BuildCurveProfile(ranges).value.points && p.temp == Sort(RangeKey, ranges)[k].minTemp
  {
    var rs := Sort(RangeKey, ranges);
    var pts := CandidatePoints(ranges);
    assert |pts| == |rs| - 1;
    var last := LastIndexOfTemp(pts, k - 1);
    var p := pts[last];
    RunLastsKeepsLasts(pts, last);
    assert rs[1..][k - 1] == rs[k];
    assert p.temp == rs[k].minTemp;
    BuildPointsAreRunLasts(ranges);
  }

  /** The last index at or after `j` whose point has the temperature of `pts[j]`. */
  lemma LastIndexOfTemp(pts: seq<CurvePoint>, j: nat) returns (last: nat)
    requires j < |pts|
    ensures j <= last < |pts| && pts[last].temp == pts[j].temp && LastOfTemp(pts, last)
  {
    last := j;
    var k := j + 1;
    while k < |pts|
      invariant j <= last < k <= |pts|
      invariant pts[last].temp == pts[j].temp
      invariant forall m :: last < m < k ==> pts[m].temp != pts[j].temp
    {
      if pts[k].temp == pts[j].temp {
        last := k;
      }
      k := k + 1;
    }
  }
}
