/** The horizon mask of app.py: the minimum altitude (degrees) below which the
    observer's surroundings hide the sky, as a function of azimuth. It comes
    either from eight direction sliders or, when one was imported, from a
    two-column (azimuth, altitude) table that is linearly interpolated. */
module Horizon {
  import opened Wrappers

  const SectorWidth: real := 45.0
  const HalfSector: real := 22.5
  const FullTurn: real := 360.0

  /** The slider widgets: one per direction, range 0..90, default 15. */
  const DirectionNames: seq<string> := ["Nord", "NE", "Est", "SE", "Sud", "SW", "Ouest", "NW"]
  /** One sector per direction slider, North first, clockwise. */
  const SectorCount: int := |DirectionNames|
  const SliderMin: int := 0
  const SliderMax: int := 90
  const SliderDefault: int := 15

  /** One row of an imported horizon table. */
  datatype HorizonPoint = HorizonPoint(azimuth: real, altitude: real)

  /** The mask in force: the eight slider values and the table, if any. */
  datatype HorizonMask = HorizonMask(sliders: seq<int>, table: Option<seq<HorizonPoint>>)

  /** numpy.interp raises ValueError on a table without rows. */
  datatype MaskError = EmptyTable

  /** What the slider widgets can produce: eight integers in 0..90. */
  predicate ValidMask(mask: HorizonMask) {
    && |mask.sliders| == SectorCount
    && forall i :: 0 <= i < |mask.sliders| ==> SliderMin <= mask.sliders[i] <= SliderMax
  }

  /** The mask before the user touches any slider or imports a table. */
  function DefaultMask(): (m: HorizonMask)
    ensures ValidMask(m) && m.table.None?
    ensures forall i :: 0 <= i < |m.sliders| ==> m.sliders[i] == SliderDefault
  {
    HorizonMask(seq(SectorCount, _ => SliderDefault), None)
  }

  // ---------------------------------------------------------------------
  // Python's float arithmetic over the reals
  // ---------------------------------------------------------------------

  /** Python's `x % 360` on floats: the result has the sign of the divisor,
      so it always lands in [0, 360), and it differs from x by a whole
      number of turns. */
  function TurnMod(x: real): (r: real)
    ensures 0.0 <= r < FullTurn
    ensures ((x - r) / FullTurn).Floor as real == (x - r) / FullTurn
  {
    x - FullTurn * (x / FullTurn).Floor as real
  }

  /** The two clauses above fix the value: the only r in [0, 360) that
      differs from x by k whole turns is x % 360. */
  lemma TurnModUnique(x: real, r: real, k: int)
    requires 0.0 <= r < FullTurn && r == x - FullTurn * k as real
    ensures TurnMod(x) == r
  {
    FloorIs(x / FullTurn, k);
  }

  /** The floor of y is the integer n exactly when n <= y < n + 1. */
  lemma FloorIs(y: real, n: int)
    requires n as real <= y < n as real + 1.0
    ensures y.Floor == n
  {
  }

  // ---------------------------------------------------------------------
  // Sector lookup
  // ---------------------------------------------------------------------

  /** `int(((az + 22.5) % 360) // 45)`: the index of the direction slider
      that governs azimuth az. For every real azimuth, however negative or
      large, it is a valid index into the eight slider values. */
  function SectorIndex(az: real): (i: int)
    ensures 0 <= i < SectorCount
  {
    (TurnMod(az + HalfSector) / SectorWidth).Floor
  }

  /** The number of whole turns between az and its representative in
      [-22.5, 337.5). */
  function Turns(az: real): int {
    ((az + HalfSector) / FullTurn).Floor
  }

  /** Sector i owns every azimuth in [45i - 22.5, 45i + 22.5), shifted by
      any whole number k of turns; the lower boundary belongs to sector i,
      the upper one to the next sector. */
  lemma SectorOwnsInterval(az: real, i: int, k: int)
    requires 0 <= i < SectorCount
    requires SectorWidth * i as real - HalfSector <= az - FullTurn * k as real
    requires az - FullTurn * k as real < SectorWidth * i as real + HalfSector
    ensures SectorIndex(az) == i
  {
    var x := az + HalfSector;
    FloorIs(x / FullTurn, k);
    var r := TurnMod(x);
    assert r == x - FullTurn * k as real;
    FloorIs(r / SectorWidth, i);
  }

  /** Conversely, the sector found for az is the one whose interval, shifted
      by Turns(az) whole turns, contains az. */
  lemma SectorContainsAzimuth(az: real)
    ensures var i, k := SectorIndex(az), Turns(az);
      && SectorWidth * i as real - HalfSector <= az - FullTurn * k as real
      && az - FullTurn * k as real < SectorWidth * i as real + HalfSector
  {
  }

  /** The sector lookup repeats every full turn. */
  lemma SectorPeriodic(az: real, k: int)
    ensures SectorIndex(az + FullTurn * k as real) == SectorIndex(az)
  {
    SectorContainsAzimuth(az);
    SectorOwnsInterval(az + FullTurn * k as real, SectorIndex(az), Turns(az) + k);
  }

  /** Worked cases: 100 degrees is East, the NE boundary 22.5 belongs to NE,
      and 337.5 already belongs to North; negative and over-turn azimuths
      wrap. */
  lemma SectorExamples()
    ensures SectorIndex(100.0) == 2
    ensures SectorIndex(22.5) == 1
    ensures SectorIndex(337.5) == 0
    ensures SectorIndex(0.0) == 0
    ensures SectorIndex(-22.5) == 0
    ensures SectorIndex(-90.0) == 6
    ensures SectorIndex(450.0) == 2
  {
    SectorOwnsInterval(100.0, 2, 0);
    SectorOwnsInterval(22.5, 1, 0);
    SectorOwnsInterval(337.5, 0, 1);
    SectorOwnsInterval(0.0, 0, 0);
    SectorOwnsInterval(-22.5, 0, 0);
    SectorOwnsInterval(-90.0, 6, -1);
    SectorOwnsInterval(450.0, 2, 1);
  }

  // ---------------------------------------------------------------------
  // numpy.interp over an imported table
  // ---------------------------------------------------------------------

  function Last(pts: seq<HorizonPoint>): HorizonPoint
    requires |pts| > 0
  {
    pts[|pts| - 1]
  }

  /** numpy's own precondition on the sample azimuths, which it does not
      check. */
  predicate NonDecreasing(pts: seq<HorizonPoint>) {
    forall i, j :: 0 <= i < j < |pts| ==> pts[i].azimuth <= pts[j].azimuth
  }

  predicate StrictlyIncreasing(pts: seq<HorizonPoint>) {
    forall i, j :: 0 <= i < j < |pts| ==> pts[i].azimuth < pts[j].azimuth
  }

  /** The straight line through two rows, evaluated at x, written as numpy
      does: slope * (x - x0) + y0. */
  function Segment(p: HorizonPoint, q: HorizonPoint, x: real): real
    requires p.azimuth < q.azimuth
  {
    (q.altitude - p.altitude) / (q.azimuth - p.azimuth) * (x - p.azimuth) + p.altitude
  }

  /** The value on the first segment j.. whose right end lies beyond x;
      x == the last azimuth gives the last altitude. Left of row j is
      excluded by the caller. */
  function InterpFrom(x: real, pts: seq<HorizonPoint>, j: nat): real
    requires j < |pts|
    requires pts[j].azimuth <= x
    decreases |pts| - j
  {
    if j == |pts| - 1 then pts[j].altitude
    else if x < pts[j + 1].azimuth then
      if x == pts[j].azimuth then pts[j].altitude else Segment(pts[j], pts[j + 1], x)
    else InterpFrom(x, pts, j + 1)
  }

  /** `np.interp(x, azimuths, altitudes)`: clamped to the last altitude
      right of the table, to the first altitude left of it, linear in
      between. */
  function Interp(x: real, pts: seq<HorizonPoint>): (r: Result<real, MaskError>)
    ensures r.Failure? <==> pts == []
  {
    if pts == [] then Failure(EmptyTable)
    else if x > Last(pts).azimuth then Success(Last(pts).altitude)
    else if x < pts[0].azimuth then Success(pts[0].altitude)
    else Success(InterpFrom(x, pts, 0))
  }

  function MinAltitude(pts: seq<HorizonPoint>): (r: real)
    requires |pts| > 0
    ensures forall i :: 0 <= i < |pts| ==> r <= pts[i].altitude
    ensures exists i :: 0 <= i < |pts| && r == pts[i].altitude
  {
    if |pts| == 1 then pts[0].altitude
    else
      var m := MinAltitude(pts[1..]);
      if pts[0].altitude <= m then pts[0].altitude else m
  }

  function MaxAltitude(pts: seq<HorizonPoint>): (r: real)
    requires |pts| > 0
    ensures forall i :: 0 <= i < |pts| ==> pts[i].altitude <= r
    ensures exists i :: 0 <= i < |pts| && r == pts[i].altitude
  {
    if |pts| == 1 then pts[0].altitude
    else
      var m := MaxAltitude(pts[1..]);
      if pts[0].altitude >= m then pts[0].altitude else m
  }

  /** A point of a segment lies between the segment's end altitudes. */
  lemma SegmentBetween(p: HorizonPoint, q: HorizonPoint, x: real)
    requires p.azimuth <= x <= q.azimuth && p.azimuth < q.azimuth
    ensures p.altitude <= q.altitude ==> p.altitude <= Segment(p, q, x) <= q.altitude
    ensures q.altitude <= p.altitude ==> q.altitude <= Segment(p, q, x) <= p.altitude
  {
    var d := q.azimuth - p.azimuth;
    var slope := (q.altitude - p.altitude) / d;
    assert slope * d == q.altitude - p.altitude;
    assert 0.0 <= x - p.azimuth <= d;
  }

  lemma {:induction false} InterpFromBounded(x: real, pts: seq<HorizonPoint>, j: nat)
    requires j < |pts| && pts[j].azimuth <= x
    ensures MinAltitude(pts) <= InterpFrom(x, pts, j) <= MaxAltitude(pts)
    decreases |pts| - j
  {
    if j == |pts| - 1 {
    } else if x < pts[j + 1].azimuth {
      if x != pts[j].azimuth {
        SegmentBetween(pts[j], pts[j + 1], x);
      }
    } else {
      InterpFromBounded(x, pts, j + 1);
    }
  }

  /** Interpolation never leaves the range of the table's altitudes, on any
      table and at any azimuth, including beyond either end. */
  lemma InterpBounded(x: real, pts: seq<HorizonPoint>)
    requires pts != []
    ensures Interp(x, pts).Success?
    ensures MinAltitude(pts) <= Interp(x, pts).value <= MaxAltitude(pts)
  {
    if x <= Last(pts).azimuth && x >= pts[0].azimuth {
      InterpFromBounded(x, pts, 0);
    }
  }

  /** Beyond the end rows the table is clamped, not wrapped. At the last
      azimuth itself the last altitude is returned. */
  lemma InterpClamped(x: real, pts: seq<HorizonPoint>)
    requires pts != [] && NonDecreasing(pts)
    ensures x < pts[0].azimuth ==> Interp(x, pts) == Success(pts[0].altitude)
    ensures x >= Last(pts).azimuth ==> Interp(x, pts) == Success(Last(pts).altitude)
  {
    if x == Last(pts).azimuth {
      InterpFromLastRow(x, pts, 0);
    }
  }

  lemma {:induction false} InterpFromLastRow(x: real, pts: seq<HorizonPoint>, j: nat)
    requires j < |pts| && NonDecreasing(pts) && pts[j].azimuth <= x && x == Last(pts).azimuth
    ensures InterpFrom(x, pts, j) == Last(pts).altitude
    decreases |pts| - j
  {
    if j < |pts| - 1 {
      assert pts[j + 1].azimuth <= Last(pts).azimuth;
      InterpFromLastRow(x, pts, j + 1);
    }
  }

  lemma {:induction false} InterpFromOnSegment(x: real, pts: seq<HorizonPoint>, j: nat, k: nat)
    requires NonDecreasing(pts) && j <= k && k + 1 < |pts|
    requires pts[j].azimuth <= x && pts[k].azimuth <= x < pts[k + 1].azimuth
    ensures InterpFrom(x, pts, j) == Segment(pts[k], pts[k + 1], x)
    decreases |pts| - j
  {
    if x >= pts[j + 1].azimuth {
      InterpFromOnSegment(x, pts, j + 1, k);
    }
  }

  /** Inside the table, np.interp is the straight line through the two rows
      whose azimuths enclose x. With the clamps above this determines the
      result everywhere. */
  lemma InterpOnSegment(x: real, pts: seq<HorizonPoint>, k: nat)
    requires NonDecreasing(pts) && k + 1 < |pts|
    requires pts[k].azimuth <= x < pts[k + 1].azimuth
    ensures Interp(x, pts) == Success(Segment(pts[k], pts[k + 1], x))
  {
    assert pts[0].azimuth <= pts[k].azimuth && pts[k + 1].azimuth <= Last(pts).azimuth;
    InterpFromOnSegment(x, pts, 0, k);
  }

  lemma {:induction false} InterpFromAtSample(x: real, pts: seq<HorizonPoint>, j: nat, k: nat)
    requires StrictlyIncreasing(pts) && j <= k < |pts|
    requires pts[j].azimuth <= x && x == pts[k].azimuth
    ensures InterpFrom(x, pts, j) == pts[k].altitude
    decreases |pts| - j
  {
    if j < |pts| - 1 {
      if x >= pts[j + 1].azimuth {
        InterpFromAtSample(x, pts, j + 1, k);
      }
    }
  }

  /** At an azimuth of the table, np.interp returns that row's altitude. */
  lemma InterpAtSample(pts: seq<HorizonPoint>, k: nat)
    requires StrictlyIncreasing(pts) && k < |pts|
    ensures Interp(pts[k].azimuth, pts) == Success(pts[k].altitude)
  {
    assert pts[0].azimuth <= pts[k].azimuth <= Last(pts).azimuth;
    InterpFromAtSample(pts[k].azimuth, pts, 0, k);
  }

  // ---------------------------------------------------------------------
  // get_horizon_limit
  // ---------------------------------------------------------------------

  /** The minimum visible altitude at azimuth az. A table, when one was
      imported, overrides the sliders; an empty table makes numpy raise.
      Without a table the answer is one of the eight slider values. */
  function Limit(mask: HorizonMask, az: real): (r: Result<real, MaskError>)
    requires ValidMask(mask)
    ensures r.Failure? <==> mask.table == Some([])
    ensures mask.table.None? ==> r.Success? && exists i :: 0 <= i < SectorCount && r.value == mask.sliders[i] as real
    ensures mask.table.None? ==> SliderMin as real <= r.value <= SliderMax as real
  {
    match mask.table
    case Some(pts) => Interp(az, pts)
    case None => Success(mask.sliders[SectorIndex(az)] as real)
  }

  /** The slider mask repeats every full turn, for every whole number of
      turns, negative ones included. */
  lemma LimitPeriodic(mask: HorizonMask, az: real, k: int)
    requires ValidMask(mask) && mask.table.None?
    ensures Limit(mask, az + FullTurn * k as real) == Limit(mask, az)
  {
    SectorPeriodic(az, k);
  }

  /** The slider mask answers, for sector i's whole interval, the value of
      slider i. */
  lemma LimitOnSector(mask: HorizonMask, az: real, i: int, k: int)
    requires ValidMask(mask) && mask.table.None? && 0 <= i < SectorCount
    requires SectorWidth * i as real - HalfSector <= az - FullTurn * k as real
    requires az - FullTurn * k as real < SectorWidth * i as real + HalfSector
    ensures Limit(mask, az) == Success(mask.sliders[i] as real)
  {
    SectorOwnsInterval(az, i, k);
  }

  /** Once a table is loaded the sliders no longer matter, and the limit
      stays within the table's altitudes. */
  lemma LimitFromTable(mask: HorizonMask, other: seq<int>, az: real)
    requires ValidMask(mask) && mask.table.Some? && mask.table.value != []
    requires ValidMask(HorizonMask(other, mask.table))
    ensures Limit(mask, az) == Limit(HorizonMask(other, mask.table), az)
    ensures Limit(mask, az).Success?
    ensures MinAltitude(mask.table.value) <= Limit(mask, az).value <= MaxAltitude(mask.table.value)
  {
    InterpBounded(az, mask.table.value);
  }

  /** The untouched sliders give 15 degrees everywhere. */
  lemma DefaultMaskLimit(az: real)
    ensures Limit(DefaultMask(), az) == Success(SliderDefault as real)
  {
  }

  /** A mask of 15, 15, 20, 30, 15, 15, 20, 15 (North first, clockwise)
      answers 20 at azimuth 100, the East slider. */
  lemma EastSliderExample()
    ensures Limit(HorizonMask([15, 15, 20, 30, 15, 15, 20, 15], None), 100.0) == Success(20.0)
  {
    SectorExamples();
  }
}
