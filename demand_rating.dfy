/** Rating rules of the bike/pedestrian demand polygons: facility codes to
    ratings, per-field defaults for missing values, piecewise threshold
    ratings of densities and distances, and the two weighted demand scores. */
module DemandRating {
  import opened Wrappers

  // ---------------------------------------------------------------------
  // Facility ratings of road segments

  /** Rating of a BIKE_L / BIKE_R facility code; a missing code (None) and
      any code outside the three classes rate 0. */
  function BikeFacilityRating(code: Option<string>): (r: int)
    ensures r == 0 || r == 33 || r == 66 || r == 100
    ensures r == 100 <==> code.Some? && code.value in {"1A", "1B", "1C", "PP"}
    ensures r == 66 <==> code.Some? && code.value in {"2A", "2B"}
    ensures r == 33 <==> code.Some? && code.value in {"3", "3A", "3B", "3C"}
    ensures code == None ==> r == 0
  {
    if code == Some("1A") || code == Some("1B") || code == Some("1C") || code == Some("PP") then 100
    else if code == Some("2A") || code == Some("2B") then 66
    else if code == Some("3") || code == Some("3A") || code == Some("3B") || code == Some("3C") then 33
    else 0
  }

  /** Rating of a PED_L / PED_R facility type. */
  function PedFacilityRating(facility: Option<string>): (r: int)
    ensures r == 0 || r == 100
    ensures r == 100 <==> facility == Some("Sidewalk") || facility == Some("Trail")
  {
    if facility == Some("Sidewalk") || facility == Some("Trail") then 100
    else if facility == None then 0
    else 0
  }

  /** MeanBikeRating / MeanPedRating: the mean of the left and right ratings
      under true division. */
  function MeanRating(left: int, right: int): real
  {
    (left + right) as real / 2.0
  }

  /** Both mean facility ratings of a segment stay within [0, 100]; each is
      0 exactly when neither side has a rated facility, and the pedestrian
      mean is 100 exactly when both sides rate 100. */
  lemma MeanFacilityRatingsInRange(bikeL: Option<string>, bikeR: Option<string>,
                                   pedL: Option<string>, pedR: Option<string>)
    ensures 0.0 <= MeanRating(BikeFacilityRating(bikeL), BikeFacilityRating(bikeR)) <= 100.0
    ensures 0.0 <= MeanRating(PedFacilityRating(pedL), PedFacilityRating(pedR)) <= 100.0
    ensures MeanRating(BikeFacilityRating(bikeL), BikeFacilityRating(bikeR)) == 0.0 <==>
            BikeFacilityRating(bikeL) == 0 && BikeFacilityRating(bikeR) == 0
    ensures MeanRating(PedFacilityRating(pedL), PedFacilityRating(pedR)) == 0.0 <==>
            PedFacilityRating(pedL) == 0 && PedFacilityRating(pedR) == 0
    ensures MeanRating(PedFacilityRating(pedL), PedFacilityRating(pedR)) == 100.0 <==>
            PedFacilityRating(pedL) == 100 && PedFacilityRating(pedR) == 100
  {
  }

  // ---------------------------------------------------------------------
  // Defaults for values that are not numbers

  /** A field of the joined zone table: a number, some other value, or null. */
  datatype FieldValue = Number(x: real) | Text(s: string) | Null

  /** The fifteen checked fields, in cursor order. */
  const CheckFields: seq<string> := [
    "PopDens2018", "JobDens2018", "lumixscore", "K12Schoolsdist", "ParksTrailheadsdist",
    "collegedist", "RetailCentersdist", "busdist", "RailStationsdist",
    "B01001_calc_pctDependE", "B17020_calc_pctPovE", "B08201_calc_pctNoVehE",
    "BlockLength", "MeanBikeRating", "MeanPedRating"]

  const PopDens := 0
  const JobDens := 1
  const Lumix := 2
  const SchoolDist := 3
  const ParkDist := 4
  const CollegeDist := 5
  const RetailDist := 6
  const BusDist := 7
  const RailDist := 8
  const PctDepend := 9
  const PctPoverty := 10
  const PctNoVehicle := 11
  const BlockLen := 12
  const MeanBike := 13
  const MeanPed := 14

  /** The value written over a non-numeric field, per field. */
  const NullDefaults: seq<real> := [
    0.0, 0.0, 0.0, 5000.0, 5000.0, 10.0, 5000.0, 5000.0, 5000.0, 0.0, 0.0, 0.0, 1000.0, 0.0, 0.0]

  /** One row after the default pass: numbers are kept, everything else is
      replaced by the field's default. */
  function FillRow(row: seq<FieldValue>): (filled: seq<FieldValue>)
    requires |row| == |CheckFields|
    ensures |filled| == |row|
    ensures forall k :: 0 <= k < |row| ==> filled[k].Number?
    ensures forall k :: 0 <= k < |row| && row[k].Number? ==> filled[k] == row[k]
    ensures forall k :: 0 <= k < |row| && !row[k].Number? ==> filled[k] == Number(NullDefaults[k])
  {
    seq(|row|, k requires 0 <= k < |row| => if row[k].Number? then row[k] else Number(NullDefaults[k]))
  }

  /** The cursor over the joined table that replaces every non-numeric value
      of the checked fields, row by row. */
  method FillNullDefaults(table: array<seq<FieldValue>>)
    requires forall i :: 0 <= i < table.Length ==> |table[i]| == |CheckFields|
    modifies table
    ensures forall i :: 0 <= i < table.Length ==> table[i] == FillRow(old(table[i]))
  {
    var i := 0;
    while i < table.Length
      invariant 0 <= i <= table.Length
      invariant forall j :: 0 <= j < i ==> table[j] == FillRow(old(table[j]))
      invariant forall j :: i <= j < table.Length ==> table[j] == old(table[j])
    {
      table[i] := FillRow(table[i]);
      i := i + 1;
    }
  }

  /** The numbers of a row after the default pass. */
  function Measures(row: seq<FieldValue>): (m: seq<real>)
    requires |row| == |CheckFields|
    ensures |m| == |row|
    ensures forall k :: 0 <= k < |row| ==> m[k] == if row[k].Number? then row[k].x else NullDefaults[k]
  {
    var filled := FillRow(row);
    seq(|filled|, k requires 0 <= k < |filled| => filled[k].x)
  }

  // ---------------------------------------------------------------------
  // Threshold ratings

  /** Thresholds in strictly increasing order. */
  predicate Ascending(t: seq<real>)
  {
    forall i, j :: 0 <= i < j < |t| ==> t[i] < t[j]
  }

  /** Bracket k of a chain with thresholds t: above t[k - 1] (when k > 0) and
      at most t[k] (when k < |t|), the conditions of the source's k-th
      branch. */
  predicate InBracket(t: seq<real>, k: nat, x: real)
    requires k <= |t|
  {
    (k == 0 || t[k - 1] < x) && (k == |t| || x <= t[k])
  }

  /** The bracket a value falls in: for increasing thresholds exactly one
      bracket holds each value. */
  function BracketOf(t: seq<real>, x: real): (k: nat)
    requires Ascending(t)
    ensures k <= |t| && InBracket(t, k, x)
    ensures forall j :: 0 <= j <= |t| && InBracket(t, j, x) ==> j == k
  {
    if t == [] || x <= t[0] then 0
    else
      var k' := BracketOf(t[1..], x);
      assert InBracket(t[1..], k', x);
      assert k' > 0 ==> t[k'] == t[1..][k' - 1];
      assert k' < |t| - 1 ==> t[k' + 1] == t[1..][k'];
      1 + k'
  }

  /** The reference rule: the rating listed for the value's bracket. */
  function StepRating(t: seq<real>, ratings: seq<int>, x: real): int
    requires Ascending(t) && |ratings| == |t| + 1
  {
    ratings[BracketOf(t, x)]
  }

  lemma {:induction false} BracketOfMonotone(t: seq<real>, x: real, y: real)
    requires Ascending(t) && x <= y
    ensures BracketOf(t, x) <= BracketOf(t, y)
  {
    if t != [] && !(x <= t[0]) {
      BracketOfMonotone(t[1..], x, y);
    }
  }

  predicate NonDecreasing(s: seq<int>)
  {
    forall i, j :: 0 <= i <= j < |s| ==> s[i] <= s[j]
  }

  predicate NonIncreasing(s: seq<int>)
  {
    forall i, j :: 0 <= i <= j < |s| ==> s[i] >= s[j]
  }

  lemma StepRatingMonotone(t: seq<real>, ratings: seq<int>, x: real, y: real)
    requires Ascending(t) && |ratings| == |t| + 1 && x <= y
    ensures NonDecreasing(ratings) ==> StepRating(t, ratings, x) <= StepRating(t, ratings, y)
    ensures NonIncreasing(ratings) ==> StepRating(t, ratings, x) >= StepRating(t, ratings, y)
  {
    BracketOfMonotone(t, x, y);
  }

  const DensityThresholds: seq<real> := [5.0, 10.0, 15.0, 20.0, 25.0]
  const DensityScale: seq<int> := [0, 20, 40, 60, 80, 100]
  const LumixThresholds: seq<real> := [10.0, 20.0, 30.0, 40.0]
  const QuarterScaleUp: seq<int> := [0, 25, 50, 75, 100]
  const ProximityThresholds: seq<real> := [330.0, 660.0, 1320.0, 2640.0]
  const QuarterScaleDown: seq<int> := [100, 75, 50, 25, 0]
  const CollegeThresholds: seq<real> := [1.0, 2.0, 4.0]
  const CollegeScale: seq<int> := [100, 50, 25, 0]
  const AgeThresholds: seq<real> := [30.0, 35.0, 40.0, 43.0]
  const ShareThresholds: seq<real> := [3.0, 6.0, 9.0, 12.0, 15.0]
  const BlockLengthThresholds: seq<real> := [300.0, 400.0, 500.0, 900.0]

  /** popdensrating and jobdensrating.  A chain whose guards all fail would
      leave the rating field as it was (None here). */
  function DensityRating(x: real): (r: Option<int>)
    ensures r == Some(StepRating(DensityThresholds, DensityScale, x))
  {
    if x <= 5.0 then Some(0)
    else if x > 5.0 && x <= 10.0 then Some(20)
    else if x > 10.0 && x <= 15.0 then Some(40)
    else if x > 15.0 && x <= 20.0 then Some(60)
    else if x > 20.0 && x <= 25.0 then Some(80)
    else if x > 25.0 then Some(100)
    else None
  }

  /** lumixrating. */
  function LumixRating(x: real): (r: Option<int>)
    ensures r == Some(StepRating(LumixThresholds, QuarterScaleUp, x))
  {
    if x <= 10.0 then Some(0)
    else if x > 10.0 && x <= 20.0 then Some(25)
    else if x > 20.0 && x <= 30.0 then Some(50)
    else if x > 30.0 && x <= 40.0 then Some(75)
    else if x > 40.0 then Some(100)
    else None
  }

  /** schoolrating, parkrating, retailrating, busrating and railrating (the
      bus thresholds are the same numbers although that buffer is built in
      meters). */
  function ProximityRating(x: real): (r: Option<int>)
    ensures r == Some(StepRating(ProximityThresholds, QuarterScaleDown, x))
  {
    if x <= 330.0 then Some(100)
    else if x > 330.0 && x <= 660.0 then Some(75)
    else if x > 660.0 && x <= 1320.0 then Some(50)
    else if x > 1320.0 && x <= 2640.0 then Some(25)
    else if x > 2640.0 then Some(0)
    else None
  }

  /** collegerating (distances in miles). */
  function CollegeRating(x: real): (r: Option<int>)
    ensures r == Some(StepRating(CollegeThresholds, CollegeScale, x))
  {
    if x <= 1.0 then Some(100)
    else if x > 1.0 && x <= 2.0 then Some(50)
    else if x > 2.0 && x <= 4.0 then Some(25)
    else if x > 4.0 then Some(0)
    else None
  }

  /** agerating (share of dependent-age population). */
  function AgeRating(x: real): (r: Option<int>)
    ensures r == Some(StepRating(AgeThresholds, QuarterScaleUp, x))
  {
    if x <= 30.0 then Some(0)
    else if x > 30.0 && x <= 35.0 then Some(25)
    else if x > 35.0 && x <= 40.0 then Some(50)
    else if x > 40.0 && x <= 43.0 then Some(75)
    else if x > 43.0 then Some(100)
    else None
  }

  /** povrating and novehrating. */
  function ShareRating(x: real): (r: Option<int>)
    ensures r == Some(StepRating(ShareThresholds, DensityScale, x))
  {
    if x <= 3.0 then Some(0)
    else if x > 3.0 && x <= 6.0 then Some(20)
    else if x > 6.0 && x <= 9.0 then Some(40)
    else if x > 9.0 && x <= 12.0 then Some(60)
    else if x > 12.0 && x <= 15.0 then Some(80)
    else if x > 15.0 then Some(100)
    else None
  }

  /** blocklengthrating. */
  function BlockLengthRating(x: real): (r: Option<int>)
    ensures r == Some(StepRating(BlockLengthThresholds, QuarterScaleDown, x))
  {
    if x <= 300.0 then Some(100)
    else if x > 300.0 && x <= 400.0 then Some(75)
    else if x > 400.0 && x <= 500.0 then Some(50)
    else if x > 500.0 && x <= 900.0 then Some(25)
    else if x > 900.0 then Some(0)
    else None
  }

  /** The rating scales run up (or down) in step with the thresholds. */
  lemma ScalesOrdered()
    ensures NonDecreasing(DensityScale) && NonDecreasing(QuarterScaleUp)
    ensures NonIncreasing(QuarterScaleDown) && NonIncreasing(CollegeScale)
  {
  }

  /** popdensrating and jobdensrating never decrease as the density grows. */
  lemma DensityRatingMonotone(x: real, y: real)
    requires x <= y
    ensures DensityRating(x).value <= DensityRating(y).value
  {
    ScalesOrdered();
    StepRatingMonotone(DensityThresholds, DensityScale, x, y);
  }

  /** lumixrating never decreases as the land-use mix grows. */
  lemma LumixRatingMonotone(x: real, y: real)
    requires x <= y
    ensures LumixRating(x).value <= LumixRating(y).value
  {
    ScalesOrdered();
    StepRatingMonotone(LumixThresholds, QuarterScaleUp, x, y);
  }

  /** agerating never decreases as the dependent-age share grows. */
  lemma AgeRatingMonotone(x: real, y: real)
    requires x <= y
    ensures AgeRating(x).value <= AgeRating(y).value
  {
    ScalesOrdered();
    StepRatingMonotone(AgeThresholds, QuarterScaleUp, x, y);
  }

  /** povrating and novehrating never decrease as the share grows. */
  lemma ShareRatingMonotone(x: real, y: real)
    requires x <= y
    ensures ShareRating(x).value <= ShareRating(y).value
  {
    ScalesOrdered();
    StepRatingMonotone(ShareThresholds, DensityScale, x, y);
  }

  /** The five proximity ratings never increase as the distance grows. */
  lemma ProximityRatingMonotone(x: real, y: real)
    requires x <= y
    ensures ProximityRating(x).value >= ProximityRating(y).value
  {
    ScalesOrdered();
    StepRatingMonotone(ProximityThresholds, QuarterScaleDown, x, y);
  }

  /** collegerating never increases as the distance grows. */
  lemma CollegeRatingMonotone(x: real, y: real)
    requires x <= y
    ensures CollegeRating(x).value >= CollegeRating(y).value
  {
    ScalesOrdered();
    StepRatingMonotone(CollegeThresholds, CollegeScale, x, y);
  }

  /** blocklengthrating never increases as the block length grows. */
  lemma BlockLengthRatingMonotone(x: real, y: real)
    requires x <= y
    ensures BlockLengthRating(x).value >= BlockLengthRating(y).value
  {
    ScalesOrdered();
    StepRatingMonotone(BlockLengthThresholds, QuarterScaleDown, x, y);
  }

  /** Every threshold rule is total: for any number some branch fires and
      the rating lies in [0, 100]. */
  lemma ThresholdRulesTotal(x: real)
    ensures DensityRating(x).Some? && 0 <= DensityRating(x).value <= 100
    ensures LumixRating(x).Some? && 0 <= LumixRating(x).value <= 100
    ensures ProximityRating(x).Some? && 0 <= ProximityRating(x).value <= 100
    ensures CollegeRating(x).Some? && 0 <= CollegeRating(x).value <= 100
    ensures AgeRating(x).Some? && 0 <= AgeRating(x).value <= 100
    ensures ShareRating(x).Some? && 0 <= ShareRating(x).value <= 100
    ensures BlockLengthRating(x).Some? && 0 <= BlockLengthRating(x).value <= 100
  {
  }

  // ---------------------------------------------------------------------
  // Demand scores

  /** The thirteen rating fields of one zone. */
  datatype ZoneRatings = ZoneRatings(
    popDens: int, jobDens: int, lumix: int, school: int, park: int, college: int,
    retail: int, bus: int, rail: int, age: int, poverty: int, noVehicle: int, blockLength: int)

  /** The rating cursors applied to one zone's defaulted measures. */
  function RateZone(m: seq<real>): (z: ZoneRatings)
    requires |m| == |CheckFields|
  {
    ZoneRatings(
      DensityRating(m[PopDens]).value, DensityRating(m[JobDens]).value, LumixRating(m[Lumix]).value,
      ProximityRating(m[SchoolDist]).value, ProximityRating(m[ParkDist]).value,
      CollegeRating(m[CollegeDist]).value, ProximityRating(m[RetailDist]).value,
      ProximityRating(m[BusDist]).value, ProximityRating(m[RailDist]).value,
      AgeRating(m[PctDepend]).value, ShareRating(m[PctPoverty]).value,
      ShareRating(m[PctNoVehicle]).value, BlockLengthRating(m[BlockLen]).value)
  }

  /** BikeDemandScore, as the field calculator evaluates it. */
  function BikeDemandScore(z: ZoneRatings, meanBike: real): real
  {
    ((z.popDens * 9 + z.jobDens * 11 + z.lumix * 10 + z.school * 10 + z.park * 5
      + z.college * 10 + z.retail * 11 + z.bus * 3 + z.rail * 11 + z.age * 3
      + z.noVehicle * 4 + z.poverty * 6 + z.blockLength * 2) as real + meanBike * 5.0) / 100.0
  }

  /** PedDemandScore, as the field calculator evaluates it. */
  function PedDemandScore(z: ZoneRatings, meanPed: real): real
  {
    ((z.popDens * 9 + z.jobDens * 9 + z.lumix * 11 + z.school * 9 + z.park * 5
      + z.college * 9 + z.retail * 12 + z.bus * 4 + z.rail * 10 + z.age * 3
      + z.noVehicle * 4 + z.poverty * 5 + z.blockLength * 5) as real + meanPed * 5.0) / 100.0
  }

  /** Every rating of a zone lies in [0, 100]. */
  predicate RatingsInRange(z: ZoneRatings)
  {
    && 0 <= z.popDens <= 100 && 0 <= z.jobDens <= 100 && 0 <= z.lumix <= 100
    && 0 <= z.school <= 100 && 0 <= z.park <= 100 && 0 <= z.college <= 100
    && 0 <= z.retail <= 100 && 0 <= z.bus <= 100 && 0 <= z.rail <= 100
    && 0 <= z.age <= 100 && 0 <= z.poverty <= 100 && 0 <= z.noVehicle <= 100
    && 0 <= z.blockLength <= 100
  }

  /** The rating cursors only ever write ratings within [0, 100]. */
  lemma RateZoneInRange(m: seq<real>)
    requires |m| == |CheckFields|
    ensures RatingsInRange(RateZone(m))
  {
    ThresholdRulesTotal(m[PopDens]);
    ThresholdRulesTotal(m[JobDens]);
    ThresholdRulesTotal(m[Lumix]);
    ThresholdRulesTotal(m[SchoolDist]);
    ThresholdRulesTotal(m[ParkDist]);
    ThresholdRulesTotal(m[CollegeDist]);
    ThresholdRulesTotal(m[RetailDist]);
    ThresholdRulesTotal(m[BusDist]);
    ThresholdRulesTotal(m[RailDist]);
    ThresholdRulesTotal(m[PctDepend]);
    ThresholdRulesTotal(m[PctPoverty]);
    ThresholdRulesTotal(m[PctNoVehicle]);
    ThresholdRulesTotal(m[BlockLen]);
  }

  /** Both sets of weights sum to 100 (9+11+10+10+5+10+11+3+11+3+4+6+2+5 and
      9+9+11+9+5+9+12+4+10+3+4+5+5+5), so each score is a weighted average of
      its terms and stays in [0, 100] when every term does; the top rating on
      every term gives exactly 100. */
  lemma DemandScoresInRange(z: ZoneRatings, meanBike: real, meanPed: real)
    requires RatingsInRange(z)
    requires 0.0 <= meanBike <= 100.0 && 0.0 <= meanPed <= 100.0
    ensures 0.0 <= BikeDemandScore(z, meanBike) <= 100.0
    ensures 0.0 <= PedDemandScore(z, meanPed) <= 100.0
    ensures BikeDemandScore(ZoneRatings(100, 100, 100, 100, 100, 100, 100, 100, 100, 100, 100, 100, 100), 100.0) == 100.0
    ensures PedDemandScore(ZoneRatings(100, 100, 100, 100, 100, 100, 100, 100, 100, 100, 100, 100, 100), 100.0) == 100.0
  {
  }

  /** A row with every checked field missing becomes the defaults. */
  lemma MissingRowMeasures(row: seq<FieldValue>)
    requires |row| == |CheckFields|
    requires forall k :: 0 <= k < |row| ==> !row[k].Number?
    ensures Measures(row) == NullDefaults
  {
  }

  /** Every default lies in its field's zero-rating bracket. */
  lemma DefaultsRateZero()
    ensures RateZone(NullDefaults) == ZoneRatings(0, 0, 0, 0, 0, 0, 0, 0, 0, 0, 0, 0, 0)
  {
    DefaultValuesRateZero();
  }

  /** The default values themselves fall in the lowest-rated branch. */
  lemma DefaultValuesRateZero()
    ensures DensityRating(0.0) == Some(0) && LumixRating(0.0) == Some(0)
    ensures ProximityRating(5000.0) == Some(0) && CollegeRating(10.0) == Some(0)
    ensures AgeRating(0.0) == Some(0) && ShareRating(0.0) == Some(0)
    ensures BlockLengthRating(1000.0) == Some(0)
  {
  }

  /** A zone's scores from its joined row: defaults, then ratings, then the
      two formulas; both scores lie in [0, 100] whenever the joined mean
      facility ratings do (as means of [0, 100] ratings they always do). */
  function ZoneScores(row: seq<FieldValue>): (scores: (real, real))
    requires |row| == |CheckFields|
    requires row[MeanBike].Number? ==> 0.0 <= row[MeanBike].x <= 100.0
    requires row[MeanPed].Number? ==> 0.0 <= row[MeanPed].x <= 100.0
    ensures 0.0 <= scores.0 <= 100.0 && 0.0 <= scores.1 <= 100.0
  {
    var m := Measures(row);
    var z := RateZone(m);
    RateZoneInRange(m);
    DemandScoresInRange(z, m[MeanBike], m[MeanPed]);
    (BikeDemandScore(z, m[MeanBike]), PedDemandScore(z, m[MeanPed]))
  }

  /** A zone whose checked fields are all missing scores 0 on both formulas. */
  lemma AllMissingZoneScoresZero(row: seq<FieldValue>)
    requires |row| == |CheckFields|
    requires forall k :: 0 <= k < |row| ==> !row[k].Number?
    ensures ZoneScores(row) == (0.0, 0.0)
  {
    MissingRowMeasures(row);
    DefaultsRateZero();
  }

  // ---------------------------------------------------------------------
  // Fields removed from the output feature class

  /** The fields the output keeps: the rated measures, the two mean facility
      ratings, the zone id and area, and the geometry bookkeeping fields. */
  const KeepFields: set<string> := {
    "PopDens2018", "JobDens2018", "lumixscore", "K12Schoolsdist", "ParksTrailheadsdist",
    "collegedist", "RetailCentersdist", "busdist", "RailStationsdist",
    "B01001_calc_pctDependE", "B17020_calc_pctPovE", "B08201_calc_pctNoVehE", "BlockLength",
    "MeanBikeRating", "MeanPedRating", "zone_id", "area_sqm",
    "Shape_Area", "OBJECTID_1", "Shape_Length", "Shape"}

  /** `getFieldNames`: the names of the layer's fields that are not kept, in
      the layer's field order. */
  function FieldsToRemove(fields: seq<string>): (removed: seq<string>)
    ensures |removed| <= |fields|
    ensures forall f :: f in removed <==> f in fields && f !in KeepFields
  {
    if fields == [] then []
    else if fields[0] in KeepFields then FieldsToRemove(fields[1..])
    else [fields[0]] + FieldsToRemove(fields[1..])
  }

  /** Every field of the layer is either removed or kept, and the two lists
      together are as long as the layer's field list (no name is counted twice). */
  lemma {:induction false} FieldsToRemovePartition(fields: seq<string>)
    ensures |FieldsToRemove(fields)| + |Kept(fields)| == |fields|
    ensures forall f :: f in fields ==> (f in FieldsToRemove(fields) || f in Kept(fields))
  {
    if fields != [] {
      FieldsToRemovePartition(fields[1..]);
    }
  }

  /** The layer's fields that survive the deletion, in order. */
  function Kept(fields: seq<string>): (kept: seq<string>)
    ensures forall f :: f in kept <==> f in fields && f in KeepFields
  {
    if fields == [] then []
    else if fields[0] in KeepFields then [fields[0]] + Kept(fields[1..])
    else Kept(fields[1..])
  }
}
