/** The first microzone script: zones from the selected roads, ring repair,
    FID zone ids, two small-zone passes on an area in square kilometres
    computed once, then ring repair again. */
module MicrozonesV1 {
  import opened Wrappers
  import opened Regions
  import opened Layers

  const FirstPassLimitSqkm: real := 0.005
  const SecondPassLimitSqkm: real := 0.010
  const SqmPerSqkm: real := 1000000.0

  /** The datasets the script writes, in order. */
  datatype Stages = Stages(
    prelim: Layer,         // prelim_zones, with parts and rings
    noRings: Layer,        // zones_eliminated
    merged: Layer,         // merged_zones, with zone_id
    microzones: Layer,     // microzones, with area_sqkm
    pass1: set<nat>,       // "area_sqkm" < .005 on microzones
    eliminated: Layer,     // zones_eliminated_again
    pass2: set<nat>,       // "area_sqkm" < .010 on zones_eliminated_again
    eliminated2: Layer,    // zones_eliminated_again2, with parts and rings
    noRings2: Layer,       // microzones_carmelo
    final: Layer)          // microzones2

  /** The square-kilometre thresholds are 5000 and 10000 square metres. */
  lemma ThresholdsInSquareMetres(sqm: real)
    ensures sqm / SqmPerSqkm < FirstPassLimitSqkm <==> sqm < 5000.0
    ensures sqm / SqmPerSqkm < SecondPassLimitSqkm <==> sqm < 10000.0
  {
  }

  /** The second pass reads the area stored before the first pass: a zone
      that was not small enough for the first pass but is below the second
      threshold is selected again through the zone it became, whatever it
      absorbed in the first pass. */
  lemma StaleAreaSelectsGrownZone(zs: Layer, k: Kernel, j: nat)
    requires j < |zs| && zs[j].area.Some?
    requires FirstPassLimitSqkm <= zs[j].area.value < SecondPassLimitSqkm
    ensures var e := Eliminate(zs, SelectBelow(zs, FirstPassLimitSqkm), k);
      exists m :: 0 <= m < |e| && m in SelectBelow(e, SecondPassLimitSqkm)
        && zs[j].shape <= e[m].shape && e[m].area == zs[j].area
  {
    var sel := SelectBelow(zs, FirstPassLimitSqkm);
    var e := Eliminate(zs, sel, k);
    EliminateKeepsUnselected(zs, sel, k, j);
    var z :| z in e && zs[j].shape <= z.shape && z.(shape := zs[j].shape) == zs[j];
    var m :| 0 <= m < |e| && e[m] == z;
    assert m in SelectBelow(e, SecondPassLimitSqkm);
  }

  /** A zone id that survives a pass of Eliminate is one of the pass's
      input ids. */
  lemma EliminateIdFromInput(zs: Layer, sel: set<nat>, k: Kernel, z: Zone)
    requires z in Eliminate(zs, sel, k)
    ensures exists i :: 0 <= i < |zs| && z.zoneId == zs[i].zoneId
  {
    EliminateAttributesFromInput(zs, sel, k, z);
    var i :| 0 <= i < |zs| && z.(shape := zs[i].shape) == zs[i];
    assert z.zoneId == zs[i].zoneId;
  }

  /** The layer with area_sqkm computed from each zone's shape. */
  predicate AreaInSqkm(mz: Layer, zs: Layer, k: Kernel)
  {
    && |mz| == |zs|
    && forall i :: 0 <= i < |mz| ==> mz[i] == zs[i].(area := Some(k.areaSqm(zs[i].shape) / SqmPerSqkm))
  }

  /** Pass one selects exactly the zones under 5000 square metres. */
  lemma PassOneInSquareMetres(mz: Layer, zs: Layer, k: Kernel)
    requires AreaInSqkm(mz, zs, k)
    ensures forall i: nat :: i in SelectBelow(mz, FirstPassLimitSqkm) <==> i < |zs| && k.areaSqm(zs[i].shape) < 5000.0
  {
    forall i: nat | i < |zs|
      ensures i in SelectBelow(mz, FirstPassLimitSqkm) <==> k.areaSqm(zs[i].shape) < 5000.0
    {
      ThresholdsInSquareMetres(k.areaSqm(zs[i].shape));
    }
  }

  /** After pass one every zone's stored area is the area one of the zones
      had before the pass, not the area of its own grown shape. */
  lemma StoredAreaPredatesPassOne(mz: Layer, zs: Layer, k: Kernel, sel: set<nat>)
    requires AreaInSqkm(mz, zs, k)
    ensures forall z :: z in Eliminate(mz, sel, k) ==>
      exists j :: 0 <= j < |zs| && z.area == Some(k.areaSqm(zs[j].shape) / SqmPerSqkm)
  {
    forall z | z in Eliminate(mz, sel, k)
      ensures exists j :: 0 <= j < |zs| && z.area == Some(k.areaSqm(zs[j].shape) / SqmPerSqkm)
    {
      EliminateAttributesFromInput(mz, sel, k, z);
      var j :| 0 <= j < |mz| && z.(shape := mz[j].shape) == mz[j];
      assert z.area == mz[j].area;
    }
  }

  /** The ids after both passes and the second ring repair are ids of the
      first assignment. */
  lemma FinalIdsFromFirstAssignment(mz: Layer, k: Kernel, sel1: set<nat>, sel2: set<nat>)
    requires forall i :: 0 <= i < |mz| ==> mz[i].zoneId == Some(i)
    ensures var t := WithPartsAndRings(Eliminate(Eliminate(mz, sel1, k), sel2, k), k);
      forall z :: z in RingRepair(t, EliminatePolygonPart(t, k)) ==>
        exists j :: 0 <= j < |mz| && z.zoneId == Some(j)
  {
    var e1 := Eliminate(mz, sel1, k);
    var e2 := Eliminate(e1, sel2, k);
    var t := WithPartsAndRings(e2, k);
    forall z | z in RingRepair(t, EliminatePolygonPart(t, k))
      ensures exists j :: 0 <= j < |mz| && z.zoneId == Some(j)
    {
      RingRepairIdsFromInput(k, e2, z);
      var a :| 0 <= a < |e2| && z.zoneId == e2[a].zoneId;
      EliminateIdFromInput(e1, sel2, k, e2[a]);
      var b :| 0 <= b < |e1| && e2[a].zoneId == e1[b].zoneId;
      EliminateIdFromInput(mz, sel1, k, e1[b]);
      var c :| 0 <= c < |mz| && e1[b].zoneId == mz[c].zoneId;
    }
  }

  /** Distinct ids stay distinct through both passes and the second ring
      repair. */
  lemma FinalIdsDistinct(mz: Layer, k: Kernel, sel1: set<nat>, sel2: set<nat>)
    requires FillsOnly(k) && DistinctIds(mz)
    ensures var t := WithPartsAndRings(Eliminate(Eliminate(mz, sel1, k), sel2, k), k);
      DistinctIds(RingRepair(t, EliminatePolygonPart(t, k)))
  {
    EliminateDistinctIds(mz, sel1, k);
    EliminateDistinctIds(Eliminate(mz, sel1, k), sel2, k);
    RingRepairDistinctIds(k, Eliminate(Eliminate(mz, sel1, k), sel2, k));
  }

  method CreateMicrozones(k: Kernel, roads: seq<Road>) returns (st: Stages)
    // zones come from the selected roads only; the cursor adds parts and rings
    ensures st.prelim == WithPartsAndRings(FeatureToPolygon(k, roads), k)
    // first ring repair, directly on the new zones; then ids from FID
    ensures st.noRings == EliminatePolygonPart(st.prelim, k)
    ensures st.merged == AssignZoneIds(RingRepair(st.prelim, st.noRings))
    // area in square kilometres, computed once
    ensures |st.microzones| == |st.merged|
    ensures forall i :: 0 <= i < |st.microzones| ==>
      st.microzones[i] == st.merged[i].(area := Some(k.areaSqm(st.merged[i].shape) / SqmPerSqkm))
    // pass one: exactly the zones under 5000 square metres
    ensures forall i: nat :: i in st.pass1 <==> i < |st.merged| && k.areaSqm(st.merged[i].shape) < 5000.0
    ensures st.eliminated == Eliminate(st.microzones, st.pass1, k)
    // pass two selects on the stored area, which is that of a zone before pass one
    ensures st.pass2 == SelectBelow(st.eliminated, SecondPassLimitSqkm)
    ensures forall z :: z in st.eliminated ==>
      exists j :: 0 <= j < |st.merged| && z.area == Some(k.areaSqm(st.merged[j].shape) / SqmPerSqkm)
    ensures st.eliminated2 == WithPartsAndRings(Eliminate(st.eliminated, st.pass2, k), k)
    ensures Footprint(st.eliminated2) == Footprint(st.merged)
    // second ring repair
    ensures st.noRings2 == EliminatePolygonPart(st.eliminated2, k)
    ensures st.final == RingRepair(st.eliminated2, st.noRings2)
    ensures Footprint(st.final) == Footprint(st.merged) + Footprint(FilledZones(st.noRings2))
    // zone_id is never reassigned: every final id is an id of the first
    // assignment, and the ids stay unique when hole filling only adds cells
    ensures forall z :: z in st.final ==> exists j :: 0 <= j < |st.merged| && z.zoneId == Some(j)
    ensures FillsOnly(k) ==> DistinctIds(st.final)
  {
    var zones := FeatureToPolygon(k, roads);
    var prelim := RunPartsAndRingsCursor(zones, k);
    var noRings := EliminatePolygonPart(prelim, k);
    var repaired := RingRepair(prelim, noRings);
    var merged := AssignZoneIds(repaired);

    var microzones := CalculateArea(merged, r => k.areaSqm(r) / SqmPerSqkm);
    assert AreaInSqkm(microzones, merged, k);
    SameShapesSameFootprint(merged, microzones);
    var pass1 := SelectBelow(microzones, FirstPassLimitSqkm);
    PassOneInSquareMetres(microzones, merged, k);
    var eliminated := Eliminate(microzones, pass1, k);
    EliminateFootprint(microzones, pass1, k);
    StoredAreaPredatesPassOne(microzones, merged, k, pass1);

    var pass2 := SelectBelow(eliminated, SecondPassLimitSqkm);
    var raw2 := Eliminate(eliminated, pass2, k);
    EliminateFootprint(eliminated, pass2, k);
    var eliminated2 := RunPartsAndRingsCursor(raw2, k);
    SameShapesSameFootprint(raw2, eliminated2);
    var noRings2 := EliminatePolygonPart(eliminated2, k);
    var final := RingRepair(eliminated2, noRings2);
    RingRepairFootprint(eliminated2, noRings2);

    FinalIdsFromFirstAssignment(microzones, k, pass1, pass2);
    if FillsOnly(k) {
      FinalIdsDistinct(microzones, k, pass1, pass2);
    }

    st := Stages(prelim, noRings, merged, microzones, pass1, eliminated, pass2, eliminated2, noRings2, final);
  }
}
