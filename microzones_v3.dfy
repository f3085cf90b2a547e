/** The third microzone script: zones from the selected roads, two
    small-zone passes on freshly computed areas (5000 then 15000 square
    metres), ring repair, FID zone ids, and a clip that drops the area of
    thirteen TAZs. */
module MicrozonesV3 {
  import opened Wrappers
  import opened Regions
  import opened Layers

  const FirstPassLimitSqm: real := 5000.0
  const SecondPassLimitSqm: real := 15000.0

  /** The datasets the script writes, in order. */
  datatype Stages = Stages(
    prelim: Layer,         // prelim_zones
    pass1: set<nat>,       // "area_sqm" < 5000 on prelim_zones
    eliminated: Layer,     // zones_eliminated_again
    pass2: set<nat>,       // "area_sqm" < 15000 on zones_eliminated_again
    eliminated2: Layer,    // zones_eliminated_again2, with parts and rings
    noRings: Layer,        // microzones_no_rings
    merged: Layer,         // merged_zones, with zone_id
    microzones: Layer,     // microzones, extra fields deleted
    clipped: Layer)        // maz_clipped

  method CreateMicrozones(k: Kernel, roads: seq<Road>, tazs: seq<Taz>) returns (st: Stages)
    // zones come from the selected roads only
    ensures st.prelim == FeatureToPolygon(k, roads)
    // both passes select exactly the zones whose current area is below the limit
    ensures forall i: nat :: i in st.pass1 <==> i < |st.prelim| && k.areaSqm(st.prelim[i].shape) < FirstPassLimitSqm
    ensures forall i: nat :: i in st.pass2 <==> i < |st.eliminated| && k.areaSqm(st.eliminated[i].shape) < SecondPassLimitSqm
    ensures st.eliminated == Eliminate(CalculateArea(st.prelim, k.areaSqm), st.pass1, k)
    ensures st.eliminated2 == WithPartsAndRings(Eliminate(CalculateArea(st.eliminated, k.areaSqm), st.pass2, k), k)
    // elimination moves cells between zones and neither adds nor loses one
    ensures Footprint(st.eliminated2) == Footprint(st.prelim)
    // ring repair: filled zones replace what they cover
    ensures st.noRings == EliminatePolygonPart(st.eliminated2, k)
    ensures st.merged == AssignZoneIds(RingRepair(st.eliminated2, st.noRings))
    ensures Footprint(st.merged) == Footprint(st.prelim) + Footprint(FilledZones(st.noRings))
    // zone ids are the row positions, so unique
    ensures DistinctIds(st.merged) && forall i :: 0 <= i < |st.merged| ==> st.merged[i].zoneId == Some(i)
    ensures st.microzones == DeleteRingFields(st.merged)
    // the clip keeps exactly the cells of TAZs not on the exclusion list
    ensures st.clipped == Clip(st.microzones, KeptTazArea(tazs))
    ensures Footprint(st.clipped) == Footprint(st.merged) * KeptTazArea(tazs)
  {
    var prelim := FeatureToPolygon(k, roads);

    var zones := CalculateArea(prelim, k.areaSqm);
    SameShapesSameFootprint(prelim, zones);
    var pass1 := SelectBelow(zones, FirstPassLimitSqm);
    var eliminated := Eliminate(zones, pass1, k);
    EliminateFootprint(zones, pass1, k);

    var zones2 := CalculateArea(eliminated, k.areaSqm);
    SameShapesSameFootprint(eliminated, zones2);
    var pass2 := SelectBelow(zones2, SecondPassLimitSqm);
    var eliminated2 := Eliminate(zones2, pass2, k);
    EliminateFootprint(zones2, pass2, k);

    var withRings := RunPartsAndRingsCursor(eliminated2, k);
    SameShapesSameFootprint(eliminated2, withRings);
    eliminated2 := withRings;
    var noRings := EliminatePolygonPart(eliminated2, k);
    var repaired := RingRepair(eliminated2, noRings);
    RingRepairFootprint(eliminated2, noRings);
    var merged := AssignZoneIds(repaired);
    SameShapesSameFootprint(repaired, merged);

    var microzones := DeleteRingFields(merged);
    SameShapesSameFootprint(merged, microzones);
    var clipped := Clip(microzones, KeptTazArea(tazs));
    ClipFootprint(microzones, KeptTazArea(tazs));

    st := Stages(prelim, pass1, eliminated, pass2, eliminated2, noRings, merged, microzones, clipped);
  }
}
