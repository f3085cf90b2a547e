/** Feature layers of the microzone scripts and the geoprocessing stages they
    chain: attribute selections, area calculation, Eliminate, the parts and
    rings cursor, EliminatePolygonPart, Erase, Merge, the FID-based zone id
    and Clip. Geometry is a finite set of cells; what the vendor computes
    from geometry (area, part and ring counts, hole filling, polygon
    building, the neighbour Eliminate picks) is a field of `Kernel`. */
module Layers {
  import opened Wrappers
  import opened Regions

  // ---------------------------------------------------------------------
  // Road selection: the attribute query, under SQL three-valued logic

  /** The value of a SQL condition: NULL operands make it Unknown, and a
      selection keeps only the rows where it is True. */
  datatype Tri = True3 | False3 | Unknown3

  function And3(a: Tri, b: Tri): Tri
  {
    if a == False3 || b == False3 then False3
    else if a == True3 && b == True3 then True3
    else Unknown3
  }

  function Or3(a: Tri, b: Tri): Tri
  {
    if a == True3 || b == True3 then True3
    else if a == False3 && b == False3 then False3
    else Unknown3
  }

  function Not3(a: Tri): Tri
  {
    match a
    case True3 => False3
    case False3 => True3
    case Unknown3 => Unknown3
  }

  function FromBool(b: bool): Tri
  {
    if b then True3 else False3
  }

  /** The two road attributes the query reads; None is a NULL. */
  datatype Road = Road(rtName: Option<string>, countyL: Option<string>)

  /** FIPS codes of Box Elder, Davis, Salt Lake, Utah and Weber counties. */
  const StudyCounties: set<string> := {"49003", "49011", "49035", "49049", "49057"}

  function CharLengthAtMost(v: Option<string>, n: nat): Tri
  {
    if v.None? then Unknown3 else FromBool(|v.value| <= n)
  }

  /** `v LIKE '%c'`: the value ends in the character `c`. */
  function LikeEndsWith(v: Option<string>, c: char): Tri
  {
    if v.None? then Unknown3 else FromBool(|v.value| > 0 && v.value[|v.value| - 1] == c)
  }

  function Equals(v: Option<string>, literal: string): Tri
  {
    if v.None? then Unknown3 else FromBool(v.value == literal)
  }

  /** The road query, evaluated as written: route names of at most five
      characters, not ending in 'N', with the left county one of five. */
  function RoadQuery(r: Road): Tri
  {
    And3(
      And3(CharLengthAtMost(r.rtName, 5), Not3(LikeEndsWith(r.rtName, 'N'))),
      Or3(Or3(Or3(Or3(Equals(r.countyL, "49003"), Equals(r.countyL, "49011")),
        Equals(r.countyL, "49035")), Equals(r.countyL, "49049")), Equals(r.countyL, "49057")))
  }

  predicate RoadSelected(r: Road)
  {
    RoadQuery(r) == True3
  }

  /** A road is selected exactly when it has a route name of at most five
      characters that does not end in 'N' and a left county among the five;
      a NULL in either field deselects it. */
  lemma RoadSelectedIff(r: Road)
    ensures RoadSelected(r) <==>
      && r.rtName.Some? && |r.rtName.value| <= 5
      && !(|r.rtName.value| > 0 && r.rtName.value[|r.rtName.value| - 1] == 'N')
      && r.countyL.Some? && r.countyL.value in StudyCounties
  {
  }

  /** The positions of the selected roads of a layer, in increasing order. */
  function SelectedRoadPositions(roads: seq<Road>): (ps: seq<nat>)
    ensures forall p :: 0 <= p < |ps| ==> ps[p] < |roads| && RoadSelected(roads[ps[p]])
    ensures forall p, q :: 0 <= p < q < |ps| ==> ps[p] < ps[q]
    ensures forall i :: 0 <= i < |roads| && RoadSelected(roads[i]) ==> i in ps
  {
    if roads == [] then []
    else
      var init := SelectedRoadPositions(roads[..|roads| - 1]);
      if RoadSelected(roads[|roads| - 1]) then init + [|roads| - 1] else init
  }

  /** The selected roads of a road layer, in layer order. */
  function SelectRoads(roads: seq<Road>): (sel: seq<Road>)
    ensures |sel| <= |roads|
    ensures forall r :: r in sel <==> r in roads && RoadSelected(r)
  {
    if roads == [] then []
    else
      var last := roads[|roads| - 1];
      var init := SelectRoads(roads[..|roads| - 1]);
      assert roads == roads[..|roads| - 1] + [last];
      if RoadSelected(last) then init + [last] else init
  }

  /** The selection keeps the selected roads in layer order: its p-th road
      is the road at the p-th selected position. */
  lemma {:induction false} SelectRoadsInOrder(roads: seq<Road>)
    ensures |SelectRoads(roads)| == |SelectedRoadPositions(roads)|
    ensures forall p :: 0 <= p < |SelectRoads(roads)| ==>
      SelectRoads(roads)[p] == roads[SelectedRoadPositions(roads)[p]]
    decreases |roads|
  {
    if roads != [] {
      var n := |roads| - 1;
      SelectRoadsInOrder(roads[..n]);
      var ps := SelectedRoadPositions(roads[..n]);
      forall p | 0 <= p < |ps|
        ensures SelectRoads(roads[..n])[p] == roads[ps[p]]
      {
        assert roads[..n][ps[p]] == roads[ps[p]];
      }
    }
  }

  /** Every selected road is kept as often as the layer holds it, and no
      other road is kept. */
  lemma {:induction false} SelectRoadsMultiset(roads: seq<Road>)
    ensures forall r :: multiset(SelectRoads(roads))[r] == if RoadSelected(r) then multiset(roads)[r] else 0
    decreases |roads|
  {
    if roads != [] {
      var n := |roads| - 1;
      SelectRoadsMultiset(roads[..n]);
      assert roads == roads[..n] + [roads[n]];
      assert multiset(roads) == multiset(roads[..n]) + multiset{roads[n]};
    }
  }

  // ---------------------------------------------------------------------
  // Zones and the geometry kernel

  /** One polygon feature with the attributes the scripts add. A field the
      script has not added or filled yet is None. */
  datatype Zone = Zone(shape: Region, area: Option<real>, parts: Option<int>,
                       rings: Option<int>, zoneId: Option<int>)

  type Layer = seq<Zone>

  /** What the geoprocessing tools compute from geometry, left uninterpreted:
      the polygons FeatureToPolygon builds from the selected roads and the
      model-area outline, the area in square metres, `partCount`,
      `boundary().partCount`, the hole filling of EliminatePolygonPart, and
      the neighbour Eliminate merges a selected zone into. */
  datatype Kernel = Kernel(
    polygonize: seq<Road> -> seq<Region>,
    areaSqm: Region -> real,
    partCount: Region -> int,
    ringCount: Region -> int,
    fillHoles: Region -> Region,
    neighbour: (Layer, set<nat>, nat) -> Option<nat>)

  /** The one assumption on the kernel: filling holes only adds area. */
  ghost predicate FillsOnly(k: Kernel)
  {
    forall r :: r <= k.fillHoles(r)
  }

  /** The cells covered by a layer. */
  function Footprint(zs: Layer): (u: Region)
    ensures forall i :: 0 <= i < |zs| ==> zs[i].shape <= u
    ensures forall c :: c in u ==> exists i :: 0 <= i < |zs| && c in zs[i].shape
  {
    set i, c | 0 <= i < |zs| && c in zs[i].shape :: c
  }

  /** Two layers with the same shapes row by row cover the same cells. */
  lemma SameShapesSameFootprint(a: Layer, b: Layer)
    requires |a| == |b| && forall i :: 0 <= i < |a| ==> a[i].shape == b[i].shape
    ensures Footprint(a) == Footprint(b)
  {
  }

  /** The values present in a sequence of options, in order. */
  function Somes<T(!new)>(os: seq<Option<T>>): (r: seq<T>)
    ensures |r| <= |os|
    ensures forall x :: x in r <==> Some(x) in os
  {
    if os == [] then []
    else
      var init := Somes(os[..|os| - 1]);
      assert os == os[..|os| - 1] + [os[|os| - 1]];
      if os[|os| - 1].Some? then init + [os[|os| - 1].value] else init
  }

  /** No two positions of a layer carry the same zone id. */
  predicate DistinctIds(zs: Layer)
  {
    forall i, j :: 0 <= i < j < |zs| ==> zs[i].zoneId != zs[j].zoneId
  }

  /** Dropping entries keeps ids distinct when the ids present are distinct. */
  lemma {:induction false} SomesDistinctIds(os: seq<Option<Zone>>)
    requires forall i, j :: 0 <= i < j < |os| && os[i].Some? && os[j].Some? ==>
      os[i].value.zoneId != os[j].value.zoneId
    ensures DistinctIds(Somes(os))
    decreases |os|
  {
    if os != [] {
      var init := os[..|os| - 1];
      SomesDistinctIds(init);
      var last := os[|os| - 1];
      if last.Some? {
        var r := Somes(init);
        forall i | 0 <= i < |r|
          ensures r[i].zoneId != last.value.zoneId
        {
          assert r[i] in r;
          var j :| 0 <= j < |init| && init[j] == Some(r[i]);
          assert os[j] == Some(r[i]);
        }
      }
    }
  }

  /** FeatureToPolygon over the selected roads: fresh zones, no attributes. */
  function FeatureToPolygon(k: Kernel, roads: seq<Road>): (zs: Layer)
    ensures |zs| == |k.polygonize(SelectRoads(roads))|
    ensures forall i :: 0 <= i < |zs| ==> zs[i].shape == k.polygonize(SelectRoads(roads))[i]
    ensures forall i :: 0 <= i < |zs| ==>
      zs[i].area.None? && zs[i].parts.None? && zs[i].rings.None? && zs[i].zoneId.None?
  {
    var shapes := k.polygonize(SelectRoads(roads));
    seq(|shapes|, i requires 0 <= i < |shapes| => Zone(shapes[i], None, None, None, None))
  }

  // ---------------------------------------------------------------------
  // Area and the small-zone selection

  /** CalculateGeometryAttributes AREA: every zone's area field set from
      its current shape, in the unit `areaOf` returns. */
  function CalculateArea(zs: Layer, areaOf: Region -> real): (r: Layer)
    ensures |r| == |zs|
    ensures forall i :: 0 <= i < |r| ==>
      r[i] == zs[i].(area := Some(areaOf(zs[i].shape)))
  {
    seq(|zs|, i requires 0 <= i < |zs| => zs[i].(area := Some(areaOf(zs[i].shape))))
  }

  /** The selection `"area" < limit`: exactly the positions whose stored
      area is strictly below the limit (a NULL area is not selected). */
  function SelectBelow(zs: Layer, limit: real): (sel: set<nat>)
    ensures forall i: nat :: i in sel <==> i < |zs| && zs[i].area.Some? && zs[i].area.value < limit
  {
    set i: nat | i < |zs| && zs[i].area.Some? && zs[i].area.value < limit
  }

  // ---------------------------------------------------------------------
  // Eliminate

  /** The unselected zone a selected zone is merged into, if the kernel
      names a valid one; a zone with no unselected neighbour stays. */
  function Target(zs: Layer, sel: set<nat>, k: Kernel, i: nat): (t: Option<nat>)
    ensures t.Some? ==> i in sel && t.value < |zs| && t.value !in sel
  {
    if i !in sel then None
    else
      var t := k.neighbour(zs, sel, i);
      if t.Some? && t.value < |zs| && t.value !in sel then t else None
  }

  /** The cells of the selected zones merged into zone `j`. */
  function Absorbed(zs: Layer, sel: set<nat>, k: Kernel, j: nat): Region
  {
    set i, c | 0 <= i < |zs| && Target(zs, sel, k, i) == Some(j) && c in zs[i].shape :: c
  }

  /** What Eliminate leaves at position `i`: an unselected zone grown by the
      zones merged into it, keeping its own attributes; a selected zone
      without a target unchanged; nothing for a merged zone. */
  function EliminateAt(zs: Layer, sel: set<nat>, k: Kernel, i: nat): Option<Zone>
    requires i < |zs|
  {
    if i !in sel then Some(zs[i].(shape := zs[i].shape + Absorbed(zs, sel, k, i)))
    else if Target(zs, sel, k, i).None? then Some(zs[i])
    else None
  }

  function Eliminate(zs: Layer, sel: set<nat>, k: Kernel): Layer
  {
    Somes(seq(|zs|, i requires 0 <= i < |zs| => EliminateAt(zs, sel, k, i)))
  }

  /** Eliminate moves cells between zones but never adds or loses one. */
  lemma EliminateFootprint(zs: Layer, sel: set<nat>, k: Kernel)
    ensures Footprint(Eliminate(zs, sel, k)) == Footprint(zs)
  {
    var os := seq(|zs|, i requires 0 <= i < |zs| => EliminateAt(zs, sel, k, i));
    var out := Eliminate(zs, sel, k);
    forall c | c in Footprint(out)
      ensures c in Footprint(zs)
    {
      var m :| 0 <= m < |out| && c in out[m].shape;
      assert out[m] in out;
      var i :| 0 <= i < |os| && os[i] == Some(out[m]);
      if i !in sel && c !in zs[i].shape {
        assert c in Absorbed(zs, sel, k, i);
      }
    }
    forall c | c in Footprint(zs)
      ensures c in Footprint(out)
    {
      var i :| 0 <= i < |zs| && c in zs[i].shape;
      var j := if Target(zs, sel, k, i).Some? then Target(zs, sel, k, i).value else i;
      assert c in os[j].value.shape;
      assert os[j].value in out;
    }
  }

  /** Unselected zones are never merge sources: each survives with its
      attributes and at least its own cells. A selected zone with a target
      disappears into that target. */
  lemma EliminateKeepsUnselected(zs: Layer, sel: set<nat>, k: Kernel, i: nat)
    requires i < |zs|
    ensures i !in sel ==>
      (exists z :: z in Eliminate(zs, sel, k) && zs[i].shape <= z.shape && z.(shape := zs[i].shape) == zs[i])
    ensures Target(zs, sel, k, i).Some? ==>
      zs[i].shape <= Absorbed(zs, sel, k, Target(zs, sel, k, i).value)
  {
    var os := seq(|zs|, i requires 0 <= i < |zs| => EliminateAt(zs, sel, k, i));
    if i !in sel {
      assert os[i].value in Eliminate(zs, sel, k);
    }
  }

  /** Every zone Eliminate outputs carries the attributes of one input zone. */
  lemma EliminateAttributesFromInput(zs: Layer, sel: set<nat>, k: Kernel, z: Zone)
    requires z in Eliminate(zs, sel, k)
    ensures exists i :: 0 <= i < |zs| && z.(shape := zs[i].shape) == zs[i]
  {
    var os := seq(|zs|, i requires 0 <= i < |zs| => EliminateAt(zs, sel, k, i));
    var i :| 0 <= i < |os| && os[i] == Some(z);
  }

  /** Eliminate keeps zone ids distinct. */
  lemma EliminateDistinctIds(zs: Layer, sel: set<nat>, k: Kernel)
    requires DistinctIds(zs)
    ensures DistinctIds(Eliminate(zs, sel, k))
  {
    var os := seq(|zs|, i requires 0 <= i < |zs| => EliminateAt(zs, sel, k, i));
    SomesDistinctIds(os);
  }

  // ---------------------------------------------------------------------
  // Parts and rings, hole filling, ring repair

  /** The parts and rings fields as the cursor fills them. */
  function WithPartsAndRings(zs: Layer, k: Kernel): (r: Layer)
    ensures |r| == |zs|
    ensures forall i :: 0 <= i < |r| ==>
      (&& r[i].shape == zs[i].shape && r[i].area == zs[i].area && r[i].zoneId == zs[i].zoneId
       && r[i].parts == Some(k.partCount(zs[i].shape)) && r[i].rings == Some(k.ringCount(zs[i].shape)))
  {
    seq(|zs|, i requires 0 <= i < |zs| => PartsAndRings(zs[i], k))
  }

  function PartsAndRings(z: Zone, k: Kernel): Zone
  {
    z.(parts := Some(k.partCount(z.shape)), rings := Some(k.ringCount(z.shape)))
  }

  /** The UpdateCursor over FID, shape, parts and rings: each row gets its
      shape's part count and boundary ring count, in place. */
  method PopulatePartsAndRings(table: array<Zone>, k: Kernel)
    modifies table
    ensures table[..] == WithPartsAndRings(old(table[..]), k)
  {
    var n := 0;
    while n < table.Length
      invariant 0 <= n <= table.Length
      invariant forall i :: 0 <= i < n ==> table[i] == PartsAndRings(old(table[i]), k)
      invariant forall i :: n <= i < table.Length ==> table[i] == old(table[i])
    {
      var row := table[n];
      table[n] := row.(parts := Some(k.partCount(row.shape)), rings := Some(k.ringCount(row.shape)));
      n := n + 1;
    }
  }

  /** The cursor run over a layer's rows: the rows are loaded into a table,
      updated in place, and read back. */
  method RunPartsAndRingsCursor(zs: Layer, k: Kernel) returns (r: Layer)
    ensures r == WithPartsAndRings(zs, k)
  {
    var table := new Zone[|zs|](i requires 0 <= i < |zs| => zs[i]);
    assert table[..] == zs;
    PopulatePartsAndRings(table, k);
    r := table[..];
  }

  /** DeleteField of `parts` and `rings`. */
  function DeleteRingFields(zs: Layer): (r: Layer)
    ensures |r| == |zs|
    ensures forall i :: 0 <= i < |r| ==> r[i] == zs[i].(parts := None, rings := None)
  {
    seq(|zs|, i requires 0 <= i < |zs| => zs[i].(parts := None, rings := None))
  }

  /** EliminatePolygonPart: each zone's holes filled, attributes kept. */
  function EliminatePolygonPart(zs: Layer, k: Kernel): (r: Layer)
    ensures |r| == |zs|
    ensures forall i :: 0 <= i < |r| ==> r[i] == zs[i].(shape := k.fillHoles(zs[i].shape))
  {
    seq(|zs|, i requires 0 <= i < |zs| => zs[i].(shape := k.fillHoles(zs[i].shape)))
  }

  /** The selection `"rings" > 1`. */
  function FilledSelection(zs: Layer): set<nat>
  {
    set i: nat | i < |zs| && zs[i].rings.Some? && zs[i].rings.value > 1
  }

  /** The selected features of a layer, in layer order, as a tool reading
      the layer sees them. */
  function SelectedFeatures(zs: Layer, sel: set<nat>): (r: Layer)
    ensures |r| <= |zs|
  {
    Somes(seq(|zs|, i requires 0 <= i < |zs| => if i in sel then Some(zs[i]) else None))
  }

  /** A tool reading a layer sees exactly its selected features. */
  lemma SelectedFeaturesMember(zs: Layer, sel: set<nat>, z: Zone)
    ensures z in SelectedFeatures(zs, sel) <==> exists i :: 0 <= i < |zs| && i in sel && zs[i] == z
  {
    var os := seq(|zs|, i requires 0 <= i < |zs| => if i in sel then Some(zs[i]) else None);
    if exists i :: 0 <= i < |zs| && i in sel && zs[i] == z {
      var i :| 0 <= i < |zs| && i in sel && zs[i] == z;
      assert os[i] == Some(z);
    }
  }

  /** The filled zones: those of the hole-filled layer whose ring count is
      more than one. */
  function FilledZones(noRings: Layer): Layer
  {
    SelectedFeatures(noRings, FilledSelection(noRings))
  }

  /** A zone is filled exactly when its rings field is more than one. */
  lemma FilledZonesIff(noRings: Layer, z: Zone)
    ensures z in FilledZones(noRings) <==> z in noRings && z.rings.Some? && z.rings.value > 1
  {
    SelectedFeaturesMember(noRings, FilledSelection(noRings), z);
    if z in noRings && z.rings.Some? && z.rings.value > 1 {
      var i :| 0 <= i < |noRings| && noRings[i] == z;
      assert i in FilledSelection(noRings);
    }
  }

  /** Erase: each zone minus the eraser; a zone left empty is dropped. */
  function Erase(zs: Layer, eraser: Region): Layer
  {
    Somes(seq(|zs|, i requires 0 <= i < |zs| => EraseZone(zs[i], eraser)))
  }

  function EraseZone(z: Zone, eraser: Region): Option<Zone>
  {
    if z.shape - eraser == {} then None else Some(z.(shape := z.shape - eraser))
  }

  /** What Erase outputs: the nonempty remainders of the input zones. */
  lemma EraseMember(zs: Layer, eraser: Region, z: Zone)
    ensures z in Erase(zs, eraser) <==>
      exists i :: 0 <= i < |zs| && z == zs[i].(shape := zs[i].shape - eraser) && z.shape != {}
  {
    var os := seq(|zs|, i requires 0 <= i < |zs| => EraseZone(zs[i], eraser));
    if exists i :: 0 <= i < |zs| && z == zs[i].(shape := zs[i].shape - eraser) && z.shape != {} {
      var i :| 0 <= i < |zs| && z == zs[i].(shape := zs[i].shape - eraser) && z.shape != {};
      assert os[i] == Some(z);
    }
  }

  /** Ring repair: Erase the filled zones out of the zones, then Merge the
      remainders with the filled zones. */
  function RingRepair(zones: Layer, noRings: Layer): Layer
  {
    Erase(zones, Footprint(FilledZones(noRings))) + FilledZones(noRings)
  }

  /** The remainders never overlap a filled zone. */
  lemma RemaindersDisjointFromFilled(zones: Layer, noRings: Layer, z: Zone, g: Zone)
    requires z in Erase(zones, Footprint(FilledZones(noRings)))
    requires g in FilledZones(noRings)
    ensures z.shape !! g.shape
  {
    EraseMember(zones, Footprint(FilledZones(noRings)), z);
    var filled := FilledZones(noRings);
    var j :| 0 <= j < |filled| && filled[j] == g;
  }

  /** The repaired layer covers exactly the zones and the filled zones. */
  lemma RingRepairFootprint(zones: Layer, noRings: Layer)
    ensures Footprint(RingRepair(zones, noRings)) == Footprint(zones) + Footprint(FilledZones(noRings))
  {
    var filled := FilledZones(noRings);
    var f := Footprint(filled);
    var erased := Erase(zones, f);
    var out := RingRepair(zones, noRings);
    forall c | c in Footprint(out)
      ensures c in Footprint(zones) + f
    {
      var m :| 0 <= m < |out| && c in out[m].shape;
      if m < |erased| {
        RemainderWithin(zones, f, erased[m]);
      }
    }
    forall c | c in Footprint(zones) + f
      ensures c in Footprint(out)
    {
      if c in f {
        var j :| 0 <= j < |filled| && c in filled[j].shape;
        assert out[|erased| + j] == filled[j];
      } else {
        var i :| 0 <= i < |zones| && c in zones[i].shape;
        var z := zones[i].(shape := zones[i].shape - f);
        EraseMember(zones, f, z);
        var m :| 0 <= m < |erased| && erased[m] == z;
        assert out[m] == z;
      }
    }
  }

  /** Each cell of a remainder comes from an input zone. */
  lemma RemainderWithin(zones: Layer, eraser: Region, z: Zone)
    requires z in Erase(zones, eraser)
    ensures z.shape <= Footprint(zones)
  {
    EraseMember(zones, eraser, z);
  }

  /** A zone lying wholly inside the filled zones vanishes: no remainder
      overlaps it. */
  lemma EnclosedZoneVanishes(zones: Layer, noRings: Layer, i: nat)
    requires i < |zones|
    requires zones[i].shape <= Footprint(FilledZones(noRings))
    ensures forall z :: z in Erase(zones, Footprint(FilledZones(noRings))) ==> z.shape !! zones[i].shape
  {
    forall z | z in Erase(zones, Footprint(FilledZones(noRings)))
      ensures z.shape !! zones[i].shape
    {
      EraseMember(zones, Footprint(FilledZones(noRings)), z);
    }
  }

  /** In the scripts the hole-filled layer is computed from the zones
      themselves, so a zone with more than one ring is replaced by its
      filled version: its filled shape is in the output and the zone itself
      leaves no remainder. */
  lemma FilledZoneReplacesOriginal(k: Kernel, zones: Layer, i: nat)
    requires FillsOnly(k)
    requires i < |zones| && k.ringCount(zones[i].shape) > 1
    ensures var t := WithPartsAndRings(zones, k);
      var n := EliminatePolygonPart(t, k);
      && n[i] in RingRepair(t, n)
      && forall z :: z in Erase(t, Footprint(FilledZones(n))) ==> z.shape !! zones[i].shape
  {
    var t := WithPartsAndRings(zones, k);
    var n := EliminatePolygonPart(t, k);
    FilledZonesIff(n, n[i]);
    assert zones[i].shape <= k.fillHoles(zones[i].shape);
    EnclosedZoneVanishes(t, n, i);
  }

  /** A filled zone shares its id with no remainder: the only zone with
      that id is its own original, which the filled zone covers, so the
      original leaves no remainder. */
  lemma FilledIdNotRemainder(k: Kernel, zones: Layer, z: Zone, g: Zone)
    requires FillsOnly(k) && DistinctIds(zones)
    requires var t := WithPartsAndRings(zones, k);
      var n := EliminatePolygonPart(t, k);
      z in Erase(t, Footprint(FilledZones(n))) && g in FilledZones(n)
    ensures z.zoneId != g.zoneId
  {
    var t := WithPartsAndRings(zones, k);
    var n := EliminatePolygonPart(t, k);
    var f := Footprint(FilledZones(n));
    EraseMember(t, f, z);
    var i :| 0 <= i < |t| && z == t[i].(shape := t[i].shape - f) && z.shape != {};
    SelectedFeaturesMember(n, FilledSelection(n), g);
    var j :| 0 <= j < |n| && j in FilledSelection(n) && n[j] == g;
    if i == j {
      assert false;
    }
  }

  /** Every zone ring repair outputs carries the id of one of the zones. */
  lemma RingRepairIdsFromInput(k: Kernel, zones: Layer, z: Zone)
    requires var t := WithPartsAndRings(zones, k);
      z in RingRepair(t, EliminatePolygonPart(t, k))
    ensures exists i :: 0 <= i < |zones| && z.zoneId == zones[i].zoneId
  {
    var t := WithPartsAndRings(zones, k);
    var n := EliminatePolygonPart(t, k);
    var f := Footprint(FilledZones(n));
    if z in Erase(t, f) {
      EraseMember(t, f, z);
      var i :| 0 <= i < |t| && z == t[i].(shape := t[i].shape - f) && z.shape != {};
      assert z.zoneId == zones[i].zoneId;
    } else {
      SelectedFeaturesMember(n, FilledSelection(n), z);
      var j :| 0 <= j < |n| && j in FilledSelection(n) && n[j] == z;
      assert z.zoneId == zones[j].zoneId;
    }
  }

  /** Erase keeps distinct ids distinct. */
  lemma EraseDistinctIds(zs: Layer, eraser: Region)
    requires DistinctIds(zs)
    ensures DistinctIds(Erase(zs, eraser))
  {
    SomesDistinctIds(seq(|zs|, i requires 0 <= i < |zs| => EraseZone(zs[i], eraser)));
  }

  /** A selection keeps distinct ids distinct. */
  lemma SelectedDistinctIds(zs: Layer, sel: set<nat>)
    requires DistinctIds(zs)
    ensures DistinctIds(SelectedFeatures(zs, sel))
  {
    SomesDistinctIds(seq(|zs|, i requires 0 <= i < |zs| => if i in sel then Some(zs[i]) else None));
  }

  /** Merging two layers with distinct ids and no id in common. */
  lemma MergeDistinctIds(a: Layer, b: Layer)
    requires DistinctIds(a) && DistinctIds(b)
    requires forall x, y :: x in a && y in b ==> x.zoneId != y.zoneId
    ensures DistinctIds(a + b)
  {
    var out := a + b;
    forall p, q | 0 <= p < q < |out|
      ensures out[p].zoneId != out[q].zoneId
    {
      if q < |a| {
        assert out[p] == a[p] && out[q] == a[q];
      } else if p >= |a| {
        assert out[p] == b[p - |a|] && out[q] == b[q - |a|];
      } else {
        assert out[p] == a[p] && out[q] == b[q - |a|];
        assert a[p] in a && b[q - |a|] in b;
      }
    }
  }

  /** When the zones carry distinct ids, ring repair keeps them distinct. */
  lemma RingRepairDistinctIds(k: Kernel, zones: Layer)
    requires FillsOnly(k) && DistinctIds(zones)
    ensures var t := WithPartsAndRings(zones, k);
      DistinctIds(RingRepair(t, EliminatePolygonPart(t, k)))
  {
    var t := WithPartsAndRings(zones, k);
    var n := EliminatePolygonPart(t, k);
    var filled := FilledZones(n);
    var erased := Erase(t, Footprint(filled));
    EraseDistinctIds(t, Footprint(filled));
    SelectedDistinctIds(n, FilledSelection(n));
    forall x, y | x in erased && y in filled
      ensures x.zoneId != y.zoneId
    {
      FilledIdNotRemainder(k, zones, x, y);
    }
    MergeDistinctIds(erased, filled);
  }

  // ---------------------------------------------------------------------
  // Zone ids and the final clip

  /** `zone_id = !FID!`: each zone's id is its row position. */
  function AssignZoneIds(zs: Layer): (r: Layer)
    ensures |r| == |zs| && DistinctIds(r)
    ensures forall i :: 0 <= i < |r| ==> r[i].zoneId == Some(i) && r[i].shape == zs[i].shape
    ensures forall i :: 0 <= i < |r| ==>
      r[i].area == zs[i].area && r[i].parts == zs[i].parts && r[i].rings == zs[i].rings
  {
    seq(|zs|, i requires 0 <= i < |zs| => zs[i].(zoneId := Some(i)))
  }

  /** A TAZ polygon and its id. */
  datatype Taz = Taz(tazid: int, shape: Region)

  /** The TAZ ids whose area the final clip leaves out. */
  const ExcludedTazIds: set<int> := {688, 689, 1339, 1340, 2870, 2871, 2872, 1789, 1913, 1914, 1915, 1916, 2854}

  /** The selection `not "tazid" in (...)` as the area Clip keeps. */
  function KeptTazArea(tazs: seq<Taz>): (a: Region)
    ensures forall c :: c in a <==> exists j :: 0 <= j < |tazs| && tazs[j].tazid !in ExcludedTazIds && c in tazs[j].shape
  {
    set j, c | 0 <= j < |tazs| && tazs[j].tazid !in ExcludedTazIds && c in tazs[j].shape :: c
  }

  /** Clip: each zone cut to the clip area; a zone left empty is dropped. */
  function Clip(zs: Layer, area: Region): Layer
  {
    Somes(seq(|zs|, i requires 0 <= i < |zs| => ClipZone(zs[i], area)))
  }

  function ClipZone(z: Zone, area: Region): Option<Zone>
  {
    if z.shape * area == {} then None else Some(z.(shape := z.shape * area))
  }

  /** The clipped layer covers exactly the zones' cells inside the clip
      area, and every clipped zone keeps the attributes of an input zone. */
  lemma ClipFootprint(zs: Layer, area: Region)
    ensures Footprint(Clip(zs, area)) == Footprint(zs) * area
    ensures forall z :: z in Clip(zs, area) ==>
      exists i :: 0 <= i < |zs| && z == zs[i].(shape := zs[i].shape * area)
  {
    var os := seq(|zs|, i requires 0 <= i < |zs| => ClipZone(zs[i], area));
    var out := Clip(zs, area);
    forall z | z in out
      ensures exists i :: 0 <= i < |zs| && z == zs[i].(shape := zs[i].shape * area)
    {
      var i :| 0 <= i < |os| && os[i] == Some(z);
    }
    forall c | c in Footprint(out)
      ensures c in Footprint(zs) * area
    {
      var m :| 0 <= m < |out| && c in out[m].shape;
      assert out[m] in out;
      var i :| 0 <= i < |os| && os[i] == Some(out[m]);
    }
    forall c | c in Footprint(zs) * area
      ensures c in Footprint(out)
    {
      var i :| 0 <= i < |zs| && c in zs[i].shape;
      assert c in zs[i].shape * area;
      assert os[i] == Some(zs[i].(shape := zs[i].shape * area));
    }
  }

  /** A cell that lies only in excluded TAZs is in no clipped zone. */
  lemma ExcludedTazAreaDropped(zs: Layer, tazs: seq<Taz>, c: Cell)
    requires forall j :: 0 <= j < |tazs| && c in tazs[j].shape ==> tazs[j].tazid in ExcludedTazIds
    ensures c !in Footprint(Clip(zs, KeptTazArea(tazs)))
  {
    ClipFootprint(zs, KeptTazArea(tazs));
  }
}
