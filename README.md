# WFRC micromobility data scripts: a Dafny model of their decision logic

The repository holds ArcGIS / geopandas scripts that do three jobs:

- they build bike and pedestrian demand polygons: multi-ring buffers, facility
  ratings of road segments, per-zone threshold ratings and two weighted demand
  scores;
- they cut the model area into microzones from the road network: road
  selection, small-zone elimination passes, ring repair, zone ids and the
  TAZ-exclusion clip, in three successive versions of the script, and they
  build the padded TAZ id keys;
- they convert yearly ATO (access to opportunities) tables and join them onto
  a base table by TAZID.

This project models the logic these scripts put around the vendor tools. Every
geometry operation is modelled on regions, which are finite sets of abstract
cells:

- dissolving a layer is the union of its cells;
- an overlay difference or an Erase is set difference;
- a Clip is intersection.

Operations the scripts only call (buffer, FeatureToPolygon, area, part and
ring counts, hole filling, and the neighbour Eliminate merges into) are
parameters. The buffer is a `real -> Region` function. The rest are fields of
a `Layers.Kernel` value. Only two assumptions are made about them, and each is
stated where it is needed:

- `RingBuffer.Monotone`: a larger buffer distance never gives a smaller region.
- `Layers.FillsOnly`: hole filling only adds cells.

Modules:

- `Regions`: cells, regions, dissolve (`UnionAll`).
- `RingBuffer`: `MultiRing_Buffer`.
- `DemandRating`: the facility ratings, the defaults for missing values, the
  threshold ratings, the demand scores, and the output field list.
- `TazIds`: `addLeadingZeroesTAZ` and the CO_TAZID key.
- `Layers`: what the three microzone scripts share. This covers zone records,
  the road query in SQL three-valued logic, area selection, Eliminate, the
  parts/rings cursor, hole filling, ring repair, FID zone ids and the clip.
- `MicrozonesV1`, `MicrozonesV2`, `MicrozonesV3`: the three scripts as staged
  pipelines.
- `AtoConversion`: year slicing, field-name formatting, the csv name rewrite,
  the column cut, the TAZID sort and the chain of inner merges.

## Model

| member | source | states |
|---|---|---|
| RingBuffer.SortDescending | BikePed_Demand_Polygon/BikePedDemand_polygon_v1.1.py:24 | the distances are put greatest first into a new list that holds exactly the caller's distances (same multiset); the caller's list is a value and is not changed |
| RingBuffer.SortOrderIndependent | BikePed_Demand_Polygon/BikePedDemand_polygon_v1.1.py:24 | two distance lists with the same multiset sort to the same list |
| RingBuffer.SortedMember | BikePed_Demand_Polygon/BikePedDemand_polygon_v1.1.py:24-35 | every distance the loop processes comes from the caller's list |
| RingBuffer.SortedHeadIsMax | BikePed_Demand_Polygon/BikePedDemand_polygon_v1.1.py:24-35 | the first distance the loop processes is the largest in the caller's list |
| RingBuffer.Bands | BikePed_Demand_Polygon/BikePedDemand_polygon_v1.1.py:44-69 | there is one band per distance: band k is the region of d_k minus the region of d_(k+1), tagged with the larger d_k, and the last band is the whole innermost region, tagged with its own distance |
| RingBuffer.MultiRingBuffer | BikePed_Demand_Polygon/BikePedDemand_polygon_v1.1.py:18-86 | the loop's merge list is the band sequence of the sorted distances when there are at least two distances; with zero or one distance nothing is appended and the final concatenation fails |
| RingBuffer.BandsCover | BikePed_Demand_Polygon/BikePedDemand_polygon_v1.1.py:56-69 | for a monotone buffer, the bands together are exactly the region of the largest distance |
| RingBuffer.BandsDisjoint | BikePed_Demand_Polygon/BikePedDemand_polygon_v1.1.py:56-69 | for a monotone buffer, no two bands share a cell |
| RingBuffer.MultiRingBufferPartition | BikePed_Demand_Polygon/BikePedDemand_polygon_v1.1.py:44-81 | with n >= 2 caller distances the merge list has n pairwise-disjoint bands whose union is the buffer of the caller's largest distance |
| RingBuffer.MultiRingBufferLabels | BikePed_Demand_Polygon/BikePedDemand_polygon_v1.1.py:44-69 | every tag is a caller distance; tags never increase along the output; each band but the last is its tag's region minus the next tag's region; the last band is its tag's whole region |
| RingBuffer.ConsecutiveBands | BikePed_Demand_Polygon/BikePedDemand_polygon_v1.1.py:56-63 | neighbouring bands have tags in non-increasing order, and the outer band is its tag's region less the inner tag's region |
| RingBuffer.MultiRingBufferOrderIndependent | BikePed_Demand_Polygon/BikePedDemand_polygon_v1.1.py:24-35 | permuting the caller's distances does not change the output |
| RingBuffer.DuplicateDistanceEmptyBand | BikePed_Demand_Polygon/BikePedDemand_polygon_v1.1.py:56-63 | a repeated distance produces an empty difference, which is still appended to the merge list, as an empty frame |
| DemandRating.BikeFacilityRating | BikePed_Demand_Polygon/BikePedDemand_polygon_v1.1.py:155-181 | codes 1A/1B/1C/PP rate 100, 2A/2B rate 66 and 3/3A/3B/3C rate 33, each if and only if; every other code, including a missing one, rates 0 |
| DemandRating.PedFacilityRating | BikePed_Demand_Polygon/BikePedDemand_polygon_v1.1.py:184-207 | the rating is 100 exactly for Sidewalk or Trail and 0 otherwise, including a missing value |
| DemandRating.MeanRating | BikePed_Demand_Polygon/BikePedDemand_polygon_v1.1.py:209-221 | the mean facility rating (L+R)/2 under true division; MeanFacilityRatingsInRange states its range and when it is 0 or 100 |
| DemandRating.MeanFacilityRatingsInRange | BikePed_Demand_Polygon/BikePedDemand_polygon_v1.1.py:209-221 | both mean ratings (L+R)/2 lie in [0,100]; the bike mean is 0 exactly when both sides rate 0; the ped mean is 100 exactly when both sides rate 100 |
| DemandRating.FillRow | BikePed_Demand_Polygon/BikePedDemand_polygon_v1.1.py:417-450 | after the default pass every checked field is a number: numbers are kept and any other value becomes that field's default |
| DemandRating.FillNullDefaults | BikePed_Demand_Polygon/BikePedDemand_polygon_v1.1.py:417-450 | the update cursor rewrites every row of the table to its filled form and nothing else |
| DemandRating.Measures | BikePed_Demand_Polygon/BikePedDemand_polygon_v1.1.py:417-450 | the value each rating reads is the field's number when it has one, else the field's default |
| DemandRating.DensityRating | BikePed_Demand_Polygon/BikePedDemand_polygon_v1.1.py:473-508 | the population and job density chains assign a rating to every number, equal to the step function with steps at 5/10/15/20/25 and ratings 0..100 by 20 |
| DemandRating.LumixRating | BikePed_Demand_Polygon/BikePedDemand_polygon_v1.1.py:511-525 | the land-use mix chain rates every number, equal to the step function with steps at 10/20/30/40 and ratings 0..100 by 25 |
| DemandRating.ProximityRating | BikePed_Demand_Polygon/BikePedDemand_polygon_v1.1.py:528-625 | the school, park, retail, bus and rail distance chains rate every number, equal to the step function with steps at 330/660/1320/2640 and ratings 100 down to 0 |
| DemandRating.CollegeRating | BikePed_Demand_Polygon/BikePedDemand_polygon_v1.1.py:562-574 | the college distance chain rates every number, equal to the step function with steps at 1/2/4 and ratings 100/50/25/0 |
| DemandRating.AgeRating | BikePed_Demand_Polygon/BikePedDemand_polygon_v1.1.py:628-642 | the dependent-age share chain rates every number, equal to the step function with steps at 30/35/40/43 and ratings 0..100 by 25 |
| DemandRating.ShareRating | BikePed_Demand_Polygon/BikePedDemand_polygon_v1.1.py:645-680 | the poverty and no-vehicle share chains rate every number, equal to the step function with steps at 3/6/9/12/15 and ratings 0..100 by 20 |
| DemandRating.BlockLengthRating | BikePed_Demand_Polygon/BikePedDemand_polygon_v1.1.py:683-697 | the block length chain rates every number, equal to the step function with steps at 300/400/500/900 and ratings 100 down to 0 |
| DemandRating.BracketOfMonotone | BikePed_Demand_Polygon/BikePedDemand_polygon_v1.1.py:473-697 | with ascending thresholds, a larger value never falls in an earlier bracket |
| DemandRating.StepRatingMonotone | BikePed_Demand_Polygon/BikePedDemand_polygon_v1.1.py:473-697 | a step rating with non-decreasing (non-increasing) ratings is non-decreasing (non-increasing) in its input |
| DemandRating.DensityRatingMonotone | BikePed_Demand_Polygon/BikePedDemand_polygon_v1.1.py:473-508 | the density rating is non-decreasing |
| DemandRating.LumixRatingMonotone | BikePed_Demand_Polygon/BikePedDemand_polygon_v1.1.py:511-525 | the land-use mix rating is non-decreasing |
| DemandRating.AgeRatingMonotone | BikePed_Demand_Polygon/BikePedDemand_polygon_v1.1.py:628-642 | the age rating is non-decreasing |
| DemandRating.ShareRatingMonotone | BikePed_Demand_Polygon/BikePedDemand_polygon_v1.1.py:645-680 | the poverty and no-vehicle ratings are non-decreasing |
| DemandRating.ProximityRatingMonotone | BikePed_Demand_Polygon/BikePedDemand_polygon_v1.1.py:528-625 | the school, park, retail, bus and rail ratings are non-increasing in distance |
| DemandRating.CollegeRatingMonotone | BikePed_Demand_Polygon/BikePedDemand_polygon_v1.1.py:562-574 | the college rating is non-increasing in distance |
| DemandRating.BlockLengthRatingMonotone | BikePed_Demand_Polygon/BikePedDemand_polygon_v1.1.py:683-697 | the block length rating is non-increasing |
| DemandRating.ThresholdRulesTotal | BikePed_Demand_Polygon/BikePedDemand_polygon_v1.1.py:473-697 | every threshold chain assigns some rating to every number, so no row is left unrated |
| DemandRating.RateZone | BikePed_Demand_Polygon/BikePedDemand_polygon_v1.1.py:473-697 | each of the thirteen ratings is its chain applied to its own field |
| DemandRating.RateZoneInRange | BikePed_Demand_Polygon/BikePedDemand_polygon_v1.1.py:473-697 | every rating of a zone lies in [0,100] |
| DemandRating.DemandScoresInRange | BikePed_Demand_Polygon/BikePedDemand_polygon_v1.1.py:700-701 | the bike and ped weights each sum to 100, so both scores lie in [0,100] when the ratings and mean facility ratings do |
| DemandRating.BikeDemandScore | BikePed_Demand_Polygon/BikePedDemand_polygon_v1.1.py:700 | the bike score is the weighted sum of the thirteen ratings and the mean bike rating over 100; DemandScoresInRange and AllMissingZoneScoresZero state its range and its value for a zone with no data |
| DemandRating.PedDemandScore | BikePed_Demand_Polygon/BikePedDemand_polygon_v1.1.py:701 | the ped score is the weighted sum of the thirteen ratings and the mean ped rating over 100; DemandScoresInRange and AllMissingZoneScoresZero state its range and its value for a zone with no data |
| DemandRating.MissingRowMeasures | BikePed_Demand_Polygon/BikePedDemand_polygon_v1.1.py:417-450 | a row whose checked fields are all non-numeric is read as the defaults |
| DemandRating.DefaultsRateZero | BikePed_Demand_Polygon/BikePedDemand_polygon_v1.1.py:417-697 | each default lies in its field's zero-rating bracket |
| DemandRating.ZoneScores | BikePed_Demand_Polygon/BikePedDemand_polygon_v1.1.py:417-701 | a zone's bike and ped demand scores lie in [0,100] whenever its joined mean facility ratings do |
| DemandRating.AllMissingZoneScoresZero | BikePed_Demand_Polygon/BikePedDemand_polygon_v1.1.py:417-701 | a zone with every checked field missing scores 0 on both formulas |
| DemandRating.FieldsToRemove | BikePed_Demand_Polygon/BikePedDemand_polygon_v1.1.py:11-16 | a field is listed for removal exactly when the layer has it and it is not one of the 21 kept fields |
| DemandRating.Kept | BikePed_Demand_Polygon/BikePedDemand_polygon_v1.1.py:11-16 | a field survives exactly when the layer has it and it is kept |
| DemandRating.FieldsToRemovePartition | BikePed_Demand_Polygon/BikePedDemand_polygon_v1.1.py:11-16 | every layer field is either removed or kept, and the two lists together are exactly as long as the field list |
| TazIds.NatToString | Create_Microzones/Create_Microzones_v3.py:68 | str(n) is a non-empty digit string with no leading zero unless n is 0 |
| TazIds.ParseNatToString | Create_Microzones/Create_Microzones_v3.py:68 | reading str(n) back as decimal gives n |
| TazIds.NatToStringLength | Create_Microzones/Create_Microzones_v3.py:66-71 | str(n) has 1, 2, 3 or 4 digits in the magnitude bands the padding tests, and at least 5 from 10000 up |
| TazIds.IntToString | Create_Microzones/Create_Microzones_v3.py:66-70 | str(i) is the decimal digits of i, with a '-' in front when i is negative |
| TazIds.AddLeadingZeroes | Create_Microzones/Create_Microzones_v3.py:65-73 | below 1000 the result is a string; from 1000 up it is the integer itself, not a string; a negative n takes the first branch and gives "000-" followed by its digits |
| TazIds.AsString | Create_Microzones/Create_Microzones_v3.py:335 | astype(str) keeps a string and writes an integer in decimal |
| TazIds.PaddedTaz | Create_Microzones/Create_Microzones_v3.py:334-335 | the TAZID column is the padded value written as a string; PaddedTazForm and PaddedTazUnpadded state its form in each magnitude band |
| TazIds.PaddedTazForm | Create_Microzones/Create_Microzones_v3.py:65-73 | for 0 <= n < 10000 the padded id is exactly four digits (zeros, then the digits of n) and reads back as n |
| TazIds.PaddedTazUnpadded | Create_Microzones/Create_Microzones_v3.py:66-73 | from 1000 up the id is str(n) with no leading zero; a negative n gives a string that is not all digits |
| TazIds.CoTazId | Create_Microzones/Create_Microzones_v3.py:334-335 | CO_TAZID starts with the county FIPS code as a string |
| TazIds.CoTazIdDecodes | Create_Microzones/Create_Microzones_v3.py:334-335 | for 0 <= Z <= 9999, CO_TAZID is the FIPS string followed by four digits that decode back to Z |
| TazIds.CoTazIdInjective | Create_Microzones/Create_Microzones_v3.py:334-335 | within one county, distinct TAZ numbers 0..9999 give distinct CO_TAZIDs |
| Layers.RoadSelectedIff | Create_Microzones/Create_Microzones_v3.py:115-116 | a road is selected exactly when its route name is non-null, at most 5 characters long and not ending in 'N', and its COUNTY_L is one of the five study counties; any NULL leaves it unselected |
| Layers.RoadQuery | Create_Microzones/Create_Microzones_v3.py:115 | the query evaluated as written in SQL three-valued logic; RoadSelectedIff states exactly which roads it accepts |
| Layers.SelectRoads | Create_Microzones/Create_Microzones_v3.py:115-116 | the selection holds exactly the roads the query accepts and no other |
| Layers.SelectRoadsInOrder | Create_Microzones/Create_Microzones_v3.py:115-116 | the selection keeps layer order: its p-th road is the road at the p-th position the query accepts |
| Layers.SelectRoadsMultiset | Create_Microzones/Create_Microzones_v3.py:115-116 | every accepted road is kept as often as the layer holds it, and every other road is dropped |
| Layers.FeatureToPolygon | Create_Microzones/Create_Microzones_v3.py:125 | the preliminary zones are built from the selected roads only, one zone per polygon, with area, parts, rings and zone id all unset |
| Layers.CalculateArea | Create_Microzones/Create_Microzones_v3.py:133 | every zone's area field is set from its current shape and nothing else changes |
| Layers.SelectBelow | Create_Microzones/Create_Microzones_v3.py:135-136 | the selection holds exactly the zones whose area field is set and strictly below the limit |
| Layers.Target | Create_Microzones/Create_Microzones_v3.py:137 | only a selected zone is ever merged, and only into an unselected zone |
| Layers.Eliminate | Create_Microzones/Create_Microzones_v3.py:137 | each selected zone is merged into its target and removed; Target, EliminateFootprint, EliminateKeepsUnselected, EliminateAttributesFromInput and EliminateDistinctIds state what it keeps |
| Layers.EliminateFootprint | Create_Microzones/Create_Microzones_v3.py:137 | Eliminate moves cells between zones and neither adds nor loses one |
| Layers.EliminateKeepsUnselected | Create_Microzones/Create_Microzones_v3.py:137 | an unselected zone keeps its attributes and only grows; a merged zone's cells go to its target |
| Layers.EliminateAttributesFromInput | Create_Microzones/Create_Microzones_v3.py:137 | every zone left after Eliminate carries the attributes of one input zone |
| Layers.EliminateDistinctIds | Create_Microzones/Create_Microzones.py:138-145 | Eliminate keeps zone ids unique |
| Layers.WithPartsAndRings | Create_Microzones/Create_Microzones_v3.py:158-168 | each zone's parts and rings are set to its part count and boundary ring count, and no other field changes |
| Layers.PopulatePartsAndRings | Create_Microzones/Create_Microzones_v3.py:158-168 | the update cursor rewrites the table in place to its parts-and-rings form |
| Layers.RunPartsAndRingsCursor | Create_Microzones/Create_Microzones_v2.py:103-113 | running the cursor over a layer yields its parts-and-rings form |
| Layers.EliminatePolygonPart | Create_Microzones/Create_Microzones_v3.py:171 | every zone keeps its attributes and has its shape replaced by the hole-filled shape |
| Layers.SelectedFeaturesMember | Create_Microzones/Create_Microzones_v3.py:174-176 | a zone is in a selection layer exactly when it sits at a selected position |
| Layers.FilledZones | Create_Microzones/Create_Microzones_v3.py:174-176 | the hole-filled zones whose rings value exceeds 1, in layer order; FilledZonesIff states exactly which zones they are |
| Layers.FilledZonesIff | Create_Microzones/Create_Microzones_v3.py:174-176 | a hole-filled zone is "filled" exactly when its rings value is set and greater than 1 |
| Layers.Erase | Create_Microzones/Create_Microzones_v3.py:179 | each zone is cut by the eraser and kept only when something is left; EraseMember, RemainderWithin and EraseDistinctIds state this |
| Layers.RingRepair | Create_Microzones/Create_Microzones_v3.py:179-182 | the erased remainders followed by the filled zones; RemaindersDisjointFromFilled, RingRepairFootprint, EnclosedZoneVanishes and RingRepairDistinctIds state what it keeps |
| Layers.EraseMember | Create_Microzones/Create_Microzones_v3.py:179 | Erase keeps a zone, less the erased cells, exactly when something of it is left |
| Layers.RemaindersDisjointFromFilled | Create_Microzones/Create_Microzones_v3.py:179-182 | no erased remainder overlaps any filled zone |
| Layers.RingRepairFootprint | Create_Microzones/Create_Microzones_v3.py:179-182 | the repaired layer covers exactly the zones' cells plus the filled zones' cells |
| Layers.RemainderWithin | Create_Microzones/Create_Microzones_v3.py:179 | an erased remainder lies within the original zones |
| Layers.EnclosedZoneVanishes | Create_Microzones/Create_Microzones_v3.py:179-182 | a zone lying wholly inside a filled zone leaves no remainder: it is absorbed, not kept |
| Layers.FilledZoneReplacesOriginal | Create_Microzones/Create_Microzones_v3.py:179-182 | when hole filling only adds cells, the zone a filled zone came from is erased entirely |
| Layers.FilledIdNotRemainder | Create_Microzones/Create_Microzones_v3.py:179-182 | with unique ids and hole filling that only adds cells, no remainder shares an id with a filled zone |
| Layers.RingRepairIdsFromInput | Create_Microzones/Create_Microzones.py:153-178 | every zone after ring repair carries the id of an input zone |
| Layers.EraseDistinctIds | Create_Microzones/Create_Microzones_v3.py:179 | Erase keeps zone ids unique |
| Layers.SelectedDistinctIds | Create_Microzones/Create_Microzones_v3.py:174-176 | a selection keeps zone ids unique |
| Layers.MergeDistinctIds | Create_Microzones/Create_Microzones_v3.py:182 | merging two layers with unique ids and no id in common gives unique ids |
| Layers.RingRepairDistinctIds | Create_Microzones/Create_Microzones.py:153-178 | with unique input ids and hole filling that only adds cells, ring repair keeps ids unique |
| Layers.AssignZoneIds | Create_Microzones/Create_Microzones_v3.py:186 | zone_id is the row position (FID), so ids are unique; shape, area, parts and rings are unchanged |
| Layers.KeptTazArea | Create_Microzones/Create_Microzones_v3.py:204-205 | a cell is kept exactly when some TAZ outside the 13 excluded ids holds it |
| Layers.Clip | Create_Microzones/Create_Microzones_v3.py:206 | each zone is cut to the kept area and kept only when something is left; ClipFootprint and ExcludedTazAreaDropped state this |
| Layers.ClipFootprint | Create_Microzones/Create_Microzones_v3.py:206 | the clipped layer covers exactly the input's cells within the kept area, and each clipped zone is an input zone cut to that area |
| Layers.ExcludedTazAreaDropped | Create_Microzones/Create_Microzones_v3.py:204-206 | a cell that only excluded TAZs hold is not in the clipped output |
| Layers.DeleteRingFields | Create_Microzones/Create_Microzones_v3.py:193-199 | deleting the extra fields clears parts and rings and keeps everything else |
| MicrozonesV3.CreateMicrozones | Create_Microzones/Create_Microzones_v3.py:115-206 | zones come from the selected roads only; each pass selects exactly the zones whose freshly computed area is below 5000, then 15000 square metres; elimination keeps the footprint; ring repair adds only the filled zones' cells; zone ids are positions and unique; the clip keeps exactly the footprint within the non-excluded TAZs |
| MicrozonesV2.CreateMicrozones | Create_Microzones/Create_Microzones_v2.py:61-149 | zones come from the selected roads only; the passes select exactly the zones whose recomputed area is below 5000, then 10000 square metres; the cursor sets only parts and rings; filled zones are exactly those with rings > 1; ring repair adds only the filled zones' cells; ids are assigned after repair and are unique |
| MicrozonesV1.ThresholdsInSquareMetres | Create_Microzones/Create_Microzones.py:134-141 | the thresholds 0.005 and 0.010 square kilometres select exactly the areas below 5000 and 10000 square metres |
| MicrozonesV1.StaleAreaSelectsGrownZone | Create_Microzones/Create_Microzones.py:131-145 | a zone whose stored area is below 0.010 is selected in pass two even when the zones pass one merged into it make it larger |
| MicrozonesV1.EliminateIdFromInput | Create_Microzones/Create_Microzones.py:138-145 | every zone after Eliminate carries an id from its input |
| MicrozonesV1.PassOneInSquareMetres | Create_Microzones/Create_Microzones.py:131-135 | pass one selects exactly the zones under 5000 square metres |
| MicrozonesV1.StoredAreaPredatesPassOne | Create_Microzones/Create_Microzones.py:131-142 | every area read by pass two is that of a zone before pass one |
| MicrozonesV1.FinalIdsFromFirstAssignment | Create_Microzones/Create_Microzones.py:109-178 | zone_id is never reassigned: every final id is a position of the first assignment |
| MicrozonesV1.FinalIdsDistinct | Create_Microzones/Create_Microzones.py:109-178 | when hole filling only adds cells, the final zone ids are unique |
| MicrozonesV1.CreateMicrozones | Create_Microzones/Create_Microzones.py:54-178 | the stage order is ring repair, ids, area, two passes on the area stored once, then ring repair again; pass one is exact in square metres; pass two reads stale areas; the footprint is kept through elimination; final ids all come from the first assignment and are unique when hole filling only adds cells |
| AtoConversion.PySlice | TAZ-Data-Conversion/ATO_TAZ_Conversion.py:61 | a slice clamps both bounds to the string and is empty when they cross |
| AtoConversion.PySuffix | TAZ-Data-Conversion/ATO_TAZ_Conversion.py:73 | `s[-2:]` is the last min(2, len) characters |
| AtoConversion.YearOf | TAZ-Data-Conversion/ATO_TAZ_Conversion.py:61 | the year is characters 22..25 of the name when it is long enough, the tail past 22 when shorter, and empty at 22 characters or fewer |
| AtoConversion.ReplaceAll | TAZ-Data-Conversion/ATO_TAZ_Conversion.py:64 | `s.replace(pat, rep)` scanning left to right; CsvNamePositions states its result for "dbf" and "csv" |
| AtoConversion.CsvName | TAZ-Data-Conversion/ATO_TAZ_Conversion.py:64 | the csv file name; CsvNamePositions, CsvNameRewritesAll and CsvNameKeepsOthers state that every "dbf" becomes "csv" and nothing else changes |
| AtoConversion.FormatAppends | TAZ-Data-Conversion/ATO_TAZ_Conversion.py:73 | formatting a brace-free stem followed by `{}` gives the stem followed by the argument |
| AtoConversion.FormatKeepsPlain | TAZ-Data-Conversion/ATO_TAZ_Conversion.py:73 | a template without braces, such as TAZID, is left unchanged by formatting |
| AtoConversion.Format | TAZ-Data-Conversion/ATO_TAZ_Conversion.py:73 | `t.format(arg)` for a template with at most one `{}`; FormatAppends and FormatKeepsPlain state its result on the script's templates |
| AtoConversion.CsvNameHead | TAZ-Data-Conversion/ATO_TAZ_Conversion.py:64 | the first character of the csv name is 'c' if the name starts with "dbf", and is otherwise unchanged |
| AtoConversion.CsvNameRewritesAll | TAZ-Data-Conversion/ATO_TAZ_Conversion.py:64 | the csv name has the filename's length and no "dbf" left anywhere, not just at the extension |
| AtoConversion.CsvNameKeepsOthers | TAZ-Data-Conversion/ATO_TAZ_Conversion.py:64 | a name with no "dbf" in it is unchanged |
| AtoConversion.CsvNamePositions | TAZ-Data-Conversion/ATO_TAZ_Conversion.py:64 | the csv name has the filename's length, every "dbf" becomes "csv" in place, and every character outside an occurrence is kept |
| AtoConversion.NewFieldNames | TAZ-Data-Conversion/ATO_TAZ_Conversion.py:72-73 | there is one new name per template |
| AtoConversion.TemplatesFromStems | TAZ-Data-Conversion/ATO_TAZ_Conversion.py:72 | the templates are TAZID followed by the eight brace-free stems, each with `{}` appended |
| AtoConversion.NewFieldNamesForm | TAZ-Data-Conversion/ATO_TAZ_Conversion.py:72-73 | TAZID is unchanged, and every other name is its stem followed by the last two characters of the year |
| AtoConversion.CompColumnsRenamed | TAZ-Data-Conversion/ATO_TAZ_Conversion.py:69-74 | the rename is positional, so COMP_AUTO becomes AUTO_CP_yy and COMP_TRAN becomes TRAN_CP_yy |
| AtoConversion.ColumnIndex | TAZ-Data-Conversion/ATO_TAZ_Conversion.py:69 | a column's position is found exactly when the table has that column |
| AtoConversion.ColumnIndices | TAZ-Data-Conversion/ATO_TAZ_Conversion.py:69 | the cut fails exactly when a requested column is missing, and it names a missing one |
| AtoConversion.ReadAtoTable | TAZ-Data-Conversion/ATO_TAZ_Conversion.py:66-74 | a KeyError arises exactly when one of the nine columns is missing; otherwise the columns are the renamed ones and every row is kept; ReadAtoTableCells states the row contents |
| AtoConversion.ReadAtoTableCells | TAZ-Data-Conversion/ATO_TAZ_Conversion.py:66-74 | row i of the cut table is keyed by its TAZID, and its cells are its HH, JOB, AUTO_JB, TRAN_JB, AUTO_HH, TRAN_HH, COMP_AUTO and COMP_TRAN values, in that order |
| AtoConversion.CompValuesRenamed | TAZ-Data-Conversion/ATO_TAZ_Conversion.py:69-74 | after the positional rename, the column named AUTO_CP_yy holds each row's COMP_AUTO value and TRAN_CP_yy its COMP_TRAN value |
| AtoConversion.ReadBaseTable | TAZ-Data-Conversion/ATO_TAZ_Conversion.py:50 | the base table fails exactly when it lacks TAZID; otherwise every row is kept, keyed by its TAZID, and every other column keeps its name, its order and its values |
| AtoConversion.InsertRow | TAZ-Data-Conversion/ATO_TAZ_Conversion.py:50 | inserting a row into a TAZID-sorted table keeps it sorted and adds exactly that row |
| AtoConversion.SortByKey | TAZ-Data-Conversion/ATO_TAZ_Conversion.py:50 | the sort by TAZID orders the rows and is a permutation of them |
| AtoConversion.MatchPositions | TAZ-Data-Conversion/ATO_TAZ_Conversion.py:77 | the positions of the right rows with a given TAZID: all of them, each once, in increasing order |
| AtoConversion.Matches | TAZ-Data-Conversion/ATO_TAZ_Conversion.py:77 | every row paired with a left row carries its TAZID, and there are at most as many as right rows; MatchesPaired states the pairing itself |
| AtoConversion.MatchesPaired | TAZ-Data-Conversion/ATO_TAZ_Conversion.py:77 | a left row is paired once with each right row of equal TAZID, in right-table order, and each pair carries the left cells followed by the right cells |
| AtoConversion.MatchesMember | TAZ-Data-Conversion/ATO_TAZ_Conversion.py:77 | a row is among a left row's matches exactly when it joins that row to a right row of the same TAZID |
| AtoConversion.MergeRowsMember | TAZ-Data-Conversion/ATO_TAZ_Conversion.py:77 | a row is in the inner merge exactly when it joins some left row to some right row of the same TAZID |
| AtoConversion.PairsWithCount | TAZ-Data-Conversion/ATO_TAZ_Conversion.py:77 | distinct right positions give as many pairs with one left position |
| AtoConversion.MatchingPairsSplit | TAZ-Data-Conversion/ATO_TAZ_Conversion.py:77 | the equal-key pairs of a table are those of all its rows but the last, plus, disjointly, the last row's pairs |
| AtoConversion.MergeRowsCount | TAZ-Data-Conversion/ATO_TAZ_Conversion.py:77 | the inner merge has exactly one row per pair of left and right rows with equal TAZIDs, so duplicate keys multiply rows |
| AtoConversion.MergeRows | TAZ-Data-Conversion/ATO_TAZ_Conversion.py:77 | the rows of the inner merge; MergeRowsMember, MergeRowsCount, MergeRowsKeys and MergeRowsSorted state its rows, their number, their keys and their order |
| AtoConversion.InnerMerge | TAZ-Data-Conversion/ATO_TAZ_Conversion.py:77 | the merged table has the left columns followed by the right ones, and the merged rows |
| AtoConversion.MatchesKeys | TAZ-Data-Conversion/ATO_TAZ_Conversion.py:77 | a left row has a partner exactly when its TAZID occurs on the right |
| AtoConversion.MergeRowsKeys | TAZ-Data-Conversion/ATO_TAZ_Conversion.py:77 | the inner merge's TAZIDs are exactly those on both sides |
| AtoConversion.MergeRowsSorted | TAZ-Data-Conversion/ATO_TAZ_Conversion.py:77 | merging a TAZID-sorted left table keeps the output sorted, with only left TAZIDs |
| AtoConversion.JoinAllKeys | TAZ-Data-Conversion/ATO_TAZ_Conversion.py:56-77 | after the loop only the TAZIDs of the base table that every processed table also has remain, in order |
| AtoConversion.JoinAll | TAZ-Data-Conversion/ATO_TAZ_Conversion.py:56-77 | the loop as a function: the tables merged in turn, stopping at the first KeyError; JoinAllKeys states the keys that remain, and JoinFiles is proved equal to it |
| AtoConversion.JoinAllStep | TAZ-Data-Conversion/ATO_TAZ_Conversion.py:56-77 | one loop step either stops with the file's KeyError or merges the file's table and goes on |
| AtoConversion.JoinOne | TAZ-Data-Conversion/ATO_TAZ_Conversion.py:58-77 | one loop body yields the csv name with every "dbf" rewritten, and either the KeyError of a missing column or the accumulated table inner-merged with the cut and renamed table |
| AtoConversion.JoinFiles | TAZ-Data-Conversion/ATO_TAZ_Conversion.py:56-77 | the loop's result is the accumulated table merged in turn with each file's cut and renamed table, or the first KeyError; csv names are produced in file order, one per file processed |
| AtoConversion.ConvertAtoTables | TAZ-Data-Conversion/ATO_TAZ_Conversion.py:50-77 | a base table without TAZID fails; otherwise the base table is sorted by TAZID before any merge, and the result is the loop over the files starting from it |

## Left out

- File and layer I/O is out: shapefile, gdb and CSV reads and writes, table conversion, deleting intermediates, and the timestamped output directories. Tables and layers are values.
- Vendor geometry internals are parameters of the model, not definitions:
  - buffer offsetting and dissolve;
  - FeatureToPolygon noding, and the roads clip and outline merge that feed it;
  - area, part and ring counts;
  - EliminatePolygonPart's 50-percent rule;
  - Eliminate's LENGTH neighbour choice and tie-break. A neighbour is taken from `Kernel.neighbour` and used only when it is an unselected zone, otherwise the zone stays. The model therefore does not capture which neighbour the vendor tool picks, or that a selected zone may merge into another selected zone.
- Floating-point coordinates and float rounding are out. Areas, distances and ratings are `real`.
- SpatialJoin (HAVE_THEIR_CENTER_IN and the mean/Sum field-mapping merge rules) is out. The joined TAZ attributes are not modelled, and a joined layer has the same zones as its input.
- The MultipleRingBuffer_analysis calls and the bus feet-to-metres conversion in the demand script are out. They are vendor work and float arithmetic.
- The third microzone script's attribution section is out: pandas groupby and merges, zonal statistics, enrollment normalisation, and the geopandas join back to TAZ geometry. Only the padded TAZ id and the CO_TAZID build are modelled.
- The printing and diagnostic helpers `colnames`, `checkFields` and `isUnique` are out, and so is `modFieldMapping`. They do not affect the outputs that are modelled.
- RingBuffer.MultiRingBuffer: geopandas' overlay difference drops rows whose geometry is empty. An empty band, such as the one a repeated distance gives, is appended as a frame with no row, so the written layer has no feature for it. The model keeps the empty band, with its tag, in the band list, so the band count n equals the number of features written only when no band is empty.
- DemandRating: each UpdateCursor rating block is modelled as one function per row. The cursor loop itself is modelled only for the default pass (`FillNullDefaults`) and the parts/rings cursor (`PopulatePartsAndRings`).
- DemandRating.Measures: Python's `isinstance(x, (int, float, complex))` is modelled as "is a number". Complex values and NaN, which pass that test, are not distinguished.
- Layers: an AddField'ed shapefile field defaults to 0. The model leaves it unset (`None`) until the script writes it.
- Layers.RoadSelectedIff: `LIKE '%N'` is treated as case-sensitive, and `CHAR_LENGTH` counts characters.
- AtoConversion.SortByKey: pandas' default sort is not stable, so rows with equal TAZIDs may come out in another order than the model's stable insertion sort.
- AtoConversion.InnerMerge: pandas' `_x`/`_y` suffixes for clashing column names are not modelled, and neither is the place of TAZID among the output columns. The key is kept apart from the other cells.
- AtoConversion.ReadAtoTable: its own contract gives the failure condition, the column names and the row count. The row contents are stated by the lemma `ReadAtoTableCells` instead, so that proofs of the join loop do not carry them.
- AtoConversion.Matches: its own contract gives the keys and a bound on the length. The one-pair-per-equal-key statement is the lemma `MatchesPaired`, for the same reason.
- AtoConversion.ConvertAtoTables: `glob` and `os.path.basename` are out. The files are given in glob order, with their base names.
