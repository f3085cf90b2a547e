/** The multi-ring buffer: one dissolved buffer region per distance, turned
    into non-overlapping bands by differencing consecutive regions. */
module RingBuffer {
  import opened Wrappers
  import opened Regions

  /** One output row: the band's cells and the value written to the
      distance field. */
  datatype Band = Band(region: Region, distance: real)

  /** The final concatenation of an empty list of bands: `pd.concat([])`
      raises before `merge_list[0]` is reached. */
  datatype BufferError = NothingToConcatenate

  predicate Descending(s: seq<real>)
  {
    forall i, j :: 0 <= i < j < |s| ==> s[i] >= s[j]
  }

  /** The only assumption made about the vendor buffer-and-dissolve: a
      larger distance never yields a smaller region. */
  ghost predicate Monotone(buffer: real -> Region)
  {
    forall d, d' :: d <= d' ==> buffer(d) <= buffer(d')
  }

  /** Putting a larger-or-equal distance in front keeps a list sorted. */
  lemma DescendingCons(h: real, t: seq<real>)
    requires Descending(t)
    requires t == [] || h >= t[0]
    ensures Descending([h] + t)
  {
  }

  /** Insertion of one distance into a list sorted greatest first. */
  function Insert(x: real, s: seq<real>): (r: seq<real>)
    requires Descending(s)
    ensures |r| == |s| + 1
    ensures r[0] == x || (s != [] && r[0] == s[0])
    ensures Descending(r)
    ensures multiset(r) == multiset(s) + multiset{x}
  {
    if s == [] then [x]
    else if x >= s[0] then
      DescendingCons(x, s);
      [x] + s
    else
      var rest := Insert(x, s[1..]);
      DescendingCons(s[0], rest);
      assert s == [s[0]] + s[1..];
      [s[0]] + rest
  }

  /** `sorted(distance_list, reverse=True)`: a new list, greatest first,
      holding the same distances; the caller's list is a value and is left
      as it was. */
  function SortDescending(s: seq<real>): (r: seq<real>)
    ensures Descending(r)
    ensures multiset(r) == multiset(s)
    ensures |r| == |s|
  {
    if s == [] then []
    else
      assert s == [s[0]] + s[1..];
      Insert(s[0], SortDescending(s[1..]))
  }

  /** Every distance held by a list sorted greatest first is at most its head. */
  lemma AtMostHead(s: seq<real>, x: real)
    requires Descending(s) && x in multiset(s)
    ensures s != [] && x <= s[0]
  {
    var i :| 0 <= i < |s| && s[i] == x;
  }

  /** Two lists sorted greatest first that hold the same distances are the
      same list. */
  lemma {:induction false} DescendingUnique(a: seq<real>, b: seq<real>)
    requires Descending(a) && Descending(b)
    requires multiset(a) == multiset(b)
    ensures a == b
  {
    if a == [] {
      assert |b| == |multiset(b)| == 0;
    } else {
      AtMostHead(b, a[0]);
      AtMostHead(a, b[0]);
      var h := a[0];
      assert b[0] == h;
      var ta, tb := a[1..], b[1..];
      assert a == [h] + ta;
      assert b == [h] + tb;
      assert multiset(ta) == multiset(a) - multiset{h};
      assert multiset(tb) == multiset(b) - multiset{h};
      DescendingUnique(ta, tb);
    }
  }

  /** The sorted order depends only on the multiset of distances. */
  lemma SortOrderIndependent(a: seq<real>, b: seq<real>)
    requires multiset(a) == multiset(b)
    ensures SortDescending(a) == SortDescending(b)
  {
    DescendingUnique(SortDescending(a), SortDescending(b));
  }

  /** Every distance processed comes from the caller's list. */
  lemma SortedMember(s: seq<real>, k: nat)
    requires k < |s|
    ensures SortDescending(s)[k] in s
  {
    var ds := SortDescending(s);
    assert ds[k] in multiset(ds);
    assert ds[k] in multiset(s);
  }

  /** The first distance processed is the largest one in the caller's list. */
  lemma SortedHeadIsMax(s: seq<real>)
    requires |s| > 0
    ensures forall j :: 0 <= j < |s| ==> s[j] <= SortDescending(s)[0]
  {
    var ds := SortDescending(s);
    forall j | 0 <= j < |s|
      ensures s[j] <= ds[0]
    {
      assert s[j] in multiset(s);
      AtMostHead(ds, s[j]);
    }
  }

  /** The bands produced for distances already sorted greatest first: band
      k is the region within ds[k] less the region within ds[k + 1], tagged
      with the larger distance ds[k]; the last band is the innermost region
      itself, tagged with its own distance. */
  function Bands(ds: seq<real>, buffer: real -> Region): (bs: seq<Band>)
    requires |ds| >= 1
    ensures |bs| == |ds|
    ensures forall k :: 0 <= k < |ds| ==> bs[k] == BandAt(ds, buffer, k)
  {
    seq(|ds|, k requires 0 <= k < |ds| => BandAt(ds, buffer, k))
  }

  function BandAt(ds: seq<real>, buffer: real -> Region, k: nat): Band
    requires k < |ds|
  {
    if k < |ds| - 1 then Band(buffer(ds[k]) - buffer(ds[k + 1]), ds[k])
    else Band(buffer(ds[k]), ds[k])
  }

  function RegionsOf(bs: seq<Band>): (rs: seq<Region>)
    ensures |rs| == |bs| && forall i :: 0 <= i < |bs| ==> rs[i] == bs[i].region
  {
    seq(|bs|, i requires 0 <= i < |bs| => bs[i].region)
  }

  /** `MultiRing_Buffer`: loops over the distances greatest first, buffers and
      dissolves at each, and from the second distance on appends the
      difference between the previous region and the current one, tagged
      with the previous distance; at the last distance it also appends the
      current region, tagged with its own distance.  With fewer than two
      distances nothing is appended and concatenating the empty list fails. */
  method MultiRingBuffer(distanceList: seq<real>, buffer: real -> Region)
    returns (r: Result<seq<Band>, BufferError>)
    ensures |distanceList| < 2 ==> r == Failure(NothingToConcatenate)
    ensures |distanceList| >= 2 ==> r == Success(Bands(SortDescending(distanceList), buffer))
  {
    var distances := SortDescending(distanceList);
    var numberOfRings := |distanceList|;
    var prevDissolved: Region := {};
    var previousDistance: real := 0.0;
    var index := 0;
    var mergeList: seq<Band> := [];
    while index < |distances|
      invariant 0 <= index <= numberOfRings == |distances|
      invariant index > 0 ==> previousDistance == distances[index - 1]
      invariant index > 0 ==> prevDissolved == buffer(distances[index - 1])
      invariant |mergeList| == if index < 2 then 0 else if index == numberOfRings then index else index - 1
      invariant forall k :: 0 <= k < |mergeList| ==> mergeList[k] == BandAt(distances, buffer, k)
    {
      var distance := distances[index];
      var dissolved := buffer(distance);
      if index > 0 {
        var difference := Band(prevDissolved - dissolved, previousDistance);
        assert difference == BandAt(distances, buffer, index - 1);
        mergeList := mergeList + [difference];
        if index == numberOfRings - 1 {
          assert Band(dissolved, distance) == BandAt(distances, buffer, index);
          mergeList := mergeList + [Band(dissolved, distance)];
        }
      }
      prevDissolved := dissolved;
      previousDistance := distance;
      index := index + 1;
    }
    if |mergeList| == 0 {
      return Failure(NothingToConcatenate);
    }
    assert mergeList == Bands(distances, buffer);
    r := Success(mergeList);
  }

  /** Peeling the outermost band off the bands of a sorted list. */
  lemma BandsCons(ds: seq<real>, buffer: real -> Region)
    requires |ds| >= 2
    ensures Bands(ds, buffer) == [Band(buffer(ds[0]) - buffer(ds[1]), ds[0])] + Bands(ds[1..], buffer)
  {
  }

  /** The bands cover exactly the region of the largest distance. */
  lemma {:induction false} BandsCover(ds: seq<real>, buffer: real -> Region)
    requires |ds| >= 1 && Descending(ds) && Monotone(buffer)
    ensures UnionAll(RegionsOf(Bands(ds, buffer))) == buffer(ds[0])
  {
    var bs := Bands(ds, buffer);
    if |ds| == 1 {
      assert RegionsOf(bs) == [] + [buffer(ds[0])];
    } else {
      BandsCover(ds[1..], buffer);
      BandsCons(ds, buffer);
      var head := buffer(ds[0]) - buffer(ds[1]);
      assert RegionsOf(bs) == [head] + RegionsOf(Bands(ds[1..], buffer));
      UnionAllAppend([head], RegionsOf(Bands(ds[1..], buffer)));
      assert UnionAll([head]) == UnionAll([]) + head;
      assert buffer(ds[1]) <= buffer(ds[0]);
    }
  }

  /** No two bands share a cell. */
  lemma BandsDisjoint(ds: seq<real>, buffer: real -> Region)
    requires |ds| >= 1 && Descending(ds) && Monotone(buffer)
    ensures PairwiseDisjoint(RegionsOf(Bands(ds, buffer)))
  {
    var bs := Bands(ds, buffer);
    forall i, j | 0 <= i < j < |bs|
      ensures bs[i].region !! bs[j].region
    {
      assert buffer(ds[j]) <= buffer(ds[i + 1]);
    }
  }

  /** What a successful run produces, stated against the caller's unsorted
      list: one band per distance; the bands are pairwise disjoint; together
      they cover the region of the largest distance in the list. */
  lemma MultiRingBufferPartition(distanceList: seq<real>, buffer: real -> Region, ds: seq<real>, bs: seq<Band>)
    requires Monotone(buffer)
    requires |distanceList| >= 2
    requires ds == SortDescending(distanceList) && bs == Bands(ds, buffer)
    ensures |bs| == |distanceList|
    ensures PairwiseDisjoint(RegionsOf(bs))
    ensures exists i :: (0 <= i < |distanceList| && UnionAll(RegionsOf(bs)) == buffer(distanceList[i])
                         && forall j :: 0 <= j < |distanceList| ==> distanceList[j] <= distanceList[i])
  {
    BandsCover(ds, buffer);
    BandsDisjoint(ds, buffer);
    SortedHeadIsMax(distanceList);
    SortedMember(distanceList, 0);
    var i :| 0 <= i < |distanceList| && distanceList[i] == ds[0];
    assert UnionAll(RegionsOf(bs)) == buffer(distanceList[i]);
  }

  /** How each band is tagged: with a distance of the caller's list, tags
      never increase along the output, and every band but the last holds
      the cells within its own tag and outside the next band's tag, while
      the last band is the whole innermost region. */
  lemma MultiRingBufferLabels(distanceList: seq<real>, buffer: real -> Region, ds: seq<real>, bs: seq<Band>)
    requires |distanceList| >= 2
    requires ds == SortDescending(distanceList) && bs == Bands(ds, buffer)
    ensures forall k :: 0 <= k < |bs| ==> bs[k].distance in distanceList
    ensures forall k :: 0 <= k < |bs| - 1 ==>
              bs[k].distance >= bs[k + 1].distance &&
              bs[k].region == buffer(bs[k].distance) - buffer(bs[k + 1].distance)
    ensures bs[|bs| - 1].region == buffer(bs[|bs| - 1].distance)
  {
    forall k | 0 <= k < |bs|
      ensures bs[k].distance in distanceList
    {
      SortedMember(distanceList, k);
    }
    forall k | 0 <= k < |bs| - 1
      ensures bs[k].distance >= bs[k + 1].distance
      ensures bs[k].region == buffer(bs[k].distance) - buffer(bs[k + 1].distance)
    {
      ConsecutiveBands(ds, buffer, k);
    }
    assert bs[|bs| - 1] == BandAt(ds, buffer, |bs| - 1);
  }

  /** Two neighbouring bands of a sorted list: tags in order, and the
      outer band is its tag's region less the inner tag's region. */
  lemma ConsecutiveBands(ds: seq<real>, buffer: real -> Region, k: nat)
    requires Descending(ds) && k + 1 < |ds|
    ensures var bs := Bands(ds, buffer);
      && bs[k].distance >= bs[k + 1].distance
      && bs[k].region == buffer(bs[k].distance) - buffer(bs[k + 1].distance)
  {
    var bs := Bands(ds, buffer);
    assert bs[k] == BandAt(ds, buffer, k);
    assert bs[k + 1] == BandAt(ds, buffer, k + 1);
  }

  /** Reordering the caller's distances changes nothing in the output. */
  lemma MultiRingBufferOrderIndependent(a: seq<real>, b: seq<real>, buffer: real -> Region)
    requires multiset(a) == multiset(b) && |a| >= 2
    ensures |b| == |a|
    ensures Bands(SortDescending(a), buffer) == Bands(SortDescending(b), buffer)
  {
    SortOrderIndependent(a, b);
  }

  /** A repeated distance yields an empty difference, which is still
      appended to the merge list (as a frame with no rows). */
  lemma DuplicateDistanceEmptyBand(distanceList: seq<real>, buffer: real -> Region, k: nat)
    requires |distanceList| >= 2 && k < |distanceList| - 1
    requires SortDescending(distanceList)[k] == SortDescending(distanceList)[k + 1]
    ensures Bands(SortDescending(distanceList), buffer)[k].region == {}
    ensures Bands(SortDescending(distanceList), buffer)[k].distance == SortDescending(distanceList)[k]
  {
  }
}
