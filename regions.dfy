/** Geometry as finite sets of abstract cells.  Every vendor geometry
    operation (buffer, dissolve, overlay, erase, clip, polygon-part
    elimination) is modelled on these sets; dissolving a collection of
    features into one region is the union of their cells. */
module Regions {

  datatype Cell = Cell(col: int, row: int)

  type Region = set<Cell>

  /** Dissolve: the union of every region of a layer, in any order. */
  function UnionAll(rs: seq<Region>): (u: Region)
    ensures forall i :: 0 <= i < |rs| ==> rs[i] <= u
  {
    if rs == [] then {} else UnionAll(rs[..|rs| - 1]) + rs[|rs| - 1]
  }

  /** A cell lies in the dissolved region exactly when some member holds it. */
  lemma {:induction false} UnionAllMember(rs: seq<Region>, c: Cell)
    ensures c in UnionAll(rs) <==> exists i :: 0 <= i < |rs| && c in rs[i]
  {
    if rs != [] {
      var init := rs[..|rs| - 1];
      UnionAllMember(init, c);
      if c in UnionAll(init) {
        var i :| 0 <= i < |init| && c in init[i];
        assert rs[i] == init[i];
      }
      if exists i :: 0 <= i < |rs| && c in rs[i] {
        var i :| 0 <= i < |rs| && c in rs[i];
        if i < |rs| - 1 {
          assert init[i] == rs[i];
        }
      }
    }
  }

  /** Dissolving two layers concatenated is the union of dissolving each. */
  lemma {:induction false} UnionAllAppend(a: seq<Region>, b: seq<Region>)
    ensures UnionAll(a + b) == UnionAll(a) + UnionAll(b)
  {
    if b == [] {
      assert a + b == a;
    } else {
      var b' := b[..|b| - 1];
      assert (a + b)[..|a + b| - 1] == a + b';
      UnionAllAppend(a, b');
    }
  }

  /** Pairwise disjointness of the members of a layer. */
  predicate PairwiseDisjoint(rs: seq<Region>)
  {
    forall i, j :: 0 <= i < j < |rs| ==> rs[i] !! rs[j]
  }
}
