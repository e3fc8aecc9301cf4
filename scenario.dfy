/** A worked instance: a 3×3 image without a mask, face connectedness, a
    link cost of 1 between all neighbours and the anchor at the centre (1,1).
    Whatever field the search builds there, the corner (0,0) costs 2 and its
    path has three cells, and the edge cell (0,1) costs 1. */
module Scenario {
  import opened Wrappers
  import opened Grid
  import opened Topology
  import opened Paths

  const UnitGrid: SearchSpace :=
    SearchSpace(Region([0, 0], [3, 3]), None, 0, true, false, (u: bool, a: Index, b: Index) => 1)

  /** With unit links, a route costs one per step. */
  lemma {:induction false} UnitRouteCost(r: seq<Index>)
    ensures RouteCost(UnitGrid, r) == if |r| == 0 then 0 else |r| - 1
  {
    if |r| > 1 {
      UnitRouteCost(r[1..]);
    }
  }

  /** The two face steps into the centre from (0,0) and from (0,1). */
  lemma Steps()
    ensures Step(UnitGrid, [1, 0], [0, 0])
    ensures Step(UnitGrid, [1, 1], [1, 0])
    ensures Step(UnitGrid, [1, 1], [0, 1])
  {
    assert Sub([0, 0], [1, 0]) == [-1, 0];
    assert AxisStep([-1, 0]) by { assert [-1, 0][0] == -1; }
    assert Sub([1, 0], [1, 1]) == [0, -1];
    assert AxisStep([0, -1]) by { assert [0, -1][1] == -1; }
    assert Sub([0, 1], [1, 1]) == [-1, 0];
  }

  /** A diagonal move is not a face step, so (0,0) is not next to (1,1). */
  lemma NoDiagonal()
    ensures !Step(UnitGrid, [1, 1], [0, 0])
  {
    var o := Sub([0, 0], [1, 1]);
    assert o == [-1, -1];
    forall k | 0 <= k < |o|
      ensures !((o[k] == 1 || o[k] == -1) && forall d :: 0 <= d < |o| && d != k ==> o[d] == 0)
    {
      assert o[1 - k] == -1;
    }
  }

  /** Every route from the corner (0,0) to the centre has at least three
      cells. */
  lemma CornerRoute(p: seq<Index>)
    requires IsRoute(UnitGrid, p) && p[0] == [0, 0] && p[|p| - 1] == [1, 1]
    ensures |p| >= 3
  {
    NoDiagonal();
  }

  /** The corner is reached at cost at most 2. */
  lemma CornerUpper(f: DirectionField)
    requires Rooted(f) && Relaxed(UnitGrid, f) && f.anchor == [1, 1]
    ensures [0, 0] in f.cost && f.cost[[0, 0]] <= 2
  {
    Steps();
    var r := [[0, 0], [1, 0], [1, 1]];
    assert IsRoute(UnitGrid, r);
    UnitRouteCost(r);
    RouteLowerBound(UnitGrid, f, r);
  }

  lemma CornerCost(f: DirectionField)
    requires ShortestPathField(UnitGrid, f) && f.anchor == [1, 1]
    ensures [0, 0] in f.cost && f.cost[[0, 0]] == 2
    ensures Reconstruct(f, [0, 0]).Success? && |Reconstruct(f, [0, 0]).value| == 3
  {
    CornerUpper(f);
    ReconstructVisited(UnitGrid, f, [0, 0]);
    CornerRoute(Reconstruct(f, [0, 0]).value);
    UnitRouteCost(Reconstruct(f, [0, 0]).value);
  }

  /** The edge cell (0,1) is reached at cost at most 1. */
  lemma EdgeUpper(f: DirectionField)
    requires Rooted(f) && Relaxed(UnitGrid, f) && f.anchor == [1, 1]
    ensures [0, 1] in f.cost && f.cost[[0, 1]] <= 1
  {
    Steps();
    var r := [[0, 1], [1, 1]];
    assert IsRoute(UnitGrid, r);
    UnitRouteCost(r);
    RouteLowerBound(UnitGrid, f, r);
  }

  /** The edge cell (0,1) is next to the centre, at cost 1. */
  lemma EdgeCost(f: DirectionField)
    requires ShortestPathField(UnitGrid, f) && f.anchor == [1, 1]
    ensures [0, 1] in f.cost && f.cost[[0, 1]] == 1
  {
    EdgeUpper(f);
    ReconstructVisited(UnitGrid, f, [0, 1]);
    UnitRouteCost(Reconstruct(f, [0, 1]).value);
  }
}
