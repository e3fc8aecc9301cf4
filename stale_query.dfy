/** A query after a mask change, on the 3×3 unit grid of `Scenario` with the
    anchor at the centre. The mask excludes the edge cell (0,1). Read off the
    stored field, as the header leaves it, the query at (0,1) still returns a
    path starting at that excluded cell. With the rebuild of `EvaluateFresh`,
    the same query fails with UnreachableQuery. */
module StaleQuery {
  import opened Wrappers
  import opened Grid
  import opened Topology
  import opened Paths
  import opened Livewire
  import Scenario

  /** A mask over the 3×3 grid whose inside label 0 holds everywhere except
      at (0,1). */
  const EdgeExcluded: Mask := map[
    [0, 0] := 0, [0, 1] := 5, [0, 2] := 0,
    [1, 0] := 0, [1, 1] := 0, [1, 2] := 0,
    [2, 0] := 0, [2, 1] := 0, [2, 2] := 0]

  /** A new object configured for the unit grid, with the anchor set at the
      centre last, so its field is up to date. */
  method Setup() returns (fn: MinimalPathImageFunction)
    ensures fresh(fn) && fn.Valid() && fn.UpToDate()
    ensures fn.Space() == Scenario.UnitGrid && fn.anchorSeed == [1, 1]
    ensures fn.pathDirection.Some? && fn.pathDirection.value.anchor == [1, 1]
    ensures ShortestPathField(Scenario.UnitGrid, fn.pathDirection.value)
  {
    fn := new MinimalPathImageFunction(2);
    fn.SetUseFaceConnectedness(true);
    fn.SetUseImageSpacing(false);
    fn.SetInsideMaskPixelValue(0);
    fn.SetInputImage(Some(InputImage(Scenario.UnitGrid.region, [0.0, 0.0], [1.0, 1.0], Scenario.UnitGrid.linkCost)));
    assert fn.anchorSeed[0] == 0;
    fn.SetAnchorSeed([1, 1]);
    assert Eligible(Scenario.UnitGrid, [1, 1]);
  }

  /** The unit grid with the mask `EdgeExcluded`. */
  const MaskedGrid: SearchSpace := Scenario.UnitGrid.(mask := Some(EdgeExcluded))

  /** Any field built for the unmasked grid holds a path from (0,1) to the
      centre. */
  lemma StoredEdgePath(f: DirectionField)
    requires ShortestPathField(Scenario.UnitGrid, f) && f.anchor == [1, 1]
    ensures Reconstruct(f, [0, 1]).Success? && Reconstruct(f, [0, 1]).value[0] == [0, 1]
  {
    Scenario.EdgeCost(f);
    ReconstructShortest(Scenario.UnitGrid, f, [0, 1]);
  }

  /** On the masked grid the only correct answer at (0,1) is
      UnreachableQuery. */
  lemma ExcludedAnswer(r: Result<seq<Index>, QueryError>)
    requires CorrectAnswer(MaskedGrid, [1, 1], [0, 1], r)
    ensures r == Failure(UnreachableQuery)
  {
    MaskedFacts();
  }

  /** (0,1) lies in the region but outside the mask; the centre is inside. */
  lemma MaskedFacts()
    ensures InRegion(MaskedGrid.region, [0, 1])
    ensures Eligible(MaskedGrid, [1, 1])
    ensures !InsideMask(MaskedGrid.mask, MaskedGrid.insideLabel, [0, 1])
  {
    assert [1, 1] in EdgeExcluded && EdgeExcluded[[1, 1]] == 0;
    assert EdgeExcluded[[0, 1]] == 5;
  }

  /** As written: the mask is set after the field was built, the setter does
      not rebuild, and the query at the excluded cell (0,1) succeeds with a
      path that starts there, which is not a correct answer for the masked
      grid. */
  method StaleMaskQuery() returns (r: Result<seq<Index>, QueryError>)
    ensures !InsideMask(Some(EdgeExcluded), 0, [0, 1])
    ensures r.Success? && |r.value| >= 1 && r.value[0] == [0, 1]
    ensures !CorrectAnswer(MaskedGrid, [1, 1], [0, 1], r)
  {
    var fn := Setup();
    ghost var f := fn.pathDirection.value;
    ghost var image := fn.inputImage;
    StoredEdgePath(f);
    fn.SetMaskImage(Some(EdgeExcluded));
    assert fn.pathDirection == Some(f) && fn.inputImage == image;
    assert InRegion(fn.inputImage.value.region, [0, 1]);
    r := fn.EvaluateAtIndex([0, 1]);
    MaskedFacts();
    if CorrectAnswer(MaskedGrid, [1, 1], [0, 1], r) {
      ExcludedAnswer(r);
    }
  }

  /** Corrected: the query rebuilds the stale field first, and the excluded
      cell fails with UnreachableQuery. */
  method FreshMaskQuery() returns (r: Result<seq<Index>, QueryError>)
    ensures r == Failure(UnreachableQuery)
  {
    var fn := Setup();
    fn.SetMaskImage(Some(EdgeExcluded));
    assert fn.Space() == MaskedGrid;
    r := fn.EvaluateFresh([0, 1]);
    ExcludedAnswer(r);
  }

  /** Two corrected queries after the mask change: the first rebuilds the
      stale field, the second reuses it and gives the same answer. */
  method RepeatedFreshQuery() returns (r1: Result<seq<Index>, QueryError>, r2: Result<seq<Index>, QueryError>)
    ensures r1 == r2 == Failure(UnreachableQuery)
  {
    var fn := Setup();
    fn.SetMaskImage(Some(EdgeExcluded));
    assert fn.Space() == MaskedGrid;
    r1 := fn.EvaluateFresh([0, 1]);
    ExcludedAnswer(r1);
    ghost var g := fn.generations;
    r2 := fn.EvaluateFresh([0, 1]);
    assert fn.generations == g;
  }
}
