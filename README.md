# Live-wire minimal-path image function, modelled in Dafny

This project models ITK's `MinimalPathImageFunction`. It is the live-wire segmentation engine of Barrett and Mortensen: an image function whose value at a query cell is the cheapest path from that cell back to a fixed anchor seed. The model has three parts.

- **Neighbourhood and mask** (`topology.dfy`, `grid.dfy`):
  - N-dimensional indices, offsets and image regions.
  - The face-connected neighbourhood (2·N axis steps).
  - The fully-connected neighbourhood (the 3^N − 1 non-zero vectors of {−1,0,1}^N).
  - The optional integer mask and its inside label.
- **The direction field and its search** (`paths.dfy`, `queue.dfy`, `search_state.dfy`, `search.dfy`):
  - `GeneratePathDirectionImage` is a Dijkstra search from the anchor, driven by a min-priority queue keyed by cumulative cost.
  - Stale queue entries are dropped when popped.
  - Each finalized cell relaxes its eligible neighbours. A strictly cheaper candidate replaces the neighbour's cost and stored offset.
  - The result is the direction field: for every visited cell, the offset from its predecessor and its cumulative cost.
  - A query walks the stored offsets back to the anchor (`current := current − offset`). It returns the path query-first, ending at the anchor.
  - The search is proved to build a field whose every path is a cheapest route within the image and the mask.
- **The image function object** (`livewire.dfy`): the class `MinimalPathImageFunction`.
  - Its fields are the input image, mask, inside label, anchor seed, the two flags, the stored field and a modification counter.
  - It has the setters, `SetAnchorSeed` with its regeneration rule, and `Evaluate` / `EvaluateAtContinuousIndex` / `EvaluateAtIndex`.
  - A flag `fieldStale` records that the configuration changed since the last build. Every build clears it: `SetInputImage` with an image, `SetAnchorSeed` with an image present, and `EvaluateFresh`. `EvaluateFresh` rebuilds a stale field before answering (see "## Findings").
  - `Evaluate` and `EvaluateAtContinuousIndex` round half up to the nearest index.

`scenario.dfy` works one instance by hand: a 3×3 image with unit link costs, face connectedness and the anchor at the centre. For every field the search can build there, the corner costs 2 and its path has three cells, and an edge cell costs 1. `stale_query.dfy` sets a mask on that instance after the field was built and queries the excluded edge cell.

The model follows the class header `itkMinimalPathImageFunction.h`. Its implementation file `itkMinimalPathImageFunction.hxx` is not part of this model. The bodies of `GeneratePathDirectionImage`, `SetInputImage` and the constructor are therefore modelled after the algorithm the header documents and its declarations and types: the min-priority queue of `(index, cost)` elements, the offset image and the integer mask image.

`EvaluateAtIndex` has no code at all in the header: its declaration is commented out (lines 130-131), and `Evaluate` and `EvaluateAtContinuousIndex` call it. Its model is an assumption, not a reading of code:

- it reads the field stored by the last build and never rebuilds;
- it reports a missing image (`NoInputImage`), an index outside the image (`OutOfBounds`) and a build that found no eligible anchor (`InvalidAnchor`);
- otherwise it walks the stored offsets from the query to the anchor.

The header says nothing in prose about when the field is rebuilt. The model follows its inline code:

- `SetAnchorSeed` (lines 139-151) rebuilds the field eagerly, and only when an input image is present.
- The `itkSetMacro` setters for the mask, the inside label, the connectivity and the spacing flag (lines 133-160) only store the value and call `Modified()` when it differs. They do not rebuild.
  - The model proves that a field that was up to date is no longer up to date after such a change.
  - Under the no-rebuild assumption for `EvaluateAtIndex`, a query after such a change answers from the stale field. "## Findings" shows a query that then returns a path through a cell the new mask excludes.
  - In ITK, `Modified()` marks results computed from the old configuration as out of date. That every setter calls it is the basis for reading a rebuild before the next query as the intent. `EvaluateFresh` models that reading: it rebuilds a stale field, and only a stale one.
- For an image of size zero, every query is rejected as `OutOfBounds`, since no index lies in its region. The model has no separate "not visited" error: a cell the search never visited yields `UnreachableQuery`.

## Model

| member | source | states |
|---|---|---|
| Topology.FaceOffsetsExact | ExperimentalITK/BasicFilters/itkMinimalPathImageFunction.h:154-156 | an offset is in the face-connected neighbourhood iff it has one component equal to +1 or −1 and all others 0 |
| Topology.FaceOffsetsCount | ExperimentalITK/BasicFilters/itkMinimalPathImageFunction.h:154-156 | the face-connected neighbourhood has 2·N offsets |
| Topology.FullOffsetsExact | ExperimentalITK/BasicFilters/itkMinimalPathImageFunction.h:154-156 | an offset is in the fully-connected neighbourhood iff it has N components, each in {−1,0,1}, and is not the zero vector |
| Topology.FullOffsetsCount | ExperimentalITK/BasicFilters/itkMinimalPathImageFunction.h:154-156 | the fully-connected neighbourhood has 3^N − 1 offsets (the full cube has 3^N) |
| Topology.FaceWithinFull | ExperimentalITK/BasicFilters/itkMinimalPathImageFunction.h:154-156 | every face-connected offset is also a fully-connected one |
| Topology.OffsetShape | ExperimentalITK/BasicFilters/itkMinimalPathImageFunction.h:182 | every offset the search uses is a non-zero unit-box vector of dimension N, and an axis step under face connectedness |
| Topology.OffsetsExact | ExperimentalITK/BasicFilters/itkMinimalPathImageFunction.h:182 | the neighbourhood enumerated under the connectivity flag holds exactly the offsets the neighbour description admits |
| MinPriorityQueue.ExtractMin | ExperimentalITK/BasicFilters/itkMinimalPathImageFunction.h:98-106 | the popped element is in the queue, no element has a smaller priority, and the rest is the queue less that element (as a multiset) |
| Search.RelaxNeighbours | ExperimentalITK/BasicFilters/itkMinimalPathImageFunction.h:172 | after relaxing the neighbours of the newly finalized cell, the search invariant holds and every link out of every finalized cell is relaxed |
| Search.Settle | ExperimentalITK/BasicFilters/itkMinimalPathImageFunction.h:98-106 | one pop of the queue keeps the invariant and the relaxation, finalizes only eligible cells, and either finalizes a cell or shrinks the queue |
| Search.FinalizeKeeps | ExperimentalITK/BasicFilters/itkMinimalPathImageFunction.h:98-106 | the least entry of an unfinalized cell carries that cell's best cost, and finalizing it keeps costs non-decreasing in finalization order |
| Search.FieldComplete | ExperimentalITK/BasicFilters/itkMinimalPathImageFunction.h:172-175 | when the queue is empty, the costs and offsets form a shortest-path field, finalized in non-decreasing cost order, each cell after its predecessor |
| Search.GeneratePathDirections | ExperimentalITK/BasicFilters/itkMinimalPathImageFunction.h:172-175 | no field iff the anchor is outside the image or the mask; otherwise a field rooted at the anchor that is a shortest-path field, with its cells finalized in cost order |
| Paths.TraceIsChain | ExperimentalITK/BasicFilters/itkMinimalPathImageFunction.h:175 | a completed walk starts at the query, ends at the anchor, and each next cell is the current one minus its stored offset |
| Paths.TraceTerminates | ExperimentalITK/BasicFilters/itkMinimalPathImageFunction.h:175 | when each predecessor ranks below its cell, the walk from any visited cell reaches the anchor within rank-many steps |
| Paths.ChainIsRoute | ExperimentalITK/BasicFilters/itkMinimalPathImageFunction.h:91-92 | an offset chain in a consistent field is a route through eligible neighbours whose summed link cost is the recorded cost of its first cell |
| Paths.RouteLowerBound | ExperimentalITK/BasicFilters/itkMinimalPathImageFunction.h:101-106 | in a relaxed field, any route to the anchor starts at a visited cell whose recorded cost is at most the route's cost |
| Paths.ReconstructVisited | ExperimentalITK/BasicFilters/itkMinimalPathImageFunction.h:32-44 | for a visited query, reconstruction succeeds with a path from the query to the anchor that follows the stored offsets, is a route, costs the recorded cost and is no costlier than any route |
| Paths.ReconstructShortest | ExperimentalITK/BasicFilters/itkMinimalPathImageFunction.h:32-44 | reconstruction succeeds iff the query was visited iff a route joins it to the anchor; cells outside the image or mask fail with UnreachableQuery; a success is a cheapest route from the query to the anchor |
| Paths.AnchorPath | ExperimentalITK/BasicFilters/itkMinimalPathImageFunction.h:175 | the anchor's own path is the one-cell sequence [anchor] |
| Livewire.NearestIndex | ExperimentalITK/BasicFilters/itkMinimalPathImageFunction.h:123-124 | each component of the result lies within half a pixel (half-open above) of the continuous index |
| Livewire.NearestIndexUnique | ExperimentalITK/BasicFilters/itkMinimalPathImageFunction.h:123-124 | the nearest index is the only index within half a pixel of the continuous index |
| Livewire.PointRoundTrip | ExperimentalITK/BasicFilters/itkMinimalPathImageFunction.h:113-114 | converting a continuous index to a physical point and back returns it |
| Livewire.MinimalPathImageFunction.constructor | ExperimentalITK/BasicFilters/itkMinimalPathImageFunction.h:164 | a new object has no image, no mask and no field, and its modification count is 0 |
| Livewire.MinimalPathImageFunction.GeneratePathDirectionImage | ExperimentalITK/BasicFilters/itkMinimalPathImageFunction.h:172-175 | stores the search's result for the current configuration, leaving the configuration and the modification count unchanged |
| Livewire.MinimalPathImageFunction.SetInputImage | ExperimentalITK/BasicFilters/itkMinimalPathImageFunction.h:108 | stores the image, rebuilds the field when an image is given (it is then up to date and not stale), and marks the object modified once |
| Livewire.MinimalPathImageFunction.SetAnchorSeed | ExperimentalITK/BasicFilters/itkMinimalPathImageFunction.h:139-151 | the current anchor again changes nothing; a different one is stored, the field is rebuilt (up to date and not stale) iff an image is present, and the object is marked modified once |
| Livewire.MinimalPathImageFunction.SetMaskImage | ExperimentalITK/BasicFilters/itkMinimalPathImageFunction.h:133 | a different mask is stored and marked modified, the field is kept, and an up-to-date field becomes stale; the same mask changes nothing |
| Livewire.MinimalPathImageFunction.SetInsideMaskPixelValue | ExperimentalITK/BasicFilters/itkMinimalPathImageFunction.h:136 | a different inside label is stored and marked modified, the field is kept and becomes stale; the same label changes nothing |
| Livewire.MinimalPathImageFunction.SetUseFaceConnectedness | ExperimentalITK/BasicFilters/itkMinimalPathImageFunction.h:154 | a different connectivity is stored and marked modified, the field is kept and becomes stale; the same value changes nothing |
| Livewire.MinimalPathImageFunction.UseFaceConnectednessOn | ExperimentalITK/BasicFilters/itkMinimalPathImageFunction.h:156 | sets face connectedness to true with the setter's rule |
| Livewire.MinimalPathImageFunction.UseFaceConnectednessOff | ExperimentalITK/BasicFilters/itkMinimalPathImageFunction.h:156 | sets face connectedness to false with the setter's rule |
| Livewire.MinimalPathImageFunction.SetUseImageSpacing | ExperimentalITK/BasicFilters/itkMinimalPathImageFunction.h:158 | a different spacing flag is stored and marked modified, the field is kept and becomes stale; the same value changes nothing |
| Livewire.MinimalPathImageFunction.UseImageSpacingOn | ExperimentalITK/BasicFilters/itkMinimalPathImageFunction.h:160 | sets the spacing flag to true with the setter's rule |
| Livewire.MinimalPathImageFunction.UseImageSpacingOff | ExperimentalITK/BasicFilters/itkMinimalPathImageFunction.h:160 | sets the spacing flag to false with the setter's rule |
| Livewire.MinimalPathImageFunction.EvaluateAtIndex | ExperimentalITK/BasicFilters/itkMinimalPathImageFunction.h:128-131 | NoInputImage iff there is no image; OutOfBounds iff the index is outside the image's region; InvalidAnchor iff it is inside and the last build had no eligible anchor |
| Livewire.MinimalPathImageFunction.EvaluateNear | ExperimentalITK/BasicFilters/itkMinimalPathImageFunction.h:118-126 | a continuous index evaluates exactly like every index within half a pixel of it |
| Livewire.MinimalPathImageFunction.EvaluateAtPoint | ExperimentalITK/BasicFilters/itkMinimalPathImageFunction.h:110-116 | a physical point evaluates exactly like its continuous index |
| Livewire.MinimalPathImageFunction.EvaluateAtPixel | ExperimentalITK/BasicFilters/itkMinimalPathImageFunction.h:110-116 | the physical position of a pixel evaluates exactly like the pixel's index |
| Livewire.MinimalPathImageFunction.EvaluateUpToDate | ExperimentalITK/BasicFilters/itkMinimalPathImageFunction.h:133-137 | with an up-to-date field the answer is correct (`CorrectAnswer`): OutOfBounds outside the image; InvalidAnchor iff the anchor is outside the image or mask; success iff a route within the mask joins the query to the anchor, with a cheapest such route from query to anchor; a cell outside the mask fails with UnreachableQuery |
| Livewire.MinimalPathImageFunction.EvaluateFresh | ExperimentalITK/BasicFilters/itkMinimalPathImageFunction.h:133-160 | rebuilds only a stale field, and only when an image is present: without an image, or with a field not marked stale since the last build, the object is unchanged; otherwise exactly one build runs (changing a setting and restoring it still triggers one); the configuration and modification count are unchanged; with an image, afterwards the field is up to date and no longer stale, so the next query reuses it, and the answer is correct (`CorrectAnswer`) for the current configuration, in every valid state; NoInputImage without an image |
| Livewire.MinimalPathImageFunction.Evaluate | ExperimentalITK/BasicFilters/itkMinimalPathImageFunction.h:110-116 | never reports a missing image; OutOfBounds iff the point's nearest index lies outside the image (with `EvaluateAtPoint` and `EvaluateAtPixel`, it answers as `EvaluateAtIndex` at that index) |
| Livewire.MinimalPathImageFunction.EvaluateAtContinuousIndex | ExperimentalITK/BasicFilters/itkMinimalPathImageFunction.h:118-126 | NoInputImage iff there is no image; with an image, OutOfBounds iff the nearest index lies outside it (with `EvaluateNear`, it answers as every index within half a pixel) |
| Paths.Reconstruct | ExperimentalITK/BasicFilters/itkMinimalPathImageFunction.h:175 | a successful walk starts at a visited query and ends at the anchor; any failure is UnreachableQuery (`Paths.ReconstructShortest` gives the full specification) |
| Topology.Offsets | ExperimentalITK/BasicFilters/itkMinimalPathImageFunction.h:154-156 | the connectivity flag selects 2·N offsets (face) or 3^N − 1 (full) (`Topology.OffsetsExact` states which offsets) |
| StaleQuery.ExcludedAnswer | ExperimentalITK/BasicFilters/itkMinimalPathImageFunction.h:133 | on the 3×3 unit grid with (0,1) outside the mask and the anchor at the centre, the only correct answer at (0,1) is UnreachableQuery |
| StaleQuery.StaleMaskQuery | ExperimentalITK/BasicFilters/itkMinimalPathImageFunction.h:133-151 | as written: after the anchor build, setting the mask and querying (0,1) succeeds with a path starting at that excluded cell, which is not a correct answer |
| StaleQuery.FreshMaskQuery | ExperimentalITK/BasicFilters/itkMinimalPathImageFunction.h:133-151 | corrected: the same steps through `EvaluateFresh` fail with UnreachableQuery |
| StaleQuery.RepeatedFreshQuery | ExperimentalITK/BasicFilters/itkMinimalPathImageFunction.h:133-151 | corrected, twice: after the mask change two queries at (0,1) through `EvaluateFresh` both fail with UnreachableQuery, and the second runs no build |
| Livewire.MinimalPathImageFunction.EvaluateAnchor | ExperimentalITK/BasicFilters/itkMinimalPathImageFunction.h:139-151 | with an up-to-date field and an eligible anchor, querying the anchor yields [anchor] |
| Scenario.UnitRouteCost | ExperimentalITK/BasicFilters/itkMinimalPathImageFunction.h:32-44 | with unit link costs a route costs one per step |
| Scenario.CornerCost | ExperimentalITK/BasicFilters/itkMinimalPathImageFunction.h:32-44 | on the 3×3 unit grid with the anchor at the centre, the corner (0,0) costs 2 and its path has three cells |
| Scenario.EdgeCost | ExperimentalITK/BasicFilters/itkMinimalPathImageFunction.h:32-44 | on the same grid the edge cell (0,1) costs 1 |

## Left out

- The implementation file `itkMinimalPathImageFunction.hxx` is not part of this model. The search, `SetInputImage` and the constructor follow the live-wire algorithm of Barrett and Mortensen that the header names (lines 32-44) and the queue, offset-image and mask types it declares, not code that could be read.
- Livewire.MinimalPathImageFunction.EvaluateAtIndex: its declaration is commented out in the header and no body exists to follow. The model assumes it reads the last-built field without rebuilding, and adds the NoInputImage, OutOfBounds and InvalidAnchor checks, which no source code shows.
- Gradient computation and the `float` (`RealType`) cost image: the link cost is an abstract non-negative integer function of the spacing flag and the two cells. Floating-point rounding of cumulative costs is not modelled.
- `UseImageSpacing` is only passed to the link cost. How spacing scales the cost is left with that abstract function.
- `Evaluate` converts a point with origin and spacing only. The image's direction cosines are not modelled.
- `Evaluate` requires an input image, because the point conversion reads the image's geometry. Without an image the original dereferences a null image pointer.
- `MinPriorityQueue.ExtractMin`: the heap inside ITK's `PriorityQueueContainer` is replaced by a sequence and a linear scan for a least element. Which of several equal-cost entries leaves first, and so which of several equally cheap paths is stored, is not fixed.
- The output `PolyLineParametricPath` is returned as a sequence of indices (query first, anchor last). Its parametric interpolation is not modelled.
- `Paths.Reconstruct` walks with a step budget (fuel) equal to the number of visited cells. `Paths.ReconstructShortest` proves that the budget never runs out on a field the search built.
- Smart pointers, the object factory, run-time type information, `PrintSelf`, the debug macro, the destructor and the disabled copy operations are not modelled. `Modified()` is modelled as incrementing the object's own modification count `mTime`.
- The `itkGetConstMacro` getters are plain reads of the class's fields and are not separate members.
- Livewire.MinimalPathImageFunction.SetMaskImage compares masks by value. The original compares smart pointers, so a different mask object with equal contents also counts as a change there.
- Livewire.MinimalPathImageFunction.SetInputImage always rebuilds and marks the object modified. Whether the original skips an unchanged pointer is in the implementation file, which is not part of this model.
- Livewire.MinimalPathImageFunction.constructor: its defaults are an assumption, because the constructor's body is in the implementation file. The assumed defaults are anchor at the zero index, inside label 1, full connectedness and spacing on.
- Determinism of repeated builds is not stated as a separate property. `Paths.ReconstructShortest` fixes, for every field the search can build, the visited set (the cells a route joins to the anchor) and each cell's cost (that of a cheapest route). The stored offsets depend on tie-breaking among equal costs, which is not fixed.
- Livewire.PointRoundTrip, `Livewire.MinimalPathImageFunction.EvaluateAtPoint` and `Livewire.NearestIndex` use exact `real` arithmetic. ITK's points and continuous indices are floating-point values, and in floating point converting a continuous index to a point and back need not return it. The rounding rule of `NearestIndex`, round half up (`(c + 0.5).Floor`), is the model's choice: the bodies of `ConvertPointToNearestIndex` and `ConvertContinuousIndexToNearestIndex` (called at lines 114 and 124) belong to the base class, which is not part of this model.
- Index components are unbounded integers. ITK's `long` index width is not modelled.

## Findings

| source | as written | input that shows it | evidently intended | confidence | as-written member | corrected member |
|---|---|---|---|---|---|---|
| ExperimentalITK/BasicFilters/itkMinimalPathImageFunction.h:133-160 against 139-151 | the mask, inside-label, connectivity and spacing setters store the value without rebuilding the field, while `SetAnchorSeed` rebuilds; a query then reads the field built for the old configuration | 3×3 image, unit link costs, face connectedness, anchor set to (1,1), then `SetMaskImage` with a mask whose inside label 0 holds everywhere except (0,1), then a query at (0,1): a path starting at (0,1) comes back | the setters call `Modified()`, which in ITK marks results computed from the old configuration out of date; read as intent, the field is rebuilt before the next query, so (0,1) fails as unreachable | low — not executed; depends on the assumed no-rebuild `EvaluateAtIndex`, whose body is not in the header | StaleQuery.StaleMaskQuery | Livewire.MinimalPathImageFunction.EvaluateFresh, StaleQuery.FreshMaskQuery |
