/** The live-wire image function: an object holding an input image, an
    optional mask with its inside label, an anchor seed and two flags, and the
    direction field last built from them. Setting the anchor (or the image)
    rebuilds the field; a query at an index, a continuous index or a physical
    point reads the path to the anchor off that field. */
module Livewire {
  import opened Wrappers
  import opened Grid
  import opened Topology
  import opened Paths
  import Search

  /** What the object reads from its input image: the buffered region, the
      physical origin and spacing of the pixel grid, and the live-wire link
      cost derived from the image (kept abstract, as in `SearchSpace`). */
  datatype InputImage = InputImage(
    region: Region,
    origin: seq<real>,
    spacing: seq<real>,
    linkCost: (bool, Index, Index) -> nat)
  {
    predicate WellFormed(dim: nat) {
      && region.WellFormed() && region.Dimension() == dim
      && |origin| == dim && |spacing| == dim
      && forall d :: 0 <= d < dim ==> spacing[d] > 0.0
    }
  }

  /** Rounds every component of a continuous index half-up to the nearest
      integer: the result is the unique index within half a pixel. */
  function NearestIndex(ci: seq<real>): (r: Index)
    ensures |r| == |ci|
    ensures forall d :: 0 <= d < |ci| ==> r[d] as real - 0.5 <= ci[d] < r[d] as real + 0.5
  {
    seq(|ci|, d requires 0 <= d < |ci| => (ci[d] + 0.5).Floor)
  }

  /** Any index within half a pixel (half-open above) of `ci` is its
      nearest index. */
  lemma NearestIndexUnique(ci: seq<real>, i: Index)
    requires |i| == |ci|
    requires forall d :: 0 <= d < |ci| ==> i[d] as real - 0.5 <= ci[d] < i[d] as real + 0.5
    ensures NearestIndex(ci) == i
  {
    var r := NearestIndex(ci);
    forall d | 0 <= d < |ci|
      ensures r[d] == i[d]
    {
      assert r[d] as real - 0.5 <= ci[d] < r[d] as real + 0.5;
      assert r[d] - i[d] < 1 && i[d] - r[d] < 1;
    }
  }

  /** The physical point of a continuous index: origin plus index times
      spacing, axis by axis. */
  function ContinuousIndexToPoint(img: InputImage, ci: seq<real>): (p: seq<real>)
    requires img.WellFormed(|ci|)
    ensures |p| == |ci|
    ensures forall d :: 0 <= d < |ci| ==> p[d] == img.origin[d] + ci[d] * img.spacing[d]
  {
    seq(|ci|, d requires 0 <= d < |ci| => img.origin[d] + ci[d] * img.spacing[d])
  }

  /** The continuous index of a physical point: the inverse of
      `ContinuousIndexToPoint` (see `PointRoundTrip`). */
  function PointToContinuousIndex(img: InputImage, p: seq<real>): (ci: seq<real>)
    requires img.WellFormed(|p|)
    ensures |ci| == |p|
  {
    seq(|p|, d requires 0 <= d < |p| => (p[d] - img.origin[d]) / img.spacing[d])
  }

  /** Converting a continuous index to a point and back gives it back. */
  lemma PointRoundTrip(img: InputImage, ci: seq<real>)
    requires img.WellFormed(|ci|)
    ensures PointToContinuousIndex(img, ContinuousIndexToPoint(img, ci)) == ci
  {
    var p := ContinuousIndexToPoint(img, ci);
    var back := PointToContinuousIndex(img, p);
    forall d | 0 <= d < |ci|
      ensures back[d] == ci[d]
    {
      assert back[d] == (p[d] - img.origin[d]) / img.spacing[d];
      assert p[d] - img.origin[d] == ci[d] * img.spacing[d];
    }
  }

  /** The continuous index of an integer index. */
  function AsContinuous(i: Index): (ci: seq<real>)
    ensures |ci| == |i| && forall d :: 0 <= d < |i| ==> ci[d] == i[d] as real
  {
    seq(|i|, d requires 0 <= d < |i| => i[d] as real)
  }

  /** The user-visible configuration of the object. */
  datatype Configuration = Configuration(
    inputImage: Option<InputImage>,
    maskImage: Option<Mask>,
    insideMaskPixelValue: int,
    anchorSeed: Index,
    useFaceConnectedness: bool,
    useImageSpacing: bool)

  /** The direction field the object holds and, as ghost bookkeeping, the
      search space and anchor it was built for and how many builds ran. */
  datatype FieldCache = FieldCache(
    pathDirection: Option<DirectionField>,
    built: bool,
    builtSpace: SearchSpace,
    builtAnchor: Index,
    generations: nat)

  /** What a query at `q` must answer for the search space `s` and the
      anchor `anchor`: OutOfBounds outside the image; inside it, InvalidAnchor
      iff the anchor is outside the image or the mask, UnreachableQuery iff no
      route within the mask joins `q` to the anchor (so always for a cell
      outside the mask), and otherwise a cheapest such route, from `q` to the
      anchor. */
  ghost predicate CorrectAnswer(s: SearchSpace, anchor: Index, q: Index, r: Result<seq<Index>, QueryError>)
  {
    && (!InRegion(s.region, q) ==> r == Failure(OutOfBounds))
    && (InRegion(s.region, q) ==> (r == Failure(InvalidAnchor) <==> !Eligible(s, anchor)))
    && (InRegion(s.region, q) && Eligible(s, anchor) ==>
          (r.Success? <==> Reachable(s, q, anchor)) && (r.Failure? ==> r.error == UnreachableQuery))
    && (InRegion(s.region, q) && Eligible(s, anchor) && !InsideMask(s.mask, s.insideLabel, q) ==>
          r == Failure(UnreachableQuery))
    && (r.Success? ==>
          && IsRoute(s, r.value)
          && r.value[0] == q
          && r.value[|r.value| - 1] == anchor
          && forall rt :: IsRoute(s, rt) && rt[0] == q && rt[|rt| - 1] == anchor ==>
               RouteCost(s, r.value) <= RouteCost(s, rt))
  }

  class MinimalPathImageFunction {
    /** The image dimension, a template parameter of the original. */
    const dim: nat

    var inputImage: Option<InputImage>
    var maskImage: Option<Mask>
    var insideMaskPixelValue: int
    var anchorSeed: Index
    var useFaceConnectedness: bool
    var useImageSpacing: bool
    /** The direction field of the last build; None before the first build
        and when the anchor of the last build was not an eligible cell. */
    var pathDirection: Option<DirectionField>
    /** The number of calls of Modified(). */
    var mTime: nat
    /** Set when the configuration changed after the last build; cleared by
        a build. Only `EvaluateFresh` reads it. */
    var fieldStale: bool

    ghost var built: bool
    ghost var builtSpace: SearchSpace
    ghost var builtAnchor: Index
    ghost var generations: nat

    /** The anchor and the image have the object's dimension. */
    ghost predicate Configured()
      reads this
    {
      && |anchorSeed| == dim
      && (inputImage.Some? ==> inputImage.value.WellFormed(dim))
    }

    /** The stored field is exactly what a search over `builtSpace` from
        `builtAnchor` yields: a shortest-path field rooted at that anchor,
        or nothing when that anchor could not be searched from. */
    ghost predicate Valid()
      reads this
    {
      && Configured()
      && (built ==>
            && (pathDirection.None? <==> !Eligible(builtSpace, builtAnchor))
            && (pathDirection.Some? ==>
                  pathDirection.value.anchor == builtAnchor && ShortestPathField(builtSpace, pathDirection.value)))
      && (!built ==> pathDirection.None?)
      && (inputImage.Some? ==> built)
      && (inputImage.Some? && !fieldStale ==> UpToDate())
    }

    function Settings(): Configuration
      reads this
    {
      Configuration(inputImage, maskImage, insideMaskPixelValue, anchorSeed, useFaceConnectedness, useImageSpacing)
    }

    ghost function Cache(): FieldCache
      reads this
    {
      FieldCache(pathDirection, built, builtSpace, builtAnchor, generations)
    }

    /** The search space of the current configuration. */
    function Space(): SearchSpace
      reads this
      requires inputImage.Some?
    {
      SearchSpace(inputImage.value.region, maskImage, insideMaskPixelValue,
                  useFaceConnectedness, useImageSpacing, inputImage.value.linkCost)
    }

    /** The stored field was built for the current image, mask, label,
        flags and anchor. */
    ghost predicate UpToDate()
      reads this
    {
      built && inputImage.Some? && builtSpace == Space() && builtAnchor == anchorSeed
    }

    /** A new object: no image, no mask, inside label 1, anchor at the
        origin index, full connectedness, image spacing used, no field. */
    constructor(dim: nat)
      ensures this.dim == dim && Valid()
      ensures Settings() == Configuration(None, None, 1, Zero(dim), false, true)
      ensures pathDirection.None? && !built && generations == 0 && mTime == 0 && fieldStale
    {
      this.dim := dim;
      inputImage := None;
      maskImage := None;
      insideMaskPixelValue := 1;
      anchorSeed := Zero(dim);
      useFaceConnectedness := false;
      useImageSpacing := true;
      pathDirection := None;
      mTime := 0;
      fieldStale := true;
      built := false;
      builtSpace := SearchSpace(Region([], []), None, 1, false, true, (u: bool, a: Index, b: Index) => 0);
      builtAnchor := [];
      generations := 0;
    }

    /** Rebuilds the direction field from the current configuration. */
    method GeneratePathDirectionImage()
      requires Configured() && inputImage.Some?
      modifies this
      ensures Valid() && UpToDate() && !fieldStale
      ensures Settings() == old(Settings()) && mTime == old(mTime)
      ensures generations == old(generations) + 1
    {
      var s := Space();
      var r;
      ghost var order;
      r, order := Search.GeneratePathDirections(s, anchorSeed);
      pathDirection := r;
      built := true;
      builtSpace := s;
      builtAnchor := anchorSeed;
      generations := generations + 1;
      fieldStale := false;
    }

    /** Stores the image, rebuilds the field when there is an image, and
        marks the object modified. */
    method SetInputImage(img: Option<InputImage>)
      requires Valid()
      requires img.Some? ==> img.value.WellFormed(dim)
      modifies this
      ensures Valid()
      ensures Settings() == old(Settings()).(inputImage := img)
      ensures mTime == old(mTime) + 1
      ensures img.Some? ==> UpToDate() && !fieldStale && generations == old(generations) + 1
      ensures img.None? ==> Cache() == old(Cache()) && fieldStale
    {
      fieldStale := true;
      inputImage := img;
      if img.Some? {
        GeneratePathDirectionImage();
      }
      mTime := mTime + 1;
    }

    /** Changing the anchor stores it, rebuilds the field when an image is
        present and marks the object modified; setting the current anchor
        again changes nothing. */
    method SetAnchorSeed(index: Index)
      requires Valid() && |index| == dim
      modifies this
      ensures Valid()
      ensures old(anchorSeed) == index ==> unchanged(this)
      ensures old(anchorSeed) != index ==>
        && Settings() == old(Settings()).(anchorSeed := index)
        && mTime == old(mTime) + 1
        && generations == old(generations) + (if old(inputImage).Some? then 1 else 0)
        && (inputImage.Some? ==> UpToDate() && !fieldStale)
        && (inputImage.None? ==> Cache() == old(Cache()) && fieldStale)
    {
      if anchorSeed != index {
        fieldStale := true;
        anchorSeed := index;
        if inputImage.Some? {
          GeneratePathDirectionImage();
        }
        mTime := mTime + 1;
      }
    }

    /** Stores a different mask and marks the object modified; the field is
        not rebuilt, so a field that was up to date no longer is. */
    method SetMaskImage(mask: Option<Mask>)
      requires Valid()
      modifies this
      ensures Valid()
      ensures old(maskImage) == mask ==> unchanged(this)
      ensures old(maskImage) != mask ==>
        && Settings() == old(Settings()).(maskImage := mask)
        && mTime == old(mTime) + 1
        && Cache() == old(Cache()) && fieldStale
        && (old(UpToDate()) ==> !UpToDate())
    {
      if maskImage != mask {
        maskImage := mask;
        mTime := mTime + 1;
        fieldStale := true;
      }
    }

    /** Stores a different inside label and marks the object modified,
        without rebuilding the field. */
    method SetInsideMaskPixelValue(value: int)
      requires Valid()
      modifies this
      ensures Valid()
      ensures old(insideMaskPixelValue) == value ==> unchanged(this)
      ensures old(insideMaskPixelValue) != value ==>
        && Settings() == old(Settings()).(insideMaskPixelValue := value)
        && mTime == old(mTime) + 1
        && Cache() == old(Cache()) && fieldStale
        && (old(UpToDate()) ==> !UpToDate())
    {
      if insideMaskPixelValue != value {
        insideMaskPixelValue := value;
        mTime := mTime + 1;
        fieldStale := true;
      }
    }

    /** Stores a different connectivity and marks the object modified,
        without rebuilding the field. */
    method SetUseFaceConnectedness(face: bool)
      requires Valid()
      modifies this
      ensures Valid()
      ensures old(useFaceConnectedness) == face ==> unchanged(this)
      ensures old(useFaceConnectedness) != face ==>
        && Settings() == old(Settings()).(useFaceConnectedness := face)
        && mTime == old(mTime) + 1
        && Cache() == old(Cache()) && fieldStale
        && (old(UpToDate()) ==> !UpToDate())
    {
      if useFaceConnectedness != face {
        useFaceConnectedness := face;
        mTime := mTime + 1;
        fieldStale := true;
      }
    }

    method UseFaceConnectednessOn()
      requires Valid()
      modifies this
      ensures Valid()
      ensures old(useFaceConnectedness) ==> unchanged(this)
      ensures !old(useFaceConnectedness) ==>
        Settings() == old(Settings()).(useFaceConnectedness := true) && mTime == old(mTime) + 1 && Cache() == old(Cache()) && fieldStale
    {
      SetUseFaceConnectedness(true);
    }

    method UseFaceConnectednessOff()
      requires Valid()
      modifies this
      ensures Valid()
      ensures !old(useFaceConnectedness) ==> unchanged(this)
      ensures old(useFaceConnectedness) ==>
        Settings() == old(Settings()).(useFaceConnectedness := false) && mTime == old(mTime) + 1 && Cache() == old(Cache()) && fieldStale
    {
      SetUseFaceConnectedness(false);
    }

    /** Stores a different spacing flag and marks the object modified,
        without rebuilding the field. */
    method SetUseImageSpacing(useSpacing: bool)
      requires Valid()
      modifies this
      ensures Valid()
      ensures old(useImageSpacing) == useSpacing ==> unchanged(this)
      ensures old(useImageSpacing) != useSpacing ==>
        && Settings() == old(Settings()).(useImageSpacing := useSpacing)
        && mTime == old(mTime) + 1
        && Cache() == old(Cache()) && fieldStale
        && (old(UpToDate()) ==> !UpToDate())
    {
      if useImageSpacing != useSpacing {
        useImageSpacing := useSpacing;
        mTime := mTime + 1;
        fieldStale := true;
      }
    }

    method UseImageSpacingOn()
      requires Valid()
      modifies this
      ensures Valid()
      ensures old(useImageSpacing) ==> unchanged(this)
      ensures !old(useImageSpacing) ==>
        Settings() == old(Settings()).(useImageSpacing := true) && mTime == old(mTime) + 1 && Cache() == old(Cache()) && fieldStale
    {
      SetUseImageSpacing(true);
    }

    method UseImageSpacingOff()
      requires Valid()
      modifies this
      ensures Valid()
      ensures !old(useImageSpacing) ==> unchanged(this)
      ensures old(useImageSpacing) ==>
        Settings() == old(Settings()).(useImageSpacing := false) && mTime == old(mTime) + 1 && Cache() == old(Cache()) && fieldStale
    {
      SetUseImageSpacing(false);
    }

    /** The path from `index` to the anchor read off the stored field:
        NoInputImage without an image, OutOfBounds outside the image's
        region, InvalidAnchor when the last build had no eligible anchor. */
    function EvaluateAtIndex(index: Index): (r: Result<seq<Index>, QueryError>)
      reads this
      ensures r == Failure(NoInputImage) <==> inputImage.None?
      ensures r == Failure(OutOfBounds) <==> inputImage.Some? && !InRegion(inputImage.value.region, index)
      ensures r == Failure(InvalidAnchor) <==>
        inputImage.Some? && InRegion(inputImage.value.region, index) && pathDirection.None?
    {
      if inputImage.None? then Failure(NoInputImage)
      else if !InRegion(inputImage.value.region, index) then Failure(OutOfBounds)
      else if pathDirection.None? then Failure(InvalidAnchor)
      else Reconstruct(pathDirection.value, index)
    }

    /** Evaluation at the nearest index of a continuous index. */
    function EvaluateAtContinuousIndex(ci: seq<real>): (r: Result<seq<Index>, QueryError>)
      reads this
      ensures r == Failure(NoInputImage) <==> inputImage.None?
      ensures inputImage.Some? ==> (r == Failure(OutOfBounds) <==> !InRegion(inputImage.value.region, NearestIndex(ci)))
    {
      EvaluateAtIndex(NearestIndex(ci))
    }

    /** Evaluation at the nearest index of a physical point. */
    function Evaluate(point: seq<real>): (r: Result<seq<Index>, QueryError>)
      reads this
      requires inputImage.Some? && inputImage.value.WellFormed(|point|)
      ensures r != Failure(NoInputImage)
      ensures r == Failure(OutOfBounds) <==>
        !InRegion(inputImage.value.region, NearestIndex(PointToContinuousIndex(inputImage.value, point)))
    {
      EvaluateAtContinuousIndex(PointToContinuousIndex(inputImage.value, point))
    }

    /** A continuous index evaluates like every index within half a pixel
        of it. */
    lemma EvaluateNear(ci: seq<real>, i: Index)
      requires |i| == |ci|
      requires forall d :: 0 <= d < |ci| ==> i[d] as real - 0.5 <= ci[d] < i[d] as real + 0.5
      ensures EvaluateAtContinuousIndex(ci) == EvaluateAtIndex(i)
    {
      NearestIndexUnique(ci, i);
    }

    /** A physical point evaluates like its continuous index, and a pixel's
        own position like its index. */
    lemma EvaluateAtPoint(ci: seq<real>)
      requires inputImage.Some? && inputImage.value.WellFormed(|ci|)
      ensures Evaluate(ContinuousIndexToPoint(inputImage.value, ci)) == EvaluateAtContinuousIndex(ci)
    {
      PointRoundTrip(inputImage.value, ci);
    }

    lemma EvaluateAtPixel(i: Index)
      requires inputImage.Some? && inputImage.value.WellFormed(|i|)
      ensures Evaluate(ContinuousIndexToPoint(inputImage.value, AsContinuous(i))) == EvaluateAtIndex(i)
    {
      EvaluateAtPoint(AsContinuous(i));
      EvaluateNear(AsContinuous(i), i);
    }

    /** With an up-to-date field, a query inside the image fails with
        InvalidAnchor iff the anchor is outside the image or the mask, fails
        with UnreachableQuery iff no route within the mask joins it to the
        anchor, and otherwise yields a cheapest such route, from the query
        to the anchor. Cells outside the mask are never on a path. */
    lemma EvaluateUpToDate(q: Index)
      requires Valid() && UpToDate()
      ensures CorrectAnswer(Space(), anchorSeed, q, EvaluateAtIndex(q))
    {
      if pathDirection.Some? {
        ReconstructShortest(Space(), pathDirection.value, q);
      }
    }

    /** The query with a rebuild before answering. Every setter that changes
        the configuration calls `Modified()`, which marks results derived from
        the old configuration out of date; here a field left stale by such a
        setter is rebuilt first, so the answer is the one for the current
        configuration. A field not marked stale since the last build is kept;
        changing a setting and restoring it still triggers one rebuild. After
        a query with an image the field is no longer stale, so the next query
        reuses it. */
    method EvaluateFresh(index: Index) returns (r: Result<seq<Index>, QueryError>)
      requires Valid()
      modifies this
      ensures Valid() && Settings() == old(Settings()) && mTime == old(mTime)
      ensures r == EvaluateAtIndex(index)
      ensures inputImage.None? ==> r == Failure(NoInputImage)
      ensures inputImage.Some? ==> UpToDate() && !fieldStale && CorrectAnswer(Space(), anchorSeed, index, r)
      ensures old(inputImage).None? || !old(fieldStale) ==> unchanged(this)
      ensures generations == old(generations) + (if old(inputImage).Some? && old(fieldStale) then 1 else 0)
    {
      if inputImage.Some? && fieldStale {
        GeneratePathDirectionImage();
      }
      r := EvaluateAtIndex(index);
      if inputImage.Some? {
        EvaluateUpToDate(index);
      }
    }

    /** With an up-to-date field and an eligible anchor, querying the anchor
        yields the one-cell path. */
    lemma EvaluateAnchor()
      requires Valid() && UpToDate() && Eligible(Space(), anchorSeed)
      ensures EvaluateAtIndex(anchorSeed) == Success([anchorSeed])
    {
      AnchorPath(Space(), pathDirection.value);
    }
  }
}
