/** The direction field built by the live-wire search and the path
    reconstruction that reads it: each visited cell stores the offset from its
    predecessor on a cheapest route to the anchor, and a query walks those
    offsets back, `current := current - offset`, until it reaches the anchor. */
module Paths {
  import opened Wrappers
  import opened Grid
  import opened Topology

  /** Everything the search reads from its configuration: the image region,
      the optional mask and its inside label, the connectivity and spacing
      flags, and the live-wire link cost between two adjacent cells (given the
      spacing flag). The cost is computed from the image gradient in the
      original and is kept abstract here. */
  datatype SearchSpace = SearchSpace(
    region: Region,
    mask: Option<Mask>,
    insideLabel: int,
    faceConnected: bool,
    useImageSpacing: bool,
    linkCost: (bool, Index, Index) -> nat)
  {
    predicate WellFormed() { region.WellFormed() }
  }

  /** The cells the search may enter: inside the image and inside the mask. */
  predicate Eligible(s: SearchSpace, c: Index) {
    InRegion(s.region, c) && InsideMask(s.mask, s.insideLabel, c)
  }

  /** The cost of the link from `a` to its neighbour `b`. */
  function Cost(s: SearchSpace, a: Index, b: Index): nat {
    s.linkCost(s.useImageSpacing, a, b)
  }

  /** `b` is a neighbour of `a` that the search relaxes from `a`. */
  predicate Step(s: SearchSpace, a: Index, b: Index) {
    Eligible(s, a) && Eligible(s, b) && IsNeighbourOffset(s.region.Dimension(), s.faceConnected, Sub(b, a))
  }

  /** The result of one search: the anchor, the offset stored at every
      visited cell other than the anchor, and the cumulative cost of every
      visited cell. The visited cells are the keys of `cost`. */
  datatype DirectionField = DirectionField(anchor: Index, offsets: map<Index, Offset>, cost: map<Index, nat>)

  datatype QueryError = NoInputImage | OutOfBounds | InvalidAnchor | UnreachableQuery

  /** Follows the stored offsets from `c` towards the anchor, taking at most
      `fuel` steps; the result lists `c` first and the anchor last. */
  function Trace(f: DirectionField, c: Index, fuel: nat): (r: Option<seq<Index>>)
    ensures r.Some? ==> |r.value| >= 1 && r.value[0] == c && r.value[|r.value| - 1] == f.anchor
    decreases fuel
  {
    if c == f.anchor then Some([c])
    else if c !in f.offsets || fuel == 0 || |f.offsets[c]| != |c| then None
    else
      match Trace(f, Sub(c, f.offsets[c]), fuel - 1)
      case None => None
      case Some(rest) => Some([c] + rest)
  }

  /** The path from query cell `q` back to the anchor, or UnreachableQuery
      when the search never visited `q`. The walk is given one step per
      visited cell, which `ReconstructShortest` shows is always enough. */
  function Reconstruct(f: DirectionField, q: Index): (r: Result<seq<Index>, QueryError>)
    ensures r.Success? ==> q in f.cost && |r.value| >= 1 && r.value[0] == q && r.value[|r.value| - 1] == f.anchor
    ensures r.Failure? ==> r.error == UnreachableQuery
  {
    if q !in f.cost then Failure(UnreachableQuery)
    else
      match Trace(f, q, |f.cost|)
      case Some(p) => Success(p)
      case None => Failure(UnreachableQuery)
  }

  /** The anchor is visited at cost 0 and has no predecessor; every other
      visited cell has one. */
  ghost predicate Rooted(f: DirectionField) {
    && f.anchor in f.cost
    && f.cost[f.anchor] == 0
    && f.offsets.Keys == f.cost.Keys - {f.anchor}
  }

  /** The search never visits a cell outside the image or the mask. */
  ghost predicate WithinMask(s: SearchSpace, f: DirectionField) {
    forall c :: c in f.cost ==> Eligible(s, c)
  }

  /** Every stored offset is a neighbourhood offset leading back to a visited
      predecessor, and the cell's cost is the predecessor's plus the link. */
  ghost predicate Consistent(s: SearchSpace, f: DirectionField) {
    forall c :: c in f.offsets ==>
      && c in f.cost
      && |f.offsets[c]| == |c|
      && IsNeighbourOffset(s.region.Dimension(), s.faceConnected, f.offsets[c])
      && Sub(c, f.offsets[c]) in f.cost
      && f.cost[c] == f.cost[Sub(c, f.offsets[c])] + Cost(s, Sub(c, f.offsets[c]), c)
  }

  /** Following the offsets from any visited cell reaches the anchor within
      as many steps as there are visited cells. */
  ghost predicate Grounded(f: DirectionField) {
    forall c :: c in f.cost ==> Trace(f, c, |f.cost|).Some?
  }

  /** No link out of a visited cell could lower its neighbour's cost: the
      neighbour is visited and costs at most the cell's cost plus the link. */
  ghost predicate Relaxed(s: SearchSpace, f: DirectionField) {
    forall a, b {:trigger Step(s, a, b)} :: a in f.cost && Step(s, a, b) ==> b in f.cost && f.cost[b] <= f.cost[a] + Cost(s, a, b)
  }

  /** What a completed search guarantees about its field. */
  ghost predicate ShortestPathField(s: SearchSpace, f: DirectionField) {
    Rooted(f) && WithinMask(s, f) && Consistent(s, f) && Grounded(f) && Relaxed(s, f)
  }

  /** A route read from its first cell back to its last: every cell is
      eligible and each cell is reached from the next one by one step. */
  ghost predicate IsRoute(s: SearchSpace, r: seq<Index>) {
    && |r| >= 1
    && (forall i :: 0 <= i < |r| ==> Eligible(s, r[i]))
    && (forall i :: 0 <= i < |r| - 1 ==> Step(s, r[i + 1], r[i]))
  }

  /** The summed link cost of a route, each link taken from the later cell
      towards the earlier one (the direction in which the search relaxed it). */
  ghost function RouteCost(s: SearchSpace, r: seq<Index>): nat
  {
    if |r| <= 1 then 0 else Cost(s, r[1], r[0]) + RouteCost(s, r[1..])
  }

  /** Some route leads from `q` to the anchor. */
  ghost predicate Reachable(s: SearchSpace, q: Index, anchor: Index) {
    exists r :: IsRoute(s, r) && r[0] == q && r[|r| - 1] == anchor
  }

  /** `p` walks from its first cell to the anchor by the stored offsets:
      each cell before the last is a non-anchor cell with an offset, and the
      next cell is that cell minus its offset. */
  ghost predicate OffsetChain(f: DirectionField, p: seq<Index>) {
    && |p| >= 1
    && p[|p| - 1] == f.anchor
    && forall i :: 0 <= i < |p| - 1 ==>
         (p[i] != f.anchor && p[i] in f.offsets && |f.offsets[p[i]]| == |p[i]|
          && p[i + 1] == Sub(p[i], f.offsets[p[i]]))
  }

  /** Following the offsets from `c` yields a chain that starts at `c`. */
  lemma {:induction false} TraceIsChain(f: DirectionField, c: Index, fuel: nat)
    requires Trace(f, c, fuel).Some?
    ensures var p := Trace(f, c, fuel).value;
      p[0] == c && |p| <= fuel + 1 && OffsetChain(f, p)
    decreases fuel
  {
    if c != f.anchor {
      var b := Sub(c, f.offsets[c]);
      TraceIsChain(f, b, fuel - 1);
      var rest := Trace(f, b, fuel - 1).value;
      var p := [c] + rest;
      assert Trace(f, c, fuel).value == p;
      forall i | 1 <= i < |p| - 1
        ensures p[i] != f.anchor && p[i] in f.offsets && |f.offsets[p[i]]| == |p[i]|
        ensures p[i + 1] == Sub(p[i], f.offsets[p[i]])
      {
        assert p[i] == rest[i - 1] && p[i + 1] == rest[i];
      }
    }
  }

  /** Dropping the first cell of a chain leaves a chain. */
  lemma ChainTail(f: DirectionField, p: seq<Index>)
    requires OffsetChain(f, p) && |p| > 1
    ensures OffsetChain(f, p[1..])
  {
    var rest := p[1..];
    forall i | 0 <= i < |rest| - 1
      ensures rest[i] != f.anchor && rest[i] in f.offsets && |f.offsets[rest[i]]| == |rest[i]|
      ensures rest[i + 1] == Sub(rest[i], f.offsets[rest[i]])
    {
      assert rest[i] == p[i + 1] && rest[i + 1] == p[i + 2];
    }
  }

  /** The first link of a chain in a consistent field is a step from a
      visited predecessor whose cost plus the link is the first cell's cost. */
  lemma ChainHead(s: SearchSpace, f: DirectionField, p: seq<Index>)
    requires WithinMask(s, f) && Consistent(s, f)
    requires OffsetChain(f, p) && |p| > 1
    ensures p[0] in f.cost && p[1] in f.cost
    ensures Step(s, p[1], p[0])
    ensures f.cost[p[0]] == f.cost[p[1]] + Cost(s, p[1], p[0])
  {
    AddSub(p[0], f.offsets[p[0]]);
  }

  /** A route extended at the front by one step is a route. */
  lemma RouteCons(s: SearchSpace, p: seq<Index>)
    requires |p| > 1 && IsRoute(s, p[1..]) && Eligible(s, p[0]) && Step(s, p[1], p[0])
    ensures IsRoute(s, p)
  {
    var rest := p[1..];
    forall i | 0 <= i < |p| ensures Eligible(s, p[i]) {
      if i > 0 { assert p[i] == rest[i - 1]; }
    }
    forall i | 0 <= i < |p| - 1 ensures Step(s, p[i + 1], p[i]) {
      if i > 0 { assert p[i] == rest[i - 1] && p[i + 1] == rest[i]; }
    }
  }

  /** A chain of stored offsets in a consistent field runs through visited
      cells, is a route, and costs exactly its first cell's recorded cost. */
  lemma {:induction false} ChainIsRoute(s: SearchSpace, f: DirectionField, p: seq<Index>)
    requires Rooted(f) && WithinMask(s, f) && Consistent(s, f)
    requires OffsetChain(f, p)
    ensures IsRoute(s, p)
    ensures RouteCost(s, p) == f.cost[p[0]]
    decreases |p|
  {
    if |p| > 1 {
      var rest := p[1..];
      ChainTail(f, p);
      ChainIsRoute(s, f, rest);
      ChainHead(s, f, p);
      RouteCons(s, p);
    }
  }

  /** Under a rank that strictly decreases from every cell to its
      predecessor, following the offsets from a visited cell reaches the
      anchor within rank-many steps. */
  lemma {:induction false} TraceTerminates(f: DirectionField, rank: map<Index, nat>, c: Index, fuel: nat)
    requires Rooted(f)
    requires rank.Keys == f.cost.Keys
    requires forall x :: x in f.offsets ==>
      |f.offsets[x]| == |x| && Sub(x, f.offsets[x]) in f.cost && rank[Sub(x, f.offsets[x])] < rank[x]
    requires c in f.cost && rank[c] <= fuel
    ensures Trace(f, c, fuel).Some?
    decreases fuel
  {
    if c != f.anchor {
      TraceTerminates(f, rank, Sub(c, f.offsets[c]), fuel - 1);
    }
  }

  /** Every route to the anchor costs at least the recorded cost of its first
      cell, and that first cell was visited. */
  lemma {:induction false} RouteLowerBound(s: SearchSpace, f: DirectionField, r: seq<Index>)
    requires Rooted(f) && Relaxed(s, f)
    requires IsRoute(s, r) && r[|r| - 1] == f.anchor
    ensures r[0] in f.cost && f.cost[r[0]] <= RouteCost(s, r)
    decreases |r|
  {
    if |r| > 1 {
      var r' := r[1..];
      assert IsRoute(s, r') by {
        assert forall i :: 0 <= i < |r'| ==> r'[i] == r[i + 1];
      }
      RouteLowerBound(s, f, r');
      assert Step(s, r[1], r[0]);
    }
  }

  /** The path reconstructed for a visited cell starts at it, ends at the
      anchor, follows the stored offsets, is a route, costs the recorded
      cost, and no route from the cell to the anchor is cheaper. */
  lemma ReconstructVisited(s: SearchSpace, f: DirectionField, q: Index)
    requires ShortestPathField(s, f)
    requires q in f.cost
    ensures Reconstruct(f, q).Success?
    ensures var p := Reconstruct(f, q).value;
      && p[0] == q
      && p[|p| - 1] == f.anchor
      && (forall i :: 0 <= i < |p| - 1 ==>
            (p[i] in f.offsets && |f.offsets[p[i]]| == |p[i]| && p[i + 1] == Sub(p[i], f.offsets[p[i]])))
      && IsRoute(s, p)
      && RouteCost(s, p) == f.cost[q]
      && forall r :: IsRoute(s, r) && r[0] == q && r[|r| - 1] == f.anchor ==> RouteCost(s, p) <= RouteCost(s, r)
  {
    TraceIsChain(f, q, |f.cost|);
    ChainIsRoute(s, f, Trace(f, q, |f.cost|).value);
    forall r | IsRoute(s, r) && r[0] == q && r[|r| - 1] == f.anchor
      ensures f.cost[q] <= RouteCost(s, r)
    {
      RouteLowerBound(s, f, r);
    }
  }

  /** The main guarantee of a completed search: a query succeeds exactly for
      the visited cells, which are exactly the cells some route links to the
      anchor; the path it returns starts at the query, ends at the anchor,
      follows the stored offsets, and costs no more than any other route from
      the query to the anchor. A cell outside the image or the mask is never
      on a path and its query fails. */
  lemma ReconstructShortest(s: SearchSpace, f: DirectionField, q: Index)
    requires ShortestPathField(s, f)
    ensures Reconstruct(f, q).Success? <==> q in f.cost
    ensures q in f.cost <==> Reachable(s, q, f.anchor)
    ensures !Eligible(s, q) ==> Reconstruct(f, q) == Failure(UnreachableQuery)
    ensures Reconstruct(f, q).Success? ==>
      var p := Reconstruct(f, q).value;
      && p[0] == q
      && p[|p| - 1] == f.anchor
      && (forall i :: 0 <= i < |p| - 1 ==>
            (p[i] in f.offsets && |f.offsets[p[i]]| == |p[i]| && p[i + 1] == Sub(p[i], f.offsets[p[i]])))
      && IsRoute(s, p)
      && RouteCost(s, p) == f.cost[q]
      && forall r :: IsRoute(s, r) && r[0] == q && r[|r| - 1] == f.anchor ==> RouteCost(s, p) <= RouteCost(s, r)
  {
    if q in f.cost {
      ReconstructVisited(s, f, q);
      var p := Reconstruct(f, q).value;
      assert IsRoute(s, p) && p[0] == q && p[|p| - 1] == f.anchor;
    }
    if Reachable(s, q, f.anchor) {
      var r :| IsRoute(s, r) && r[0] == q && r[|r| - 1] == f.anchor;
      RouteLowerBound(s, f, r);
    }
  }

  /** The anchor's own query yields the one-cell path [anchor]. */
  lemma {:induction false} AnchorPath(s: SearchSpace, f: DirectionField)
    requires ShortestPathField(s, f)
    ensures Reconstruct(f, f.anchor) == Success([f.anchor])
  {
  }
}
