/** The state the path search keeps, and what it promises between two
    pops of its queue: the shape of the partial field, the faithfulness of
    the queue, the finalization order, and which links are relaxed. */
module SearchState {
  import opened Grid
  import opened Topology
  import opened Paths
  import opened MinPriorityQueue

  /** The cells the search may ever finalize (a finite set). */
  ghost function EligibleCells(s: SearchSpace): set<Index>
    requires s.WellFormed()
  {
    set c | c in Cells(s.region) && Eligible(s, c)
  }

  /** `nbrs` enumerates exactly the neighbourhood offsets of the search. */
  ghost predicate Neighbourhood(s: SearchSpace, nbrs: seq<Offset>) {
    forall o :: o in nbrs <==> IsNeighbourOffset(s.region.Dimension(), s.faceConnected, o)
  }

  /** The shape of the partial field: the anchor is reached at cost 0 and has
      no offset, every other reached cell has one, only eligible cells are
      reached, and each stored offset leads back to a finalized predecessor
      whose cost plus the link is the cell's cost. */
  ghost predicate Shape(s: SearchSpace, anchor: Index, dist: map<Index, nat>, offs: map<Index, Offset>,
                        done: set<Index>)
  {
    && s.WellFormed()
    && anchor in dist && dist[anchor] == 0
    && offs.Keys == dist.Keys - {anchor}
    && done <= dist.Keys
    && (forall c :: c in dist ==> Eligible(s, c))
    && (forall c :: c in offs ==>
          && |offs[c]| == |c|
          && IsNeighbourOffset(s.region.Dimension(), s.faceConnected, offs[c])
          && Sub(c, offs[c]) in done
          && dist[c] == dist[Sub(c, offs[c])] + Cost(s, Sub(c, offs[c]), c))
  }

  /** The queue is faithful to the costs: every reached but unfinalized cell
      has an entry at its best cost, no entry undercuts its cell's cost, and no
      finalized cost exceeds a queued priority. */
  ghost predicate QueueFaithful(dist: map<Index, nat>, done: set<Index>, queue: seq<Entry>)
  {
    && (forall c :: c in dist && c !in done ==> Entry(dist[c], c) in queue)
    && (forall x :: x in queue ==> x.index in dist && dist[x.index] <= x.priority)
    && (forall c, x :: c in done && x in queue ==> c in dist && dist[c] <= x.priority)
  }

  /** `order` lists the finalized cells in the order they were finalized,
      `rank` gives each one's position; costs never decrease along `order`,
      and a finalized cell's predecessor was finalized before it. */
  ghost predicate Ordered(dist: map<Index, nat>, offs: map<Index, Offset>, done: set<Index>,
                          rank: map<Index, nat>, order: seq<Index>)
  {
    && done <= dist.Keys
    && rank.Keys == done
    && |order| == |done|
    && (forall i :: 0 <= i < |order| ==> order[i] in done && rank[order[i]] == i)
    && (forall c :: c in done ==> rank[c] < |order| && order[rank[c]] == c)
    && (forall i, j :: 0 <= i < j < |order| ==> order[i] in dist && order[j] in dist && dist[order[i]] <= dist[order[j]])
    && (forall c :: c in offs && c in done ==>
          |offs[c]| == |c| && Sub(c, offs[c]) in rank && rank[Sub(c, offs[c])] < rank[c])
  }

  /** The state the search keeps between two pops of the queue. */
  ghost predicate Invariant(s: SearchSpace, anchor: Index, dist: map<Index, nat>, offs: map<Index, Offset>,
                            done: set<Index>, queue: seq<Entry>, rank: map<Index, nat>, order: seq<Index>)
  {
    Shape(s, anchor, dist, offs, done) && QueueFaithful(dist, done, queue) && Ordered(dist, offs, done, rank, order)
  }

  /** Every link out of a cell of `from` has been relaxed. */
  ghost predicate RelaxedFrom(s: SearchSpace, dist: map<Index, nat>, from: set<Index>)
  {
    forall a, b {:trigger Step(s, a, b)} :: a in from && a in dist && Step(s, a, b) ==> b in dist && dist[b] <= dist[a] + Cost(s, a, b)
  }

  /** The links from `p` along the first `k` offsets of `nbrs` are relaxed. */
  ghost predicate RelaxedAlong(s: SearchSpace, nbrs: seq<Offset>, p: Index, pCost: nat, k: nat, dist: map<Index, nat>)
    requires k <= |nbrs|
  {
    forall b {:trigger Step(s, p, b)} :: Step(s, p, b) && Sub(b, p) in nbrs[..k] ==> b in dist && dist[b] <= pCost + Cost(s, p, b)
  }

  /** `p` is the latest finalized cell, at cost `pCost`; the links out of the
      earlier finalized cells and those out of `p` along the first `k`
      offsets are relaxed. */
  ghost predicate RelaxingFrom(s: SearchSpace, nbrs: seq<Offset>, p: Index, pCost: nat, k: nat,
                               dist: map<Index, nat>, done: set<Index>)
  {
    && p in done && p in dist && dist[p] == pCost
    && k <= |nbrs|
    && RelaxedFrom(s, dist, done - {p})
    && (forall c :: c in done ==> c in dist && dist[c] <= pCost)
    && RelaxedAlong(s, nbrs, p, pCost, k, dist)
  }

  /** The finalization order: every visited cell appears once, costs never
      decrease along it, and each cell's predecessor comes before it. */
  ghost predicate FinalizedInOrder(f: DirectionField, order: seq<Index>)
  {
    && |order| == |f.cost|
    && (forall i :: 0 <= i < |order| ==> order[i] in f.cost)
    && (forall c :: c in f.cost ==> c in order)
    && (forall i, j :: 0 <= i < j < |order| ==> order[i] != order[j] && f.cost[order[i]] <= f.cost[order[j]])
    && (forall i, j ::
          (0 <= i < |order| && 0 <= j < |order| && order[i] in f.offsets
           && |f.offsets[order[i]]| == |order[i]| && order[j] == Sub(order[i], f.offsets[order[i]])) ==> j < i)
  }
}
