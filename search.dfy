/** The path search behind GeneratePathDirectionImage: a single-source
    shortest-path search from the anchor seed, driven by a min-priority queue
    keyed by cumulative cost. Stale queue entries are tolerated and discarded
    when popped (lazy deletion); a popped cell is finalized and its eligible
    neighbours are relaxed, a strictly cheaper candidate replacing both the
    neighbour's cost and its stored offset. */
module Search {
  import opened Wrappers
  import opened Grid
  import opened Topology
  import opened Paths
  import opened MinPriorityQueue
  import opened SearchState

  /** Recording a strictly better cost for an unfinalized neighbour `n` of the
      finalized cell `p` keeps the shape. */
  lemma RelaxKeepsShape(s: SearchSpace, anchor: Index, dist: map<Index, nat>, offs: map<Index, Offset>,
                        done: set<Index>, p: Index, o: Offset, n: Index, cand: nat)
    requires Shape(s, anchor, dist, offs, done)
    requires p in done && IsNeighbourOffset(s.region.Dimension(), s.faceConnected, o) && |o| == |p|
    requires n == Add(p, o) && cand == dist[p] + Cost(s, p, n)
    requires Eligible(s, n) && n !in done && (n !in dist || cand < dist[n])
    ensures Shape(s, anchor, dist[n := cand], offs[n := o], done)
  {
    AddSub(p, o);
  }

  /** ... keeps the queue faithful, the new entry carrying the new cost. */
  lemma RelaxKeepsQueue(dist: map<Index, nat>, done: set<Index>, queue: seq<Entry>, p: Index, n: Index, cand: nat)
    requires QueueFaithful(dist, done, queue) && done <= dist.Keys
    requires p in done && n !in done && dist[p] <= cand
    requires forall c :: c in done ==> dist[c] <= dist[p]
    requires n !in dist || cand < dist[n]
    ensures QueueFaithful(dist[n := cand], done, queue + [Entry(cand, n)])
  {
  }

  /** ... and leaves the finalization order alone. */
  lemma RelaxKeepsOrder(dist: map<Index, nat>, offs: map<Index, Offset>, done: set<Index>,
                        rank: map<Index, nat>, order: seq<Index>, n: Index, cand: nat, o: Offset)
    requires Ordered(dist, offs, done, rank, order)
    requires n !in done
    ensures Ordered(dist[n := cand], offs[n := o], done, rank, order)
  {
  }

  /** Lowering (or first setting) the cost of a cell outside `from` keeps
      every link out of `from` relaxed. */
  lemma LowerKeepsRelaxed(s: SearchSpace, dist: map<Index, nat>, from: set<Index>, n: Index, cand: nat)
    requires RelaxedFrom(s, dist, from)
    requires n !in from && (n in dist ==> cand <= dist[n])
    ensures RelaxedFrom(s, dist[n := cand], from)
  {
  }

  /** After handling offset `k` (whose target now costs at most `pCost` plus
      the link, if it is a step from `p`), the links along the first `k + 1`
      offsets are relaxed. */
  lemma RelaxedAlongStep(s: SearchSpace, nbrs: seq<Offset>, p: Index, pCost: nat, k: nat,
                         dist: map<Index, nat>, dist': map<Index, nat>)
    requires k < |nbrs| && |nbrs[k]| == |p|
    requires RelaxedAlong(s, nbrs, p, pCost, k, dist)
    requires dist.Keys <= dist'.Keys && forall c :: c in dist ==> dist'[c] <= dist[c]
    requires Step(s, p, Add(p, nbrs[k])) ==> Add(p, nbrs[k]) in dist' && dist'[Add(p, nbrs[k])] <= pCost + Cost(s, p, Add(p, nbrs[k]))
    ensures RelaxedAlong(s, nbrs, p, pCost, k + 1, dist')
  {
    var o := nbrs[k];
    assert nbrs[..k + 1] == nbrs[..k] + [o];
    forall b | Step(s, p, b) && Sub(b, p) in nbrs[..k + 1]
      ensures b in dist' && dist'[b] <= pCost + Cost(s, p, b)
    {
      if Sub(b, p) == o {
        SubAdd(p, b);
      } else {
        assert Sub(b, p) in nbrs[..k];
      }
    }
  }

  /** Giving the unfinalized cell `n`, target of offset `k`, a cost no
      higher than before and at most `pCost` plus the link keeps
      `RelaxingFrom`, with one more offset done. */
  lemma LowerKeepsRelaxing(s: SearchSpace, nbrs: seq<Offset>, p: Index, pCost: nat, k: nat,
                           dist: map<Index, nat>, done: set<Index>, cand: nat)
    requires RelaxingFrom(s, nbrs, p, pCost, k, dist, done)
    requires k < |nbrs| && |nbrs[k]| == |p| && Add(p, nbrs[k]) !in done
    requires Add(p, nbrs[k]) in dist ==> cand <= dist[Add(p, nbrs[k])]
    requires cand <= pCost + Cost(s, p, Add(p, nbrs[k]))
    ensures RelaxingFrom(s, nbrs, p, pCost, k + 1, dist[Add(p, nbrs[k]) := cand], done)
  {
    var n := Add(p, nbrs[k]);
    LowerKeepsRelaxed(s, dist, done - {p}, n, cand);
    RelaxedAlongStep(s, nbrs, p, pCost, k, dist, dist[n := cand]);
  }

  /** Recording a strictly better cost for an unfinalized neighbour `n` of
      the latest finalized cell `p` keeps the invariant. */
  lemma RelaxKeepsInvariant(s: SearchSpace, anchor: Index, dist: map<Index, nat>, offs: map<Index, Offset>,
                            done: set<Index>, queue: seq<Entry>, rank: map<Index, nat>, order: seq<Index>,
                            p: Index, o: Offset, n: Index, cand: nat)
    requires Invariant(s, anchor, dist, offs, done, queue, rank, order)
    requires p in done && (forall c :: c in done ==> dist[c] <= dist[p])
    requires IsNeighbourOffset(s.region.Dimension(), s.faceConnected, o) && |o| == |p|
    requires n == Add(p, o) && cand == dist[p] + Cost(s, p, n)
    requires Eligible(s, n) && n !in done && (n !in dist || cand < dist[n])
    ensures Invariant(s, anchor, dist[n := cand], offs[n := o], done, queue + [Entry(cand, n)], rank, order)
  {
    RelaxKeepsShape(s, anchor, dist, offs, done, p, o, n, cand);
    RelaxKeepsQueue(dist, done, queue, p, n, cand);
    RelaxKeepsOrder(dist, offs, done, rank, order, n, cand, o);
  }

  /** Leaving the target of offset `k` alone (not eligible, finalized, or
      not improved) keeps `RelaxingFrom`, with one more offset done. */
  lemma RelaxSkip(s: SearchSpace, nbrs: seq<Offset>, p: Index, pCost: nat, k: nat,
                  dist: map<Index, nat>, done: set<Index>)
    requires RelaxingFrom(s, nbrs, p, pCost, k, dist, done)
    requires k < |nbrs| && |nbrs[k]| == |p|
    requires !(Eligible(s, Add(p, nbrs[k])) && Add(p, nbrs[k]) !in done
               && (Add(p, nbrs[k]) !in dist || pCost + Cost(s, p, Add(p, nbrs[k])) < dist[Add(p, nbrs[k])]))
    ensures RelaxingFrom(s, nbrs, p, pCost, k + 1, dist, done)
  {
    RelaxedAlongStep(s, nbrs, p, pCost, k, dist, dist);
  }

  /** Relaxes every eligible, unfinalized neighbour of the just finalized
      cell `p`: a neighbour with no cost yet, or with a cost above `dist[p]`
      plus the link, gets that cost, the offset from `p`, and a new queue
      entry. */
  method RelaxNeighbours(s: SearchSpace, nbrs: seq<Offset>, anchor: Index, p: Index,
                         dist: map<Index, nat>, offs: map<Index, Offset>, queue: seq<Entry>,
                         done: set<Index>, ghost rank: map<Index, nat>, ghost order: seq<Index>)
    returns (dist': map<Index, nat>, offs': map<Index, Offset>, queue': seq<Entry>)
    requires p in dist
    requires Neighbourhood(s, nbrs)
    requires Invariant(s, anchor, dist, offs, done, queue, rank, order)
    requires RelaxingFrom(s, nbrs, p, dist[p], 0, dist, done)
    ensures Invariant(s, anchor, dist', offs', done, queue', rank, order)
    ensures RelaxedFrom(s, dist', done)
  {
    var pCost := dist[p];
    dist', offs', queue' := dist, offs, queue;
    for k := 0 to |nbrs|
      invariant Invariant(s, anchor, dist', offs', done, queue', rank, order)
      invariant RelaxingFrom(s, nbrs, p, pCost, k, dist', done)
    {
      var o := nbrs[k];
      assert |o| == |p| by {
        assert IsNeighbourOffset(s.region.Dimension(), s.faceConnected, o);
      }
      var n := Add(p, o);
      if Eligible(s, n) && n !in done && (n !in dist' || pCost + Cost(s, p, n) < dist'[n]) {
        var cand := pCost + Cost(s, p, n);
        RelaxKeepsInvariant(s, anchor, dist', offs', done, queue', rank, order, p, o, n, cand);
        LowerKeepsRelaxing(s, nbrs, p, pCost, k, dist', done, cand);
        dist' := dist'[n := cand];
        offs' := offs'[n := o];
        queue' := queue' + [Entry(cand, n)];
      } else {
        RelaxSkip(s, nbrs, p, pCost, k, dist', done);
      }
    }
    RelaxedAll(s, nbrs, p, pCost, dist', done);
  }

  /** Once every offset is done, every link out of every finalized cell has
      been relaxed. */
  lemma RelaxedAll(s: SearchSpace, nbrs: seq<Offset>, p: Index, pCost: nat, dist: map<Index, nat>, done: set<Index>)
    requires Neighbourhood(s, nbrs)
    requires RelaxingFrom(s, nbrs, p, pCost, |nbrs|, dist, done)
    ensures RelaxedFrom(s, dist, done)
  {
    assert nbrs[..|nbrs|] == nbrs;
    forall a, b | a in done && a in dist && Step(s, a, b)
      ensures b in dist && dist[b] <= dist[a] + Cost(s, a, b)
    {
      if a == p {
        assert Sub(b, p) in nbrs;
      } else {
        assert a in done - {p};
      }
    }
  }

  /** Popping a stale entry (its cell is already finalized) keeps the queue
      faithful. */
  lemma DiscardKeepsQueue(dist: map<Index, nat>, done: set<Index>, queue: seq<Entry>, e: Entry, rest: seq<Entry>)
    requires QueueFaithful(dist, done, queue)
    requires e.index in done && multiset(rest) + multiset{e} == multiset(queue)
    ensures QueueFaithful(dist, done, rest)
  {
    forall x | x in queue && x != e ensures x in rest {
      assert x in multiset(queue);
    }
    forall x | x in rest ensures x in queue {
      assert x in multiset(queue);
    }
  }

  /** Popping the least entry of an unfinalized cell `p`: its priority is
      `p`'s best cost, and finalizing `p` keeps the invariant with every
      link out of the earlier finalized cells still relaxed. */
  lemma FinalizeKeeps(s: SearchSpace, nbrs: seq<Offset>, anchor: Index, dist: map<Index, nat>, offs: map<Index, Offset>,
                      done: set<Index>, queue: seq<Entry>, rank: map<Index, nat>, order: seq<Index>,
                      e: Entry, rest: seq<Entry>)
    requires Neighbourhood(s, nbrs)
    requires Invariant(s, anchor, dist, offs, done, queue, rank, order)
    requires RelaxedFrom(s, dist, done)
    requires e in queue && (forall x :: x in queue ==> e.priority <= x.priority)
    requires multiset(rest) + multiset{e} == multiset(queue)
    requires e.index !in done
    ensures e.index in dist && dist[e.index] == e.priority
    ensures Invariant(s, anchor, dist, offs, done + {e.index}, rest, rank[e.index := |order|], order + [e.index])
    ensures RelaxingFrom(s, nbrs, e.index, dist[e.index], 0, dist, done + {e.index})
  {
    var p := e.index;
    assert Entry(dist[p], p) in queue;
    FinalizeKeepsQueue(dist, done, queue, e, rest);
    FinalizeKeepsOrder(dist, offs, done, rank, order, p);
    assert (done + {p}) - {p} == done;
  }

  lemma FinalizeKeepsQueue(dist: map<Index, nat>, done: set<Index>, queue: seq<Entry>, e: Entry, rest: seq<Entry>)
    requires QueueFaithful(dist, done, queue)
    requires e in queue && (forall x :: x in queue ==> e.priority <= x.priority)
    requires multiset(rest) + multiset{e} == multiset(queue)
    requires e.index in dist && dist[e.index] == e.priority
    ensures QueueFaithful(dist, done + {e.index}, rest)
  {
    forall x | x in queue && x.index != e.index ensures x in rest {
      assert x in multiset(queue);
    }
    forall x | x in rest ensures x in queue {
      assert x in multiset(queue);
    }
  }

  lemma FinalizeKeepsOrder(dist: map<Index, nat>, offs: map<Index, Offset>, done: set<Index>,
                           rank: map<Index, nat>, order: seq<Index>, p: Index)
    requires Ordered(dist, offs, done, rank, order)
    requires p in dist && p !in done
    requires forall c :: c in done ==> dist[c] <= dist[p]
    requires p in offs ==> |offs[p]| == |p| && Sub(p, offs[p]) in done
    ensures Ordered(dist, offs, done + {p}, rank[p := |order|], order + [p])
  {
    var order' := order + [p];
    forall i, j | 0 <= i < j < |order'| ensures order'[i] in dist && order'[j] in dist && dist[order'[i]] <= dist[order'[j]] {
      if j == |order| {
        assert order'[i] == order[i];
      } else {
        assert order'[i] == order[i] && order'[j] == order[j];
      }
    }
  }

  /** Builds the direction field for `anchor`. An anchor outside the image or
      the mask yields no field. Otherwise the field satisfies
      `ShortestPathField` (see `Paths.ReconstructShortest` for what that
      gives a query), and the cells were finalized in non-decreasing cost
      order, each after its predecessor. */
  method GeneratePathDirections(s: SearchSpace, anchor: Index) returns (r: Option<DirectionField>, ghost order: seq<Index>)
    requires s.WellFormed()
    ensures r.None? <==> !Eligible(s, anchor)
    ensures r.Some? ==> r.value.anchor == anchor && ShortestPathField(s, r.value) && FinalizedInOrder(r.value, order)
  {
    order := [];
    if !Eligible(s, anchor) {
      return None, order;
    }
    var nbrs := Offsets(s.region.Dimension(), s.faceConnected);
    OffsetsExact(s.region.Dimension(), s.faceConnected);
    var dist: map<Index, nat> := map[anchor := 0];
    var offs: map<Index, Offset> := map[];
    var done: set<Index> := {};
    var queue := [Entry(0, anchor)];
    ghost var rank: map<Index, nat> := map[];
    ghost var all := EligibleCells(s);
    Start(s, anchor);
    while queue != []
      invariant Invariant(s, anchor, dist, offs, done, queue, rank, order)
      invariant RelaxedFrom(s, dist, done)
      invariant done <= all
      decreases |all - done|, |queue|
    {
      ghost var done0 := done;
      dist, offs, done, queue, rank, order := Settle(s, nbrs, anchor, dist, offs, done, queue, rank, order, all);
      if done != done0 {
        FewerLeft(all, done0, done);
      }
    }
    var f := DirectionField(anchor, offs, dist);
    FieldComplete(s, f, done, rank, order);
    r := Some(f);
  }

  /** The search starts with the anchor reached at cost 0 and queued, and
      nothing finalized. */
  lemma Start(s: SearchSpace, anchor: Index)
    requires s.WellFormed() && Eligible(s, anchor)
    ensures Invariant(s, anchor, map[anchor := 0], map[], {}, [Entry(0, anchor)], map[], [])
    ensures RelaxedFrom(s, map[anchor := 0], {})
  {
  }

  /** One round of the search: pops the least entry; a stale one (its cell
      already finalized) is dropped, otherwise its cell is finalized and its
      neighbours relaxed. Either a cell is finalized or the queue shrinks. */
  method Settle(s: SearchSpace, nbrs: seq<Offset>, anchor: Index, dist: map<Index, nat>, offs: map<Index, Offset>,
                done: set<Index>, queue: seq<Entry>, ghost rank: map<Index, nat>, ghost order: seq<Index>,
                ghost all: set<Index>)
    returns (dist': map<Index, nat>, offs': map<Index, Offset>, done': set<Index>, queue': seq<Entry>,
             ghost rank': map<Index, nat>, ghost order': seq<Index>)
    requires Neighbourhood(s, nbrs) && queue != []
    requires Invariant(s, anchor, dist, offs, done, queue, rank, order)
    requires RelaxedFrom(s, dist, done)
    requires all == EligibleCells(s) && done <= all
    ensures Invariant(s, anchor, dist', offs', done', queue', rank', order')
    ensures RelaxedFrom(s, dist', done')
    ensures done <= done' <= all
    ensures done' == done ==> |queue'| < |queue|
  {
    var e, rest := ExtractMin(queue);
    var p := e.index;
    if p in done {
      // stale entry: the cell was finalized at a lower cost already
      DiscardKeepsQueue(dist, done, queue, e, rest);
      assert |rest| == |queue| - 1 by {
        assert |multiset(rest)| + 1 == |multiset(queue)|;
      }
      return dist, offs, done, rest, rank, order;
    }
    FinalizeKeeps(s, nbrs, anchor, dist, offs, done, queue, rank, order, e, rest);
    CellsExact(s.region, p);
    rank' := rank[p := |order|];
    order' := order + [p];
    done' := done + {p};
    dist', offs', queue' := RelaxNeighbours(s, nbrs, anchor, p, dist, offs, rest, done', rank', order');
  }

  /** Finalizing more cells of `all` leaves fewer to finalize. */
  lemma FewerLeft(all: set<Index>, done: set<Index>, done': set<Index>)
    requires done <= done' <= all && done != done'
    ensures |all - done'| < |all - done|
  {
    assert !(done' <= done);
    var c :| c in done' && c !in done;
    assert all - done' <= (all - done) - {c};
    assert all - done == ((all - done) - {c}) + {c};
    SubsetCard(all - done', (all - done) - {c});
  }

  lemma {:induction false} SubsetCard(a: set<Index>, b: set<Index>)
    requires a <= b
    ensures |a| <= |b|
    decreases |b|
  {
    if a != {} {
      var x :| x in a;
      assert b - {x} + {x} == b;
      SubsetCard(a - {x}, b - {x});
    }
  }

  /** With the queue empty, the finalized cells are exactly the visited ones
      and the field satisfies `ShortestPathField`, finalized in order. */
  lemma FieldComplete(s: SearchSpace, f: DirectionField, done: set<Index>, rank: map<Index, nat>, order: seq<Index>)
    requires Invariant(s, f.anchor, f.cost, f.offsets, done, [], rank, order)
    requires RelaxedFrom(s, f.cost, done)
    ensures ShortestPathField(s, f) && FinalizedInOrder(f, order)
  {
    assert done == f.cost.Keys;
    FieldShortest(s, f, rank, order);
    FieldOrdered(f, rank, order);
  }

  lemma FieldShortest(s: SearchSpace, f: DirectionField, rank: map<Index, nat>, order: seq<Index>)
    requires Shape(s, f.anchor, f.cost, f.offsets, f.cost.Keys)
    requires Ordered(f.cost, f.offsets, f.cost.Keys, rank, order)
    requires RelaxedFrom(s, f.cost, f.cost.Keys)
    ensures ShortestPathField(s, f)
  {
    TraceGrounded(f, rank, order);
  }

  lemma FieldOrdered(f: DirectionField, rank: map<Index, nat>, order: seq<Index>)
    requires Ordered(f.cost, f.offsets, f.cost.Keys, rank, order)
    ensures FinalizedInOrder(f, order)
  {
    forall i, j | 0 <= i < |order| && 0 <= j < |order| && order[i] in f.offsets
        && |f.offsets[order[i]]| == |order[i]| && order[j] == Sub(order[i], f.offsets[order[i]])
      ensures j < i
    {
      assert rank[order[j]] == j;
    }
    forall c | c in f.cost ensures c in order {
      assert order[rank[c]] == c;
    }
  }

  /** A field ranked by its finalization order is grounded. */
  lemma TraceGrounded(f: DirectionField, rank: map<Index, nat>, order: seq<Index>)
    requires Rooted(f)
    requires rank.Keys == f.cost.Keys && |order| == |f.cost|
    requires forall c :: c in f.cost ==> rank[c] < |order|
    requires forall x :: x in f.offsets ==>
      |f.offsets[x]| == |x| && Sub(x, f.offsets[x]) in f.cost && rank[Sub(x, f.offsets[x])] < rank[x]
    ensures Grounded(f)
  {
    forall c | c in f.cost ensures Trace(f, c, |f.cost|).Some? {
      TraceTerminates(f, rank, c, |f.cost|);
    }
  }
}
