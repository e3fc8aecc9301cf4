/** The min-priority queue of the search: entries pair a grid index with its
    tentative cumulative cost, and the entry of least cost leaves first. */
module MinPriorityQueue {
  import opened Grid

  datatype Entry = Entry(priority: nat, index: Index)

  /** Removes an entry of least priority: the result is one of the queue's
      entries, no entry has a smaller priority, and the remaining entries are
      the queue's entries less that one. */
  method ExtractMin(q: seq<Entry>) returns (e: Entry, rest: seq<Entry>)
    requires q != []
    ensures e in q
    ensures forall x :: x in q ==> e.priority <= x.priority
    ensures multiset(rest) + multiset{e} == multiset(q)
  {
    var k := 0;
    var i := 1;
    while i < |q|
      invariant 0 <= k < i <= |q|
      invariant forall j :: 0 <= j < i ==> q[k].priority <= q[j].priority
    {
      if q[i].priority < q[k].priority {
        k := i;
      }
      i := i + 1;
    }
    e := q[k];
    rest := q[..k] + q[k + 1..];
    assert q == q[..k] + [q[k]] + q[k + 1..];
  }
}
