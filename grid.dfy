/** Grid coordinates, image regions and the neighbourhood offsets of the
    live-wire search: an N-dimensional index is a sequence of integers whose
    length is the image dimension. */
module Grid {

  /** A grid index (ITK's IndexType) and an offset between two indices
      (ITK's OffsetType). Both have one component per image axis. */
  type Index = seq<int>
  type Offset = seq<int>

  /** The buffered region of an image: its first index and its extent along
      every axis. */
  datatype Region = Region(start: Index, size: seq<nat>) {
    predicate WellFormed() { |start| == |size| }
    function Dimension(): nat { |start| }
  }

  /** True iff index `c` addresses a pixel of region `r`. */
  predicate InRegion(r: Region, c: Index) {
    && |c| == |r.start| == |r.size|
    && forall d :: 0 <= d < |c| ==> r.start[d] <= c[d] < r.start[d] + r.size[d]
  }

  function Add(a: Index, o: Offset): (r: Index)
    requires |a| == |o|
    ensures |r| == |a| && forall d :: 0 <= d < |a| ==> r[d] == a[d] + o[d]
  {
    seq(|a|, d requires 0 <= d < |a| => a[d] + o[d])
  }

  function Sub(a: Index, o: Offset): (r: Index)
    requires |a| == |o|
    ensures |r| == |a| && forall d :: 0 <= d < |a| ==> r[d] == a[d] - o[d]
  {
    seq(|a|, d requires 0 <= d < |a| => a[d] - o[d])
  }

  /** Stepping by an offset and stepping back by it cancel, in both orders. */
  lemma AddSub(a: Index, o: Offset)
    requires |a| == |o|
    ensures Sub(Add(a, o), o) == a
    ensures Sub(Add(a, o), a) == o
    ensures Add(Sub(a, o), o) == a
    ensures Sub(a, Sub(a, o)) == o
  {
  }

  /** The offset from `a` to `b` leads from `a` to `b`. */
  lemma SubAdd(a: Index, b: Index)
    requires |a| == |b|
    ensures Add(a, Sub(b, a)) == b
  {
  }

  /** The zero vector of dimension `n`. */
  function Zero(n: nat): (z: Offset)
    ensures |z| == n && forall d :: 0 <= d < n ==> z[d] == 0
  {
    seq(n, d => 0)
  }

  /** The set of all indices of region `r` (ghost: used to bound the search). */
  ghost function Cells(r: Region): set<Index>
    requires r.WellFormed()
    decreases |r.start|
  {
    if |r.start| == 0 then {[]}
    else
      var tail := Cells(Region(r.start[1..], r.size[1..]));
      set x, t | r.start[0] <= x < r.start[0] + r.size[0] && t in tail :: [x] + t
  }

  /** `Cells` holds exactly the indices of the region, so the region is a
      finite set of cells. */
  lemma {:induction false} CellsExact(r: Region, c: Index)
    requires r.WellFormed()
    ensures c in Cells(r) <==> InRegion(r, c)
    decreases |r.start|
  {
    if |r.start| == 0 {
      assert InRegion(r, c) <==> c == [];
    } else {
      var r' := Region(r.start[1..], r.size[1..]);
      if InRegion(r, c) {
        CellsExact(r', c[1..]);
        assert c == [c[0]] + c[1..];
      }
      if c in Cells(r) {
        var x, t :| r.start[0] <= x < r.start[0] + r.size[0] && t in Cells(r') && c == [x] + t;
        CellsExact(r', t);
      }
    }
  }
}
