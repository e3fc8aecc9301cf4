/** Neighbour topology of the live-wire search: the offsets of the face- and
    fully-connected neighbourhoods, and which cells the optional integer mask
    lets the search enter. */
module Topology {
  import opened Wrappers
  import opened Grid

  /** Every offset of `s`, prefixed with the component `x`. */
  function Prefix(x: int, s: seq<Offset>): (r: seq<Offset>)
    ensures |r| == |s|
  {
    seq(|s|, i requires 0 <= i < |s| => [x] + s[i])
  }

  /** Every component is -1, 0 or 1. */
  predicate UnitBox(o: Offset) {
    forall d :: 0 <= d < |o| ==> -1 <= o[d] <= 1
  }

  /** Exactly one component is non-zero, and it is +1 or -1. */
  predicate AxisStep(o: Offset) {
    exists k :: 0 <= k < |o| && (o[k] == 1 || o[k] == -1) && forall d :: 0 <= d < |o| && d != k ==> o[d] == 0
  }

  /** All vectors of {-1,0,1}^n. */
  function Cube(n: nat): seq<Offset>
  {
    if n == 0 then [[]]
    else Prefix(-1, Cube(n - 1)) + Prefix(0, Cube(n - 1)) + Prefix(1, Cube(n - 1))
  }

  /** The fully-connected neighbourhood: the non-zero vectors of {-1,0,1}^n. */
  function FullOffsets(n: nat): seq<Offset>
  {
    if n == 0 then []
    else Prefix(-1, Cube(n - 1)) + Prefix(0, FullOffsets(n - 1)) + Prefix(1, Cube(n - 1))
  }

  /** The face-connected neighbourhood: one step back and one step forward
      along each axis. */
  function FaceOffsets(n: nat): seq<Offset>
  {
    if n == 0 then []
    else [[-1] + Zero(n - 1), [1] + Zero(n - 1)] + Prefix(0, FaceOffsets(n - 1))
  }

  /** The neighbourhood used by the search under the connectivity flag. */
  function Offsets(n: nat, faceConnected: bool): (r: seq<Offset>)
    ensures |r| == if faceConnected then 2 * n else Pow3(n) - 1
  {
    if faceConnected then FaceOffsetsCount(n); FaceOffsets(n)
    else FullOffsetsCount(n); FullOffsets(n)
  }

  function Pow3(n: nat): nat
  {
    if n == 0 then 1 else 3 * Pow3(n - 1)
  }

  /** Membership in a prefixed family of offsets. */
  lemma PrefixMember(x: int, s: seq<Offset>, o: Offset)
    ensures o in Prefix(x, s) <==> |o| >= 1 && o[0] == x && o[1..] in s
  {
    if o in Prefix(x, s) {
      var i :| 0 <= i < |s| && Prefix(x, s)[i] == o;
      assert o[1..] == s[i];
    }
    if |o| >= 1 && o[0] == x && o[1..] in s {
      var i :| 0 <= i < |s| && s[i] == o[1..];
      assert Prefix(x, s)[i] == [x] + o[1..] == o;
    }
  }

  /** A vector is a unit-box vector iff its head and its tail are. */
  lemma UnitBoxCons(o: Offset)
    requires |o| >= 1
    ensures UnitBox(o) <==> -1 <= o[0] <= 1 && UnitBox(o[1..])
  {
    if -1 <= o[0] <= 1 && UnitBox(o[1..]) {
      forall d | 0 <= d < |o| ensures -1 <= o[d] <= 1 {
        if d > 0 { assert o[d] == o[1..][d - 1]; }
      }
    }
  }

  lemma {:induction false} CubeExact(n: nat, o: Offset)
    ensures o in Cube(n) <==> |o| == n && UnitBox(o)
  {
    if n > 0 {
      var c := Cube(n - 1);
      PrefixMember(-1, c, o);
      PrefixMember(0, c, o);
      PrefixMember(1, c, o);
      if |o| >= 1 {
        CubeExact(n - 1, o[1..]);
        UnitBoxCons(o);
      }
    }
  }

  /** A vector is zero iff its head is zero and its tail is zero. */
  lemma ZeroCons(o: Offset)
    requires |o| >= 1
    ensures o == Zero(|o|) <==> o[0] == 0 && o[1..] == Zero(|o| - 1)
  {
    assert Zero(|o|) == [0] + Zero(|o| - 1);
    assert o == [o[0]] + o[1..];
  }

  /** Membership in a three-part concatenation. */
  lemma InConcat3(a: seq<Offset>, b: seq<Offset>, c: seq<Offset>, o: Offset)
    ensures o in a + b + c <==> o in a || o in b || o in c
  {
    if o in a + b + c {
      var i :| 0 <= i < |a + b + c| && (a + b + c)[i] == o;
      if i < |a| {
        assert a[i] == o;
      } else if i < |a| + |b| {
        assert b[i - |a|] == o;
      } else {
        assert c[i - |a| - |b|] == o;
      }
    }
  }

  /** A fully-connected offset has a zero head and a fully-connected tail,
      or a head of -1 or 1 and a tail in {-1,0,1}^(n-1). */
  lemma FullOffsetsCases(n: nat, o: Offset)
    requires n > 0 && o in FullOffsets(n)
    ensures |o| >= 1
    ensures (o[0] == 0 && o[1..] in FullOffsets(n - 1)) || ((o[0] == -1 || o[0] == 1) && o[1..] in Cube(n - 1))
  {
    assert FullOffsets(n) == Prefix(-1, Cube(n - 1)) + Prefix(0, FullOffsets(n - 1)) + Prefix(1, Cube(n - 1));
    InConcat3(Prefix(-1, Cube(n - 1)), Prefix(0, FullOffsets(n - 1)), Prefix(1, Cube(n - 1)), o);
    PrefixMember(-1, Cube(n - 1), o);
    PrefixMember(0, FullOffsets(n - 1), o);
    PrefixMember(1, Cube(n - 1), o);
  }

  /** A vector of {-1,0,1}^n behind a head of 0, -1 or 1 is in
      {-1,0,1}^(n+1), and it is non-zero when its head or its tail is. */
  lemma UnitBoxHead(o: Offset)
    requires |o| >= 1 && -1 <= o[0] <= 1 && UnitBox(o[1..])
    requires o[0] != 0 || o[1..] != Zero(|o| - 1)
    ensures UnitBox(o) && o != Zero(|o|)
  {
    UnitBoxCons(o);
    ZeroCons(o);
  }

  /** Every fully-connected offset is a non-zero vector of {-1,0,1}^n. */
  lemma {:induction false} FullOffsetsSound(n: nat, o: Offset)
    requires o in FullOffsets(n)
    ensures |o| == n && UnitBox(o) && o != Zero(n)
  {
    assert n > 0;
    FullOffsetsCases(n, o);
    if o[0] == 0 {
      FullOffsetsSound(n - 1, o[1..]);
      assert |o| == n;
      UnitBoxHead(o);
    } else {
      CubeExact(n - 1, o[1..]);
      assert |o| == n;
      UnitBoxHead(o);
    }
  }

  /** A vector whose tail is a fully-connected offset one dimension lower,
      behind a zero head, is a fully-connected offset. */
  lemma FullOffsetsZeroHead(n: nat, o: Offset)
    requires n > 0 && |o| == n && o[0] == 0 && o[1..] in FullOffsets(n - 1)
    ensures o in FullOffsets(n)
  {
    PrefixMember(0, FullOffsets(n - 1), o);
  }

  /** A vector of {-1,0,1}^n whose head is -1 or 1 is a fully-connected
      offset. */
  lemma FullOffsetsUnitHead(n: nat, o: Offset)
    requires n > 0 && |o| == n && (o[0] == -1 || o[0] == 1) && o[1..] in Cube(n - 1)
    ensures o in FullOffsets(n)
  {
    PrefixMember(o[0], Cube(n - 1), o);
  }

  /** Every non-zero vector of {-1,0,1}^n is a fully-connected offset. */
  lemma {:induction false} FullOffsetsComplete(n: nat, o: Offset)
    requires |o| == n && UnitBox(o) && o != Zero(n)
    ensures o in FullOffsets(n)
  {
    assert n > 0;
    UnitBoxCons(o);
    ZeroCons(o);
    if o[0] == 0 {
      FullOffsetsComplete(n - 1, o[1..]);
      FullOffsetsZeroHead(n, o);
    } else {
      CubeExact(n - 1, o[1..]);
      FullOffsetsUnitHead(n, o);
    }
  }

  /** The fully-connected neighbourhood holds exactly the non-zero vectors of
      {-1,0,1}^n. */
  lemma FullOffsetsExact(n: nat, o: Offset)
    ensures o in FullOffsets(n) <==> |o| == n && UnitBox(o) && o != Zero(n)
  {
    if o in FullOffsets(n) {
      FullOffsetsSound(n, o);
    }
    if |o| == n && UnitBox(o) && o != Zero(n) {
      FullOffsetsComplete(n, o);
    }
  }

  /** An axis step either moves along the first axis only, or stays still
      on it and is an axis step of the remaining axes. */
  lemma AxisStepCons(o: Offset)
    requires |o| >= 1
    ensures AxisStep(o) <==>
      ((o[0] == 1 || o[0] == -1) && o[1..] == Zero(|o| - 1)) || (o[0] == 0 && AxisStep(o[1..]))
  {
    var t := o[1..];
    if AxisStep(o) {
      var k :| 0 <= k < |o| && (o[k] == 1 || o[k] == -1) && forall d :: 0 <= d < |o| && d != k ==> o[d] == 0;
      if k == 0 {
        assert forall d :: 0 <= d < |t| ==> t[d] == o[d + 1];
        assert t == Zero(|o| - 1);
      } else {
        assert t[k - 1] == o[k];
        assert forall d :: 0 <= d < |t| && d != k - 1 ==> t[d] == o[d + 1] == 0;
      }
    }
    if (o[0] == 1 || o[0] == -1) && t == Zero(|o| - 1) {
      assert forall d :: 0 <= d < |o| && d != 0 ==> o[d] == t[d - 1] == 0;
    }
    if o[0] == 0 && AxisStep(t) {
      var k :| 0 <= k < |t| && (t[k] == 1 || t[k] == -1) && forall d :: 0 <= d < |t| && d != k ==> t[d] == 0;
      assert o[k + 1] == t[k];
      forall d | 0 <= d < |o| && d != k + 1 ensures o[d] == 0 {
        if d > 0 { assert o[d] == t[d - 1]; }
      }
    }
  }

  /** The face-connected neighbourhood holds exactly the axis-aligned unit
      steps. */
  lemma {:induction false} FaceOffsetsExact(n: nat, o: Offset)
    ensures o in FaceOffsets(n) <==> |o| == n && AxisStep(o)
  {
    if n > 0 {
      var f := FaceOffsets(n - 1);
      var a, b := [-1] + Zero(n - 1), [1] + Zero(n - 1);
      assert FaceOffsets(n) == [a, b] + Prefix(0, f);
      PrefixMember(0, f, o);
      if |o| >= 1 {
        var t := o[1..];
        FaceOffsetsExact(n - 1, t);
        AxisStepCons(o);
        assert o == [o[0]] + t;
      }
    }
  }

  /** There are 3^n - 1 fully-connected neighbours. */
  lemma {:induction false} FullOffsetsCount(n: nat)
    ensures |Cube(n)| == Pow3(n)
    ensures |FullOffsets(n)| == Pow3(n) - 1
  {
    if n > 0 {
      FullOffsetsCount(n - 1);
    }
  }

  /** There are 2n face-connected neighbours. */
  lemma {:induction false} FaceOffsetsCount(n: nat)
    ensures |FaceOffsets(n)| == 2 * n
  {
    if n > 0 {
      FaceOffsetsCount(n - 1);
    }
  }

  /** Every face-connected step is also a fully-connected one. */
  lemma FaceWithinFull(n: nat, o: Offset)
    requires o in FaceOffsets(n)
    ensures o in FullOffsets(n)
  {
    FaceOffsetsExact(n, o);
    var k :| 0 <= k < |o| && (o[k] == 1 || o[k] == -1) && forall d :: 0 <= d < |o| && d != k ==> o[d] == 0;
    assert o[k] != Zero(n)[k];
    FullOffsetsExact(n, o);
  }

  /** Shape of every offset the search may record: a non-zero vector of
      {-1,0,1}^n, and under face connectedness a single +1 or -1 along one
      axis. */
  lemma OffsetShape(n: nat, faceConnected: bool, o: Offset)
    requires o in Offsets(n, faceConnected)
    ensures |o| == n && UnitBox(o) && o != Zero(n)
    ensures faceConnected ==> AxisStep(o)
  {
    if faceConnected {
      FaceOffsetsExact(n, o);
      FaceWithinFull(n, o);
    }
    FullOffsetsExact(n, o);
  }

  /** The offsets of the neighbourhood, described without enumerating them:
      non-zero vectors of {-1,0,1}^n, restricted to axis steps under face
      connectedness. */
  predicate IsNeighbourOffset(n: nat, faceConnected: bool, o: Offset) {
    |o| == n && UnitBox(o) && o != Zero(n) && (faceConnected ==> AxisStep(o))
  }

  /** The enumerated neighbourhood holds exactly the offsets the description
      admits. */
  lemma OffsetsExact(n: nat, faceConnected: bool)
    ensures forall o :: o in Offsets(n, faceConnected) <==> IsNeighbourOffset(n, faceConnected, o)
  {
    forall o ensures o in Offsets(n, faceConnected) <==> IsNeighbourOffset(n, faceConnected, o) {
      FullOffsetsExact(n, o);
      if faceConnected {
        FaceOffsetsExact(n, o);
        if o in FaceOffsets(n) {
          FaceWithinFull(n, o);
        }
      }
    }
  }

  /** An optional integer mask image and the label of its inside pixels. */
  type Mask = map<Index, int>

  /** A cell is inside iff no mask is set, or the mask holds the inside label
      at that cell. */
  predicate InsideMask(mask: Option<Mask>, insideLabel: int, c: Index) {
    mask.None? || (c in mask.value && mask.value[c] == insideLabel)
  }
}
