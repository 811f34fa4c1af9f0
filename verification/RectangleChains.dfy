/** The signs of the boundary matrices and of the rectangle chains, entry by entry. */
module RectangleChains {
  import opened Basics
  import opened GridSums
  import opened LoopReadout
  import opened SparseDomain

  /** The direction of a step between two rows: up the ids or down. */
  function Direction(u: int, v: int): int
    requires u != v
  {
    if u < v then 1 else -1
  }

  /** The boundary of a face holds each of its three sides in the order of the face, and nothing else. */
  lemma FaceEntries(f: Face, e: Edge)
    requires f.a != f.b && f.b != f.c && f.c != f.a
    ensures D2(Ordered(f.a, f.b), f) == Direction(f.a, f.b)
    ensures D2(Ordered(f.b, f.c), f) == Direction(f.b, f.c)
    ensures D2(Ordered(f.c, f.a), f) == Direction(f.c, f.a)
    ensures D2(e, f) != 0 ==> OnFace(e, f)
  {
  }

  /** The boundary of a directed side is its end less its start. */
  lemma SideEnds(u: int, w: int, v: int)
    requires u != w
    ensures D1(v, Ordered(u, w)) * Direction(u, w) == (if v == w then 1 else 0) - (if v == u then 1 else 0)
  {
  }

  lemma NextDiffers(loop: seq<int>, edges: seq<Edge>, i: nat)
    requires SimpleLoop(loop, edges) && i < |loop|
    ensures loop[i] != Next(loop, i)
  {
    var next := if i + 1 == |loop| then 0 else i + 1;
    assert loop[next] == Next(loop, i) && next != i;
  }

  lemma OwnIncidence(u: int, v: int)
    requires u != v
    ensures Incidence(u, v, Ordered(u, v)) == Direction(u, v)
  {
  }

  lemma FirstSeen(loop: seq<int>, edges: seq<Edge>, i: nat)
    requires SimpleLoop(loop, edges) && i < |loop| && loop[i] != Next(loop, i)
    ensures LoopCoefficient(loop, Ordered(loop[i], Next(loop, i)), i + 1) == Direction(loop[i], Next(loop, i))
  {
    var e := Ordered(loop[i], Next(loop, i));
    forall j | 0 <= j < i
      ensures Ordered(loop[j], Next(loop, j)) != e
    {
      LoopEdgesDistinct(loop, j, i);
    }
    UnseenEdge(loop, e, i);
    OwnIncidence(loop[i], Next(loop, i));
  }

  /** Once seen, an edge that does not come again keeps its coefficient. */
  lemma {:induction false} KeptEdge(loop: seq<int>, e: Edge, m: nat, n: nat)
    requires m <= n <= |loop| && (forall j :: m <= j < n ==> Ordered(loop[j], Next(loop, j)) != e)
    ensures LoopCoefficient(loop, e, n) == LoopCoefficient(loop, e, m)
  {
    if n == m {
    } else {
      KeptEdge(loop, e, m, n - 1);
    }
  }

  lemma SeenEdge(loop: seq<int>, edges: seq<Edge>, i: nat)
    requires SimpleLoop(loop, edges) && i < |loop| && loop[i] != Next(loop, i)
    ensures LoopCoefficient(loop, Ordered(loop[i], Next(loop, i)), |loop|) == Direction(loop[i], Next(loop, i))
  {
    var e := Ordered(loop[i], Next(loop, i));
    FirstSeen(loop, edges, i);
    forall j | i + 1 <= j < |loop|
      ensures Ordered(loop[j], Next(loop, j)) != e
    {
      LoopEdgesDistinct(loop, i, j);
    }
    KeptEdge(loop, e, i + 1, |loop|);
  }

  /** The chain of a simple loop is +1 or -1 at its edges by their direction, and zero elsewhere. */
  lemma LoopEntries(loop: seq<int>, edges: seq<Edge>, e: Edge)
    requires SimpleLoop(loop, edges)
    ensures forall i :: 0 <= i < |loop| ==>
      && loop[i] != Next(loop, i)
      && LoopCoefficient(loop, Ordered(loop[i], Next(loop, i)), |loop|) == Direction(loop[i], Next(loop, i))
    ensures (forall i :: 0 <= i < |loop| ==> Ordered(loop[i], Next(loop, i)) != e) ==>
      LoopCoefficient(loop, e, |loop|) == 0
  {
    forall i | 0 <= i < |loop|
      ensures loop[i] != Next(loop, i)
      ensures LoopCoefficient(loop, Ordered(loop[i], Next(loop, i)), |loop|) == Direction(loop[i], Next(loop, i))
    {
      NextDiffers(loop, edges, i);
      SeenEdge(loop, edges, i);
    }
    if forall i :: 0 <= i < |loop| ==> Ordered(loop[i], Next(loop, i)) != e {
      UnseenEdge(loop, e, |loop|);
    }
  }

  /** So does the boundary of the selected faces: +1 or -1 along the counter-clockwise rectangle, zero elsewhere. */
  lemma BoundaryEntries(axis: seq<real>, edges: seq<Edge>, bounds: Bounds, b: Box, e: Edge)
    requires Increasing(axis) && RectangleBox(axis, bounds) == Some(b) && IsEdges(edges, |axis|)
    ensures |axis| >= 2 && b.Proper() && b.Within(Domain(|axis|))
    ensures var loop := RectangleVertices(|axis|, b);
      && (forall i :: 0 <= i < |loop| ==>
           && loop[i] != Next(loop, i)
           && Induced(axis, bounds, Ordered(loop[i], Next(loop, i)), |axis| - 1) ==
              Direction(loop[i], Next(loop, i)))
      && ((forall i :: 0 <= i < |loop| ==> Ordered(loop[i], Next(loop, i)) != e) ==>
           Induced(axis, bounds, e, |axis| - 1) == 0)
  {
    Stokes(axis, bounds, b, e);
    var loop := RectangleVertices(|axis|, b);
    RectangleLoopIsSimple(|axis|, edges, b);
    LoopEntries(loop, edges, e);
    forall i | 0 <= i < |loop|
      ensures loop[i] != Next(loop, i)
      ensures Induced(axis, bounds, Ordered(loop[i], Next(loop, i)), |axis| - 1) == Direction(loop[i], Next(loop, i))
    {
      Stokes(axis, bounds, b, Ordered(loop[i], Next(loop, i)));
    }
  }

  // ----- The index rectangle, by the values of the axis -----

  predicate Between(axis: seq<real>, lo: real, hi: real, i: int) {
    0 <= i < |axis| && lo <= axis[i] <= hi
  }

  /** At least two points of the axis lie within the bounds. */
  ghost predicate TwoBetween(axis: seq<real>, lo: real, hi: real) {
    exists i, j :: i < j && Between(axis, lo, hi, i) && Between(axis, lo, hi, j)
  }

  lemma PointsBetween(axis: seq<real>, lo: real, hi: real, i: int)
    requires Increasing(axis)
    ensures Between(axis, lo, hi, i) <==> SearchLeft(axis, lo) <= i <= LastAtMost(axis, hi)
  {
    SearchLeftSplits(axis, lo);
    LastAtMostSplits(axis, hi);
  }

  lemma TwoPoints(axis: seq<real>, lo: real, hi: real)
    requires Increasing(axis)
    ensures TwoBetween(axis, lo, hi) <==> SearchLeft(axis, lo) < LastAtMost(axis, hi)
  {
    var a, b := SearchLeft(axis, lo), LastAtMost(axis, hi);
    PointsBetween(axis, lo, hi, a);
    PointsBetween(axis, lo, hi, b);
    if TwoBetween(axis, lo, hi) {
      var i, j :| i < j && Between(axis, lo, hi, i) && Between(axis, lo, hi, j);
      PointsBetween(axis, lo, hi, i);
      PointsBetween(axis, lo, hi, j);
    }
  }

  /**
   The index rectangle spans exactly the columns and rows whose values lie within the bounds; there is none exactly
   when these are not at least two columns and two rows.
   */
  lemma BoxExact(axis: seq<real>, bounds: Bounds)
    requires Increasing(axis)
    ensures var box := RectangleBox(axis, bounds);
      && (box.Some? <==>
            TwoBetween(axis, bounds.xmin, bounds.xmax) && TwoBetween(axis, bounds.ymin, bounds.ymax))
      && (box.Some? ==> forall i :: box.value.x0 <= i <= box.value.x1 <==> Between(axis, bounds.xmin, bounds.xmax, i))
      && (box.Some? ==> forall i :: box.value.y0 <= i <= box.value.y1 <==> Between(axis, bounds.ymin, bounds.ymax, i))
  {
    TwoPoints(axis, bounds.xmin, bounds.xmax);
    TwoPoints(axis, bounds.ymin, bounds.ymax);
    forall i
      ensures Between(axis, bounds.xmin, bounds.xmax, i) <==>
        SearchLeft(axis, bounds.xmin) <= i <= LastAtMost(axis, bounds.xmax)
      ensures Between(axis, bounds.ymin, bounds.ymax, i) <==>
        SearchLeft(axis, bounds.ymin) <= i <= LastAtMost(axis, bounds.ymax)
    {
      PointsBetween(axis, bounds.xmin, bounds.xmax, i);
      PointsBetween(axis, bounds.ymin, bounds.ymax, i);
    }
  }
}
