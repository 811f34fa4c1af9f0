/** The triangulated square, its boundary matrices, and the boundary of index rectangles. */
module SparseDomain {
  import opened Basics
  import opened GridSums
  import opened LoopReadout

  datatype Face = Face(a: int, b: int, c: int)

  /** An edge with its smaller row id first. */
  datatype Edge = Edge(lo: int, hi: int)

  function LowerFace(side: nat, x: int, y: int): Face {
    var base := VertexId(side, x, y);
    Face(base, base + 1, base + side + 1)
  }

  function UpperFace(side: nat, x: int, y: int): Face {
    var base := VertexId(side, x, y);
    Face(base, base + side + 1, base + side)
  }

  function Ordered(u: int, v: int): Edge { if u < v then Edge(u, v) else Edge(v, u) }

  function Sign(u: int, v: int): int { if u < v then 1 else -1 }

  /** Coefficient at e of the directed edge from u to v. */
  function Incidence(u: int, v: int, e: Edge): int { if Ordered(u, v) == e then Sign(u, v) else 0 }

  /** Entry of the face-to-edge boundary matrix. */
  function D2(e: Edge, f: Face): int {
    Incidence(f.a, f.b, e) + Incidence(f.b, f.c, e) + Incidence(f.c, f.a, e)
  }

  /** Entry of the edge-to-vertex boundary matrix. */
  function D1(v: int, e: Edge): int { (if e.hi == v then 1 else 0) - (if e.lo == v then 1 else 0) }

  function Code(e: Edge, count: nat): int { e.lo * count + e.hi }

  function EdgeOf(code: int, count: nat): Edge
    requires count > 0
  {
    Edge(code / count, code % count)
  }

  ghost predicate OnFace(e: Edge, f: Face) {
    e == Ordered(f.a, f.b) || e == Ordered(f.b, f.c) || e == Ordered(f.c, f.a)
  }

  /** e is an edge of some face of the domain. */
  ghost predicate IsEdge(side: nat, e: Edge) {
    exists x, y :: 0 <= x < side - 1 && 0 <= y < side - 1
      && (OnFace(e, LowerFace(side, x, y)) || OnFace(e, UpperFace(side, x, y)))
  }

  /** The contract of the sorted unique code list. */
  ghost predicate IsEdgeList(codes: seq<int>, side: nat) {
    && (forall i, j :: 0 <= i < j < |codes| ==> codes[i] < codes[j])
    && (forall k :: 0 <= k < |codes| ==> CodesAnEdge(side, codes[k]))
    && (forall e :: IsEdge(side, e) ==> Code(e, side * side) in codes)
  }

  ghost predicate CodesAnEdge(side: nat, c: int) {
    exists e :: IsEdge(side, e) && c == Code(e, side * side)
  }

  lemma CodeRoundTrip(e: Edge, count: nat)
    requires 0 <= e.hi < count
    ensures EdgeOf(Code(e, count), count) == e
  {
    DivModOf(e.lo, e.hi, count);
  }

  lemma DivModOf(q: int, r: int, d: nat)
    requires 0 <= r < d
    ensures (q * d + r) / d == q && (q * d + r) % d == r
  {
    var n := q * d + r;
    var q', r' := n / d, n % d;
    assert n == q' * d + r';
    assert (q - q') * d == r' - r;
    if q - q' >= 1 {
      AtLeastOnce(q - q', d);
    } else if q - q' <= -1 {
      AtLeastOnce(q' - q, d);
    }
  }

  lemma AtLeastOnce(k: int, d: nat)
    requires k >= 1
    ensures k * d >= d
  {
  }

  lemma EdgeEndsInRange(side: nat, e: Edge)
    requires IsEdge(side, e)
    ensures 0 <= e.lo < e.hi < side * side
  {
    var x, y :| 0 <= x < side - 1 && 0 <= y < side - 1
      && (OnFace(e, LowerFace(side, x, y)) || OnFace(e, UpperFace(side, x, y)));
    VertexIdInRange(side, x, y);
    VertexIdInRange(side, x + 1, y + 1);
    assert VertexId(side, x + 1, y + 1) == VertexId(side, x, y) + side + 1;
  }

  /** The edge list decoded from the codes. */
  function EdgesOf(codes: seq<int>, count: nat): seq<Edge>
    requires count > 0
  {
    seq(|codes|, k requires 0 <= k < |codes| => EdgeOf(codes[k], count))
  }

  /** Each edge of the domain, exactly once. */
  ghost predicate IsEdges(edges: seq<Edge>, side: nat) {
    && (forall i, j :: 0 <= i < j < |edges| ==> edges[i] != edges[j])
    && (forall e :: e in edges <==> IsEdge(side, e))
  }

  /** The sorted unique codes decode to each edge of the domain exactly once. */
  lemma CodesDecode(side: nat, codes: seq<int>)
    requires side >= 2 && IsEdgeList(codes, side)
    ensures side * side > 0 && IsEdges(EdgesOf(codes, side * side), side)
  {
    var count := side * side;
    var edges := EdgesOf(codes, count);
    forall k | 0 <= k < |codes|
      ensures codes[k] == Code(edges[k], count) && IsEdge(side, edges[k])
    {
      assert CodesAnEdge(side, codes[k]);
      var e :| IsEdge(side, e) && codes[k] == Code(e, count);
      EdgeEndsInRange(side, e);
      CodeRoundTrip(e, count);
    }
    forall e | IsEdge(side, e)
      ensures e in edges
    {
      EdgeEndsInRange(side, e);
      CodeRoundTrip(e, count);
      var k :| 0 <= k < |codes| && codes[k] == Code(e, count);
      assert edges[k] == e;
    }
  }

  // ----- The boundary of a boundary is zero -----

  /** Sum over the edge list of D1(v, .) times the coefficient of the directed edge (u, w). */
  function PairRow(edges: seq<Edge>, v: int, u: int, w: int): int {
    if edges == [] then 0 else D1(v, edges[0]) * Incidence(u, w, edges[0]) + PairRow(edges[1..], v, u, w)
  }

  /** Entry (v, f) of the product of the two boundary matrices. */
  function BoundarySquared(edges: seq<Edge>, v: int, f: Face): int {
    if edges == [] then 0 else D1(v, edges[0]) * D2(edges[0], f) + BoundarySquared(edges[1..], v, f)
  }

  lemma {:induction false} BoundarySquaredByPairs(edges: seq<Edge>, v: int, f: Face)
    ensures BoundarySquared(edges, v, f)
         == PairRow(edges, v, f.a, f.b) + PairRow(edges, v, f.b, f.c) + PairRow(edges, v, f.c, f.a)
  {
    if edges == [] {
    } else {
      BoundarySquaredByPairs(edges[1..], v, f);
      var e := edges[0];
      Distribute(D1(v, e), Incidence(f.a, f.b, e), Incidence(f.b, f.c, e), Incidence(f.c, f.a, e));
    }
  }

  lemma Distribute(d: int, p: int, q: int, r: int)
    ensures d * (p + q + r) == d * p + d * q + d * r
  {
  }

  lemma {:induction false} PairRowValue(edges: seq<Edge>, v: int, u: int, w: int)
    requires u != w && (forall i, j :: 0 <= i < j < |edges| ==> edges[i] != edges[j])
    ensures PairRow(edges, v, u, w)
         == if Ordered(u, w) in edges then (if w == v then 1 else 0) - (if u == v then 1 else 0) else 0
  {
    if edges == [] {
    } else {
      PairRowValue(edges[1..], v, u, w);
      assert Ordered(u, w) in edges <==> Ordered(u, w) == edges[0] || Ordered(u, w) in edges[1..];
    }
  }

  /** d1 after d2 is zero at every vertex and face of every domain, so the run-time identity check never raises. */
  lemma BoundaryOfBoundary(side: nat, edges: seq<Edge>, v: int, x: int, y: int)
    requires 0 <= x < side - 1 && 0 <= y < side - 1 && IsEdges(edges, side)
    ensures BoundarySquared(edges, v, LowerFace(side, x, y)) == 0
    ensures BoundarySquared(edges, v, UpperFace(side, x, y)) == 0
  {
    FaceBoundaryOfBoundary(side, edges, v, LowerFace(side, x, y));
    FaceBoundaryOfBoundary(side, edges, v, UpperFace(side, x, y));
  }

  lemma FaceBoundaryOfBoundary(side: nat, edges: seq<Edge>, v: int, f: Face)
    requires IsEdges(edges, side) && (forall e :: OnFace(e, f) ==> IsEdge(side, e))
    requires f.a != f.b && f.b != f.c && f.c != f.a
    ensures BoundarySquared(edges, v, f) == 0
  {
    BoundarySquaredByPairs(edges, v, f);
    PairRowValue(edges, v, f.a, f.b);
    PairRowValue(edges, v, f.b, f.c);
    PairRowValue(edges, v, f.c, f.a);
    assert OnFace(Ordered(f.a, f.b), f) && OnFace(Ordered(f.b, f.c), f) && OnFace(Ordered(f.c, f.a), f);
  }

  // ----- The boundary of an index rectangle -----

  datatype Bounds = Bounds(xmin: real, xmax: real, ymin: real, ymax: real)

  ghost predicate Increasing(axis: seq<real>) { forall i, j :: 0 <= i < j < |axis| ==> axis[i] < axis[j] }

  /** The left insertion point of v: how many leading entries are below it. */
  function SearchLeft(axis: seq<real>, v: real): nat {
    if axis == [] || axis[0] >= v then 0 else 1 + SearchLeft(axis[1..], v)
  }

  lemma {:induction false} SearchLeftSplits(axis: seq<real>, v: real)
    requires Increasing(axis)
    ensures var k := SearchLeft(axis, v);
      && k <= |axis|
      && (forall i :: 0 <= i < k ==> axis[i] < v)
      && (forall i :: k <= i < |axis| ==> v <= axis[i])
  {
    if axis == [] || axis[0] >= v {
    } else {
      SearchLeftSplits(axis[1..], v);
      var k := SearchLeft(axis[1..], v);
      assert forall i :: 1 <= i < 1 + k ==> axis[i] == axis[1..][i - 1];
      assert forall i :: 1 + k <= i < |axis| ==> axis[i] == axis[1..][i - 1];
    }
  }

  /** Index of the last entry not above v, or -1. */
  function LastAtMost(axis: seq<real>, v: real): int {
    var k := SearchLeft(axis, v);
    if k >= |axis| || axis[k] > v then k - 1 else k
  }

  lemma LastAtMostSplits(axis: seq<real>, v: real)
    requires Increasing(axis)
    ensures var k := LastAtMost(axis, v);
      && -1 <= k < |axis|
      && (forall i :: 0 <= i <= k ==> axis[i] <= v)
      && (forall i :: k < i < |axis| ==> v < axis[i])
  {
    SearchLeftSplits(axis, v);
  }

  /** The index rectangle of the declared bounds; none when it has no two-dimensional support. */
  function RectangleBox(axis: seq<real>, bounds: Bounds): Option<Box> {
    var b := Box(SearchLeft(axis, bounds.xmin), LastAtMost(axis, bounds.xmax),
                 SearchLeft(axis, bounds.ymin), LastAtMost(axis, bounds.ymax));
    if b.x0 >= b.x1 || b.y0 >= b.y1 then None else Some(b)
  }

  predicate InBounds(axis: seq<real>, bounds: Bounds, v: int)
    requires 0 <= v < |axis| * |axis|
  {
    assert |axis| > 0;
    RowInRange(v, |axis|);
    bounds.xmin <= axis[v % |axis|] <= bounds.xmax && bounds.ymin <= axis[v / |axis|] <= bounds.ymax
  }

  lemma RowInRange(v: int, side: nat)
    requires 0 <= v < side * side
    ensures side > 0 && 0 <= v / side < side && 0 <= v % side < side
  {
    var q := v / side;
    assert q * side <= v;
    if q >= side {
      ScaleMonotone(side, q, side);
    }
  }

  lemma ScaleMonotone(a: int, b: int, d: nat)
    requires a <= b
    ensures a * d <= b * d
  {
  }

  /** A face is selected when all its vertices lie within the declared bounds. */
  predicate Selected(axis: seq<real>, bounds: Bounds, f: Face)
    requires 0 <= f.a < |axis| * |axis| && 0 <= f.b < |axis| * |axis| && 0 <= f.c < |axis| * |axis|
  {
    InBounds(axis, bounds, f.a) && InBounds(axis, bounds, f.b) && InBounds(axis, bounds, f.c)
  }

  lemma VertexPosition(side: nat, x: int, y: int)
    requires 0 <= x < side && 0 <= y < side
    ensures 0 <= VertexId(side, x, y) < side * side
    ensures VertexId(side, x, y) / side == y && VertexId(side, x, y) % side == x
  {
    VertexIdInRange(side, x, y);
    DivModOf(y, x, side);
  }

  lemma CellVertices(side: nat, x: int, y: int)
    requires 0 <= x < side - 1 && 0 <= y < side - 1
    ensures VertexId(side, x + 1, y) == VertexId(side, x, y) + 1
    ensures VertexId(side, x, y + 1) == VertexId(side, x, y) + side
    ensures VertexId(side, x + 1, y + 1) == VertexId(side, x, y) + side + 1
    ensures 0 <= VertexId(side, x, y) && VertexId(side, x + 1, y + 1) < side * side
  {
    VertexIdInRange(side, x, y);
    VertexIdInRange(side, x + 1, y + 1);
    assert (y + 1) * side == y * side + side;
  }

  /** Vertex (x, y) is within the bounds exactly when its indices lie in the index ranges. */
  lemma InBoundsByIndex(axis: seq<real>, bounds: Bounds, x: int, y: int)
    requires Increasing(axis) && 0 <= x < |axis| && 0 <= y < |axis|
    ensures 0 <= VertexId(|axis|, x, y) < |axis| * |axis|
    ensures InBounds(axis, bounds, VertexId(|axis|, x, y)) <==>
      && SearchLeft(axis, bounds.xmin) <= x <= LastAtMost(axis, bounds.xmax)
      && SearchLeft(axis, bounds.ymin) <= y <= LastAtMost(axis, bounds.ymax)
  {
    VertexPosition(|axis|, x, y);
    SearchLeftSplits(axis, bounds.xmin);
    SearchLeftSplits(axis, bounds.ymin);
    LastAtMostSplits(axis, bounds.xmax);
    LastAtMostSplits(axis, bounds.ymax);
  }

  lemma InBoundsByBox(axis: seq<real>, bounds: Bounds, b: Box, x: int, y: int)
    requires Increasing(axis) && RectangleBox(axis, bounds) == Some(b)
    requires 0 <= x < |axis| && 0 <= y < |axis|
    ensures 0 <= VertexId(|axis|, x, y) < |axis| * |axis|
    ensures InBounds(axis, bounds, VertexId(|axis|, x, y)) <==> b.HasVertex(x, y)
  {
    InBoundsByIndex(axis, bounds, x, y);
  }

  lemma FacesOfCell(side: nat, x: int, y: int)
    requires 0 <= x < side - 1 && 0 <= y < side - 1
    ensures FaceInRange(side, LowerFace(side, x, y)) && FaceInRange(side, UpperFace(side, x, y))
    ensures LowerFace(side, x, y)
      == Face(VertexId(side, x, y), VertexId(side, x + 1, y), VertexId(side, x + 1, y + 1))
    ensures UpperFace(side, x, y)
      == Face(VertexId(side, x, y), VertexId(side, x + 1, y + 1), VertexId(side, x, y + 1))
  {
    CellVertices(side, x, y);
  }

  /** Both faces of a cell are selected exactly when the cell lies in the index rectangle. */
  lemma SelectedByCell(axis: seq<real>, bounds: Bounds, b: Box, x: int, y: int)
    requires Increasing(axis) && RectangleBox(axis, bounds) == Some(b)
    requires 0 <= x < |axis| - 1 && 0 <= y < |axis| - 1
    ensures FaceInRange(|axis|, LowerFace(|axis|, x, y)) && FaceInRange(|axis|, UpperFace(|axis|, x, y))
    ensures Selected(axis, bounds, LowerFace(|axis|, x, y)) <==> b.HasCell(x, y)
    ensures Selected(axis, bounds, UpperFace(|axis|, x, y)) <==> b.HasCell(x, y)
  {
    FacesOfCell(|axis|, x, y);
    InBoundsByBox(axis, bounds, b, x, y);
    InBoundsByBox(axis, bounds, b, x + 1, y);
    InBoundsByBox(axis, bounds, b, x, y + 1);
    InBoundsByBox(axis, bounds, b, x + 1, y + 1);
  }

  predicate FaceInRange(side: nat, f: Face) {
    0 <= f.a < side * side && 0 <= f.b < side * side && 0 <= f.c < side * side
  }

  /** Coefficient at e contributed by the selected faces of one cell. */
  function CellCoefficient(axis: seq<real>, bounds: Bounds, e: Edge, x: int, y: int): int
    requires 0 <= x < |axis| - 1 && 0 <= y < |axis| - 1
  {
    CellVertices(|axis|, x, y);
    var lower, upper := LowerFace(|axis|, x, y), UpperFace(|axis|, x, y);
    (if Selected(axis, bounds, lower) then D2(e, lower) else 0)
    + (if Selected(axis, bounds, upper) then D2(e, upper) else 0)
  }

  function RowCoefficient(axis: seq<real>, bounds: Bounds, e: Edge, y: int, x: nat): int
    requires x <= |axis| - 1 && 0 <= y < |axis| - 1
  {
    if x == 0 then 0
    else RowCoefficient(axis, bounds, e, y, x - 1) + CellCoefficient(axis, bounds, e, x - 1, y)
  }

  /** Coefficient at e of d2 applied to the selected faces of the first rows of cells. */
  function Induced(axis: seq<real>, bounds: Bounds, e: Edge, rows: nat): int
    requires rows <= |axis| - 1
  {
    if rows == 0 then 0
    else Induced(axis, bounds, e, rows - 1) + RowCoefficient(axis, bounds, e, rows - 1, |axis| - 1)
  }

  /** The directed edge coefficient as a real step between row ids. */
  function IncidenceStep(e: Edge): (int, int) -> real {
    (u: int, v: int) => Incidence(u, v, e) as real
  }

  function Ids(side: nat): (int, int) -> int { (x: int, y: int) => VertexId(side, x, y) }

  /** The two faces of a cell have the boundary of the cell: their common diagonal cancels. */
  lemma CellBoundary(side: nat, e: Edge, s: Steps, x: int, y: int)
    requires 0 <= x < side - 1 && 0 <= y < side - 1 && s.Of(IncidenceStep(e), Ids(side))
    ensures (D2(e, LowerFace(side, x, y)) + D2(e, UpperFace(side, x, y))) as real
         == CellCirculation(s.right, s.up, x, y)
  {
    CellVertices(side, x, y);
    var a, b, c, d := VertexId(side, x, y), VertexId(side, x + 1, y), VertexId(side, x, y + 1),
      VertexId(side, x + 1, y + 1);
    assert s.right(x, y) == Incidence(a, b, e) as real;
    assert s.up(x + 1, y) == Incidence(b, d, e) as real;
    assert s.right(x, y + 1) == Incidence(c, d, e) as real;
    assert s.up(x, y) == Incidence(a, c, e) as real;
    IncidenceReversed(a, d, e);
    IncidenceReversed(c, d, e);
    IncidenceReversed(a, c, e);
  }

  lemma IncidenceReversed(u: int, v: int, e: Edge)
    requires u != v
    ensures Incidence(v, u, e) == -Incidence(u, v, e)
  {
  }

  /** The form that carries, cell by cell, the induced coefficient at e. */
  function CoefficientForm(axis: seq<real>, bounds: Bounds, e: Edge): Form {
    (x: int, y: int) =>
      if 0 <= x < |axis| - 1 && 0 <= y < |axis| - 1 then CellCoefficient(axis, bounds, e, x, y) as real else 0.0
  }

  lemma {:induction false} RowCoefficientIsSum(axis: seq<real>, bounds: Bounds, e: Edge, y: int, x: nat)
    requires x <= |axis| - 1 && 0 <= y < |axis| - 1
    ensures RowCoefficient(axis, bounds, e, y, x) as real == RowSum(CoefficientForm(axis, bounds, e), 0, x, y)
  {
    if x == 0 {
    } else {
      RowCoefficientIsSum(axis, bounds, e, y, x - 1);
    }
  }

  lemma {:induction false} InducedIsArea(axis: seq<real>, bounds: Bounds, e: Edge, rows: nat)
    requires rows <= |axis| - 1
    ensures Induced(axis, bounds, e, rows) as real ==
      Area(CoefficientForm(axis, bounds, e), Box(0, |axis| - 1, 0, rows))
  {
    if rows == 0 {
    } else {
      InducedIsArea(axis, bounds, e, rows - 1);
      RowCoefficientIsSum(axis, bounds, e, rows - 1, |axis| - 1);
      AreaOfNextRow(CoefficientForm(axis, bounds, e), |axis| - 1, rows);
    }
  }

  lemma AreaOfNextRow(f: Form, width: int, rows: nat)
    requires rows > 0
    ensures Area(f, Box(0, width, 0, rows)) == Area(f, Box(0, width, 0, rows - 1)) + RowSum(f, 0, width, rows - 1)
  {
    assert Box(0, width, 0, rows).(y1 := rows - 1) == Box(0, width, 0, rows - 1);
  }

  lemma CoefficientOfCell(axis: seq<real>, bounds: Bounds, b: Box, e: Edge, s: Steps, x: int, y: int)
    requires Increasing(axis) && RectangleBox(axis, bounds) == Some(b)
    requires 0 <= x < |axis| - 1 && 0 <= y < |axis| - 1 && s.Of(IncidenceStep(e), Ids(|axis|))
    ensures CellCoefficient(axis, bounds, e, x, y) as real
         == if b.HasCell(x, y) then CellCirculation(s.right, s.up, x, y) else 0.0
  {
    SelectedByCell(axis, bounds, b, x, y);
    CellBoundary(|axis|, e, s, x, y);
  }

  lemma RectangleInDomain(axis: seq<real>, bounds: Bounds, b: Box)
    requires Increasing(axis) && RectangleBox(axis, bounds) == Some(b)
    ensures b.Proper() && b.Within(Domain(|axis|))
  {
    LastAtMostSplits(axis, bounds.xmax);
    LastAtMostSplits(axis, bounds.ymax);
  }

  /** The induced coefficient is the circulation of the edge coefficient round the rectangle. */
  lemma InducedIsCirculation(axis: seq<real>, bounds: Bounds, b: Box, e: Edge, s: Steps)
    requires Increasing(axis) && RectangleBox(axis, bounds) == Some(b)
    requires s.Of(IncidenceStep(e), Ids(|axis|))
    ensures |axis| >= 2
    ensures Induced(axis, bounds, e, |axis| - 1) as real == Circulation(s.right, s.up, b)
  {
    RectangleInDomain(axis, bounds, b);
    InducedIsArea(axis, bounds, e, |axis| - 1);
    SelectedArea(axis, bounds, b, e, s, CoefficientForm(axis, bounds, e));
  }

  lemma SelectedArea(axis: seq<real>, bounds: Bounds, b: Box, e: Edge, s: Steps, f: Form)
    requires Increasing(axis) && RectangleBox(axis, bounds) == Some(b) && b.Proper() && b.Within(Domain(|axis|))
    requires s.Of(IncidenceStep(e), Ids(|axis|)) && f == CoefficientForm(axis, bounds, e)
    ensures Area(f, Domain(|axis|)) == Circulation(s.right, s.up, b)
  {
    CoefficientFormOnCells(axis, bounds, b, e, s);
    AreaIsCirculation(f, Domain(|axis|), b, s.right, s.up);
  }

  /** A form that is the circulation of each cell of a box and zero elsewhere sums up to the circulation of the box. */
  lemma AreaIsCirculation(f: Form, outer: Box, b: Box, right: Form, up: Form)
    requires b.Proper() && b.Within(outer)
    requires forall x, y :: b.HasCell(x, y) ==> f(x, y) == CellCirculation(right, up, x, y)
    requires forall x, y :: outer.HasCell(x, y) && !b.HasCell(x, y) ==> f(x, y) == 0.0
    ensures Area(f, outer) == Circulation(right, up, b)
  {
    AreaOfOneBox(f, outer, b);
    Green(right, up, f, b);
  }

  lemma CoefficientFormOnCells(axis: seq<real>, bounds: Bounds, b: Box, e: Edge, s: Steps)
    requires Increasing(axis) && RectangleBox(axis, bounds) == Some(b) && b.Within(Domain(|axis|))
    requires s.Of(IncidenceStep(e), Ids(|axis|))
    ensures var f := CoefficientForm(axis, bounds, e);
      && (forall x, y :: b.HasCell(x, y) ==> f(x, y) == CellCirculation(s.right, s.up, x, y))
      && (forall x, y :: Domain(|axis|).HasCell(x, y) && !b.HasCell(x, y) ==> f(x, y) == 0.0)
  {
    forall x, y | Domain(|axis|).HasCell(x, y)
      ensures CoefficientForm(axis, bounds, e)(x, y)
           == if b.HasCell(x, y) then CellCirculation(s.right, s.up, x, y) else 0.0
    {
      CoefficientOfCell(axis, bounds, b, e, s, x, y);
    }
  }

  lemma AreaOfOneBox(f: Form, outer: Box, b: Box)
    requires b.Proper() && b.Within(outer)
    requires forall x, y :: outer.HasCell(x, y) && !b.HasCell(x, y) ==> f(x, y) == 0.0
    ensures Area(f, outer) == Area(f, b)
  {
    forall x, y | outer.HasCell(x, y) && (forall i :: 0 <= i < |[b]| ==> ![b][i].HasCell(x, y))
      ensures f(x, y) == 0.0
    {
      assert ![b][0].HasCell(x, y);
    }
    AreaOfDisjointBoxes(f, outer, [b]);
    assert AreaOfAll(f, [b][1..]) == 0.0;
  }

  /** The vertex that follows vertex i of a closed loop. */
  function Next(loop: seq<int>, i: nat): int
    requires i < |loop|
  {
    loop[if i + 1 == |loop| then 0 else i + 1]
  }

  /** Signed coefficient at e of the first n edges of a closed loop. */
  function LoopCoefficient(loop: seq<int>, e: Edge, n: nat): int
    requires n <= |loop|
  {
    if n == 0 then 0 else LoopCoefficient(loop, e, n - 1) + Incidence(loop[n - 1], Next(loop, n - 1), e)
  }

  lemma {:induction false} LoopCoefficientIsSum(loop: seq<int>, e: Edge, n: nat, f: int -> real)
    requires n <= |loop|
    requires forall i :: 0 <= i < |loop| ==> f(i) == Incidence(loop[i], Next(loop, i), e) as real
    ensures LoopCoefficient(loop, e, n) as real == Sum(0, n, f)
  {
    if n == 0 {
    } else {
      LoopCoefficientIsSum(loop, e, n - 1, f);
    }
  }

  lemma AlongIsCirculation(side: nat, b: Box, e: Edge, s: Steps)
    requires b.Proper() && b.Within(Domain(side)) && s.Of(IncidenceStep(e), Ids(side))
    ensures s.Along(b) == Circulation(s.right, s.up, b)
  {
    forall x | b.x0 <= x < b.x1
      ensures s.left(x, b.y1) == -s.right(x, b.y1)
    {
      VertexIdInjective(side, x, b.y1, x + 1, b.y1);
      IncidenceReversed(VertexId(side, x, b.y1), VertexId(side, x + 1, b.y1), e);
    }
    forall y | b.y0 <= y < b.y1
      ensures s.down(b.x0, y) == -s.up(b.x0, y)
    {
      VertexIdInjective(side, b.x0, y, b.x0, y + 1);
      IncidenceReversed(VertexId(side, b.x0, y), VertexId(side, b.x0, y + 1), e);
    }
    NegatedRow(s.left, s.right, b.x0, b.x1, b.y1);
    NegatedCol(s.down, s.up, b.x0, b.y0, b.y1);
  }

  /** The signed edges of the rectangle loop, summed at e, are the side totals of the edge coefficient. */
  lemma LoopIsAlong(side: nat, b: Box, e: Edge, s: Steps)
    requires b.Proper() && b.Within(Domain(side)) && s.Of(IncidenceStep(e), Ids(side))
    ensures var loop := RectangleVertices(side, b);
      LoopCoefficient(loop, e, |loop|) as real == s.Along(b)
  {
    var loop, step, ids := RectangleVertices(side, b), IncidenceStep(e), Ids(side);
    RectanglePoints(side, b);
    var f: int -> real := i => PointStep(step, ids, b, i);
    forall i | 0 <= i < |loop|
      ensures f(i) == Incidence(loop[i], Next(loop, i), e) as real
    {
      assert PointX(b, |loop|) == PointX(b, 0) && PointY(b, |loop|) == PointY(b, 0);
    }
    LoopCoefficientIsSum(loop, e, |loop|, f);
    SidesOfSteps(step, ids, b, f, s);
  }

  /**
   Discrete Stokes on every increasing axis and every supported rectangle: the boundary of the
   selected faces equals the signed edges of the counter-clockwise loop, at every edge.
   */
  lemma Stokes(axis: seq<real>, bounds: Bounds, b: Box, e: Edge)
    requires Increasing(axis) && RectangleBox(axis, bounds) == Some(b)
    ensures |axis| >= 2 && b.Proper() && b.Within(Domain(|axis|))
    ensures var loop := RectangleVertices(|axis|, b);
      Induced(axis, bounds, e, |axis| - 1) == LoopCoefficient(loop, e, |loop|)
  {
    RectangleInDomain(axis, bounds, b);
    var s := StepsOf(IncidenceStep(e), Ids(|axis|));
    InducedIsCirculation(axis, bounds, b, e, s);
    AlongIsCirculation(|axis|, b, e, s);
    LoopIsAlong(|axis|, b, e, s);
  }

  /** A closed loop of distinct vertices along listed edges. */
  ghost predicate SimpleLoop(loop: seq<int>, edges: seq<Edge>) {
    && |loop| >= 3
    && (forall i, j :: 0 <= i < j < |loop| ==> loop[i] != loop[j])
    && (forall i :: 0 <= i < |loop| ==> Ordered(loop[i], Next(loop, i)) in edges)
  }

  lemma LoopEdgesDistinct(loop: seq<int>, i: nat, j: nat)
    requires |loop| >= 3 && (forall i, j :: 0 <= i < j < |loop| ==> loop[i] != loop[j])
    requires i < j < |loop|
    ensures Ordered(loop[i], Next(loop, i)) != Ordered(loop[j], Next(loop, j))
  {
  }

  lemma {:induction false} UnseenEdge(loop: seq<int>, e: Edge, n: nat)
    requires n <= |loop| && (forall i :: 0 <= i < n ==> Ordered(loop[i], Next(loop, i)) != e)
    ensures LoopCoefficient(loop, e, n) == 0
  {
    if n == 0 {
    } else {
      UnseenEdge(loop, e, n - 1);
    }
  }

  /** Write the signed loop edges into a zero vector over the edge list, one assignment per loop edge. */
  method LoopChain(loop: seq<int>, edges: seq<Edge>) returns (expected: array<int>)
    requires SimpleLoop(loop, edges) && (forall i, j :: 0 <= i < j < |edges| ==> edges[i] != edges[j])
    ensures expected.Length == |edges|
    ensures forall k :: 0 <= k < |edges| ==> expected[k] == LoopCoefficient(loop, edges[k], |loop|)
  {
    expected := new int[|edges|](_ => 0);
    for i := 0 to |loop|
      invariant Carries(loop, edges, i, expected[..])
    {
      var u, v := loop[i], Next(loop, i);
      var id :| 0 <= id < |edges| && edges[id] == Ordered(u, v);
      ghost var before := expected[..];
      expected[id] := Sign(u, v);
      LoopStep(loop, edges, i, id, before, expected[..]);
    }
  }

  /** chain holds, over the edge list, the coefficients of the first n loop edges. */
  ghost predicate Carries(loop: seq<int>, edges: seq<Edge>, n: nat, chain: seq<int>) {
    n <= |loop| && |chain| == |edges| && forall k :: 0 <= k < |edges| ==> chain[k] == LoopCoefficient(loop, edges[k], n)
  }

  lemma LoopStep(loop: seq<int>, edges: seq<Edge>, i: nat, id: nat, before: seq<int>, after: seq<int>)
    requires SimpleLoop(loop, edges) && (forall i, j :: 0 <= i < j < |edges| ==> edges[i] != edges[j])
    requires i < |loop| && id < |edges| && edges[id] == Ordered(loop[i], Next(loop, i))
    requires Carries(loop, edges, i, before) && after == before[id := Sign(loop[i], Next(loop, i))]
    ensures Carries(loop, edges, i + 1, after)
  {
    forall j | 0 <= j < i
      ensures Ordered(loop[j], Next(loop, j)) != edges[id]
    {
      LoopEdgesDistinct(loop, j, i);
    }
    UnseenEdge(loop, edges[id], i);
  }

  /** Every loop edge of a supported rectangle is an edge of the domain. */
  lemma RectangleLoopIsSimple(side: nat, edges: seq<Edge>, b: Box)
    requires b.Proper() && b.Within(Domain(side)) && IsEdges(edges, side)
    ensures SimpleLoop(RectangleVertices(side, b), edges)
  {
    var loop := RectangleVertices(side, b);
    RectangleLoopAdmissible(side, b);
    forall i | 0 <= i < |loop|
      ensures Ordered(loop[i], Next(loop, i)) in edges
    {
      LoopEdgeIsEdge(side, b, i);
    }
  }

  lemma LoopEdgeIsEdge(side: nat, b: Box, i: nat)
    requires b.Proper() && b.Within(Domain(side)) && i < |RectangleVertices(side, b)|
    ensures IsEdge(side, Ordered(RectangleVertices(side, b)[i], Next(RectangleVertices(side, b), i)))
  {
    var loop := RectangleVertices(side, b);
    RectanglePoints(side, b);
    var n := |loop|;
    assert PointX(b, n) == PointX(b, 0) && PointY(b, n) == PointY(b, 0);
    PointsAdjacent(b, i);
    var x, y, x', y' := PointX(b, i), PointY(b, i), PointX(b, i + 1), PointY(b, i + 1);
    assert loop[i] == VertexId(side, x, y) && Next(loop, i) == VertexId(side, x', y');
    AdjacentIsEdge(side, x, y, x', y');
  }

  /** From (x, y) to (x', y') along the lower, right, upper or left side of some cell of the domain. */
  predicate Adjacent(b: Box, x: int, y: int, x': int, y': int) {
    || (x' == x + 1 && y' == y && b.HasCell(x, y))
    || (x' == x && y' == y + 1 && b.HasCell(x - 1, y))
    || (x' == x - 1 && y' == y && b.HasCell(x', y - 1))
    || (x' == x && y' == y - 1 && b.HasCell(x, y'))
  }

  lemma PointsAdjacent(b: Box, i: int)
    requires b.Proper() && 0 <= i < Perimeter(b)
    ensures Adjacent(b, PointX(b, i), PointY(b, i), PointX(b, i + 1), PointY(b, i + 1))
  {
  }

  ghost predicate Joined(side: nat, u: int, v: int) { IsEdge(side, Ordered(u, v)) }

  lemma AdjacentIsEdge(side: nat, x: int, y: int, x': int, y': int)
    requires Adjacent(Domain(side), x, y, x', y')
    ensures Joined(side, VertexId(side, x, y), VertexId(side, x', y'))
  {
    if x' == x + 1 {
      RightStepJoined(side, x, y);
    } else if y' == y + 1 {
      UpStepJoined(side, x, y);
    } else if x' == x - 1 {
      LeftStepJoined(side, x', y);
    } else {
      DownStepJoined(side, x, y');
    }
  }

  lemma RightStepJoined(side: nat, x: int, y: int)
    requires 0 <= x < side - 1 && 0 <= y < side - 1
    ensures Joined(side, VertexId(side, x, y), VertexId(side, x + 1, y))
  {
    CellSidesAreEdges(side, x, y);
  }

  lemma UpStepJoined(side: nat, x: int, y: int)
    requires 1 <= x < side && 0 <= y < side - 1
    ensures Joined(side, VertexId(side, x, y), VertexId(side, x, y + 1))
  {
    CellSidesAreEdges(side, x - 1, y);
  }

  lemma LeftStepJoined(side: nat, x: int, y: int)
    requires 0 <= x < side - 1 && 1 <= y < side
    ensures Joined(side, VertexId(side, x + 1, y), VertexId(side, x, y))
  {
    CellSidesAreEdges(side, x, y - 1);
  }

  lemma DownStepJoined(side: nat, x: int, y: int)
    requires 0 <= x < side - 1 && 0 <= y < side - 1
    ensures Joined(side, VertexId(side, x, y + 1), VertexId(side, x, y))
  {
    CellSidesAreEdges(side, x, y);
  }

  lemma CellSidesAreEdges(side: nat, x: int, y: int)
    requires 0 <= x < side - 1 && 0 <= y < side - 1
    ensures IsEdge(side, Ordered(VertexId(side, x, y), VertexId(side, x + 1, y)))
    ensures IsEdge(side, Ordered(VertexId(side, x + 1, y), VertexId(side, x + 1, y + 1)))
    ensures IsEdge(side, Ordered(VertexId(side, x + 1, y + 1), VertexId(side, x, y + 1)))
    ensures IsEdge(side, Ordered(VertexId(side, x, y + 1), VertexId(side, x, y)))
  {
    CellVertices(side, x, y);
    var lower, upper := LowerFace(side, x, y), UpperFace(side, x, y);
    assert OnFace(Ordered(lower.a, lower.b), lower) && OnFace(Ordered(lower.b, lower.c), lower);
    assert OnFace(Ordered(upper.b, upper.c), upper) && OnFace(Ordered(upper.c, upper.a), upper);
  }

  /** The run-time comparison of the induced and the expected chain of one declared rectangle. */
  method CheckRectangle(axis: seq<real>, edges: seq<Edge>, bounds: Bounds) returns (loop: Option<seq<int>>, agree: bool)
    requires Increasing(axis) && |axis| >= 2 && IsEdges(edges, |axis|)
    ensures agree
    ensures loop.Some? <==> RectangleBox(axis, bounds).Some?
    ensures loop.Some? ==> SimpleLoop(loop.value, edges)
    ensures loop.Some? ==>
      forall e :: Induced(axis, bounds, e, |axis| - 1) == LoopCoefficient(loop.value, e, |loop.value|)
  {
    agree := true;
    var box := RectangleBox(axis, bounds);
    if box.None? {
      return None, agree;
    }
    RectangleInDomain(axis, bounds, box.value);
    RectangleLoopIsSimple(|axis|, edges, box.value);
    var vertices := RectangleVertices(|axis|, box.value);
    forall e
      ensures Induced(axis, bounds, e, |axis| - 1) == LoopCoefficient(vertices, e, |vertices|)
    {
      Stokes(axis, bounds, box.value, e);
    }
    var expected := LoopChain(vertices, edges);
    for k := 0 to |edges|
      invariant agree
    {
      agree := agree && Induced(axis, bounds, edges[k], |axis| - 1) == expected[k];
    }
    loop := Some(vertices);
  }

  // ----- The declared rectangles are always supported -----

  /** The grid axis from -1 to 1 with the given number of points. */
  function Linspace(side: nat): seq<real>
    requires side >= 2
  {
    seq(side, i => -1.0 + 2.0 * (i as real) / ((side - 1) as real))
  }

  const OUTER := Bounds(-1.0, 1.0, -1.0, 1.0)
  const INNER := Bounds(-0.5, 0.5, -0.5, 0.5)
  const LOCAL_POSITIVE := Bounds(-0.75, -0.25, -0.25, 0.25)
  const LOCAL_NEGATIVE := Bounds(0.25, 0.75, -0.25, 0.25)
  const OFFCORE := Bounds(-0.25, 0.25, 0.5, 1.0)

  /** Consecutive axis points are less than a quarter apart, and the axis runs from -1 to 1. */
  ghost predicate FineAxis(axis: seq<real>) {
    && Increasing(axis) && |axis| >= 2
    && axis[0] == -1.0 && axis[|axis| - 1] == 1.0
    && (forall i :: 0 <= i < |axis| - 1 ==> axis[i + 1] - axis[i] <= 0.25)
  }

  function Multiple(i: int, gap: real): real { (i as real) * gap }

  /** Point i of the axis lies i gaps above -1. */
  lemma LinspaceEntry(side: nat, gap: real, i: int)
    requires side >= 2 && gap == 2.0 / ((side - 1) as real) && 0 <= i < side
    ensures Linspace(side)[i] == -1.0 + Multiple(i, gap)
  {
    ProductOfQuotient(i as real, (side - 1) as real);
  }

  lemma GapRange(m: real)
    requires m >= 8.0
    ensures 0.0 < 2.0 / m <= 0.25 && m * (2.0 / m) == 2.0
  {
  }

  lemma MultipleIncreasing(i: int, j: int, gap: real)
    requires i < j && gap > 0.0
    ensures Multiple(i, gap) < Multiple(j, gap)
  {
  }

  lemma NextMultiple(i: int, gap: real)
    ensures Multiple(i + 1, gap) == Multiple(i, gap) + gap
  {
    assert (i + 1) as real == i as real + 1.0;
  }

  lemma LinspaceStep(side: nat, gap: real, i: int)
    requires side >= 2 && gap == 2.0 / ((side - 1) as real) && 0 <= i < side - 1
    ensures Linspace(side)[i + 1] - Linspace(side)[i] == gap
  {
    LinspaceEntry(side, gap, i);
    LinspaceEntry(side, gap, i + 1);
    NextMultiple(i, gap);
  }

  lemma LinspaceIncreasing(side: nat)
    requires side >= 9
    ensures Increasing(Linspace(side))
  {
    var axis, gap := Linspace(side), 2.0 / ((side - 1) as real);
    GapRange((side - 1) as real);
    forall i, j | 0 <= i < j < side
      ensures axis[i] < axis[j]
    {
      LinspaceEntry(side, gap, i);
      LinspaceEntry(side, gap, j);
      MultipleIncreasing(i, j, gap);
    }
  }

  lemma LinspaceEnds(side: nat)
    requires side >= 9
    ensures Linspace(side)[0] == -1.0 && Linspace(side)[side - 1] == 1.0
  {
    var gap := 2.0 / ((side - 1) as real);
    GapRange((side - 1) as real);
    LinspaceEntry(side, gap, 0);
    LinspaceEntry(side, gap, side - 1);
    assert Multiple(0, gap) == 0.0 && Multiple(side - 1, gap) == 2.0;
  }

  lemma LinspaceIsFine(side: nat)
    requires side >= 9
    ensures FineAxis(Linspace(side))
  {
    var axis, gap := Linspace(side), 2.0 / ((side - 1) as real);
    GapRange((side - 1) as real);
    LinspaceIncreasing(side);
    LinspaceEnds(side);
    forall i | 0 <= i < side - 1
      ensures axis[i + 1] - axis[i] <= 0.25
    {
      LinspaceStep(side, gap, i);
    }
  }

  lemma ProductOfQuotient(t: real, m: real)
    requires m > 0.0
    ensures 2.0 * t / m == t * (2.0 / m)
  {
  }

  /** An interval of length at least one half inside [-1, 1] holds two consecutive axis points. */
  lemma IntervalSupported(axis: seq<real>, lo: real, hi: real)
    requires FineAxis(axis) && -1.0 <= lo && hi <= 1.0 && hi - lo >= 0.5
    ensures SearchLeft(axis, lo) < LastAtMost(axis, hi)
  {
    var left := SearchLeft(axis, lo);
    SearchLeftSplits(axis, lo);
    LastAtMostSplits(axis, hi);
    assert axis[|axis| - 1] >= lo;
    assert left < |axis|;
    if left > 0 {
      assert axis[left - 1] < lo;
      assert axis[(left - 1) + 1] - axis[left - 1] <= 0.25;
    }
    assert axis[left] <= lo + 0.25;
    assert left < |axis| - 1;
    assert axis[left + 1] <= hi;
  }

  /** For every admissible side all five declared rectangles are supported, so building the domain never raises. */
  lemma DeclaredRectanglesSupported(side: nat)
    requires 9 <= side
    ensures forall bounds :: bounds in {OUTER, INNER, LOCAL_POSITIVE, LOCAL_NEGATIVE, OFFCORE} ==>
      RectangleBox(Linspace(side), bounds).Some?
  {
    LinspaceIsFine(side);
    forall bounds | bounds in {OUTER, INNER, LOCAL_POSITIVE, LOCAL_NEGATIVE, OFFCORE}
      ensures RectangleBox(Linspace(side), bounds).Some?
    {
      IntervalSupported(Linspace(side), bounds.xmin, bounds.xmax);
      IntervalSupported(Linspace(side), bounds.ymin, bounds.ymax);
    }
  }
}
