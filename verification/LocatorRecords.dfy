/** What the entries of a component record mean, cell by cell. */
module LocatorRecords {
  import opened Winding
  import opened GridSums
  import opened LoopReadout
  import opened Conservation
  import opened SpatialFidelity

  /** The cells of the located components are exactly those that lie clear in no coordinate half-plane. */
  lemma LocatedCells(g: Field, cells: nat, labels: Labels, count: nat, components: seq<Component>, x: int, y: int)
    requires IsLabelling(g, cells, labels, count) && LocatorResult(components, labels, cells, count)
    requires 0 <= x < cells && 0 <= y < cells
    ensures InSomeComponent(components, labels, x, y) <==> !exists s: Side :: ClearCell(g, s, x, y)
  {
    SkippedExactly(g, x, y);
    if Candidate(g, x, y) {
      var i := OwnerOfCandidate(g, cells, labels, count, components, x, y);
      var k := labels(x, y) - 1;
      assert Describes(components[k], labels, cells, k + 1);
    }
    if InSomeComponent(components, labels, x, y) {
      var i :| 0 <= i < |components| && components[i].id == labels(x, y);
      assert Describes(components[i], labels, cells, i + 1);
    }
  }

  ghost predicate InSomeComponent(components: seq<Component>, labels: Labels, x: int, y: int) {
    exists i :: 0 <= i < |components| && components[i].id == labels(x, y)
  }

  /** A cell of the grid that carries the label. */
  predicate Carries(labels: Labels, cells: nat, k: int, x: int, y: int) {
    0 <= x < cells && 0 <= y < cells && labels(x, y) == k
  }

  function Gap(a: int, b: int): nat { if a < b then b - a else a - b }

  /** A cell of the tight box that shares a vertex with the given one, or is it. */
  ghost predicate TouchesBox(b: Box, x: int, y: int) {
    exists u, v :: b.HasCell(u, v) && Gap(u, x) <= 1 && Gap(v, y) <= 1
  }

  /** The loop box consists of the cells of the grid that touch the tight box. */
  lemma LoopBoxCells(c: Component, labels: Labels, cells: nat, k: int, x: int, y: int)
    requires Describes(c, labels, cells, k)
    ensures c.loopBox.HasCell(x, y) <==> 0 <= x < cells && 0 <= y < cells && TouchesBox(c.box, x, y)
  {
    var b := c.box;
    if c.loopBox.HasCell(x, y) {
      var u := if x < b.x0 then b.x0 else if x >= b.x1 then b.x1 - 1 else x;
      var v := if y < b.y0 then b.y0 else if y >= b.y1 then b.y1 - 1 else y;
      assert b.HasCell(u, v) && Gap(u, x) <= 1 && Gap(v, y) <= 1;
    }
  }

  ghost predicate OnRim(labels: Labels, cells: nat, k: int) {
    exists x, y :: Carries(labels, cells, k, x, y) && (x == 0 || x == cells - 1 || y == 0 || y == cells - 1)
  }

  /** A component is clipped exactly when one of its cells lies at the rim of the grid. */
  lemma ClippedAtRim(c: Component, labels: Labels, cells: nat, k: int)
    requires Describes(c, labels, cells, k)
    ensures BoundaryClipped in c.reasons <==> OnRim(labels, cells, k)
  {
    if OnRim(labels, cells, k) {
      var x, y :| Carries(labels, cells, k, x, y) && (x == 0 || x == cells - 1 || y == 0 || y == cells - 1);
      assert c.box.HasCell(x, y);
    }
    if Clipped(c.box, cells) {
      RimCell(c.box, labels, cells, k);
    }
  }

  lemma RimCell(b: Box, labels: Labels, cells: nat, k: int)
    requires TightBox(b, labels, cells, k) && Clipped(b, cells)
    ensures OnRim(labels, cells, k)
  {
    if b.x0 == 0 || b.x1 == cells {
      var x := if b.x0 == 0 then b.x0 else b.x1 - 1;
      assert UsedInColumn(labels, cells, x, k);
      var y :| 0 <= y < cells && labels(x, y) == k;
      assert Carries(labels, cells, k, x, y);
    } else {
      var y := if b.y0 == 0 then b.y0 else b.y1 - 1;
      assert UsedInRow(labels, cells, y, k);
      var x :| 0 <= x < cells && labels(x, y) == k;
      assert Carries(labels, cells, k, x, y);
    }
  }

  /** Two cells of the component that span more than a quarter of the grid along one axis. */
  ghost predicate SpansQuarter(labels: Labels, cells: nat, k: int) {
    exists x, y, u, v ::
      && Carries(labels, cells, k, x, y) && Carries(labels, cells, k, u, v)
      && (4 * (Gap(x, u) + 1) > cells || 4 * (Gap(y, v) + 1) > cells)
  }

  /** A component is nonlocal exactly when it spans more than a quarter of the grid along one axis. */
  lemma NonlocalSpans(c: Component, labels: Labels, cells: nat, k: int)
    requires Describes(c, labels, cells, k)
    ensures NonlocalCandidate in c.reasons <==> SpansQuarter(labels, cells, k)
  {
    if SpansQuarter(labels, cells, k) {
      var x, y, u, v :|
        && Carries(labels, cells, k, x, y) && Carries(labels, cells, k, u, v)
        && (4 * (Gap(x, u) + 1) > cells || 4 * (Gap(y, v) + 1) > cells);
      assert c.box.HasCell(x, y) && c.box.HasCell(u, v);
    }
    if Nonlocal(c.box, cells) {
      ExtremeCells(c.box, labels, cells, k);
    }
  }

  lemma ExtremeCells(b: Box, labels: Labels, cells: nat, k: int)
    requires TightBox(b, labels, cells, k) && Nonlocal(b, cells)
    ensures SpansQuarter(labels, cells, k)
  {
    if 4 * (b.x1 - b.x0) > cells {
      assert UsedInColumn(labels, cells, b.x0, k) && UsedInColumn(labels, cells, b.x1 - 1, k);
      var y :| 0 <= y < cells && labels(b.x0, y) == k;
      var v :| 0 <= v < cells && labels(b.x1 - 1, v) == k;
      assert Carries(labels, cells, k, b.x0, y) && Carries(labels, cells, k, b.x1 - 1, v);
    } else {
      assert UsedInRow(labels, cells, b.y0, k) && UsedInRow(labels, cells, b.y1 - 1, k);
      var x :| 0 <= x < cells && labels(x, b.y0) == k;
      var u :| 0 <= u < cells && labels(u, b.y1 - 1) == k;
      assert Carries(labels, cells, k, x, b.y0) && Carries(labels, cells, k, u, b.y1 - 1);
    }
  }

  /** Two loop boxes overlap exactly when they have a vertex in common. */
  lemma OverlapSharesVertex(a: Box, b: Box)
    requires a.Proper() && b.Proper()
    ensures Overlap(a, b) <==> exists x, y :: a.HasVertex(x, y) && b.HasVertex(x, y)
  {
    if Overlap(a, b) {
      var x, y := if a.x0 > b.x0 then a.x0 else b.x0, if a.y0 > b.y0 then a.y0 else b.y0;
      assert a.HasVertex(x, y) && b.HasVertex(x, y);
    }
  }

  /** Row by row, and within a row from left to right. */
  predicate RowMajor(list: seq<(int, int)>) {
    forall i, j :: 0 <= i < j < |list| ==>
      list[i].1 < list[j].1 || (list[i].1 == list[j].1 && list[i].0 < list[j].0)
  }

  lemma RowMajorJoin(a: seq<(int, int)>, b: seq<(int, int)>)
    requires RowMajor(a) && RowMajor(b)
    requires forall p, q :: p in a && q in b ==> p.1 < q.1 || (p.1 == q.1 && p.0 < q.0)
    ensures RowMajor(a + b)
  {
  }

  lemma {:induction false} RowCellsOrdered(labels: Labels, k: int, y: int, x: nat)
    ensures RowMajor(RowCells(labels, k, y, x))
  {
    if x == 0 {
    } else {
      RowCellsOrdered(labels, k, y, x - 1);
      forall c | c in RowCells(labels, k, y, x - 1)
        ensures c.0 < x - 1 && c.1 == y
      {
        RowCellsMember(labels, k, y, x - 1, c);
      }
      RowMajorJoin(RowCells(labels, k, y, x - 1), if labels(x - 1, y) == k then [(x - 1, y)] else []);
    }
  }

  lemma {:induction false} GridCellsOrdered(labels: Labels, cells: nat, k: int, rows: nat)
    ensures RowMajor(GridCells(labels, cells, k, rows))
  {
    if rows == 0 {
    } else {
      var above, row := GridCells(labels, cells, k, rows - 1), RowCells(labels, k, rows - 1, cells);
      GridCellsOrdered(labels, cells, k, rows - 1);
      RowCellsOrdered(labels, k, rows - 1, cells);
      GridCellsMembers(labels, cells, k, rows - 1);
      forall c | c in row
        ensures c.1 == rows - 1
      {
        RowCellsMember(labels, k, rows - 1, cells, c);
      }
      RowMajorJoin(above, row);
    }
  }

  /** The deviations of the cell centres from a point, added up. */
  function Deviations(xs: seq<int>, centre: real): real {
    if xs == [] then 0.0 else Deviations(xs[..|xs| - 1], centre) + (xs[|xs| - 1] as real + 0.5 - centre)
  }

  lemma {:induction false} DeviationsSum(xs: seq<int>, centre: real)
    ensures Deviations(xs, centre) == SumOf(xs) as real + |xs| as real * (0.5 - centre)
  {
    if xs == [] {
    } else {
      DeviationsSum(xs[..|xs| - 1], centre);
      OneMore(|xs| - 1, 0.5 - centre);
    }
  }

  lemma OneMore(n: int, x: real)
    ensures (n + 1) as real * x == n as real * x + x
  {
  }

  lemma MeanBalances(xs: seq<int>)
    requires xs != []
    ensures Deviations(xs, Mean(xs)) == 0.0
  {
    DeviationsSum(xs, Mean(xs));
    var n, sum := |xs| as real, SumOf(xs) as real;
    QuotientBack(sum, n);
    assert 0.5 - Mean(xs) == -(sum / n);
  }

  lemma QuotientBack(sum: real, n: real)
    requires n > 0.0
    ensures n * (-(sum / n)) == -sum
  {
  }

  /** The counted cells are exactly the cells of the component, each once, in row-major order. */
  lemma CellsOnce(c: Component, labels: Labels, cells: nat, k: int) returns (list: seq<(int, int)>)
    requires Describes(c, labels, cells, k)
    ensures |list| == c.cellCount && RowMajor(list)
    ensures forall x, y :: (x, y) in list <==> Carries(labels, cells, k, x, y)
    ensures Deviations(Columns(list), c.meanX) == 0.0 && Deviations(Rows(list), c.meanY) == 0.0
  {
    list := GridCells(labels, cells, k, cells);
    GridCellsOrdered(labels, cells, k, cells);
    GridCellsMembers(labels, cells, k, cells);
    MeanBalances(Columns(list));
    MeanBalances(Rows(list));
  }
}
