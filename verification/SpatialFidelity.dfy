/** The charge-blind locator, the local loop readout, and what they conserve. */
module SpatialFidelity {
  import opened Basics
  import opened Complex
  import opened GridSums
  import opened Winding
  import opened LoopReadout
  import opened Conservation

  datatype Component = Component(
    id: int, cellCount: int, box: Box, loopBox: Box, meanX: real, meanY: real, reasons: seq<Reason>)

  datatype Candidates = Rejected | GloballyBelowFloor | Located(components: seq<Component>)

  type Labels = (int, int) -> int

  /**
   The contract of the library's component labelling: labels 1..count, each used,
   exactly on the candidate cells.
   */
  ghost predicate IsLabelling(g: Field, cells: int, labels: Labels, count: nat) {
    && (forall x, y :: 0 <= x < cells && 0 <= y < cells ==>
          0 <= labels(x, y) <= count && (labels(x, y) == 0 <==> !Candidate(g, x, y)))
    && (forall k :: 1 <= k <= count ==> Used(labels, cells, k))
  }

  ghost predicate Used(labels: Labels, cells: int, k: int) {
    exists x, y :: 0 <= x < cells && 0 <= y < cells && labels(x, y) == k
  }

  ghost predicate UsedInColumn(labels: Labels, cells: int, x: int, k: int) {
    exists y :: 0 <= y < cells && labels(x, y) == k
  }

  ghost predicate UsedInRow(labels: Labels, cells: int, y: int, k: int) {
    exists x :: 0 <= x < cells && labels(x, y) == k
  }

  predicate AllBelowFloor(values: seq<C>) {
    forall i :: 0 <= i < |values| ==> NormSq(values[i]) <= AMPLITUDE_FLOOR * AMPLITUDE_FLOOR
  }

  /** The box grown by one cell and clamped to the domain. */
  function Expand(b: Box, cells: int): Box {
    Box(if b.x0 - 1 > 0 then b.x0 - 1 else 0, if b.x1 + 1 < cells then b.x1 + 1 else cells,
        if b.y0 - 1 > 0 then b.y0 - 1 else 0, if b.y1 + 1 < cells then b.y1 + 1 else cells)
  }

  predicate Clipped(b: Box, cells: int) { b.x0 == 0 || b.x1 == cells || b.y0 == 0 || b.y1 == cells }

  predicate Nonlocal(b: Box, cells: int) {
    4 * (b.x1 - b.x0) > cells || 4 * (b.y1 - b.y0) > cells
  }

  /** Two closed vertex rectangles share a vertex. */
  predicate Overlap(a: Box, b: Box) {
    && (if a.x0 > b.x0 then a.x0 else b.x0) <= (if a.x1 < b.x1 then a.x1 else b.x1)
    && (if a.y0 > b.y0 then a.y0 else b.y0) <= (if a.y1 < b.y1 then a.y1 else b.y1)
  }

  ghost predicate OverlapsOther(components: seq<Component>, i: nat)
    requires i < |components|
  {
    exists j :: 0 <= j < |components| && j != i && Overlap(components[i].loopBox, components[j].loopBox)
  }

  /** b is the tight box of the cells labelled k. */
  ghost predicate TightBox(b: Box, labels: Labels, cells: int, k: int) {
    && b.Proper() && b.Within(Box(0, cells, 0, cells))
    && (forall x, y :: 0 <= x < cells && 0 <= y < cells && labels(x, y) == k ==> b.HasCell(x, y))
    && UsedInColumn(labels, cells, b.x0, k) && UsedInColumn(labels, cells, b.x1 - 1, k)
    && UsedInRow(labels, cells, b.y0, k) && UsedInRow(labels, cells, b.y1 - 1, k)
  }

  /** The cells labelled k in row y left of x, in order. */
  function RowCells(labels: Labels, k: int, y: int, x: nat): seq<(int, int)> {
    if x == 0 then []
    else RowCells(labels, k, y, x - 1) + if labels(x - 1, y) == k then [(x - 1, y)] else []
  }

  /** The cells labelled k in the first rows of the grid, in row-major order. */
  function GridCells(labels: Labels, cells: nat, k: int, rows: nat): seq<(int, int)> {
    if rows == 0 then [] else GridCells(labels, cells, k, rows - 1) + RowCells(labels, k, rows - 1, cells)
  }

  function Columns(found: seq<(int, int)>): seq<int> { seq(|found|, i requires 0 <= i < |found| => found[i].0) }

  function Rows(found: seq<(int, int)>): seq<int> { seq(|found|, i requires 0 <= i < |found| => found[i].1) }

  function SumOf(xs: seq<int>): int {
    if xs == [] then 0 else SumOf(xs[..|xs| - 1]) + xs[|xs| - 1]
  }

  /** Mean of the cell centres along one axis, in cell units. */
  function Mean(xs: seq<int>): real {
    if xs == [] then 0.0 else SumOf(xs) as real / |xs| as real + 0.5
  }

  lemma {:induction false} RowCellsMember(labels: Labels, k: int, y: int, x: nat, c: (int, int))
    ensures c in RowCells(labels, k, y, x) <==> 0 <= c.0 < x && c.1 == y && labels(c.0, y) == k
  {
    if x == 0 {
    } else {
      RowCellsMember(labels, k, y, x - 1, c);
    }
  }

  lemma {:induction false} GridCellsMember(labels: Labels, cells: nat, k: int, rows: nat, c: (int, int))
    ensures c in GridCells(labels, cells, k, rows) <==>
      0 <= c.0 < cells && 0 <= c.1 < rows && labels(c.0, c.1) == k
  {
    if rows == 0 {
      assert GridCells(labels, cells, k, rows) == [];
    } else {
      var y := rows - 1;
      var above, row := GridCells(labels, cells, k, y), RowCells(labels, k, y, cells);
      assert GridCells(labels, cells, k, rows) == above + row;
      GridCellsMember(labels, cells, k, y, c);
      RowCellsMember(labels, k, y, cells, c);
      InEither(above, row, c);
    }
  }

  lemma GridCellsMembers(labels: Labels, cells: nat, k: int, rows: nat)
    ensures forall c :: c in GridCells(labels, cells, k, rows) <==>
      0 <= c.0 < cells && 0 <= c.1 < rows && labels(c.0, c.1) == k
  {
    forall c: (int, int)
      ensures c in GridCells(labels, cells, k, rows) <==>
        0 <= c.0 < cells && 0 <= c.1 < rows && labels(c.0, c.1) == k
    {
      GridCellsMember(labels, cells, k, rows, c);
    }
  }

  /** Everything about component k except the overlap flag. */
  ghost predicate Describes(c: Component, labels: Labels, cells: nat, k: int) {
    && c.id == k
    && c.cellCount == |GridCells(labels, cells, k, cells)| >= 1
    && TightBox(c.box, labels, cells, k)
    && c.loopBox == Expand(c.box, cells)
    && c.meanX == Mean(Columns(GridCells(labels, cells, k, cells)))
    && c.meanY == Mean(Rows(GridCells(labels, cells, k, cells)))
    && c.box.x0 as real < c.meanX < c.box.x1 as real
    && c.box.y0 as real < c.meanY < c.box.y1 as real
    && (BoundaryClipped in c.reasons <==> Clipped(c.box, cells))
    && (NonlocalCandidate in c.reasons <==> Nonlocal(c.box, cells))
    && (forall r :: r in c.reasons ==> r in {BoundaryClipped, NonlocalCandidate, OverlappingLoops})
  }

  /** What a locator result promises about the labelled candidate cells. */
  ghost predicate LocatorResult(components: seq<Component>, labels: Labels, cells: nat, count: nat) {
    && |components| == count
    && (forall i :: 0 <= i < count ==> Describes(components[i], labels, cells, i + 1))
    && (forall i :: 0 <= i < count ==> (OverlappingLoops in components[i].reasons <==> OverlapsOther(components, i)))
  }

  /** The cells labelled k, in row-major order. */
  method CellsOf(labels: Labels, cells: nat, k: int) returns (found: seq<(int, int)>)
    ensures found == GridCells(labels, cells, k, cells)
  {
    found := [];
    for y := 0 to cells
      invariant found == GridCells(labels, cells, k, y)
    {
      for x := 0 to cells
        invariant found == GridCells(labels, cells, k, y) + RowCells(labels, k, y, x)
      {
        if labels(x, y) == k {
          found := found + [(x, y)];
        }
      }
    }
  }

  lemma SumOfPrefix(xs: seq<int>, i: nat)
    requires i < |xs|
    ensures SumOf(xs[..i + 1]) == SumOf(xs[..i]) + xs[i]
  {
    assert xs[..i + 1][..i] == xs[..i];
  }

  /** Least, greatest and mean value along one axis. */
  method AxisExtent(xs: seq<int>) returns (lo: int, hi: int, mean: real)
    requires xs != []
    ensures lo in xs && hi in xs && (forall x :: x in xs ==> lo <= x <= hi)
    ensures mean == Mean(xs) && lo as real < mean < (hi + 1) as real
  {
    lo, hi := xs[0], xs[0];
    var sum := 0;
    for i := 0 to |xs|
      invariant lo in xs && hi in xs && lo <= hi
      invariant forall j :: 0 <= j < i ==> lo <= xs[j] <= hi
      invariant sum == SumOf(xs[..i]) && i * lo <= sum <= i * hi
    {
      ghost var (lo0, hi0) := (lo, hi);
      lo, hi := if xs[i] < lo then xs[i] else lo, if xs[i] > hi then xs[i] else hi;
      BoundsGrow(i, sum, xs[i], lo0, hi0, lo, hi);
      SumOfPrefix(xs, i);
      sum := sum + xs[i];
    }
    assert xs[..|xs|] == xs;
    mean := sum as real / |xs| as real + 0.5;
    MeanBounds(sum, |xs|, lo, hi);
  }

  lemma BoundsGrow(i: nat, sum: int, x: int, lo: int, hi: int, lo': int, hi': int)
    requires i * lo <= sum <= i * hi && lo' <= lo && lo' <= x && hi <= hi' && x <= hi'
    ensures (i + 1) * lo' <= sum + x <= (i + 1) * hi'
  {
    assert i * lo' <= i * lo && i * hi <= i * hi';
  }

  lemma MeanBounds(sum: int, n: int, lo: int, hi: int)
    requires n > 0 && n * lo <= sum <= n * hi
    ensures lo as real <= sum as real / n as real <= hi as real
  {
    var m := n as real;
    DivideMonotone((n * lo) as real, sum as real, m);
    DivideMonotone(sum as real, (n * hi) as real, m);
    assert (n * lo) as real == m * lo as real && (n * hi) as real == m * hi as real;
  }

  /** The box spanned by the cells labelled k is tight. */
  lemma ExtentIsTight(b: Box, labels: Labels, cells: nat, k: int)
    requires b.x0 < b.x1 && b.y0 < b.y1
    requires var xs := Columns(GridCells(labels, cells, k, cells));
      b.x0 in xs && b.x1 - 1 in xs && (forall x :: x in xs ==> b.x0 <= x <= b.x1 - 1)
    requires var ys := Rows(GridCells(labels, cells, k, cells));
      b.y0 in ys && b.y1 - 1 in ys && (forall y :: y in ys ==> b.y0 <= y <= b.y1 - 1)
    ensures TightBox(b, labels, cells, k)
  {
    var found := GridCells(labels, cells, k, cells);
    var xs, ys := Columns(found), Rows(found);
    GridCellsMembers(labels, cells, k, cells);
    forall x | x in xs
      ensures 0 <= x < cells && UsedInColumn(labels, cells, x, k)
    {
      var i :| 0 <= i < |xs| && xs[i] == x;
      assert found[i] in found;
    }
    forall y | y in ys
      ensures 0 <= y < cells && UsedInRow(labels, cells, y, k)
    {
      var i :| 0 <= i < |ys| && ys[i] == y;
      assert found[i] in found;
    }
    forall x, y | 0 <= x < cells && 0 <= y < cells && labels(x, y) == k
      ensures b.HasCell(x, y)
    {
      assert (x, y) in found;
      var i :| 0 <= i < |found| && found[i] == (x, y);
      assert xs[i] == x && ys[i] == y;
      assert x in xs && y in ys;
    }
  }

  lemma UsedIsFound(labels: Labels, cells: nat, k: int)
    requires Used(labels, cells, k)
    ensures GridCells(labels, cells, k, cells) != []
  {
    GridCellsMembers(labels, cells, k, cells);
    var x, y :| 0 <= x < cells && 0 <= y < cells && labels(x, y) == k;
    assert (x, y) in GridCells(labels, cells, k, cells);
  }

  /** One component record, before the overlap pass. */
  method DescribeComponent(labels: Labels, cells: nat, k: int) returns (c: Component)
    requires Used(labels, cells, k)
    ensures Describes(c, labels, cells, k) && OverlappingLoops !in c.reasons
  {
    var found := CellsOf(labels, cells, k);
    UsedIsFound(labels, cells, k);
    var x0, x1, meanX := AxisExtent(Columns(found));
    var y0, y1, meanY := AxisExtent(Rows(found));
    var b := Box(x0, x1 + 1, y0, y1 + 1);
    ExtentIsTight(b, labels, cells, k);
    var clipped := if Clipped(b, cells) then [BoundaryClipped] else [];
    var nonlocal := if Nonlocal(b, cells) then [NonlocalCandidate] else [];
    c := Component(k, |found|, b, Expand(b, cells), meanX, meanY, clipped + nonlocal);
  }

  /** The pair (a, b) of component indices has been examined after the inner loop position (i, j). */
  ghost predicate Examined(a: int, b: int, i: int, j: int) { a < b && (a < i || (a == i && b < j)) }

  ghost predicate Flagged(base: seq<Component>, k: nat, i: int, j: int)
    requires k < |base|
  {
    exists m :: 0 <= m < |base| && (Examined(k, m, i, j) || Examined(m, k, i, j)) &&
      Overlap(base[k].loopBox, base[m].loopBox)
  }

  /** The records after the pairs before (i, j) have been examined. */
  ghost predicate FlaggedSoFar(base: seq<Component>, cs: seq<Component>, i: int, j: int) {
    && |cs| == |base|
    && (forall k :: 0 <= k < |base| ==>
          && cs[k] == base[k].(reasons := cs[k].reasons)
          && (OverlappingLoops in cs[k].reasons <==> Flagged(base, k, i, j))
          && (forall r :: r != OverlappingLoops ==> (r in cs[k].reasons <==> r in base[k].reasons)))
  }

  lemma FlagStep(base: seq<Component>, cs: seq<Component>, cs': seq<Component>, i: nat, j: nat)
    requires FlaggedSoFar(base, cs, i, j) && i < j < |base| && |cs'| == |cs|
    requires forall k :: 0 <= k < |cs| && !(k in {i, j} && Overlap(cs[i].loopBox, cs[j].loopBox)) ==> cs'[k] == cs[k]
    requires Overlap(cs[i].loopBox, cs[j].loopBox) ==>
      forall k :: k in {i, j} ==> cs'[k] == cs[k].(reasons := cs[k].reasons + [OverlappingLoops])
    ensures FlaggedSoFar(base, cs', i, j + 1)
  {
    forall k | 0 <= k < |base|
      ensures OverlappingLoops in cs'[k].reasons <==> Flagged(base, k, i, j + 1)
    {
      var hit := Overlap(base[i].loopBox, base[j].loopBox);
      if Flagged(base, k, i, j) {
        var m :| 0 <= m < |base| && (Examined(k, m, i, j) || Examined(m, k, i, j))
          && Overlap(base[k].loopBox, base[m].loopBox);
        assert Examined(k, m, i, j + 1) || Examined(m, k, i, j + 1);
        assert Flagged(base, k, i, j + 1);
      } else if k == i && hit {
        assert Examined(k, j, i, j + 1);
        assert Flagged(base, k, i, j + 1);
      } else if k == j && hit {
        assert Examined(i, k, i, j + 1);
        assert Overlap(base[k].loopBox, base[i].loopBox);
        assert Flagged(base, k, i, j + 1);
      } else if Flagged(base, k, i, j + 1) {
        var m :| 0 <= m < |base| && (Examined(k, m, i, j + 1) || Examined(m, k, i, j + 1))
          && Overlap(base[k].loopBox, base[m].loopBox);
        assert false;
      }
    }
  }

  /** The records with the overlap reason appended to one of them. */
  function WithReason(cs: seq<Component>, i: nat): seq<Component>
    requires i < |cs|
  {
    cs[i := cs[i].(reasons := cs[i].reasons + [OverlappingLoops])]
  }

  lemma FlagPair(base: seq<Component>, cs: seq<Component>, i: nat, j: nat)
    requires FlaggedSoFar(base, cs, i, j) && i < j < |base|
    ensures FlaggedSoFar(base, if Overlap(cs[i].loopBox, cs[j].loopBox) then WithReason(WithReason(cs, i), j) else cs,
                         i, j + 1)
  {
    FlagStep(base, cs, if Overlap(cs[i].loopBox, cs[j].loopBox) then WithReason(WithReason(cs, i), j) else cs, i, j);
  }

  /** Append the overlap reason to both records of every overlapping pair. */
  method FlagOverlaps(base: seq<Component>) returns (cs: seq<Component>)
    requires forall k :: 0 <= k < |base| ==> OverlappingLoops !in base[k].reasons
    ensures FlaggedSoFar(base, cs, |base|, |base|)
  {
    cs := base;
    for i := 0 to |base|
      invariant FlaggedSoFar(base, cs, i, i + 1)
    {
      for j := i + 1 to |base|
        invariant FlaggedSoFar(base, cs, i, j)
      {
        FlagPair(base, cs, i, j);
        if Overlap(cs[i].loopBox, cs[j].loopBox) {
          cs := WithReason(WithReason(cs, i), j);
        }
      }
      SamePairs(base, cs, i, |base|, i + 1, i + 2);
    }
    SamePairs(base, cs, |base|, |base| + 1, |base|, |base|);
  }

  /** Two loop positions that have examined the same pairs. */
  lemma SamePairs(base: seq<Component>, cs: seq<Component>, i: int, j: int, i': int, j': int)
    requires FlaggedSoFar(base, cs, i, j)
    requires forall a, b :: 0 <= a < |base| && 0 <= b < |base| ==> (Examined(a, b, i, j) <==> Examined(a, b, i', j'))
    ensures FlaggedSoFar(base, cs, i', j')
  {
    forall k | 0 <= k < |base|
      ensures Flagged(base, k, i, j) <==> Flagged(base, k, i', j')
    {
    }
  }

  /** Charge-blind location of candidate components on an ordered square grid of samples. */
  method Locate(values: seq<C>, side: nat, labels: Labels, count: nat) returns (r: Candidates)
    requires side >= 5 && |values| == side * side ==> IsLabelling(FieldAt(values, side), side - 1, labels, count)
    ensures r.Rejected? <==> side < 5 || |values| != side * side
    ensures r.GloballyBelowFloor? <==> !r.Rejected? && AllBelowFloor(values)
    ensures r.Located? ==> LocatorResult(r.components, labels, side - 1, count)
  {
    if side < 5 || |values| != side * side {
      return Rejected;
    }
    if AllBelowFloor(values) {
      return GloballyBelowFloor;
    }
    var base := DescribeAll(labels, side - 1, count);
    var cs := FlagOverlaps(base);
    OverlapFlagsMeaning(base, cs);
    FlagsKeepDescriptions(base, cs, labels, side - 1);
    r := Located(cs);
  }

  /** All component records in label order, before the overlap pass. */
  method DescribeAll(labels: Labels, cells: nat, count: nat) returns (base: seq<Component>)
    requires forall k :: 1 <= k <= count ==> Used(labels, cells, k)
    ensures |base| == count
    ensures forall i :: 0 <= i < count ==>
      Describes(base[i], labels, cells, i + 1) && OverlappingLoops !in base[i].reasons
  {
    base := [];
    for k := 0 to count
      invariant |base| == k
      invariant forall i :: 0 <= i < k ==>
        Describes(base[i], labels, cells, i + 1) && OverlappingLoops !in base[i].reasons
    {
      var c := DescribeComponent(labels, cells, k + 1);
      base := base + [c];
    }
  }

  lemma FlagsKeepDescriptions(base: seq<Component>, cs: seq<Component>, labels: Labels, cells: nat)
    requires FlaggedSoFar(base, cs, |base|, |base|)
    requires forall i :: 0 <= i < |base| ==> Describes(base[i], labels, cells, i + 1)
    ensures forall i :: 0 <= i < |cs| ==> Describes(cs[i], labels, cells, i + 1)
  {
    forall i | 0 <= i < |cs|
      ensures Describes(cs[i], labels, cells, i + 1)
    {
      assert Describes(base[i], labels, cells, i + 1);
      assert cs[i] == base[i].(reasons := cs[i].reasons);
    }
  }

  lemma OverlapFlagsMeaning(base: seq<Component>, cs: seq<Component>)
    requires FlaggedSoFar(base, cs, |base|, |base|)
    ensures forall k :: 0 <= k < |cs| ==> (OverlappingLoops in cs[k].reasons <==> OverlapsOther(cs, k))
  {
    forall k | 0 <= k < |cs|
      ensures Flagged(base, k, |base|, |base|) <==> OverlapsOther(cs, k)
    {
      if Flagged(base, k, |base|, |base|) {
        var m :| 0 <= m < |base| && (Examined(k, m, |base|, |base|) || Examined(m, k, |base|, |base|))
          && Overlap(base[k].loopBox, base[m].loopBox);
        assert m != k && Overlap(cs[k].loopBox, cs[m].loopBox);
      }
      if OverlapsOther(cs, k) {
        var m :| 0 <= m < |cs| && m != k && Overlap(cs[k].loopBox, cs[m].loopBox);
        assert Examined(k, m, |base|, |base|) || Examined(m, k, |base|, |base|);
        assert Overlap(base[k].loopBox, base[m].loopBox);
      }
    }
  }

  /** A component with its loop readout. */
  datatype Reading = Reading(component: Component, diagnostic: Readout, unresolved: set<Reason>, resolvedCharged: bool)

  datatype Reconstruction = Reconstruction(components: seq<Reading>, outer: Readout)

  /** The reading of one component from the samples along its loop. */
  function ReadComponent(step: StepFn, limit: real, c: Component, samples: seq<C>): Reading
    requires |samples| >= 3
  {
    var d := Diagnostic(step, limit, samples);
    var unresolved := (set r | r in c.reasons) + (set r | r in d.reasons);
    Reading(c, d, unresolved, unresolved == {} && d.winding != Some(0))
  }

  /** r holds exactly the readings of the component loops and of the outer loop of the field g. */
  ghost predicate IsReading(r: Reconstruction, step: StepFn, limit: real, g: Field, cells: nat,
                            components: seq<Component>)
    requires cells > 0
  {
    && |r.components| == |components|
    && (forall i :: 0 <= i < |components| ==>
          && components[i].loopBox.Proper()
          && r.components[i] == ReadComponent(step, limit, components[i], LoopSamples(g, components[i].loopBox)))
    && r.outer == Diagnostic(step, limit, LoopSamples(g, Box(0, cells, 0, cells)))
  }

  /** The reading of one component from the stored rows of its loop. */
  function ReadStored(step: StepFn, limit: real, values: seq<C>, side: nat, c: Component): (r: Reading)
    requires |values| == side * side && c.loopBox.Proper() && c.loopBox.Within(Domain(side))
    ensures r == ReadComponent(step, limit, c, LoopSamples(FieldAt(values, side), c.loopBox))
  {
    ReadComponent(step, limit, c, StoredSamples(values, side, c.loopBox))
  }

  function ReadRim(step: StepFn, limit: real, values: seq<C>, side: nat): (r: Readout)
    requires |values| == side * side && side >= 2
    ensures r == Diagnostic(step, limit, LoopSamples(FieldAt(values, side), Box(0, side - 1, 0, side - 1)))
  {
    Diagnostic(step, limit, StoredSamples(values, side, Domain(side)))
  }

  /** Read every component loop, then the outer loop. */
  method ReadLocalLoops(step: StepFn, limit: real, values: seq<C>, side: nat, components: seq<Component>)
    returns (r: Reconstruction)
    requires |values| == side * side && side >= 2
    requires forall i :: 0 <= i < |components| ==>
      components[i].loopBox.Proper() && components[i].loopBox.Within(Domain(side))
    ensures IsReading(r, step, limit, FieldAt(values, side), side - 1, components)
  {
    var read := (c: Component) requires c.loopBox.Proper() && c.loopBox.Within(Domain(side)) =>
      ReadStored(step, limit, values, side, c);
    var readings := ReadEach(read, components);
    r := Reconstruction(readings, ReadRim(step, limit, values, side));
  }

  /** Read the components one after the other. */
  method ReadEach(read: Component --> Reading, components: seq<Component>) returns (readings: seq<Reading>)
    requires forall i :: 0 <= i < |components| ==> read.requires(components[i])
    ensures |readings| == |components|
    ensures forall i :: 0 <= i < |components| ==> readings[i] == read(components[i])
  {
    readings := [];
    for i := 0 to |components|
      invariant |readings| == i
      invariant forall j :: 0 <= j < i ==> readings[j] == read(components[j])
    {
      readings := readings + [read(components[i])];
    }
  }

  function LoopBoxes(components: seq<Component>): seq<Box> {
    seq(|components|, i requires 0 <= i < |components| => components[i].loopBox)
  }

  /** A candidate cell lies in the tight box of exactly the component that owns it. */
  lemma OwnerOfCandidate(g: Field, cells: nat, labels: Labels, count: nat, components: seq<Component>, x: int, y: int)
    returns (i: nat)
    requires IsLabelling(g, cells, labels, count) && LocatorResult(components, labels, cells, count)
    requires 0 <= x < cells && 0 <= y < cells && Candidate(g, x, y)
    ensures i < count && components[i].box.HasCell(x, y) && components[i].loopBox.HasCell(x, y)
    ensures components[i].loopBox.HasVertex(x, y)
  {
    i := labels(x, y) - 1;
    assert Describes(components[i], labels, cells, i + 1);
  }

  /** Without an overlap flag the loop boxes separate the candidate cells. */
  lemma LocatorSeparates(g: Field, cells: nat, labels: Labels, count: nat, components: seq<Component>)
    requires IsLabelling(g, cells, labels, count) && LocatorResult(components, labels, cells, count)
    requires forall i :: 0 <= i < count ==> OverlappingLoops !in components[i].reasons
    ensures Separates(g, cells, LoopBoxes(components))
  {
    var boxes := LoopBoxes(components);
    forall i | 0 <= i < count
      ensures boxes[i].Proper() && boxes[i].Within(Box(0, cells, 0, cells))
      ensures RimQuiet(g, cells, boxes[i])
    {
      LoopBoxQuiet(g, cells, labels, count, components, i);
    }
    forall i, j | 0 <= i < j < count
      ensures CellDisjoint(boxes[i], boxes[j])
    {
      LoopBoxesApart(components, i, j);
    }
    forall x, y | 0 <= x < cells && 0 <= y < cells && Candidate(g, x, y)
      ensures exists i :: 0 <= i < |boxes| && boxes[i].HasCell(x, y)
    {
      var i := OwnerOfCandidate(g, cells, labels, count, components, x, y);
      assert boxes[i].HasCell(x, y);
    }
  }

  lemma LoopBoxesApart(components: seq<Component>, i: nat, j: nat)
    requires i < j < |components| && !OverlapsOther(components, i)
    requires components[i].loopBox.Proper() && components[j].loopBox.Proper()
    ensures CellDisjoint(components[i].loopBox, components[j].loopBox)
  {
    assert !Overlap(components[i].loopBox, components[j].loopBox);
  }

  lemma LoopBoxQuiet(g: Field, cells: nat, labels: Labels, count: nat, components: seq<Component>, i: nat)
    requires IsLabelling(g, cells, labels, count) && LocatorResult(components, labels, cells, count)
    requires i < count && OverlappingLoops !in components[i].reasons
    ensures components[i].loopBox.Proper() && components[i].loopBox.Within(Box(0, cells, 0, cells))
    ensures RimQuiet(g, cells, components[i].loopBox)
  {
    assert Describes(components[i], labels, cells, i + 1);
    TopRowQuiet(g, cells, labels, count, components, i);
    LeftColumnQuiet(g, cells, labels, count, components, i);
  }

  lemma TopRowQuiet(g: Field, cells: nat, labels: Labels, count: nat, components: seq<Component>, i: nat)
    requires IsLabelling(g, cells, labels, count) && LocatorResult(components, labels, cells, count)
    requires i < count && OverlappingLoops !in components[i].reasons
    ensures var b := components[i].loopBox; b.y1 < cells ==> RowQuiet(g, b.x0, b.x1, b.y1 - 1)
  {
    assert Describes(components[i], labels, cells, i + 1);
    var b := components[i].loopBox;
    var y := b.y1 - 1;
    forall x | b.y1 < cells && b.x0 <= x < b.x1
      ensures !Candidate(g, x, y)
    {
      RingIsQuiet(g, cells, labels, count, components, i, x, y);
    }
  }

  lemma LeftColumnQuiet(g: Field, cells: nat, labels: Labels, count: nat, components: seq<Component>, i: nat)
    requires IsLabelling(g, cells, labels, count) && LocatorResult(components, labels, cells, count)
    requires i < count && OverlappingLoops !in components[i].reasons
    ensures var b := components[i].loopBox; b.x0 > 0 ==> ColQuiet(g, b.x0, b.y0, b.y1)
  {
    assert Describes(components[i], labels, cells, i + 1);
    var b := components[i].loopBox;
    forall y | b.x0 > 0 && b.y0 <= y < b.y1
      ensures !Candidate(g, b.x0, y)
    {
      RingIsQuiet(g, cells, labels, count, components, i, b.x0, y);
    }
  }

  /** A cell of a loop box that is outside the tight box is no candidate. */
  lemma RingIsQuiet(g: Field, cells: nat, labels: Labels, count: nat, components: seq<Component>, i: nat, x: int,
                    y: int)
    requires IsLabelling(g, cells, labels, count) && LocatorResult(components, labels, cells, count)
    requires i < count && OverlappingLoops !in components[i].reasons
    requires components[i].loopBox.HasCell(x, y) && !components[i].box.HasCell(x, y)
    ensures !Candidate(g, x, y)
  {
    assert Describes(components[i], labels, cells, i + 1);
    if Candidate(g, x, y) {
      var j := OwnerOfCandidate(g, cells, labels, count, components, x, y);
      assert Overlap(components[i].loopBox, components[j].loopBox);
    }
  }

  /** Sum of the closed angles read round the component loops. */
  function TotalAngle(readings: seq<Reading>): real {
    if readings == [] then 0.0 else readings[0].diagnostic.closedAngle + TotalAngle(readings[1..])
  }

  /** Sum of the windings of the component loops; a loop without one counts zero. */
  function TotalWinding(readings: seq<Reading>): int {
    if readings == [] then 0
    else (if readings[0].diagnostic.winding.Some? then readings[0].diagnostic.winding.value else 0)
         + TotalWinding(readings[1..])
  }

  lemma {:induction false} TotalAngleAlong(components: seq<Component>, readings: seq<Reading>, s: Steps)
    requires |readings| == |components|
    requires forall i :: 0 <= i < |components| ==> readings[i].diagnostic.closedAngle == s.Along(components[i].loopBox)
    ensures TotalAngle(readings) == AlongAll(s, LoopBoxes(components))
  {
    if components == [] {
    } else {
      TotalAngleAlong(components[1..], readings[1..], s);
      assert LoopBoxes(components)[1..] == LoopBoxes(components[1..]);
    }
  }

  /**
   Conservation: on every field and grid, when no component is flagged as overlapping, the angle
   total round the domain boundary is the sum of the totals round the component loops.
   */
  lemma AngleTotalsConserved(step: StepFn, limit: real, g: Field, cells: nat, labels: Labels, count: nat,
                             components: seq<Component>, r: Reconstruction)
    requires StepLaws(step) && cells > 0
    requires IsLabelling(g, cells, labels, count) && LocatorResult(components, labels, cells, count)
    requires forall i :: 0 <= i < count ==> OverlappingLoops !in components[i].reasons
    requires IsReading(r, step, limit, g, cells, components)
    ensures r.outer.closedAngle == TotalAngle(r.components)
  {
    var s := StepsOf(step, g);
    LocatorSeparates(g, cells, labels, count, components);
    AngleConserved(step, g, s, cells, LoopBoxes(components));
    ReadingAlongSides(step, limit, g, cells, components, r, s);
  }

  /** The readout's closed angles are the side totals of its loops. */
  lemma ReadingAlongSides(step: StepFn, limit: real, g: Field, cells: nat,
                          components: seq<Component>, r: Reconstruction, s: Steps)
    requires cells > 0 && s.Of(step, g) && IsReading(r, step, limit, g, cells, components)
    ensures r.outer.closedAngle == s.Along(Box(0, cells, 0, cells))
    ensures TotalAngle(r.components) == AlongAll(s, LoopBoxes(components))
  {
    LoopAngleBySides(step, g, Box(0, cells, 0, cells), s);
    forall i | 0 <= i < |components|
      ensures r.components[i].diagnostic.closedAngle == s.Along(components[i].loopBox)
    {
      LoopAngleBySides(step, g, components[i].loopBox, s);
    }
    TotalAngleAlong(components, r.components, s);
  }

  lemma {:induction false} TotalAngleInTurns(readings: seq<Reading>)
    requires forall i :: 0 <= i < |readings| ==>
      && readings[i].diagnostic.winding.Some?
      && readings[i].diagnostic.closedAngle == readings[i].diagnostic.winding.value as real
    ensures TotalAngle(readings) == TotalWinding(readings) as real
  {
    if readings == [] {
    } else {
      TotalAngleInTurns(readings[1..]);
    }
  }

  /** When every loop is reliable and none overlaps, the outer winding is the sum of the local windings. */
  lemma WindingConserved(step: StepFn, limit: real, g: Field, cells: nat, labels: Labels, count: nat,
                         components: seq<Component>, r: Reconstruction)
    requires StepLaws(step) && cells > 0
    requires IsLabelling(g, cells, labels, count) && LocatorResult(components, labels, cells, count)
    requires IsReading(r, step, limit, g, cells, components)
    requires forall i :: 0 <= i < count ==>
      OverlappingLoops !in r.components[i].unresolved && r.components[i].diagnostic.winding.Some?
    requires r.outer.winding.Some?
    ensures r.outer.winding.value == TotalWinding(r.components)
  {
    forall i | 0 <= i < count
      ensures OverlappingLoops !in components[i].reasons
    {
      assert r.components[i] == ReadComponent(step, limit, components[i], LoopSamples(g, components[i].loopBox));
    }
    AngleTotalsConserved(step, limit, g, cells, labels, count, components, r);
    WindingTotals(step, limit, g, cells, components, r);
  }

  /** Both conservation results for the step the estimator takes: the principal angle of a sample times a conjugate. */
  lemma PrincipalConservation(arg: C -> real, limit: real, g: Field, cells: nat, labels: Labels, count: nat,
                              components: seq<Component>, r: Reconstruction)
    requires IsAngle(arg) && cells > 0
    requires IsLabelling(g, cells, labels, count) && LocatorResult(components, labels, cells, count)
    requires IsReading(r, PrincipalStep(arg), limit, g, cells, components)
    requires forall i :: 0 <= i < count ==> OverlappingLoops !in components[i].reasons
    ensures r.outer.closedAngle == TotalAngle(r.components)
    ensures r.outer.winding.Some? && (forall i :: 0 <= i < count ==> r.components[i].diagnostic.winding.Some?) ==>
      r.outer.winding.value == TotalWinding(r.components)
  {
    PrincipalStepLaws(arg);
    AngleTotalsConserved(PrincipalStep(arg), limit, g, cells, labels, count, components, r);
    if r.outer.winding.Some? && forall i :: 0 <= i < count ==> r.components[i].diagnostic.winding.Some? {
      WindingTotals(PrincipalStep(arg), limit, g, cells, components, r);
    }
  }

  lemma WindingTotals(step: StepFn, limit: real, g: Field, cells: nat, components: seq<Component>, r: Reconstruction)
    requires StepLaws(step) && cells > 0 && IsReading(r, step, limit, g, cells, components)
    requires forall i :: 0 <= i < |components| ==> r.components[i].diagnostic.winding.Some?
    requires r.outer.winding.Some? && r.outer.closedAngle == TotalAngle(r.components)
    ensures r.outer.winding.value == TotalWinding(r.components)
  {
    forall i | 0 <= i < |components|
      ensures r.components[i].diagnostic.closedAngle == r.components[i].diagnostic.winding.value as real
    {
      DiagnosticExact(step, limit, LoopSamples(g, components[i].loopBox));
    }
    TotalAngleInTurns(r.components);
    DiagnosticExact(step, limit, LoopSamples(g, Box(0, cells, 0, cells)));
  }

  /** A field the locator declares globally below the floor never yields an outer winding. */
  lemma BelowFloorHasNoWinding(step: StepFn, limit: real, values: seq<C>, side: nat)
    requires side >= 2 && |values| == side * side && AllBelowFloor(values)
    ensures Diagnostic(step, limit, LoopSamples(FieldAt(values, side), Domain(side))).winding.None?
  {
    var loop := StoredSamples(values, side, Domain(side));
    RectangleLoopAdmissible(side, Domain(side));
    assert loop[0] == values[RectangleVertices(side, Domain(side))[0]];
    assert TouchesFloor(loop);
  }

  /**
   Locate, then read: the whole reconstruction of one field. Its promises are what
   AngleTotalsConserved and WindingConserved ask for.
   */
  method Reconstruct(step: StepFn, limit: real, values: seq<C>, side: nat, labels: Labels, count: nat)
    returns (found: Candidates, r: Reconstruction)
    requires StepLaws(step) && side >= 5 && |values| == side * side
    requires IsLabelling(FieldAt(values, side), side - 1, labels, count)
    ensures found.GloballyBelowFloor? ==> r.components == [] && r.outer.winding.None?
    ensures found.Located? ==> LocatorResult(found.components, labels, side - 1, count)
    ensures found.Located? ==>
      IsReading(r, step, limit, FieldAt(values, side), side - 1, found.components)
  {
    found := Locate(values, side, labels, count);
    if found.GloballyBelowFloor? {
      r := ReadLocalLoops(step, limit, values, side, []);
      BelowFloorHasNoWinding(step, limit, values, side);
    } else {
      var components := found.components;
      LoopsInDomain(components, labels, side, count);
      r := ReadLocalLoops(step, limit, values, side, components);
    }
  }

  lemma LoopsInDomain(components: seq<Component>, labels: Labels, side: nat, count: nat)
    requires side >= 2 && LocatorResult(components, labels, side - 1, count)
    ensures forall i :: 0 <= i < |components| ==>
      components[i].loopBox.Proper() && components[i].loopBox.Within(Domain(side))
  {
    forall i | 0 <= i < count
      ensures components[i].loopBox.Proper() && components[i].loopBox.Within(Domain(side))
    {
      assert Describes(components[i], labels, side - 1, i + 1);
    }
  }
}
