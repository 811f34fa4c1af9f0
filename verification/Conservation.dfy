/** The locator's cell mask and the conservation of the angle total it makes possible. */
module Conservation {
  import opened Complex
  import opened GridSums
  import opened Winding
  import opened LoopReadout

  const CELL_SLACK := 0.000000000001

  /** The sampled range of one coordinate over four corners reaches zero, up to the slack. */
  predicate Straddles(a: real, b: real, c: real, d: real) {
    && (a <= CELL_SLACK || b <= CELL_SLACK || c <= CELL_SLACK || d <= CELL_SLACK)
    && (a >= -CELL_SLACK || b >= -CELL_SLACK || c >= -CELL_SLACK || d >= -CELL_SLACK)
  }

  /** Cell (x, y) may hold a zero: both coordinates straddle zero over its corners. */
  predicate Candidate(g: Field, x: int, y: int) {
    var a, b, c, d := g(x, y), g(x + 1, y), g(x, y + 1), g(x + 1, y + 1);
    Straddles(a.re, b.re, c.re, d.re) && Straddles(a.im, b.im, c.im, d.im)
  }

  /** All four corners of a skipped cell lie in one open coordinate half-plane. */
  lemma SkippedCellSide(g: Field, x: int, y: int) returns (s: Side)
    requires !Candidate(g, x, y)
    ensures s.Has(g(x, y)) && s.Has(g(x + 1, y)) && s.Has(g(x, y + 1)) && s.Has(g(x + 1, y + 1))
    ensures ClearCell(g, s, x, y)
  {
    var a, b, c, d := g(x, y), g(x + 1, y), g(x, y + 1), g(x + 1, y + 1);
    if a.re > CELL_SLACK && b.re > CELL_SLACK && c.re > CELL_SLACK && d.re > CELL_SLACK {
      s := Right;
    } else if a.im > CELL_SLACK && b.im > CELL_SLACK && c.im > CELL_SLACK && d.im > CELL_SLACK {
      s := Up;
    } else if a.re < -CELL_SLACK && b.re < -CELL_SLACK && c.re < -CELL_SLACK && d.re < -CELL_SLACK {
      s := Left;
    } else {
      s := Down;
    }
  }

  /** Inside a half-plane by more than the slack: its border is as far as the axis is from the rotated point. */
  predicate ClearOf(s: Side, z: C) { s.ToRight(z).re > CELL_SLACK }

  /** All four corners of a cell lie in one half-plane by more than the slack. */
  predicate ClearCell(g: Field, s: Side, x: int, y: int) {
    ClearOf(s, g(x, y)) && ClearOf(s, g(x + 1, y)) && ClearOf(s, g(x, y + 1)) && ClearOf(s, g(x + 1, y + 1))
  }

  /** The mask skips exactly the cells whose corners all lie in one coordinate half-plane by more than the slack. */
  lemma SkippedExactly(g: Field, x: int, y: int)
    ensures !Candidate(g, x, y) <==> exists s: Side :: ClearCell(g, s, x, y)
  {
    if !Candidate(g, x, y) {
      var s := SkippedCellSide(g, x, y);
      assert ClearCell(g, s, x, y);
    }
  }

  lemma StepBackOnSide(step: StepFn, s: Side, z: C, w: C)
    requires StepLaws(step) && s.Has(z) && s.Has(w)
    ensures step(w, z) == -step(z, w)
  {
    assert step(z, z) == Detour(step, z, w, z);
    assert step(z, z) == Detour(step, z, z, z);
  }

  /** Round a skipped cell the steps reverse exactly and their circulation is zero. */
  lemma SkippedCellQuiet(step: StepFn, g: Field, x: int, y: int)
    requires StepLaws(step) && !Candidate(g, x, y)
    ensures StepLeft(step, g, x, y) == -StepRight(step, g, x, y)
    ensures StepLeft(step, g, x, y + 1) == -StepRight(step, g, x, y + 1)
    ensures StepDown(step, g, x, y) == -StepUp(step, g, x, y)
    ensures StepDown(step, g, x + 1, y) == -StepUp(step, g, x + 1, y)
    ensures StepRight(step, g, x, y) + StepUp(step, g, x + 1, y)
         == StepUp(step, g, x, y) + StepRight(step, g, x, y + 1)
  {
    var s := SkippedCellSide(g, x, y);
    var a, b, c, d := g(x, y), g(x + 1, y), g(x, y + 1), g(x + 1, y + 1);
    StepBackOnSide(step, s, a, b);
    StepBackOnSide(step, s, c, d);
    StepBackOnSide(step, s, a, c);
    StepBackOnSide(step, s, b, d);
    assert step(a, d) == Detour(step, a, b, d);
    assert step(a, d) == Detour(step, a, c, d);
  }

  /**
   One antisymmetric form per field. Off the top and left rims an edge carries its forward step;
   on those rims, which every loop runs backwards, it carries minus the backward step.
   */
  function RowForm(s: Steps, cells: int): Form {
    (x: int, y: int) => if y == cells then -s.left(x, y) else s.right(x, y)
  }

  function ColForm(s: Steps): Form {
    (x: int, y: int) => if x == 0 then -s.down(x, y) else s.up(x, y)
  }

  /** The steps of the top and left sides of b reverse exactly, unless that side lies on the rim. */
  ghost predicate ReversesOnRim(s: Steps, cells: int, b: Box) {
    && (b.y1 < cells ==> forall x :: b.x0 <= x < b.x1 ==> s.left(x, b.y1) == -s.right(x, b.y1))
    && (b.x0 > 0 ==> forall y :: b.y0 <= y < b.y1 ==> s.down(b.x0, y) == -s.up(b.x0, y))
  }

  lemma AlongIsCirculation(s: Steps, cells: int, b: Box, h: Form, v: Form)
    requires h == RowForm(s, cells) && v == ColForm(s)
    requires b.Proper() && b.Within(Box(0, cells, 0, cells)) && ReversesOnRim(s, cells, b)
    ensures s.Along(b) == Circulation(h, v, b)
  {
    RowCong(h, s.right, b.x0, b.x1, b.y0);
    SameCol(v, s.up, b.x1, b.y0, b.y1);
    NegatedRow(h, s.left, b.x0, b.x1, b.y1);
    NegatedCol(v, s.down, b.x0, b.y0, b.y1);
  }

  lemma SkippedCurlZero(step: StepFn, g: Field, s: Steps, cells: int, x: int, y: int)
    requires StepLaws(step) && s.Of(step, g) && !Candidate(g, x, y)
    ensures CellCirculation(RowForm(s, cells), ColForm(s), x, y) == 0.0
  {
    SkippedCellQuiet(step, g, x, y);
  }

  /** The boxes whose loops are read share no cell, hold every candidate cell, and have quiet rims. */
  ghost predicate Separates(g: Field, cells: int, boxes: seq<Box>) {
    && (forall i :: 0 <= i < |boxes| ==> boxes[i].Proper() && boxes[i].Within(Box(0, cells, 0, cells)))
    && (forall i, j :: 0 <= i < j < |boxes| ==> CellDisjoint(boxes[i], boxes[j]))
    && (forall x, y :: 0 <= x < cells && 0 <= y < cells && Candidate(g, x, y) ==>
          exists i :: 0 <= i < |boxes| && boxes[i].HasCell(x, y))
    && (forall i :: 0 <= i < |boxes| ==> RimQuiet(g, cells, boxes[i]))
  }

  /** No candidate cell touches the top or left side of b from inside, unless that side lies on the rim. */
  ghost predicate RimQuiet(g: Field, cells: int, b: Box) {
    && (b.y1 < cells ==> RowQuiet(g, b.x0, b.x1, b.y1 - 1))
    && (b.x0 > 0 ==> ColQuiet(g, b.x0, b.y0, b.y1))
  }

  ghost predicate RowQuiet(g: Field, x0: int, x1: int, y: int) {
    forall x :: x0 <= x < x1 ==> !Candidate(g, x, y)
  }

  ghost predicate ColQuiet(g: Field, x: int, y0: int, y1: int) {
    forall y :: y0 <= y < y1 ==> !Candidate(g, x, y)
  }

  lemma BoxReverses(step: StepFn, g: Field, s: Steps, cells: int, boxes: seq<Box>, i: nat)
    requires StepLaws(step) && s.Of(step, g) && Separates(g, cells, boxes) && i < |boxes|
    ensures ReversesOnRim(s, cells, boxes[i])
  {
    var b := boxes[i];
    assert RimQuiet(g, cells, b);
    if b.y1 < cells {
      forall x | b.x0 <= x < b.x1
        ensures s.left(x, b.y1) == -s.right(x, b.y1)
      {
        SkippedCellQuiet(step, g, x, b.y1 - 1);
      }
    }
    if b.x0 > 0 {
      forall y | b.y0 <= y < b.y1
        ensures s.down(b.x0, y) == -s.up(b.x0, y)
      {
        SkippedCellQuiet(step, g, b.x0, y);
      }
    }
  }

  /** Sum of the side totals of all boxes. */
  function AlongAll(s: Steps, boxes: seq<Box>): real {
    if boxes == [] then 0.0 else s.Along(boxes[0]) + AlongAll(s, boxes[1..])
  }

  lemma {:induction false} AlongAllIsArea(s: Steps, cells: int, boxes: seq<Box>, h: Form, v: Form, curl: Form)
    requires h == RowForm(s, cells) && v == ColForm(s)
    requires forall x: int, y: int :: curl(x, y) == CellCirculation(h, v, x, y)
    requires forall i :: 0 <= i < |boxes| ==>
      boxes[i].Proper() && boxes[i].Within(Box(0, cells, 0, cells)) && ReversesOnRim(s, cells, boxes[i])
    ensures AlongAll(s, boxes) == AreaOfAll(curl, boxes)
  {
    if boxes == [] {
    } else {
      AlongIsCirculation(s, cells, boxes[0], h, v);
      Green(h, v, curl, boxes[0]);
      AlongAllIsArea(s, cells, boxes[1..], h, v, curl);
    }
  }

  lemma BoxesAreArea(step: StepFn, g: Field, s: Steps, cells: int, boxes: seq<Box>)
    requires StepLaws(step) && s.Of(step, g) && Separates(g, cells, boxes)
    ensures AlongAll(s, boxes) == AreaOfAll(Curl(RowForm(s, cells), ColForm(s)), boxes)
  {
    forall i | 0 <= i < |boxes|
      ensures ReversesOnRim(s, cells, boxes[i])
    {
      BoxReverses(step, g, s, cells, boxes, i);
    }
    AlongAllIsArea(s, cells, boxes, RowForm(s, cells), ColForm(s), Curl(RowForm(s, cells), ColForm(s)));
  }

  /** Outside all boxes the cell circulation vanishes. */
  lemma CurlOnlyInBoxes(step: StepFn, g: Field, s: Steps, cells: int, boxes: seq<Box>)
    requires StepLaws(step) && s.Of(step, g) && Separates(g, cells, boxes)
    ensures forall x, y ::
      Box(0, cells, 0, cells).HasCell(x, y) && (forall i :: 0 <= i < |boxes| ==> !boxes[i].HasCell(x, y)) ==>
        Curl(RowForm(s, cells), ColForm(s))(x, y) == 0.0
  {
    var outer, curl := Box(0, cells, 0, cells), Curl(RowForm(s, cells), ColForm(s));
    forall x, y | outer.HasCell(x, y) && (forall i :: 0 <= i < |boxes| ==> !boxes[i].HasCell(x, y))
      ensures curl(x, y) == 0.0
    {
      assert !Candidate(g, x, y);
      SkippedCurlZero(step, g, s, cells, x, y);
    }
  }

  /** The angle total round the domain is the sum of the totals round separating boxes. */
  lemma AngleConserved(step: StepFn, g: Field, s: Steps, cells: int, boxes: seq<Box>)
    requires StepLaws(step) && s.Of(step, g) && cells > 0 && Separates(g, cells, boxes)
    ensures s.Along(Box(0, cells, 0, cells)) == AlongAll(s, boxes)
  {
    var outer := Box(0, cells, 0, cells);
    var h, v := RowForm(s, cells), ColForm(s);
    var curl := Curl(h, v);
    AlongIsCirculation(s, cells, outer, h, v);
    Green(h, v, curl, outer);
    BoxesAreArea(step, g, s, cells, boxes);
    CurlOnlyInBoxes(step, g, s, cells, boxes);
    AreaOfDisjointBoxes(curl, outer, boxes);
  }
}
