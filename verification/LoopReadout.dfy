/** Rectangle loops on the sampled square grid and the angle total read along them. */
module LoopReadout {
  import opened Basics
  import opened Complex
  import opened GridSums
  import opened Winding

  /** The ordered row ids of the counter-clockwise rectangle loop, without a repeated endpoint. */
  function RectangleVertices(side: nat, b: Box): seq<int>
    requires b.Proper()
  {
    seq(b.x1 - b.x0, i => VertexId(side, b.x0 + i, b.y0))
    + seq(b.y1 - b.y0, i => VertexId(side, b.x1, b.y0 + i))
    + seq(b.x1 - b.x0, i => VertexId(side, b.x1 - i, b.y1))
    + seq(b.y1 - b.y0, i => VertexId(side, b.x0, b.y1 - i))
  }

  function Perimeter(b: Box): int { 2 * (b.x1 - b.x0) + 2 * (b.y1 - b.y0) }

  /** Grid position of loop point i; position Perimeter(b) is the origin again. */
  function PointX(b: Box, i: int): int {
    var w, h := b.x1 - b.x0, b.y1 - b.y0;
    if i < w then b.x0 + i else if i < w + h then b.x1 else if i < 2 * w + h then b.x1 - (i - w - h) else b.x0
  }

  function PointY(b: Box, i: int): int {
    var w, h := b.x1 - b.x0, b.y1 - b.y0;
    if i < w then b.y0 else if i < w + h then b.y0 + (i - w) else if i < 2 * w + h then b.y1 else b.y1 - (i - 2 * w - h)
  }

  function Domain(side: nat): Box { Box(0, side - 1, 0, side - 1) }

  lemma RectanglePoints(side: nat, b: Box)
    requires b.Proper()
    ensures |RectangleVertices(side, b)| == Perimeter(b) >= 4
    ensures forall i :: 0 <= i < Perimeter(b) ==>
      RectangleVertices(side, b)[i] == VertexId(side, PointX(b, i), PointY(b, i))
  {
  }

  lemma PointInBox(b: Box, i: int)
    requires b.Proper() && 0 <= i <= Perimeter(b)
    ensures b.HasVertex(PointX(b, i), PointY(b, i))
  {
  }

  lemma PointsDistinct(b: Box, i: int, j: int)
    requires b.Proper() && 0 <= i < j < Perimeter(b)
    ensures PointX(b, i) != PointX(b, j) || PointY(b, i) != PointY(b, j)
    ensures b.HasVertex(PointX(b, i), PointY(b, i)) && b.HasVertex(PointX(b, j), PointY(b, j))
  {
  }

  /** Every rectangle loop satisfies the estimator's input demands: at least three distinct in-range vertices. */
  lemma RectangleLoopAdmissible(side: nat, b: Box)
    requires b.Proper() && b.Within(Domain(side))
    ensures var ids := RectangleVertices(side, b);
            && |ids| >= 4
            && (forall i :: 0 <= i < |ids| ==> 0 <= ids[i] < side * side)
            && (forall i, j :: 0 <= i < j < |ids| ==> ids[i] != ids[j])
  {
    var ids := RectangleVertices(side, b);
    RectanglePoints(side, b);
    forall i | 0 <= i < |ids|
      ensures 0 <= ids[i] < side * side
    {
      VertexIdInRange(side, PointX(b, i), PointY(b, i));
    }
    forall i, j | 0 <= i < j < |ids|
      ensures ids[i] != ids[j]
    {
      PointsDistinct(b, i, j);
      VertexIdInjective(side, PointX(b, i), PointY(b, i), PointX(b, j), PointY(b, j));
    }
  }

  /** The sampled field as a function of grid position (zero off the grid). */
  function FieldAt(values: seq<C>, side: nat): (int, int) -> C
    requires |values| == side * side
  {
    (x: int, y: int) =>
      if 0 <= x < side && 0 <= y < side then
        VertexIdInRange(side, x, y);
        values[VertexId(side, x, y)]
      else ZERO
  }

  type Field = (int, int) -> C

  /** The samples of a field along a rectangle loop. */
  function LoopSamples(g: Field, b: Box): seq<C>
    requires b.Proper()
  {
    seq(Perimeter(b), i => g(PointX(b, i), PointY(b, i)))
  }

  /** The samples read from the stored rows of the rectangle loop. */
  function StoredSamples(values: seq<C>, side: nat, b: Box): (samples: seq<C>)
    requires b.Proper() && b.Within(Domain(side)) && |values| == side * side
    ensures samples == LoopSamples(FieldAt(values, side), b)
  {
    RectangleLoopAdmissible(side, b);
    var ids := RectangleVertices(side, b);
    var samples := seq(|ids|, i requires 0 <= i < |ids| => values[ids[i]]);
    StoredSamplesAreLoopSamples(values, side, b, samples);
    samples
  }

  lemma StoredSamplesAreLoopSamples(values: seq<C>, side: nat, b: Box, samples: seq<C>)
    requires b.Proper() && b.Within(Domain(side)) && |values| == side * side
    requires forall i :: 0 <= i < |RectangleVertices(side, b)| ==> 0 <= RectangleVertices(side, b)[i] < |values|
    requires |samples| == |RectangleVertices(side, b)|
    requires forall i :: 0 <= i < |samples| ==> samples[i] == values[RectangleVertices(side, b)[i]]
    ensures samples == LoopSamples(FieldAt(values, side), b)
  {
    RectanglePoints(side, b);
    forall i | 0 <= i < Perimeter(b)
      ensures samples[i] == FieldAt(values, side)(PointX(b, i), PointY(b, i))
    {
      PointInBox(b, i);
    }
  }

  /** Steps to the right, to the left, up and down along the edge whose lower-left vertex is (x, y). */
  function StepRight<T>(step: (T, T) -> real, g: (int, int) -> T, x: int, y: int): real { step(g(x, y), g(x + 1, y)) }

  function StepLeft<T>(step: (T, T) -> real, g: (int, int) -> T, x: int, y: int): real { step(g(x + 1, y), g(x, y)) }

  function StepUp<T>(step: (T, T) -> real, g: (int, int) -> T, x: int, y: int): real { step(g(x, y), g(x, y + 1)) }

  function StepDown<T>(step: (T, T) -> real, g: (int, int) -> T, x: int, y: int): real { step(g(x, y + 1), g(x, y)) }

  /** The four step forms of a field. */
  datatype Steps = Steps(right: Form, left: Form, up: Form, down: Form) {
    ghost predicate Of<T>(step: (T, T) -> real, g: (int, int) -> T) {
      && (forall x: int, y: int :: right(x, y) == StepRight(step, g, x, y))
      && (forall x: int, y: int :: left(x, y) == StepLeft(step, g, x, y))
      && (forall x: int, y: int :: up(x, y) == StepUp(step, g, x, y))
      && (forall x: int, y: int :: down(x, y) == StepDown(step, g, x, y))
    }

    /** Sum of the steps along the four sides of b, in loop order. */
    function Along(b: Box): real {
      RowSum(right, b.x0, b.x1, b.y0) + ColSum(up, b.x1, b.y0, b.y1)
      + RowSum(left, b.x0, b.x1, b.y1) + ColSum(down, b.x0, b.y0, b.y1)
    }
  }

  function StepsOf<T>(step: (T, T) -> real, g: (int, int) -> T): (s: Steps)
    ensures s.Of(step, g)
  {
    Steps((x: int, y: int) => StepRight(step, g, x, y), (x: int, y: int) => StepLeft(step, g, x, y),
          (x: int, y: int) => StepUp(step, g, x, y), (x: int, y: int) => StepDown(step, g, x, y))
  }

  /** The step that leaves loop point i. */
  function PointStep<T>(step: (T, T) -> real, g: (int, int) -> T, b: Box, i: int): real {
    step(g(PointX(b, i), PointY(b, i)), g(PointX(b, i + 1), PointY(b, i + 1)))
  }

  lemma LoopEdge(step: StepFn, g: Field, b: Box, i: int)
    requires b.Proper() && 0 <= i < Perimeter(b)
    ensures EdgeAngles(step, LoopSamples(g, b))(i) == PointStep(step, g, b, i)
  {
    var n := Perimeter(b);
    assert PointX(b, n) == PointX(b, 0) && PointY(b, n) == PointY(b, 0);
  }

  /** f lists the steps along the loop of b. */
  ghost predicate StepsAlong<T>(step: (T, T) -> real, g: (int, int) -> T, b: Box, f: int -> real) {
    forall i :: 0 <= i < Perimeter(b) ==> f(i) == PointStep(step, g, b, i)
  }

  lemma LoopSteps(step: StepFn, g: Field, b: Box)
    requires b.Proper()
    ensures StepsAlong(step, g, b, EdgeAngles(step, LoopSamples(g, b)))
  {
    forall i | 0 <= i < Perimeter(b)
      ensures EdgeAngles(step, LoopSamples(g, b))(i) == PointStep(step, g, b, i)
    {
      LoopEdge(step, g, b, i);
    }
  }

  /** The closed angle of a rectangle loop is the sum of the steps along its four sides. */
  lemma LoopAngleBySides(step: StepFn, g: Field, b: Box, s: Steps)
    requires b.Proper() && s.Of(step, g)
    ensures ClosedAngle(step, LoopSamples(g, b)) == s.Along(b)
  {
    LoopSteps(step, g, b);
    SidesOfSteps(step, g, b, EdgeAngles(step, LoopSamples(g, b)), s);
  }

  lemma SidesOfSteps<T>(step: (T, T) -> real, g: (int, int) -> T, b: Box, f: int -> real, s: Steps)
    requires b.Proper() && StepsAlong(step, g, b, f) && s.Of(step, g)
    ensures Sum(0, Perimeter(b), f) == s.Along(b)
  {
    var w, h := b.x1 - b.x0, b.y1 - b.y0;
    SumInFour(w, w + h, 2 * w + h, Perimeter(b), f);
    BottomSide(step, g, b, f, s);
    RightSide(step, g, b, f, s);
    TopSide(step, g, b, f, s);
    LeftSide(step, g, b, f, s);
  }

  lemma BottomSide<T>(step: (T, T) -> real, g: (int, int) -> T, b: Box, f: int -> real, s: Steps)
    requires b.Proper() && StepsAlong(step, g, b, f) && s.Of(step, g)
    ensures Sum(0, b.x1 - b.x0, f) == RowSum(s.right, b.x0, b.x1, b.y0)
  {
    var d := -b.x0;
    forall x | b.x0 <= x < b.x1
      ensures s.right(x, b.y0) == f(x + d)
    {
      assert f(x + d) == PointStep(step, g, b, x + d);
      assert PointX(b, x + d) == x && PointX(b, x + d + 1) == x + 1;
    }
    RowFromTerms(f, d, s.right, b.x0, b.x1, b.y0);
  }

  lemma RightSide<T>(step: (T, T) -> real, g: (int, int) -> T, b: Box, f: int -> real, s: Steps)
    requires b.Proper() && StepsAlong(step, g, b, f) && s.Of(step, g)
    ensures Sum(b.x1 - b.x0, b.x1 - b.x0 + (b.y1 - b.y0), f) == ColSum(s.up, b.x1, b.y0, b.y1)
  {
    var d := b.x1 - b.x0 - b.y0;
    forall y | b.y0 <= y < b.y1
      ensures s.up(b.x1, y) == f(y + d)
    {
      assert f(y + d) == PointStep(step, g, b, y + d);
      assert PointY(b, y + d) == y && PointY(b, y + d + 1) == y + 1;
    }
    ColFromTerms(f, d, s.up, b.x1, b.y0, b.y1);
  }

  lemma TopSide<T>(step: (T, T) -> real, g: (int, int) -> T, b: Box, f: int -> real, s: Steps)
    requires b.Proper() && StepsAlong(step, g, b, f) && s.Of(step, g)
    ensures Sum(b.x1 - b.x0 + (b.y1 - b.y0), 2 * (b.x1 - b.x0) + (b.y1 - b.y0), f)
         == RowSum(s.left, b.x0, b.x1, b.y1)
  {
    var m := b.x1 - 1 + (b.x1 - b.x0) + (b.y1 - b.y0);
    forall x | b.x0 <= x < b.x1
      ensures s.left(x, b.y1) == f(m - x)
    {
      assert f(m - x) == PointStep(step, g, b, m - x);
      assert PointX(b, m - x) == x + 1 && PointX(b, m - x + 1) == x;
    }
    RowFromReversedTerms(f, m, s.left, b.x0, b.x1, b.y1);
  }

  lemma LeftSide<T>(step: (T, T) -> real, g: (int, int) -> T, b: Box, f: int -> real, s: Steps)
    requires b.Proper() && StepsAlong(step, g, b, f) && s.Of(step, g)
    ensures Sum(2 * (b.x1 - b.x0) + (b.y1 - b.y0), Perimeter(b), f) == ColSum(s.down, b.x0, b.y0, b.y1)
  {
    var m := b.y1 - 1 + 2 * (b.x1 - b.x0) + (b.y1 - b.y0);
    forall y | b.y0 <= y < b.y1
      ensures s.down(b.x0, y) == f(m - y)
    {
      assert f(m - y) == PointStep(step, g, b, m - y);
      assert PointY(b, m - y) == y + 1 && PointY(b, m - y + 1) == y;
    }
    ColFromReversedTerms(f, m, s.down, b.x0, b.y0, b.y1);
  }
}
