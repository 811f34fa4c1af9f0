/** Finite sums over intervals and index rectangles, and the discrete Green identity. */
module GridSums {

  /** Sum of f over lo <= i < hi. */
  function Sum(lo: int, hi: int, f: int -> real): real
    decreases hi - lo
  {
    if lo >= hi then 0.0 else Sum(lo, hi - 1, f) + f(hi - 1)
  }

  lemma {:induction false} SumSplit(lo: int, mid: int, hi: int, f: int -> real)
    requires lo <= mid <= hi
    ensures Sum(lo, hi, f) == Sum(lo, mid, f) + Sum(mid, hi, f)
    decreases hi - mid
  {
    if mid >= hi {
    } else {
      SumSplit(lo, mid, hi - 1, f);
    }
  }

  lemma SumInFour(i: int, j: int, k: int, n: int, f: int -> real)
    requires 0 <= i <= j <= k <= n
    ensures Sum(0, n, f) == Sum(0, i, f) + Sum(i, j, f) + Sum(j, k, f) + Sum(k, n, f)
  {
    SumSplit(0, i, n, f);
    SumSplit(i, j, n, f);
    SumSplit(j, k, n, f);
  }

  lemma {:induction false} SumShift(lo: int, hi: int, d: int, f: int -> real, g: int -> real)
    requires forall i :: lo <= i < hi ==> f(i) == g(i + d)
    ensures Sum(lo, hi, f) == Sum(lo + d, hi + d, g)
    decreases hi - lo
  {
    if lo >= hi {
    } else {
      SumShift(lo, hi - 1, d, f, g);
    }
  }

  lemma {:induction false} SumFirst(lo: int, hi: int, f: int -> real)
    requires lo < hi
    ensures Sum(lo, hi, f) == f(lo) + Sum(lo + 1, hi, f)
    decreases hi - lo
  {
    if lo + 1 >= hi {
    } else {
      SumFirst(lo, hi - 1, f);
    }
  }

  /** Reading the terms of f backwards: g runs through the reflected indices m - i. */
  lemma {:induction false} SumReverse(lo: int, hi: int, m: int, f: int -> real, g: int -> real)
    requires lo <= hi
    requires forall i :: lo <= i < hi ==> f(i) == g(m - i)
    ensures Sum(lo, hi, f) == Sum(m - hi + 1, m - lo + 1, g)
    decreases hi - lo
  {
    if lo >= hi {
    } else {
      SumReverse(lo, hi - 1, m, f, g);
      SumFirst(m - hi + 1, m - lo + 1, g);
      assert f(hi - 1) == g(m - (hi - 1));
    }
  }

  /** Reading the terms of f from another origin. */
  lemma SumRotated(n: nat, f: int -> real, g: int -> real)
    requires n > 0 && g(0) == f(n - 1)
    requires forall i :: 0 <= i < n - 1 ==> f(i) == g(i + 1)
    ensures Sum(0, n, g) == Sum(0, n, f)
  {
    SumShift(0, n - 1, 1, f, g);
    SumFirst(0, n, g);
  }

  /** A form on the edges (or cells) of a grid. */
  type Form = (int, int) -> real

  /** Sum of f along row y for lo <= x < hi. */
  function RowSum(f: Form, lo: int, hi: int, y: int): real
    decreases hi - lo
  {
    if lo >= hi then 0.0 else RowSum(f, lo, hi - 1, y) + f(hi - 1, y)
  }

  /** Sum of f along column x for lo <= y < hi. */
  function ColSum(f: Form, x: int, lo: int, hi: int): real
    decreases hi - lo
  {
    if lo >= hi then 0.0 else ColSum(f, x, lo, hi - 1) + f(x, hi - 1)
  }

  /** A row sum read from a sequence of terms, forwards from offset d. */
  lemma {:induction false} RowFromTerms(t: int -> real, d: int, f: Form, lo: int, hi: int, y: int)
    requires lo <= hi
    requires forall x :: lo <= x < hi ==> f(x, y) == t(x + d)
    ensures Sum(lo + d, hi + d, t) == RowSum(f, lo, hi, y)
    decreases hi - lo
  {
    if lo >= hi {
    } else {
      RowFromTerms(t, d, f, lo, hi - 1, y);
      assert f(hi - 1, y) == t(hi - 1 + d);
    }
  }

  /** A row sum read backwards from a sequence of terms. */
  lemma {:induction false} RowFromReversedTerms(t: int -> real, m: int, f: Form, lo: int, hi: int, y: int)
    requires lo <= hi
    requires forall x :: lo <= x < hi ==> f(x, y) == t(m - x)
    ensures Sum(m - hi + 1, m - lo + 1, t) == RowSum(f, lo, hi, y)
    decreases hi - lo
  {
    if lo >= hi {
    } else {
      RowFromReversedTerms(t, m, f, lo, hi - 1, y);
      assert f(hi - 1, y) == t(m - (hi - 1));
      SumFirst(m - hi + 1, m - lo + 1, t);
    }
  }

  lemma {:induction false} ColFromTerms(t: int -> real, d: int, f: Form, x: int, lo: int, hi: int)
    requires lo <= hi
    requires forall y :: lo <= y < hi ==> f(x, y) == t(y + d)
    ensures Sum(lo + d, hi + d, t) == ColSum(f, x, lo, hi)
    decreases hi - lo
  {
    if lo >= hi {
    } else {
      ColFromTerms(t, d, f, x, lo, hi - 1);
      assert f(x, hi - 1) == t(hi - 1 + d);
    }
  }

  lemma {:induction false} ColFromReversedTerms(t: int -> real, m: int, f: Form, x: int, lo: int, hi: int)
    requires lo <= hi
    requires forall y :: lo <= y < hi ==> f(x, y) == t(m - y)
    ensures Sum(m - hi + 1, m - lo + 1, t) == ColSum(f, x, lo, hi)
    decreases hi - lo
  {
    if lo >= hi {
    } else {
      ColFromReversedTerms(t, m, f, x, lo, hi - 1);
      assert f(x, hi - 1) == t(m - (hi - 1));
      SumFirst(m - hi + 1, m - lo + 1, t);
    }
  }

  lemma {:induction false} NegatedRow(f: Form, g: Form, lo: int, hi: int, y: int)
    requires forall x :: lo <= x < hi ==> f(x, y) == -g(x, y)
    ensures RowSum(f, lo, hi, y) == -RowSum(g, lo, hi, y)
    decreases hi - lo
  {
    if lo >= hi {
    } else {
      NegatedRow(f, g, lo, hi - 1, y);
    }
  }

  lemma {:induction false} NegatedCol(f: Form, g: Form, x: int, lo: int, hi: int)
    requires forall y :: lo <= y < hi ==> f(x, y) == -g(x, y)
    ensures ColSum(f, x, lo, hi) == -ColSum(g, x, lo, hi)
    decreases hi - lo
  {
    if lo >= hi {
    } else {
      NegatedCol(f, g, x, lo, hi - 1);
    }
  }

  lemma {:induction false} SameCol(f: Form, g: Form, x: int, lo: int, hi: int)
    requires forall y :: lo <= y < hi ==> f(x, y) == g(x, y)
    ensures ColSum(f, x, lo, hi) == ColSum(g, x, lo, hi)
    decreases hi - lo
  {
    if lo >= hi {
    } else {
      SameCol(f, g, x, lo, hi - 1);
    }
  }

  /** A rectangle of grid vertices x0..x1 by y0..y1 (inclusive); its cells are x0 <= x < x1, y0 <= y < y1. */
  datatype Box = Box(x0: int, x1: int, y0: int, y1: int) {
    predicate Proper() { x0 < x1 && y0 < y1 }

    predicate HasCell(x: int, y: int) { x0 <= x < x1 && y0 <= y < y1 }

    predicate HasVertex(x: int, y: int) { x0 <= x <= x1 && y0 <= y <= y1 }

    predicate Within(b: Box) { b.x0 <= x0 && x1 <= b.x1 && b.y0 <= y0 && y1 <= b.y1 }
  }

  /** Sum of f over the cells of a box. */
  function Area(f: Form, b: Box): real
    decreases b.y1 - b.y0
  {
    if b.y0 >= b.y1 then 0.0 else Area(f, b.(y1 := b.y1 - 1)) + RowSum(f, b.x0, b.x1, b.y1 - 1)
  }

  /** Counter-clockwise circulation of the antisymmetric form whose right steps are h and up steps are v. */
  function Circulation(h: Form, v: Form, b: Box): real {
    RowSum(h, b.x0, b.x1, b.y0) + ColSum(v, b.x1, b.y0, b.y1)
    - RowSum(h, b.x0, b.x1, b.y1) - ColSum(v, b.x0, b.y0, b.y1)
  }

  /** Circulation round a single cell. */
  function CellCirculation(h: Form, v: Form, x: int, y: int): real {
    h(x, y) + v(x + 1, y) - h(x, y + 1) - v(x, y)
  }

  function Curl(h: Form, v: Form): (c: Form)
    ensures forall x: int, y: int :: c(x, y) == CellCirculation(h, v, x, y)
  {
    (x: int, y: int) => CellCirculation(h, v, x, y)
  }

  lemma {:induction false} RowOfCurls(h: Form, v: Form, c: Form, x0: int, x1: int, y: int)
    requires x0 <= x1
    requires forall x :: x0 <= x < x1 ==> c(x, y) == CellCirculation(h, v, x, y)
    ensures RowSum(c, x0, x1, y)
         == RowSum(h, x0, x1, y) - RowSum(h, x0, x1, y + 1) + v(x1, y) - v(x0, y)
    decreases x1 - x0
  {
    if x0 >= x1 {
    } else {
      RowOfCurls(h, v, c, x0, x1 - 1, y);
      assert RowSum(h, x0, x1, y + 1) == RowSum(h, x0, x1 - 1, y + 1) + h(x1 - 1, y + 1);
    }
  }

  /** Discrete Green identity: the circulation round a box is the sum of the circulations of its cells. */
  lemma {:induction false} Green(h: Form, v: Form, c: Form, b: Box)
    requires b.x0 <= b.x1 && b.y0 <= b.y1
    requires forall x, y :: b.HasCell(x, y) ==> c(x, y) == CellCirculation(h, v, x, y)
    ensures Circulation(h, v, b) == Area(c, b)
    decreases b.y1 - b.y0
  {
    if b.y0 >= b.y1 {
    } else {
      var y := b.y1 - 1;
      var below := b.(y1 := y);
      forall x, z | below.HasCell(x, z)
        ensures c(x, z) == CellCirculation(h, v, x, z)
      {
        assert b.HasCell(x, z);
      }
      Green(h, v, c, below);
      forall x | b.x0 <= x < b.x1
        ensures c(x, y) == CellCirculation(h, v, x, y)
      {
        assert b.HasCell(x, y);
      }
      RowOfCurls(h, v, c, b.x0, b.x1, y);
      assert Area(c, b) == Area(c, below) + RowSum(c, b.x0, b.x1, y);
    }
  }

  lemma {:induction false} RowCong(f: Form, g: Form, lo: int, hi: int, y: int)
    requires forall x :: lo <= x < hi ==> f(x, y) == g(x, y)
    ensures RowSum(f, lo, hi, y) == RowSum(g, lo, hi, y)
    decreases hi - lo
  {
    if lo >= hi {
    } else {
      RowCong(f, g, lo, hi - 1, y);
    }
  }

  lemma {:induction false} AreaCong(f: Form, g: Form, b: Box)
    requires forall x, y :: b.HasCell(x, y) ==> f(x, y) == g(x, y)
    ensures Area(f, b) == Area(g, b)
    decreases b.y1 - b.y0
  {
    if b.y0 >= b.y1 {
    } else {
      forall x, y | b.(y1 := b.y1 - 1).HasCell(x, y)
        ensures f(x, y) == g(x, y)
      {
        assert b.HasCell(x, y);
      }
      AreaCong(f, g, b.(y1 := b.y1 - 1));
      var y := b.y1 - 1;
      forall x | b.x0 <= x < b.x1
        ensures f(x, y) == g(x, y)
      {
        assert b.HasCell(x, y);
      }
      RowCong(f, g, b.x0, b.x1, y);
    }
  }

  lemma {:induction false} RowZero(f: Form, lo: int, hi: int, y: int)
    requires forall x :: lo <= x < hi ==> f(x, y) == 0.0
    ensures RowSum(f, lo, hi, y) == 0.0
    decreases hi - lo
  {
    if lo >= hi {
    } else {
      RowZero(f, lo, hi - 1, y);
    }
  }

  lemma {:induction false} AreaZero(f: Form, b: Box)
    requires forall x, y :: b.HasCell(x, y) ==> f(x, y) == 0.0
    ensures Area(f, b) == 0.0
    decreases b.y1 - b.y0
  {
    if b.y0 >= b.y1 {
    } else {
      forall x, y | b.(y1 := b.y1 - 1).HasCell(x, y)
        ensures f(x, y) == 0.0
      {
        assert b.HasCell(x, y);
      }
      AreaZero(f, b.(y1 := b.y1 - 1));
      var y := b.y1 - 1;
      forall x | b.x0 <= x < b.x1
        ensures f(x, y) == 0.0
      {
        assert b.HasCell(x, y);
      }
      RowZero(f, b.x0, b.x1, y);
    }
  }

  /** f with the cells of b set to zero. */
  function Erase(f: Form, b: Box): Form {
    (x: int, y: int) => if b.HasCell(x, y) then 0.0 else f(x, y)
  }

  lemma {:induction false} RowErase(f: Form, lo: int, hi: int, y: int, b: Box)
    requires lo <= b.x0 <= b.x1 && b.y0 <= y < b.y1
    ensures RowSum(f, lo, hi, y)
         == RowSum(f, b.x0, if hi < b.x1 then hi else b.x1, y) + RowSum(Erase(f, b), lo, hi, y)
    decreases hi - lo
  {
    if lo >= hi {
    } else {
      RowErase(f, lo, hi - 1, y, b);
    }
  }

  /** Cutting a box out of a larger one. */
  lemma {:induction false} AreaErase(f: Form, outer: Box, b: Box)
    requires outer.x0 <= b.x0 <= b.x1 <= outer.x1 && outer.y0 <= b.y0 <= b.y1
    ensures Area(f, outer)
         == Area(f, b.(y1 := if outer.y1 < b.y1 then outer.y1 else b.y1)) + Area(Erase(f, b), outer)
    decreases outer.y1 - outer.y0
  {
    if outer.y0 >= outer.y1 {
    } else {
      AreaErase(f, outer.(y1 := outer.y1 - 1), b);
      var y := outer.y1 - 1;
      if b.y0 <= y < b.y1 {
        RowErase(f, outer.x0, outer.x1, y, b);
      } else {
        RowCong(f, Erase(f, b), outer.x0, outer.x1, y);
      }
    }
  }

  /** Sum of f over the cells of every box of a list. */
  function AreaOfAll(f: Form, boxes: seq<Box>): real {
    if boxes == [] then 0.0 else Area(f, boxes[0]) + AreaOfAll(f, boxes[1..])
  }

  predicate CellDisjoint(a: Box, b: Box) {
    a.x1 <= b.x0 || b.x1 <= a.x0 || a.y1 <= b.y0 || b.y1 <= a.y0
  }

  lemma {:induction false} AreaOfAllCong(f: Form, g: Form, boxes: seq<Box>)
    requires forall i, x, y :: 0 <= i < |boxes| && boxes[i].HasCell(x, y) ==> f(x, y) == g(x, y)
    ensures AreaOfAll(f, boxes) == AreaOfAll(g, boxes)
  {
    if boxes == [] {
    } else {
      AreaCong(f, g, boxes[0]);
      forall i, x, y | 0 <= i < |boxes[1..]| && boxes[1..][i].HasCell(x, y)
        ensures f(x, y) == g(x, y)
      {
        assert boxes[i + 1].HasCell(x, y);
      }
      AreaOfAllCong(f, g, boxes[1..]);
    }
  }

  /** If f vanishes outside pairwise disjoint boxes, its total is the total over those boxes. */
  lemma {:induction false} AreaOfDisjointBoxes(f: Form, outer: Box, boxes: seq<Box>)
    requires forall i :: 0 <= i < |boxes| ==> boxes[i].Proper() && boxes[i].Within(outer)
    requires forall i, j :: 0 <= i < j < |boxes| ==> CellDisjoint(boxes[i], boxes[j])
    requires forall x, y :: outer.HasCell(x, y) && (forall i :: 0 <= i < |boxes| ==> !boxes[i].HasCell(x, y)) ==>
      f(x, y) == 0.0
    ensures Area(f, outer) == AreaOfAll(f, boxes)
    decreases |boxes|
  {
    if boxes == [] {
      AreaZero(f, outer);
    } else {
      var b, rest, g := boxes[0], boxes[1..], Erase(f, boxes[0]);
      AreaErase(f, outer, b);
      forall i, x, y | 0 <= i < |rest| && rest[i].HasCell(x, y)
        ensures f(x, y) == g(x, y)
      {
        assert CellDisjoint(boxes[0], boxes[i + 1]);
      }
      AreaOfAllCong(f, g, rest);
      forall x, y | outer.HasCell(x, y) && (forall i :: 0 <= i < |rest| ==> !rest[i].HasCell(x, y))
        ensures g(x, y) == 0.0
      {
        if !b.HasCell(x, y) {
          forall i | 0 <= i < |boxes|
            ensures !boxes[i].HasCell(x, y)
          {
            if i > 0 { assert !rest[i - 1].HasCell(x, y); }
          }
        }
      }
      AreaOfDisjointBoxes(g, outer, rest);
    }
  }
}
