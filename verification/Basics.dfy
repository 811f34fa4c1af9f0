/** Small shared datatypes and integer facts. */
module Basics {

  datatype Option<+T> = None | Some(value: T)

  function Min(a: int, b: int): int { if a < b then a else b }

  function Max(a: int, b: int): int { if a < b then b else a }

  function MaxReal(a: real, b: real): real { if a < b then b else a }

  function Bit(b: bool): nat { if b then 1 else 0 }

  lemma InEither<T>(a: seq<T>, b: seq<T>, c: T)
    ensures c in a + b <==> c in a || c in b
  {
  }

  /** Row-major row id of the grid vertex (x, y). */
  function VertexId(side: nat, x: int, y: int): int { y * side + x }

  lemma VertexIdInRange(side: nat, x: int, y: int)
    requires 0 <= x < side && 0 <= y < side
    ensures 0 <= VertexId(side, x, y) < side * side
  {
    assert y * side <= (side - 1) * side;
    assert 0 <= y * side;
  }

  lemma VertexIdInjective(side: nat, x: int, y: int, x': int, y': int)
    requires 0 <= x < side && 0 <= x' < side
    ensures VertexId(side, x, y) == VertexId(side, x', y') <==> x == x' && y == y'
  {
    if y < y' {
      assert (y + 1) * side <= y' * side;
    } else if y' < y {
      assert (y' + 1) * side <= y * side;
    }
  }

  lemma DivideMonotone(x: real, y: real, d: real)
    requires d > 0.0 && x <= y
    ensures x / d <= y / d && (x * d) / d == x
  {
  }
}
