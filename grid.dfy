/**
 * Geometry of the checkbox game's board: 50 columns by 20 rows, boxes
 * numbered 1..1000 row by row (src/routes/checkbox-game.tsx).
 */
module Grid {

  const Columns: int := 50
  const Rows: int := 20
  const BoardSize: int := 1000

  function Abs(n: int): (r: nat)
    ensures r == n || r == -n
  {
    if n < 0 then -n else n
  }

  /** The quotient of JavaScript's `a / b` truncated toward zero. */
  function TruncQuot(a: int, b: int): int
    requires b > 0
  {
    if a >= 0 then a / b else -((-a) / b)
  }

  /**
   * JavaScript's `a % b`: the remainder left by the truncated quotient, so it
   * takes the sign of the dividend.
   */
  function JsRem(a: int, b: int): (r: int)
    requires b > 0
    ensures a == b * TruncQuot(a, b) + r
    ensures a >= 0 ==> 0 <= r < b
    ensures a <= 0 ==> -b < r <= 0
  {
    if a >= 0 then a % b else -((-a) % b)
  }

  /**
   * `getCoordinates`: x is `(id - 1) % 50` with JavaScript's remainder,
   * y is `Math.floor((id - 1) / 50)` (Dafny's `/` by a positive divisor floors).
   */
  function Coordinates(id: int): (c: (int, int))
    ensures id >= 1 ==> 0 <= c.0 < Columns && 0 <= c.1 && c.1 * Columns + c.0 + 1 == id
    ensures 1 <= id <= BoardSize ==> c.1 < Rows
  {
    (JsRem(id - 1, Columns), (id - 1) / Columns)
  }

  /** The box at column x, row y: the inverse of Coordinates on the board. */
  function IdAt(x: int, y: int): int
  {
    y * Columns + x + 1
  }

  lemma {:induction false} CoordinatesOfIdAt(x: int, y: int)
    requires 0 <= x < Columns && 0 <= y
    ensures IdAt(x, y) >= 1
    ensures Coordinates(IdAt(x, y)) == (x, y)
  {
    var n := y * Columns + x;
    assert n >= 0;
    assert n / Columns == y && n % Columns == x by {
      DivModUnique(n, y, x);
    }
  }

  lemma {:induction false} DivModUnique(n: int, q: int, r: int)
    requires 0 <= r < Columns && n == q * Columns + r
    ensures n / Columns == q && n % Columns == r
  {
    var q', r' := n / Columns, n % Columns;
    assert n == q' * Columns + r' && 0 <= r' < Columns;
    assert (q - q') * Columns == r' - r;
  }

  /** `areAdjacent`: same row and one column apart, or same column and one row apart. */
  predicate AreAdjacent(id1: int, id2: int)
  {
    var (x1, y1) := Coordinates(id1);
    var (x2, y2) := Coordinates(id2);
    (Abs(x1 - x2) == 1 && y1 == y2) || (Abs(y1 - y2) == 1 && x1 == x2)
  }

  lemma AdjacentSymmetric(a: int, b: int)
    ensures AreAdjacent(a, b) <==> AreAdjacent(b, a)
  {
  }

  lemma AdjacentIrreflexive(a: int)
    ensures !AreAdjacent(a, a)
  {
  }

  /**
   * On ids 1 and up, adjacency is a statement about the ids themselves:
   * they are 50 apart (one row apart, same column), or 1 apart within one row.
   */
  lemma {:induction false} AdjacentById(a: int, b: int)
    requires a >= 1 && b >= 1
    ensures AreAdjacent(a, b) <==>
      Abs(a - b) == Columns || (Abs(a - b) == 1 && (a - 1) / Columns == (b - 1) / Columns)
  {
    var (x1, y1) := Coordinates(a);
    var (x2, y2) := Coordinates(b);
    assert a - b == (y1 - y2) * Columns + (x1 - x2);
  }

  lemma AdjacentOnBoard(a: int, b: int)
    requires 1 <= a <= BoardSize && AreAdjacent(a, b) && b >= 1
    ensures 1 <= b <= BoardSize + Columns
  {
    AdjacentById(a, b);
  }
}
