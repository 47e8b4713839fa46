/**
 The value types shared by the simulation engine and the controls: grid
 cells, headings, difficulty levels, the unit step of a heading, and the
 truncating remainder that the engine uses for wrap-around.
 */
module Geometry {
  import opened Arith

  /** A grid cell; `x` grows to the right, `y` grows downwards. */
  datatype Cell = Cell(x: int, y: int)

  /** The heading of the snake. There is no "stopped" heading. */
  datatype Direction = Up | Down | Left | Right

  datatype Difficulty = Easy | Medium | Hard

  /** The heading that points the other way. */
  function Opposite(d: Direction): (r: Direction)
    ensures r != d
    ensures (d == Up || d == Down) <==> (r == Up || r == Down)
  {
    match d
    case Up => Down
    case Down => Up
    case Left => Right
    case Right => Left
  }

  /** Two cells that share an edge. */
  predicate Adjacent(a: Cell, b: Cell) {
    (a.x == b.x && (a.y - b.y == 1 || b.y - a.y == 1)) ||
    (a.y == b.y && (a.x - b.x == 1 || b.x - a.x == 1))
  }

  /** One unit step in heading `d`, without wrap-around: UP decreases `y`,
      DOWN increases `y`, LEFT decreases `x`, RIGHT increases `x`. */
  function Offset(c: Cell, d: Direction): (r: Cell)
    ensures Adjacent(c, r)
    ensures d == Up || d == Down ==> r.x == c.x
    ensures d == Left || d == Right ==> r.y == c.y
    ensures d == Right ==> r.x > c.x
    ensures d == Left ==> r.x < c.x
    ensures d == Down ==> r.y > c.y
    ensures d == Up ==> r.y < c.y
  {
    match d
    case Up => Cell(c.x, c.y - 1)
    case Down => Cell(c.x, c.y + 1)
    case Left => Cell(c.x - 1, c.y)
    case Right => Cell(c.x + 1, c.y)
  }

  /** A step followed by a step the other way returns to the start. */
  lemma OffsetOppositeCancels(c: Cell, d: Direction)
    ensures Offset(Offset(c, d), Opposite(d)) == c
    ensures Opposite(Opposite(d)) == d
  {
  }

  /** Both coordinates lie in `[0, gridSize)`. */
  predicate InBounds(c: Cell, gridSize: int) {
    0 <= c.x < gridSize && 0 <= c.y < gridSize
  }

  /** The remainder of Kotlin's `%` on `Int`: truncated towards zero, so it
      takes the sign of the dividend (Dafny's own `%` is Euclidean). */
  function KtRem(a: int, m: int): (r: int)
    requires m > 0
    ensures -m < r < m
    ensures a >= 0 ==> 0 <= r
    ensures a <= 0 ==> r <= 0
    ensures (a - r) % m == 0
  {
    if a >= 0 then
      assert a == (a / m) * m + a % m;
      ModUnique(a - a % m, m, a / m, 0);
      a % m
    else
      assert -a == ((-a) / m) * m + (-a) % m;
      ModUnique(a + (-a) % m, m, -((-a) / m), 0);
      -((-a) % m)
  }

  /** For a non-negative dividend the two remainders agree; for a negative
      one Kotlin's is the Euclidean one shifted down by `m` (or zero). */
  lemma KtRemVersusEuclidean(a: int, m: int)
    requires m > 0
    ensures a >= 0 ==> KtRem(a, m) == a % m
    ensures a < 0 && a % m != 0 ==> KtRem(a, m) == a % m - m
    ensures a < 0 && a % m == 0 ==> KtRem(a, m) == 0
  {
    if a < 0 {
      var q := (-a) / m;
      var s := (-a) % m;
      assert -a == q * m + s;
      if s == 0 {
        ModUnique(a, m, -q, 0);
      } else {
        ModUnique(a, m, -q - 1, m - s);
      }
    }
  }

  /** On a dividend in `[0, 2m)` Kotlin's remainder subtracts `m` at most
      once. */
  lemma KtRemSmall(a: int, m: int)
    requires m > 0
    ensures 0 <= a < 2 * m ==> KtRem(a, m) == if a < m then a else a - m
  {
    if 0 <= a < 2 * m {
      ModSmall(a, m);
    }
  }

  /** One step in heading `d` on the `gridSize` torus: like `Offset`, but
      stepping off one edge re-enters at the opposite edge. */
  function TorusStep(c: Cell, d: Direction, gridSize: int): (r: Cell)
    requires InBounds(c, gridSize)
    ensures InBounds(r, gridSize)
    ensures InBounds(Offset(c, d), gridSize) ==> r == Offset(c, d)
  {
    match d
    case Up => Cell(c.x, if c.y == 0 then gridSize - 1 else c.y - 1)
    case Down => Cell(c.x, if c.y == gridSize - 1 then 0 else c.y + 1)
    case Left => Cell(if c.x == 0 then gridSize - 1 else c.x - 1, c.y)
    case Right => Cell(if c.x == gridSize - 1 then 0 else c.x + 1, c.y)
  }
}
