/**
 The simulation engine of the Snake game: moving, growing, food placement,
 the game-over test and the difficulty cadences. A snake is a sequence of
 cells, head first.
 */
module Engine {
  import opened Arith
  import opened Geometry

  /** The snake translated one cell in heading `d`: a new head one step
      from the old one (no wrap-around; it may leave the grid) and the
      tail cell dropped. */
  function MoveSnake(snake: seq<Cell>, d: Direction): (r: seq<Cell>)
    requires |snake| > 0
    ensures |r| == |snake|
    ensures r[0] == Offset(snake[0], d)
    ensures forall i :: 1 <= i < |r| ==> r[i] == snake[i - 1]
  {
    [Offset(snake[0], d)] + snake[..|snake| - 1]
  }

  /** The head that growing produces, per axis as in the source: UP and
      LEFT add `gridSize - 1`, DOWN and RIGHT add 1, then take Kotlin's
      truncating remainder. */
  function GrowthHead(head: Cell, d: Direction, gridSize: int): (r: Cell)
    requires gridSize > 0
    ensures d == Up || d == Down ==> r.x == head.x
    ensures d == Left || d == Right ==> r.y == head.y
    ensures InBounds(head, gridSize) ==> r == TorusStep(head, d, gridSize)
  {
    match d
    case Up =>
      KtRemSmall(head.y - 1 + gridSize, gridSize);
      Cell(head.x, KtRem(head.y - 1 + gridSize, gridSize))
    case Down =>
      KtRemSmall(head.y + 1, gridSize);
      Cell(head.x, KtRem(head.y + 1, gridSize))
    case Left =>
      KtRemSmall(head.x - 1 + gridSize, gridSize);
      Cell(KtRem(head.x - 1 + gridSize, gridSize), head.y)
    case Right =>
      KtRemSmall(head.x + 1, gridSize);
      Cell(KtRem(head.x + 1, gridSize), head.y)
  }

  /** The snake with one more cell in front: the old cells are kept, the
      new head is the old head moved one step in `d` and wrapped onto the
      grid, so it stays on the grid whenever the old head was on it. */
  function GrowSnake(snake: seq<Cell>, d: Direction, gridSize: int): (r: seq<Cell>)
    requires |snake| > 0
    requires gridSize > 0
    ensures |r| == |snake| + 1
    ensures r[1..] == snake
    ensures InBounds(snake[0], gridSize) ==> r[0] == TorusStep(snake[0], d, gridSize)
  {
    [GrowthHead(snake[0], d, gridSize)] + snake
  }

  /** Growth and movement disagree at the edge: moving off the right edge
      leaves the grid, growing there wraps round to column 0. */
  lemma GrowWrapsWhereMoveLeaves(y: int)
    requires 0 <= y < 25
    ensures !InBounds(MoveSnake([Cell(24, y)], Right)[0], 25)
    ensures GrowSnake([Cell(24, y)], Right, 25)[0] == Cell(0, y)
  {
  }

  /** Away from the edges, growing is moving without dropping the tail: the
      grown snake is the moved snake followed by the old tail cell. */
  lemma GrowIsMoveKeepingTail(snake: seq<Cell>, d: Direction, gridSize: int)
    requires |snake| > 0 && gridSize > 0
    requires InBounds(snake[0], gridSize) && InBounds(Offset(snake[0], d), gridSize)
    ensures GrowSnake(snake, d, gridSize) == MoveSnake(snake, d) + [snake[|snake| - 1]]
  {
    var grown := GrowSnake(snake, d, gridSize);
    var moved := MoveSnake(snake, d);
    assert |grown| == |moved| + 1;
    forall i | 1 <= i < |grown|
      ensures grown[i] == (moved + [snake[|snake| - 1]])[i]
    {
      assert grown[i] == grown[1..][i - 1] == snake[i - 1];
    }
  }

  /** Every cell of the `gridSize`-by-`gridSize` board, column by column
      as the source enumerates them (`x` outer, `y` inner): position `i`
      holds `(i / gridSize, i % gridSize)`. */
  function Board(gridSize: nat): seq<Cell> {
    if gridSize == 0 then []
    else seq(gridSize * gridSize, i requires 0 <= i < gridSize * gridSize => Cell(i / gridSize, i % gridSize))
  }

  /** Cell `(x, y)` sits at position `x * gridSize + y` of the board. */
  lemma BoardPosition(gridSize: nat, x: int, y: int)
    requires 0 <= x < gridSize && 0 <= y < gridSize
    ensures |Board(gridSize)| == gridSize * gridSize
    ensures 0 <= x * gridSize + y < |Board(gridSize)|
    ensures Board(gridSize)[x * gridSize + y] == Cell(x, y)
  {
    PositionBound(gridSize, gridSize, x, y);
    MulNonneg(x, gridSize);
    ModUnique(x * gridSize + y, gridSize, x, y);
  }

  /** The board holds exactly the cells with both coordinates in
      `[0, gridSize)`. */
  lemma BoardMembers(gridSize: nat)
    ensures forall c :: c in Board(gridSize) <==> InBounds(c, gridSize)
  {
    var b := Board(gridSize);
    forall c: Cell | c in b
      ensures InBounds(c, gridSize)
    {
      var i :| 0 <= i < |b| && b[i] == c;
      DivBelow(i, gridSize, gridSize);
    }
    forall c: Cell | InBounds(c, gridSize)
      ensures c in b
    {
      BoardPosition(gridSize, c.x, c.y);
    }
  }

  /** No cell occurs twice. */
  predicate Distinct(cells: seq<Cell>) {
    forall i, j :: 0 <= i < j < |cells| ==> cells[i] != cells[j]
  }

  /** The board lists every cell once: positions `i` and `j` hold cells
      whose column and row come from `i` and `j`, which differ. */
  lemma BoardDistinct(gridSize: nat)
    ensures Distinct(Board(gridSize))
  {
    var b := Board(gridSize);
    forall i, j | 0 <= i < j < |b|
      ensures b[i] != b[j]
    {
      assert i == (i / gridSize) * gridSize + i % gridSize;
      assert j == (j / gridSize) * gridSize + j % gridSize;
    }
  }

  /** The cells of `cells` that the snake does not occupy, order kept. */
  function Unoccupied(cells: seq<Cell>, snake: seq<Cell>): (r: seq<Cell>)
    ensures |r| <= |cells|
    ensures forall c :: c in r <==> c in cells && c !in snake
  {
    if cells == [] then []
    else
      var rest := Unoccupied(cells[1..], snake);
      assert forall c :: c in cells <==> c == cells[0] || c in cells[1..];
      if cells[0] in snake then rest else [cells[0]] + rest
  }

  /** Filtering a list without repeats gives a list without repeats. */
  lemma {:induction false} UnoccupiedDistinct(cells: seq<Cell>, snake: seq<Cell>)
    requires Distinct(cells)
    ensures Distinct(Unoccupied(cells, snake))
  {
    if cells != [] {
      var tail := cells[1..];
      forall i, j | 0 <= i < j < |tail|
        ensures tail[i] != tail[j]
      {
        assert tail[i] == cells[i + 1] && tail[j] == cells[j + 1];
      }
      UnoccupiedDistinct(tail, snake);
      var rest := Unoccupied(tail, snake);
      if cells[0] !in snake {
        assert cells[0] !in tail by {
          forall k | 0 <= k < |tail|
            ensures tail[k] != cells[0]
          {
            assert tail[k] == cells[k + 1];
          }
        }
        var r := [cells[0]] + rest;
        assert Unoccupied(cells, snake) == r;
        forall i, j | 0 <= i < j < |r|
          ensures r[i] != r[j]
        {
          assert r[j] == rest[j - 1];
          if i > 0 {
            assert r[i] == rest[i - 1];
          } else {
            assert r[j] in rest;
          }
        }
      }
    }
  }

  /** The candidate food cells: every grid cell not on the snake, in the
      column-by-column order of the board. */
  function FreeCells(snake: seq<Cell>, gridSize: int): (r: seq<Cell>)
    ensures forall c :: c in r <==> InBounds(c, gridSize) && c !in snake
  {
    if gridSize <= 0 then []
    else
      BoardMembers(gridSize);
      Unoccupied(Board(gridSize), snake)
  }

  /** Each free cell is listed once. */
  lemma FreeCellsDistinct(snake: seq<Cell>, gridSize: int)
    ensures Distinct(FreeCells(snake, gridSize))
  {
    if gridSize > 0 {
      BoardDistinct(gridSize);
      UnoccupiedDistinct(Board(gridSize), snake);
    }
  }

  /** The board is full exactly when the snake covers every grid cell. */
  lemma BoardFullMeansCovered(snake: seq<Cell>, gridSize: int)
    ensures FreeCells(snake, gridSize) == [] <==>
            forall c :: InBounds(c, gridSize) ==> c in snake
  {
    if FreeCells(snake, gridSize) != [] {
      var c := FreeCells(snake, gridSize)[0];
      assert c in FreeCells(snake, gridSize);
    }
  }

  /** A food cell chosen from the free cells. The random draw
      `Random.nextInt(size)` is the parameter `pick`, reduced modulo the
      number of candidates. */
  function GenerateFood(snake: seq<Cell>, gridSize: int, pick: nat): (r: Cell)
    requires FreeCells(snake, gridSize) != []
    ensures InBounds(r, gridSize)
    ensures r !in snake
  {
    var free := FreeCells(snake, gridSize);
    assert free[pick % |free|] in free;
    free[pick % |free|]
  }

  /** Every free cell can be chosen: the draw that selects it is its
      position among the candidates. */
  lemma EveryFreeCellReachable(snake: seq<Cell>, gridSize: int, c: Cell)
    requires InBounds(c, gridSize) && c !in snake
    ensures FreeCells(snake, gridSize) != []
    ensures exists pick: nat :: pick < |FreeCells(snake, gridSize)| && GenerateFood(snake, gridSize, pick) == c
  {
    var free := FreeCells(snake, gridSize);
    assert c in free;
    var i :| 0 <= i < |free| && free[i] == c;
    ModUnique(i, |free|, 0, i);
    assert GenerateFood(snake, gridSize, i) == c;
  }

  /** Different draws below the number of candidates give different
      cells. With `EveryFreeCellReachable`, the draws `[0, |free|)` map
      one-to-one onto the free cells, so a uniform draw gives uniform food. */
  lemma DrawsInjective(snake: seq<Cell>, gridSize: int, p: nat, q: nat)
    requires p < q < |FreeCells(snake, gridSize)|
    ensures GenerateFood(snake, gridSize, p) != GenerateFood(snake, gridSize, q)
  {
    var free := FreeCells(snake, gridSize);
    FreeCellsDistinct(snake, gridSize);
    ModUnique(p, |free|, 0, p);
    ModUnique(q, |free|, 0, q);
  }

  /** With exactly one free cell left, every draw returns that cell. */
  lemma LastFreeCellIsForced(snake: seq<Cell>, gridSize: int, c: Cell, pick: nat)
    requires InBounds(c, gridSize) && c !in snake
    requires forall e :: InBounds(e, gridSize) && e != c ==> e in snake
    ensures FreeCells(snake, gridSize) != []
    ensures GenerateFood(snake, gridSize, pick) == c
  {
    assert c in FreeCells(snake, gridSize);
  }

  /** The game is over when the head runs into the body or off the grid. */
  function CheckGameOver(snake: seq<Cell>, gridSize: int): (r: bool)
    requires |snake| > 0
    ensures r <==> (exists i :: 1 <= i < |snake| && snake[i] == snake[0]) ||
                   snake[0].x < 0 || snake[0].y < 0 ||
                   snake[0].x >= gridSize || snake[0].y >= gridSize
  {
    var head := snake[0];
    assert forall c :: c in snake[1..] <==> exists i :: 1 <= i < |snake| && snake[i] == c by {
      forall c | c in snake[1..]
        ensures exists i :: 1 <= i < |snake| && snake[i] == c
      {
        var j :| 0 <= j < |snake[1..]| && snake[1..][j] == c;
        assert snake[j + 1] == c;
      }
      forall c | exists i :: 1 <= i < |snake| && snake[i] == c
        ensures c in snake[1..]
      {
        var i :| 1 <= i < |snake| && snake[i] == c;
        assert snake[1..][i - 1] == c;
      }
    }
    head in snake[1..] || head.x < 0 || head.y < 0 || head.x >= gridSize || head.y >= gridSize
  }

  /** The starting snake is alive. */
  lemma StartIsAlive()
    ensures !CheckGameOver([Cell(5, 5)], 25)
  {
  }

  /** Turning straight back on a snake of three or more cells always ends
      the game: the head lands on its own body. */
  lemma {:induction false} ReversalCollides(snake: seq<Cell>, d: Direction, gridSize: int)
    requires |snake| >= 3
    ensures CheckGameOver(MoveSnake(MoveSnake(snake, d), Opposite(d)), gridSize)
  {
    var once := MoveSnake(snake, d);
    var twice := MoveSnake(once, Opposite(d));
    OffsetOppositeCancels(snake[0], d);
    assert twice[0] == snake[0];
    assert twice[2] == once[1] == snake[0];
  }

  /** Moving keeps every body cell that was on the grid on the grid; only
      the head can leave it. */
  lemma MoveKeepsBodyInBounds(snake: seq<Cell>, d: Direction, gridSize: int)
    requires |snake| > 0
    requires forall i :: 0 <= i < |snake| ==> InBounds(snake[i], gridSize)
    ensures forall i :: 1 <= i < |snake| ==> InBounds(MoveSnake(snake, d)[i], gridSize)
  {
  }

  /** Milliseconds between two snake moves. */
  function SnakeSpeed(difficulty: Difficulty): (r: int)
  {
    match difficulty
    case Easy => 200
    case Medium => 250
    case Hard => 300
  }

  /** Milliseconds the loop sleeps between two ticks. */
  function GameSpeed(difficulty: Difficulty): (r: int)
  {
    match difficulty
    case Easy => 100
    case Medium => 50
    case Hard => 30
  }

  /** The cadence tables: the loop always ticks more often than the snake
      moves; going up a level lengthens the move interval and shortens the
      tick. */
  lemma CadenceTables(difficulty: Difficulty)
    ensures 0 < GameSpeed(difficulty) < SnakeSpeed(difficulty)
    ensures SnakeSpeed(Easy) == 200 && SnakeSpeed(Medium) == 250 && SnakeSpeed(Hard) == 300
    ensures GameSpeed(Easy) == 100 && GameSpeed(Medium) == 50 && GameSpeed(Hard) == 30
    ensures SnakeSpeed(Easy) < SnakeSpeed(Medium) < SnakeSpeed(Hard)
    ensures GameSpeed(Easy) > GameSpeed(Medium) > GameSpeed(Hard)
  {
  }
}
