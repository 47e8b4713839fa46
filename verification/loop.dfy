/**
 The game loop as a state machine over a session. A session is RUNNING
 while `isGameOver` is false and OVER once it is true; OVER is left only by
 starting a new session. The clock and the random draw are parameters of
 each tick.
 */
module Loop {
  import opened Geometry
  import opened Engine
  import Controls

  /** The side of the square board. */
  const GridSize := 25

  /** The cell the snake starts from. */
  const Start := Cell(5, 5)

  datatype Session = Session(
    snake: seq<Cell>,
    food: Cell,
    direction: Direction,
    lastMoveTime: int,
    isGameOver: bool)

  /** The outcome of a tick. `BoardFull` is the case where food must be
      placed but no free cell is left: the source then draws a random index
      below zero cells, which throws. */
  datatype TickResult = Next(session: Session) | BoardFull

  /** What every reachable session satisfies: the snake is not empty, the
      food is on the board, every body cell is on the board, and so is the
      head while the game is running. */
  predicate Valid(s: Session) {
    && |s.snake| > 0
    && InBounds(s.food, GridSize)
    && (forall i :: 1 <= i < |s.snake| ==> InBounds(s.snake[i], GridSize))
    && (!s.isGameOver ==> InBounds(s.snake[0], GridSize))
  }

  /** The one-cell starting snake leaves room for food. */
  lemma StartLeavesRoom()
    ensures FreeCells([Start], GridSize) != []
  {
    assert Cell(0, 0) in FreeCells([Start], GridSize);
  }

  /** A fresh game: the starting snake heading RIGHT, food placed off the
      snake, the move clock at zero, running. */
  function NewGame(pick: nat): (r: Session)
    ensures Valid(r) && !r.isGameOver
    ensures r.snake == [Start] && r.direction == Right && r.lastMoveTime == 0
    ensures r.food != Start
  {
    StartLeavesRoom();
    Session([Start], GenerateFood([Start], GridSize, pick), Right, 0, false)
  }

  /** The state the restart button assigns: the starting snake heading
      RIGHT and new food, with the move clock left as it was. The handler then
      returns to the menu, which discards this session; the next game starts
      from `NewGame`. */
  function Restart(s: Session, pick: nat): (r: Session)
    ensures Valid(r) && !r.isGameOver
    ensures r.snake == [Start] && r.direction == Right
    ensures r.food != Start
    ensures r.lastMoveTime == s.lastMoveTime
  {
    StartLeavesRoom();
    Session([Start], GenerateFood([Start], GridSize, pick), Right, s.lastMoveTime, false)
  }

  /** First phase of a tick: the snake moves one cell, and the move clock is
      set to `now`, once at least the move interval has passed since the
      last move; otherwise nothing changes. */
  function MovePhase(s: Session, now: int, difficulty: Difficulty): (r: Session)
    requires |s.snake| > 0
    ensures r.food == s.food && r.direction == s.direction && r.isGameOver == s.isGameOver
    ensures |r.snake| == |s.snake|
    ensures now - s.lastMoveTime < SnakeSpeed(difficulty) ==> r == s
    ensures now - s.lastMoveTime >= SnakeSpeed(difficulty) ==>
              && r.lastMoveTime == now
              && r.snake[0] == Offset(s.snake[0], s.direction)
              && r.snake[1..] == s.snake[..|s.snake| - 1]
  {
    if now - s.lastMoveTime >= SnakeSpeed(difficulty) then
      var moved := MoveSnake(s.snake, s.direction);
      assert moved[1..] == s.snake[..|s.snake| - 1];
      s.(snake := moved, lastMoveTime := now)
    else s
  }

  /** Second phase of a tick: when the head is on the food, new food is
      drawn from the cells the snake does not cover, and then the snake
      grows by one cell in its heading. The new food is kept off the snake
      as it was before growing; the new head may land on it. */
  function EatPhase(s: Session, pick: nat): (r: TickResult)
    requires |s.snake| > 0
    ensures s.snake[0] != s.food ==> r == Next(s)
    ensures r == BoardFull <==>
              s.snake[0] == s.food && forall c :: InBounds(c, GridSize) ==> c in s.snake
    ensures r.Next? && s.snake[0] == s.food ==>
              && |r.session.snake| == |s.snake| + 1
              && r.session.snake[1..] == s.snake
              && r.session.food !in s.snake
              && InBounds(r.session.food, GridSize)
              && (InBounds(s.food, GridSize) ==>
                    r.session.snake[0] == TorusStep(s.snake[0], s.direction, GridSize))
              && r.session.direction == s.direction
              && r.session.lastMoveTime == s.lastMoveTime
              && r.session.isGameOver == s.isGameOver
  {
    if s.snake[0] != s.food then Next(s)
    else
      BoardFullMeansCovered(s.snake, GridSize);
      if FreeCells(s.snake, GridSize) == [] then BoardFull
      else
        var food := GenerateFood(s.snake, GridSize, pick);
        Next(s.(food := food, snake := GrowSnake(s.snake, s.direction, GridSize)))
  }

  /** One pass of the game loop, after its sleep: move when due, eat when
      the head is on the food, then record whether the game is over. An
      OVER session is left alone: the loop no longer runs. */
  function Tick(s: Session, now: int, difficulty: Difficulty, pick: nat): (r: TickResult)
    requires |s.snake| > 0
    ensures s.isGameOver ==> r == Next(s)
    ensures r.Next? ==> |r.session.snake| > 0 && r.session.direction == s.direction
    ensures r.Next? && !s.isGameOver ==>
              && r.session.isGameOver == CheckGameOver(r.session.snake, GridSize)
              && r.session.lastMoveTime ==
                   (if now - s.lastMoveTime >= SnakeSpeed(difficulty) then now else s.lastMoveTime)
              && (|r.session.snake| == |s.snake| || |r.session.snake| == |s.snake| + 1)
              && (|r.session.snake| == |s.snake| + 1 <==> r.session.food != s.food)
    ensures r.Next? && !s.isGameOver && now - s.lastMoveTime < SnakeSpeed(difficulty) ==>
              r.session.snake[|r.session.snake| - |s.snake|..] == s.snake
  {
    if s.isGameOver then Next(s)
    else
      var moved := MovePhase(s, now, difficulty);
      match EatPhase(moved, pick)
      case BoardFull => BoardFull
      case Next(t) =>
        assert |t.snake| == |moved.snake| + 1 ==> t.snake[1..] == moved.snake;
        Next(t.(isGameOver := CheckGameOver(t.snake, GridSize)))
  }

  /** Every tick keeps a valid session valid. */
  lemma TickPreservesValid(s: Session, now: int, difficulty: Difficulty, pick: nat)
    requires Valid(s)
    ensures Tick(s, now, difficulty, pick).Next? ==> Valid(Tick(s, now, difficulty, pick).session)
  {
    if !s.isGameOver {
      var moved := MovePhase(s, now, difficulty);
      assert forall i :: 1 <= i < |moved.snake| ==> InBounds(moved.snake[i], GridSize) by {
        if now - s.lastMoveTime >= SnakeSpeed(difficulty) {
          MoveKeepsBodyInBounds(s.snake, s.direction, GridSize);
          assert moved.snake == MoveSnake(s.snake, s.direction);
        }
      }
      var eaten := EatPhase(moved, pick);
      if eaten.Next? {
        var t := eaten.session;
        if moved.snake[0] == moved.food {
          forall i | 1 <= i < |t.snake|
            ensures InBounds(t.snake[i], GridSize)
          {
            assert t.snake[i] == t.snake[1..][i - 1] == moved.snake[i - 1];
          }
        }
      }
    }
  }

  /** Something that happens to a session: a pass of the loop, or a tilt
      sample or button press from the player. */
  datatype Event = Clock(now: int, pick: nat) | Control(input: Controls.Input)

  /** The session after one event. The controls are shown only while the
      game runs, so input is ignored once it is over. */
  function Handle(s: Session, e: Event, difficulty: Difficulty, minSensorAngle: real): (r: TickResult)
    requires |s.snake| > 0
    ensures r.Next? ==> |r.session.snake| >= |s.snake|
    ensures s.isGameOver ==> r == Next(s)
  {
    match e
    case Clock(now, pick) => Tick(s, now, difficulty, pick)
    case Control(input) =>
      if s.isGameOver then Next(s)
      else
        var update := Controls.HandleInput(s.direction, input, minSensorAngle);
        Next(s.(direction := Controls.Apply(s.direction, update)))
  }

  /** The session after a sequence of events; a full board ends the run. */
  function Run(s: Session, events: seq<Event>, difficulty: Difficulty, minSensorAngle: real): (r: TickResult)
    requires |s.snake| > 0
    ensures r.Next? ==> |r.session.snake| >= |s.snake|
    decreases |events|
  {
    if events == [] then Next(s)
    else
      match Handle(s, events[0], difficulty, minSensorAngle)
      case BoardFull => BoardFull
      case Next(t) => Run(t, events[1..], difficulty, minSensorAngle)
  }

  /** Every event keeps a valid session valid. */
  lemma HandlePreservesValid(s: Session, e: Event, difficulty: Difficulty, minSensorAngle: real)
    requires Valid(s)
    ensures Handle(s, e, difficulty, minSensorAngle).Next? ==>
              Valid(Handle(s, e, difficulty, minSensorAngle).session)
  {
    if e.Clock? {
      TickPreservesValid(s, e.now, difficulty, e.pick);
    }
  }

  /** Every session reachable from a valid one is valid. */
  lemma {:induction false} RunPreservesValid(s: Session, events: seq<Event>, difficulty: Difficulty, minSensorAngle: real)
    requires Valid(s)
    ensures Run(s, events, difficulty, minSensorAngle).Next? ==>
              Valid(Run(s, events, difficulty, minSensorAngle).session)
    decreases |events|
  {
    if events != [] {
      var h := Handle(s, events[0], difficulty, minSensorAngle);
      if h.Next? {
        HandlePreservesValid(s, events[0], difficulty, minSensorAngle);
        assert Run(s, events, difficulty, minSensorAngle) == Run(h.session, events[1..], difficulty, minSensorAngle);
        RunPreservesValid(h.session, events[1..], difficulty, minSensorAngle);
      }
    }
  }

  /** OVER is terminal: no event changes an OVER session. */
  lemma {:induction false} OverIsTerminal(s: Session, events: seq<Event>, difficulty: Difficulty, minSensorAngle: real)
    requires |s.snake| > 0 && s.isGameOver
    ensures Run(s, events, difficulty, minSensorAngle) == Next(s)
  {
    if events != [] {
      OverIsTerminal(s, events[1..], difficulty, minSensorAngle);
    }
  }

  /** While the game runs, the heading never flips straight round in one
      input, and a tick does not turn the snake. */
  lemma HandleNeverReverses(s: Session, e: Event, difficulty: Difficulty, minSensorAngle: real)
    requires |s.snake| > 0
    ensures Handle(s, e, difficulty, minSensorAngle).Next? ==>
              Handle(s, e, difficulty, minSensorAngle).session.direction != Opposite(s.direction)
  {
    if e.Control? && !s.isGameOver {
      Controls.InputNeverReverses(s.direction, e.input, minSensorAngle);
    }
  }

  /** The food can be drawn onto the cell the snake grows into: after this
      tick the head sits on the food. */
  lemma FoodCanLandOnHead(s: Session)
    requires s == Session([Cell(9, 5)], Cell(10, 5), Right, 0, false)
    ensures exists pick: nat ::
              && Tick(s, 250, Medium, pick).Next?
              && Tick(s, 250, Medium, pick).session.food == Tick(s, 250, Medium, pick).session.snake[0]
  {
    var moved := MovePhase(s, 250, Medium);
    assert moved.snake == [Cell(10, 5)];
    EveryFreeCellReachable(moved.snake, GridSize, Cell(11, 5));
    var pick: nat :| pick < |FreeCells(moved.snake, GridSize)| &&
                     GenerateFood(moved.snake, GridSize, pick) == Cell(11, 5);
    var eaten := EatPhase(moved, pick);
    assert eaten == Next(moved.(food := Cell(11, 5), snake := GrowSnake(moved.snake, Right, GridSize)));
    assert eaten.session.snake[0] == Cell(11, 5);
    assert Tick(s, 250, Medium, pick).session.snake[0] == Cell(11, 5);
  }

  /** Eating hides a collision. When a due move puts the head on the food,
      the snake eats and grows one more cell before the game-over test, and
      that test looks only at the grown head. So the tick survives whenever
      the wrapped step beyond the food is free, even if the move itself put
      the head on the body. */
  lemma EatingHidesCollision(s: Session, now: int, difficulty: Difficulty, pick: nat)
    requires Valid(s) && !s.isGameOver
    requires now - s.lastMoveTime >= SnakeSpeed(difficulty)
    requires Offset(s.snake[0], s.direction) == s.food
    requires TorusStep(s.food, s.direction, GridSize) !in s.snake
    ensures Tick(s, now, difficulty, pick).Next?
    ensures !Tick(s, now, difficulty, pick).session.isGameOver
  {
    var moved := MovePhase(s, now, difficulty);
    var next := TorusStep(s.food, s.direction, GridSize);
    assert next != s.food;
    assert next !in moved.snake by {
      forall k | 1 <= k < |moved.snake|
        ensures moved.snake[k] != next
      {
        assert moved.snake[k] == moved.snake[1..][k - 1] == s.snake[k - 1];
      }
    }
    var eaten := EatPhase(moved, pick);
    assert eaten.Next?;
    var grown := eaten.session.snake;
    forall i | 1 <= i < |grown|
      ensures grown[i] != grown[0]
    {
      assert grown[i] == grown[1..][i - 1] == moved.snake[i - 1];
    }
  }

  /** A five-cell snake curled round the food: moving RIGHT puts the head on
      its own fourth cell, which holds the food, yet the tick ends with the
      game still running. */
  lemma HiddenCollisionExample(s: Session, pick: nat)
    requires s == Session([Cell(5, 5), Cell(5, 6), Cell(6, 6), Cell(6, 5), Cell(6, 4)], Cell(6, 5), Right, 0, false)
    ensures Valid(s) && CheckGameOver(MoveSnake(s.snake, s.direction), GridSize)
    ensures Tick(s, 1000, Easy, pick).Next? && !Tick(s, 1000, Easy, pick).session.isGameOver
  {
    var moved := MoveSnake(s.snake, s.direction);
    assert moved[4] == moved[0];
    EatingHidesCollision(s, 1000, Easy, pick);
  }

  /** The opening of a game on EASY: the snake starts at (5, 5) heading
      RIGHT with food at (10, 5); with the loop passing at 200, 400, 600, 800
      and 1000 ms the fifth move reaches the food, the snake grows to
      (11, 5) and (10, 5), new food lies elsewhere, and the game runs on. */
  lemma OpeningMoves(pick: nat)
    ensures
      var s := Session([Start], Cell(10, 5), Right, 0, false);
      var events := [Clock(200, pick), Clock(400, pick), Clock(600, pick), Clock(800, pick), Clock(1000, pick)];
      && Run(s, events, Easy, 0.0).Next?
      && Run(s, events, Easy, 0.0).session.snake == [Cell(11, 5), Cell(10, 5)]
      && Run(s, events, Easy, 0.0).session.food != Cell(10, 5)
      && !Run(s, events, Easy, 0.0).session.isGameOver
      && Run(s, events, Easy, 0.0).session.lastMoveTime == 1000
  {
    var s := Session([Start], Cell(10, 5), Right, 0, false);
    var events := [Clock(200, pick), Clock(400, pick), Clock(600, pick), Clock(800, pick), Clock(1000, pick)];
    var s1 := Session([Cell(6, 5)], Cell(10, 5), Right, 200, false);
    var s2 := Session([Cell(7, 5)], Cell(10, 5), Right, 400, false);
    var s3 := Session([Cell(8, 5)], Cell(10, 5), Right, 600, false);
    var s4 := Session([Cell(9, 5)], Cell(10, 5), Right, 800, false);
    assert Tick(s, 200, Easy, pick) == Next(s1);
    assert Tick(s1, 400, Easy, pick) == Next(s2);
    assert Tick(s2, 600, Easy, pick) == Next(s3);
    assert Tick(s3, 800, Easy, pick) == Next(s4);
    var r5 := Tick(s4, 1000, Easy, pick);
    assert r5.Next?;
    assert r5.session.snake == [Cell(11, 5), Cell(10, 5)];
    assert events[1..][1..][1..][1..][1..] == [];
    assert Run(s4, events[1..][1..][1..][1..], Easy, 0.0) == r5;
    assert Run(s3, events[1..][1..][1..], Easy, 0.0) == r5;
    assert Run(s2, events[1..][1..], Easy, 0.0) == r5;
    assert Run(s1, events[1..], Easy, 0.0) == r5;
  }
}
