# SensorSnake game rules in Dafny

This project models the core rules of SensorSnake, an Android Snake game
steered by tilting the phone or with four arrow buttons. Two source files
hold the logic:

- `composables/Game.kt` holds the simulation. It moves the snake one cell
  without wrap-around, grows it by one cell with wrap-around, places food on
  a free cell of the 25 × 25 board, and ends the game when the snake hits
  itself or the wall. It also has the difficulty cadences and the body of
  the game loop.
- `composables/Controls.kt` holds the input layer. A tilt classifier turns a
  2-D sample into a heading. The arrow buttons refuse a 180° turn. The tilt
  controls report a heading only when it changes.

The model is functional. Cells, headings, difficulties and sessions are
immutable datatypes, and the snake is a `seq<Cell>` with the head first.
The body of the loop is a pure `Tick` function of the session, the current
time, the difficulty and a random draw. The RUNNING/OVER state machine is
the `isGameOver` flag of a session. `Run` folds `Tick` and player inputs
over a sequence of events.

Modules, leaves first:

- `Arith` (`arith.dfy`): facts about multiplication and Euclidean remainder
  that the solver needs spelled out.
- `Geometry` (`geometry.dfy`): `Cell`, `Direction`, `Difficulty`, the unit
  step, the reverse heading, and Kotlin's truncating remainder `KtRem`.
  Dafny's `%` is Euclidean, so `KtRem` is written out.
- `Engine` (`engine.dfy`): `moveSnake`, `growSnake`, the board enumeration,
  `generateFood`, `checkGameOver` and the two cadence tables.
- `Controls` (`controls.dfy`): the classifier, the button handlers, and the
  change-only reporting of the tilt controls.
- `Loop` (`loop.dfy`): the session, its start and restart, the two phases of
  a tick, and runs of events.

Facts about the code that the proofs make precise:

- The LEFT and DOWN guards of the classifier compare with `+minSensorAngle`,
  not `-minSensorAngle`. For a non-negative threshold these comparisons
  always follow from the sector tests. So the dead zone only suppresses
  RIGHT and UP, and a tiny tilt left or down still turns the snake.
  `Controls.DeadZoneOneSided` proves this, with concrete samples. The model
  keeps the guards as written.
- With heading RIGHT and threshold 5, the sample (-10, 0) keeps RIGHT,
  because the LEFT guard requires that the heading is not RIGHT
  (`Controls.ClassifierExamples`).
- On an eating tick, the new food is drawn against the snake before it
  grows. The grown head can therefore land on the new food
  (`Loop.FoodCanLandOnHead`). Food stays off the snake only as it was
  before growing.
- "Never reverse" is checked against the current heading, not against the
  last move. Two inputs between two moves can still turn the snake
  straight round (`Controls.TwoInputsCanReverse`). On a snake of three or
  more cells such a reversal always collides (`Engine.ReversalCollides`).
- Eating can hide a collision. When a due move puts the head on the food,
  the snake grows before the game-over test, and that test looks only at
  the grown head. If the food sat on a body cell, the move collided, but
  the game runs on as long as the cell beyond the food is free
  (`Loop.EatingHidesCollision`). `Loop.HiddenCollisionExample` gives a
  five-cell snake where this happens.

## Model

Paths are relative to `app/src/main/java/edu/pwr/jakubwiraszka/sensorsnake/`
in the repository; the table cites them in full.

| member | source | states |
|---|---|---|
| Geometry.Opposite | app/src/main/java/edu/pwr/jakubwiraszka/sensorsnake/composables/Controls.kt:166-201 | the reverse of a heading is a different heading on the same axis (UP/DOWN or LEFT/RIGHT), the pairing the button guards use |
| Geometry.Offset | app/src/main/java/edu/pwr/jakubwiraszka/sensorsnake/composables/Game.kt:126-132 | the new head is an edge-neighbour of the old head, on the same column for UP/DOWN and the same row for LEFT/RIGHT; y falls for UP, rises for DOWN; x falls for LEFT, rises for RIGHT |
| Geometry.OffsetOppositeCancels | app/src/main/java/edu/pwr/jakubwiraszka/sensorsnake/composables/Game.kt:126-132 | a step followed by a step in the reverse heading returns to the start cell, and reversing twice gives back the heading |
| Geometry.KtRem | app/src/main/java/edu/pwr/jakubwiraszka/sensorsnake/composables/Game.kt:150-153 | Kotlin's `%` gives a remainder strictly between -m and m, with the sign of the dividend, that differs from the dividend by a multiple of m |
| Geometry.KtRemVersusEuclidean | app/src/main/java/edu/pwr/jakubwiraszka/sensorsnake/composables/Game.kt:150-153 | Kotlin's remainder equals Dafny's Euclidean one for a non-negative dividend; for a negative one it is the Euclidean remainder minus m, or zero |
| Geometry.KtRemSmall | app/src/main/java/edu/pwr/jakubwiraszka/sensorsnake/composables/Game.kt:150-153 | on a dividend in [0, 2m) Kotlin's remainder subtracts m at most once, which is the range the growth formula feeds it from an on-board head |
| Geometry.TorusStep | app/src/main/java/edu/pwr/jakubwiraszka/sensorsnake/composables/Game.kt:149-154 | the reference wrapped step that growth is proved against: it stays on the board and matches the plain step whenever that stays on the board |
| Engine.MoveSnake | app/src/main/java/edu/pwr/jakubwiraszka/sensorsnake/composables/Game.kt:125-137 | moving keeps the length, puts the head one step from the old head in the heading with no wrap-around, and shifts every other cell back by one position, dropping the old tail |
| Engine.MoveKeepsBodyInBounds | app/src/main/java/edu/pwr/jakubwiraszka/sensorsnake/composables/Game.kt:133-135 | after a move only the head can be off the board when the snake was on it |
| Engine.GrowthHead | app/src/main/java/edu/pwr/jakubwiraszka/sensorsnake/composables/Game.kt:149-154 | the growth formulas (`y - 1 + gridSize`, `y + 1`, `x - 1 + gridSize` or `x + 1`, each reduced with Kotlin's `% gridSize`) change only the coordinate on the heading's axis, and from an on-board head it equals the reference wrapped step |
| Engine.GrowSnake | app/src/main/java/edu/pwr/jakubwiraszka/sensorsnake/composables/Game.kt:148-156 | growing adds exactly one cell in front and keeps all old cells; from a head on the board the new head is the wrapped step in the heading, so it is on the board too |
| Engine.GrowWrapsWhereMoveLeaves | app/src/main/java/edu/pwr/jakubwiraszka/sensorsnake/composables/Game.kt:125-156 | at the right edge a move leaves the board but growth wraps to column 0 |
| Engine.GrowIsMoveKeepingTail | app/src/main/java/edu/pwr/jakubwiraszka/sensorsnake/composables/Game.kt:125-156 | when the step stays on the board, the grown snake is the moved snake followed by the old tail cell |
| Engine.BoardPosition | app/src/main/java/edu/pwr/jakubwiraszka/sensorsnake/composables/Game.kt:141-142 | the board enumerates gridSize × gridSize cells column by column: cell (x, y) comes at position x·gridSize + y |
| Engine.BoardMembers | app/src/main/java/edu/pwr/jakubwiraszka/sensorsnake/composables/Game.kt:141-142 | the enumerated board holds exactly the cells with both coordinates in [0, gridSize) |
| Engine.BoardDistinct | app/src/main/java/edu/pwr/jakubwiraszka/sensorsnake/composables/Game.kt:141-142 | the enumerated board lists no cell twice |
| Engine.Unoccupied | app/src/main/java/edu/pwr/jakubwiraszka/sensorsnake/composables/Game.kt:143 | filtering keeps exactly the listed cells that are not on the snake, and never lengthens the list |
| Engine.UnoccupiedDistinct | app/src/main/java/edu/pwr/jakubwiraszka/sensorsnake/composables/Game.kt:143 | filtering a list without repeats gives a list without repeats |
| Engine.FreeCells | app/src/main/java/edu/pwr/jakubwiraszka/sensorsnake/composables/Game.kt:141-143 | the candidate food cells are exactly the board cells not on the snake |
| Engine.FreeCellsDistinct | app/src/main/java/edu/pwr/jakubwiraszka/sensorsnake/composables/Game.kt:141-143 | each candidate food cell is listed once |
| Engine.BoardFullMeansCovered | app/src/main/java/edu/pwr/jakubwiraszka/sensorsnake/composables/Game.kt:141-144 | there is no candidate cell exactly when the snake covers every board cell |
| Engine.GenerateFood | app/src/main/java/edu/pwr/jakubwiraszka/sensorsnake/composables/Game.kt:140-145 | given at least one free cell, food is on the board and not on the snake, whatever the random draw |
| Engine.EveryFreeCellReachable | app/src/main/java/edu/pwr/jakubwiraszka/sensorsnake/composables/Game.kt:144 | every free cell is chosen by some draw below the number of candidates |
| Engine.DrawsInjective | app/src/main/java/edu/pwr/jakubwiraszka/sensorsnake/composables/Game.kt:144 | two different draws below the number of candidates choose different cells; with the previous row, the draws map one-to-one onto the free cells, so a uniform draw places food uniformly |
| Engine.LastFreeCellIsForced | app/src/main/java/edu/pwr/jakubwiraszka/sensorsnake/composables/Game.kt:140-145 | when the snake covers all cells but one, every draw returns that cell |
| Engine.CheckGameOver | app/src/main/java/edu/pwr/jakubwiraszka/sensorsnake/composables/Game.kt:159-162 | the game is over exactly when the head also occurs at some later index of the snake, or a head coordinate is below 0 or at least gridSize |
| Engine.StartIsAlive | app/src/main/java/edu/pwr/jakubwiraszka/sensorsnake/composables/Game.kt:159-162 | the starting snake (5, 5) on the 25 board is not over |
| Engine.ReversalCollides | app/src/main/java/edu/pwr/jakubwiraszka/sensorsnake/composables/Game.kt:125-162 | a snake of three or more cells that moves and then moves straight back is always over |
| Engine.CadenceTables | app/src/main/java/edu/pwr/jakubwiraszka/sensorsnake/composables/Game.kt:164-178 | EASY ticks every 100 ms and moves every 200 ms, MEDIUM 50/250, HARD 30/300; for every level the tick is strictly shorter than the move interval; harder levels move less often and tick more often |
| Controls.Classify | app/src/main/java/edu/pwr/jakubwiraszka/sensorsnake/composables/Controls.kt:229-243 | the classified heading is never the reverse of the current one; it is the current heading or the one whose guard holds; whenever some guard holds, its heading is the result |
| Controls.GuardsExclusive | app/src/main/java/edu/pwr/jakubwiraszka/sensorsnake/composables/Controls.kt:237-240 | no sample satisfies two guards, so the first-match order never decides anything |
| Controls.Sector | app/src/main/java/edu/pwr/jakubwiraszka/sensorsnake/composables/Controls.kt:237-240 | a sample lies in none of the four diagonal sectors exactly when it is on a diagonal y = x or y = -x |
| Controls.ClassifyBySector | app/src/main/java/edu/pwr/jakubwiraszka/sensorsnake/composables/Controls.kt:236-242 | the classifier equals a geometric reference: take the sample's sector if it passes that heading's threshold test and is not a reversal, otherwise keep the heading |
| Controls.NeverReverses | app/src/main/java/edu/pwr/jakubwiraszka/sensorsnake/composables/Controls.kt:236-242 | a tilt never selects the reverse of the current heading |
| Controls.RightAndUpConditions | app/src/main/java/edu/pwr/jakubwiraszka/sensorsnake/composables/Controls.kt:237-240 | a change to RIGHT needs heading not LEFT, x above the threshold and -x < y < x; a change to UP needs heading not DOWN, y above the threshold, y > x and y > -x |
| Controls.NeutralKeepsHeading | app/src/main/java/edu/pwr/jakubwiraszka/sensorsnake/composables/Controls.kt:237-241 | the sample (0, 0) keeps the current heading for every threshold |
| Controls.ClassifyIdempotent | app/src/main/java/edu/pwr/jakubwiraszka/sensorsnake/composables/Controls.kt:236-242 | classifying the same sample again from the heading just chosen gives the same heading |
| Controls.DeadZoneOneSided | app/src/main/java/edu/pwr/jakubwiraszka/sensorsnake/composables/Controls.kt:238-239 | for a threshold of at least 0, the LEFT and DOWN threshold tests follow from their sectors; a small tilt left or down turns the snake, a small tilt right or up does not |
| Controls.ClassifierExamples | app/src/main/java/edu/pwr/jakubwiraszka/sensorsnake/composables/Controls.kt:236-242 | with heading RIGHT and threshold 5: (10, 0) and (-10, 0) keep RIGHT, (0, 10) gives UP, (0, -10) gives DOWN, and (1, 1) keeps RIGHT |
| Controls.SensorUpdate | app/src/main/java/edu/pwr/jakubwiraszka/sensorsnake/composables/Controls.kt:44-47 | the tilt controls report a heading exactly when the classified heading differs from the current one; a reported heading is that classified heading, never the current one and never its reverse |
| Controls.SensorUpdateSettles | app/src/main/java/edu/pwr/jakubwiraszka/sensorsnake/composables/Controls.kt:47 | once the reported heading is applied, the same sample reports nothing more |
| Controls.ButtonPress | app/src/main/java/edu/pwr/jakubwiraszka/sensorsnake/composables/Controls.kt:166-201 | a button press is refused exactly when it asks for the reverse of the current heading; otherwise the pressed heading is reported, even when it is the current one |
| Controls.HandleInput | app/src/main/java/edu/pwr/jakubwiraszka/sensorsnake/composables/Controls.kt:44-51 | in either control mode a reported heading is never the reverse of the current one |
| Controls.InputNeverReverses | app/src/main/java/edu/pwr/jakubwiraszka/sensorsnake/composables/Controls.kt:44-51 | applying one input never leaves the heading reversed |
| Controls.TwoInputsCanReverse | app/src/main/java/edu/pwr/jakubwiraszka/sensorsnake/composables/Controls.kt:166-201 | pressing UP and then LEFT while heading RIGHT ends up heading LEFT |
| Loop.StartLeavesRoom | app/src/main/java/edu/pwr/jakubwiraszka/sensorsnake/composables/Game.kt:43-50 | the starting snake leaves a free cell, so the initial food draw cannot fail |
| Loop.NewGame | app/src/main/java/edu/pwr/jakubwiraszka/sensorsnake/composables/Game.kt:41-53 | a new session is valid and running, with snake [(5, 5)], heading RIGHT, move clock 0 and food off (5, 5) |
| Loop.Restart | app/src/main/java/edu/pwr/jakubwiraszka/sensorsnake/composables/Game.kt:85-88 | restart gives a valid running session with snake [(5, 5)], heading RIGHT and food off (5, 5), and keeps the old move clock |
| Loop.MovePhase | app/src/main/java/edu/pwr/jakubwiraszka/sensorsnake/composables/Game.kt:61-64 | when at least the move interval has passed, the snake moves one cell in its heading and the move clock becomes now; otherwise the session is unchanged; food, heading and length are always kept |
| Loop.EatPhase | app/src/main/java/edu/pwr/jakubwiraszka/sensorsnake/composables/Game.kt:65-69 | with the head off the food nothing changes; with the head on the food the board is full exactly when the snake covers it; otherwise the new food is on the board and off the pre-growth snake, and the snake grows by the wrapped step |
| Loop.Tick | app/src/main/java/edu/pwr/jakubwiraszka/sensorsnake/composables/Game.kt:55-71 | an OVER session is left alone; in a running one the move clock advances only on a move, the snake gains at most one cell, it gains one exactly when the food changes, the snake does not move before the move interval, and the flag is set from the game-over test |
| Loop.TickPreservesValid | app/src/main/java/edu/pwr/jakubwiraszka/sensorsnake/composables/Game.kt:55-71 | a tick keeps the snake non-empty, the food and body on the board, and the head on the board while running |
| Loop.Handle | app/src/main/java/edu/pwr/jakubwiraszka/sensorsnake/composables/Game.kt:75-110 | an event never shortens the snake; once the game is over, neither ticks nor inputs change the session |
| Loop.HandlePreservesValid | app/src/main/java/edu/pwr/jakubwiraszka/sensorsnake/composables/Game.kt:55-110 | a tick or an input keeps a valid session valid |
| Loop.HandleNeverReverses | app/src/main/java/edu/pwr/jakubwiraszka/sensorsnake/composables/Game.kt:104-110 | no single event sets the session's heading to the reverse of its current one |
| Loop.Run | app/src/main/java/edu/pwr/jakubwiraszka/sensorsnake/composables/Game.kt:55-71 | over any run of events the snake never gets shorter |
| Loop.RunPreservesValid | app/src/main/java/edu/pwr/jakubwiraszka/sensorsnake/composables/Game.kt:55-71 | every session reached from a valid one by any events is valid |
| Loop.OverIsTerminal | app/src/main/java/edu/pwr/jakubwiraszka/sensorsnake/composables/Game.kt:56-95 | from an OVER session every run of events ends in that same session |
| Loop.FoodCanLandOnHead | app/src/main/java/edu/pwr/jakubwiraszka/sensorsnake/composables/Game.kt:65-69 | some random draw puts the new food on the cell the snake grows into |
| Loop.EatingHidesCollision | app/src/main/java/edu/pwr/jakubwiraszka/sensorsnake/composables/Game.kt:61-70 | when a due move puts the head on the food and the wrapped cell beyond the food is not on the snake, the tick yields a running session, whether or not the move put the head on the body |
| Loop.HiddenCollisionExample | app/src/main/java/edu/pwr/jakubwiraszka/sensorsnake/composables/Game.kt:61-70 | a valid five-cell session whose move puts the head on its own body, and whose tick nevertheless leaves the game running |
| Loop.OpeningMoves | app/src/main/java/edu/pwr/jakubwiraszka/sensorsnake/composables/Game.kt:55-71 | on EASY, from (5, 5) heading RIGHT with food at (10, 5), five ticks at 200 ms steps reach the food; the snake becomes [(11, 5), (10, 5)] with new food elsewhere, the game runs on, and the move clock reads 1000 |

## Left out

- Rendering and navigation are not modelled: the composable layout of
  `Game`, `AccelerometerControls`, `ButtonControls` and `ControlButton`,
  plus `Grid.kt`, `Options.kt` and the menu in `MainActivity.kt`. The model
  keeps only one layout fact: the controls are shown only while the game
  runs. The restart button also calls `onBack`, which returns to the menu;
  menu navigation is not modelled.
- Loop.Restart: models only the state that the restart handler assigns
  (`Game.kt:85-88`). The handler then calls `onBack`, which switches the
  app to the menu (`MainActivity.kt:79`). The `Game` screen and its
  remembered state are dropped, so the restarted session is never ticked.
  Pressing Play composes a fresh screen, which is `Loop.NewGame` with the
  move clock at 0. The kept move clock in the contract is therefore never
  observed in play.
- Sensor plumbing is not modelled: listener registration and the scaling of
  raw readings by `sensitivity` in `MainActivity.kt`. The classifier takes
  the scaled sample as given. `Float` values are modelled as `real`, so NaN
  and infinities are excluded.
- Coroutines are not modelled: `LaunchedEffect`, `delay`, restarting
  through `gameId`, and cancelling the old loop. Ticks and inputs happen
  one at a time in a `Run`. A torn read or an input that lands in the
  middle of a tick cannot occur in the model.
- The clock `System.currentTimeMillis()` is not modelled. `Tick` takes one
  `now` and uses it both for the elapsed-time test and as the new move
  time. The source reads the clock twice, a few instructions apart.
- `Random.nextInt(n)` is the parameter `pick`, reduced modulo the number of
  candidates. The model proves that the draws below the number of
  candidates map one-to-one onto the free cells (`Engine.DrawsInjective`,
  `Engine.EveryFreeCellReachable`). Probabilities themselves are not
  modelled.
- Integer widths are not modelled: cells use unbounded `int` for Kotlin
  `Int`, and times use unbounded `int` for `Long`. Reachable coordinates
  stay within [-1, 25] and times are wall-clock milliseconds, so no
  overflow is possible in play.
- Loop.Tick: the case where food must be placed on a full board is the
  explicit outcome `BoardFull`. The source throws there.
- Engine.GenerateFood: requires at least one free cell. With none, the
  source's `Random.nextInt(0)` throws.
- Engine.GrowSnake: requires a positive grid size; the source only uses 25.
  For a head off the board, the contract says only which coordinate stays
  unchanged. The body keeps Kotlin's truncating remainder for those inputs,
  but no caller reaches them, because growth happens only with the head on
  the food.
- Engine.MoveSnake, Engine.CheckGameOver and Loop.Tick: require a non-empty
  snake, as `first()` in the source does. Every session the model can reach
  has one (`Loop.RunPreservesValid`).
- Calling `checkGameOver` twice on the same snake gives the same answer
  because it is a pure function. The model has no lemma for this.
