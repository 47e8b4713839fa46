/**
 The input layer: the tilt classifier that turns a 2-D sensor sample into a
 heading, the four arrow buttons, and the rule that a new heading is handed
 to the game only when it differs from the current one.

 Sensor values are `Float` in the source; they are modelled as `real`,
 which agrees with every comparison and negation the classifier makes on
 finite, non-NaN values.
 */
module Controls {
  import opened Geometry

  /** A tilt sample; `x` positive to the right, `y` positive upwards. */
  datatype Sample = Sample(x: real, y: real)

  datatype Option<T> = None | Some(value: T)

  // The four guards of the classifier, exactly as written. Note that the
  // LEFT and DOWN guards compare against `+minSensorAngle`, not
  // `-minSensorAngle`.

  predicate RightGuard(current: Direction, s: Sample, minSensorAngle: real) {
    current != Left && s.x > minSensorAngle && s.y < s.x && s.y > -s.x
  }

  predicate LeftGuard(current: Direction, s: Sample, minSensorAngle: real) {
    current != Right && s.x < minSensorAngle && s.y > s.x && s.y < -s.x
  }

  predicate DownGuard(current: Direction, s: Sample, minSensorAngle: real) {
    current != Up && s.y < minSensorAngle && s.y < s.x && s.y < -s.x
  }

  predicate UpGuard(current: Direction, s: Sample, minSensorAngle: real) {
    current != Down && s.y > minSensorAngle && s.y > s.x && s.y > -s.x
  }

  /** The guard under which the classifier selects heading `d`. */
  predicate Fires(d: Direction, current: Direction, s: Sample, minSensorAngle: real) {
    match d
    case Right => RightGuard(current, s, minSensorAngle)
    case Left => LeftGuard(current, s, minSensorAngle)
    case Down => DownGuard(current, s, minSensorAngle)
    case Up => UpGuard(current, s, minSensorAngle)
  }

  /** The heading a tilt sample asks for: the guards are tried in the order
      RIGHT, LEFT, DOWN, UP and the first that holds wins; when none holds
      the current heading is kept. */
  function Classify(current: Direction, s: Sample, minSensorAngle: real): (r: Direction)
    ensures r != Opposite(current)
    ensures r == current || Fires(r, current, s, minSensorAngle)
    ensures forall d :: Fires(d, current, s, minSensorAngle) ==> r == d
  {
    if RightGuard(current, s, minSensorAngle) then Right
    else if LeftGuard(current, s, minSensorAngle) then Left
    else if DownGuard(current, s, minSensorAngle) then Down
    else if UpGuard(current, s, minSensorAngle) then Up
    else current
  }

  /** At most one guard holds for any sample, so the order in which they
      are tried never matters. */
  lemma GuardsExclusive(current: Direction, s: Sample, minSensorAngle: real, d: Direction, e: Direction)
    requires Fires(d, current, s, minSensorAngle) && Fires(e, current, s, minSensorAngle)
    ensures d == e
  {
  }

  /** The diagonal sector a sample lies in, ignoring the threshold; samples
      on a diagonal `y == x` or `y == -x` lie in no sector. */
  function Sector(s: Sample): (r: Option<Direction>)
    ensures r == None <==> s.y == s.x || s.y == -s.x
  {
    if s.y < s.x && s.y > -s.x then Some(Right)
    else if s.y > s.x && s.y < -s.x then Some(Left)
    else if s.y < s.x && s.y < -s.x then Some(Down)
    else if s.y > s.x && s.y > -s.x then Some(Up)
    else None
  }

  /** The threshold test of each heading, as written: RIGHT and UP must
      exceed `minSensorAngle`, LEFT and DOWN must fall below it. */
  predicate ClearsThreshold(d: Direction, s: Sample, minSensorAngle: real) {
    match d
    case Right => s.x > minSensorAngle
    case Left => s.x < minSensorAngle
    case Down => s.y < minSensorAngle
    case Up => s.y > minSensorAngle
  }

  /** The classifier restated geometrically: the sample's sector wins when
      it clears its threshold and is not a reversal of the current heading. */
  lemma ClassifyBySector(current: Direction, s: Sample, minSensorAngle: real)
    ensures Classify(current, s, minSensorAngle) ==
            match Sector(s)
            case Some(d) =>
              if d != Opposite(current) && ClearsThreshold(d, s, minSensorAngle) then d else current
            case None => current
  {
  }

  /** A tilt never reverses the snake. */
  lemma NeverReverses(current: Direction, s: Sample, minSensorAngle: real)
    ensures Classify(current, s, minSensorAngle) != Opposite(current)
  {
  }

  /** RIGHT is chosen only when the sample is right of the threshold and
      inside the right-hand sector (or the snake already heads right). UP is
      chosen only when it is above the threshold and inside the upper sector
      (or the snake already heads up). */
  lemma RightAndUpConditions(current: Direction, s: Sample, minSensorAngle: real)
    ensures Classify(current, s, minSensorAngle) == Right && current != Right ==>
              current != Left && s.x > minSensorAngle && -s.x < s.y < s.x
    ensures Classify(current, s, minSensorAngle) == Up && current != Up ==>
              current != Down && s.y > minSensorAngle && s.y > s.x && s.y > -s.x
  {
  }

  /** The neutral sample keeps the heading, whatever the threshold. */
  lemma NeutralKeepsHeading(current: Direction, minSensorAngle: real)
    ensures Classify(current, Sample(0.0, 0.0), minSensorAngle) == current
  {
  }

  /** Classifying again from the heading just chosen changes nothing. */
  lemma ClassifyIdempotent(current: Direction, s: Sample, minSensorAngle: real)
    ensures Classify(Classify(current, s, minSensorAngle), s, minSensorAngle) ==
            Classify(current, s, minSensorAngle)
  {
  }

  /** The dead zone is one-sided. For a non-negative threshold, the LEFT
      and DOWN threshold tests already follow from their sectors, so those
      two headings are selected arbitrarily close to the neutral position,
      while RIGHT and UP need to pass the threshold. */
  lemma DeadZoneOneSided(s: Sample, minSensorAngle: real)
    requires minSensorAngle >= 0.0
    ensures Sector(s) == Some(Left) ==> ClearsThreshold(Left, s, minSensorAngle)
    ensures Sector(s) == Some(Down) ==> ClearsThreshold(Down, s, minSensorAngle)
    ensures Classify(Up, Sample(-1.0, 0.0), 5.0) == Left
    ensures Classify(Left, Sample(0.0, -1.0), 5.0) == Down
    ensures Classify(Down, Sample(1.0, 0.0), 5.0) == Down
    ensures Classify(Left, Sample(0.0, 1.0), 5.0) == Left
  {
  }

  /** Sample readings with heading RIGHT and threshold 5. A strong tilt to
      the left keeps RIGHT, because LEFT would reverse the snake. */
  lemma ClassifierExamples()
    ensures Classify(Right, Sample(10.0, 0.0), 5.0) == Right
    ensures Classify(Right, Sample(-10.0, 0.0), 5.0) == Right
    ensures Classify(Right, Sample(0.0, 10.0), 5.0) == Up
    ensures Classify(Right, Sample(0.0, -10.0), 5.0) == Down
    ensures Classify(Right, Sample(1.0, 1.0), 5.0) == Right
  {
  }

  /** What the tilt controls hand to the game: a heading only when the
      classified one differs from the current one. */
  function SensorUpdate(current: Direction, s: Sample, minSensorAngle: real): (r: Option<Direction>)
    ensures r == None <==> Classify(current, s, minSensorAngle) == current
    ensures r.Some? ==> r.value == Classify(current, s, minSensorAngle)
    ensures r.Some? ==> r.value != current && r.value != Opposite(current)
  {
    var next := Classify(current, s, minSensorAngle);
    if next != current then Some(next) else None
  }

  /** What an arrow button hands to the game: the pressed heading, unless
      it is the reverse of the current one. Pressing the current heading
      still hands it on. */
  function ButtonPress(current: Direction, pressed: Direction): (r: Option<Direction>)
    ensures r == None <==> pressed == Opposite(current)
    ensures r.Some? ==> r.value == pressed
  {
    match pressed
    case Up => if current != Down then Some(Up) else None
    case Left => if current != Right then Some(Left) else None
    case Right => if current != Left then Some(Right) else None
    case Down => if current != Up then Some(Down) else None
  }

  /** The game's handler: a handed-on heading replaces the current one. */
  function Apply(current: Direction, update: Option<Direction>): Direction {
    match update
    case Some(d) => d
    case None => current
  }

  /** One input from the player, in either control mode. */
  datatype Input = Tilt(sample: Sample) | Press(button: Direction)

  function HandleInput(current: Direction, input: Input, minSensorAngle: real): (r: Option<Direction>)
    ensures r.Some? ==> r.value != Opposite(current)
  {
    match input
    case Tilt(s) => SensorUpdate(current, s, minSensorAngle)
    case Press(b) => ButtonPress(current, b)
  }

  /** The heading after a sequence of inputs. */
  function Steer(current: Direction, inputs: seq<Input>, minSensorAngle: real): Direction
    decreases |inputs|
  {
    if inputs == [] then current
    else Steer(Apply(current, HandleInput(current, inputs[0], minSensorAngle)), inputs[1..], minSensorAngle)
  }

  /** After the tilt controls have handed on their heading, the same sample
      hands on nothing more. */
  lemma SensorUpdateSettles(current: Direction, s: Sample, minSensorAngle: real)
    ensures SensorUpdate(Apply(current, SensorUpdate(current, s, minSensorAngle)), s, minSensorAngle) == None
  {
    ClassifyIdempotent(current, s, minSensorAngle);
  }

  /** Each single input turns the heading by at most a quarter turn. */
  lemma InputNeverReverses(current: Direction, input: Input, minSensorAngle: real)
    ensures Apply(current, HandleInput(current, input, minSensorAngle)) != Opposite(current)
  {
  }

  /** But two inputs between two moves can reverse the heading: RIGHT, then
      UP, then LEFT. */
  lemma TwoInputsCanReverse()
    ensures Steer(Right, [Press(Up), Press(Left)], 0.0) == Opposite(Right)
  {
    assert [Press(Up), Press(Left)][1..] == [Press(Left)];
  }
}
