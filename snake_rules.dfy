/**
 The rules of the snake game as pure functions over a value snapshot of the game.

 The `Game` class in module SnakeGame updates its fields step by step; every one of its
 methods is proved to leave the fields equal to the function of this module that specifies it.
 Wall-clock time, keyboard polling and random numbers are inputs here: the keys held down,
 whether a move is due, and the grid cell the random generator would have drawn.
 */
module SnakeRules {

  const SCREEN_WIDTH: int := 640
  const SCREEN_HEIGHT: int := 480
  const GRID_SIZE: int := 20
  /** Number of frames a particle lives. */
  const PARTICLE_LIFE: int := 30
  /** Number of particles per explosion. */
  const NUM_PARTICLES: nat := 30
  /** Points for one food. */
  const FOOD_SCORE: int := 10
  /** Columns and rows the food can be placed in. */
  const COLUMNS: int := SCREEN_WIDTH / GRID_SIZE
  const ROWS: int := SCREEN_HEIGHT / GRID_SIZE

  datatype Direction = Right | Left | Up | Down

  datatype Position = Position(x: int, y: int)

  /** The keys the game polls. */
  datatype Key = KeyRight | KeyLeft | KeyUp | KeyDown | KeySpace

  /** A grid cell as drawn by the random generator: a column in [0, COLUMNS) and a row in [0, ROWS). */
  datatype Cell = Cell(col: int, row: int)

  /** What one call of Update sees of the outside world. */
  datatype Input = Input(keys: set<Key>, moveDue: bool, cell: Cell)

  /** What happened during one call of Update; the sounds and the explosion are driven by these. */
  datatype Event =
    | Frozen            // game over and no restart requested
    | Restarted         // game over and Space held: the game was reset
    | Waited            // no move was due; only the particles aged
    | Moved             // the snake moved one cell
    | Ate(food: Position) // the snake moved onto the food, which was at `food`
    | Crashed           // the new head hit the body; the game is over

  /** The logical state of a game. Particles are represented by their remaining lifetimes. */
  datatype GameState = GameState(
    body: seq<Position>,
    direction: Direction,
    grow: bool,
    food: Position,
    gameOver: bool,
    score: int,
    particles: seq<int>)

  predicate ValidCell(c: Cell) {
    0 <= c.col < COLUMNS && 0 <= c.row < ROWS
  }

  predicate ValidInput(i: Input) {
    ValidCell(i.cell)
  }

  // ---------------------------------------------------------------------------
  // Steering

  function Opposite(d: Direction): Direction {
    match d
    case Right => Left
    case Left => Right
    case Up => Down
    case Down => Up
  }

  function KeyOf(d: Direction): Key {
    match d
    case Right => KeyRight
    case Left => KeyLeft
    case Up => KeyUp
    case Down => KeyDown
  }

  /** The order in which held arrow keys are considered. */
  const PRIORITY: seq<Direction> := [Right, Left, Down, Up]

  /** Direction `d` may be taken: its key is held and it does not reverse `current`. */
  predicate Permitted(d: Direction, current: Direction, keys: set<Key>) {
    KeyOf(d) in keys && current != Opposite(d)
  }

  /**
   The direction after polling the arrow keys: the first permitted direction in the
   order Right, Left, Down, Up, or the current one when none is permitted.
   */
  function Steer(current: Direction, keys: set<Key>): (r: Direction)
    ensures Permitted(r, current, keys) || (r == current && forall d :: !Permitted(d, current, keys))
    ensures forall i, j | 0 <= i < j < |PRIORITY| && PRIORITY[j] == r :: !Permitted(PRIORITY[i], current, keys)
    ensures r != Opposite(current)
  {
    if KeyRight in keys && current != Left then Right
    else if KeyLeft in keys && current != Right then Left
    else if KeyDown in keys && current != Up then Down
    else if KeyUp in keys && current != Down then Up
    else current
  }

  // ---------------------------------------------------------------------------
  // Movement and wrap-around

  function Abs(n: int): nat {
    if n < 0 then -n else n
  }

  /** The head moved one cell in direction `d`, before wrapping. */
  function StepHead(p: Position, d: Direction): (q: Position)
    ensures (q.x == p.x) != (q.y == p.y)
    ensures Abs(q.x - p.x) + Abs(q.y - p.y) == GRID_SIZE
  {
    match d
    case Right => p.(x := p.x + GRID_SIZE)
    case Left => p.(x := p.x - GRID_SIZE)
    case Up => p.(y := p.y - GRID_SIZE)
    case Down => p.(y := p.y + GRID_SIZE)
  }

  /**
   One coordinate wrapped on an axis of length `extent`. Below zero wraps to the last
   full cell, but only a value strictly beyond `extent` wraps to zero, so `extent`
   itself is kept.
   */
  function WrapCoord(v: int, extent: int): (r: int)
    ensures 0 <= v <= extent ==> r == v
    ensures extent > 0 ==> (r == extent <==> v == extent)
    ensures extent >= GRID_SIZE && extent % GRID_SIZE == 0 && v % GRID_SIZE == 0 ==>
              0 <= r <= extent && r % GRID_SIZE == 0
  {
    if v < 0 then extent - GRID_SIZE
    else if v > extent then 0
    else v
  }

  function Wrap(p: Position): Position {
    Position(WrapCoord(p.x, SCREEN_WIDTH), WrapCoord(p.y, SCREEN_HEIGHT))
  }

  function NextHead(head: Position, d: Direction): Position {
    Wrap(StepHead(head, d))
  }

  /** A position a snake segment can occupy: grid-aligned in [0, 640] x [0, 480]. */
  predicate OnBoard(p: Position) {
    0 <= p.x <= SCREEN_WIDTH && 0 <= p.y <= SCREEN_HEIGHT &&
    p.x % GRID_SIZE == 0 && p.y % GRID_SIZE == 0
  }

  /** A position food can occupy: grid-aligned in [0, 620] x [0, 460]. */
  predicate OnFoodGrid(p: Position) {
    0 <= p.x < SCREEN_WIDTH && 0 <= p.y < SCREEN_HEIGHT &&
    p.x % GRID_SIZE == 0 && p.y % GRID_SIZE == 0
  }

  /** The food position for a drawn cell. */
  function CellPosition(c: Cell): (p: Position)
    requires ValidCell(c)
    ensures OnFoodGrid(p)
    ensures p.x / GRID_SIZE == c.col && p.y / GRID_SIZE == c.row
  {
    Position(c.col * GRID_SIZE, c.row * GRID_SIZE)
  }

  // ---------------------------------------------------------------------------
  // Particles (lifetimes only)

  /**
   One frame of particle decay: the particles with life > 0, in their order, each with
   one frame less; the others are dropped. Defined from the last particle backwards, the
   way a loop over the list extends its accumulator.
   */
  function Age(ps: seq<int>): (r: seq<int>)
    ensures |r| <= |ps|
    ensures forall k | 0 <= k < |r| :: r[k] >= 0
  {
    if ps == [] then []
    else
      var last := ps[|ps| - 1];
      Age(ps[..|ps| - 1]) + (if last > 0 then [last - 1] else [])
  }

  /** An explosion: NUM_PARTICLES fresh particles appended. */
  function Burst(ps: seq<int>): seq<int> {
    ps + seq(NUM_PARTICLES, _ => PARTICLE_LIFE)
  }

  // ---------------------------------------------------------------------------
  // Whole-game transitions

  /** The body built when the program starts, head first. */
  const INITIAL_BODY: seq<Position> := [Position(300, 240), Position(280, 240), Position(260, 240)]

  /** The body a restart resets to, head first; one cell further right than INITIAL_BODY. */
  const RESTART_BODY: seq<Position> := [
    Position(SCREEN_WIDTH / 2, SCREEN_HEIGHT / 2),
    Position(SCREEN_WIDTH / 2 - GRID_SIZE, SCREEN_HEIGHT / 2),
    Position(SCREEN_WIDTH / 2 - GRID_SIZE * 2, SCREEN_HEIGHT / 2)]

  /** The game as the program creates it, food placed at the drawn cell. */
  function InitialState(c: Cell): GameState
    requires ValidCell(c)
  {
    GameState(INITIAL_BODY, Right, false, CellPosition(c), false, 0, [])
  }

  /** The game after a restart; `grow` is left as it was. */
  function Restart(s: GameState, c: Cell): GameState
    requires ValidCell(c)
  {
    s.(body := RESTART_BODY, particles := [], direction := Right, score := 0,
       gameOver := false, food := CellPosition(c))
  }

  /** The body after a move to `head`: the tail is kept when growing, dropped otherwise. */
  function MovedBody(body: seq<Position>, head: Position, growing: bool): seq<Position>
    requires body != []
  {
    [head] + if growing then body else body[..|body| - 1]
  }

  /** One call of Update. */
  function Tick(s: GameState, i: Input): (t: GameState)
    requires s.body != [] && ValidInput(i)
    ensures t.body != []
  {
    if s.gameOver then
      if KeySpace in i.keys then Restart(s, i.cell) else s
    else
      var d := Steer(s.direction, i.keys);
      if !i.moveDue then
        s.(direction := d, particles := Age(s.particles))
      else
        var head := NextHead(s.body[0], d);
        if head in s.body then
          s.(direction := d, gameOver := true)
        else
          var ate := head == s.food;
          s.(body := MovedBody(s.body, head, s.grow || ate),
             direction := d,
             grow := false,
             food := if ate then CellPosition(i.cell) else s.food,
             score := if ate then s.score + FOOD_SCORE else s.score,
             particles := Age(s.particles))
  }

  /** The event one call of Update reports. */
  function TickEvent(s: GameState, i: Input): Event
    requires s.body != []
  {
    if s.gameOver then
      if KeySpace in i.keys then Restarted else Frozen
    else if !i.moveDue then Waited
    else
      var head := NextHead(s.body[0], Steer(s.direction, i.keys));
      if head in s.body then Crashed
      else if head == s.food then Ate(s.food)
      else Moved
  }

  /** Successive calls of Update. */
  function Run(s: GameState, inputs: seq<Input>): GameState
    requires s.body != []
    requires forall k | 0 <= k < |inputs| :: ValidInput(inputs[k])
    decreases |inputs|
  {
    if inputs == [] then s
    else
      Run(Tick(s, inputs[0]), inputs[1..])
  }

  // ---------------------------------------------------------------------------
  // The invariant of every reachable state

  predicate Distinct(body: seq<Position>) {
    forall i, j | 0 <= i < j < |body| :: body[i] != body[j]
  }

  /**
   Holds of the initial state and is preserved by every Update, restart and explosion:
   the snake has at least three segments, its score is ten per segment beyond three, its
   segments are distinct board cells, the food is on the food grid, no growth is pending
   between calls, and every particle has a lifetime in [0, PARTICLE_LIFE].
   */
  predicate Inv(s: GameState) {
    && |s.body| >= 3
    && s.score == FOOD_SCORE * (|s.body| - 3)
    && (forall k | 0 <= k < |s.body| :: OnBoard(s.body[k]))
    && Distinct(s.body)
    && OnFoodGrid(s.food)
    && !s.grow
    && (forall k | 0 <= k < |s.particles| :: 0 <= s.particles[k] <= PARTICLE_LIFE)
  }
}
