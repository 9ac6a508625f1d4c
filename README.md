# Snake game state machine

A model of the logic of a single-player Snake game written in Go on the ebiten engine.
The game keeps a snake (a list of grid cells, head first), a heading, a food cell, a score,
a game-over flag, a pending-growth flag and a list of explosion particles. On every frame
`Update` does the following:

- While the game is over, it restarts when Space is held and otherwise does nothing.
- It applies at most one arrow key, trying keys in the order Right, Left, Down, Up. A key
  is refused when it is the reverse of the heading left by the previous frame. The guard
  runs in every frame, also when no move is due. So the snake can still turn back over
  two frames: first to a perpendicular heading without moving, then to the reverse of its
  last move, which runs the head into its second segment. At a wrap seam the step back
  lands one cell off. After a wrap from 0 to 620 (or 0 to 460) it reaches 640 (or 480),
  and the snake reverses without a crash. After a wrap from 640 to 0 (or 480 to 0) it
  reaches 620 (or 460). For a snake that crossed in a straight line that is its third
  segment, and the game still ends.
- When a move is due, it moves the head one cell and wraps it around the board. If the new
  head lands on any segment, the game ends. If it lands on the food, the snake grows in
  that same frame, the food moves and the score rises by 10. Otherwise the tail is dropped.
- It ages the particles: live ones lose one frame of life, expired ones are dropped.

The project has three modules:

- `SnakeRules` (snake_rules.dfy) states the rules as pure functions over a value snapshot
  `GameState`. `Steer` is the key guard, `StepHead` and `WrapCoord` move the head, `Age`
  decays the particles and `Tick` is one whole `Update`. `TickEvent` is what one `Update`
  reports. `Run` is a sequence of `Update` calls. `Inv` is the invariant of every reachable
  game.
- `SnakeProperties` (snake_properties.dfy) proves the properties of those functions.
- `SnakeGame` (snake_game.dfy) is the `Game` class. Its fields are the Go struct's logical
  fields, with particles represented by their integer lifetimes. Its methods update those
  fields step by step as the Go methods do. Each method is proved to leave the fields equal
  to the `SnakeRules` function that specifies it.

Some inputs from outside become parameters of `Update`:

- `keys` is the set of keys held down. It replaces `ebiten.IsKeyPressed`.
- `moveDue` says whether the move interval has elapsed. It replaces
  `time.Since(g.lastMove) > g.moveSpeed`.
- `cell` is the column and row that `rand.Intn` would draw. It is used only when food is
  placed.

`Update` returns an `Event`. The event says which sound the program would play. An
`Ate(food)` event also marks where the program launches an explosion. The explosion is the
separate method `CreateExplosion`.

Behaviours of the code that the model keeps:

- The code skips the particle update in a frame where the game is over or the snake
  crashes, because it returns early.
- The code grows the snake in the same frame in which the food is eaten.
- The code moves only when strictly more than the interval has elapsed. Here this is just
  the `moveDue` input.
- The code plays sounds and spawns particles from `Update` directly. Here these are
  reported as events.

## Model

| member | source | states |
|---|---|---|
| SnakeRules.Steer | main.go:144-152 | the new heading is permitted (its key is held and it is not the reverse of the current heading), or nothing is permitted and the heading is kept; no direction earlier in Right, Left, Down, Up is permitted; the result is never the reverse of the current heading |
| SnakeRules.StepHead | main.go:155-167 | the unwrapped new head differs from the old one in exactly one axis, by exactly one cell (20) |
| SnakeRules.WrapCoord | main.go:169-180 | a coordinate in [0, extent] is kept; the result is the far edge `extent` exactly when the input was `extent` (wrapping never produces it); grid-aligned input gives a grid-aligned result in [0, extent] |
| SnakeRules.CellPosition | main.go:71-82 | the food cell for a draw lies on the food grid [0, 620] x [0, 460] and encodes the drawn column and row |
| SnakeRules.Age | main.go:209-220 | particle decay never increases the particle count and leaves no negative lifetime |
| SnakeRules.Tick | main.go:135-223 | one Update never leaves the snake empty |
| SnakeProperties.ReverseKeyIgnored | main.go:144-152 | holding only the key opposite to the heading (Space aside) leaves the heading unchanged |
| SnakeProperties.FirstPermittedWins | main.go:144-152 | of two permitted held keys, the later one in Right, Left, Down, Up never wins |
| SnakeProperties.StepThenReverse | main.go:158-167 | a step followed by a step in the opposite direction returns to the start |
| SnakeProperties.NextHeadOnBoard | main.go:155-180 | a head on a grid cell in [0, 640] x [0, 480] moves and wraps to a grid cell in the same range |
| SnakeProperties.EdgeColumnEntry | main.go:170-174 | the new head is at x = 640 exactly when it moves right from x = 620 or moves vertically at x = 640 |
| SnakeProperties.EdgeRowEntry | main.go:176-180 | the new head is at y = 480 exactly when it moves down from y = 460 or moves horizontally at y = 480 |
| SnakeProperties.WrapRules | main.go:169-180 | for every unwrapped head, x < 0 becomes 620, x > 640 becomes 0 and x in [0, 640] is kept; y < 0 becomes 460, y > 480 becomes 0 and y in [0, 480] is kept |
| SnakeProperties.WrapAtEdges | main.go:169-180 | for every head on the board, moving right from x = 640 gives 0, moving left from x = 0 gives 620, moving right from 620 gives 640; the same for rows with 480, 0 and 460 |
| SnakeProperties.WrapScenarios | main.go:169-180 | on row 240 and column 300: 620 moving right gives 640, 640 moving right gives 0, 0 moving left gives 620; the same for rows with 460, 480 and 0 |
| SnakeProperties.FoodCellsAreFoodGrid | main.go:71-82 | a position can be chosen for the food if and only if it is on the food grid; cells under the snake are not excluded |
| SnakeProperties.FoodMayLandOnSnake | main.go:85-97 | a restart whose draw is column 16, row 12 puts the food under the new head |
| SnakeProperties.AgeAppend | main.go:209-220 | decay of a concatenation is the concatenation of the decays, so relative order is kept |
| SnakeProperties.AgeKeepsLive | main.go:210-217 | a particle with life > 0 survives, with one frame less, at the slot given by the survivors before it |
| SnakeProperties.AgeDropsExpired | main.go:210-211 | a particle with life <= 0 is dropped and takes no slot |
| SnakeProperties.AgeKeepsAllIffLive | main.go:209-220 | decay keeps the particle count if and only if every particle is alive |
| SnakeProperties.AgeBounded | main.go:209-220 | lifetimes bounded by m stay in [0, m) after one frame, so lifetimes up to 30 stay up to 30 |
| SnakeProperties.ParticleLifetime | main.go:209-220 | a particle born with life l is present with life l - n after n <= l frames and is gone after more than l frames |
| SnakeProperties.BurstAddsFullLives | main.go:111-133 | an explosion keeps the old particles and appends 30 particles of life 30 |
| SnakeProperties.TickWhenOver | main.go:137-142 | while the game is over, Update without Space changes nothing; with Space the body becomes (320,240),(300,240),(280,240), heading Right, score 0, no particles, not over, food on the grid |
| SnakeProperties.TickWithoutMove | main.go:154-220 | when no move is due, body, food, score, growth and game-over are kept; only the heading is steered and the particles age |
| SnakeProperties.TickCrash | main.go:182-186 | a new head on any segment sets game-over and changes nothing else but the heading, with no particle decay |
| SnakeProperties.TickCrashIntoTail | main.go:100-109 | a new head on the last segment ends the game although a plain move would have dropped that segment; the body is kept |
| SnakeProperties.TickEat | main.go:188-204 | eating raises the score by exactly 10 and lengthens the body by exactly 1 in the same Update, with the new head in front of the whole old body; no growth stays pending and the food moves to the drawn cell |
| SnakeProperties.TickPlainMove | main.go:197-204 | a move that neither eats nor crashes gives the new head followed by the old body without its tail, of the same length, with food and score kept |
| SnakeProperties.TickHeadMove | main.go:155-180 | when the snake moves, the new head is the old head stepped in the steered heading and wrapped, and that heading never reverses the old one |
| SnakeProperties.TickEventMatches | main.go:182-194 | the crash event is reported exactly when the game becomes over, the eat event exactly when the score rises by 10 (and it carries the old food cell), the restart event exactly when a finished game is reset |
| SnakeProperties.InitialInv | main.go:387-404 | the game as the program starts it satisfies the invariant |
| SnakeProperties.RestartBodyDiffersFromInitial | main.go:87-91 | the restart body starts at (320, 240), one cell right of the start-up body at (300, 240) |
| SnakeProperties.MovedBodyInv | main.go:197-204 | prepending a new on-board head that is not in the body keeps all segments on board and distinct, and changes the length by 1 exactly when growing |
| SnakeProperties.TickPreservesInv | main.go:135-223 | every Update keeps the invariant: at least 3 segments, score = 10 x (length - 3), distinct on-board segments, food on the food grid, no pending growth, lifetimes in [0, 30] |
| SnakeProperties.BurstPreservesInv | main.go:111-133 | an explosion keeps the invariant |
| SnakeProperties.RunPreservesInv | main.go:135-223 | any sequence of Updates keeps the invariant |
| SnakeProperties.RunFrozen | main.go:137-142 | a finished game stays exactly as it is through any number of Updates without Space |
| SnakeProperties.TwoFrameReversal | main.go:144-154 | from any running game, a frame without a move holding a perpendicular key and then a frame holding the reverse key turn the heading to the reverse of the old one, with the body not moved in between |
| SnakeProperties.TwoFrameReversalCrash | main.go:144-186 | from a new game, Up in a frame without a move and then Left in a frame with a move end the game: the head lands on the second segment |
| SnakeProperties.SeamReversalNoCrash | main.go:144-180 | from the body (620,240),(0,240),(20,240) heading Left (a state satisfying the invariant), Up without a move and then Right with a move reverse the heading without ending the game, giving the body (640,240),(620,240),(0,240) |
| SnakeProperties.SeamReversalCrash | main.go:144-186 | the body (0,240),(640,240),(620,240) heading Right, food (100,100), is reached from (620,240),(600,240),(580,240) by two plain moves and satisfies the invariant; from it, Up without a move and then Left with a move end the game, because the step back from 0 wraps to 620, the third segment |
| SnakeProperties.FirstMoveScenario | main.go:155-204 | the first move of a new game with no key held gives the body (320,240),(300,240),(280,240) |
| SnakeGame.Game.constructor | main.go:387-404 | the new game has the start-up body (300,240),(280,240),(260,240), heading Right, score 0, no particles, food at the drawn cell, and satisfies the invariant |
| SnakeGame.Game.PlaceFood | main.go:71-82 | the food moves to the drawn cell; nothing else changes |
| SnakeGame.Game.Restart | main.go:85-97 | the fields become the restart state; the growth flag is left as it was |
| SnakeGame.Game.CheckSelfCollision | main.go:100-109 | reports a hit exactly when the position is that of some segment, the tail included |
| SnakeGame.Game.AgeParticles | main.go:209-220 | the particle list becomes the decay of the old list |
| SnakeGame.Game.CreateExplosion | main.go:111-133 | the particle list becomes the old list plus 30 particles of life 30; the invariant is kept |
| SnakeGame.Game.Update | main.go:135-223 | the fields become `Tick` of the old fields and the reported event is `TickEvent`; the invariant is kept |

The rule functions `Opposite`, `KeyOf`, `Wrap`, `NextHead`, `Burst`, `Restart`,
`InitialState`, `MovedBody`, `TickEvent` and `Run` carry no contract of their own. Their
meaning is stated by the lemmas above.

## Left out

- Rendering (`Draw`, `Layout`): calls into the drawing library with no game logic.
- Audio (`playEatSound`, `playGameOverSound`, `startBackgroundMusic`, `Close`): calls into
  mp3 decoding and audio playback. Here they are the events `Ate` and `Crashed`.
- `main`: file reading, audio set-up, window set-up and fatal errors. Only the initial
  game value it builds is modelled, by the `Game` constructor.
- Particle positions, velocities, sizes and colours, and the alpha fade: these are
  floating-point values. Particles are modelled by their integer lifetimes only.
- SnakeGame.Game.CreateExplosion: does not model the random angles and speeds. It also
  does not model that the program runs it as a goroutine at the eat event, concurrently
  with later frames. `Update` returns the event and the caller decides when to append the
  burst. Lost appends from the unsynchronised access to the particle list are not modelled.
- Wall-clock time (`lastMove`, `moveSpeed`, `time.Now`, `time.Since`): replaced by the
  `moveDue` input. The 100 ms interval is not modelled.
- The random generator: replaced by the drawn `cell` input, which must lie in the range
  `rand.Intn` returns.
- The diagnostic print in `checkSelfCollison`.
- Integer width: the score is an unbounded integer, where the Go program uses `int`. This
  loses nothing. The invariant gives score = 10 x (length - 3), and the body holds distinct
  cells of the 33 x 25 board, so the score never exceeds 8220.
