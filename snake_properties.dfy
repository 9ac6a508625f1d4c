/**
 Properties of the snake game rules: the steering guard, the wrap-around boundary,
 food placement, particle decay, each kind of Update, and the invariant every reachable
 game keeps.
 */
module SnakeProperties {
  import opened SnakeRules

  // ---------------------------------------------------------------------------
  // Steering

  /** Holding only the key opposite to the current heading leaves the heading unchanged. */
  lemma ReverseKeyIgnored(current: Direction, keys: set<Key>)
    requires keys - {KeySpace} == {KeyOf(Opposite(current))}
    ensures Steer(current, keys) == current
  {
    forall d | d != Opposite(current)
      ensures KeyOf(d) !in keys
    {
      assert KeyOf(d) != KeyOf(Opposite(current)) && KeyOf(d) != KeySpace;
      assert KeyOf(d) !in keys - {KeySpace};
    }
  }

  /** Two held keys that are both permitted: the one earlier in Right, Left, Down, Up wins. */
  lemma FirstPermittedWins(current: Direction, keys: set<Key>, i: nat, j: nat)
    requires i < j < |PRIORITY|
    requires Permitted(PRIORITY[i], current, keys) && Permitted(PRIORITY[j], current, keys)
    ensures Steer(current, keys) != PRIORITY[j]
  {
  }

  // ---------------------------------------------------------------------------
  // Movement and wrap-around

  /** A step is undone by a step in the opposite direction. */
  lemma StepThenReverse(p: Position, d: Direction)
    ensures StepHead(StepHead(p, d), Opposite(d)) == p
  {
  }

  /** A head on the board stays on the board: grid-aligned within [0, 640] x [0, 480]. */
  lemma NextHeadOnBoard(p: Position, d: Direction)
    requires OnBoard(p)
    ensures OnBoard(NextHead(p, d))
  {
  }

  /**
   The column x = 640 lies beyond the last full cell. A head enters it only by moving
   right from x = 620 and stays in it only while moving vertically; moving left from
   x = 0 wraps to x = 620, never to 640.
   */
  lemma EdgeColumnEntry(p: Position, d: Direction)
    requires OnBoard(p)
    ensures NextHead(p, d).x == SCREEN_WIDTH <==>
              (d == Right && p.x == SCREEN_WIDTH - GRID_SIZE) ||
              ((d == Up || d == Down) && p.x == SCREEN_WIDTH)
  {
  }

  /** The same for the row y = 480. */
  lemma EdgeRowEntry(p: Position, d: Direction)
    requires OnBoard(p)
    ensures NextHead(p, d).y == SCREEN_HEIGHT <==>
              (d == Down && p.y == SCREEN_HEIGHT - GRID_SIZE) ||
              ((d == Left || d == Right) && p.y == SCREEN_HEIGHT)
  {
  }

  /**
   The wrap rules for any unwrapped head: a coordinate below zero becomes the last full
   cell (620 or 460), one beyond the far edge (640 or 480) becomes zero, and every
   coordinate in between, the far edge included, is kept.
   */
  lemma WrapRules(q: Position)
    ensures q.x < 0 ==> Wrap(q).x == SCREEN_WIDTH - GRID_SIZE
    ensures q.x > SCREEN_WIDTH ==> Wrap(q).x == 0
    ensures 0 <= q.x <= SCREEN_WIDTH ==> Wrap(q).x == q.x
    ensures q.y < 0 ==> Wrap(q).y == SCREEN_HEIGHT - GRID_SIZE
    ensures q.y > SCREEN_HEIGHT ==> Wrap(q).y == 0
    ensures 0 <= q.y <= SCREEN_HEIGHT ==> Wrap(q).y == q.y
  {
  }

  /**
   The wrap at each edge for every head on the board: moving right from x = 640 gives 0,
   moving left from x = 0 gives 620, and the same for rows with 480, 0 and 460; moving
   right from x = 620 or down from y = 460 reaches the far edge without wrapping.
   */
  lemma WrapAtEdges(p: Position)
    requires OnBoard(p)
    ensures p.x == SCREEN_WIDTH ==> NextHead(p, Right) == p.(x := 0)
    ensures p.x == 0 ==> NextHead(p, Left) == p.(x := SCREEN_WIDTH - GRID_SIZE)
    ensures p.x == SCREEN_WIDTH - GRID_SIZE ==> NextHead(p, Right) == p.(x := SCREEN_WIDTH)
    ensures p.y == SCREEN_HEIGHT ==> NextHead(p, Down) == p.(y := 0)
    ensures p.y == 0 ==> NextHead(p, Up) == p.(y := SCREEN_HEIGHT - GRID_SIZE)
    ensures p.y == SCREEN_HEIGHT - GRID_SIZE ==> NextHead(p, Down) == p.(y := SCREEN_HEIGHT)
  {
  }

  /** The wrap rules on a concrete row and column. */
  lemma WrapScenarios()
    ensures NextHead(Position(620, 240), Right) == Position(640, 240)
    ensures NextHead(Position(640, 240), Right) == Position(0, 240)
    ensures NextHead(Position(0, 240), Left) == Position(620, 240)
    ensures NextHead(Position(300, 460), Down) == Position(300, 480)
    ensures NextHead(Position(300, 480), Down) == Position(300, 0)
    ensures NextHead(Position(300, 0), Up) == Position(300, 460)
  {
  }

  // ---------------------------------------------------------------------------
  // Food placement

  /** The cells the random draw can yield are exactly the food grid, occupied or not. */
  lemma FoodCellsAreFoodGrid(p: Position)
    ensures OnFoodGrid(p) <==> exists c :: ValidCell(c) && CellPosition(c) == p
  {
    if OnFoodGrid(p) {
      var c := Cell(p.x / GRID_SIZE, p.y / GRID_SIZE);
      assert ValidCell(c) && CellPosition(c) == p;
    }
  }

  /** Placing food does not avoid the snake: a restart can put the food under the new head. */
  lemma FoodMayLandOnSnake(s: GameState)
    ensures Restart(s, Cell(16, 12)).food == Restart(s, Cell(16, 12)).body[0]
  {
  }

  // ---------------------------------------------------------------------------
  // Particles

  /** Decay distributes over concatenation, so it keeps the particles' relative order. */
  lemma {:induction false} AgeAppend(a: seq<int>, b: seq<int>)
    ensures Age(a + b) == Age(a) + Age(b)
    decreases |b|
  {
    if b == [] {
      assert a + b == a;
    } else {
      var b' := b[..|b| - 1];
      assert (a + b)[..|a + b| - 1] == a + b';
      AgeAppend(a, b');
    }
  }

  /**
   A live particle survives at the slot given by the number of survivors before it,
   with one frame less.
   */
  lemma AgeKeepsLive(ps: seq<int>, i: nat)
    requires i < |ps| && ps[i] > 0
    ensures |Age(ps[..i])| < |Age(ps)|
    ensures Age(ps)[|Age(ps[..i])|] == ps[i] - 1
  {
    assert ps == ps[..i] + [ps[i]] + ps[i + 1..];
    AgeAppend(ps[..i] + [ps[i]], ps[i + 1..]);
    AgeAppend(ps[..i], [ps[i]]);
    assert Age([ps[i]]) == [ps[i] - 1] by {
      assert [ps[i]][..0] == [];
    }
  }

  /** A particle whose life is not positive is dropped: it takes no slot. */
  lemma AgeDropsExpired(ps: seq<int>, i: nat)
    requires i < |ps| && ps[i] <= 0
    ensures Age(ps[..i + 1]) == Age(ps[..i])
  {
    assert ps[..i + 1][..i] == ps[..i];
  }

  /** Decay keeps the count exactly when every particle is alive. */
  lemma {:induction false} AgeKeepsAllIffLive(ps: seq<int>)
    ensures |Age(ps)| == |ps| <==> forall k | 0 <= k < |ps| :: ps[k] > 0
    decreases |ps|
  {
    if ps != [] {
      var init := ps[..|ps| - 1];
      AgeKeepsAllIffLive(init);
      assert forall k | 0 <= k < |init| :: init[k] == ps[k];
    }
  }

  /** Lifetimes bounded by `m` stay bounded by `m`, and stay non-negative. */
  lemma {:induction false} AgeBounded(ps: seq<int>, m: int)
    requires forall k | 0 <= k < |ps| :: ps[k] <= m
    ensures forall k | 0 <= k < |Age(ps)| :: 0 <= Age(ps)[k] < m
    decreases |ps|
  {
    if ps != [] {
      var init := ps[..|ps| - 1];
      AgeBounded(init, m);
    }
  }

  /** `n` frames of decay. */
  function AgeFrames(ps: seq<int>, n: nat): seq<int>
    decreases n
  {
    if n == 0 then ps else AgeFrames(Age(ps), n - 1)
  }

  /**
   A particle born with life `l` is present for the next `l` frames, counting down to
   zero, and is gone after the frame following the one in which it reaches zero.
   */
  lemma {:induction false} ParticleLifetime(l: nat, n: nat)
    ensures AgeFrames([l], n) == if n <= l then [l - n] else []
  {
    if n > 0 {
      assert [l][..0] == [];
      if l == 0 {
        assert Age([l]) == [];
        EmptyStaysEmpty(n - 1);
      } else {
        assert Age([l]) == [l - 1];
        ParticleLifetime(l - 1, n - 1);
      }
    }
  }

  /** Helper for ParticleLifetime: decay of an empty particle list stays empty. */
  lemma {:induction false} EmptyStaysEmpty(n: nat)
    ensures AgeFrames([], n) == []
  {
    if n > 0 {
      EmptyStaysEmpty(n - 1);
    }
  }

  /** An explosion adds NUM_PARTICLES particles, all with the full lifetime. */
  lemma BurstAddsFullLives(ps: seq<int>)
    ensures |Burst(ps)| == |ps| + NUM_PARTICLES
    ensures Burst(ps)[..|ps|] == ps
    ensures forall k | |ps| <= k < |Burst(ps)| :: Burst(ps)[k] == PARTICLE_LIFE
  {
  }

  // ---------------------------------------------------------------------------
  // One call of Update

  /**
   While the game is over nothing changes unless Space is held; with Space the game
   restarts: the three-segment body at (320, 240), heading Right, score 0, no particles,
   not over, food on the food grid.
   */
  lemma TickWhenOver(s: GameState, i: Input)
    requires s.body != [] && ValidInput(i) && s.gameOver
    ensures KeySpace !in i.keys ==> Tick(s, i) == s
    ensures KeySpace in i.keys ==>
              var t := Tick(s, i);
              && t.body == [Position(320, 240), Position(300, 240), Position(280, 240)]
              && t.direction == Right && t.score == 0 && t.particles == []
              && !t.gameOver && OnFoodGrid(t.food)
  {
  }

  /**
   When no move is due only the heading and the particles change: body, food, score,
   growth and the game-over flag are kept.
   */
  lemma TickWithoutMove(s: GameState, i: Input)
    requires s.body != [] && ValidInput(i) && !s.gameOver && !i.moveDue
    ensures var t := Tick(s, i);
            && t.body == s.body && t.food == s.food && t.score == s.score
            && t.grow == s.grow && !t.gameOver
            && t.direction == Steer(s.direction, i.keys)
            && t.particles == Age(s.particles)
  {
  }

  /**
   A move onto any segment, the tail included, ends the game and changes nothing else
   but the heading; the particles are not aged in that call.
   */
  lemma TickCrash(s: GameState, i: Input)
    requires s.body != [] && ValidInput(i) && !s.gameOver && i.moveDue
    requires NextHead(s.body[0], Steer(s.direction, i.keys)) in s.body
    ensures Tick(s, i) == s.(direction := Steer(s.direction, i.keys), gameOver := true)
  {
  }

  /**
   The tail counts as an obstacle although a plain move would drop it in the same call:
   a new head on the last segment ends the game.
   */
  lemma TickCrashIntoTail(s: GameState, i: Input)
    requires s.body != [] && ValidInput(i) && !s.gameOver && i.moveDue
    requires NextHead(s.body[0], Steer(s.direction, i.keys)) == s.body[|s.body| - 1]
    ensures Tick(s, i).gameOver
    ensures Tick(s, i).body == s.body
  {
  }

  /**
   A move onto the food: the score rises by exactly 10, the body is one segment longer
   in that same call, with the new head in front of the whole old body, no growth is
   left pending and the food moves to the drawn cell.
   */
  lemma TickEat(s: GameState, i: Input)
    requires s.body != [] && ValidInput(i) && !s.gameOver && i.moveDue
    requires var h := NextHead(s.body[0], Steer(s.direction, i.keys));
             h !in s.body && h == s.food
    ensures var t := Tick(s, i);
            && t.score == s.score + 10
            && |t.body| == |s.body| + 1
            && t.body[0] == s.food && t.body[1..] == s.body
            && !t.grow && !t.gameOver
            && t.food == CellPosition(i.cell)
  {
  }

  /**
   A plain move: the new head followed by the old body without its last segment, so the
   length is kept; food and score are kept.
   */
  lemma TickPlainMove(s: GameState, i: Input)
    requires s.body != [] && ValidInput(i) && !s.gameOver && i.moveDue && !s.grow
    requires var h := NextHead(s.body[0], Steer(s.direction, i.keys));
             h !in s.body && h != s.food
    ensures var t := Tick(s, i);
            && t.body == [NextHead(s.body[0], Steer(s.direction, i.keys))] + s.body[..|s.body| - 1]
            && |t.body| == |s.body|
            && t.food == s.food && t.score == s.score && !t.gameOver
  {
  }

  /**
   Whenever the snake moves, its new head is one cell from the old head in exactly one
   axis before wrapping, in the steered direction, which never reverses the old one.
   */
  lemma TickHeadMove(s: GameState, i: Input)
    requires s.body != [] && ValidInput(i) && !s.gameOver && i.moveDue
    requires !Tick(s, i).gameOver
    ensures var t := Tick(s, i);
            && t.direction != Opposite(s.direction)
            && t.body[0] == Wrap(StepHead(s.body[0], t.direction))
  {
  }

  /** The reported event matches the change of state. */
  lemma TickEventMatches(s: GameState, i: Input)
    requires s.body != [] && ValidInput(i)
    ensures var t := Tick(s, i);
            && (TickEvent(s, i) == Crashed <==> !s.gameOver && t.gameOver)
            && (TickEvent(s, i).Ate? <==> !s.gameOver && t.score == s.score + FOOD_SCORE)
            && (TickEvent(s, i) == Restarted <==> s.gameOver && !t.gameOver)
            && (TickEvent(s, i).Ate? ==> TickEvent(s, i).food == s.food)
  {
  }

  // ---------------------------------------------------------------------------
  // The invariant

  lemma InitialInv(c: Cell)
    requires ValidCell(c)
    ensures Inv(InitialState(c))
  {
  }

  /** The body a restart sets up differs from the one the program starts with. */
  lemma RestartBodyDiffersFromInitial()
    ensures RESTART_BODY[0] == Position(320, 240) && INITIAL_BODY[0] == Position(300, 240)
    ensures RESTART_BODY[1..] == INITIAL_BODY[..2]
  {
  }

  lemma MovedBodyInv(s: GameState, head: Position, ate: bool)
    requires Inv(s) && OnBoard(head) && head !in s.body
    ensures var b := MovedBody(s.body, head, ate);
            && |b| == (if ate then |s.body| + 1 else |s.body|)
            && (forall k | 0 <= k < |b| :: OnBoard(b[k]))
            && Distinct(b)
  {
  }

  /** Every call of Update keeps the invariant. */
  lemma TickPreservesInv(s: GameState, i: Input)
    requires Inv(s) && ValidInput(i)
    ensures Inv(Tick(s, i))
  {
    AgeBounded(s.particles, PARTICLE_LIFE);
    if !s.gameOver && i.moveDue {
      var d := Steer(s.direction, i.keys);
      var head := NextHead(s.body[0], d);
      NextHeadOnBoard(s.body[0], d);
      if head !in s.body {
        MovedBodyInv(s, head, head == s.food);
      }
    }
  }

  /** An explosion keeps the invariant. */
  lemma BurstPreservesInv(s: GameState)
    requires Inv(s)
    ensures Inv(s.(particles := Burst(s.particles)))
  {
  }

  /** Any number of calls of Update keeps the invariant. */
  lemma {:induction false} RunPreservesInv(s: GameState, inputs: seq<Input>)
    requires Inv(s)
    requires forall k | 0 <= k < |inputs| :: ValidInput(inputs[k])
    ensures Inv(Run(s, inputs))
    decreases |inputs|
  {
    if inputs != [] {
      TickPreservesInv(s, inputs[0]);
      RunPreservesInv(Tick(s, inputs[0]), inputs[1..]);
    }
  }

  /** A finished game stays exactly as it is through any calls without Space. */
  lemma {:induction false} RunFrozen(s: GameState, inputs: seq<Input>)
    requires s.body != [] && s.gameOver
    requires forall k | 0 <= k < |inputs| :: ValidInput(inputs[k]) && KeySpace !in inputs[k].keys
    ensures Run(s, inputs) == s
    decreases |inputs|
  {
    if inputs != [] {
      RunFrozen(Tick(s, inputs[0]), inputs[1..]);
    }
  }

  /**
   The first move of a new game with no key held: the head goes from (300, 240) to
   (320, 240) and the tail (260, 240) is dropped.
   */
  lemma FirstMoveScenario(c: Cell)
    requires ValidCell(c) && CellPosition(c) != Position(320, 240)
    ensures Tick(InitialState(c), Input({}, true, c)).body ==
              [Position(320, 240), Position(300, 240), Position(280, 240)]
  {
  }

  /**
   The reversal guard compares with the heading of the previous frame, not with the
   direction of the last move. Steering happens in every frame, also when no move is
   due, so two frames can turn the snake to the reverse of its last move: first to a
   perpendicular direction without moving, then to the reverse.
   */
  lemma TwoFrameReversal(s: GameState, p: Direction, c: Cell)
    requires s.body != [] && !s.gameOver && ValidCell(c)
    requires p != s.direction && p != Opposite(s.direction)
    ensures var mid := Tick(s, Input({KeyOf(p)}, false, c));
            && mid.body == s.body
            && Tick(mid, Input({KeyOf(Opposite(s.direction))}, true, c)).direction == Opposite(s.direction)
  {
  }

  /**
   From a new game heading Right: Up held in a frame without a move, then Left held in
   a frame with a move. The head turns back onto the second segment and the game ends.
   */
  lemma TwoFrameReversalCrash(c: Cell)
    requires ValidCell(c)
    ensures Run(InitialState(c), [Input({KeyUp}, false, c), Input({KeyLeft}, true, c)]).gameOver
  {
    var s := InitialState(c);
    var inputs := [Input({KeyUp}, false, c), Input({KeyLeft}, true, c)];
    var mid := Tick(s, inputs[0]);
    assert mid.direction == Up && mid.body == s.body;
    var last := Tick(mid, inputs[1]);
    assert NextHead(mid.body[0], Left) == mid.body[1];
    assert inputs[1..][0] == inputs[1] && inputs[1..][1..] == [];
    assert Run(s, inputs) == Run(mid, inputs[1..]) == Run(last, []) == last;
  }

  /**
   Across a wrap seam the two-frame turn-back does not hit the second segment: the step
   back from x = 620 after wrapping from x = 0 goes to x = 640, not to 0, so the snake
   reverses without a crash.
   */
  lemma SeamReversalNoCrash(c: Cell)
    requires ValidCell(c)
    ensures var s := GameState([Position(620, 240), Position(0, 240), Position(20, 240)],
                               Left, false, Position(100, 100), false, 0, []);
            var t := Run(s, [Input({KeyUp}, false, c), Input({KeyRight}, true, c)]);
            && Inv(s)
            && !t.gameOver
            && t.direction == Opposite(s.direction)
            && t.body == [Position(640, 240), Position(620, 240), Position(0, 240)]
  {
    var s := GameState([Position(620, 240), Position(0, 240), Position(20, 240)],
                       Left, false, Position(100, 100), false, 0, []);
    var inputs := [Input({KeyUp}, false, c), Input({KeyRight}, true, c)];
    var mid := Tick(s, inputs[0]);
    assert mid.direction == Up && mid.body == s.body;
    var last := Tick(mid, inputs[1]);
    assert NextHead(mid.body[0], Right) == Position(640, 240);
    assert Position(640, 240) !in mid.body;
    assert inputs[1..][0] == inputs[1] && inputs[1..][1..] == [];
    assert Run(s, inputs) == Run(mid, inputs[1..]) == Run(last, []) == last;
  }

  /**
   At the other side of the seam the turn-back still crashes. A snake that crossed from
   x = 640 to x = 0 in a straight line steps back Left from 0, which wraps to 620: its
   third segment. The crash check covers every segment, the tail included, so the game
   ends. The start state is reached from (620, 240), (600, 240), (580, 240) heading Right
   by two plain moves.
   */
  lemma SeamReversalCrash(c: Cell)
    requires ValidCell(c)
    ensures var s0 := GameState([Position(620, 240), Position(600, 240), Position(580, 240)],
                                Right, false, Position(100, 100), false, 0, []);
            var s := GameState([Position(0, 240), Position(640, 240), Position(620, 240)],
                               Right, false, Position(100, 100), false, 0, []);
            && Inv(s0)
            && Run(s0, [Input({}, true, c), Input({}, true, c)]) == s
            && Inv(s)
            && Run(s, [Input({KeyUp}, false, c), Input({KeyLeft}, true, c)]).gameOver
  {
    var s0 := GameState([Position(620, 240), Position(600, 240), Position(580, 240)],
                        Right, false, Position(100, 100), false, 0, []);
    var s := GameState([Position(0, 240), Position(640, 240), Position(620, 240)],
                       Right, false, Position(100, 100), false, 0, []);
    var moves := [Input({}, true, c), Input({}, true, c)];
    var s1 := Tick(s0, moves[0]);
    assert NextHead(s0.body[0], Right) == Position(640, 240);
    assert s1.body == [Position(640, 240), Position(620, 240), Position(600, 240)];
    var s2 := Tick(s1, moves[1]);
    assert NextHead(s1.body[0], Right) == Position(0, 240);
    assert s2 == s;
    assert moves[1..][0] == moves[1] && moves[1..][1..] == [];
    assert Run(s0, moves) == Run(s1, moves[1..]) == Run(s2, []) == s;

    var inputs := [Input({KeyUp}, false, c), Input({KeyLeft}, true, c)];
    var mid := Tick(s, inputs[0]);
    assert mid.direction == Up && mid.body == s.body;
    var last := Tick(mid, inputs[1]);
    assert NextHead(mid.body[0], Left) == mid.body[2];
    assert inputs[1..][0] == inputs[1] && inputs[1..][1..] == [];
    assert Run(s, inputs) == Run(mid, inputs[1..]) == Run(last, []) == last;
  }
}
