/**
 The game object: its logical fields and the methods that update them in place.
 Each method is proved to leave the fields as the function of SnakeRules that
 specifies it says; what those functions guarantee is proved in SnakeProperties.
 */
module SnakeGame {
  import opened SnakeRules
  import SnakeProperties

  class Game {
    var snakeBody: seq<Position>
    var direction: Direction
    var grow: bool
    var foodPos: Position
    var gameOver: bool
    var score: int
    /** The particles, by their remaining lifetimes. */
    var particles: seq<int>

    /** The fields as a value. */
    function State(): GameState
      reads this
    {
      GameState(snakeBody, direction, grow, foodPos, gameOver, score, particles)
    }

    ghost predicate Valid()
      reads this
    {
      Inv(State())
    }

    /** The game as the program sets it up before the first frame, food at the drawn cell. */
    constructor (c: Cell)
      requires ValidCell(c)
      ensures State() == InitialState(c)
      ensures Valid()
    {
      snakeBody := [Position(300, 240), Position(280, 240), Position(260, 240)];
      direction := Right;
      grow := false;
      score := 0;
      gameOver := false;
      particles := [];
      new;
      PlaceFood(c);
      SnakeProperties.InitialInv(c);
    }

    /** Moves the food to the drawn cell; cells under the snake are not avoided. */
    method PlaceFood(c: Cell)
      requires ValidCell(c)
      modifies this`foodPos
      ensures foodPos == CellPosition(c)
    {
      foodPos := Position(c.col * GRID_SIZE, c.row * GRID_SIZE);
    }

    /** Resets snake, heading, score, particles and the game-over flag, and places new food. */
    method Restart(c: Cell)
      requires ValidCell(c)
      modifies this
      ensures State() == SnakeRules.Restart(old(State()), c)
    {
      snakeBody := [
        Position(SCREEN_WIDTH / 2, SCREEN_HEIGHT / 2),
        Position(SCREEN_WIDTH / 2 - GRID_SIZE, SCREEN_HEIGHT / 2),
        Position(SCREEN_WIDTH / 2 - GRID_SIZE * 2, SCREEN_HEIGHT / 2)];
      particles := [];
      direction := Right;
      score := 0;
      gameOver := false;
      PlaceFood(c);
    }

    /** Whether `pos` is the position of any segment, the tail included. */
    method CheckSelfCollision(pos: Position) returns (hit: bool)
      ensures hit <==> pos in snakeBody
    {
      var i := 0;
      while i < |snakeBody|
        invariant 0 <= i <= |snakeBody|
        invariant pos !in snakeBody[..i]
      {
        if pos == snakeBody[i] {
          return true;
        }
        i := i + 1;
      }
      assert snakeBody[..i] == snakeBody;
      return false;
    }

    /** One frame of particle decay: keeps the live particles, each one frame older. */
    method AgeParticles()
      modifies this`particles
      ensures particles == Age(old(particles))
    {
      var active: seq<int> := [];
      var i := 0;
      while i < |particles|
        invariant 0 <= i <= |particles|
        invariant active == Age(particles[..i])
      {
        var life := particles[i];
        assert particles[..i + 1][..i] == particles[..i];
        if life > 0 {
          active := active + [life - 1];
        }
        i := i + 1;
      }
      assert particles[..i] == particles;
      particles := active;
    }

    /** Adds an explosion's NUM_PARTICLES particles, each with the full lifetime. */
    method CreateExplosion()
      modifies this`particles
      ensures particles == Burst(old(particles))
      ensures old(Valid()) ==> Valid()
    {
      var i := 0;
      while i < NUM_PARTICLES
        invariant 0 <= i <= NUM_PARTICLES
        invariant particles == old(particles) + seq(i, _ => PARTICLE_LIFE)
      {
        particles := particles + [PARTICLE_LIFE];
        i := i + 1;
      }
    }

    /**
     One frame: restart on Space while the game is over; otherwise steer, and when a
     move is due move the head, check for a crash, eat and grow; then age the particles.
     The event tells the caller which sound to play and whether to launch an explosion
     at the old food position.
     */
    method Update(keys: set<Key>, moveDue: bool, cell: Cell) returns (ev: Event)
      requires snakeBody != [] && ValidCell(cell)
      modifies this
      ensures State() == Tick(old(State()), Input(keys, moveDue, cell))
      ensures ev == TickEvent(old(State()), Input(keys, moveDue, cell))
      ensures old(Valid()) ==> Valid()
    {
      ghost var s := State();
      if gameOver {
        if KeySpace in keys {
          Restart(cell);
          ev := Restarted;
        } else {
          ev := Frozen;
        }
        return;
      }

      direction := Steer(direction, keys);

      if moveDue {
        var head := snakeBody[0];
        var newHead := Wrap(StepHead(head, direction));

        var hit := CheckSelfCollision(newHead);
        if hit {
          gameOver := true;
          ev := Crashed;
          return;
        }

        ev := Moved;
        if newHead == foodPos {
          grow := true;
          ev := Ate(foodPos);
          PlaceFood(cell);
          score := score + FOOD_SCORE;
        }

        if !grow {
          snakeBody := snakeBody[..|snakeBody| - 1];
        } else {
          grow := false;
        }
        snakeBody := [newHead] + snakeBody;
      } else {
        ev := Waited;
      }

      AgeParticles();
      if Inv(s) {
        SnakeProperties.TickPreservesInv(s, Input(keys, moveDue, cell));
      }
    }
  }
}
