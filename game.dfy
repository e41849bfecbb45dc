/** The Game component (src/components/Game.jsx) as an object: its React state
    variables are the fields, and each event handler is a method that updates
    them in place, proved to agree with the state machine in SnakeLogic. */
module SnakeGame {
  import opened SnakeLogic

  /** `generateFood`: some cell of the board. Which one is left open; the
      component draws it from `Math.random`. */
  method GenerateFood() returns (c: Cell)
    ensures InGrid(c)
  {
    var x :| 0 <= x < TILE_COUNT;
    var y :| 0 <= y < TILE_COUNT;
    c := Cell(x, y);
  }

  /** The self-collision scan of `update`: walks the body until a segment
      equals the new head. */
  method SelfCollision(body: seq<Cell>, head: Cell) returns (hit: bool)
    ensures hit <==> head in body
  {
    for i := 0 to |body|
      invariant forall j :: 0 <= j < i ==> body[j] != head
    {
      if head == body[i] {
        return true;
      }
    }
    return false;
  }

  class Game {
    var snake: seq<Cell>
    var food: Cell
    var direction: Cell
    var score: int
    var gameOver: bool
    var paused: bool

    /** The fields as one value of the state machine. */
    function State(): GameState
      reads this
    {
      GameState(snake, food, direction, score, gameOver, paused)
    }

    ghost predicate Valid()
      reads this
    {
      SnakeLogic.Valid(State())
    }

    /** The initial values of the `useState` hooks. */
    constructor ()
      ensures State() == Initial() && Valid()
    {
      score := 0;
      gameOver := false;
      paused := false;
      direction := Cell(1, 0);
      snake := [Cell(5, 5)];
      food := Cell(10, 10);
    }

    /** `resetGame`: back to the initial state, whatever came before. */
    method Reset()
      modifies this
      ensures State() == Initial() && Valid()
    {
      score := 0;
      gameOver := false;
      paused := false;
      direction := Cell(1, 0);
      snake := [Cell(5, 5)];
      food := Cell(10, 10);
    }

    /** The Pause/Resume button. */
    method TogglePause()
      modifies this
      ensures State() == SnakeLogic.TogglePause(old(State()))
      ensures old(Valid()) ==> Valid()
    {
      paused := !paused;
    }

    /** `handleKeyDown`: only the heading can change. */
    method KeyDown(key: string)
      modifies this
      ensures State() == old(State()).(direction := KeyDirection(old(direction), key))
      ensures old(Valid()) ==> Valid()
    {
      if Valid() {
        KeyKeepsUnit(direction, key);
      }
      if key == ARROW_UP {
        if direction.y == 1 { return; }
        direction := Cell(0, -1);
      } else if key == ARROW_DOWN {
        if direction.y == -1 { return; }
        direction := Cell(0, 1);
      } else if key == ARROW_LEFT {
        if direction.x == 1 { return; }
        direction := Cell(-1, 0);
      } else if key == ARROW_RIGHT {
        if direction.x == -1 { return; }
        direction := Cell(1, 0);
      }
    }

    /** `update`, run once per timer tick. If the snake eats, `food` afterwards
        is the freshly generated cell, which is why it is the draw passed to
        the specification. */
    method Tick()
      requires snake != []
      modifies this
      ensures State() == SnakeLogic.Tick(old(State()), food)
      ensures old(Running(State()) && !Collides(State()) && Eats(State())) ==> InGrid(food)
      ensures old(Valid()) ==> Valid()
    {
      if gameOver || paused {
        return;
      }

      var head := Cell(snake[0].x + direction.x, snake[0].y + direction.y);

      if head.x < 0 || head.y < 0 || head.x >= TILE_COUNT || head.y >= TILE_COUNT {
        gameOver := true;
        return;
      }

      var hit := SelfCollision(snake, head);
      if hit {
        gameOver := true;
        return;
      }

      var newSnake := [head] + snake;
      if head == food {
        score := score + 1;
        food := GenerateFood();
      } else {
        newSnake := newSnake[..|newSnake| - 1];
      }
      snake := newSnake;

      if old(Valid()) {
        TickPreservesValid(old(State()), food);
      }
    }
  }
}
