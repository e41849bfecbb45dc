/** Concrete runs of the game on a 20 x 20 board. */
module SnakeScenarios {
  import opened SnakeLogic
  import SnakeGame

  function StateWith(snake: seq<Cell>, food: Cell, direction: Cell, score: int): GameState {
    GameState(snake, food, direction, score, false, false)
  }

  /** A plain move: the head advances and the single cell moves with it. */
  lemma PlainMove(draw: Cell)
    ensures Tick(Initial(), draw).snake == [Cell(6, 5)]
    ensures Tick(Initial(), draw).score == 0
  {
  }

  /** Eating food at (10, 5) from (9, 5): the snake grows, the score goes up
      and the food moves to the drawn cell. */
  lemma EatGrows(draw: Cell)
    ensures var r := Tick(StateWith([Cell(9, 5)], Cell(10, 5), Cell(1, 0), 0), draw);
      r.snake == [Cell(10, 5), Cell(9, 5)] && r.score == 1 && r.food == draw && !r.gameOver
  {
  }

  /** Moving right from column 19 leaves the board: the game ends and the
      snake stays where it was. */
  lemma WallEndsGame(draw: Cell)
    ensures var s := StateWith([Cell(19, 5)], Cell(10, 10), Cell(1, 0), 0);
      Tick(s, draw) == s.(gameOver := true)
  {
  }

  /** The head is about to enter the cell the tail occupies; the tail would
      move away on this very tick, yet the game ends. */
  lemma TailCellCollides(draw: Cell)
    ensures var s := StateWith([Cell(5, 5), Cell(6, 5), Cell(6, 6), Cell(5, 6)],
                               Cell(10, 10), Cell(0, 1), 3);
      Valid(s) && Tick(s, draw).gameOver
  {
  }

  /** Two key presses between ticks can reverse the heading: Up is accepted
      while moving right, then Left is accepted because the heading is no
      longer right, and a snake of two cells then runs into its own neck. */
  lemma TwoKeysReverse(draw: Cell)
    ensures var s := StateWith([Cell(6, 5), Cell(5, 5)], Cell(10, 10), Cell(1, 0), 1);
      var turned := KeyDirection(KeyDirection(s.direction, ARROW_UP), ARROW_LEFT);
      turned == Opposite(s.direction) && Tick(s.(direction := turned), draw).gameOver
  {
  }

  /** The same reversal, played on the component object. */
  method ReverseOnComponent()
  {
    var g := new SnakeGame.Game();
    g.Tick();
    assert g.snake == [Cell(6, 5)];
    g.KeyDown(ARROW_LEFT);
    assert g.direction == Cell(1, 0);
    g.KeyDown(ARROW_UP);
    g.KeyDown(ARROW_LEFT);
    assert g.direction == Cell(-1, 0);
  }

  /** A paused component ignores the timer until it is resumed. */
  method PauseOnComponent()
  {
    var g := new SnakeGame.Game();
    g.TogglePause();
    g.Tick();
    assert g.snake == [Cell(5, 5)] && g.paused;
    g.TogglePause();
    g.Tick();
    assert g.snake == [Cell(6, 5)] && !g.gameOver;
    g.Reset();
    assert g.State() == Initial();
  }
}
