/** The Snake game's state machine (src/components/Game.jsx), stated on values.
    Every event handler of the Game component is a function from the old state
    to the new one; the class in game.dfy is proved to follow these functions. */
module SnakeLogic {

  /** Side length of the square board, in cells (`tileCount`, fixed at 20). */
  const TILE_COUNT := 20

  /** A board cell; the same pair type also carries the heading `{x, y}`. */
  datatype Cell = Cell(x: int, y: int)

  /** Everything the component keeps in React state that a game event can change.
      `snake` is head-first: `snake[0]` is the head, the last cell is the tail. */
  datatype GameState = GameState(
    snake: seq<Cell>,
    food: Cell,
    direction: Cell,
    score: int,
    gameOver: bool,
    paused: bool)

  datatype Option<T> = None | Some(value: T)

  const ARROW_UP := "ArrowUp"
  const ARROW_DOWN := "ArrowDown"
  const ARROW_LEFT := "ArrowLeft"
  const ARROW_RIGHT := "ArrowRight"

  predicate InGrid(c: Cell) {
    0 <= c.x < TILE_COUNT && 0 <= c.y < TILE_COUNT
  }

  /** The four headings the game can have. */
  predicate IsUnit(d: Cell) {
    d == Cell(1, 0) || d == Cell(-1, 0) || d == Cell(0, 1) || d == Cell(0, -1)
  }

  function Opposite(d: Cell): Cell {
    Cell(-d.x, -d.y)
  }

  predicate AllInGrid(cells: seq<Cell>) {
    forall i :: 0 <= i < |cells| ==> InGrid(cells[i])
  }

  predicate Distinct(cells: seq<Cell>) {
    forall i, j :: 0 <= i < j < |cells| ==> cells[i] != cells[j]
  }

  /** The invariant of every state the game can reach: a non-empty snake of
      distinct cells on the board, food on the board, a unit heading, and one
      point of score for every cell the snake has grown by. */
  predicate Valid(s: GameState) {
    && s.snake != []
    && AllInGrid(s.snake)
    && Distinct(s.snake)
    && InGrid(s.food)
    && IsUnit(s.direction)
    && s.score == |s.snake| - 1
  }

  /** The state the component is mounted with, and the one `resetGame` restores. */
  function Initial(): (r: GameState)
    ensures Valid(r)
    ensures r.score == 0 && !r.gameOver && !r.paused
  {
    GameState([Cell(5, 5)], Cell(10, 10), Cell(1, 0), 0, false, false)
  }

  /** The cell the head moves to on the next tick. */
  function NextHead(s: GameState): Cell
    requires s.snake != []
  {
    Cell(s.snake[0].x + s.direction.x, s.snake[0].y + s.direction.y)
  }

  predicate Running(s: GameState) {
    !s.gameOver && !s.paused
  }

  /** The next head leaves the board or lands on a cell of the snake as it is
      before the move, the tail included. */
  predicate Collides(s: GameState)
    requires s.snake != []
  {
    !InGrid(NextHead(s)) || NextHead(s) in s.snake
  }

  predicate Eats(s: GameState)
    requires s.snake != []
  {
    NextHead(s) == s.food
  }

  /** One timer tick (`update`). `draw` is the cell `generateFood` returns if
      the snake eats on this tick. */
  function Tick(s: GameState, draw: Cell): (r: GameState)
    requires s.snake != []
    // a paused or finished game ignores the timer entirely
    ensures !Running(s) ==> r == s
    // a collision ends the game and changes nothing else
    ensures Running(s) && Collides(s) ==> r == s.(gameOver := true)
    // otherwise the snake moves one cell: new head in front, body behind it
    ensures Running(s) && !Collides(s) ==>
      && !r.gameOver && r.paused == s.paused && r.direction == s.direction
      && 1 <= |r.snake| <= |s.snake| + 1 && r.snake[0] == NextHead(s)
      && r.snake[1..] == s.snake[..|r.snake| - 1]
    // eating grows the snake and the score by exactly one and moves the food
    ensures Running(s) && !Collides(s) && Eats(s) ==>
      |r.snake| == |s.snake| + 1 && r.score == s.score + 1 && r.food == draw
    // any other move keeps length, score and food
    ensures Running(s) && !Collides(s) && !Eats(s) ==>
      |r.snake| == |s.snake| && r.score == s.score && r.food == s.food
    ensures |r.snake| >= |s.snake|
  {
    if !Running(s) then s
    else
      var head := NextHead(s);
      if !InGrid(head) || head in s.snake then s.(gameOver := true)
      else if head == s.food then
        s.(snake := [head] + s.snake, score := s.score + 1, food := draw)
      else
        s.(snake := ([head] + s.snake)[..|s.snake|])
  }

  /** The four keys the game listens to. */
  datatype Arrow = Up | Down | Left | Right

  /** Which arrow a `KeyboardEvent.key` value names, if any. */
  function ParseKey(key: string): (r: Option<Arrow>)
    ensures r == Some(Up) <==> key == ARROW_UP
    ensures r == Some(Down) <==> key == ARROW_DOWN
    ensures r == Some(Left) <==> key == ARROW_LEFT
    ensures r == Some(Right) <==> key == ARROW_RIGHT
  {
    if key == ARROW_UP then Some(Up)
    else if key == ARROW_DOWN then Some(Down)
    else if key == ARROW_LEFT then Some(Left)
    else if key == ARROW_RIGHT then Some(Right)
    else None
  }

  /** The heading an arrow asks for. */
  function ArrowVector(a: Arrow): Cell {
    match a
    case Up => Cell(0, -1)
    case Down => Cell(0, 1)
    case Left => Cell(-1, 0)
    case Right => Cell(1, 0)
  }

  /** The heading after a key press (`handleKeyDown`): an arrow key turns the
      snake unless it asks for the exact reverse of the current heading; any
      other key is ignored. */
  function KeyDirection(dir: Cell, key: string): (r: Cell)
    ensures ParseKey(key).None? ==> r == dir
    ensures r == dir || (ParseKey(key).Some? && r == ArrowVector(ParseKey(key).value))
    ensures IsUnit(dir) && ParseKey(key).Some? ==>
      var wanted := ArrowVector(ParseKey(key).value);
      if wanted == Opposite(dir) then r == dir else r == wanted
  {
    match ParseKey(key)
    case None => dir
    case Some(Up) => if dir.y == 1 then dir else Cell(0, -1)
    case Some(Down) => if dir.y == -1 then dir else Cell(0, 1)
    case Some(Left) => if dir.x == 1 then dir else Cell(-1, 0)
    case Some(Right) => if dir.x == -1 then dir else Cell(1, 0)
  }

  /** A key press keeps the heading one of the four unit vectors, and never
      turns it into its own reverse. */
  lemma KeyKeepsUnit(dir: Cell, key: string)
    requires IsUnit(dir)
    ensures IsUnit(KeyDirection(dir, key))
    ensures KeyDirection(dir, key) != Opposite(dir)
  {
    match ParseKey(key)
    case None =>
    case Some(a) =>
  }

  /** The Pause/Resume button: flips `paused` and nothing else, so pressing it
      twice gives back the state it started from. */
  function TogglePause(s: GameState): (r: GameState)
    ensures r.paused == !s.paused
    ensures r.(paused := s.paused) == s
  {
    s.(paused := !s.paused)
  }

  /** Any one thing that can happen to a mounted game. */
  datatype Event =
    | TickEvent(draw: Cell)
    | KeyEvent(key: string)
    | PauseClick
    | ResetClick

  function Apply(s: GameState, e: Event): (r: GameState)
    requires s.snake != []
    ensures r.snake != []
    ensures e.KeyEvent? ==> r.(direction := s.direction) == s
    ensures e.PauseClick? ==> r.(paused := s.paused) == s
  {
    match e
    case TickEvent(draw) => Tick(s, draw)
    case KeyEvent(key) => s.(direction := KeyDirection(s.direction, key))
    case PauseClick => TogglePause(s)
    case ResetClick => Initial()
  }

  /** The state after a sequence of events, applied one after another. */
  function Run(s: GameState, events: seq<Event>): (r: GameState)
    requires s.snake != []
    ensures r.snake != []
    decreases |events|
  {
    if events == [] then s else Run(Apply(s, events[0]), events[1..])
  }

  /** Every food cell that a run can draw is on the board. */
  predicate DrawsInGrid(events: seq<Event>) {
    forall i :: 0 <= i < |events| && events[i].TickEvent? ==> InGrid(events[i].draw)
  }

  lemma TickPreservesValid(s: GameState, draw: Cell)
    requires Valid(s) && InGrid(draw)
    ensures Valid(Tick(s, draw))
  {
  }

  lemma ApplyPreservesValid(s: GameState, e: Event)
    requires Valid(s)
    requires e.TickEvent? ==> InGrid(e.draw)
    ensures Valid(Apply(s, e))
  {
    if e.KeyEvent? {
      KeyKeepsUnit(s.direction, e.key);
    }
  }

  /** Pressing Pause twice gives back the state it started from. */
  lemma PauseTwiceRestores(s: GameState)
    ensures TogglePause(TogglePause(s)) == s
  {
  }

  /** A second Reset changes nothing. */
  lemma ResetIdempotent(s: GameState)
    requires s.snake != []
    ensures Run(s, [ResetClick, ResetClick]) == Run(s, [ResetClick])
    ensures Run(s, [ResetClick]) == Initial()
  {
  }

  /** Starting from a reachable state, no sequence of events leaves the
      invariant: the snake stays non-empty, on the board and free of
      repeated cells, and the score stays equal to its growth. */
  lemma {:induction false} RunPreservesValid(s: GameState, events: seq<Event>)
    requires Valid(s) && DrawsInGrid(events)
    ensures Valid(Run(s, events))
    decreases |events|
  {
    if events != [] {
      ApplyPreservesValid(s, events[0]);
      assert DrawsInGrid(events[1..]) by {
        forall i | 0 <= i < |events[1..]| && events[1..][i].TickEvent?
          ensures InGrid(events[1..][i].draw)
        {
          assert events[1..][i] == events[i + 1];
        }
      }
      RunPreservesValid(Apply(s, events[0]), events[1..]);
    }
  }

  predicate NoReset(events: seq<Event>) {
    forall i :: 0 <= i < |events| ==> !events[i].ResetClick?
  }

  predicate NoPauseOrReset(events: seq<Event>) {
    forall i :: 0 <= i < |events| ==> !events[i].ResetClick? && !events[i].PauseClick?
  }

  /** Game over is final until Reset: ticks, key presses and pause clicks leave
      the board, the food and the score as they were. */
  lemma {:induction false} OverIsAbsorbing(s: GameState, events: seq<Event>)
    requires s.snake != [] && s.gameOver && NoReset(events)
    ensures Run(s, events).gameOver
    ensures Run(s, events).snake == s.snake
    ensures Run(s, events).food == s.food
    ensures Run(s, events).score == s.score
    decreases |events|
  {
    if events != [] {
      assert !events[0].ResetClick?;
      assert NoReset(events[1..]) by {
        forall i | 0 <= i < |events[1..]| ensures !events[1..][i].ResetClick? {
          assert events[1..][i] == events[i + 1];
        }
      }
      OverIsAbsorbing(Apply(s, events[0]), events[1..]);
    }
  }

  /** While paused, ticks and key presses leave the board, the food, the score
      and the game-over flag as they were; only the heading can change. */
  lemma {:induction false} PauseFreezesBoard(s: GameState, events: seq<Event>)
    requires s.snake != [] && s.paused && NoPauseOrReset(events)
    ensures Run(s, events).paused
    ensures Run(s, events).snake == s.snake
    ensures Run(s, events).food == s.food
    ensures Run(s, events).score == s.score
    ensures Run(s, events).gameOver == s.gameOver
    decreases |events|
  {
    if events != [] {
      assert !events[0].ResetClick? && !events[0].PauseClick?;
      assert NoPauseOrReset(events[1..]) by {
        forall i | 0 <= i < |events[1..]|
          ensures !events[1..][i].ResetClick? && !events[1..][i].PauseClick?
        {
          assert events[1..][i] == events[i + 1];
        }
      }
      PauseFreezesBoard(Apply(s, events[0]), events[1..]);
    }
  }
}
