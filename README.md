# Snake game state machine in Dafny

This project models the game logic of the browser Snake game's `Game` component
(`src/components/Game.jsx`). The board has 20 × 20 cells. The snake is a head-first list
of cells. There is one food cell, a unit heading, a score, and the two flags
`gameOver` and `paused`. The component changes this state through four handlers:

- the timer tick `update`;
- the arrow-key handler `handleKeyDown`;
- `resetGame`;
- the Pause/Resume button.

`generateFood` is a helper expression that changes no state. `update` calls it on an
eating tick to place the new food.

The model has three modules:

- `SnakeLogic` (`snake_logic.dfy`) states the game as a state machine on values. Each
  handler is a function from the old `GameState` to the new one. `Valid` is the
  invariant of every reachable state. `Run` applies a sequence of events, and lemmas
  about it show what holds across many events.
- `SnakeGame` (`game.dfy`) holds the component
  as a class `Game`. Its fields are the React state variables. Each handler is a method
  that updates those fields in place, with the same branches, early returns and `for`
  loop as the source. Each method's `ensures` ties its new state to the matching
  `SnakeLogic` function. Each method also keeps `Valid`.
- `SnakeScenarios` (`scenarios.dfy`) holds concrete runs: a plain move, eating, hitting
  the wall, hitting the tail cell, and reversing the heading with two key presses
  between ticks. Two client methods, `ReverseOnComponent` and `PauseOnComponent`,
  play such runs on the `Game` class itself.

One invariant goes beyond what the source states. In every reachable state the score
equals the snake's length minus one: the score and the length minus one both start
at 0, and both grow by one exactly when the snake eats.

Three behaviours of the code that are easy to misread:

- The reversal guard in `handleKeyDown` compares the same axis as the key. For example,
  Up is ignored exactly when `direction.y == 1`. For a unit heading, this rejects
  exactly the reverse of the current heading, and `KeyDirection` proves it.
- The guard compares against the current heading, not the heading of the last move.
  So two key presses between ticks can reverse the snake (`TwoKeysReverse`). A heading
  that is never the reverse of the previous move is therefore not an invariant of
  the code.
- New food may land on the snake. `Valid` requires only that the food is on the board.

## Model

| member | source | states |
|---|---|---|
| `SnakeLogic.Initial` | src/components/Game.jsx:6-11 | the initial state (snake [(5,5)], food (10,10), heading (1,0), score 0, both flags off) satisfies the invariant `Valid` |
| `SnakeLogic.Tick` | src/components/Game.jsx:33-65 | a paused or finished game is unchanged; a wall or self collision (tail cell included) sets only `gameOver`; otherwise the new head is old head + heading in front of the old body; eating adds exactly one cell and one point and moves the food to the draw; any other move keeps length, score and food |
| `SnakeLogic.ParseKey` | src/components/Game.jsx:69-87 | each of the four arrow names, and only that name, selects its arrow |
| `SnakeLogic.KeyDirection` | src/components/Game.jsx:68-89 | a non-arrow key keeps the heading; from a unit heading, an arrow sets its own vector unless that vector is the reverse, which is ignored; a unit heading stays a unit heading and never becomes its reverse |
| `SnakeLogic.TogglePause` | src/components/Game.jsx:181 | `paused` flips and every other field stays as it was, so two toggles give back the original state |
| `SnakeLogic.KeyKeepsUnit` | src/components/Game.jsx:68-89 | from any of the four unit headings, a key press leaves one of the four unit headings and never the reverse of the current one |
| `SnakeLogic.Apply` | src/components/Game.jsx:93-187 | one event as the component dispatches it: the timer runs `update` (line 93), the key listener `handleKeyDown` (line 100), the buttons the pause toggle (line 181) and `resetGame` (line 187); a key press changes only the heading, and a pause click only `paused`; the snake stays non-empty, and `Valid` is kept (`ApplyPreservesValid`) |
| `SnakeLogic.Run` | src/components/Game.jsx:92-102 | the events applied one after another, in the order they arrive; the snake stays non-empty, and `Valid` is kept (`RunPreservesValid`) |
| `SnakeLogic.PauseTwiceRestores` | src/components/Game.jsx:181 | two clicks on Pause/Resume give back exactly the state before them |
| `SnakeLogic.ResetIdempotent` | src/components/Game.jsx:24-31 | a reset gives `Initial()` whatever the prior state, and a second reset changes nothing |
| `SnakeLogic.TickPreservesValid` | src/components/Game.jsx:33-65 | from a valid state and an on-board draw, a tick leaves the snake non-empty, on the board and free of repeated cells, the food on the board, and score = length − 1 |
| `SnakeLogic.ApplyPreservesValid` | src/components/Game.jsx:24-89 | each single event (tick, key press, pause click, reset) keeps `Valid` |
| `SnakeLogic.RunPreservesValid` | src/components/Game.jsx:24-89 | any sequence of events from a valid state, with food always drawn on the board, ends in a valid state |
| `SnakeLogic.OverIsAbsorbing` | src/components/Game.jsx:35 | once `gameOver` is set, no sequence of ticks, key presses and pause clicks changes snake, food or score, and the game stays over until a reset |
| `SnakeLogic.PauseFreezesBoard` | src/components/Game.jsx:35 | while paused and with no pause click or reset, snake, food, score and `gameOver` stay as they were |
| `SnakeGame.GenerateFood` | src/components/Game.jsx:18-21 | the generated food cell lies inside the 20 × 20 board |
| `SnakeGame.SelfCollision` | src/components/Game.jsx:48-53 | the scan reports a hit exactly when the new head equals some cell of the pre-move snake |
| `SnakeGame.Game.constructor` | src/components/Game.jsx:6-11 | the fields start as `Initial()` and satisfy `Valid` |
| `SnakeGame.Game.Reset` | src/components/Game.jsx:24-31 | whatever the prior state, the fields become `Initial()`; so a second reset changes nothing |
| `SnakeGame.Game.TogglePause` | src/components/Game.jsx:181 | the fields become `SnakeLogic.TogglePause` of the old fields, and `Valid` is kept |
| `SnakeGame.Game.KeyDown` | src/components/Game.jsx:68-89 | only `direction` changes, to `KeyDirection` of the old heading and the key; `Valid` is kept |
| `SnakeGame.Game.Tick` | src/components/Game.jsx:33-65 | the fields become `SnakeLogic.Tick` of the old fields, with the generated food as the draw; on an eating tick the new food is on the board; `Valid` is kept |
| `SnakeScenarios.PlainMove` | src/components/Game.jsx:55-64 | from the initial state one tick moves the snake to [(6,5)] with score 0 |
| `SnakeScenarios.EatGrows` | src/components/Game.jsx:55-61 | snake [(9,5)] heading right with food at (10,5) becomes [(10,5),(9,5)], score 1, food at the draw |
| `SnakeScenarios.WallEndsGame` | src/components/Game.jsx:42-45 | moving right from (19,5) sets `gameOver` and changes nothing else |
| `SnakeScenarios.TailCellCollides` | src/components/Game.jsx:48-53 | a valid four-cell snake whose next head is its tail cell ends the game |
| `SnakeScenarios.TwoKeysReverse` | src/components/Game.jsx:68-89 | Up then Left while moving right turns the heading to its reverse, and a two-cell snake then ends the game on the next tick |

## Left out

- Canvas drawing (`src/components/Game.jsx:105-122`) only paints the state through the browser's 2D context. It never changes game state.
- Score submission and the leaderboard fetch (`src/components/Game.jsx:125-150`) are HTTP calls to a backend that is not part of this model. Their failures are only logged. `topScores` is not modelled.
- The `setInterval` timer and the keydown listener (`src/components/Game.jsx:92-102`) are scheduling. Each tick, key press and click is a separate sequential call, or an `Event` in `SnakeLogic.Run`. The interval's dependency list leaves out `food`. This does not matter. Food changes only on an eating tick (`src/components/Game.jsx:60`) or a reset (`src/components/Game.jsx:30`). Each of these also sets `snake` to a new array (`src/components/Game.jsx:64`, `src/components/Game.jsx:29`), which restarts the interval.
- SnakeGame.GenerateFood: `Math.random`/`Math.floor` are floating-point randomness. The model returns an arbitrary on-board cell and says nothing about its distribution.
- SnakeGame.Game.Tick: requires a non-empty snake. The source reads `snake[0]`, which is undefined for an empty snake. No reachable state has an empty snake (`Valid`).
- JavaScript numbers are doubles. Coordinates and the score stay small integers here, so they are modelled as unbounded `int`.
- `gridSize` and `speed` only set drawing size and tick interval. They are not modelled.
- JSX markup and styling (`src/components/Game.jsx:152-200`), `src/components/Login.jsx` (a form and one HTTP POST) and `src/App.jsx` (one conditional render) have no game logic.
