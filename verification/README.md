# Snake game engine

A model of the game-state engine of a browser snake game. The snake is a
head-first list of cells on a 20 x 20 grid whose edges wrap around. On every
timer tick the head advances one cell in the current direction. If the new
cell is occupied by any segment of the snake (the tail included) the game is
over and nothing else changes. Otherwise the head is prepended, and the tail
is dropped unless the head landed on the food, in which case the snake grows
and new food is drawn. The player may change direction to anything but the
exact reverse; a restart puts a one-segment snake back in the middle.

The model is in three modules:

- `Grid` (grid.dfy): coordinates, directions, JavaScript's truncating `%`
  and the wrapping one-cell `Step`.
- `Game` (game.dfy): the `State` value, the `Valid` invariant (non-empty,
  on-grid, duplicate-free snake; food on the grid), and the pure transitions
  `Init`, `Restart`, `ChangeDir` and `Tick`.
- `Session` (session.dfy): a game as a sequence of host events (timer tick,
  direction button, restart button) folded over the transitions, with
  properties of whole runs.

The random food source is a parameter: every transition that needs a new
food cell takes an arbitrary on-grid `Cell` from its caller. Nothing is
promised about where it lands; in particular it may land on the snake.

The model follows the code in three places where a reader might expect
otherwise:

- A direction request is honoured even after the game is over; the
  handler never looks at the game-over flag.
- Food is not kept off the snake.
- The restart handler itself does not check the game-over flag (the button
  that triggers it is only shown when the game is over, a rendering matter).

`Session.TwoPressesReverse` records a consequence of the direction rule:
the rule compares a request with the current direction, not the direction of
the last move. So two presses between ticks can still send the snake back
onto its own neck.

## Model

| member | source | states |
|---|---|---|
| Grid.JsRem | src/app/page.tsx:32-41 | JavaScript's `%` by the grid size: the remainder lies strictly between minus and plus the grid size, differs from the dividend by a multiple of it, and equals Dafny's `%` on a non-negative dividend |
| Grid.Opposite | src/app/page.tsx:72-76 | each direction's reverse is a different direction, pairing up with down and left with right |
| Grid.Step | src/app/page.tsx:29-45 | the next head cell: up and down keep x, left and right keep y; from an on-grid cell the result is on the grid and the moving coordinate changes by exactly one, modulo the grid size, in the direction's sense |
| Grid.StepWrapsAtEdges | src/app/page.tsx:30-42 | right from x = 19 gives x = 0, left from x = 0 gives x = 19, up from y = 0 gives y = 19, down from y = 19 gives y = 0 |
| Grid.StepInterior | src/app/page.tsx:31-41 | away from the edges a step is the plain unit move (up decrements y, down increments y, left decrements x, right increments x) |
| Grid.StepInverse | src/app/page.tsx:30-42 | on the grid, a step followed by a step in the opposite direction returns to the starting cell |
| Grid.StepLeaves | src/app/page.tsx:30-42 | on the grid, a step never stays on the same cell |
| Game.Init | src/app/page.tsx:14-17 | the initial state is the single segment (10, 10), food at (5, 5), moving right, running, and satisfies the validity invariant |
| Game.Restart | src/app/page.tsx:117-122 | restart yields snake (10, 10), direction right, the game running and the supplied food, whatever the prior state: the initial state with new food, which satisfies the validity invariant |
| Game.ChangeDir | src/app/page.tsx:71-80 | a request that is not the reverse of the current direction becomes the direction; the reverse request leaves the state unchanged; snake, food and game-over flag never change, also when the game is over |
| Game.Tick | src/app/page.tsx:25-61 | a tick keeps the direction, is the identity on a finished game, ends the game only with snake and food untouched, otherwise keeps the length or grows it by one, and preserves the validity invariant |
| Game.TickEndsIffCollision | src/app/page.tsx:47-50 | on a running game the tick ends the game exactly when the next head cell is a current segment, tail included, and then only the game-over flag changes |
| Game.TickEats | src/app/page.tsx:52-55 | no collision and head on the food: the snake is the new head followed by the whole old snake, one longer, and the food is the supplied new cell |
| Game.TickMoves | src/app/page.tsx:52-58 | no collision and no food: same length, new head in front, every old segment but the tail shifted back one place, food unchanged |
| Game.TickGrowsIffFood | src/app/page.tsx:54-58 | on a surviving tick the snake grows by one exactly when the head reaches the food, and otherwise keeps its length |
| Game.TickMoveCells | src/app/page.tsx:52-58 | on a plain move of a valid snake the occupied cells are the old ones minus the tail cell plus the new head cell |
| Game.SingleSegmentSurvives | src/app/page.tsx:29-50 | a valid one-segment snake never collides with itself |
| Session.Apply | src/app/page.tsx:63-80 | every host event (tick, direction press, restart) maps a valid state to a valid state |
| Session.Run | src/app/page.tsx:63-69 | any sequence of host events applied in order keeps the state valid |
| Session.ReachableValid | src/app/page.tsx:14-61 | every state reachable from the initial state has a non-empty, on-grid snake with no repeated cell |
| Session.OverUntilRestart | src/app/page.tsx:63-69 | once the game is over, any events without a restart leave it over with the snake and food unchanged |
| Session.LengthBounds | src/app/page.tsx:52-58 | without a restart the final snake is no shorter than the initial one and at most one segment longer per tick among the events |
| Session.RunConcat | src/app/page.tsx:63-80 | running two event sequences one after the other gives the same state as running their concatenation |
| Session.NeverShrinks | src/app/page.tsx:52-58 | without a restart every later state of a run has a snake at least as long as every earlier state |
| Session.FirstTickEats | src/app/page.tsx:52-55 | from the initial snake moving right with food at (11, 10), one tick gives the snake (11, 10), (10, 10), the new food, and a running game |
| Session.TwoPressesReverse | src/app/page.tsx:71-80 | a two-segment snake moving right that receives up then left before the next tick runs onto its neck and the game ends |

## Left out

- Rendering: the grid projection, cell colours and buttons are presentation only.
- Timer scheduling: the interval, its cancellation and the tick period are the host's concern. Ticks are sequential calls, and the host's guard against ticking a finished game is modelled as the tick being the identity on a finished game.
- Random food: the uniform random draw is replaced by an arbitrary on-grid cell supplied by the caller. There is no occupancy avoidance and no full-grid condition, because the code has neither.
- Cell size in pixels and React state-setter and closure semantics are not modelled.
- The `default` branch of the direction switch cannot be reached with four directions and has no counterpart in the model.
- Coordinates are JavaScript numbers in the code; the model uses mathematical integers, which is exact for the on-grid integer cells the game produces.
- Session.Apply: a restart is accepted in every state; the program shows the restart button only after game over, so runs here include event orders the program cannot produce.
- Game.Tick: requires a non-empty snake; the code reads the first segment unconditionally and would fail on an empty list, which no reachable state has.
