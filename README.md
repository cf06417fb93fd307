# Snake game model

A Dafny model of the snake game that the lead-scraper web page shows while
it waits for results (`app/components/SnakeGame.tsx`). The board is a
20 x 20 grid. A snake, stored head first as a sequence of cells, moves one
cell per timer tick in the current direction. It dies when it hits a wall or
itself. Eating the food makes it grow by one cell and scores 10.
Arrow keys and touch swipes turn it. A reset restores the initial state.

Everything is in `snake.dfy`, module `Snake`:

- `Pos` is the source's `Position`. It is used for cells, direction vectors
  and touch points.
- `CheckCollision` is the source's collision loop, proved equal to the
  reference predicate `Collides`.
- `KeyTurn` and `SwipeTurn` are the two `setDirection` updaters. Both are
  proved equal to one reference rule, `TurnTo`, applied to the heading the
  input asks for (`KeyHeading`, `SwipeHeading`).
- Class `SnakeGame` holds the component's six state fields: `snake`, `food`,
  `direction`, `gameOver`, `score` and `touchStart`. Its methods `Tick`,
  `KeyDown`, `TouchStart`, `TouchEnd` and `Reset` update them in place.
  `Valid()` is the state invariant they all keep:
  - the snake is non-empty, in the grid, free of duplicates and connected by
    unit steps;
  - the food is in the grid;
  - the direction is a cardinal unit vector;
  - `score == 10 * (|snake| - 1)`.

The last invariant is stronger than "the score is a non-negative multiple of
10". It holds because the score and the length change only together, on an
eating move.

Acceptance of a turn is judged against the latest accepted direction, not
against the direction the last tick moved in. So two inputs between ticks
can reverse the snake: `TwoKeysCanReverse` and `ReverseBeforeFirstTick` show
this. A general description of the game says reversal within a tick is
impossible. The model follows the code instead. `TurnNeverReverses` proves
only the one-input form of that claim.

## Model

| member | source | states |
|---|---|---|
| Snake.CheckCollision | app/components/SnakeGame.tsx:37-47 | the check reports a hit exactly when the head is outside 0..19 on either axis or equals some cell of the body it is given |
| Snake.WallCollides | app/components/SnakeGame.tsx:38-40 | a head outside the grid is a collision whatever the body |
| Snake.TailCellCollides | app/components/SnakeGame.tsx:59-62 | the check uses the pre-move body, so moving into the cell the tail is about to leave is a collision (a concrete valid four-cell snake) |
| Snake.GrowKeepsValid | app/components/SnakeGame.tsx:64-68 | prepending a non-colliding head one unit step from the old head keeps the snake non-empty, in the grid, duplicate-free and connected |
| Snake.DropTailKeepsValid | app/components/SnakeGame.tsx:69-71 | popping the last cell of a valid snake of length two or more leaves a valid snake |
| Snake.StepKeepsValid | app/components/SnakeGame.tsx:64-73 | a non-eating move (new head in, tail out) keeps the length and the snake invariants |
| Snake.Vector | app/components/SnakeGame.tsx:85-88 | each of the four headings is a cardinal unit vector, with Up as (0,-1) in screen coordinates |
| Snake.KeyTurn | app/components/SnakeGame.tsx:84-90 | the key updater takes an arrow's heading only when the key is an arrow and the previous direction has no component on that arrow's axis, and otherwise keeps the previous direction; it keeps a cardinal direction cardinal |
| Snake.SwipeHeading | app/components/SnakeGame.tsx:110-124 | a swipe asks for a horizontal heading exactly when the horizontal movement is strictly larger, for a heading whose sign agrees with the movement, and for nothing exactly when both deltas are zero |
| Snake.SwipeTurn | app/components/SnakeGame.tsx:110-124 | the swipe updater applies the same acceptance rule as the key updater to the heading the swipe asks for, and keeps a cardinal direction cardinal |
| Snake.TurnChangesIffPerpendicular | app/components/SnakeGame.tsx:84-90 | from a cardinal direction, an update changes the direction if and only if a heading is requested that is perpendicular to it |
| Snake.TurnNeverReverses | app/components/SnakeGame.tsx:84-90 | one update never yields the reverse of a cardinal previous direction |
| Snake.TwoKeysCanReverse | app/components/SnakeGame.tsx:84-90 | Down then Left, both judged against the latest accepted direction, turn (1,0) into (-1,0) |
| Snake.SnakeGame.constructor | app/components/SnakeGame.tsx:17-23 | the initial state is snake [(10,10)], food (15,15), direction (1,0), not over, score 0, no touch start, and it satisfies the invariant |
| Snake.SnakeGame.Tick | app/components/SnakeGame.tsx:49-75 | when over, nothing changes. On a collision the game ends and snake, food and score stay. On food the snake grows by the new head, the score rises by 10 and the food becomes the supplied cell. Otherwise the head goes in, the tail comes out, and length, score and food stay. The invariant is kept and direction and touch start are untouched |
| Snake.SnakeGame.KeyDown | app/components/SnakeGame.tsx:82-91 | the direction becomes the key updater applied to the current direction; the invariant is kept |
| Snake.SnakeGame.TouchStart | app/components/SnakeGame.tsx:98-101 | the touch point is recorded as the swipe start |
| Snake.SnakeGame.TouchEnd | app/components/SnakeGame.tsx:103-127 | without a start nothing changes; otherwise the direction becomes the swipe updater applied to the movement since the start, and the start is cleared |
| Snake.SnakeGame.Reset | app/components/SnakeGame.tsx:129-135 | whatever the prior state: snake [(10,10)], direction (1,0), not over, score 0, food the supplied in-grid cell; the touch start is left as it was |
| Snake.ScoreIsMultipleOfReward | app/components/SnakeGame.tsx:64-68 | in every valid state the score is a non-negative multiple of 10 |

## Left out

- Food placement uses `Math.random`. The model replaces it with an in-grid
  cell that `Tick` and `Reset` receive as a parameter. As in the code, that
  cell is not checked against the snake, so food may land on the body.
- The 150 ms timer (`setInterval`/`clearInterval`) and the registration of
  the keydown listener are not modelled. Ticks and input events are method
  calls made by the host.
- `directionRef` and its `useEffect` synchronisation are not modelled. `Tick`
  reads the `direction` field directly. So is React's batching of state
  updates: each method's updates take effect at once, in source order.
- Touch coordinates are integers rather than the browser's floating-point
  pixel coordinates. Only the signs of the deltas and the comparison of their
  magnitudes matter.
- Rendering, `CELL_SIZE` and the game-over overlay are presentation only.
- JavaScript numbers are not limited to integers. All coordinates here stay
  small integers, so they are modelled as `int`.
- `app/page.tsx` (form state, the `number > 100` check, the webhook `fetch`,
  the results table) is not part of this model. It has no game logic.
