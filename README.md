# Snake game model in Dafny

This project models the game logic of a browser snake game with an autopilot
(`src/components/SnakeGame.jsx`). The game is played on a 20 × 20 board.

- **Snake.** The snake is a list of cells, head first. It moves one cell per
  tick in its current direction.
- **Collisions.** Leaving the board ends the game. So does moving onto a cell
  of the snake, counting the tail cell that is about to move away.
- **Food.** Eating the food grows the snake by one segment and scores 10
  points. New food is then placed on a random free cell.
- **Autopilot.** When it is on, it runs a breadth-first search from the head
  to the food, treating the whole body as obstacles. It steers onto the first
  cell of the path it finds. With no path, it takes the first of UP, DOWN,
  LEFT, RIGHT that leads to a free cell, and when none does, it keeps the
  current direction.
- **Manual control.** The arrow keys and the on-screen buttons request a
  direction. A request along the axis the snake already moves on is dropped,
  so a single key press cannot turn the snake around.

The modules follow the program's structure. Dependencies run top to bottom.

- `optional.dfy` (`Optional`): the `Option` type the game expresses with
  `null`.
- `grid.dfy` (`Grid`): cells, direction vectors, the board, the neighbour
  order of the search, and counting lemmas about board cells.
- `pathfinder.dfy` (`Pathfinder`): `getShortestPath`. `ShortestPath` is a
  `while` loop over a queue and a visited set. `ExpandNeighbours` is its inner
  `for` loop. Both are proved against walks on the board: the result is a
  shortest walk to the target, and None means there is no walk at all.
- `autopilot.dfy` (`Autopilot`): `decideNextMove` and its fallback loop.
- `controls.dfy` (`Controls`): the direction filter of `handleDirectionChange`
  and the key mapping of `handleManualControl`.
- `engine.dfy` (`Engine`): the game state as the class `SnakeGame`, whose state
  fields the methods update in place. It covers the initial state,
  `resetGame`, the autopilot button, manual input and one tick of the game
  loop.

`SnakeGame.Valid` is the invariant every transition keeps:

- the snake is well formed: non-empty, on the board, no repeated cell, and
  each segment next to the one before;
- the food is on the board and off the snake;
- the direction is a unit vector;
- the score is ten points per segment grown;
- the high score is at least the score.

The methods `FirstTickFromStart`, `WallScenario`, `EatScenario` and
`ReversalScenario` in `Engine` replay small game situations through the
method contracts alone.

Three details follow the code exactly:

- The autopilot falls back to the safe-neighbour scan when the search returns
  an empty path, not only when it returns none
  (`src/components/SnakeGame.jsx:106`).
- The direction filter drops any request on the current axis, the same
  direction included. For unit vectors that is the same outcome as "reject
  the reversal".
- The filter compares a request with the direction the previous request left
  behind, not with the way the snake last moved. Two requests between ticks
  can therefore turn it around: moving RIGHT, UP then LEFT leaves it pointing
  LEFT (`Controls.TwoRequestsReverse`). When the snake has two or more
  segments, the next tick then runs the head into the segment behind it. This
  follows from `src/components/SnakeGame.jsx:201-207` as written.

## Model

| member | source | states |
|---|---|---|
| Grid.UnitIsDirection | src/components/SnakeGame.jsx:13-16 | the unit vectors are exactly UP, DOWN, LEFT and RIGHT |
| Grid.StepIsAdjacent | src/components/SnakeGame.jsx:151-154 | moving a cell by a unit vector gives a neighbouring cell, in both orders |
| Grid.Neighbours | src/components/SnakeGame.jsx:74-79 | four cells, the k-th being one step in the k-th of UP, DOWN, LEFT, RIGHT; a cell is listed exactly when it neighbours the given cell |
| Grid.BoardSize | src/components/SnakeGame.jsx:5 | the board has GRID_SIZE² = 400 cells |
| Grid.DistinctCells | src/components/SnakeGame.jsx:92-94 | a sequence without repeats has as many distinct cells as entries |
| Grid.FreeCellExists | src/components/SnakeGame.jsx:34-44 | a well-formed snake shorter than 400 cells leaves a board cell free, so the food retry loop has a cell to find |
| Grid.SubsetSize | src/components/SnakeGame.jsx:92-93 | a subset is no larger than its superset (bounds the visited set by the board) |
| Grid.LargerSetHasOther | src/components/SnakeGame.jsx:34-44 | a larger set has a member outside a smaller one |
| Grid.RowPrefixSize | src/components/SnakeGame.jsx:5 | the first k cells of a row number k |
| Grid.RowsPrefixSize | src/components/SnakeGame.jsx:5 | the first k rows hold k · GRID_SIZE cells |
| Pathfinder.WalkSteps | src/components/SnakeGame.jsx:81-95 | a walk (each queued path extends its parent's by one free neighbour) is exactly a sequence whose every cell is free and one unit step from the cell before it, the first from the start |
| Pathfinder.StepwisePrefix | src/components/SnakeGame.jsx:94 | dropping the last cell of a step-by-step walk leaves a step-by-step walk, and the dropped step was a free unit step |
| Pathfinder.StepwiseExtend | src/components/SnakeGame.jsx:94 | a step-by-step walk extended by a free unit step is again one |
| Pathfinder.WalkExtend | src/components/SnakeGame.jsx:94 | a walk extended by a free neighbour of its end is a path to that neighbour |
| Pathfinder.Discover | src/components/SnakeGame.jsx:81-96 | the cells the neighbour loop enqueues, in order: no more than it tries, each on the board, off the obstacles and not yet visited |
| Pathfinder.DiscoverFacts | src/components/SnakeGame.jsx:81-96 | the cells the neighbour loop enqueues are free, not yet visited and not repeated, and every free neighbour ends visited or enqueued |
| Pathfinder.Explore | src/components/SnakeGame.jsx:81-96 | the queue and visited set after the neighbour loop: the old queue extended by at most one entry per tried cell, the old visited set enlarged |
| Pathfinder.ExploreAt | src/components/SnakeGame.jsx:84-95 | one turn of the neighbour loop: skip a cell off the board, on an obstacle or visited, otherwise mark it and enqueue it |
| Pathfinder.ExploreDiscovers | src/components/SnakeGame.jsx:81-96 | the whole neighbour loop appends exactly the entries of the discovered cells and marks exactly those cells visited |
| Pathfinder.ExpandNeighbours | src/components/SnakeGame.jsx:74-96 | the loop's new queue and visited set are the old ones plus the discovered neighbours of the dequeued cell, in UP, DOWN, LEFT, RIGHT order |
| Pathfinder.DiscoverNeighbours | src/components/SnakeGame.jsx:74-96 | expanding a cell enqueues only fresh free neighbours, none twice, and leaves no free neighbour unvisited |
| Pathfinder.VisitedReach | src/components/SnakeGame.jsx:62-63 | when every queued path is at least `bound` long, every cell a walk of at most `bound` steps reaches is already visited |
| Pathfinder.QueueCellsSingle | src/components/SnakeGame.jsx:61-63 | the initial queue holds exactly the start cell |
| Pathfinder.QueueCellsSplit | src/components/SnakeGame.jsx:66 | the cells of the queue are its front plus the rest; after the shift and the pushes they are the rest plus the discovered cells |
| Pathfinder.NewEntryShortest | src/components/SnakeGame.jsx:92-94 | a cell first discovered from the front of the queue gets a shortest path |
| Pathfinder.StepShortest | src/components/SnakeGame.jsx:66-95 | after one expansion every queued path is still a shortest path to its cell |
| Pathfinder.StepLayered | src/components/SnakeGame.jsx:66-95 | after one expansion no cell is queued twice and queued path lengths still never drop and grow by at most one along the queue |
| Pathfinder.StepCovered | src/components/SnakeGame.jsx:66-95 | after one expansion the visited cells are still the expanded ones plus the queued ones, apart, and all on the board or the start |
| Pathfinder.BfsStep | src/components/SnakeGame.jsx:66-95 | one dequeue and expansion of a non-target cell keeps the whole search invariant |
| Pathfinder.ExpansionProgress | src/components/SnakeGame.jsx:92-95 | an expansion either visits a new board cell or enqueues nothing, so the loop measure goes down |
| Pathfinder.BfsAdvance | src/components/SnakeGame.jsx:65-96 | one loop turn on a non-target cell keeps the invariant, expands one more cell and decreases the loop measure |
| Pathfinder.BfsFound | src/components/SnakeGame.jsx:69-71 | the path returned when the target is dequeued is a shortest path; it is empty when start and target coincide; for a start on the board, at most 400 cells are dequeued |
| Pathfinder.BfsExhausted | src/components/SnakeGame.jsx:98 | an empty queue means no walk reaches the target; for a start on the board, at most 400 cells were dequeued |
| Pathfinder.EnclosedUnreachable | src/components/SnakeGame.jsx:85-90 | a target whose neighbours are all blocked or off the board is unreachable from any start that is neither the target nor next to it |
| Pathfinder.ShortestPath | src/components/SnakeGame.jsx:59-99 | a returned path is a walk of free unit steps ending at the target, with no shorter such walk; a path is returned exactly when the target is reachable; start = target gives the empty path; for a start on the board, at most GRID_SIZE² cells are dequeued |
| Autopilot.FirstSafeFrom | src/components/SnakeGame.jsx:113-125 | the first of the remaining directions whose target cell is free; None exactly when none is |
| Autopilot.FirstSafeMove | src/components/SnakeGame.jsx:113-125 | the first of UP, DOWN, LEFT, RIGHT whose target cell is on the board and off the snake; None exactly when there is none |
| Autopilot.FirstSafeSkip | src/components/SnakeGame.jsx:114-125 | skipping directions whose cells are blocked does not change the fallback's choice |
| Autopilot.FirstSafeMoveFound | src/components/SnakeGame.jsx:113-128 | the fallback finds a move exactly when the head has a free neighbour, and that move is a unit step onto a free cell |
| Autopilot.PathFirstStep | src/components/SnakeGame.jsx:106-109 | the first cell of a non-empty shortest path is a free neighbour of the head |
| Autopilot.SafeNeighbourMove | src/components/SnakeGame.jsx:112-128 | the fallback loop returns the first of UP, DOWN, LEFT, RIGHT onto a free cell, or None |
| Autopilot.DecideNextMove | src/components/SnakeGame.jsx:102-129 | a move exists exactly when the head has a free neighbour; a move is one of UP, DOWN, LEFT, RIGHT and leads onto a free cell; with the food reachable (and not under the head) it is the first step of a shortest path to the food; otherwise it is the fallback's choice |
| Controls.FilterDirection | src/components/SnakeGame.jsx:201-208 | the result is the previous or the requested direction; for unit vectors it is a unit vector, never the reverse of the previous one, and the request is taken exactly when it is perpendicular to the previous direction (or equal to it) |
| Controls.TwoRequestsReverse | src/components/SnakeGame.jsx:201-208 | for any unit direction and any perpendicular request, filtering that request and then the reverse of the old direction ends on the reverse (moving RIGHT, UP then LEFT ends on LEFT) |
| Controls.KeyDirection | src/components/SnakeGame.jsx:213-232 | "ArrowUp"/"UP", "ArrowDown"/"DOWN", "ArrowLeft"/"LEFT" and "ArrowRight"/"RIGHT" map to their directions, exactly those keys do, and every result is a unit vector |
| Engine.GrowKeepsSnake | src/components/SnakeGame.jsx:175 | adding a free neighbouring cell as the new head keeps the snake well formed |
| Engine.DropTailKeepsSnake | src/components/SnakeGame.jsx:189 | dropping the tail keeps a snake of two or more cells well formed |
| Engine.StuckMeansBlocked | src/components/SnakeGame.jsx:127-128 | with no free neighbour, the step in any unit direction is blocked |
| Engine.GenerateFood | src/components/SnakeGame.jsx:32-44 | the new food is on the board and not on the given snake |
| Engine.SnakeGame.constructor | src/components/SnakeGame.jsx:22-28 | snake [(10,10)], food (5,5), direction RIGHT, score 0, not over, autopilot off, high score from storage; the invariant holds |
| Engine.SnakeGame.Reset | src/components/SnakeGame.jsx:47-53 | snake [(10,10)], direction RIGHT, score 0, not over, food on a free cell; high score and autopilot setting kept; the invariant holds |
| Engine.SnakeGame.ToggleAutopilot | src/components/SnakeGame.jsx:293 | the autopilot flag flips and nothing else changes |
| Engine.SnakeGame.ChangeDirection | src/components/SnakeGame.jsx:201-208 | the direction becomes the filtered request, never the reverse of the old direction; nothing else changes |
| Engine.SnakeGame.HandleManualControl | src/components/SnakeGame.jsx:210-233 | with the autopilot on or an unknown key the direction stays; otherwise it becomes the filtered direction of the key; nothing else changes |
| Engine.SnakeGame.Advance | src/components/SnakeGame.jsx:151-192 | the game ends exactly when the new head is off the board or on the pre-move snake (tail included), leaving snake, food and scores alone; eating grows the snake by the new head, adds 10 points and raises the high score to the score if it is higher, and places new food off the snake; otherwise the head advances and the tail is dropped; the invariant holds |
| Engine.SnakeGame.Tick | src/components/SnakeGame.jsx:132-192 | a finished game does not move; without the autopilot the direction is kept; with it, the game ends exactly when the head has no free neighbour, a reachable food is approached along a shortest path, and otherwise the direction becomes the fallback's choice or, when there is none, stays; then the move happens as in `Advance`; the invariant holds |

## Left out

- Rendering is not modelled: the canvas, the dashboard and the overlay are display only.
- The `setInterval` timer and the two tick speeds are not modelled. One call of `Tick` is one timer firing.
- Keyboard listener wiring and the mobile control buttons are not modelled. Their key names go through `KeyDirection`.
- Reading and writing the high score in `localStorage` is left out, because it is foreign storage. The stored value is the constructor's `storedHighScore`, and `highScore` is a plain field.
- `Math.random` is left out. `GenerateFood` returns an arbitrary free cell instead of drawing until one is free.
- The `aiThinking` flag is left out. It only drives a visual indicator.
- React state batching and closure capture are flattened into sequential field updates on one object.
- `src/App.jsx`, `src/components/MobileControls.jsx` and `tailwind.config.js` are framing and styling, and are not part of this model.
- ShortestPath: the contract promises some shortest path. It does not say which one the UP, DOWN, LEFT, RIGHT exploration order picks when several tie.
- DecideNextMove: when the food is reachable, the contract says the move starts some shortest path, not the particular one the search returns.
- Tick: requires at least two free board cells. On a full board the game's food retry loop would never finish, so the model asks the caller to stay clear of that case.
- Advance: shares the requirement of two free board cells with `Tick`, for the same reason.
- ChangeDirection: requires a unit vector. The game only ever passes the four constants.
- The visited set of the search is a set of cells rather than of `"x,y"` strings. The string key is injective on integer coordinates, so the two agree.
