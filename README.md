# Pac-Man tick simulation in Dafny

A model of the game engine of a browser Pac-Man game (`App.tsx`). It covers:

- the maze queries `findPosition` and `findAllPositions`;
- the movement rules `isValidMove` and `getNextPosition`;
- one tick of `updateGame`: Pac-Man moves, eats, the power-mode countdown runs, the ghosts move, collisions resolve, and the win check runs;
- `initGame`;
- the input handlers `handleKeyDown`, `handleDirection` and `toggleGame`.

The model has two layers:

- **Module `Tick`** states each step as a function on `GameState` values. It carries the game invariant `Inv` and the lemmas about the rules.
- **Module `Engine`** holds class `Game`, the state the source keeps in `stateRef` and `lastTimeRef`:
  - the live maze is a two-dimensional array, written cell by cell;
  - Pac-Man, the ghost list, score, lives, status and the power-mode timer are fields the methods reassign, as the source mutates them;
  - every method is proved to leave exactly the state the matching `Tick` function computes;
  - the public methods also keep `Valid()`, which is the shape of the array plus `Tick.Inv`.

Supporting modules:

- `Maze` holds the grid type, the scans (as functions, and as loop methods proved equal to them), passability, one step with the horizontal tunnel, and cell counting.
- `Ghosts` holds one ghost's move: the candidate filter, the random choice, homing of a dead ghost, and revival on the ghost spawn.
- `Types` holds the value types.

The random draws (`Math.random()`) are an input: one `GhostChoice` per ghost per tick. `INITIAL_MAP` is a parameter `initial`. It must be rectangular, and Pac-Man's start must lie inside it (`Tick.Playable`).

Where the code departs from the game's intended design, the model follows the code:

- A dead ghost with |dx| = |dy| heads vertically.
- The reversal escape `options.length === 1` can never fire, because the option list always has four entries.
- Losing a life does not clear a ghost's `isDead`.
- Clearing the maze in the same tick as losing the last life ends the game WON.
- There is no input-staleness window and no bonus fruit.

## Model

| member | source | states |
|---|---|---|
| Maze.FirstPosition | App.tsx:70-77 | findPosition's result is null exactly when no cell holds the tile; otherwise it is a cell holding the tile, and no cell earlier in row-major order holds it |
| Maze.FindPosition | App.tsx:70-77 | the nested loop with its early return yields exactly FirstPosition |
| Maze.FirstIsUnique | App.tsx:73 | a matching cell with no earlier match is the one findPosition returns |
| Maze.AllPositions | App.tsx:79-87 | findAllPositions lists a position exactly when it is a cell of the maze holding the tile |
| Maze.FindAllPositions | App.tsx:79-87 | the nested loop pushing every match yields exactly AllPositions |
| Maze.MatchesMembers | App.tsx:81-85 | after scanning n rows, the list holds exactly the matching cells of those rows |
| Maze.RowMatchesMembers | App.tsx:82-83 | after scanning x cells of a row, the list holds exactly the matching cells among them |
| Maze.AllPositionsOrdered | App.tsx:79-87 | findAllPositions returns its cells in strict row-major order |
| Maze.MatchesOrdered | App.tsx:81-85 | every prefix of the row scan is in strict row-major order |
| Maze.RowMatchesOrdered | App.tsx:82-83 | the matches within one row come in increasing x |
| Maze.EarlierRowsFirst | App.tsx:81-85 | every match of earlier rows precedes every match of the current row |
| Maze.FirstIsEarliest | App.tsx:70-77 | no matching cell comes before the first element of findAllPositions in row-major order |
| Maze.CountAfterSet | App.tsx:149 | writing one cell changes the number of cells holding a tile by exactly that cell's old and new contribution |
| Maze.IsValidMove | App.tsx:89-96 | a cell is passable iff it is inside the grid, not a WALL, and, for Pac-Man, not a DOOR (ghosts may enter DOOR and GHOST_SPAWN) |
| Maze.GetNextPosition | App.tsx:98-113 | y moves by the direction's step and never wraps; inside the maze x moves by its step, x = -1 becomes W - 1, x = W becomes 0, and the result stays in 0..W-1 |
| Ghosts.Candidates | App.tsx:189-200 | a direction is a candidate iff it is a real direction, the cell one step that way is open to ghosts, and it is not the reverse of the ghost's heading |
| Ghosts.Filter | App.tsx:190-200 | `options.filter` keeps a direction iff it is among the options and one step that way is open to ghosts without reversing |
| Ghosts.FirstOther | App.tsx:212 | `find(d => d !== current)` is null iff every option equals current, and otherwise returns the first option (in list order) other than current |
| Ghosts.ChooseDirection | App.tsx:202-213 | with candidates, the choice is a candidate, and keeping straight is honoured when it is a candidate; with none, the fallback differs from the heading (DOWN if heading UP, else UP) |
| Ghosts.HomingDirection | App.tsx:176-185 | a dead ghost heads horizontally iff the horizontal distance to the spawn is strictly larger |
| Ghosts.HomingApproaches | App.tsx:176-185 | inside the maze a homing step brings the ghost exactly one step closer (Manhattan distance) to the spawn |
| Ghosts.GhostStep | App.tsx:168-222 | a ghost stays dead unless it is dead and stands on the spawn, where it revives and stops being scared; otherwise its scared flag is kept |
| Ghosts.GhostStepSpec | App.tsx:168-222 | a dead ghost on the spawn revives unmoved; otherwise the scared and dead flags are kept, and the ghost moves exactly when the cell one step along its chosen heading is open to ghosts, taking that heading; a live ghost's new intent is ChooseDirection's pick from its draws (so with candidates it heads along one of them); a dead ghost off the spawn aims home |
| Tick.InitialPacmanPos | App.tsx:47-48 | Pac-Man starts at (1, 1) when the maze has no Pac-Man spawn, otherwise at the first spawn with each coordinate that is 0 replaced by 1 and the other kept (a 0 coordinate is falsy and falls back to 1), so never on row 0 or column 0 |
| Tick.Init | App.tsx:27-63 | a fresh game: the maze as given, score 0, 3 lives, IDLE, timer 0, Pac-Man at his start facing RIGHT with intent RIGHT, and the ghosts exactly InitialGhosts of the ghost spawns in scan order (ghost i on spawn i) |
| Tick.InitialGhosts | App.tsx:31-41 | one ghost per spawn, on that spawn, neither scared nor dead, ghost i heading UP, LEFT, RIGHT by i mod 3 with no intent |
| Tick.InitSatisfiesInv | App.tsx:27-63 | the state initGame builds satisfies the game invariant |
| Tick.NoMoverOnWall | App.tsx:89-96 | in every reachable state no ghost stands on a wall, and Pac-Man stands on one only at his initGame start |
| Tick.MovePacman | App.tsx:130-143 | Pac-Man turns and steps when the cell in nextDirection is open, otherwise keeps his direction and steps if that cell is open, otherwise stays; he only ever lands on a cell open to him |
| Tick.MovePacmanKeepsInv | App.tsx:130-143 | Pac-Man's step keeps the game invariant |
| Tick.Eat | App.tsx:145-157 | eating never moves Pac-Man, never changes lives or status, and never lowers the score |
| Tick.EatSpec | App.tsx:145-157 | a DOT adds exactly 10 and a POWER_PELLET exactly 50 and empties that cell; a pellet sets the timer to 50 and scares every ghost; any other tile changes nothing; score plus the value left on the maze is unchanged |
| Tick.EatKeepsInv | App.tsx:145-157 | eating keeps the invariant: the maze only loses dots and pellets |
| Tick.CountDown | App.tsx:159-165 | a running timer drops by exactly one, and when it reaches 0 no ghost is scared; otherwise nothing changes |
| Tick.CountDownKeepsInv | App.tsx:159-165 | the countdown keeps the timer in 0..50 and keeps ghosts unscared at 0 |
| Tick.MoveGhosts | App.tsx:167-222 | moving the ghosts changes only the ghost list and keeps its length |
| Tick.MoveGhostsKeepsInv | App.tsx:167-222 | after the ghosts move, each stands on a cell open to ghosts, and none has become scared |
| Tick.FirstHit | App.tsx:226 | `ghosts.find` returns the least index of a ghost on Pac-Man's cell, or nothing iff there is none |
| Tick.EatGhost | App.tsx:227-239 | eating a ghost adds exactly 200 and makes it dead and unscared on the first ghost spawn (or where it was, if the maze has none); nothing else changes |
| Tick.ResetGhosts | App.tsx:254-260 | ghost i goes to spawn i mod n and stops being scared; its headings and its dead flag are kept |
| Tick.LoseLife | App.tsx:240-263 | one life less; at 0 lives GAME_OVER with nothing else changed; otherwise Pac-Man goes back to his spawn facing RIGHT with intent RIGHT, and ghost i goes to spawn i mod n, unscared |
| Tick.Collide | App.tsx:225-265 | only the first ghost on Pac-Man's cell counts: scared and alive means it is eaten, alive means a life is lost, dead means nothing happens |
| Tick.CollideKeepsInv | App.tsx:225-265 | collisions keep the invariant |
| Tick.EatGhostKeepsInv | App.tsx:227-239 | an eaten ghost is on a cell ghosts may occupy |
| Tick.LoseLifeKeepsInv | App.tsx:240-263 | the reset after a lost life keeps the invariant |
| Tick.PelletsRemaining | App.tsx:268 | the count of dots and pellets is 0 iff none is left |
| Tick.CheckWin | App.tsx:267-271 | the status becomes WON exactly when no dot or pellet is left; nothing else changes |
| Tick.Feed | App.tsx:130-157 | moving and eating keep Pac-Man on the maze, keep status, lives and the ghost count, and never lower the score; points only move from maze to score |
| Tick.FeedKeepsInv | App.tsx:130-157 | moving and eating keep the invariant |
| Tick.Chase | App.tsx:159-222 | the countdown and the ghosts' move change only the ghosts and the timer |
| Tick.ChaseKeepsInv | App.tsx:159-222 | the countdown and the ghosts' move keep the invariant |
| Tick.Step | App.tsx:128-271 | one tick keeps the ghost count, never lowers the score, and loses at most one life |
| Tick.StepKeepsInv | App.tsx:128-271 | a tick of a game in play keeps the invariant: walls, doors and spawns unchanged; movers on open cells; ghosts scared only while the timer runs; lives left while PLAYING |
| Tick.StepOutcome | App.tsx:240-271 | after a tick the game is WON iff the maze is cleared, GAME_OVER iff the last life went and pellets remain, and still PLAYING otherwise |
| Tick.StepScore | App.tsx:145-239 | over a tick, score plus the value left on the maze grows by 0 or by exactly 200 |
| Tick.LastDotWins | App.tsx:130-271 | in a maze with no ghost spawn (so the ghost list is empty), when the cell in Pac-Man's intent holds the last dot, one tick moves him there, adds exactly 10 and ends WON |
| Tick.Update | App.tsx:116-271 | nothing happens unless the game is PLAYING and at least 150 ms have passed; then the state becomes exactly one Step and lastTime becomes the timestamp; the invariant holds, the score never drops, and lives never rise |
| Tick.Run | App.tsx:116-276 | along any sequence of frames the invariant holds, the score never drops, and lives never rise |
| Tick.NotPlayingIsFrozen | App.tsx:117-120 | once the game is not PLAYING, any number of updateGame calls leave the state and lastTime unchanged |
| Tick.KeyDirection | App.tsx:302-308 | each arrow key maps to its own direction, and every other key to NONE |
| Tick.KeyDown | App.tsx:289-313 | outside play, Enter or Space (and only they) start a fresh game; in play, an arrow key sets Pac-Man's nextDirection to its direction, and nothing else changes |
| Tick.SetDirection | App.tsx:321-325 | the on-screen arrows change only Pac-Man's nextDirection, and only in play |
| Tick.ToggleGame | App.tsx:327-334 | outside play the start button starts a fresh game; in play it does nothing |
| Tick.StartResets | App.tsx:292-298 | starting a game gives score 0, 3 lives, timer 0, the initial maze, PLAYING, and no scared or dead ghost, and keeps the invariant; Enter, Space and the start button agree |
| Tick.InputKeepsInv | App.tsx:289-334 | every input keeps the invariant |
| Engine.Game.constructor | App.tsx:65-67 | mounting runs initGame: the state is the fresh game, lastTime is 0, and the invariant holds |
| Engine.Game.InitGame | App.tsx:27-63 | the maze array holds the initial maze and every field is the fresh game's |
| Engine.Game.Spawn | App.tsx:28-53 | Pac-Man and the ghosts are placed as the fresh game places them |
| Engine.Game.SpawnGhosts | App.tsx:31-41 | the `ghostStarts.map` loop builds InitialGhosts |
| Engine.Game.CopyMaze | App.tsx:44 | the live maze becomes a copy of the initial maze |
| Engine.Game.CanEnter | App.tsx:89-96 | isValidMove on the live array agrees with IsValidMove on its contents |
| Engine.Game.UpdateGame | App.tsx:116-276 | the in-place tick leaves exactly the state and lastTime of Tick.Update, and keeps the invariant |
| Engine.Game.Step | App.tsx:128-271 | the five in-place steps leave exactly Tick.Step's state |
| Engine.Game.MovePacman | App.tsx:130-143 | only Pac-Man changes, as Tick.MovePacman says |
| Engine.Game.Eat | App.tsx:145-157 | the in-place eating leaves exactly Tick.Eat's state |
| Engine.Game.ClearCell | App.tsx:149 | exactly one cell of the array becomes EMPTY |
| Engine.Game.SetAllScared | App.tsx:155 | every ghost's isScared is set, and nothing else about it changes |
| Engine.Game.CountDown | App.tsx:159-165 | the in-place countdown leaves exactly Tick.CountDown's state |
| Engine.Game.MoveGhosts | App.tsx:167-222 | the ghost list is replaced by Tick.MoveGhosts' list, on the live maze |
| Engine.Game.StepEach | App.tsx:168-222 | ghost j of the new list is GhostStep of ghost j with its own draws |
| Engine.Game.Collide | App.tsx:225-265 | the in-place collision step leaves exactly Tick.Collide's state |
| Engine.Game.EatGhost | App.tsx:227-239 | the in-place capture leaves exactly Tick.EatGhost's state |
| Engine.Game.LoseLife | App.tsx:240-263 | the in-place death leaves exactly Tick.LoseLife's state |
| Engine.Game.ResetGhosts | App.tsx:255-260 | ghost i moves to start i mod n and is unscared |
| Engine.Game.DotsRemaining | App.tsx:268 | the nested count equals PelletsRemaining, and is 0 iff no dot or pellet is left |
| Engine.Game.CheckWin | App.tsx:267-271 | the status becomes WON exactly as Tick.CheckWin says |
| Engine.Game.HandleKeyDown | App.tsx:289-313 | the state becomes Tick.KeyDown's; the invariant and lastTime are kept |
| Engine.Game.HandleDirection | App.tsx:321-325 | the state becomes Tick.SetDirection's; the invariant and lastTime are kept |
| Engine.Game.ToggleGame | App.tsx:327-334 | the state becomes Tick.ToggleGame's; the invariant and lastTime are kept |
| Engine.Game.StartGame | App.tsx:292-298 | initGame followed by PLAYING gives the fresh game in play and keeps the invariant |

## Left out

- Sound (`soundManager.*`), rendering, React state and effects, `requestAnimationFrame` scheduling, and listener registration: these are output or plumbing with no game rule.
- The renderer-only entity fields `id`, `color` and `isGhost`. Pac-Man's `isScared` and `isDead` are undefined in the source; the model keeps them false.
- `GHOST_COLORS` and the contents of `INITIAL_MAP`: the constants file is not part of this model. The maze is the parameter `initial`.
- `Math.random()`: each ghost's draws are the input `GhostChoice(keepStraight, pick)`. `keepStraight` stands for `Math.random() > 0.3`, and `pick` is taken modulo the number of candidates. The probabilities are not modelled.
- Timestamps are integers: the 150 ms gate is an integer comparison.
- `dotsEaten`, `fruitTimer` and `difficulty` (types.ts:49-51) and the FRUIT tile's bonus behaviour: `updateGame` never reads or writes them.
- Tick.Playable: the model asks that `INITIAL_MAP` be rectangular, with Pac-Man's start inside it. The source takes this for granted of its constant maze and would index outside the array otherwise.
- Engine.Game.InitGame: the live maze is one array allocated once and refilled from `INITIAL_MAP` on every restart. The source allocates a fresh copy, and no old copy stays reachable, so the two behave the same.
- Engine.Game.MoveGhosts: `findPosition(INITIAL_MAP, GHOST_SPAWN)` is computed once per tick instead of once per dead ghost. The maze scanned is the constant initial one, so the result is the same.
- Engine.Game.UpdateGame: the shallow copy `{ ...stateRef.current }` is not modelled separately. Its fields are mutated in place, as the class fields are.
- Tick.MoveGhosts: its own contract only says that nothing but the ghosts changes; what each ghost does is stated by Ghosts.GhostStepSpec and Tick.MoveGhostsKeepsInv.
- Tick.NoMoverOnWall: when `pacmanStart?.x || 1` moves Pac-Man's start off his spawn (a spawn in row or column 0), the start cell may be a wall, so the claim for Pac-Man is limited to after he leaves it.
