# A verified model of the falling-block game in `tr-01-01.js`

`tr-01-01.js` is a small browser Tetris clone. It keeps the following in script globals:

- a `ROWS × COLS` grid of fixed blocks;
- a score;
- running and paused flags;
- a doubled "7-bag" of shapes;
- the current tick interval;
- the active `Tetromino`.

Its logic is the code that changes those globals:

- the piece's moves and quarter turns;
- the collision test;
- locking a piece into the grid;
- clearing full rows and scoring 100 for each;
- drawing pieces from the bag without replacement;
- the speed ramp;
- the game-over test on the top row;
- one tick of the game loop;
- the arrow-key handler;
- the start, pause and reset buttons.

This project models that logic in Dafny and proves what it promises. The modules are:

- `Shapes` (`shapes.dfy`): the seven catalog matrices and their colours.
  - The colour lookup by matrix value.
  - The quarter turn `rotate` computes, with its geometry.
- `Board` (`board.dfy`): the grid as a value (`seq<seq<Cell>>`, where a cell is `Empty | Fixed(color)`). It holds the questions asked of the grid:
  - `CheckCollision`.
  - `Locked`, the grid after a piece is fixed.
  - `Cleared`, the grid after full rows are cleared.
  - `CheckEndGame`.
- `Bag` (`bag.dfy`): refilling and drawing from the bag, as functions of its contents.
- `Speed` (`speed.dfy`): the interval update and its long-run bounds.
- `Pieces` (`tetromino.dfy`): the `Tetromino` class, whose methods update `shape`, `x` and `y` in place.
- `Game` (`game.dfy`): the script's globals gathered into the class `Game`. Its methods change them as the script does:
  - `FixTetromino` assigns cells in nested loops.
  - `ClearLines` scans the rows, splicing and scoring.
  - `GetRandomTetromino` refills and splices the bag.
  - `Tick` is the game loop's timer callback.
  - `KeyDown` is the key handler.
  - `Start`, `Pause` and `Reset` are the three buttons.
  - Each method is proved against the pure functions of `Board`, `Bag` and `Speed`.

Modelling choices:

- Sizes:
  - `ROWS` and `COLS` are positive constructor parameters.
  - Shape matrices are `seq<seq<bool>>`, with `true` for a 1.
- The bag holds the catalog's keys (`Kind`) rather than matrices. Each catalog matrix is distinct (`Shapes.ShapesDistinct`), so a key and its matrix stand for each other.
- Randomness and timing:
  - `Math.random()` is replaced by an index argument `pick`, below the size of the bag drawn from.
  - `elapsedTime % timeForNextIntervalUpdate === 0` is replaced by a boolean `trigger`.
- The grid is indexed `fixedBlocks[y]` with no lower bound. So the invariant `y >= 0` of the active piece (`Tetromino.Valid`) is carried through every method. It holds because a piece spawns on row 0 and only moves down, or moves back up after moving down.

## Model

| member | source | states |
|---|---|---|
| Shapes.ShapeOf | tr-01-01.js:45-53 | every catalog shape is a non-empty rectangular matrix |
| Shapes.FindKind | tr-01-01.js:65-67 | a key found has a catalog matrix equal (by value) to the argument; when none is found, no listed key's matrix equals it |
| Shapes.GetTetrominoColor | tr-01-01.js:64-69 | a colour is returned exactly when the matrix equals some catalog entry, and it is then that entry's colour; otherwise the result is undefined (`None`) |
| Shapes.CatalogColor | tr-01-01.js:54-62 | each catalog matrix looks up its own kind's colour |
| Shapes.Reverse | tr-01-01.js:124 | `.reverse()`: same length, element `i` is element `n-1-i` of the input |
| Shapes.Rotate | tr-01-01.js:122-126 | an h-by-w rectangular matrix becomes a w-by-h rectangular matrix with `r[i][j] == m[h-1-j][i]` (a clockwise quarter turn) |
| Shapes.HalfTurn | tr-01-01.js:122-126 | two quarter turns flip the matrix upside down and mirror it |
| Shapes.FourRotations | tr-01-01.js:253-257 | four quarter turns give back exactly the original matrix, so three more turns undo a rejected one |
| Shapes.RotateKeepsCells | tr-01-01.js:122-126 | a quarter turn keeps the number of occupied cells |
| Pieces.Tetromino.constructor | tr-01-01.js:72-77 | a new piece has the given shape, the colour `getTetrominoColor` gives it, and its corner at column 3 of row 0 |
| Pieces.Tetromino.MoveDown | tr-01-01.js:109-111 | `y` rises by one and nothing else changes |
| Pieces.Tetromino.MoveLeft | tr-01-01.js:114-116 | `x` drops by one and nothing else changes |
| Pieces.Tetromino.MoveRight | tr-01-01.js:118-120 | `x` rises by one and nothing else changes |
| Pieces.Tetromino.Rotate | tr-01-01.js:122-126 | the shape becomes its quarter turn and the position is kept |
| Board.RowCollides | tr-01-01.js:267-279 | the inner `some` is true exactly when some occupied cell of the row, from the given index on, collides |
| Board.ShapeCollides | tr-01-01.js:266-280 | the outer `some` is true exactly when some occupied cell in the rows from the given index on collides |
| Board.CheckCollision | tr-01-01.js:265-282 | true exactly when some occupied cell lands left of column 0, at or past `COLS`, at or below row `ROWS`, or on a fixed block |
| Board.LockedThenCollides | tr-01-01.js:284-297 | locking keeps the grid's size and every block already fixed; a locked piece covering a grid cell collides where it stood |
| Board.EmptyRow | tr-01-01.js:304 | a fresh row has `COLS` cells |
| Board.Survivors | tr-01-01.js:299-315 | the rows that survive clearing are no more than the rows, and none is full |
| Board.SurvivorIndices | tr-01-01.js:299-315 | one original index per survivor, each inside the grid |
| Board.SurvivorsAt | tr-01-01.js:303 | each survivor is the original row at its index |
| Board.SurvivorIndicesAscend | tr-01-01.js:303 | survivor indices ascend, so the kept rows keep their relative order |
| Board.NonFullSurvive | tr-01-01.js:301 | every row that is not full survives |
| Board.SurvivorsCount | tr-01-01.js:301-303 | each row value occurs among the survivors as often as in the grid, unless full |
| Board.FullCount | tr-01-01.js:301 | full rows plus surviving rows make up all the rows |
| Board.Cleared | tr-01-01.js:299-315 | clearing keeps the number of rows |
| Board.ClearedSnoc | tr-01-01.js:301-306 | scanning one more row: a full row adds an empty row on top and counts once; otherwise the row stays below the cleared part |
| Board.ScanStep | tr-01-01.js:300-306 | one iteration of the scan: row `y` is still the original, and splicing it out and unshifting an empty row (full) or leaving it (not full) gives the cleared first `y+1` rows followed by the rest |
| Board.ClearedShape | tr-01-01.js:299-315 | after clearing, the grid is still `ROWS × COLS` and no row is full |
| Board.ClearedNoFullRows | tr-01-01.js:299-315 | a grid without full rows is left as it is and scores nothing |
| Board.ClearedIdempotent | tr-01-01.js:299-315 | clearing twice is clearing once |
| Board.AnyFixed | tr-01-01.js:169 | true exactly when some cell of the row, from the given index on, is fixed |
| Board.CheckEndGame | tr-01-01.js:167-170 | the game is over exactly when some cell of row 0 is fixed |
| Bag.Refilled | tr-01-01.js:133-136 | the refilled bag has 14 entries, exactly two of each of the 7 kinds |
| Bag.RefilledTwice | tr-01-01.js:135 | the refilled bag is the catalog's keys followed by themselves |
| Bag.KeyOnce | tr-01-01.js:134 | each kind occurs once among the catalog's keys |
| Bag.BeforeDraw | tr-01-01.js:140-142 | a draw uses the bag as it is when it is not empty, and a refilled bag exactly when it is empty |
| Bag.Draw | tr-01-01.js:145-146 | a draw returns entry `i` and leaves one entry fewer; the old bag equals the rest plus the returned entry, as multisets |
| Bag.DrainBag | tr-01-01.js:139-149 | drawing a non-empty bag dry, with picks that shrink with it, returns exactly its contents |
| Bag.EmptyDrawsAsFull | tr-01-01.js:140-142 | drawing from an empty bag is drawing from a freshly refilled one |
| Bag.FullBagDraws | tr-01-01.js:139-149 | fourteen draws from an empty bag return every kind exactly twice, whatever the picks |
| Speed.NextInterval | tr-01-01.js:159-166 | when due, the interval drops by 10 if that stays at or above 200; without the trigger it is unchanged; from at or above 200 it never rises and never goes below 200 |
| Speed.RampFormula | tr-01-01.js:159-166 | after any run of updates from at or above 200, the interval is `max(200, start - 10 × due updates)` |
| Speed.RampBounds | tr-01-01.js:151-166 | from the initial 1000 the interval stays between 200 and 1000 |
| Game.UndoRestores | tr-01-01.js:233-258 | each key's undo takes back its proposal exactly (position and shape) |
| Game.KeyStep | tr-01-01.js:230-262 | a key leaves the piece at its proposal or where it was, at the proposal whenever that does not collide, and never colliding if it did not before |
| Game.Steer | tr-01-01.js:233-258 | the handler's branches leave the piece at `KeyStep` of where it was, still valid |
| Game.Game.constructor | tr-01-01.js:12-15 | the start state: empty `ROWS × COLS` grid, score 0, not running, paused, interval 1000, a freshly allocated first piece drawn from the empty bag, at (3, 0) with its kind's colour (lines 130, 152, 224) |
| Game.Game.RefillBag | tr-01-01.js:133-136 | the bag becomes `Refilled()` |
| Game.Game.GetRandomTetromino | tr-01-01.js:139-149 | the bag becomes the draw's rest; a fresh piece of the drawn kind at (3, 0) with its kind's colour |
| Game.Game.UpdateInterval | tr-01-01.js:159-166 | the interval becomes `NextInterval` of the old one |
| Game.Game.FixTetromino | tr-01-01.js:284-297 | every in-bounds occupied cell of the piece becomes `Fixed(piece colour)`, every other cell is unchanged, the grid keeps its size (`Locked`) |
| Game.Game.ClearLines | tr-01-01.js:299-315 | the grid becomes `Cleared` of the old one and the score rises by 100 × the number of rows that were full |
| Game.Game.Land | tr-01-01.js:184-186 | lock, clear and draw: the grid is `Cleared(Locked(...))`, the score rises by 100 per full row of the locked grid, a fresh piece of the drawn kind at (3, 0) with that kind's colour |
| Game.Game.Fall | tr-01-01.js:180-187 | a move down that does not collide only lowers the piece by one; one that collides lands the piece at its previous row (as `Land`, new piece's kind, position and colour included) |
| Game.Game.Tick | tr-01-01.js:171-203 | game over (a fixed cell in row 0) or paused: nothing changes; otherwise `Fall`, then the interval update; the flags never change; after a landing the new piece has the drawn kind, position (3, 0) and that kind's colour, and is not checked for collision |
| Game.Game.KeyDown | tr-01-01.js:230-262 | the piece ends at `KeyStep` of where it was; grid, score, bag, interval and flags are unchanged |
| Game.Game.Start | tr-01-01.js:329-335 | afterwards running; a stopped game is unpaused, a running one keeps its paused flag |
| Game.Game.Pause | tr-01-01.js:337-339 | the paused flag toggles |
| Game.Game.Reset | tr-01-01.js:341-351 | the grid is emptied in place, score 0, a fresh piece of the drawn kind at (3, 0) with that kind's colour, stopped and paused; the interval is untouched |

## Left out

- Rendering is not modelled: `drawGrid`, `render`, `clear`, `renderFixedBlocks`, `renderScore`, and the canvas calls inside `clearLines` and the button handlers. These are side effects on the browser's drawing API.
- Timer scheduling is not modelled: `setTimeout`, the recursive re-entry of `gameLoop` and `alert`. `Game.Tick` is one run of the loop: the end-game and pause tests, then the callback body at once. So the model does not capture the following:
  - The callback fires later, even if the game is paused in between.
  - Un-pausing with the pause button never re-enters `gameLoop`, because only the start button does.
- Game.Game.Tick: `elapsedTime += currentInterval / 1000` and its floating-point `%` test are not modelled. Whether the interval update is due is the boolean parameter `trigger`.
- `Math.random` is replaced by the index parameter `pick` (Game.Game.GetRandomTetromino, Tick, Reset, constructor).
- `COLS` and `ROWS` come from the canvas size in the source. Here they are positive parameters.
- Event-listener registration and `preventDefault` are not modelled. Only the state changes of the handlers are.
- `script.js` (title toggling on the page) is not part of this model.
- The bag holds catalog keys rather than shared matrix objects. Rotation builds new arrays and never changes a catalog matrix in place, so no aliasing effect is lost.
