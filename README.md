# BlazorTetris game core in Dafny

This project models the rules engine of BlazorTetris, a Tetris game for the
browser. The model covers:

- the 20 x 10 grid of settled cells (`Grid`);
- the falling piece (`Tetromino`) and the factory of the seven kinds;
- the board with its legality test, hard drop, merge, row clearing,
  scoring, game over and spawning (`Board`);
- the player's moves and rotations (`Movement`);
- the in-memory leaderboard (`MemoryScoreService`).

The model keeps the program's form:

- `Grid`, `Tetromino`, `Board`, `Movement` and `MemoryScoreService` are
  classes whose methods update their fields in place.
- The grid's `Cell[,]` is an `array2<Cell>`.
- The board's loops are `while` loops with invariants.
- Each imperative method is proved against pure definitions in
  `rules.dfy`, `shapes.dfy` and `scores.dfy`. Their properties are proved as
  lemmas:
  - the legality test is equivalent to its quantified statement;
  - the hard drop passes only rows that fit and stops where the next row
    down does not fit;
  - row clearing equals "drop every full row and add empty rows on top";
  - four quarter turns give back the shape;
  - the leaderboard query is ordered, stable and takes the best entries.

Files and modules:

- `blocks.dfy` (`Blocks`): `BlockType`, `Cell`, the board size and the
  background colour.
- `shapes.dfy` (`Shapes`): shape matrices and the two quarter-turn maps.
- `rules.dfy` (`Rules`): the playfield as a value, and the fit test, drop
  row, merge, collapse and points.
- `pieces.dfy` (`Pieces`): colours and the `Tetromino` class.
- `factory.dfy` (`Factory`): the seven spawn shapes and the random pick.
- `grid.dfy` (`Grids`): the `Grid` class.
- `board.dfy` (`Boards`): the `Board` class.
- `moves.dfy` (`Moves`): the `Movement` class.
- `scores.dfy` (`Scores`): `ScoreEntry`, the ranking sort and the
  `MemoryScoreService` class.

## Model

| member | source | states |
|---|---|---|
| Shapes.RotateCW | BlazorTetris/BlazorTetris/Tetris/Movement.cs:43-52 | The clockwise turn has the flipped dimensions and sends square (r, c) to (c, R-1-r). |
| Shapes.RotateCCW | BlazorTetris/BlazorTetris/Tetris/Movement.cs:43-58 | The counter-clockwise turn has the flipped dimensions and sends square (r, c) to (C-1-c, r). |
| Shapes.Rotate | BlazorTetris/BlazorTetris/Tetris/Movement.cs:36-63 | "clockwise" selects the clockwise turn and any other string the counter-clockwise one. The dimensions are swapped. |
| Shapes.CCWUndoesCW | BlazorTetris/BlazorTetris/Tetris/Movement.cs:31-34 | A counter-clockwise turn undoes a clockwise turn. |
| Shapes.CWUndoesCCW | BlazorTetris/BlazorTetris/Tetris/Movement.cs:31-34 | A clockwise turn undoes a counter-clockwise turn. |
| Shapes.HalfTurn | BlazorTetris/BlazorTetris/Tetris/Movement.cs:31-34 | Two clockwise turns send square (r, c) to (R-1-r, C-1-c). |
| Shapes.FourTurns | BlazorTetris/BlazorTetris/Tetris/Movement.cs:31-34 | Four clockwise turns give back the original shape. |
| Shapes.CellsOfCW | BlazorTetris/BlazorTetris/Tetris/Movement.cs:32 | The squares of the clockwise turn are exactly the images of the original squares under (r, c) -> (c, R-1-r). |
| Shapes.CellsOfCCW | BlazorTetris/BlazorTetris/Tetris/Movement.cs:33 | The squares of the counter-clockwise turn are exactly the images under (r, c) -> (C-1-c, r). |
| Shapes.RotatePreservesCount | BlazorTetris/BlazorTetris/Tetris/Movement.cs:36-63 | A turn in either direction keeps the number of squares. |
| Pieces.AssignColor | BlazorTetris/BlazorTetris/Tetris/Tetromino.cs:19-32 | The colour is "White" exactly for the Empty kind. |
| Pieces.ColorsDistinct | BlazorTetris/BlazorTetris/Tetris/Tetromino.cs:19-32 | Different kinds get different colours. |
| Pieces.Tetromino.constructor | BlazorTetris/BlazorTetris/Tetris/Tetromino.cs:11-17 | A new piece has the given shape and kind, its kind's colour, and the spawn position x = 5, y = 0. |
| Factory.ShapeOf | BlazorTetris/BlazorTetris/Tetris/TetrominoFactory.cs:6-61 | The spawn shape literal of each kind. I is 4 x 1, O is 2 x 2 and the other five are 2 x 3. |
| Factory.FourSquares | BlazorTetris/BlazorTetris/Tetris/TetrominoFactory.cs:6-61 | Every spawn shape has exactly four squares. |
| Factory.SpawnInBounds | BlazorTetris/BlazorTetris/Tetris/TetrominoFactory.cs:6-61 | Every spawn shape at column 5, row 0 lies entirely on the board. |
| Factory.KindAt | BlazorTetris/BlazorTetris/Tetris/TetrominoFactory.cs:69-79 | The draw's switch never yields Empty. Any draw outside 0..6 falls back to T. |
| Factory.KindAtOneToOne | BlazorTetris/BlazorTetris/Tetris/TetrominoFactory.cs:69-79 | Each of the seven kinds is chosen by exactly one draw in 0..6. |
| Factory.Create | BlazorTetris/BlazorTetris/Tetris/TetrominoFactory.cs:6-61 | CreateT ... CreateZ: a fresh piece of the kind, with its spawn shape and colour, at the spawn position. |
| Factory.CreateRandomPiece | BlazorTetris/BlazorTetris/Tetris/TetrominoFactory.cs:67-81 | A fresh spawn piece of the kind the draw selects. |
| Grids.Grid.constructor | BlazorTetris/BlazorTetris/Tetris/Grid.cs:19-23 | A new grid is a fresh 20 x 10 array of empty background cells. |
| Grids.Grid.InitializeGrid | BlazorTetris/BlazorTetris/Tetris/Grid.cs:29-42 | Every cell becomes unfilled with the background colour. |
| Grids.Grid.Get | BlazorTetris/BlazorTetris/Tetris/Grid.cs:48-51 | For indices on the board, the indexer returns the stored cell. |
| Rules.Delta | BlazorTetris/BlazorTetris/Tetris/Board.cs:104-114 | The switch on the direction name: each step moves at most one square along one axis, and any name other than the four moves ("rotation" among them) is checked in place. |
| Rules.DeltaTable | BlazorTetris/BlazorTetris/Tetris/Board.cs:104-114 | "left", "right", "down", "up" and "rotation" give the offsets (-1,0), (1,0), (0,1), (0,-1) and (0,0). |
| Rules.FitsFromIff | BlazorTetris/BlazorTetris/Tetris/Board.cs:117-136 | The row-by-row scan from square (r, c) passes iff every later square of the shape fits. |
| Rules.FitsIffLegal | BlazorTetris/BlazorTetris/Tetris/Board.cs:117-136 | The scan passes iff every square of the shape lands on the board on an unfilled cell. |
| Rules.FitsInBounds | BlazorTetris/BlazorTetris/Tetris/Board.cs:126-128 | A placement that passes the test lies within the board. |
| Rules.AnchorAboveBottom | BlazorTetris/BlazorTetris/Tetris/Board.cs:149-152 | A non-empty shape within the board has its anchor row above row 20, so the hard drop is bounded. |
| Rules.DropRow | BlazorTetris/BlazorTetris/Tetris/Board.cs:149-152 | The row where the hard-drop loop stops: keep going down while the next row fits. It is never above the start. |
| Rules.DropRowSpec | BlazorTetris/BlazorTetris/Tetris/Board.cs:149-152 | The hard-drop row is at or below the start. Every row passed on the way fits. The next row does not fit. |
| Rules.DropRowStep | BlazorTetris/BlazorTetris/Tetris/Board.cs:149-152 | One step of the drop loop: if the next row fits, the landing row is unchanged and on the board; otherwise the drop stops here. |
| Rules.DropRestsOnSomething | BlazorTetris/BlazorTetris/Tetris/Board.cs:149-152 | A dropped piece rests on the floor or on a filled cell directly under one of its squares. |
| Rules.Merge | BlazorTetris/BlazorTetris/Tetris/Board.cs:155-168 | The field after the merge, as a 20 x 10 value: cells under a square of the piece become filled in its colour. |
| Rules.MergeWritesSquares | BlazorTetris/BlazorTetris/Tetris/Board.cs:155-168 | Merging fills each square of the piece with the piece's colour and leaves every other cell as it was. |
| Rules.CountFilled | BlazorTetris/BlazorTetris/Tetris/Board.cs:214-221 | The number of filled cells in a row, at most the row's width. |
| Rules.CountFilledAll | BlazorTetris/BlazorTetris/Tetris/Board.cs:214-223 | A row's count of filled cells equals its width iff every cell is filled. |
| Rules.CountFilledNone | BlazorTetris/BlazorTetris/Tetris/Board.cs:214-221 | A row with no filled cell counts zero. |
| Rules.Collapse | BlazorTetris/BlazorTetris/Tetris/Board.cs:208-244 | The reference result of the clearing pass: the rows that are not full, in order, under one empty row per full row. The height is kept. |
| Rules.KeptPlusFull | BlazorTetris/BlazorTetris/Tetris/Board.cs:208-248 | Kept rows plus full rows account for every row. |
| Rules.CollapseShape | BlazorTetris/BlazorTetris/Tetris/Board.cs:208-248 | After clearing, the field has the same height and width and no row is full. |
| Rules.KeptRowsFrom | BlazorTetris/BlazorTetris/Tetris/Board.cs:208-248 | Every row that survives clearing is a row of the original field. |
| Rules.CollapseStep | BlazorTetris/BlazorTetris/Tetris/Board.cs:212-243 | Clearing a field with one more row at the bottom: a full row becomes an empty row on top; any other row stays at the bottom. |
| Rules.ClearAt | BlazorTetris/BlazorTetris/Tetris/Board.cs:224-236 | Clearing row i empties row 0. Rows above i move down by one. Rows below i are unchanged. |
| Rules.ClearAtRemovesTen | BlazorTetris/BlazorTetris/Tetris/Board.cs:224-236 | Clearing a full row removes exactly ten filled cells. |
| Rules.ScanClears | BlazorTetris/BlazorTetris/Tetris/Board.cs:223-242 | Clearing a full row that the scan meets extends the cleared prefix by that row and counts one more line. |
| Rules.ScanKeeps | BlazorTetris/BlazorTetris/Tetris/Board.cs:212-244 | Passing a row that is not full extends the cleared prefix by that row. |
| Rules.ScanFull | BlazorTetris/BlazorTetris/Tetris/Board.cs:223-242 | A full row met by the scan was not yet looked at. Clearing it extends the cleared prefix, counts one more line and strictly lowers the filled-cell count, so re-checking the row terminates. |
| Rules.ScanNotFull | BlazorTetris/BlazorTetris/Tetris/Board.cs:212-244 | A row that is not full, whether new or re-checked, extends the cleared prefix with the line count unchanged. |
| Rules.ScanDone | BlazorTetris/BlazorTetris/Tetris/Board.cs:212-244 | Once the cursor has passed every row, the whole field is collapsed and every full row is counted. |
| Rules.Points | BlazorTetris/BlazorTetris/Tetris/Board.cs:186-200 | Points are never negative and are zero exactly when no line is cleared. |
| Rules.PointsIncrease | BlazorTetris/BlazorTetris/Tetris/Board.cs:186-200 | Clearing more lines at once earns strictly more points. |
| Boards.Board.constructor | BlazorTetris/BlazorTetris/Tetris/Board.cs:28-31 | A new board has an empty grid, score 0, no game over, and a spawn piece chosen by the draw. |
| Boards.Board.SpawnPiece | BlazorTetris/BlazorTetris/Tetris/Board.cs:37-42 | A fresh spawn piece replaces the falling one iff cell (0, 5) is free; otherwise nothing changes. |
| Boards.Board.TopRowOccupied | BlazorTetris/BlazorTetris/Tetris/Board.cs:48-53 | True iff some cell of row 0 is filled. |
| Boards.Board.GetCell | BlazorTetris/BlazorTetris/Tetris/Board.cs:60-95 | A cell under a square of the falling piece is drawn filled in the piece's colour; every other cell is the settled one. |
| Boards.Board.CanPlacePiece | BlazorTetris/BlazorTetris/Tetris/Board.cs:102-137 | True iff every square of the piece, shifted by the direction's offset, lands on the board on an unfilled cell. |
| Boards.Board.ScoreLines | BlazorTetris/BlazorTetris/Tetris/Board.cs:186-200 | The score grows by the points for the number of lines. |
| Boards.Board.CountRow | BlazorTetris/BlazorTetris/Tetris/Board.cs:214-221 | The number of filled cells in the row. |
| Boards.Board.EmptyRowAt | BlazorTetris/BlazorTetris/Tetris/Board.cs:226-227 | The row becomes empty. Nothing else changes. |
| Boards.Board.CopyRowDown | BlazorTetris/BlazorTetris/Tetris/Board.cs:231-232 | Row r becomes a copy of row r-1. Nothing else changes. |
| Boards.Board.ClearRow | BlazorTetris/BlazorTetris/Tetris/Board.cs:224-236 | Clears a full row: the field becomes `ClearAt` of the old field at that row. |
| Boards.Board.ClearFullRows | BlazorTetris/BlazorTetris/Tetris/Board.cs:210-244 | The scan leaves the field with every full row removed and empty rows added on top, and counts the full rows. |
| Boards.Board.ScanRow | BlazorTetris/BlazorTetris/Tetris/Board.cs:214-243 | One pass of the scan's loop body: a full row under the cursor is cleared, which collapses one more row, counts one more line and lowers the filled-cell total. Any other row leaves the field unchanged and the cursor moves on. |
| Boards.Board.RemoveRow | BlazorTetris/BlazorTetris/Tetris/Board.cs:208-248 | Full rows are removed (Collapse), and the score grows by the points for their number. |
| Boards.Board.CanMoveDown | BlazorTetris/BlazorTetris/Tetris/Board.cs:149 | The hard-drop loop's test: whether the piece fits one row lower. |
| Boards.Board.DropPiece | BlazorTetris/BlazorTetris/Tetris/Board.cs:149-152 | The piece moves down to the hard-drop row of the unchanged field. It only moves down, and it fits wherever it ends after moving. |
| Boards.Board.HardDrop | BlazorTetris/BlazorTetris/Tetris/Board.cs:149-152 | The falling piece lands on its hard-drop row, with shape and column unchanged. The board invariant is kept. |
| Boards.Board.MergePiece | BlazorTetris/BlazorTetris/Tetris/Board.cs:155-168 | The field becomes the old field with the piece's squares filled in its colour. |
| Boards.Board.LockPiece | BlazorTetris/BlazorTetris/Tetris/Board.cs:149-171 | Drop, merge and clear: the field is Collapse(Merge(old field, piece at its drop row)), and the score grows by the points for the cleared rows. |
| Boards.Board.EndOrSpawn | BlazorTetris/BlazorTetris/Tetris/Board.cs:174-179 | A filled top row sets game over and keeps the piece; otherwise a fresh spawn piece comes in. |
| Boards.Board.PlacePiece | BlazorTetris/BlazorTetris/Tetris/Board.cs:146-180 | The whole lock step: drop row, the merged and collapsed field, and the score gain. The game-over flag becomes its old value or-ed with "the top row is filled"; it is never reset. A fresh piece spawns when the top row is not filled. The board invariant is kept. |
| Moves.Movement.constructor | BlazorTetris/BlazorTetris/Tetris/Movement.cs:20-23 | The helper acts on the given board. |
| Moves.Movement.Rotate | BlazorTetris/BlazorTetris/Tetris/Movement.cs:71-85 | The turned shape replaces the piece's shape iff it fits at the same position. The position, grid and board fields are unchanged. |
| Moves.Movement.MoveLeft | BlazorTetris/BlazorTetris/Tetris/Movement.cs:90-94 | The piece moves one column left iff it fits there; otherwise nothing changes. A moved piece is legal. |
| Moves.Movement.MoveRight | BlazorTetris/BlazorTetris/Tetris/Movement.cs:99-103 | The piece moves one column right iff it fits there; otherwise nothing changes. |
| Moves.Movement.MoveDown | BlazorTetris/BlazorTetris/Tetris/Movement.cs:108-112 | The piece moves one row down iff it fits there; otherwise nothing changes. |
| Moves.Movement.MoveUp | BlazorTetris/BlazorTetris/Tetris/Movement.cs:117-121 | The piece moves one row up iff it fits there; otherwise nothing changes. |
| Scores.Insert | BlazorTetris/BlazorTetris/Components/Tetris/MemoryScoreService.cs:14-16 | One step of the stable sort: the entry goes after every entry it does not outrank, so the list grows by one. |
| Scores.RankSort | BlazorTetris/BlazorTetris/Components/Tetris/MemoryScoreService.cs:14-16 | OrderByDescending(Points).ThenByDescending(WhenUtc) as an insertion sort of the stored list; the length is kept. |
| Scores.InsertCount | BlazorTetris/BlazorTetris/Components/Tetris/MemoryScoreService.cs:14-16 | Inserting an entry into the sorted list adds exactly that entry. |
| Scores.InsertRanked | BlazorTetris/BlazorTetris/Components/Tetris/MemoryScoreService.cs:14-16 | Inserting into a list ordered by points, then time (both descending), keeps it ordered. |
| Scores.InsertTied | BlazorTetris/BlazorTetris/Components/Tetris/MemoryScoreService.cs:14-16 | Inserting appends the entry after the entries it ties with on both keys, and leaves other tie groups alone. |
| Scores.RankSortSpec | BlazorTetris/BlazorTetris/Components/Tetris/MemoryScoreService.cs:14-16 | OrderByDescending(Points).ThenByDescending(WhenUtc) yields an ordered permutation of the stored entries. |
| Scores.RankSortStable | BlazorTetris/BlazorTetris/Components/Tetris/MemoryScoreService.cs:14-16 | The ordering is stable: entries tied on both keys keep their insertion order. |
| Scores.TiedPrefix | BlazorTetris/BlazorTetris/Components/Tetris/MemoryScoreService.cs:17 | Taking a prefix keeps each tie group as a prefix of the original group. |
| Scores.PrefixBest | BlazorTetris/BlazorTetris/Components/Tetris/MemoryScoreService.cs:17 | `Take(n)` of an ordered list is ordered and drawn from the list, and no entry left out outranks one kept. |
| Scores.TopSpec | BlazorTetris/BlazorTetris/Components/Tetris/MemoryScoreService.cs:14-17 | The first n entries of the sort are ordered, drawn from the store, best-first (no omitted entry outranks a kept one), and tie lists keep the store's order. |
| Scores.MemoryScoreService.constructor | BlazorTetris/BlazorTetris/Components/Tetris/MemoryScoreService.cs:7 | A new service holds no entries. |
| Scores.MemoryScoreService.GetTop | BlazorTetris/BlazorTetris/Components/Tetris/MemoryScoreService.cs:10-22 | The query returns min(take, count) entries, none when take <= 0, with default take 10. The result is ordered and drawn from the store, omits no entry that outranks a listed one, and keeps insertion order among exact ties. |
| Scores.MemoryScoreService.Add | BlazorTetris/BlazorTetris/Components/Tetris/MemoryScoreService.cs:24-28 | The entry is appended to the stored list. |
| Scores.MemoryScoreService.Clear | BlazorTetris/BlazorTetris/Components/Tetris/MemoryScoreService.cs:30-34 | The store becomes empty, and every later query returns nothing. |

## Left out

- Random numbers: `CreateRandomPiece` and the board's spawns take the random draw as a parameter. The uniform distribution of `Random.Next(0, 7)` is not modelled; `Factory.KindAtOneToOne` shows each kind has exactly one draw.
- Async, `Task` results and the `lock` in `MemoryScoreService` are not modelled; each call is one atomic step.
- `ScoreEntry.WhenUtc`, a `DateTimeOffset`, is an integer timestamp. Only its order matters to the query.
- `ScoreEntry` is a mutable class with public setters, and the store keeps references to the entries. The model uses an immutable value instead. So it cannot show an entry edited after `AddAsync` changing what later `GetTopAsync` calls return. The defaults `Name = "Player"` and `WhenUtc = DateTimeOffset.UtcNow` belong to whoever builds an entry; the model takes every field as given.
- The score service interface, the Razor components, the game loop timer and keyboard handling are not part of this model.
- Colours are opaque strings. `Cell` is a value (it is a C# struct), so the merge's in-place field writes are whole-cell writes.
- Boards.Board.ScoreLines: the score is an unbounded integer. The 32-bit overflow of `score += gained` after very many lines is not modelled.
- Boards.Board.constructor: the first spawn is created directly. The spawn cell of a fresh grid is always free, so `SpawnPiece`'s check would always pass.
- Boards.Board.Valid: the board invariant requires a falling piece to exist. The source starts with a null piece that the constructor replaces at once, and the model has no null state.
- Factory.Create: `CreateT` ... `CreateZ` are one method over the kind. Each shape literal is `Factory.ShapeOf`.
- Shapes.Rotate: `RotatePiece` fills a new array in a loop; the model gives the resulting matrix as a function. No array is shared or updated in place.
- Boards.Board.ClearFullRows: the source's `row--` re-check is modelled by leaving the row index in place after a clear. The behaviour is the same.
- The drop, merge, clear and end-of-lock steps of `PlacePiece` are separate methods (`CanMoveDown`, `ScanRow`, `DropPiece`, `HardDrop`, `MergePiece`, `LockPiece`, `EndOrSpawn`, `CountRow`, `EmptyRowAt`, `CopyRowDown`, `ClearRow`). They run the same statements in the same order.
- Boards.Board.MergePiece: the merge requires the piece to lie on the board (the board invariant). The source would throw an index error otherwise, which no reachable state triggers.
- Boards.Board.GetCell: requires an on-board (row, col), as the UI's loops supply. The source would throw on other indices.
- Grids.Grid.Get: requires on-board indices, as the indexer's own documentation assumes.
