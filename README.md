# Minesweeper board engine

A Dafny model of the board engine inside `js/main.js`, a browser
minesweeper. The script keeps each cell's state in DOM `dataset`
attributes, the difficulty in a script variable and the flag counter in
the page's text. The model lifts that state into a class,
`Game.Minesweeper`, which holds:

- the chosen difficulty;
- the preset dimensions;
- two flat arrays in the grid's row-major child order: `kind` (mine,
  number or empty) and `status` (closed, flagged or opened);
- the flag counter that the page shows.

There is one method per engine function of the script, each proved
against specification functions in modules `Board` and `Presets`:

- `Init`, `AddMines` and `AddNums` build the board;
- `SurroundingMines` counts the mines around a cell;
- `OpenCell`, `GameOver` and `Flood` reveal cells;
- `FlagCell` toggles a flag;
- `CheckWin` runs the win test;
- `ChangeDifficulty` selects the next preset.

Some of these methods hand part of their body to a helper method, for
example one loop of a loop nest. The helpers are `FillGrid`,
`ScanAround`, `RowMines`, `OpenClosed` and the `Flood*` methods.

The preset table and the difficulty rotation are in module `Presets`.

The class invariant `Valid()` says that:

- the board has the preset's shape;
- every non-mine cell shows the number of mines around it;
- the board has exactly `mines` mines;
- the flag counter plus the flags on the board equal `mines`.

Every operation keeps this invariant. `Flood` is a recursive method. It
terminates because each call either starts on a closed cell, or is a
nested call whose start cell was opened just before the call. Its
`decreases` is lexicographic, in three parts:

1. the number of closed cells;
2. 0 if the start cell is closed, 1 if not;
3. a rank that orders `Flood` above its helpers: `FloodBorder`, then
   `FloodBorderRow`, then `FloodOrthogonal` and `FloodBorderCell`.

A call from the orthogonal loop comes right after its start cell was
opened, so the first part is smaller. A call from the eight-neighbour
pass starts on a closed cell. If the outer start cell was closed, it has
been opened since, so the first part is smaller. If it was not, the
first part has not grown and the second part drops from 1 to 0. Calls
between `Flood` and its helpers keep the first two parts and lower the
rank.

Files: `wrappers.dfy` (Option), `presets.dfy`, `board.dfy` (specification
functions and lemmas), `game.dfy` (the class).

## Model

| member | source | states |
|---|---|---|
| Presets.Mode | js/main.js:2-6 | Every preset has at least one mine and at least one safe cell (0 < mines < rows*cols), and a non-empty row. |
| Presets.DifficultyCycle | js/main.js:308-317 | With a difficulty already set, three presses of the button come back to it. Each press changes the difficulty, and with it the preset dimensions. The press itself is the function `Presets.NextDifficulty`: easy → medium, medium → hard, anything else → easy. |
| Presets.FirstPress | js/main.js:308-317 | When no difficulty is set yet, the button selects easy. A new game built in that state uses medium (line 76, the function `Presets.Chosen`). The first half is the else branch of lines 313-315 on an unset difficulty. The page never reaches that state at a press, because the `init()` at line 67 sets medium first, and so does the model's constructor. |
| Game.Minesweeper.Init | js/main.js:71-106 | Builds the board for the current difficulty, or for medium when none is set. Afterwards: fresh arrays; every cell closed; the flag counter is `mines`; the board is the numbered mine placement for the given shuffle; `Valid()` holds. |
| Game.Minesweeper.constructor | js/main.js:67-106 | The page's first `init()`: a medium board, with the same guarantees as `Init`. |
| Game.Minesweeper.ChangeDifficulty | js/main.js:308-317 | Moves the difficulty one step (easy → medium → hard → easy, unset → easy), then rebuilds the board as `Init` does. |
| Game.Minesweeper.FillGrid | js/main.js:102-103 | The two calls at the end of init. On an all-empty grid, the result is the numbered placement for the shuffle; it is consistent and has exactly `mines` mines. |
| Board.NewBoard | js/main.js:102-103 | For every permutation, placing m mines and then numbering gives a consistent board with exactly m mines. |
| Game.Minesweeper.AddMines | js/main.js:123-134 | On an all-empty board (as init leaves it), puts a mine on the cells at the first `mines` indices of the shuffled list and changes nothing else. |
| Board.PlaceMinesCount | js/main.js:123-134 | For every permutation of 0..n-1 and every m <= n, the placement holds only mines and empty cells, and exactly m mines on distinct cells. The placement is the function `Board.PlaceMines`: a mine at each of the first m shuffled indices, every other cell empty. |
| Board.PlaceMinesStep | js/main.js:131-133 | Each iteration of the placement loop adds one mine, at the next shuffled index. |
| Game.Minesweeper.AddNums | js/main.js:136-144 | Numbers the board in place, cell by cell. The result: each non-mine cell holds Num(n) when n > 0 mines are around it and stays Empty when none are; mines are unchanged. That result is the function `Board.Numbered`, which applies `Board.NumberAt` to every cell. |
| Board.NumberingAdvance | js/main.js:137-143 | Writing cell p's number, once the cells before p are numbered, extends the numbered part by one cell and leaves the rest as it was. |
| Board.NumberedUpToAll | js/main.js:137-143 | When the walk has numbered every cell, the board is exactly the numbered board. |
| Board.SameMinesSameCounts | js/main.js:137-143 | A neighbour count depends only on where the mines are. So numbering earlier cells in place does not change the counts made for later ones. |
| Board.NumberingStep | js/main.js:137-143 | Numbering cell p of the list: the cell at row p/cols, column p%cols is that cell, it is still a mine or empty, and the number written is the one its own count gives. |
| Board.NumberedIsConsistent | js/main.js:136-164 | A numbered board has its mines in the same places, the same number of mines, and every cell showing its mine count. |
| Board.ConsistentNumbers | js/main.js:136-164 | On a numbered board, a Num(n) cell has 1 <= n <= 8 and n equals its count of mines around it; an Empty cell has no mine around it. |
| Board.MinesAround | js/main.js:154-163 | The number of in-bounds mine cells in the 3x3 block around a cell, excluding the cell itself, is at most 8. |
| Board.WindowMembers | js/main.js:154-156 | The scanned neighbourhood is exactly the 3x3 block around (r, c) with the centre removed. |
| Board.Idx | js/main.js:88-98 | The grid is built row by row. Cell (r, c) is child r*cols+c, and that index gives back r and c. |
| Board.CellOfIdx | js/main.js:88-98 | Every child index belongs to the in-bounds cell (p / cols, p % cols). |
| Game.Minesweeper.SurroundingMines | js/main.js:146-164 | Returns None for a mine cell. Otherwise it returns the number of in-bounds mine neighbours of the cell, which is at most 8. |
| Game.Minesweeper.ScanAround | js/main.js:152-163 | The two nested loops give exactly the number of in-bounds mine cells around (r, c). |
| Game.Minesweeper.RowMines | js/main.js:155-161 | One pass of the inner loop (row i) adds exactly the mines of row i in the block, with (r, c) skipped and cells off the grid ignored. |
| Game.Minesweeper.OpenCell | js/main.js:166-190 | A flagged or opened cell: nothing changes and no popup appears. On a closed cell: a mine opens every closed cell and keeps the flags, and reports the loss; a numbered cell opens only itself; an empty cell is flooded. In all three cases, the win popup appears exactly when the win count holds. `Valid()` is kept. |
| Game.Minesweeper.OpenClosed | js/main.js:170-186 | The three branches on a closed cell. Each changes cells only from closed to opened. The loss is reported exactly when the cell is a mine. |
| Game.Minesweeper.GameOver | js/main.js:268-275 | Opens every closed cell. Flagged and opened cells are left as they were. |
| Board.AllOpenedCounts | js/main.js:268-275 | After gameOver: no cell is closed; the flags are the same as before; the number of opened cells is the number of cells minus the number of flags; every change was closed → opened. Here gameOver's result is the function `Board.AllOpened`, which opens each closed cell and keeps every other status. |
| Board.AllOpenedTwice | js/main.js:173-179 | A second gameOver changes nothing, so calling it once per cell is the same as calling it once. |
| Game.Minesweeper.Flood | js/main.js:207-256 | Only changes closed → opened and never opens a mine. The start cell, and every cell flood was called on during the run, ends opened with no closed non-mine cell among its 8 neighbours. Every cell that changed is one of those cells or a neighbour of one. Every empty cell that changed is one of those cells. Together these are the predicate `Board.FloodPost`. |
| Board.FloodSpreads | js/main.js:207-256 | Any empty cell that a run of flood opens ends opened with no closed non-mine cell among its 8 neighbours. So flood keeps spreading through empty cells. |
| Board.FloodAfterOpen | js/main.js:227-229 | Opening a closed empty neighbour and then calling flood on it has the same guarantees as a flood from that neighbour on the board before it was opened. |
| Board.EmptyChangesTrans | js/main.js:223-255 | When two runs follow one another, every empty cell changed by either lies in the union of the cells they were called on. |
| Game.Minesweeper.FloodOrthogonal | js/main.js:216-232 | The four orthogonal steps, in the order of the `directions` list: up, down, left, right (the function `Board.Orthogonal`). Afterwards no in-bounds empty orthogonal neighbour is closed. Each such neighbour that was closed on entry is among the cells flood was called on. The run's invariants hold throughout. |
| Game.Minesweeper.FloodBorder | js/main.js:236-255 | The pass over the 3x3 block. Afterwards no non-mine neighbour of the start cell is closed. |
| Game.Minesweeper.FloodBorderRow | js/main.js:237-254 | One row of that pass. It extends the settled part of the block by the whole row. |
| Game.Minesweeper.FloodBorderCell | js/main.js:240-253 | One neighbour in that pass. Afterwards the neighbour is not closed unless it is a mine. If it is empty and was closed on entry, it is among the cells flood was called on. |
| Board.OpeningCounts | js/main.js:226-229 | Opening cells never adds a closed cell and keeps the flag count. Opening at least one cell strictly lowers the count of closed cells, which is the flood's termination measure. |
| Board.OpensKeepBudget | js/main.js:166-190 | Revealing cells keeps the flag counter plus the flags on the board equal to `mines`. |
| Game.Minesweeper.FlagCell | js/main.js:192-205 | A flagged cell becomes closed and the counter goes up by one. A closed cell becomes flagged while the counter is positive, and the counter goes down by one. Anything else changes nothing. `Valid()` is kept, so 0 <= counter <= mines. |
| Board.ToggleKeepsBudget | js/main.js:192-205 | Every toggle keeps the counter plus the flags on the board equal to `mines`, so the counter stays within [0, mines]. A toggle is the function `Board.Toggle`, which states the three cases of lines 195-204. |
| Board.ToggleTwice | js/main.js:195-204 | On a closed cell with a positive counter, flagging then unflagging gives back both the cell and the counter. With the counter at 0, the toggle is a no-op. |
| Game.Minesweeper.CheckWin | js/main.js:277-288 | Reports a win exactly when the number of opened cells equals rows*cols - mines. It changes nothing. That test is the predicate `Board.WinCount`. |
| Board.WinMeansCleared | js/main.js:277-288 | While no mine is open, the win count holds exactly when every non-mine cell is opened. |
| Board.MineHitWinTest | js/main.js:172-188 | After a mine hit has opened the board, the win count holds exactly when the flag counter is 0. |
| Game.Minesweeper.Reveal | js/main.js:166-190 | openCell with the win test suppressed on a loss. It never reports both a loss and a win. Otherwise it has the same effects as `OpenCell`. |

## Left out

- DOM creation and styling, `innerText`, CSS classes, popups, the start screen and the event wiring (js/main.js:15-64, 108-121, 290-306). They are rendering. A popup is modelled as the boolean that `OpenCell` returns.
- The timer `startTimer` (js/main.js:258-266). It is asynchronous and timing-based.
- `swing` (js/main.js:320-332). It is a floating-point animation.
- The random shuffle `cellIndices.sort(() => Math.random() - 0.5)` (js/main.js:129). The shuffled index list is an input permutation `perm` of `Init`, `ChangeDifficulty` and the constructor.
- The repeated `gameOver()` call inside the mine loop (js/main.js:173-179). The model calls it once, and `Board.AllOpenedTwice` shows that repeating it changes nothing.
- The `cellsOpened` global set in js/main.js:74. Nothing reads it.
- Clicks whose target is not a cell, such as the gap of the grid container. The methods take an in-bounds (row, col) instead.
- The flag counter lives in the page as text (`flagEl.innerText`) that JavaScript coerces to a number. It is modelled as an `int`. All values stay below 500, so JavaScript numbers are exact here and integer arithmetic is faithful.
- Game.Minesweeper.Flood: the contract fixes the opened cells from below but not from above. It says which changes are allowed, which cells end settled, that every change lies next to a visited cell, and that every empty cell changed was visited. The visited cells need be neither connected to the start cell nor closed on entry, and the visiting order is not fixed. So a result that opens more than flood does can meet the contract. Two examples, each a flood from column 0:
  - A 1×5 row [Empty, Num(1), Mine, Num(1), Empty], all closed. A result that also opens columns 3 and 4, with {(0,0), (0,4)} as the visited cells, meets the contract, although flood opens only columns 0 and 1.
  - A 1×3 row of empty cells with only the middle one opened (reachable by flagging both ends, clicking the middle and unflagging). A result that opens all three, with every cell visited, meets the contract. Flood opens column 0 and skips the opened middle cell, so column 2 stays closed.
- The model follows the code as written, which in three places differs from common minesweeper rules:
  - A mine hit opens every closed cell, not only the mines.
  - A win opens nothing more.
  - There is no Won/Lost state that blocks later clicks or flags.
- There is no check on an invalid configuration, because the presets are fixed. `Presets.Mode` proves that each preset has mines < rows*cols.

## Findings

| source | as written | input that shows it | evidently intended | confidence | as-written member | corrected member |
|---|---|---|---|---|---|---|
| js/main.js:172-188 | After a mine hit, `gameOver` opens every closed cell and `checkWin` still runs. | Any board with all `mines` flags placed (counter 0), then a click on a closed mine. Every unflagged cell is then open, so the opened count is rows*cols - mines, and the win popup shows beside the game-over popup. | A lost game never also reports a win. | high; not executed | Board.MineHitWinTest | Game.Minesweeper.Reveal |
