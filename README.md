# Minesweeper grid engine in Dafny

This project models the game engine of the mini-app's Minesweeper component
(`mini-app/components/minesweeper.tsx`) and proves properties of it:

- building a board: mines placed by redrawing random cells until the wanted
  number are distinct, then every safe cell counting the mines around it;
- revealing a cell: the guards, the losing click, the stack-based flood fill
  from a cell with no mine around it, and the win check that follows;
- toggling a flag;
- the win check itself.

The component keeps three pieces of state: the grid, `gameOver` and `won`.
They become the class `Engine.Minesweeper`. The grid is an `array2<Cell>`
that the operations update in place. `gameOver` and `won` are fields.

The project has four modules:

- `Board` (board.dfy) holds the value-level view. A `Grid` is a
  `seq<seq<Cell>>`, and `Snapshot` reads the array into one. It defines the
  neighbour sets and mine counts, and proves the counting lemmas.
- `Generation` (generation.dfy) holds the array algorithms that build a board.
- `Flood` (flood.dfy) holds the flood fill's bookkeeping (stack, cells pushed,
  cells expanded) as a predicate on grid values, with the lemmas that carry
  it from one iteration to the next.
- `Engine` (engine.dfy) holds the class with the player's operations.

The class invariant `Valid()` states four things:

- the board has `mineCount` mines;
- every safe cell shows the number of mines around it, and every mine shows 0;
- a won game is over, with every safe cell revealed;
- a mine is showing exactly when the game has been lost.

The constructor establishes it, and `RevealCell` and `ToggleFlag` preserve it.

Board size and mine count are parameters of the constructor. `NewGame`
builds the component's own 9-by-9 board with 10 mines (`GridSize`,
`NumMines`).

## Model

| member | source | states |
|---|---|---|
| Generation.PlaceMines | mini-app/components/minesweeper.tsx:31-40 | the mines are exactly the distinct cells of the shortest prefix of the draws that names `mines` distinct cells; there are exactly `mines` of them; a draw that lands on a mine is skipped; nothing else in a cell changes |
| Generation.CountAdjacentMines | mini-app/components/minesweeper.tsx:46-56 | the count is the number of mines among the in-bounds cells around (r, c), the cell itself excluded, on the grid the array holds |
| Generation.ScanCountIsScanned | mini-app/components/minesweeper.tsx:47-56 | at every offset the loop's running count equals the number of neighbouring mines at the offsets already visited |
| Generation.ScanCountIsMinesAround | mini-app/components/minesweeper.tsx:46-57 | after the last offset the running count is exactly the number of mines around the cell |
| Generation.ComputeAdjacency | mini-app/components/minesweeper.tsx:42-59 | afterwards every non-mine cell holds the number of mines around it, every mine still holds 0, and only the counts change |
| Generation.Generate | mini-app/components/minesweeper.tsx:21-61 | a fresh n-by-n board: every cell hidden and unflagged, the mines the first `mines` distinct draws, every count correct |
| Generation.PicksLeft | mini-app/components/minesweeper.tsx:33-34 | while fewer than the wanted number of distinct cells are mines, and the draws hold enough distinct cells, another draw is left, so the placement loop never runs past the draws |
| Generation.MinePositionsAre | mini-app/components/minesweeper.tsx:36-38 | a board whose mine marks lie exactly on a set of in-bounds cells has that set as its mines |
| Board.NeighboursAtMostEight | mini-app/components/minesweeper.tsx:47-53 | a cell has at most eight in-bounds neighbours |
| Board.AdjacentAtMostEight | mini-app/components/minesweeper.tsx:43-58 | on a board with correct counts every cell's count lies between 0 and 8 |
| Board.MinesAroundOnlyReadsMines | mini-app/components/minesweeper.tsx:53 | the mine count around a cell depends only on where the mines are, so writing counts does not change it |
| Board.SameLayoutKeepsAdjacency | mini-app/components/minesweeper.tsx:43-58 | changing only revealed and flagged marks keeps the counts correct and the set of mines the same |
| Board.ZeroAdjacentNeighbourIsSafe | mini-app/components/minesweeper.tsx:74-93 | no neighbour of a safe cell whose count is 0 is a mine, so the flood fill never reveals a mine |
| Board.ZeroCellNeighboursSafe | mini-app/components/minesweeper.tsx:78-91 | once some safe cells are uncovered, the neighbours of any revealed zero-count cell are still mine-free |
| Board.UncoversTransitive | mini-app/components/minesweeper.tsx:68-98 | uncovering safe hidden cells in two rounds is uncovering them in one |
| Board.UncoversKeepsLayout | mini-app/components/minesweeper.tsx:68-98 | uncovering keeps every mine and count, and reveals no mine on a board that showed none |
| Board.UncoverStep | mini-app/components/minesweeper.tsx:79-97 | one expansion keeps the board an uncovering of the original; zero cells and surrounded cells stay so; any new change lies around the expanded cell |
| Board.RevealThenFlood | mini-app/components/minesweeper.tsx:68-98 | revealing a zero-count cell and flooding from it leaves a closed flood relative to the board before the click: every uncovered zero-count cell has all its neighbours revealed or flagged, and every uncovered cell is one of them or lies next to one |
| Board.RectSize | mini-app/components/minesweeper.tsx:112-113 | the board has rows × cols cells |
| Board.WinIffRevealedCount | mini-app/components/minesweeper.tsx:111-120 | while no mine is showing, every safe cell is revealed exactly when the revealed cells number n·n minus the mines |
| Flood.FillStart | mini-app/components/minesweeper.tsx:76 | the fill starts from the clicked zero cell alone on the stack |
| Flood.FillStep | mini-app/components/minesweeper.tsx:77-97 | popping a cell, uncovering around it and pushing the uncovered zero cells keeps the invariant: pushed cells are revealed safe zero cells, expanded cells have every neighbour revealed or flagged, every change lies around a pushed cell |
| Flood.ExpandedAreUncoveredZeros | mini-app/components/minesweeper.tsx:78-95 | when an expansion pushes exactly the zero-count cells it uncovers, each pushed cell is a revealed safe zero cell, and the cells ever pushed stay the origin plus exactly the zero-count cells uncovered so far |
| Flood.FillIteration | mini-app/components/minesweeper.tsx:77-97 | one iteration of the loop keeps both the fill's bookkeeping and the match between pushed cells and uncovered zero-count cells |
| Flood.FillEnd | mini-app/components/minesweeper.tsx:77 | when the stack is empty, the origin and every uncovered zero-count cell have all their neighbours revealed or flagged, and every uncovered cell lies next to the origin or to an uncovered zero-count cell |
| Engine.Minesweeper.constructor | mini-app/components/minesweeper.tsx:17-62 | a new game is valid and running, all cells hidden and unflagged, the mines are the first distinct draws |
| Engine.NewGame | mini-app/components/minesweeper.tsx:6-7 | the start-up board is 9 by 9 with 10 mines, valid and running |
| Engine.Minesweeper.RevealCell | mini-app/components/minesweeper.tsx:64-102 | keeps the invariant; after the game is over, or on a revealed or flagged cell, nothing changes; a mine is revealed alone and ends the game as lost; otherwise the cell is revealed, only hidden unflagged safe cells are uncovered, a nonzero count reveals nothing else, a zero count leaves a closed flood (every uncovered zero-count cell surrounded by revealed or flagged cells, every uncovered cell one of them or next to one), and the game is won exactly when every safe cell is revealed |
| Engine.Minesweeper.RevealSafe | mini-app/components/minesweeper.tsx:67-101 | reveals the cell; only hidden, unflagged, safe cells are uncovered; a nonzero count reveals nothing else; a zero count leaves every neighbour revealed or flagged, every uncovered zero-count cell with every neighbour revealed or flagged, and every uncovered cell such a cell or next to one; the game is then won (and over) exactly when every safe cell is revealed |
| Engine.Minesweeper.FloodFill | mini-app/components/minesweeper.tsx:74-98 | only hidden, unflagged, safe cells are uncovered; (r, c) and every zero-count cell it uncovers have all their neighbours revealed or flagged; every uncovered cell lies next to (r, c) or to an uncovered zero-count cell |
| Engine.Minesweeper.Expand | mini-app/components/minesweeper.tsx:78-97 | afterwards every neighbour of the popped cell is revealed or flagged; only hidden, unflagged neighbours change, and only by being revealed; the cells pushed are exactly the cells it uncovered that count zero mines; the hidden cells shrink by at least the number pushed |
| Engine.Minesweeper.ToggleFlag | mini-app/components/minesweeper.tsx:104-109 | keeps the invariant; after the game is over or on a revealed cell nothing changes; otherwise only that cell's flag flips |
| Engine.Minesweeper.ToggleFlagTwice | mini-app/components/minesweeper.tsx:104-109 | toggling the same cell twice restores the board |
| Engine.Minesweeper.CheckWin | mini-app/components/minesweeper.tsx:111-120 | sets `won` and `gameOver` when every safe cell is revealed, and otherwise leaves both as they were |

## Left out

- React state handling is not modelled. `useState`, `setGrid` and the copy made by `grid.map(...)` become in-place updates of one array. Each operation reads the state it writes, so there is no stale-closure behaviour.
- `Math.random` is replaced by the sequence of draws `picks`. The caller supplies it, and it must hold enough distinct in-bounds cells, because otherwise the source's placement loop does not end.
- `renderCell`, the JSX and the click and context-menu handlers (lines 122-176) are presentation. They are not modelled.
- `resetGame` (line 167) is called by the reset button but is not defined in the file. It is not modelled.
- `mini-app/components/leaderboard.tsx` is not part of this model. There is no timer or difficulty level in the source.
- Cell coordinates passed to `RevealCell` and `ToggleFlag` must lie on the board. The source indexes `grid[r][c]` with no check, and its UI only passes on-board cells.
- Integers are unbounded. The counts stay between 0 and 8 (`Board.AdjacentAtMostEight`), so no bound of the source's numbers comes into play.
- Engine.Minesweeper.FloodFill: the contract does not state that the uncovered cells are connected to (r, c) through uncovered zero-count cells. Its clauses would also admit a group of zero-count cells away from (r, c) that surround one another. The order in which cells are popped is not stated either.
- Engine.Minesweeper.RevealSafe: the same connectivity gap, through `FloodClosed`.
- Engine.Minesweeper.RevealCell: the same connectivity gap, through `FloodClosed`.

## Notes

- The count in `Board.WinIffRevealedCount` holds only while no mine is showing. After a losing click a mine is revealed and the count no longer matches. The lemma is therefore stated for boards with no mine showing. Every call of `CheckWin` from `RevealSafe` is on such a board.
- The source's flood fill neither checks for mines when it reveals nor stops at them. `Board.ZeroAdjacentNeighbourIsSafe` shows this is safe: every neighbour of a zero-count safe cell is mine-free.
- `CountAdjacentMines` reads the array. Its ghost parameter `g` is the grid the array holds, and its contract is stated on `g`.
