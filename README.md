# Minesweeper engine on a 10 × 10 board

This project models the game logic of a single-page Minesweeper (the `Home`
component in `app/page.tsx`) and proves properties of that model. The board
has 100 cells, addressed by the row-major index `row * 10 + col`. Each cell
shows `''` while hidden, `'0'` .. `'8'` once revealed, or `'M'` for a mine.
These become `Reveal.Cell` = `Hidden | Revealed(n) | Mine`. A game holds ten
mine positions, which may repeat, and a status: playing, won or lost.

The model has three modules.

- `Grid` covers the board geometry.
  - `GetNeighbors` is the nested-loop neighbour enumeration, proved equal to the
    specification function `Neighbors`.
  - `Neighbors` is in turn proved against an independent definition of
    adjacency, `Adjacent`.
  - `CountMinesAround` is the neighbour list filtered by membership in the mine
    list.
- `Reveal` covers what a click does, as functions over board snapshots.
  - The mine test `MineHit` keeps the index-0 blind spot described below.
  - `WithMines` is the full mine reveal.
  - `AllNonMineCellsRevealed` is the win condition.
  - `Cascaded` is the specification of the flood fill. A cell is uncovered
    exactly when a path of hidden cells leads to it from the clicked cell, and
    every step of that path leaves a cell whose count is 0.
  - `RevealStep`, `WinCheckStep` and `ClickStep` are the three transitions.
  - `GameInvariant` is what holds between clicks.
- `Game` covers the component's state.
  - `Uncover` is the breadth-first flood fill with its queue and visited set,
    working on a copy of the board. It is proved to produce `Cascaded`.
  - `Minesweeper` is a class whose fields are the board (an array of 100
    cells), the mine list and the status. Its methods are the handlers
    `restartGame`, `revealAllMines` and `revealCell`, the win-check effect,
    and the click handler with its `gameStatus == "playing"` guard. Each one
    is proved to perform the matching transition on the snapshot `View()`.

Where the intended behaviour and the code differ, the model follows the code.

- **Mine at index 0.** A mine is meant to be detected on click. The code tests
  `mineIndexes.find(a => a == index)`, which returns the element found, and the
  element 0 is falsy. So a mine at index 0 is never detected, and clicking it
  never loses the game. The reveal shows the cell's neighbour count, may start a
  flood fill, and keeps the status. The win check that follows still ends the
  game as won if that reveal uncovered the last hidden non-mine cell.
  `Reveal.MineHit` models the test as written, and its contract and
  `Reveal.ZeroMineShowsCount` state the consequence.
- **Loss board.** On a loss the code stores a copy of the board with `'M'` at
  the clicked cell, and then `revealAllMines` stores a second copy made from the
  board as it was before the click. The second store wins. The model therefore
  sets the board to `WithMines(old board)`. `Reveal.LossIgnoresClickedWrite`
  shows that this is the same board as keeping the first write.
- **No flags, fixed size.** The board size and mine count are fixed at 10 × 10
  and ten draws. There is no flagging of cells.

## Model

| member | source | states |
|---|---|---|
| Grid.GetNeighbors | app/page.tsx:37-50 | the two clamped nested loops return exactly the cells adjacent to `index` (row and column each within one, not the cell itself), in increasing order, and equal `Neighbors(index)` |
| Grid.ScanRow | app/page.tsx:43-47 | one pass of the inner column loop appends exactly that row's cells of the clamped box, leaving out the centre |
| Grid.NeighborsAreAdjacent | app/page.tsx:37-50 | a cell is in the neighbour list if and only if it is adjacent to `i` on the 10 × 10 board |
| Grid.NeighborsIncreasing | app/page.tsx:42-48 | the neighbour list is strictly increasing, so no cell is listed twice |
| Grid.NeighborCount | app/page.tsx:37-50 | a corner cell has 3 neighbours, any other edge cell 5, an interior cell 8 |
| Grid.Neighbors | app/page.tsx:37-50 | specification of the neighbour list: the cells of the box one row and one column around the cell, clamped to the board, row by row and left to right, without the cell itself |
| Grid.MinesAmong | app/page.tsx:63-65 | filtering by `includes` keeps exactly the entries that are mines, never grows the list, and keeps an increasing list increasing |
| Grid.MinesAmongMultiplicity | app/page.tsx:63-65 | the filter keeps each entry that is a mine as many times as it occurs, and keeps no other entry |
| Grid.CountMinesAround | app/page.tsx:62-66 | the mine count around a cell is at most 8 |
| Grid.CountIsDistinctMines | app/page.tsx:62-66 | the count equals the number of distinct mine positions adjacent to the cell, so a position drawn twice is counted once |
| Grid.CountZeroIff | app/page.tsx:62-66 | a cell shows 0 if and only if no adjacent cell is a mine |
| Grid.CountIgnoresDuplicates | app/page.tsx:19-21 | two mine lists holding the same positions give every cell the same count, however often a position repeats |
| Reveal.FindMine | app/page.tsx:73 | `find` returns a value exactly when `index` is listed, and that value is `index` itself |
| Reveal.MineHit | app/page.tsx:73 | the click's mine test uses the found element as a condition, so it fires if and only if `index` is a listed mine other than 0 |
| Reveal.ZeroMineShowsCount | app/page.tsx:73-96 | revealing (`revealCell`) a hidden mine at index 0 keeps the status and shows the cell's neighbour count |
| Reveal.LossIgnoresClickedWrite | app/page.tsx:73-78 | on a loss, drawing the mines over the pre-click board gives the same board as keeping the click's own `'M'` write |
| Reveal.FreshBoard | app/page.tsx:18 | `Array(100).fill('')`: a board of 100 cells, all hidden; also the board installed by `restartGame` at app/page.tsx:24 |
| Reveal.WithMines | app/page.tsx:52-59 | the board after `revealAllMines`: same length, `'M'` on every listed mine, every other cell unchanged |
| Reveal.AllNonMineCellsRevealed | app/page.tsx:124-126 | the win condition: every cell is revealed or is listed as a mine |
| Reveal.WithMinesIdempotent | app/page.tsx:52-59 | showing all mines a second time changes nothing |
| Reveal.FreshBoardNotWon | app/page.tsx:121-126 | a freshly hidden board with at most ten mine entries does not meet the win condition |
| Reveal.Cascaded | app/page.tsx:89-113 | specification of the flood fill: a cell shows its count exactly when a path of hidden cells leads to it from the clicked cell, each step leaving a cell with count 0; every other cell keeps its value |
| Reveal.CascadeRevealsStart | app/page.tsx:89-96 | the clicked non-mine cell always ends up showing its neighbour count |
| Reveal.CascadeOnlyRevealsHidden | app/page.tsx:100-111 | the flood fill changes only hidden cells, and each changed cell shows its own neighbour count |
| Reveal.CascadeAvoidsMines | app/page.tsx:100-111 | apart from the clicked cell, no cell the flood fill uncovers is a mine |
| Reveal.CascadeStopsAtNumber | app/page.tsx:93-94 | a click on a cell with a positive count reveals that cell and nothing else |
| Reveal.CascadeClosed | app/page.tsx:100-112 | afterwards, no uncovered cell with count 0 has a hidden neighbour |
| Reveal.ClosedContainsCascade | app/page.tsx:100-112 | any visited set that holds the clicked cell, changes nothing else and leaves no hidden neighbour next to a visited 0 contains every cell the flood fill uncovers |
| Reveal.ExtendCascade | app/page.tsx:102-108 | a hidden neighbour of an uncovered cell with count 0 is uncovered too |
| Reveal.RevealStep | app/page.tsx:69-116 | `revealCell` on a snapshot: no change for a cell that is not hidden; a detected mine shows all mines on the pre-click board and loses; otherwise the flood fill's board with the status unchanged |
| Reveal.WinCheckStep | app/page.tsx:121-138 | the win effect on a snapshot: while playing and once every non-mine cell is revealed, all mines are shown and the game is won; otherwise no change |
| Reveal.ClickStep | app/page.tsx:145 | a click on a snapshot: no change unless playing, otherwise the reveal followed by the win check |
| Reveal.RevealKeepsConsistent | app/page.tsx:69-116 | after any reveal, every revealed count is the true neighbour count of a non-mine cell (or of cell 0), and `'M'` appears only on mines |
| Reveal.RevealIdempotent | app/page.tsx:72 | revealing the same cell twice gives the same board and status as revealing it once |
| Reveal.ClickKeepsInvariant | app/page.tsx:121-145 | clicks preserve the game invariant: consistent cells; a game in play not yet won; a won game with no hidden cell; a finished game showing every mine |
| Reveal.FinishedGameIgnoresClicks | app/page.tsx:145 | once won or lost, a click changes neither board nor status |
| Reveal.ClickWinsIff | app/page.tsx:121-130 | a click wins the game if and only if its reveal does not lose and leaves every non-mine cell revealed |
| Reveal.WithMinesConsistent | app/page.tsx:52-59 | showing all mines keeps every cell consistent with the mine list |
| Game.CopyBoard | app/page.tsx:53 | `[...board]`: a fresh array with the same cells, also used at app/page.tsx:74 and 91 |
| Game.UnvisitedMultiplicity | app/page.tsx:108 | the filter keeps each neighbour not yet visited as many times as it occurs, and keeps no other entry |
| Game.Unvisited | app/page.tsx:108 | the filter keeps exactly the neighbours not yet visited and never grows the list |
| Game.VisitCell | app/page.tsx:102-109 | visiting a dequeued hidden cell writes its count into the copy and, when the count is 0, yields its unvisited neighbours to be queued |
| Game.FloodTurn | app/page.tsx:100-112 | one loop turn keeps the flood-fill invariant and either adds one cell to the visited set or shortens the queue by one |
| Game.Uncover | app/page.tsx:89-113 | the breadth-first flood fill over a copy of the board returns exactly `Cascaded` of the pre-click board |
| Game.Minesweeper.constructor | app/page.tsx:17-21 | the initial state is 100 hidden cells, playing, with the given ten in-range mine positions, and satisfies the game invariant |
| Game.Minesweeper.Restart | app/page.tsx:23-28 | a restart installs a fresh hidden board, playing, and the new mine list, and satisfies the game invariant |
| Game.Minesweeper.RevealAllMines | app/page.tsx:52-59 | the new board is a fresh copy with `'M'` on every listed mine and every other cell unchanged; mines and status are unchanged |
| Game.Minesweeper.RevealCell | app/page.tsx:69-116 | the new board and status are `RevealStep` of the old ones; the mine list is unchanged and the board stays consistent |
| Game.Minesweeper.CheckWin | app/page.tsx:121-138 | the new board and status are `WinCheckStep` of the old ones: won with mines shown exactly when playing and every non-mine cell is revealed |
| Game.Minesweeper.Click | app/page.tsx:145 | a click performs `ClickStep` and keeps the game invariant |

## Left out

- Rendering, the header button, CSS classes and the `DivGenerator` wrapper are left out. They draw the state and do not change it.
- The `toast` notices and `console.log` are left out. They only report.
- The random draw of mine positions (`Math.floor(Math.random() * 100)`, ten times) is not modelled. The mine list is a parameter of the constructor and of `Restart`, required to hold ten positions in 0 .. 99, which is exactly what the draw can produce.
- React's state setters and rendering cycle are left out. Every setter call is an assignment to a field, and the win-check effect is a `CheckWin` call right after each click's reveal. Under the game invariant this is equivalent, because a game in play is never already won between clicks. Interleavings of batched updates are not modelled.
- `revealCell`'s optional `visited` parameter is always a fresh empty set at a click, so its `visited.has(index)` test never fires. The model leaves the test out.
- The `'M'` write to the clicked cell on a loss is overwritten by `revealAllMines`, so it is not modelled as a separate store. `Reveal.LossIgnoresClickedWrite` shows this changes nothing.
- Flagging cells, a configurable board size and a configurable mine count do not exist in this code, so they are not modelled.
- Integer widths are not modelled: every index and count stays between 0 and 100.
