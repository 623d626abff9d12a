# Minesweeper board engine

A Dafny model of the board engine of a small raylib minesweeper game
(`main.c`), with proofs of its properties.

The board is a flat, row-major array of cells. Each cell has a `value` (the
sentinel `MINE = -1`, or the number of adjacent mines), a `flagged` bit and a
`revealed` bit. The cell at column `x`, row `y` sits at index
`y * cols + x`. The game has five operations on the board:

- **Generation** picks the mine positions by rejection sampling over
  `rand()`. It writes `MINE` into each one and adds one to every in-bounds,
  non-mine neighbour of each mine.
- **Reveal** (left click) reveals one cell. It does nothing if the cell is
  already revealed or is flagged.
- **Flag toggle** (right click or `M`) flips the flag of an unrevealed cell.
  It returns the change to apply to the "mines left" counter.
- **Zero flood fill** runs after revealing a zero. It walks an explicit
  stack of capacity `rows * cols`. It reveals every unflagged neighbour of
  each popped cell and pushes the neighbours that were hidden zeros.
- **Win check** scans the grid for a non-mine cell that is still unrevealed.

In the model:

- The board is a `seq<Cell>` of length `rows * cols` (module `Board`).
- Every operation returns a new board instead of writing the global array.
- The compile-time `ROWS`, `COLUMNS` and `MINE_COUNT` become the parameters
  `Grid(rows, cols)` and `mineCount`.
- The random source becomes a caller-supplied sequence of `Draw(ry, rx)`
  pairs of raw `rand()` results. The proposed cell is
  `(rx % cols, ry % rows)`, consumed in the game's order (row first).
- The neighbour loops visit the eight offsets with the row offset outer and
  the column offset inner, skipping the centre and any off-grid position.
  `Board.Neighbours` lists them in that same order.

Three points where the model follows the code rather than its comments or
its callers:

- **Flag toggle signs.** The code returns -1 when the cell is now flagged
  and +1 when it is now unflagged, and the caller does
  `mines_left += delta`. The doc comment above the function states the
  opposite signs.
- **Flagged origin.** The flood fill sets `revealed` on its origin without
  looking at the flag. Flag/reveal exclusion is therefore preserved only
  when the origin is not flagged. The game's only caller passes a cell that
  was just revealed, so it is never flagged there.
- **Loose win condition.** The win check ignores flags, and ignores whether
  mine cells are revealed.

## Model

| member | source | states |
|---|---|---|
| Board.IndexInjective | main.c:78 | distinct in-bounds positions occupy distinct slots of the flat `rows*cols` array, so writing one cell never disturbs another |
| Board.EmptyBoard | main.c:78 | the board before generation has one cell per square, each with value 0, unflagged and unrevealed |
| Board.Neighbours | main.c:393-402 | the visited neighbours are exactly the in-bounds squares adjacent to the centre, at most eight, each visited once |
| Actions.RevealCell | main.c:454-461 | on a revealed or flagged cell: no result and an unchanged board; otherwise only that cell becomes revealed, keeping its value, and is returned; the flag count and flag/reveal exclusion are kept |
| Actions.RevealTwice | main.c:454-461 | revealing the same cell a second time returns no cell and leaves the board unchanged |
| Actions.FlagCell | main.c:469-476 | a revealed cell gives 0 and no change; otherwise only the flag flips, the result is -1 exactly when the cell is now flagged, and the result equals the drop in the number of flagged cells |
| Actions.FlagTwice | main.c:469-476 | two consecutive toggles give deltas that sum to zero and restore the original board |
| Win.CheckGameWon | main.c:413-423 | returns true exactly when every in-bounds cell whose value is not MINE is revealed |
| Win.WinIgnoresFlags | main.c:413-423 | two boards that differ only in flags agree on whether the game is won |
| Generate.Candidate | main.c:374-375 | whatever non-negative values `rand()` returns, the proposed row and column lie on the grid |
| Generate.FirstDistinctSnoc | main.c:376-386 | a new candidate is appended to the chosen mines exactly when no earlier choice equals it |
| Generate.FirstDistinctPrefix | main.c:371-387 | the mines chosen from a prefix of the draws are a prefix of those chosen from all of them |
| Generate.SampleMines | main.c:371-387 | succeeds exactly when the draws propose at least `mineCount` distinct cells; the result is the first `mineCount` distinct proposals in draw order, pairwise distinct and in bounds |
| Generate.IncrementAround | main.c:393-407 | adds one to every in-bounds neighbour of the mine that does not hold MINE, and changes nothing else |
| Generate.MarkStep | main.c:390-407 | writing MINE into a new mine and counting it into its neighbours keeps the invariant "MINE exactly at the mines so far, every other cell counts its neighbours among them", even when a later mine was counted into earlier |
| Generate.MarkMines | main.c:389-409 | from the all-zero board: MINE exactly at the given positions, as many mines as positions, every other cell holds its number of mine neighbours, all cells hidden |
| Generate.InitGameData | main.c:370-410 | exactly `mineCount` cells hold MINE, at the first distinct proposals; every other cell equals its number of mine neighbours and so lies in 0..8; nothing is flagged or revealed |
| Expand.VisitOne | main.c:343-349 | visiting one neighbour pushes it exactly when it is an unrevealed, unflagged zero, and reveals it exactly when it is unflagged |
| Expand.VisitNeighbours | main.c:334-351 | after the neighbour loop, exactly the unflagged neighbours are revealed, exactly the hidden zero neighbours are pushed (once each), and every push adds a newly revealed cell |
| Expand.StepBound | main.c:327-345 | after each pop, the stack holds at most one entry more than the number of pushes so far, and every push paid for a newly revealed cell, so the stack never exceeds `rows*cols` |
| Expand.StepPushes | main.c:344-346 | a cell is pushed only while hidden, so no cell is pushed twice and the origin is never pushed |
| Expand.StepClosure | main.c:330-352 | each popped cell has all of its unflagged neighbours revealed, and every hidden zero revealed so far is popped or still on the stack |
| Expand.StepKeepsInv | main.c:330-352 | one pop-and-visit iteration preserves the whole flood-fill invariant and does not decrease the number of revealed cells |
| Expand.FloodLoop | main.c:326-352 | the loop ends with an empty stack and the invariant, every popped cell is the origin or was pushed, and the stack never held more than `rows*cols` entries nor more than the pushes plus the origin |
| Expand.ZeroPathStaysIn | main.c:330-352 | a set of cells that contains the origin and is closed under hidden-zero steps contains the end of every hidden-zero chain from the origin |
| Expand.ExpandZeros | main.c:326-353 | only `revealed` changes, and only from false to true; no flagged cell other than the origin is revealed; every cell reachable from the origin through hidden zeros is revealed together with its unflagged neighbours; every newly revealed cell is such a neighbour; the pushed cells are exactly the hidden zeros other than the origin that the fill revealed, each pushed once; the stack peak is at most one more than the number of pushes and at most `rows*cols` |

## Left out

- The event loop, screen and game-state switching, the timer and all drawing (main.c:99-269, main.c:287-324, main.c:355-368, main.c:425-452). These are I/O glue over the raylib library.
- Mouse-to-grid translation (main.c:273-285). It is floating-point arithmetic over raylib input.
- `srand(time(NULL))` and the distribution of `rand()`. Draws are an input sequence, and the values are not claimed to be uniform.
- The global `mines_left` counter. Only the delta the flag toggle returns is modelled, and `Actions.FlagCell` relates it to the number of flagged cells.
- Generate.SampleMines: where the game would keep calling `rand()` for ever, the model returns None once the supplied draws run out. Termination of the source loop depends on the random source.
- Generate.InitGameData: returns None in the same case. It does not model generating onto a board that is not all zero, because the game generates only once, onto the zero-initialised global array.
- 32-bit `int` overflow. Cell values stay within -1..8, and indices stay below `rows*cols`, which the source sizes as a static array.
- The `index >= -1` half of the stack bound. The model's stack is a sequence whose length is never negative.
