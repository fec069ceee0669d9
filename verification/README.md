# Tic-tac-toe bitboard engine

This is a Dafny model of the engine behind a browser tic-tac-toe game. The
repository keeps two copies of the engine:

- `js/index.js` is the current one. Its `negaMax` memoises scores in a
  transposition table keyed by the Zobrist `positionKey`.
- `css/js/index.js` is an older copy. It has no table, it tests `isDraw` before
  `isWin` in `negaMax`, and its `undoMove` clears the cell before flipping the side.

Both copies keep the same module-level position:

- two 9-bit occupancy masks, `bitBoard[0]` for O and `bitBoard[1]` for X;
- the side to move, 1 (X) at the start;
- a 32-bit Zobrist key;
- the `winner` flag.

The model makes that position an immutable `State` (`bv9` boards, a `Side`, a
`bv32` key) and threads it through pure functions, along with the table in the
newer copy.

Modules:

- `Bitboard` (`bitboard.dfy`) holds the primitives the two copies share as
  identical code:
  - `isEmpty`, `makeMove`, `hashKey`, `zobristKeys`;
  - the eight `bitMasks`;
  - `isWin` (O's board checked before X's for each mask) and `isDraw`.
- `Lines` (`lines.dfy`) is an independent reference for the masks: the rows,
  columns and diagonals of the row-major 3x3 grid.
- `PositionKey` (`position_key.dfy`) gives the key as a function of the occupancy
  alone. It shows that play from `newGame` keeps the key equal to it, whatever the
  move order.
- `Scores` (`scores.dfy`) holds the `-Infinity` sentinel, `Math.max`, and the
  strict `>` selection of `getBestMove`, stated over the trace of probes a loop makes.
- `Engine` (`engine.dfy`) models `js/index.js`:
  - `undoMove`, the memoised `negaMax` with its loop and store, `getBestMove`;
  - `newGame` and the click-handler move guard.
- `LegacyEngine` (`legacy_engine.dfy`) models `css/js/index.js`:
  - its `undoMove`, the unmemoised `negaMax`, `getBestMove`;
  - `newGame` and its click guard, which first refuses a full board.

The loops over cells 0..8 are recursive functions (`Children`, `Candidates`).
Each returns the position and table the loop leaves behind, and the trace of
cells it explored with the score it saw for each. The `Chain` and `RootChain`
predicates tie every probe of a trace to the child search that produced it: the
cell is empty where its iteration starts, the score is that of `negaMax` after the
move, run on the position and table the previous iteration left, and the next
iteration starts from the undo applied to the position the child search left.

Where the code does not do what a make/undo pair is expected to do, the model
follows the code.

- **The key drifts.** In both copies `makeMove` hashes after flipping the side,
  while `undoMove` hashes after flipping it back. So a make/undo pair leaves the
  key XORed with both constants of the cell, which always differ. The key is not
  restored.
  - Consequence in the newer copy: `negaMax` stores each score under the key as
    its loop left it.
  - The model states exactly this (`Engine.MakeUndoRoundTrip`, `Engine.Explored`).
- **The older undo clears the wrong board.** In `css/js/index.js` `undoMove`
  clears `bitBoard[side]` before flipping `side` back. That is the board of the
  player who did NOT move, and it never held the cell, so the move stays on the
  board.
  - Every `negaMax` of that copy that reaches its loop therefore leaves all nine
    cells taken, and so does every `getBestMove`.
  - `LegacyEngine.NegaMax` and `LegacyEngine.GetBestMove` state this: they restore
    the side, keep disjoint boards disjoint, and, for every search that reaches the
    loop, end on a full board.

## Model

| member | source | states |
|---|---|---|
| Bitboard.BitIsShift | js/index.js:171 | the per-cell mask is `1 << index` |
| Bitboard.IsEmpty | js/index.js:170-172 | `isEmpty(i)` is the test that bit i is clear in `bitBoard[0] \| bitBoard[1]`; `IsEmptyMeansNeitherBoard` states what it means for the cell sets |
| Bitboard.IsEmptyMeansNeitherBoard | js/index.js:170-172 | `isEmpty(i)` holds exactly when neither player's board holds cell i |
| Bitboard.HashKey | js/index.js:184-186 | `hashKey` changes only the key, and XOR-ing the same constant again gives the old key back |
| Bitboard.MakeMove | js/index.js:173-177 | `makeMove` flips the side, adds the cell's bit to the mover's board only, and leaves the other board unchanged |
| Bitboard.MakeMoveKey | js/index.js:173-177 | `makeMove` moves the key by the constant of the cell and the side AFTER the flip |
| Bitboard.MakeMoveFillsCell | js/index.js:173-177 | on an empty cell, `makeMove` adds exactly that cell to the mover's board, takes one empty cell away, and keeps the boards disjoint |
| Bitboard.ZobristSidesDiffer | js/index.js:41-51 | the two constants of every cell differ, so XOR-ing both changes a key |
| Bitboard.IsDraw | js/index.js:166-168 | `isDraw()` is the test that the union of the two boards equals 511; `IsDrawMeansNoEmptyCell` states that this is exactly "no empty cell" |
| Bitboard.IsDrawMeansNoEmptyCell | js/index.js:166-168 | `isDraw` holds exactly when no cell is empty, that is, when there are zero empty cells |
| Bitboard.WinFrom | js/index.js:160-164 | the mask scan returns -1 exactly when the first completed mask is completed by O, 1 when it is completed by X and not by O, and 0 exactly when neither board completes any mask |
| Bitboard.IsWin | js/index.js:159-165 | `isWin` is -1, 0 or 1; it is 0 exactly when neither board holds a line; with one side holding a line it names that side |
| Bitboard.DrawDoesNotExcludeWin | js/index.js:159-168 | a full board with disjoint boards can hold an X line, so `isDraw` does not exclude a win |
| Bitboard.ClearRemovesCell | js/index.js:180 | `&= ~(1 << index)` removes exactly that cell from a board |
| Lines.MaskCells | js/index.js:77-91 | a mask of three cell bits holds exactly those three cells |
| Lines.LineMasksAreGridLines | js/index.js:77-91 | the eight masks are, in order, rows 0-2, columns 0-2 and the two diagonals of the row-major grid, three cells each |
| Lines.CompletesMeansLineHeld | js/index.js:160-163 | `(board & mask) === mask` holds exactly when the board holds every cell of that grid line |
| Lines.HasLineMeansGridLine | js/index.js:159-165 | a board has a line in the sense of `isWin` exactly when it holds a full row, column or diagonal |
| PositionKey.XorFromUpdate | js/index.js:184-186 | XOR-ing a constant into one cell's contribution moves the combined key by that constant |
| PositionKey.EmptyBoardsHaveKeyZero | js/index.js:35 | the occupancy key of the empty boards is 0, the key `newGame` sets |
| PositionKey.MakeMoveChangesKeyOf | js/index.js:173-177 | a move on an empty cell moves the occupancy key by the same constant that `makeMove` XORs into the key |
| PositionKey.MakeMoveKeepsKeyOf | js/index.js:173-177 | a move on an empty cell keeps the key equal to the occupancy key |
| PositionKey.MakeMoveKeepsBalanced | js/index.js:173-177 | a move on an empty cell keeps X's move count equal to O's, or one more, according to the side to move |
| PositionKey.Play | js/index.js:173-177 | a run of `makeMove` calls leaves the side to move as it was after an even number of moves, and flipped after an odd number |
| PositionKey.PlayKeepsKeyOf | js/index.js:173-186 | legal play keeps the boards disjoint, the move counts balanced, and the key equal to the occupancy key |
| PositionKey.StartIsWellFormed | js/index.js:30-40 | the `newGame` position has disjoint boards, balanced counts and the occupancy key |
| PositionKey.KeyFromMovesAlone | js/index.js:173-186 | after moves alone from `newGame`, the key is the XOR over occupied cells of the constant of the cell and the side opposite its owner |
| PositionKey.KeyIndependentOfOrder | js/index.js:173-186 | two legal move orders from `newGame` that reach the same boards reach the same key and side to move |
| Scores.Max | js/index.js:135 | `Math.max(bestScore, score)` is a number at least the score, at least the best when the best is a number, and one of the two |
| Scores.MaxOfStep | js/index.js:127-136 | a loop iteration followed by the rest of the loop yields the maximum over the start value and all probe scores |
| Scores.Pick | js/index.js:151-154 | the strict `score > bestScore` scan over a loop's probes ends on the start cell or on a probed cell, and on the start cell when no probe beats the starting score |
| Scores.PickSelected | js/index.js:144-155 | a scan that replaces its best only on `score > bestScore` ends on the first probe with the greatest score when some probe beats the start, and on the start cell otherwise |
| Engine.UndoMove | js/index.js:178-182 | the newer `undoMove` flips the side back and clears the cell in the board of the restored side only |
| Engine.UndoMoveKey | js/index.js:178-186 | the newer `undoMove` moves the key by the constant of the cell and the restored side |
| Engine.UndoAfterMove | js/index.js:173-182 | undo after a move on an empty cell gives back the boards and side from before, whatever the key |
| Engine.MakeUndoRoundTrip | js/index.js:173-186 | make then undo restores the boards and side; the key ends XORed with both constants of the cell and so differs from the start |
| Engine.NegaMax | js/index.js:112-139 | a win scores 10 - depth (X) or depth - 10 (O); then a table hit returns the stored score; then a full board scores 0, uncached; otherwise all empty cells are explored and the maximum is stored under the key the loop left; the boards and side are restored; with depth plus the empty cells at most 9 and stored scores in [-10, 10], the score and every stored score stay in [-10, 10] |
| Engine.SearchLoop | js/index.js:127-138 | on a board with an empty cell, the loop explores at least one cell, never yields `-Infinity`, and stores the maximum under the key as the loop left it |
| Engine.Children | js/index.js:127-136 | the loop from cell c explores exactly the empty cells from c on in ascending order, takes the maximum of the negated child scores, keeps every table key, and restores the boards |
| Engine.GetBestMove | js/index.js:141-157 | returns -1 exactly when the board is full (`isDraw`); otherwise a cell empty on entry, the first probe with the greatest score; explores exactly the empty cells in ascending order; restores the boards and side; keeps every table key and keeps table scores in range |
| Engine.Candidates | js/index.js:144-155 | the loop from cell c explores exactly the empty cells from c on in ascending order, restores the boards, keeps every table key and keeps table scores in range |
| Engine.SelectedFromStart | js/index.js:142-156 | starting from (-1, -Infinity), the selection over probes that cover the empty cells is -1 exactly when the board is full, and an empty cell otherwise |
| Engine.NegaMaxSwept | js/index.js:112-138 | a `negaMax` call that reaches its loop runs the iterations `Chain` describes, from the position and table it was called with, and stores its score into the table the last iteration left, under the key the loop left |
| Engine.SearchLoopSwept | js/index.js:127-138 | the loop and the store, on their own, as `NegaMaxSwept` states them |
| Engine.ChildrenChain | js/index.js:128-136 | each probe of the loop from cell c is at a cell empty where its iteration starts and holds the negated score of `negaMax(depth + 1)` after the move, run with the table the previous iteration left; the next iteration starts from the undo of the position that child search left |
| Engine.ExploreChain | js/index.js:131-136 | the iteration at an empty cell followed by the rest of the loop is one more link of that chain |
| Engine.ChainCons | js/index.js:131-136 | a probe at an empty cell holding the negated child score, in front of a chain that starts where its child search and undo left the position and the table, is a chain |
| Engine.ChildrenExplores | js/index.js:129-135 | at an empty cell the loop moves, runs `negaMax(depth + 1)` with the table it has, undoes, takes `Math.max`, and goes on from the next cell with the table the child search left |
| Engine.ChildrenSkips | js/index.js:129 | a taken cell is passed over and changes nothing |
| Engine.NextSameFree | js/index.js:131-133 | the move, a child search and the newer undo leave the same cells taken as before, and so the same number of empty cells |
| Engine.SomeCellExplored | js/index.js:125-136 | a board that is not full has an empty cell, so a loop that covers the empty cells explores at least one |
| Engine.CandidatesSelected | js/index.js:144-155 | the loop from cell c, started from (`bestMove`, `bestScore`), returns the cell of the first probe with the greatest score when some probe beats `bestScore`, and `bestMove` otherwise |
| Engine.CandidatesPick | js/index.js:144-155 | the loop's move is the cell that a strict `>` scan over its own probe scores keeps |
| Engine.PickReplaces | js/index.js:151-154 | the same, at an empty cell whose score beats the best so far |
| Engine.PickKeeps | js/index.js:151-154 | the same, at an empty cell whose score does not beat the best so far |
| Engine.GetBestMoveChain | js/index.js:141-157 | each probe of `getBestMove` is at a cell empty where its iteration starts and holds the score of `negaMax(0)` after the move, run on the position and table the previous iteration left; the next iteration starts from the undo of the position that search left |
| Engine.CandidatesChain | js/index.js:144-155 | the same, for the loop from cell c |
| Engine.ExploreRootChain | js/index.js:145-155 | the iteration at an empty cell followed by the rest of the loop is one more link of that chain, whichever best the loop carries on with |
| Engine.RootChainCons | js/index.js:147-149 | a probe holding `negaMax(0)` after the move, in front of a chain that starts where its search and undo left the position and the table, is a chain |
| Engine.CandidatesExplores | js/index.js:145-154 | at an empty cell the loop moves, scores with `negaMax(0)` and the table it has, undoes, takes the cell when `score > bestScore`, and goes on with the table the child search left |
| Engine.CandidatesReplaces | js/index.js:151-154 | when the score beats the best so far, the loop goes on with this cell and score as the best |
| Engine.CandidatesKeeps | js/index.js:151-154 | when it does not, the loop goes on with the best unchanged |
| Engine.CandidatesSkips | js/index.js:145 | a taken cell is passed over and changes nothing |
| Engine.NewGame | js/index.js:30-40 | `newGame` gives X to move on nine empty cells, key 0, no winner and an empty table, and the game is well formed |
| Engine.StartIsEmpty | js/index.js:30-40 | the reset position has nine empty cells and no line |
| Engine.Click | js/index.js:56-62 | a click after a winner or on a taken cell changes nothing; otherwise the mover takes exactly that cell, the side flips, and `winner` is set exactly when some board holds a line |
| Engine.ClickKeepsWellFormed | js/index.js:56-62 | a click keeps the boards disjoint, the key equal to the occupancy key, the counts balanced, `winner` equal to `isWin`, and at most one side holding a line |
| Engine.OnlyMoverCanWin | js/index.js:61-62 | from a position without lines, a move can give a line only to the side that moved |
| Engine.ClickOnFullBoard | js/index.js:56-58 | a click on a full board changes nothing |
| Engine.ClicksKeepWellFormed | js/index.js:53-75 | every game reached from a well-formed one by clicks is well formed |
| LegacyEngine.UndoMove | css/js/index.js:151-155 | the older `undoMove` clears the cell in the board of the side to move BEFORE the flip and leaves the other board alone |
| LegacyEngine.MakeUndoRoundTrip | css/js/index.js:146-159 | make then the older undo restores the side but leaves the cell in the mover's board; the key ends XORed with both constants of the cell, so it changes |
| LegacyEngine.NegaMax | css/js/index.js:95-112 | a full board scores 0 before any line is checked; then X and O lines score 10 - depth and depth - 10, state unchanged; otherwise at least one empty cell is explored, the score is the maximum, and every cell is taken afterwards; the side is restored, no cell is emptied, and disjoint boards stay disjoint |
| LegacyEngine.DrawBeforeWin | css/js/index.js:96-99 | on a full board where X holds a diagonal, the older `negaMax` scores 0 where the newer one scores 10 - depth |
| LegacyEngine.Children | css/js/index.js:101-111 | the loop from cell c explores cells from c on, each empty on entry, in ascending order, the first being the lowest empty one; it explores some cell exactly when a cell from c on is empty; it takes the maximum, leaves every cell from c on taken, restores the side, loses no cell and keeps disjoint boards disjoint |
| LegacyEngine.UndoKeepsCell | css/js/index.js:151-155 | after a child search, the older undo keeps the cell taken, loses no cell, restores the side, and keeps disjoint boards disjoint |
| LegacyEngine.GetBestMove | css/js/index.js:114-130 | returns -1 exactly when the board is full (`isDraw`) on entry; otherwise a cell empty on entry, the first probe with the greatest score; afterwards the board is full, the side restored, no cell lost, and disjoint boards still disjoint |
| LegacyEngine.Candidates | css/js/index.js:117-128 | the loop from cell c explores cells from c on, each empty on entry, in ascending order, the first being the lowest empty one; it explores some cell exactly when a cell from c on is empty, leaves every cell from c on taken, restores the side and loses no cell |
| LegacyEngine.SelectedFromStart | css/js/index.js:115-129 | starting from (-1, -Infinity), the selection over probes of empty cells, present exactly when some cell is empty, is -1 exactly when the board is full, and an empty cell otherwise |
| LegacyEngine.NegaMaxChain | css/js/index.js:95-111 | a call that reaches its loop runs the iterations `Chain` describes: the cells it passes over are taken in the position it reaches them in, each probed cell is empty there, each probe holds the negated score of `negaMax(depth + 1)` after the move, and the next iteration starts from the older undo applied to the position that child search left |
| LegacyEngine.ChildrenChain | css/js/index.js:102-110 | the same, for the loop from cell c |
| LegacyEngine.ExploreChain | css/js/index.js:105-110 | the iteration at an empty cell followed by the rest of the loop is one more link of that chain |
| LegacyEngine.ChainCons | css/js/index.js:105-110 | a probe at an empty cell holding the negated child score, in front of a chain that starts where its child search and the older undo left the position, is a chain |
| LegacyEngine.ChainWiden | css/js/index.js:103 | a taken cell right after the last probe is one more cell the loop passes over |
| LegacyEngine.ChildrenExplores | css/js/index.js:103-109 | at an empty cell the loop moves, runs `negaMax(depth + 1)`, applies the older undo, takes `Math.max`, and goes on from the next cell in the position that left |
| LegacyEngine.ChildrenSkips | css/js/index.js:103 | a taken cell is passed over and changes nothing |
| LegacyEngine.NextShrinks | css/js/index.js:105-107 | the move, a child search and the older undo leave no more empty cells than before |
| LegacyEngine.CandidatesSelected | css/js/index.js:117-128 | the loop from cell c, started from (`bestMove`, `bestScore`), returns the cell of the first probe with the greatest score when some probe beats `bestScore`, and `bestMove` otherwise |
| LegacyEngine.CandidatesPick | css/js/index.js:117-128 | the loop's move is the cell that a strict `>` scan over its own probe scores keeps |
| LegacyEngine.PickReplaces | css/js/index.js:124-127 | the same, at an empty cell whose score beats the best so far |
| LegacyEngine.PickKeeps | css/js/index.js:124-127 | the same, at an empty cell whose score does not beat the best so far |
| LegacyEngine.GetBestMoveChain | css/js/index.js:114-130 | the cells `getBestMove` passes over are taken where it reaches them; each probed cell is empty there and each probe holds the score of `negaMax(0)` after the move; the next iteration starts from the older undo applied to the position that search left |
| LegacyEngine.CandidatesChain | css/js/index.js:117-128 | the same, for the loop from cell c |
| LegacyEngine.ExploreRootChain | css/js/index.js:118-128 | the iteration at an empty cell followed by the rest of the loop is one more link of that chain, whichever best the loop carries on with |
| LegacyEngine.RootChainCons | css/js/index.js:120-122 | a probe holding `negaMax(0)` after the move, in front of a chain that starts where its search and the older undo left the position, is a chain |
| LegacyEngine.RootChainWiden | css/js/index.js:118 | a taken cell right after the last probe is one more cell the loop passes over |
| LegacyEngine.CandidatesExplores | css/js/index.js:118-127 | at an empty cell the loop moves, scores with `negaMax(0)`, applies the older undo, takes the cell when `score > bestScore`, and goes on in the position that left |
| LegacyEngine.CandidatesReplaces | css/js/index.js:124-127 | when the score beats the best so far, the loop goes on with this cell and score as the best |
| LegacyEngine.CandidatesKeeps | css/js/index.js:124-127 | when it does not, the loop goes on with the best unchanged |
| LegacyEngine.CandidatesSkips | css/js/index.js:118 | a taken cell is passed over and changes nothing |
| LegacyEngine.CandidatesDisjoint | css/js/index.js:117-128 | the loop keeps disjoint boards disjoint |
| LegacyEngine.RootChainDisjoint | css/js/index.js:120-122 | every link of the chain keeps disjoint boards disjoint, so the chain does |
| LegacyEngine.NextDisjoint | css/js/index.js:146-155 | the move, a search and the older undo keep disjoint boards disjoint |
| LegacyEngine.NewGame | css/js/index.js:18-26 | `newGame` gives X to move on nine empty cells with key 0 and no winner, well formed |
| LegacyEngine.Click | css/js/index.js:42-56 | a click on a full board, after a winner, or on a taken cell changes nothing; otherwise it acts exactly as the newer click guard with an empty table |
| LegacyEngine.ClickKeepsWellFormed | css/js/index.js:42-56 | the older click guard keeps a game well formed |

## Left out

- DOM and presentation are not modelled: cell elements, `showWindow`,
  `closeWindow`, class and text updates, event registration. Neither is the
  highlighting in `drawWinLine`; its mask search repeats `isWin`.
- `console.log` in `getBestMove` and `printBitBoard` only write to the console.
- `parseBit` is a development helper that the game never calls.
- The hex display of the key is not modelled. Neither is the signed 32-bit view
  JavaScript gives XOR results: a `bv32` has the same bit pattern, and distinct
  keys stay distinct table properties (`Engine.Prop`).
- `-Infinity` is the `NegInf` constructor of `Scores.Score`, not a float. It only
  ever starts a loop's best score.
- The module-level variables are values passed in and returned. The speed-up the
  table gives is not modelled.
- The recorded scenario at `js/index.js:209-215` is not modelled: X on 0 and 8, O
  on 2, O to move, expected 4, output 1. Settling it means unfolding hundreds of
  nested `negaMax` calls inside the verifier. The model states instead what any
  `getBestMove` result is, with the drifting keys under which the table is read
  and written.
- The click handlers never call `getBestMove`, so no model ties a computer move
  to a click.
- Bitboard.IsWin: when both boards hold a line, it states only that the result
  is nonzero and names a side holding one. The exact answer, the first completed
  mask with O checked before X, is stated by `Bitboard.WinFrom`.
