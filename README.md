# Halma game logic in Dafny

This project models the game logic of a two-player Halma game on an n-by-n
board. Red starts in the top-left triangle and green in the bottom-right
triangle. Each side wins by filling the other side's home triangle. A piece
either steps to an empty neighbouring cell, or makes a chain of jumps: each
jump goes over one piece onto the empty cell beyond it, in any of eight
directions.

Two versions of the program are modelled:

- `halma.py`:
  - the move generator;
  - a `GameManager` that keeps the board, the goal lists, the scores and the
    goals-to-win counters, and whose turn it is;
  - an AI built on an evaluator (`utility_fn`), a terminal test, a successor
    function and a depth-limited minimax search with optional alpha-beta
    pruning.
- `halmapathattempt.py`:
  - a smaller `GameManager`;
  - a move generator that can also return the path to each destination.

## Modules

- `ExtInts` (extint.dfy): integers extended with -inf and +inf, which stand
  for the search's `float("inf")` bounds.
- `Geometry` (geometry.dfy) covers cells, occupants and boards:
  - the bounds test, the eight directions and the neighbouring-piece test;
  - the Manhattan distance and the closest-goal distance;
  - counting the cells that hold a colour, and moving a piece.
- `MoveGen` (movegen.dfy): the depth-first jump search of `get_moves`.
  - The search is specified by `Trace`, a recursive definition of what it
    finds from one stack frame.
  - The stack loop is proved to compute `Trace`.
  - Lemmas prove that the results are exactly the legal moves: simple steps
    and jump chains.
- `PathMoveGen` (path_movegen.dfy): the path-recording `get_moves`. It is
  proved to compute the same `Trace`, so it returns the same destinations,
  plus the paths.
- `Setup` (setup.dfy): the board-building loops of `__init__` and the two
  home triangles.
- `GameTree` (game_tree.dfy):
  - minimax and alpha-beta over an abstract finite game tree, in the source's
    loop shape;
  - the fail-soft theorem;
  - the theorem that pruning with the window (-inf, +inf) gives the minimax
    value.
- `Halma` (halma.dfy):
  - the terminal test, the evaluator and the successor boards;
  - `SearchTree`, the game tree that `minmax` explores;
  - the `GameManager` class.
- `PathAttempt` (path_attempt.dfy): the `GameManager` of
  `halmapathattempt.py`.

## Modelling decisions

- **Boards.** A board is a `map<(int, int), Occupant>` with an entry for
  exactly the cells of the grid. Boards are values, so `get_moves`, the
  evaluator and the successor function cannot modify the board they are
  given.
- **Cell order.** Python dictionaries iterate in insertion order. `__init__`
  inserts the cells row by row, and copies and overwrites keep that order.
  So the scans over `board.items()` (`utility_fn`, `ai_get_next_moves`)
  visit `GridCells(n)`, the cells in row-major order.
- **Missing return.** `ai_get_next_moves` (halma.py:140-149) builds `res` but
  never returns it. The model returns `res`, as the search needs.
- **Always green.** `ai_get_next_moves` always moves the green pieces, whichever
  side is to move. The model keeps this.
- **Undefined name.** halma.py:171 uses an undefined name `board_size`. The
  model uses the manager's `board_size`, as on line 165.
- **Signs kept.** The green terms of `utility_fn` are the negation of the red
  terms with the goal lists exchanged. The model keeps these signs, and
  `GreenScoreIsNegatedRed` and `UtilityAntisymmetric` state this relation.
- **Infinity.** `float("inf")` becomes the `ExtInt` values `NegInf` and
  `PosInf`. Every finite value is an integer.
- **Dead code.** Nothing in halma.py calls `minmax` except `minmax` itself
  (lines 117 and 130). The model still specifies it in full.

## Model

| member | source | states |
|---|---|---|
| Geometry.GridCellsSpec | halma.py:32-34 | The row-major cell list holds exactly the cells of the n-by-n grid, each once. |
| Geometry.InGrid | halma.py:388-389 | `valid_cell` holds exactly when 0 <= row < n and 0 <= col < n. |
| Geometry.CheckForSurroundingPiece | halma.py:379-386 | The neighbour test is true exactly when some in-bounds 8-neighbour holds a red or green piece. |
| Geometry.SurroundingFrom | halma.py:381-386 | The scan from direction k on is true exactly when some in-bounds neighbour in a direction >= k holds a piece. |
| Geometry.LandingHasSurroundingPiece | halma.py:356-360 | A landing just reached by a jump always has the jumped piece as a neighbour, so the continuation test never stops a chain. |
| Geometry.ManhattanDistance | halma.py:366-369 | The distance is non-negative and is zero exactly when the two cells are equal. |
| Geometry.ManhattanSymmetric | halma.py:366-369 | The distance is symmetric. |
| Geometry.MinGoalDistance | halma.py:371-376 | For a non-empty goal list, the least distance is attained by some goal and bounded by every goal. It is zero exactly when the cell is a goal. |
| Geometry.GetClosestGoalDistance | halma.py:371-376 | The accumulator loop returns +inf for no goals, and otherwise the least distance to a goal. |
| Geometry.Count | halma.py:41 | A colour count over a cell list is at most the list's length. It equals the length exactly when every cell holds the colour, and is zero exactly when none does. |
| Geometry.MovePiece | halma.py:92-93 | After a move the origin is empty, the destination holds the moved occupant, and every other cell is unchanged. |
| Geometry.MoveCount | halma.py:92-93 | Moving a piece onto an empty cell changes a colour count over distinct cells only by the piece leaving the origin and the piece arriving at the destination. |
| Geometry.CountUpdate | halma.py:92-93 | Overwriting one cell changes a count over distinct cells by what left that cell and what arrived. |
| MoveGen.GetMoves | halma.py:344-364 | The stack loop returns `Moves`, the destinations of the search specification, in order. Every destination is in bounds, empty and not the origin. |
| MoveGen.ScanFrame | halma.py:352-362 | The direction loop for one popped frame appends exactly the destinations of that frame's scan and pushes exactly its frames. |
| MoveGen.ScanFrameDir | halma.py:354-362 | One direction from the popped frame appends exactly that direction's destinations from the scan specification, and pushes exactly its frames. |
| MoveGen.RankDecreases | halma.py:360 | A push adds a fresh in-bounds cell to the path, so the number of grid cells not on the path decreases. This is the search's termination measure. |
| MoveGen.ScanPushes | halma.py:358-360 | Every pushed frame extends the popped path by one fresh in-bounds cell and comes with its own destination. |
| MoveGen.PopStep | halma.py:348-360 | One pop-and-scan step keeps the emitted destinations plus what the stack still leads to equal to the whole search, and lowers the loop measure. |
| MoveGen.ChainShape | halma.py:354-360 | A jump chain starts at the origin, repeats no cell, and lands only on in-bounds empty cells other than the origin. |
| MoveGen.ScanSound | halma.py:352-362 | Scanning a well-formed frame emits only legal moves and pushes only well-formed jump-chain frames. |
| MoveGen.TraceSound | halma.py:348-362 | Everything the search finds from a well-formed frame is a legal move. |
| MoveGen.MovesSound | halma.py:344-364 | Each returned destination is in bounds, empty and not the origin. Each found path starts at the origin, repeats no cell, and is a simple step or a jump chain. |
| MoveGen.PathsMatchMoves | halmapathattempt.py:179-189 | The path list and the destination list have equal length. The i-th path has at least two cells, starts at the origin, ends at the i-th destination and repeats no cell. |
| MoveGen.StepFound | halma.py:361-362 | Every in-bounds empty 8-neighbour of the origin is returned as a simple step. |
| MoveGen.ChainFound | halma.py:355-360 | Every jump chain from the origin is explored, and its last landing is returned with the chain as its path. |
| MoveGen.MovesOnlyLegal | halma.py:352-362 | Every destination is a simple step from the origin or the end of a jump chain. |
| MoveGen.MovesComplete | halma.py:352-362 | Every simple step and every jump-chain end is among the destinations. |
| MoveGen.MovesExactly | halma.py:344-364 | A cell is a destination if and only if it is an in-bounds empty neighbour of the origin or the last landing of a jump chain. |
| MoveGen.MovesSameShape | halma.py:355 | The generator treats red and green pieces alike: boards with the same empty cells give the same destinations and paths. |
| PathMoveGen.GetMoves | halmapathattempt.py:163-189 | With `return_paths` the loop returns `MovePaths`, and otherwise `Moves`, so the destinations equal those of halma.py's `get_moves`. |
| PathMoveGen.PopAndScan | halmapathattempt.py:168-185 | One pass of the stack loop pops the top entry. It appends exactly that entry's destinations and paths, and replaces the entry by the entries its scan pushes. Emitted results plus what the stack still leads to stay the whole search, and the loop measure goes down. |
| PathMoveGen.ScanPending | halmapathattempt.py:171-185 | The direction loop for one popped entry appends the destinations and paths of the matching frame's scan, and pushes its entries. |
| PathMoveGen.ScanPendingDir | halmapathattempt.py:173-185 | One direction from the popped entry yields exactly the destinations, paths and entries of the same direction on the matching frame. |
| Setup.BuildInitialBoard | halma.py:32-47 | The loops build `InitialBoard(n)` and the goal lists `RedHome(n)` and `GreenHome(n)`, with goals-to-win counters equal to the list lengths. |
| Setup.FillEmpty | halma.py:32-34 | The first double loop makes every cell of the grid empty. |
| Setup.PlaceRed | halma.py:36-41 | The second double loop lists the red triangle row by row, colours it red, and counts it. |
| Setup.PlaceGreen | halma.py:43-47 | The third double loop lists the green triangle from the bottom-right corner, colours it green, and counts it. |
| Setup.PlaceGreenRow | halma.py:44-47 | The inner loop adds row `row` of the green triangle, from column n-1 leftwards, to the green goals. It counts them, and the board stays red exactly on the red goals, green exactly on the green goals and empty elsewhere. |
| Setup.RedHomeSpec | halma.py:36-39 | The red goal list holds exactly the cells with r < n/2 and c < n/2 - r, each once. |
| Setup.GreenHomeSpec | halma.py:43-45 | The green goal list holds exactly the cells with r >= n/2 and c >= n/2 + (n - 1 - r), each once. |
| Setup.HomesDisjoint | halma.py:36-47 | Both goal lists lie on the grid, and no cell is in both. |
| Setup.RedHomeSize | halma.py:37-41 | The red triangle has h(h+1)/2 cells, with h = n/2. |
| Setup.GreenHomeMirrorsRed | halma.py:43-47 | On an even board the i-th green goal is the point mirror (n-1-r, n-1-c) of the i-th red goal, so both lists have the same length. |
| Setup.InitialBoardSpec | halma.py:32-47 | The starting board covers the grid. A cell is red exactly in the top-left triangle and green exactly in the bottom-right one. |
| Setup.InitialBoardSymmetric | halma.py:36-47 | On an even board a cell starts green exactly when its mirror cell starts red. |
| GameTree.AlphaBetaFailSoft | halma.py:108-138 | The pruned value is fail-soft against the minimax value. It is exact inside the window (alpha, beta), and on the correct side of a bound outside it. |
| GameTree.AlphaBetaAtRootIsMinimax | halma.py:108-138 | With the window (-inf, +inf), the pruning search returns exactly the minimax value. |
| GameTree.MinimaxFromSplit | halma.py:114-118 | Folding the remaining children from a running best equals combining that best with the fold from the start value. |
| Halma.StandardRulesPlayable | halma.py:36-47 | From size 2 on, both goal lists are non-empty and on the grid. On even boards they have equal length. |
| Halma.AllHold | halma.py:177-187 | The for/else scan is true exactly when every listed goal holds the given colour. |
| Halma.IsTerminalState | halma.py:176-189 | The position is terminal exactly when every red goal holds green or every green goal holds red. |
| Halma.GreenScoreIsNegatedRed | halma.py:160-172 | A green piece contributes exactly the negation of what a red piece on the same cell would contribute with the goal lists swapped. |
| Halma.CellScoreSwap | halma.py:160-172 | Exchanging the colours on the board and the goal lists negates each cell's contribution. |
| Halma.UtilityAntisymmetric | halma.py:151-174 | The evaluator is antisymmetric: the position with the colours and goal lists exchanged is worth exactly the negation. |
| Halma.SuccessorsFrom | halma.py:144-149 | There is one successor per destination of `get_moves`, in move order. For a green piece on the grid, the i-th successor is exactly the board that moving the piece to the i-th destination leaves (`MovePiece`), and it still covers the grid. |
| Halma.NextBoardsSpec | halma.py:140-149 | The successor boards are exactly the boards reached by moving one green piece to one of its destinations, as `execute_move` would. Each one covers the grid. |
| Halma.SearchTreeNode | halma.py:111-117 | Below the depth limit, a non-terminal position has one subtree per successor board, in order. |
| Halma.MinmaxPruningAgrees | halma.py:108-138 | From any position and depth, the pruning search with the window (-inf, +inf) equals the search without pruning. |
| Halma.ScoresFollowMove | halma.py:67-93 | If the scores counted red pieces on green goals and green pieces on red goals, then after a move onto an empty cell with `execute_move`'s counter updates they still do. |
| Halma.GameManager.constructor | halma.py:17-47 | On an even board of size 2 or more, the constructor gives the starting board, the two home triangles as goal lists, zero scores, goals-to-win counters of h(h+1)/2, no selection and red to move. It also establishes the class invariant, and the scores agree with the board. |
| Halma.GameManager.StartMove | halma.py:62-65 | Selects the cell and returns its destinations. |
| Halma.GameManager.ExecuteMove | halma.py:67-98 | The mover's side updates its score and goals-to-win counters for the goal it leaves and the goal it enters, and the turn passes to the other side. Then the piece moves and the selection is cleared. Each side's score plus goals-to-win stays equal to the size of its goal list. |
| Halma.GameManager.UpdateCounters | halma.py:68-84 | Counter and turn updates for a red mover, a green mover, and an empty selected cell. |
| Halma.GameManager.MoveOnBoard | halma.py:92-94 | The board after the move, with the selection cleared. |
| Halma.GameManager.Winner | halma.py:191-198 | Red wins once its goals-to-win counter is zero, and otherwise green once its counter is. While the scores track the board, the announced winner occupies all of its target goals, and a winner is announced exactly in a terminal position. |
| Halma.GameManager.CountersMatchGoals | halma.py:191-198 | While the scores track the board, red's counter is zero exactly when every green goal holds red, and green's is zero exactly when every red goal holds green. |
| Halma.GameManager.UtilityFn | halma.py:151-174 | The accumulator loop returns `Utility`, the sum of the cell contributions over the board. |
| Halma.GameManager.AddCellUtility | halma.py:161-172 | One pass of the loop adds the contribution of the cell's piece. |
| Halma.GameManager.AiGetNextMoves | halma.py:140-149 | The loops return `NextBoards`: for each green piece in row-major order, one board per destination. |
| Halma.GameManager.AppendSuccessors | halma.py:145-149 | The inner loop appends the successors of one green piece. |
| Halma.GameManager.Minmax | halma.py:108-138 | With pruning, the search returns the alpha-beta value of `SearchTree` for (alpha, beta); without pruning, the minimax value. A terminal position or the depth limit gives `utility_fn`. No successors give -inf when maximizing and +inf when minimizing. |
| Halma.GameManager.MaxValue | halma.py:114-125 | The maximizing loop, raising alpha and stopping once beta <= alpha, computes the tree's value. |
| Halma.GameManager.MaxChild | halma.py:117-124 | One child of the maximizing loop either stops the loop, returning the pruned value of the remaining children, or carries it on to the next child with the raised best and alpha. Without pruning it never stops. |
| Halma.GameManager.MinValue | halma.py:127-138 | The minimizing loop, lowering beta and stopping once beta <= alpha, computes the tree's value. |
| Halma.GameManager.MinChild | halma.py:130-137 | One child of the minimizing loop either stops the loop, returning the pruned value of the remaining children, or carries it on to the next child with the lowered best and beta. Without pruning it never stops. |
| PathAttempt.MovePreservesPieces | halmapathattempt.py:38-40 | A move onto an empty cell keeps the number of red and of green pieces on the board. |
| PathAttempt.GameManager.constructor | halmapathattempt.py:9-24 | The starting board is the same as in halma.py, with no selection. |
| PathAttempt.GameManager.StartMove | halmapathattempt.py:27-30 | Selects the cell and returns its destinations. |
| PathAttempt.GameManager.CheckMoves | halmapathattempt.py:32-36 | Selects the cell and returns the path to each destination. Each path starts at the cell and ends at its destination. |
| PathAttempt.GameManager.ExecuteMove | halmapathattempt.py:38-46 | The selected piece moves to the destination and the selection is cleared. A move onto an empty cell loses no piece. |

## Left out

- The tkinter user interface has no behaviour that can be stated as a
  contract, so it is not modelled:
  - labels and their updates;
  - `GameCell`, `GameBoard`, `exit_move`'s display call;
  - `reset_game`, `show_play_again_button`;
  - the canvas unbinding in `check_winner`;
  - `show_move_paths`;
  - the module-level window and manager.
- `check_winner`'s display updates are left out. Only the winner test is
  modelled, as `GameManager.Winner`.
- The `print` calls in `check_moves` and the debug prints in `minmax` are
  output only. The `debug` flag of `__init__` is therefore dropped.
- The unused class `MinMaxNode` and the unused import `dist` are left out.
- Odd and very small board sizes are excluded:
  - `Halma.GameManager.constructor` requires an even size of at least 2. For
    odd sizes the two triangles differ in size (3 red against 6 green cells
    on a 5-by-5 board), so a side's goals-to-win counter no longer measures
    its own goal list.
  - Sizes 0 and 1 leave at least one goal list empty: both for 0, and the
    red one for 1 (whose green list is the single cell (0, 0)). With an empty
    list, `get_closest_goal_distance` returns a float infinity inside
    `utility_fn`.
  - The evaluator therefore requires non-empty goal lists (`Playable`).
- Halma.GameManager.ExecuteMove requires the selected cell and the
  destination to lie on the board. For a cell outside the board, Python
  would raise a `KeyError` or add a new dictionary key. The user interface
  only offers cells on the board.
- Halma.GameManager.ExecuteMove does not itself state that the scores keep
  counting goal pieces. `Halma.ScoresFollowMove` states this for a move onto
  an empty cell, with exactly the counter updates that `ExecuteMove` ensures.
- Halma.GameManager.Minmax requires `depth <= ai_search_depth`. With a larger
  depth, the Python recursion never reaches its depth cut-off.
- `ai_search_depth` is a natural number in the model.
- PathAttempt.GameManager.constructor builds its board with the same loops as
  halma.py (`Setup.BuildInitialBoard`) and discards the goal lists, which this
  version does not keep.
