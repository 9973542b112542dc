/**
 * The game engine of halma.py: the terminal test, the evaluator, the
 * successor boards the AI considers, the depth-limited minimax search with
 * optional alpha-beta pruning, and the GameManager whose board and counters
 * a move updates in place.
 *
 * `Rules` collects what the evaluator and the terminal test read from the
 * manager (board_size and the two goal lists); the search is specified by
 * the game tree `SearchTree` that the recursive method unfolds, so the
 * pruning theorem of GameTree carries over to the method.
 */
module Halma {
  import opened ExtInts
  import opened Geometry
  import opened MoveGen
  import opened Setup
  import opened GameTree

  /** What the evaluator and the terminal test read from the manager. */
  datatype Rules = Rules(boardSize: nat, redGoals: seq<Cell>, greenGoals: seq<Cell>)

  /** Both goal lists are non-empty and lie on the grid. */
  predicate Playable(r: Rules)
  {
    && |r.redGoals| > 0 && |r.greenGoals| > 0
    && (forall g :: g in r.redGoals ==> ValidCell(g, r.boardSize))
    && (forall g :: g in r.greenGoals ==> ValidCell(g, r.boardSize))
  }

  /** The rules __init__ sets up for a board of size n. */
  function StandardRules(n: nat): Rules
  {
    Rules(n, RedHome(n), GreenHome(n))
  }

  lemma StandardRulesPlayable(n: nat)
    requires n >= 2
    ensures Playable(StandardRules(n))
    ensures n % 2 == 0 ==> |RedHome(n)| == |GreenHome(n)|
  {
    HomesDisjoint(n);
    assert (0, 0) in RedHome(n) by { RedHomeSpec(n); }
    assert (n - 1, n - 1) in GreenHome(n) by { GreenHomeSpec(n); }
    if n % 2 == 0 {
      GreenHomeMirrorsRed(n);
    }
  }

  // ---------------------------------------------------------------------------
  // The terminal test

  /** The for/else scan of is_terminal_state: true unless some goal does not hold `o`. */
  function AllHold(board: Board, goals: seq<Cell>, o: Occupant): (all: bool)
    requires forall g :: g in goals ==> g in board
    ensures all <==> forall g :: g in goals ==> board[g] == o
  {
    if goals == [] then true
    else if board[goals[0]] != o then false
    else AllHold(board, goals[1..], o)
  }

  /**
   * is_terminal_state: every red goal holds green, or every green goal holds
   * red.
   */
  function IsTerminalState(r: Rules, board: Board): (done: bool)
    requires Playable(r) && Total(board, r.boardSize)
    ensures done <==> ((forall g :: g in r.redGoals ==> board[g] == Green)
                       || (forall g :: g in r.greenGoals ==> board[g] == Red))
  {
    AllHold(board, r.redGoals, Green) || AllHold(board, r.greenGoals, Red)
  }

  // ---------------------------------------------------------------------------
  // The evaluator

  /**
   * What one cell adds to utility_fn: a red piece scores minus its distance to
   * the nearest green goal (or 2*board_size once on a goal) plus its number of
   * moves; a green piece the mirror image against the red goals; an empty
   * cell nothing.
   */
  function CellScore(r: Rules, board: Board, cell: Cell): int
    requires Playable(r) && Total(board, r.boardSize) && ValidCell(cell, r.boardSize)
  {
    var n := r.boardSize;
    match board[cell]
    case Empty => 0
    case Red =>
      (if cell !in r.greenGoals then -MinGoalDistance(cell, r.greenGoals) else n * 2)
      + |Moves(n, board, cell)|
    case Green =>
      (if cell !in r.redGoals then MinGoalDistance(cell, r.redGoals) else -(n * 2))
      - |Moves(n, board, cell)|
  }

  /** The sum of the cell scores over `cells`, accumulated in order. */
  function ScoreSum(r: Rules, board: Board, cells: seq<Cell>): int
    requires Playable(r) && Total(board, r.boardSize)
    requires forall c :: c in cells ==> ValidCell(c, r.boardSize)
  {
    if cells == [] then 0
    else
      var init := cells[..|cells| - 1];
      assert forall c :: c in init ==> c in cells;
      ScoreSum(r, board, init) + CellScore(r, board, cells[|cells| - 1])
  }

  /** utility_fn: the score summed over every cell of the board (positive favours red). */
  function Utility(r: Rules, board: Board): int
    requires Playable(r) && Total(board, r.boardSize)
  {
    GridCellsSpec(r.boardSize);
    ScoreSum(r, board, GridCells(r.boardSize))
  }

  /** The same game seen from the other side: the two goal lists trade places. */
  function SwapSides(r: Rules): Rules
  {
    Rules(r.boardSize, r.greenGoals, r.redGoals)
  }

  function Flip(o: Occupant): Occupant
  {
    match o
    case Empty => Empty
    case Red => Green
    case Green => Red
  }

  /** Every red piece made green and every green piece red. */
  function Recolour(board: Board): (b: Board)
    ensures forall c :: c in b <==> c in board
    ensures forall c :: c in board ==> b[c] == Flip(board[c])
  {
    map c | c in board :: Flip(board[c])
  }

  /**
   * A green piece scores exactly the negation of what a red piece on the same
   * cell would score with the goal lists swapped.
   */
  lemma GreenScoreIsNegatedRed(r: Rules, board: Board, cell: Cell)
    requires Playable(r) && Total(board, r.boardSize) && ValidCell(cell, r.boardSize)
    requires board[cell] == Green
    ensures Total(board[cell := Red], r.boardSize)
    ensures CellScore(r, board, cell) == -CellScore(SwapSides(r), board[cell := Red], cell)
  {
    var b2 := board[cell := Red];
    assert SameShape(r.boardSize, board, b2);
    MovesSameShape(r.boardSize, board, b2, cell);
  }

  /** Recolouring the whole board and swapping the goals negates a cell's score. */
  lemma CellScoreSwap(r: Rules, board: Board, cell: Cell)
    requires Playable(r) && Total(board, r.boardSize) && ValidCell(cell, r.boardSize)
    ensures Total(Recolour(board), r.boardSize)
    ensures CellScore(SwapSides(r), Recolour(board), cell) == -CellScore(r, board, cell)
  {
    var b2 := Recolour(board);
    assert SameShape(r.boardSize, board, b2);
    MovesSameShape(r.boardSize, board, b2, cell);
  }

  lemma {:induction false} ScoreSumSwap(r: Rules, board: Board, cells: seq<Cell>)
    requires Playable(r) && Total(board, r.boardSize)
    requires forall c :: c in cells ==> ValidCell(c, r.boardSize)
    ensures Total(Recolour(board), r.boardSize)
    ensures ScoreSum(SwapSides(r), Recolour(board), cells) == -ScoreSum(r, board, cells)
  {
    assert Total(Recolour(board), r.boardSize);
    if cells != [] {
      var init := cells[..|cells| - 1];
      assert forall c :: c in init ==> c in cells;
      ScoreSumSwap(r, board, init);
      CellScoreSwap(r, board, cells[|cells| - 1]);
    }
  }

  /**
   * The evaluator is antisymmetric: the position with the colours and the
   * goals exchanged is worth exactly the negation to the other side.
   */
  lemma UtilityAntisymmetric(r: Rules, board: Board)
    requires Playable(r) && Total(board, r.boardSize)
    ensures Total(Recolour(board), r.boardSize)
    ensures Utility(SwapSides(r), Recolour(board)) == -Utility(r, board)
  {
    GridCellsSpec(r.boardSize);
    ScoreSumSwap(r, board, GridCells(r.boardSize));
  }

  // ---------------------------------------------------------------------------
  // Successor boards

  /** The board after a green piece on `cell` moves to `dest`, built as ai_get_next_moves builds it. */
  function GreenMoved(board: Board, cell: Cell, dest: Cell): Board
  {
    board[cell := Empty][dest := Green]
  }

  /**
   * One successor per destination of the green piece on `cell`, in move order:
   * each is the board execute_move would leave, and it still covers the grid.
   */
  function SuccessorsFrom(n: nat, board: Board, cell: Cell): (bs: seq<Board>)
    requires Total(board, n)
    ensures |bs| == |Moves(n, board, cell)|
    ensures forall i :: 0 <= i < |bs| ==> bs[i] == GreenMoved(board, cell, Moves(n, board, cell)[i])
    ensures ValidCell(cell, n) && board[cell] == Green ==>
              forall i :: 0 <= i < |bs| ==> bs[i] == MovePiece(board, cell, Moves(n, board, cell)[i]) && Total(bs[i], n)
  {
    var ms := Moves(n, board, cell);
    var bs := seq(|ms|, i requires 0 <= i < |ms| => GreenMoved(board, cell, ms[i]));
    assert ValidCell(cell, n) && board[cell] == Green ==>
             forall i :: 0 <= i < |bs| ==> bs[i] == MovePiece(board, cell, ms[i]) && Total(bs[i], n) by {
      if ValidCell(cell, n) && board[cell] == Green {
        forall i | 0 <= i < |bs|
          ensures bs[i] == MovePiece(board, cell, ms[i]) && Total(bs[i], n)
        {
          GreenMovedIsMove(n, board, cell, ms[i]);
        }
      }
    }
    bs
  }

  /** The successors contributed by the green pieces among `cells`, in order. */
  function NextBoardsOf(n: nat, board: Board, cells: seq<Cell>): seq<Board>
    requires Total(board, n)
    requires forall c :: c in cells ==> ValidCell(c, n)
  {
    if cells == [] then []
    else
      var init := cells[..|cells| - 1];
      var last := cells[|cells| - 1];
      assert forall c :: c in init ==> c in cells;
      NextBoardsOf(n, board, init) + (if board[last] == Green then SuccessorsFrom(n, board, last) else [])
  }

  /** ai_get_next_moves: every green piece moved to every destination, cells in row-major order. */
  function NextBoards(n: nat, board: Board): seq<Board>
    requires Total(board, n)
  {
    GridCellsSpec(n);
    NextBoardsOf(n, board, GridCells(n))
  }

  /** A successor is the board after execute_move of a green piece to one of its moves. */
  ghost predicate GreenSuccessor(n: nat, board: Board, b: Board)
    requires Total(board, n)
  {
    exists c: Cell, m: Cell :: ValidCell(c, n) && board[c] == Green && m in Moves(n, board, c)
                               && b == MovePiece(board, c, m)
  }

  lemma GreenMovedIsMove(n: nat, board: Board, cell: Cell, m: Cell)
    requires Total(board, n) && ValidCell(cell, n) && board[cell] == Green
    requires m in Moves(n, board, cell)
    ensures GreenMoved(board, cell, m) == MovePiece(board, cell, m)
    ensures Total(GreenMoved(board, cell, m), n)
  {
    MovesSound(n, board, cell);
  }

  lemma {:induction false} NextBoardsOfSpec(n: nat, board: Board, cells: seq<Cell>)
    requires Total(board, n)
    requires forall c :: c in cells ==> ValidCell(c, n)
    ensures forall b :: b in NextBoardsOf(n, board, cells) <==>
              exists c: Cell, m: Cell :: c in cells && board[c] == Green && m in Moves(n, board, c)
                                         && b == GreenMoved(board, c, m)
  {
    if cells != [] {
      var init := cells[..|cells| - 1];
      var last := cells[|cells| - 1];
      assert forall c :: c in cells <==> c in init || c == last;
      NextBoardsOfSpec(n, board, init);
      var tail := if board[last] == Green then SuccessorsFrom(n, board, last) else [];
      assert NextBoardsOf(n, board, cells) == NextBoardsOf(n, board, init) + tail;
      forall b | b in tail
        ensures exists m: Cell :: board[last] == Green && m in Moves(n, board, last) && b == GreenMoved(board, last, m)
      {
        var i :| 0 <= i < |tail| && tail[i] == b;
        assert Moves(n, board, last)[i] in Moves(n, board, last);
      }
      forall m: Cell | board[last] == Green && m in Moves(n, board, last)
        ensures GreenMoved(board, last, m) in tail
      {
        var i :| 0 <= i < |Moves(n, board, last)| && Moves(n, board, last)[i] == m;
        assert tail[i] == GreenMoved(board, last, m);
      }
    }
  }

  /**
   * The successors are exactly the boards reachable by moving one green piece
   * to one of its destinations, and every one of them covers the grid again.
   */
  lemma NextBoardsSpec(n: nat, board: Board)
    requires Total(board, n)
    ensures forall b :: b in NextBoards(n, board) <==> GreenSuccessor(n, board, b)
    ensures forall b :: b in NextBoards(n, board) ==> Total(b, n)
  {
    GridCellsSpec(n);
    NextBoardsOfSpec(n, board, GridCells(n));
    forall b | b in NextBoards(n, board)
      ensures GreenSuccessor(n, board, b) && Total(b, n)
    {
      var c: Cell, m: Cell :| c in GridCells(n) && board[c] == Green && m in Moves(n, board, c)
                               && b == GreenMoved(board, c, m);
      GreenMovedIsMove(n, board, c, m);
    }
    forall b | GreenSuccessor(n, board, b)
      ensures b in NextBoards(n, board)
    {
      var c: Cell, m: Cell :| ValidCell(c, n) && board[c] == Green && m in Moves(n, board, c)
                               && b == MovePiece(board, c, m);
      GreenMovedIsMove(n, board, c, m);
    }
  }

  // ---------------------------------------------------------------------------
  // The search

  /**
   * The game tree minmax explores from `board` at `depth`: a leaf carrying
   * utility_fn where the position is terminal or the depth limit is reached,
   * otherwise one child per successor board in enumeration order.
   */
  function SearchTree(r: Rules, maxDepth: nat, board: Board, depth: nat): Tree
    requires Playable(r) && Total(board, r.boardSize) && depth <= maxDepth
    decreases maxDepth - depth
  {
    if IsTerminalState(r, board) || depth == maxDepth then Leaf(Utility(r, board))
    else
      var next := NextBoards(r.boardSize, board);
      NextBoardsSpec(r.boardSize, board);
      Node(seq(|next|, i requires 0 <= i < |next| => SearchTree(r, maxDepth, next[i], depth + 1)))
  }

  /** Below the depth limit at a non-terminal position the tree has one subtree per successor. */
  lemma SearchTreeNode(r: Rules, maxDepth: nat, board: Board, depth: nat)
    requires Playable(r) && Total(board, r.boardSize) && depth < maxDepth
    requires !IsTerminalState(r, board)
    ensures forall i :: 0 <= i < |NextBoards(r.boardSize, board)| ==> Total(NextBoards(r.boardSize, board)[i], r.boardSize)
    ensures SearchTree(r, maxDepth, board, depth).Node?
    ensures |SearchTree(r, maxDepth, board, depth).children| == |NextBoards(r.boardSize, board)|
    ensures forall i :: 0 <= i < |NextBoards(r.boardSize, board)| ==>
              SearchTree(r, maxDepth, board, depth).children[i]
              == SearchTree(r, maxDepth, NextBoards(r.boardSize, board)[i], depth + 1)
  {
    NextBoardsSpec(r.boardSize, board);
  }

  /**
   * Searching with the full window (-inf, +inf) gives the same value with
   * pruning as without, from any position and depth.
   */
  lemma MinmaxPruningAgrees(r: Rules, maxDepth: nat, board: Board, depth: nat, maximizing: bool)
    requires Playable(r) && Total(board, r.boardSize) && depth <= maxDepth
    ensures AlphaBeta(SearchTree(r, maxDepth, board, depth), NegInf, PosInf, maximizing)
         == Minimax(SearchTree(r, maxDepth, board, depth), maximizing)
  {
    AlphaBetaAtRootIsMinimax(SearchTree(r, maxDepth, board, depth), maximizing);
  }

  /**
   * execute_move keeps the scores honest: scores that counted red pieces on
   * green goals and green pieces on red goals still do so after a piece moves
   * onto an empty cell and its side's score is adjusted, as execute_move
   * adjusts it, for the goal it left and the goal it entered.
   */
  lemma ScoresFollowMove(n: int, before: Board, redGoals: seq<Cell>, greenGoals: seq<Cell>, sel: Cell, dest: Cell,
                         redScore0: int, greenScore0: int, redScore1: int, greenScore1: int)
    requires Total(before, n) && ValidCell(sel, n) && ValidCell(dest, n) && before[dest] == Empty
    requires forall c :: c in redGoals ==> ValidCell(c, n)
    requires forall c :: c in greenGoals ==> ValidCell(c, n)
    requires Distinct(redGoals) && Distinct(greenGoals)
    requires redScore0 == Count(before, greenGoals, Red) && greenScore0 == Count(before, redGoals, Green)
    requires before[sel] == Red ==>
               redScore1 == redScore0 - (if sel in greenGoals then 1 else 0) + (if dest in greenGoals then 1 else 0)
               && greenScore1 == greenScore0
    requires before[sel] == Green ==>
               greenScore1 == greenScore0 - (if sel in redGoals then 1 else 0) + (if dest in redGoals then 1 else 0)
               && redScore1 == redScore0
    requires before[sel] == Empty ==> redScore1 == redScore0 && greenScore1 == greenScore0
    ensures redScore1 == Count(MovePiece(before, sel, dest), greenGoals, Red)
    ensures greenScore1 == Count(MovePiece(before, sel, dest), redGoals, Green)
  {
    MoveCount(before, greenGoals, Red, sel, dest);
    MoveCount(before, redGoals, Green, sel, dest);
  }

  // ---------------------------------------------------------------------------
  // The game manager

  /** The board and counters of one game, and the AI's search settings. */
  class GameManager {
    var board: Board
    var boardSize: nat
    var aiSearchDepth: nat
    var pruning: bool
    var greenScore: int
    var redScore: int
    var greenToWin: int
    var redToWin: int
    var selectedPiece: Option<Cell>
    var greenGoals: seq<Cell>
    var redGoals: seq<Cell>
    /** Whose turn it is: Red or Green. */
    var turn: Occupant

    function GameRules(): Rules
      reads this
    {
      Rules(boardSize, redGoals, greenGoals)
    }

    /**
     * The manager's invariant: an even board of at least 2 with its two home
     * triangles as goal lists, a board covering the grid, each side's score
     * and goals-to-win adding up to the size of its goal list, and a turn.
     */
    ghost predicate Valid()
      reads this
    {
      && boardSize >= 2 && boardSize % 2 == 0
      && redGoals == RedHome(boardSize) && greenGoals == GreenHome(boardSize)
      && Playable(GameRules()) && |redGoals| == |greenGoals|
      && Total(board, boardSize)
      && redScore + redToWin == |redGoals|
      && greenScore + greenToWin == |greenGoals|
      && turn != Empty
    }

    /** The scores count red pieces on green goals and green pieces on red goals. */
    ghost predicate ScoresAgree()
      reads this
      requires Valid()
    {
      redScore == Count(board, greenGoals, Red) && greenScore == Count(board, redGoals, Green)
    }

    /**
     * __init__: the starting position of a board of even size, with the goal
     * lists, zero scores, goals-to-win counters equal to the triangle size
     * h(h+1)/2 for h = boardSize/2, no selection, and red to move.
     */
    constructor (boardSize: nat, aiSearchDepth: nat, pruning: bool)
      requires boardSize >= 2 && boardSize % 2 == 0
      ensures Valid() && ScoresAgree()
      ensures this.boardSize == boardSize && this.aiSearchDepth == aiSearchDepth && this.pruning == pruning
      ensures board == InitialBoard(boardSize)
      ensures redGoals == RedHome(boardSize) && greenGoals == GreenHome(boardSize)
      ensures redScore == 0 && greenScore == 0
      ensures 2 * redToWin == (boardSize / 2) * (boardSize / 2 + 1) && greenToWin == redToWin
      ensures selectedPiece == None && turn == Red
    {
      var b, rg, gg, rtw, gtw := BuildInitialBoard(boardSize);
      this.board := b;
      this.boardSize := boardSize;
      this.aiSearchDepth := aiSearchDepth;
      this.pruning := pruning;
      greenScore := 0;
      redScore := 0;
      greenToWin := gtw;
      redToWin := rtw;
      selectedPiece := None;
      greenGoals := gg;
      redGoals := rg;
      turn := Red;
      new;
      StandardRulesPlayable(boardSize);
      RedHomeSize(boardSize);
      InitialBoardSpec(boardSize);
      HomesDisjoint(boardSize);
      assert forall c :: c in greenGoals ==> board[c] == Green;
      assert forall c :: c in redGoals ==> board[c] == Red;
    }

    /** start_move: remembers the selected cell and returns its destinations. */
    method StartMove(cell: Cell) returns (possibleMoves: seq<Cell>)
      requires Valid()
      modifies this`selectedPiece
      ensures Valid()
      ensures selectedPiece == Some(cell)
      ensures possibleMoves == Moves(boardSize, board, cell)
    {
      selectedPiece := Some(cell);
      possibleMoves := GetMoves(cell, board, boardSize);
    }

    /**
     * execute_move: the mover (the piece on the selected cell) updates its own
     * side's counters for leaving or entering an opposing goal and hands the
     * turn over; then its occupant is copied to `dest` and the selected cell
     * emptied. An empty selected cell changes no counter and keeps the turn.
     */
    method ExecuteMove(dest: Cell)
      requires Valid()
      requires selectedPiece.Some? && ValidCell(selectedPiece.value, boardSize) && ValidCell(dest, boardSize)
      modifies this
      ensures Valid()
      ensures board == MovePiece(old(board), old(selectedPiece.value), dest)
      ensures selectedPiece == None
      ensures boardSize == old(boardSize) && aiSearchDepth == old(aiSearchDepth) && pruning == old(pruning)
      ensures redGoals == old(redGoals) && greenGoals == old(greenGoals)
      ensures old(board[selectedPiece.value]) == Red ==>
                && turn == Green
                && redScore == old(redScore) - (if old(selectedPiece.value) in greenGoals then 1 else 0)
                                             + (if dest in greenGoals then 1 else 0)
                && redToWin == old(redToWin) + (if old(selectedPiece.value) in greenGoals then 1 else 0)
                                             - (if dest in greenGoals then 1 else 0)
                && greenScore == old(greenScore) && greenToWin == old(greenToWin)
      ensures old(board[selectedPiece.value]) == Green ==>
                && turn == Red
                && greenScore == old(greenScore) - (if old(selectedPiece.value) in redGoals then 1 else 0)
                                                 + (if dest in redGoals then 1 else 0)
                && greenToWin == old(greenToWin) + (if old(selectedPiece.value) in redGoals then 1 else 0)
                                                 - (if dest in redGoals then 1 else 0)
                && redScore == old(redScore) && redToWin == old(redToWin)
      ensures old(board[selectedPiece.value]) == Empty ==>
                && turn == old(turn)
                && redScore == old(redScore) && redToWin == old(redToWin)
                && greenScore == old(greenScore) && greenToWin == old(greenToWin)
    {
      var sel := selectedPiece.value;
      UpdateCounters(sel, dest);
      MoveOnBoard(sel, dest);
    }

    /**
     * The counter part of execute_move: the side whose piece stands on `sel`
     * loses a point for leaving one of its target goals and gains one for
     * entering one, and the turn passes to the other side.
     */
    method UpdateCounters(sel: Cell, dest: Cell)
      requires Valid() && ValidCell(sel, boardSize)
      modifies this`redScore, this`redToWin, this`greenScore, this`greenToWin, this`turn
      ensures Valid()
      ensures board[sel] == Red ==>
                && turn == Green
                && redScore == old(redScore) - (if sel in greenGoals then 1 else 0) + (if dest in greenGoals then 1 else 0)
                && redToWin == old(redToWin) + (if sel in greenGoals then 1 else 0) - (if dest in greenGoals then 1 else 0)
                && greenScore == old(greenScore) && greenToWin == old(greenToWin)
      ensures board[sel] == Green ==>
                && turn == Red
                && greenScore == old(greenScore) - (if sel in redGoals then 1 else 0) + (if dest in redGoals then 1 else 0)
                && greenToWin == old(greenToWin) + (if sel in redGoals then 1 else 0) - (if dest in redGoals then 1 else 0)
                && redScore == old(redScore) && redToWin == old(redToWin)
      ensures board[sel] == Empty ==>
                && turn == old(turn)
                && redScore == old(redScore) && redToWin == old(redToWin)
                && greenScore == old(greenScore) && greenToWin == old(greenToWin)
    {
      if board[sel] == Red {
        if sel in greenGoals {
          redScore := redScore - 1;
          redToWin := redToWin + 1;
        }
        if dest in greenGoals {
          redScore := redScore + 1;
          redToWin := redToWin - 1;
        }
        turn := Green;
      } else if board[sel] == Green {
        if sel in redGoals {
          greenScore := greenScore - 1;
          greenToWin := greenToWin + 1;
        }
        if dest in redGoals {
          greenScore := greenScore + 1;
          greenToWin := greenToWin - 1;
        }
        turn := Red;
      }
    }

    /** The board part of execute_move: the piece on `sel` moves to `dest` and the selection is cleared. */
    method MoveOnBoard(sel: Cell, dest: Cell)
      requires Total(board, boardSize) && ValidCell(sel, boardSize) && ValidCell(dest, boardSize)
      modifies this`board, this`selectedPiece
      ensures Total(board, boardSize)
      ensures board == MovePiece(old(board), sel, dest)
      ensures selectedPiece == None
    {
      board := board[dest := board[sel]];
      board := board[sel := Empty];
      selectedPiece := None;
    }

    /**
     * The winner check_winner announces: red once its goals-to-win counter is
     * zero, otherwise green once its counter is, otherwise nobody yet. While
     * the scores track the board, the announced side occupies all of its
     * target goals, and a winner is announced exactly in a terminal position.
     */
    function Winner(): (w: Option<Occupant>)
      reads this
      ensures w == Some(Red) <==> redToWin == 0
      ensures w == Some(Green) <==> redToWin != 0 && greenToWin == 0
      ensures Valid() && ScoresAgree() ==>
                && (w == Some(Red) ==> forall g :: g in greenGoals ==> board[g] == Red)
                && (w == Some(Green) ==> forall g :: g in redGoals ==> board[g] == Green)
                && (w.Some? <==> IsTerminalState(GameRules(), board))
    {
      assert Valid() && ScoresAgree() ==>
               && (redToWin == 0 <==> forall g :: g in greenGoals ==> board[g] == Red)
               && (greenToWin == 0 <==> forall g :: g in redGoals ==> board[g] == Green) by {
        if Valid() && ScoresAgree() {
          CountersMatchGoals();
        }
      }
      if redToWin == 0 then Some(Red) else if greenToWin == 0 then Some(Green) else None
    }

    /**
     * While the scores track the board, a side's goals-to-win counter reaches
     * zero exactly when all of its target goals hold its pieces.
     */
    lemma CountersMatchGoals()
      requires Valid() && ScoresAgree()
      ensures redToWin == 0 <==> forall g :: g in greenGoals ==> board[g] == Red
      ensures greenToWin == 0 <==> forall g :: g in redGoals ==> board[g] == Green
    {
    }

    /** utility_fn: the accumulator loop over the board's cells in row-major order. */
    method UtilityFn(board: Board) returns (utility: int)
      requires Playable(GameRules()) && Total(board, boardSize)
      ensures utility == Utility(GameRules(), board)
    {
      var cells := GridCells(boardSize);
      GridCellsSpec(boardSize);
      utility := 0;
      for i := 0 to |cells|
        invariant utility == ScoreSum(GameRules(), board, cells[..i])
      {
        utility := AddCellUtility(board, cells[i], utility);
        assert cells[..i + 1][..i] == cells[..i];
      }
      assert cells[..|cells|] == cells;
    }

    /** One pass of utility_fn's loop: adds what the piece on `cell` contributes. */
    method AddCellUtility(board: Board, cell: Cell, utility0: int) returns (utility: int)
      requires Playable(GameRules()) && Total(board, boardSize) && ValidCell(cell, boardSize)
      ensures utility == utility0 + CellScore(GameRules(), board, cell)
    {
      utility := utility0;
      var state := board[cell];
      if state == Red {
        if cell !in greenGoals {
          var d := GetClosestGoalDistance(cell, greenGoals);
          utility := utility - d.value;
        } else {
          utility := utility + boardSize * 2;
        }
        var moves := GetMoves(cell, board, boardSize);
        utility := utility + |moves|;
      }
      if state == Green {
        if cell !in redGoals {
          var d := GetClosestGoalDistance(cell, redGoals);
          utility := utility + d.value;
        } else {
          utility := utility - boardSize * 2;
        }
        var moves := GetMoves(cell, board, boardSize);
        utility := utility - |moves|;
      }
    }

    /**
     * ai_get_next_moves: for every green piece, in row-major order, a copy of
     * the board with that piece moved to each of its destinations.
     */
    method AiGetNextMoves(board: Board) returns (res: seq<Board>)
      requires Total(board, boardSize)
      ensures res == NextBoards(boardSize, board)
    {
      var cells := GridCells(boardSize);
      GridCellsSpec(boardSize);
      res := [];
      for i := 0 to |cells|
        invariant res == NextBoardsOf(boardSize, board, cells[..i])
      {
        var cell := cells[i];
        assert cells[..i + 1][..i] == cells[..i];
        if board[cell] == Green {
          res := AppendSuccessors(board, cell, res);
        }
      }
      assert cells[..|cells|] == cells;
    }

    /** The inner loop of ai_get_next_moves: one new board per destination of the piece on `cell`. */
    method AppendSuccessors(board: Board, cell: Cell, res0: seq<Board>) returns (res: seq<Board>)
      requires Total(board, boardSize)
      ensures res == res0 + SuccessorsFrom(boardSize, board, cell)
    {
      var moves := GetMoves(cell, board, boardSize);
      ghost var succ := SuccessorsFrom(boardSize, board, cell);
      res := res0;
      for j := 0 to |moves|
        invariant res == res0 + succ[..j]
      {
        var newBoard := board[cell := Empty];
        newBoard := newBoard[moves[j] := Green];
        assert succ[..j + 1] == succ[..j] + [newBoard];
        res := res + [newBoard];
      }
      assert succ[..|moves|] == succ;
    }

    /**
     * minmax: the value of `board` searched from `depth` to ai_search_depth;
     * with pruning on it is the alpha-beta value for the window (alpha, beta),
     * otherwise the plain minimax value. Green is the minimizing side.
     */
    method Minmax(board: Board, depth: nat, alpha: ExtInt, beta: ExtInt, maximizing: bool) returns (v: ExtInt)
      requires Playable(GameRules()) && Total(board, boardSize) && depth <= aiSearchDepth
      ensures pruning ==> v == AlphaBeta(SearchTree(GameRules(), aiSearchDepth, board, depth), alpha, beta, maximizing)
      ensures !pruning ==> v == Minimax(SearchTree(GameRules(), aiSearchDepth, board, depth), maximizing)
      ensures IsTerminalState(GameRules(), board) || depth == aiSearchDepth ==> v == Fin(Utility(GameRules(), board))
      ensures !IsTerminalState(GameRules(), board) && depth < aiSearchDepth && NextBoards(boardSize, board) == [] ==>
                v == (if maximizing then NegInf else PosInf)
      decreases aiSearchDepth - depth, 2
    {
      if IsTerminalState(GameRules(), board) || depth == aiSearchDepth {
        var u := UtilityFn(board);
        return Fin(u);
      }
      var nextMoves := AiGetNextMoves(board);
      SearchTreeNode(GameRules(), aiSearchDepth, board, depth);
      if maximizing {
        v := MaxValue(board, depth, alpha, beta, nextMoves);
      } else {
        v := MinValue(board, depth, alpha, beta, nextMoves);
      }
    }

    /** The maximizing branch of minmax: the loop over the successors, raising alpha when pruning. */
    method MaxValue(board: Board, depth: nat, alpha: ExtInt, beta: ExtInt, nextMoves: seq<Board>) returns (maxUtility: ExtInt)
      requires Playable(GameRules()) && Total(board, boardSize) && depth < aiSearchDepth
      requires !IsTerminalState(GameRules(), board) && nextMoves == NextBoards(boardSize, board)
      ensures pruning ==> maxUtility == AlphaBeta(SearchTree(GameRules(), aiSearchDepth, board, depth), alpha, beta, true)
      ensures !pruning ==> maxUtility == Minimax(SearchTree(GameRules(), aiSearchDepth, board, depth), true)
      decreases aiSearchDepth - depth, 1
    {
      ghost var t := SearchTree(GameRules(), aiSearchDepth, board, depth);
      SearchTreeNode(GameRules(), aiSearchDepth, board, depth);
      var a := alpha;
      maxUtility := NegInf;
      var i := 0;
      while i < |nextMoves|
        invariant i <= |nextMoves|
        invariant pruning ==> AlphaBetaFrom(t, i, a, beta, true, maxUtility) == AlphaBeta(t, alpha, beta, true)
        invariant !pruning ==> MinimaxFrom(t, i, true, maxUtility) == Minimax(t, true)
      {
        var stop;
        maxUtility, a, stop := MaxChild(board, depth, t, i, a, beta, maxUtility, nextMoves);
        if stop {
          break;
        }
        i := i + 1;
      }
    }

    /**
     * One pass of the maximizing loop: searches successor `i`, raises the running
     * best and, when pruning, alpha, and says whether the loop stops here.
     */
    method MaxChild(board: Board, depth: nat, ghost t: Tree, i: nat, a: ExtInt, beta: ExtInt, best: ExtInt, nextMoves: seq<Board>)
      returns (best': ExtInt, a': ExtInt, stop: bool)
      requires Playable(GameRules()) && Total(board, boardSize) && depth < aiSearchDepth
      requires !IsTerminalState(GameRules(), board) && nextMoves == NextBoards(boardSize, board)
      requires t == SearchTree(GameRules(), aiSearchDepth, board, depth) && t.Node? && i < |t.children| == |nextMoves|
      ensures stop ==> pruning && AlphaBetaFrom(t, i, a, beta, true, best) == best'
      ensures !stop && pruning ==> AlphaBetaFrom(t, i, a, beta, true, best) == AlphaBetaFrom(t, i + 1, a', beta, true, best')
      ensures !pruning ==> !stop && MinimaxFrom(t, i, true, best) == MinimaxFrom(t, i + 1, true, best')
      decreases aiSearchDepth - depth, 0
    {
      SearchTreeNode(GameRules(), aiSearchDepth, board, depth);
      var utility := Minmax(nextMoves[i], depth + 1, a, beta, false);
      assert t.children[i] == SearchTree(GameRules(), aiSearchDepth, nextMoves[i], depth + 1);
      best' := Max(best, utility);
      a', stop := a, false;
      if pruning {
        a' := Max(a, best');
        stop := Le(beta, a');
      }
    }

    /** The minimizing branch of minmax: the loop over the successors, lowering beta when pruning. */
    method MinValue(board: Board, depth: nat, alpha: ExtInt, beta: ExtInt, nextMoves: seq<Board>) returns (minUtility: ExtInt)
      requires Playable(GameRules()) && Total(board, boardSize) && depth < aiSearchDepth
      requires !IsTerminalState(GameRules(), board) && nextMoves == NextBoards(boardSize, board)
      ensures pruning ==> minUtility == AlphaBeta(SearchTree(GameRules(), aiSearchDepth, board, depth), alpha, beta, false)
      ensures !pruning ==> minUtility == Minimax(SearchTree(GameRules(), aiSearchDepth, board, depth), false)
      decreases aiSearchDepth - depth, 1
    {
      ghost var t := SearchTree(GameRules(), aiSearchDepth, board, depth);
      SearchTreeNode(GameRules(), aiSearchDepth, board, depth);
      var b := beta;
      minUtility := PosInf;
      var i := 0;
      while i < |nextMoves|
        invariant i <= |nextMoves|
        invariant pruning ==> AlphaBetaFrom(t, i, alpha, b, false, minUtility) == AlphaBeta(t, alpha, beta, false)
        invariant !pruning ==> MinimaxFrom(t, i, false, minUtility) == Minimax(t, false)
      {
        var stop;
        minUtility, b, stop := MinChild(board, depth, t, i, alpha, b, minUtility, nextMoves);
        if stop {
          break;
        }
        i := i + 1;
      }
    }

    /**
     * One pass of the minimizing loop: searches successor `i`, lowers the running
     * best and, when pruning, beta, and says whether the loop stops here.
     */
    method MinChild(board: Board, depth: nat, ghost t: Tree, i: nat, alpha: ExtInt, b: ExtInt, best: ExtInt, nextMoves: seq<Board>)
      returns (best': ExtInt, b': ExtInt, stop: bool)
      requires Playable(GameRules()) && Total(board, boardSize) && depth < aiSearchDepth
      requires !IsTerminalState(GameRules(), board) && nextMoves == NextBoards(boardSize, board)
      requires t == SearchTree(GameRules(), aiSearchDepth, board, depth) && t.Node? && i < |t.children| == |nextMoves|
      ensures stop ==> pruning && AlphaBetaFrom(t, i, alpha, b, false, best) == best'
      ensures !stop && pruning ==> AlphaBetaFrom(t, i, alpha, b, false, best) == AlphaBetaFrom(t, i + 1, alpha, b', false, best')
      ensures !pruning ==> !stop && MinimaxFrom(t, i, false, best) == MinimaxFrom(t, i + 1, false, best')
      decreases aiSearchDepth - depth, 0
    {
      SearchTreeNode(GameRules(), aiSearchDepth, board, depth);
      var utility := Minmax(nextMoves[i], depth + 1, alpha, b, true);
      assert t.children[i] == SearchTree(GameRules(), aiSearchDepth, nextMoves[i], depth + 1);
      best' := Min(best, utility);
      b', stop := b, false;
      if pruning {
        b' := Min(b, best');
        stop := Le(b', alpha);
      }
    }
  }
}
