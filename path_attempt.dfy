/**
 * The smaller GameManager of halmapathattempt.py: a board without goal lists
 * or counters, a selection, and the path-aware move generator.
 */
module PathAttempt {
  import opened Geometry
  import opened MoveGen
  import opened PathMoveGen
  import opened Setup

  /** The number of cells of the grid that hold `o`. */
  function PieceCount(n: nat, board: Board, o: Occupant): nat
    requires Total(board, n)
  {
    GridCellsSpec(n);
    Count(board, GridCells(n), o)
  }

  /**
   * Moving a piece onto an empty cell of the grid keeps the number of pieces
   * of each colour on the board.
   */
  lemma MovePreservesPieces(n: nat, board: Board, from: Cell, dest: Cell, o: Occupant)
    requires Total(board, n) && ValidCell(from, n) && ValidCell(dest, n)
    requires board[dest] == Empty && o != Empty
    ensures Total(MovePiece(board, from, dest), n)
    ensures PieceCount(n, MovePiece(board, from, dest), o) == PieceCount(n, board, o)
  {
    GridCellsSpec(n);
    MoveCount(board, GridCells(n), o, from, dest);
  }

  class GameManager {
    var board: Board
    var boardSize: nat
    var selectedPiece: Option<Cell>

    /**
     * __init__: the same starting position as halma.py, red triangle top-left
     * and green triangle bottom-right, with nothing selected.
     */
    constructor (boardSize: nat)
      ensures this.boardSize == boardSize
      ensures board == InitialBoard(boardSize)
      ensures Total(board, boardSize)
      ensures selectedPiece == None
    {
      var b, _, _, _, _ := BuildInitialBoard(boardSize);
      this.board := b;
      this.boardSize := boardSize;
      selectedPiece := None;
      new;
      InitialBoardSpec(boardSize);
    }

    /** start_move: selects `cell` and returns its destinations. */
    method StartMove(cell: Cell) returns (possibleMoves: seq<Cell>)
      requires Total(board, boardSize)
      modifies this`selectedPiece
      ensures selectedPiece == Some(cell)
      ensures possibleMoves == Moves(boardSize, board, cell)
    {
      selectedPiece := Some(cell);
      var r := PathMoveGen.GetMoves(cell, board, boardSize, false);
      possibleMoves := r.moves;
    }

    /**
     * check_moves: selects `cell` and returns the path to each destination,
     * every one starting at `cell` and ending at the matching destination.
     */
    method CheckMoves(cell: Cell) returns (movePaths: seq<seq<Cell>>)
      requires Total(board, boardSize)
      modifies this`selectedPiece
      ensures selectedPiece == Some(cell)
      ensures movePaths == MovePaths(boardSize, board, cell)
      ensures |movePaths| == |Moves(boardSize, board, cell)|
      ensures forall i :: 0 <= i < |movePaths| ==>
                |movePaths[i]| >= 2 && movePaths[i][0] == cell
                && movePaths[i][|movePaths[i]| - 1] == Moves(boardSize, board, cell)[i]
    {
      selectedPiece := Some(cell);
      var r := PathMoveGen.GetMoves(cell, board, boardSize, true);
      movePaths := r.paths;
      PathsMatchMoves(boardSize, board, cell);
    }

    /**
     * execute_move: the selected piece moves to `dest`, its cell is emptied,
     * and the selection is cleared; onto an empty cell, no piece is lost.
     */
    method ExecuteMove(dest: Cell)
      requires Total(board, boardSize)
      requires selectedPiece.Some? && ValidCell(selectedPiece.value, boardSize) && ValidCell(dest, boardSize)
      modifies this`board, this`selectedPiece
      ensures Total(board, boardSize)
      ensures board == MovePiece(old(board), old(selectedPiece.value), dest)
      ensures selectedPiece == None
      ensures old(board[dest]) == Empty ==>
                && PieceCount(boardSize, board, Red) == PieceCount(boardSize, old(board), Red)
                && PieceCount(boardSize, board, Green) == PieceCount(boardSize, old(board), Green)
    {
      var sel := selectedPiece.value;
      ghost var before := board;
      board := board[dest := board[sel]];
      board := board[sel := Empty];
      selectedPiece := None;
      if before[dest] == Empty {
        MovePreservesPieces(boardSize, before, sel, dest, Red);
        MovePreservesPieces(boardSize, before, sel, dest, Green);
      }
    }
  }
}
