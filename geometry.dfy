/**
 * Cells, occupants and boards, and the integer helpers of the move
 * generator: the bounds test, the eight move directions, the test for a
 * neighbouring piece, the Manhattan distance and the closest-goal distance.
 */
module Geometry {
  import opened ExtInts

  /** A (row, col) coordinate; rows and columns run from 0 to board_size - 1. */
  type Cell = (int, int)

  datatype Occupant = Empty | Red | Green

  /** A value that may be missing, such as the selected piece before a click. */
  datatype Option<T> = None | Some(value: T)

  /** A board maps every cell of the grid to its occupant. */
  type Board = map<Cell, Occupant>

  predicate IsPiece(o: Occupant)
  {
    o == Red || o == Green
  }

  /** The eight unit steps, in the order the generator tries them. */
  const MoveDirs: seq<Cell> := [(1, 0), (-1, 0), (0, 1), (0, -1), (-1, 1), (1, 1), (-1, -1), (1, -1)]

  function Add(a: Cell, d: Cell): Cell
  {
    (a.0 + d.0, a.1 + d.1)
  }

  /** The bounds test valid_cell: 0 <= row < n and 0 <= col < n. */
  predicate ValidCell(c: Cell, n: int)
  {
    c.0 < n && c.0 > -1 && c.1 < n && c.1 > -1
  }

  /** The board has an entry for exactly the cells of the n-by-n grid. */
  ghost predicate Total(board: Board, n: int)
  {
    forall c :: c in board <==> ValidCell(c, n)
  }

  function Grid(n: int): set<Cell>
  {
    set r, c | 0 <= r < n && 0 <= c < n :: (r, c)
  }

  lemma InGrid(c: Cell, n: int)
    ensures c in Grid(n) <==> ValidCell(c, n)
  {
    if ValidCell(c, n) {
      assert (c.0, c.1) in Grid(n);
    }
  }

  ghost predicate Distinct<T>(s: seq<T>)
  {
    forall i, j :: 0 <= i < j < |s| ==> s[i] != s[j]
  }

  /** Row `r` of the grid, left to right. */
  function RowCells(r: int, n: nat): seq<Cell>
  {
    seq(n, c requires 0 <= c < n => (r, c))
  }

  /** Rows 0 .. rows-1 of the grid, in row-major order. */
  function GridRows(n: nat, rows: nat): seq<Cell>
  {
    if rows == 0 then [] else GridRows(n, rows - 1) + RowCells(rows - 1, n)
  }

  /**
   * The cells of the grid in row-major order: the order in which the board
   * dictionary receives its keys when it is built, and hence the order in
   * which every scan over the board's items visits them.
   */
  function GridCells(n: nat): seq<Cell>
  {
    GridRows(n, n)
  }

  lemma {:induction false} GridRowsSpec(n: nat, rows: nat)
    ensures forall c :: c in GridRows(n, rows) <==> 0 <= c.0 < rows && 0 <= c.1 < n
    ensures Distinct(GridRows(n, rows))
    ensures forall i :: 0 <= i < |GridRows(n, rows)| ==> GridRows(n, rows)[i].0 < rows
  {
    if rows > 0 {
      GridRowsSpec(n, rows - 1);
      var a, b := GridRows(n, rows - 1), RowCells(rows - 1, n);
      assert GridRows(n, rows) == a + b;
      forall c: Cell
        ensures c in a + b <==> 0 <= c.0 < rows && 0 <= c.1 < n
      {
        if 0 <= c.0 < rows && 0 <= c.1 < n && c.0 == rows - 1 {
          assert b[c.1] == c;
        }
      }
      forall i, j | 0 <= i < j < |a + b|
        ensures (a + b)[i] != (a + b)[j]
      {
        if i < |a| <= j {
          assert (a + b)[i].0 < rows - 1;
        }
      }
    }
  }

  /** The row-major cell list covers the grid exactly, once each. */
  lemma GridCellsSpec(n: nat)
    ensures forall c :: c in GridCells(n) <==> ValidCell(c, n)
    ensures Distinct(GridCells(n))
  {
    GridRowsSpec(n, n);
  }

  /** A cell of the grid that holds a red or a green piece. */
  predicate Occupied(n: int, board: Board, c: Cell)
    requires Total(board, n)
  {
    ValidCell(c, n) && IsPiece(board[c])
  }

  /**
   * How many entries of `cells` hold `o` on `board`; a cell listed twice is
   * counted twice (the goal lists never repeat a cell).
   */
  function Count(board: Board, cells: seq<Cell>, o: Occupant): (k: nat)
    requires forall c :: c in cells ==> c in board
    ensures k <= |cells|
    ensures k == |cells| <==> forall c :: c in cells ==> board[c] == o
    ensures k == 0 <==> forall c :: c in cells ==> board[c] != o
  {
    if cells == [] then 0
    else
      var init := cells[..|cells| - 1];
      assert forall c :: c in cells <==> c in init || c == cells[|cells| - 1];
      Count(board, init, o) + (if board[cells[|cells| - 1]] == o then 1 else 0)
  }

  /** Overwriting one cell changes a count over distinct cells by what left it and what arrived. */
  lemma {:induction false} CountUpdate(board: Board, cells: seq<Cell>, o: Occupant, x: Cell, v: Occupant)
    requires forall c :: c in cells ==> c in board
    requires Distinct(cells) && x in board
    ensures Count(board[x := v], cells, o)
         == Count(board, cells, o) - (if x in cells && board[x] == o then 1 else 0)
                                   + (if x in cells && v == o then 1 else 0)
  {
    if cells != [] {
      var init := cells[..|cells| - 1];
      var last := cells[|cells| - 1];
      assert forall c :: c in cells <==> c in init || c == last;
      assert Distinct(init) by {
        forall i, j | 0 <= i < j < |init|
          ensures init[i] != init[j]
        {
          assert init[i] == cells[i] && init[j] == cells[j];
        }
      }
      CountUpdate(board, init, o, x, v);
    }
  }

  /**
   * What execute_move does to the board: the selected cell's occupant is
   * copied to the destination, then the selected cell is emptied.
   */
  function MovePiece(board: Board, from: Cell, dest: Cell): (b: Board)
    requires from in board
    ensures forall c :: c in b <==> c in board || c == dest
    ensures b[from] == Empty
    ensures dest != from ==> b[dest] == board[from]
    ensures forall c :: c in board && c != from && c != dest ==> b[c] == board[c]
  {
    board[dest := board[from]][from := Empty]
  }

  /**
   * Moving a piece onto an empty cell changes a count of pieces of colour `o`
   * over distinct cells only by the piece leaving `from` and arriving at `dest`.
   */
  lemma MoveCount(board: Board, cells: seq<Cell>, o: Occupant, from: Cell, dest: Cell)
    requires forall c :: c in cells ==> c in board
    requires Distinct(cells) && from in board && dest in board
    requires board[dest] == Empty && o != Empty
    ensures Count(MovePiece(board, from, dest), cells, o)
         == Count(board, cells, o) - (if from in cells && board[from] == o then 1 else 0)
                                   + (if dest in cells && board[from] == o then 1 else 0)
  {
    var b1 := board[dest := board[from]];
    CountUpdate(board, cells, o, dest, board[from]);
    CountUpdate(b1, cells, o, from, Empty);
  }

  /**
   * check_for_surrounding_piece, from direction `k` on: scans the directions
   * in order and stops at the first in-bounds neighbour that holds a piece.
   */
  function SurroundingFrom(n: int, board: Board, cell: Cell, k: nat): (found: bool)
    requires Total(board, n) && k <= |MoveDirs|
    ensures found <==> exists j :: k <= j < |MoveDirs| && Occupied(n, board, Add(cell, MoveDirs[j]))
    decreases |MoveDirs| - k
  {
    if k == |MoveDirs| then false
    else
      var adj := Add(cell, MoveDirs[k]);
      if ValidCell(adj, n) && (board[adj] == Red || board[adj] == Green) then true
      else SurroundingFrom(n, board, cell, k + 1)
  }

  /** True exactly when some in-bounds 8-neighbour of `cell` holds a piece. */
  function CheckForSurroundingPiece(n: int, board: Board, cell: Cell): (found: bool)
    requires Total(board, n)
    ensures found <==> exists j :: 0 <= j < |MoveDirs| && Occupied(n, board, Add(cell, MoveDirs[j]))
  {
    SurroundingFrom(n, board, cell, 0)
  }

  /** The index of the direction opposite to direction `k`. */
  function Opposite(k: nat): (j: nat)
    requires k < |MoveDirs|
    ensures j < |MoveDirs| && MoveDirs[j] == (-MoveDirs[k].0, -MoveDirs[k].1)
  {
    [1, 0, 3, 2, 7, 6, 5, 4][k]
  }

  /**
   * A cell just reached by jumping over a piece always has that piece as a
   * neighbour, so the generator's continuation test never fails on a landing.
   */
  lemma LandingHasSurroundingPiece(n: int, board: Board, mid: Cell, k: nat)
    requires Total(board, n) && k < |MoveDirs|
    requires Occupied(n, board, mid)
    ensures CheckForSurroundingPiece(n, board, Add(mid, MoveDirs[k]))
  {
    var j := Opposite(k);
    assert Add(Add(mid, MoveDirs[k]), MoveDirs[j]) == mid;
  }

  function Abs(x: int): nat
  {
    if x < 0 then -x else x
  }

  /** |dr| + |dc|: never negative, and zero exactly on the same cell. */
  function ManhattanDistance(a: Cell, b: Cell): (d: int)
    ensures d >= 0
    ensures d == 0 <==> a == b
  {
    Abs(b.0 - a.0) + Abs(b.1 - a.1)
  }

  lemma ManhattanSymmetric(a: Cell, b: Cell)
    ensures ManhattanDistance(a, b) == ManhattanDistance(b, a)
  {
  }

  /** The smallest Manhattan distance from `cell` to a goal (goals taken in order). */
  function MinGoalDistance(cell: Cell, goals: seq<Cell>): (d: int)
    requires |goals| > 0
    ensures exists i :: 0 <= i < |goals| && d == ManhattanDistance(cell, goals[i])
    ensures forall i :: 0 <= i < |goals| ==> d <= ManhattanDistance(cell, goals[i])
    ensures d >= 0
    ensures d == 0 <==> cell in goals
  {
    var last := ManhattanDistance(cell, goals[|goals| - 1]);
    if |goals| == 1 then last
    else
      var prev := MinGoalDistance(cell, goals[..|goals| - 1]);
      if prev <= last then prev else last
  }

  /**
   * get_closest_goal_distance: starts from +inf and lowers it goal by goal, so
   * it is +inf for an empty goal list and the least distance otherwise.
   */
  method GetClosestGoalDistance(cell: Cell, goals: seq<Cell>) returns (closest: ExtInt)
    ensures goals == [] ==> closest == PosInf
    ensures goals != [] ==> closest == Fin(MinGoalDistance(cell, goals))
  {
    closest := PosInf;
    for i := 0 to |goals|
      invariant closest == if i == 0 then PosInf else Fin(MinGoalDistance(cell, goals[..i]))
    {
      closest := Min(closest, Fin(ManhattanDistance(cell, goals[i])));
      assert goals[..i + 1][..i] == goals[..i];
    }
    assert goals[..|goals|] == goals;
  }
}
