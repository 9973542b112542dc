/**
 * The starting position built by GameManager.__init__: every cell of the
 * n-by-n grid empty, then a red triangle in the top-left corner and a green
 * triangle in the bottom-right corner. With h = n / 2, the red home holds the
 * cells (r, c) with r < h and c < h - r, listed row by row from the top and
 * left to right; the green home holds the cells of rows h .. n-1 with
 * c >= h + (n - 1 - r), listed from the bottom row up and right to left. The
 * two lists are the goal lists of the game: red's home is green's goal.
 */
module Setup {
  import opened Geometry

  /** Row r of the red home, left to right. */
  function RedRow(h: nat, r: nat): seq<Cell>
    requires r < h
  {
    seq(h - r, c requires 0 <= c < h - r => (r, c))
  }

  /** The first `rows` rows of the red home. */
  function RedRows(h: nat, rows: nat): seq<Cell>
    requires rows <= h
  {
    if rows == 0 then [] else RedRows(h, rows - 1) + RedRow(h, rows - 1)
  }

  /** red_goals: the red home in the order __init__ appends it. */
  function RedHome(n: nat): seq<Cell>
  {
    RedRows(n / 2, n / 2)
  }

  /** Row `row` of the green home, right to left. */
  function GreenRow(n: nat, h: nat, row: nat): seq<Cell>
    requires h <= row < n
  {
    seq(row - h + 1, i requires 0 <= i < row - h + 1 => (row, n - 1 - i))
  }

  /** The bottom `k` rows of the green home, bottom row first. */
  function GreenRows(n: nat, h: nat, k: nat): seq<Cell>
    requires h <= n && k <= n - h
  {
    if k == 0 then [] else GreenRows(n, h, k - 1) + GreenRow(n, h, n - k)
  }

  /** green_goals: the green home in the order __init__ appends it. */
  function GreenHome(n: nat): seq<Cell>
  {
    GreenRows(n, n / 2, n - n / 2)
  }

  /** What __init__ leaves on a cell of the grid. */
  function StartOccupant(n: nat, c: Cell): Occupant
  {
    if c in RedHome(n) then Red else if c in GreenHome(n) then Green else Empty
  }

  /** The board __init__ builds. */
  function InitialBoard(n: nat): Board
  {
    map c | c in Grid(n) :: StartOccupant(n, c)
  }

  lemma {:induction false} RedRowsSpec(h: nat, rows: nat)
    requires rows <= h
    ensures forall c :: c in RedRows(h, rows) <==> 0 <= c.0 < rows && 0 <= c.1 < h - c.0
    ensures Distinct(RedRows(h, rows))
    ensures forall i :: 0 <= i < |RedRows(h, rows)| ==> RedRows(h, rows)[i].0 < rows
  {
    if rows > 0 {
      RedRowsSpec(h, rows - 1);
      var a, b := RedRows(h, rows - 1), RedRow(h, rows - 1);
      assert RedRows(h, rows) == a + b;
      forall c: Cell
        ensures c in a + b <==> 0 <= c.0 < rows && 0 <= c.1 < h - c.0
      {
        if c.0 == rows - 1 && 0 <= c.1 < h - c.0 {
          assert b[c.1] == c;
        }
      }
      forall i, j | 0 <= i < j < |a + b|
        ensures (a + b)[i] != (a + b)[j]
      {
        if i < |a| <= j {
          assert (a + b)[i].0 < rows - 1;
        }
      }
    }
  }

  lemma {:induction false} GreenRowsSpec(n: nat, h: nat, k: nat)
    requires h <= n && k <= n - h
    ensures forall c :: c in GreenRows(n, h, k) <==> n - k <= c.0 < n && h + (n - 1 - c.0) <= c.1 < n
    ensures Distinct(GreenRows(n, h, k))
    ensures forall i :: 0 <= i < |GreenRows(n, h, k)| ==> GreenRows(n, h, k)[i].0 >= n - k
  {
    if k > 0 {
      GreenRowsSpec(n, h, k - 1);
      var a, b := GreenRows(n, h, k - 1), GreenRow(n, h, n - k);
      assert GreenRows(n, h, k) == a + b;
      forall c: Cell
        ensures c in a + b <==> n - k <= c.0 < n && h + (n - 1 - c.0) <= c.1 < n
      {
        if c.0 == n - k && h + (n - 1 - c.0) <= c.1 < n {
          assert b[n - 1 - c.1] == c;
        }
      }
      forall i, j | 0 <= i < j < |a + b|
        ensures (a + b)[i] != (a + b)[j]
      {
        if i < |a| <= j {
          assert (a + b)[i].0 > n - k;
        }
      }
    }
  }

  /**
   * The red home is the top-left triangle: rows r < h, columns c < h - r;
   * no cell is listed twice.
   */
  lemma RedHomeSpec(n: nat)
    ensures forall c :: c in RedHome(n) <==> 0 <= c.0 < n / 2 && 0 <= c.1 < n / 2 - c.0
    ensures Distinct(RedHome(n))
  {
    RedRowsSpec(n / 2, n / 2);
  }

  /**
   * The green home is the bottom-right triangle: rows r >= h, columns
   * c >= h + (n - 1 - r); no cell is listed twice.
   */
  lemma GreenHomeSpec(n: nat)
    ensures forall c :: c in GreenHome(n) <==> n / 2 <= c.0 < n && n / 2 + (n - 1 - c.0) <= c.1 < n
    ensures Distinct(GreenHome(n))
  {
    GreenRowsSpec(n, n / 2, n - n / 2);
  }

  /** Both homes lie inside the grid and share no cell. */
  lemma HomesDisjoint(n: nat)
    ensures forall c :: c in RedHome(n) ==> ValidCell(c, n) && c !in GreenHome(n)
    ensures forall c :: c in GreenHome(n) ==> ValidCell(c, n)
  {
    RedHomeSpec(n);
    GreenHomeSpec(n);
  }

  lemma {:induction false} RedRowsSize(h: nat, rows: nat)
    requires rows <= h
    ensures 2 * |RedRows(h, rows)| == rows * (2 * h - rows + 1)
  {
    if rows > 0 {
      RedRowsSize(h, rows - 1);
      assert 2 * |RedRows(h, rows)| == (rows - 1) * (2 * h - rows + 2) + 2 * (h - rows + 1);
    }
  }

  /** The red home, and so red_to_win at the start, has h(h+1)/2 cells. */
  lemma RedHomeSize(n: nat)
    ensures 2 * |RedHome(n)| == (n / 2) * (n / 2 + 1)
  {
    RedRowsSize(n / 2, n / 2);
  }

  /** The point reflection through the centre of the board. */
  function Mirror(n: int, c: Cell): Cell
  {
    (n - 1 - c.0, n - 1 - c.1)
  }

  function MirrorAll(n: int, s: seq<Cell>): (m: seq<Cell>)
    ensures |m| == |s| && forall i :: 0 <= i < |s| ==> m[i] == Mirror(n, s[i])
  {
    seq(|s|, i requires 0 <= i < |s| => Mirror(n, s[i]))
  }

  lemma {:induction false} GreenRowsMirror(n: nat, k: nat)
    requires n % 2 == 0 && k <= n / 2
    ensures GreenRows(n, n / 2, k) == MirrorAll(n, RedRows(n / 2, k))
  {
    if k > 0 {
      GreenRowsMirror(n, k - 1);
      var h := n / 2;
      assert GreenRow(n, h, n - k) == MirrorAll(n, RedRow(h, k - 1));
      var a, b := RedRows(h, k - 1), RedRow(h, k - 1);
      assert MirrorAll(n, a + b) == MirrorAll(n, a) + MirrorAll(n, b);
    }
  }

  /**
   * On an even board green_goals is red_goals reflected through the centre,
   * entry by entry: both have h(h+1)/2 cells and green_goals[i] is the mirror
   * image of red_goals[i].
   */
  lemma GreenHomeMirrorsRed(n: nat)
    requires n % 2 == 0
    ensures |GreenHome(n)| == |RedHome(n)|
    ensures forall i :: 0 <= i < |RedHome(n)| ==> GreenHome(n)[i] == Mirror(n, RedHome(n)[i])
  {
    GreenRowsMirror(n, n / 2);
  }

  /**
   * The initial board covers the grid; a cell is red exactly in the top-left
   * triangle, green exactly in the bottom-right one, and empty elsewhere.
   */
  lemma InitialBoardSpec(n: nat)
    ensures Total(InitialBoard(n), n)
    ensures forall c :: ValidCell(c, n) ==>
              (InitialBoard(n)[c] == Red <==> c.0 < n / 2 && c.1 < n / 2 - c.0)
              && (InitialBoard(n)[c] == Green <==> n / 2 <= c.0 && n / 2 + (n - 1 - c.0) <= c.1)
  {
    forall c: Cell
      ensures c in InitialBoard(n) <==> ValidCell(c, n)
    {
      InGrid(c, n);
    }
    RedHomeSpec(n);
    GreenHomeSpec(n);
  }

  /** On an even board the starting position is symmetric: green exactly where the mirror cell is red. */
  lemma InitialBoardSymmetric(n: nat, c: Cell)
    requires n % 2 == 0 && ValidCell(c, n)
    ensures InitialBoard(n)[c] == Green <==> InitialBoard(n)[Mirror(n, c)] == Red
  {
    InitialBoardSpec(n);
  }

  /**
   * The board-building loops of __init__: fill the grid with empty cells row
   * by row, then place the red triangle (appending each cell to red_goals and
   * counting red_to_win), then the green triangle from the bottom-right corner.
   */
  method BuildInitialBoard(n: nat)
    returns (board: Board, redGoals: seq<Cell>, greenGoals: seq<Cell>, redToWin: int, greenToWin: int)
    ensures board == InitialBoard(n)
    ensures redGoals == RedHome(n) && greenGoals == GreenHome(n)
    ensures redToWin == |redGoals| && greenToWin == |greenGoals|
  {
    board := FillEmpty(n);
    board, redGoals, redToWin := PlaceRed(n, board);
    board, greenGoals, greenToWin := PlaceGreen(n, board, redGoals);
    forall c: Cell
      ensures c in board <==> c in InitialBoard(n)
    {
      InGrid(c, n);
    }
  }

  /** The first double loop of __init__: every cell of the grid, row by row, set to empty. */
  method FillEmpty(n: nat) returns (board: Board)
    ensures Total(board, n)
    ensures forall c :: c in board ==> board[c] == Empty
  {
    board := map[];
    for row := 0 to n
      invariant forall c :: c in board <==> 0 <= c.0 < row && 0 <= c.1 < n
      invariant forall c :: c in board ==> board[c] == Empty
    {
      for col := 0 to n
        invariant forall c :: c in board <==> (0 <= c.0 < row && 0 <= c.1 < n) || (c.0 == row && 0 <= c.1 < col)
        invariant forall c :: c in board ==> board[c] == Empty
      {
        board := board[(row, col) := Empty];
      }
    }
  }

  /** The red double loop of __init__: each home cell appended to red_goals, made red, and counted. */
  method PlaceRed(n: nat, board0: Board) returns (board: Board, redGoals: seq<Cell>, redToWin: int)
    requires Total(board0, n) && forall c :: c in board0 ==> board0[c] == Empty
    ensures Total(board, n)
    ensures redGoals == RedHome(n) && redToWin == |redGoals|
    ensures forall c :: c in board ==> board[c] == if c in redGoals then Red else Empty
  {
    board := board0;
    var h := n / 2;
    redGoals, redToWin := [], 0;
    for row := 0 to h
      invariant Total(board, n)
      invariant redGoals == RedRows(h, row) && redToWin == |redGoals|
      invariant forall c :: c in board ==> board[c] == if c in redGoals then Red else Empty
    {
      for col := 0 to h - row
        invariant Total(board, n)
        invariant redGoals == RedRows(h, row) + RedRow(h, row)[..col] && redToWin == |redGoals|
        invariant forall c :: c in board ==> board[c] == if c in redGoals then Red else Empty
      {
        assert RedRow(h, row)[..col + 1] == RedRow(h, row)[..col] + [(row, col)];
        redGoals := redGoals + [(row, col)];
        board := board[(row, col) := Red];
        redToWin := redToWin + 1;
      }
      assert RedRow(h, row)[..h - row] == RedRow(h, row);
    }
  }

  /** The green double loop of __init__, from the bottom row up and right to left. */
  method PlaceGreen(n: nat, board0: Board, redGoals: seq<Cell>) returns (board: Board, greenGoals: seq<Cell>, greenToWin: int)
    requires Total(board0, n) && redGoals == RedHome(n)
    requires forall c :: c in board0 ==> board0[c] == if c in redGoals then Red else Empty
    ensures Total(board, n)
    ensures greenGoals == GreenHome(n) && greenToWin == |greenGoals|
    ensures forall c :: c in board ==>
              board[c] == if c in redGoals then Red else if c in greenGoals then Green else Empty
  {
    board := board0;
    var h := n / 2;
    RedRowsSpec(h, h);
    greenGoals, greenToWin := [], 0;
    var row: int := n - 1;
    while row > h - 1
      invariant h - 1 <= row <= n - 1
      invariant Total(board, n)
      invariant greenGoals == GreenRows(n, h, n - 1 - row) && greenToWin == |greenGoals|
      invariant forall c :: c in board ==>
                  board[c] == if c in redGoals then Red else if c in greenGoals then Green else Empty
    {
      board, greenGoals, greenToWin := PlaceGreenRow(n, h, row, board, redGoals, greenGoals, greenToWin);
      row := row - 1;
    }
  }

  /** The inner loop of the green placement: row `row`, from column n-1 leftwards. */
  method PlaceGreenRow(n: nat, h: nat, row: nat, board0: Board, redGoals: seq<Cell>, greenGoals0: seq<Cell>, greenToWin0: int)
    returns (board: Board, greenGoals: seq<Cell>, greenToWin: int)
    requires h == n / 2 && h <= row < n && redGoals == RedRows(h, h)
    requires Total(board0, n)
    requires greenGoals0 == GreenRows(n, h, n - 1 - row) && greenToWin0 == |greenGoals0|
    requires forall c :: c in board0 ==>
               board0[c] == if c in redGoals then Red else if c in greenGoals0 then Green else Empty
    ensures Total(board, n)
    ensures greenGoals == GreenRows(n, h, n - row) && greenToWin == |greenGoals|
    ensures forall c :: c in board ==>
              board[c] == if c in redGoals then Red else if c in greenGoals then Green else Empty
  {
    RedRowsSpec(h, h);
    board, greenGoals, greenToWin := board0, greenGoals0, greenToWin0;
    var col: int := n - 1;
    while col > (h - 1) + (n - 1 - row)
      invariant (h - 1) + (n - 1 - row) <= col <= n - 1
      invariant Total(board, n)
      invariant greenGoals == GreenRows(n, h, n - 1 - row) + GreenRow(n, h, row)[..n - 1 - col]
      invariant greenToWin == |greenGoals|
      invariant forall c :: c in board ==>
                  board[c] == if c in redGoals then Red else if c in greenGoals then Green else Empty
    {
      assert GreenRow(n, h, row)[..n - col] == GreenRow(n, h, row)[..n - 1 - col] + [(row, col)];
      greenGoals := greenGoals + [(row, col)];
      board := board[(row, col) := Green];
      greenToWin := greenToWin + 1;
      col := col - 1;
    }
    assert GreenRow(n, h, row)[..n - 1 - col] == GreenRow(n, h, row);
  }
}
