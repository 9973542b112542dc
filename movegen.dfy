/**
 * The jump/step move generator (MoveGenerator.get_moves).
 *
 * The generator is a depth-first search with an explicit stack of frames
 * (current cell, path so far). Popping a frame scans the eight directions in
 * order: an empty neighbour is a destination only when the frame is the
 * origin's (a simple step); a neighbour holding a piece of either colour,
 * with an empty in-bounds cell beyond it that is not on the path, gives a
 * jump destination, and a new frame is pushed there when the landing has a
 * neighbouring piece. Nothing is written to the board.
 *
 * `Trace` is the specification: the destinations, each with the path that
 * reaches it, in exactly the order the stack-based loop finds them. Both
 * versions of get_moves are proved to compute it, and the lemmas below say
 * what it contains: exactly the simple steps and the ends of jump chains.
 */
module MoveGen {
  import opened Geometry

  /** A stack entry: the current cell and the path that reached it (ending with that cell). */
  datatype Frame = Frame(cell: Cell, path: seq<Cell>)

  /** A destination found by the search, with the path that reaches it. */
  datatype Emit = Emit(dest: Cell, path: seq<Cell>)

  /** What scanning some directions of one frame yields: destinations found, frames pushed. */
  datatype Expansion = Expansion(emits: seq<Emit>, pushed: seq<Frame>)

  /** The frame the search starts from. */
  function Root(origin: Cell): Frame
  {
    Frame(origin, [origin])
  }

  /** One iteration of the direction loop for frame `f` and direction `d`. */
  function ScanDir(n: int, board: Board, origin: Cell, f: Frame, d: Cell): Expansion
    requires Total(board, n)
  {
    var move := Add(f.cell, d);
    if ValidCell(move, n) && move !in f.path then
      if board[move] == Red || board[move] == Green then
        var jump := Add(move, d);
        if ValidCell(jump, n) && board[jump] == Empty && jump !in f.path then
          Expansion([Emit(jump, f.path + [jump])],
                    if CheckForSurroundingPiece(n, board, jump) then [Frame(jump, f.path + [jump])] else [])
        else Expansion([], [])
      else if f.cell == origin then Expansion([Emit(move, f.path + [move])], [])
      else Expansion([], [])
    else Expansion([], [])
  }

  /** The first `k` iterations of the direction loop for frame `f`. */
  function Scan(n: int, board: Board, origin: Cell, f: Frame, k: nat): Expansion
    requires Total(board, n) && k <= |MoveDirs|
  {
    if k == 0 then Expansion([], [])
    else
      var e := Scan(n, board, origin, f, k - 1);
      var x := ScanDir(n, board, origin, f, MoveDirs[k - 1]);
      Expansion(e.emits + x.emits, e.pushed + x.pushed)
  }

  function Visited(p: seq<Cell>): set<Cell>
  {
    set c | c in p
  }

  /** The number of grid cells not yet on the frame's path: every push lowers it. */
  function Rank(n: int, f: Frame): nat
  {
    |Grid(n) - Visited(f.path)|
  }

  lemma RankDecreases(n: int, f: Frame, x: Cell)
    requires ValidCell(x, n) && x !in f.path
    ensures Rank(n, Frame(x, f.path + [x])) < Rank(n, f)
  {
    InGrid(x, n);
    var a := Grid(n) - Visited(f.path + [x]);
    var b := Grid(n) - Visited(f.path);
    assert Visited(f.path + [x]) == Visited(f.path) + {x};
    assert b == a + {x};
  }

  /**
   * Every frame pushed while scanning `f` extends f's path by a fresh in-bounds
   * cell (so it has lower rank), and comes with a destination of its own.
   */
  lemma {:induction false} ScanPushes(n: int, board: Board, origin: Cell, f: Frame, k: nat)
    requires Total(board, n) && k <= |MoveDirs|
    ensures |Scan(n, board, origin, f, k).pushed| <= |Scan(n, board, origin, f, k).emits|
    ensures forall g :: g in Scan(n, board, origin, f, k).pushed ==>
              ValidCell(g.cell, n) && g.cell !in f.path && g.path == f.path + [g.cell]
              && Rank(n, g) < Rank(n, f)
  {
    if k > 0 {
      ScanPushes(n, board, origin, f, k - 1);
      var x := ScanDir(n, board, origin, f, MoveDirs[k - 1]);
      if x.pushed != [] {
        RankDecreases(n, f, x.pushed[0].cell);
      }
    }
  }

  /**
   * The destinations, with their paths, found by the search once it has
   * popped frame `f`: f's own scan first, then what its pushed frames lead to,
   * the last-pushed frame first (it is on top of the stack).
   */
  function Trace(n: int, board: Board, origin: Cell, f: Frame): seq<Emit>
    requires Total(board, n)
    decreases Rank(n, f), 1, 0
  {
    var x := Scan(n, board, origin, f, |MoveDirs|);
    ScanPushes(n, board, origin, f, |MoveDirs|);
    x.emits + TraceAll(n, board, origin, x.pushed, Rank(n, f))
  }

  /** What the search finds from the stack `fs` (top of the stack last). */
  function TraceAll(n: int, board: Board, origin: Cell, fs: seq<Frame>, bound: nat): seq<Emit>
    requires Total(board, n)
    requires forall g :: g in fs ==> Rank(n, g) < bound
    decreases bound, 0, |fs|
  {
    if fs == [] then []
    else Trace(n, board, origin, fs[|fs| - 1]) + TraceAll(n, board, origin, fs[..|fs| - 1], bound)
  }

  function Dests(es: seq<Emit>): (ds: seq<Cell>)
    ensures |ds| == |es| && forall i :: 0 <= i < |es| ==> ds[i] == es[i].dest
  {
    seq(|es|, i requires 0 <= i < |es| => es[i].dest)
  }

  function Paths(es: seq<Emit>): (ps: seq<seq<Cell>>)
    ensures |ps| == |es| && forall i :: 0 <= i < |es| ==> ps[i] == es[i].path
  {
    seq(|es|, i requires 0 <= i < |es| => es[i].path)
  }

  lemma DestsAppend(a: seq<Emit>, b: seq<Emit>)
    ensures Dests(a + b) == Dests(a) + Dests(b)
    ensures Paths(a + b) == Paths(a) + Paths(b)
  {
    assert Dests(a + b) == Dests(a) + Dests(b);
    assert Paths(a + b) == Paths(a) + Paths(b);
  }

  /** The destination list get_moves returns for `origin`. */
  function Moves(n: int, board: Board, origin: Cell): seq<Cell>
    requires Total(board, n)
  {
    Dests(Trace(n, board, origin, Root(origin)))
  }

  /** The path list get_moves returns for `origin` when asked for paths. */
  function MovePaths(n: int, board: Board, origin: Cell): seq<seq<Cell>>
    requires Total(board, n)
  {
    Paths(Trace(n, board, origin, Root(origin)))
  }

  lemma {:induction false} TraceAllAppend(n: int, board: Board, origin: Cell, a: seq<Frame>, b: seq<Frame>, bound: nat)
    requires Total(board, n)
    requires forall g :: g in a + b ==> Rank(n, g) < bound
    ensures TraceAll(n, board, origin, a + b, bound)
         == TraceAll(n, board, origin, b, bound) + TraceAll(n, board, origin, a, bound)
    decreases |b|
  {
    if b == [] {
      assert a + b == a;
    } else {
      assert (a + b)[..|a + b| - 1] == a + b[..|b| - 1];
      TraceAllAppend(n, board, origin, a, b[..|b| - 1], bound);
    }
  }

  lemma {:induction false} TraceAllBound(n: int, board: Board, origin: Cell, fs: seq<Frame>, b1: nat, b2: nat)
    requires Total(board, n)
    requires forall g :: g in fs ==> Rank(n, g) < b1 && Rank(n, g) < b2
    ensures TraceAll(n, board, origin, fs, b1) == TraceAll(n, board, origin, fs, b2)
    decreases |fs|
  {
    if fs != [] {
      TraceAllBound(n, board, origin, fs[..|fs| - 1], b1, b2);
    }
  }

  /**
   * The bookkeeping step of both stack loops: popping frame `top` off `rest +
   * [top]`, emitting its scan and pushing its frames keeps the emitted list
   * plus what the stack still leads to unchanged, and shrinks the measure
   * (what the stack leads to, then the stack height).
   */
  lemma PopStep(n: int, board: Board, origin: Cell, rest: seq<Frame>, top: Frame, bound: nat,
                emitted: seq<Emit>, all: seq<Emit>)
    requires Total(board, n)
    requires forall g :: g in rest + [top] ==> Rank(n, g) < bound
    requires emitted + TraceAll(n, board, origin, rest + [top], bound) == all
    ensures forall g :: g in rest + Scan(n, board, origin, top, |MoveDirs|).pushed ==> Rank(n, g) < bound
    ensures (emitted + Scan(n, board, origin, top, |MoveDirs|).emits)
              + TraceAll(n, board, origin, rest + Scan(n, board, origin, top, |MoveDirs|).pushed, bound)
         == all
    ensures |TraceAll(n, board, origin, rest + Scan(n, board, origin, top, |MoveDirs|).pushed, bound)|
              < |TraceAll(n, board, origin, rest + [top], bound)|
         || (|TraceAll(n, board, origin, rest + Scan(n, board, origin, top, |MoveDirs|).pushed, bound)|
              == |TraceAll(n, board, origin, rest + [top], bound)|
             && |rest + Scan(n, board, origin, top, |MoveDirs|).pushed| < |rest + [top]|)
  {
    var x := Scan(n, board, origin, top, |MoveDirs|);
    PopTrace(n, board, origin, rest, top, bound);
    StackShrinks(emitted, x.emits, TraceAll(n, board, origin, rest + x.pushed, bound), rest, x.pushed, top);
  }

  /** Popping `top` and pushing its frames: the stack leads to top's scan, then to the new stack. */
  lemma PopTrace(n: int, board: Board, origin: Cell, rest: seq<Frame>, top: Frame, bound: nat)
    requires Total(board, n)
    requires forall g :: g in rest + [top] ==> Rank(n, g) < bound
    ensures forall g :: g in rest + Scan(n, board, origin, top, |MoveDirs|).pushed ==> Rank(n, g) < bound
    ensures TraceAll(n, board, origin, rest + [top], bound)
         == Scan(n, board, origin, top, |MoveDirs|).emits
            + TraceAll(n, board, origin, rest + Scan(n, board, origin, top, |MoveDirs|).pushed, bound)
    ensures |Scan(n, board, origin, top, |MoveDirs|).pushed| <= |Scan(n, board, origin, top, |MoveDirs|).emits|
  {
    var x := Scan(n, board, origin, top, |MoveDirs|);
    ScanPushes(n, board, origin, top, |MoveDirs|);
    assert top in rest + [top];
    TraceAllSnoc(n, board, origin, rest, top, bound);
    TraceUnfold(n, board, origin, top, bound);
    TraceAllAppend(n, board, origin, rest, x.pushed, bound);
    Reassociate(TraceAll(n, board, origin, rest + [top], bound), Trace(n, board, origin, top),
                TraceAll(n, board, origin, rest, bound), x.emits, TraceAll(n, board, origin, x.pushed, bound),
                TraceAll(n, board, origin, rest + x.pushed, bound));
  }

  lemma TraceAllSnoc(n: int, board: Board, origin: Cell, rest: seq<Frame>, top: Frame, bound: nat)
    requires Total(board, n)
    requires forall g :: g in rest + [top] ==> Rank(n, g) < bound
    ensures forall g :: g in rest ==> Rank(n, g) < bound
    ensures TraceAll(n, board, origin, rest + [top], bound)
         == Trace(n, board, origin, top) + TraceAll(n, board, origin, rest, bound)
  {
    assert (rest + [top])[..|rest + [top]| - 1] == rest;
  }

  /** Trace of a frame: its own scan, then what its pushed frames lead to, under any bound above its rank. */
  lemma TraceUnfold(n: int, board: Board, origin: Cell, f: Frame, bound: nat)
    requires Total(board, n) && Rank(n, f) < bound
    ensures forall g :: g in Scan(n, board, origin, f, |MoveDirs|).pushed ==> Rank(n, g) < bound
    ensures Trace(n, board, origin, f)
         == Scan(n, board, origin, f, |MoveDirs|).emits + TraceAll(n, board, origin, Scan(n, board, origin, f, |MoveDirs|).pushed, bound)
  {
    var x := Scan(n, board, origin, f, |MoveDirs|);
    ScanPushes(n, board, origin, f, |MoveDirs|);
    TraceAllBound(n, board, origin, x.pushed, bound, Rank(n, f));
  }

  lemma Reassociate<T>(all: seq<T>, t: seq<T>, r: seq<T>, e: seq<T>, l: seq<T>, m: seq<T>)
    requires all == t + r && t == e + l && m == l + r
    ensures all == e + m
  {
  }

  /** A non-empty stack is what lies below its top, then the top. */
  lemma SplitLast<T>(s: seq<T>)
    requires s != []
    ensures s == s[..|s| - 1] + [s[|s| - 1]]
  {
  }

  /** The sequence arithmetic behind the loop measure. */
  lemma StackShrinks<E, F>(emitted: seq<E>, emits: seq<E>, after: seq<E>, rest: seq<F>, pushed: seq<F>, top: F)
    requires |pushed| <= |emits|
    ensures (emitted + emits) + after == emitted + (emits + after)
    ensures |after| < |emits + after| || (|after| == |emits + after| && |rest + pushed| < |rest + [top]|)
  {
  }

  lemma TraceAllSingle(n: int, board: Board, origin: Cell, f: Frame, bound: nat)
    requires Total(board, n) && Rank(n, f) < bound
    ensures TraceAll(n, board, origin, [f], bound) == Trace(n, board, origin, f)
  {
    assert [f][..0] == [];
  }

  /** When the stack is empty, everything emitted is the whole search from the origin. */
  lemma SearchDone(n: int, board: Board, origin: Cell, emitted: seq<Emit>, bound: nat)
    requires Total(board, n) && Rank(n, Root(origin)) < bound
    requires emitted + TraceAll(n, board, origin, [], bound) == TraceAll(n, board, origin, [Root(origin)], bound)
    ensures emitted == Trace(n, board, origin, Root(origin))
  {
    TraceAllSingle(n, board, origin, Root(origin), bound);
  }

  lemma ScanNext(n: int, board: Board, origin: Cell, f: Frame, k: nat)
    requires Total(board, n) && k < |MoveDirs|
    ensures Scan(n, board, origin, f, k + 1).emits
         == Scan(n, board, origin, f, k).emits + ScanDir(n, board, origin, f, MoveDirs[k]).emits
    ensures Scan(n, board, origin, f, k + 1).pushed
         == Scan(n, board, origin, f, k).pushed + ScanDir(n, board, origin, f, MoveDirs[k]).pushed
  {
  }

  /**
   * MoveGenerator.get_moves (halma.py). The stack holds frames whose path
   * includes the current cell.
   */
  method GetMoves(cell: Cell, gameBoard: Board, boardSize: int) returns (validMoves: seq<Cell>)
    requires Total(gameBoard, boardSize)
    ensures validMoves == Moves(boardSize, gameBoard, cell)
    ensures forall m :: m in validMoves ==> ValidCell(m, boardSize) && gameBoard[m] == Empty && m != cell
  {
    ghost var bound := Rank(boardSize, Root(cell)) + 1;
    ghost var emitted: seq<Emit> := [];
    var moveStack := [Frame(cell, [cell])];
    validMoves := [];
    while moveStack != []
      invariant forall g :: g in moveStack ==> Rank(boardSize, g) < bound
      invariant emitted + TraceAll(boardSize, gameBoard, cell, moveStack, bound)
             == TraceAll(boardSize, gameBoard, cell, [Root(cell)], bound)
      invariant validMoves == Dests(emitted)
      decreases |TraceAll(boardSize, gameBoard, cell, moveStack, bound)|, |moveStack|
    {
      var top := moveStack[|moveStack| - 1];
      ghost var rest := moveStack[..|moveStack| - 1];
      SplitLast(moveStack);
      PopStep(boardSize, gameBoard, cell, rest, top, bound, emitted, TraceAll(boardSize, gameBoard, cell, [Root(cell)], bound));
      moveStack := moveStack[..|moveStack| - 1];
      ghost var found;
      validMoves, moveStack, found := ScanFrame(cell, gameBoard, boardSize, top, validMoves, moveStack);
      DestsAppend(emitted, found);
      emitted := emitted + found;
    }
    SearchDone(boardSize, gameBoard, cell, emitted, bound);
    MovesSound(boardSize, gameBoard, cell);
  }

  /**
   * The direction loop of get_moves (halma.py) for the popped frame `top`:
   * appends the destinations it finds to `validMoves` and pushes the frames to
   * explore on `moveStack`. `found` lists the destinations with their paths.
   */
  method ScanFrame(cell: Cell, gameBoard: Board, boardSize: int, top: Frame,
                   validMoves0: seq<Cell>, moveStack0: seq<Frame>)
    returns (validMoves: seq<Cell>, moveStack: seq<Frame>, ghost found: seq<Emit>)
    requires Total(gameBoard, boardSize)
    ensures found == Scan(boardSize, gameBoard, cell, top, |MoveDirs|).emits
    ensures validMoves == validMoves0 + Dests(found)
    ensures moveStack == moveStack0 + Scan(boardSize, gameBoard, cell, top, |MoveDirs|).pushed
  {
    validMoves, moveStack, found := validMoves0, moveStack0, [];
    for k := 0 to |MoveDirs|
      invariant found == Scan(boardSize, gameBoard, cell, top, k).emits
      invariant moveStack == moveStack0 + Scan(boardSize, gameBoard, cell, top, k).pushed
      invariant validMoves == validMoves0 + Dests(found)
    {
      ghost var (vm, ms, more) := (validMoves, moveStack, []);
      validMoves, moveStack, more := ScanFrameDir(cell, gameBoard, boardSize, top, k, validMoves, moveStack);
      FrameStep(boardSize, gameBoard, cell, top, k, validMoves0, moveStack0, vm, ms, found, validMoves, moveStack, more);
      found := found + more;
    }
  }

  /** Appending one direction's results keeps the scan loop's invariants for the next direction. */
  lemma FrameStep(n: int, board: Board, origin: Cell, f: Frame, k: nat,
                  vm0: seq<Cell>, ms0: seq<Frame>, vm: seq<Cell>, ms: seq<Frame>, found: seq<Emit>,
                  vm1: seq<Cell>, ms1: seq<Frame>, more: seq<Emit>)
    requires Total(board, n) && k < |MoveDirs|
    requires found == Scan(n, board, origin, f, k).emits
    requires ms == ms0 + Scan(n, board, origin, f, k).pushed
    requires vm == vm0 + Dests(found)
    requires more == ScanDir(n, board, origin, f, MoveDirs[k]).emits
    requires vm1 == vm + Dests(more)
    requires ms1 == ms + ScanDir(n, board, origin, f, MoveDirs[k]).pushed
    ensures found + more == Scan(n, board, origin, f, k + 1).emits
    ensures ms1 == ms0 + Scan(n, board, origin, f, k + 1).pushed
    ensures vm1 == vm0 + Dests(found + more)
  {
    ScanNext(n, board, origin, f, k);
    DestsAppend(found, more);
  }

  /**
   * One pass of that loop, for direction `k`: a step onto an empty cell (only
   * from the starting cell) or a jump over a piece onto an empty cell, never
   * onto a cell the path already holds.
   */
  method ScanFrameDir(cell: Cell, gameBoard: Board, boardSize: int, top: Frame, k: nat,
                      validMoves0: seq<Cell>, moveStack0: seq<Frame>)
    returns (validMoves: seq<Cell>, moveStack: seq<Frame>, ghost found: seq<Emit>)
    requires Total(gameBoard, boardSize) && k < |MoveDirs|
    ensures found == ScanDir(boardSize, gameBoard, cell, top, MoveDirs[k]).emits
    ensures validMoves == validMoves0 + Dests(found)
    ensures moveStack == moveStack0 + ScanDir(boardSize, gameBoard, cell, top, MoveDirs[k]).pushed
  {
    var currCell, path := top.cell, top.path;
    var (row, col) := currCell;
    ghost var x := ScanDir(boardSize, gameBoard, cell, top, MoveDirs[k]);
    validMoves, moveStack, found := validMoves0, moveStack0, [];
    var (rowChange, colChange) := MoveDirs[k];
    var move := (row + rowChange, col + colChange);
    assert move == Add(top.cell, MoveDirs[k]);
    if ValidCell(move, boardSize) && move !in path {
      if gameBoard[move] == Red || gameBoard[move] == Green {
        var jumpMove := (move.0 + rowChange, move.1 + colChange);
        assert jumpMove == Add(move, MoveDirs[k]);
        if ValidCell(jumpMove, boardSize) && gameBoard[jumpMove] == Empty && jumpMove !in path {
          validMoves := validMoves + [jumpMove];
          found := [Emit(jumpMove, path + [jumpMove])];
          if CheckForSurroundingPiece(boardSize, gameBoard, jumpMove) {
            moveStack := moveStack + [Frame(jumpMove, path + [jumpMove])];
          }
        } else {
          assert x == Expansion([], []);
        }
      } else if currCell == cell {
        validMoves := validMoves + [move];
        found := [Emit(move, path + [move])];
      } else {
        assert x == Expansion([], []);
      }
    } else {
      assert x == Expansion([], []);
    }
  }

  // ---------------------------------------------------------------------------
  // What the search finds: simple steps and jump chains.

  /**
   * Jumping from the end of `prefix` in direction `d`: the adjacent cell is in
   * bounds, not on the path and holds a piece; the landing beyond it is in
   * bounds, empty and not on the path.
   */
  ghost predicate JumpVia(n: int, board: Board, prefix: seq<Cell>, landing: Cell, d: Cell)
    requires Total(board, n) && |prefix| > 0
  {
    var mid := Add(prefix[|prefix| - 1], d);
    && ValidCell(mid, n) && mid !in prefix && IsPiece(board[mid])
    && landing == Add(mid, d) && ValidCell(landing, n) && board[landing] == Empty && landing !in prefix
  }

  ghost predicate IsJump(n: int, board: Board, prefix: seq<Cell>, landing: Cell)
    requires Total(board, n) && |prefix| > 0
  {
    exists k :: 0 <= k < |MoveDirs| && JumpVia(n, board, prefix, landing, MoveDirs[k])
  }

  /** The origin followed by zero or more landings, each a legal jump from the path before it. */
  ghost predicate IsJumpChain(n: int, board: Board, origin: Cell, p: seq<Cell>)
    requires Total(board, n)
    decreases |p|
  {
    && |p| >= 1 && p[0] == origin
    && (|p| == 1 ||
         (IsJumpChain(n, board, origin, p[..|p| - 1]) && IsJump(n, board, p[..|p| - 1], p[|p| - 1])))
  }

  /** A simple step: the origin and an in-bounds empty 8-neighbour of it. */
  ghost predicate IsStep(n: int, board: Board, origin: Cell, p: seq<Cell>)
    requires Total(board, n)
  {
    && |p| == 2 && p[0] == origin
    && (exists k :: 0 <= k < |MoveDirs| && p[1] == Add(origin, MoveDirs[k]))
    && ValidCell(p[1], n) && board[p[1]] == Empty
  }

  /** A legal move: a path of length at least 2 that is a simple step or a jump chain, ending at the destination. */
  ghost predicate LegalMove(n: int, board: Board, origin: Cell, e: Emit)
    requires Total(board, n)
  {
    && |e.path| >= 2 && e.dest == e.path[|e.path| - 1]
    && (IsStep(n, board, origin, e.path) || IsJumpChain(n, board, origin, e.path))
  }

  /** A frame the search may hold: its path is a jump chain ending at its cell. */
  ghost predicate WellFormed(n: int, board: Board, origin: Cell, f: Frame)
    requires Total(board, n)
  {
    IsJumpChain(n, board, origin, f.path) && f.cell == f.path[|f.path| - 1]
  }

  /**
   * A jump chain starts at the origin, repeats no cell, and each landing is an
   * in-bounds empty cell other than the origin.
   */
  lemma {:induction false} ChainShape(n: int, board: Board, origin: Cell, p: seq<Cell>)
    requires Total(board, n) && IsJumpChain(n, board, origin, p)
    ensures p[0] == origin && Distinct(p)
    ensures forall i :: 1 <= i < |p| ==> ValidCell(p[i], n) && board[p[i]] == Empty && p[i] != origin
    decreases |p|
  {
    if |p| > 1 {
      var q := p[..|p| - 1];
      ChainShape(n, board, origin, q);
      var k :| 0 <= k < |MoveDirs| && JumpVia(n, board, q, p[|p| - 1], MoveDirs[k]);
      assert q[0] == origin;
      forall i, j | 0 <= i < j < |p|
        ensures p[i] != p[j]
      {
        if j == |p| - 1 {
          assert p[i] == q[i];
        } else {
          assert p[i] == q[i] && p[j] == q[j];
        }
      }
      forall i | 1 <= i < |p|
        ensures ValidCell(p[i], n) && board[p[i]] == Empty && p[i] != origin
      {
        if i < |p| - 1 {
          assert p[i] == q[i];
        }
      }
    }
  }

  /** Only the origin's frame has the origin as its cell. */
  lemma ChainAtOriginIsRoot(n: int, board: Board, origin: Cell, f: Frame)
    requires Total(board, n) && WellFormed(n, board, origin, f) && f.cell == origin
    ensures f.path == [origin]
  {
    ChainShape(n, board, origin, f.path);
  }

  /** One direction of the scan of a well-formed frame emits legal moves and pushes well-formed frames. */
  lemma ScanDirSound(n: int, board: Board, origin: Cell, f: Frame, k: nat)
    requires Total(board, n) && k < |MoveDirs| && WellFormed(n, board, origin, f)
    ensures forall e :: e in ScanDir(n, board, origin, f, MoveDirs[k]).emits ==> LegalMove(n, board, origin, e)
    ensures forall g :: g in ScanDir(n, board, origin, f, MoveDirs[k]).pushed ==> WellFormed(n, board, origin, g)
  {
    var d := MoveDirs[k];
    var move := Add(f.cell, d);
    if ValidCell(move, n) && move !in f.path {
      if board[move] == Red || board[move] == Green {
        var jump := Add(move, d);
        if ValidCell(jump, n) && board[jump] == Empty && jump !in f.path {
          var p := f.path + [jump];
          assert p[..|p| - 1] == f.path;
          assert JumpVia(n, board, f.path, jump, MoveDirs[k]);
          assert IsJumpChain(n, board, origin, p);
        }
      } else if f.cell == origin {
        ChainAtOriginIsRoot(n, board, origin, f);
        assert IsStep(n, board, origin, f.path + [move]);
      }
    }
  }

  /** Scanning a well-formed frame emits only legal moves and pushes only well-formed frames. */
  lemma {:induction false} ScanSound(n: int, board: Board, origin: Cell, f: Frame, k: nat)
    requires Total(board, n) && k <= |MoveDirs| && WellFormed(n, board, origin, f)
    ensures forall e :: e in Scan(n, board, origin, f, k).emits ==> LegalMove(n, board, origin, e)
    ensures forall g :: g in Scan(n, board, origin, f, k).pushed ==> WellFormed(n, board, origin, g)
  {
    if k > 0 {
      ScanSound(n, board, origin, f, k - 1);
      ScanDirSound(n, board, origin, f, k - 1);
      ScanNext(n, board, origin, f, k - 1);
    }
  }

  /** Everything the search finds from a well-formed frame is a legal move. */
  lemma {:induction false} TraceSound(n: int, board: Board, origin: Cell, f: Frame)
    requires Total(board, n) && WellFormed(n, board, origin, f)
    ensures forall e :: e in Trace(n, board, origin, f) ==> LegalMove(n, board, origin, e)
    decreases Rank(n, f), 1, 0
  {
    var x := Scan(n, board, origin, f, |MoveDirs|);
    ScanSound(n, board, origin, f, |MoveDirs|);
    ScanPushes(n, board, origin, f, |MoveDirs|);
    TraceAllSound(n, board, origin, x.pushed, Rank(n, f));
  }

  lemma {:induction false} TraceAllSound(n: int, board: Board, origin: Cell, fs: seq<Frame>, bound: nat)
    requires Total(board, n)
    requires forall g :: g in fs ==> Rank(n, g) < bound && WellFormed(n, board, origin, g)
    ensures forall e :: e in TraceAll(n, board, origin, fs, bound) ==> LegalMove(n, board, origin, e)
    decreases bound, 0, |fs|
  {
    if fs != [] {
      TraceSound(n, board, origin, fs[|fs| - 1]);
      TraceAllSound(n, board, origin, fs[..|fs| - 1], bound);
    }
  }

  /** A legal move ends on an in-bounds empty cell other than the origin, along a path without repeats. */
  lemma LegalMoveShape(n: int, board: Board, origin: Cell, e: Emit)
    requires Total(board, n) && LegalMove(n, board, origin, e)
    ensures ValidCell(e.dest, n) && board[e.dest] == Empty && e.dest != origin
    ensures e.path[0] == origin && Distinct(e.path)
  {
    if IsStep(n, board, origin, e.path) {
      var k :| 0 <= k < |MoveDirs| && e.path[1] == Add(origin, MoveDirs[k]);
    } else {
      ChainShape(n, board, origin, e.path);
    }
  }

  /**
   * Every destination get_moves returns is in bounds, empty, and not the
   * origin; every returned path starts at the origin, has length at least 2,
   * repeats no cell and ends with its destination.
   */
  lemma MovesSound(n: int, board: Board, origin: Cell)
    requires Total(board, n)
    ensures forall m :: m in Moves(n, board, origin) ==> ValidCell(m, n) && board[m] == Empty && m != origin
    ensures forall e :: e in Trace(n, board, origin, Root(origin)) ==>
              LegalMove(n, board, origin, e) && e.path[0] == origin && Distinct(e.path)
  {
    var es := Trace(n, board, origin, Root(origin));
    assert Root(origin).path[..0] == [];
    TraceSound(n, board, origin, Root(origin));
    forall e | e in es
      ensures LegalMove(n, board, origin, e) && e.path[0] == origin && Distinct(e.path)
      ensures ValidCell(e.dest, n) && board[e.dest] == Empty && e.dest != origin
    {
      LegalMoveShape(n, board, origin, e);
    }
    forall m | m in Moves(n, board, origin)
      ensures ValidCell(m, n) && board[m] == Empty && m != origin
    {
      var i :| 0 <= i < |es| && Dests(es)[i] == m;
      assert es[i] in es;
    }
  }

  /**
   * The path list and the destination list run in parallel: the i-th path
   * starts at the origin, repeats no cell, has at least one move, and ends at
   * the i-th destination.
   */
  lemma PathsMatchMoves(n: int, board: Board, origin: Cell)
    requires Total(board, n)
    ensures |MovePaths(n, board, origin)| == |Moves(n, board, origin)|
    ensures forall i :: 0 <= i < |Moves(n, board, origin)| ==>
              var p := MovePaths(n, board, origin)[i];
              |p| >= 2 && p[0] == origin && p[|p| - 1] == Moves(n, board, origin)[i] && Distinct(p)
  {
    var es := Trace(n, board, origin, Root(origin));
    MovesSound(n, board, origin);
    forall i | 0 <= i < |es|
      ensures var p := Paths(es)[i]; |p| >= 2 && p[0] == origin && p[|p| - 1] == Dests(es)[i] && Distinct(p)
    {
      assert es[i] in es;
    }
  }

  // ---------------------------------------------------------------------------
  // The generator sees only which cells are empty, never whose piece is where.

  /** Two boards agree on which grid cells are empty. */
  ghost predicate SameShape(n: int, b1: Board, b2: Board)
    requires Total(b1, n) && Total(b2, n)
  {
    forall c :: ValidCell(c, n) ==> (b1[c] == Empty <==> b2[c] == Empty)
  }

  lemma ScanDirSameShape(n: int, b1: Board, b2: Board, origin: Cell, f: Frame, d: Cell)
    requires Total(b1, n) && Total(b2, n) && SameShape(n, b1, b2)
    ensures ScanDir(n, b1, origin, f, d) == ScanDir(n, b2, origin, f, d)
  {
    var jump := Add(Add(f.cell, d), d);
    forall j | 0 <= j < |MoveDirs|
      ensures Occupied(n, b1, Add(jump, MoveDirs[j])) <==> Occupied(n, b2, Add(jump, MoveDirs[j]))
    {
    }
    assert CheckForSurroundingPiece(n, b1, jump) == CheckForSurroundingPiece(n, b2, jump);
  }

  lemma {:induction false} ScanSameShape(n: int, b1: Board, b2: Board, origin: Cell, f: Frame, k: nat)
    requires Total(b1, n) && Total(b2, n) && SameShape(n, b1, b2) && k <= |MoveDirs|
    ensures Scan(n, b1, origin, f, k) == Scan(n, b2, origin, f, k)
  {
    if k > 0 {
      ScanSameShape(n, b1, b2, origin, f, k - 1);
      ScanDirSameShape(n, b1, b2, origin, f, MoveDirs[k - 1]);
    }
  }

  lemma {:induction false} TraceSameShape(n: int, b1: Board, b2: Board, origin: Cell, f: Frame)
    requires Total(b1, n) && Total(b2, n) && SameShape(n, b1, b2)
    ensures Trace(n, b1, origin, f) == Trace(n, b2, origin, f)
    decreases Rank(n, f), 1, 0
  {
    var x := Scan(n, b1, origin, f, |MoveDirs|);
    ScanSameShape(n, b1, b2, origin, f, |MoveDirs|);
    ScanPushes(n, b1, origin, f, |MoveDirs|);
    TraceAllSameShape(n, b1, b2, origin, x.pushed, Rank(n, f));
  }

  lemma {:induction false} TraceAllSameShape(n: int, b1: Board, b2: Board, origin: Cell, fs: seq<Frame>, bound: nat)
    requires Total(b1, n) && Total(b2, n) && SameShape(n, b1, b2)
    requires forall g :: g in fs ==> Rank(n, g) < bound
    ensures TraceAll(n, b1, origin, fs, bound) == TraceAll(n, b2, origin, fs, bound)
    decreases bound, 0, |fs|
  {
    if fs != [] {
      TraceSameShape(n, b1, b2, origin, fs[|fs| - 1]);
      TraceAllSameShape(n, b1, b2, origin, fs[..|fs| - 1], bound);
    }
  }

  /**
   * get_moves treats red and green pieces alike: boards with the same empty
   * cells give the same destinations and the same paths.
   */
  lemma MovesSameShape(n: int, b1: Board, b2: Board, origin: Cell)
    requires Total(b1, n) && Total(b2, n) && SameShape(n, b1, b2)
    ensures Moves(n, b1, origin) == Moves(n, b2, origin)
    ensures MovePaths(n, b1, origin) == MovePaths(n, b2, origin)
  {
    TraceSameShape(n, b1, b2, origin, Root(origin));
  }

  // ---------------------------------------------------------------------------
  // Completeness: nothing legal is missed.

  lemma {:induction false} ScanContains(n: int, board: Board, origin: Cell, f: Frame, k: nat, j: nat)
    requires Total(board, n) && j < k <= |MoveDirs|
    ensures forall e :: e in ScanDir(n, board, origin, f, MoveDirs[j]).emits ==> e in Scan(n, board, origin, f, k).emits
    ensures forall g :: g in ScanDir(n, board, origin, f, MoveDirs[j]).pushed ==> g in Scan(n, board, origin, f, k).pushed
  {
    if j < k - 1 {
      ScanContains(n, board, origin, f, k - 1, j);
    }
  }

  lemma {:induction false} TraceAllContains(n: int, board: Board, origin: Cell, fs: seq<Frame>, bound: nat, g: Frame)
    requires Total(board, n)
    requires forall h :: h in fs ==> Rank(n, h) < bound
    requires g in fs
    ensures forall e :: e in Trace(n, board, origin, g) ==> e in TraceAll(n, board, origin, fs, bound)
    decreases |fs|
  {
    if g != fs[|fs| - 1] {
      var i :| 0 <= i < |fs| && fs[i] == g;
      assert fs[..|fs| - 1][i] == g;
      TraceAllContains(n, board, origin, fs[..|fs| - 1], bound, g);
    }
  }

  /** What a frame's scan emits is found from that frame, and so is whatever its pushed frames lead to. */
  lemma ScanInTrace(n: int, board: Board, origin: Cell, f: Frame)
    requires Total(board, n)
    ensures forall e :: e in Scan(n, board, origin, f, |MoveDirs|).emits ==> e in Trace(n, board, origin, f)
    ensures forall g, e :: g in Scan(n, board, origin, f, |MoveDirs|).pushed && e in Trace(n, board, origin, g)
              ==> e in Trace(n, board, origin, f)
  {
    var x := Scan(n, board, origin, f, |MoveDirs|);
    TraceUnfold(n, board, origin, f, Rank(n, f) + 1);
    forall g, e | g in x.pushed && e in Trace(n, board, origin, g)
      ensures e in Trace(n, board, origin, f)
    {
      TraceAllContains(n, board, origin, x.pushed, Rank(n, f) + 1, g);
    }
  }

  /** The origin's frame, scanning toward an in-bounds empty neighbour, emits that simple step. */
  lemma StepScanned(n: int, board: Board, origin: Cell, k: nat)
    requires Total(board, n) && k < |MoveDirs|
    requires ValidCell(Add(origin, MoveDirs[k]), n) && board[Add(origin, MoveDirs[k])] == Empty
    ensures ScanDir(n, board, origin, Root(origin), MoveDirs[k])
         == Expansion([Emit(Add(origin, MoveDirs[k]), [origin, Add(origin, MoveDirs[k])])], [])
  {
    assert Add(origin, MoveDirs[k]) != origin;
    assert [origin] + [Add(origin, MoveDirs[k])] == [origin, Add(origin, MoveDirs[k])];
  }

  /** Every in-bounds empty 8-neighbour of the origin is found as a simple step. */
  lemma StepFound(n: int, board: Board, origin: Cell, k: nat)
    requires Total(board, n) && k < |MoveDirs|
    requires ValidCell(Add(origin, MoveDirs[k]), n) && board[Add(origin, MoveDirs[k])] == Empty
    ensures Emit(Add(origin, MoveDirs[k]), [origin, Add(origin, MoveDirs[k])]) in Trace(n, board, origin, Root(origin))
  {
    StepScanned(n, board, origin, k);
    ScanContains(n, board, origin, Root(origin), |MoveDirs|, k);
    ScanInTrace(n, board, origin, Root(origin));
  }

  /** The frame at the end of a chain, scanning in the direction of a legal jump, emits and pushes that jump. */
  lemma JumpScanned(n: int, board: Board, origin: Cell, q: seq<Cell>, x: Cell, k: nat)
    requires Total(board, n) && k < |MoveDirs| && |q| > 0
    requires JumpVia(n, board, q, x, MoveDirs[k])
    ensures ScanDir(n, board, origin, Frame(q[|q| - 1], q), MoveDirs[k])
         == Expansion([Emit(x, q + [x])], [Frame(x, q + [x])])
  {
    var mid := Add(q[|q| - 1], MoveDirs[k]);
    LandingHasSurroundingPiece(n, board, mid, k);
  }

  /**
   * Every jump chain is explored: the search reaches the frame at its end, so
   * whatever that frame finds is found from the origin, and a chain of length
   * at least 2 is itself found, with its end as the destination. (The
   * continuation test on the landing never prunes, by LandingHasSurroundingPiece.)
   */
  lemma {:induction false} ChainFound(n: int, board: Board, origin: Cell, p: seq<Cell>)
    requires Total(board, n) && IsJumpChain(n, board, origin, p)
    ensures forall e :: e in Trace(n, board, origin, Frame(p[|p| - 1], p)) ==> e in Trace(n, board, origin, Root(origin))
    ensures |p| >= 2 ==> Emit(p[|p| - 1], p) in Trace(n, board, origin, Root(origin))
    decreases |p|
  {
    if |p| == 1 {
      assert p == [origin];
    } else {
      var q := p[..|p| - 1];
      var x := p[|p| - 1];
      assert q + [x] == p;
      ChainFound(n, board, origin, q);
      var k :| 0 <= k < |MoveDirs| && JumpVia(n, board, q, x, MoveDirs[k]);
      var parent := Frame(q[|q| - 1], q);
      JumpScanned(n, board, origin, q, x, k);
      ScanContains(n, board, origin, parent, |MoveDirs|, k);
      ScanInTrace(n, board, origin, parent);
      assert Emit(x, p) in Trace(n, board, origin, parent);
    }
  }

  /**
   * get_moves returns exactly the simple steps and the ends of jump chains:
   * a cell is among the destinations if and only if it is an in-bounds empty
   * 8-neighbour of the origin, or the last landing of a jump chain from the
   * origin.
   */
  lemma MovesExactly(n: int, board: Board, origin: Cell, dest: Cell)
    requires Total(board, n)
    ensures dest in Moves(n, board, origin) <==> StepTarget(n, board, origin, dest) || ChainTarget(n, board, origin, dest)
  {
    if dest in Moves(n, board, origin) {
      MovesOnlyLegal(n, board, origin, dest);
    }
    if StepTarget(n, board, origin, dest) || ChainTarget(n, board, origin, dest) {
      MovesComplete(n, board, origin, dest);
    }
  }

  /** `dest` is an in-bounds empty 8-neighbour of the origin. */
  ghost predicate StepTarget(n: int, board: Board, origin: Cell, dest: Cell)
    requires Total(board, n)
  {
    exists k :: 0 <= k < |MoveDirs| && dest == Add(origin, MoveDirs[k]) && ValidCell(dest, n) && board[dest] == Empty
  }

  /** `dest` is the last landing of a jump chain (of at least one jump) from the origin. */
  ghost predicate ChainTarget(n: int, board: Board, origin: Cell, dest: Cell)
    requires Total(board, n)
  {
    exists p :: IsJumpChain(n, board, origin, p) && |p| >= 2 && p[|p| - 1] == dest
  }

  lemma MovesOnlyLegal(n: int, board: Board, origin: Cell, dest: Cell)
    requires Total(board, n) && dest in Moves(n, board, origin)
    ensures StepTarget(n, board, origin, dest) || ChainTarget(n, board, origin, dest)
  {
    var es := Trace(n, board, origin, Root(origin));
    var i :| 0 <= i < |es| && Dests(es)[i] == dest;
    MovesSound(n, board, origin);
    assert es[i] in es;
    var p := es[i].path;
    if IsStep(n, board, origin, p) {
      var k :| 0 <= k < |MoveDirs| && p[1] == Add(origin, MoveDirs[k]);
      assert dest == Add(origin, MoveDirs[k]) && ValidCell(dest, n) && board[dest] == Empty;
    } else {
      assert IsJumpChain(n, board, origin, p) && |p| >= 2 && p[|p| - 1] == dest;
    }
  }

  lemma MovesComplete(n: int, board: Board, origin: Cell, dest: Cell)
    requires Total(board, n)
    requires StepTarget(n, board, origin, dest) || ChainTarget(n, board, origin, dest)
    ensures dest in Moves(n, board, origin)
  {
    var es := Trace(n, board, origin, Root(origin));
    if StepTarget(n, board, origin, dest) {
      var k :| 0 <= k < |MoveDirs| && dest == Add(origin, MoveDirs[k]) && ValidCell(dest, n) && board[dest] == Empty;
      StepFound(n, board, origin, k);
      DestFound(es, Emit(dest, [origin, dest]));
    } else {
      var p :| IsJumpChain(n, board, origin, p) && |p| >= 2 && p[|p| - 1] == dest;
      ChainFound(n, board, origin, p);
      DestFound(es, Emit(dest, p));
    }
  }

  lemma DestFound(es: seq<Emit>, e: Emit)
    requires e in es
    ensures e.dest in Dests(es)
  {
    var i :| 0 <= i < |es| && es[i] == e;
    assert Dests(es)[i] == e.dest;
  }
}
