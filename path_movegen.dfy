/**
 * The path-recording move generator (MoveGenerator.get_moves of
 * halmapathattempt.py). It runs the same depth-first search as the generator
 * of halma.py, but a stack entry holds the path *before* its cell, and every
 * destination is recorded together with the full path that reaches it. With
 * `return_paths` set it returns the paths, otherwise the destinations.
 *
 * The search is proved to compute the same `Trace` as the halma.py version,
 * so the destinations agree with `MoveGen.Moves` and the paths with
 * `MoveGen.MovePaths`.
 */
module PathMoveGen {
  import opened Geometry
  import opened MoveGen

  /** A stack entry of this version: the cell and the path that led to it, without the cell. */
  datatype Pending = Pending(cell: Cell, before: seq<Cell>)

  /** What get_moves returns: the destinations, or with `return_paths` the paths. */
  datatype MoveList = Cells(moves: seq<Cell>) | PathList(paths: seq<seq<Cell>>)

  /** The halma.py frame an entry stands for: its path is the path before it, then the cell. */
  function AsFrame(p: Pending): Frame
  {
    Frame(p.cell, p.before + [p.cell])
  }

  function Frames(stack: seq<Pending>): (fs: seq<Frame>)
    ensures |fs| == |stack| && forall i :: 0 <= i < |stack| ==> fs[i] == AsFrame(stack[i])
  {
    seq(|stack|, i requires 0 <= i < |stack| => AsFrame(stack[i]))
  }

  lemma FramesSnoc(stack: seq<Pending>, p: Pending)
    ensures Frames(stack + [p]) == Frames(stack) + [AsFrame(p)]
  {
    assert Frames(stack + [p]) == Frames(stack) + [AsFrame(p)];
  }

  lemma FramesPop(stack: seq<Pending>)
    requires stack != []
    ensures Frames(stack) == Frames(stack[..|stack| - 1]) + [AsFrame(stack[|stack| - 1])]
  {
    var init := stack[..|stack| - 1];
    SplitLast(stack);
    FramesSnoc(init, stack[|stack| - 1]);
  }

  /**
   * MoveGenerator.get_moves (halmapathattempt.py): with `returnPaths` the
   * paths to every destination, otherwise the destinations, in the order the
   * search finds them.
   */
  method GetMoves(cell: Cell, gameBoard: Board, boardSize: int, returnPaths: bool) returns (r: MoveList)
    requires Total(gameBoard, boardSize)
    ensures returnPaths ==> r == PathList(MovePaths(boardSize, gameBoard, cell))
    ensures !returnPaths ==> r == Cells(Moves(boardSize, gameBoard, cell))
  {
    ghost var bound := Rank(boardSize, Root(cell)) + 1;
    ghost var emitted: seq<Emit> := [];
    ghost var all := TraceAll(boardSize, gameBoard, cell, [Root(cell)], bound);
    var moveStack := [Pending(cell, [])];
    var validMoves := [];
    var finalPaths := [];
    assert [] + [cell] == [cell];
    ghost var frames := [Root(cell)];
    assert Frames(moveStack) == frames;
    while moveStack != []
      invariant frames == Frames(moveStack)
      invariant forall g :: g in frames ==> Rank(boardSize, g) < bound
      invariant emitted + TraceAll(boardSize, gameBoard, cell, frames, bound) == all
      invariant validMoves == Dests(emitted) && finalPaths == Paths(emitted)
      decreases |TraceAll(boardSize, gameBoard, cell, frames, bound)|, |frames|
    {
      validMoves, finalPaths, moveStack, frames, emitted :=
        PopAndScan(cell, gameBoard, boardSize, validMoves, finalPaths, moveStack, frames, emitted, all, bound);
    }
    SearchDone(boardSize, gameBoard, cell, emitted, bound);
    if returnPaths {
      return PathList(finalPaths);
    }
    return Cells(validMoves);
  }

  /**
   * One iteration of the stack loop: pops the top entry and runs the
   * direction loop on it, appending that entry's destinations and paths and
   * replacing it by the entries its scan pushes. What has been emitted plus
   * what the stack still leads to stays the whole search, and the loop
   * measure goes down.
   */
  method PopAndScan(cell: Cell, gameBoard: Board, boardSize: int,
                    validMoves0: seq<Cell>, finalPaths0: seq<seq<Cell>>, moveStack0: seq<Pending>,
                    ghost frames0: seq<Frame>, ghost emitted0: seq<Emit>, ghost all: seq<Emit>, ghost bound: nat)
    returns (validMoves: seq<Cell>, finalPaths: seq<seq<Cell>>, moveStack: seq<Pending>,
             ghost frames: seq<Frame>, ghost emitted: seq<Emit>)
    requires Total(gameBoard, boardSize) && moveStack0 != []
    requires frames0 == Frames(moveStack0)
    requires forall g :: g in frames0 ==> Rank(boardSize, g) < bound
    requires emitted0 + TraceAll(boardSize, gameBoard, cell, frames0, bound) == all
    requires validMoves0 == Dests(emitted0) && finalPaths0 == Paths(emitted0)
    ensures var x := Scan(boardSize, gameBoard, cell, AsFrame(moveStack0[|moveStack0| - 1]), |MoveDirs|);
            && validMoves == validMoves0 + Dests(x.emits) && finalPaths == finalPaths0 + Paths(x.emits)
            && Frames(moveStack) == Frames(moveStack0[..|moveStack0| - 1]) + x.pushed
    ensures frames == Frames(moveStack)
    ensures forall g :: g in frames ==> Rank(boardSize, g) < bound
    ensures emitted + TraceAll(boardSize, gameBoard, cell, frames, bound) == all
    ensures validMoves == Dests(emitted) && finalPaths == Paths(emitted)
    ensures |TraceAll(boardSize, gameBoard, cell, frames, bound)| < |TraceAll(boardSize, gameBoard, cell, frames0, bound)|
            || (|TraceAll(boardSize, gameBoard, cell, frames, bound)| == |TraceAll(boardSize, gameBoard, cell, frames0, bound)|
                && |frames| < |frames0|)
  {
    var top := moveStack0[|moveStack0| - 1];
    FramesPop(moveStack0);
    moveStack := moveStack0[..|moveStack0| - 1];
    ghost var rest := Frames(moveStack);
    PopStep(boardSize, gameBoard, cell, rest, AsFrame(top), bound, emitted0, all);
    ghost var found;
    validMoves, finalPaths, moveStack, found := ScanPending(cell, gameBoard, boardSize, top, validMoves0, finalPaths0, moveStack);
    DestsAppend(emitted0, found);
    emitted := emitted0 + found;
    frames := rest + Scan(boardSize, gameBoard, cell, AsFrame(top), |MoveDirs|).pushed;
  }

  /**
   * The direction loop of the path-recording get_moves for the popped entry
   * `top`: appends each destination and its path, and pushes the entries to
   * explore, exactly as scanning the corresponding frame does.
   */
  method ScanPending(cell: Cell, gameBoard: Board, boardSize: int, top: Pending,
                     validMoves0: seq<Cell>, finalPaths0: seq<seq<Cell>>, moveStack0: seq<Pending>)
    returns (validMoves: seq<Cell>, finalPaths: seq<seq<Cell>>, moveStack: seq<Pending>, ghost found: seq<Emit>)
    requires Total(gameBoard, boardSize)
    ensures found == Scan(boardSize, gameBoard, cell, AsFrame(top), |MoveDirs|).emits
    ensures validMoves == validMoves0 + Dests(found)
    ensures finalPaths == finalPaths0 + Paths(found)
    ensures Frames(moveStack) == Frames(moveStack0) + Scan(boardSize, gameBoard, cell, AsFrame(top), |MoveDirs|).pushed
  {
    ghost var f := AsFrame(top);
    validMoves, finalPaths, moveStack, found := validMoves0, finalPaths0, moveStack0, [];
    for k := 0 to |MoveDirs|
      invariant found == Scan(boardSize, gameBoard, cell, f, k).emits
      invariant Frames(moveStack) == Frames(moveStack0) + Scan(boardSize, gameBoard, cell, f, k).pushed
      invariant validMoves == validMoves0 + Dests(found)
      invariant finalPaths == finalPaths0 + Paths(found)
    {
      ghost var (vm, fp, ms, more) := (validMoves, finalPaths, moveStack, []);
      validMoves, finalPaths, moveStack, more := ScanPendingDir(cell, gameBoard, boardSize, top, k, validMoves, finalPaths, moveStack);
      PendingStep(boardSize, gameBoard, cell, f, k, validMoves0, finalPaths0, moveStack0,
                  vm, fp, ms, found, validMoves, finalPaths, moveStack, more);
      found := found + more;
    }
  }

  /** Appending one direction's results keeps the scan loop's invariants for the next direction. */
  lemma PendingStep(n: int, board: Board, origin: Cell, f: Frame, k: nat,
                    vm0: seq<Cell>, fp0: seq<seq<Cell>>, ms0: seq<Pending>,
                    vm: seq<Cell>, fp: seq<seq<Cell>>, ms: seq<Pending>, found: seq<Emit>,
                    vm1: seq<Cell>, fp1: seq<seq<Cell>>, ms1: seq<Pending>, more: seq<Emit>)
    requires Total(board, n) && k < |MoveDirs|
    requires found == Scan(n, board, origin, f, k).emits
    requires Frames(ms) == Frames(ms0) + Scan(n, board, origin, f, k).pushed
    requires vm == vm0 + Dests(found) && fp == fp0 + Paths(found)
    requires more == ScanDir(n, board, origin, f, MoveDirs[k]).emits
    requires vm1 == vm + Dests(more) && fp1 == fp + Paths(more)
    requires Frames(ms1) == Frames(ms) + ScanDir(n, board, origin, f, MoveDirs[k]).pushed
    ensures found + more == Scan(n, board, origin, f, k + 1).emits
    ensures Frames(ms1) == Frames(ms0) + Scan(n, board, origin, f, k + 1).pushed
    ensures vm1 == vm0 + Dests(found + more) && fp1 == fp0 + Paths(found + more)
  {
    ScanNext(n, board, origin, f, k);
    DestsAppend(found, more);
  }

  /**
   * One pass of that loop, for direction `k`: a step onto an empty cell (only
   * from the starting cell) or a jump over a piece onto an empty cell, never
   * onto a cell the path already holds.
   */
  method ScanPendingDir(cell: Cell, gameBoard: Board, boardSize: int, top: Pending, k: nat,
                        validMoves0: seq<Cell>, finalPaths0: seq<seq<Cell>>, moveStack0: seq<Pending>)
    returns (validMoves: seq<Cell>, finalPaths: seq<seq<Cell>>, moveStack: seq<Pending>, ghost found: seq<Emit>)
    requires Total(gameBoard, boardSize) && k < |MoveDirs|
    ensures found == ScanDir(boardSize, gameBoard, cell, AsFrame(top), MoveDirs[k]).emits
    ensures validMoves == validMoves0 + Dests(found)
    ensures finalPaths == finalPaths0 + Paths(found)
    ensures Frames(moveStack) == Frames(moveStack0) + ScanDir(boardSize, gameBoard, cell, AsFrame(top), MoveDirs[k]).pushed
  {
    var currCell, path := top.cell, top.before;
    var (row, col) := currCell;
    var newPath := path + [currCell];
    ghost var f := AsFrame(top);
    ghost var x := ScanDir(boardSize, gameBoard, cell, f, MoveDirs[k]);
    validMoves, finalPaths, moveStack, found := validMoves0, finalPaths0, moveStack0, [];
    var (rowChange, colChange) := MoveDirs[k];
    var move := (row + rowChange, col + colChange);
    assert move == Add(f.cell, MoveDirs[k]);
    if ValidCell(move, boardSize) && move !in newPath {
      if gameBoard[move] == Red || gameBoard[move] == Green {
        var jumpMove := (move.0 + rowChange, move.1 + colChange);
        assert jumpMove == Add(move, MoveDirs[k]);
        if ValidCell(jumpMove, boardSize) && gameBoard[jumpMove] == Empty && jumpMove !in newPath {
          validMoves := validMoves + [jumpMove];
          finalPaths := finalPaths + [newPath + [jumpMove]];
          found := [Emit(jumpMove, newPath + [jumpMove])];
          if CheckForSurroundingPiece(boardSize, gameBoard, jumpMove) {
            FramesSnoc(moveStack, Pending(jumpMove, newPath));
            moveStack := moveStack + [Pending(jumpMove, newPath)];
          }
        } else {
          assert x == Expansion([], []);
        }
      } else if currCell == cell {
        validMoves := validMoves + [move];
        finalPaths := finalPaths + [newPath + [move]];
        found := [Emit(move, newPath + [move])];
      } else {
        assert x == Expansion([], []);
      }
    } else {
      assert x == Expansion([], []);
    }
  }
}
