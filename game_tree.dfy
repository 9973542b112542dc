/**
 * Depth-limited minimax over an abstract finite game tree, with and without
 * alpha-beta pruning, in the exact loop shape of the search engine: children
 * are visited left to right, the running best value starts at -inf (max) or
 * +inf (min), and with pruning the window bound is tightened after every child
 * and the loop stops as soon as beta <= alpha.
 *
 * A leaf is a position where the search stops (terminal or at the depth limit)
 * and carries the evaluator's score; an inner node lists the successor
 * positions in enumeration order (possibly none).
 */
module GameTree {
  import opened ExtInts

  datatype Tree = Leaf(utility: int) | Node(children: seq<Tree>)

  /** The value the running best starts from: -inf for max, +inf for min. */
  function Start(maximizing: bool): ExtInt
  {
    if maximizing then NegInf else PosInf
  }

  /** One update of the running best: max for the maximizing side, min otherwise. */
  function Better(maximizing: bool, a: ExtInt, b: ExtInt): ExtInt
  {
    if maximizing then Max(a, b) else Min(a, b)
  }

  /** The search value with pruning off (the window is never consulted). */
  function Minimax(t: Tree, maximizing: bool): ExtInt
    decreases t, 1, 0
  {
    match t
    case Leaf(u) => Fin(u)
    case Node(_) => MinimaxFrom(t, 0, maximizing, Start(maximizing))
  }

  /** The loop over the children of `t` from child `i` on, with running best `best`. */
  function MinimaxFrom(t: Tree, i: nat, maximizing: bool, best: ExtInt): ExtInt
    requires t.Node? && i <= |t.children|
    decreases t, 0, |t.children| - i
  {
    if i == |t.children| then best
    else MinimaxFrom(t, i + 1, maximizing, Better(maximizing, best, Minimax(t.children[i], !maximizing)))
  }

  /** The search value with pruning on, called with the window (alpha, beta). */
  function AlphaBeta(t: Tree, alpha: ExtInt, beta: ExtInt, maximizing: bool): ExtInt
    decreases t, 1, 0
  {
    match t
    case Leaf(u) => Fin(u)
    case Node(_) => AlphaBetaFrom(t, 0, alpha, beta, maximizing, Start(maximizing))
  }

  /**
   * The pruning loop from child `i` on. The maximizing side raises alpha to the
   * running best after each child, the minimizing side lowers beta, and the
   * loop returns the running best as soon as beta <= alpha.
   */
  function AlphaBetaFrom(t: Tree, i: nat, alpha: ExtInt, beta: ExtInt, maximizing: bool, best: ExtInt): ExtInt
    requires t.Node? && i <= |t.children|
    decreases t, 0, |t.children| - i
  {
    if i == |t.children| then best
    else
      var u := AlphaBeta(t.children[i], alpha, beta, !maximizing);
      if maximizing then
        var best' := Max(best, u);
        var alpha' := Max(alpha, best');
        if Le(beta, alpha') then best' else AlphaBetaFrom(t, i + 1, alpha', beta, maximizing, best')
      else
        var best' := Min(best, u);
        var beta' := Min(beta, best');
        if Le(beta', alpha) then best' else AlphaBetaFrom(t, i + 1, alpha, beta', maximizing, best')
  }

  /**
   * The fail-soft contract of alpha-beta: `v` is the pruned value and `m` the
   * true minimax value. Below the window, v is an upper bound of m inside
   * [m, alpha]; above the window, v lies in [beta, m]; inside, v is exact.
   */
  predicate FailSoft(v: ExtInt, m: ExtInt, alpha: ExtInt, beta: ExtInt)
  {
    && (Le(m, alpha) ==> Le(m, v) && Le(v, alpha))
    && (Le(beta, m) ==> Le(beta, v) && Le(v, m))
    && (Lt(alpha, m) && Lt(m, beta) ==> v == m)
  }

  /** Folding the remaining children from `best` is `best` combined with the fold from the start value. */
  lemma {:induction false} MinimaxFromSplit(t: Tree, i: nat, maximizing: bool, best: ExtInt)
    requires t.Node? && i <= |t.children|
    ensures MinimaxFrom(t, i, maximizing, best)
         == Better(maximizing, best, MinimaxFrom(t, i, maximizing, Start(maximizing)))
    decreases |t.children| - i
  {
    if i < |t.children| {
      var m := Minimax(t.children[i], !maximizing);
      MinimaxFromSplit(t, i + 1, maximizing, Better(maximizing, best, m));
      MinimaxFromSplit(t, i + 1, maximizing, Better(maximizing, Start(maximizing), m));
    }
  }

  /** Alpha-beta is fail-soft with respect to minimax, for every non-empty window. */
  lemma {:induction false} AlphaBetaFailSoft(t: Tree, alpha: ExtInt, beta: ExtInt, maximizing: bool)
    requires Lt(alpha, beta)
    ensures FailSoft(AlphaBeta(t, alpha, beta, maximizing), Minimax(t, maximizing), alpha, beta)
    decreases t, 1, 0
  {
    if t.Node? {
      AlphaBetaFromFailSoft(t, 0, alpha, beta, maximizing, Start(maximizing));
    }
  }

  lemma {:induction false} AlphaBetaFromFailSoft(t: Tree, i: nat, alpha: ExtInt, beta: ExtInt, maximizing: bool, best: ExtInt)
    requires t.Node? && i <= |t.children|
    requires Lt(alpha, beta)
    requires maximizing ==> Le(best, alpha)
    requires !maximizing ==> Le(beta, best)
    ensures FailSoft(AlphaBetaFrom(t, i, alpha, beta, maximizing, best),
                     MinimaxFrom(t, i, maximizing, best), alpha, beta)
    decreases t, 0, |t.children| - i
  {
    if i < |t.children| {
      var c := t.children[i];
      var u := AlphaBeta(c, alpha, beta, !maximizing);
      var m := Minimax(c, !maximizing);
      AlphaBetaFailSoft(c, alpha, beta, !maximizing);
      var rest := MinimaxFrom(t, i + 1, maximizing, Start(maximizing));
      MinimaxFromSplit(t, i + 1, maximizing, Better(maximizing, best, m));
      var v := AlphaBetaFrom(t, i, alpha, beta, maximizing, best);
      if maximizing {
        var best' := Max(best, u);
        var alpha' := Max(alpha, best');
        if Le(beta, m) {
          MaxCutoff(alpha, beta, best, u, m, rest);
        } else if Le(m, alpha) {
          MaxBelowWindow(alpha, beta, best, u, m);
          AlphaBetaFromFailSoft(t, i + 1, alpha, beta, maximizing, best');
          MinimaxFromSplit(t, i + 1, maximizing, best');
          MaxBelowWindowRest(alpha, beta, best, u, m, rest, v);
        } else {
          MaxInsideWindow(alpha, beta, best, u, m);
          AlphaBetaFromFailSoft(t, i + 1, m, beta, maximizing, m);
          NarrowedWindow(alpha, m, beta, v, Max(m, rest));
        }
      } else {
        var best' := Min(best, u);
        var beta' := Min(beta, best');
        if Le(m, alpha) {
          MinCutoff(alpha, beta, best, u, m, rest);
        } else if Le(beta, m) {
          MinAboveWindow(alpha, beta, best, u, m);
          AlphaBetaFromFailSoft(t, i + 1, alpha, beta, maximizing, best');
          MinimaxFromSplit(t, i + 1, maximizing, best');
          MinAboveWindowRest(alpha, beta, best, u, m, rest, v);
        } else {
          MinInsideWindow(alpha, beta, best, u, m);
          AlphaBetaFromFailSoft(t, i + 1, alpha, m, maximizing, m);
          NarrowedWindowAbove(alpha, m, beta, v, Min(m, rest));
        }
      }
    }
  }

  // Steps of the maximizing loop, one per position of the child's true value m
  // relative to the window; u is the child's pruned value.

  lemma MaxCutoff(alpha: ExtInt, beta: ExtInt, best: ExtInt, u: ExtInt, m: ExtInt, rest: ExtInt)
    requires Lt(alpha, beta) && Le(best, alpha) && FailSoft(u, m, alpha, beta) && Le(beta, m)
    ensures Le(beta, Max(alpha, Max(best, u)))
    ensures FailSoft(Max(best, u), Max(Max(best, m), rest), alpha, beta)
  {
  }

  lemma MaxBelowWindow(alpha: ExtInt, beta: ExtInt, best: ExtInt, u: ExtInt, m: ExtInt)
    requires Lt(alpha, beta) && Le(best, alpha) && FailSoft(u, m, alpha, beta) && Le(m, alpha)
    ensures Max(alpha, Max(best, u)) == alpha && !Le(beta, alpha)
    ensures Le(Max(best, u), alpha) && Le(Max(best, m), Max(best, u))
  {
  }

  lemma MaxBelowWindowRest(alpha: ExtInt, beta: ExtInt, best: ExtInt, u: ExtInt, m: ExtInt, rest: ExtInt, v: ExtInt)
    requires Lt(alpha, beta) && Le(Max(best, u), alpha) && Le(Max(best, m), Max(best, u))
    requires FailSoft(v, Max(Max(best, u), rest), alpha, beta)
    ensures FailSoft(v, Max(Max(best, m), rest), alpha, beta)
  {
  }

  lemma MaxInsideWindow(alpha: ExtInt, beta: ExtInt, best: ExtInt, u: ExtInt, m: ExtInt)
    requires Lt(alpha, beta) && Le(best, alpha) && FailSoft(u, m, alpha, beta)
    requires !Le(m, alpha) && !Le(beta, m)
    ensures u == m && Max(best, u) == m && Max(alpha, Max(best, u)) == m
    ensures Lt(m, beta) && Max(best, m) == m
  {
  }

  lemma NarrowedWindow(alpha: ExtInt, m: ExtInt, beta: ExtInt, v: ExtInt, r: ExtInt)
    requires Lt(alpha, m) && Lt(m, beta) && Le(m, r)
    requires FailSoft(v, r, m, beta)
    ensures FailSoft(v, r, alpha, beta)
  {
    if r == m {
      LeAntisymmetric(v, m);
    }
  }

  // Mirror images for the minimizing loop.

  lemma MinCutoff(alpha: ExtInt, beta: ExtInt, best: ExtInt, u: ExtInt, m: ExtInt, rest: ExtInt)
    requires Lt(alpha, beta) && Le(beta, best) && FailSoft(u, m, alpha, beta) && Le(m, alpha)
    ensures Le(Min(beta, Min(best, u)), alpha)
    ensures FailSoft(Min(best, u), Min(Min(best, m), rest), alpha, beta)
  {
  }

  lemma MinAboveWindow(alpha: ExtInt, beta: ExtInt, best: ExtInt, u: ExtInt, m: ExtInt)
    requires Lt(alpha, beta) && Le(beta, best) && FailSoft(u, m, alpha, beta) && Le(beta, m)
    ensures Min(beta, Min(best, u)) == beta && !Le(beta, alpha)
    ensures Le(beta, Min(best, u)) && Le(Min(best, u), Min(best, m))
  {
  }

  lemma MinAboveWindowRest(alpha: ExtInt, beta: ExtInt, best: ExtInt, u: ExtInt, m: ExtInt, rest: ExtInt, v: ExtInt)
    requires Lt(alpha, beta) && Le(beta, Min(best, u)) && Le(Min(best, u), Min(best, m))
    requires FailSoft(v, Min(Min(best, u), rest), alpha, beta)
    ensures FailSoft(v, Min(Min(best, m), rest), alpha, beta)
  {
  }

  lemma MinInsideWindow(alpha: ExtInt, beta: ExtInt, best: ExtInt, u: ExtInt, m: ExtInt)
    requires Lt(alpha, beta) && Le(beta, best) && FailSoft(u, m, alpha, beta)
    requires !Le(m, alpha) && !Le(beta, m)
    ensures u == m && Min(best, u) == m && Min(beta, Min(best, u)) == m
    ensures Lt(alpha, m) && Min(best, m) == m
  {
  }

  lemma NarrowedWindowAbove(alpha: ExtInt, m: ExtInt, beta: ExtInt, v: ExtInt, r: ExtInt)
    requires Lt(alpha, m) && Lt(m, beta) && Le(r, m)
    requires FailSoft(v, r, alpha, m)
    ensures FailSoft(v, r, alpha, beta)
  {
    if r == m {
      LeAntisymmetric(v, m);
    }
  }

  /**
   * Pruning never changes the value at the root: called with the window
   * (-inf, +inf), alpha-beta returns exactly the minimax value.
   */
  lemma AlphaBetaAtRootIsMinimax(t: Tree, maximizing: bool)
    ensures AlphaBeta(t, NegInf, PosInf, maximizing) == Minimax(t, maximizing)
  {
    AlphaBetaFailSoft(t, NegInf, PosInf, maximizing);
  }
}
