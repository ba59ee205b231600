/**
 * The depth-limited alpha-beta search of `max_value` / `min_value`.
 *
 * The positions the search visits form a game tree: a leaf where a side has
 * won or the depth bound is reached, and otherwise one branch per move that
 * `succ` generates, in its order. Alpha-beta is defined on that tree exactly
 * as the source runs it (fail-hard: a cutoff returns the bound), and plain
 * minimax on the same tree is the reference it is proved against.
 *
 * Scores are in quarters: a win is 4, a loss -4 and the heuristic an
 * integer in -4 .. 4, so every score the source computes as a float is
 * exactly representable. The source's float("-inf") and float("inf") only
 * ever serve as bounds below and above every score, so they are NegInf = -5
 * and PosInf = 5; this map keeps every comparison the search makes.
 */
module Search {
  import opened TeekoBoard
  import opened Evaluation
  import opened Successors

  datatype Option<T> = None | Some(value: T)

  const NegInf: int := -5
  const PosInf: int := 5

  /** The search stops at this depth and scores the board with the heuristic. */
  const MaxDepth: nat := 4

  function Min(a: int, b: int): int
  {
    if a <= b then a else b
  }

  // ---------------------------------------------------------------- the game tree

  datatype Tree = Leaf(score: int) | Node(branches: seq<Branch>)

  /** A move and the subtree of the position it leads to. */
  datatype Branch = Branch(move: Move, tree: Tree)

  /** A node stops the search when a side has won or the depth bound is reached. */
  predicate Stops(me: Piece, s: Board, depth: nat)
  {
    TerminalValue(me, s) == 1 || TerminalValue(me, s) == -1 || depth == MaxDepth
  }

  /** The score of a node that stops the search: the win or loss, else the heuristic. */
  function StopValue(me: Piece, s: Board): int
  {
    if TerminalValue(me, s) == 1 || TerminalValue(me, s) == -1 then 4 * TerminalValue(me, s)
    else HeuristicScore(me, s)
  }

  /**
   * The tree the search explores from board s at depth, with the agent (me)
   * to move when opp is false and the opponent to move when it is true.
   */
  function GameTree(me: Piece, s: Board, depth: nat, opp: bool): Tree
    requires depth <= MaxDepth
    decreases MaxDepth - depth
  {
    if Stops(me, s, depth) then Leaf(StopValue(me, s))
    else
      var x := Mover(me, opp);
      var moves := SuccMoves(s, x);
      Node(seq(|moves|, k requires 0 <= k < |moves| => Branch(moves[k], GameTree(me, Apply(s, moves[k], x), depth + 1, !opp))))
  }

  /** Every leaf score lies in -4 .. 4. */
  predicate Bounded(t: Tree)
  {
    match t
    case Leaf(v) => -4 <= v <= 4
    case Node(bs) => forall k :: 0 <= k < |bs| ==> Bounded(bs[k].tree)
  }

  // ---------------------------------------------------------------- minimax, the reference

  /** The minimax value of a tree whose root the maximising side (the agent) moves from. */
  function MaxScore(t: Tree): int
    decreases t, 1
  {
    match t
    case Leaf(v) => v
    case Node(_) => MaxScoreFrom(t, 0)
  }

  /** The largest value among the branches k.. of t, NegInf when there is none. */
  function MaxScoreFrom(t: Tree, k: nat): int
    requires t.Node? && k <= |t.branches|
    decreases t, 0, |t.branches| - k
  {
    if k == |t.branches| then NegInf else Max(MinScore(t.branches[k].tree), MaxScoreFrom(t, k + 1))
  }

  /** The minimax value of a tree whose root the minimising side (the opponent) moves from. */
  function MinScore(t: Tree): int
    decreases t, 1
  {
    match t
    case Leaf(v) => v
    case Node(_) => MinScoreFrom(t, 0)
  }

  /** The smallest value among the branches k.. of t, PosInf when there is none. */
  function MinScoreFrom(t: Tree, k: nat): int
    requires t.Node? && k <= |t.branches|
    decreases t, 0, |t.branches| - k
  {
    if k == |t.branches| then PosInf else Min(MaxScore(t.branches[k].tree), MinScoreFrom(t, k + 1))
  }

  // ---------------------------------------------------------------- alpha-beta, as the source computes it

  /** `max_value`: the score and the best move found, with window (alpha, beta). */
  function AlphaBetaMax(t: Tree, alpha: int, beta: int): (int, Option<Move>)
    decreases t, 1
  {
    match t
    case Leaf(v) => (v, None)
    case Node(_) => AlphaBetaMaxFrom(t, 0, alpha, beta, None)
  }

  /** The loop of `max_value` from branch k on, with the current alpha and best move. */
  function AlphaBetaMaxFrom(t: Tree, k: nat, alpha: int, beta: int, best: Option<Move>): (int, Option<Move>)
    requires t.Node? && k <= |t.branches|
    decreases t, 0, |t.branches| - k
  {
    if k == |t.branches| then (alpha, best)
    else
      var score := AlphaBetaMin(t.branches[k].tree, alpha, beta).0;
      var alpha' := if score > alpha then score else alpha;
      var best' := if score > alpha then Some(t.branches[k].move) else best;
      if alpha' >= beta then (beta, best')
      else AlphaBetaMaxFrom(t, k + 1, alpha', beta, best')
  }

  /** `min_value`: the score and the best move found for the opponent, with window (alpha, beta). */
  function AlphaBetaMin(t: Tree, alpha: int, beta: int): (int, Option<Move>)
    decreases t, 1
  {
    match t
    case Leaf(v) => (v, None)
    case Node(_) => AlphaBetaMinFrom(t, 0, alpha, beta, None)
  }

  /** The loop of `min_value` from branch k on, with the current beta and best move. */
  function AlphaBetaMinFrom(t: Tree, k: nat, alpha: int, beta: int, best: Option<Move>): (int, Option<Move>)
    requires t.Node? && k <= |t.branches|
    decreases t, 0, |t.branches| - k
  {
    if k == |t.branches| then (beta, best)
    else
      var score := AlphaBetaMax(t.branches[k].tree, alpha, beta).0;
      var beta' := if score < beta then score else beta;
      var best' := if score < beta then Some(t.branches[k].move) else best;
      if alpha >= beta' then (alpha, best')
      else AlphaBetaMinFrom(t, k + 1, alpha, beta', best')
  }

  // ---------------------------------------------------------------- what minimax means

  lemma StopValueRange(me: Piece, s: Board)
    ensures -4 <= StopValue(me, s) <= 4
  {
    HeuristicBounds(me, s);
  }

  /** A node that stops the search is a leaf holding its score. */
  lemma GameTreeLeaf(me: Piece, s: Board, depth: nat, opp: bool)
    requires depth <= MaxDepth && Stops(me, s, depth)
    ensures GameTree(me, s, depth, opp) == Leaf(StopValue(me, s))
  {
  }

  /** The shape of the tree at a node that does not stop: one branch per successor, in order. */
  lemma GameTreeBranches(me: Piece, s: Board, depth: nat, opp: bool, moves: seq<Move>, succs: seq<Board>)
    requires depth <= MaxDepth && !Stops(me, s, depth)
    requires moves == SuccMoves(s, Mover(me, opp)) && |succs| == |moves|
    requires forall k :: 0 <= k < |succs| ==> succs[k] == Apply(s, moves[k], Mover(me, opp))
    ensures GameTree(me, s, depth, opp).Node? && |GameTree(me, s, depth, opp).branches| == |moves|
    ensures forall k :: 0 <= k < |moves| ==>
              GameTree(me, s, depth, opp).branches[k] == Branch(moves[k], GameTree(me, succs[k], depth + 1, !opp))
  {
  }

  /** Every tree the search explores has its leaf scores in -4 .. 4. */
  lemma {:induction false} GameTreeBounded(me: Piece, s: Board, depth: nat, opp: bool)
    requires depth <= MaxDepth
    ensures Bounded(GameTree(me, s, depth, opp))
    decreases MaxDepth - depth
  {
    if Stops(me, s, depth) {
      StopValueRange(me, s);
    } else {
      var x := Mover(me, opp);
      var moves := SuccMoves(s, x);
      var succs := Boards(s, moves, x);
      GameTreeBranches(me, s, depth, opp, moves, succs);
      var t := GameTree(me, s, depth, opp);
      forall k | 0 <= k < |t.branches| ensures Bounded(t.branches[k].tree) {
        GameTreeBounded(me, succs[k], depth + 1, !opp);
      }
    }
  }

  lemma {:induction false} MaxScoreRange(t: Tree)
    requires Bounded(t)
    ensures NegInf <= MaxScore(t) <= PosInf
    ensures t.Node? ==> forall k :: 0 <= k <= |t.branches| ==> NegInf <= MaxScoreFrom(t, k) <= PosInf
    decreases t, 1
  {
    if t.Node? {
      forall k | 0 <= k <= |t.branches| ensures NegInf <= MaxScoreFrom(t, k) <= PosInf {
        MaxScoreFromRange(t, k);
      }
    }
  }

  lemma {:induction false} MaxScoreFromRange(t: Tree, k: nat)
    requires Bounded(t) && t.Node? && k <= |t.branches|
    ensures NegInf <= MaxScoreFrom(t, k) <= PosInf
    decreases t, 0, |t.branches| - k
  {
    if k < |t.branches| {
      MinScoreRange(t.branches[k].tree);
      MaxScoreFromRange(t, k + 1);
    }
  }

  lemma {:induction false} MinScoreRange(t: Tree)
    requires Bounded(t)
    ensures NegInf <= MinScore(t) <= PosInf
    ensures t.Node? ==> forall k :: 0 <= k <= |t.branches| ==> NegInf <= MinScoreFrom(t, k) <= PosInf
    decreases t, 1
  {
    if t.Node? {
      forall k | 0 <= k <= |t.branches| ensures NegInf <= MinScoreFrom(t, k) <= PosInf {
        MinScoreFromRange(t, k);
      }
    }
  }

  lemma {:induction false} MinScoreFromRange(t: Tree, k: nat)
    requires Bounded(t) && t.Node? && k <= |t.branches|
    ensures NegInf <= MinScoreFrom(t, k) <= PosInf
    decreases t, 0, |t.branches| - k
  {
    if k < |t.branches| {
      MaxScoreRange(t.branches[k].tree);
      MinScoreFromRange(t, k + 1);
    }
  }

  /** MaxScoreFrom is the maximum of the branches' values, and NegInf when there is no branch. */
  lemma {:induction false} MaxScoreFromIsMaximum(t: Tree, k: nat)
    requires Bounded(t) && t.Node? && k <= |t.branches|
    ensures forall j :: k <= j < |t.branches| ==> MinScore(t.branches[j].tree) <= MaxScoreFrom(t, k)
    ensures k == |t.branches| ==> MaxScoreFrom(t, k) == NegInf
    ensures k < |t.branches| ==> exists j :: k <= j < |t.branches| && MinScore(t.branches[j].tree) == MaxScoreFrom(t, k)
    decreases |t.branches| - k
  {
    if k < |t.branches| {
      MaxScoreFromIsMaximum(t, k + 1);
      MinScoreRange(t.branches[k].tree);
      if MaxScoreFrom(t, k) != MinScore(t.branches[k].tree) {
        var j :| k + 1 <= j < |t.branches| && MinScore(t.branches[j].tree) == MaxScoreFrom(t, k + 1);
      }
    }
  }

  /** MinScoreFrom is the minimum of the branches' values, and PosInf when there is no branch. */
  lemma {:induction false} MinScoreFromIsMinimum(t: Tree, k: nat)
    requires Bounded(t) && t.Node? && k <= |t.branches|
    ensures forall j :: k <= j < |t.branches| ==> MinScoreFrom(t, k) <= MaxScore(t.branches[j].tree)
    ensures k == |t.branches| ==> MinScoreFrom(t, k) == PosInf
    ensures k < |t.branches| ==> exists j :: k <= j < |t.branches| && MaxScore(t.branches[j].tree) == MinScoreFrom(t, k)
    decreases |t.branches| - k
  {
    if k < |t.branches| {
      MinScoreFromIsMinimum(t, k + 1);
      MaxScoreRange(t.branches[k].tree);
      if MinScoreFrom(t, k) != MaxScore(t.branches[k].tree) {
        var j :| k + 1 <= j < |t.branches| && MaxScore(t.branches[j].tree) == MinScoreFrom(t, k + 1);
      }
    }
  }

  // ---------------------------------------------------------------- alpha-beta agrees with minimax

  /**
   * A fail-hard alpha-beta score r agrees with the true value v for the
   * window (alpha, beta): exact inside it, on the correct side outside it.
   */
  predicate AgreesWithin(r: int, v: int, alpha: int, beta: int)
  {
    (v <= alpha ==> r <= alpha) && (beta <= v ==> beta <= r) && (alpha < v < beta ==> r == v)
  }

  lemma {:induction false} AlphaBetaMaxWindow(t: Tree, alpha: int, beta: int)
    requires NegInf <= alpha < beta <= PosInf
    ensures AgreesWithin(AlphaBetaMax(t, alpha, beta).0, MaxScore(t), alpha, beta)
    ensures t.Node? ==> alpha <= AlphaBetaMax(t, alpha, beta).0 <= beta
    decreases t, 1
  {
    if t.Node? {
      AlphaBetaMaxFromWindow(t, 0, alpha, beta, None);
    }
  }

  lemma {:induction false} AlphaBetaMinWindow(t: Tree, alpha: int, beta: int)
    requires NegInf <= alpha < beta <= PosInf
    ensures AgreesWithin(AlphaBetaMin(t, alpha, beta).0, MinScore(t), alpha, beta)
    ensures t.Node? ==> alpha <= AlphaBetaMin(t, alpha, beta).0 <= beta
    decreases t, 1
  {
    if t.Node? {
      AlphaBetaMinFromWindow(t, 0, alpha, beta, None);
    }
  }

  /** The loop of `max_value` returns beta on a cutoff, and otherwise the larger of alpha and the branches' maximum. */
  lemma {:induction false} AlphaBetaMaxFromWindow(t: Tree, k: nat, alpha: int, beta: int, best: Option<Move>)
    requires t.Node? && k <= |t.branches| && NegInf <= alpha < beta <= PosInf
    ensures var r, v := AlphaBetaMaxFrom(t, k, alpha, beta, best).0, MaxScoreFrom(t, k);
            (r == beta && beta <= v) || (r < beta && r == Max(alpha, v))
    decreases t, 0, |t.branches| - k
  {
    if k < |t.branches| {
      var child := t.branches[k].tree;
      AlphaBetaMinWindow(child, alpha, beta);
      var score := AlphaBetaMin(child, alpha, beta).0;
      var alpha' := if score > alpha then score else alpha;
      var best' := if score > alpha then Some(t.branches[k].move) else best;
      if alpha' < beta {
        AlphaBetaMaxFromWindow(t, k + 1, alpha', beta, best');
      }
    }
  }

  /** The loop of `min_value` returns alpha on a cutoff, and otherwise the smaller of beta and the branches' minimum. */
  lemma {:induction false} AlphaBetaMinFromWindow(t: Tree, k: nat, alpha: int, beta: int, best: Option<Move>)
    requires t.Node? && k <= |t.branches| && NegInf <= alpha < beta <= PosInf
    ensures var r, v := AlphaBetaMinFrom(t, k, alpha, beta, best).0, MinScoreFrom(t, k);
            (r == alpha && v <= alpha) || (alpha < r && r == Min(beta, v))
    decreases t, 0, |t.branches| - k
  {
    if k < |t.branches| {
      var child := t.branches[k].tree;
      AlphaBetaMaxWindow(child, alpha, beta);
      var score := AlphaBetaMax(child, alpha, beta).0;
      var beta' := if score < beta then score else beta;
      var best' := if score < beta then Some(t.branches[k].move) else best;
      if alpha < beta' {
        AlphaBetaMinFromWindow(t, k + 1, alpha, beta', best');
      }
    }
  }

  /**
   * The move `max_value` returns was the last to raise alpha: either its
   * subtree's value is the result, or it caused the cutoff at beta.
   */
  lemma {:induction false} AlphaBetaMaxFromBest(t: Tree, k: nat, alpha: int, beta: int, best: Option<Move>)
    requires t.Node? && k <= |t.branches| && NegInf <= alpha < beta <= PosInf
    ensures var (r, b) := AlphaBetaMaxFrom(t, k, alpha, beta, best);
            (r == alpha && b == best)
            || exists j :: k <= j < |t.branches| && b == Some(t.branches[j].move) && alpha < r
                 && (r == MinScore(t.branches[j].tree) || (r == beta && beta <= MinScore(t.branches[j].tree)))
    decreases |t.branches| - k
  {
    if k < |t.branches| {
      var child := t.branches[k].tree;
      AlphaBetaMinWindow(child, alpha, beta);
      var score := AlphaBetaMin(child, alpha, beta).0;
      if score > alpha && score < beta {
        AlphaBetaMaxFromBest(t, k + 1, score, beta, Some(t.branches[k].move));
      } else if score <= alpha {
        AlphaBetaMaxFromBest(t, k + 1, alpha, beta, best);
      }
    }
  }

  /**
   * With beta = inf, the move `max_value` returns is the first branch, in
   * order, whose value is the result: the strict `score > alpha` leaves a
   * later branch of equal value unchosen.
   */
  lemma {:induction false} AlphaBetaMaxFromFirst(t: Tree, k: nat, alpha: int, best: Option<Move>)
    requires Bounded(t) && t.Node? && k <= |t.branches| && NegInf <= alpha < PosInf
    ensures var (r, b) := AlphaBetaMaxFrom(t, k, alpha, PosInf, best);
            (r == alpha && b == best)
            || exists j :: k <= j < |t.branches| && b == Some(t.branches[j].move) && alpha < r
                 && MinScore(t.branches[j].tree) == r
                 && forall i :: k <= i < j ==> MinScore(t.branches[i].tree) < r
    decreases |t.branches| - k
  {
    if k < |t.branches| {
      var child := t.branches[k].tree;
      AlphaBetaMinWindow(child, alpha, PosInf);
      MinScoreRange(child);
      var score := AlphaBetaMin(child, alpha, PosInf).0;
      if score > alpha && score < PosInf {
        assert MinScore(child) == score;
        AlphaBetaMaxFromFirst(t, k + 1, score, Some(t.branches[k].move));
      } else if score <= alpha {
        assert MinScore(child) <= alpha;
        AlphaBetaMaxFromFirst(t, k + 1, alpha, best);
      } else {
        assert MinScore(child) == PosInf;
      }
    }
  }

  /**
   * Called with the window (-inf, inf), as `make_move` calls it, the search
   * returns the minimax value, and a move exactly when some move attains it
   * above -inf; the returned move is the first branch that attains it.
   */
  lemma AlphaBetaRoot(t: Tree)
    requires Bounded(t)
    ensures AlphaBetaMax(t, NegInf, PosInf).0 == MaxScore(t)
    ensures AlphaBetaMax(t, NegInf, PosInf).1.Some? ==>
              exists j :: 0 <= j < |t.branches| && t.branches[j].move == AlphaBetaMax(t, NegInf, PosInf).1.value
                && MinScore(t.branches[j].tree) == MaxScore(t)
                && forall i :: 0 <= i < j ==> MinScore(t.branches[i].tree) < MaxScore(t)
    ensures AlphaBetaMax(t, NegInf, PosInf).1.None? ==> t.Leaf? || MaxScore(t) == NegInf
  {
    AlphaBetaMaxWindow(t, NegInf, PosInf);
    MaxScoreRange(t);
    if t.Node? {
      AlphaBetaMaxFromFirst(t, 0, NegInf, None);
      forall j | 0 <= j < |t.branches| ensures MinScore(t.branches[j].tree) <= PosInf {
        MinScoreRange(t.branches[j].tree);
      }
    }
  }

  /**
   * The root statement for a node whose branches are given as a list of
   * moves and a list of subtrees.
   */
  lemma RootChoice(t: Tree, moves: seq<Move>, kids: seq<Tree>)
    requires Bounded(t) && t.Node? && |t.branches| == |moves| == |kids|
    requires forall k :: 0 <= k < |moves| ==> t.branches[k] == Branch(moves[k], kids[k])
    ensures var (r, b) := AlphaBetaMax(t, NegInf, PosInf);
            && r == MaxScore(t)
            && (b.Some? ==>
                  exists j :: 0 <= j < |moves| && b.value == moves[j] && MinScore(kids[j]) == r
                    && forall i :: 0 <= i < j ==> MinScore(kids[i]) < r)
            && (forall k :: 0 <= k < |moves| ==> MinScore(kids[k]) <= r)
            && (b.None? ==> r == NegInf)
  {
    AlphaBetaRoot(t);
    MaxScoreFromIsMaximum(t, 0);
  }

  /**
   * What the search promises about a board: the score is the depth-4 minimax
   * value; a returned move is one `succ` generates, it attains the value and
   * every move `succ` lists before it is worth less; no move is worth more;
   * no move is returned only on a won or lost board or when every move is
   * worth -inf.
   */
  lemma SearchRoot(me: Piece, s: Board)
    ensures var t := GameTree(me, s, 0, false);
            var (r, b) := AlphaBetaMax(t, NegInf, PosInf);
            var moves := SuccMoves(s, me);
            && r == MaxScore(t)
            && (b.Some? ==>
                  exists j :: 0 <= j < |moves| && b.value == moves[j]
                    && MinScore(GameTree(me, Apply(s, moves[j], me), 1, true)) == r
                    && forall i :: 0 <= i < j ==> MinScore(GameTree(me, Apply(s, moves[i], me), 1, true)) < r)
            && (b.Some? ==> forall k :: 0 <= k < |moves| ==> MinScore(GameTree(me, Apply(s, moves[k], me), 1, true)) <= r)
            && (b.None? ==> TerminalValue(me, s) != 0 || r == NegInf)
  {
    var t := GameTree(me, s, 0, false);
    GameTreeBounded(me, s, 0, false);
    if Stops(me, s, 0) {
      GameTreeLeaf(me, s, 0, false);
      AlphaBetaRoot(t);
    } else {
      var moves := SuccMoves(s, me);
      var succs := Boards(s, moves, me);
      GameTreeBranches(me, s, 0, false, moves, succs);
      var kids := seq(|moves|, k requires 0 <= k < |moves| => GameTree(me, succs[k], 1, true));
      RootChoice(t, moves, kids);
    }
  }

  // ---------------------------------------------------------------- the methods

  /** `max_value`: returns the game value of a won or lost board, the heuristic at depth 4, else searches. */
  method MaxValue(me: Piece, state: Board, depth: nat, alpha: int, beta: int) returns (score: int, move: Option<Move>)
    requires depth <= MaxDepth
    ensures (score, move) == AlphaBetaMax(GameTree(me, state, depth, false), alpha, beta)
    decreases MaxDepth - depth
  {
    var val := GameValue(me, state);
    if val == 1 || val == -1 {
      GameTreeLeaf(me, state, depth, false);
      return val * 4, None;
    } else if depth == MaxDepth {
      score := HeuristicGameValue(me, state);
      GameTreeLeaf(me, state, depth, false);
      return score, None;
    }
    ghost var tree := GameTree(me, state, depth, false);
    var bestMove: Option<Move> := None;
    var moves, succ := Succ(me, state, false);
    GameTreeBranches(me, state, depth, false, moves, succ);
    var a := alpha;
    for k := 0 to |moves|
      invariant AlphaBetaMaxFrom(tree, k, a, beta, bestMove) == AlphaBetaMax(tree, alpha, beta)
    {
      var sc, reply := MinValue(me, succ[k], depth + 1, a, beta);
      assert sc == AlphaBetaMin(GameTree(me, succ[k], depth + 1, true), a, beta).0;
      if sc > a {
        a := sc;
        bestMove := Some(moves[k]);
      }
      if a >= beta {
        return beta, bestMove;
      }
    }
    return a, bestMove;
  }

  /** `min_value`: as MaxValue, with the opponent to move and beta lowered instead of alpha raised. */
  method MinValue(me: Piece, state: Board, depth: nat, alpha: int, beta: int) returns (score: int, move: Option<Move>)
    requires depth <= MaxDepth
    ensures (score, move) == AlphaBetaMin(GameTree(me, state, depth, true), alpha, beta)
    decreases MaxDepth - depth
  {
    var val := GameValue(me, state);
    if val == 1 || val == -1 {
      GameTreeLeaf(me, state, depth, true);
      return val * 4, None;
    } else if depth == MaxDepth {
      score := HeuristicGameValue(me, state);
      GameTreeLeaf(me, state, depth, true);
      return score, None;
    }
    ghost var tree := GameTree(me, state, depth, true);
    var bestMove: Option<Move> := None;
    var moves, succ := Succ(me, state, true);
    GameTreeBranches(me, state, depth, true, moves, succ);
    var b := beta;
    for k := 0 to |moves|
      invariant AlphaBetaMinFrom(tree, k, alpha, b, bestMove) == AlphaBetaMin(tree, alpha, beta)
    {
      var sc, reply := MaxValue(me, succ[k], depth + 1, alpha, b);
      assert sc == AlphaBetaMax(GameTree(me, succ[k], depth + 1, false), alpha, b).0;
      if sc < b {
        b := sc;
        bestMove := Some(moves[k]);
      }
      if alpha >= b {
        return alpha, bestMove;
      }
    }
    return b, bestMove;
  }
}
