/**
 * The agent object: its piece, the opponent's piece and its own record of
 * the board, with the operations the play loop calls on it.
 */
module Player {
  import opened TeekoBoard
  import opened Evaluation
  import opened Successors
  import opened Search

  /** Why `opponent_move` refuses a move, in the order it checks. */
  datatype Rejection = NoPieceAtSource | NotAdjacent | DestinationTaken

  /** `opponent_move` either accepts the move or raises one of three exceptions. */
  datatype Outcome = Accepted | Rejected(reason: Rejection)

  function Abs(x: int): int
  {
    if x < 0 then -x else x
  }

  /** The checks of `opponent_move` on board s for the opponent's piece x. */
  function CheckOpponentMove(s: Board, x: Piece, m: Move): Outcome
  {
    if m.Relocate? && Get(s, m.src) != x then Rejected(NoPieceAtSource)
    else if m.Relocate? && (Abs(m.src.row - m.dest.row) > 1 || Abs(m.src.col - m.dest.col) > 1) then Rejected(NotAdjacent)
    else if Get(s, m.dest) != Empty then Rejected(DestinationTaken)
    else Accepted
  }

  /**
   * The checks accept exactly the legal drops and the legal relocations of
   * x; a relocation onto its own source is refused because that cell is not
   * empty.
   */
  lemma CheckAcceptsLegal(s: Board, x: Piece, m: Move)
    ensures CheckOpponentMove(s, x, m) == Accepted <==> LegalDrop(s, m) || LegalRelocation(s, x, m)
  {
  }

  /**
   * A move whose shape fits the phase is accepted exactly when `succ` would
   * generate it for x; the checks themselves do not look at the phase.
   */
  lemma CheckAcceptsGenerated(s: Board, x: Piece, m: Move)
    ensures (CheckOpponentMove(s, x, m) == Accepted && (m.Drop? <==> IsDropPhase(s))) <==> m in SuccMoves(s, x)
  {
    CheckAcceptsLegal(s, x, m);
    SuccMovesMeaning(s, x);
    if m in SuccMoves(s, x) {
      SuccessorOccupancy(s, x, m);
    }
  }

  /** An accepted drop adds a piece to the board; an accepted relocation keeps the count. */
  lemma AcceptedOccupancy(s: Board, x: Piece, m: Move)
    requires CheckOpponentMove(s, x, m) == Accepted
    ensures Occupied(Apply(s, m, x), 25) == Occupied(s, 25) + (if m.Drop? then 1 else 0)
  {
    ApplyOccupied(s, m, x);
  }

  class TeekoPlayer {
    const myPiece: Piece
    const opp: Piece
    const board: array2<Cell>

    ghost predicate Valid()
      reads this
    {
      board.Length0 == 5 && board.Length1 == 5 && opp == Opponent(myPiece)
    }

    /** The board the agent keeps, as a value. */
    function State(): Board
      requires Valid()
      reads this, board
    {
      seq(5, r requires 0 <= r < 5 reads this, board => seq(5, c requires 0 <= c < 5 reads this, board => board[r, c]))
    }

    /** `__init__`, with the randomly chosen piece as a parameter: the board starts empty. */
    constructor(piece: Piece)
      ensures Valid() && fresh(board)
      ensures myPiece == piece && opp == Opponent(piece)
      ensures State() == EmptyBoard()
    {
      myPiece := piece;
      opp := Opponent(piece);
      board := new Cell[5, 5]((i, j) => Empty);
      new;
      SameCells(State(), EmptyBoard());
    }

    /** `place_piece`: a relocation empties its source, then the destination gets the piece. */
    method PlacePiece(move: Move, piece: Piece)
      requires Valid()
      modifies board
      ensures Valid()
      ensures State() == Apply(old(State()), move, piece)
    {
      ghost var before := State();
      if move.Relocate? {
        board[move.src.row, move.src.col] := Empty;
      }
      board[move.dest.row, move.dest.col] := piece;
      forall p: Pos ensures Get(State(), p) == Get(Apply(before, move, piece), p) {
      }
      SameCells(State(), Apply(before, move, piece));
    }

    /** `opponent_move`: validates the opponent's move and, when it passes, places it. */
    method OpponentMove(move: Move) returns (outcome: Outcome)
      requires Valid()
      modifies board
      ensures Valid()
      ensures outcome == CheckOpponentMove(old(State()), opp, move)
      ensures State() == if outcome == Accepted then Apply(old(State()), move, opp) else old(State())
    {
      if move.Relocate? {
        if board[move.src.row, move.src.col] != opp {
          return Rejected(NoPieceAtSource);
        }
        if Abs(move.src.row - move.dest.row) > 1 || Abs(move.src.col - move.dest.col) > 1 {
          return Rejected(NotAdjacent);
        }
      }
      if board[move.dest.row, move.dest.col] != Empty {
        return Rejected(DestinationTaken);
      }
      PlacePiece(move, opp);
      return Accepted;
    }

    /**
     * `make_move`: the move of the depth-4 alpha-beta search from `state`.
     * It is a move `succ` generates, worth the depth-4 minimax value, and
     * the first in `succ`'s order to be worth it; no move is worth more.
     * There is none only on a won or lost board or when every move is
     * worth -inf.
     */
    method MakeMove(state: Board) returns (move: Option<Move>)
      ensures move == AlphaBetaMax(GameTree(myPiece, state, 0, false), NegInf, PosInf).1
      ensures move.Some? ==>
                exists j :: 0 <= j < |SuccMoves(state, myPiece)| && move.value == SuccMoves(state, myPiece)[j]
                  && MinScore(GameTree(myPiece, Apply(state, move.value, myPiece), 1, true)) == MaxScore(GameTree(myPiece, state, 0, false))
                  && forall i :: 0 <= i < j ==>
                       MinScore(GameTree(myPiece, Apply(state, SuccMoves(state, myPiece)[i], myPiece), 1, true))
                       < MaxScore(GameTree(myPiece, state, 0, false))
      ensures move.Some? ==>
                forall k :: 0 <= k < |SuccMoves(state, myPiece)| ==>
                  MinScore(GameTree(myPiece, Apply(state, SuccMoves(state, myPiece)[k], myPiece), 1, true))
                  <= MaxScore(GameTree(myPiece, state, 0, false))
      ensures move.None? ==> TerminalValue(myPiece, state) != 0 || MaxScore(GameTree(myPiece, state, 0, false)) == NegInf
    {
      var value;
      value, move := MaxValue(myPiece, state, 0, NegInf, PosInf);
      SearchRoot(myPiece, state);
    }
  }
}
