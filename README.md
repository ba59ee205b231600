# Teeko agent, modelled in Dafny

This project models the game-playing core of a Teeko agent. Teeko is played by two sides, black (`b`) and red (`r`), on a 5×5 board.

- **Drop phase.** While fewer than 8 pieces are on the board, a move drops a piece on an empty cell.
- **Move phase.** After that, a move relocates one of the mover's own pieces to an empty neighbouring cell.
- **Winning.** A side wins with four pieces in a horizontal, vertical or diagonal line, or in a 2×2 box.

The agent has five parts:

- a successor generator (`succ`);
- a terminal test (`game_value`);
- a heuristic (`heuristic_game_value`);
- a depth-4 alpha-beta search (`max_value` / `min_value`) behind `make_move`;
- its own copy of the board, updated by `place_piece` and by `opponent_move`, which checks the opponent's move first.

## Modules

- `TeekoBoard` (board.dfy) defines the basic types:
  - cells, pieces, positions and the 5×5 board as a value;
  - the two move shapes: a drop `[(row, col)]` and a relocation `[(row, col), (src_row, src_col)]`;
  - what a move does to a board.
- `Evaluation` (evaluation.dfy) holds the 44 winning patterns and the two evaluators:
  - The patterns are kept in one table, in the order the source scans its five families.
  - `GameValue` is the terminal test and `HeuristicGameValue` the heuristic. Both are loops, proved equal to the functions `TerminalValue` and `HeuristicScore`.
- `Successors` (successors.dfy) models `succ`:
  - The method `Succ` scans the board the way the source does, with helper methods for the count, the drops, and the slides of one piece.
  - It is proved to return `SuccMoves`, with one board per move that equals the move applied to the input.
  - Lemmas characterise `SuccMoves` exactly: every legal move is in it, nothing else is, and no move appears twice.
- `Search` (search.dfy) models the search:
  - It defines the game tree the search explores, plain minimax on that tree, and fail-hard alpha-beta exactly as `max_value`/`min_value` compute it.
  - The methods `MaxValue`/`MinValue` are proved equal to the alpha-beta functions.
  - Lemmas prove that with the window (-inf, inf) alpha-beta returns the minimax value and the first move, in `succ`'s order, that attains it.
- `Player` (player.dfy) models the agent object. Class `TeekoPlayer` holds:
  - the agent's piece, the opponent's piece and its board (an `array2`);
  - `PlacePiece`, `OpponentMove` and `MakeMove`.

### Scores

Heuristic scores in the source are multiples of 1/4. The model keeps every score multiplied by 4:

- a win is 4 and a loss is -4;
- the heuristic is an integer in -4..4;
- the source's `float("-inf")` and `float("inf")` are -5 and 5.

Those two constants only ever serve as bounds below and above every score, so every comparison the search makes comes out the same.

## Model

| member | source | states |
|---|---|---|
| TeekoBoard.Opponent | game.py:16 | the opponent's piece is the other of the two pieces |
| TeekoBoard.OpponentIsTheOther | game.py:9-16 | any non-empty cell other than p holds p's opponent, and the opponent of the opponent is p |
| TeekoBoard.Apply | game.py:140-157 | after a move the destination holds the piece and a relocation's source is empty; every other cell is unchanged |
| TeekoBoard.ApplyOccupied | game.py:140-157 | a drop on an empty cell adds one piece to the board; a relocation keeps the count |
| TeekoBoard.OccupiedAfterSet | game.py:140-157 | how writing one cell changes the count of occupied cells |
| TeekoBoard.SameCells | game.py:140-157 | boards with equal cells are equal, so a board is determined by what each cell holds |
| Evaluation.Patterns | game.py:178-234 | the table of winning patterns has 44 entries, in the source's scan order |
| Evaluation.PatternIsShape | game.py:178-234 | every entry of the table is a line of four in one of the four directions, or a 2×2 box |
| Evaluation.LineIsPattern | game.py:178-218 | every line of four on the board, along a row, a column or either diagonal, is an entry of the table |
| Evaluation.BoxIsPattern | game.py:220-235 | every 2×2 box is an entry of the table |
| Evaluation.PatternsAreWinningShapes | game.py:178-235 | the table holds exactly Teeko's winning shapes |
| Evaluation.WinnerFromMeaning | game.py:178-237 | scanning from entry k finds nothing exactly when no later pattern is complete; otherwise it finds the piece on the first complete one |
| Evaluation.TerminalValue | game.py:168-237 | the definition: 0 when the scan finds no complete pattern, 1 when the first complete one holds the agent's piece, -1 otherwise |
| Evaluation.TerminalValueShapes | game.py:168-237 | `game_value` is 0 exactly when no line of four and no 2×2 box is complete |
| Evaluation.TerminalValueMeaning | game.py:168-237 | `game_value` is 0 exactly when no pattern is complete; otherwise it is 1 or -1 according to whether the first complete pattern in scan order holds the agent's piece or the opponent's |
| Evaluation.TerminalValueSymmetric | game.py:168-237 | swapping the two sides negates the terminal value |
| Evaluation.DropCompletingTopRowWins | game.py:178-182 | three in the top row plus a drop on (0,3) wins for the dropper and loses for the other side |
| Evaluation.GameValue | game.py:168-237 | the scan loop returns exactly the terminal value |
| Evaluation.Count | game.py:259-265 | a count over t cells is at most t |
| Evaluation.CountFull | game.py:259-265 | a count over t cells equals t exactly when all t cells hold the piece |
| Evaluation.CompleteIffFull | game.py:259-265 | a pattern holds four of piece v exactly when it is complete with v |
| Evaluation.MaxCountIsMaximum | game.py:266-267 | the running maximum is at most 4, bounds each pattern's count and is reached by one of them |
| Evaluation.BestCountFour | game.py:239-326 | the best count of a piece is 4 exactly when some pattern is full of it |
| Evaluation.HeuristicScore | game.py:327-329 | the definition: the agent's best count minus the opponent's, or the agent's best count alone when it is 4 |
| Evaluation.HeuristicBounds | game.py:239-329 | the heuristic lies in [-1, 1] (×4) and is 1 exactly when the agent has a complete pattern |
| Evaluation.HeuristicNonTerminal | game.py:239-329 | on an undecided board the heuristic is the difference of the best counts, lies strictly inside (-1, 1) and changes sign with the point of view |
| Evaluation.CountPieces | game.py:259-265 | the inner loop yields the number of the agent's and of the opponent's pieces in one pattern |
| Evaluation.HeuristicGameValue | game.py:239-329 | the loop over all patterns with running maxima returns exactly the heuristic score |
| Successors.DirectionsTable | game.py:51-60 | direction e of the table is (DRow(e), DCol(e)) |
| Successors.DirectionsAreNeighbours | game.py:51-60 | every direction leads to a different cell at most one row and one column away |
| Successors.NeighbourHasDirection | game.py:51-60 | every neighbouring cell is reached by exactly one direction of the table |
| Successors.Mover | game.py:36-38 | the piece that moves is the opponent's exactly when the `opp` flag is set |
| Successors.IsDropPhase | game.py:19-31 | the definition: fewer than 8 occupied cells |
| Successors.DropMovesCount | game.py:39-49 | the drop phase generates one move per empty cell |
| Successors.DropMovesMembers | game.py:39-48 | a drop is generated exactly when its cell is empty |
| Successors.DropMovesOrdered | game.py:39-48 | drops come in strictly increasing row-major order |
| Successors.DirMoveMembers | game.py:63-75 | one direction yields exactly the relocation of the piece to that empty on-board neighbour |
| Successors.DirMovesMembers | game.py:62-75 | the first d directions yield exactly the legal relocations of that piece in those directions |
| Successors.DirMovesOrdered | game.py:62-75 | one piece's relocations come in direction order, none repeated |
| Successors.PieceMovesMembers | game.py:62-75 | a piece's relocations are exactly the legal relocations from its cell |
| Successors.SlideMovesMembers | game.py:61-80 | the move phase generates exactly the legal relocations of pieces of the mover |
| Successors.SlideMovesOrdered | game.py:61-80 | relocations come ordered by source cell, then direction, none repeated |
| Successors.DistinctCard | game.py:61-80 | a list without repeats has as many distinct moves as entries |
| Successors.LegalRelocationsMembers | game.py:61-80 | the set of legal relocations holds exactly the legal relocations |
| Successors.SuccMoves | game.py:18-80 | the definition: the drops onto empty cells in row-major order during the drop phase; afterwards, the relocations by source cell in row-major order, then by direction in the table's order |
| Successors.SuccMovesMeaning | game.py:18-80 | in the drop phase the moves are exactly the legal drops; in the move phase exactly the legal relocations, each exactly once; never a repeated move |
| Successors.SuccessorOccupancy | game.py:18-80 | a generated move has the shape of its phase; a drop adds a piece; the move phase never returns to the drop phase |
| Successors.BoardsAppend | game.py:41-45 | appending a move appends its successor board |
| Successors.BoardsConcat | game.py:61-80 | successor boards of concatenated move lists concatenate |
| Successors.SwapIsApply | game.py:74 | swapping a piece with an empty neighbour is applying that relocation |
| Successors.OccupiedStep | game.py:23-29 | one scan step adds one to the count exactly for a non-empty cell |
| Successors.DropStep | game.py:40-48 | one scan step adds exactly the drop on that cell when it is empty |
| Successors.SlideStep | game.py:61-80 | one scan step adds exactly that cell's relocations when it holds the mover's piece |
| Successors.DirStep | game.py:63-75 | one direction step adds exactly the relocation in that direction when it is legal |
| Successors.CountOccupied | game.py:19-31 | the counting loop returns the number of occupied cells |
| Successors.DropSuccs | game.py:39-48 | the drop loop returns the drop moves and, for each, the board after it |
| Successors.PieceSlides | game.py:62-75 | the direction loop returns one piece's relocations and their boards |
| Successors.SlideSuccs | game.py:49-80 | the move-phase loop returns all relocations of the mover and their boards |
| Successors.Succ | game.py:18-80 | `succ` returns exactly `SuccMoves` for the mover, with one board per move equal to that move applied to the input |
| Search.StopValue | game.py:332-336 | the definition: a won or lost board scores ±4 (the source's ±1), any other stopping board the heuristic |
| Search.GameTree | game.py:331-338 | the definition: a leaf with the stop value when a side has won or depth 4 is reached, else one branch per `succ` move in order, leading to that move's board at the next depth with the other side to move |
| Search.StopValueRange | game.py:331-335 | a stopping node's score lies in [-4, 4] |
| Search.GameTreeLeaf | game.py:331-335 | a won or lost board, or depth 4, is a leaf with the terminal or heuristic score |
| Search.GameTreeBranches | game.py:336-338 | otherwise the node has one branch per generated move, in order, each leading to that move's board |
| Search.GameTreeBounded | game.py:331-363 | every leaf score lies in [-4, 4] |
| Search.MaxScoreRange | game.py:331-346 | minimax values lie between -inf and inf |
| Search.MaxScoreFromRange | game.py:336-346 | partial maxima lie between -inf and inf |
| Search.MinScoreRange | game.py:348-363 | minimax values at min nodes lie between -inf and inf |
| Search.MinScoreFromRange | game.py:353-363 | partial minima lie between -inf and inf |
| Search.MaxScoreFromIsMaximum | game.py:336-346 | the max-node reference value bounds every branch, is attained by one, and is -inf without branches |
| Search.MinScoreFromIsMinimum | game.py:353-363 | the min-node reference value bounds every branch from below, is attained by one, and is inf without branches |
| Search.AlphaBetaMax | game.py:331-346 | the definition: a leaf's score with no move, else the loop over the branches from the window's alpha and no move |
| Search.AlphaBetaMaxFrom | game.py:338-346 | the definition: a child scoring strictly above alpha raises alpha and becomes the best move; alpha >= beta returns beta and the best move; at the end, alpha and the best move |
| Search.AlphaBetaMin | game.py:348-363 | the definition: a leaf's score with no move, else the loop over the branches from the window's beta and no move |
| Search.AlphaBetaMinFrom | game.py:353-363 | the definition: a child scoring strictly below beta lowers beta and becomes the best move; alpha >= beta returns alpha and the best move; at the end, beta and the best move |
| Search.AlphaBetaMaxWindow | game.py:331-346 | `max_value` agrees with minimax within the window: exact inside (alpha, beta), a bound outside; a searched node returns a score inside [alpha, beta] |
| Search.AlphaBetaMinWindow | game.py:348-363 | the same for `min_value` |
| Search.AlphaBetaMaxFromWindow | game.py:338-346 | the max loop from branch k either cuts off at beta with value at least beta, or returns the max of alpha and the remaining branches |
| Search.AlphaBetaMinFromWindow | game.py:353-363 | the min loop either cuts off at alpha with value at most alpha, or returns the min of beta and the remaining branches |
| Search.AlphaBetaMaxFromBest | game.py:338-346 | the returned move is the earlier best, or a branch whose value is the returned score, or a cutoff branch worth at least beta |
| Search.AlphaBetaMaxFromFirst | game.py:338-346 | with beta = inf, the loop returns alpha and the earlier best move, or the first branch from k on whose value is the result, above alpha |
| Search.AlphaBetaRoot | game.py:108 | with the window (-inf, inf) the search returns the minimax value; a returned move is the first branch to attain it; there is no move only at a leaf or when the value is -inf |
| Search.RootChoice | game.py:108 | the root statement for a node given by its moves and subtrees: the value, the first attaining move, and that no move is worth more |
| Search.SearchRoot | game.py:82-108 | from a board, the result is the depth-4 minimax value; a returned move is the first move in `succ`'s order to attain it, and no move is worth more |
| Search.MaxValue | game.py:331-346 | `max_value` computes exactly the fail-hard alpha-beta score and move on the game tree |
| Search.MinValue | game.py:348-363 | `min_value` computes exactly the fail-hard alpha-beta score and move on the game tree |
| Player.CheckOpponentMove | game.py:124-136 | the definition: a relocation whose source does not hold the opponent's piece is refused first, then one that moves more than one row or column, then any move onto a non-empty cell; anything else is accepted |
| Player.CheckAcceptsLegal | game.py:111-138 | the checks accept exactly a drop on an empty cell, or a relocation of an opponent piece to an empty neighbouring cell |
| Player.CheckAcceptsGenerated | game.py:111-138 | a move whose shape fits the phase is accepted exactly when `succ` would generate it for the opponent |
| Player.AcceptedOccupancy | game.py:111-138 | an accepted drop adds a piece; an accepted relocation keeps the count |
| Player.TeekoPlayer.constructor | game.py:8-16 | the new player has the given piece, its opponent is the other one, and the board is empty |
| Player.TeekoPlayer.PlacePiece | game.py:140-157 | the board becomes the move applied to the old board |
| Player.TeekoPlayer.OpponentMove | game.py:111-138 | reports the first failed check in the source's order; an accepted move is placed with the opponent's piece, and a rejected one leaves the board unchanged |
| Player.TeekoPlayer.MakeMove | game.py:82-108 | the move is generated by `succ`, attains the depth-4 minimax value, and is the first in `succ`'s order to do so; no move is worth more; there is no move only on a won or lost board or when the value is -inf |

## Left out

- Input and output are not modelled: the sample play loop `main`, `print_board`, the prints before each exception, and reading the opponent's move from input.
- Randomness: `random.choice` in `__init__` becomes the constructor's `piece` parameter.
- `copy.deepcopy` is not modelled as a call. Boards passed to `succ`, `game_value` and the search are immutable values, so every successor is a fresh copy by construction.
- Sharing: in the source, `board` is a class attribute, so every `TeekoPlayer` instance shares one board. The model gives each player its own `array2`, so aliasing between instances is not modelled.
- Arithmetic: floats are replaced by integers scaled by 4, and ±inf by ±5. This is exact for every score the source can produce.
- Move encoding: moves are the datatype `Drop | Relocate` with coordinates in 0..4.
  - Move lists longer than two tuples are not modelled.
  - Nor are off-board coordinates, which would raise an `IndexError` in Python.
  - Nor are negative indices, which Python would wrap around.
  - Nor is the `source_row != None` test in `opponent_move`.
- Scan structure: `game_value` and `heuristic_game_value` each scan five pattern families in five loops. The model walks one table of the 44 patterns in the same order, so the result (the first complete pattern, and the running maxima) is the same.
- `succ` is split into helper methods, one per loop: the count, the drops, the slides and the eight directions.
- Search.MaxValue: requires `depth <= 4`. The source only ever calls it from depth 0 and stops at 4.
- Search.MinValue: requires `depth <= 4`, for the same reason.
- Discarded replies: the move a child search returns (`_` in the source) is not used, and the model computes it without tying it to anything further.
- Player.TeekoPlayer.OpponentMove: exceptions are modelled as a returned `Rejected(reason)`, not as control flow. The source's three messages are the three reasons.
