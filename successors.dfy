/**
 * Successor generation (`succ`): the phase follows from the number of pieces
 * on the board; drops go to every empty cell, relocations slide one of the
 * mover's pieces to an empty neighbouring cell.
 */
module Successors {
  import opened TeekoBoard

  /** The eight neighbour offsets, in the order the source scans them. */
  const Directions: seq<(int, int)> := [(-1, -1), (-1, 0), (-1, 1), (0, -1), (0, 1), (1, -1), (1, 0), (1, 1)]

  /** The position of an offset (dr, dc) in Directions; meaningful for the eight non-zero offsets. */
  function DirIndex(dr: int, dc: int): int
  {
    var t := 3 * (dr + 1) + (dc + 1);
    if t < 4 then t else t - 1
  }

  /** The row offset of direction e, as an explicit case split. */
  function DRow(e: nat): int
    requires e < 8
  {
    if e < 3 then -1 else if e < 5 then 0 else 1
  }

  /** The column offset of direction e. */
  function DCol(e: nat): int
    requires e < 8
  {
    if e < 3 then e - 1 else if e == 3 then -1 else if e == 4 then 1 else e - 6
  }

  lemma DirectionsTable(e: nat)
    requires e < 8
    ensures Directions[e] == (DRow(e), DCol(e))
  {
  }

  lemma DirectionsAreNeighbours(e: nat)
    requires e < 8
    ensures (DRow(e), DCol(e)) != (0, 0)
    ensures -1 <= DRow(e) <= 1 && -1 <= DCol(e) <= 1
    ensures DirIndex(DRow(e), DCol(e)) == e
  {
  }

  lemma NeighbourHasDirection(p: Pos, q: Pos)
    requires Adjacent(p, q)
    ensures 0 <= DirIndex(q.row - p.row, q.col - p.col) < 8
    ensures DRow(DirIndex(q.row - p.row, q.col - p.col)) == q.row - p.row
    ensures DCol(DirIndex(q.row - p.row, q.col - p.col)) == q.col - p.col
  {
  }

  /** The piece that moves: the opponent's when `opp` is set, the agent's otherwise. */
  function Mover(me: Piece, opp: bool): Piece
  {
    if opp then Opponent(me) else me
  }

  predicate OnBoard(r: int, c: int)
  {
    0 <= r < 5 && 0 <= c < 5
  }

  /** Fewer than 8 pieces on the board: pieces are still being dropped. */
  predicate IsDropPhase(s: Board)
  {
    Occupied(s, 25) < 8
  }

  /** A drop is legal on an empty cell. */
  predicate LegalDrop(s: Board, m: Move)
  {
    m.Drop? && Get(s, m.dest) == Empty
  }

  /** A relocation is legal when it slides a piece of x to an empty neighbouring cell. */
  predicate LegalRelocation(s: Board, x: Cell, m: Move)
  {
    m.Relocate? && Get(s, m.src) == x && Get(s, m.dest) == Empty && Adjacent(m.src, m.dest)
  }

  /** Drops onto the empty cells among the first n, in row-major order. */
  function DropMoves(s: Board, n: nat): seq<Move>
    requires n <= 25
  {
    if n == 0 then []
    else DropMoves(s, n - 1) + (if Get(s, At(n - 1)) == Empty then [Drop(At(n - 1))] else [])
  }

  /** The relocation of the piece at p in direction e, when its target is on the board and empty. */
  function DirMove(s: Board, p: Pos, e: nat): seq<Move>
    requires e < 8
  {
    var r, c := p.row + DRow(e), p.col + DCol(e);
    if OnBoard(r, c) && Get(s, Pos(r, c)) == Empty then [Relocate(Pos(r, c), p)] else []
  }

  /** Relocations of the piece at p along the first d directions whose target is on the board and empty. */
  function DirMoves(s: Board, p: Pos, d: nat): seq<Move>
    requires d <= 8
  {
    if d == 0 then [] else DirMoves(s, p, d - 1) + DirMove(s, p, d - 1)
  }

  /** Relocations of the piece at p, over all eight directions. */
  function PieceMoves(s: Board, p: Pos): seq<Move>
  {
    DirMoves(s, p, |Directions|)
  }

  /** Relocations of the pieces of x among the first n cells, cell by cell in row-major order. */
  function SlideMoves(s: Board, x: Cell, n: nat): seq<Move>
    requires n <= 25
  {
    if n == 0 then []
    else SlideMoves(s, x, n - 1) + (if Get(s, At(n - 1)) == x then PieceMoves(s, At(n - 1)) else [])
  }

  /** The moves `succ` generates for mover x, in the order it generates them. */
  function SuccMoves(s: Board, x: Piece): seq<Move>
  {
    if IsDropPhase(s) then DropMoves(s, 25) else SlideMoves(s, x, 25)
  }

  /** Every legal relocation of a piece of x, each counted once. */
  function LegalRelocations(s: Board, x: Cell): set<Move>
  {
    set a: nat, b: nat | a < 25 && b < 25 && LegalRelocation(s, x, Relocate(At(b), At(a))) :: Relocate(At(b), At(a))
  }

  // ---------------------------------------------------------------- drops

  lemma {:induction false} DropMovesCount(s: Board, n: nat)
    requires n <= 25
    ensures |DropMoves(s, n)| == n - Occupied(s, n)
  {
    if n > 0 {
      DropMovesCount(s, n - 1);
    }
  }

  lemma {:induction false} DropMovesMembers(s: Board, n: nat, m: Move)
    requires n <= 25
    ensures m in DropMoves(s, n) <==> LegalDrop(s, m) && Index(m.dest) < n
  {
    if n > 0 {
      DropMovesMembers(s, n - 1, m);
      AtIndex(m.dest);
    }
  }

  /** Drops come in strictly increasing row-major order of their destination. */
  lemma {:induction false} DropMovesOrdered(s: Board, n: nat)
    requires n <= 25
    ensures forall a, b :: 0 <= a < b < |DropMoves(s, n)| ==>
              Index(DropMoves(s, n)[a].dest) < Index(DropMoves(s, n)[b].dest)
  {
    if n > 0 {
      DropMovesOrdered(s, n - 1);
      var prev := DropMoves(s, n - 1);
      forall a | 0 <= a < |prev| ensures Index(prev[a].dest) < n - 1 {
        DropMovesMembers(s, n - 1, prev[a]);
      }
    }
  }

  // ---------------------------------------------------------------- relocations

  /** The key that orders relocations: source cell first, then direction. */
  function Key(m: Move): int
    requires m.Relocate?
  {
    8 * Index(m.src) + DirIndex(m.dest.row - m.src.row, m.dest.col - m.src.col)
  }

  lemma DirMoveMembers(s: Board, p: Pos, e: nat, m: Move)
    requires e < 8
    ensures m in DirMove(s, p, e) <==>
              LegalRelocation(s, Get(s, p), m) && m.src == p
              && DirIndex(m.dest.row - p.row, m.dest.col - p.col) == e
  {
    var r, c := p.row + DRow(e), p.col + DCol(e);
    if m in DirMove(s, p, e) {
      DirectionsAreNeighbours(e);
      assert m == Relocate(Pos(r, c), p);
    }
    if LegalRelocation(s, Get(s, p), m) && m.src == p && DirIndex(m.dest.row - p.row, m.dest.col - p.col) == e {
      NeighbourHasDirection(p, m.dest);
      assert m.dest.row == r && m.dest.col == c;
    }
  }

  lemma {:induction false} DirMovesMembers(s: Board, p: Pos, d: nat, m: Move)
    requires d <= 8
    ensures m in DirMoves(s, p, d) <==>
              LegalRelocation(s, Get(s, p), m) && m.src == p
              && DirIndex(m.dest.row - p.row, m.dest.col - p.col) < d
  {
    if d > 0 {
      DirMovesMembers(s, p, d - 1, m);
      DirMoveMembers(s, p, d - 1, m);
    }
  }

  lemma {:induction false} DirMovesOrdered(s: Board, p: Pos, d: nat)
    requires d <= 8
    ensures forall m :: m in DirMoves(s, p, d) ==> m.Relocate? && 8 * Index(p) <= Key(m) < 8 * Index(p) + d
    ensures forall a, b :: 0 <= a < b < |DirMoves(s, p, d)| ==>
              Key(DirMoves(s, p, d)[a]) < Key(DirMoves(s, p, d)[b])
  {
    if d > 0 {
      DirMovesOrdered(s, p, d - 1);
      DirectionsAreNeighbours(d - 1);
      forall m | m in DirMoves(s, p, d) ensures m.Relocate? && 8 * Index(p) <= Key(m) < 8 * Index(p) + d {
        DirMovesMembers(s, p, d, m);
      }
    }
  }

  lemma PieceMovesMembers(s: Board, p: Pos, m: Move)
    ensures m in PieceMoves(s, p) <==> LegalRelocation(s, Get(s, p), m) && m.src == p
  {
    DirMovesMembers(s, p, |Directions|, m);
    if LegalRelocation(s, Get(s, p), m) && m.src == p {
      NeighbourHasDirection(m.src, m.dest);
    }
  }

  lemma {:induction false} SlideMovesMembers(s: Board, x: Piece, n: nat, m: Move)
    requires n <= 25
    ensures m in SlideMoves(s, x, n) <==> LegalRelocation(s, x, m) && Index(m.src) < n
  {
    if n > 0 {
      SlideMovesMembers(s, x, n - 1, m);
      PieceMovesMembers(s, At(n - 1), m);
      if m.Relocate? {
        AtIndex(m.src);
      }
    }
  }

  /** Relocations come in strictly increasing order of source cell, then direction. */
  lemma {:induction false} SlideMovesOrdered(s: Board, x: Piece, n: nat)
    requires n <= 25
    ensures forall m :: m in SlideMoves(s, x, n) ==> m.Relocate? && Key(m) < 8 * n
    ensures forall a, b :: 0 <= a < b < |SlideMoves(s, x, n)| ==>
              Key(SlideMoves(s, x, n)[a]) < Key(SlideMoves(s, x, n)[b])
  {
    if n > 0 {
      SlideMovesOrdered(s, x, n - 1);
      DirMovesOrdered(s, At(n - 1), |Directions|);
    }
  }

  // ---------------------------------------------------------------- counting

  /** A sequence without repetitions has as many elements as the set of its elements. */
  lemma {:induction false} DistinctCard(ms: seq<Move>)
    requires forall a, b :: 0 <= a < b < |ms| ==> ms[a] != ms[b]
    ensures |set m | m in ms| == |ms|
  {
    if ms != [] {
      var init := ms[..|ms| - 1];
      DistinctCard(init);
      assert (set m | m in ms) == (set m | m in init) + {ms[|ms| - 1]};
      assert ms[|ms| - 1] !in (set m | m in init);
    }
  }

  lemma LegalRelocationsMembers(s: Board, x: Cell, m: Move)
    ensures m in LegalRelocations(s, x) <==> LegalRelocation(s, x, m)
  {
    if LegalRelocation(s, x, m) {
      AtIndex(m.src);
      AtIndex(m.dest);
      assert Relocate(At(Index(m.dest)), At(Index(m.src))) == m;
    }
  }

  /**
   * What `succ` promises about its moves: in the drop phase exactly one
   * drop per empty cell; in the move phase exactly the legal relocations
   * of the mover's pieces; never the same move twice.
   */
  lemma SuccMovesMeaning(s: Board, x: Piece)
    ensures IsDropPhase(s) ==>
              (forall m :: m in SuccMoves(s, x) <==> LegalDrop(s, m))
              && |SuccMoves(s, x)| == 25 - Occupied(s, 25)
    ensures !IsDropPhase(s) ==>
              (forall m :: m in SuccMoves(s, x) <==> LegalRelocation(s, x, m))
              && |SuccMoves(s, x)| == |LegalRelocations(s, x)|
    ensures forall a, b :: 0 <= a < b < |SuccMoves(s, x)| ==> SuccMoves(s, x)[a] != SuccMoves(s, x)[b]
  {
    if IsDropPhase(s) {
      DropMovesCount(s, 25);
      DropMovesOrdered(s, 25);
      forall m ensures m in SuccMoves(s, x) <==> LegalDrop(s, m) {
        DropMovesMembers(s, 25, m);
      }
    } else {
      var ms := SlideMoves(s, x, 25);
      SlideMovesOrdered(s, x, 25);
      forall m ensures m in ms <==> LegalRelocation(s, x, m) {
        SlideMovesMembers(s, x, 25, m);
      }
      forall m ensures m in (set m | m in ms) <==> m in LegalRelocations(s, x) {
        LegalRelocationsMembers(s, x, m);
      }
      assert (set m | m in ms) == LegalRelocations(s, x);
      DistinctCard(ms);
    }
  }

  /**
   * The phase fixes the shape of every move, and a successor has one more
   * piece on the board after a drop and as many after a relocation, so the
   * move phase never returns to the drop phase.
   */
  lemma SuccessorOccupancy(s: Board, x: Piece, m: Move)
    requires m in SuccMoves(s, x)
    ensures m.Drop? <==> IsDropPhase(s)
    ensures Occupied(Apply(s, m, x), 25) == Occupied(s, 25) + (if IsDropPhase(s) then 1 else 0)
    ensures !IsDropPhase(s) ==> !IsDropPhase(Apply(s, m, x))
  {
    SuccMovesMeaning(s, x);
    ApplyOccupied(s, m, x);
  }

  // ---------------------------------------------------------------- the method

  /** The successor boards of moves ms made by x, index-aligned with ms. */
  function Boards(s: Board, ms: seq<Move>, x: Cell): seq<Board>
  {
    seq(|ms|, k requires 0 <= k < |ms| => Apply(s, ms[k], x))
  }

  lemma BoardsAppend(s: Board, ms: seq<Move>, m: Move, x: Cell)
    ensures Boards(s, ms + [m], x) == Boards(s, ms, x) + [Apply(s, m, x)]
  {
  }

  /** The source builds a relocation's board by swapping the two cells; that is the move applied. */
  lemma SwapIsApply(s: Board, src: Pos, dest: Pos, x: Cell)
    requires Get(s, src) == x && Get(s, dest) == Empty
    ensures Set(Set(s, src, Get(s, dest)), dest, Get(s, src)) == Apply(s, Relocate(dest, src), x)
  {
  }

  /** One step of the row-major scan at cell (i, j), for each of the specification functions. */
  lemma OccupiedStep(s: Board, i: int, j: int)
    requires 0 <= i < 5 && 0 <= j < 5
    ensures Occupied(s, 5 * i + j + 1) == Occupied(s, 5 * i + j) + (if s[i][j] != Empty then 1 else 0)
  {
    AtRowCol(i, j);
  }

  lemma DropStep(s: Board, i: int, j: int)
    requires 0 <= i < 5 && 0 <= j < 5
    ensures DropMoves(s, 5 * i + j + 1) == DropMoves(s, 5 * i + j) + (if s[i][j] == Empty then [Drop(Pos(i, j))] else [])
  {
    AtRowCol(i, j);
  }

  lemma SlideStep(s: Board, x: Cell, i: int, j: int)
    requires 0 <= i < 5 && 0 <= j < 5
    ensures SlideMoves(s, x, 5 * i + j + 1) == SlideMoves(s, x, 5 * i + j) + (if s[i][j] == x then PieceMoves(s, Pos(i, j)) else [])
  {
    AtRowCol(i, j);
  }

  /** One step of the direction scan from (i, j). */
  lemma DirStep(s: Board, i: int, j: int, d: nat)
    requires 0 <= i < 5 && 0 <= j < 5 && d < 8
    ensures DirMoves(s, Pos(i, j), d + 1)
            == DirMoves(s, Pos(i, j), d)
               + (if 0 <= i + DRow(d) < 5 && 0 <= j + DCol(d) < 5 && s[i + DRow(d)][j + DCol(d)] == Empty
                  then [Relocate(Pos(i + DRow(d), j + DCol(d)), Pos(i, j))] else [])
  {
  }

  lemma BoardsConcat(s: Board, ms: seq<Move>, ns: seq<Move>, x: Cell)
    ensures Boards(s, ms + ns, x) == Boards(s, ms, x) + Boards(s, ns, x)
  {
  }

  /** The first scan of `succ`: the number of pieces on the board. */
  method CountOccupied(state: Board) returns (count: nat)
    ensures count == Occupied(state, 25)
  {
    count := 0;
    var i, j := 0, 0;
    while i < 5
      invariant 0 <= i <= 5 && 0 <= j < 5 && (i == 5 ==> j == 0)
      invariant count == Occupied(state, 5 * i + j)
      decreases 25 - (5 * i + j)
    {
      OccupiedStep(state, i, j);
      if state[i][j] != Empty {
        count := count + 1;
      }
      j := j + 1;
      if j >= 5 {
        i, j := i + 1, 0;
      }
    }
  }

  /** The drop-phase scan of `succ`: a drop of x on every empty cell, in row-major order. */
  method DropSuccs(state: Board, x: Piece) returns (moveSuccs: seq<Move>, succs: seq<Board>)
    ensures moveSuccs == DropMoves(state, 25)
    ensures succs == Boards(state, moveSuccs, x)
  {
    moveSuccs, succs := [], [];
    var i, j := 0, 0;
    while i < 5
      invariant 0 <= i <= 5 && 0 <= j < 5 && (i == 5 ==> j == 0)
      invariant moveSuccs == DropMoves(state, 5 * i + j)
      invariant succs == Boards(state, moveSuccs, x)
      decreases 25 - (5 * i + j)
    {
      DropStep(state, i, j);
      if state[i][j] == Empty {
        var next := Set(state, Pos(i, j), x);
        BoardsAppend(state, moveSuccs, Drop(Pos(i, j)), x);
        moveSuccs := moveSuccs + [Drop(Pos(i, j))];
        succs := succs + [next];
      }
      j := j + 1;
      if j >= 5 {
        i, j := i + 1, 0;
      }
    }
  }

  /** The direction scan of `succ` for the piece at (i, j): each empty neighbour in direction order. */
  method PieceSlides(state: Board, i: Coord, j: Coord, x: Piece) returns (moveSuccs: seq<Move>, succs: seq<Board>)
    requires state[i][j] == x
    ensures moveSuccs == PieceMoves(state, Pos(i, j))
    ensures succs == Boards(state, moveSuccs, x)
  {
    moveSuccs, succs := [], [];
    var directions := Directions;
    for d := 0 to |directions|
      invariant moveSuccs == DirMoves(state, Pos(i, j), d)
      invariant succs == Boards(state, moveSuccs, x)
    {
      var (a, b) := directions[d];
      DirectionsTable(d);
      DirStep(state, i, j, d);
      if 0 <= i + a < 5 && 0 <= j + b < 5 && state[i + a][j + b] == Empty {
        var src, dest := Pos(i, j), Pos(i + a, j + b);
        // the source swaps the two cells of a fresh copy
        var next := Set(Set(state, src, Get(state, dest)), dest, Get(state, src));
        SwapIsApply(state, src, dest, x);
        BoardsAppend(state, moveSuccs, Relocate(dest, src), x);
        moveSuccs := moveSuccs + [Relocate(dest, src)];
        succs := succs + [next];
      }
    }
  }

  /** The move-phase scan of `succ`: the slides of every piece of x, cell by cell in row-major order. */
  method SlideSuccs(state: Board, x: Piece) returns (moveSuccs: seq<Move>, succs: seq<Board>)
    ensures moveSuccs == SlideMoves(state, x, 25)
    ensures succs == Boards(state, moveSuccs, x)
  {
    moveSuccs, succs := [], [];
    var i, j := 0, 0;
    while i < 5
      invariant 0 <= i <= 5 && 0 <= j < 5 && (i == 5 ==> j == 0)
      invariant moveSuccs == SlideMoves(state, x, 5 * i + j)
      invariant succs == Boards(state, moveSuccs, x)
      decreases 25 - (5 * i + j)
    {
      SlideStep(state, x, i, j);
      if state[i][j] == x {
        var ms, bs := PieceSlides(state, i, j, x);
        BoardsConcat(state, moveSuccs, ms, x);
        moveSuccs := moveSuccs + ms;
        succs := succs + bs;
      }
      j := j + 1;
      if j >= 5 {
        i, j := i + 1, 0;
      }
    }
  }

  /**
   * `succ`: counts the pieces to find the phase, then builds the moves
   * and, for each, a successor board that is a fresh value.
   */
  method Succ(me: Piece, state: Board, opp: bool) returns (moveSuccs: seq<Move>, succs: seq<Board>)
    ensures moveSuccs == SuccMoves(state, Mover(me, opp))
    ensures |succs| == |moveSuccs|
    ensures forall k :: 0 <= k < |succs| ==> succs[k] == Apply(state, moveSuccs[k], Mover(me, opp))
  {
    var dropPhase := true;
    var count := CountOccupied(state);
    if count >= 8 {
      dropPhase := false;
    }
    var x := me;
    if opp {
      x := Opponent(me);
    }
    if dropPhase {
      moveSuccs, succs := DropSuccs(state, x);
    } else {
      moveSuccs, succs := SlideSuccs(state, x);
    }
  }
}
