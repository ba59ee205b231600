/** Cells, positions, the 5×5 board and moves of Teeko, and what a move does to a board. */
module TeekoBoard {

  /** A cell is empty (" "), or holds a black ("b") or a red ("r") piece. */
  datatype Cell = Empty | Black | Red

  /** The piece of one side: any cell value but Empty. */
  type Piece = c: Cell | c != Empty witness Black

  /** The other side's piece, as the agent derives `opp` from `my_piece`. */
  function Opponent(p: Piece): (q: Piece)
    ensures q != p
  {
    if p == Red then Black else Red
  }

  /** There are exactly two pieces: any piece other than p is p's opponent. */
  lemma OpponentIsTheOther(p: Piece, c: Cell)
    requires c != Empty && c != p
    ensures c == Opponent(p) && Opponent(Opponent(p)) == p
  {
  }

  /** A row or column index of the board. */
  type Coord = i: int | 0 <= i < 5

  datatype Pos = Pos(row: Coord, col: Coord)

  const EmptyRow: seq<Cell> := [Empty, Empty, Empty, Empty, Empty]

  /** A board is five rows of five cells. */
  type Board = s: seq<seq<Cell>> | |s| == 5 && forall r | 0 <= r < 5 :: |s[r]| == 5
    witness [EmptyRow, EmptyRow, EmptyRow, EmptyRow, EmptyRow]

  function EmptyBoard(): (s: Board)
    ensures forall p: Pos :: Get(s, p) == Empty
  {
    [EmptyRow, EmptyRow, EmptyRow, EmptyRow, EmptyRow]
  }

  function Get(s: Board, p: Pos): Cell
  {
    s[p.row][p.col]
  }

  /** The board with cell p set to v and every other cell as it was. */
  function Set(s: Board, p: Pos, v: Cell): (t: Board)
    ensures Get(t, p) == v
    ensures forall q :: q != p ==> Get(t, q) == Get(s, q)
  {
    s[p.row := s[p.row][p.col := v]]
  }

  /** Two boards with the same cells are the same board. */
  lemma SameCells(s: Board, t: Board)
    requires forall p: Pos :: Get(s, p) == Get(t, p)
    ensures s == t
  {
    forall r | 0 <= r < 5 ensures s[r] == t[r] {
      forall c | 0 <= c < 5 ensures s[r][c] == t[r][c] {
        assert Get(s, Pos(r, c)) == Get(t, Pos(r, c));
      }
    }
  }

  /** Row-major numbering of the cells, 0 .. 24. */
  function Index(p: Pos): (n: nat)
    ensures n < 25
  {
    5 * p.row + p.col
  }

  function At(n: nat): (p: Pos)
    requires n < 25
    ensures Index(p) == n
  {
    Pos(n / 5, n % 5)
  }

  lemma AtIndex(p: Pos)
    ensures At(Index(p)) == p
  {
  }

  lemma AtRowCol(i: int, j: int)
    requires 0 <= i < 5 && 0 <= j < 5
    ensures At(5 * i + j) == Pos(i, j)
  {
  }

  /** The number of non-empty cells among the first n in row-major order. */
  function Occupied(s: Board, n: nat): (c: nat)
    requires n <= 25
    ensures c <= n
  {
    if n == 0 then 0
    else Occupied(s, n - 1) + (if Get(s, At(n - 1)) != Empty then 1 else 0)
  }

  /** How setting one cell changes the number of occupied cells in a prefix. */
  lemma {:induction false} OccupiedAfterSet(s: Board, p: Pos, v: Cell, n: nat)
    requires n <= 25
    ensures Occupied(Set(s, p, v), n)
            == Occupied(s, n)
               - (if Index(p) < n && Get(s, p) != Empty then 1 else 0)
               + (if Index(p) < n && v != Empty then 1 else 0)
  {
    if n > 0 {
      OccupiedAfterSet(s, p, v, n - 1);
      var q := At(n - 1);
      AtIndex(p);
      assert q == p <==> Index(p) == n - 1;
      assert Get(Set(s, p, v), q) == if q == p then v else Get(s, q);
    }
  }

  /**
   * A move is the list the agent exchanges with the play loop: a single
   * destination in the drop phase, or a destination and a source afterwards.
   */
  datatype Move = Drop(dest: Pos) | Relocate(dest: Pos, src: Pos)

  /** Source and destination are distinct and at most one row and one column apart. */
  predicate Adjacent(p: Pos, q: Pos)
  {
    p != q && -1 <= p.row - q.row <= 1 && -1 <= p.col - q.col <= 1
  }

  /**
   * The board after `piece` makes move m: a relocation first clears its
   * source, then the destination receives the piece.
   */
  function Apply(s: Board, m: Move, piece: Cell): (t: Board)
    ensures Get(t, m.dest) == piece
    ensures m.Relocate? && m.src != m.dest ==> Get(t, m.src) == Empty
    ensures forall q :: q != m.dest && (m.Drop? || q != m.src) ==> Get(t, q) == Get(s, q)
  {
    match m
    case Drop(d) => Set(s, d, piece)
    case Relocate(d, src) => Set(Set(s, src, Empty), d, piece)
  }

  /** A drop on an empty cell adds one piece; a relocation of a piece onto an empty cell keeps the count. */
  lemma ApplyOccupied(s: Board, m: Move, piece: Piece)
    requires Get(s, m.dest) == Empty
    requires m.Relocate? ==> Get(s, m.src) != Empty
    ensures Occupied(Apply(s, m, piece), 25) == Occupied(s, 25) + (if m.Drop? then 1 else 0)
  {
    match m
    case Drop(d) =>
      OccupiedAfterSet(s, d, piece, 25);
    case Relocate(d, src) =>
      OccupiedAfterSet(s, src, Empty, 25);
      OccupiedAfterSet(Set(s, src, Empty), d, piece, 25);
  }
}
