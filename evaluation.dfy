/**
 * The 44 winning patterns of Teeko, the terminal test (`game_value`) and the
 * heuristic (`heuristic_game_value`). Heuristic fractions count/4 are kept
 * as the counts 0 .. 4, so every score is the source's score times 4.
 */
module Evaluation {
  import opened TeekoBoard

  /** Four cells that win when they all hold the same piece. */
  type Pattern = p: seq<Pos> | |p| == 4 witness [Pos(0, 0), Pos(0, 1), Pos(0, 2), Pos(0, 3)]

  const PatternCount := 44

  /** Four cells from (r, c) on, each one step of (dr, dc) from the last. */
  function Line(r: int, c: int, dr: int, dc: int): Pattern
    requires 0 <= r < 5 && 0 <= c < 5 && 0 <= r + 3 * dr < 5 && 0 <= c + 3 * dc < 5
  {
    [Pos(r, c), Pos(r + dr, c + dc), Pos(r + 2 * dr, c + 2 * dc), Pos(r + 3 * dr, c + 3 * dc)]
  }

  /** The 2×2 block with top-left corner (r, c), in the order the source visits it. */
  function Box(r: int, c: int): Pattern
    requires 0 <= r < 4 && 0 <= c < 4
  {
    [Pos(r, c), Pos(r + 1, c), Pos(r + 1, c + 1), Pos(r, c + 1)]
  }

  /**
   * Pattern k in scan order: 10 horizontal windows (row by row, two
   * starting columns each), 10 vertical windows (column by column, two
   * starting rows each), 4 "\" diagonals from (0,0),(0,1),(1,0),(1,1),
   * 4 "/" diagonals from (0,3),(0,4),(1,3),(1,4), and 16 boxes in
   * row-major order of their top-left corner.
   */
  function PatternAt(k: nat): Pattern
    requires k < PatternCount
  {
    if k < 10 then Horizontal(k)
    else if k < 20 then Vertical(k - 10)
    else if k < 24 then Diagonal(k - 20)
    else if k < 28 then AntiDiagonal(k - 24)
    else BoxAt(k - 28)
  }

  /** Horizontal window t: row t / 2, starting column t % 2. */
  function Horizontal(t: nat): Pattern
    requires t < 10
  {
    if t < 2 then Line(0, t, 0, 1)
    else if t < 4 then Line(1, t - 2, 0, 1)
    else if t < 6 then Line(2, t - 4, 0, 1)
    else if t < 8 then Line(3, t - 6, 0, 1)
    else Line(4, t - 8, 0, 1)
  }

  /** Vertical window t: column t / 2, starting row t % 2. */
  function Vertical(t: nat): Pattern
    requires t < 10
  {
    if t < 2 then Line(t, 0, 1, 0)
    else if t < 4 then Line(t - 2, 1, 1, 0)
    else if t < 6 then Line(t - 4, 2, 1, 0)
    else if t < 8 then Line(t - 6, 3, 1, 0)
    else Line(t - 8, 4, 1, 0)
  }

  /** "\" diagonal t, from (0,0), (0,1), (1,0) or (1,1). */
  function Diagonal(t: nat): Pattern
    requires t < 4
  {
    if t < 2 then Line(0, t, 1, 1) else Line(1, t - 2, 1, 1)
  }

  /** "/" diagonal t, from (0,3), (0,4), (1,3) or (1,4). */
  function AntiDiagonal(t: nat): Pattern
    requires t < 4
  {
    if t < 2 then Line(0, 3 + t, 1, -1) else Line(1, 1 + t, 1, -1)
  }

  /** Box t: top-left corner in row t / 4, column t % 4. */
  function BoxAt(t: nat): Pattern
    requires t < 16
  {
    if t < 4 then Box(0, t)
    else if t < 8 then Box(1, t - 4)
    else if t < 12 then Box(2, t - 8)
    else Box(3, t - 12)
  }

  /** All four cells of p hold the same piece. */
  predicate Complete(s: Board, p: Pattern)
  {
    Get(s, p[0]) != Empty && Get(s, p[0]) == Get(s, p[1])
    && Get(s, p[1]) == Get(s, p[2]) && Get(s, p[2]) == Get(s, p[3])
  }

  /** All 44 patterns in scan order; the terminal test and the heuristic both walk this table. */
  function Patterns(): (table: seq<Pattern>)
    ensures |table| == PatternCount
  {
    seq(PatternCount, k requires 0 <= k < PatternCount => PatternAt(k))
  }

  /** The four directions a line of four can run in: along a row, down a column, and the two diagonals. */
  predicate WinDirection(dr: int, dc: int)
  {
    (dr == 0 && dc == 1) || (dr == 1 && dc == 0) || (dr == 1 && dc == 1) || (dr == 1 && dc == -1)
  }

  /** A line of four from (r, c) in direction (dr, dc) stays on the board. */
  predicate LineFits(r: int, c: int, dr: int, dc: int)
  {
    0 <= r < 5 && 0 <= c < 5 && 0 <= r + 3 * dr < 5 && 0 <= c + 3 * dc < 5
  }

  /** The winning shapes of Teeko: a straight line of four on the board, or a 2×2 box. */
  ghost predicate WinningShape(p: Pattern)
  {
    (exists r, c, dr, dc :: WinDirection(dr, dc) && LineFits(r, c, dr, dc) && p == Line(r, c, dr, dc))
    || (exists r, c :: 0 <= r < 4 && 0 <= c < 4 && p == Box(r, c))
  }

  lemma LineIsShape(r: int, c: int, dr: int, dc: int)
    requires WinDirection(dr, dc) && LineFits(r, c, dr, dc)
    ensures WinningShape(Line(r, c, dr, dc))
  {
  }

  lemma HorizontalIsShape(t: nat)
    requires t < 10
    ensures WinningShape(Horizontal(t))
  {
    if t < 2 {
      LineIsShape(0, t, 0, 1);
      assert Horizontal(t) == Line(0, t, 0, 1);
    } else if t < 4 {
      LineIsShape(1, t - 2, 0, 1);
      assert Horizontal(t) == Line(1, t - 2, 0, 1);
    } else if t < 6 {
      LineIsShape(2, t - 4, 0, 1);
      assert Horizontal(t) == Line(2, t - 4, 0, 1);
    } else if t < 8 {
      LineIsShape(3, t - 6, 0, 1);
      assert Horizontal(t) == Line(3, t - 6, 0, 1);
    } else {
      LineIsShape(4, t - 8, 0, 1);
      assert Horizontal(t) == Line(4, t - 8, 0, 1);
    }
  }

  lemma VerticalIsShape(t: nat)
    requires t < 10
    ensures WinningShape(Vertical(t))
  {
    if t < 2 {
      LineIsShape(t, 0, 1, 0);
      assert Vertical(t) == Line(t, 0, 1, 0);
    } else if t < 4 {
      LineIsShape(t - 2, 1, 1, 0);
      assert Vertical(t) == Line(t - 2, 1, 1, 0);
    } else if t < 6 {
      LineIsShape(t - 4, 2, 1, 0);
      assert Vertical(t) == Line(t - 4, 2, 1, 0);
    } else if t < 8 {
      LineIsShape(t - 6, 3, 1, 0);
      assert Vertical(t) == Line(t - 6, 3, 1, 0);
    } else {
      LineIsShape(t - 8, 4, 1, 0);
      assert Vertical(t) == Line(t - 8, 4, 1, 0);
    }  }

  lemma DiagonalIsShape(t: nat)
    requires t < 4
    ensures WinningShape(Diagonal(t)) && WinningShape(AntiDiagonal(t))
  {
    var r := if t < 2 then 0 else 1;
    assert WinDirection(1, 1) && LineFits(r, t - 2 * r, 1, 1) && Diagonal(t) == Line(r, t - 2 * r, 1, 1);
    assert WinDirection(1, -1) && LineFits(r, 3 + t - 2 * r, 1, -1) && AntiDiagonal(t) == Line(r, 3 + t - 2 * r, 1, -1);
  }

  lemma BoxAtIsShape(t: nat)
    requires t < 16
    ensures WinningShape(BoxAt(t))
  {
    var r := if t < 4 then 0 else if t < 8 then 1 else if t < 12 then 2 else 3;
    assert BoxAt(t) == Box(r, t - 4 * r);
  }

  /** Every entry of the table is a winning shape. */
  lemma PatternIsShape(k: nat)
    requires k < PatternCount
    ensures WinningShape(Patterns()[k])
  {
    assert Patterns()[k] == PatternAt(k);
    if k < 10 {
      HorizontalIsShape(k);
    } else if k < 20 {
      VerticalIsShape(k - 10);
    } else if k < 28 {
      DiagonalIsShape(if k < 24 then k - 20 else k - 24);
    } else {
      BoxAtIsShape(k - 28);
    }
  }

  /** Row r's window from column c is entry 2r + c. */
  lemma RowIsPattern(r: int, c: int)
    requires 0 <= r < 5 && 0 <= c < 2
    ensures Line(r, c, 0, 1) in Patterns()
  {
    if r == 0 && c == 0 {
      assert Patterns()[0] == Line(0, 0, 0, 1);
    } else if r == 0 && c == 1 {
      assert Patterns()[1] == Line(0, 1, 0, 1);
    } else if r == 1 && c == 0 {
      assert Patterns()[2] == Line(1, 0, 0, 1);
    } else if r == 1 && c == 1 {
      assert Patterns()[3] == Line(1, 1, 0, 1);
    } else if r == 2 && c == 0 {
      assert Patterns()[4] == Line(2, 0, 0, 1);
    } else if r == 2 && c == 1 {
      assert Patterns()[5] == Line(2, 1, 0, 1);
    } else if r == 3 && c == 0 {
      assert Patterns()[6] == Line(3, 0, 0, 1);
    } else if r == 3 && c == 1 {
      assert Patterns()[7] == Line(3, 1, 0, 1);
    } else if r == 4 && c == 0 {
      assert Patterns()[8] == Line(4, 0, 0, 1);
    } else if r == 4 && c == 1 {
      assert Patterns()[9] == Line(4, 1, 0, 1);
    }
  }

  /** Column c's window from row r is entry 10 + 2c + r. */
  lemma ColumnIsPattern(r: int, c: int)
    requires 0 <= r < 2 && 0 <= c < 5
    ensures Line(r, c, 1, 0) in Patterns()
  {
    if r == 0 && c == 0 {
      assert Patterns()[10] == Line(0, 0, 1, 0);
    } else if r == 1 && c == 0 {
      assert Patterns()[11] == Line(1, 0, 1, 0);
    } else if r == 0 && c == 1 {
      assert Patterns()[12] == Line(0, 1, 1, 0);
    } else if r == 1 && c == 1 {
      assert Patterns()[13] == Line(1, 1, 1, 0);
    } else if r == 0 && c == 2 {
      assert Patterns()[14] == Line(0, 2, 1, 0);
    } else if r == 1 && c == 2 {
      assert Patterns()[15] == Line(1, 2, 1, 0);
    } else if r == 0 && c == 3 {
      assert Patterns()[16] == Line(0, 3, 1, 0);
    } else if r == 1 && c == 3 {
      assert Patterns()[17] == Line(1, 3, 1, 0);
    } else if r == 0 && c == 4 {
      assert Patterns()[18] == Line(0, 4, 1, 0);
    } else if r == 1 && c == 4 {
      assert Patterns()[19] == Line(1, 4, 1, 0);
    }
  }

  /** The "\" diagonal from (r, c) is entry 20 + 2r + c. */
  lemma DiagonalIsPattern(r: int, c: int)
    requires 0 <= r < 2 && 0 <= c < 2
    ensures Line(r, c, 1, 1) in Patterns()
  {
    if r == 0 && c == 0 {
      assert Patterns()[20] == Line(0, 0, 1, 1);
    } else if r == 0 && c == 1 {
      assert Patterns()[21] == Line(0, 1, 1, 1);
    } else if r == 1 && c == 0 {
      assert Patterns()[22] == Line(1, 0, 1, 1);
    } else if r == 1 && c == 1 {
      assert Patterns()[23] == Line(1, 1, 1, 1);
    }
  }

  /** The "/" diagonal from (r, c) is entry 21 + 2r + c. */
  lemma AntiDiagonalIsPattern(r: int, c: int)
    requires 0 <= r < 2 && 3 <= c < 5
    ensures Line(r, c, 1, -1) in Patterns()
  {
    if r == 0 && c == 3 {
      assert Patterns()[24] == Line(0, 3, 1, -1);
    } else if r == 0 && c == 4 {
      assert Patterns()[25] == Line(0, 4, 1, -1);
    } else if r == 1 && c == 3 {
      assert Patterns()[26] == Line(1, 3, 1, -1);
    } else if r == 1 && c == 4 {
      assert Patterns()[27] == Line(1, 4, 1, -1);
    }
  }

  /** Where each line of four sits in the table: rows, then columns, then the two diagonal families. */
  lemma LineIsPattern(r: int, c: int, dr: int, dc: int)
    requires WinDirection(dr, dc) && LineFits(r, c, dr, dc)
    ensures Line(r, c, dr, dc) in Patterns()
  {
    if dr == 0 {
      RowIsPattern(r, c);
    } else if dc == 0 {
      ColumnIsPattern(r, c);
    } else if dc == 1 {
      DiagonalIsPattern(r, c);
    } else {
      AntiDiagonalIsPattern(r, c);
    }
  }

  /** Where each 2×2 box sits in the table. */
  lemma BoxIsPattern(r: int, c: int)
    requires 0 <= r < 4 && 0 <= c < 4
    ensures Box(r, c) in Patterns()
  {
    assert Patterns()[28 + 4 * r + c] == PatternAt(28 + 4 * r + c);
    assert BoxAt(4 * r + c) == Box(r, c) by {
      if r == 0 {} else if r == 1 {} else if r == 2 {} else {}
    }
  }

  /** The table holds exactly Teeko's winning shapes. */
  lemma PatternsAreWinningShapes(p: Pattern)
    ensures p in Patterns() <==> WinningShape(p)
  {
    if p in Patterns() {
      var k :| 0 <= k < PatternCount && Patterns()[k] == p;
      PatternIsShape(k);
    }
    if WinningShape(p) {
      if exists r, c, dr, dc :: WinDirection(dr, dc) && LineFits(r, c, dr, dc) && p == Line(r, c, dr, dc) {
        var r, c, dr, dc :| WinDirection(dr, dc) && LineFits(r, c, dr, dc) && p == Line(r, c, dr, dc);
        LineIsPattern(r, c, dr, dc);
      } else {
        var r, c :| 0 <= r < 4 && 0 <= c < 4 && p == Box(r, c);
        BoxIsPattern(r, c);
      }
    }
  }

  // ---------------------------------------------------------------- terminal test

  /** The piece on the first complete pattern of the table at index k or later, or Empty when there is none. */
  function WinnerFrom(s: Board, table: seq<Pattern>, k: nat): Cell
    requires k <= |table|
    decreases |table| - k
  {
    if k == |table| then Empty
    else if Complete(s, table[k]) then Get(s, table[k][0])
    else WinnerFrom(s, table, k + 1)
  }

  /** The piece on the first complete pattern in scan order, or Empty. */
  function Winner(s: Board): Cell
  {
    WinnerFrom(s, Patterns(), 0)
  }

  /** `game_value`: 1 when the agent's piece wins, -1 when the other piece wins, 0 otherwise. */
  function TerminalValue(me: Piece, s: Board): int
  {
    var w := Winner(s);
    if w == Empty then 0 else if w == me then 1 else -1
  }

  lemma {:induction false} WinnerFromMeaning(s: Board, table: seq<Pattern>, k: nat)
    requires k <= |table|
    ensures WinnerFrom(s, table, k) == Empty <==> forall j :: k <= j < |table| ==> !Complete(s, table[j])
    ensures WinnerFrom(s, table, k) != Empty ==>
              exists j :: k <= j < |table| && Complete(s, table[j])
                          && Get(s, table[j][0]) == WinnerFrom(s, table, k)
                          && forall i :: k <= i < j ==> !Complete(s, table[i])
    decreases |table| - k
  {
    if k < |table| && !Complete(s, table[k]) {
      WinnerFromMeaning(s, table, k + 1);
      if WinnerFrom(s, table, k) != Empty {
        var j :| k + 1 <= j < |table| && Complete(s, table[j])
                 && Get(s, table[j][0]) == WinnerFrom(s, table, k + 1)
                 && forall i :: k + 1 <= i < j ==> !Complete(s, table[i]);
        assert forall i :: k <= i < j ==> !Complete(s, table[i]);
      }
    }
  }

  /**
   * The terminal test is 0 exactly when no pattern is complete; otherwise its
   * sign says whether the first complete pattern in scan order holds `me`.
   */
  lemma TerminalValueMeaning(me: Piece, s: Board)
    ensures TerminalValue(me, s) == 0 <==> forall k :: 0 <= k < PatternCount ==> !Complete(s, Patterns()[k])
    ensures TerminalValue(me, s) != 0 ==>
              exists k :: 0 <= k < PatternCount && Complete(s, Patterns()[k])
                          && (forall i :: 0 <= i < k ==> !Complete(s, Patterns()[i]))
                          && (TerminalValue(me, s) == 1 <==> Get(s, Patterns()[k][0]) == me)
                          && (TerminalValue(me, s) == -1 <==> Get(s, Patterns()[k][0]) == Opponent(me))
  {
    WinnerFromMeaning(s, Patterns(), 0);
    if Winner(s) != Empty && Winner(s) != me {
      OpponentIsTheOther(me, Winner(s));
    }
  }

  /** The terminal test is 0 exactly when no line of four and no 2×2 box is complete. */
  lemma TerminalValueShapes(me: Piece, s: Board)
    ensures TerminalValue(me, s) == 0 <==> forall p: Pattern :: WinningShape(p) ==> !Complete(s, p)
  {
    TerminalValueMeaning(me, s);
    if TerminalValue(me, s) == 0 {
      forall p: Pattern | WinningShape(p) ensures !Complete(s, p) {
        PatternsAreWinningShapes(p);
        var k :| 0 <= k < PatternCount && Patterns()[k] == p;
      }
    } else {
      var k :| 0 <= k < PatternCount && Complete(s, Patterns()[k]);
      PatternIsShape(k);
    }
  }

  /** Swapping the roles of the two pieces negates the terminal value. */
  lemma TerminalValueSymmetric(me: Piece, s: Board)
    ensures TerminalValue(Opponent(me), s) == -TerminalValue(me, s)
  {
    if Winner(s) != Empty && Winner(s) != me {
      OpponentIsTheOther(me, Winner(s));
    }
  }

  /** Completing the top row's first window by a drop at (0,3) is detected as a win for the dropping side. */
  lemma DropCompletingTopRowWins(me: Piece, s: Board)
    requires Get(s, Pos(0, 0)) == me && Get(s, Pos(0, 1)) == me && Get(s, Pos(0, 2)) == me
    requires Get(s, Pos(0, 3)) == Empty
    ensures TerminalValue(me, Apply(s, Drop(Pos(0, 3)), me)) == 1
            && TerminalValue(Opponent(me), Apply(s, Drop(Pos(0, 3)), me)) == -1
  {
    var t := Apply(s, Drop(Pos(0, 3)), me);
    assert Patterns()[0] == [Pos(0, 0), Pos(0, 1), Pos(0, 2), Pos(0, 3)];
    assert Complete(t, Patterns()[0]);
    assert Winner(t) == me;
  }

  /** `game_value`: scans the patterns in order and returns at the first complete one. */
  method GameValue(me: Piece, state: Board) returns (v: int)
    ensures v == TerminalValue(me, state)
  {
    var table := Patterns();
    var k := 0;
    while k < PatternCount
      invariant 0 <= k <= PatternCount
      invariant Winner(state) == WinnerFrom(state, table, k)
    {
      var p := table[k];
      if Get(state, p[0]) != Empty && Get(state, p[0]) == Get(state, p[1])
         && Get(state, p[1]) == Get(state, p[2]) && Get(state, p[2]) == Get(state, p[3])
      {
        return if Get(state, p[0]) == me then 1 else -1;
      }
      k := k + 1;
    }
    return 0;
  }

  // ---------------------------------------------------------------- heuristic

  function Max(a: int, b: int): int
  {
    if a < b then b else a
  }

  /** How many of the first t cells of p hold v. */
  function Count(s: Board, p: Pattern, v: Cell, t: nat): (c: nat)
    requires t <= 4
    ensures c <= t
  {
    if t == 0 then 0 else Count(s, p, v, t - 1) + (if Get(s, p[t - 1]) == v then 1 else 0)
  }

  /** How many cells of p hold v: the source's `my_cnt` or `opp_cnt` for one pattern. */
  function Filled(s: Board, p: Pattern, v: Cell): (c: nat)
    ensures c <= 4
  {
    Count(s, p, v, |p|)
  }

  /** The largest count of v over the first n patterns of the table, starting from 0 as the source's running maximum. */
  function MaxCount(s: Board, table: seq<Pattern>, v: Cell, n: nat): nat
    requires n <= |table|
  {
    if n == 0 then 0 else Max(MaxCount(s, table, v, n - 1), Filled(s, table[n - 1], v))
  }

  /** The best count of v over all 44 patterns: the source's `my_val` or `opp_val`, times 4. */
  function BestCount(s: Board, v: Cell): nat
  {
    MaxCount(s, Patterns(), v, PatternCount)
  }

  /**
   * `heuristic_game_value`, times 4: the agent's best count minus the
   * opponent's best count, or the agent's best count alone when it is 4.
   */
  function HeuristicScore(me: Piece, s: Board): int
  {
    var mine := BestCount(s, me);
    var theirs := BestCount(s, Opponent(me));
    if mine < 4 then mine - theirs else mine
  }

  lemma {:induction false} CountFull(s: Board, p: Pattern, v: Cell, t: nat)
    requires t <= 4
    ensures Count(s, p, v, t) == t <==> forall i :: 0 <= i < t ==> Get(s, p[i]) == v
  {
    if t > 0 {
      CountFull(s, p, v, t - 1);
    }
  }

  /** A pattern is full of piece v exactly when it is complete and holds v. */
  lemma CompleteIffFull(s: Board, p: Pattern, v: Piece)
    ensures Filled(s, p, v) == 4 <==> Complete(s, p) && Get(s, p[0]) == v
  {
    CountFull(s, p, v, 4);
  }

  /** MaxCount bounds every pattern's count, is reached by one of them, and is at most 4. */
  lemma {:induction false} MaxCountIsMaximum(s: Board, table: seq<Pattern>, v: Cell, n: nat)
    requires n <= |table|
    ensures MaxCount(s, table, v, n) <= 4
    ensures forall k :: 0 <= k < n ==> Filled(s, table[k], v) <= MaxCount(s, table, v, n)
    ensures n > 0 ==> exists k :: 0 <= k < n && Filled(s, table[k], v) == MaxCount(s, table, v, n)
  {
    if n > 0 {
      MaxCountIsMaximum(s, table, v, n - 1);
      if MaxCount(s, table, v, n - 1) < Filled(s, table[n - 1], v) {
        assert Filled(s, table[n - 1], v) == MaxCount(s, table, v, n);
      } else if n > 1 {
        var k :| 0 <= k < n - 1 && Filled(s, table[k], v) == MaxCount(s, table, v, n - 1);
        assert Filled(s, table[k], v) == MaxCount(s, table, v, n);
      }
    }
  }

  /** The best count of piece v is 4 exactly when some pattern is full of v. */
  lemma BestCountFour(s: Board, v: Piece)
    ensures BestCount(s, v) <= 4
    ensures BestCount(s, v) == 4 <==>
              exists k :: 0 <= k < PatternCount && Complete(s, Patterns()[k]) && Get(s, Patterns()[k][0]) == v
  {
    var table := Patterns();
    MaxCountIsMaximum(s, table, v, PatternCount);
    if BestCount(s, v) == 4 {
      var k :| 0 <= k < PatternCount && Filled(s, table[k], v) == 4;
      CompleteIffFull(s, table[k], v);
    }
    if exists k :: 0 <= k < PatternCount && Complete(s, table[k]) && Get(s, table[k][0]) == v {
      var k :| 0 <= k < PatternCount && Complete(s, table[k]) && Get(s, table[k][0]) == v;
      CompleteIffFull(s, table[k], v);
    }
  }

  /**
   * The heuristic lies in [-4, 4] (the source's [-1, 1]) and is 4 exactly
   * when some pattern is full of the agent's piece.
   */
  lemma HeuristicBounds(me: Piece, s: Board)
    ensures -4 <= HeuristicScore(me, s) <= 4
    ensures HeuristicScore(me, s) == 4 <==>
              exists k :: 0 <= k < PatternCount && Complete(s, Patterns()[k]) && Get(s, Patterns()[k][0]) == me
  {
    BestCountFour(s, me);
    BestCountFour(s, Opponent(me));
  }

  /**
   * On a board the terminal test calls undecided, neither side has a full
   * pattern, so the heuristic is exactly the difference of the two best
   * counts, lies in [-3, 3], and changes sign with the point of view.
   */
  lemma HeuristicNonTerminal(me: Piece, s: Board)
    requires TerminalValue(me, s) == 0
    ensures BestCount(s, me) < 4 && BestCount(s, Opponent(me)) < 4
    ensures HeuristicScore(me, s) == BestCount(s, me) - BestCount(s, Opponent(me))
    ensures -3 <= HeuristicScore(me, s) <= 3
    ensures HeuristicScore(Opponent(me), s) == -HeuristicScore(me, s)
  {
    TerminalValueMeaning(me, s);
    BestCountFour(s, me);
    BestCountFour(s, Opponent(me));
    OpponentIsTheOther(me, Opponent(me));
  }

  /** The inner loop of `heuristic_game_value`: counts the agent's and the opponent's pieces on one pattern. */
  method CountPieces(state: Board, p: Pattern, me: Piece, opp: Piece) returns (myCnt: nat, oppCnt: nat)
    requires opp != me
    ensures myCnt == Filled(state, p, me) && oppCnt == Filled(state, p, opp)
  {
    myCnt, oppCnt := 0, 0;
    for t := 0 to |p|
      invariant myCnt == Count(state, p, me, t) && oppCnt == Count(state, p, opp, t)
    {
      if Get(state, p[t]) == me {
        myCnt := myCnt + 1;
      } else if Get(state, p[t]) == opp {
        oppCnt := oppCnt + 1;
      }
    }
  }

  /** `heuristic_game_value`: running maxima of per-pattern counts over all 44 patterns. */
  method HeuristicGameValue(me: Piece, state: Board) returns (score: int)
    ensures score == HeuristicScore(me, state)
  {
    var table := Patterns();
    var opp := Opponent(me);
    var myVal, oppVal := 0, 0;
    for k := 0 to PatternCount
      invariant myVal == MaxCount(state, table, me, k) && oppVal == MaxCount(state, table, opp, k)
    {
      var myCnt, oppCnt := CountPieces(state, table[k], me, opp);
      myVal := Max(myVal, myCnt);
      oppVal := Max(oppVal, oppCnt);
    }
    if myVal < 4 {
      return myVal - oppVal;
    }
    return myVal;
  }
}
