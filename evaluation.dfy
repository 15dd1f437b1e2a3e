/** The static evaluator: a weighted positional sum over a 6 x 6 table, corrected by the
    difference in stone counts. */
module Evaluation {
  import opened Board
  import opened Transition

  /** The positional weights, indexed `[y][x]`: corners are prized, the cells next to them
      are penalised. */
  const WEIGHTS: seq<seq<int>> := [
    [120, -40, 20, 20, -40, 120],
    [-40, -60, 1, 1, -60, -40],
    [20, 1, 5, 5, 1, 20],
    [20, 1, 5, 5, 1, 20],
    [-40, -60, 1, 1, -60, -40],
    [120, -40, 20, 20, -40, 120]
  ]

  /** The side of the (square) weight table. */
  const SIDE: nat := 6

  lemma WeightsShape()
    ensures |WEIGHTS| == SIDE
    ensures forall y :: 0 <= y < SIDE ==> |WEIGHTS[y]| == SIDE
  {
  }

  /** A board the evaluator can index: rectangular and no larger than the table. */
  predicate Fits(b: Grid) {
    Rectangular(b) && |b| <= SIDE && Width(b) <= SIDE
  }

  /** The contribution of one cell holding `c` with weight `w`: `+w` for the side being
      evaluated, `-w` for its opponent, nothing for an empty cell. */
  function CellScore(c: int, s: Stone, w: int): int {
    if c == s then w else if c == Opponent(s) then -w else 0
  }

  /** The positional sum of the cells (x, y) with x < n. */
  function RowScore(b: Grid, s: Stone, y: int, n: nat): int
    requires Fits(b) && 0 <= y < |b| && n <= Width(b)
  {
    WeightsShape();
    if n == 0 then 0 else RowScore(b, s, y, n - 1) + CellScore(b[y][n - 1], s, WEIGHTS[y][n - 1])
  }

  /** The positional sum of the first `m` rows. */
  function Positional(b: Grid, s: Stone, m: nat): int
    requires Fits(b) && m <= |b|
  {
    if m == 0 then 0 else Positional(b, s, m - 1) + RowScore(b, s, m - 1, Width(b))
  }

  /** The value of the board for `s`: the positional sum, minus five points per stone that
      `s` has more than its opponent. */
  function Score(b: Grid, s: Stone): int
    requires Fits(b)
  {
    Positional(b, s, |b|) - (Stones(b, s) - Stones(b, Opponent(s))) * 5
  }

  /** Scans the board row by row, adding the weight of each own stone, subtracting the weight
      of each opponent stone and counting both, then applies the stone-count correction. */
  method EvaluateBoard(b: Grid, s: Stone) returns (score: int)
    requires Fits(b)
    ensures score == Score(b, s)
    ensures score == -Score(b, Opponent(s))
  {
    WeightsShape();
    score := 0;
    var opponent := Opponent(s);
    var stoneCount, opponentCount := 0, 0;
    for y := 0 to |b|
      invariant score == Positional(b, s, y)
      invariant stoneCount == Count(b, s, y) && opponentCount == Count(b, opponent, y)
    {
      for x := 0 to Width(b)
        invariant score == Positional(b, s, y) + RowScore(b, s, y, x)
        invariant stoneCount == Count(b, s, y) + RowCount(b[y], s, x)
        invariant opponentCount == Count(b, opponent, y) + RowCount(b[y], opponent, x)
      {
        if b[y][x] == s {
          score := score + WEIGHTS[y][x];
          stoneCount := stoneCount + 1;
        } else if b[y][x] == opponent {
          score := score - WEIGHTS[y][x];
          opponentCount := opponentCount + 1;
        }
      }
    }
    score := score - (stoneCount - opponentCount) * 5;
    ScoreAntisymmetric(b, s);
  }

  lemma {:induction false} RowScoreAntisymmetric(b: Grid, s: Stone, y: int, n: nat)
    requires Fits(b) && 0 <= y < |b| && n <= Width(b)
    ensures RowScore(b, s, y, n) == -RowScore(b, Opponent(s), y, n)
  {
    if n > 0 {
      RowScoreAntisymmetric(b, s, y, n - 1);
    }
  }

  lemma {:induction false} PositionalAntisymmetric(b: Grid, s: Stone, m: nat)
    requires Fits(b) && m <= |b|
    ensures Positional(b, s, m) == -Positional(b, Opponent(s), m)
  {
    if m > 0 {
      PositionalAntisymmetric(b, s, m - 1);
      RowScoreAntisymmetric(b, s, m - 1, Width(b));
    }
  }

  /** The evaluator is zero-sum: a position is worth to one side exactly what it costs the other. */
  lemma ScoreAntisymmetric(b: Grid, s: Stone)
    requires Fits(b)
    ensures Score(b, s) == -Score(b, Opponent(s))
  {
    PositionalAntisymmetric(b, s, |b|);
  }

  /** The sum of the absolute weights of the cells (x, y) with x < n. */
  function RowMagnitude(y: int, n: nat): int
    requires 0 <= y < SIDE && n <= SIDE
  {
    WeightsShape();
    if n == 0 then 0
    else RowMagnitude(y, n - 1) + (if WEIGHTS[y][n - 1] < 0 then -WEIGHTS[y][n - 1] else WEIGHTS[y][n - 1])
  }

  /** The sum of the absolute weights of the first `m` rows. */
  function Magnitude(m: nat): int
    requires m <= SIDE
  {
    if m == 0 then 0 else Magnitude(m - 1) + RowMagnitude(m - 1, SIDE)
  }

  lemma {:induction false} RowScoreBounded(b: Grid, s: Stone, y: int, n: nat)
    requires Fits(b) && 0 <= y < |b| && n <= Width(b)
    ensures -RowMagnitude(y, n) <= RowScore(b, s, y, n) <= RowMagnitude(y, n)
  {
    if n > 0 {
      RowScoreBounded(b, s, y, n - 1);
    }
  }

  lemma {:induction false} RowMagnitudeGrows(y: int, n: nat)
    requires 0 <= y < SIDE && n <= SIDE
    ensures 0 <= RowMagnitude(y, n) <= RowMagnitude(y, SIDE)
    decreases SIDE - n
  {
    if n < SIDE {
      RowMagnitudeGrows(y, n + 1);
    }
  }

  lemma {:induction false} PositionalBounded(b: Grid, s: Stone, m: nat)
    requires Fits(b) && m <= |b|
    ensures -Magnitude(m) <= Positional(b, s, m) <= Magnitude(m)
  {
    if m > 0 {
      PositionalBounded(b, s, m - 1);
      RowScoreBounded(b, s, m - 1, Width(b));
      RowMagnitudeGrows(m - 1, Width(b));
    }
  }

  lemma {:induction false} MagnitudeGrows(m: nat)
    requires m <= SIDE
    ensures 0 <= Magnitude(m) <= Magnitude(SIDE)
    decreases SIDE - m
  {
    if m < SIDE {
      MagnitudeGrows(m + 1);
      RowMagnitudeGrows(m, 0);
    }
  }

  /** Cells of two different colours together number at most the cells looked at. */
  lemma {:induction false} RowCountsDisjoint(row: seq<int>, c1: int, c2: int, n: nat)
    requires n <= |row| && c1 != c2
    ensures RowCount(row, c1, n) + RowCount(row, c2, n) <= n
  {
    if n > 0 {
      RowCountsDisjoint(row, c1, c2, n - 1);
    }
  }

  lemma {:induction false} CountsDisjoint(b: Grid, c1: int, c2: int, m: nat)
    requires Rectangular(b) && m <= |b| && c1 != c2
    ensures Count(b, c1, m) + Count(b, c2, m) <= m * Width(b)
  {
    if m > 0 {
      CountsDisjoint(b, c1, c2, m - 1);
      RowCountsDisjoint(b[m - 1], c1, c2, Width(b));
    }
  }

  /** Every score lies within the sum of all absolute weights (1228) plus five points for
      each of the 36 cells. */
  lemma ScoreBounded(b: Grid, s: Stone)
    requires Fits(b)
    ensures -1408 <= Score(b, s) <= 1408
  {
    PositionalBounded(b, s, |b|);
    MagnitudeGrows(|b|);
    assert Magnitude(SIDE) == 1228;
    CountsDisjoint(b, s, Opponent(s), |b|);
    assert |b| * Width(b) <= 36 by {
      assert |b| * Width(b) <= SIDE * Width(b) <= SIDE * SIDE;
    }
  }

  /** The board after a move still fits the table. */
  lemma AfterMoveFits(b: Grid, s: Stone, x: int, y: int)
    requires Fits(b) && InBounds(b, x, y)
    ensures Fits(AfterMove(b, s, x, y))
  {
  }

  /** One-ply look-ahead: the value for `s` of the board after `s` plays `move`. */
  method EvaluateMove(b: Grid, s: Stone, move: Pos) returns (score: int)
    requires Fits(b) && InBounds(b, move.0, move.1)
    ensures score == Score(AfterMove(b, s, move.0, move.1), s)
  {
    var (x, y) := move;
    var after := ApplyMove(b, s, x, y);
    AfterMoveFits(b, s, x, y);
    score := EvaluateBoard(after, s);
  }
}
