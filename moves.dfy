/** The move generator: whether a stone may be placed on a cell, and the list of
    all such cells in row-major order. */
module Moves {
  import opened Board

  /** Placing `s` at (x, y) is legal: the cell is empty and, in some direction, a run of one
      or more opponent stones next to it is closed by a stone of `s`. */
  predicate Legal(b: Grid, s: Stone, x: int, y: int)
    requires Rectangular(b) && InBounds(b, x, y)
  {
    DirectionsAreUnit();
    b[y][x] == EMPTY &&
    exists t :: 0 <= t < |Directions| && Brackets(b, s, x, y, Directions[t].0, Directions[t].1)
  }

  /** Checks one cell as the source does: walk each direction while on the board, remembering
      whether an opponent stone was seen, and succeed on the first own stone after one. */
  method CanPlace(b: Grid, s: Stone, x: int, y: int) returns (ok: bool)
    requires Rectangular(b) && InBounds(b, x, y)
    ensures ok == Legal(b, s, x, y)
  {
    if b[y][x] != EMPTY {
      return false;
    }
    DirectionsAreUnit();
    var opponent := Opponent(s);
    var k := 0;
    while k < |Directions|
      invariant 0 <= k <= |Directions|
      invariant forall t :: 0 <= t < k ==> !Brackets(b, s, x, y, Directions[t].0, Directions[t].1)
    {
      var (dx, dy) := Directions[k];
      var nx, ny := x + dx, y + dy;
      var foundOpponent := false;
      ghost var passed: nat := 0;
      while InBounds(b, nx, ny)
        invariant passed + |Run(b, opponent, nx, ny, dx, dy)| == |Run(b, opponent, x + dx, y + dy, dx, dy)|
        invariant RunEnd(b, opponent, nx, ny, dx, dy) == RunEnd(b, opponent, x + dx, y + dy, dx, dy)
        invariant foundOpponent == (passed > 0)
        decreases Steps(dx, nx, Width(b)) + Steps(dy, ny, |b|)
      {
        RunStep(b, opponent, nx, ny, dx, dy);
        if b[ny][nx] == opponent {
          foundOpponent := true;
          passed := passed + 1;
        } else if b[ny][nx] == s && foundOpponent {
          WalkOutcome(b, s, x, y, dx, dy, passed, nx, ny);
          return true;
        } else {
          WalkOutcome(b, s, x, y, dx, dy, passed, nx, ny);
          break;
        }
        nx, ny := nx + dx, ny + dy;
      }
      WalkOutcome(b, s, x, y, dx, dy, passed, nx, ny);
      assert !Brackets(b, s, x, y, dx, dy);
      k := k + 1;
    }
    return false;
  }

  /** Row-major order on positions: `y` first, then `x`. */
  predicate RowMajorLess(p: Pos, q: Pos) {
    p.1 < q.1 || (p.1 == q.1 && p.0 < q.0)
  }

  /** The legal cells (x, y) of row `y` with x < n, left to right. */
  function RowMoves(b: Grid, s: Stone, y: int, n: nat): seq<Pos>
    requires Rectangular(b) && 0 <= y < |b| && n <= Width(b)
  {
    if n == 0 then []
    else RowMoves(b, s, y, n - 1) + (if Legal(b, s, n - 1, y) then [(n - 1, y)] else [])
  }

  /** The legal cells of the first `m` rows, in row-major order. */
  function MovesBefore(b: Grid, s: Stone, m: nat): seq<Pos>
    requires Rectangular(b) && m <= |b|
  {
    if m == 0 then [] else MovesBefore(b, s, m - 1) + RowMoves(b, s, m - 1, Width(b))
  }

  /** All legal moves of `s`, in the order `get_valid_moves` lists them. */
  function ValidMoves(b: Grid, s: Stone): seq<Pos>
    requires Rectangular(b)
  {
    MovesBefore(b, s, |b|)
  }

  /** A sequence strictly increasing in row-major order, hence without duplicates. */
  predicate StrictlyRowMajor(ms: seq<Pos>) {
    forall i, j :: 0 <= i < j < |ms| ==> RowMajorLess(ms[i], ms[j])
  }

  /** The moves of a row are exactly its legal cells left of `n`. */
  lemma {:induction false} RowMovesSpec(b: Grid, s: Stone, y: int, n: nat)
    requires Rectangular(b) && 0 <= y < |b| && n <= Width(b)
    ensures forall p :: p in RowMoves(b, s, y, n) <==>
              p.1 == y && 0 <= p.0 < n && Legal(b, s, p.0, p.1)
  {
    if n > 0 {
      RowMovesSpec(b, s, y, n - 1);
    }
  }

  /** The moves of a row lie in that row left of `n`, strictly left to right. */
  lemma {:induction false} RowMovesOrdered(b: Grid, s: Stone, y: int, n: nat)
    requires Rectangular(b) && 0 <= y < |b| && n <= Width(b)
    ensures forall p :: p in RowMoves(b, s, y, n) ==> p.1 == y && 0 <= p.0 < n
    ensures StrictlyRowMajor(RowMoves(b, s, y, n))
  {
    if n > 0 {
      RowMovesOrdered(b, s, y, n - 1);
      var prev := RowMoves(b, s, y, n - 1);
      var last := if Legal(b, s, n - 1, y) then [(n - 1, y)] else [];
      var q := prev + last;
      assert RowMoves(b, s, y, n) == q;
      forall i, j | 0 <= i < j < |q|
        ensures RowMajorLess(q[i], q[j])
      {
        assert q[i] == prev[i] && prev[i] in prev;
        if j < |prev| {
          assert q[j] == prev[j];
        } else {
          assert q[j] == (n - 1, y);
        }
      }
    }
  }

  lemma {:induction false} MovesBeforeSpec(b: Grid, s: Stone, m: nat)
    requires Rectangular(b) && m <= |b|
    ensures forall p :: p in MovesBefore(b, s, m) <==>
              0 <= p.1 < m && InBounds(b, p.0, p.1) && Legal(b, s, p.0, p.1)
    ensures StrictlyRowMajor(MovesBefore(b, s, m))
  {
    if m > 0 {
      MovesBeforeSpec(b, s, m - 1);
      RowMovesSpec(b, s, m - 1, Width(b));
      RowMovesOrdered(b, s, m - 1, Width(b));
      var prev, row := MovesBefore(b, s, m - 1), RowMoves(b, s, m - 1, Width(b));
      assert MovesBefore(b, s, m) == prev + row;
      forall i, j | 0 <= i < j < |prev + row|
        ensures RowMajorLess((prev + row)[i], (prev + row)[j])
      {
        if j < |prev| {
        } else if i >= |prev| {
          assert (prev + row)[i] == row[i - |prev|] && (prev + row)[j] == row[j - |prev|];
        } else {
          assert (prev + row)[i] in prev && (prev + row)[j] in row;
        }
      }
    }
  }

  /** `ValidMoves` holds exactly the legal cells of the board, each once, in row-major order. */
  lemma ValidMovesSpec(b: Grid, s: Stone)
    requires Rectangular(b)
    ensures forall p :: p in ValidMoves(b, s) <==> InBounds(b, p.0, p.1) && Legal(b, s, p.0, p.1)
    ensures StrictlyRowMajor(ValidMoves(b, s))
  {
    MovesBeforeSpec(b, s, |b|);
  }

  /** Collects every legal cell, `y` in the outer loop and `x` in the inner one. */
  method GetValidMoves(b: Grid, s: Stone) returns (moves: seq<Pos>)
    requires Rectangular(b)
    ensures moves == ValidMoves(b, s)
  {
    moves := [];
    var y := 0;
    while y < |b|
      invariant 0 <= y <= |b|
      invariant moves == MovesBefore(b, s, y)
    {
      var x := 0;
      while x < Width(b)
        invariant 0 <= x <= Width(b)
        invariant moves == MovesBefore(b, s, y) + RowMoves(b, s, y, x)
      {
        var ok := CanPlace(b, s, x, y);
        if ok {
          moves := moves + [(x, y)];
        }
        x := x + 1;
      }
      y := y + 1;
    }
  }
}
