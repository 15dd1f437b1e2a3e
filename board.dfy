/** The board model: grids of cell values, stones, the eight walking directions,
    the runs of stones met when walking from a cell, and stone counts. */
module Board {

  /** Cell values as the game stores them. */
  const EMPTY: int := 0
  const BLACK: int := 1
  const WHITE: int := 2

  /** The colour of the side to move. */
  type Stone = s: int | s == 1 || s == 2 witness 1

  /** The other colour, computed as `3 - stone`. */
  function Opponent(s: Stone): (o: Stone)
    ensures o != s && 3 - o == s
  {
    3 - s
  }

  /** A board, indexed `b[y][x]`; a position is `(x, y)`. */
  type Grid = seq<seq<int>>
  type Pos = (int, int)

  /** The width is the length of the first row, as in `len(board[0])`. */
  function Width(b: Grid): nat {
    if |b| == 0 then 0 else |b[0]|
  }

  predicate Rectangular(b: Grid) {
    forall j :: 0 <= j < |b| ==> |b[j]| == Width(b)
  }

  predicate InBounds(b: Grid, x: int, y: int) {
    0 <= y < |b| && 0 <= x < Width(b)
  }

  /** The grid with the one cell (x, y) set to `v`, as `board[y][x] = v` leaves it. */
  function SetCell(g: Grid, x: int, y: int, v: int): (r: Grid)
    requires Rectangular(g) && InBounds(g, x, y)
    ensures SameShape(g, r)
    ensures forall j, i :: InBounds(g, i, j) ==> r[j][i] == if i == x && j == y then v else g[j][i]
  {
    g[y := g[y][x := v]]
  }

  /** Two grids with the same shape. */
  predicate SameShape(b: Grid, c: Grid) {
    Rectangular(b) && Rectangular(c) && |b| == |c| && Width(b) == Width(c)
  }

  /** The eight directions (dx, dy), in the order the source walks them. */
  const Directions: seq<(int, int)> :=
    [(-1, -1), (-1, 0), (-1, 1), (0, -1), (0, 1), (1, -1), (1, 0), (1, 1)]

  /** A one-cell step that actually moves. */
  predicate Unit(dx: int, dy: int) {
    -1 <= dx <= 1 && -1 <= dy <= 1 && (dx != 0 || dy != 0)
  }

  lemma DirectionsAreUnit()
    ensures |Directions| == 8
    ensures forall t :: 0 <= t < |Directions| ==> Unit(Directions[t].0, Directions[t].1)
  {
  }

  /** The eight directions are pairwise different. */
  lemma DirectionsAreDistinct()
    ensures forall t, u :: 0 <= t < u < |Directions| ==> Directions[t] != Directions[u]
  {
  }

  function Sign(n: int): int {
    if n > 0 then 1 else if n < 0 then -1 else 0
  }

  /** Cell (cx, cy) lies on the ray that leaves (x, y) in direction (dx, dy). */
  predicate Toward(x: int, y: int, cx: int, cy: int, dx: int, dy: int) {
    Sign(cx - x) == dx && Sign(cy - y) == dy
  }

  /** How many more steps a walk in one coordinate can take before it leaves [0, size). */
  function Steps(d: int, n: int, size: int): int {
    if d > 0 then size - n else if d < 0 then n + 1 else 0
  }

  /** The positions holding `o` met when walking from (nx, ny) by (dx, dy), up to the
      first cell that is off the board or does not hold `o`. */
  function Run(b: Grid, o: int, nx: int, ny: int, dx: int, dy: int): (r: seq<Pos>)
    requires Rectangular(b) && Unit(dx, dy)
    ensures forall k :: 0 <= k < |r| ==> InBounds(b, r[k].0, r[k].1) && b[r[k].1][r[k].0] == o
    decreases Steps(dx, nx, Width(b)) + Steps(dy, ny, |b|)
  {
    if InBounds(b, nx, ny) && b[ny][nx] == o then [(nx, ny)] + Run(b, o, nx + dx, ny + dy, dx, dy)
    else []
  }

  /** The first position after the run: off the board, or holding something other than `o`. */
  function RunEnd(b: Grid, o: int, nx: int, ny: int, dx: int, dy: int): (e: Pos)
    requires Rectangular(b) && Unit(dx, dy)
    ensures InBounds(b, e.0, e.1) ==> b[e.1][e.0] != o
    decreases Steps(dx, nx, Width(b)) + Steps(dy, ny, |b|)
  {
    if InBounds(b, nx, ny) && b[ny][nx] == o then RunEnd(b, o, nx + dx, ny + dy, dx, dy)
    else (nx, ny)
  }

  /** One step of a walk: a cell holding `o` heads the run from it, any other cell ends it. */
  lemma RunStep(b: Grid, o: int, nx: int, ny: int, dx: int, dy: int)
    requires Rectangular(b) && Unit(dx, dy)
    ensures InBounds(b, nx, ny) && b[ny][nx] == o ==>
              Run(b, o, nx, ny, dx, dy) == [(nx, ny)] + Run(b, o, nx + dx, ny + dy, dx, dy) &&
              RunEnd(b, o, nx, ny, dx, dy) == RunEnd(b, o, nx + dx, ny + dy, dx, dy)
    ensures !(InBounds(b, nx, ny) && b[ny][nx] == o) ==>
              Run(b, o, nx, ny, dx, dy) == [] && RunEnd(b, o, nx, ny, dx, dy) == (nx, ny)
  {
  }

  /** Two grids that agree on every cell of the ray from (x, y) in direction (dx, dy) give the
      same run and run end for a walk along that ray. */
  lemma {:induction false} RunAgree(b1: Grid, b2: Grid, o: int, x: int, y: int, nx: int, ny: int, dx: int, dy: int)
    requires SameShape(b1, b2) && Unit(dx, dy) && Toward(x, y, nx, ny, dx, dy)
    requires forall j, i :: InBounds(b1, i, j) && Toward(x, y, i, j, dx, dy) ==> b1[j][i] == b2[j][i]
    ensures Run(b1, o, nx, ny, dx, dy) == Run(b2, o, nx, ny, dx, dy)
    ensures RunEnd(b1, o, nx, ny, dx, dy) == RunEnd(b2, o, nx, ny, dx, dy)
    decreases Steps(dx, nx, Width(b1)) + Steps(dy, ny, |b1|)
  {
    if InBounds(b1, nx, ny) && b1[ny][nx] == o {
      RunAgree(b1, b2, o, x, y, nx + dx, ny + dy, dx, dy);
    }
  }

  /** Every cell of a run started on the ray from (x, y) stays on that ray. */
  lemma {:induction false} RunToward(b: Grid, o: int, x: int, y: int, nx: int, ny: int, dx: int, dy: int)
    requires Rectangular(b) && Unit(dx, dy) && Toward(x, y, nx, ny, dx, dy)
    ensures forall c :: c in Run(b, o, nx, ny, dx, dy) ==> Toward(x, y, c.0, c.1, dx, dy)
    decreases Steps(dx, nx, Width(b)) + Steps(dy, ny, |b|)
  {
    if InBounds(b, nx, ny) && b[ny][nx] == o {
      RunToward(b, o, x, y, nx + dx, ny + dy, dx, dy);
    }
  }

  /** The cell that ends a run started on the ray from (x, y) stays on that ray. */
  lemma {:induction false} RunEndToward(b: Grid, o: int, x: int, y: int, nx: int, ny: int, dx: int, dy: int)
    requires Rectangular(b) && Unit(dx, dy) && Toward(x, y, nx, ny, dx, dy)
    ensures Toward(x, y, RunEnd(b, o, nx, ny, dx, dy).0, RunEnd(b, o, nx, ny, dx, dy).1, dx, dy)
    decreases Steps(dx, nx, Width(b)) + Steps(dy, ny, |b|)
  {
    if InBounds(b, nx, ny) && b[ny][nx] == o {
      RunEndToward(b, o, x, y, nx + dx, ny + dy, dx, dy);
    }
  }

  /** The walk of direction (dx, dy) from (x, y) is bracketed: it meets at least one `Opponent(s)`
      stone and the first cell after them is on the board and holds `s`. */
  predicate Brackets(b: Grid, s: Stone, x: int, y: int, dx: int, dy: int)
    requires Rectangular(b) && Unit(dx, dy)
  {
    var e := RunEnd(b, Opponent(s), x + dx, y + dy, dx, dy);
    |Run(b, Opponent(s), x + dx, y + dy, dx, dy)| > 0 && InBounds(b, e.0, e.1) && b[e.1][e.0] == s
  }

  /** A walk from (x + dx, y + dy) that has passed `passed` opponent stones and stopped at (nx, ny),
      a cell that is off the board or not an opponent stone, decides `Brackets` from that cell. */
  lemma WalkOutcome(b: Grid, s: Stone, x: int, y: int, dx: int, dy: int, passed: nat, nx: int, ny: int)
    requires Rectangular(b) && Unit(dx, dy)
    requires passed + |Run(b, Opponent(s), nx, ny, dx, dy)| == |Run(b, Opponent(s), x + dx, y + dy, dx, dy)|
    requires RunEnd(b, Opponent(s), nx, ny, dx, dy) == RunEnd(b, Opponent(s), x + dx, y + dy, dx, dy)
    requires !(InBounds(b, nx, ny) && b[ny][nx] == Opponent(s))
    ensures Brackets(b, s, x, y, dx, dy) <==> passed > 0 && InBounds(b, nx, ny) && b[ny][nx] == s
  {
    RunStep(b, Opponent(s), nx, ny, dx, dy);
  }

  /** The opponent stones a stone of `s` placed at (x, y) captures in direction (dx, dy). */
  function Captures(b: Grid, s: Stone, x: int, y: int, dx: int, dy: int): (r: seq<Pos>)
    requires Rectangular(b) && Unit(dx, dy)
    ensures r != [] <==> Brackets(b, s, x, y, dx, dy)
    ensures forall k :: 0 <= k < |r| ==> InBounds(b, r[k].0, r[k].1) && b[r[k].1][r[k].0] == Opponent(s)
  {
    if Brackets(b, s, x, y, dx, dy) then Run(b, Opponent(s), x + dx, y + dy, dx, dy) else []
  }

  /** Two grids that agree on every cell of the ray from (x, y) in direction (dx, dy) give the
      same captures in that direction. */
  lemma CapturesAgree(b1: Grid, b2: Grid, s: Stone, x: int, y: int, dx: int, dy: int)
    requires SameShape(b1, b2) && Unit(dx, dy)
    requires forall j, i :: InBounds(b1, i, j) && Toward(x, y, i, j, dx, dy) ==> b1[j][i] == b2[j][i]
    ensures Captures(b1, s, x, y, dx, dy) == Captures(b2, s, x, y, dx, dy)
  {
    RunAgree(b1, b2, Opponent(s), x, y, x + dx, y + dy, dx, dy);
    RunEndToward(b1, Opponent(s), x, y, x + dx, y + dy, dx, dy);
    var e := RunEnd(b1, Opponent(s), x + dx, y + dy, dx, dy);
    if InBounds(b1, e.0, e.1) {
      assert b1[e.1][e.0] == b2[e.1][e.0];
    }
    assert Brackets(b1, s, x, y, dx, dy) == Brackets(b2, s, x, y, dx, dy);
  }

  /** The captures of direction number `k` of `Directions`. */
  function DirCaptures(b: Grid, s: Stone, x: int, y: int, k: nat): seq<Pos>
    requires Rectangular(b) && k < |Directions|
  {
    DirectionsAreUnit();
    Captures(b, s, x, y, Directions[k].0, Directions[k].1)
  }

  /** The captures of one direction lie on that direction's ray, hence never on the target
      cell and never on another direction's captures. */
  lemma CapturesToward(b: Grid, s: Stone, x: int, y: int, dx: int, dy: int)
    requires Rectangular(b) && Unit(dx, dy)
    ensures forall c :: c in Captures(b, s, x, y, dx, dy) ==> Toward(x, y, c.0, c.1, dx, dy)
  {
    RunToward(b, Opponent(s), x, y, x + dx, y + dy, dx, dy);
  }

  /** The number of cells equal to `c` among `row[..n]`. */
  function RowCount(row: seq<int>, c: int, n: nat): (r: nat)
    requires n <= |row|
    ensures r <= n
  {
    if n == 0 then 0 else RowCount(row, c, n - 1) + (if row[n - 1] == c then 1 else 0)
  }

  /** The number of cells equal to `c` in the first `m` rows. */
  function Count(b: Grid, c: int, m: nat): (r: nat)
    requires Rectangular(b) && m <= |b|
    ensures r <= m * Width(b)
  {
    if m == 0 then 0 else Count(b, c, m - 1) + RowCount(b[m - 1], c, Width(b))
  }

  /** The number of stones of colour `c` on the whole board. */
  function Stones(b: Grid, c: int): nat
    requires Rectangular(b)
  {
    Count(b, c, |b|)
  }

  /** If every `c` cell of `r1` is a `c` cell of `r2`, `r2` has at least as many, and one more
      for a cell that is `c` in `r2` only. */
  lemma {:induction false} RowCountGrows(r1: seq<int>, r2: seq<int>, c: int, n: nat, g: int)
    requires n <= |r1| && n <= |r2|
    requires forall i :: 0 <= i < n && r1[i] == c ==> r2[i] == c
    ensures RowCount(r1, c, n) <= RowCount(r2, c, n)
    ensures 0 <= g < n && r1[g] != c && r2[g] == c ==> RowCount(r1, c, n) < RowCount(r2, c, n)
  {
    if n > 0 {
      RowCountGrows(r1, r2, c, n - 1, g);
    }
  }

  /** The same on whole grids, for a gained cell (gx, gy) within the first `m` rows. */
  lemma {:induction false} CountGrows(b1: Grid, b2: Grid, c: int, m: nat, gx: int, gy: int)
    requires SameShape(b1, b2) && m <= |b1|
    requires forall j, i :: 0 <= j < |b1| && 0 <= i < Width(b1) && b1[j][i] == c ==> b2[j][i] == c
    ensures Count(b1, c, m) <= Count(b2, c, m)
    ensures 0 <= gy < m && 0 <= gx < Width(b1) && b1[gy][gx] != c && b2[gy][gx] == c ==>
              Count(b1, c, m) < Count(b2, c, m)
  {
    if m > 0 {
      CountGrows(b1, b2, c, m - 1, gx, gy);
      RowCountGrows(b1[m - 1], b2[m - 1], c, Width(b1), if gy == m - 1 then gx else -1);
    }
  }
}
