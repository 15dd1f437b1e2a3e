/** The transition engine: the board that results from placing a stone and flipping
    every run of opponent stones it closes. */
module Transition {
  import opened Board
  import opened Moves

  /** Cell (i, j) is among the captures of one of the first `k` directions. */
  predicate CapturedBy(b: Grid, s: Stone, x: int, y: int, k: nat, i: int, j: int)
    requires Rectangular(b) && k <= |Directions|
  {
    exists t :: 0 <= t < k && (i, j) in DirCaptures(b, s, x, y, t)
  }

  /** Cell (i, j) lies on a run of opponent stones next to (x, y), in one of the eight
      directions, that a stone of `s` closes. */
  predicate Flips(b: Grid, s: Stone, x: int, y: int, i: int, j: int)
    requires Rectangular(b)
  {
    CapturedBy(b, s, x, y, |Directions|, i, j)
  }

  /** The board after `s` is placed at (x, y): the target holds `s`, every flipped cell holds `s`,
      and every other cell is as before. */
  function AfterMove(b: Grid, s: Stone, x: int, y: int): (r: Grid)
    requires Rectangular(b) && InBounds(b, x, y)
    ensures SameShape(b, r)
    ensures r[y][x] == s
    ensures forall j, i :: InBounds(b, i, j) && (i != x || j != y) ==>
              r[j][i] == if Flips(b, s, x, y, i, j) then s else b[j][i]
  {
    seq(|b|, j requires 0 <= j < |b| =>
      seq(Width(b), i requires 0 <= i < Width(b) =>
        if (i == x && j == y) || Flips(b, s, x, y, i, j) then s else b[j][i]))
  }

  /** The board `nb` after the first `k` directions have been processed. */
  ghost predicate Stage(b: Grid, s: Stone, x: int, y: int, k: nat, nb: Grid)
    requires Rectangular(b) && InBounds(b, x, y) && k <= |Directions|
  {
    SameShape(b, nb) && nb[y][x] == s &&
    forall j, i :: InBounds(b, i, j) && (i != x || j != y) ==>
      nb[j][i] == if CapturedBy(b, s, x, y, k, i, j) then s else b[j][i]
  }

  /** A board at stage `k` still holds the original value on every cell of the ray of
      direction `k`: such a cell is neither the target nor captured by an earlier direction. */
  lemma LaterRayUnchanged(b: Grid, s: Stone, x: int, y: int, k: nat, nb: Grid)
    requires Rectangular(b) && InBounds(b, x, y) && k < |Directions| && Stage(b, s, x, y, k, nb)
    ensures forall j, i :: InBounds(b, i, j) && Toward(x, y, i, j, Directions[k].0, Directions[k].1) ==>
              nb[j][i] == b[j][i]
  {
    DirectionsAreUnit();
    DirectionsAreDistinct();
    var (dx, dy) := Directions[k];
    forall j, i | InBounds(b, i, j) && Toward(x, y, i, j, dx, dy)
      ensures nb[j][i] == b[j][i]
    {
      forall t | 0 <= t < k
        ensures (i, j) !in DirCaptures(b, s, x, y, t)
      {
        CapturesToward(b, s, x, y, Directions[t].0, Directions[t].1);
      }
      assert !CapturedBy(b, s, x, y, k, i, j);
    }
  }

  /** A cell is captured by the first `k + 1` directions when it is captured by the first `k`
      or by direction `k`. */
  lemma CapturedByStep(b: Grid, s: Stone, x: int, y: int, k: nat, i: int, j: int)
    requires Rectangular(b) && k < |Directions|
    ensures CapturedBy(b, s, x, y, k + 1, i, j) <==>
              CapturedBy(b, s, x, y, k, i, j) || (i, j) in DirCaptures(b, s, x, y, k)
  {
    if (i, j) in DirCaptures(b, s, x, y, k) {
      assert 0 <= k < k + 1;
    }
  }

  /** Flipping the captures of direction `k` on a stage-`k` board gives a stage-`k + 1` board. */
  lemma StageStep(b: Grid, s: Stone, x: int, y: int, k: nat, before: Grid, nb: Grid)
    requires Rectangular(b) && InBounds(b, x, y) && k < |Directions| && Stage(b, s, x, y, k, before)
    requires SameShape(b, nb)
    requires forall j, i :: InBounds(b, i, j) ==>
      nb[j][i] == if (i, j) in DirCaptures(b, s, x, y, k) then s else before[j][i]
    ensures Stage(b, s, x, y, k + 1, nb)
  {
    DirectionsAreUnit();
    CapturesToward(b, s, x, y, Directions[k].0, Directions[k].1);
    assert (x, y) !in DirCaptures(b, s, x, y, k);
    forall j, i | InBounds(b, i, j) && (i != x || j != y)
      ensures nb[j][i] == if CapturedBy(b, s, x, y, k + 1, i, j) then s else b[j][i]
    {
      CapturedByStep(b, s, x, y, k, i, j);
    }
  }

  /** Walks from (nx, ny) by (dx, dy) while on the board and on `o` cells, collecting the
      positions passed; returns them and the position where the walk stopped. */
  method CollectRun(g: Grid, o: int, nx: int, ny: int, dx: int, dy: int) returns (run: seq<Pos>, ex: int, ey: int)
    requires Rectangular(g) && Unit(dx, dy)
    ensures run == Run(g, o, nx, ny, dx, dy)
    ensures (ex, ey) == RunEnd(g, o, nx, ny, dx, dy)
  {
    run, ex, ey := [], nx, ny;
    while InBounds(g, ex, ey) && g[ey][ex] == o
      invariant run + Run(g, o, ex, ey, dx, dy) == Run(g, o, nx, ny, dx, dy)
      invariant RunEnd(g, o, ex, ey, dx, dy) == RunEnd(g, o, nx, ny, dx, dy)
      decreases Steps(dx, ex, Width(g)) + Steps(dy, ey, |g|)
    {
      RunStep(g, o, ex, ey, dx, dy);
      assert run + [(ex, ey)] + Run(g, o, ex + dx, ey + dy, dx, dy) == run + Run(g, o, ex, ey, dx, dy);
      run := run + [(ex, ey)];
      ex, ey := ex + dx, ey + dy;
    }
    RunStep(g, o, ex, ey, dx, dy);
    assert run + [] == run;
  }

  /** Sets every listed cell to `s`, one after the other. */
  method FlipAll(g: Grid, cells: seq<Pos>, s: Stone) returns (r: Grid)
    requires Rectangular(g)
    requires forall k :: 0 <= k < |cells| ==> InBounds(g, cells[k].0, cells[k].1)
    ensures SameShape(g, r)
    ensures forall j, i :: InBounds(g, i, j) ==> r[j][i] == if (i, j) in cells then s else g[j][i]
  {
    r := g;
    for t := 0 to |cells|
      invariant SameShape(g, r)
      invariant forall j, i :: InBounds(g, i, j) ==> r[j][i] == if (i, j) in cells[..t] then s else g[j][i]
    {
      var (fx, fy) := cells[t];
      assert cells[..t + 1] == cells[..t] + [(fx, fy)];
      r := SetCell(r, fx, fy, s);
    }
    assert cells[..|cells|] == cells;
  }

  /** One direction of `apply_move`: walk over the opponent stones next to (x, y) and, when a
      stone of `s` closes the run, flip the run. Reads and writes the current board `g`. */
  method CaptureDirection(g: Grid, s: Stone, x: int, y: int, dx: int, dy: int) returns (r: Grid)
    requires Rectangular(g) && InBounds(g, x, y) && Unit(dx, dy)
    ensures SameShape(g, r)
    ensures forall j, i :: InBounds(g, i, j) ==>
              r[j][i] == if (i, j) in Captures(g, s, x, y, dx, dy) then s else g[j][i]
  {
    var toFlip, nx, ny := CollectRun(g, Opponent(s), x + dx, y + dy, dx, dy);
    r := g;
    if |toFlip| > 0 && InBounds(g, nx, ny) && g[ny][nx] == s {
      assert Captures(g, s, x, y, dx, dy) == toFlip;
      r := FlipAll(g, toFlip, s);
    } else {
      assert Captures(g, s, x, y, dx, dy) == [];
    }
  }

  /** After all eight directions the board is the one `AfterMove` describes. */
  lemma StageComplete(b: Grid, s: Stone, x: int, y: int, nb: Grid)
    requires Rectangular(b) && InBounds(b, x, y) && Stage(b, s, x, y, |Directions|, nb)
    ensures nb == AfterMove(b, s, x, y)
  {
    var r := AfterMove(b, s, x, y);
    forall j | 0 <= j < |b|
      ensures nb[j] == r[j]
    {
      assert forall i :: 0 <= i < Width(b) ==> nb[j][i] == r[j][i];
    }
  }

  /** Copies the board, places the stone, then for each direction collects the run of opponent
      stones next to the target and flips it when a stone of `s` closes it. */
  method ApplyMove(b: Grid, s: Stone, x: int, y: int) returns (nb: Grid)
    requires Rectangular(b) && InBounds(b, x, y)
    ensures SameShape(b, nb)
    ensures nb[y][x] == s
    ensures forall j, i :: InBounds(b, i, j) && (i != x || j != y) ==>
              nb[j][i] == if Flips(b, s, x, y, i, j) then s else b[j][i]
    ensures nb == AfterMove(b, s, x, y)
  {
    nb := b;
    nb := SetCell(nb, x, y, s);
    DirectionsAreUnit();
    var k := 0;
    while k < |Directions|
      invariant 0 <= k <= |Directions|
      invariant Stage(b, s, x, y, k, nb)
    {
      var (dx, dy) := Directions[k];
      LaterRayUnchanged(b, s, x, y, k, nb);
      CapturesAgree(b, nb, s, x, y, dx, dy);
      ghost var before := nb;
      nb := CaptureDirection(nb, s, x, y, dx, dy);
      StageStep(b, s, x, y, k, before, nb);
      k := k + 1;
    }
    StageComplete(b, s, x, y, nb);
  }

  /** A flipped cell is an opponent stone on the board, away from the target. */
  lemma FlippedAreOpponentStones(b: Grid, s: Stone, x: int, y: int, i: int, j: int)
    requires Rectangular(b) && Flips(b, s, x, y, i, j)
    ensures InBounds(b, i, j) && (i != x || j != y) && b[j][i] == Opponent(s)
  {
    DirectionsAreUnit();
    var t :| 0 <= t < |Directions| && (i, j) in DirCaptures(b, s, x, y, t);
    CapturesToward(b, s, x, y, Directions[t].0, Directions[t].1);
  }

  /** Some cell other than the target differs between the board and the board after the move. */
  ghost predicate ChangesOther(b: Grid, s: Stone, x: int, y: int)
    requires Rectangular(b) && InBounds(b, x, y)
  {
    exists j, i :: InBounds(b, i, j) && (i != x || j != y) && AfterMove(b, s, x, y)[j][i] != b[j][i]
  }

  /** A legal move flips at least one opponent stone: some cell (i, j) off the target that held an
      opponent stone holds the mover's stone afterwards. */
  lemma LegalFlipsSome(b: Grid, s: Stone, x: int, y: int) returns (i: int, j: int)
    requires Rectangular(b) && InBounds(b, x, y) && Legal(b, s, x, y)
    ensures InBounds(b, i, j) && (i != x || j != y)
    ensures b[j][i] == Opponent(s) && AfterMove(b, s, x, y)[j][i] == s
  {
    DirectionsAreUnit();
    var t :| 0 <= t < |Directions| && Brackets(b, s, x, y, Directions[t].0, Directions[t].1);
    var c := DirCaptures(b, s, x, y, t)[0];
    assert Flips(b, s, x, y, c.0, c.1);
    FlippedAreOpponentStones(b, s, x, y, c.0, c.1);
    i, j := c.0, c.1;
  }

  /** A move is legal exactly when its target is empty and placing the stone changes some other
      cell, that is, when at least one opponent stone is flipped. */
  lemma LegalIffFlips(b: Grid, s: Stone, x: int, y: int)
    requires Rectangular(b) && InBounds(b, x, y)
    ensures Legal(b, s, x, y) <==> b[y][x] == EMPTY && ChangesOther(b, s, x, y)
  {
    if Legal(b, s, x, y) {
      var i, j := LegalFlipsSome(b, s, x, y);
      assert AfterMove(b, s, x, y)[j][i] != b[j][i];
    }
    if b[y][x] == EMPTY && ChangesOther(b, s, x, y) {
      DirectionsAreUnit();
      var j, i :| InBounds(b, i, j) && (i != x || j != y) && AfterMove(b, s, x, y)[j][i] != b[j][i];
      assert Flips(b, s, x, y, i, j);
      var t :| 0 <= t < |Directions| && (i, j) in DirCaptures(b, s, x, y, t);
      assert Brackets(b, s, x, y, Directions[t].0, Directions[t].1);
    }
  }

  /** A legal move adds at least two stones of the mover (the placed one and a flipped one)
      and removes at least one opponent stone. */
  lemma LegalMoveCounts(b: Grid, s: Stone, x: int, y: int)
    requires Rectangular(b) && InBounds(b, x, y) && Legal(b, s, x, y)
    ensures Stones(AfterMove(b, s, x, y), s) >= Stones(b, s) + 2
    ensures Stones(AfterMove(b, s, x, y), Opponent(s)) + 1 <= Stones(b, Opponent(s))
  {
    var r := AfterMove(b, s, x, y);
    var i, j := LegalFlipsSome(b, s, x, y);
    var placed := SetCell(b, x, y, s);
    CountGrows(b, placed, s, |b|, x, y);
    forall j', i' | InBounds(b, i', j') && r[j'][i'] == Opponent(s)
      ensures b[j'][i'] == Opponent(s)
    {
      if (i' != x || j' != y) && b[j'][i'] != Opponent(s) {
        CellKept(b, s, x, y, i', j');
      }
    }
    CountGrows(placed, r, s, |b|, i, j);
    CountGrows(r, b, Opponent(s), |b|, i, j);
  }

  /** A cell off the target that does not hold an opponent stone keeps its value. */
  lemma CellKept(b: Grid, s: Stone, x: int, y: int, i: int, j: int)
    requires Rectangular(b) && InBounds(b, x, y) && InBounds(b, i, j) && (i != x || j != y)
    requires b[j][i] != Opponent(s)
    ensures AfterMove(b, s, x, y)[j][i] == b[j][i]
  {
    if Flips(b, s, x, y, i, j) {
      FlippedAreOpponentStones(b, s, x, y, i, j);
    }
  }

  /** A row other than the target's that holds no opponent stone is unchanged. */
  lemma RowKept(b: Grid, s: Stone, x: int, y: int, j: int)
    requires Rectangular(b) && InBounds(b, x, y) && 0 <= j < |b| && j != y
    requires forall i :: 0 <= i < |b[j]| ==> b[j][i] != Opponent(s)
    ensures AfterMove(b, s, x, y)[j] == b[j]
  {
    var r := AfterMove(b, s, x, y);
    forall i | 0 <= i < Width(b)
      ensures r[j][i] == b[j][i]
    {
      CellKept(b, s, x, y, i, j);
    }
  }

  /** A 4 x 4 board whose top row is [1, 2, 2, 0] and whose other rows are empty (stated row by
      row, so that the solver does not evaluate every function of it eagerly). */
  predicate TopRowBoard(b: Grid) {
    |b| == 4 && b[0] == [1, 2, 2, 0] && b[1] == [0, 0, 0, 0] && b[2] == [0, 0, 0, 0] && b[3] == [0, 0, 0, 0]
  }

  /** A sequence of length four is the display of its four elements. */
  lemma FourElements<T>(q: seq<T>)
    requires |q| == 4
    ensures q == [q[0], q[1], q[2], q[3]]
  {
  }

  /** On that board, black at (3, 0) brackets the white stones (2, 0) and (1, 0) walking left. */
  lemma TopRowCaptures(b: Grid)
    requires TopRowBoard(b)
    ensures Rectangular(b) && InBounds(b, 3, 0)
    ensures Legal(b, BLACK, 3, 0)
    ensures DirCaptures(b, BLACK, 3, 0, 1) == [(2, 0), (1, 0)]
  {
    assert Rectangular(b);
    RunStep(b, WHITE, 2, 0, -1, 0);
    RunStep(b, WHITE, 1, 0, -1, 0);
    RunStep(b, WHITE, 0, 0, -1, 0);
    assert Run(b, WHITE, 2, 0, -1, 0) == [(2, 0), (1, 0)];
    assert Brackets(b, BLACK, 3, 0, -1, 0);
    assert Directions[1] == (-1, 0);
  }

  /** On that board, black at (3, 0) fills the top row. */
  lemma TopRowFilled(b: Grid)
    requires TopRowBoard(b)
    ensures Rectangular(b) && InBounds(b, 3, 0)
    ensures AfterMove(b, BLACK, 3, 0)[0] == [1, 1, 1, 1]
  {
    TopRowCaptures(b);
    var r := AfterMove(b, BLACK, 3, 0);
    CellKept(b, BLACK, 3, 0, 0, 0);
    assert Flips(b, BLACK, 3, 0, 1, 0) && Flips(b, BLACK, 3, 0, 2, 0) by {
      assert (1, 0) in DirCaptures(b, BLACK, 3, 0, 1) && (2, 0) in DirCaptures(b, BLACK, 3, 0, 1);
    }
    FourElements(r[0]);
  }

  /** The 4 x 4 scenario: black at (3, 0) is legal and turns the top row [1, 2, 2, 0] into
      [1, 1, 1, 1], leaving the other rows empty. */
  lemma TopRowExample(b: Grid)
    requires TopRowBoard(b)
    ensures Rectangular(b) && InBounds(b, 3, 0) && Legal(b, BLACK, 3, 0)
    ensures AfterMove(b, BLACK, 3, 0) == [[1, 1, 1, 1], [0, 0, 0, 0], [0, 0, 0, 0], [0, 0, 0, 0]]
  {
    TopRowCaptures(b);
    RowKept(b, BLACK, 3, 0, 1);
    RowKept(b, BLACK, 3, 0, 2);
    RowKept(b, BLACK, 3, 0, 3);
    TopRowFilled(b);
    FourElements(AfterMove(b, BLACK, 3, 0));
  }
}
