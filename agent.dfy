/** The root of the agent: order the legal moves by their one-ply value, search each one, and
    play the first whose searched value is strictly the best. */
module Agent {
  import opened Board
  import opened Moves
  import opened Transition
  import opened Evaluation
  import opened Search

  datatype Option<T> = None | Some(value: T)

  /** A move paired with its ordering key. */
  type Keyed = (int, Pos)

  /** The ordering key of a move: the value for `s` of the board right after it. */
  function Key(b: Grid, s: Stone, m: Pos): int
    requires Fits(b) && InBounds(b, m.0, m.1)
  {
    AfterMoveFits(b, s, m.0, m.1);
    Score(AfterMove(b, s, m.0, m.1), s)
  }

  /** The value of a move at the root: the negated full-window search of the reply, which
      searches `depth` more plies. */
  function RootScore(b: Grid, s: Stone, depth: nat, m: Pos): int
    requires Fits(b) && InBounds(b, m.0, m.1)
  {
    AfterMoveFits(b, s, m.0, m.1);
    -Minimax(AfterMove(b, s, m.0, m.1), Opponent(s), depth)
  }

  /** The order a stable sort by descending key leaves among moves listed in row-major order:
      a larger key first, and of equal keys the move that comes first in row-major order. */
  predicate Precedes(p: Keyed, q: Keyed) {
    p.0 > q.0 || (p.0 == q.0 && RowMajorLess(p.1, q.1))
  }

  predicate Ordered(q: seq<Keyed>) {
    forall i, j :: 0 <= i < j < |q| ==> Precedes(q[i], q[j])
  }

  /** Puts `x` behind every element whose key is at least its own. */
  function Insert(x: Keyed, q: seq<Keyed>): (r: seq<Keyed>)
    ensures multiset(r) == multiset(q) + multiset{x}
  {
    if q == [] then [x]
    else if q[0].0 >= x.0 then
      assert q == [q[0]] + q[1..];
      [q[0]] + Insert(x, q[1..])
    else [x] + q
  }

  /** Stable sort by descending key: each element in turn is inserted behind the ones before
      it whose key is at least its own. */
  function SortDescending(ps: seq<Keyed>): (r: seq<Keyed>)
    ensures multiset(r) == multiset(ps)
  {
    if ps == [] then []
    else
      assert ps == ps[..|ps| - 1] + [ps[|ps| - 1]];
      Insert(ps[|ps| - 1], SortDescending(ps[..|ps| - 1]))
  }

  lemma {:induction false} InsertOrdered(x: Keyed, q: seq<Keyed>)
    requires Ordered(q)
    requires forall e :: e in q ==> RowMajorLess(e.1, x.1)
    ensures Ordered(Insert(x, q))
  {
    if q != [] && q[0].0 >= x.0 {
      InsertOrdered(x, q[1..]);
      var r := Insert(x, q[1..]);
      forall e | e in r
        ensures Precedes(q[0], e)
      {
        assert e in multiset(r);
        if e != x {
          assert e in q[1..];
        }
      }
    }
  }

  /** Sorting moves listed in strictly row-major order leaves them descending by key, ties in
      their original order. */
  lemma {:induction false} SortOrdered(ps: seq<Keyed>)
    requires forall i, j :: 0 <= i < j < |ps| ==> RowMajorLess(ps[i].1, ps[j].1)
    ensures Ordered(SortDescending(ps))
  {
    if ps != [] {
      var init, last := ps[..|ps| - 1], ps[|ps| - 1];
      SortOrdered(init);
      forall e | e in SortDescending(init)
        ensures RowMajorLess(e.1, last.1)
      {
        assert e in multiset(SortDescending(init));
        assert e in init;
      }
      InsertOrdered(last, SortDescending(init));
    }
  }

  /** Of two moves, the one with the larger key is sorted first, whichever of the two the
      generator listed first; of two equal keys, the first listed stays first. */
  lemma HigherKeyFirst(p: Keyed, q: Keyed)
    ensures p.0 >= q.0 ==> SortDescending([p, q]) == [p, q]
    ensures p.0 < q.0 ==> SortDescending([p, q]) == [q, p]
  {
    assert [p, q][..1] == [p];
    assert [p][..0] == [];
  }

  /** `keyed` pairs each move with its key, in the order of `moves`. */
  predicate KeyedMoves(b: Grid, s: Stone, moves: seq<Pos>, keyed: seq<Keyed>)
    requires Fits(b) && forall p :: p in moves ==> InBounds(b, p.0, p.1)
  {
    |keyed| == |moves| && forall i :: 0 <= i < |moves| ==> keyed[i] == (Key(b, s, moves[i]), moves[i])
  }

  /** Computes the ordering key of every move, one move at a time. */
  method ScoreMoves(b: Grid, s: Stone, moves: seq<Pos>) returns (keyed: seq<Keyed>)
    requires Fits(b) && forall p :: p in moves ==> InBounds(b, p.0, p.1)
    ensures KeyedMoves(b, s, moves, keyed)
  {
    keyed := [];
    for i := 0 to |moves|
      invariant |keyed| == i
      invariant forall j :: 0 <= j < i ==> keyed[j] == (Key(b, s, moves[j]), moves[j])
    {
      var key := EvaluateMove(b, s, moves[i]);
      keyed := keyed + [(key, moves[i])];
    }
  }

  /** Sorting keeps exactly the elements it is given. */
  lemma SortMembers(ps: seq<Keyed>)
    ensures forall e :: e in SortDescending(ps) <==> e in ps
  {
    forall e
      ensures e in SortDescending(ps) <==> e in ps
    {
      assert e in SortDescending(ps) <==> e in multiset(SortDescending(ps));
      assert e in ps <==> e in multiset(ps);
    }
  }

  /** The sorted list holds exactly the valid moves, each with its own key, in `Precedes` order. */
  lemma SortedMoves(b: Grid, s: Stone, moves: seq<Pos>, keyed: seq<Keyed>)
    requires Fits(b) && forall p :: p in moves ==> InBounds(b, p.0, p.1)
    requires StrictlyRowMajor(moves) && KeyedMoves(b, s, moves, keyed)
    ensures Ordered(SortDescending(keyed))
    ensures forall e :: e in SortDescending(keyed) ==> e.1 in moves && e.0 == Key(b, s, e.1)
    ensures forall m :: m in moves ==> (Key(b, s, m), m) in SortDescending(keyed)
    ensures forall e :: e in SortDescending(keyed) ==> InBounds(b, e.1.0, e.1.1)
  {
    SortOrdered(keyed);
    SortMembers(keyed);
    forall e | e in keyed
      ensures e.1 in moves && e.0 == Key(b, s, e.1)
    {
      var i :| 0 <= i < |keyed| && keyed[i] == e;
    }
    forall m | m in moves
      ensures (Key(b, s, m), m) in keyed
    {
      var i :| 0 <= i < |moves| && moves[i] == m;
    }
  }

  /** A legal move of `s`: an in-bounds cell where the stone can be placed. */
  predicate IsMove(b: Grid, s: Stone, m: Pos)
    requires Rectangular(b)
  {
    InBounds(b, m.0, m.1) && Legal(b, s, m.0, m.1)
  }

  /** Plays `m` and searches the reply over the full window. */
  method SearchRoot(b: Grid, s: Stone, depth: nat, m: Pos) returns (score: int)
    requires Fits(b) && InBounds(b, m.0, m.1)
    ensures score == RootScore(b, s, depth, m)
  {
    var child := ApplyMove(b, s, m.0, m.1);
    AfterMoveFits(b, s, m.0, m.1);
    var value := Negamax(child, Opponent(s), depth, NegInf, PosInf);
    score := -value;
  }

  /** Chooses the move to play, or `None` to pass. The moves are sorted by descending one-ply
      value (stably), each is searched, and a later move replaces the best so far only when its
      value is strictly larger. */
  method Place(b: Grid, s: Stone, depth: nat) returns (choice: Option<Pos>)
    requires Fits(b)
    ensures choice.None? <==> ValidMoves(b, s) == []
    ensures choice.Some? ==> choice.value in ValidMoves(b, s)
    ensures choice.Some? ==> IsMove(b, s, choice.value) && forall m :: IsMove(b, s, m) ==>
              RootScore(b, s, depth, m) <= RootScore(b, s, depth, choice.value)
    ensures choice.Some? ==> IsMove(b, s, choice.value) && forall m :: IsMove(b, s, m) && m != choice.value ==>
              (RootScore(b, s, depth, m) == RootScore(b, s, depth, choice.value) ==>
               Precedes((Key(b, s, choice.value), choice.value), (Key(b, s, m), m)))
  {
    var moves := GetValidMoves(b, s);
    if moves == [] {
      return None;
    }
    ValidMovesSpec(b, s);
    var keyed := ScoreMoves(b, s, moves);
    var order := SortDescending(keyed);
    SortedMoves(b, s, moves, keyed);
    var best := ChooseBest(b, s, depth, order);
    ghost var k :| Best(RootScores(b, s, depth, order), |order|, k) && best == order[k].1;
    choice := Some(best);
    PlaceChoice(b, s, depth, moves, order, RootScores(b, s, depth, order), k);
  }

  /** Searches the sorted moves in turn and keeps the first one whose root score is strictly
      larger than every score before it, starting from minus infinity. */
  method ChooseBest(b: Grid, s: Stone, depth: nat, order: seq<Keyed>) returns (best: Pos)
    requires Fits(b) && |order| > 0 && forall e :: e in order ==> InBounds(b, e.1.0, e.1.1)
    ensures exists k :: Best(RootScores(b, s, depth, order), |order|, k) && best == order[k].1
  {
    ghost var scores := RootScores(b, s, depth, order);
    var choice: Option<Pos> := None;
    var bestScore := NegInf;
    ghost var k := 0;
    for i := 0 to |order|
      invariant i == 0 ==> choice.None? && bestScore == NegInf
      invariant i > 0 ==> Best(scores, i, k) && choice == Some(order[k].1) && bestScore == Fin(scores[k])
    {
      var m := order[i].1;
      var score := SearchRoot(b, s, depth, m);
      RootScoresAt(b, s, depth, order, i);
      BestStep(scores, i, k);
      if Lt(bestScore, Fin(score)) {
        bestScore := Fin(score);
        choice := Some(m);
        k := i;
      }
    }
    best := choice.value;
  }

  /** The root score of every sorted move, in order. */
  function RootScores(b: Grid, s: Stone, depth: nat, order: seq<Keyed>): (r: seq<int>)
    requires Fits(b) && forall e :: e in order ==> InBounds(b, e.1.0, e.1.1)
    ensures |r| == |order|
  {
    if order == [] then []
    else
      assert order[0] in order;
      [RootScore(b, s, depth, order[0].1)] + RootScores(b, s, depth, order[1..])
  }

  lemma {:induction false} RootScoresAt(b: Grid, s: Stone, depth: nat, order: seq<Keyed>, j: int)
    requires Fits(b) && forall e :: e in order ==> InBounds(b, e.1.0, e.1.1)
    requires 0 <= j < |order|
    ensures order[j] in order && RootScores(b, s, depth, order)[j] == RootScore(b, s, depth, order[j].1)
  {
    if j > 0 {
      assert order[1..][j - 1] == order[j];
      RootScoresAt(b, s, depth, order[1..], j - 1);
    }
  }

  /** Among the first `i` scores, the one at `k` is the largest, and every score before it is
      strictly smaller. */
  predicate Best(scores: seq<int>, i: int, k: int) {
    0 <= k < i <= |scores| &&
    (forall j :: 0 <= j < i ==> scores[j] <= scores[k]) &&
    (forall j :: 0 <= j < k ==> scores[j] < scores[k])
  }

  /** One turn of the loop in `Place`: the first move is kept, a later one replaces the best so
      far exactly when its score is strictly larger. */
  lemma BestStep(scores: seq<int>, i: int, k: int)
    requires 0 <= i < |scores| && (i > 0 ==> Best(scores, i, k))
    ensures i == 0 ==> Best(scores, 1, 0)
    ensures i > 0 && scores[i] > scores[k] ==> Best(scores, i + 1, i)
    ensures i > 0 && scores[i] <= scores[k] ==> Best(scores, i + 1, k)
  {
  }

  /** The move kept after the whole sorted list is a legal move with a maximal root score, and
      among the legal moves that tie with it, it comes first in the sorted order. */
  lemma PlaceChoice(b: Grid, s: Stone, depth: nat, moves: seq<Pos>, order: seq<Keyed>, scores: seq<int>, k: int)
    requires Fits(b) && moves == ValidMoves(b, s)
    requires forall p :: p in moves <==> InBounds(b, p.0, p.1) && Legal(b, s, p.0, p.1)
    requires Ordered(order)
    requires forall e :: e in order ==> e.1 in moves && e.0 == Key(b, s, e.1)
    requires forall m :: m in moves ==> (Key(b, s, m), m) in order
    requires forall e :: e in order ==> InBounds(b, e.1.0, e.1.1)
    requires scores == RootScores(b, s, depth, order)
    requires Best(scores, |order|, k)
    ensures order[k].1 in ValidMoves(b, s) && IsMove(b, s, order[k].1)
    ensures forall m :: IsMove(b, s, m) ==> RootScore(b, s, depth, m) <= RootScore(b, s, depth, order[k].1)
    ensures forall m :: IsMove(b, s, m) && m != order[k].1 ==>
              (RootScore(b, s, depth, m) == RootScore(b, s, depth, order[k].1) ==>
               Precedes((Key(b, s, order[k].1), order[k].1), (Key(b, s, m), m)))
  {
    RootScoresAt(b, s, depth, order, k);
    forall m | IsMove(b, s, m)
      ensures RootScore(b, s, depth, m) <= RootScore(b, s, depth, order[k].1)
      ensures m != order[k].1 ==>
              (RootScore(b, s, depth, m) == RootScore(b, s, depth, order[k].1) ==>
               Precedes((Key(b, s, order[k].1), order[k].1), (Key(b, s, m), m)))
    {
      assert m in moves;
      var j :| 0 <= j < |order| && order[j] == (Key(b, s, m), m);
      RootScoresAt(b, s, depth, order, j);
      RootScoresAt(b, s, depth, order, k);
      if m != order[k].1 && scores[j] == scores[k] {
        assert k < j;
      }
    }
  }
}
