/** The search: negamax with an alpha-beta window, as the agent runs it, and the plain
    negamax it must agree with. */
module Search {
  import opened Board
  import opened Moves
  import opened Transition
  import opened Evaluation

  /** Scores extended with the two infinities that open a search window. */
  datatype Ext = NegInf | Fin(v: int) | PosInf

  function Neg(e: Ext): Ext {
    match e
    case NegInf => PosInf
    case Fin(v) => Fin(-v)
    case PosInf => NegInf
  }

  predicate Le(a: Ext, b: Ext) {
    a.NegInf? || b.PosInf? || (a.Fin? && b.Fin? && a.v <= b.v)
  }

  predicate Lt(a: Ext, b: Ext) {
    !Le(b, a)
  }

  /** The larger of two values, as `max` picks it. */
  function Max(a: Ext, b: Ext): (r: Ext)
    ensures Le(a, r) && Le(b, r) && (r == a || r == b)
  {
    if Le(b, a) then a else b
  }

  function Min(a: Ext, b: Ext): (r: Ext)
    ensures Le(r, a) && Le(r, b) && (r == a || r == b)
  {
    if Le(a, b) then a else b
  }

  /** `e` pushed into the window [lo, hi]. */
  function Clamp(e: Ext, lo: Ext, hi: Ext): (r: Ext)
    requires Le(lo, hi)
    ensures Le(lo, r) && Le(r, hi)
    ensures Le(lo, e) && Le(e, hi) ==> r == e
  {
    Min(Max(lo, e), hi)
  }

  /** Negation reverses the order, so it maps the window [lo, hi] onto [-hi, -lo]. */
  lemma NegClamp(e: Ext, lo: Ext, hi: Ext)
    requires Le(lo, hi)
    ensures Le(Neg(hi), Neg(lo))
    ensures Neg(Clamp(e, lo, hi)) == Clamp(Neg(e), Neg(hi), Neg(lo))
  {
  }

  lemma NegLt(a: Ext, b: Ext)
    requires Lt(a, b)
    ensures Lt(Neg(b), Neg(a))
  {
  }

  /** Two values that clamp alike into [-beta, -a] have negations that clamp alike into [a, beta]. */
  lemma NegatedClamp(pruned: int, plain: int, a: Ext, beta: Ext)
    requires Lt(a, beta)
    requires Le(Neg(beta), Neg(a))
    requires Clamp(Fin(pruned), Neg(beta), Neg(a)) == Clamp(Fin(plain), Neg(beta), Neg(a))
    ensures Le(a, beta)
    ensures Clamp(Fin(-pruned), a, beta) == Clamp(Fin(-plain), a, beta)
  {
    NegClamp(Fin(pruned), Neg(beta), Neg(a));
    NegClamp(Fin(plain), Neg(beta), Neg(a));
  }

  /** The value the search returns, with the window (alpha, beta): the static value at depth 0 or
      when the side to move has no move, otherwise the value `SearchMoves` gives to the moves in
      the order they were generated. */
  function AlphaBeta(b: Grid, s: Stone, depth: nat, alpha: Ext, beta: Ext): int
    requires Fits(b)
    decreases depth, 1
  {
    var moves := ValidMoves(b, s);
    if depth == 0 || |moves| == 0 then Score(b, s)
    else
      ValidMovesSpec(b, s);
      SearchMoves(b, s, depth, moves, NegInf, alpha, beta).v
  }

  /** The value of the child reached by `m`, from the parent's side, searched with the window
      (-beta, -alpha). */
  function PrunedChild(b: Grid, s: Stone, depth: nat, m: Pos, alpha: Ext, beta: Ext): int
    requires Fits(b) && InBounds(b, m.0, m.1) && depth > 0
    decreases depth, 0, 0
  {
    AfterMoveFits(b, s, m.0, m.1);
    -AlphaBeta(AfterMove(b, s, m.0, m.1), Opponent(s), depth - 1, Neg(beta), Neg(alpha))
  }

  /** The loop over the moves: each child is searched with the window (-beta, -alpha), its
      negated value raises the best value and alpha, and the loop stops once alpha reaches beta. */
  function SearchMoves(b: Grid, s: Stone, depth: nat, moves: seq<Pos>, maxEval: Ext, alpha: Ext, beta: Ext): (r: Ext)
    requires Fits(b) && depth > 0
    requires forall k :: 0 <= k < |moves| ==> InBounds(b, moves[k].0, moves[k].1)
    ensures maxEval.Fin? || (maxEval.NegInf? && |moves| > 0) ==> r.Fin?
    decreases depth, 0, |moves|
  {
    if |moves| == 0 then maxEval
    else
      var e := Fin(PrunedChild(b, s, depth, moves[0], alpha, beta));
      var best, a := Max(maxEval, e), Max(alpha, e);
      if Le(beta, a) then best
      else SearchMoves(b, s, depth, moves[1..], best, a, beta)
  }

  /** Plain negamax: the static value at the leaves, otherwise the best negated child value. */
  function Minimax(b: Grid, s: Stone, depth: nat): int
    requires Fits(b)
    decreases depth, 1
  {
    var moves := ValidMoves(b, s);
    if depth == 0 || |moves| == 0 then Score(b, s)
    else
      ValidMovesSpec(b, s);
      BestChild(b, s, depth, moves)
  }

  /** The plain value of the child reached by `m`, from the parent's side. */
  function ChildValue(b: Grid, s: Stone, depth: nat, m: Pos): int
    requires Fits(b) && InBounds(b, m.0, m.1) && depth > 0
    decreases depth, 0, 0
  {
    AfterMoveFits(b, s, m.0, m.1);
    -Minimax(AfterMove(b, s, m.0, m.1), Opponent(s), depth - 1)
  }

  /** The largest child value over a non-empty list of moves. */
  function BestChild(b: Grid, s: Stone, depth: nat, moves: seq<Pos>): int
    requires Fits(b) && depth > 0 && |moves| > 0
    requires forall k :: 0 <= k < |moves| ==> InBounds(b, moves[k].0, moves[k].1)
    decreases depth, 0, |moves|
  {
    var e := ChildValue(b, s, depth, moves[0]);
    if |moves| == 1 then e
    else
      var rest := BestChild(b, s, depth, moves[1..]);
      if rest > e then rest else e
  }

  /** `BestChild` is the maximum of the child values: it is one of them and bounds them all. */
  lemma {:induction false} BestChildIsMaximum(b: Grid, s: Stone, depth: nat, moves: seq<Pos>)
    requires Fits(b) && depth > 0 && |moves| > 0
    requires forall k :: 0 <= k < |moves| ==> InBounds(b, moves[k].0, moves[k].1)
    ensures forall k :: 0 <= k < |moves| ==> ChildValue(b, s, depth, moves[k]) <= BestChild(b, s, depth, moves)
    ensures exists k :: 0 <= k < |moves| && ChildValue(b, s, depth, moves[k]) == BestChild(b, s, depth, moves)
    decreases |moves|
  {
    if |moves| > 1 {
      BestChildIsMaximum(b, s, depth, moves[1..]);
      forall k | 1 <= k < |moves|
        ensures ChildValue(b, s, depth, moves[k]) <= BestChild(b, s, depth, moves)
      {
        assert moves[k] == moves[1..][k - 1];
      }
      var k :| 0 <= k < |moves[1..]| && ChildValue(b, s, depth, moves[1..][k]) == BestChild(b, s, depth, moves[1..]);
      assert moves[1..][k] == moves[k + 1];
    }
  }

  /** The alpha-beta invariant: inside a non-empty window the pruned value and the plain value
      clamp to the same point. */
  lemma {:induction false} AlphaBetaClamp(b: Grid, s: Stone, depth: nat, alpha: Ext, beta: Ext)
    requires Fits(b) && Lt(alpha, beta)
    ensures Clamp(Fin(AlphaBeta(b, s, depth, alpha, beta)), alpha, beta) ==
            Clamp(Fin(Minimax(b, s, depth)), alpha, beta)
    decreases depth, 1
  {
    var moves := ValidMoves(b, s);
    if depth > 0 && |moves| > 0 {
      ValidMovesSpec(b, s);
      SearchMovesClamp(b, s, depth, moves, NegInf, alpha, alpha, beta);
    }
  }

  /** One step of the loop when the child's value `e` reaches beta: the loop returns the best
      value so far raised by `e`, and so does any combination that contains the plain child
      value `ec`, once both are clamped (both clamp to beta). */
  lemma WindowCut(alpha: Ext, beta: Ext, maxEval: Ext, e: Ext, ec: Ext, rest: Ext)
    requires Lt(Max(alpha, maxEval), beta) && Le(beta, Max(Max(alpha, maxEval), e))
    requires Clamp(e, Max(alpha, maxEval), beta) == Clamp(ec, Max(alpha, maxEval), beta)
    ensures Le(alpha, beta)
    ensures Clamp(Max(maxEval, e), alpha, beta) == Clamp(Max(maxEval, Max(ec, rest)), alpha, beta)
  {
  }

  /** One step of the loop when the child's value `e` stays below beta: the raised alpha is
      still the larger of the original alpha and the raised best value, and replacing `e` by the
      plain child value `ec` does not change the clamped outcome. */
  lemma WindowContinue(alpha: Ext, beta: Ext, maxEval: Ext, e: Ext, ec: Ext, rest: Ext)
    requires Lt(Max(alpha, maxEval), beta) && Lt(Max(Max(alpha, maxEval), e), beta)
    requires Clamp(e, Max(alpha, maxEval), beta) == Clamp(ec, Max(alpha, maxEval), beta)
    ensures Le(alpha, beta)
    ensures Max(Max(alpha, maxEval), e) == Max(alpha, Max(maxEval, e))
    ensures Clamp(Max(Max(maxEval, e), rest), alpha, beta) == Clamp(Max(maxEval, Max(ec, rest)), alpha, beta)
  {
  }

  /** The invariant for one child: searched with the window (-beta, -a) and negated, its value
      clamps into [a, beta] like its plain value. */
  lemma {:induction false} ChildClamp(b: Grid, s: Stone, depth: nat, m: Pos, a: Ext, beta: Ext)
    requires Fits(b) && InBounds(b, m.0, m.1) && depth > 0 && Lt(a, beta)
    ensures Le(a, beta)
    ensures Clamp(Fin(PrunedChild(b, s, depth, m, a, beta)), a, beta) ==
            Clamp(Fin(ChildValue(b, s, depth, m)), a, beta)
    decreases depth, 0, 0
  {
    AfterMoveFits(b, s, m.0, m.1);
    ReplyClamp(AfterMove(b, s, m.0, m.1), Opponent(s), depth - 1, a, beta);
  }

  /** The reply searched with the negated window, negated back, clamps into `(a, beta)` like
      the negated plain value of the reply. */
  lemma ReplyClamp(c: Grid, t: Stone, depth: nat, a: Ext, beta: Ext)
    requires Fits(c) && Lt(a, beta)
    ensures Le(a, beta)
    ensures Clamp(Fin(-AlphaBeta(c, t, depth, Neg(beta), Neg(a))), a, beta) ==
            Clamp(Fin(-Minimax(c, t, depth)), a, beta)
    decreases depth, 2
  {
    NegLt(a, beta);
    AlphaBetaClamp(c, t, depth, Neg(beta), Neg(a));
    NegatedClamp(AlphaBeta(c, t, depth, Neg(beta), Neg(a)), Minimax(c, t, depth), a, beta);
  }

  /** The loop form of the invariant: with `a` the larger of the original alpha and the best
      value so far, and `a` still below beta, the rest of the loop clamps like the best value so
      far combined with the plain values of the remaining children. */
  lemma {:induction false} SearchMovesClamp(b: Grid, s: Stone, depth: nat, moves: seq<Pos>, maxEval: Ext, a: Ext, alpha: Ext, beta: Ext)
    requires Fits(b) && depth > 0 && |moves| > 0
    requires forall k :: 0 <= k < |moves| ==> InBounds(b, moves[k].0, moves[k].1)
    requires a == Max(alpha, maxEval) && Lt(a, beta)
    ensures Le(alpha, beta)
    ensures Clamp(SearchMoves(b, s, depth, moves, maxEval, a, beta), alpha, beta) ==
            Clamp(Max(maxEval, Fin(BestChild(b, s, depth, moves))), alpha, beta)
    decreases depth, 0, |moves|
  {
    ChildClamp(b, s, depth, moves[0], a, beta);
    var e := Fin(PrunedChild(b, s, depth, moves[0], a, beta));
    var ec := Fin(ChildValue(b, s, depth, moves[0]));
    var best, a' := Max(maxEval, e), Max(a, e);
    var rest := if |moves| == 1 then ec else Fin(BestChild(b, s, depth, moves[1..]));
    assert Fin(BestChild(b, s, depth, moves)) == Max(ec, rest);
    if Le(beta, a') {
      WindowCut(alpha, beta, maxEval, e, ec, rest);
    } else {
      WindowContinue(alpha, beta, maxEval, e, ec, rest);
      if |moves| > 1 {
        SearchMovesClamp(b, s, depth, moves[1..], best, a', alpha, beta);
      } else {
        WindowContinue(alpha, beta, maxEval, e, ec, NegInf);
      }
    }
  }

  /** With the full window (-inf, +inf) alpha-beta returns exactly the plain negamax value. */
  lemma FullWindowExact(b: Grid, s: Stone, depth: nat)
    requires Fits(b)
    ensures AlphaBeta(b, s, depth, NegInf, PosInf) == Minimax(b, s, depth)
  {
    AlphaBetaClamp(b, s, depth, NegInf, PosInf);
  }

  /** One turn of the loop over the moves: the search of the suffix from `i` either stops at
      move `i` or goes on with the suffix from `i + 1`. */
  lemma SearchMovesStep(b: Grid, s: Stone, depth: nat, moves: seq<Pos>, i: nat, maxEval: Ext, alpha: Ext, beta: Ext, e: Ext)
    requires Fits(b) && depth > 0 && i < |moves|
    requires forall p :: p in moves ==> InBounds(b, p.0, p.1)
    requires e == Fin(PrunedChild(b, s, depth, moves[i], alpha, beta))
    ensures Le(beta, Max(alpha, e)) ==>
              SearchMoves(b, s, depth, moves[i..], maxEval, alpha, beta) == Max(maxEval, e)
    ensures !Le(beta, Max(alpha, e)) ==>
              SearchMoves(b, s, depth, moves[i..], maxEval, alpha, beta) ==
              SearchMoves(b, s, depth, moves[i + 1..], Max(maxEval, e), Max(alpha, e), beta)
  {
    assert moves[i..][0] == moves[i] && moves[i..][1..] == moves[i + 1..];
  }

  /** The search as the agent runs it: generate the moves, return the static value at depth 0 or
      when there is none, otherwise search each child with the negated window, keep the best
      value and raise alpha, and stop as soon as alpha reaches beta. */
  method Negamax(b: Grid, s: Stone, depth: nat, alpha: Ext, beta: Ext) returns (r: int)
    requires Fits(b)
    ensures r == AlphaBeta(b, s, depth, alpha, beta)
    ensures depth == 0 || ValidMoves(b, s) == [] ==> r == Score(b, s)
    ensures Lt(alpha, beta) ==> Clamp(Fin(r), alpha, beta) == Clamp(Fin(Minimax(b, s, depth)), alpha, beta)
    ensures alpha == NegInf && beta == PosInf ==> r == Minimax(b, s, depth)
    decreases depth, 2
  {
    var moves := GetValidMoves(b, s);
    if depth == 0 || |moves| == 0 {
      r := EvaluateBoard(b, s);
      SearchAgrees(b, s, depth, alpha, beta);
      return;
    }
    ValidMovesSpec(b, s);
    r := SearchChildren(b, s, depth, moves, alpha, beta);
    SearchAgrees(b, s, depth, alpha, beta);
  }

  /** The loop over the moves: search each child with the window narrowed so far, keep the
      best value, raise alpha, and stop as soon as alpha reaches beta. */
  method SearchChildren(b: Grid, s: Stone, depth: nat, moves: seq<Pos>, alpha: Ext, beta: Ext) returns (r: int)
    requires Fits(b) && depth > 0 && |moves| > 0
    requires forall p :: p in moves ==> InBounds(b, p.0, p.1)
    ensures Fin(r) == SearchMoves(b, s, depth, moves, NegInf, alpha, beta)
    decreases depth, 1
  {
    ghost var whole := SearchMoves(b, s, depth, moves, NegInf, alpha, beta);
    var maxEval := NegInf;
    var a := alpha;
    var i := 0;
    while i < |moves|
      invariant 0 <= i <= |moves|
      invariant whole == SearchMoves(b, s, depth, moves[i..], maxEval, a, beta)
    {
      var e := SearchChild(b, s, depth, moves[i], a, beta);
      SearchMovesStep(b, s, depth, moves, i, maxEval, a, beta, e);
      maxEval := Max(maxEval, e);
      a := Max(a, e);
      if Le(beta, a) {
        break;
      }
      i := i + 1;
    }
    r := maxEval.v;
  }

  /** Plays move `m` and searches the reply with the negated window `(-beta, -a)`; the value of
      the move for `s` is the negated value of that search. */
  method SearchChild(b: Grid, s: Stone, depth: nat, m: Pos, a: Ext, beta: Ext) returns (e: Ext)
    requires Fits(b) && depth > 0 && InBounds(b, m.0, m.1)
    ensures e == Fin(PrunedChild(b, s, depth, m, a, beta))
    decreases depth, 0
  {
    var child := ApplyMove(b, s, m.0, m.1);
    AfterMoveFits(b, s, m.0, m.1);
    var childValue := Negamax(child, Opponent(s), depth - 1, Neg(beta), Neg(a));
    e := Fin(-childValue);
  }

  /** What the two ensures about `Minimax` need, gathered for `Negamax`. */
  lemma SearchAgrees(b: Grid, s: Stone, depth: nat, alpha: Ext, beta: Ext)
    requires Fits(b)
    ensures Lt(alpha, beta) ==>
              Clamp(Fin(AlphaBeta(b, s, depth, alpha, beta)), alpha, beta) == Clamp(Fin(Minimax(b, s, depth)), alpha, beta)
    ensures alpha == NegInf && beta == PosInf ==> AlphaBeta(b, s, depth, alpha, beta) == Minimax(b, s, depth)
  {
    if Lt(alpha, beta) {
      AlphaBetaClamp(b, s, depth, alpha, beta);
    }
    FullWindowExact(b, s, depth);
  }
}
