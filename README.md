# RingoAI move selection, modelled in Dafny

This project models the move-selection core of `RingoAI` in `ai.py`, an Othello/Reversi player.
Given a board and the colour to move, the core does the following:

- It enumerates the legal moves (`can_place_x_y`, `get_valid_moves`).
- It simulates a move by placing the stone and flipping every bracketed run (`apply_move`).
- It scores positions with a 6 x 6 weight table and a stone-count penalty (`evaluation_weights`,
  `evaluate_board`, `evaluate_move`).
- It searches with negamax and alpha-beta pruning (`negamax`).
- At the root (`place`), it sorts the moves by their one-ply value, searches each one with the
  full window, and returns the first move with the strictly best value. It returns `None` when
  there is no move.

Boards are values (`seq<seq<int>>`, indexed `b[y][x]`; a position is `(x, y)`). The source
copies the board before changing it (`[row[:] for row in board]`), so a value model loses
nothing. Every operation leaves its input board unchanged by construction, including `place`.
Each loop of the source is a Dafny method with loop invariants. Each method is proved against
a pure specification function, and the properties are lemmas about those functions:

| file | module | models |
|---|---|---|
| `board.dfy` | `Board` | cells, stones, the eight directions, walks along a ray (`Run`, `RunEnd`), captures, stone counts |
| `moves.dfy` | `Moves` | `can_place_x_y` (`Legal`, `CanPlace`), `get_valid_moves` (`ValidMoves`, `GetValidMoves`) |
| `transition.dfy` | `Transition` | `apply_move` (`AfterMove`, `ApplyMove`), its frame and counting properties, the 4 x 4 example |
| `evaluation.dfy` | `Evaluation` | `evaluation_weights`, `evaluate_board` (`Score`, `EvaluateBoard`), `evaluate_move` |
| `search.dfy` | `Search` | `negamax` (`AlphaBeta`, `Negamax`) and the unpruned negamax it is compared with (`Minimax`) |
| `agent.dfy` | `Agent` | `place` (`Place`), with the stable descending sort of its move ordering |

Some notes on how the source's constructs are modelled:

- The window values `-math.inf` and `math.inf` are modelled by the datatype
  `Ext = NegInf | Fin(v) | PosInf`.
- `max` is modelled by `Max`, which returns its first argument on a tie, as Python's `max`
  does; values are the same either way.
- The negamax loop is split into methods. `Negamax` generates the moves and handles the leaf
  case. `SearchChildren` runs the loop over the moves, with the early exit once alpha reaches
  beta. `SearchChild` plays one move and searches the reply.
- The loop of `place` is the method `ChooseBest`.

`place` passes `depth=6` to `negamax` itself (ai.py:34), so the reply is searched to depth 6
and the root looks 7 plies ahead. `Place` takes the depth as a parameter, and `RootScore`
searches the reply to that same depth, as the code does.

## Model

| member | source | states |
|---|---|---|
| Board.Run | ai.py:63-66 | the walk over opponent stones visits only on-board cells that hold the opponent colour |
| Board.WalkOutcome | ai.py:88-96 | where the `can_place_x_y` walk stops decides the direction: it brackets iff at least one opponent stone was passed and the stopping cell is on the board and holds the mover's stone |
| Board.Captures | ai.py:68-70 | a direction captures something iff it is bracketed, and every captured cell is an on-board opponent stone |
| Board.CapturesToward | ai.py:59-66 | the captures of one direction lie on that direction's ray, so they never include the target and never overlap another direction's captures |
| Board.CapturesAgree | ai.py:57-70 | two boards that agree along a ray capture the same cells in that direction, so flipping earlier directions on `new_board` does not change what later directions capture |
| Moves.Legal | ai.py:74-98 | definition: a cell is legal for `s` iff it is empty and some of the eight directions is bracketed (a non-empty run of opponent stones closed by an own stone) |
| Moves.CanPlace | ai.py:74-98 | the direction-by-direction walk with the `found_opponent` flag returns true exactly when the cell is empty and some direction is bracketed (`Legal`) |
| Moves.RowMovesSpec | ai.py:43-46 | the moves collected from row `y` up to column `n` are exactly the legal cells of that row left of `n` |
| Moves.MovesBeforeSpec | ai.py:43-46 | the moves collected from the first `m` rows are exactly their legal cells, in strictly increasing row-major order |
| Moves.ValidMovesSpec | ai.py:41-47 | the valid moves are exactly the in-bounds legal cells, in strictly increasing row-major order (`y` then `x`), so there are no duplicates |
| Moves.ValidMoves | ai.py:41-47 | definition: the legal cells collected row by row, left to right; `ValidMovesSpec` states its membership and order |
| Moves.GetValidMoves | ai.py:41-47 | the nested `y`/`x` loops return exactly `ValidMoves` |
| Transition.AfterMove | ai.py:49-72 | the resulting board has the same shape, holds the mover's stone on the target and on every flipped cell, and is unchanged elsewhere |
| Transition.CollectRun | ai.py:60-66 | the `while` walk collects exactly the run of opponent stones and stops at the run's end |
| Transition.FlipAll | ai.py:69-70 | setting the listed cells one by one gives the mover's stone on exactly those cells and leaves every other cell unchanged |
| Transition.CaptureDirection | ai.py:59-70 | processing one direction flips exactly that direction's captures, read on the current board, and leaves every other cell unchanged |
| Transition.StageStep | ai.py:57-70 | after direction `k` is processed, the board holds the flips of the first `k + 1` directions |
| Transition.StageComplete | ai.py:57-72 | after all eight directions, the board is `AfterMove` |
| Transition.ApplyMove | ai.py:49-72 | the in-place, direction-by-direction flipping returns exactly `AfterMove`: same shape, target set, flipped cells set, all other cells unchanged |
| Transition.FlippedAreOpponentStones | ai.py:63-70 | only opponent stones off the target are flipped |
| Transition.LegalFlipsSome | ai.py:63-70 | a legal move flips at least one opponent stone |
| Transition.LegalIffFlips | ai.py:74-98 | a move is legal iff its target is empty and playing it changes some cell other than the target |
| Transition.LegalMoveCounts | ai.py:63-70 | a legal move raises the mover's stone count by at least 2 and lowers the opponent's by at least 1 |
| Transition.CellKept | ai.py:63-70 | a cell other than the target that does not hold an opponent stone is unchanged by the move |
| Transition.TopRowExample | ai.py:49-98 | on the 4 x 4 board whose top row is `[1, 2, 2, 0]` and whose other rows are empty, black at (3, 0) is legal and the board becomes top row `[1, 1, 1, 1]` with the other rows unchanged |
| Evaluation.WeightsShape | ai.py:8-15 | the weight table is 6 x 6 |
| Evaluation.EvaluateBoard | ai.py:116-132 | the scan with three accumulators returns `Score`, which equals minus the opponent's score |
| Evaluation.Score | ai.py:116-132 | definition: the weights of own stones minus those of opponent stones, minus 5 times the stone difference; `ScoreAntisymmetric` and `ScoreBounded` state its properties |
| Evaluation.ScoreAntisymmetric | ai.py:116-132 | the evaluation is zero-sum: a board's score for one colour is minus its score for the other |
| Evaluation.ScoreBounded | ai.py:116-132 | every score lies in [-1408, 1408]: 1228 is the sum of the absolute weights, plus 5 points for each of the 36 cells |
| Evaluation.EvaluateMove | ai.py:134-137 | the one-ply value of a move is the mover's score of the board after that move |
| Search.AlphaBeta | ai.py:100-114 | definition of `negamax` as written, pruning included: the static score at depth 0 or with no move, otherwise the loop `SearchMoves` from minus infinity |
| Search.Minimax | ai.py:100-114 | the reference: negamax without pruning, the maximum of the negated child values; `BestChildIsMaximum` states this and `AlphaBetaClamp` relates it to `AlphaBeta` |
| Search.Max | ai.py:110-111 | `max` returns one of its arguments, and that argument is at least the other |
| Search.SearchMoves | ai.py:106-114 | starting from minus infinity with at least one move, the loop's value is finite, so `negamax` returns a number |
| Search.SearchMovesStep | ai.py:107-113 | one turn of the loop: it stops with the updated best value when the raised alpha reaches beta, and otherwise goes on with the remaining moves |
| Search.BestChildIsMaximum | ai.py:106-114 | the unpruned reference value is the maximum of the negated child values, and some child attains it |
| Search.AlphaBetaClamp | ai.py:100-114 | with alpha < beta, the pruned search and the unpruned negamax agree once both are clamped into [alpha, beta] |
| Search.ChildClamp | ai.py:108-109 | the negated child search with window (-beta, -alpha) clamps into [alpha, beta] like the negated unpruned child value |
| Search.SearchMovesClamp | ai.py:106-114 | the rest of the loop, with alpha raised by the best value so far, clamps like the best value so far combined with the unpruned values of the remaining children |
| Search.FullWindowExact | ai.py:100-114 | with the window (-inf, +inf), the pruned search equals the unpruned negamax exactly |
| Search.Negamax | ai.py:100-114 | the method returns `AlphaBeta`, and the static score at depth 0 or when there is no move; with alpha < beta it agrees with unpruned negamax after clamping; with the full window it equals unpruned negamax |
| Search.SearchChildren | ai.py:106-114 | the loop over the moves, with its early exit, returns the value `SearchMoves` gives from minus infinity |
| Search.SearchChild | ai.py:108-109 | playing one move and searching the reply with the negated window gives the negated child value |
| Agent.Key | ai.py:31 | definition of the sort key: `evaluate_move` (ai.py:134-137), the mover's score of the board after the move; `ScoreMoves` states that each move gets it |
| Agent.RootScore | ai.py:33-34 | definition of the root value: the negated unpruned negamax of the reply; `SearchRoot` states that the full-window search computes it |
| Agent.Insert | ai.py:31 | inserting into the sorted list adds exactly the one element (multiset) |
| Agent.SortDescending | ai.py:31 | the sort is a permutation of its input (multiset) |
| Agent.SortOrdered | ai.py:31 | sorting moves listed in strictly row-major order gives descending keys, with equal keys in their original row-major order, as Python's stable `sort(..., reverse=True)` leaves them |
| Agent.InsertOrdered | ai.py:31 | inserting a move that comes after every listed move in row-major order keeps the list in that order |
| Agent.HigherKeyFirst | ai.py:31 | of two moves, the higher one-ply score is sorted first whatever their generator order; equal scores keep their order |
| Agent.ScoreMoves | ai.py:31 | every move is paired with its `evaluate_move` key, in the generator's order |
| Agent.SortedMoves | ai.py:23-31 | the ordered list holds exactly the valid moves, each with its own key, in `Precedes` order |
| Agent.SearchRoot | ai.py:33-34 | the root value of a move is the negated full-window search of the reply, which equals the unpruned negamax of the reply |
| Agent.BestStep | ai.py:35-37 | one turn of the root loop: the first move is kept, and a later move replaces the best so far exactly when its value is strictly larger |
| Agent.ChooseBest | ai.py:27-37 | starting from minus infinity, the loop ends holding a move of maximal root value, and every move before it in the sorted order has a strictly smaller value |
| Agent.PlaceChoice | ai.py:21-39 | that move is a legal move with maximal root value over all legal moves, and it comes before every other legal move of equal value in the sorted order |
| Agent.Place | ai.py:21-39 | `place` returns `None` iff there is no valid move. Otherwise it returns a valid move with maximal root value. Among moves with that value, it returns the one with the larger one-ply score, or on equal one-ply scores the one earlier in row-major order. The board is unchanged |

## Left out

- `face` (ai.py:18-19) returns a display glyph and has no logic.
- The imports `copy` and `defaultdict` are unused by the core. `math` is used only for
  `math.inf`, which is modelled by `Ext`. No other floating-point arithmetic occurs.
- Board shape: the code takes the width from `len(board[0])` and indexes the 6 x 6 weight
  table directly. The code raises `IndexError` once a 1 or 2 lies outside the 6 x 6 table; the
  model excludes every board larger than 6 x 6 (`Fits`), including larger boards the code
  handles.
- Cells may hold any integer. Only 0, 1 and 2 have meaning, and only 1 and 2 may move (`Stone`).
- `can_place_x_y` and `apply_move` are modelled for on-board targets only, which is how the
  code calls them. Python's negative-index wrap-around for an off-board target is not modelled.
- Place: the code always searches with `depth=6`. The model takes the depth as a parameter.
- The game loop, turn management, rendering and I/O around the agent are not part of the core.
- Running time, copy cost and the speed-up from move ordering are not modelled; only values are.
