# SwiftChessEngine core in Dafny

This project models the search core of SwiftChessEngine:

- **The heuristic position evaluator** (`Game.currentPositionValuation` and its helpers):
  - White material minus Black material, kings excluded.
  - Plus side-relative extras, with their sign flipped when Black is to move. The extras are:
    - a check bonus or penalty;
    - a piece-count differential;
    - attacking pressure;
    - castling points;
    - a penalty for lost castling rights.
- **The recursive minimax search with alpha-beta pruning** (`Game.deepEvaluation`):
  - White maximises and Black minimises.
  - It advances and rewinds the shared game in place with `execute` and `undoMove`.
  - It returns a `PositionAnalysis`: an optional best move, a valuation, and `movesAnalized`, the number of leaf evaluations.

The rules engine (the Sage library) is not part of this model. Its queries are treated as uninterpreted oracles:
- `kingIsChecked`, `pieceCount`, `squares` and `attackers` are fields of function type of `Chess.Board`.
- The legal moves, the outcome, the position and whether `execute` accepts a move are fields of `AlphaBeta.Rules`.
- `Rules` is indexed by the move history played from the game's fixed starting position. A Sage game is determined by that history.

Valuations are `Valuations.Valuation`: an integer, or one of the sentinels `NegInf` and `PosInf`, ordered as IEEE doubles order them. Every weight of the source is scaled by 10000:

| weight in the source | scaled |
|---|---|
| 1 | 10000 |
| 0.3 | 3000 |
| 0.1 | 1000 |
| 0.001 | 10 |
| 0.0005 | 5 |
| 2 | 20000 |

Piece values arrive from the rules engine already scaled.

## Layout

| file | contents |
|---|---|
| `Wrappers.dfy` | Option and Result. |
| `Valuations.dfy` | Extended-integer valuations and their order. |
| `Chess.dfy` | The rules engine's data as the engine reads it: colours, pieces, moves, castling rights, board, position and outcome. |
| `Evaluator.dfy` | Material, the attacker tally, castling rights, the history split by side, and the evaluator. The evaluator is a method that builds `extras` step by step, proved equal to the closed form `PositionScore`. |
| `AlphaBeta.dfy` | The search as values (`Search`, with the move loop `Scan`), the unpruned references `Minimax` and `Leaves`, and the lemmas relating them. |
| `Engine.dfy` | The class `Game`, whose `playedMoves` the search changes in place, and the session class `ChessEngine`. `Game` has `Execute`, `UndoMove` and the imperative `DeepEvaluationWithin`, which is proved to return what `Search` computes. Each child's execute, search and undo is the method `TryMove`. |

## Quirks of the source the model reproduces

- **Draws score 0.** A node without legal moves and without a winner is worth exactly 0 (`ChessEngine.swift:135-136`). The evaluator is not consulted (`AlphaBeta.TerminalAnalysis`).
- **Null best move.** A node with legal moves can return no move. For White this happens when every child returns -inf; for Black, when every child returns +inf. The reason is that only a strictly better child replaces the best move (`ChessEngine.swift:158,168`). See `AlphaBeta.NullMoveIffLosingSentinel` and `AlphaBeta.FullWindowPicksFirstBest`.
- **State not restored on error.** When `execute` throws inside the recursion, the moves already executed on the way down are not undone (`ChessEngine.swift:150-153`). `Engine.Game.DeepEvaluationWithin` states this: on failure, the history is the old history plus the stranded moves.

## Model

| member | source | states |
|---|---|---|
| `Evaluator.Material` | SwiftChessEngine/ChessEngine/ChessEngine.swift:12-15 | The sum of the pieces' relative values, kings excluded. A list of kings only is worth 0, and a list without negative values is worth at least 0. |
| `Evaluator.MaterialAppend` | SwiftChessEngine/ChessEngine/ChessEngine.swift:12-15 | Material is additive over any split of the piece list. |
| `Evaluator.MaterialOfOneMore` | SwiftChessEngine/ChessEngine/ChessEngine.swift:12-15 | Adding a king leaves material unchanged. Adding any other piece adds exactly its relative value. |
| `Evaluator.AllAttackers` | SwiftChessEngine/ChessEngine/ChessEngine.swift:19-29 | The loop's total is the sum, over the squares of the other colour's pieces, of the attacking colour's attacker counts. |
| `Evaluator.AttackerTallyZero` | SwiftChessEngine/ChessEngine/ChessEngine.swift:19-29 | The tally is zero if and only if no target square has an attacker. |
| `Evaluator.RightsFor` | SwiftChessEngine/ChessEngine/ChessEngine.swift:33-38 | The rights of a colour are both of its flanks and nothing of the other colour. |
| `Evaluator.CanCastle` | SwiftChessEngine/ChessEngine/ChessEngine.swift:40-42 | True if and only if the rights contain that colour's kingside or queenside right. |
| `Evaluator.PlayedMoves` | SwiftChessEngine/ChessEngine/ChessEngine.swift:106-111 | The moves at the side's own offsets (even for White, odd for Black), in order. The list is no longer than the history and holds only moves of it. |
| `Evaluator.PlayedMovesAt` | SwiftChessEngine/ChessEngine/ChessEngine.swift:96-111 | A side's k-th move is history entry 2k (White) or 2k+1 (Black). The list's length is the number of such entries. |
| `Evaluator.PlayedMovesPartition` | SwiftChessEngine/ChessEngine/ChessEngine.swift:106-112 | The two sides' lists partition the history in order. Entry i is move i/2 of White when i is even, and of Black otherwise. |
| `Evaluator.CurrentPositionValuation` | SwiftChessEngine/ChessEngine/ChessEngine.swift:46-93 | Building `extras` step by step yields White material minus Black material, kings excluded, plus the extras times +1 (White to move) or -1 (Black to move). |
| `Evaluator.PositionScore` | SwiftChessEngine/ChessEngine/ChessEngine.swift:46-93 | The evaluation in closed form: White material minus Black material, plus the side-relative extras times +1 or -1. With no extras it is the material balance. |
| `Evaluator.CheckTermCases` | SwiftChessEngine/ChessEngine/ChessEngine.swift:52-57 | The check term is +1 exactly when the opponent is in check, and -0.3 exactly when only the mover is. Both never apply at once. |
| `Evaluator.ExtraPieceScoresBetter` | SwiftChessEngine/ChessEngine/ChessEngine.swift:46-93 | With everything else equal, one more non-king piece of positive value raises the score when White owns it and lowers it when Black does. |
| `Evaluator.DeliveringCheckScoresBetter` | SwiftChessEngine/ChessEngine/ChessEngine.swift:52-92 | With everything else equal, delivering check never scores worse for the mover than any other check situation, and strictly better than not delivering it. |
| `AlphaBeta.Search` | SwiftChessEngine/ChessEngine/ChessEngine.swift:119-181 | A completed search counts at least one leaf. A returned move is one of the node's legal moves. An aborted search strands fewer moves than its depth. |
| `AlphaBeta.Scan` | SwiftChessEngine/ChessEngine/ChessEngine.swift:142-178 | When a move remains, the count returned exceeds the starting count. The move returned is the one the loop started with or one of the moves it loops over. An aborted loop strands fewer moves than its depth. |
| `AlphaBeta.ScanStep` | SwiftChessEngine/ChessEngine/ChessEngine.swift:149-177 | One iteration narrows the window only on a strictly better child, and stops the loop once alpha >= beta. |
| `AlphaBeta.LeafAnalysis` | SwiftChessEngine/ChessEngine/ChessEngine.swift:122-124 | At depth 0 the search returns no move, the evaluator's value, and a count of 1. |
| `AlphaBeta.TerminalAnalysis` | SwiftChessEngine/ChessEngine/ChessEngine.swift:126-140 | Without legal moves the search returns no move and a count of 1. The valuation is +inf exactly when White won, -inf exactly when Black won, and 0 for any other outcome. |
| `AlphaBeta.SearchWindow` | SwiftChessEngine/ChessEngine/ChessEngine.swift:119-181 | With window (alpha, beta), the valuation equals the minimax value inside the window. It is at most alpha when the minimax value is, and at least beta when the minimax value is. |
| `AlphaBeta.ScanWindowWhite` | SwiftChessEngine/ChessEngine/ChessEngine.swift:157-166 | The maximising loop's part of the window property over the remaining moves. |
| `AlphaBeta.ScanWindowBlack` | SwiftChessEngine/ChessEngine/ChessEngine.swift:167-177 | The minimising loop's part of the window property over the remaining moves. |
| `AlphaBeta.MaxStepWindow` | SwiftChessEngine/ChessEngine/ChessEngine.swift:157-165 | One maximising step preserves the window property. |
| `AlphaBeta.MinStepWindow` | SwiftChessEngine/ChessEngine/ChessEngine.swift:167-176 | One minimising step preserves the window property. |
| `AlphaBeta.AlphaBetaMatchesMinimax` | SwiftChessEngine/ChessEngine/ChessEngine.swift:115-116 | From the initial window (-inf, +inf), the pruned search returns exactly the unpruned minimax valuation. |
| `AlphaBeta.ScanFirstBestWhite` | SwiftChessEngine/ChessEngine/ChessEngine.swift:157-166 | With beta = +inf, the maximising loop ends with the first move whose child reaches the largest value, if that value beats alpha. |
| `AlphaBeta.ScanFirstBestBlack` | SwiftChessEngine/ChessEngine/ChessEngine.swift:167-177 | With alpha = -inf, the minimising loop ends with the first move whose child reaches the smallest value, if that value beats beta. |
| `AlphaBeta.FirstBestStepMax` | SwiftChessEngine/ChessEngine/ChessEngine.swift:158-162 | One maximising step of the strict-improvement rule: a later value equal to an earlier one never replaces it. |
| `AlphaBeta.FirstBestStepMin` | SwiftChessEngine/ChessEngine/ChessEngine.swift:168-172 | One minimising step of the same rule. |
| `AlphaBeta.FullWindowPicksFirstBest` | SwiftChessEngine/ChessEngine/ChessEngine.swift:142-178 | From the full window, the returned move is the first legal move whose child has the node's minimax value, so earlier moves win ties. There is no move when that value is the mover's losing sentinel. |
| `AlphaBeta.ScanNullMove` | SwiftChessEngine/ChessEngine/ChessEngine.swift:142-178 | The loop holds no move exactly while its best valuation is still the mover's losing sentinel. |
| `AlphaBeta.NullMoveIffLosingSentinel` | SwiftChessEngine/ChessEngine/ChessEngine.swift:142-180 | A node with legal moves returns no move if and only if its valuation is -inf (White to move) or +inf (Black to move). |
| `AlphaBeta.SearchCountWithinLeaves` | SwiftChessEngine/ChessEngine/ChessEngine.swift:144-155 | The count is at least 1 and at most the number of leaves unpruned minimax evaluates. |
| `AlphaBeta.ScanCountWithinLeaves` | SwiftChessEngine/ChessEngine/ChessEngine.swift:149-178 | The loop's final count is at most the starting count plus the leaves plain minimax evaluates below the remaining moves. |
| `AlphaBeta.VisitedStep` | SwiftChessEngine/ChessEngine/ChessEngine.swift:149-177 | The children the loop searches are, in order, the child of the current move, then those of the following moves unless the current move causes the cutoff. |
| `AlphaBeta.VisitedCountAtLeast` | SwiftChessEngine/ChessEngine/ChessEngine.swift:144-155 | The searched children's counts sum to at least one per child. |
| `AlphaBeta.ScanCountIsSum` | SwiftChessEngine/ChessEngine/ChessEngine.swift:144-178 | The loop's final count is the starting count plus exactly the counts of the children it searched, up to and including the cutoff move. |
| `AlphaBeta.SearchCountIsSum` | SwiftChessEngine/ChessEngine/ChessEngine.swift:144-180 | A node with legal moves searches at least one and at most all of them. Its count is exactly the sum of the searched children's counts, so at least one leaf per searched move. |
| `AlphaBeta.ScanDepthOne` | SwiftChessEngine/ChessEngine/ChessEngine.swift:149-178 | At depth 1 no cutoff happens from the loop's starting bounds, and each move adds exactly one leaf. |
| `AlphaBeta.DepthOneVisitsEveryMove` | SwiftChessEngine/ChessEngine/ChessEngine.swift:115-181 | A one-ply search from the full window analyses each legal move exactly once, so the count equals the number of legal moves. |
| `AlphaBeta.SearchSucceeds` | SwiftChessEngine/ChessEngine/ChessEngine.swift:149-153 | When `execute` accepts every move the rules engine enumerates, the search is never aborted. |
| `AlphaBeta.ScanSucceeds` | SwiftChessEngine/ChessEngine/ChessEngine.swift:149-178 | The loop over the legal moves is never aborted under the same condition. |
| `Engine.Game.Execute` | SwiftChessEngine/ChessEngine/ChessEngine.swift:150 | Plays the move when the rules engine accepts it. Otherwise it throws without changing the game. |
| `Engine.Game.UndoMove` | SwiftChessEngine/ChessEngine/ChessEngine.swift:153 | Takes back exactly the last move played, and does nothing on an empty history. |
| `Engine.Game.DeepEvaluation` | SwiftChessEngine/ChessEngine/ChessEngine.swift:115-117 | Searches from the window (-inf, +inf). |
| `Engine.Game.TryMove` | SwiftChessEngine/ChessEngine/ChessEngine.swift:149-153 | One child of the loop. A refused move leaves the history unchanged. A completed child search returns the child's analysis, with the move undone. An aborted child search leaves the move played, followed by whatever the search below left played. |
| `Engine.Game.DeepEvaluationWithin` | SwiftChessEngine/ChessEngine/ChessEngine.swift:119-181 | The imperative loop returns what `Search` computes. On a normal return the history is exactly as before the call. When `execute` throws, the history keeps the moves executed on the way down. |
| `Engine.ChessEngine.constructor` | SwiftChessEngine/ChessEngine/ChessEngine.swift:193-197 | The session owns a fresh game at its starting position. |
| `Engine.ChessEngine.BestMove` | SwiftChessEngine/ChessEngine/ChessEngine.swift:199-201 | Delegates to the full-window search on the session's game, with the same result and the same effect on the history. |

## Left out

- `ChessEngine.benchmark` and `Array.random` (`ChessEngine.swift:203-230`): they depend on wall-clock time and on `arc4random_uniform`.
- `ViewController.swift`: UIKit rendering, button actions and the hand-off between the worker queue and the main queue.
- The Sage library: board representation, move generation, check detection, attacker lookup, outcome detection, and the starting position of `Game(mode:variant:)`. These appear only as oracles.
  - `Move.isCastle` is a field of the move rather than Sage's computation.
  - A piece's relative value is supplied by the rules engine.
- IEEE `Double` arithmetic: valuations are exact scaled integers plus two sentinels, so rounding of the fractional weights is not modelled.
- Swift's 64-bit `Int`: `movesAnalized`, piece counts and attacker counts are unbounded integers, so overflow is not modelled.
- `AlphaBeta.Scan`: its own ensures gives only that the count grows when a move remains. The exact count (the children's counts, at least one leaf per searched move) is stated by `AlphaBeta.ScanCountIsSum` and `AlphaBeta.SearchCountIsSum`.
- The opening scenario, where a one-ply search from the standard starting position visits 20 moves, needs Sage's move generation. `AlphaBeta.DepthOneVisitsEveryMove` proves the general fact that a one-ply count equals the number of legal moves.
