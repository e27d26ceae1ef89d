/**
  The engine proper: the game whose state the search advances and rewinds in
  place, the recursive alpha-beta search over it, and the engine session that
  owns one game.
*/
module Engine {
  import opened Wrappers
  import opened Valuations
  import opened Chess
  import opened Evaluator
  import opened AlphaBeta

  /** The error `execute` throws for a move it refuses. */
  datatype ExecutionError = IllegalMove(move: Move)

  /**
    A game: the moves played from the fixed starting position, which decide
    everything the rules engine reports about it.
  */
  class Game {
    const rules: Rules
    var playedMoves: seq<Move>

    constructor (rules: Rules)
      ensures this.rules == rules && playedMoves == []
    {
      this.rules := rules;
      playedMoves := [];
    }

    /** Plays `move`, or throws without changing anything when the rules engine refuses it. */
    method Execute(move: Move) returns (r: Result<(), ExecutionError>)
      modifies this
      ensures r.Ok? <==> rules.accepts(old(playedMoves), move)
      ensures r.Err? ==> r.error == IllegalMove(move)
      ensures playedMoves == if r.Ok? then old(playedMoves) + [move] else old(playedMoves)
    {
      if rules.accepts(playedMoves, move) {
        playedMoves := playedMoves + [move];
        r := Ok(());
      } else {
        r := Err(IllegalMove(move));
      }
    }

    /** Takes back the last move played, if any, and returns it. */
    method UndoMove() returns (undone: Option<Move>)
      modifies this
      ensures old(playedMoves) == [] ==> undone == None && playedMoves == []
      ensures old(playedMoves) != [] ==>
                undone == Some(old(playedMoves)[|old(playedMoves)| - 1])
                && playedMoves == old(playedMoves)[..|old(playedMoves)| - 1]
    {
      if playedMoves == [] {
        undone := None;
      } else {
        undone := Some(playedMoves[|playedMoves| - 1]);
        playedMoves := playedMoves[..|playedMoves| - 1];
      }
    }

    /** The search from the initial window (-inf, +inf). */
    method DeepEvaluation(depth: int) returns (r: Result<PositionAnalysis, ExecutionError>)
      modifies this
      ensures var s := Search(rules, old(playedMoves), depth, NegInf, PosInf);
              && (s.Done? ==> r == Ok(s.analysis) && playedMoves == old(playedMoves))
              && (s.Failed? ==> r == Err(IllegalMove(s.move)) && playedMoves == old(playedMoves) + s.stranded)
    {
      r := DeepEvaluationWithin(depth, NegInf, PosInf);
    }

    /**
      The recursive search with window (`alpha`, `beta`).  On a normal return
      every move executed has been undone; when `execute` throws, the moves
      executed on the way down to the refused one stay played.
    */
    method DeepEvaluationWithin(depth: int, alpha: Valuation, beta: Valuation)
      returns (r: Result<PositionAnalysis, ExecutionError>)
      modifies this
      ensures var s := Search(rules, old(playedMoves), depth, alpha, beta);
              && (s.Done? ==> r == Ok(s.analysis) && playedMoves == old(playedMoves))
              && (s.Failed? ==> r == Err(IllegalMove(s.move)) && playedMoves == old(playedMoves) + s.stranded)
      decreases depth, 1
    {
      var movingSide := rules.position(playedMoves).playerTurn;

      if depth <= 0 {
        var valuation := CurrentPositionValuation(rules.position(playedMoves), playedMoves);
        return Ok(PositionAnalysis(None, Finite(valuation), 1));
      }

      var availableMoves := rules.availableMoves(playedMoves);

      if availableMoves == [] {
        var valuation := match rules.outcome(playedMoves)
          case Win(color) => if color == White then PosInf else NegInf
          case _ => Finite(0);
        return Ok(PositionAnalysis(None, valuation, 1));
      }

      ghost var before := playedMoves;
      ghost var outcome := Search(rules, before, depth, alpha, beta);

      var bestMove: Option<Move> := None;
      var bestValuation := if movingSide == White then NegInf else PosInf;
      var movesAnalized := 0;

      var runningAlpha, runningBeta := alpha, beta;

      var i := 0;
      while i < |availableMoves|
        invariant 0 <= i <= |availableMoves|
        invariant playedMoves == before
        invariant Scan(rules, before, depth, availableMoves, i, runningAlpha, runningBeta,
                       bestValuation, bestMove, movesAnalized) == outcome
        decreases |availableMoves| - i
      {
        var move := availableMoves[i];
        var analysis := TryMove(depth, move, runningAlpha, runningBeta);
        if analysis.Err? {
          return analysis;
        }

        ghost var (alpha0, beta0, best0, bestMove0, count0) :=
          (runningAlpha, runningBeta, bestValuation, bestMove, movesAnalized);
        movesAnalized := movesAnalized + analysis.value.movesAnalized;

        if movingSide == White {
          if Less(runningAlpha, analysis.value.valuation) {
            runningAlpha := analysis.value.valuation;
            bestValuation := analysis.value.valuation;
            bestMove := Some(move);
          }
        } else {
          if Less(analysis.value.valuation, runningBeta) {
            runningBeta := analysis.value.valuation;
            bestValuation := analysis.value.valuation;
            bestMove := Some(move);
          }
        }
        ScanStep(rules, before, depth, availableMoves, i, alpha0, beta0, best0, bestMove0, count0, analysis.value,
                 runningAlpha, runningBeta, bestValuation, bestMove, movesAnalized);
        // Both sides cut off once alpha >= beta (for Black, beta <= alpha).
        if !Less(runningAlpha, runningBeta) {
          break;
        }
        i := i + 1;
      }

      return Ok(PositionAnalysis(bestMove, bestValuation, movesAnalized));
    }

    /**
      One child of the search: `move` is executed, the position it leads to is
      searched to `depth - 1` plies, and the move is undone.  When `execute`
      refuses the move nothing changes; when the search below is aborted, the
      move stays played along with whatever the search below left played.
    */
    method TryMove(depth: int, move: Move, alpha: Valuation, beta: Valuation)
      returns (r: Result<PositionAnalysis, ExecutionError>)
      requires depth > 0
      modifies this
      ensures !rules.accepts(old(playedMoves), move) ==> r == Err(IllegalMove(move)) && playedMoves == old(playedMoves)
      ensures rules.accepts(old(playedMoves), move) ==>
                var s := Search(rules, old(playedMoves) + [move], depth - 1, alpha, beta);
                && (s.Done? ==> r == Ok(s.analysis) && playedMoves == old(playedMoves))
                && (s.Failed? ==> r == Err(IllegalMove(s.move)) && playedMoves == old(playedMoves) + ([move] + s.stranded))
      decreases depth, 0
    {
      var executed := Execute(move);
      if executed.Err? {
        return Err(executed.error);
      }
      r := DeepEvaluationWithin(depth - 1, alpha, beta);
      if r.Ok? {
        var _ := UndoMove();
        assert (old(playedMoves) + [move])[..|old(playedMoves)|] == old(playedMoves);
      }
    }
  }

  /** The engine session: one game, searched on request. */
  class ChessEngine {
    const game: Game

    constructor (rules: Rules)
      ensures fresh(game) && game.rules == rules && game.playedMoves == []
    {
      game := new Game(rules);
    }

    /**
      The best move found at `maxDepth` plies, with its valuation and leaf
      count; the caller decides whether to play it.
    */
    method BestMove(maxDepth: int) returns (r: Result<PositionAnalysis, ExecutionError>)
      modifies game
      ensures var s := Search(game.rules, old(game.playedMoves), maxDepth, NegInf, PosInf);
              && (s.Done? ==> r == Ok(s.analysis) && game.playedMoves == old(game.playedMoves))
              && (s.Failed? ==> r == Err(IllegalMove(s.move)) && game.playedMoves == old(game.playedMoves) + s.stranded)
    {
      r := game.DeepEvaluation(maxDepth);
    }
  }
}
