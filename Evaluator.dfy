/**
  The heuristic position evaluator: material, check, piece count, attacking
  pressure and castling, combined on the absolute scale (positive favours
  White).  Every weight of the source is scaled by 10000.
*/
module Evaluator {
  import opened Chess

  const CheckBonus := 10000          // 1
  const CheckPenalty := 3000         // 0.3
  const PieceCountWeight := 1000     // 0.1
  const AttackWeight := 10           // 0.001
  const ExposureWeight := 5          // 0.0005
  const PointsForCastling := 20000   // 2

  // ---------------------------------------------------------------- material

  /** Sum of the relative values of the pieces, kings excluded. */
  function Material(pieces: seq<Piece>): (m: int)
    ensures (forall k :: 0 <= k < |pieces| ==> pieces[k].isKing) ==> m == 0
    ensures (forall k :: 0 <= k < |pieces| ==> pieces[k].relativeValue >= 0) ==> m >= 0
  {
    if pieces == [] then 0
    else (if pieces[0].isKing then 0 else pieces[0].relativeValue) + Material(pieces[1..])
  }

  /** Material is additive over any split of the piece list, so it ignores order. */
  lemma {:induction false} MaterialAppend(a: seq<Piece>, b: seq<Piece>)
    ensures Material(a + b) == Material(a) + Material(b)
  {
    if a == [] {
      assert a + b == b;
    } else {
      assert (a + b)[1..] == a[1..] + b;
      MaterialAppend(a[1..], b);
    }
  }

  /** Adding a king never changes material; adding any other piece adds exactly its value. */
  lemma MaterialOfOneMore(pieces: seq<Piece>, p: Piece)
    ensures Material(pieces + [p]) == Material(pieces) + (if p.isKing then 0 else p.relativeValue)
  {
    MaterialAppend(pieces, [p]);
  }

  // ---------------------------------------------------------------- attackers

  /** Number of attackers of `attackingColor` on each of the `targets`, summed. */
  function AttackerTally(attackers: (Square, Color) -> nat, targets: seq<Square>, attackingColor: Color): nat
  {
    if targets == [] then 0
    else AttackerTally(attackers, targets[..|targets| - 1], attackingColor)
         + attackers(targets[|targets| - 1], attackingColor)
  }

  /** Attackers of `attackingColor` on the squares occupied by the other side. */
  function AttackersBy(board: Board, attackingColor: Color): nat
  {
    AttackerTally(board.attackers, board.squares(Inverse(attackingColor)), attackingColor)
  }

  /** The tally is zero exactly when no target square is attacked at all. */
  lemma {:induction false} AttackerTallyZero(attackers: (Square, Color) -> nat, targets: seq<Square>, attackingColor: Color)
    ensures AttackerTally(attackers, targets, attackingColor) == 0
            <==> forall k :: 0 <= k < |targets| ==> attackers(targets[k], attackingColor) == 0
  {
    if targets != [] {
      var init := targets[..|targets| - 1];
      AttackerTallyZero(attackers, init, attackingColor);
      assert forall k :: 0 <= k < |init| ==> init[k] == targets[k];
    }
  }

  method AllAttackers(board: Board, attackingColor: Color) returns (total: int)
    ensures total == AttackersBy(board, attackingColor)
  {
    var oppositePiecesSquares := board.squares(Inverse(attackingColor));
    total := 0;
    var i := 0;
    while i < |oppositePiecesSquares|
      invariant 0 <= i <= |oppositePiecesSquares|
      invariant total == AttackerTally(board.attackers, oppositePiecesSquares[..i], attackingColor)
    {
      assert oppositePiecesSquares[..i + 1][..i] == oppositePiecesSquares[..i];
      total := total + board.attackers(oppositePiecesSquares[i], attackingColor);
      i := i + 1;
    }
    assert oppositePiecesSquares[..i] == oppositePiecesSquares;
  }

  // ---------------------------------------------------------------- castling

  const WhiteCastlingRights: set<CastlingRight> :=
    {CastlingRight(White, Queenside), CastlingRight(White, Kingside)}
  const BlackCastlingRights: set<CastlingRight> :=
    {CastlingRight(Black, Queenside), CastlingRight(Black, Kingside)}

  /** The castling rights that belong to `color`: both of its flanks and nothing of the other colour. */
  function RightsFor(color: Color): (rights: set<CastlingRight>)
    ensures forall right :: right in rights ==> right.color == color
    ensures CastlingRight(color, Kingside) in rights && CastlingRight(color, Queenside) in rights
  {
    match color
    case White => WhiteCastlingRights
    case Black => BlackCastlingRights
  }

  /** `side` may still castle when it keeps at least one of its own two rights. */
  function CanCastle(rights: set<CastlingRight>, side: Color): (can: bool)
    ensures can <==> CastlingRight(side, Kingside) in rights || CastlingRight(side, Queenside) in rights
  {
    var own := rights * RightsFor(side);
    assert CastlingRight(side, Kingside) in rights ==> CastlingRight(side, Kingside) in own;
    assert CastlingRight(side, Queenside) in rights ==> CastlingRight(side, Queenside) in own;
    own != {}
  }

  // ---------------------------------------------------------------- history by side

  /** White plays the moves at even offsets of the history, Black those at odd ones. */
  predicate PlayedBy(side: Color, offset: nat)
  {
    (side == White && offset % 2 == 0) || (side == Black && offset % 2 != 0)
  }

  /** The moves of the history played by `side`, in the order they were played. */
  function PlayedMoves(history: seq<Move>, side: Color): (moves: seq<Move>)
    ensures |moves| <= |history|
    ensures forall m :: m in moves ==> m in history
  {
    if history == [] then []
    else
      var last := |history| - 1;
      PlayedMoves(history[..last], side) + (if PlayedBy(side, last) then [history[last]] else [])
  }

  /** Offset of the first move `side` plays. */
  function FirstOffset(side: Color): nat
  {
    if side == White then 0 else 1
  }

  /** The k-th move of `side` is the history entry at offset 2k (White) or 2k + 1 (Black). */
  lemma {:induction false} PlayedMovesAt(history: seq<Move>, side: Color)
    ensures |PlayedMoves(history, side)| == (|history| + 1 - FirstOffset(side)) / 2
    ensures forall k :: 0 <= k < |PlayedMoves(history, side)| ==>
              2 * k + FirstOffset(side) < |history| &&
              PlayedMoves(history, side)[k] == history[2 * k + FirstOffset(side)]
  {
    if history != [] {
      var last := |history| - 1;
      var init := history[..last];
      PlayedMovesAt(init, side);
      assert forall j :: 0 <= j < |init| ==> init[j] == history[j];
    }
  }

  /** The two sides' lists partition the history: entry i is move i / 2 of the side that played it. */
  lemma PlayedMovesPartition(history: seq<Move>)
    ensures |PlayedMoves(history, White)| == (|history| + 1) / 2
    ensures |PlayedMoves(history, Black)| == |history| / 2
    ensures forall i :: 0 <= i < |history| ==>
              history[i] == if i % 2 == 0 then PlayedMoves(history, White)[i / 2]
                            else PlayedMoves(history, Black)[i / 2]
  {
    PlayedMovesAt(history, White);
    PlayedMovesAt(history, Black);
    forall i | 0 <= i < |history|
      ensures history[i] == if i % 2 == 0 then PlayedMoves(history, White)[i / 2]
                            else PlayedMoves(history, Black)[i / 2]
    {
      if i % 2 == 0 {
        assert 2 * (i / 2) + FirstOffset(White) == i;
      } else {
        assert 2 * (i / 2) + FirstOffset(Black) == i;
      }
    }
  }

  predicate ContainsCastle(moves: seq<Move>)
  {
    exists k :: 0 <= k < |moves| && moves[k].isCastle
  }

  // ---------------------------------------------------------------- the evaluation

  /** +1 for White, -1 for Black: turns a side-relative term into an absolute one. */
  function Sign(side: Color): int
  {
    if side == White then 1 else -1
  }

  /** Bonus when the side not to move is in check, otherwise a penalty when the mover is. */
  function CheckTerm(board: Board, mover: Color): int
  {
    if board.kingIsChecked(Inverse(mover)) then CheckBonus
    else if board.kingIsChecked(mover) then -CheckPenalty
    else 0
  }

  function PieceCountTerm(board: Board, mover: Color): int
  {
    (board.pieceCount(mover) - board.pieceCount(Inverse(mover))) * PieceCountWeight
  }

  function PressureTerm(board: Board, mover: Color): int
  {
    AttackWeight * AttackersBy(board, mover) - ExposureWeight * AttackersBy(board, Inverse(mover))
  }

  function CastledTerm(history: seq<Move>, mover: Color): int
  {
    (if ContainsCastle(PlayedMoves(history, mover)) then PointsForCastling else 0)
    - (if ContainsCastle(PlayedMoves(history, Inverse(mover))) then PointsForCastling else 0)
  }

  function CastlingRightsTerm(rights: set<CastlingRight>, mover: Color): int
  {
    (if CanCastle(rights, mover) then 0 else -PointsForCastling)
    - (if CanCastle(rights, Inverse(mover)) then 0 else -PointsForCastling)
  }

  /** The side-relative extras: positive when they favour the side to move. */
  function Extras(pos: Position, history: seq<Move>): int
  {
    var mover := pos.playerTurn;
    CheckTerm(pos.board, mover) + PieceCountTerm(pos.board, mover) + PressureTerm(pos.board, mover)
    + CastledTerm(history, mover) + CastlingRightsTerm(pos.castlingRights, mover)
  }

  /** The evaluation on the absolute scale. */
  function PositionScore(pos: Position, history: seq<Move>): (score: int)
    ensures Extras(pos, history) == 0 ==>
              score == Material(pos.board.whitePieces) - Material(pos.board.blackPieces)
  {
    Material(pos.board.whitePieces) - Material(pos.board.blackPieces)
    + Sign(pos.playerTurn) * Extras(pos, history)
  }

  /** The evaluator, building its extras step by step. */
  method CurrentPositionValuation(pos: Position, history: seq<Move>) returns (v: int)
    ensures v == PositionScore(pos, history)
  {
    var movingSide := pos.playerTurn;
    var board := pos.board;

    var extras := 0;

    if board.kingIsChecked(Inverse(movingSide)) {
      extras := extras + CheckBonus;
    } else if board.kingIsChecked(movingSide) {
      extras := extras - CheckPenalty;
    }
    assert extras == CheckTerm(board, movingSide);

    var myPieces := board.pieceCount(movingSide);
    var theirPieces := board.pieceCount(Inverse(movingSide));

    extras := extras + (myPieces - theirPieces) * PieceCountWeight;
    assert extras == CheckTerm(board, movingSide) + PieceCountTerm(board, movingSide);

    var ours := AllAttackers(board, movingSide);
    extras := extras + AttackWeight * ours;
    var theirs := AllAttackers(board, Inverse(movingSide));
    extras := extras - ExposureWeight * theirs;
    assert extras == CheckTerm(board, movingSide) + PieceCountTerm(board, movingSide)
                     + PressureTerm(board, movingSide);

    var weHaveCastled := ContainsCastle(PlayedMoves(history, movingSide));
    var theyHaveCastled := ContainsCastle(PlayedMoves(history, Inverse(movingSide)));

    var cantCastlePenalty := -PointsForCastling;

    if weHaveCastled {
      extras := extras + PointsForCastling;
    }
    if theyHaveCastled {
      extras := extras - PointsForCastling;
    }
    assert extras == CheckTerm(board, movingSide) + PieceCountTerm(board, movingSide)
                     + PressureTerm(board, movingSide) + CastledTerm(history, movingSide);

    var weCanCastle := CanCastle(pos.castlingRights, movingSide);
    var theyCanCastle := CanCastle(pos.castlingRights, Inverse(movingSide));

    if !weCanCastle {
      extras := extras + cantCastlePenalty;
    }
    if !theyCanCastle {
      extras := extras - cantCastlePenalty;
    }
    assert extras == Extras(pos, history);

    v := (Material(board.whitePieces) - Material(board.blackPieces)) + extras * Sign(movingSide);
  }

  // ---------------------------------------------------------------- properties

  /** The check term is the bonus, the penalty or nothing; bonus and penalty never both apply. */
  lemma CheckTermCases(board: Board, mover: Color)
    ensures CheckTerm(board, mover) == CheckBonus <==> board.kingIsChecked(Inverse(mover))
    ensures CheckTerm(board, mover) == -CheckPenalty
            <==> !board.kingIsChecked(Inverse(mover)) && board.kingIsChecked(mover)
    ensures CheckTerm(board, mover) == 0
            <==> !board.kingIsChecked(Inverse(mover)) && !board.kingIsChecked(mover)
  {
  }

  /**
    Monotonicity in material: one more non-king piece of positive value scores
    strictly better for its owner, everything else equal.
  */
  lemma ExtraPieceScoresBetter(pos: Position, history: seq<Move>, p: Piece)
    requires !p.isKing && p.relativeValue > 0
    ensures PositionScore(pos.(board := pos.board.(whitePieces := pos.board.whitePieces + [p])), history)
            > PositionScore(pos, history)
    ensures PositionScore(pos.(board := pos.board.(blackPieces := pos.board.blackPieces + [p])), history)
            < PositionScore(pos, history)
  {
    MaterialOfOneMore(pos.board.whitePieces, p);
    MaterialOfOneMore(pos.board.blackPieces, p);
    assert Extras(pos.(board := pos.board.(whitePieces := pos.board.whitePieces + [p])), history)
        == Extras(pos, history);
    assert Extras(pos.(board := pos.board.(blackPieces := pos.board.blackPieces + [p])), history)
        == Extras(pos, history);
  }

  /**
    Delivering check never scores worse for the side to move than any other
    check situation, everything else equal, and scores strictly better than
    not delivering it.
  */
  lemma DeliveringCheckScoresBetter(pos: Position, history: seq<Move>, checked: Color -> bool)
    requires pos.board.kingIsChecked(Inverse(pos.playerTurn))
    ensures var other := pos.(board := pos.board.(kingIsChecked := checked));
            Sign(pos.playerTurn) * PositionScore(pos, history)
            >= Sign(pos.playerTurn) * PositionScore(other, history)
    ensures var other := pos.(board := pos.board.(kingIsChecked := checked));
            !checked(Inverse(pos.playerTurn)) ==>
              Sign(pos.playerTurn) * PositionScore(pos, history)
              > Sign(pos.playerTurn) * PositionScore(other, history)
  {
    var other := pos.(board := pos.board.(kingIsChecked := checked));
    var mover := pos.playerTurn;
    assert Extras(pos, history) - Extras(other, history)
        == CheckTerm(pos.board, mover) - CheckTerm(other.board, mover);
  }
}
