/**
  The rules engine's data as the engine sees it.  Board representation,
  move generation, check detection and attacker lookup belong to the rules
  engine and are not part of this model: every board query is a field of
  function type, an uninterpreted oracle that the engine only reads.
*/
module Chess {

  datatype Color = White | Black

  function Inverse(c: Color): (o: Color)
    ensures o != c
  {
    if c == White then Black else White
  }

  /** A square of the board, as the rules engine numbers it. */
  type Square = nat

  /**
    A piece as the material count uses it: whether it is a king, and the rules
    engine's relative value scaled by 10000 (the value of a king is never read).
  */
  datatype Piece = Piece(isKing: bool, relativeValue: int)

  /** A move is opaque to the engine except for whether it is a castle. */
  datatype Move = Move(origin: Square, target: Square, isCastle: bool)

  datatype Flank = Kingside | Queenside

  datatype CastlingRight = CastlingRight(color: Color, flank: Flank)

  /** A board: the two piece lists and the queries the evaluator makes. */
  datatype Board = Board(
    whitePieces: seq<Piece>,
    blackPieces: seq<Piece>,
    kingIsChecked: Color -> bool,
    pieceCount: Color -> int,
    squares: Color -> seq<Square>,
    attackers: (Square, Color) -> nat)

  datatype Position = Position(board: Board, playerTurn: Color, castlingRights: set<CastlingRight>)

  /** The game's outcome; `Undecided` stands for the rules engine's `nil`. */
  datatype Outcome = Win(winner: Color) | Draw | Undecided
}
