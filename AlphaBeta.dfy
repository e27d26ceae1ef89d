/**
  Minimax search with alpha-beta pruning over the rules engine's game tree.
  White maximises and Black minimises at every node.  `Search` and `Scan`
  give, as values, what the engine's recursive search computes (the method
  `Engine.Game.DeepEvaluation` is proved to compute exactly this); `Minimax`
  is the unpruned search it is measured against.
*/
module AlphaBeta {
  import opened Wrappers
  import opened Valuations
  import opened Chess
  import opened Evaluator

  /**
    The rules engine, seen as functions of the move history played from the
    game's fixed starting position: the legal moves in their enumeration
    order, the outcome, the position, and whether `execute` accepts a move
    (it throws otherwise).
  */
  datatype Rules = Rules(
    availableMoves: seq<Move> -> seq<Move>,
    outcome: seq<Move> -> Outcome,
    position: seq<Move> -> Position,
    accepts: (seq<Move>, Move) -> bool)

  /** The result of analysing a subtree; `movesAnalized` counts leaf evaluations. */
  datatype PositionAnalysis = PositionAnalysis(move: Option<Move>, valuation: Valuation, movesAnalized: int)

  /**
    A search either completes, or is aborted by a move `execute` refused; the
    moves `stranded` were executed on the way down and are never undone.
  */
  datatype Searched = Done(analysis: PositionAnalysis) | Failed(move: Move, stranded: seq<Move>)

  function Mover(r: Rules, h: seq<Move>): Color
  {
    r.position(h).playerTurn
  }

  /** A win is worth the sentinel of the winner; any other outcome is worth exactly 0. */
  function TerminalValuation(outcome: Outcome): Valuation
  {
    match outcome
    case Win(winner) => if winner == White then PosInf else NegInf
    case _ => Finite(0)
  }

  /** The best valuation before any child is seen: the worst case for the mover. */
  function InitialBest(side: Color): Valuation
  {
    if side == White then NegInf else PosInf
  }

  /** The search at history `h` with `depth` plies left and window (`alpha`, `beta`). */
  function Search(r: Rules, h: seq<Move>, depth: int, alpha: Valuation, beta: Valuation): (s: Searched)
    ensures s.Done? ==> s.analysis.movesAnalized >= 1
    ensures s.Done? && s.analysis.move.Some? ==> depth > 0 && s.analysis.move.value in r.availableMoves(h)
    ensures s.Failed? ==> |s.stranded| < depth
    decreases depth, 1, 0
  {
    if depth <= 0 then
      Done(PositionAnalysis(None, Finite(PositionScore(r.position(h), h)), 1))
    else
      var moves := r.availableMoves(h);
      if moves == [] then
        Done(PositionAnalysis(None, TerminalValuation(r.outcome(h)), 1))
      else
        Scan(r, h, depth, moves, 0, alpha, beta, InitialBest(Mover(r, h)), None, 0)
  }

  /**
    The loop over the moves from index `i` on, with the running window, best
    valuation, best move and count: one child searched per step, the window
    narrowed only by a strictly better child, and a cutoff once alpha >= beta.
  */
  function Scan(r: Rules, h: seq<Move>, depth: int, moves: seq<Move>, i: nat,
                alpha: Valuation, beta: Valuation, best: Valuation, bestMove: Option<Move>, count: int): (s: Searched)
    requires depth > 0 && i <= |moves|
    ensures s.Done? ==> s.analysis.movesAnalized >= count + (if i < |moves| then 1 else 0)
    ensures s.Done? ==> s.analysis.move == bestMove || (s.analysis.move.Some? && s.analysis.move.value in moves)
    ensures s.Failed? ==> |s.stranded| < depth
    decreases depth, 0, |moves| - i
  {
    if i == |moves| then
      Done(PositionAnalysis(bestMove, best, count))
    else
      var move := moves[i];
      if !r.accepts(h, move) then
        Failed(move, [])
      else
        match Search(r, h + [move], depth - 1, alpha, beta)
        case Failed(refused, stranded) => Failed(refused, [move] + stranded)
        case Done(child) =>
          var count' := count + child.movesAnalized;
          if Mover(r, h) == White then
            var improves := Less(alpha, child.valuation);
            var alpha' := if improves then child.valuation else alpha;
            var best' := if improves then child.valuation else best;
            var bestMove' := if improves then Some(move) else bestMove;
            if !Less(alpha', beta) then Done(PositionAnalysis(bestMove', best', count'))
            else Scan(r, h, depth, moves, i + 1, alpha', beta, best', bestMove', count')
          else
            var improves := Less(child.valuation, beta);
            var beta' := if improves then child.valuation else beta;
            var best' := if improves then child.valuation else best;
            var bestMove' := if improves then Some(move) else bestMove;
            if !Less(alpha, beta') then Done(PositionAnalysis(bestMove', best', count'))
            else Scan(r, h, depth, moves, i + 1, alpha, beta', best', bestMove', count')
  }

  /**
    One iteration of the loop, as the engine's method performs it: after the
    child's analysis the window, best valuation, best move and count are
    updated, and the loop either cuts off or continues with the next move.
  */
  lemma ScanStep(r: Rules, h: seq<Move>, depth: int, moves: seq<Move>, i: nat,
                 alpha: Valuation, beta: Valuation, best: Valuation, bestMove: Option<Move>, count: int,
                 child: PositionAnalysis,
                 alpha': Valuation, beta': Valuation, best': Valuation, bestMove': Option<Move>, count': int)
    requires depth > 0 && i < |moves| && r.accepts(h, moves[i])
    requires Search(r, h + [moves[i]], depth - 1, alpha, beta) == Done(child)
    requires var improves := if Mover(r, h) == White then Less(alpha, child.valuation) else Less(child.valuation, beta);
             && count' == count + child.movesAnalized
             && (if Mover(r, h) == White then beta' == beta else alpha' == alpha)
             && (if Mover(r, h) == White then alpha' == (if improves then child.valuation else alpha)
                 else beta' == (if improves then child.valuation else beta))
             && best' == (if improves then child.valuation else best)
             && bestMove' == (if improves then Some(moves[i]) else bestMove)
    ensures Scan(r, h, depth, moves, i, alpha, beta, best, bestMove, count)
            == if Less(alpha', beta') then Scan(r, h, depth, moves, i + 1, alpha', beta', best', bestMove', count')
               else Done(PositionAnalysis(bestMove', best', count'))
  {
  }

  // ---------------------------------------------------------------- references

  /** The largest valuation of a list; the losing sentinel for White when empty. */
  function MaxOf(vs: seq<Valuation>): (m: Valuation)
    ensures forall k :: 0 <= k < |vs| ==> AtMost(vs[k], m)
    ensures if vs == [] then m == NegInf else m in vs
  {
    if vs == [] then NegInf else Max(vs[0], MaxOf(vs[1..]))
  }

  /** The smallest valuation of a list; the losing sentinel for Black when empty. */
  function MinOf(vs: seq<Valuation>): (m: Valuation)
    ensures forall k :: 0 <= k < |vs| ==> AtMost(m, vs[k])
    ensures if vs == [] then m == PosInf else m in vs
  {
    if vs == [] then PosInf else Min(vs[0], MinOf(vs[1..]))
  }

  /** Plain minimax over the same tree, with no window and no pruning. */
  ghost function Minimax(r: Rules, h: seq<Move>, depth: int): Valuation
    decreases depth, 1
  {
    if depth <= 0 then Finite(PositionScore(r.position(h), h))
    else
      var moves := r.availableMoves(h);
      if moves == [] then TerminalValuation(r.outcome(h))
      else if Mover(r, h) == White then MaxOf(ChildValues(r, h, depth, moves))
      else MinOf(ChildValues(r, h, depth, moves))
  }

  /** The minimax valuation of the child reached by each move. */
  ghost function ChildValues(r: Rules, h: seq<Move>, depth: int, moves: seq<Move>): (vs: seq<Valuation>)
    requires depth > 0
    ensures |vs| == |moves|
    decreases depth, 0
  {
    seq(|moves|, j requires 0 <= j < |moves| => Minimax(r, h + [moves[j]], depth - 1))
  }

  function SumOf(xs: seq<nat>): nat
  {
    if xs == [] then 0 else xs[0] + SumOf(xs[1..])
  }

  /** The number of leaves plain minimax evaluates: one per depth-0 or terminal node. */
  ghost function Leaves(r: Rules, h: seq<Move>, depth: int): nat
    decreases depth, 1
  {
    if depth <= 0 || r.availableMoves(h) == [] then 1
    else SumOf(ChildLeaves(r, h, depth, r.availableMoves(h)))
  }

  ghost function ChildLeaves(r: Rules, h: seq<Move>, depth: int, moves: seq<Move>): (ls: seq<nat>)
    requires depth > 0
    ensures |ls| == |moves|
    decreases depth, 0
  {
    seq(|moves|, j requires 0 <= j < |moves| => Leaves(r, h + [moves[j]], depth - 1))
  }

  /** The index of the first occurrence of `v` in `vs`. */
  function FirstIndexOf(vs: seq<Valuation>, v: Valuation): (k: nat)
    requires v in vs
    ensures k < |vs| && vs[k] == v
    ensures forall j :: 0 <= j < k ==> vs[j] != v
  {
    if vs[0] == v then 0 else 1 + FirstIndexOf(vs[1..], v)
  }

  lemma MaxOfStep(vs: seq<Valuation>, i: nat)
    requires i < |vs|
    ensures MaxOf(vs[i..]) == Max(vs[i], MaxOf(vs[i + 1..]))
  {
    assert vs[i..][1..] == vs[i + 1..];
  }

  lemma MinOfStep(vs: seq<Valuation>, i: nat)
    requires i < |vs|
    ensures MinOf(vs[i..]) == Min(vs[i], MinOf(vs[i + 1..]))
  {
    assert vs[i..][1..] == vs[i + 1..];
  }

  lemma SumOfStep(xs: seq<nat>, i: nat)
    requires i < |xs|
    ensures SumOf(xs[i..]) == xs[i] + SumOf(xs[i + 1..])
  {
    assert xs[i..][1..] == xs[i + 1..];
  }

  lemma FirstIndexOfStep(vs: seq<Valuation>, i: nat, v: Valuation)
    requires i < |vs| && v in vs[i..]
    ensures vs[i] != v ==> v in vs[i + 1..]
    ensures FirstIndexOf(vs[i..], v) == if vs[i] == v then 0 else 1 + FirstIndexOf(vs[i + 1..], v)
  {
    assert vs[i..][1..] == vs[i + 1..];
    assert vs[i..] == [vs[i]] + vs[i + 1..];
  }

  // ---------------------------------------------------------------- the window

  /**
    What alpha-beta promises about the valuation `v` it returns for a subtree
    whose minimax value is `m`, searched with window (`alpha`, `beta`): exact
    inside the window, and on the correct side of the window outside it.
  */
  ghost predicate WindowAccurate(v: Valuation, m: Valuation, alpha: Valuation, beta: Valuation)
  {
    && (AtMost(m, alpha) ==> AtMost(v, alpha))
    && (Less(alpha, m) && Less(m, beta) ==> v == m)
    && (AtMost(beta, m) ==> AtMost(beta, v))
  }

  lemma {:induction false} SearchWindow(r: Rules, h: seq<Move>, depth: int, alpha: Valuation, beta: Valuation)
    requires Less(alpha, beta)
    requires Search(r, h, depth, alpha, beta).Done?
    ensures WindowAccurate(Search(r, h, depth, alpha, beta).analysis.valuation, Minimax(r, h, depth), alpha, beta)
    decreases depth, 1
  {
    if depth > 0 && r.availableMoves(h) != [] {
      var moves := r.availableMoves(h);
      if Mover(r, h) == White {
        ScanWindowWhite(r, h, depth, moves, 0, alpha, beta, NegInf, None, 0);
      } else {
        ScanWindowBlack(r, h, depth, moves, 0, alpha, beta, PosInf, None, 0);
      }
      assert ChildValues(r, h, depth, moves)[0..] == ChildValues(r, h, depth, moves);
    }
  }

  /**
    The maximising loop's part of the window property, for the moves from `i`
    on: `rest` is the largest minimax value among them; when none of them can
    beat the running alpha the loop returns the best it already had.
  */
  lemma {:induction false} ScanWindowWhite(r: Rules, h: seq<Move>, depth: int, moves: seq<Move>, i: nat,
                                           alpha: Valuation, beta: Valuation, best: Valuation, bestMove: Option<Move>, count: int)
    requires depth > 0 && i <= |moves| && Mover(r, h) == White
    requires Less(alpha, beta)
    requires Scan(r, h, depth, moves, i, alpha, beta, best, bestMove, count).Done?
    ensures var v := Scan(r, h, depth, moves, i, alpha, beta, best, bestMove, count).analysis.valuation;
            var rest := MaxOf(ChildValues(r, h, depth, moves)[i..]);
            && (AtMost(rest, alpha) ==> v == best)
            && (Less(alpha, rest) && Less(rest, beta) ==> v == rest)
            && (AtMost(beta, rest) ==> AtMost(beta, v))
    decreases depth, 0, |moves| - i
  {
    var vals := ChildValues(r, h, depth, moves);
    if i == |moves| {
      return;
    }
    var move := moves[i];
    var child := Search(r, h + [move], depth - 1, alpha, beta).analysis;
    SearchWindow(r, h + [move], depth - 1, alpha, beta);
    MaxOfStep(vals, i);
    var count' := count + child.movesAnalized;
    var improves := Less(alpha, child.valuation);
    var alpha' := if improves then child.valuation else alpha;
    var best' := if improves then child.valuation else best;
    var bestMove' := if improves then Some(move) else bestMove;
    ScanStep(r, h, depth, moves, i, alpha, beta, best, bestMove, count, child, alpha', beta, best', bestMove', count');
    var v := Scan(r, h, depth, moves, i, alpha, beta, best, bestMove, count).analysis.valuation;
    if Less(alpha', beta) {
      ScanWindowWhite(r, h, depth, moves, i + 1, alpha', beta, best', bestMove', count');
    }
    MaxStepWindow(vals[i], MaxOf(vals[i + 1..]), child.valuation, alpha, beta, best, v);
  }

  /** The minimising loop's part of the window property, the mirror image of `ScanWindowWhite`. */
  lemma {:induction false} ScanWindowBlack(r: Rules, h: seq<Move>, depth: int, moves: seq<Move>, i: nat,
                                           alpha: Valuation, beta: Valuation, best: Valuation, bestMove: Option<Move>, count: int)
    requires depth > 0 && i <= |moves| && Mover(r, h) == Black
    requires Less(alpha, beta)
    requires Scan(r, h, depth, moves, i, alpha, beta, best, bestMove, count).Done?
    ensures var v := Scan(r, h, depth, moves, i, alpha, beta, best, bestMove, count).analysis.valuation;
            var rest := MinOf(ChildValues(r, h, depth, moves)[i..]);
            && (AtMost(beta, rest) ==> v == best)
            && (Less(alpha, rest) && Less(rest, beta) ==> v == rest)
            && (AtMost(rest, alpha) ==> AtMost(v, alpha))
    decreases depth, 0, |moves| - i
  {
    var vals := ChildValues(r, h, depth, moves);
    if i == |moves| {
      return;
    }
    var move := moves[i];
    var child := Search(r, h + [move], depth - 1, alpha, beta).analysis;
    SearchWindow(r, h + [move], depth - 1, alpha, beta);
    MinOfStep(vals, i);
    var count' := count + child.movesAnalized;
    var improves := Less(child.valuation, beta);
    var beta' := if improves then child.valuation else beta;
    var best' := if improves then child.valuation else best;
    var bestMove' := if improves then Some(move) else bestMove;
    ScanStep(r, h, depth, moves, i, alpha, beta, best, bestMove, count, child, alpha, beta', best', bestMove', count');
    var v := Scan(r, h, depth, moves, i, alpha, beta, best, bestMove, count).analysis.valuation;
    if Less(alpha, beta') {
      ScanWindowBlack(r, h, depth, moves, i + 1, alpha, beta', best', bestMove', count');
    }
    MinStepWindow(vals[i], MinOf(vals[i + 1..]), child.valuation, alpha, beta, best, v);
  }

  /**
    One step of the maximising loop, on valuations alone: the child `c`
    approximates `m` in the window, the rest of the loop (from the narrowed
    window, or the cutoff) yields `v`.
  */
  lemma MaxStepWindow(m: Valuation, restAfter: Valuation, c: Valuation,
                      alpha: Valuation, beta: Valuation, best: Valuation, v: Valuation)
    requires Less(alpha, beta)
    requires WindowAccurate(c, m, alpha, beta)
    requires var improves := Less(alpha, c);
             var alpha' := if improves then c else alpha;
             var best' := if improves then c else best;
             if Less(alpha', beta) then
               && (AtMost(restAfter, alpha') ==> v == best')
               && (Less(alpha', restAfter) && Less(restAfter, beta) ==> v == restAfter)
               && (AtMost(beta, restAfter) ==> AtMost(beta, v))
             else v == best'
    ensures var rest := Max(m, restAfter);
            && (AtMost(rest, alpha) ==> v == best)
            && (Less(alpha, rest) && Less(rest, beta) ==> v == rest)
            && (AtMost(beta, rest) ==> AtMost(beta, v))
  {
  }

  /** One step of the minimising loop, the mirror image of `MaxStepWindow`. */
  lemma MinStepWindow(m: Valuation, restAfter: Valuation, c: Valuation,
                      alpha: Valuation, beta: Valuation, best: Valuation, v: Valuation)
    requires Less(alpha, beta)
    requires WindowAccurate(c, m, alpha, beta)
    requires var improves := Less(c, beta);
             var beta' := if improves then c else beta;
             var best' := if improves then c else best;
             if Less(alpha, beta') then
               && (AtMost(beta', restAfter) ==> v == best')
               && (Less(alpha, restAfter) && Less(restAfter, beta') ==> v == restAfter)
               && (AtMost(restAfter, alpha) ==> AtMost(v, alpha))
             else v == best'
    ensures var rest := Min(m, restAfter);
            && (AtMost(beta, rest) ==> v == best)
            && (Less(alpha, rest) && Less(rest, beta) ==> v == rest)
            && (AtMost(rest, alpha) ==> AtMost(v, alpha))
  {
  }

  /** From the initial window (-inf, +inf), pruning never changes the valuation. */
  lemma AlphaBetaMatchesMinimax(r: Rules, h: seq<Move>, depth: int)
    requires Search(r, h, depth, NegInf, PosInf).Done?
    ensures Search(r, h, depth, NegInf, PosInf).analysis.valuation == Minimax(r, h, depth)
  {
    SearchWindow(r, h, depth, NegInf, PosInf);
  }

  // ---------------------------------------------------------------- leaves and terminals

  /** At depth 0 the search evaluates the position once and proposes no move. */
  lemma LeafAnalysis(r: Rules, h: seq<Move>, depth: int, alpha: Valuation, beta: Valuation)
    requires depth <= 0
    ensures Search(r, h, depth, alpha, beta)
            == Done(PositionAnalysis(None, Finite(PositionScore(r.position(h), h)), 1))
  {
  }

  /**
    Without legal moves the search proposes no move and counts one leaf; it is
    worth +inf when White has won, -inf when Black has won, and exactly 0 for
    any other outcome, whatever the evaluator would say.
  */
  lemma TerminalAnalysis(r: Rules, h: seq<Move>, depth: int, alpha: Valuation, beta: Valuation)
    requires depth > 0 && r.availableMoves(h) == []
    ensures Search(r, h, depth, alpha, beta).Done?
    ensures var a := Search(r, h, depth, alpha, beta).analysis;
            && a.move.None? && a.movesAnalized == 1
            && (a.valuation == PosInf <==> r.outcome(h) == Win(White))
            && (a.valuation == NegInf <==> r.outcome(h) == Win(Black))
            && (!r.outcome(h).Win? ==> a.valuation == Finite(0))
  {
  }

  // ---------------------------------------------------------------- which move is returned

  /**
    With beta = +inf a maximising loop keeps `best == alpha`, and the move it
    ends with is the first one whose child reaches the largest minimax value,
    provided that value beats the alpha it started from.
  */
  lemma {:induction false} ScanFirstBestWhite(r: Rules, h: seq<Move>, depth: int, moves: seq<Move>, i: nat,
                                              alpha: Valuation, bestMove: Option<Move>, count: int)
    requires depth > 0 && i <= |moves| && Mover(r, h) == White
    requires alpha != PosInf
    requires Scan(r, h, depth, moves, i, alpha, PosInf, alpha, bestMove, count).Done?
    ensures var vals := ChildValues(r, h, depth, moves);
            Scan(r, h, depth, moves, i, alpha, PosInf, alpha, bestMove, count).analysis.move
            == FirstBestFrom(vals, moves, i, alpha, bestMove, true)
    decreases |moves| - i
  {
    if i < |moves| {
      var vals := ChildValues(r, h, depth, moves);
      var move := moves[i];
      var child := Search(r, h + [move], depth - 1, alpha, PosInf).analysis;
      SearchWindow(r, h + [move], depth - 1, alpha, PosInf);
      var c := child.valuation;
      var count' := count + child.movesAnalized;
      var alpha' := if Less(alpha, c) then c else alpha;
      var bestMove' := if Less(alpha, c) then Some(move) else bestMove;
      ScanStep(r, h, depth, moves, i, alpha, PosInf, alpha, bestMove, count, child, alpha', PosInf, alpha', bestMove', count');
      var result := Scan(r, h, depth, moves, i, alpha, PosInf, alpha, bestMove, count).analysis.move;
      if Less(alpha', PosInf) {
        ScanFirstBestWhite(r, h, depth, moves, i + 1, alpha', bestMove', count');
      }
      FirstBestStepMax(vals, moves, i, alpha, c, bestMove, result);
    }
  }

  /** The minimising mirror image of `ScanFirstBestWhite`, with alpha = -inf and `best == beta`. */
  lemma {:induction false} ScanFirstBestBlack(r: Rules, h: seq<Move>, depth: int, moves: seq<Move>, i: nat,
                                              beta: Valuation, bestMove: Option<Move>, count: int)
    requires depth > 0 && i <= |moves| && Mover(r, h) == Black
    requires beta != NegInf
    requires Scan(r, h, depth, moves, i, NegInf, beta, beta, bestMove, count).Done?
    ensures var vals := ChildValues(r, h, depth, moves);
            Scan(r, h, depth, moves, i, NegInf, beta, beta, bestMove, count).analysis.move
            == FirstBestFrom(vals, moves, i, beta, bestMove, false)
    decreases |moves| - i
  {
    if i < |moves| {
      var vals := ChildValues(r, h, depth, moves);
      var move := moves[i];
      var child := Search(r, h + [move], depth - 1, NegInf, beta).analysis;
      SearchWindow(r, h + [move], depth - 1, NegInf, beta);
      var c := child.valuation;
      var count' := count + child.movesAnalized;
      var beta' := if Less(c, beta) then c else beta;
      var bestMove' := if Less(c, beta) then Some(move) else bestMove;
      ScanStep(r, h, depth, moves, i, NegInf, beta, beta, bestMove, count, child, NegInf, beta', beta', bestMove', count');
      var result := Scan(r, h, depth, moves, i, NegInf, beta, beta, bestMove, count).analysis.move;
      if Less(NegInf, beta') {
        ScanFirstBestBlack(r, h, depth, moves, i + 1, beta', bestMove', count');
      }
      FirstBestStepMin(vals, moves, i, beta, c, bestMove, result);
    }
  }

  /**
    The move a full-window loop ends with, from index `i`, bound `bound` and
    move `bestMove`: the first move reaching the best remaining value (the
    largest when `maximising`, else the smallest) if that value beats the
    bound, and `bestMove` otherwise.
  */
  ghost function FirstBestFrom(vals: seq<Valuation>, moves: seq<Move>, i: nat, bound: Valuation,
                               bestMove: Option<Move>, maximising: bool): Option<Move>
    requires |vals| == |moves| && i <= |vals|
  {
    var rest := if maximising then MaxOf(vals[i..]) else MinOf(vals[i..]);
    if (if maximising then Less(bound, rest) else Less(rest, bound))
    then Some(moves[i + FirstIndexOf(vals[i..], rest)])
    else bestMove
  }

  /**
    One step of `FirstBestFrom` for the maximising side, on valuations alone:
    the child's valuation `c` beats the bound exactly when its minimax value
    does, and then equals it unless it is the winning sentinel.
  */
  lemma FirstBestStepMax(vals: seq<Valuation>, moves: seq<Move>, i: nat, bound: Valuation, c: Valuation,
                         bestMove: Option<Move>, result: Option<Move>)
    requires |vals| == |moves| && i < |vals|
    requires bound != PosInf && WindowAccurate(c, vals[i], bound, PosInf)
    requires result == if Less(bound, c) && c == PosInf then Some(moves[i])
                       else if Less(bound, c) then FirstBestFrom(vals, moves, i + 1, c, Some(moves[i]), true)
                       else FirstBestFrom(vals, moves, i + 1, bound, bestMove, true)
    ensures result == FirstBestFrom(vals, moves, i, bound, bestMove, true)
  {
    var m, after := vals[i], MaxOf(vals[i + 1..]);
    MaxOfStep(vals, i);
    var rest := Max(m, after);
    if Less(bound, c) && !Less(m, after) {
      // the child holds the largest value of the remaining moves, first
      assert rest == m;
      FirstIndexOfStep(vals, i, rest);
      assert FirstBestFrom(vals, moves, i, bound, bestMove, true) == Some(moves[i]);
    } else if Less(bound, c) {
      // a later move is strictly larger still
      assert c == m && rest == after && m != after;
      FirstIndexOfStep(vals, i, rest);
    } else if Less(bound, after) {
      // the child does not beat the bound, a later move does
      assert AtMost(m, bound) && rest == after && m != after;
      FirstIndexOfStep(vals, i, rest);
    } else {
      assert AtMost(rest, bound);
    }
  }

  /** The minimising mirror image of `FirstBestStepMax`. */
  lemma FirstBestStepMin(vals: seq<Valuation>, moves: seq<Move>, i: nat, bound: Valuation, c: Valuation,
                         bestMove: Option<Move>, result: Option<Move>)
    requires |vals| == |moves| && i < |vals|
    requires bound != NegInf && WindowAccurate(c, vals[i], NegInf, bound)
    requires result == if Less(c, bound) && c == NegInf then Some(moves[i])
                       else if Less(c, bound) then FirstBestFrom(vals, moves, i + 1, c, Some(moves[i]), false)
                       else FirstBestFrom(vals, moves, i + 1, bound, bestMove, false)
    ensures result == FirstBestFrom(vals, moves, i, bound, bestMove, false)
  {
    var m, after := vals[i], MinOf(vals[i + 1..]);
    MinOfStep(vals, i);
    var rest := Min(m, after);
    if Less(c, bound) && !Less(after, m) {
      assert rest == m;
      FirstIndexOfStep(vals, i, rest);
      assert FirstBestFrom(vals, moves, i, bound, bestMove, false) == Some(moves[i]);
    } else if Less(c, bound) {
      assert c == m && rest == after && m != after;
      FirstIndexOfStep(vals, i, rest);
    } else if Less(after, bound) {
      assert AtMost(bound, m) && rest == after && m != after;
      FirstIndexOfStep(vals, i, rest);
    } else {
      assert AtMost(bound, rest);
    }
  }

  /**
    Ties go to the earlier move: from the window (-inf, +inf) the returned
    move is the first legal move whose child has the node's minimax value,
    and there is none when that value is the mover's losing sentinel.
  */
  lemma FullWindowPicksFirstBest(r: Rules, h: seq<Move>, depth: int)
    requires depth > 0 && r.availableMoves(h) != []
    requires Search(r, h, depth, NegInf, PosInf).Done?
    ensures var moves := r.availableMoves(h);
            var vals := ChildValues(r, h, depth, moves);
            var m := Minimax(r, h, depth);
            Search(r, h, depth, NegInf, PosInf).analysis.move
            == if m == InitialBest(Mover(r, h)) then None else Some(moves[FirstIndexOf(vals, m)])
  {
    var moves := r.availableMoves(h);
    var vals := ChildValues(r, h, depth, moves);
    assert vals[0..] == vals;
    assert moves[0..] == moves;
    if Mover(r, h) == White {
      ScanFirstBestWhite(r, h, depth, moves, 0, NegInf, None, 0);
    } else {
      ScanFirstBestBlack(r, h, depth, moves, 0, PosInf, None, 0);
    }
  }

  /**
    The loop only records a move together with a valuation that beats the
    running bound, so it holds no move exactly while its best valuation is
    still the mover's losing sentinel.
  */
  lemma {:induction false} ScanNullMove(r: Rules, h: seq<Move>, depth: int, moves: seq<Move>, i: nat,
                                        alpha: Valuation, beta: Valuation, best: Valuation, bestMove: Option<Move>, count: int)
    requires depth > 0 && i <= |moves|
    requires bestMove.None? <==> best == InitialBest(Mover(r, h))
    requires Scan(r, h, depth, moves, i, alpha, beta, best, bestMove, count).Done?
    ensures var a := Scan(r, h, depth, moves, i, alpha, beta, best, bestMove, count).analysis;
            a.move.None? <==> a.valuation == InitialBest(Mover(r, h))
    decreases |moves| - i
  {
    if i < |moves| {
      var move := moves[i];
      var child := Search(r, h + [move], depth - 1, alpha, beta).analysis;
      var count' := count + child.movesAnalized;
      var white := Mover(r, h) == White;
      var improves := if white then Less(alpha, child.valuation) else Less(child.valuation, beta);
      var alpha' := if white && improves then child.valuation else alpha;
      var beta' := if !white && improves then child.valuation else beta;
      var best' := if improves then child.valuation else best;
      var bestMove' := if improves then Some(move) else bestMove;
      ScanStep(r, h, depth, moves, i, alpha, beta, best, bestMove, count, child, alpha', beta', best', bestMove', count');
      if Less(alpha', beta') {
        ScanNullMove(r, h, depth, moves, i + 1, alpha', beta', best', bestMove', count');
      }
    }
  }

  /**
    A node with legal moves returns no move exactly when its valuation is the
    mover's losing sentinel: -inf for White, +inf for Black.  The best move is
    then nil although moves exist, because only a strictly better child
    replaces it.
  */
  lemma NullMoveIffLosingSentinel(r: Rules, h: seq<Move>, depth: int, alpha: Valuation, beta: Valuation)
    requires depth > 0 && r.availableMoves(h) != []
    requires Search(r, h, depth, alpha, beta).Done?
    ensures var a := Search(r, h, depth, alpha, beta).analysis;
            a.move.None? <==> a.valuation == InitialBest(Mover(r, h))
  {
    ScanNullMove(r, h, depth, r.availableMoves(h), 0, alpha, beta, InitialBest(Mover(r, h)), None, 0);
  }

  // ---------------------------------------------------------------- counting leaves

  /**
    The children the loop searches from index `i` on, in order, each paired
    with the move leading to it: every move up to and including the one that
    causes the cutoff, and none from an aborted move on.  The window updates
    do not depend on the running count, so neither does this list.
  */
  ghost function Visited(r: Rules, h: seq<Move>, depth: int, moves: seq<Move>, i: nat,
                         alpha: Valuation, beta: Valuation): (vs: seq<(Move, PositionAnalysis)>)
    requires depth > 0 && i <= |moves|
    ensures |vs| <= |moves| - i
    decreases |moves| - i
  {
    if i == |moves| || !r.accepts(h, moves[i]) then []
    else match Search(r, h + [moves[i]], depth - 1, alpha, beta)
      case Failed(_, _) => []
      case Done(child) =>
        var white := Mover(r, h) == White;
        var improves := if white then Less(alpha, child.valuation) else Less(child.valuation, beta);
        var alpha' := if white && improves then child.valuation else alpha;
        var beta' := if !white && improves then child.valuation else beta;
        [(moves[i], child)] + (if Less(alpha', beta') then Visited(r, h, depth, moves, i + 1, alpha', beta') else [])
  }

  /** One step of `Visited`: the searched child, followed by the rest unless it causes the cutoff. */
  lemma VisitedStep(r: Rules, h: seq<Move>, depth: int, moves: seq<Move>, i: nat,
                    alpha: Valuation, beta: Valuation, child: PositionAnalysis, alpha': Valuation, beta': Valuation)
    requires depth > 0 && i < |moves| && r.accepts(h, moves[i])
    requires Search(r, h + [moves[i]], depth - 1, alpha, beta) == Done(child)
    requires var improves := if Mover(r, h) == White then Less(alpha, child.valuation) else Less(child.valuation, beta);
             && alpha' == (if Mover(r, h) == White && improves then child.valuation else alpha)
             && beta' == (if Mover(r, h) != White && improves then child.valuation else beta)
    ensures Visited(r, h, depth, moves, i, alpha, beta)
            == [(moves[i], child)] + if Less(alpha', beta') then Visited(r, h, depth, moves, i + 1, alpha', beta') else []
  {
  }

  /** The sum of the children's counts. */
  function CountsSum(vs: seq<(Move, PositionAnalysis)>): int
  {
    if vs == [] then 0 else vs[0].1.movesAnalized + CountsSum(vs[1..])
  }

  lemma CountsSumCons(x: (Move, PositionAnalysis), rest: seq<(Move, PositionAnalysis)>)
    ensures CountsSum([x] + rest) == x.1.movesAnalized + CountsSum(rest)
  {
    assert ([x] + rest)[1..] == rest;
  }



  /** Every searched child counts at least one leaf, so the children count at least one leaf each. */
  lemma {:induction false} VisitedCountAtLeast(r: Rules, h: seq<Move>, depth: int, moves: seq<Move>, i: nat,
                                               alpha: Valuation, beta: Valuation)
    requires depth > 0 && i <= |moves|
    ensures CountsSum(Visited(r, h, depth, moves, i, alpha, beta)) >= |Visited(r, h, depth, moves, i, alpha, beta)|
    decreases |moves| - i
  {
    if i < |moves| && r.accepts(h, moves[i]) {
      var below := Search(r, h + [moves[i]], depth - 1, alpha, beta);
      if below.Done? {
        var child := below.analysis;
        var white := Mover(r, h) == White;
        var improves := if white then Less(alpha, child.valuation) else Less(child.valuation, beta);
        var alpha' := if white && improves then child.valuation else alpha;
        var beta' := if !white && improves then child.valuation else beta;
        VisitedStep(r, h, depth, moves, i, alpha, beta, child, alpha', beta');
        var rest := if Less(alpha', beta') then Visited(r, h, depth, moves, i + 1, alpha', beta') else [];
        if Less(alpha', beta') {
          VisitedCountAtLeast(r, h, depth, moves, i + 1, alpha', beta');
        }
        CountsSumCons((moves[i], child), rest);
      }
    }
  }

  /** The loop adds to `count` exactly the counts of the children it searched. */
  lemma {:induction false} ScanCountIsSum(r: Rules, h: seq<Move>, depth: int, moves: seq<Move>, i: nat,
                                          alpha: Valuation, beta: Valuation, best: Valuation, bestMove: Option<Move>, count: int)
    requires depth > 0 && i <= |moves|
    requires Scan(r, h, depth, moves, i, alpha, beta, best, bestMove, count).Done?
    ensures var vs := Visited(r, h, depth, moves, i, alpha, beta);
            var n := Scan(r, h, depth, moves, i, alpha, beta, best, bestMove, count).analysis.movesAnalized;
            n == count + CountsSum(vs)
    decreases |moves| - i
  {
    if i < |moves| {
      var move := moves[i];
      var child := Search(r, h + [move], depth - 1, alpha, beta).analysis;
      var count' := count + child.movesAnalized;
      var white := Mover(r, h) == White;
      var improves := if white then Less(alpha, child.valuation) else Less(child.valuation, beta);
      var alpha' := if white && improves then child.valuation else alpha;
      var beta' := if !white && improves then child.valuation else beta;
      var best' := if improves then child.valuation else best;
      var bestMove' := if improves then Some(move) else bestMove;
      ScanStep(r, h, depth, moves, i, alpha, beta, best, bestMove, count, child, alpha', beta', best', bestMove', count');
      VisitedStep(r, h, depth, moves, i, alpha, beta, child, alpha', beta');
      var rest := if Less(alpha', beta') then Visited(r, h, depth, moves, i + 1, alpha', beta') else [];
      CountsSumCons((move, child), rest);
      if Less(alpha', beta') {
        ScanCountIsSum(r, h, depth, moves, i + 1, alpha', beta', best', bestMove', count');
      }
    }
  }

  /**
    A node with legal moves counts exactly the leaves of the children it
    searched: at least one child, at most all of them, and at least one leaf each.
  */
  lemma SearchCountIsSum(r: Rules, h: seq<Move>, depth: int, alpha: Valuation, beta: Valuation)
    requires depth > 0 && r.availableMoves(h) != []
    requires Search(r, h, depth, alpha, beta).Done?
    ensures var vs := Visited(r, h, depth, r.availableMoves(h), 0, alpha, beta);
            var n := Search(r, h, depth, alpha, beta).analysis.movesAnalized;
            && 1 <= |vs| <= |r.availableMoves(h)|
            && n == CountsSum(vs)
            && n >= |vs|
  {
    var moves := r.availableMoves(h);
    ScanCountIsSum(r, h, depth, moves, 0, alpha, beta, InitialBest(Mover(r, h)), None, 0);
    VisitedCountAtLeast(r, h, depth, moves, 0, alpha, beta);
    var child := Search(r, h + [moves[0]], depth - 1, alpha, beta).analysis;
    var white := Mover(r, h) == White;
    var improves := if white then Less(alpha, child.valuation) else Less(child.valuation, beta);
    VisitedStep(r, h, depth, moves, 0, alpha, beta, child,
                if white && improves then child.valuation else alpha,
                if !white && improves then child.valuation else beta);
  }

  /** Pruning only saves work: the search never evaluates more leaves than plain minimax. */
  lemma {:induction false} SearchCountWithinLeaves(r: Rules, h: seq<Move>, depth: int, alpha: Valuation, beta: Valuation)
    requires Search(r, h, depth, alpha, beta).Done?
    ensures 1 <= Search(r, h, depth, alpha, beta).analysis.movesAnalized <= Leaves(r, h, depth)
    decreases depth, 1
  {
    if depth > 0 && r.availableMoves(h) != [] {
      var moves := r.availableMoves(h);
      ScanCountWithinLeaves(r, h, depth, moves, 0, alpha, beta, InitialBest(Mover(r, h)), None, 0);
      assert ChildLeaves(r, h, depth, moves)[0..] == ChildLeaves(r, h, depth, moves);
    }
  }

  /** The loop adds the children's counts to `count`, for at most the remaining moves' leaves. */
  lemma {:induction false} ScanCountWithinLeaves(r: Rules, h: seq<Move>, depth: int, moves: seq<Move>, i: nat,
                                                 alpha: Valuation, beta: Valuation, best: Valuation, bestMove: Option<Move>, count: int)
    requires depth > 0 && i <= |moves|
    requires Scan(r, h, depth, moves, i, alpha, beta, best, bestMove, count).Done?
    ensures Scan(r, h, depth, moves, i, alpha, beta, best, bestMove, count).analysis.movesAnalized
            <= count + SumOf(ChildLeaves(r, h, depth, moves)[i..])
    decreases depth, 0, |moves| - i
  {
    if i < |moves| {
      var leaves := ChildLeaves(r, h, depth, moves);
      SumOfStep(leaves, i);
      var move := moves[i];
      var child := Search(r, h + [move], depth - 1, alpha, beta).analysis;
      SearchCountWithinLeaves(r, h + [move], depth - 1, alpha, beta);
      var count' := count + child.movesAnalized;
      var white := Mover(r, h) == White;
      var improves := if white then Less(alpha, child.valuation) else Less(child.valuation, beta);
      var alpha' := if white && improves then child.valuation else alpha;
      var beta' := if !white && improves then child.valuation else beta;
      var best' := if improves then child.valuation else best;
      var bestMove' := if improves then Some(move) else bestMove;
      ScanStep(r, h, depth, moves, i, alpha, beta, best, bestMove, count, child, alpha', beta', best', bestMove', count');
      if Less(alpha', beta') {
        ScanCountWithinLeaves(r, h, depth, moves, i + 1, alpha', beta', best', bestMove', count');
      }
    }
  }

  /**
    At depth 1 every child is an evaluated leaf with a finite valuation, so no
    cutoff is possible from the bounds the loop starts with and every move is
    searched once.
  */
  lemma {:induction false} ScanDepthOne(r: Rules, h: seq<Move>, moves: seq<Move>, i: nat,
                                        alpha: Valuation, beta: Valuation, best: Valuation, bestMove: Option<Move>, count: int)
    requires i <= |moves|
    requires forall k :: i <= k < |moves| ==> r.accepts(h, moves[k])
    requires if Mover(r, h) == White then beta == PosInf && alpha != PosInf else alpha == NegInf && beta != NegInf
    ensures Scan(r, h, 1, moves, i, alpha, beta, best, bestMove, count).Done?
    ensures Scan(r, h, 1, moves, i, alpha, beta, best, bestMove, count).analysis.movesAnalized
            == count + |moves| - i
    decreases |moves| - i
  {
    if i < |moves| {
      var move := moves[i];
      var child := Search(r, h + [move], 0, alpha, beta).analysis;
      assert child.valuation.Finite? && child.movesAnalized == 1;
      var count' := count + 1;
      var white := Mover(r, h) == White;
      var improves := if white then Less(alpha, child.valuation) else Less(child.valuation, beta);
      var alpha' := if white && improves then child.valuation else alpha;
      var beta' := if !white && improves then child.valuation else beta;
      var best' := if improves then child.valuation else best;
      var bestMove' := if improves then Some(move) else bestMove;
      ScanStep(r, h, 1, moves, i, alpha, beta, best, bestMove, count, child, alpha', beta', best', bestMove', count');
      ScanDepthOne(r, h, moves, i + 1, alpha', beta', best', bestMove', count');
    }
  }

  /** A one-ply search from the full window analyses each legal move exactly once. */
  lemma DepthOneVisitsEveryMove(r: Rules, h: seq<Move>)
    requires r.availableMoves(h) != []
    requires forall m :: m in r.availableMoves(h) ==> r.accepts(h, m)
    ensures Search(r, h, 1, NegInf, PosInf).Done?
    ensures Search(r, h, 1, NegInf, PosInf).analysis.movesAnalized == |r.availableMoves(h)|
  {
    ScanDepthOne(r, h, r.availableMoves(h), 0, NegInf, PosInf, InitialBest(Mover(r, h)), None, 0);
  }

  // ---------------------------------------------------------------- the error path

  /** The rules engine's `execute` accepts every move its own enumeration offers. */
  ghost predicate ExecuteAcceptsLegalMoves(r: Rules)
  {
    forall g, m :: m in r.availableMoves(g) ==> r.accepts(g, m)
  }

  /** When `execute` accepts every legal move, the search is never aborted. */
  lemma {:induction false} SearchSucceeds(r: Rules, h: seq<Move>, depth: int, alpha: Valuation, beta: Valuation)
    requires ExecuteAcceptsLegalMoves(r)
    ensures Search(r, h, depth, alpha, beta).Done?
    decreases depth, 1
  {
    if depth > 0 && r.availableMoves(h) != [] {
      ScanSucceeds(r, h, depth, 0, alpha, beta, InitialBest(Mover(r, h)), None, 0);
    }
  }

  lemma {:induction false} ScanSucceeds(r: Rules, h: seq<Move>, depth: int, i: nat,
                                        alpha: Valuation, beta: Valuation, best: Valuation, bestMove: Option<Move>, count: int)
    requires ExecuteAcceptsLegalMoves(r)
    requires depth > 0 && i <= |r.availableMoves(h)|
    ensures Scan(r, h, depth, r.availableMoves(h), i, alpha, beta, best, bestMove, count).Done?
    decreases depth, 0, |r.availableMoves(h)| - i
  {
    var moves := r.availableMoves(h);
    if i < |moves| {
      var move := moves[i];
      assert r.accepts(h, move);
      SearchSucceeds(r, h + [move], depth - 1, alpha, beta);
      var child := Search(r, h + [move], depth - 1, alpha, beta).analysis;
      var count' := count + child.movesAnalized;
      var white := Mover(r, h) == White;
      var improves := if white then Less(alpha, child.valuation) else Less(child.valuation, beta);
      var alpha' := if white && improves then child.valuation else alpha;
      var beta' := if !white && improves then child.valuation else beta;
      var best' := if improves then child.valuation else best;
      var bestMove' := if improves then Some(move) else bestMove;
      ScanStep(r, h, depth, moves, i, alpha, beta, best, bestMove, count, child, alpha', beta', best', bestMove', count');
      if Less(alpha', beta') {
        ScanSucceeds(r, h, depth, i + 1, alpha', beta', best', bestMove', count');
      }
    }
  }
}
