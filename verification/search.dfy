/** Depth-bounded minimax over the board (tic-tac-toe.py: minimax, evaluate).
    O, the computer, is the maximizing side; X, the human, minimizes. */
module Search {
  import opened Wrappers
  import opened Grid

  /** The only values a search can produce. */
  predicate IsScore(s: int) {
    s == -10 || s == 0 || s == 10
  }

  /** The value of a board where the search stops: +10 for an O win,
      -10 for an X win, 0 for a draw or for a board still in play. */
  function Terminal(o: Outcome): (r: int)
    ensures IsScore(r)
    ensures r == 10 <==> o == Winner(O)
    ensures r == -10 <==> o == Winner(X)
  {
    if o == Winner(O) then 10
    else if o == Winner(X) then -10
    else 0
  }

  /** The mark the side to move places: O when maximizing, X when minimizing. */
  function Mover(maximizing: bool): Cell {
    if maximizing then O else X
  }

  /** `max(best, eval)` / `min(best, eval)` where None stands for the
      starting -inf / +inf. */
  function Combine(best: Option<int>, eval: int, maximizing: bool): (r: int)
    ensures best.None? ==> r == eval
    ensures best.Some? ==> r == eval || r == best.value
    ensures best.Some? && maximizing ==> r >= eval && r >= best.value
    ensures best.Some? && !maximizing ==> r <= eval && r <= best.value
  {
    if best.None? then eval
    else if maximizing then (if eval > best.value then eval else best.value)
    else (if eval < best.value then eval else best.value)
  }

  /** The score of one child: the side to move places its mark at m and
      the search continues one level shallower with the other side to move. */
  function ChildScore(b: Board, m: Move, depth: nat, maximizing: bool): (r: int)
    requires InRange(m) && depth > 0
    decreases depth, 0, 0
    ensures IsScore(r)
    ensures GameOver(Place(b, m, Mover(maximizing))) == Winner(O) ==> r == 10
    ensures GameOver(Place(b, m, Mover(maximizing))) == Winner(X) ==> r == -10
  {
    Minimax(Place(b, m, Mover(maximizing)), depth - 1, !maximizing)
  }

  /** A child's score is the search one level down from it, with the
      other side to move. */
  lemma ChildOneLevelDown(b: Board, m: Move, d: nat, maximizing: bool)
    requires InRange(m)
    ensures ChildScore(b, m, d + 1, maximizing) == Minimax(Place(b, m, Mover(maximizing)), d, !maximizing)
  {
  }

  /** The loop of a maximizing (minimizing) node, run over the listed moves:
      the running maximum (minimum) of the children's scores, None while no
      move has been tried. Defined on a prefix so that it is the value of
      the loop's accumulator after those moves. */
  function Extremum(b: Board, moves: seq<Move>, depth: nat, maximizing: bool): (r: Option<int>)
    requires depth > 0
    requires forall m :: m in moves ==> InRange(m)
    decreases depth, 1, |moves|
    ensures r.None? <==> |moves| == 0
    ensures r.Some? ==> IsScore(r.value)
    ensures r.Some? ==> exists m :: m in moves && ChildScore(b, m, depth, maximizing) == r.value
    ensures r.Some? && maximizing ==>
              forall m :: m in moves ==> ChildScore(b, m, depth, maximizing) <= r.value
    ensures r.Some? && !maximizing ==>
              forall m :: m in moves ==> ChildScore(b, m, depth, maximizing) >= r.value
  {
    if |moves| == 0 then None
    else
      var front := moves[..|moves| - 1];
      var last := moves[|moves| - 1];
      assert forall m :: m in moves ==> m in front || m == last;
      var prev := Extremum(b, front, depth, maximizing);
      Some(Combine(prev, ChildScore(b, last, depth, maximizing), maximizing))
  }

  /** minimax: a finished board, or a board at depth 0, is worth its
      terminal value; otherwise the side to move tries every empty square
      in row-major order and keeps the best score for itself. */
  function Minimax(b: Board, depth: nat, maximizing: bool): (r: int)
    decreases depth, 2, 0
    ensures IsScore(r)
    ensures GameOver(b) == Winner(O) ==> r == 10
    ensures GameOver(b) == Winner(X) ==> r == -10
    ensures GameOver(b) == Draw ==> r == 0
    ensures depth == 0 ==> r == Terminal(GameOver(b))
  {
    var outcome := GameOver(b);
    if depth == 0 || outcome != NotOver then Terminal(outcome)
    else
      NotOverFacts(b);
      var best := Extremum(b, Moves(b), depth, maximizing);
      if best.Some? then best.value else assert false; 0
  }

  /** Below the cut-off, a board still in play is worth the best of its
      children for the side to move: at least as much as every child and
      equal to one of them (a maximum for O, a minimum for X). The search
      never returns its starting infinity, since such a board has a move. */
  lemma MinimaxIsBestChild(b: Board, depth: nat, maximizing: bool)
    requires depth > 0 && GameOver(b) == NotOver
    ensures |Moves(b)| > 0
    ensures exists m :: m in Moves(b) && ChildScore(b, m, depth, maximizing) == Minimax(b, depth, maximizing)
    ensures maximizing ==>
              forall m :: m in Moves(b) ==> ChildScore(b, m, depth, maximizing) <= Minimax(b, depth, maximizing)
    ensures !maximizing ==>
              forall m :: m in Moves(b) ==> ChildScore(b, m, depth, maximizing) >= Minimax(b, depth, maximizing)
  {
    MinimaxIsExtremum(b, depth, maximizing);
  }

  /** Below the cut-off, a board in play is worth what its loop over the
      legal moves accumulates, and that loop does try a move. */
  lemma MinimaxIsExtremum(b: Board, depth: nat, maximizing: bool)
    requires depth > 0 && GameOver(b) == NotOver
    ensures |Moves(b)| > 0
    ensures Extremum(b, Moves(b), depth, maximizing) == Some(Minimax(b, depth, maximizing))
  {
    NotOverFacts(b);
  }

  /** An O win one move away makes a maximizing node worth +10, whatever
      else the board offers: scores do not depend on how far off a win is. */
  lemma ImmediateWinScoresTen(b: Board, depth: nat, w: Move)
    requires depth > 0 && GameOver(b) == NotOver
    requires InRange(w) && At(b, w) == Empty
    requires GameOver(Place(b, w, O)) == Winner(O)
    ensures Minimax(b, depth, true) == 10
  {
    MinimaxIsBestChild(b, depth, true);
    assert w in Moves(b);
    assert ChildScore(b, w, depth, true) == 10;
  }

  /** A minimizing node all of whose children are worth +10 is worth +10. */
  lemma ForcedLossScoresTen(b: Board, depth: nat)
    requires depth > 0 && GameOver(b) == NotOver
    requires forall m :: InRange(m) && At(b, m) == Empty ==> ChildScore(b, m, depth, false) == 10
    ensures Minimax(b, depth, false) == 10
  {
    MinimaxIsBestChild(b, depth, false);
  }

  /** evaluate (never called by the game): +1 when X has won, -1 when O has
      won, 0 otherwise. */
  function Evaluate(b: Board): (r: int)
    ensures r == 1 <==> GameOver(b) == Winner(X)
    ensures r == -1 <==> GameOver(b) == Winner(O)
    ensures r == 0 <==> !GameOver(b).Winner?
  {
    var outcome := GameOver(b);
    if outcome == Winner(X) then 1
    else if outcome == Winner(O) then -1
    else 0
  }

  /** evaluate uses the opposite sign convention to minimax and a scale of
      one instead of ten: it is minimax at depth 0, negated and divided by ten. */
  lemma EvaluateIsNegatedDepthZeroScore(b: Board, maximizing: bool)
    ensures Evaluate(b) * -10 == Minimax(b, 0, maximizing)
    ensures Evaluate(b) == 1 <==> HasLine(b, X) && !(GameOver(b) == Winner(O))
  {
    GameOverSpec(b);
  }
}
