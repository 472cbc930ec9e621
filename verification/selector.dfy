/** The computer's move choice by difficulty (tic-tac-toe.py: computer_move). */
module Selector {
  import opened Wrappers
  import opened Grid
  import opened Search

  /** The three difficulty literals "easy", "medium" and "impossible". */
  datatype Difficulty = Easy | Medium | Impossible

  /** The search depth of the searching tiers: 4 for medium, 9 for impossible. */
  function SearchDepth(d: Difficulty): (r: nat)
    requires d != Easy
    ensures d == Medium ==> r == 4
    ensures d == Impossible ==> r == 9
  {
    if d == Medium then 4 else 9
  }

  /** The score computer_move gives a candidate: O placed at m, then
      minimax with the minimizing side (X) to move. */
  function MoveScore(b: Board, m: Move, depth: nat): (r: int)
    requires InRange(m)
    ensures IsScore(r)
    ensures GameOver(Place(b, m, O)) == Winner(O) ==> r == 10
  {
    Minimax(Place(b, m, O), depth, false)
  }

  /** The pair (best_score, best_move) of computer_move's loop; NoneYet is
      the starting (-inf, None). */
  datatype Best = NoneYet | Kept(score: int, move: Move)

  /** computer_move's loop over the listed candidates, kept on a prefix so
      that it is the loop's state after those candidates: a candidate
      replaces the best so far only when its score is strictly greater. */
  function Pick(b: Board, moves: seq<Move>, depth: nat): (r: Best)
    requires forall m :: m in moves ==> InRange(m)
    requires forall i, j :: 0 <= i < j < |moves| ==> Index(moves[i]) < Index(moves[j])
    ensures r.NoneYet? <==> |moves| == 0
    ensures r.Kept? ==> r.move in moves && r.score == MoveScore(b, r.move, depth)
  {
    if |moves| == 0 then NoneYet
    else
      var front := moves[..|moves| - 1];
      var last := moves[|moves| - 1];
      AscendingSplit(moves);
      var prev := Pick(b, front, depth);
      var score := MoveScore(b, last, depth);
      if prev.NoneYet? || score > prev.score then Kept(score, last) else prev
  }

  /** The candidate the loop keeps scores at least as much as every listed
      candidate and strictly more than every candidate listed before it:
      the first of the best. */
  lemma {:induction false} PickIsFirstBest(b: Board, moves: seq<Move>, depth: nat)
    requires forall m :: m in moves ==> InRange(m)
    requires forall i, j :: 0 <= i < j < |moves| ==> Index(moves[i]) < Index(moves[j])
    ensures Pick(b, moves, depth).Kept? ==>
              forall m :: m in moves ==> MoveScore(b, m, depth) <= Pick(b, moves, depth).score
    ensures Pick(b, moves, depth).Kept? ==>
              forall m :: m in moves && Index(m) < Index(Pick(b, moves, depth).move) ==>
                MoveScore(b, m, depth) < Pick(b, moves, depth).score
  {
    if |moves| > 0 {
      var front := moves[..|moves| - 1];
      AscendingSplit(moves);
      PickIsFirstBest(b, front, depth);
    }
  }

  /** computer_move. The easy tier takes the legal move at position
      `roll mod n` of the n legal moves, standing for random.choice; the
      other tiers take the first move in row-major order with the greatest
      score at their search depth. None when no square is empty. */
  function ComputerMove(b: Board, d: Difficulty, roll: nat): (r: Option<Move>)
    ensures r.None? <==> Empty !in b
    ensures r.Some? ==> r.value in Moves(b) && InRange(r.value) && At(b, r.value) == Empty
    ensures r.Some? && d != Easy ==>
              forall m :: m in Moves(b) ==>
                MoveScore(b, m, SearchDepth(d)) <= MoveScore(b, r.value, SearchDepth(d))
    ensures r.Some? && d != Easy ==>
              forall m :: m in Moves(b) && Index(m) < Index(r.value) ==>
                MoveScore(b, m, SearchDepth(d)) < MoveScore(b, r.value, SearchDepth(d))
  {
    var moves := Moves(b);
    if d == Easy then
      if |moves| > 0 then Some(moves[roll % |moves|]) else None
    else
      PickIsFirstBest(b, moves, SearchDepth(d));
      match Pick(b, moves, SearchDepth(d))
      case NoneYet => None
      case Kept(_, m) => Some(m)
  }

  lemma SmallRemainder(i: nat, n: nat)
    requires i < n
    ensures i % n == i
  {
  }

  /** Every legal move is one the easy tier can return, for some roll. */
  lemma EasyCanPickAnyMove(b: Board, m: Move)
    requires m in Moves(b)
    ensures exists roll: nat :: ComputerMove(b, Easy, roll) == Some(m)
  {
    var moves := Moves(b);
    var i :| 0 <= i < |moves| && moves[i] == m;
    SmallRemainder(i, |moves|);
    assert ComputerMove(b, Easy, i) == Some(m);
  }

  /** The searching tiers return exactly the move that is best and first:
      any legal move scoring at least as much as every other and strictly
      more than every earlier one is the one chosen. */
  lemma SearchingChoiceIsUnique(b: Board, d: Difficulty, roll: nat, m: Move)
    requires d != Easy && m in Moves(b)
    requires forall n :: n in Moves(b) ==> MoveScore(b, n, SearchDepth(d)) <= MoveScore(b, m, SearchDepth(d))
    requires forall n :: n in Moves(b) && Index(n) < Index(m) ==>
               MoveScore(b, n, SearchDepth(d)) < MoveScore(b, m, SearchDepth(d))
    ensures ComputerMove(b, d, roll) == Some(m)
  {
    var r := ComputerMove(b, d, roll);
    assert r.Some?;
    var c := r.value;
    if Index(c) < Index(m) {
      assert false;
    } else if Index(m) < Index(c) {
      assert false;
    }
    IndexInjective(c, m);
  }

  /** A searching tier returns the first legal move whenever that move
      scores +10: no move can score more, and none comes before it. */
  lemma FirstWinningMoveIsChosen(b: Board, d: Difficulty, roll: nat, m: Move)
    requires d != Easy && m in Moves(b)
    requires forall n :: n in Moves(b) ==> Index(m) <= Index(n)
    requires MoveScore(b, m, SearchDepth(d)) == 10
    ensures ComputerMove(b, d, roll) == Some(m)
  {
    SearchingChoiceIsUnique(b, d, roll, m);
  }

  /** X X _ / O O _ / _ _ _ with O to move. */
  const ForkBoard: Board := [X, X, Empty, O, O, Empty, Empty, Empty, Empty]

  /** ForkBoard after O takes the corner (0,2). */
  const CornerTaken: Board := [X, X, O, O, O, Empty, Empty, Empty, Empty]

  /** Whatever X replies on CornerTaken, O still has a winning square. */
  lemma CornerReplyLoses(m: Move, depth: nat)
    requires depth >= 1
    requires InRange(m) && At(CornerTaken, m) == Empty
    ensures Minimax(Place(CornerTaken, m, X), depth, true) == 10
  {
    CornerTakenReplies(m);
    var b2 := Place(CornerTaken, m, X);
    if m == Move(1, 2) {
      assert b2 == [X, X, O, O, O, X, Empty, Empty, Empty];
      assert Place(b2, Move(2, 0), O) == [X, X, O, O, O, X, O, Empty, Empty];
      ImmediateWinScoresTen(b2, depth, Move(2, 0));
    } else if m == Move(2, 0) {
      assert b2 == [X, X, O, O, O, Empty, X, Empty, Empty];
      assert Place(b2, Move(1, 2), O) == [X, X, O, O, O, O, X, Empty, Empty];
      ImmediateWinScoresTen(b2, depth, Move(1, 2));
    } else if m == Move(2, 1) {
      assert b2 == [X, X, O, O, O, Empty, Empty, X, Empty];
      assert Place(b2, Move(1, 2), O) == [X, X, O, O, O, O, Empty, X, Empty];
      ImmediateWinScoresTen(b2, depth, Move(1, 2));
    } else {
      assert b2 == [X, X, O, O, O, Empty, Empty, Empty, X];
      assert Place(b2, Move(1, 2), O) == [X, X, O, O, O, O, Empty, Empty, X];
      ImmediateWinScoresTen(b2, depth, Move(1, 2));
    }
  }

  /** The squares X can answer with on CornerTaken. */
  lemma CornerTakenReplies(m: Move)
    requires InRange(m) && At(CornerTaken, m) == Empty
    ensures m == Move(1, 2) || m == Move(2, 0) || m == Move(2, 1) || m == Move(2, 2)
  {
    assert CornerTaken[Index(m)] == Empty;
    assert Index(m) >= 5;
    if Index(m) == 5 {
      IndexInjective(m, Move(1, 2));
    } else if Index(m) == 6 {
      IndexInjective(m, Move(2, 0));
    } else if Index(m) == 7 {
      IndexInjective(m, Move(2, 1));
    } else {
      IndexInjective(m, Move(2, 2));
    }
  }

  /** Every X reply to the corner is answered by an O win: worth +10 to
      the minimizing node above it (search depth d + 1, with d >= 1). */
  lemma CornerChildScoresTen(m: Move, d: nat)
    requires d >= 1
    requires InRange(m) && At(CornerTaken, m) == Empty
    ensures ChildScore(CornerTaken, m, d + 1, false) == 10
  {
    CornerReplyLoses(m, d);
    ChildOneLevelDown(CornerTaken, m, d, false);
  }

  /** Every X reply on CornerTaken is worth +10 to the minimizing node. */
  lemma CornerRepliesAllLose(d: nat)
    requires d >= 1
    ensures forall m :: InRange(m) && At(CornerTaken, m) == Empty ==> ChildScore(CornerTaken, m, d + 1, false) == 10
  {
    forall m | InRange(m) && At(CornerTaken, m) == Empty
      ensures ChildScore(CornerTaken, m, d + 1, false) == 10
    {
      CornerChildScoresTen(m, d);
    }
  }

  /** O's corner (0,2) on ForkBoard leads to CornerTaken, still in play. */
  lemma ForkCornerLeadsToCornerTaken()
    ensures Place(ForkBoard, Move(0, 2), O) == CornerTaken
    ensures GameOver(CornerTaken) == NotOver
  {
  }

  /** After O takes the corner (0,2) of ForkBoard it holds two open lines,
      through (1,2) and (2,0): every X reply leaves O a win, so the corner
      scores +10 at any search depth d + 1 of at least 2. */
  lemma ForkCornerScoresTen(d: nat)
    requires d >= 1
    ensures MoveScore(ForkBoard, Move(0, 2), d + 1) == 10
  {
    ForkCornerLeadsToCornerTaken();
    CornerRepliesAllLose(d);
    ForcedReplyScoresTen(ForkBoard, Move(0, 2), d);
  }

  /** A candidate after which the game goes on and every X reply is worth
      +10 to O scores +10. */
  lemma ForcedReplyScoresTen(b: Board, m: Move, d: nat)
    requires InRange(m) && GameOver(Place(b, m, O)) == NotOver
    requires forall r :: InRange(r) && At(Place(b, m, O), r) == Empty ==>
               ChildScore(Place(b, m, O), r, d + 1, false) == 10
    ensures MoveScore(b, m, d + 1) == 10
  {
    ForcedLossScoresTen(Place(b, m, O), d + 1);
  }

  /** (0,2) is the first empty square of ForkBoard in row-major order. */
  lemma ForkCornerIsFirstMove()
    ensures Move(0, 2) in Moves(ForkBoard)
    ensures forall n :: n in Moves(ForkBoard) ==> Index(Move(0, 2)) <= Index(n)
  {
    forall n | n in Moves(ForkBoard)
      ensures Index(Move(0, 2)) <= Index(n)
    {
      assert At(ForkBoard, n) == Empty;
    }
  }

  /** On ForkBoard, O at (1,2) completes the middle row at once, and the
      selector scores that move +10 at both searching depths. */
  lemma ForkBoardHasImmediateWin()
    ensures GameOver(Place(ForkBoard, Move(1, 2), O)) == Winner(O)
    ensures MoveScore(ForkBoard, Move(1, 2), 4) == 10
    ensures MoveScore(ForkBoard, Move(1, 2), 9) == 10
  {
    assert Place(ForkBoard, Move(1, 2), O) == [X, X, Empty, O, O, O, Empty, Empty, Empty];
  }

  /** On X X _ / O O _ / _ _ _ the medium tier plays the corner (0,2),
      not the immediate win at (1,2): both score +10, since a win is worth
      the same however far off it is, and the strict comparison keeps the
      first of equal scores. */
  lemma MediumPlaysForkCorner(roll: nat)
    ensures ComputerMove(ForkBoard, Medium, roll) == Some(Move(0, 2))
  {
    ForkCornerIsFirstMove();
    ForkCornerScoresTen(3);
    FirstWinningMoveIsChosen(ForkBoard, Medium, roll, Move(0, 2));
  }

  /** The impossible tier makes the same choice as the medium tier there. */
  lemma ImpossiblePlaysForkCorner(roll: nat)
    ensures ComputerMove(ForkBoard, Impossible, roll) == Some(Move(0, 2))
  {
    ForkCornerIsFirstMove();
    ForkCornerScoresTen(8);
    FirstWinningMoveIsChosen(ForkBoard, Impossible, roll, Move(0, 2));
  }
}
