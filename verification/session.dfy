/** The human move and one turn of the game loop (tic-tac-toe.py:
    player_move and the move sequence of play_game). */
module Session {
  import opened Wrappers
  import opened Grid
  import opened Search
  import opened Selector

  /** player_move on an already resolved square: an empty square takes an
      X (the call returns True); an occupied one is refused (False) and the
      board is left alone. None stands for the refusal. */
  function PlayerMove(b: Board, m: Move): (r: Option<Board>)
    requires InRange(m)
    ensures r.Some? <==> At(b, m) == Empty
    ensures r.Some? ==> r.value[Index(m)] == X
    ensures r.Some? ==> forall i :: 0 <= i < 9 && i != Index(m) ==> r.value[i] == b[i]
  {
    if At(b, m) == Empty then Some(Place(b, m, X)) else None
  }

  /** What a click does: the board after it and whether the human's X was
      accepted. */
  datatype TurnResult = TurnResult(board: Board, accepted: bool)

  /** One click of play_game: nothing happens once the game is over or on
      an occupied square; otherwise X is placed, and if that does not end
      the game the computer chooses a square (with `roll` standing for its
      random source) and places O there. */
  function Turn(b: Board, d: Difficulty, m: Move, roll: nat): (r: TurnResult)
    requires InRange(m)
    ensures r.accepted ==> GameOver(b) == NotOver && At(b, m) == Empty
    ensures !r.accepted ==> r.board == b
  {
    if GameOver(b) != NotOver then TurnResult(b, false)
    else match PlayerMove(b, m)
      case None => TurnResult(b, false)
      case Some(afterX) =>
        if GameOver(afterX) != NotOver then TurnResult(afterX, true)
        else match ComputerMove(afterX, d, roll)
          case None => TurnResult(afterX, true)
          case Some(c) => TurnResult(Place(afterX, c, O), true)
  }

  /** A click is accepted exactly while the game is not over and the square
      is empty; a refused click changes nothing. */
  lemma TurnAcceptance(b: Board, d: Difficulty, m: Move, roll: nat)
    requires InRange(m)
    ensures Turn(b, d, m, roll).accepted <==> GameOver(b) == NotOver && At(b, m) == Empty
    ensures !Turn(b, d, m, roll).accepted ==> Turn(b, d, m, roll).board == b
  {
  }

  /** No click changes a mark already on the board. */
  lemma TurnKeepsMarks(b: Board, d: Difficulty, m: Move, roll: nat)
    requires InRange(m)
    ensures forall i :: 0 <= i < 9 && b[i] != Empty ==> Turn(b, d, m, roll).board[i] == b[i]
  {
  }

  /** A click on an empty square while the game is in play adds one X at
      that square, and adds one O exactly when X's move left the game
      undecided. */
  lemma TurnMarks(b: Board, d: Difficulty, m: Move, roll: nat)
    requires InRange(m) && GameOver(b) == NotOver && At(b, m) == Empty
    ensures Turn(b, d, m, roll).board[Index(m)] == X
    ensures Count(Turn(b, d, m, roll).board, X) == Count(b, X) + 1
    ensures Count(Turn(b, d, m, roll).board, O) ==
              Count(b, O) + (if GameOver(Place(b, m, X)) == NotOver then 1 else 0)
  {
    var r := Turn(b, d, m, roll);
    var afterX := Place(b, m, X);
    assert PlayerMove(b, m) == Some(afterX);
    PlaceCounts(b, m, X, O);
    if GameOver(afterX) == NotOver {
      NotOverFacts(afterX);
      var c := ComputerMove(afterX, d, roll).value;
      assert r.board == Place(afterX, c, O);
      assert Index(c) != Index(m);
      PlaceCounts(afterX, c, O, X);
    } else {
      assert r.board == afterX;
    }
  }

  /** The facts every board reached by clicks from the empty board keeps:
      X has made as many moves as O or one more, one more only once the
      game is over, and the two marks never both hold a line. */
  predicate Consistent(b: Board) {
    && (Count(b, X) == Count(b, O) || Count(b, X) == Count(b, O) + 1)
    && (Count(b, X) == Count(b, O) + 1 ==> GameOver(b) != NotOver)
    && !(HasLine(b, X) && HasLine(b, O))
  }

  lemma EmptyBoardConsistent()
    ensures Consistent(EmptyBoard)
    ensures GameOver(EmptyBoard) == NotOver
  {
    assert Count(EmptyBoard, X) == 0 && Count(EmptyBoard, O) == 0;
    assert !HasLine(EmptyBoard, X);
    assert !HasLine(EmptyBoard, O);
  }

  /** Every click keeps the board consistent. */
  lemma TurnKeepsConsistent(b: Board, d: Difficulty, m: Move, roll: nat)
    requires InRange(m) && Consistent(b)
    ensures Consistent(Turn(b, d, m, roll).board)
  {
    TurnAcceptance(b, d, m, roll);
    var r := Turn(b, d, m, roll);
    if r.accepted {
      TurnMarks(b, d, m, roll);
      NotOverFacts(b);
      var afterX := Place(b, m, X);
      PlaceKeepsOtherLines(b, m, X, O);
      if GameOver(afterX) == NotOver {
        NotOverFacts(afterX);
        var c := ComputerMove(afterX, d, roll).value;
        assert r.board == Place(afterX, c, O);
        PlaceKeepsOtherLines(afterX, c, O, X);
      }
    }
  }

  /** One click: the square clicked and the value of the computer's random
      source for the reply. */
  datatype Click = Click(square: Move, roll: nat)

  predicate ValidClicks(clicks: seq<Click>) {
    forall i :: 0 <= i < |clicks| ==> InRange(clicks[i].square)
  }

  /** The board after a game at difficulty d has received the clicks, in
      order, starting from the empty board. Each click places at most one X. */
  function Play(d: Difficulty, clicks: seq<Click>): (r: Board)
    requires ValidClicks(clicks)
    ensures Count(r, X) <= |clicks|
  {
    if |clicks| == 0 then
      EmptyBoardConsistent();
      EmptyBoard
    else
      var front := clicks[..|clicks| - 1];
      var last := clicks[|clicks| - 1];
      assert ValidClicks(front);
      var before := Play(d, front);
      TurnAddsAtMostOneX(before, d, last.square, last.roll);
      Turn(before, d, last.square, last.roll).board
  }

  /** A click adds at most one X. */
  lemma TurnAddsAtMostOneX(b: Board, d: Difficulty, m: Move, roll: nat)
    requires InRange(m)
    ensures Count(Turn(b, d, m, roll).board, X) <= Count(b, X) + 1
  {
    if Turn(b, d, m, roll).accepted {
      TurnMarks(b, d, m, roll);
    }
  }

  /** Every board a game can reach is consistent: the X count minus the O
      count is 0 or 1, and no board shows a line of both marks. */
  lemma {:induction false} PlayIsConsistent(d: Difficulty, clicks: seq<Click>)
    requires ValidClicks(clicks)
    ensures Consistent(Play(d, clicks))
  {
    if |clicks| == 0 {
      EmptyBoardConsistent();
    } else {
      var front := clicks[..|clicks| - 1];
      assert ValidClicks(front);
      PlayIsConsistent(d, front);
      var last := clicks[|clicks| - 1];
      TurnKeepsConsistent(Play(d, front), d, last.square, last.roll);
    }
  }
}
