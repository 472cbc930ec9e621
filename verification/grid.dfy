/** The 3x3 board, its winning lines, terminal-state detection and
    legal-move generation (tic-tac-toe.py: game_over, generate_moves). */
module Grid {

  /** One square: the source's " ", "X" and "O". */
  datatype Cell = Empty | X | O

  /** The grid, flattened row-major: square (row, col) is at 3 * row + col. */
  type Board = b: seq<Cell> | |b| == 9
    witness [Empty, Empty, Empty, Empty, Empty, Empty, Empty, Empty, Empty]

  /** The board a game starts from: nine blank squares. */
  const EmptyBoard: Board := [Empty, Empty, Empty, Empty, Empty, Empty, Empty, Empty, Empty]

  /** A (row, col) coordinate pair, as generate_moves produces them. */
  datatype Move = Move(row: int, col: int)

  predicate InRange(m: Move) {
    0 <= m.row < 3 && 0 <= m.col < 3
  }

  /** Position of a square in the flattened board. */
  function Index(m: Move): (i: nat)
    requires InRange(m)
    ensures i < 9
  {
    3 * m.row + m.col
  }

  /** Distinct squares have distinct positions. */
  lemma IndexInjective(m: Move, n: Move)
    requires InRange(m) && InRange(n) && Index(m) == Index(n)
    ensures m == n
  {
  }

  /** The square at a flattened position. */
  function MoveAt(i: nat): Move
    requires i < 9
  {
    Move(i / 3, i % 3)
  }

  /** MoveAt inverts Index. */
  lemma MoveAtIndex(i: nat)
    requires i < 9
    ensures InRange(MoveAt(i)) && Index(MoveAt(i)) == i
  {
  }

  function At(b: Board, m: Move): Cell
    requires InRange(m)
  {
    b[Index(m)]
  }

  /** `board[row][col] = c`: used both to play a mark and, with Empty, to undo it. */
  function Place(b: Board, m: Move, c: Cell): (r: Board)
    requires InRange(m)
    ensures r[Index(m)] == c
    ensures forall i :: 0 <= i < 9 && i != Index(m) ==> r[i] == b[i]
  {
    b[Index(m) := c]
  }

  /** The result of game_over: a winning mark, "Draw", or None (not over). */
  datatype Outcome = NotOver | Winner(mark: Cell) | Draw

  /** The eight winning lines in the order game_over scans them:
      the three rows, the three columns, the main diagonal, the anti-diagonal. */
  function Line(k: nat): (cells: (nat, nat, nat))
    requires k < 8
    ensures cells.0 < 9 && cells.1 < 9 && cells.2 < 9
  {
    match k
    case 0 => (0, 1, 2)
    case 1 => (3, 4, 5)
    case 2 => (6, 7, 8)
    case 3 => (0, 3, 6)
    case 4 => (1, 4, 7)
    case 5 => (2, 5, 8)
    case 6 => (0, 4, 8)
    case _ => (2, 4, 6)
  }

  /** Line k holds three copies of c. */
  predicate LineOf(b: Board, k: nat, c: Cell)
    requires k < 8
  {
    b[Line(k).0] == c && b[Line(k).1] == c && b[Line(k).2] == c
  }

  /** Some line holds three copies of c. */
  predicate HasLine(b: Board, c: Cell) {
    exists k :: 0 <= k < 8 && LineOf(b, k, c)
  }

  /** Line k is filled by one mark. */
  predicate Complete(b: Board, k: nat)
    requires k < 8
  {
    b[Line(k).0] != Empty && LineOf(b, k, b[Line(k).0])
  }

  /** The chained comparison `p == q == r != " "`. */
  predicate Same3(p: Cell, q: Cell, r: Cell) {
    p == q && q == r && r != Empty
  }

  /** game_over, written as the source writes it: the rows, then the
      columns, then the two diagonals, then the test for a blank square. */
  function GameOver(b: Board): (r: Outcome)
    ensures r.Winner? ==> r.mark != Empty
  {
    if Same3(b[0], b[1], b[2]) then Winner(b[0])
    else if Same3(b[3], b[4], b[5]) then Winner(b[3])
    else if Same3(b[6], b[7], b[8]) then Winner(b[6])
    else if Same3(b[0], b[3], b[6]) then Winner(b[0])
    else if Same3(b[1], b[4], b[7]) then Winner(b[1])
    else if Same3(b[2], b[5], b[8]) then Winner(b[2])
    else if Same3(b[0], b[4], b[8]) then Winner(b[0])
    else if Same3(b[2], b[4], b[6]) then Winner(b[2])
    else if Empty in b then NotOver
    else Draw
  }

  /** Reference definition: scan the line table from line k on; the first
      complete line names the winner, and only when no line is complete
      does the blank-square test decide between not over and a draw. */
  function ScanFrom(b: Board, k: nat): (r: Outcome)
    requires k <= 8
    decreases 8 - k
    ensures r.Winner? <==> exists j :: k <= j < 8 && Complete(b, j)
    ensures r.Winner? ==> r.mark != Empty
    ensures r.Winner? ==> exists j :: k <= j < 8 && Complete(b, j) && r.mark == b[Line(j).0]
                                 && forall i :: k <= i < j ==> !Complete(b, i)
    ensures r == Draw <==> (forall j :: k <= j < 8 ==> !Complete(b, j)) && Empty !in b
    ensures r == NotOver <==> (forall j :: k <= j < 8 ==> !Complete(b, j)) && Empty in b
  {
    if k == 8 then (if Empty in b then NotOver else Draw)
    else if Complete(b, k) then Winner(b[Line(k).0])
    else ScanFrom(b, k + 1)
  }

  /** One step of the table scan. */
  lemma ScanStep(b: Board, k: nat)
    requires k < 8
    ensures ScanFrom(b, k) == if Complete(b, k) then Winner(b[Line(k).0]) else ScanFrom(b, k + 1)
  {
  }

  /** The hand-unrolled checks of game_over are exactly the table scan. */
  lemma {:induction false} GameOverIsLineScan(b: Board)
    ensures GameOver(b) == ScanFrom(b, 0)
  {
    ScanStep(b, 7);
    assert Complete(b, 7) == Same3(b[2], b[4], b[6]);
    ScanStep(b, 6);
    assert Complete(b, 6) == Same3(b[0], b[4], b[8]);
    ScanStep(b, 5);
    assert Complete(b, 5) == Same3(b[2], b[5], b[8]);
    ScanStep(b, 4);
    assert Complete(b, 4) == Same3(b[1], b[4], b[7]);
    ScanStep(b, 3);
    assert Complete(b, 3) == Same3(b[0], b[3], b[6]);
    ScanStep(b, 2);
    assert Complete(b, 2) == Same3(b[6], b[7], b[8]);
    ScanStep(b, 1);
    assert Complete(b, 1) == Same3(b[3], b[4], b[5]);
    ScanStep(b, 0);
    assert Complete(b, 0) == Same3(b[0], b[1], b[2]);
  }

  /** game_over returns mark m exactly when some line holds three m's and
      no earlier line in scan order is complete; otherwise "Draw" exactly
      when no square is blank (so a full board with a line is a win), and
      None otherwise. */
  lemma GameOverSpec(b: Board)
    ensures GameOver(b).Winner? <==> exists k :: 0 <= k < 8 && Complete(b, k)
    ensures GameOver(b).Winner? ==>
              exists k :: 0 <= k < 8 && LineOf(b, k, GameOver(b).mark)
                          && forall j :: 0 <= j < k ==> !Complete(b, j)
    ensures GameOver(b) == Draw <==> (forall k :: 0 <= k < 8 ==> !Complete(b, k)) && Empty !in b
    ensures GameOver(b) == NotOver <==> (forall k :: 0 <= k < 8 ==> !Complete(b, k)) && Empty in b
    ensures GameOver(b).Winner? <==> HasLine(b, X) || HasLine(b, O)
    ensures GameOver(b).Winner? ==> HasLine(b, GameOver(b).mark)
  {
    GameOverIsLineScan(b);
    if HasLine(b, X) {
      var k :| 0 <= k < 8 && LineOf(b, k, X);
      assert Complete(b, k);
    }
    if HasLine(b, O) {
      var k :| 0 <= k < 8 && LineOf(b, k, O);
      assert Complete(b, k);
    }
    if GameOver(b).Winner? {
      var k :| 0 <= k < 8 && Complete(b, k) && GameOver(b).mark == b[Line(k).0];
      assert LineOf(b, k, GameOver(b).mark);
    }
  }

  /** A board that is not over has no line of either mark and a blank square. */
  lemma NotOverFacts(b: Board)
    requires GameOver(b) == NotOver
    ensures !HasLine(b, X) && !HasLine(b, O) && Empty in b
  {
    GameOverSpec(b);
  }

  /** The empty squares from flattened position k on, in row-major order. */
  function MovesFrom(b: Board, k: nat): (ms: seq<Move>)
    requires k <= 9
    decreases 9 - k
    ensures forall m :: m in ms ==> InRange(m)
    ensures forall m :: m in ms <==> InRange(m) && k <= Index(m) && At(b, m) == Empty
    ensures forall i, j :: 0 <= i < j < |ms| ==> Index(ms[i]) < Index(ms[j])
  {
    if k == 9 then []
    else if b[k] == Empty then MoveAtIndex(k); [MoveAt(k)] + MovesFrom(b, k + 1)
    else MovesFrom(b, k + 1)
  }

  /** A list of squares in strictly increasing row-major order, split
      before its last square: the front keeps the order and every square of
      it comes before the last. */
  lemma AscendingSplit(ms: seq<Move>)
    requires |ms| > 0
    requires forall m :: m in ms ==> InRange(m)
    requires forall i, j :: 0 <= i < j < |ms| ==> Index(ms[i]) < Index(ms[j])
    ensures forall m :: m in ms <==> m in ms[..|ms| - 1] || m == ms[|ms| - 1]
    ensures forall m :: m in ms[..|ms| - 1] ==> InRange(m) && Index(m) < Index(ms[|ms| - 1])
  {
    var front := ms[..|ms| - 1];
    forall m | m in front
      ensures Index(m) < Index(ms[|ms| - 1])
    {
      var i :| 0 <= i < |front| && front[i] == m;
      assert ms[i] == m;
    }
  }

  /** generate_moves: every empty square exactly once, in row-major order,
      and nothing else. */
  function Moves(b: Board): (ms: seq<Move>)
    ensures forall m :: m in ms ==> InRange(m)
    ensures forall m :: m in ms <==> InRange(m) && At(b, m) == Empty
    ensures forall i, j :: 0 <= i < j < |ms| ==> Index(ms[i]) < Index(ms[j])
    ensures |ms| == 0 <==> Empty !in b
  {
    BlankSquareIsListed(b);
    MovesFrom(b, 0)
  }

  lemma BlankSquareIsListed(b: Board)
    ensures Empty in b ==> |MovesFrom(b, 0)| > 0
  {
    if Empty in b {
      var i :| 0 <= i < 9 && b[i] == Empty;
      MoveAtIndex(i);
      assert MoveAt(i) in MovesFrom(b, 0);
    }
  }

  /** All squares from flattened position k on. */
  function AllFrom(k: nat): seq<Move>
    requires k <= 9
    decreases 9 - k
  {
    if k == 9 then [] else [MoveAt(k)] + AllFrom(k + 1)
  }

  lemma {:induction false} BlankSuffix(k: nat)
    requires k <= 9
    decreases 9 - k
    ensures MovesFrom(EmptyBoard, k) == AllFrom(k)
  {
    if k < 9 {
      assert EmptyBoard[k] == Empty;
      BlankSuffix(k + 1);
    }
  }

  lemma AllSquaresInOrder()
    ensures AllFrom(0) == [Move(0, 0), Move(0, 1), Move(0, 2),
                           Move(1, 0), Move(1, 1), Move(1, 2),
                           Move(2, 0), Move(2, 1), Move(2, 2)]
  {
  }

  /** On an empty board generate_moves lists all nine squares, row by row. */
  lemma MovesOfEmptyBoard()
    ensures Moves(EmptyBoard) == [Move(0, 0), Move(0, 1), Move(0, 2),
                                  Move(1, 0), Move(1, 1), Move(1, 2),
                                  Move(2, 0), Move(2, 1), Move(2, 2)]
  {
    BlankSuffix(0);
    AllSquaresInOrder();
  }

  /** On a full board generate_moves lists nothing. */
  lemma MovesOfFullBoard(b: Board)
    requires Empty !in b
    ensures Moves(b) == []
  {
  }

  /** Number of squares holding c. */
  function Count(b: Board, c: Cell): nat {
    multiset(b)[c]
  }

  /** Marking an empty square adds one c and leaves the other marks' counts alone. */
  lemma PlaceCounts(b: Board, m: Move, c: Cell, d: Cell)
    requires InRange(m) && At(b, m) == Empty && c != Empty
    ensures Count(Place(b, m, c), c) == Count(b, c) + 1
    ensures d != c && d != Empty ==> Count(Place(b, m, c), d) == Count(b, d)
  {
  }

  /** Marking an empty square with c creates no line of any other mark d. */
  lemma PlaceKeepsOtherLines(b: Board, m: Move, c: Cell, d: Cell)
    requires InRange(m) && At(b, m) == Empty && d != c && d != Empty
    ensures HasLine(Place(b, m, c), d) <==> HasLine(b, d)
  {
    var p := Place(b, m, c);
    if HasLine(p, d) {
      var k :| 0 <= k < 8 && LineOf(p, k, d);
      assert LineOf(b, k, d);
    }
    if HasLine(b, d) {
      var k :| 0 <= k < 8 && LineOf(b, k, d);
      assert LineOf(p, k, d);
    }
  }
}
