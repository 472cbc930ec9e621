/** The engine as the source runs it: on one mutable board, each trial
    mark placed and then undone (tic-tac-toe.py: generate_moves, minimax,
    computer_move, player_move, and the move sequence of play_game). Every
    method is proved to compute what the functional model computes and,
    for the search, to hand the board back exactly as it found it. */
module InPlace {
  import opened Wrappers
  import opened Grid
  import opened Search
  import opened Selector
  import opened Session

  /** generate_moves: the two nested loops over rows and columns. */
  method GenerateMoves(a: array<Cell>) returns (moves: seq<Move>)
    requires a.Length == 9
    ensures moves == Moves(a[..])
  {
    ghost var b: Board := a[..];
    moves := [];
    var row := 0;
    while row < 3
      invariant 0 <= row <= 3
      invariant moves + MovesFrom(b, 3 * row) == Moves(b)
    {
      moves := ScanRow(a, b, row, moves, Moves(b));
      row := row + 1;
    }
  }

  /** The inner loop of generate_moves: the empty squares of one row, left
      to right, appended to those of the rows above (`all` is the complete
      list the scan is building). */
  method ScanRow(a: array<Cell>, ghost b: Board, row: nat, above: seq<Move>, ghost all: seq<Move>)
    returns (moves: seq<Move>)
    requires a.Length == 9 && row < 3
    requires forall k :: 0 <= k < 9 ==> a[k] == b[k]
    requires above + MovesFrom(b, 3 * row) == all
    ensures moves + MovesFrom(b, 3 * row + 3) == all
  {
    moves := above;
    var col := 0;
    while col < 3
      invariant 0 <= col <= 3
      invariant moves + MovesFrom(b, 3 * row + col) == all
    {
      var k := 3 * row + col;
      ScanSquare(b, row, col, moves, all);
      if a[k] == Empty {
        moves := moves + [Move(row, col)];
      }
      col := col + 1;
    }
  }

  /** Looking at square (row, col) extends the listed prefix exactly as
      the rest of the row-major scan expects. */
  lemma ScanSquare(b: Board, row: nat, col: nat, prefix: seq<Move>, all: seq<Move>)
    requires row < 3 && col < 3
    requires prefix + MovesFrom(b, 3 * row + col) == all
    ensures (if b[3 * row + col] == Empty then prefix + [Move(row, col)] else prefix)
              + MovesFrom(b, 3 * row + col + 1) == all
  {
    var k := 3 * row + col;
    MoveAtIndex(k);
    IndexInjective(MoveAt(k), Move(row, col));
    if b[k] == Empty {
      assert MovesFrom(b, k) == [Move(row, col)] + MovesFrom(b, k + 1);
      assert prefix + [Move(row, col)] + MovesFrom(b, k + 1) == prefix + ([Move(row, col)] + MovesFrom(b, k + 1));
    }
  }

  /** What the search loops rely on about the list they run over: every
      move is on the board and empty, in strictly increasing row-major order
      (as generate_moves lists them). */
  predicate Candidates(b: Board, moves: seq<Move>) {
    && (forall m :: m in moves ==> InRange(m) && At(b, m) == Empty)
    && (forall p, q :: 0 <= p < q < |moves| ==> Index(moves[p]) < Index(moves[q]))
  }

  lemma MovesAreCandidates(b: Board)
    ensures Candidates(b, Moves(b))
  {
  }

  /** The prefix one longer is the prefix with the next element appended. */
  lemma SliceExtends(moves: seq<Move>, i: nat)
    requires i < |moves|
    ensures moves[..i + 1] == moves[..i] + [moves[i]]
  {
  }

  /** A prefix of a candidate list is a candidate list. */
  lemma PrefixCandidates(b: Board, moves: seq<Move>, n: nat)
    requires Candidates(b, moves) && n <= |moves|
    ensures Candidates(b, moves[..n])
  {
    forall m | m in moves[..n]
      ensures m in moves
    {
      var k :| 0 <= k < n && moves[..n][k] == m;
      assert moves[k] == m;
    }
  }

  /** One child of a minimax node: the side to move places its mark at m,
      the search runs one level deeper, and the square is emptied again. */
  method ChildInPlace(a: array<Cell>, m: Move, depth: nat, maximizing: bool) returns (eval: int)
    requires a.Length == 9 && InRange(m) && depth > 0 && a[Index(m)] == Empty
    modifies a
    ensures a[..] == old(a[..])
    ensures eval == ChildScore(old(a[..]), m, depth, maximizing)
    decreases depth, 0
  {
    ghost var b: Board := a[..];
    ghost var child: Board := Place(b, m, Mover(maximizing));
    var k := Index(m);
    a[k] := Mover(maximizing);
    assert a[..] == child;
    var below: nat := depth - 1;
    eval := MinimaxInPlace(a, below, !maximizing);
    ChildOneLevelDown(b, m, below, maximizing);
    a[k] := Empty;
    assert a[..] == b;
  }

  /** The value a minimax node's loop holds after its first n children. */
  function ExtremumPrefix(b: Board, moves: seq<Move>, n: nat, depth: nat, maximizing: bool): Option<int>
    requires depth > 0 && Candidates(b, moves) && n <= |moves|
  {
    PrefixCandidates(b, moves, n);
    Extremum(b, moves[..n], depth, maximizing)
  }

  /** Extending the prefix by one child folds that child's score into the
      running max (min). */
  lemma ExtremumStep(b: Board, moves: seq<Move>, i: nat, depth: nat, maximizing: bool, best: Option<int>, eval: int)
    requires depth > 0 && Candidates(b, moves) && i < |moves|
    requires best == ExtremumPrefix(b, moves, i, depth, maximizing)
    requires eval == ChildScore(b, moves[i], depth, maximizing)
    ensures ExtremumPrefix(b, moves, i + 1, depth, maximizing) == Some(Combine(best, eval, maximizing))
  {
    PrefixCandidates(b, moves, i);
    PrefixCandidates(b, moves, i + 1);
    SliceExtends(moves, i);
    ExtremumLast(b, moves[..i], moves[i], depth, maximizing);
  }

  /** Extremum over a list with one more move at the end. */
  lemma ExtremumLast(b: Board, front: seq<Move>, m: Move, depth: nat, maximizing: bool)
    requires depth > 0 && Candidates(b, front) && Candidates(b, front + [m])
    ensures m in front + [m] && InRange(m)
    ensures Extremum(b, front + [m], depth, maximizing) ==
              Some(Combine(Extremum(b, front, depth, maximizing), ChildScore(b, m, depth, maximizing), maximizing))
  {
    var s := front + [m];
    assert s[|s| - 1] == m;
    assert s[..|s| - 1] == front;
  }

  /** One pass of a minimax node's loop: the i-th child is searched and
      folded into the running max (min). */
  method TryChild(a: array<Cell>, ghost b: Board, moves: seq<Move>, i: nat, depth: nat, maximizing: bool,
                  best: Option<int>) returns (next: Option<int>)
    requires a.Length == 9 && a[..] == b && depth > 0
    requires Candidates(b, moves) && i < |moves|
    requires best == ExtremumPrefix(b, moves, i, depth, maximizing)
    modifies a
    ensures a[..] == b
    ensures next == ExtremumPrefix(b, moves, i + 1, depth, maximizing)
    decreases depth, 1
  {
    assert moves[i] in moves && a[Index(moves[i])] == b[Index(moves[i])];
    var eval := ChildInPlace(a, moves[i], depth, maximizing);
    ExtremumStep(b, moves, i, depth, maximizing, best, eval);
    next := Some(Combine(best, eval, maximizing));
  }

  /** The loop of a minimax node: best starts at -inf (+inf) and takes the
      max (min) with each child's score in turn. */
  method ExtremumInPlace(a: array<Cell>, ghost b: Board, moves: seq<Move>, depth: nat, maximizing: bool)
    returns (best: Option<int>)
    requires a.Length == 9 && a[..] == b && depth > 0
    requires Candidates(b, moves)
    modifies a
    ensures a[..] == b
    ensures best == Extremum(b, moves, depth, maximizing)
    decreases depth, 2
  {
    best := None;
    var i := 0;
    while i < |moves|
      invariant 0 <= i <= |moves|
      invariant a[..] == b
      invariant best == ExtremumPrefix(b, moves, i, depth, maximizing)
    {
      best := TryChild(a, b, moves, i, depth, maximizing, best);
      i := i + 1;
    }
    assert moves[..i] == moves;
  }

  /** minimax, placing and undoing each trial mark on the shared board. */
  method MinimaxInPlace(a: array<Cell>, depth: nat, maximizing: bool) returns (score: int)
    requires a.Length == 9
    modifies a
    ensures a[..] == old(a[..])
    ensures score == Minimax(old(a[..]), depth, maximizing)
    decreases depth, 3
  {
    var outcome := GameOver(a[..]);
    if depth == 0 || outcome != NotOver {
      return Terminal(outcome);
    }
    ghost var b: Board := a[..];
    NotOverFacts(b);
    var moves := GenerateMoves(a);
    MovesAreCandidates(b);
    var best := ExtremumInPlace(a, b, moves, depth, maximizing);
    score := best.value;
  }

  /** One candidate of computer_move: O placed at m, scored by minimax with
      X to move, and the square emptied again. */
  method CandidateInPlace(a: array<Cell>, m: Move, depth: nat) returns (score: int)
    requires a.Length == 9 && InRange(m) && a[Index(m)] == Empty
    modifies a
    ensures a[..] == old(a[..])
    ensures score == MoveScore(old(a[..]), m, depth)
  {
    ghost var b: Board := a[..];
    var k := Index(m);
    a[k] := O;
    assert a[..] == Place(b, m, O);
    score := MinimaxInPlace(a, depth, false);
    a[k] := Empty;
    assert a[..] == b;
  }

  /** The value computer_move's loop holds after the first n candidates. */
  function PickPrefix(b: Board, moves: seq<Move>, n: nat, depth: nat): Best
    requires Candidates(b, moves) && n <= |moves|
  {
    PrefixCandidates(b, moves, n);
    Pick(b, moves[..n], depth)
  }

  /** Extending the prefix by one candidate applies computer_move's strict
      comparison to it. */
  lemma PickStep(b: Board, moves: seq<Move>, i: nat, depth: nat, best: Best, score: int)
    requires Candidates(b, moves) && i < |moves|
    requires best == PickPrefix(b, moves, i, depth)
    requires score == MoveScore(b, moves[i], depth)
    ensures PickPrefix(b, moves, i + 1, depth) ==
              if best.NoneYet? || score > best.score then Kept(score, moves[i]) else best
  {
    PrefixCandidates(b, moves, i);
    PrefixCandidates(b, moves, i + 1);
    SliceExtends(moves, i);
    PickLast(b, moves[..i], moves[i], depth);
  }

  /** Pick over a list with one more candidate at the end. */
  lemma PickLast(b: Board, front: seq<Move>, m: Move, depth: nat)
    requires Candidates(b, front) && Candidates(b, front + [m])
    ensures m in front + [m] && InRange(m)
    ensures Pick(b, front + [m], depth) ==
              var prev := Pick(b, front, depth);
              var score := MoveScore(b, m, depth);
              if prev.NoneYet? || score > prev.score then Kept(score, m) else prev
  {
    var s := front + [m];
    assert s[|s| - 1] == m;
    assert s[..|s| - 1] == front;
  }

  /** One pass of computer_move's loop: the i-th candidate is scored and
      replaces the kept one only when its score is strictly greater. */
  method TryCandidate(a: array<Cell>, ghost b: Board, moves: seq<Move>, i: nat, depth: nat,
                      best: Best) returns (next: Best)
    requires a.Length == 9 && a[..] == b
    requires Candidates(b, moves) && i < |moves|
    requires best == PickPrefix(b, moves, i, depth)
    modifies a
    ensures a[..] == b
    ensures next == PickPrefix(b, moves, i + 1, depth)
  {
    assert moves[i] in moves && a[Index(moves[i])] == b[Index(moves[i])];
    var score := CandidateInPlace(a, moves[i], depth);
    PickStep(b, moves, i, depth, best, score);
    if best.NoneYet? || score > best.score {
      next := Kept(score, moves[i]);
    } else {
      next := best;
    }
  }

  /** The loop of computer_move's searching tiers: (best_score, best_move)
      starts at (-inf, None), and a candidate replaces it only when its
      score is strictly greater, so the first of the best is kept. */
  method PickInPlace(a: array<Cell>, ghost b: Board, moves: seq<Move>, depth: nat) returns (best: Best)
    requires a.Length == 9 && a[..] == b
    requires Candidates(b, moves)
    modifies a
    ensures a[..] == b
    ensures best == Pick(b, moves, depth)
  {
    best := NoneYet;
    var i := 0;
    while i < |moves|
      invariant 0 <= i <= |moves|
      invariant a[..] == b
      invariant best == PickPrefix(b, moves, i, depth)
    {
      best := TryCandidate(a, b, moves, i, depth, best);
      i := i + 1;
    }
    assert moves[..i] == moves;
  }

  /** computer_move on the shared board. */
  method ComputerMoveInPlace(a: array<Cell>, d: Difficulty, roll: nat) returns (move: Option<Move>)
    requires a.Length == 9
    modifies a
    ensures a[..] == old(a[..])
    ensures move == ComputerMove(old(a[..]), d, roll)
  {
    ghost var b: Board := a[..];
    var moves := GenerateMoves(a);
    if d == Easy {
      if |moves| > 0 {
        return Some(moves[roll % |moves|]);
      }
      return None;
    }
    MovesAreCandidates(b);
    var best := PickInPlace(a, b, moves, SearchDepth(d));
    move := if best.NoneYet? then None else Some(best.move);
  }

  /** player_move on the shared board. */
  method PlayerMoveInPlace(a: array<Cell>, m: Move) returns (placed: bool)
    requires a.Length == 9 && InRange(m)
    modifies a
    ensures PlayerMove(old(a[..]), m) == if placed then Some(a[..]) else None
    ensures !placed ==> a[..] == old(a[..])
  {
    var k := Index(m);
    if a[k] == Empty {
      a[k] := X;
      return true;
    }
    return false;
  }

  /** One click of play_game on the shared board. */
  method ClickInPlace(a: array<Cell>, d: Difficulty, m: Move, roll: nat) returns (accepted: bool)
    requires a.Length == 9 && InRange(m)
    modifies a
    ensures a[..] == Turn(old(a[..]), d, m, roll).board
    ensures accepted == Turn(old(a[..]), d, m, roll).accepted
  {
    if GameOver(a[..]) != NotOver {
      return false;
    }
    accepted := PlayerMoveInPlace(a, m);
    if accepted {
      var outcome := GameOver(a[..]);
      if outcome == NotOver {
        var move := ComputerMoveInPlace(a, d, roll);
        if move.Some? {
          a[Index(move.value)] := O;
        }
      }
    }
  }
}
