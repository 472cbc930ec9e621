# Tic-tac-toe decision engine

A Dafny model of the game logic in `tic-tac-toe.py`, a pygame tic-tac-toe
in which a human (X) plays against the computer (O) at one of three
difficulties. The model covers:

- the board;
- `game_over`, which reports a winner, a draw or a game still in play;
- `generate_moves`, which lists the empty squares in row-major order;
- the depth-bounded `minimax` search, with O maximizing and X minimizing;
- `computer_move`, which picks O's square: at random on easy, by search
  to depth 4 on medium and to depth 9 on impossible;
- the grid-cell part of `player_move`;
- the sequence `play_game` runs on each click: the human's X, the check,
  the computer's O, the check again;
- the unused `evaluate`.

Modules:

- `Wrappers`: `Option`.
- `Grid`: the board as nine cells in row-major order (square `(row, col)`
  at position `3 * row + col`), `GameOver`, and the move list `Moves`.
  `GameOver` follows the source's order of tests: rows, columns, the main
  diagonal, the anti-diagonal, then the blank-square test. It is proved
  equal to a scan of a table of the eight lines, so a winner is exactly a
  complete line, and the first complete line in that order decides.
- `Search`: `Minimax` and its loop `Extremum`. The search is proved to
  return only -10, 0 or +10. It gives the terminal values at a finished
  board or at depth 0, and otherwise the best child score for the side to
  move.
- `Selector`: `ComputerMove` and its loop `Pick`. The searching tiers are
  proved to return the first legal move, in row-major order, with the
  greatest score. Every legal move is one the easy tier can return.
- `Session`: `PlayerMove` and one click of the game loop (`Turn`), with
  the invariant that every board reachable from the empty board keeps:
  - X has as many marks as O, or one more;
  - one more only once the game is over;
  - no board holds a line of both marks.
- `InPlace`: the source's own algorithms on one mutable board, where each
  trial mark is placed, searched and undone. These are the nested-loop
  `generate_moves`, `minimax`, `computer_move`, `player_move` and a click
  of `play_game`. Each is proved to compute what the functional model
  computes, and the searches are proved to return the board unchanged.

The code as written gives every win the same score however far off it is,
and `computer_move` keeps the first of equal scores (its comparison is a
strict `>`). One might expect the searching tiers to answer
`X X _ / O O _ / _ _ _` with (1,2), the square that completes O's middle
row. On that board the code plays
the corner (0,2): that corner blocks X and leaves O two winning squares,
so it also scores +10, and it comes first in row-major order.
`Selector.MediumPlaysForkCorner` and `Selector.ImpossiblePlaysForkCorner`
prove this.

## Model

| member | source | states |
|---|---|---|
| Grid.Place | tic-tac-toe.py:55-56 | marking a square sets that square and leaves the other eight unchanged |
| Grid.GameOver | tic-tac-toe.py:61-78 | a reported winner is X or O, never a blank |
| Grid.ScanFrom | tic-tac-toe.py:63-78 | reference reading of `game_over`: a winner exactly when some line from k on is complete, it is the mark of the first complete one, and otherwise a draw exactly when no square is blank |
| Grid.GameOverIsLineScan | tic-tac-toe.py:61-78 | the if-chain over rows, columns and both diagonals equals the scan of the eight-line table |
| Grid.GameOverSpec | tic-tac-toe.py:61-78 | winner iff some line is complete, and the winner is the mark of the first complete line; draw iff no line and no blank; not over iff no line and some blank; a winner exists iff X or O holds a line |
| Grid.NotOverFacts | tic-tac-toe.py:74-77 | a game still in play has no line of either mark and at least one blank square |
| Grid.MovesFrom | tic-tac-toe.py:83-86 | the scan from position k lists exactly the blank squares at or after k, each once, in increasing row-major order |
| Grid.Moves | tic-tac-toe.py:81-87 | `generate_moves` lists exactly the blank squares, in row-major order; the list is empty iff the board is full |
| Grid.BlankSuffix | tic-tac-toe.py:81-87 | on the empty board the scan from k lists every square from k on |
| Grid.MovesOfEmptyBoard | tic-tac-toe.py:81-87 | the empty board offers all nine squares, (0,0) to (2,2), in row-major order |
| Grid.MovesOfFullBoard | tic-tac-toe.py:81-87 | a full board offers no move |
| Grid.PlaceCounts | tic-tac-toe.py:56 | marking a blank square adds one mark of that kind and no other |
| Grid.PlaceKeepsOtherLines | tic-tac-toe.py:183 | marking a blank square with one mark neither creates nor removes a line of the other |
| Search.Terminal | tic-tac-toe.py:101-106 | a finished (or cut-off) board is worth a score: +10 exactly when O won, -10 exactly when X won, 0 otherwise |
| Search.Combine | tic-tac-toe.py:115-125 | folding one child into the running max (min): the first child's value is taken as is; after that the result is one of the two operands and at least (at most) both |
| Search.ChildScore | tic-tac-toe.py:111-113 | a child's value is a score; +10 when `game_over` reports O after the mover's mark, -10 when it reports X |
| Search.Extremum | tic-tac-toe.py:108-126 | the running max (min) over the listed moves is unset only for an empty list; once set it is a score, equals the score of one listed child, and bounds every listed child from above (below) |
| Search.Minimax | tic-tac-toe.py:99-106 | the search returns -10, 0 or +10; +10 at an O win, -10 at an X win, 0 at a draw, and the terminal value at depth 0 |
| Search.MinimaxIsExtremum | tic-tac-toe.py:108-126 | below the cut-off a board in play has a move, and its value is the value of the loop over its moves |
| Search.MinimaxIsBestChild | tic-tac-toe.py:108-126 | below the cut-off a board in play is worth the maximum (for O) or minimum (for X) of its children, each child searched one level shallower with the other side to move |
| Search.ImmediateWinScoresTen | tic-tac-toe.py:108-116 | an O win one move away makes a maximizing node worth +10 |
| Search.ForcedLossScoresTen | tic-tac-toe.py:118-126 | a minimizing node all of whose replies are worth +10 is worth +10 |
| Search.EvaluateIsNegatedDepthZeroScore | tic-tac-toe.py:90-96 | `evaluate` is the depth-0 minimax value negated and divided by ten, and is 1 exactly when X holds a line and O has not won first |
| Search.Evaluate | tic-tac-toe.py:90-96 | `evaluate` is 1 exactly when X won, -1 exactly when O won, and 0 exactly when there is no winner |
| Selector.Pick | tic-tac-toe.py:138-148 | the loop ends without a move only on an empty list; otherwise it keeps a listed move together with that move's own score |
| Selector.SearchDepth | tic-tac-toe.py:143-156 | the medium tier searches to depth 4 and the impossible tier to depth 9 |
| Selector.MoveScore | tic-tac-toe.py:141-144 | a candidate's score is a score, and a square after which `game_over` reports O scores +10 |
| Selector.PickIsFirstBest | tic-tac-toe.py:140-147 | the kept move scores at least as much as every candidate and strictly more than every earlier one |
| Selector.ComputerMove | tic-tac-toe.py:129-161 | no move exactly when the board is full; any move returned is a blank square; at medium and impossible it is the first move in row-major order with the greatest score at depth 4 or 9 |
| Selector.EasyCanPickAnyMove | tic-tac-toe.py:130-133 | every legal move is the easy tier's choice for some value of the random source |
| Selector.SearchingChoiceIsUnique | tic-tac-toe.py:137-161 | a legal move that is best and strictly better than every earlier move is exactly the move the searching tiers return |
| Selector.FirstWinningMoveIsChosen | tic-tac-toe.py:137-161 | a first legal move that scores +10 is the move the searching tiers return |
| Selector.ForkCornerIsFirstMove | tic-tac-toe.py:81-87 | (0,2) is the first blank square of `X X _ / O O _ / _ _ _` |
| Selector.ForkBoardHasImmediateWin | tic-tac-toe.py:140-156 | on that board O at (1,2) wins at once and scores +10 at depths 4 and 9 |
| Selector.CornerReplyLoses | tic-tac-toe.py:108-116 | after O's corner, every X reply leaves O a winning square, worth +10 with O to move |
| Selector.ForkCornerScoresTen | tic-tac-toe.py:140-156 | O's corner (0,2) on that board scores +10 at every depth of at least 2 |
| Selector.MediumPlaysForkCorner | tic-tac-toe.py:137-148 | the medium tier plays (0,2) on that board, for any random source |
| Selector.ImpossiblePlaysForkCorner | tic-tac-toe.py:150-161 | the impossible tier plays (0,2) on that board, for any random source |
| Session.PlayerMove | tic-tac-toe.py:55-58 | a move is accepted exactly on a blank square, which then holds X, and every other square is unchanged |
| Session.Turn | tic-tac-toe.py:174-184 | an accepted click means the game was in play and the square blank; a refused click leaves the board unchanged |
| Session.TurnAcceptance | tic-tac-toe.py:174-184 | a click is accepted exactly while the game is in play and the square is blank; a refused click changes nothing |
| Session.TurnKeepsMarks | tic-tac-toe.py:177-184 | no click overwrites a mark already on the board |
| Session.TurnMarks | tic-tac-toe.py:177-184 | a click on a blank square while the game is in play puts X on that square, adds one X, and adds one O exactly when X's move left the game in play |
| Session.EmptyBoardConsistent | tic-tac-toe.py:165 | the starting board is in play and consistent |
| Session.TurnKeepsConsistent | tic-tac-toe.py:174-184 | every click keeps the board consistent |
| Session.TurnAddsAtMostOneX | tic-tac-toe.py:177-183 | a click adds at most one X to the board |
| Session.Play | tic-tac-toe.py:164-184 | the board after a sequence of clicks holds at most one X per click |
| Session.PlayIsConsistent | tic-tac-toe.py:164-184 | every board a game reaches has as many X as O or one more, and never a line of both marks |
| InPlace.GenerateMoves | tic-tac-toe.py:81-87 | the nested row and column loops build exactly `Moves` |
| InPlace.ScanRow | tic-tac-toe.py:84-86 | the inner loop appends the blank squares of one row, left to right |
| InPlace.ChildInPlace | tic-tac-toe.py:111-114 | placing the mover's mark, searching and undoing gives the child's score and restores the board |
| InPlace.ExtremumInPlace | tic-tac-toe.py:108-126 | the loop with `max`/`min` from the infinite start computes `Extremum` and restores the board |
| InPlace.MinimaxInPlace | tic-tac-toe.py:99-126 | the recursive in-place search returns `Minimax` of the board it was given and hands the board back unchanged |
| InPlace.CandidateInPlace | tic-tac-toe.py:141-144 | trying O at a square and searching with X to move gives that move's score and restores the board |
| InPlace.PickInPlace | tic-tac-toe.py:138-148 | the loop with the strict comparison computes `Pick` and restores the board |
| InPlace.ComputerMoveInPlace | tic-tac-toe.py:129-161 | `computer_move` on the shared board returns `ComputerMove` and leaves the board unchanged |
| InPlace.PlayerMoveInPlace | tic-tac-toe.py:52-58 | the in-place move returns True exactly when `PlayerMove` accepts, and leaves the board as `PlayerMove` says |
| InPlace.ClickInPlace | tic-tac-toe.py:174-184 | the click handler's sequence on the shared board ends with `Turn`'s board and acceptance |

## Left out

- Drawing, the window and fonts, the difficulty menu, and the end-of-game
  text (tic-tac-toe.py:1-49, 186, 191-204, 212-262) are presentation only and decide
  nothing about the game.
- The event loop of `play_game` (lines 169-173, 175-176, 188-189,
  206-210): window closing, the left-button test, the exit once the game
  is over and the wait after the game are not modelled. A game
  is modelled as a sequence of clicks on squares (`Session.Play`).
- The pixel-to-square mapping `x // CELL_SIZE` (lines 53-54) is left out.
  `PlayerMove` takes a square already in range. The source would raise an
  IndexError for a click in the strip below the grid (y from 300 to 349);
  the model has no such click.
- `random.choice` is replaced by a parameter `roll` (the model takes
  position `roll mod n` of the n legal moves). Randomness itself is outside
  the model.
- The float infinities that start the loops are modelled as "no value yet"
  (`None`, `NoneYet`). Every real score beats them, as in the source.
- A difficulty string other than the three literals would make
  `computer_move` fall through and return None. The menu never passes one,
  so `Difficulty` has only the three values.
- Selector.ComputerMove: the model proves no claim that the impossible
  tier never loses. Deciding that over all reachable positions is a
  search of the game tree that is too large for the verifier here.
- Determinism of the searching tiers holds by construction, since every
  function is pure. No separate lemma states it.
- Search.Extremum: Python's `max`/`min` are modelled by their value
  only. Which of two equal operands is returned is not observable for
  integer scores.
