# Adversarial search over three small games

Three two-player, turn-based games, each paired with a full-depth adversarial
search:

- the **bucket game**: the first player picks bucket 'A', 'B' or 'C', the
  second picks one of the two rewards in it, and that single reward ends the
  game. It is searched by plain minimax.
- the **halving game**: from a number N the players alternately subtract one
  or halve it, rounding down. Number 0 ends the game. It is searched by
  plain minimax.
- **tic-tac-toe**: searched by fail-soft alpha-beta pruning.

Each game's rules are pure functions on a `State` datatype. Each `max_value` /
`min_value` pair is an imperative Dafny method that loops over `actions`,
updating `v`, `best` and, in tic-tac-toe, the window. Each method is proved
against a recursive reference function: the minimax value of a node, computed
as a fold over its children. The termination measure is:

- bucket game: a rank that drops with every move (3 actions, then 2, then 1);
- halving game: the number itself;
- tic-tac-toe: the number of empty cells.

The headline results:

- **Bucket and halving games.** `MaxValue` and `MinValue` return the node's
  value and the *first* action that attains it, because the comparisons are
  strict.
- **Tic-tac-toe.** Every `max_value`/`min_value` result is *fail-soft* for its
  window. At or below alpha it is an upper bound on the minimax value, at or
  above beta a lower bound, and strictly inside the window it is exact.
- **Root of the tic-tac-toe search.** The root search uses the full window
  (-inf, +inf). So `alfa_beta_search` returns the first action of optimal
  minimax value: pruning never changes the root's answer.

Modules and files:

- `game_basics.dfy` (`GameBasics`): the player index, `Option`, and the
  search score. The score is an integer or one of the sentinels
  `float("-inf")` and `float("inf")`, together with Python's `max`/`min` on it.
- `bucket_game.dfy` (`BucketGame`): the rules and the minimax search.
- `halving_game.dfy` (`HalvingGame`): the rules, the minimax search, and the
  self-play run from N = 5.
- `tic_tac_toe.dfy` (`TicTacToe`): the rules. The board is nine cells stored
  row by row, and `At(b, row, col)` is `board[row][col]`.
- `tic_tac_toe_search.dfy` (`TicTacToeSearch`): the alpha-beta search.

The alpha-beta search only calls the methods of the game object it is given.
The model therefore keeps the game object as a record of those methods
(`Game`). The search is proved for every record satisfying `Valid`: every
legal move shortens the list of actions, and a state that is not over has at
least one. `TicTacToeGame` is the tic-tac-toe object, and `TicTacToeIsValid`
shows that it satisfies `Valid`.

Two behaviours of the code are modelled as written, not as their comments
describe them:

- **The bucket game's `min_value` is a second maximiser.** It starts from
  -inf and keeps strictly larger values. The search from the initial state
  therefore opens with 'A', whose larger reward is 50. It does not open with
  the bucket that is best against a minimising reply.
- **The terminal reward goes to the player to move.** In the bucket and
  halving games, `utility` credits the state's player to move, who did not
  make the last move. The docstrings say the last mover is credited. The
  halving game's expected-output comment agrees with the code.

## Model

| member | source | states |
|---|---|---|
| GameBasics.Other | tic_tac_toe.py:29 | (p + 1) % 2 is the other player: different from p, and the two sum to 1 |
| GameBasics.Max | tic_tac_toe.py:92 | Python's max: an upper bound of both arguments, and equal to one of them |
| GameBasics.Min | tic_tac_toe.py:106 | Python's min: a lower bound of both arguments, and equal to one of them |
| BucketGame.InitialState | bucket_game.py:18-24 | player 0, three actions, all of them buckets; the state is not terminal and every action can be applied |
| BucketGame.Result | bucket_game.py:40-54 | the player flips; a reward becomes the terminal one-element list; a bucket becomes two rewards and is not terminal; the new state is well formed |
| BucketGame.UtilityZeroSum | bucket_game.py:61-70 | on a terminal reward state the two players' utilities are opposite, and the player to move gets the reward |
| BucketGame.PlaysTakeTwoMoves | bucket_game.py:47-59 | any bucket and then any reward from the initial state gives 2 and then 1 actions; only the second state is terminal, and player 0 is to move again |
| BucketGame.ResultLowersRank | bucket_game.py:40-59 | every legal move from a non-terminal well-formed state lowers the termination rank |
| BucketGame.MaxNodeChildrenIsMaximum | bucket_game.py:95-100 | max_value's running value after n children is their maximum: no child exceeds it, some child attains it, and it is -inf exactly when n = 0 |
| BucketGame.MinNodeChildrenIsMaximum | bucket_game.py:110-115 | min_value's running value, as written, is also the maximum of the children seen, attained by one of them |
| BucketGame.ChildValueFinite | bucket_game.py:40-54 | after any legal move both halves of the search find a finite value |
| BucketGame.MinNodeIsMaxNode | bucket_game.py:103-116 | because of the second-maximiser quirk, min_value and max_value compute the same value in every well-formed state |
| BucketGame.ChildrenAgree | bucket_game.py:97-100 | the two loops' running values agree after every prefix of the children |
| BucketGame.MaxValue | bucket_game.py:88-101 | returns (utility, None) on a terminal state; otherwise returns the largest child value, with the first action attaining it as best |
| BucketGame.MinValue | bucket_game.py:103-116 | as written: returns (utility, None) on a terminal state; otherwise returns the largest child value, from -inf with strict >, with the first action attaining it |
| BucketGame.MinimaxSearch | bucket_game.py:80-87 | None on a terminal state; otherwise a member of actions, namely the first whose child has the state's value for the player to move |
| BucketGame.OpeningMoveIsA | bucket_game.py:118-124 | from the initial state the value for player 0 is 50, and the first action attaining it is bucket 'A' |
| BucketGame.ReplyEndsWithMinusFifty | bucket_game.py:118-129 | after 'A', the second player's search picks -50 first (value 50 for it), and the game ends with utility -50 for player 0 |
| BucketGame.ChildValues | bucket_game.py:108-116 | min_value of a two-reward state is the larger of the two rewards' utilities |
| HalvingGame.InitialState | halving_game.py:32-37 | player 0 to move with the game's N, and the state is terminal exactly when N = 0 |
| HalvingGame.Actions | halving_game.py:44-46 | two actions, '--' before '/2', in every state |
| HalvingGame.Result | halving_game.py:48-57 | the player flips; '--' subtracts one; '/2' is floor division (2r <= n <= 2r + 1); from n >= 1 both actions land in [0, n) |
| HalvingGame.Utility | halving_game.py:64-71 | every terminal utility is +1 or -1 |
| HalvingGame.UtilityZeroSum | halving_game.py:64-71 | the two players' utilities are opposite, and the player to move at 0 gets +1 |
| HalvingGame.EveryPlayEnds | halving_game.py:53-62 | from n >= 0, any play through non-terminal states has at most n moves and stays in [0, n - moves] |
| HalvingGame.ValuesAreWinOrLoss | halving_game.py:96-116 | every max_value and min_value value is +1 or -1 |
| HalvingGame.SearchValueIsOutcome | halving_game.py:96-116 | the search values agree with an independent win/lose recurrence (the mover wins at 0, or when some move leaves the opponent lost) |
| HalvingGame.MaxValue | halving_game.py:96-105 | returns (utility, None) on a terminal state; otherwise the maximum of the two child values with the first action attaining it; the value is +1 or -1 |
| HalvingGame.MinValue | halving_game.py:107-116 | returns (utility, None) on a terminal state; otherwise the minimum of the two child values with the first action attaining it; the value is +1 or -1 |
| HalvingGame.MinimaxChoice | halving_game.py:86-94 | no move exactly on a terminal state |
| HalvingGame.MinimaxSearch | halving_game.py:86-94 | None exactly on a terminal state; otherwise the first of '--', '/2' whose child attains the value for the player to move |
| HalvingGame.SelfPlayFromFive | halving_game.py:118-140 | both players searching from N = 5 play '--', '--', '/2', '--', reaching number 0 with player 0 to move, which is a win (+1) for player 0 |
| TicTacToe.InitialState | tic_tac_toe.py:8-9 | player 0 with all nine cells empty, and the state is not terminal |
| TicTacToe.ListedCellsAreEmpty | tic_tac_toe.py:17-21 | every cell the nested loops have appended before (row, col) is empty and lies before it |
| TicTacToe.CellsInRowMajorOrder | tic_tac_toe.py:17-21 | the appended cells are in strictly increasing row-major order, so none repeats |
| TicTacToe.EveryEmptyCellListed | tic_tac_toe.py:17-21 | every empty cell before (row, col) has been appended |
| TicTacToe.EmptyCellsSpec | tic_tac_toe.py:15-22 | actions lists a cell exactly when it is empty, once each, in row-major order |
| TicTacToe.Actions | tic_tac_toe.py:15-22 | the nested loops return the empty cells, exactly and in row-major order |
| TicTacToe.Result | tic_tac_toe.py:24-29 | the player flips, the chosen cell gets the mover's mark, and every other cell is as before |
| TicTacToe.ResultFillsOneCell | tic_tac_toe.py:15-29 | filling an empty cell removes exactly one legal action; overwriting a mark removes none |
| TicTacToe.CountAfterMove | tic_tac_toe.py:15-29 | the same count, for the cells before (row, col) |
| TicTacToe.MoveShrinks | tic_tac_toe.py:15-29 | the j-th legal action is an empty cell, and playing it leaves one action fewer |
| TicTacToe.IsWinnerIffOwnsLine | tic_tac_toe.py:31-41 | is_winner holds exactly when the player owns one of the 3 rows, 3 columns or 2 diagonals |
| TicTacToe.FullIffNoActions | tic_tac_toe.py:43-47 | the board is full exactly when actions is empty |
| TicTacToe.NotFullWithAction | tic_tac_toe.py:15-22 | if actions is non-empty, the board is not full |
| TicTacToe.ActionWhenNotFull | tic_tac_toe.py:15-22 | if the board is not full, actions is non-empty |
| TicTacToe.TerminalIffWonOrNoMoves | tic_tac_toe.py:43-47 | a state is terminal exactly when the last mover has a line or no legal action is left |
| TicTacToe.Utility | tic_tac_toe.py:49-55 | on a terminal state: 1 exactly when the player has a line, -1 exactly when only the opponent has one, 0 exactly when neither has |
| TicTacToe.UtilityZeroSum | tic_tac_toe.py:49-55 | zero-sum whenever at most one player has a line |
| TicTacToe.MoverHasNoLineAfterMove | tic_tac_toe.py:24-47 | after a move from a state that is not over, the new player to move has no line |
| TicTacToe.ZeroSumAfterMove | tic_tac_toe.py:49-55 | every terminal state reached by a move has zero-sum utility |
| TicTacToeSearch.TicTacToeGame | tic_tac_toe.py:7-55 | Game(): a game object whose to_move, actions, is_terminal, result (on a cell of the board) and utility (on a finished game) are the tic-tac-toe rules |
| TicTacToeSearch.TicTacToeIsValid | tic_tac_toe.py:15-55 | tic-tac-toe's object makes the search terminate (each legal move removes an action, and an unfinished game has one), and its utilities lie in [-1, 1] |
| TicTacToeSearch.MaxNodeChildrenBound | tic_tac_toe.py:88-92 | no child among the first n has minimax value above their running maximum |
| TicTacToeSearch.MinNodeChildrenBound | tic_tac_toe.py:102-106 | no child among the first n has minimax value below their running minimum |
| TicTacToeSearch.FirstMaxChildStep | tic_tac_toe.py:90-91 | with the strict >, the first maximising child stays first unless a later child is strictly larger, and then that child becomes first |
| TicTacToeSearch.FirstMinChildStep | tic_tac_toe.py:104-105 | with the strict <, the first minimising child stays first unless a later child is strictly smaller, and then that child becomes first |
| TicTacToeSearch.NodeValueRange | tic_tac_toe.py:83-109 | with utilities in [-1, 1], every minimax value is finite and in [-1, 1] |
| TicTacToeSearch.ChildrenRange | tic_tac_toe.py:88-106 | the same bound for the running values after n >= 1 children |
| TicTacToeSearch.FullWindowIsExact | tic_tac_toe.py:79-82 | a finite fail-soft answer for the window (-inf, +inf) is the exact value |
| TicTacToeSearch.MaxStep | tic_tac_toe.py:89-94 | one iteration of max_value on scores: the loop relation between v and the running maximum is kept, or the cut-off v is a lower bound on the child; raising alpha to max(alpha, v) matches the window the child used |
| TicTacToeSearch.MinStep | tic_tac_toe.py:103-108 | the mirror image for min_value, with beta lowered to min(beta, v) |
| TicTacToeSearch.MaxLoopStep | tic_tac_toe.py:88-94 | one iteration of max_value keeps its loop invariant, or the cut-off return at v >= beta is fail-soft for the node |
| TicTacToeSearch.MinLoopStep | tic_tac_toe.py:102-108 | one iteration of min_value keeps its loop invariant, or the cut-off return at v <= alpha is fail-soft for the node |
| TicTacToeSearch.MaxValue | tic_tac_toe.py:83-95 | (utility, None) on a terminal state; otherwise a finite value that is fail-soft for the window (alpha, beta) against the minimax value, with best a legal action; strictly inside the window, best is the first action of optimal value |
| TicTacToeSearch.MinValue | tic_tac_toe.py:97-109 | the same for the minimising side |
| TicTacToeSearch.AlfaBetaSearch | tic_tac_toe.py:79-82 | None exactly on a terminal state; otherwise the first legal action whose child has the state's exact minimax value, so pruning does not change the answer |
| TicTacToeSearch.FirstMaxChildIsOptimal | tic_tac_toe.py:83-95 | the first optimal child has the state's minimax value, and no child exceeds it |
| TicTacToeSearch.ComputerMove | tic_tac_toe.py:135 | the computer's move: None exactly when the game is over; otherwise an empty cell whose resulting state has the current state's minimax value for the player to move |
| TicTacToeSearch.ValueIsWinDrawOrLoss | tic_tac_toe.py:49-109 | every tic-tac-toe position's minimax value is -1, 0 or 1 |

## Left out

- The module-level driver loops and every `print` method are console output
  only and are not modelled. The computer's move in the tic-tac-toe loop is
  kept as `ComputerMove`, and the halving game's expected run as
  `SelfPlayFromFive`.
- `get_human_action` and the side-choice prompt read from `input()`. They are
  not modelled; the legality they check is what `actions` states.
- `float("-inf")` and `float("inf")` are only used as sentinels, and every
  utility is an integer. They are the `NegInf` and `PosInf` cases of `Score`;
  no floating point is modelled.
- Python's dynamic `str | int` actions and tuples are datatypes.
- The source's `assert`s are preconditions. This covers `type(action) is int`
  in the bucket game's `result`, and `is_terminal` in every `utility`. The
  model has no runtime failure.
- Players are the indices 0 and 1 (`Player`). The source accepts any
  integer, but only ever produces these two.
- The halving search (`MaxValue`, `MinValue`, `MinimaxSearch`) requires a
  number >= 0. From a negative number `number // 2` never reaches 0, so the
  source recurses without end.
- `deepcopy` and the in-place assignment in tic-tac-toe's `result` are a
  sequence update on an immutable value. So the input board is unchanged by
  construction, and aliasing is not modelled.
- The tic-tac-toe board is nine cells stored row by row instead of a list of
  three lists; `At` gives the `board[row][col]` view.
- The tic-tac-toe search is modelled over a record of the game object's
  methods. `TicTacToeGame` totalises that record: on an action off the board
  its `result` returns the state unchanged, and on an unfinished state its
  `utility` returns 0. The source behaves differently in both places. On an
  unfinished state its `utility` fails its assertion. In `result`, a
  coordinate of 3 or more, or below -3, raises `IndexError`. A coordinate in
  -3..-1 wraps through Python's negative indexing: `(-1, -1)` marks the
  bottom-right cell. Neither the search nor the game loop makes such a call:
  they only pass actions that `actions` produced.
- TicTacToe.Result requires both coordinates in 0..2. It does not model the
  wrapped write a negative coordinate makes in the source.
- TicTacToeSearch.MaxValue does not say at which child the loop cuts off;
  its contract fixes only the value returned and the move kept. That alpha
  never falls is a loop invariant (`a == Max(alpha, v)`), not a
  postcondition.
- TicTacToeSearch.MinValue does not say at which child the loop cuts off;
  its contract fixes only the value returned and the move kept. That beta
  never rises is a loop invariant (`b == Min(beta, v)`), not a
  postcondition.
- No property of the full tic-tac-toe game tree is proved, such as the value
  of the empty board being a draw. The tree is too large to unfold in a proof.
