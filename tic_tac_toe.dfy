/** Tic-tac-toe: the rules the alpha-beta search plays by. A state is the
    player to move and a 3x3 board; player 0 draws 'x', player 1 'o'. */
module TicTacToe {
  import opened GameBasics

  datatype Cell = Empty | Mark(owner: Player)

  /** The nine cells of the 3x3 board, stored row by row: cell (row, col)
      is at position 3 * row + col (see At). */
  type Board = b: seq<Cell> | |b| == 9
    witness [Empty, Empty, Empty, Empty, Empty, Empty, Empty, Empty, Empty]

  datatype State = State(player: Player, board: Board)

  /** The (row, col) cell where the player to move places a mark. */
  datatype Action = Action(row: int, col: int)

  predicate InRange(a: Action) {
    0 <= a.row < 3 && 0 <= a.col < 3
  }

  /** The cell board[row][col]. */
  function At(b: Board, row: int, col: int): Cell
    requires 0 <= row < 3 && 0 <= col < 3
  {
    b[3 * row + col]
  }

  predicate IsEmptyCell(b: Board, a: Action) {
    InRange(a) && At(b, a.row, a.col) == Empty
  }

  function InitialState(): (s: State)
    ensures s.player == 0
    ensures forall r, c :: 0 <= r < 3 && 0 <= c < 3 ==> At(s.board, r, c) == Empty
    ensures !IsTerminal(s)
  {
    var s := State(0, [Empty, Empty, Empty, Empty, Empty, Empty, Empty, Empty, Empty]);
    assert At(s.board, 0, 0) == Empty && At(s.board, 1, 1) == Empty && At(s.board, 0, 2) == Empty;
    s
  }

  function ToMove(s: State): Player {
    s.player
  }

  // ---------------------------------------------------------------------------
  // The legal actions: the empty cells in row-major order.

  /** The row-major position of a cell. */
  function Index(a: Action): int {
    3 * a.row + a.col
  }

  /** The empty cells that come before (row, col) in row-major order, in that
      order: what the nested loops of actions have appended on reaching (row, col). */
  function EmptyCellsBefore(b: Board, row: nat, col: nat): seq<Action>
    requires row < 3 && col <= 3
    decreases row, col
  {
    if col == 0 then (if row == 0 then [] else EmptyCellsBefore(b, row - 1, 3))
    else EmptyCellsBefore(b, row, col - 1) + (if At(b, row, col - 1) == Empty then [Action(row, col - 1)] else [])
  }

  /** What actions returns: every empty cell, in row-major order, that is,
      those before the end of the last row. */
  function EmptyCells(b: Board): seq<Action> {
    EmptyCellsBefore(b, 2, 3)
  }

  /** The cells listed before (row, col) are empty and lie before it. */
  lemma {:induction false} ListedCellsAreEmpty(b: Board, row: nat, col: nat)
    requires row < 3 && col <= 3
    ensures forall j :: 0 <= j < |EmptyCellsBefore(b, row, col)| ==>
      IsEmptyCell(b, EmptyCellsBefore(b, row, col)[j]) && Index(EmptyCellsBefore(b, row, col)[j]) < 3 * row + col
    decreases row, col
  {
    if col == 0 {
      if row > 0 {
        ListedCellsAreEmpty(b, row - 1, 3);
      }
    } else {
      ListedCellsAreEmpty(b, row, col - 1);
    }
  }

  /** The cells listed before (row, col) are in strictly increasing row-major order. */
  lemma {:induction false} CellsInRowMajorOrder(b: Board, row: nat, col: nat)
    requires row < 3 && col <= 3
    ensures forall i, j :: 0 <= i < j < |EmptyCellsBefore(b, row, col)| ==>
      Index(EmptyCellsBefore(b, row, col)[i]) < Index(EmptyCellsBefore(b, row, col)[j])
    decreases row, col
  {
    if col == 0 {
      if row > 0 {
        CellsInRowMajorOrder(b, row - 1, 3);
      }
    } else {
      CellsInRowMajorOrder(b, row, col - 1);
      ListedCellsAreEmpty(b, row, col - 1);
    }
  }

  /** Every empty cell before (row, col) is listed. */
  lemma {:induction false} EveryEmptyCellListed(b: Board, row: nat, col: nat)
    requires row < 3 && col <= 3
    ensures forall a :: IsEmptyCell(b, a) && Index(a) < 3 * row + col ==> a in EmptyCellsBefore(b, row, col)
    decreases row, col
  {
    if col == 0 {
      if row > 0 {
        EveryEmptyCellListed(b, row - 1, 3);
      }
    } else {
      EveryEmptyCellListed(b, row, col - 1);
      var e := EmptyCellsBefore(b, row, col - 1);
      var x := if At(b, row, col - 1) == Empty then [Action(row, col - 1)] else [];
      assert EmptyCellsBefore(b, row, col) == e + x;
      forall a | IsEmptyCell(b, a) && Index(a) < 3 * row + col ensures a in e + x {
        if Index(a) == 3 * row + col - 1 {
          assert a == Action(row, col - 1);
          assert a in x;
        } else {
          assert a in e;
        }
      }
    }
  }

  /** actions lists exactly the empty cells, each once, in row-major order. */
  lemma EmptyCellsSpec(b: Board)
    ensures forall a :: a in EmptyCells(b) <==> IsEmptyCell(b, a)
    ensures forall i, j :: 0 <= i < j < |EmptyCells(b)| ==> Index(EmptyCells(b)[i]) < Index(EmptyCells(b)[j])
    ensures forall j :: 0 <= j < |EmptyCells(b)| ==> IsEmptyCell(b, EmptyCells(b)[j])
  {
    ListedCellsAreEmpty(b, 2, 3);
    CellsInRowMajorOrder(b, 2, 3);
    EveryEmptyCellListed(b, 2, 3);
  }

  /** actions: the nested loops over rows and columns, appending each empty cell. */
  method Actions(s: State) returns (acts: seq<Action>)
    ensures acts == EmptyCells(s.board)
    ensures forall a :: a in acts <==> IsEmptyCell(s.board, a)
    ensures forall i, j :: 0 <= i < j < |acts| ==> Index(acts[i]) < Index(acts[j])
  {
    acts := [];
    var row := 0;
    while row < 3
      invariant 0 <= row <= 3
      invariant row < 3 ==> acts == EmptyCellsBefore(s.board, row, 0)
      invariant row == 3 ==> acts == EmptyCells(s.board)
    {
      var col := 0;
      while col < 3
        invariant 0 <= col <= 3
        invariant acts == EmptyCellsBefore(s.board, row, col)
      {
        if At(s.board, row, col) == Empty {
          acts := acts + [Action(row, col)];
        }
        col := col + 1;
      }
      row := row + 1;
    }
    EmptyCellsSpec(s.board);
  }

  // ---------------------------------------------------------------------------
  // Moves.

  /** result: a copy of the board with the mover's mark at (row, col); the
      player flips. The input state is a value and is left as it was. */
  function Result(s: State, a: Action): (r: State)
    requires InRange(a)
    ensures r.player == Other(ToMove(s))
    ensures At(r.board, a.row, a.col) == Mark(ToMove(s))
    ensures forall i, j :: 0 <= i < 3 && 0 <= j < 3 && (i != a.row || j != a.col) ==>
      At(r.board, i, j) == At(s.board, i, j)
  {
    State(Other(ToMove(s)), s.board[3 * a.row + a.col := Mark(ToMove(s))])
  }

  /** Filling an empty cell removes exactly that cell from the legal actions;
      this is the termination measure of the search. Overwriting a mark (which
      the source does not prevent) leaves the count as it was. */
  lemma ResultFillsOneCell(s: State, a: Action)
    requires InRange(a)
    ensures IsEmptyCell(s.board, a) ==> |EmptyCells(Result(s, a).board)| == |EmptyCells(s.board)| - 1
    ensures !IsEmptyCell(s.board, a) ==> |EmptyCells(Result(s, a).board)| == |EmptyCells(s.board)|
  {
    CountAfterMove(s, a, 2, 3);
  }

  lemma {:induction false} CountAfterMove(s: State, a: Action, row: nat, col: nat)
    requires InRange(a) && row < 3 && col <= 3
    ensures |EmptyCellsBefore(Result(s, a).board, row, col)| ==
      |EmptyCellsBefore(s.board, row, col)| - (if Index(a) < 3 * row + col && IsEmptyCell(s.board, a) then 1 else 0)
    decreases row, col
  {
    if col == 0 {
      if row > 0 {
        CountAfterMove(s, a, row - 1, 3);
      }
    } else {
      CountAfterMove(s, a, row, col - 1);
      var r := Result(s, a);
      var before, after := EmptyCellsBefore(s.board, row, col - 1), EmptyCellsBefore(r.board, row, col - 1);
      var x := if At(s.board, row, col - 1) == Empty then [Action(row, col - 1)] else [];
      var y := if At(r.board, row, col - 1) == Empty then [Action(row, col - 1)] else [];
      assert EmptyCellsBefore(s.board, row, col) == before + x;
      assert EmptyCellsBefore(r.board, row, col) == after + y;
      if row == a.row && col - 1 == a.col {
        assert |y| == 0;
      } else {
        assert At(r.board, row, col - 1) == At(s.board, row, col - 1);
      }
    }
  }

  /** The j-th legal action is an empty cell, so playing it shrinks the count. */
  lemma MoveShrinks(s: State, j: nat)
    requires j < |EmptyCells(s.board)|
    ensures IsEmptyCell(s.board, EmptyCells(s.board)[j])
    ensures |EmptyCells(Result(s, EmptyCells(s.board)[j]).board)| == |EmptyCells(s.board)| - 1
  {
    EmptyCellsSpec(s.board);
    ResultFillsOneCell(s, EmptyCells(s.board)[j]);
  }

  // ---------------------------------------------------------------------------
  // Lines, the end of the game, and utility.

  /** The three cells of a row, of a column, or of a diagonal all hold `player`'s mark. */
  predicate RowFull(b: Board, row: nat, player: Player)
    requires row < 3
  {
    At(b, row, 0) == Mark(player) && At(b, row, 1) == Mark(player) && At(b, row, 2) == Mark(player)
  }

  predicate ColumnFull(b: Board, col: nat, player: Player)
    requires col < 3
  {
    At(b, 0, col) == Mark(player) && At(b, 1, col) == Mark(player) && At(b, 2, col) == Mark(player)
  }

  predicate DiagonalFull(b: Board, player: Player) {
    At(b, 0, 0) == Mark(player) && At(b, 1, 1) == Mark(player) && At(b, 2, 2) == Mark(player)
  }

  predicate AntiDiagonalFull(b: Board, player: Player) {
    At(b, 0, 2) == Mark(player) && At(b, 1, 1) == Mark(player) && At(b, 2, 0) == Mark(player)
  }

  /** is_winner, checking the rows, then the columns, then both diagonals. */
  predicate IsWinner(s: State, player: Player) {
    var b := s.board;
    || RowFull(b, 0, player) || RowFull(b, 1, player) || RowFull(b, 2, player)
    || ColumnFull(b, 0, player) || ColumnFull(b, 1, player) || ColumnFull(b, 2, player)
    || DiagonalFull(b, player)
    || AntiDiagonalFull(b, player)
  }

  /** The eight lines of the board: three rows, three columns, two diagonals. */
  const Lines: seq<seq<Action>> := [
    [Action(0, 0), Action(0, 1), Action(0, 2)],
    [Action(1, 0), Action(1, 1), Action(1, 2)],
    [Action(2, 0), Action(2, 1), Action(2, 2)],
    [Action(0, 0), Action(1, 0), Action(2, 0)],
    [Action(0, 1), Action(1, 1), Action(2, 1)],
    [Action(0, 2), Action(1, 2), Action(2, 2)],
    [Action(0, 0), Action(1, 1), Action(2, 2)],
    [Action(0, 2), Action(1, 1), Action(2, 0)]
  ]

  /** Every cell of the three-cell line holds `player`'s mark. */
  predicate Owns(b: Board, line: seq<Action>, player: Player) {
    && |line| == 3
    && (forall j :: 0 <= j < 3 ==> InRange(line[j]))
    && (forall j :: 0 <= j < 3 ==> At(b, line[j].row, line[j].col) == Mark(player))
  }

  /** is_winner holds exactly when the player owns one of the eight lines. */
  lemma IsWinnerIffOwnsLine(s: State, player: Player)
    ensures IsWinner(s, player) <==> exists i :: 0 <= i < 8 && Owns(s.board, Lines[i], player)
  {
    var b := s.board;
    if IsWinner(s, player) {
      if RowFull(b, 0, player) { assert Owns(b, Lines[0], player); }
      else if RowFull(b, 1, player) { assert Owns(b, Lines[1], player); }
      else if RowFull(b, 2, player) { assert Owns(b, Lines[2], player); }
      else if ColumnFull(b, 0, player) { assert Owns(b, Lines[3], player); }
      else if ColumnFull(b, 1, player) { assert Owns(b, Lines[4], player); }
      else if ColumnFull(b, 2, player) { assert Owns(b, Lines[5], player); }
      else if DiagonalFull(b, player) { assert Owns(b, Lines[6], player); }
      else { assert Owns(b, Lines[7], player); }
    }
    if exists i :: 0 <= i < 8 && Owns(b, Lines[i], player) {
      var i :| 0 <= i < 8 && Owns(b, Lines[i], player);
      var l := Lines[i];
      assert At(b, l[0].row, l[0].col) == Mark(player);
      assert At(b, l[1].row, l[1].col) == Mark(player);
      assert At(b, l[2].row, l[2].col) == Mark(player);
    }
  }

  /** No cell of the board is empty. */
  predicate BoardFull(b: Board) {
    forall r, c :: 0 <= r < 3 && 0 <= c < 3 ==> At(b, r, c) != Empty
  }

  /** is_terminal: the player who moved last owns a line, or no cell is empty. */
  predicate IsTerminal(s: State) {
    IsWinner(s, Other(ToMove(s))) || BoardFull(s.board)
  }

  /** The board is full exactly when actions has nothing to offer. */
  lemma FullIffNoActions(b: Board)
    ensures BoardFull(b) <==> EmptyCells(b) == []
  {
    if EmptyCells(b) != [] {
      NotFullWithAction(b);
    }
    if !BoardFull(b) {
      ActionWhenNotFull(b);
    }
  }

  lemma NotFullWithAction(b: Board)
    requires EmptyCells(b) != []
    ensures !BoardFull(b)
  {
    EmptyCellsSpec(b);
    var a := EmptyCells(b)[0];
    assert IsEmptyCell(b, a);
  }

  lemma ActionWhenNotFull(b: Board)
    requires !BoardFull(b)
    ensures EmptyCells(b) != []
  {
    EmptyCellsSpec(b);
    var r, c :| 0 <= r < 3 && 0 <= c < 3 && At(b, r, c) == Empty;
    assert IsEmptyCell(b, Action(r, c));
  }

  /** A state is terminal exactly when the last mover has a line or no action is left. */
  lemma TerminalIffWonOrNoMoves(s: State)
    ensures IsTerminal(s) <==> IsWinner(s, Other(ToMove(s))) || EmptyCells(s.board) == []
  {
    FullIffNoActions(s.board);
  }

  /** utility: 1 when `player` has a line, -1 when the opponent has, else 0. */
  function Utility(s: State, player: Player): (u: int)
    requires IsTerminal(s)
    ensures u == 1 <==> IsWinner(s, player)
    ensures u == -1 <==> !IsWinner(s, player) && IsWinner(s, Other(player))
    ensures u == 0 <==> !IsWinner(s, player) && !IsWinner(s, Other(player))
  {
    if IsWinner(s, player) then 1
    else if IsWinner(s, Other(player)) then -1
    else 0
  }

  /** Utility is zero-sum as long as at most one player has a line. */
  lemma UtilityZeroSum(s: State, player: Player)
    requires IsTerminal(s)
    requires !(IsWinner(s, 0) && IsWinner(s, 1))
    ensures Utility(s, player) == -Utility(s, Other(player))
  {
  }

  /** After any move the new player to move has no line: their marks are
      those they had when the state before was not over. */
  lemma MoverHasNoLineAfterMove(s: State, a: Action)
    requires !IsTerminal(s) && InRange(a)
    ensures !IsWinner(Result(s, a), ToMove(Result(s, a)))
  {
    var r := Result(s, a);
    var q := ToMove(r);
    IsWinnerIffOwnsLine(s, q);
    IsWinnerIffOwnsLine(r, q);
    forall i | 0 <= i < 8 ensures !Owns(r.board, Lines[i], q) {
      assert !Owns(s.board, Lines[i], q);
    }
  }

  /** So every state reached by a move has at most one line owner, and its
      utility is zero-sum once it is terminal. */
  lemma ZeroSumAfterMove(s: State, a: Action, player: Player)
    requires !IsTerminal(s) && InRange(a) && IsTerminal(Result(s, a))
    ensures Utility(Result(s, a), player) == -Utility(Result(s, a), Other(player))
  {
    MoverHasNoLineAfterMove(s, a);
    assert ToMove(Result(s, a)) == 0 || ToMove(Result(s, a)) == 1;
  }
}
