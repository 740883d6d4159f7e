/** The halving game: from a number N the players alternately subtract one
    or halve (rounding down); the state with number 0 is terminal and, as the
    code scores it, the player to move there wins. The search is full-depth
    minimax. */
module HalvingGame {
  import opened GameBasics

  /** '--' (subtract one) or '/2' (floor division by two). */
  datatype Action = Decrement | Halve

  /** A game fixes its starting number N. */
  datatype Game = Game(N: int)

  /** The player to move and the number remaining. */
  datatype State = State(player: Player, number: int)

  function InitialState(g: Game): (s: State)
    ensures s.player == 0 && s.number == g.N
    ensures IsTerminal(s) <==> g.N == 0
  {
    State(0, g.N)
  }

  function ToMove(s: State): Player {
    s.player
  }

  /** Both actions are offered in every state, '--' first. */
  function Actions(s: State): (acts: seq<Action>)
    ensures |acts| == 2 && acts[0] == Decrement && acts[1] == Halve
  {
    [Decrement, Halve]
  }

  /** '--' subtracts one, '/2' divides by two rounding down (Dafny's `/` on a
      positive divisor rounds down like Python's `//`); the player flips. */
  function Result(s: State, a: Action): (r: State)
    ensures r.player == Other(ToMove(s))
    ensures a == Decrement ==> r.number == s.number - 1
    ensures a == Halve ==> 2 * r.number <= s.number <= 2 * r.number + 1
    ensures s.number >= 1 ==> 0 <= r.number < s.number
  {
    if a == Decrement then State(Other(ToMove(s)), s.number - 1)
    else State(Other(ToMove(s)), s.number / 2)
  }

  predicate IsTerminal(s: State) {
    s.number == 0
  }

  /** +1 for the player to move in the terminal state, -1 for the other. */
  function Utility(s: State, player: Player): (u: int)
    requires IsTerminal(s)
    ensures u == 1 || u == -1
  {
    if ToMove(s) == player then 1 else -1
  }

  lemma UtilityZeroSum(s: State, player: Player)
    requires IsTerminal(s)
    ensures Utility(s, player) == -Utility(s, Other(player))
    ensures Utility(s, ToMove(s)) == 1
  {
  }

  /** From a non-negative number every play ends: each move lands in [0, number). */
  lemma {:induction false} EveryPlayEnds(s: State, moves: seq<Action>)
    requires s.number >= 0
    requires forall j :: 0 <= j < |moves| ==> !IsTerminal(Apply(s, moves[..j]))
    ensures |moves| <= s.number
    ensures 0 <= Apply(s, moves).number <= s.number - |moves|
    decreases |moves|
  {
    if moves != [] {
      var front := moves[..|moves| - 1];
      forall j | 0 <= j < |front| ensures !IsTerminal(Apply(s, front[..j])) {
        assert front[..j] == moves[..j];
      }
      EveryPlayEnds(s, front);
      assert moves[..|moves| - 1] == front;
    }
  }

  /** The state reached by applying the moves in order. */
  function Apply(s: State, moves: seq<Action>): State
    decreases |moves|
  {
    if moves == [] then s else Result(Apply(s, moves[..|moves| - 1]), moves[|moves| - 1])
  }

  // ---------------------------------------------------------------------------
  // The search.

  /** The value max_value computes for `player`: the utility of a terminal
      state, otherwise the largest of min_value over the two children. */
  function MaxNodeValue(s: State, player: Player): Score
    requires s.number >= 0
    decreases s.number, 1
  {
    if IsTerminal(s) then Fin(Utility(s, player))
    else MaxNodeChildren(s, 2, player)
  }

  /** The value min_value computes: the smallest of max_value over the children. */
  function MinNodeValue(s: State, player: Player): Score
    requires s.number >= 0
    decreases s.number, 1
  {
    if IsTerminal(s) then Fin(Utility(s, player))
    else MinNodeChildren(s, 2, player)
  }

  /** max_value's running value after the first n actions, from -inf. */
  function MaxNodeChildren(s: State, n: nat, player: Player): Score
    requires s.number >= 1 && n <= 2
    decreases s.number, 0, n
  {
    if n == 0 then NegInf
    else Max(MaxNodeChildren(s, n - 1, player), MinNodeValue(Result(s, Actions(s)[n - 1]), player))
  }

  /** min_value's running value after the first n actions, from +inf. */
  function MinNodeChildren(s: State, n: nat, player: Player): Score
    requires s.number >= 1 && n <= 2
    decreases s.number, 0, n
  {
    if n == 0 then PosInf
    else Min(MinNodeChildren(s, n - 1, player), MaxNodeValue(Result(s, Actions(s)[n - 1]), player))
  }

  /** The value max_value receives for its j-th child. */
  function MaxChild(s: State, j: nat, player: Player): Score
    requires s.number >= 1 && j < 2
  {
    MinNodeValue(Result(s, Actions(s)[j]), player)
  }

  /** The value min_value receives for its j-th child. */
  function MinChild(s: State, j: nat, player: Player): Score
    requires s.number >= 1 && j < 2
  {
    MaxNodeValue(Result(s, Actions(s)[j]), player)
  }

  /** Action k is the first among the first n whose child attains their maximum. */
  predicate FirstMaxChild(s: State, player: Player, n: nat, k: nat)
    requires s.number >= 1 && n <= 2
  {
    && k < n
    && MaxChild(s, k, player) == MaxNodeChildren(s, n, player)
    && forall j :: 0 <= j < k ==> Less(MaxChild(s, j, player), MaxNodeChildren(s, n, player))
  }

  /** Action k is the first among the first n whose child attains their minimum. */
  predicate FirstMinChild(s: State, player: Player, n: nat, k: nat)
    requires s.number >= 1 && n <= 2
  {
    && k < n
    && MinChild(s, k, player) == MinNodeChildren(s, n, player)
    && forall j :: 0 <= j < k ==> Less(MinNodeChildren(s, n, player), MinChild(s, j, player))
  }

  /** Every search value is a win (+1) or a loss (-1). */
  lemma {:induction false} ValuesAreWinOrLoss(s: State, player: Player)
    requires s.number >= 0
    ensures MaxNodeValue(s, player) == Fin(1) || MaxNodeValue(s, player) == Fin(-1)
    ensures MinNodeValue(s, player) == Fin(1) || MinNodeValue(s, player) == Fin(-1)
    decreases s.number
  {
    if !IsTerminal(s) {
      var c0, c1 := Result(s, Decrement), Result(s, Halve);
      ValuesAreWinOrLoss(c0, player);
      ValuesAreWinOrLoss(c1, player);
      assert MaxNodeChildren(s, 1, player) == MinNodeValue(c0, player);
      assert MinNodeChildren(s, 1, player) == MaxNodeValue(c0, player);
    }
  }

  /** The reference outcome: does the player to move at n win under best play?
      At 0 the player to move wins (that is how utility scores it); otherwise
      the mover wins when some move leaves the opponent lost. */
  predicate MoverWins(n: int)
    requires n >= 0
    decreases n
  {
    n == 0 || !MoverWins(n - 1) || !MoverWins(n / 2)
  }

  /** Along the alternation the search really follows (max_value on the
      searcher's turns, min_value on the opponent's), both halves of the search
      agree with the reference outcome. */
  lemma {:induction false} SearchValueIsOutcome(s: State, player: Player)
    requires s.number >= 0
    ensures s.player == player ==>
      MaxNodeValue(s, player) == Fin(if MoverWins(s.number) then 1 else -1)
    ensures s.player != player ==>
      MinNodeValue(s, player) == Fin(if MoverWins(s.number) then -1 else 1)
    decreases s.number
  {
    if !IsTerminal(s) {
      var c0, c1 := Result(s, Decrement), Result(s, Halve);
      SearchValueIsOutcome(c0, player);
      SearchValueIsOutcome(c1, player);
      assert MaxNodeChildren(s, 1, player) == MinNodeValue(c0, player);
      assert MinNodeChildren(s, 1, player) == MaxNodeValue(c0, player);
    }
  }

  /** max_value: the value of the state and, unless it is terminal, the first
      action attaining it (the comparison is a strict >). */
  method MaxValue(s: State, player: Player) returns (v: Score, best: Option<Action>)
    requires s.number >= 0
    decreases s.number
    ensures v == MaxNodeValue(s, player)
    ensures v == Fin(1) || v == Fin(-1)
    ensures IsTerminal(s) ==> v == Fin(Utility(s, player)) && best == None
    ensures !IsTerminal(s) ==>
      exists k: nat :: k < 2 && FirstMaxChild(s, player, 2, k) && best == Some(Actions(s)[k])
  {
    ValuesAreWinOrLoss(s, player);
    if IsTerminal(s) {
      return Fin(Utility(s, player)), None;
    }
    v, best := NegInf, None;
    var acts := Actions(s);
    ghost var k: nat := 0;
    var i := 0;
    while i < |acts|
      invariant 0 <= i <= |acts| && acts == Actions(s)
      invariant v == MaxNodeChildren(s, i, player)
      invariant i == 0 ==> v == NegInf && best == None
      invariant i > 0 ==> k < i && best == Some(acts[k]) && FirstMaxChild(s, player, i, k)
    {
      var a := acts[i];
      var v2, _ := MinValue(Result(s, a), player);
      ValuesAreWinOrLoss(Result(s, a), player);
      if Less(v, v2) {
        v, best := v2, Some(a);
        k := i;
      }
      i := i + 1;
    }
  }

  /** min_value: the smallest child value and the first action attaining it
      (the comparison is a strict <). */
  method MinValue(s: State, player: Player) returns (v: Score, best: Option<Action>)
    requires s.number >= 0
    decreases s.number
    ensures v == MinNodeValue(s, player)
    ensures v == Fin(1) || v == Fin(-1)
    ensures IsTerminal(s) ==> v == Fin(Utility(s, player)) && best == None
    ensures !IsTerminal(s) ==>
      exists k: nat :: k < 2 && FirstMinChild(s, player, 2, k) && best == Some(Actions(s)[k])
  {
    ValuesAreWinOrLoss(s, player);
    if IsTerminal(s) {
      return Fin(Utility(s, player)), None;
    }
    v, best := PosInf, None;
    var acts := Actions(s);
    ghost var k: nat := 0;
    var i := 0;
    while i < |acts|
      invariant 0 <= i <= |acts| && acts == Actions(s)
      invariant v == MinNodeChildren(s, i, player)
      invariant i == 0 ==> v == PosInf && best == None
      invariant i > 0 ==> k < i && best == Some(acts[k]) && FirstMinChild(s, player, i, k)
    {
      var a := acts[i];
      var v2, _ := MaxValue(Result(s, a), player);
      ValuesAreWinOrLoss(Result(s, a), player);
      if Less(v2, v) {
        v, best := v2, Some(a);
        k := i;
      }
      i := i + 1;
    }
  }

  /** The function form of MinimaxSearch, for use in functions and lemmas such
      as SelfPlay. MinimaxSearch is proved to return it. It is '--' when that
      child is at least as good for the player to move as the '/2' child, and
      '/2' otherwise. */
  function MinimaxChoice(s: State): (m: Option<Action>)
    requires s.number >= 0
    ensures m == None <==> IsTerminal(s)
  {
    if IsTerminal(s) then None
    else if LessEq(MaxChild(s, 1, ToMove(s)), MaxChild(s, 0, ToMove(s))) then Some(Decrement)
    else Some(Halve)
  }

  /** minimax_search: no move in a terminal state; otherwise the first of
      '--', '/2' whose child attains the value for the player to move. */
  method MinimaxSearch(s: State) returns (move: Option<Action>)
    requires s.number >= 0
    ensures move == MinimaxChoice(s)
    ensures IsTerminal(s) <==> move == None
    ensures !IsTerminal(s) ==>
      exists k: nat :: k < 2 && FirstMaxChild(s, ToMove(s), 2, k) && move == Some(Actions(s)[k])
  {
    var player := ToMove(s);
    var v;
    v, move := MaxValue(s, player);
    if !IsTerminal(s) {
      ValuesAreWinOrLoss(Result(s, Decrement), player);
      ValuesAreWinOrLoss(Result(s, Halve), player);
      assert MaxNodeChildren(s, 1, player) == MaxChild(s, 0, player);
    }
  }

  /** The sequence of moves the driver makes when both sides use the search. */
  function SelfPlay(s: State): seq<Action>
    requires s.number >= 0
    decreases s.number
  {
    match MinimaxChoice(s)
    case None => []
    case Some(a) => [a] + SelfPlay(Result(s, a))
  }

  /** The expected run from N = 5: '--', '--', '/2', '--', ending at number 0
      with the first player to move, which is a win for the first player. */
  lemma SelfPlayFromFive()
    ensures SelfPlay(InitialState(Game(5))) == [Decrement, Decrement, Halve, Decrement]
    ensures Apply(InitialState(Game(5)), [Decrement, Decrement, Halve, Decrement]) == State(0, 0)
    ensures Utility(State(0, 0), 0) == 1
  {
    assert MoverWins(0) && !MoverWins(1) && MoverWins(2) && MoverWins(3) && !MoverWins(4);
    var s5, s4, s3, s1 := State(0, 5), State(1, 4), State(0, 3), State(1, 1);
    SearchValueIsOutcome(State(1, 4), 0);
    SearchValueIsOutcome(State(1, 2), 0);
    SearchValueIsOutcome(State(0, 3), 1);
    SearchValueIsOutcome(State(0, 2), 1);
    SearchValueIsOutcome(State(1, 2), 0);
    SearchValueIsOutcome(State(1, 1), 0);
    SearchValueIsOutcome(State(0, 0), 1);
    assert MinimaxChoice(s5) == Some(Decrement);
    assert MinimaxChoice(s4) == Some(Decrement);
    assert MinimaxChoice(s3) == Some(Halve);
    assert MinimaxChoice(s1) == Some(Decrement);
    assert MinimaxChoice(State(0, 0)) == None;
    assert SelfPlay(s1) == [Decrement];
    assert SelfPlay(s3) == [Halve, Decrement];
    assert Result(s5, Decrement) == s4 && Result(s4, Decrement) == s3;
    assert Result(s3, Halve) == s1 && Result(s1, Decrement) == State(0, 0);
    assert SelfPlay(State(0, 0)) == [];
    assert SelfPlay(s4) == [Decrement, Halve, Decrement];
    assert SelfPlay(s5) == [Decrement, Decrement, Halve, Decrement];
    var moves := [Decrement, Decrement, Halve, Decrement];
    assert moves[..3] == [Decrement, Decrement, Halve];
    assert moves[..3][..2] == [Decrement, Decrement];
    assert moves[..3][..2][..1] == [Decrement];
    assert [Decrement][..0] == [];
    assert Apply(s5, [Decrement]) == s4;
    assert Apply(s5, [Decrement, Decrement]) == s3;
    assert Apply(s5, [Decrement, Decrement, Halve]) == s1;
  }
}
