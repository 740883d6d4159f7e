/** The bucket game: the first player picks one of three buckets, the second
    player then picks one of the two rewards in it, and the state holding that
    single reward is terminal. The search is full-depth minimax in which, as
    the code is written, the "minimising" half also keeps the largest value. */
module BucketGame {
  import opened GameBasics

  /** A bucket label, or the choice of one integer reward. */
  datatype Action = Bucket(name: char) | Pick(reward: int)

  /** The player to move and the list of remaining actions. */
  datatype State = State(player: Player, actions: seq<Action>)

  /** The actions result accepts: an integer, or one of the labels 'A', 'B', 'C'
      (any other label fails the source's type assertion). */
  predicate Legal(a: Action) {
    a.Pick? || a.name == 'A' || a.name == 'B' || a.name == 'C'
  }

  /** What the source's assertions demand of a state it searches: every
      action can be applied, and a terminal state holds an integer reward. */
  predicate WellFormed(s: State) {
    && (forall j :: 0 <= j < |s.actions| ==> Legal(s.actions[j]))
    && (IsTerminal(s) ==> s.actions[0].Pick?)
  }

  function InitialState(): (s: State)
    ensures s.player == 0 && |s.actions| == 3
    ensures forall j :: 0 <= j < 3 ==> s.actions[j].Bucket?
    ensures !IsTerminal(s) && WellFormed(s)
  {
    State(0, [Bucket('A'), Bucket('B'), Bucket('C')])
  }

  function ToMove(s: State): Player {
    s.player
  }

  function Actions(s: State): seq<Action> {
    s.actions
  }

  /** A bucket becomes its two rewards; a reward becomes the single-element,
      terminal list. The player flips either way. */
  function Result(s: State, a: Action): (r: State)
    requires Legal(a)
    ensures r.player == Other(ToMove(s))
    ensures WellFormed(r)
    ensures a.Pick? ==> IsTerminal(r) && r.actions == [a]
    ensures a.Bucket? ==> !IsTerminal(r) && |r.actions| == 2
    ensures a.Bucket? ==> forall j :: 0 <= j < 2 ==> r.actions[j].Pick?
  {
    if a == Bucket('A') then State(Other(ToMove(s)), [Pick(-50), Pick(50)])
    else if a == Bucket('B') then State(Other(ToMove(s)), [Pick(3), Pick(1)])
    else if a == Bucket('C') then State(Other(ToMove(s)), [Pick(-5), Pick(15)])
    else State(Other(ToMove(s)), [a])
  }

  predicate IsTerminal(s: State) {
    |s.actions| == 1
  }

  /** The reward goes to the player to move in the terminal state; the other
      player gets its negation. */
  function Utility(s: State, player: Player): int
    requires IsTerminal(s) && s.actions[0].Pick?
  {
    if player == ToMove(s) then s.actions[0].reward else -s.actions[0].reward
  }

  lemma UtilityZeroSum(s: State, player: Player)
    requires IsTerminal(s) && s.actions[0].Pick?
    ensures Utility(s, player) == -Utility(s, Other(player))
    ensures Utility(s, ToMove(s)) == s.actions[0].reward
  {
  }

  /** Every play from the initial state takes exactly two moves: the number of
      actions goes 3, 2, 1, and only the last state is terminal. */
  lemma PlaysTakeTwoMoves(j: nat, k: nat)
    requires j < 3 && k < 2
    ensures var s1 := Result(InitialState(), InitialState().actions[j]);
      && |s1.actions| == 2 && !IsTerminal(s1)
      && var s2 := Result(s1, s1.actions[k]);
      && |s2.actions| == 1 && IsTerminal(s2)
      && s2.player == InitialState().player
  {
  }

  // ---------------------------------------------------------------------------
  // The search.

  /** Termination measure of the search: 0 for a terminal state, 1 when only
      rewards are left to pick, 2 otherwise. Every move lowers it. */
  function Rank(s: State): nat {
    if IsTerminal(s) then 0
    else if forall j :: 0 <= j < |s.actions| ==> s.actions[j].Pick? then 1
    else 2
  }

  lemma ResultLowersRank(s: State, j: nat)
    requires WellFormed(s) && !IsTerminal(s) && j < |s.actions|
    ensures Rank(Result(s, s.actions[j])) < Rank(s)
  {
  }

  /** The value max_value computes for `player`: the utility of a terminal
      state, otherwise the largest of min_value over the children. */
  function MaxNodeValue(s: State, player: Player): Score
    requires WellFormed(s)
    decreases Rank(s), 1
  {
    if IsTerminal(s) then Fin(Utility(s, player))
    else MaxNodeChildren(s, |s.actions|, player)
  }

  /** The value min_value computes: as written, it too keeps the largest of
      max_value over the children, starting from -inf. */
  function MinNodeValue(s: State, player: Player): Score
    requires WellFormed(s)
    decreases Rank(s), 1
  {
    if IsTerminal(s) then Fin(Utility(s, player))
    else MinNodeChildren(s, |s.actions|, player)
  }

  /** The running value of max_value's loop after the first n actions. */
  function MaxNodeChildren(s: State, n: nat, player: Player): Score
    requires WellFormed(s) && !IsTerminal(s) && n <= |s.actions|
    decreases Rank(s), 0, n
  {
    if n == 0 then NegInf
    else
      ResultLowersRank(s, n - 1);
      Max(MaxNodeChildren(s, n - 1, player), MinNodeValue(Result(s, s.actions[n - 1]), player))
  }

  /** The running value of min_value's loop after the first n actions. */
  function MinNodeChildren(s: State, n: nat, player: Player): Score
    requires WellFormed(s) && !IsTerminal(s) && n <= |s.actions|
    decreases Rank(s), 0, n
  {
    if n == 0 then NegInf
    else
      ResultLowersRank(s, n - 1);
      Max(MinNodeChildren(s, n - 1, player), MaxNodeValue(Result(s, s.actions[n - 1]), player))
  }

  /** The value max_value receives for its j-th child. */
  function MaxChild(s: State, j: nat, player: Player): Score
    requires WellFormed(s) && !IsTerminal(s) && j < |s.actions|
  {
    MinNodeValue(Result(s, s.actions[j]), player)
  }

  /** The value min_value receives for its j-th child. */
  function MinChild(s: State, j: nat, player: Player): Score
    requires WellFormed(s) && !IsTerminal(s) && j < |s.actions|
  {
    MaxNodeValue(Result(s, s.actions[j]), player)
  }

  /** Action k is the first among the first n whose child attains their maximum. */
  predicate FirstMaxChild(s: State, player: Player, n: nat, k: nat)
    requires WellFormed(s) && !IsTerminal(s) && n <= |s.actions|
  {
    && k < n
    && MaxChild(s, k, player) == MaxNodeChildren(s, n, player)
    && forall j :: 0 <= j < k ==> Less(MaxChild(s, j, player), MaxNodeChildren(s, n, player))
  }

  /** The same for min_value, whose loop also keeps the first strictly larger value. */
  predicate FirstMinChild(s: State, player: Player, n: nat, k: nat)
    requires WellFormed(s) && !IsTerminal(s) && n <= |s.actions|
  {
    && k < n
    && MinChild(s, k, player) == MinNodeChildren(s, n, player)
    && forall j :: 0 <= j < k ==> Less(MinChild(s, j, player), MinNodeChildren(s, n, player))
  }

  /** max_value's loop value is the maximum of the children seen: no child
      exceeds it, and one attains it (none when there are no children). */
  lemma {:induction false} MaxNodeChildrenIsMaximum(s: State, n: nat, player: Player)
    requires WellFormed(s) && !IsTerminal(s) && n <= |s.actions|
    ensures forall j :: 0 <= j < n ==> LessEq(MaxChild(s, j, player), MaxNodeChildren(s, n, player))
    ensures n == 0 <==> MaxNodeChildren(s, n, player) == NegInf
    ensures n > 0 ==> exists j :: 0 <= j < n && MaxChild(s, j, player) == MaxNodeChildren(s, n, player)
  {
    if n > 0 {
      MaxNodeChildrenIsMaximum(s, n - 1, player);
      ChildValueFinite(s, s.actions[n - 1], player);
      if Less(MaxNodeChildren(s, n - 1, player), MaxChild(s, n - 1, player)) {
        assert MaxChild(s, n - 1, player) == MaxNodeChildren(s, n, player);
      } else {
        var j :| 0 <= j < n - 1 && MaxChild(s, j, player) == MaxNodeChildren(s, n - 1, player);
        assert MaxChild(s, j, player) == MaxNodeChildren(s, n, player);
      }
      forall j | 0 <= j < n
        ensures LessEq(MaxChild(s, j, player), MaxNodeChildren(s, n, player))
      {
        if j < n - 1 {
          LessFacts(MaxChild(s, j, player), MaxNodeChildren(s, n - 1, player), MaxNodeChildren(s, n, player));
        }
      }
    }
  }

  /** The same characterisation of min_value's loop value: it is the maximum too. */
  lemma {:induction false} MinNodeChildrenIsMaximum(s: State, n: nat, player: Player)
    requires WellFormed(s) && !IsTerminal(s) && n <= |s.actions|
    ensures forall j :: 0 <= j < n ==> LessEq(MinChild(s, j, player), MinNodeChildren(s, n, player))
    ensures n == 0 <==> MinNodeChildren(s, n, player) == NegInf
    ensures n > 0 ==> exists j :: 0 <= j < n && MinChild(s, j, player) == MinNodeChildren(s, n, player)
  {
    if n > 0 {
      MinNodeChildrenIsMaximum(s, n - 1, player);
      ChildValueFinite(s, s.actions[n - 1], player);
      if Less(MinNodeChildren(s, n - 1, player), MinChild(s, n - 1, player)) {
        assert MinChild(s, n - 1, player) == MinNodeChildren(s, n, player);
      } else {
        var j :| 0 <= j < n - 1 && MinChild(s, j, player) == MinNodeChildren(s, n - 1, player);
        assert MinChild(s, j, player) == MinNodeChildren(s, n, player);
      }
      forall j | 0 <= j < n
        ensures LessEq(MinChild(s, j, player), MinNodeChildren(s, n, player))
      {
        if j < n - 1 {
          LessFacts(MinChild(s, j, player), MinNodeChildren(s, n - 1, player), MinNodeChildren(s, n, player));
        }
      }
    }
  }

  /** After any move both halves of the search find a finite value: the
      child is terminal, or holds two rewards. */
  lemma ChildValueFinite(s: State, a: Action, player: Player)
    requires Legal(a)
    ensures MaxNodeValue(Result(s, a), player).Fin?
    ensures MinNodeValue(Result(s, a), player).Fin?
  {
    var r := Result(s, a);
    if a.Bucket? {
      var c0, c1 := Result(r, r.actions[0]), Result(r, r.actions[1]);
      assert MaxNodeChildren(r, 1, player) == Max(NegInf, MinNodeValue(c0, player));
      assert MinNodeChildren(r, 1, player) == Max(NegInf, MaxNodeValue(c0, player));
      assert MaxNodeChildren(r, 2, player) == Max(MaxNodeChildren(r, 1, player), MinNodeValue(c1, player));
      assert MinNodeChildren(r, 2, player) == Max(MinNodeChildren(r, 1, player), MaxNodeValue(c1, player));
    }
  }

  /** A consequence of the quirk: min_value and max_value compute the same value. */
  lemma {:induction false} MinNodeIsMaxNode(s: State, player: Player)
    requires WellFormed(s)
    ensures MinNodeValue(s, player) == MaxNodeValue(s, player)
    decreases Rank(s), 1
  {
    if !IsTerminal(s) {
      ChildrenAgree(s, |s.actions|, player);
    }
  }

  lemma {:induction false} ChildrenAgree(s: State, n: nat, player: Player)
    requires WellFormed(s) && !IsTerminal(s) && n <= |s.actions|
    ensures MinNodeChildren(s, n, player) == MaxNodeChildren(s, n, player)
    decreases Rank(s), 0, n
  {
    if n > 0 {
      ChildrenAgree(s, n - 1, player);
      ResultLowersRank(s, n - 1);
      MinNodeIsMaxNode(Result(s, s.actions[n - 1]), player);
    }
  }

  /** max_value: the value of the state and, unless it is terminal, the first
      action attaining it (the comparison is a strict >). */
  method MaxValue(s: State, player: Player) returns (v: Score, best: Option<Action>)
    requires WellFormed(s)
    decreases Rank(s)
    ensures v == MaxNodeValue(s, player)
    ensures IsTerminal(s) ==> v == Fin(Utility(s, player)) && best == None
    ensures !IsTerminal(s) ==> (best.Some? <==> s.actions != [])
    ensures best.Some? ==> best.value in s.actions
    ensures !IsTerminal(s) && best.Some? ==>
      exists k: nat :: k < |s.actions| && FirstMaxChild(s, player, |s.actions|, k) && best == Some(s.actions[k])
  {
    if IsTerminal(s) {
      return Fin(Utility(s, player)), None;
    }
    v, best := NegInf, None;
    var acts := Actions(s);
    ghost var k: nat := 0;
    var i := 0;
    while i < |acts|
      invariant 0 <= i <= |acts| && acts == s.actions
      invariant v == MaxNodeChildren(s, i, player)
      invariant i == 0 ==> best == None
      invariant i > 0 ==> v.Fin? && k < i && best == Some(acts[k]) && FirstMaxChild(s, player, i, k)
    {
      var a := acts[i];
      ResultLowersRank(s, i);
      var v2, _ := MinValue(Result(s, a), player);
      ChildValueFinite(s, a, player);
      MaxNodeChildrenIsMaximum(s, i, player);
      if Less(v, v2) {
        forall j | 0 <= j < i ensures Less(MaxChild(s, j, player), v2) {
          LessFacts(MaxChild(s, j, player), v, v2);
        }
        v, best := v2, Some(a);
        k := i;
      }
      i := i + 1;
    }
  }

  /** min_value as written: the largest child value and the first action
      attaining it, exactly like max_value. */
  method MinValue(s: State, player: Player) returns (v: Score, best: Option<Action>)
    requires WellFormed(s)
    decreases Rank(s)
    ensures v == MinNodeValue(s, player)
    ensures IsTerminal(s) ==> v == Fin(Utility(s, player)) && best == None
    ensures !IsTerminal(s) ==> (best.Some? <==> s.actions != [])
    ensures best.Some? ==> best.value in s.actions
    ensures !IsTerminal(s) && best.Some? ==>
      exists k: nat :: k < |s.actions| && FirstMinChild(s, player, |s.actions|, k) && best == Some(s.actions[k])
  {
    if IsTerminal(s) {
      return Fin(Utility(s, player)), None;
    }
    v, best := NegInf, None;
    var acts := Actions(s);
    ghost var k: nat := 0;
    var i := 0;
    while i < |acts|
      invariant 0 <= i <= |acts| && acts == s.actions
      invariant v == MinNodeChildren(s, i, player)
      invariant i == 0 ==> best == None
      invariant i > 0 ==> v.Fin? && k < i && best == Some(acts[k]) && FirstMinChild(s, player, i, k)
    {
      var a := acts[i];
      ResultLowersRank(s, i);
      var v2, _ := MaxValue(Result(s, a), player);
      ChildValueFinite(s, a, player);
      MinNodeChildrenIsMaximum(s, i, player);
      if Less(v, v2) {
        forall j | 0 <= j < i ensures Less(MinChild(s, j, player), v2) {
          LessFacts(MinChild(s, j, player), v, v2);
        }
        v, best := v2, Some(a);
        k := i;
      }
      i := i + 1;
    }
  }

  /** minimax_search: no move in a terminal state; otherwise the first action
      whose child attains the state's value for the player to move. */
  method MinimaxSearch(s: State) returns (move: Option<Action>)
    requires WellFormed(s)
    ensures IsTerminal(s) ==> move == None
    ensures !IsTerminal(s) ==> (move.Some? <==> s.actions != [])
    ensures move.Some? ==> move.value in Actions(s)
    ensures !IsTerminal(s) && move.Some? ==>
      exists k: nat :: k < |s.actions| && FirstMaxChild(s, ToMove(s), |s.actions|, k) && move == Some(s.actions[k])
  {
    var player := ToMove(s);
    var v;
    v, move := MaxValue(s, player);
  }

  /** From the initial state the search, as written, opens with bucket 'A'
      (value 50 for the first player, since its min_value maximises too). */
  lemma OpeningMoveIsA()
    ensures MaxNodeValue(InitialState(), 0) == Fin(50)
    ensures FirstMaxChild(InitialState(), 0, 3, 0)
    ensures InitialState().actions[0] == Bucket('A')
  {
    var s := InitialState();
    var a, b, c := Result(s, s.actions[0]), Result(s, s.actions[1]), Result(s, s.actions[2]);
    ChildValues(a, 0);
    ChildValues(b, 0);
    ChildValues(c, 0);
    assert MaxChild(s, 0, 0) == Fin(50);
    assert MaxChild(s, 1, 0) == Fin(3);
    assert MaxChild(s, 2, 0) == Fin(15);
    assert MaxNodeChildren(s, 1, 0) == Fin(50);
    assert MaxNodeChildren(s, 2, 0) == Fin(50);
  }

  /** After 'A' the second player, searching for itself, picks -50, and the
      game ends with utility -50 for the first player. */
  lemma ReplyEndsWithMinusFifty()
    ensures var s1 := Result(InitialState(), Bucket('A'));
      && MaxNodeValue(s1, 1) == Fin(50)
      && FirstMaxChild(s1, 1, 2, 0)
      && s1.actions[0] == Pick(-50)
      && Utility(Result(s1, Pick(-50)), 0) == -50
  {
    var s1 := Result(InitialState(), Bucket('A'));
    assert MaxChild(s1, 0, 1) == Fin(50);
    assert MaxChild(s1, 1, 1) == Fin(-50);
    assert MaxNodeChildren(s1, 1, 1) == Fin(50);
  }

  /** The values of a two-reward state, both halves of the search. */
  lemma ChildValues(r: State, player: Player)
    requires WellFormed(r) && |r.actions| == 2 && r.actions[0].Pick? && r.actions[1].Pick?
    ensures var x, y := Utility(Result(r, r.actions[0]), player), Utility(Result(r, r.actions[1]), player);
      MinNodeValue(r, player) == Max(Fin(x), Fin(y))
  {
    var c0, c1 := Result(r, r.actions[0]), Result(r, r.actions[1]);
    assert MinNodeChildren(r, 1, player) == Max(NegInf, MaxNodeValue(c0, player)) == MaxNodeValue(c0, player);
    assert MinNodeChildren(r, 2, player) == Max(MinNodeChildren(r, 1, player), MaxNodeValue(c1, player));
  }
}
