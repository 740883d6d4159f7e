/** Alpha-beta search over tic-tac-toe, proved against plain minimax.

    The search functions receive the game object and use only its methods, so
    the game is modelled here as the record of those methods. Each node's
    result is fail-soft with respect to its window: at or below alpha it is an
    upper bound on the minimax value, at or above beta a lower bound, and
    strictly inside the window it is the value itself. With the full window
    the root therefore gets the minimax value and the first optimal move. */
module TicTacToeSearch {
  import opened GameBasics
  import opened TicTacToe

  /** The methods of the game object that the search calls. */
  datatype Game = Game(
    toMove: State -> Player,
    actions: State -> seq<Action>,
    result: (State, Action) -> State,
    isTerminal: State -> bool,
    utility: (State, Player) -> int)

  /** What the search relies on: every legal move shortens the list of legal
      actions (so the search ends), and a state that is not over has one. */
  ghost predicate Valid(g: Game) {
    && (forall s, a :: !g.isTerminal(s) && a in g.actions(s) ==> |g.actions(g.result(s, a))| < |g.actions(s)|)
    && (forall s :: !g.isTerminal(s) ==> g.actions(s) != [])
  }

  /** Every utility is a win (1), a loss (-1) or a draw (0). */
  ghost predicate UtilityInUnitRange(g: Game) {
    forall s, p :: g.isTerminal(s) ==> -1 <= g.utility(s, p) <= 1
  }

  /** g is tic-tac-toe's game object: its methods are the rules of the
      TicTacToe module, wherever those are defined. */
  ghost predicate IsTicTacToe(g: Game) {
    && (forall s :: g.toMove(s) == ToMove(s))
    && (forall s :: g.actions(s) == EmptyCells(s.board))
    && (forall s :: g.isTerminal(s) == IsTerminal(s))
    && (forall s, a :: InRange(a) ==> g.result(s, a) == Result(s, a))
    && (forall s, p :: IsTerminal(s) ==> g.utility(s, p) == Utility(s, p))
  }

  /** The tic-tac-toe game object. The search only calls result on a legal
      action and utility on a finished game. Elsewhere these return the state
      unchanged and 0. The source instead fails utility's assertion, raises
      IndexError for a coordinate of 3 or more or below -3, and wraps a
      coordinate in -3..-1 through negative indexing. */
  function TicTacToeGame(): (g: Game)
    ensures IsTicTacToe(g)
  {
    Game(
      (s: State) => ToMove(s),
      (s: State) => EmptyCells(s.board),
      (s: State, a: Action) => if InRange(a) then Result(s, a) else s,
      (s: State) => IsTerminal(s),
      (s: State, p: Player) => if IsTerminal(s) then Utility(s, p) else 0)
  }

  /** Tic-tac-toe meets what the search relies on, and its utilities are
      wins, losses and draws. */
  lemma TicTacToeIsValid(g: Game)
    requires IsTicTacToe(g)
    ensures Valid(g) && UtilityInUnitRange(g)
  {
    forall s, a | !g.isTerminal(s) && a in g.actions(s)
      ensures |g.actions(g.result(s, a))| < |g.actions(s)|
    {
      EmptyCellsSpec(s.board);
      ResultFillsOneCell(s, a);
    }
    forall s | !g.isTerminal(s)
      ensures g.actions(s) != []
    {
      TerminalIffWonOrNoMoves(s);
    }
  }

  /** The minimax value of a state where `player` maximises: what max_value
      would return if its window never narrowed. */
  function MaxNodeValue(g: Game, s: State, player: Player): Score
    requires Valid(g)
    decreases |g.actions(s)|, 1
  {
    if g.isTerminal(s) then Fin(g.utility(s, player))
    else MaxNodeChildren(g, s, |g.actions(s)|, player)
  }

  /** The minimax value of a state where the opponent of `player` minimises. */
  function MinNodeValue(g: Game, s: State, player: Player): Score
    requires Valid(g)
    decreases |g.actions(s)|, 1
  {
    if g.isTerminal(s) then Fin(g.utility(s, player))
    else MinNodeChildren(g, s, |g.actions(s)|, player)
  }

  /** The largest minimax value among the children of the first n actions,
      -inf when n is 0. */
  function MaxNodeChildren(g: Game, s: State, n: nat, player: Player): Score
    requires Valid(g) && !g.isTerminal(s) && n <= |g.actions(s)|
    decreases |g.actions(s)|, 0, n
  {
    if n == 0 then NegInf
    else
      var prev := MaxNodeChildren(g, s, n - 1, player);
      var child := MaxChild(g, s, n - 1, player);
      if Less(prev, child) then child else prev
  }

  /** The smallest minimax value among the children of the first n actions,
      +inf when n is 0. */
  function MinNodeChildren(g: Game, s: State, n: nat, player: Player): Score
    requires Valid(g) && !g.isTerminal(s) && n <= |g.actions(s)|
    decreases |g.actions(s)|, 0, n
  {
    if n == 0 then PosInf
    else
      var prev := MinNodeChildren(g, s, n - 1, player);
      var child := MinChild(g, s, n - 1, player);
      if Less(child, prev) then child else prev
  }

  /** The minimax value of the j-th child of a maximising node. */
  function MaxChild(g: Game, s: State, j: nat, player: Player): Score
    requires Valid(g) && !g.isTerminal(s) && j < |g.actions(s)|
    decreases |g.actions(s)|, 0, j
  {
    assert g.actions(s)[j] in g.actions(s);
    MinNodeValue(g, g.result(s, g.actions(s)[j]), player)
  }

  /** The minimax value of the j-th child of a minimising node. */
  function MinChild(g: Game, s: State, j: nat, player: Player): Score
    requires Valid(g) && !g.isTerminal(s) && j < |g.actions(s)|
    decreases |g.actions(s)|, 0, j
  {
    assert g.actions(s)[j] in g.actions(s);
    MaxNodeValue(g, g.result(s, g.actions(s)[j]), player)
  }

  /** Action k is the first among the first n whose child attains their maximum. */
  predicate FirstMaxChild(g: Game, s: State, player: Player, n: nat, k: nat)
    requires Valid(g) && !g.isTerminal(s) && n <= |g.actions(s)|
  {
    && k < n
    && MaxChild(g, s, k, player) == MaxNodeChildren(g, s, n, player)
    && forall j :: 0 <= j < k ==> Less(MaxChild(g, s, j, player), MaxNodeChildren(g, s, n, player))
  }

  /** Action k is the first among the first n whose child attains their minimum. */
  predicate FirstMinChild(g: Game, s: State, player: Player, n: nat, k: nat)
    requires Valid(g) && !g.isTerminal(s) && n <= |g.actions(s)|
  {
    && k < n
    && MinChild(g, s, k, player) == MinNodeChildren(g, s, n, player)
    && forall j :: 0 <= j < k ==> Less(MinNodeChildren(g, s, n, player), MinChild(g, s, j, player))
  }

  /** No child among the first n is above their maximum. */
  lemma {:induction false} MaxNodeChildrenBound(g: Game, s: State, n: nat, player: Player)
    requires Valid(g) && !g.isTerminal(s) && n <= |g.actions(s)|
    ensures forall j :: 0 <= j < n ==> LessEq(MaxChild(g, s, j, player), MaxNodeChildren(g, s, n, player))
  {
    if n > 0 {
      MaxNodeChildrenBound(g, s, n - 1, player);
      forall j | 0 <= j < n - 1
        ensures LessEq(MaxChild(g, s, j, player), MaxNodeChildren(g, s, n, player))
      {
        LessFacts(MaxChild(g, s, j, player), MaxNodeChildren(g, s, n - 1, player), MaxNodeChildren(g, s, n, player));
      }
    }
  }

  /** No child among the first n is below their minimum. */
  lemma {:induction false} MinNodeChildrenBound(g: Game, s: State, n: nat, player: Player)
    requires Valid(g) && !g.isTerminal(s) && n <= |g.actions(s)|
    ensures forall j :: 0 <= j < n ==> LessEq(MinNodeChildren(g, s, n, player), MinChild(g, s, j, player))
  {
    if n > 0 {
      MinNodeChildrenBound(g, s, n - 1, player);
      forall j | 0 <= j < n - 1
        ensures LessEq(MinNodeChildren(g, s, n, player), MinChild(g, s, j, player))
      {
        LessFacts(MinNodeChildren(g, s, n, player), MinNodeChildren(g, s, n - 1, player), MinChild(g, s, j, player));
      }
    }
  }

  /** The first maximising child among the first i stays first when child i
      is no larger, and child i becomes it when it is strictly larger. */
  lemma FirstMaxChildStep(g: Game, s: State, player: Player, i: nat, k: nat)
    requires Valid(g) && !g.isTerminal(s) && i < |g.actions(s)|
    ensures Less(MaxNodeChildren(g, s, i, player), MaxChild(g, s, i, player)) ==>
      FirstMaxChild(g, s, player, i + 1, i)
    ensures 0 < i && FirstMaxChild(g, s, player, i, k) && !Less(MaxNodeChildren(g, s, i, player), MaxChild(g, s, i, player)) ==>
      FirstMaxChild(g, s, player, i + 1, k)
  {
    MaxNodeChildrenBound(g, s, i, player);
  }

  /** The mirror image of FirstMaxChildStep for minimising nodes. */
  lemma FirstMinChildStep(g: Game, s: State, player: Player, i: nat, k: nat)
    requires Valid(g) && !g.isTerminal(s) && i < |g.actions(s)|
    ensures Less(MinChild(g, s, i, player), MinNodeChildren(g, s, i, player)) ==>
      FirstMinChild(g, s, player, i + 1, i)
    ensures 0 < i && FirstMinChild(g, s, player, i, k) && !Less(MinChild(g, s, i, player), MinNodeChildren(g, s, i, player)) ==>
      FirstMinChild(g, s, player, i + 1, k)
  {
    MinNodeChildrenBound(g, s, i, player);
  }

  /** With utilities in {-1, 0, 1}, every minimax value is a win, a draw or a loss. */
  lemma {:induction false} NodeValueRange(g: Game, s: State, player: Player)
    requires Valid(g) && UtilityInUnitRange(g)
    ensures MaxNodeValue(g, s, player).Fin? && -1 <= MaxNodeValue(g, s, player).n <= 1
    ensures MinNodeValue(g, s, player).Fin? && -1 <= MinNodeValue(g, s, player).n <= 1
    decreases |g.actions(s)|, 1
  {
    if !g.isTerminal(s) {
      ChildrenRange(g, s, |g.actions(s)|, player);
    }
  }

  lemma {:induction false} ChildrenRange(g: Game, s: State, n: nat, player: Player)
    requires Valid(g) && UtilityInUnitRange(g) && !g.isTerminal(s) && 0 < n <= |g.actions(s)|
    ensures MaxNodeChildren(g, s, n, player).Fin? && -1 <= MaxNodeChildren(g, s, n, player).n <= 1
    ensures MinNodeChildren(g, s, n, player).Fin? && -1 <= MinNodeChildren(g, s, n, player).n <= 1
    decreases |g.actions(s)|, 0, n
  {
    var a := g.actions(s)[n - 1];
    assert a in g.actions(s);
    NodeValueRange(g, g.result(s, a), player);
    if n > 1 {
      ChildrenRange(g, s, n - 1, player);
    }
  }

  /** r is a fail-soft answer for the true value w in the window (alpha, beta). */
  predicate FailSoft(r: Score, w: Score, alpha: Score, beta: Score) {
    && (LessEq(r, alpha) ==> LessEq(w, r))
    && (LessEq(beta, r) ==> LessEq(r, w))
    && (Less(alpha, r) && Less(r, beta) ==> r == w)
  }

  /** With the full window a finite fail-soft answer is the true value. */
  lemma FullWindowIsExact(r: Score, w: Score)
    requires r.Fin? && FailSoft(r, w, NegInf, PosInf)
    ensures r == w
  {
  }

  /** One iteration of max_value's loop. Before it, v is the best child result
      so far and m the largest minimax value of those children, related as in
      the loop invariant; the child's result w is fail-soft for its value c in
      the narrowed window (max(alpha, v), beta). Afterwards the relation holds
      again for the new v and the new maximum, or the cut-off result is a
      lower bound on c. */
  lemma MaxStep(alpha: Score, beta: Score, v: Score, m: Score, w: Score, c: Score)
    requires Less(alpha, beta) && Less(v, beta)
    requires LessEq(v, alpha) ==> LessEq(m, v)
    requires Less(alpha, v) ==> m == v
    requires FailSoft(w, c, Max(alpha, v), beta)
    ensures var v' := if Less(v, w) then w else v;
      var m' := if Less(m, c) then c else m;
      && (Less(v', beta) && LessEq(v', alpha) ==> LessEq(m', v'))
      && (Less(v', beta) && Less(alpha, v') ==> m' == v')
      && (LessEq(beta, v') ==> LessEq(v', c))
      && (Less(v, w) && Less(alpha, w) && Less(w, beta) ==> c == w && Less(m, c))
      && (!Less(v, w) && Less(alpha, v) ==> m' == m)
    ensures Less(v, w) ==> Max(Max(alpha, v), w) == Max(alpha, w)
  {
    LessFacts(alpha, v, w);
    LessFacts(m, v, w);
    LessFacts(c, w, v);
    LessFacts(m, c, w);
    LessFacts(alpha, beta, w);
  }

  /** One iteration of min_value's loop, the mirror image of MaxStep. */
  lemma MinStep(alpha: Score, beta: Score, v: Score, m: Score, w: Score, c: Score)
    requires Less(alpha, beta) && Less(alpha, v)
    requires LessEq(beta, v) ==> LessEq(v, m)
    requires Less(v, beta) ==> m == v
    requires FailSoft(w, c, alpha, Min(beta, v))
    ensures var v' := if Less(w, v) then w else v;
      var m' := if Less(c, m) then c else m;
      && (Less(alpha, v') && LessEq(beta, v') ==> LessEq(v', m'))
      && (Less(alpha, v') && Less(v', beta) ==> m' == v')
      && (LessEq(v', alpha) ==> LessEq(c, v'))
      && (Less(w, v) && Less(alpha, w) && Less(w, beta) ==> c == w && Less(c, m))
      && (!Less(w, v) && Less(v, beta) ==> m' == m)
    ensures Less(w, v) ==> Min(Min(beta, v), w) == Min(beta, w)
  {
    LessFacts(beta, v, w);
    LessFacts(m, v, w);
    LessFacts(c, w, v);
    LessFacts(m, c, w);
    LessFacts(alpha, beta, w);
  }

  /** The invariant of max_value's loop after the first i children: v is the
      largest result so far (-inf before any), above beta never; while v is
      at most alpha no child value so far is above it, and once v is above
      alpha it is the children's maximum, first attained by child k. */
  ghost predicate MaxLoop(g: Game, s: State, player: Player, alpha: Score, beta: Score, i: nat, v: Score, k: nat)
    requires Valid(g) && !g.isTerminal(s) && i <= |g.actions(s)|
  {
    && Less(v, beta)
    && (i == 0 ==> v == NegInf)
    && (i > 0 ==> v.Fin?)
    && (LessEq(v, alpha) ==> LessEq(MaxNodeChildren(g, s, i, player), v))
    && (Less(alpha, v) ==> MaxNodeChildren(g, s, i, player) == v && FirstMaxChild(g, s, player, i, k))
  }

  /** One iteration of max_value's loop: with w a fail-soft answer for child
      i in the narrowed window, either the new result reaches beta and is a
      fail-soft answer for the node, or the invariant holds for i + 1. */
  lemma MaxLoopStep(g: Game, s: State, player: Player, alpha: Score, beta: Score, i: nat, v: Score, k: nat, w: Score)
    requires Valid(g) && !g.isTerminal(s) && i < |g.actions(s)| && Less(alpha, beta)
    requires MaxLoop(g, s, player, alpha, beta, i, v, k)
    requires w.Fin? && FailSoft(w, MaxChild(g, s, i, player), Max(alpha, v), beta)
    ensures Less(v, w) ==> Max(Max(alpha, v), w) == Max(alpha, w)
    ensures var v' := if Less(v, w) then w else v;
      var k' := if Less(v, w) then i else k;
      if LessEq(beta, v') then FailSoft(v', MaxNodeValue(g, s, player), alpha, beta)
      else MaxLoop(g, s, player, alpha, beta, i + 1, v', k')
  {
    var m := MaxNodeChildren(g, s, i, player);
    var c := MaxChild(g, s, i, player);
    MaxStep(alpha, beta, v, m, w, c);
    FirstMaxChildStep(g, s, player, i, k);
    var v' := if Less(v, w) then w else v;
    if LessEq(beta, v') {
      MaxNodeChildrenBound(g, s, |g.actions(s)|, player);
      LessFacts(v', c, MaxNodeValue(g, s, player));
      LessFacts(alpha, beta, v');
    }
  }

  /** The invariant of min_value's loop, the mirror image of MaxLoop. */
  ghost predicate MinLoop(g: Game, s: State, player: Player, alpha: Score, beta: Score, i: nat, v: Score, k: nat)
    requires Valid(g) && !g.isTerminal(s) && i <= |g.actions(s)|
  {
    && Less(alpha, v)
    && (i == 0 ==> v == PosInf)
    && (i > 0 ==> v.Fin?)
    && (LessEq(beta, v) ==> LessEq(v, MinNodeChildren(g, s, i, player)))
    && (Less(v, beta) ==> MinNodeChildren(g, s, i, player) == v && FirstMinChild(g, s, player, i, k))
  }

  /** One iteration of min_value's loop, the mirror image of MaxLoopStep. */
  lemma MinLoopStep(g: Game, s: State, player: Player, alpha: Score, beta: Score, i: nat, v: Score, k: nat, w: Score)
    requires Valid(g) && !g.isTerminal(s) && i < |g.actions(s)| && Less(alpha, beta)
    requires MinLoop(g, s, player, alpha, beta, i, v, k)
    requires w.Fin? && FailSoft(w, MinChild(g, s, i, player), alpha, Min(beta, v))
    ensures Less(w, v) ==> Min(Min(beta, v), w) == Min(beta, w)
    ensures var v' := if Less(w, v) then w else v;
      var k' := if Less(w, v) then i else k;
      if LessEq(v', alpha) then FailSoft(v', MinNodeValue(g, s, player), alpha, beta)
      else MinLoop(g, s, player, alpha, beta, i + 1, v', k')
  {
    var m := MinNodeChildren(g, s, i, player);
    var c := MinChild(g, s, i, player);
    MinStep(alpha, beta, v, m, w, c);
    FirstMinChildStep(g, s, player, i, k);
    var v' := if Less(w, v) then w else v;
    if LessEq(v', alpha) {
      MinNodeChildrenBound(g, s, |g.actions(s)|, player);
      LessFacts(MinNodeValue(g, s, player), c, v');
      LessFacts(alpha, beta, v');
    }
  }

  /** max_value: the children in action order, each searched by min_value in
      the window (alpha, beta) as narrowed so far; the first strictly larger
      result is kept, alpha is raised to it, and the loop returns as soon as
      the result reaches beta. */
  method MaxValue(g: Game, s: State, player: Player, alpha: Score, beta: Score) returns (v: Score, best: Option<Action>)
    requires Valid(g) && Less(alpha, beta)
    ensures g.isTerminal(s) ==> v == Fin(g.utility(s, player)) && best == None
    ensures !g.isTerminal(s) ==> best.Some? && best.value in g.actions(s)
    ensures v.Fin?
    ensures FailSoft(v, MaxNodeValue(g, s, player), alpha, beta)
    ensures !g.isTerminal(s) && Less(alpha, v) && Less(v, beta) ==>
      exists k: nat :: k < |g.actions(s)| && FirstMaxChild(g, s, player, |g.actions(s)|, k) && best == Some(g.actions(s)[k])
    decreases |g.actions(s)|
  {
    if g.isTerminal(s) {
      return Fin(g.utility(s, player)), None;
    }
    var acts := g.actions(s);
    v, best := NegInf, None;
    var a := alpha;
    var i := 0;
    ghost var k: nat := 0;
    while i < |acts|
      invariant 0 <= i <= |acts| && a == Max(alpha, v)
      invariant MaxLoop(g, s, player, alpha, beta, i, v, k)
      invariant i > 0 ==> best.Some? && best.value in acts
      invariant Less(alpha, v) ==> k < i && best == Some(acts[k])
    {
      assert acts[i] in acts;
      var w, _ := MinValue(g, g.result(s, acts[i]), player, a, beta);
      MaxLoopStep(g, s, player, alpha, beta, i, v, k, w);
      if Less(v, w) {
        v, best := w, Some(acts[i]);
        k := i;
        a := Max(a, v);
      }
      if LessEq(beta, v) {
        return v, best;
      }
      i := i + 1;
    }
  }

  /** min_value: the mirror image, keeping the first strictly smaller result,
      lowering beta to it and returning as soon as it reaches alpha. */
  method MinValue(g: Game, s: State, player: Player, alpha: Score, beta: Score) returns (v: Score, best: Option<Action>)
    requires Valid(g) && Less(alpha, beta)
    ensures g.isTerminal(s) ==> v == Fin(g.utility(s, player)) && best == None
    ensures !g.isTerminal(s) ==> best.Some? && best.value in g.actions(s)
    ensures v.Fin?
    ensures FailSoft(v, MinNodeValue(g, s, player), alpha, beta)
    ensures !g.isTerminal(s) && Less(alpha, v) && Less(v, beta) ==>
      exists k: nat :: k < |g.actions(s)| && FirstMinChild(g, s, player, |g.actions(s)|, k) && best == Some(g.actions(s)[k])
    decreases |g.actions(s)|
  {
    if g.isTerminal(s) {
      return Fin(g.utility(s, player)), None;
    }
    var acts := g.actions(s);
    v, best := PosInf, None;
    var b := beta;
    var i := 0;
    ghost var k: nat := 0;
    while i < |acts|
      invariant 0 <= i <= |acts| && b == Min(beta, v)
      invariant MinLoop(g, s, player, alpha, beta, i, v, k)
      invariant i > 0 ==> best.Some? && best.value in acts
      invariant Less(v, beta) ==> k < i && best == Some(acts[k])
    {
      assert acts[i] in acts;
      var w, _ := MaxValue(g, g.result(s, acts[i]), player, alpha, b);
      MinLoopStep(g, s, player, alpha, beta, i, v, k, w);
      if Less(w, v) {
        v, best := w, Some(acts[i]);
        k := i;
        b := Min(b, v);
      }
      if LessEq(v, alpha) {
        return v, best;
      }
      i := i + 1;
    }
  }

  /** alfa_beta_search: max_value for the player to move with the full window.
      The move is None exactly on a finished game; otherwise it is the first
      legal action whose minimax value is the best. */
  method AlfaBetaSearch(g: Game, s: State) returns (move: Option<Action>)
    requires Valid(g)
    ensures move == None <==> g.isTerminal(s)
    ensures !g.isTerminal(s) ==>
      exists k: nat :: k < |g.actions(s)| && FirstMaxChild(g, s, g.toMove(s), |g.actions(s)|, k) && move == Some(g.actions(s)[k])
  {
    var v;
    v, move := MaxValue(g, s, g.toMove(s), NegInf, PosInf);
    FullWindowIsExact(v, MaxNodeValue(g, s, g.toMove(s)));
  }

  /** The first best move's child has the state's own minimax value, which no
      other child exceeds. */
  lemma FirstMaxChildIsOptimal(g: Game, s: State, player: Player, k: nat)
    requires Valid(g) && !g.isTerminal(s) && k < |g.actions(s)|
    requires FirstMaxChild(g, s, player, |g.actions(s)|, k)
    ensures MaxChild(g, s, k, player) == MaxNodeValue(g, s, player)
    ensures forall j :: 0 <= j < |g.actions(s)| ==> LessEq(MaxChild(g, s, j, player), MaxNodeValue(g, s, player))
  {
    MaxNodeChildrenBound(g, s, |g.actions(s)|, player);
  }

  /** The computer's move in the game loop: on a game that is not over it is
      an empty cell, and the minimax value of the state after it is the
      minimax value of the state for the player to move. */
  method ComputerMove(g: Game, s: State) returns (move: Option<Action>)
    requires IsTicTacToe(g) && Valid(g)
    ensures move == None <==> IsTerminal(s)
    ensures !IsTerminal(s) ==> move.Some? && IsEmptyCell(s.board, move.value)
    ensures !IsTerminal(s) ==>
      MinNodeValue(g, Result(s, move.value), ToMove(s)) == MaxNodeValue(g, s, ToMove(s))
  {
    move := AlfaBetaSearch(g, s);
    if !IsTerminal(s) {
      var k: nat :| k < |g.actions(s)| && FirstMaxChild(g, s, g.toMove(s), |g.actions(s)|, k) && move == Some(g.actions(s)[k]);
      FirstMaxChildIsOptimal(g, s, ToMove(s), k);
      EmptyCellsSpec(s.board);
    }
  }

  /** Every tic-tac-toe position is worth a win (1), a draw (0) or a loss (-1)
      to either player, whichever side maximises. */
  lemma ValueIsWinDrawOrLoss(g: Game, s: State, player: Player)
    requires IsTicTacToe(g) && Valid(g)
    ensures MaxNodeValue(g, s, player) in {Fin(-1), Fin(0), Fin(1)}
    ensures MinNodeValue(g, s, player) in {Fin(-1), Fin(0), Fin(1)}
  {
    TicTacToeIsValid(g);
    NodeValueRange(g, s, player);
  }
}
