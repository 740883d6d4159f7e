/** Values shared by the three games: player indices, an optional result and
    search scores, which are integers or one of the two infinite sentinels the
    search starts from. */
module GameBasics {

  /** A player index; the games number their two players 0 and 1. */
  type Player = p: int | 0 <= p < 2

  /** The other player, computed as every game computes the next mover: (p + 1) % 2. */
  function Other(p: Player): (q: Player)
    ensures q != p && p + q == 1
  {
    (p + 1) % 2
  }

  datatype Option<T> = None | Some(value: T)

  /** A search value: a finite utility, or float("-inf") / float("inf"). */
  datatype Score = NegInf | Fin(n: int) | PosInf

  /** The strict order of the extended integers, -inf < every integer < +inf. */
  predicate Less(a: Score, b: Score) {
    match a
    case NegInf => !b.NegInf?
    case Fin(x) => (b.Fin? && x < b.n) || b.PosInf?
    case PosInf => false
  }

  predicate LessEq(a: Score, b: Score) {
    a == b || Less(a, b)
  }

  /** Python's max(a, b): a unless b is strictly larger. */
  function Max(a: Score, b: Score): (m: Score)
    ensures LessEq(a, m) && LessEq(b, m)
    ensures m == a || m == b
  {
    if Less(a, b) then b else a
  }

  /** Python's min(a, b): a unless b is strictly smaller. */
  function Min(a: Score, b: Score): (m: Score)
    ensures LessEq(m, a) && LessEq(m, b)
    ensures m == a || m == b
  {
    if Less(b, a) then b else a
  }

  /** The order is total and transitive; the search proofs lean on both facts. */
  lemma LessFacts(a: Score, b: Score, c: Score)
    ensures Less(a, b) || a == b || Less(b, a)
    ensures !(Less(a, b) && Less(b, a))
    ensures LessEq(a, b) && LessEq(b, c) ==> LessEq(a, c)
    ensures Less(a, b) && LessEq(b, c) ==> Less(a, c)
    ensures LessEq(a, b) && Less(b, c) ==> Less(a, c)
  {
  }
}
