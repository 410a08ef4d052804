/** Small facts about sequence concatenation, stated once so that the larger proofs can cite
    them instead of asking the solver to rediscover them in a crowded context. */
module Sequences {

  lemma LeftUnit<T>(s: seq<T>)
    ensures [] + s == s
  {
  }

  lemma Associative<T>(a: seq<T>, b: seq<T>, c: seq<T>)
    ensures (a + b) + c == a + (b + c)
  {
  }

  /** Moving the first element of `t` across a join. */
  lemma SplitFirst<T>(done: seq<T>, t: seq<T>)
    requires t != []
    ensures done + [t[0]] + t[1..] == done + t
  {
  }

  /** Moving the last element of `t` across a join. */
  lemma SplitLast<T>(done: seq<T>, t: seq<T>)
    requires t != []
    ensures done + t[..|t| - 1] + [t[|t| - 1]] == done + t
  {
  }

  /** The first element of `t` joins the prefix, the rest stays behind. */
  lemma ShiftFirst<T>(done: seq<T>, t: seq<T>)
    requires |t| >= 2
    ensures done + [t[0]] + t[1..][..|t| - 2] == done + t[..|t| - 1]
  {
  }

  lemma SuffixOfAppend<T>(a: seq<T>, b: seq<T>, k: nat)
    requires k <= |b|
    ensures (a + b)[|a + b| - k..] == b[|b| - k..]
  {
  }
}
