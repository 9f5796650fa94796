/** Repeating a step until a goal is reached. */
module Iteration {

  /** The state after at most n steps; step k is given its number, and no step follows the goal. */
  ghost function Iterate<S(!new)>(next: (S, nat) -> S, goal: S -> bool, s: S, n: nat): S {
    if n == 0 || goal(s) then s else Iterate(next, goal, next(s, n), n - 1)
  }

  lemma {:induction false} IterateKeeps<S(!new)>(next: (S, nat) -> S, goal: S -> bool, inv: S -> bool, s: S, n: nat)
    requires inv(s) && forall t, k :: inv(t) ==> inv(next(t, k))
    ensures inv(Iterate(next, goal, s, n))
  {
    if n > 0 && !goal(s) {
      IterateKeeps(next, goal, inv, next(s, n), n - 1);
    }
  }

  /** A measure that every step lowers bounds the steps to the goal. */
  lemma {:induction false} IterateReaches<S(!new)>(next: (S, nat) -> S, goal: S -> bool, inv: S -> bool,
                                                   measure: S -> int,
                                                   s: S, n: nat)
    requires inv(s) && n >= measure(s)
    requires forall t :: inv(t) ==> measure(t) >= 0
    requires forall t, k :: inv(t) && !goal(t) ==> inv(next(t, k)) && measure(next(t, k)) < measure(t)
    ensures inv(Iterate(next, goal, s, n)) && goal(Iterate(next, goal, s, n))
  {
    if !goal(s) {
      assert measure(next(s, n)) < measure(s);
      IterateReaches(next, goal, inv, measure, next(s, n), n - 1);
    }
  }
}
