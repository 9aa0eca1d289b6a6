/** Induction along runs of transition systems: lists of states with an action between each two. */
module Runs {
  /** What holds at one point of a run and is kept by each step holds from there on. */
  lemma {:induction false} Invariant<S(!new), A(!new)>(
      next: (S, A, S) -> bool, inv: S -> bool, states: seq<S>, actions: seq<A>, m: nat, n: nat)
    requires |states| == |actions| + 1 && m <= n <= |actions| && inv(states[m])
    requires forall i {:trigger actions[i]} | 0 <= i < |actions| :: next(states[i], actions[i], states[i + 1])
    requires forall s, a, s' | next(s, a, s') && inv(s) :: inv(s')
    ensures inv(states[n])
    decreases n
  {
    if n == m {
    } else {
      Invariant(next, inv, states, actions, m, n - 1);
      assert next(states[n - 1], actions[n - 1], states[n]);
    }
  }

  /** The same for a property that speaks of the position. */
  lemma {:induction false} Induction(p: nat -> bool, m: nat, n: nat)
    requires m <= n && p(m) && forall k: nat | m <= k < n && p(k) :: p(k + 1)
    ensures p(n)
    decreases n
  {
    if n == m {
    } else {
      Induction(p, m, n - 1);
      assert p(n - 1 + 1);
    }
  }

  /** One more step makes a longer run. */
  lemma Append<S, A>(next: (S, A, S) -> bool, states: seq<S>, actions: seq<A>, a: A, s: S)
    requires |states| == |actions| + 1 && next(states[|actions|], a, s)
    requires forall i {:trigger actions[i]} | 0 <= i < |actions| :: next(states[i], actions[i], states[i + 1])
    ensures var states', actions' := states + [s], actions + [a];
      forall i {:trigger actions'[i]} | 0 <= i < |actions'| :: next(states'[i], actions'[i], states'[i + 1])
  {
  }
}
