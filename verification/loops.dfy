/** Counted loops over a state: `for (p = first; p <= last; p++) state = step(state, p)`. */
module Loops {
  /** The state after running the loop body for every counter value from
      `first` to `last`, in increasing order. */
  function Iterate<S>(step: (S, nat) -> S, s: S, first: nat, last: nat): S
    decreases last + 1 - first
  {
    if first > last then s else Iterate(step, step(s, first), first + 1, last)
  }

  /** The loop invariant rule: an invariant `inv(state, p)` that holds before
      the first iteration and that every iteration carries from `p` to `p + 1`
      holds once the loop ends, with the counter at `last + 1`. */
  lemma {:induction false} IterateInvariant<S>(step: (S, nat) -> S, inv: (S, nat) -> bool, s: S, first: nat, last: nat)
    requires first <= last + 1
    requires inv(s, first)
    requires forall x: S, p: nat :: first <= p <= last && inv(x, p) ==> inv(step(x, p), p + 1)
    ensures inv(Iterate(step, s, first, last), last + 1)
    decreases last + 1 - first
  {
    if first <= last {
      IterateInvariant(step, inv, step(s, first), first + 1, last);
    }
  }
}
