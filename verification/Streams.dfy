/** A state machine run for a number of steps, and what it emits on the way. */
module Streams {
  function Run<S>(next: S -> S, s: S, n: nat): S {
    if n == 0 then s else next(Run(next, s, n - 1))
  }

  /** One emission after each of n steps. */
  function Emitted<S, B>(next: S -> S, show: S -> B, s: S, n: nat): (r: seq<B>)
    ensures |r| == n
  {
    if n == 0 then [] else Emitted(next, show, s, n - 1) + [show(Run(next, s, n))]
  }

  lemma {:induction false} RunContinues<S>(next: S -> S, s: S, m: nat, n: nat)
    ensures Run(next, s, m + n) == Run(next, Run(next, s, m), n)
  {
    if n > 0 {
      RunContinues(next, s, m, n - 1);
      assert m + n - 1 == m + (n - 1);
    }
  }

  /** Stopping after m steps and going on for n emits what m + n steps at a stretch emit. */
  lemma {:induction false} EmittedContinues<S, B>(next: S -> S, show: S -> B, s: S, m: nat, n: nat)
    ensures Emitted(next, show, s, m + n)
         == Emitted(next, show, s, m) + Emitted(next, show, Run(next, s, m), n)
  {
    if n > 0 {
      EmittedContinues(next, show, s, m, n - 1);
      RunContinues(next, s, m, n);
      assert m + n - 1 == m + (n - 1);
    }
  }
}
