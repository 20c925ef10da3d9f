/** A loop `while (holds(x)) x = step(x);` cut after a given number of rounds,
    stated once for any step, so that its laws are proved without looking
    inside the step. */
module Iteration {

  /** x after n steps from x0. */
  function Rounds<T>(step: T -> T, x0: T, n: nat): T
    decreases n
  {
    if n == 0 then x0 else step(Rounds(step, x0, n - 1))
  }

  /** Where the loop stopped, and whether it stopped because the condition
      failed (rather than because the bound was used up). */
  datatype Stop<T> = Stop(last: T, done: bool)

  /** The loop from x0, at most fuel rounds. */
  function While<T>(step: T -> T, holds: T -> bool, x0: T, fuel: nat): (e: Stop<T>)
    ensures e.done <==> !holds(e.last)
    decreases fuel
  {
    if !holds(x0) then Stop(x0, true)
    else if fuel == 0 then Stop(x0, false)
    else While(step, holds, step(x0), fuel - 1)
  }

  /** n + 1 rounds are one round, then n. */
  lemma {:induction false} RoundsFirst<T>(step: T -> T, x0: T, n: nat)
    ensures Rounds(step, x0, n + 1) == Rounds(step, step(x0), n)
    decreases n
  {
    if n > 0 {
      RoundsFirst(step, x0, n - 1);
    }
  }

  /** The condition holds before each of the first k rounds from x0. */
  ghost predicate HoldsUpTo<T>(step: T -> T, holds: T -> bool, x0: T, k: nat)
  {
    forall j: nat :: j < k ==> holds(Rounds(step, x0, j))
  }

  /** When the condition held before each of the first k rounds, and either
      fails after them or k is the bound, the loop runs exactly those k
      rounds. */
  lemma {:induction false} WhileRuns<T>(step: T -> T, holds: T -> bool, x0: T, fuel: nat, k: nat)
    requires k <= fuel && HoldsUpTo(step, holds, x0, k)
    requires holds(Rounds(step, x0, k)) ==> k == fuel
    ensures While(step, holds, x0, fuel) == Stop(Rounds(step, x0, k), !holds(Rounds(step, x0, k)))
    decreases k
  {
    if k > 0 {
      assert holds(x0) by {
        assert Rounds(step, x0, 0) == x0;
      }
      forall j: nat | j < k - 1
        ensures holds(Rounds(step, step(x0), j))
      {
        RoundsFirst(step, x0, j);
      }
      RoundsFirst(step, x0, k - 1);
      WhileRuns(step, holds, step(x0), fuel - 1, k - 1);
    }
  }

  /** One more round that the condition let through. */
  lemma HoldsUpToNext<T>(step: T -> T, holds: T -> bool, x0: T, k: nat)
    requires HoldsUpTo(step, holds, x0, k) && holds(Rounds(step, x0, k))
    ensures HoldsUpTo(step, holds, x0, k + 1)
  {
  }

  /** When each step leads from along(j) to along(j + 1) and the condition
      holds all along, the loop uses up any bound on its rounds. */
  lemma {:induction false} WhileAlong<T>(step: T -> T, holds: T -> bool, along: nat -> T, k: nat, fuel: nat)
    requires forall j: nat :: step(along(j)) == along(j + 1) && holds(along(j))
    ensures While(step, holds, along(k), fuel) == Stop(along(k + fuel), false)
    decreases fuel
  {
    if fuel > 0 {
      WhileAlong(step, holds, along, k + 1, fuel - 1);
    }
  }
}
