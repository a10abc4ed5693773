/** The `do { ... } while (...)` loop the solvers repeat their passes in,
    over any state and any step. Keeping the step abstract here means the
    facts about the loop are proved once, and each solver only proves its
    own step. */
module Loops {
  import opened Options

  /** The state after t rounds of the step. */
  function Iterate<T>(step: T -> T, x: T, t: nat): T
    decreases t
  {
    if t == 0 then x else Iterate(step, step(x), t - 1)
  }

  /** `do { x = step(x); } while (!stop(x));`, for at most `fuel` rounds:
      None when the loop is still running after them. What it hands back
      passes the stop test; None means no state of rounds 1..fuel did. */
  function DoWhile<T>(step: T -> T, stop: T -> bool, x: T, fuel: nat): (r: Option<T>)
    ensures r.Some? ==> stop(r.value)
    ensures r.None? ==> forall t :: 1 <= t <= fuel ==> !stop(Iterate(step, x, t))
    decreases fuel
  {
    if fuel == 0 then None
    else if stop(step(x)) then Some(step(x))
    else
      var r := DoWhile(step, stop, step(x), fuel - 1);
      assert r.None? ==> forall t :: 1 <= t <= fuel ==> !stop(Iterate(step, x, t)) by {
        if r.None? {
          forall t | 1 <= t <= fuel
            ensures !stop(Iterate(step, x, t))
          {
            assert Iterate(step, x, t) == Iterate(step, step(x), t - 1);
            if t == 1 {
              assert Iterate(step, step(x), 0) == step(x);
            }
          }
        }
      }
      r
  }

  /** `do { x = step(x); n++; } while (!stop(x) && n < bound);`: at least
      one round, at most `bound` (when bound >= 1), and it always ends. A
      result that fails the stop test is the state after the whole budget.
      This is the brute-force loop with `maxIterations` read as its budget,
      the form that loop evidently intends. */
  function DoWhileBounded<T>(step: T -> T, stop: T -> bool, x: T, bound: int): (r: T)
    ensures !stop(r) ==> r == Iterate(step, x, if bound < 1 then 1 else bound)
    decreases bound
  {
    if stop(step(x)) || bound <= 1 then
      assert Iterate(step, x, 1) == Iterate(step, step(x), 0);
      step(x)
    else
      var r := DoWhileBounded(step, stop, step(x), bound - 1);
      assert Iterate(step, x, bound) == Iterate(step, step(x), bound - 1);
      r
  }

  /** What the loop hands back satisfies the stop test and every invariant
      of the step that the start satisfies. */
  lemma {:induction false} DoWhileKeeps<T>(step: T -> T, stop: T -> bool, inv: T -> bool, x: T, fuel: nat)
    requires inv(x)
    requires forall y :: inv(y) ==> inv(step(y))
    ensures DoWhile(step, stop, x, fuel).Some? ==>
              stop(DoWhile(step, stop, x, fuel).value) && inv(DoWhile(step, stop, x, fuel).value)
    decreases fuel
  {
    if fuel > 0 && !stop(step(x)) {
      DoWhileKeeps(step, stop, inv, step(x), fuel - 1);
    }
  }

  /** The bounded loop keeps every invariant of the step too. */
  lemma {:induction false} DoWhileBoundedKeeps<T>(step: T -> T, stop: T -> bool, inv: T -> bool, x: T, bound: int)
    requires inv(x)
    requires forall y :: inv(y) ==> inv(step(y))
    ensures inv(DoWhileBounded(step, stop, x, bound))
    decreases bound
  {
    if !(stop(step(x)) || bound <= 1) {
      DoWhileBoundedKeeps(step, stop, inv, step(x), bound - 1);
    }
  }

  /** A state the step leaves as it is and the stop test rejects is never
      left: the loop runs forever. */
  lemma {:induction false} DoWhileStuck<T>(step: T -> T, stop: T -> bool, x: T, fuel: nat)
    requires step(x) == x && !stop(x)
    ensures DoWhile(step, stop, x, fuel) == None
    decreases fuel
  {
    if fuel > 0 {
      DoWhileStuck(step, stop, x, fuel - 1);
    }
  }

  /** The bounded loop ends on such a state after its budget, with the
      state unchanged. */
  lemma {:induction false} DoWhileBoundedStuck<T>(step: T -> T, stop: T -> bool, x: T, bound: int)
    requires step(x) == x && !stop(x)
    ensures DoWhileBounded(step, stop, x, bound) == x
    decreases bound
  {
    if bound > 1 {
      DoWhileBoundedStuck(step, stop, x, bound - 1);
    }
  }

  /** When the unbounded loop stops within the budget, the bounded loop
      stops at the same state. */
  lemma {:induction false} DoWhileBoundedAgrees<T>(step: T -> T, stop: T -> bool, x: T, bound: int, fuel: nat)
    requires fuel <= bound && DoWhile(step, stop, x, fuel).Some?
    ensures DoWhileBounded(step, stop, x, bound) == DoWhile(step, stop, x, fuel).value
    decreases fuel
  {
    if !stop(step(x)) {
      DoWhileBoundedAgrees(step, stop, step(x), bound - 1, fuel - 1);
    }
  }

  /** `do { if (exit(x)) return x; x = step(x); } while (!stop(x));` for at
      most `fuel` rounds: None when the loop is still running after them.
      What it hands back passes the exit or the stop test; None means the
      exit test failed on the states of rounds 0..fuel-1 and the stop test
      on those of rounds 1..fuel. */
  function DoWhileExit<T>(step: T -> T, stop: T -> bool, exit: T -> bool, x: T, fuel: nat): (r: Option<T>)
    ensures r.Some? ==> exit(r.value) || stop(r.value)
    ensures r.None? ==> forall t :: 0 <= t < fuel ==> !exit(Iterate(step, x, t))
    ensures r.None? ==> forall t :: 1 <= t <= fuel ==> !stop(Iterate(step, x, t))
    decreases fuel
  {
    if fuel == 0 then None
    else if exit(x) then Some(x)
    else if stop(step(x)) then Some(step(x))
    else
      var r := DoWhileExit(step, stop, exit, step(x), fuel - 1);
      assert r.None? ==> forall t :: 0 <= t < fuel ==> !exit(Iterate(step, x, t)) by {
        if r.None? {
          forall t | 0 <= t < fuel
            ensures !exit(Iterate(step, x, t))
          {
            if t > 0 {
              assert Iterate(step, x, t) == Iterate(step, step(x), t - 1);
            }
          }
        }
      }
      assert r.None? ==> forall t :: 1 <= t <= fuel ==> !stop(Iterate(step, x, t)) by {
        if r.None? {
          forall t | 1 <= t <= fuel
            ensures !stop(Iterate(step, x, t))
          {
            assert Iterate(step, x, t) == Iterate(step, step(x), t - 1);
            if t == 1 {
              assert Iterate(step, step(x), 0) == step(x);
            }
          }
        }
      }
      r
  }

  /** What that loop hands back passes the exit or the stop test and keeps
      every invariant of the step; a start that passes the exit test comes
      back as it is. */
  lemma {:induction false} DoWhileExitKeeps<T>(step: T -> T, stop: T -> bool, exit: T -> bool, inv: T -> bool, x: T, fuel: nat)
    requires inv(x)
    requires forall y :: inv(y) ==> inv(step(y))
    ensures var r := DoWhileExit(step, stop, exit, x, fuel);
            r.Some? ==> (exit(r.value) || stop(r.value)) && inv(r.value)
    ensures fuel > 0 && exit(x) ==> DoWhileExit(step, stop, exit, x, fuel) == Some(x)
    decreases fuel
  {
    if fuel > 0 && !exit(x) && !stop(step(x)) {
      DoWhileExitKeeps(step, stop, exit, inv, step(x), fuel - 1);
    }
  }

  /** A state the step leaves as it is and both tests reject is never left. */
  lemma {:induction false} DoWhileExitStuck<T>(step: T -> T, stop: T -> bool, exit: T -> bool, x: T, fuel: nat)
    requires step(x) == x && !stop(x) && !exit(x)
    ensures DoWhileExit(step, stop, exit, x, fuel) == None
    decreases fuel
  {
    if fuel > 0 {
      DoWhileExitStuck(step, stop, exit, x, fuel - 1);
    }
  }
}
