/** Admission to the sign goroutines: the atomic counter around the goroutine of
    SignXRPLPayment in internal/processors/instructions/signutils/processor.go.
    Every atomic addition is a step; callers and goroutines interleave freely. */
module SignSlots {
  const MAX_SIGN_GOROUTINES := 3000

  /** Where a caller is: refused but not yet backed out, or with its goroutine live. */
  datatype State = State(counter: int, backingOut: set<nat>, live: set<nat>)

  const IDLE := State(0, {}, {})

  /** A caller adds one and looks at the sum; a refused caller takes its one back; a
      goroutine takes its one back as it ends. */
  datatype Step = Enter(caller: nat) | BackOut(caller: nat) | Exit(caller: nat)

  predicate Enabled(s: State, step: Step) {
    match step
    case Enter(c) => c !in s.backingOut && c !in s.live
    case BackOut(c) => c in s.backingOut
    case Exit(c) => c in s.live
  }

  function Next(s: State, step: Step): State
    requires Enabled(s, step)
  {
    match step
    case Enter(c) =>
      if s.counter + 1 > MAX_SIGN_GOROUTINES then State(s.counter + 1, s.backingOut + {c}, s.live)
      else State(s.counter + 1, s.backingOut, s.live + {c})
    case BackOut(c) => State(s.counter - 1, s.backingOut - {c}, s.live)
    case Exit(c) => State(s.counter - 1, s.backingOut, s.live - {c})
  }

  ghost predicate Inv(s: State) {
    s.backingOut !! s.live && s.counter == |s.live| + |s.backingOut| && |s.live| <= MAX_SIGN_GOROUTINES
  }

  lemma NextKeepsInv(s: State, step: Step)
    requires Inv(s) && Enabled(s, step)
    ensures Inv(Next(s, step))
  {
  }

  ghost predicate IsRun(states: seq<State>, steps: seq<Step>) {
    && |states| == |steps| + 1 && states[0] == IDLE
    && forall i :: 0 <= i < |steps| ==> Enabled(states[i], steps[i]) && states[i + 1] == Next(states[i], steps[i])
  }

  /** In every interleaving the counter is the number of live goroutines and pending
      back-outs, and there are never more goroutines than the cap. */
  lemma {:induction false} CapHolds(states: seq<State>, steps: seq<Step>, i: nat)
    requires IsRun(states, steps) && i < |states|
    ensures Inv(states[i]) && |states[i].live| <= 3000
    ensures states[i].counter == |states[i].live| + |states[i].backingOut|
  {
    if i > 0 {
      CapHolds(states, steps, i - 1);
      NextKeepsInv(states[i - 1], steps[i - 1]);
    }
  }

  /** A caller is admitted exactly when live goroutines and pending back-outs together
      are below the cap. */
  lemma AdmittedIff(s: State, c: nat)
    requires Inv(s) && Enabled(s, Enter(c))
    ensures c in Next(s, Enter(c)).live <==> |s.live| + |s.backingOut| < 3000
  {
  }

  /** The callers 0..n-1. */
  ghost function Callers(n: nat): (r: set<nat>)
    ensures |r| == n && forall c: nat :: c in r <==> c < n
  {
    if n == 0 then {} else Callers(n - 1) + {n - 1}
  }

  /** A run in which callers 0..n-1 have been admitted. */
  lemma {:induction false} FillUp(n: nat) returns (states: seq<State>, steps: seq<Step>)
    requires n <= MAX_SIGN_GOROUTINES
    ensures IsRun(states, steps) && states[|steps|] == State(n, {}, Callers(n))
  {
    if n == 0 {
      states, steps := [IDLE], [];
    } else {
      states, steps := FillUp(n - 1);
      states, steps := Extend(states, steps, Enter(n - 1));
    }
  }

  lemma Extend(states: seq<State>, steps: seq<Step>, step: Step) returns (states': seq<State>, steps': seq<Step>)
    requires IsRun(states, steps) && Enabled(states[|steps|], step)
    ensures IsRun(states', steps') && |steps'| == |steps| + 1
    ensures states'[|steps'|] == Next(states[|steps|], step)
  {
    states', steps' := states + [Next(states[|steps|], step)], steps + [step];
  }

  /** A refusal does not mean that all slots are taken: a refused caller that has not
      yet backed out keeps the next one out although a slot is free. */
  lemma RefusedWithFreeSlot() returns (states: seq<State>, steps: seq<Step>, c: nat)
    ensures IsRun(states, steps) && Enabled(states[|steps|], Enter(c))
    ensures |states[|steps|].live| < MAX_SIGN_GOROUTINES && c !in Next(states[|steps|], Enter(c)).live
  {
    states, steps := FillUp(MAX_SIGN_GOROUTINES);
    states, steps := Extend(states, steps, Enter(MAX_SIGN_GOROUTINES));
    states, steps := Extend(states, steps, Exit(0));
    c := MAX_SIGN_GOROUTINES + 1;
  }
}
