/** Nested disabling of a port: every thread that disabled it must enable it again before
    its soft-reset bit clears. */
module PortReset {

  /** disable_count and the soft-reset bit of the port control register. */
  datatype Port = Port(disableCount: nat, softReset: bool)

  function Disable(p: Port): Port {
    if p.disableCount != 0 then p.(disableCount := p.disableCount + 1) else Port(1, true)
  }

  function Enable(p: Port): Port
    requires p.disableCount > 0
  {
    if p.disableCount != 1 then p.(disableCount := p.disableCount - 1) else Port(0, false)
  }

  /** A port and the threads between a disable and its enable; one thread may nest. */
  datatype State = State(port: Port, holders: multiset<nat>)

  datatype Step = Hold(t: nat) | Drop(t: nat) | Pulse(t: nat)

  predicate Can(s: State, step: Step) {
    match step
    case Hold(_) => true
    case Drop(t) => t in s.holders && s.port.disableCount > 0
    case Pulse(_) => true
  }

  function Do(s: State, step: Step): State
    requires Can(s, step)
  {
    match step
    case Hold(t) => State(Disable(s.port), s.holders + multiset{t})
    case Drop(t) => State(Enable(s.port), s.holders - multiset{t})
    // A reset disables and enables under one lock.
    case Pulse(_) => s.(port := Enable(Disable(s.port)))
  }

  ghost predicate Reaches(s: State, steps: seq<Step>, t: State)
    decreases |steps|
  {
    if steps == [] then s == t else Can(s, steps[0]) && Reaches(Do(s, steps[0]), steps[1..], t)
  }

  ghost predicate Inv(s: State) {
    s.port.disableCount == |s.holders| && (s.holders != multiset{} ==> s.port.softReset)
  }

  lemma {:induction false} StepKeeps(s: State, step: Step)
    requires Inv(s) && Can(s, step)
    ensures Inv(Do(s, step))
    ensures Do(s, step).port.softReset <==> Do(s, step).port.disableCount > 0
  {
    assert |s.holders| > 0 <==> s.holders != multiset{};
    if step.Drop? {
      var rest := s.holders - multiset{step.t};
      assert s.holders == rest + multiset{step.t};
      assert |rest| == |s.holders| - 1;
      assert rest != multiset{} <==> |rest| > 0;
    }
  }

  /** Whatever the bit was at power-up: after the first step of any run, the port is in
      reset exactly while some thread holds it, and the count is the number of holders, so
      no enable is ever unmatched. */
  lemma {:induction false} ResetExactlyWhileHeld(s: State, steps: seq<Step>, t: State)
    requires Inv(s) && Reaches(s, steps, t) && steps != []
    ensures t.port.softReset <==> t.port.disableCount > 0
    ensures t.port.disableCount == |t.holders|
    ensures forall h :: h in t.holders ==> Can(t, Drop(h))
    decreases |steps|
  {
    var next := Do(s, steps[0]);
    StepKeeps(s, steps[0]);
    if steps[1..] != [] {
      ResetExactlyWhileHeld(next, steps[1..], t);
    } else {
      assert t == next;
      forall h | h in t.holders ensures Can(t, Drop(h)) {
        assert t.holders != multiset{};
        assert |t.holders| > 0;
      }
    }
  }

  /** A thread that holds the port keeps it in reset until its own enable, whatever
      resets, disables and enables others interleave. */
  lemma {:induction false} HeldUntilDropped(s: State, steps: seq<Step>, t: State, me: nat)
    requires Inv(s) && Reaches(s, steps, t) && me in s.holders
    requires forall i :: 0 <= i < |steps| ==> steps[i] != Drop(me)
    ensures Inv(t) && t.port.softReset && t.holders[me] >= s.holders[me]
    decreases |steps|
  {
    if steps == [] {
      assert s.holders != multiset{};
    } else {
      var next := Do(s, steps[0]);
      StepKeeps(s, steps[0]);
      assert steps[0] != Drop(me);
      assert next.holders[me] >= s.holders[me];
      HeldUntilDropped(next, steps[1..], t, me);
    }
  }
}
