/** libs/statemachine.py: states numbered in the order they are added,
    each with an ordered list of guarded transitions, run once per main-loop
    pass.  State logic and guards are foreign callables: the model takes the
    guards' results as a parameter, one per attached transition in order,
    and leaves the state logic out. */
module StateMachines {

  /** A state: its transitions' target indices, in attachment order, and
      its own index. */
  datatype State = State(targets: seq<int>, index: int)

  datatype Machine = Machine(states: seq<State>, active: int, executeOnce: bool,
                             jogMode: bool, newIndex: int, forcedIndex: int)

  /** `StateMachine()`: no states and no active state. */
  function Init(): (m: Machine)
    ensures m.states == [] && m.active == -1 && m.executeOnce && !m.jogMode
    ensures Inv(m)
  {
    Machine([], -1, true, false, -1, -1)
  }

  predicate IsState(m: Machine, i: int)
  {
    0 <= i < |m.states|
  }

  /** Between calls: each state knows its own index, every transition
      targets a state of this machine, and once there is a state the active,
      new and forced indices name states. */
  predicate Inv(m: Machine)
  {
    (forall i :: 0 <= i < |m.states| ==> m.states[i].index == i) &&
    (forall i, k :: 0 <= i < |m.states| && 0 <= k < |m.states[i].targets| ==>
       IsState(m, m.states[i].targets[k])) &&
    (if m.states == [] then m.active == -1 && m.newIndex == -1 && m.forcedIndex == -1
     else IsState(m, m.active) && IsState(m, m.newIndex) && IsState(m, m.forcedIndex))
  }

  /** `add_state(logic)`: the new state's index is the number of states
      before it, and the first one added becomes active. */
  function AddState(m: Machine): (r: (Machine, int))
    requires Inv(m)
    ensures Inv(r.0)
    ensures r.1 == |m.states| && r.0.states == m.states + [State([], r.1)]
    ensures m.states == [] ==> r.0.active == 0 && r.0.newIndex == 0 && r.0.forcedIndex == 0
    ensures m.states != [] ==> r.0 == m.(states := r.0.states)
  {
    var s := State([], |m.states|);
    var m1 := m.(states := m.states + [s]);
    if m.active == -1 then (m1.(active := 0, newIndex := 0, forcedIndex := 0), s.index)
    else (m1, s.index)
  }

  /** `attach_transition(guard, to)` on state `from`. */
  function Attach(m: Machine, from: int, to: int): (m': Machine)
    requires Inv(m) && IsState(m, from) && IsState(m, to)
    ensures Inv(m')
    ensures |m'.states| == |m.states| && m' == m.(states := m'.states)
    ensures m'.states[from].targets == m.states[from].targets + [to]
    ensures forall i :: 0 <= i < |m.states| && i != from ==> m'.states[i] == m.states[i]
  {
    var s := m.states[from];
    m.(states := m.states[from := s.(targets := s.targets + [to])])
  }

  /** `force_transition_to(state)`. */
  function Force(m: Machine, to: int): (r: (Machine, int))
    requires Inv(m) && IsState(m, to)
    ensures Inv(r.0) && r.0 == m.(forcedIndex := to) && r.1 == to
  {
    (m.(forcedIndex := to), to)
  }

  /** The index of the first true guard, or the length when none is. */
  function FirstTrue(guards: seq<bool>): (k: nat)
    ensures k <= |guards|
    ensures k < |guards| ==> guards[k]
    ensures forall j :: 0 <= j < k ==> !guards[j]
  {
    if guards == [] then 0
    else if guards[0] then 0
    else 1 + FirstTrue(guards[1..])
  }

  /** The target of the first transition whose guard holds, or the
      state's own index. */
  function Chosen(s: State, guards: seq<bool>): int
    requires |guards| == |s.targets|
  {
    var k := FirstTrue(guards);
    if k < |guards| then s.targets[k] else s.index
  }

  /** `eval_transitions()`: the target of the first transition, in
      attachment order, whose guard holds, otherwise the state's own index.
      The guards after the first true one are not evaluated. */
  method EvalTransitions(s: State, guards: seq<bool>) returns (next: int)
    requires |guards| == |s.targets|
    ensures var k := FirstTrue(guards);
      next == if k < |guards| then s.targets[k] else s.index
  {
    if |s.targets| == 0 {
      return s.index;
    }
    var i := 0;
    while i < |s.targets|
      invariant 0 <= i <= |s.targets|
      invariant forall j :: 0 <= j < i ==> !guards[j]
    {
      if guards[i] {
        FirstTrueAt(guards, i);
        return s.targets[i];
      }
      i := i + 1;
    }
    FirstTrueNone(guards);
    return s.index;
  }

  /** A true guard after only false ones is the first true one. */
  lemma {:induction false} FirstTrueAt(guards: seq<bool>, i: int)
    requires 0 <= i < |guards| && guards[i]
    requires forall j :: 0 <= j < i ==> !guards[j]
    ensures FirstTrue(guards) == i
    decreases i
  {
    if i > 0 {
      FirstTrueAt(guards[1..], i - 1);
    }
  }

  /** With no true guard, the first true one is past the end. */
  lemma {:induction false} FirstTrueNone(guards: seq<bool>)
    requires forall j :: 0 <= j < |guards| ==> !guards[j]
    ensures FirstTrue(guards) == |guards|
    decreases |guards|
  {
    if guards != [] {
      FirstTrueNone(guards[1..]);
    }
  }

  /** `is_new_state()`: a change from an attached transition wins over a
      forced one; afterwards all three indices agree, and the result says
      whether the active state changed. */
  function IsNewState(m: Machine): (r: (Machine, bool))
    ensures r.0.active == r.0.newIndex == r.0.forcedIndex
    ensures r.0.active == (if m.active != m.newIndex then m.newIndex else m.forcedIndex)
    ensures r.1 <==> r.0.active != m.active
    ensures r.0 == m.(active := r.0.active, newIndex := r.0.active, forcedIndex := r.0.active)
  {
    if m.active != m.newIndex then
      (m.(active := m.newIndex, forcedIndex := m.newIndex), true)
    else if m.active != m.forcedIndex then
      (m.(active := m.forcedIndex, newIndex := m.forcedIndex), true)
    else (m, false)
  }

  /** `jog()`: in jog mode, take the pending transition now. */
  function Jog(m: Machine): (m': Machine)
    requires Inv(m)
    ensures Inv(m')
    ensures !m.jogMode ==> m' == m
    ensures m.jogMode ==> m'.executeOnce == (m'.active != m.active) &&
                          m'.active == m'.newIndex == m'.forcedIndex
  {
    if !m.jogMode then m
    else
      var (m1, changed) := IsNewState(m);
      m1.(executeOnce := changed)
  }

  /** `run()`: with no states, -1 and no change.  Otherwise the active
      state's transitions give the new index; outside jog mode the machine
      moves and `execute_once` records whether the active state changed, in
      jog mode the active state stays and `execute_once` is cleared.  The
      result is the active index. */
  method Run(m: Machine, guards: seq<bool>) returns (m': Machine, active: int)
    requires Inv(m)
    requires m.states != [] ==> |guards| == |m.states[m.active].targets|
    ensures Inv(m')
    ensures m.states == [] ==> m' == m && active == -1
    ensures m.states != [] ==> active == m'.active && m'.states == m.states && m'.jogMode == m.jogMode
    ensures m.states != [] && !m.jogMode ==>
      m'.executeOnce == (m'.active != m.active) && m'.active == m'.newIndex == m'.forcedIndex
    ensures m.states != [] && m.jogMode ==> !m'.executeOnce && m'.active == m.active
    ensures m.states != [] ==> var next := Chosen(m.states[m.active], guards);
      (m.jogMode ==> m'.newIndex == next && m'.forcedIndex == m.forcedIndex) &&
      (!m.jogMode ==> m'.active == if next != m.active then next else m.forcedIndex)
  {
    if |m.states| == 0 {
      return m, -1;
    }
    var next := EvalTransitions(m.states[m.active], guards);
    ghost var k := FirstTrue(guards);
    assert k < |guards| ==> IsState(m, m.states[m.active].targets[k]);
    m' := m.(newIndex := next);
    if !m.jogMode {
      var (m1, changed) := IsNewState(m');
      m' := m1.(executeOnce := changed);
    } else {
      m' := m'.(executeOnce := false);
    }
    active := m'.active;
  }
}
