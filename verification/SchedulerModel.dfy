/**
 The discrete-event replay of the employees' phase lists on a virtual clock: an event heap,
 a cap on simultaneous dispatches, a first-in-first-out queue of parked employees, and the
 re-queueing of every parked employee each time a slot becomes free.

 Employees are named by their position in the workflow list.
 */
module SchedulerModel {
  import opened Wrappers

  datatype Phase =
    | Dispatch(duration: real)
    | WaitTranscribe(duration: real)
    | WaitInterval(duration: real)

  type Workflows = seq<seq<Phase>>

  datatype Action = NextPhase | EndDispatch | EndWait

  datatype Event = Event(t: real, seqNo: nat, emp: nat, action: Action)

  /** The variables of the replay loop. `seqNo` makes the events of the heap distinct. */
  datatype State = State(
    heap: set<Event>,
    seqCounter: nat,
    parked: seq<nat>,
    active: int,
    peak: int,
    lastT: real,
    phaseIdx: seq<nat>,
    startTime: seq<Option<real>>,
    completion: seq<Option<real>>,
    firstDone: seq<Option<real>>)

  // --- The heap order --------------------------------------------------------

  /** The tuple order of the heap: time first, then the order in which events were pushed. */
  predicate Before(a: Event, b: Event) {
    a.t < b.t || (a.t == b.t && a.seqNo < b.seqNo)
  }

  predicate IsMin(heap: set<Event>, ev: Event) {
    ev in heap && forall f | f in heap :: f == ev || Before(ev, f)
  }

  predicate DistinctSeqNos(heap: set<Event>) {
    forall a, b | a in heap && b in heap && a.seqNo == b.seqNo :: a == b
  }

  lemma {:induction false} MinExists(heap: set<Event>)
    requires heap != {} && DistinctSeqNos(heap)
    ensures exists ev :: IsMin(heap, ev)
    decreases heap
  {
    var x :| x in heap;
    var rest := heap - {x};
    if rest == {} {
      assert heap == {x};
      assert IsMin(heap, x);
    } else {
      MinExists(rest);
      var y :| IsMin(rest, y);
      assert heap == rest + {x};
      assert IsMin(heap, if Before(x, y) then x else y);
    }
  }

  // --- One iteration of the loop ---------------------------------------------

  ghost predicate WellFormed(wf: Workflows, s: State) {
    && |s.phaseIdx| == |s.startTime| == |s.completion| == |s.firstDone| == |wf|
    && (forall ev | ev in s.heap :: ev.emp < |wf|)
    && (forall i | 0 <= i < |s.parked| :: s.parked[i] < |wf|)
  }

  ghost predicate Sized(wf: Workflows, s: State) {
    |s.phaseIdx| == |wf| && forall e | 0 <= e < |wf| :: s.phaseIdx[e] <= |wf[e]|
  }

  function Push(s: State, t: real, emp: nat, action: Action): State {
    s.(seqCounter := s.seqCounter + 1, heap := s.heap + {Event(t, s.seqCounter + 1, emp, action)})
  }

  /** The `next_phase` events that wake the given employees at time `t`, in queue order. */
  ghost function WakeEvents(parked: seq<nat>, seqCounter: nat, t: real): set<Event> {
    set i | 0 <= i < |parked| :: Event(t, seqCounter + 1 + i, parked[i], NextPhase)
  }

  ghost function WakeAll(s: State, t: real): State {
    s.(heap := s.heap + WakeEvents(s.parked, s.seqCounter, t),
       seqCounter := s.seqCounter + |s.parked|,
       parked := [])
  }

  function MaxReal(a: real, b: real): real { if a < b then b else a }

  function FirstTime(first: Option<real>, t: real): Option<real> {
    if first.None? then Some(t) else first
  }

  /** Starting the employee's current phase, or recording its completion. */
  ghost function ApplyNextPhase(wf: Workflows, m: int, s: State, ev: Event): State
    requires WellFormed(wf, s) && ev.emp < |wf|
  {
    var e := ev.emp;
    var idx := s.phaseIdx[e];
    if idx >= |wf[e]| then
      s.(completion := s.completion[e := Some(ev.t)])
    else if wf[e][idx].Dispatch? then
      if s.active < m then
        Push(s.(active := s.active + 1,
                peak := Max(s.peak, s.active + 1),
                startTime := s.startTime[e := FirstTime(s.startTime[e], ev.t)]),
             ev.t + wf[e][idx].duration, e, EndDispatch)
      else
        s.(parked := s.parked + [e])
    else
      Push(s, ev.t + wf[e][idx].duration, e, EndWait)
  }

  /** Releasing the slot, waking the parked employees, and moving to the next phase. */
  ghost function ApplyEndDispatch(wf: Workflows, m: int, s: State, ev: Event): State
    requires WellFormed(wf, s) && ev.emp < |wf|
  {
    var e := ev.emp;
    var s1 := s.(active := s.active - 1,
                 firstDone := s.firstDone[e := FirstTime(s.firstDone[e], ev.t)],
                 phaseIdx := s.phaseIdx[e := s.phaseIdx[e] + 1]);
    var s2 := if s1.active < m then WakeAll(s1, ev.t) else s1;
    Push(s2, ev.t, e, NextPhase)
  }

  ghost function ApplyEndWait(wf: Workflows, s: State, ev: Event): State
    requires WellFormed(wf, s) && ev.emp < |wf|
  {
    Push(s.(phaseIdx := s.phaseIdx[ev.emp := s.phaseIdx[ev.emp] + 1]), ev.t, ev.emp, NextPhase)
  }

  ghost function Apply(wf: Workflows, m: int, s: State, ev: Event): State
    requires WellFormed(wf, s) && ev in s.heap
  {
    var s0 := s.(heap := s.heap - {ev});
    match ev.action
    case NextPhase => ApplyNextPhase(wf, m, s0, ev)
    case EndDispatch => ApplyEndDispatch(wf, m, s0, ev)
    case EndWait => ApplyEndWait(wf, s0, ev)
  }

  /** The clock moves to the popped event before the event takes effect. */
  ghost function Advance(s: State, ev: Event): State {
    s.(lastT := MaxReal(s.lastT, ev.t))
  }

  ghost function Step(wf: Workflows, m: int, s: State, ev: Event): State
    requires WellFormed(wf, s) && IsMin(s.heap, ev)
  {
    Apply(wf, m, Advance(s, ev), ev)
  }

  /** Every employee is ready to start its first phase at time zero. */
  ghost function Init(wf: Workflows): State {
    State(WakeEvents(seq(|wf|, i => i), 0, 0.0), |wf|, [], 0, 0, 0.0,
          seq(|wf|, _ => 0), seq(|wf|, _ => None), seq(|wf|, _ => None), seq(|wf|, _ => None))
  }

  ghost predicate IsStep(wf: Workflows, m: int, s: State, ev: Event, s': State) {
    WellFormed(wf, s) && IsMin(s.heap, ev) && s' == Step(wf, m, s, ev)
  }

  /** A run of the loop: each state follows from the one before by popping the least event. */
  ghost predicate IsRun(wf: Workflows, m: int, run: seq<State>, popped: seq<Event>) {
    && |run| == |popped| + 1
    && run[0] == Init(wf)
    && forall i {:trigger popped[i]} | 0 <= i < |popped| :: IsStep(wf, m, run[i], popped[i], run[i + 1])
  }

  predicate HasDispatch(ps: seq<Phase>) {
    exists k | 0 <= k < |ps| :: ps[k].Dispatch?
  }

  /** The index of the first dispatch phase, or the length when there is none. */
  function FirstDispatch(ps: seq<Phase>): (k: nat)
    ensures k <= |ps| && (k < |ps| ==> ps[k].Dispatch?)
    ensures forall i | 0 <= i < k :: !ps[i].Dispatch?
  {
    if ps == [] then 0 else if ps[0].Dispatch? then 0 else 1 + FirstDispatch(ps[1..])
  }

  lemma WakeOneMore(q: seq<nat>, i: nat, c: nat, t: real)
    requires i < |q|
    ensures WakeEvents(q[..i + 1], c, t) == WakeEvents(q[..i], c, t) + {Event(t, c + 1 + i, q[i], NextPhase)}
  {
    var more := WakeEvents(q[..i + 1], c, t);
    assert Event(t, c + 1 + i, q[..i + 1][i], NextPhase) in more;
    forall ev | ev in WakeEvents(q[..i], c, t) ensures ev in more {
      var j :| 0 <= j < i && ev == Event(t, c + 1 + j, q[..i][j], NextPhase);
      assert q[..i + 1][j] == q[..i][j];
    }
  }
}
