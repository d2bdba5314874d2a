/** What every reachable state of the replay satisfies, and why the loop ends. */
module SchedulerSafety {
  import opened Wrappers
  import opened SchedulerModel

  // --- Safety: what every reachable state satisfies ---------------------------

  ghost predicate HasEvent(s: State, e: nat) {
    exists ev :: ev in s.heap && ev.emp == e
  }

  /** Exactly one of: one event in the heap, a place in the queue, completed. */
  ghost predicate Located(s: State, e: nat)
    requires e < |s.completion|
  {
    && (HasEvent(s, e) ==> e !in s.parked && s.completion[e].None?)
    && (e in s.parked ==> s.completion[e].None?)
    && (HasEvent(s, e) || e in s.parked || s.completion[e].Some?)
  }

  ghost function Dispatching(heap: set<Event>): set<Event> {
    set ev | ev in heap && ev.action == EndDispatch
  }

  predicate InPhase(wf: Workflows, s: State, e: nat)
    requires e < |wf| && |s.phaseIdx| == |wf|
  {
    s.phaseIdx[e] < |wf[e]|
  }

  predicate Distinct(q: seq<nat>) {
    forall i, j | 0 <= i < j < |q| :: q[i] != q[j]
  }

  ghost predicate EventFits(wf: Workflows, s: State, ev: Event)
    requires WellFormed(wf, s) && ev.emp < |wf|
  {
    match ev.action
    case NextPhase => true
    case EndDispatch => InPhase(wf, s, ev.emp) && wf[ev.emp][s.phaseIdx[ev.emp]].Dispatch?
    case EndWait => InPhase(wf, s, ev.emp) && !wf[ev.emp][s.phaseIdx[ev.emp]].Dispatch?
  }

  ghost predicate OneEventEach(s: State) {
    && DistinctSeqNos(s.heap)
    && (forall a, b | a in s.heap && b in s.heap && a.emp == b.emp :: a == b)
    && (forall ev | ev in s.heap :: ev.seqNo <= s.seqCounter)
  }

  ghost predicate PhasesFit(wf: Workflows, s: State)
    requires WellFormed(wf, s)
  {
    && (forall ev | ev in s.heap :: EventFits(wf, s, ev))
    && (forall e | 0 <= e < |wf| :: s.phaseIdx[e] <= |wf[e]|)
    && (forall e | 0 <= e < |wf| && s.completion[e].Some? :: s.phaseIdx[e] == |wf[e]|)
    && (forall e | 0 <= e < |wf| && e in s.parked :: InPhase(wf, s, e) && wf[e][s.phaseIdx[e]].Dispatch?)
  }

  ghost predicate SlotsFit(m: int, s: State) {
    && s.active == |Dispatching(s.heap)|
    && s.active <= s.peak <= Max(m, 0)
    && (s.parked != [] ==> s.active >= m)
  }

  /** Everything in the invariant except the slot count. */
  ghost predicate PlaceInv(wf: Workflows, s: State) {
    && WellFormed(wf, s)
    && OneEventEach(s)
    && Distinct(s.parked)
    && (forall e | 0 <= e < |wf| :: Located(s, e))
    && PhasesFit(wf, s)
  }

  ghost predicate Inv(wf: Workflows, m: int, s: State) {
    && PlaceInv(wf, s)
    && SlotsFit(m, s)
  }

  lemma InitInv(wf: Workflows, m: int)
    ensures Inv(wf, m, Init(wf))
  {
    var s := Init(wf);
    forall e | 0 <= e < |wf| ensures Located(s, e) {
      var all := seq(|wf|, i => i);
      assert Event(0.0, 0 + 1 + e, all[e], NextPhase) in s.heap;
    }
    assert Dispatching(s.heap) == {};
  }

  lemma AdvanceInv(wf: Workflows, m: int, s: State, ev: Event)
    requires Inv(wf, m, s)
    ensures Inv(wf, m, Advance(s, ev))
  {
    var s' := Advance(s, ev);
    forall e | 0 <= e < |wf| ensures Located(s', e) {
      assert Located(s, e);
      assert HasEvent(s', e) == HasEvent(s, e);
    }
    forall f | f in s'.heap ensures EventFits(wf, s', f) { assert EventFits(wf, s, f); }
  }

  lemma ApplyInv(wf: Workflows, m: int, s: State, ev: Event)
    requires Inv(wf, m, s) && ev in s.heap
    ensures Inv(wf, m, Apply(wf, m, s, ev))
  {
    match ev.action
    case NextPhase => NextPhaseInv(wf, m, s, ev);
    case EndDispatch => EndDispatchInv(wf, m, s, ev);
    case EndWait => EndWaitInv(wf, m, s, ev);
  }

  lemma DispatchingPush(heap: set<Event>, ev: Event)
    requires ev !in heap
    ensures |Dispatching(heap + {ev})| == |Dispatching(heap)| + (if ev.action == EndDispatch then 1 else 0)
  {
    assert Dispatching(heap + {ev}) == Dispatching(heap) + (if ev.action == EndDispatch then {ev} else {});
  }

  lemma DispatchingPop(heap: set<Event>, ev: Event)
    requires ev in heap
    ensures |Dispatching(heap - {ev})| == |Dispatching(heap)| - (if ev.action == EndDispatch then 1 else 0)
  {
    DispatchingPush(heap - {ev}, ev);
    assert (heap - {ev}) + {ev} == heap;
  }

  /** Replacing an employee's only event by a new one keeps everyone else where they were. */
  lemma ReplacePlaces(wf: Workflows, s: State, ev: Event, s': State, f: Event)
    requires PlaceInv(wf, s) && ev in s.heap
    requires f.emp == ev.emp && f.seqNo == s.seqCounter + 1 == s'.seqCounter
    requires s'.heap == s.heap - {ev} + {f} && s'.parked == s.parked && s'.completion == s.completion
    requires |s'.phaseIdx| == |s'.startTime| == |s'.firstDone| == |wf|
    requires s.phaseIdx[ev.emp] <= s'.phaseIdx[ev.emp] <= |wf[ev.emp]|
    requires forall j | 0 <= j < |wf| && j != ev.emp :: s'.phaseIdx[j] == s.phaseIdx[j]
    requires EventFits(wf, s', f)
    ensures PlaceInv(wf, s')
  {
    assert Located(s, ev.emp) && HasEvent(s, ev.emp);
    assert f in s'.heap;
    forall g | g in s'.heap ensures EventFits(wf, s', g) {
      if g != f { assert EventFits(wf, s, g); }
    }
    forall j | 0 <= j < |wf| ensures Located(s', j) {
      assert Located(s, j);
      if j != ev.emp && HasEvent(s, j) {
        var g :| g in s.heap && g.emp == j;
        assert g in s'.heap;
      }
    }
  }

  /** Removing an employee's only event, when that employee is parked or completed instead. */
  lemma RemovePlaces(wf: Workflows, s: State, ev: Event, s': State)
    requires PlaceInv(wf, s) && ev in s.heap
    requires s'.heap == s.heap - {ev} && s'.phaseIdx == s.phaseIdx && s'.seqCounter == s.seqCounter
    requires |s'.startTime| == |s'.firstDone| == |s'.completion| == |wf|
    requires
      || (&& s'.parked == s.parked && s.phaseIdx[ev.emp] == |wf[ev.emp]|
          && exists t :: s'.completion == s.completion[ev.emp := Some(t)])
      || (&& s'.parked == s.parked + [ev.emp] && s'.completion == s.completion
          && InPhase(wf, s, ev.emp) && wf[ev.emp][s.phaseIdx[ev.emp]].Dispatch?)
    ensures PlaceInv(wf, s')
  {
    assert Located(s, ev.emp) && HasEvent(s, ev.emp);
    forall g | g in s'.heap ensures EventFits(wf, s', g) { assert EventFits(wf, s, g); }
    forall j | 0 <= j < |wf| ensures Located(s', j) {
      assert Located(s, j);
      if j != ev.emp && HasEvent(s, j) {
        var g :| g in s.heap && g.emp == j;
        assert g in s'.heap;
      }
    }
  }

  lemma NextPhaseInv(wf: Workflows, m: int, s: State, ev: Event)
    requires Inv(wf, m, s) && ev in s.heap && ev.action == NextPhase
    ensures Inv(wf, m, Apply(wf, m, s, ev))
  {
    var s' := Apply(wf, m, s, ev);
    var e := ev.emp;
    var idx := s.phaseIdx[e];
    DispatchingPop(s.heap, ev);
    if idx < |wf[e]| && !(wf[e][idx].Dispatch? && s.active >= m) {
      var f := Event(ev.t + wf[e][idx].duration, s.seqCounter + 1, e,
                     if wf[e][idx].Dispatch? then EndDispatch else EndWait);
      ReplacePlaces(wf, s, ev, s', f);
      DispatchingPush(s.heap - {ev}, f);
    } else {
      RemovePlaces(wf, s, ev, s');
    }
  }

  lemma EndWaitInv(wf: Workflows, m: int, s: State, ev: Event)
    requires Inv(wf, m, s) && ev in s.heap && ev.action == EndWait
    ensures Inv(wf, m, Apply(wf, m, s, ev))
  {
    var s' := Apply(wf, m, s, ev);
    assert EventFits(wf, s, ev);
    DispatchingPop(s.heap, ev);
    var f := Event(ev.t, s.seqCounter + 1, ev.emp, NextPhase);
    ReplacePlaces(wf, s, ev, s', f);
    DispatchingPush(s.heap - {ev}, f);
  }

  lemma DispatchingWake(heap: set<Event>, parked: seq<nat>, c: nat, t: real)
    ensures Dispatching(heap + WakeEvents(parked, c, t)) == Dispatching(heap)
  {
  }

  /** Waking the whole queue moves every parked employee into the heap. */
  lemma WakePlaces(wf: Workflows, s: State, t: real)
    requires PlaceInv(wf, s)
    ensures PlaceInv(wf, WakeAll(s, t))
  {
    var s' := WakeAll(s, t);
    forall g | g in s'.heap ensures EventFits(wf, s', g) {
      if g in s.heap { assert EventFits(wf, s, g); }
    }
    forall ev | ev in s.heap ensures ev.emp !in s.parked { assert Located(s, ev.emp); }
    forall e | 0 <= e < |wf| ensures Located(s', e) {
      assert Located(s, e);
      if HasEvent(s, e) {
        var g :| g in s.heap && g.emp == e;
        assert g in s'.heap;
      }
      if e in s.parked {
        var i :| 0 <= i < |s.parked| && s.parked[i] == e;
        assert Event(t, s.seqCounter + 1 + i, s.parked[i], NextPhase) in s'.heap;
      }
    }
  }

  /** Ending a dispatch: wake the queue, then replace the ending employee's event. */
  lemma EndDispatchInv(wf: Workflows, m: int, s: State, ev: Event)
    requires Inv(wf, m, s) && ev in s.heap && ev.action == EndDispatch
    ensures Inv(wf, m, Apply(wf, m, s, ev))
  {
    var s' := Apply(wf, m, s, ev);
    assert EventFits(wf, s, ev);
    DispatchingPop(s.heap, ev);
    WakePlaces(wf, s, ev.t);
    var w := WakeAll(s, ev.t);
    var f := Event(ev.t, w.seqCounter + 1, ev.emp, NextPhase);
    assert s'.heap == w.heap - {ev} + {f};
    ReplacePlaces(wf, w, ev, s', f);
    var woken := WakeEvents(s.parked, s.seqCounter, ev.t);
    assert s'.heap == (s.heap - {ev} + woken) + {f};
    DispatchingWake(s.heap - {ev}, s.parked, s.seqCounter, ev.t);
    DispatchingPush(s.heap - {ev} + woken, f);
  }

  lemma StepInv(wf: Workflows, m: int, s: State, ev: Event)
    requires Inv(wf, m, s) && IsMin(s.heap, ev)
    ensures Inv(wf, m, Step(wf, m, s, ev))
  {
    AdvanceInv(wf, m, s, ev);
    ApplyInv(wf, m, Advance(s, ev), ev);
  }

  /** Every state of every run satisfies the invariant. */
  lemma {:induction false} RunInv(wf: Workflows, m: int, run: seq<State>, popped: seq<Event>, i: nat)
    requires IsRun(wf, m, run, popped) && i < |run|
    ensures Inv(wf, m, run[i])
  {
    if i == 0 {
      InitInv(wf, m);
    } else {
      RunInv(wf, m, run, popped, i - 1);
      assert IsStep(wf, m, run[i - 1], popped[i - 1], run[i - 1 + 1]);
      StepInv(wf, m, run[i - 1], popped[i - 1]);
    }
  }

  // --- Termination -----------------------------------------------------------------

  ghost function Remaining(wf: Workflows, s: State, k: nat): nat
    requires Sized(wf, s) && k <= |wf|
  {
    if k == 0 then 0 else Remaining(wf, s, k - 1) + |wf[k - 1]| - s.phaseIdx[k - 1]
  }

  ghost function Ready(heap: set<Event>): set<Event> {
    set ev | ev in heap && ev.action == NextPhase
  }

  lemma {:induction false} RemainingDrops(wf: Workflows, s: State, s': State, k: nat, e: nat, d: nat)
    requires Sized(wf, s) && Sized(wf, s') && k <= |wf| && e < |wf|
    requires forall j | 0 <= j < |wf| :: s'.phaseIdx[j] == s.phaseIdx[j] + if j == e then d else 0
    ensures Remaining(wf, s', k) == Remaining(wf, s, k) - if e < k then d else 0
  {
    if k > 0 { RemainingDrops(wf, s, s', k - 1, e, d); }
  }

  /** The lexicographic measure: phases still to run, then employees ready to move on. */
  lemma MeasureDrops(wf: Workflows, m: int, s: State, ev: Event)
    requires WellFormed(wf, s) && IsMin(s.heap, ev)
    requires Sized(wf, s) && Sized(wf, Step(wf, m, s, ev))
    ensures var s' := Step(wf, m, s, ev);
            || Remaining(wf, s', |wf|) < Remaining(wf, s, |wf|)
            || (Remaining(wf, s', |wf|) == Remaining(wf, s, |wf|) && |Ready(s'.heap)| < |Ready(s.heap)|)
  {
    var s' := Step(wf, m, s, ev);
    if ev.action == NextPhase {
      RemainingDrops(wf, s, s', |wf|, ev.emp, 0);
      assert Ready(s'.heap) == Ready(s.heap) - {ev};
    } else {
      RemainingDrops(wf, s, s', |wf|, ev.emp, 1);
    }
  }

  lemma ExtendRun(wf: Workflows, m: int, run: seq<State>, popped: seq<Event>, ev: Event, s': State)
    requires IsRun(wf, m, run, popped) && IsStep(wf, m, run[|popped|], ev, s')
    ensures IsRun(wf, m, run + [s'], popped + [ev])
  {
    var run', popped' := run + [s'], popped + [ev];
    forall i | 0 <= i < |popped'| ensures IsStep(wf, m, run'[i], popped'[i], run'[i + 1]) {
      if i < |popped| { assert IsStep(wf, m, run[i], popped[i], run[i + 1]); }
    }
  }

  /** One more iteration: the invariant holds again and the measure has dropped. */
  lemma Progresses(wf: Workflows, m: int, s: State, ev: Event)
    requires Inv(wf, m, s) && IsMin(s.heap, ev)
    ensures var s' := Step(wf, m, s, ev);
            && Inv(wf, m, s')
            && (|| Remaining(wf, s', |wf|) < Remaining(wf, s, |wf|)
                || (Remaining(wf, s', |wf|) == Remaining(wf, s, |wf|) && |Ready(s'.heap)| < |Ready(s.heap)|))
  {
    StepInv(wf, m, s, ev);
    MeasureDrops(wf, m, s, ev);
  }

  ghost predicate AllComplete(s: State) {
    forall e | 0 <= e < |s.completion| :: s.completion[e].Some?
  }

  /** With no slot at all, nobody ever gets past a dispatch. */
  lemma {:induction false} RunWithoutSlots(wf: Workflows, m: int, run: seq<State>, popped: seq<Event>, i: nat, e: nat)
    requires IsRun(wf, m, run, popped) && i < |run| && m <= 0 && e < |wf|
    ensures |run[i].phaseIdx| == |wf| && run[i].phaseIdx[e] <= FirstDispatch(wf[e])
  {
    RunInv(wf, m, run, popped, i);
    if i > 0 {
      RunWithoutSlots(wf, m, run, popped, i - 1, e);
      RunInv(wf, m, run, popped, i - 1);
      var s, ev := run[i - 1], popped[i - 1];
      assert IsStep(wf, m, s, ev, run[i - 1 + 1]);
      assert Dispatching(s.heap) == {};
      assert ev !in Dispatching(s.heap) && EventFits(wf, s, ev);
    }
  }

  /** The loop ends with somebody parked exactly when there is no slot and somebody needs one. */
  lemma DeadlockIff(wf: Workflows, m: int, run: seq<State>, popped: seq<Event>)
    requires IsRun(wf, m, run, popped) && run[|popped|].heap == {}
    ensures run[|popped|].parked != [] <==> m <= 0 && exists e :: 0 <= e < |wf| && HasDispatch(wf[e])
    ensures run[|popped|].parked == [] ==> AllComplete(run[|popped|])
    ensures run[|popped|].active == 0
  {
    var s := run[|popped|];
    RunInv(wf, m, run, popped, |popped|);
    assert Dispatching(s.heap) == {};
    if s.parked != [] {
      var e := s.parked[0];
      assert e in s.parked && InPhase(wf, s, e) && wf[e][s.phaseIdx[e]].Dispatch?;
      assert HasDispatch(wf[e]);
    } else {
      forall e | 0 <= e < |wf| ensures s.completion[e].Some? && (m <= 0 ==> !HasDispatch(wf[e])) {
        assert Located(s, e);
        if m <= 0 { RunWithoutSlots(wf, m, run, popped, |popped|, e); }
      }
    }
  }

  /** The reported peak is the largest number of slots in use at any point of the run. */
  lemma {:induction false} PeakIsMaximum(wf: Workflows, m: int, run: seq<State>, popped: seq<Event>, k: nat)
    requires IsRun(wf, m, run, popped) && k < |run|
    ensures forall i | 0 <= i <= k :: run[i].active <= run[k].peak
    ensures exists i :: 0 <= i <= k && run[i].active == run[k].peak
  {
    if k > 0 {
      PeakIsMaximum(wf, m, run, popped, k - 1);
      var s, ev := run[k - 1], popped[k - 1];
      assert IsStep(wf, m, s, ev, run[k - 1 + 1]);
      assert run[k].peak == Max(s.peak, run[k].active) by { RunInv(wf, m, run, popped, k - 1); }
      if run[k].peak == run[k].active { assert run[k].active == run[k].peak; }
      else {
        var i :| 0 <= i <= k - 1 && run[i].active == s.peak;
        assert run[i].active == run[k].peak;
      }
    }
  }
}
