/** Parked employees are served in parking order, although every wake re-queues all of them. */
module SchedulerOrder {
  import opened Wrappers
  import opened SchedulerModel
  import opened SchedulerSafety
  import opened SchedulerBounds

  ghost predicate QueuedBefore(q: seq<nat>, a: nat, b: nat) {
    exists i, j | 0 <= i < j < |q| :: q[i] == a && q[j] == b
  }

  /** The step that pops `ev` gives employee `e` a slot. */
  ghost predicate Starts(wf: Workflows, m: int, s: State, ev: Event, e: nat) {
    && ev.emp == e < |wf| == |s.phaseIdx|
    && ev.action == NextPhase
    && s.phaseIdx[e] < |wf[e]| && wf[e][s.phaseIdx[e]].Dispatch?
    && s.active < m
  }

  /** Step `j` of the run gives employee `e` a slot. */
  ghost predicate StartsAt(wf: Workflows, m: int, run: seq<State>, popped: seq<Event>, j: nat, e: nat)
    requires j < |run| && j < |popped|
  {
    Starts(wf, m, run[j], popped[j], e)
  }

  /** Nothing that could free a slot is popped before `eb`. */
  ghost predicate OnlyReadyBetween(heap: set<Event>, ea: Event, eb: Event) {
    forall f | f in heap && Before(ea, f) && Before(f, eb) :: f.action == NextPhase
  }

  ghost predicate OnlyReadyBefore(heap: set<Event>, eb: Event) {
    forall f | f in heap && Before(f, eb) :: f.action == NextPhase
  }

  ghost predicate BothReady(s: State, a: nat, b: nat, ea: Event, eb: Event) {
    && ea in s.heap && eb in s.heap && ea.emp == a && eb.emp == b
    && ea.action == eb.action == NextPhase && Before(ea, eb)
    && OnlyReadyBetween(s.heap, ea, eb)
  }

  ghost predicate SecondReady(s: State, a: nat, b: nat, eb: Event) {
    && a in s.parked && eb in s.heap && eb.emp == b && eb.action == NextPhase
    && OnlyReadyBefore(s.heap, eb)
  }

  ghost predicate WantsSlot(wf: Workflows, s: State, e: nat) {
    e < |wf| == |s.phaseIdx| && s.phaseIdx[e] < |wf[e]| && wf[e][s.phaseIdx[e]].Dispatch?
  }

  /** `a` will get a slot no later than `b`: both queued, both woken, or `a` queued again already. */
  ghost predicate AheadOf(wf: Workflows, s: State, a: nat, b: nat) {
    && a != b && WantsSlot(wf, s, a) && WantsSlot(wf, s, b)
    && (|| QueuedBefore(s.parked, a, b)
        || (exists ea, eb :: BothReady(s, a, b, ea, eb))
        || (exists eb :: SecondReady(s, a, b, eb)))
  }

  lemma AheadNotServed(wf: Workflows, m: int, s: State, ev: Event, a: nat, b: nat)
    requires Inv(wf, m, s) && IsMin(s.heap, ev) && AheadOf(wf, s, a, b)
    ensures !Starts(wf, m, s, ev, b)
  {
    assert Located(s, b);
    if ev.emp == b { assert HasEvent(s, b); }
  }

  /** A queue woken together keeps its order, with nothing but its own events in between. */
  lemma WokenAhead(wf: Workflows, m: int, s: State, ev: Event, i: nat, j: nat)
    requires WellFormed(wf, s) && OneEventEach(s) && ev in s.heap && ev.action == EndDispatch && s.active <= m
    requires i < j < |s.parked|
    ensures exists ea, eb :: BothReady(Apply(wf, m, s, ev), s.parked[i], s.parked[j], ea, eb)
  {
    var s' := Apply(wf, m, s, ev);
    var ea := Event(ev.t, s.seqCounter + 1 + i, s.parked[i], NextPhase);
    var eb := Event(ev.t, s.seqCounter + 1 + j, s.parked[j], NextPhase);
    assert ea in s'.heap && eb in s'.heap;
    assert BothReady(s', s.parked[i], s.parked[j], ea, eb);
  }

  lemma QueuedAhead(wf: Workflows, m: int, s: State, ev: Event, a: nat, b: nat)
    requires Inv(wf, m, s) && IsMin(s.heap, ev) && ev.t == s.lastT
    requires a != b && WantsSlot(wf, s, a) && WantsSlot(wf, s, b) && QueuedBefore(s.parked, a, b)
    ensures AheadOf(wf, Apply(wf, m, s, ev), a, b)
  {
    var s' := Apply(wf, m, s, ev);
    var i, j :| 0 <= i < j < |s.parked| && s.parked[i] == a && s.parked[j] == b;
    assert ev.emp != a && ev.emp != b by { assert Located(s, ev.emp) && HasEvent(s, ev.emp); }
    ApplyLeavesOthers(wf, m, s, ev, Event(0.0, 0, a, NextPhase));
    ApplyLeavesOthers(wf, m, s, ev, Event(0.0, 0, b, NextPhase));
    if ev.action == EndDispatch {
      WokenAhead(wf, m, s, ev, i, j);
    } else {
      assert s'.parked[i] == a && s'.parked[j] == b;
    }
  }

  lemma ReadyAhead(wf: Workflows, m: int, s: State, ev: Event, a: nat, b: nat, ea: Event, eb: Event)
    requires NonNegative(wf) && WellFormed(wf, s) && OneEventEach(s) && EventsAhead(s)
    requires IsMin(s.heap, ev) && ev.t == s.lastT
    requires a != b && WantsSlot(wf, s, a) && WantsSlot(wf, s, b) && BothReady(s, a, b, ea, eb)
    ensures AheadOf(wf, Apply(wf, m, s, ev), a, b) || Starts(wf, m, s, ev, a)
  {
    var s' := Apply(wf, m, s, ev);
    if ev == ea {
      if s.active >= m {
        assert a in s'.parked;
        assert SecondReady(s', a, b, eb);
      }
    } else {
      assert BothReady(s', a, b, ea, eb);
    }
  }

  lemma SecondAhead(wf: Workflows, m: int, s: State, ev: Event, a: nat, b: nat, eb: Event)
    requires NonNegative(wf) && Inv(wf, m, s) && EventsAhead(s) && IsMin(s.heap, ev) && ev.t == s.lastT
    requires a != b && WantsSlot(wf, s, a) && WantsSlot(wf, s, b) && SecondReady(s, a, b, eb)
    ensures AheadOf(wf, Apply(wf, m, s, ev), a, b)
  {
    var s' := Apply(wf, m, s, ev);
    assert ev.action == NextPhase by { assert ev == eb || Before(ev, eb); }
    var i :| 0 <= i < |s.parked| && s.parked[i] == a;
    assert s'.parked[i] == a;
    if ev == eb {
      assert s'.parked[|s.parked|] == b;
    } else {
      assert SecondReady(s', a, b, eb);
    }
  }

  lemma StepAhead(wf: Workflows, m: int, s: State, ev: Event, a: nat, b: nat)
    requires NonNegative(wf) && TimeInv(wf, m, s) && IsMin(s.heap, ev) && m >= 0
    requires AheadOf(wf, s, a, b)
    ensures AheadOf(wf, Step(wf, m, s, ev), a, b) || Starts(wf, m, s, ev, a)
  {
    var s1 := Advance(s, ev);
    AdvanceTimeInv(wf, m, s, ev);
    if QueuedBefore(s.parked, a, b) {
      QueuedAhead(wf, m, s1, ev, a, b);
    } else if ea, eb :| BothReady(s, a, b, ea, eb) {
      assert BothReady(s1, a, b, ea, eb);
      ReadyAhead(wf, m, s1, ev, a, b, ea, eb);
    } else {
      var eb :| SecondReady(s, a, b, eb);
      assert SecondReady(s1, a, b, eb);
      SecondAhead(wf, m, s1, ev, a, b, eb);
    }
  }

  /** Once `a` is ahead of `b`, it stays ahead until a step starts `a`. */
  lemma {:induction false} RunAhead(wf: Workflows, m: int, run: seq<State>, popped: seq<Event>, i: nat, k: nat, a: nat, b: nat)
    requires NonNegative(wf) && IsRun(wf, m, run, popped) && i <= k < |run| && m >= 0
    requires AheadOf(wf, run[i], a, b)
    requires forall j | i <= j < k :: !StartsAt(wf, m, run, popped, j, a)
    ensures AheadOf(wf, run[k], a, b)
  {
    if i < k {
      RunAhead(wf, m, run, popped, i, k - 1, a, b);
      RunTimeInv(wf, m, run, popped, k - 1);
      var s, ev, s' := run[k - 1], popped[k - 1], run[k - 1 + 1];
      assert IsStep(wf, m, s, ev, s');
      StepAhead(wf, m, s, ev, a, b);
      assert !StartsAt(wf, m, run, popped, k - 1, a);
    }
  }

  /** Whoever is ahead is served first. */
  lemma AheadServedFirst(wf: Workflows, m: int, run: seq<State>, popped: seq<Event>, i: nat, k: nat, a: nat, b: nat)
    requires NonNegative(wf) && IsRun(wf, m, run, popped) && i <= k < |popped| && m >= 0
    requires AheadOf(wf, run[i], a, b) && StartsAt(wf, m, run, popped, k, b)
    ensures exists j :: i <= j < k && StartsAt(wf, m, run, popped, j, a)
  {
    RunInv(wf, m, run, popped, k);
    if forall j | i <= j < k :: !StartsAt(wf, m, run, popped, j, a) {
      RunAhead(wf, m, run, popped, i, k, a, b);
      assert IsStep(wf, m, run[k], popped[k], run[k + 1]);
      AheadNotServed(wf, m, run[k], popped[k], a, b);
      assert false;
    }
  }

  /** First in, first out: of two employees parked together, the later one is served only after the earlier. */
  lemma ParkedServedInOrder(wf: Workflows, m: int, run: seq<State>, popped: seq<Event>, i: nat, k: nat, a: nat, b: nat)
    requires NonNegative(wf) && IsRun(wf, m, run, popped) && i <= k < |popped|
    requires QueuedBefore(run[i].parked, a, b) && StartsAt(wf, m, run, popped, k, b)
    ensures exists j :: i <= j < k && StartsAt(wf, m, run, popped, j, a)
  {
    RunInv(wf, m, run, popped, k);
    RunInv(wf, m, run, popped, i);
    assert AheadOf(wf, run[i], a, b);
    AheadServedFirst(wf, m, run, popped, i, k, a, b);
  }

  /** Parked employees come before the one whose dispatch has just ended, if it wants a slot again. */
  lemma ParkedBeforeEnding(wf: Workflows, m: int, run: seq<State>, popped: seq<Event>, i: nat, k: nat, a: nat)
    requires NonNegative(wf) && IsRun(wf, m, run, popped) && i < k < |popped| && m >= 1
    requires popped[i].action == EndDispatch && a in run[i].parked && WantsSlot(wf, run[i + 1], popped[i].emp)
    requires StartsAt(wf, m, run, popped, k, popped[i].emp)
    ensures exists j :: i < j < k && StartsAt(wf, m, run, popped, j, a)
  {
    EndingAheadAt(wf, m, run, popped, i, a);
    AheadServedFirst(wf, m, run, popped, i + 1, k, a, popped[i].emp);
  }

  lemma EndingAheadAt(wf: Workflows, m: int, run: seq<State>, popped: seq<Event>, i: nat, a: nat)
    requires IsRun(wf, m, run, popped) && i < |popped| && m >= 1
    requires popped[i].action == EndDispatch && a in run[i].parked && WantsSlot(wf, run[i + 1], popped[i].emp)
    ensures AheadOf(wf, run[i + 1], a, popped[i].emp)
  {
    RunInv(wf, m, run, popped, i);
    assert IsStep(wf, m, run[i], popped[i], run[i + 1]);
    EndingAhead(wf, m, run[i], popped[i], a);
  }

  lemma EndingAhead(wf: Workflows, m: int, s: State, ev: Event, a: nat)
    requires Inv(wf, m, s) && IsMin(s.heap, ev) && m >= 1
    requires ev.action == EndDispatch && a in s.parked && WantsSlot(wf, Step(wf, m, s, ev), ev.emp)
    ensures AheadOf(wf, Step(wf, m, s, ev), a, ev.emp)
  {
    var s1, s' := Advance(s, ev), Step(wf, m, s, ev);
    assert Located(s, ev.emp) && HasEvent(s, ev.emp);
    var i :| 0 <= i < |s.parked| && s.parked[i] == a;
    ApplyLeavesOthers(wf, m, s1, ev, Event(0.0, 0, a, NextPhase));
    WokenBeforeOwn(wf, m, s1, ev, i);
  }

  lemma WokenBeforeOwn(wf: Workflows, m: int, s: State, ev: Event, i: nat)
    requires WellFormed(wf, s) && OneEventEach(s) && ev in s.heap && ev.action == EndDispatch && s.active <= m
    requires i < |s.parked|
    ensures exists ea, eb :: BothReady(Apply(wf, m, s, ev), s.parked[i], ev.emp, ea, eb)
  {
    var s' := Apply(wf, m, s, ev);
    var ea := Event(ev.t, s.seqCounter + 1 + i, s.parked[i], NextPhase);
    var eb := Event(ev.t, s.seqCounter + |s.parked| + 1, ev.emp, NextPhase);
    assert ea in s'.heap && eb in s'.heap;
    assert BothReady(s', s.parked[i], ev.emp, ea, eb);
  }

  // --- The order and the times of the first dispatches ------------------------------------

  predicate StartsWithDispatch(ps: seq<Phase>) { ps != [] && ps[0].Dispatch? }

  lemma InitAhead(wf: Workflows, e: nat, f: nat)
    requires e < f < |wf| && StartsWithDispatch(wf[e]) && StartsWithDispatch(wf[f])
    ensures AheadOf(wf, Init(wf), e, f)
  {
    var s, all := Init(wf), seq(|wf|, i => i);
    var ea, eb := Event(0.0, 0 + 1 + e, all[e], NextPhase), Event(0.0, 0 + 1 + f, all[f], NextPhase);
    assert ea in s.heap && eb in s.heap;
    assert BothReady(s, e, f, ea, eb);
  }

  /** `e` starts first, if at all. */
  ghost predicate StartOrder(wf: Workflows, s: State, e: nat, f: nat)
    requires e < |s.startTime| && f < |s.startTime|
  {
    && (s.startTime[e].None? ==> s.startTime[f].None? && AheadOf(wf, s, e, f))
    && (s.startTime[e].Some? ==> s.startTime[e].value <= s.lastT)
    && (s.startTime[e].Some? && s.startTime[f].Some? ==> s.startTime[e].value <= s.startTime[f].value)
  }

  lemma StartChange(wf: Workflows, m: int, s: State, ev: Event, e: nat)
    requires WellFormed(wf, s) && IsMin(s.heap, ev) && ev.t >= s.lastT && e < |wf|
    ensures var s' := Step(wf, m, s, ev);
      && s'.lastT == ev.t && |s'.startTime| == |wf|
      && s'.startTime[e] == if Starts(wf, m, s, ev, e) then FirstTime(s.startTime[e], ev.t) else s.startTime[e]
  {
  }

  lemma StepStartOrder(wf: Workflows, m: int, s: State, ev: Event, e: nat, f: nat)
    requires NonNegative(wf) && TimeInv(wf, m, s) && IsMin(s.heap, ev) && m >= 0
    requires e != f && e < |wf| && f < |wf| && StartOrder(wf, s, e, f)
    ensures var s' := Step(wf, m, s, ev); |s'.startTime| == |wf| && StartOrder(wf, s', e, f)
  {
    StartChange(wf, m, s, ev, e);
    StartChange(wf, m, s, ev, f);
    if s.startTime[e].None? {
      StepAhead(wf, m, s, ev, e, f);
      AheadNotServed(wf, m, s, ev, e, f);
    }
  }

  /** Employees that begin with a dispatch are first dialled in the order of the list. */
  lemma {:induction false} DialledInListOrder(wf: Workflows, m: int, run: seq<State>, popped: seq<Event>, i: nat, e: nat, f: nat)
    requires NonNegative(wf) && IsRun(wf, m, run, popped) && i < |run| && m >= 0
    requires e < f < |wf| && StartsWithDispatch(wf[e]) && StartsWithDispatch(wf[f])
    ensures |run[i].startTime| == |wf| && StartOrder(wf, run[i], e, f)
  {
    if i == 0 {
      InitAhead(wf, e, f);
    } else {
      DialledInListOrder(wf, m, run, popped, i - 1, e, f);
      RunTimeInv(wf, m, run, popped, i - 1);
      assert IsStep(wf, m, run[i - 1], popped[i - 1], run[i - 1 + 1]);
      StepStartOrder(wf, m, run[i - 1], popped[i - 1], e, f);
    }
  }

  ghost predicate Ending(s: State, e: nat, t: real) {
    exists ev :: ev in s.heap && ev.emp == e && ev.action == EndDispatch && ev.t == t
  }

  /** The first dispatch has not started, or is under way, or has ended its duration after its start. */
  ghost predicate FirstFits(wf: Workflows, s: State, e: nat)
    requires e < |wf| == |s.phaseIdx| == |s.startTime| == |s.firstDone|
  {
    var k := FirstDispatch(wf[e]);
    match s.startTime[e]
    case None => s.firstDone[e].None? && s.phaseIdx[e] <= k && forall ev | ev in s.heap && ev.emp == e :: ev.action != EndDispatch
    case Some(t) =>
      && k < |wf[e]|
      && (|| (s.phaseIdx[e] == k && s.firstDone[e].None? && Ending(s, e, t + wf[e][k].duration))
          || (s.phaseIdx[e] > k && s.firstDone[e] == Some(t + wf[e][k].duration)))
  }

  lemma StepFirstFits(wf: Workflows, m: int, s: State, ev: Event, e: nat)
    requires Inv(wf, m, s) && IsMin(s.heap, ev) && e < |wf| && FirstFits(wf, s, e)
    ensures var s' := Step(wf, m, s, ev);
            |s'.phaseIdx| == |s'.startTime| == |s'.firstDone| == |wf| && FirstFits(wf, s', e)
  {
    assert EventFits(wf, s, ev);
    if ev.emp == e {
      OwnFirstFits(wf, m, s, ev);
    } else {
      OtherFirstFits(wf, m, s, ev, e);
    }
  }

  lemma OtherFirstFits(wf: Workflows, m: int, s: State, ev: Event, e: nat)
    requires WellFormed(wf, s) && IsMin(s.heap, ev) && e < |wf| && e != ev.emp && FirstFits(wf, s, e)
    ensures var s' := Step(wf, m, s, ev);
            |s'.phaseIdx| == |s'.startTime| == |s'.firstDone| == |wf| && FirstFits(wf, s', e)
  {
    var s1, s' := Advance(s, ev), Step(wf, m, s, ev);
    OthersTimesKept(wf, m, s1, ev, e);
    forall g: Event | g.emp == e && g.action == EndDispatch ensures g in s.heap <==> g in s'.heap { ApplyLeavesOthers(wf, m, s1, ev, g); }
    FirstFitsCongruent(wf, s, s', e);
  }

  lemma OthersTimesKept(wf: Workflows, m: int, s: State, ev: Event, e: nat)
    requires WellFormed(wf, s) && ev in s.heap && e < |wf| && e != ev.emp
    ensures var s' := Apply(wf, m, s, ev);
      && |s'.phaseIdx| == |s'.startTime| == |s'.firstDone| == |wf|
      && s'.phaseIdx[e] == s.phaseIdx[e] && s'.startTime[e] == s.startTime[e] && s'.firstDone[e] == s.firstDone[e]
  {
  }

  lemma FirstFitsCongruent(wf: Workflows, s: State, s': State, e: nat)
    requires e < |wf| == |s.phaseIdx| == |s.startTime| == |s.firstDone| == |s'.phaseIdx| == |s'.startTime| == |s'.firstDone|
    requires s'.phaseIdx[e] == s.phaseIdx[e] && s'.startTime[e] == s.startTime[e] && s'.firstDone[e] == s.firstDone[e]
    requires forall g: Event | g.emp == e && g.action == EndDispatch :: g in s.heap <==> g in s'.heap
    requires FirstFits(wf, s, e)
    ensures FirstFits(wf, s', e)
  {
  }

  lemma OwnFirstFits(wf: Workflows, m: int, s: State, ev: Event)
    requires Inv(wf, m, s) && IsMin(s.heap, ev) && EventFits(wf, s, ev) && FirstFits(wf, s, ev.emp)
    ensures var s' := Step(wf, m, s, ev);
            |s'.phaseIdx| == |s'.startTime| == |s'.firstDone| == |wf| && FirstFits(wf, s', ev.emp)
  {
    var e, s' := ev.emp, Step(wf, m, s, ev);
    var idx := s.phaseIdx[e];
    if ev.action == NextPhase && idx < |wf[e]| && wf[e][idx].Dispatch? && s.active < m {
      var next := Event(ev.t + wf[e][idx].duration, s.seqCounter + 1, e, EndDispatch);
      assert next in s'.heap;
    }
  }

  /** Every state of every run fits. */
  lemma {:induction false} RunFirstFits(wf: Workflows, m: int, run: seq<State>, popped: seq<Event>, i: nat, e: nat)
    requires IsRun(wf, m, run, popped) && i < |run| && e < |wf|
    ensures |run[i].phaseIdx| == |run[i].startTime| == |run[i].firstDone| == |wf| && FirstFits(wf, run[i], e)
  {
    if i > 0 {
      RunFirstFits(wf, m, run, popped, i - 1, e);
      FirstFitsAt(wf, m, run, popped, i - 1, e);
    }
  }

  lemma FirstFitsAt(wf: Workflows, m: int, run: seq<State>, popped: seq<Event>, i: nat, e: nat)
    requires IsRun(wf, m, run, popped) && i < |popped| && e < |wf|
    requires |run[i].phaseIdx| == |run[i].startTime| == |run[i].firstDone| == |wf| && FirstFits(wf, run[i], e)
    ensures |run[i + 1].phaseIdx| == |run[i + 1].startTime| == |run[i + 1].firstDone| == |wf| && FirstFits(wf, run[i + 1], e)
  {
    RunInv(wf, m, run, popped, i);
    assert IsStep(wf, m, run[i], popped[i], run[i + 1]);
    StepFirstFits(wf, m, run[i], popped[i], e);
  }
}
