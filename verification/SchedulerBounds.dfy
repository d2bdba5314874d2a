/** Time bounds of the replay: waiting is paid for by the dispatch work of the others. */
module SchedulerBounds {
  import opened SchedulerModel
  import opened SchedulerSafety

  // --- Work done so far -------------------------------------------------------

  predicate NonNegative(wf: Workflows) {
    forall e, k | 0 <= e < |wf| && 0 <= k < |wf[e]| :: wf[e][k].duration >= 0.0
  }

  function Weight(p: Phase, dispatchOnly: bool): real {
    if dispatchOnly && !p.Dispatch? then 0.0 else p.duration
  }

  /** The total duration of the first `k` phases, or of the dispatches among them. */
  function PrefixSum(ps: seq<Phase>, k: nat, dispatchOnly: bool): real
    requires k <= |ps|
  {
    if k == 0 then 0.0 else PrefixSum(ps, k - 1, dispatchOnly) + Weight(ps[k - 1], dispatchOnly)
  }

  /** An employee's own time: the sum of all its phase durations. */
  function OwnTime(ps: seq<Phase>): real { PrefixSum(ps, |ps|, false) }

  function DispatchTime(ps: seq<Phase>): real { PrefixSum(ps, |ps|, true) }

  /** The dispatch work of the first `k` employees, leaving out `skip`. */
  function DispatchTotal(wf: Workflows, k: nat, skip: int): real
    requires k <= |wf|
  {
    if k == 0 then 0.0
    else DispatchTotal(wf, k - 1, skip) + (if k - 1 == skip then 0.0 else DispatchTime(wf[k - 1]))
  }

  lemma {:induction false} PrefixSumMonotone(wf: Workflows, e: nat, i: nat, k: nat, dispatchOnly: bool)
    requires NonNegative(wf) && e < |wf| && i <= k <= |wf[e]|
    ensures PrefixSum(wf[e], i, dispatchOnly) <= PrefixSum(wf[e], k, dispatchOnly)
  {
    if i < k {
      PrefixSumMonotone(wf, e, i, k - 1, dispatchOnly);
      assert wf[e][k - 1].duration >= 0.0;
    }
  }

  /** Whether an event ends a phase that counts towards the sum. */
  predicate Counts(ev: Event, dispatchOnly: bool) {
    ev.action == EndDispatch || (ev.action == EndWait && !dispatchOnly)
  }

  ghost predicate RunningEvent(s: State, e: nat, dispatchOnly: bool, ev: Event) {
    ev in s.heap && ev.emp == e && Counts(ev, dispatchOnly)
  }

  ghost predicate IsRunning(s: State, e: nat, dispatchOnly: bool) {
    exists ev :: RunningEvent(s, e, dispatchOnly, ev)
  }

  /** The part of the current phase that has elapsed at `s.lastT`. */
  ghost function Elapsed(wf: Workflows, s: State, e: nat, dispatchOnly: bool): real
    requires Sized(wf, s) && e < |wf|
  {
    if ev :| RunningEvent(s, e, dispatchOnly, ev) && s.phaseIdx[e] < |wf[e]| then
      wf[e][s.phaseIdx[e]].duration - (ev.t - s.lastT)
    else 0.0
  }

  /** All the time (or all the dispatch work) an employee has put behind it at `s.lastT`. */
  ghost function Progress(wf: Workflows, s: State, e: nat, dispatchOnly: bool): real
    requires Sized(wf, s) && e < |wf|
  {
    PrefixSum(wf[e], s.phaseIdx[e], dispatchOnly) + Elapsed(wf, s, e, dispatchOnly)
  }

  lemma ProgressRunning(wf: Workflows, s: State, ev: Event, dispatchOnly: bool)
    requires Sized(wf, s) && OneEventEach(s)
    requires ev in s.heap && Counts(ev, dispatchOnly) && ev.emp < |wf| && s.phaseIdx[ev.emp] < |wf[ev.emp]|
    requires ev.action == EndDispatch ==> wf[ev.emp][s.phaseIdx[ev.emp]].Dispatch?
    ensures Progress(wf, s, ev.emp, dispatchOnly)
         == PrefixSum(wf[ev.emp], s.phaseIdx[ev.emp] + 1, dispatchOnly) - (ev.t - s.lastT)
  {
    assert RunningEvent(s, ev.emp, dispatchOnly, ev) && s.phaseIdx[ev.emp] < |wf[ev.emp]|;
  }

  lemma ProgressIdle(wf: Workflows, s: State, e: nat, dispatchOnly: bool)
    requires Sized(wf, s) && e < |wf|
    requires forall ev | ev in s.heap && ev.emp == e :: !Counts(ev, dispatchOnly)
    ensures Progress(wf, s, e, dispatchOnly) == PrefixSum(wf[e], s.phaseIdx[e], dispatchOnly)
  {
  }

  /** An event leaves the others' events and phases alone; it may wake a parked employee. */
  lemma ApplyLeavesOthers(wf: Workflows, m: int, s: State, ev: Event, g: Event)
    requires WellFormed(wf, s) && ev in s.heap && g.emp != ev.emp && g.emp < |wf|
    ensures var s' := Apply(wf, m, s, ev);
            && s'.lastT == s.lastT && |s'.phaseIdx| == |wf| && s'.phaseIdx[g.emp] == s.phaseIdx[g.emp]
            && (g in s.heap ==> g in s'.heap)
            && (g in s'.heap && g !in s.heap ==> g.action == NextPhase && g.emp in s.parked)
  {
  }

  lemma OthersProgress(wf: Workflows, m: int, s: State, ev: Event, e: nat, dispatchOnly: bool)
    requires WellFormed(wf, s) && PhasesFit(wf, s) && OneEventEach(s)
    requires ev in s.heap && e < |wf| && e != ev.emp
    requires Sized(wf, Apply(wf, m, s, ev)) && OneEventEach(Apply(wf, m, s, ev))
    ensures Progress(wf, Apply(wf, m, s, ev), e, dispatchOnly) == Progress(wf, s, e, dispatchOnly)
  {
    var s' := Apply(wf, m, s, ev);
    ApplyLeavesOthers(wf, m, s, ev, Event(0.0, 0, e, NextPhase));
    if g :| RunningEvent(s, e, dispatchOnly, g) {
      assert EventFits(wf, s, g);
      ApplyLeavesOthers(wf, m, s, ev, g);
      ProgressRunning(wf, s, g, dispatchOnly);
      ProgressRunning(wf, s', g, dispatchOnly);
    } else {
      forall g | g in s'.heap && g.emp == e ensures !Counts(g, dispatchOnly) {
        ApplyLeavesOthers(wf, m, s, ev, g);
        assert !RunningEvent(s, e, dispatchOnly, g);
      }
      ProgressIdle(wf, s', e, dispatchOnly);
      forall g | g in s.heap && g.emp == e ensures !Counts(g, dispatchOnly) {
        assert !RunningEvent(s, e, dispatchOnly, g);
      }
      ProgressIdle(wf, s, e, dispatchOnly);
    }
  }

  /** When time stands still, an event's effect changes nobody's progress. */
  lemma ApplyKeepsProgress(wf: Workflows, m: int, s: State, ev: Event, e: nat, dispatchOnly: bool)
    requires Inv(wf, m, s) && ev in s.heap && ev.t == s.lastT && e < |wf|
    ensures Sized(wf, Apply(wf, m, s, ev))
    ensures Progress(wf, Apply(wf, m, s, ev), e, dispatchOnly) == Progress(wf, s, e, dispatchOnly)
  {
    ApplyInv(wf, m, s, ev);
    if e == ev.emp {
      OwnEventProgress(wf, m, s, ev, dispatchOnly);
    } else {
      OthersProgress(wf, m, s, ev, e, dispatchOnly);
    }
  }

  lemma OwnEventProgress(wf: Workflows, m: int, s: State, ev: Event, dispatchOnly: bool)
    requires Inv(wf, m, s) && ev in s.heap && ev.t == s.lastT
    requires Inv(wf, m, Apply(wf, m, s, ev))
    ensures Progress(wf, Apply(wf, m, s, ev), ev.emp, dispatchOnly) == Progress(wf, s, ev.emp, dispatchOnly)
  {
    assert EventFits(wf, s, ev);
    if ev.action == NextPhase {
      StartProgress(wf, m, s, ev, dispatchOnly);
    } else {
      EndProgress(wf, m, s, ev, dispatchOnly);
    }
  }

  lemma EndProgress(wf: Workflows, m: int, s: State, ev: Event, dispatchOnly: bool)
    requires WellFormed(wf, s) && Sized(wf, s) && OneEventEach(s)
    requires ev in s.heap && ev.t == s.lastT && ev.action != NextPhase && EventFits(wf, s, ev)
    requires var s' := Apply(wf, m, s, ev); Sized(wf, s') && OneEventEach(s')
    ensures Progress(wf, Apply(wf, m, s, ev), ev.emp, dispatchOnly) == Progress(wf, s, ev.emp, dispatchOnly)
  {
    if Counts(ev, dispatchOnly) { ProgressRunning(wf, s, ev, dispatchOnly); }
    else { ProgressIdle(wf, s, ev.emp, dispatchOnly); }
    var s' := Apply(wf, m, s, ev);
    var next := Event(ev.t, s'.seqCounter, ev.emp, NextPhase);
    assert next in s'.heap;
    ProgressIdle(wf, s', ev.emp, dispatchOnly);
  }

  lemma StartProgress(wf: Workflows, m: int, s: State, ev: Event, dispatchOnly: bool)
    requires WellFormed(wf, s) && Sized(wf, s) && OneEventEach(s)
    requires ev in s.heap && ev.t == s.lastT && ev.action == NextPhase
    requires var s' := Apply(wf, m, s, ev); Sized(wf, s') && OneEventEach(s')
    ensures Progress(wf, Apply(wf, m, s, ev), ev.emp, dispatchOnly) == Progress(wf, s, ev.emp, dispatchOnly)
  {
    var e := ev.emp;
    var idx := s.phaseIdx[e];
    var s' := Apply(wf, m, s, ev);
    ProgressIdle(wf, s, e, dispatchOnly);
    if idx < |wf[e]| && !(wf[e][idx].Dispatch? && s.active >= m) {
      var f := Event(ev.t + wf[e][idx].duration, s.seqCounter + 1, e,
                     if wf[e][idx].Dispatch? then EndDispatch else EndWait);
      assert f in s'.heap;
      if Counts(f, dispatchOnly) { ProgressRunning(wf, s', f, dispatchOnly); }
      else { ProgressIdle(wf, s', e, dispatchOnly); }
    } else {
      ProgressIdle(wf, s', e, dispatchOnly);
    }
  }

  /** The dispatch work done so far by the first `k` employees, leaving out `skip`. */
  ghost function DoneWork(wf: Workflows, s: State, k: nat, skip: int): real
    requires Sized(wf, s) && k <= |wf|
  {
    if k == 0 then 0.0
    else DoneWork(wf, s, k - 1, skip) + (if k - 1 == skip then 0.0 else Progress(wf, s, k - 1, true))
  }

  lemma {:induction false} DoneWorkCongruent(wf: Workflows, s: State, s': State, k: nat, skip: int)
    requires Sized(wf, s) && Sized(wf, s') && k <= |wf|
    requires forall e: nat | e < k :: Progress(wf, s', e, true) == Progress(wf, s, e, true)
    ensures DoneWork(wf, s', k, skip) == DoneWork(wf, s, k, skip)
  {
    if k > 0 { DoneWorkCongruent(wf, s, s', k - 1, skip); }
  }

  /** The end-of-dispatch events of the first `k` employees, leaving out `skip`. */
  ghost function BusyBelow(heap: set<Event>, k: nat, skip: int): set<Event> {
    set ev | ev in heap && ev.action == EndDispatch && ev.emp < k && ev.emp != skip
  }

  lemma AdvanceProgress(wf: Workflows, s: State, s': State, delta: real, e: nat, dispatchOnly: bool)
    requires WellFormed(wf, s) && PhasesFit(wf, s) && OneEventEach(s) && e < |wf|
    requires s' == s.(lastT := s.lastT + delta)
    ensures Progress(wf, s', e, dispatchOnly) == Progress(wf, s, e, dispatchOnly)
              + if IsRunning(s, e, dispatchOnly) then delta else 0.0
  {
    if ev :| RunningEvent(s, e, dispatchOnly, ev) {
      assert EventFits(wf, s, ev);
      ProgressRunning(wf, s, ev, dispatchOnly);
      ProgressRunning(wf, s', ev, dispatchOnly);
    } else {
      forall ev | ev in s.heap && ev.emp == e ensures !Counts(ev, dispatchOnly) {
        assert !RunningEvent(s, e, dispatchOnly, ev);
      }
      ProgressIdle(wf, s, e, dispatchOnly);
      ProgressIdle(wf, s', e, dispatchOnly);
    }
  }

  lemma BusyBelowStep(s: State, e: nat, skip: int)
    requires OneEventEach(s)
    ensures |BusyBelow(s.heap, e + 1, skip)| == |BusyBelow(s.heap, e, skip)|
              + if e != skip && IsRunning(s, e, true) then 1 else 0
  {
    var before, after := BusyBelow(s.heap, e, skip), BusyBelow(s.heap, e + 1, skip);
    if ev :| e != skip && RunningEvent(s, e, true, ev) {
      assert after == before + {ev};
    } else {
      forall ev | ev in after ensures ev in before {
        assert !RunningEvent(s, e, true, ev) || e == skip;
      }
      assert after == before;
    }
  }

  /** As the clock moves by `delta`, the work done grows by `delta` per busy slot. */
  lemma {:induction false} AdvanceGrowsWork(wf: Workflows, s: State, s': State, delta: real, k: nat, skip: int)
    requires Sized(wf, s) && Sized(wf, s') && OneEventEach(s) && k <= |wf|
    requires forall e: nat | e < k ::
               Progress(wf, s', e, true) == Progress(wf, s, e, true) + if IsRunning(s, e, true) then delta else 0.0
    ensures DoneWork(wf, s', k, skip) == DoneWork(wf, s, k, skip) + Times(|BusyBelow(s.heap, k, skip)|, delta)
  {
    if k == 0 {
      assert BusyBelow(s.heap, k, skip) == {};
    } else {
      var e := k - 1;
      AdvanceGrowsWork(wf, s, s', delta, e, skip);
      BusyBelowStep(s, e, skip);
    }
  }

  /** `n` times `x`, as a sum; the number of slots is never negative where this is used. */
  function Times(n: int, x: real): real {
    if n <= 0 then 0.0 else Times(n - 1, x) + x
  }

  lemma {:induction false} TimesIsProduct(n: nat, x: real)
    ensures Times(n, x) == (n as real) * x
  {
    if n > 0 {
      TimesIsProduct(n - 1, x);
      var r, q := (n - 1) as real, n as real;
      assert q == r + 1.0;
      calc {
        Times(n, x);
        r * x + x;
        (r + 1.0) * x;
        q * x;
      }
    }
  }

  // --- The time bounds ---------------------------------------------------------

  /**
   Time `c` is not before the end of the employee's first `k` phases, and exceeds it by no more
   than the dispatch work of the others shared among `m` slots.
   */
  ghost predicate EndsInTime(wf: Workflows, m: int, e: nat, k: nat, c: real)
    requires e < |wf| && k <= |wf[e]|
  {
    && PrefixSum(wf[e], k, false) <= c
    && Times(m, c - PrefixSum(wf[e], k, false)) <= DispatchTotal(wf, |wf|, e)
  }

  /** No event lies in the past, and an employee ready to move on is ready now. */
  ghost predicate EventsAhead(s: State) {
    forall ev | ev in s.heap :: ev.t >= s.lastT && (ev.action == NextPhase ==> ev.t == s.lastT)
  }

  predicate Waits(m: int, wait: real, done: real) {
    wait >= 0.0 && Times(m, wait) <= done
  }

  /** The time an employee has spent parked, times `m`, is at most the work others have done. */
  ghost predicate WaitBound(wf: Workflows, m: int, s: State, e: nat)
    requires Sized(wf, s) && |s.completion| == |wf| && e < |wf|
  {
    match s.completion[e]
    case None => Waits(m, s.lastT - Progress(wf, s, e, false), DoneWork(wf, s, |wf|, e))
    case Some(c) => c <= s.lastT && EndsInTime(wf, m, e, |wf[e]|, c)
  }

  ghost predicate FirstBound(wf: Workflows, m: int, s: State, e: nat)
    requires Sized(wf, s) && |s.firstDone| == |wf| && e < |wf|
  {
    var k := FirstDispatch(wf[e]);
    match s.firstDone[e]
    case None => s.phaseIdx[e] <= k
    case Some(c) => k < s.phaseIdx[e] && EndsInTime(wf, m, e, k + 1, c)
  }

  ghost predicate TimeInv(wf: Workflows, m: int, s: State) {
    && Inv(wf, m, s)
    && EventsAhead(s)
    && (forall e | 0 <= e < |wf| :: WaitBound(wf, m, s, e))
    && (forall e | 0 <= e < |wf| :: FirstBound(wf, m, s, e))
    && DoneWork(wf, s, |wf|, -1) <= Times(m, s.lastT)
  }

  lemma {:induction false} TimesMonotone(a: int, b: int, x: real)
    requires a <= b && x >= 0.0
    ensures Times(a, x) <= Times(b, x)
    decreases b - a
  {
    if a < b { TimesMonotone(a, b - 1, x); }
  }

  lemma {:induction false} TimesAdd(m: int, x: real, y: real)
    ensures Times(m, x + y) == Times(m, x) + Times(m, y)
    decreases m
  {
    if m > 0 { TimesAdd(m - 1, x, y); }
  }

  lemma BusyAll(wf: Workflows, s: State, skip: int)
    requires WellFormed(wf, s)
    requires forall ev | ev in s.heap && ev.action == EndDispatch :: ev.emp != skip
    ensures BusyBelow(s.heap, |wf|, skip) == Dispatching(s.heap)
  {
  }

  /** While the clock moves, an employee that is not running is parked, so every slot is busy. */
  lemma IdleMeansBusy(wf: Workflows, m: int, s: State, ev: Event, e: nat)
    requires Inv(wf, m, s) && EventsAhead(s) && IsMin(s.heap, ev) && ev.t > s.lastT && e < |wf|
    requires s.completion[e].None? && !IsRunning(s, e, false)
    ensures |BusyBelow(s.heap, |wf|, e)| >= m
  {
    assert Located(s, e);
    forall g | g in s.heap ensures g.emp != e {
      assert g == ev || Before(ev, g);
      if g.emp == e { assert RunningEvent(s, e, false, g); }
    }
    BusyAll(wf, s, e);
  }

  lemma AdvanceWork(wf: Workflows, s: State, s': State, delta: real, skip: int)
    requires WellFormed(wf, s) && PhasesFit(wf, s) && OneEventEach(s)
    requires s' == s.(lastT := s.lastT + delta)
    ensures DoneWork(wf, s', |wf|, skip) == DoneWork(wf, s, |wf|, skip) + Times(|BusyBelow(s.heap, |wf|, skip)|, delta)
  {
    forall j: nat | j < |wf| { AdvanceProgress(wf, s, s', delta, j, true); }
    AdvanceGrowsWork(wf, s, s', delta, |wf|, skip);
  }

  lemma AdvanceWait(wf: Workflows, m: int, s: State, ev: Event, e: nat)
    requires Inv(wf, m, s) && EventsAhead(s) && IsMin(s.heap, ev) && e < |wf|
    requires WaitBound(wf, m, s, e)
    ensures WaitBound(wf, m, Advance(s, ev), e)
  {
    var s' := Advance(s, ev);
    var delta := ev.t - s.lastT;
    if s.completion[e].None? {
      var busy := WaitFacts(wf, m, s, ev, e);
      WaitAdvances(m, busy, delta, s.lastT, Progress(wf, s, e, false), DoneWork(wf, s, |wf|, e), Progress(wf, s', e, false));
    }
  }

  /** As time advances an unfinished employee progresses, or it waits and all slots are busy with the others. */
  lemma WaitFacts(wf: Workflows, m: int, s: State, ev: Event, e: nat) returns (busy: nat)
    requires Inv(wf, m, s) && EventsAhead(s) && IsMin(s.heap, ev) && e < |wf| && s.completion[e].None?
    ensures var s', delta := Advance(s, ev), ev.t - s.lastT;
      && delta >= 0.0 && s'.lastT == s.lastT + delta
      && DoneWork(wf, s', |wf|, e) == DoneWork(wf, s, |wf|, e) + Times(busy, delta)
      && (|| Progress(wf, s', e, false) == Progress(wf, s, e, false) + delta
          || (Progress(wf, s', e, false) == Progress(wf, s, e, false) && (busy >= m || delta == 0.0)))
  {
    var s', delta := Advance(s, ev), ev.t - s.lastT;
    busy := |BusyBelow(s.heap, |wf|, e)|;
    AdvanceWork(wf, s, s', delta, e);
    AdvanceProgress(wf, s, s', delta, e, false);
    if !IsRunning(s, e, false) && delta > 0.0 { IdleMeansBusy(wf, m, s, ev, e); }
  }

  lemma WaitAdvances(m: int, busy: nat, delta: real, t: real, progress: real, done: real, progress': real)
    requires delta >= 0.0 && Waits(m, t - progress, done)
    requires progress' == progress + delta || (progress' == progress && (busy >= m || delta == 0.0))
    ensures Waits(m, t + delta - progress', done + Times(busy, delta))
  {
    var wait, wait' := t - progress, t + delta - progress';
    assert wait' == wait || (wait' == wait + delta && busy >= m);
    WaitsAdvance(m, busy, wait, done, delta);
  }

  /** Running for `delta` adds work but no waiting; waiting for `delta` adds `m` times as much work. */
  lemma WaitsAdvance(m: int, busy: nat, wait: real, done: real, delta: real)
    requires delta >= 0.0 && Waits(m, wait, done)
    ensures Waits(m, wait, done + Times(busy, delta))
    ensures busy >= m ==> Waits(m, wait + delta, done + Times(busy, delta))
  {
    TimesMonotone(0, busy, delta);
    TimesAdd(m, wait, delta);
    if busy >= m { TimesMonotone(m, busy, delta); }
  }

  lemma AdvanceTimeInv(wf: Workflows, m: int, s: State, ev: Event)
    requires TimeInv(wf, m, s) && IsMin(s.heap, ev) && m >= 0
    ensures TimeInv(wf, m, Advance(s, ev))
  {
    var s' := Advance(s, ev);
    var delta := ev.t - s.lastT;
    AdvanceInv(wf, m, s, ev);
    forall e | 0 <= e < |wf| ensures WaitBound(wf, m, s', e) {
      assert WaitBound(wf, m, s, e);
      AdvanceWait(wf, m, s, ev, e);
    }
    forall e | 0 <= e < |wf| ensures FirstBound(wf, m, s', e) { assert FirstBound(wf, m, s, e); }
    AdvanceWork(wf, s, s', delta, -1);
    BusyAll(wf, s, -1);
    TimesMonotone(|Dispatching(s.heap)|, m, delta);
    TimesAdd(m, s.lastT, delta);
    forall g | g in s'.heap ensures g.t >= s'.lastT && (g.action == NextPhase ==> g.t == s'.lastT) {
      assert g == ev || Before(ev, g);
    }
  }

  lemma {:induction false} DoneWorkBounded(wf: Workflows, m: int, s: State, k: nat, skip: int)
    requires NonNegative(wf) && Inv(wf, m, s) && EventsAhead(s) && k <= |wf|
    ensures DoneWork(wf, s, k, skip) <= DispatchTotal(wf, k, skip)
  {
    if k > 0 {
      DoneWorkBounded(wf, m, s, k - 1, skip);
      var e := k - 1;
      PrefixSumMonotone(wf, e, s.phaseIdx[e], |wf[e]|, true);
      if ev :| RunningEvent(s, e, true, ev) {
        assert EventFits(wf, s, ev);
        ProgressRunning(wf, s, ev, true);
        PrefixSumMonotone(wf, e, s.phaseIdx[e] + 1, |wf[e]|, true);
      } else {
        forall ev | ev in s.heap && ev.emp == e ensures !Counts(ev, true) { assert !RunningEvent(s, e, true, ev); }
        ProgressIdle(wf, s, e, true);
      }
    }
  }

  /** An employee whose progress is exactly its first `k` phases ends them in time. */
  lemma ReachedInTime(wf: Workflows, m: int, s: State, e: nat, k: nat)
    requires NonNegative(wf) && Inv(wf, m, s) && EventsAhead(s) && e < |wf| && k <= |wf[e]|
    requires s.completion[e].None? && WaitBound(wf, m, s, e)
    requires Progress(wf, s, e, false) == PrefixSum(wf[e], k, false)
    ensures EndsInTime(wf, m, e, k, s.lastT)
  {
    DoneWorkBounded(wf, m, s, |wf|, e);
  }

  /** The popped employee has come exactly to the end of the phases it has finished. */
  lemma PoppedInTime(wf: Workflows, m: int, s: State, ev: Event)
    requires NonNegative(wf) && TimeInv(wf, m, s) && ev in s.heap && ev.t == s.lastT
    ensures s.completion[ev.emp].None? && EventFits(wf, s, ev)
    ensures EndsInTime(wf, m, ev.emp, s.phaseIdx[ev.emp] + (if ev.action == NextPhase then 0 else 1), s.lastT)
  {
    var e := ev.emp;
    assert Located(s, e) && HasEvent(s, e) && EventFits(wf, s, ev) && WaitBound(wf, m, s, e);
    if ev.action == NextPhase {
      ProgressIdle(wf, s, e, false);
      ReachedInTime(wf, m, s, e, s.phaseIdx[e]);
    } else {
      ProgressRunning(wf, s, ev, false);
      ReachedInTime(wf, m, s, e, s.phaseIdx[e] + 1);
    }
  }

  lemma ApplyFirstBound(wf: Workflows, m: int, s: State, ev: Event, e: nat)
    requires Sized(wf, s) && WellFormed(wf, s) && ev in s.heap && ev.t == s.lastT && e < |wf|
    requires EventFits(wf, s, ev) && FirstBound(wf, m, s, e) && Sized(wf, Apply(wf, m, s, ev))
    requires ev.action == NextPhase || EndsInTime(wf, m, ev.emp, s.phaseIdx[ev.emp] + 1, s.lastT)
    ensures |Apply(wf, m, s, ev).firstDone| == |wf| && FirstBound(wf, m, Apply(wf, m, s, ev), e)
  {
  }

  lemma ApplyWork(wf: Workflows, m: int, s: State, ev: Event, skip: int)
    requires Inv(wf, m, s) && ev in s.heap && ev.t == s.lastT
    ensures Sized(wf, Apply(wf, m, s, ev))
    ensures DoneWork(wf, Apply(wf, m, s, ev), |wf|, skip) == DoneWork(wf, s, |wf|, skip)
  {
    ApplyInv(wf, m, s, ev);
    forall j: nat | j < |wf| { ApplyKeepsProgress(wf, m, s, ev, j, true); }
    DoneWorkCongruent(wf, s, Apply(wf, m, s, ev), |wf|, skip);
  }

  lemma ApplyWaitBound(wf: Workflows, m: int, s: State, ev: Event, e: nat)
    requires Inv(wf, m, s) && ev in s.heap && ev.t == s.lastT && e < |wf| && WaitBound(wf, m, s, e)
    requires ev.action == NextPhase ==> EndsInTime(wf, m, ev.emp, s.phaseIdx[ev.emp], s.lastT)
    ensures var s' := Apply(wf, m, s, ev); Sized(wf, s') && |s'.completion| == |wf| && WaitBound(wf, m, s', e)
  {
    var s' := Apply(wf, m, s, ev);
    ApplyWork(wf, m, s, ev, e);
    ApplyKeepsProgress(wf, m, s, ev, e, false);
    if s'.completion[e] == s.completion[e] {
      WaitCongruent(wf, m, s, s', e);
    }
  }

  lemma WaitCongruent(wf: Workflows, m: int, s: State, s': State, e: nat)
    requires Sized(wf, s) && Sized(wf, s') && |s.completion| == |s'.completion| == |wf| && e < |wf|
    requires s'.lastT == s.lastT && s'.completion[e] == s.completion[e]
    requires Progress(wf, s', e, false) == Progress(wf, s, e, false)
    requires DoneWork(wf, s', |wf|, e) == DoneWork(wf, s, |wf|, e)
    requires WaitBound(wf, m, s, e)
    ensures WaitBound(wf, m, s', e)
  {
  }

  lemma ApplyWaits(wf: Workflows, m: int, s: State, ev: Event)
    requires NonNegative(wf) && TimeInv(wf, m, s) && ev in s.heap && ev.t == s.lastT
    ensures var s' := Apply(wf, m, s, ev);
            && Sized(wf, s') && |s'.completion| == |wf|
            && forall e | 0 <= e < |wf| :: WaitBound(wf, m, s', e)
  {
    PoppedInTime(wf, m, s, ev);
    ApplyInv(wf, m, s, ev);
    forall e | 0 <= e < |wf| ensures WaitBound(wf, m, Apply(wf, m, s, ev), e) {
      assert WaitBound(wf, m, s, e);
      ApplyWaitBound(wf, m, s, ev, e);
    }
  }

  lemma ApplyFirsts(wf: Workflows, m: int, s: State, ev: Event)
    requires NonNegative(wf) && TimeInv(wf, m, s) && ev in s.heap && ev.t == s.lastT
    ensures var s' := Apply(wf, m, s, ev);
            && Sized(wf, s') && |s'.firstDone| == |wf|
            && forall e | 0 <= e < |wf| :: FirstBound(wf, m, s', e)
  {
    PoppedInTime(wf, m, s, ev);
    ApplyInv(wf, m, s, ev);
    forall e | 0 <= e < |wf| ensures FirstBound(wf, m, Apply(wf, m, s, ev), e) {
      assert FirstBound(wf, m, s, e);
      ApplyFirstBound(wf, m, s, ev, e);
    }
  }

  lemma ApplyTimeInv(wf: Workflows, m: int, s: State, ev: Event)
    requires NonNegative(wf) && TimeInv(wf, m, s) && ev in s.heap && ev.t == s.lastT
    ensures TimeInv(wf, m, Apply(wf, m, s, ev))
  {
    ApplyInv(wf, m, s, ev);
    ApplyWaits(wf, m, s, ev);
    ApplyFirsts(wf, m, s, ev);
    ApplyWork(wf, m, s, ev, -1);
    ApplyEventsAhead(wf, m, s, ev);
  }

  lemma ApplyEventsAhead(wf: Workflows, m: int, s: State, ev: Event)
    requires NonNegative(wf) && WellFormed(wf, s) && EventsAhead(s) && ev in s.heap && ev.t == s.lastT
    ensures EventsAhead(Apply(wf, m, s, ev))
  {
  }

  lemma {:induction false} InitialSums(wf: Workflows, k: nat, skip: int)
    requires k <= |wf|
    ensures DoneWork(wf, Init(wf), k, skip) == 0.0
  {
    if k > 0 {
      InitialSums(wf, k - 1, skip);
      ProgressIdle(wf, Init(wf), k - 1, true);
    }
  }

  lemma InitTimeInv(wf: Workflows, m: int)
    ensures TimeInv(wf, m, Init(wf))
  {
    var s := Init(wf);
    InitInv(wf, m);
    InitialSums(wf, |wf|, -1);
    TimesAdd(m, 0.0, 0.0);
    forall e | 0 <= e < |wf| ensures WaitBound(wf, m, s, e) && FirstBound(wf, m, s, e) {
      InitialSums(wf, |wf|, e);
      ProgressIdle(wf, s, e, false);
    }
  }

  lemma StepTimeInv(wf: Workflows, m: int, s: State, ev: Event)
    requires NonNegative(wf) && TimeInv(wf, m, s) && IsMin(s.heap, ev) && m >= 0
    ensures TimeInv(wf, m, Step(wf, m, s, ev))
  {
    AdvanceTimeInv(wf, m, s, ev);
    ApplyTimeInv(wf, m, Advance(s, ev), ev);
  }

  /** Every state of every run satisfies the time bounds. */
  lemma {:induction false} RunTimeInv(wf: Workflows, m: int, run: seq<State>, popped: seq<Event>, i: nat)
    requires NonNegative(wf) && IsRun(wf, m, run, popped) && i < |run| && m >= 0
    ensures TimeInv(wf, m, run[i])
  {
    if i == 0 {
      InitTimeInv(wf, m);
    } else {
      RunTimeInv(wf, m, run, popped, i - 1);
      assert IsStep(wf, m, run[i - 1], popped[i - 1], run[i - 1 + 1]);
      StepTimeInv(wf, m, run[i - 1], popped[i - 1]);
    }
  }
}
