/** The replay loop itself, and what it returns. */
module Scheduler {
  import opened Wrappers
  import opened SchedulerModel
  import opened SchedulerSafety
  import opened SchedulerBounds
  import opened SchedulerOrder

// --- What the replay returns --------------------------------------------------------

  datatype Outcome =
    | Finished(startTime: seq<Option<real>>, completion: seq<Option<real>>, firstDone: seq<Option<real>>,
               peak: int, totalTime: real)
    | Deadlock(parked: nat, active: int)

  /**
   The bounds on one employee: it completes no earlier than its own phases take, and no later than
   that plus the others' dispatch work divided by the number of slots; the same holds for the end
   of its first dispatch.
   */
  ghost predicate CompletesInTime(wf: Workflows, m: int, r: Outcome, e: nat)
    requires r.Finished? && m >= 1 && e < |wf| == |r.completion| == |r.firstDone|
  {
    var slack := DispatchTotal(wf, |wf|, e) / (m as real);
    var k := FirstDispatch(wf[e]);
    && r.completion[e].Some?
    && OwnTime(wf[e]) <= r.completion[e].value <= OwnTime(wf[e]) + slack
    && r.completion[e].value <= r.totalTime
    && (r.firstDone[e].Some? <==> k < |wf[e]|)
    && (k < |wf[e]| ==>
          PrefixSum(wf[e], k + 1, false) <= r.firstDone[e].value <= PrefixSum(wf[e], k + 1, false) + slack)
  }

  function OutcomeOf(s: State): Outcome {
    if s.parked != [] then Deadlock(|s.parked|, s.active)
    else Finished(s.startTime, s.completion, s.firstDone, s.peak, s.lastT)
  }

  lemma DivideBound(m: int, x: real, y: real)
    requires m >= 1 && Times(m, x) <= y
    ensures x <= y / (m as real)
  {
    var mr := m as real;
    TimesIsProduct(m, x);
    assert mr * (y / mr) == y;
  }

  lemma EmployeeInTime(wf: Workflows, m: int, run: seq<State>, popped: seq<Event>, e: nat)
    requires NonNegative(wf) && m >= 1 && e < |wf|
    requires IsRun(wf, m, run, popped) && run[|popped|].heap == {}
    ensures var r := OutcomeOf(run[|popped|]);
            && r.Finished? && |r.completion| == |r.firstDone| == |wf|
            && CompletesInTime(wf, m, r, e)
  {
    var s := run[|popped|];
    DeadlockIff(wf, m, run, popped);
    RunTimeInv(wf, m, run, popped, |popped|);
    assert WaitBound(wf, m, s, e) && FirstBound(wf, m, s, e);
    DivideBound(m, s.completion[e].value - OwnTime(wf[e]), DispatchTotal(wf, |wf|, e));
    var k := FirstDispatch(wf[e]);
    if s.firstDone[e].Some? {
      DivideBound(m, s.firstDone[e].value - PrefixSum(wf[e], k + 1, false), DispatchTotal(wf, |wf|, e));
    }
  }

  lemma {:induction false} AllWorkDone(wf: Workflows, s: State, k: nat)
    requires Sized(wf, s) && s.heap == {} && k <= |wf|
    requires forall e | 0 <= e < |wf| :: s.phaseIdx[e] == |wf[e]|
    ensures DoneWork(wf, s, k, -1) == DispatchTotal(wf, k, -1)
  {
    if k > 0 {
      AllWorkDone(wf, s, k - 1);
      ProgressIdle(wf, s, k - 1, true);
    }
  }

  /** The whole replay takes at least all the dispatch work divided by the number of slots. */
  lemma TotalTimeBound(wf: Workflows, m: int, run: seq<State>, popped: seq<Event>)
    requires NonNegative(wf) && m >= 1
    requires IsRun(wf, m, run, popped) && run[|popped|].heap == {}
    ensures DispatchTotal(wf, |wf|, -1) / (m as real) <= run[|popped|].lastT
  {
    var s := run[|popped|];
    DeadlockIff(wf, m, run, popped);
    RunTimeInv(wf, m, run, popped, |popped|);
    AllWorkDone(wf, s, |wf|);
    DivideLower(m, DispatchTotal(wf, |wf|, -1), s.lastT);
  }

  lemma DivideLower(m: int, w: real, t: real)
    requires m >= 1 && w <= Times(m, t)
    ensures w / (m as real) <= t
  {
    var mr := m as real;
    TimesIsProduct(m, t);
    assert mr * (w / mr) == w;
  }

  /** The clock stands at the time of the last event popped, and popped times never decrease. */
  lemma {:induction false} PoppedInOrder(wf: Workflows, m: int, run: seq<State>, popped: seq<Event>, i: nat, j: nat)
    requires NonNegative(wf) && IsRun(wf, m, run, popped) && m >= 0 && i <= j < |popped|
    ensures popped[i].t == run[i + 1].lastT && popped[i].t <= popped[j].t
    decreases j
  {
    ClockAtPopped(wf, m, run, popped, i);
    if i < j {
      PoppedInOrder(wf, m, run, popped, i, j - 1);
      ClockAtPopped(wf, m, run, popped, j - 1);
      ClockAtPopped(wf, m, run, popped, j);
    }
  }

  lemma ClockAtPopped(wf: Workflows, m: int, run: seq<State>, popped: seq<Event>, i: nat)
    requires NonNegative(wf) && IsRun(wf, m, run, popped) && m >= 0 && i < |popped|
    ensures run[i].lastT <= popped[i].t == run[i + 1].lastT
  {
    RunTimeInv(wf, m, run, popped, i);
    var s, ev, s' := run[i], popped[i], run[i + 1];
    assert IsStep(wf, m, s, ev, s');
    assert EventsAhead(s) && ev in s.heap;
  }

  lemma InitNotEmpty(wf: Workflows)
    requires wf != []
    ensures Init(wf).heap != {}
  {
    var all := seq(|wf|, i => i);
    assert Event(0.0, 0 + 1 + 0, all[0], NextPhase) in Init(wf).heap;
  }

  /** The reported time is the completion time of some employee. */
  lemma TotalTimeAttained(wf: Workflows, m: int, run: seq<State>, popped: seq<Event>)
    requires NonNegative(wf) && m >= 1 && wf != []
    requires IsRun(wf, m, run, popped) && run[|popped|].heap == {}
    ensures exists e :: 0 <= e < |wf| == |run[|popped|].completion| && run[|popped|].completion[e] == Some(run[|popped|].lastT)
  {
    var s := run[|popped|];
    DeadlockIff(wf, m, run, popped);
    if |popped| == 0 {
      InitNotEmpty(wf);
      assert false;
    } else {
      var i := |popped| - 1;
      RunTimeInv(wf, m, run, popped, i);
      assert IsStep(wf, m, run[i], popped[i], run[i + 1]);
      LastStep(wf, m, run[i], popped[i]);
    }
  }

  lemma LastStep(wf: Workflows, m: int, s: State, ev: Event)
    requires WellFormed(wf, s) && EventsAhead(s) && IsMin(s.heap, ev)
    requires Step(wf, m, s, ev).heap == {} && Step(wf, m, s, ev).parked == []
    ensures var s' := Step(wf, m, s, ev); |s'.completion| == |wf| && s'.completion[ev.emp] == Some(s'.lastT)
  {
  }

  /** What the list is seeded with: employee `e` is the one pushed after `e` others. */
  function Seed(e: nat): Event { Event(0.0, e + 1, e, NextPhase) }

  lemma SeedsAreQueued(wf: Workflows)
    ensures Init(wf).heap == set e | 0 <= e < |wf| :: Seed(e)
  {
    var all := seq(|wf|, i => i);
    forall e | 0 <= e < |wf| ensures Seed(e) in Init(wf).heap { assert Event(0.0, 0 + 1 + e, all[e], NextPhase) in Init(wf).heap; }
    forall ev | ev in Init(wf).heap ensures exists e :: 0 <= e < |wf| && ev == Seed(e) {
      var i :| 0 <= i < |wf| && ev == Event(0.0, 0 + 1 + i, all[i], NextPhase);
      assert ev == Seed(i);
    }
  }

  /** The variables of the replay, updated in place by the loop and its event handlers. */
  class Simulation {
    const wf: Workflows
    const maxConcurrency: int
    var heap: set<Event>
    var seqCounter: nat
    var parked: seq<nat>
    var active: int
    var peak: int
    var lastT: real
    var phaseIdx: seq<nat>
    var startTime: seq<Option<real>>
    var completion: seq<Option<real>>
    var firstDone: seq<Option<real>>

    ghost function View(): State
      reads this
    {
      State(heap, seqCounter, parked, active, peak, lastT, phaseIdx, startTime, completion, firstDone)
    }

    constructor (wf: Workflows, maxConcurrency: int)
      ensures this.wf == wf && this.maxConcurrency == maxConcurrency
      ensures View() == Init(wf) && heap == set e | 0 <= e < |wf| :: Seed(e)
    {
      this.wf, this.maxConcurrency := wf, maxConcurrency;
      heap, seqCounter, parked, active, peak, lastT := {}, 0, [], 0, 0, 0.0;
      phaseIdx, startTime := seq(|wf|, _ => 0), seq(|wf|, _ => None);
      completion, firstDone := seq(|wf|, _ => None), seq(|wf|, _ => None);
      new;
      ghost var all, empty := seq(|wf|, i => i), View();
      for e := 0 to |wf|
        invariant View() == empty.(seqCounter := e, heap := WakeEvents(all[..e], 0, 0.0))
      {
        PushEvent(0.0, e, NextPhase);
        WakeOneMore(all, e, 0, 0.0);
      }
      assert all[..|wf|] == all;
      SeedsAreQueued(wf);
    }

    method PushEvent(t: real, emp: nat, action: Action)
      modifies this
      ensures View() == Push(old(View()), t, emp, action)
    {
      seqCounter := seqCounter + 1;
      heap := heap + {Event(t, seqCounter, emp, action)};
    }

    method OnNextPhase(ev: Event)
      requires WellFormed(wf, View()) && ev.emp < |wf|
      modifies this
      ensures View() == ApplyNextPhase(wf, maxConcurrency, old(View()), ev)
    {
      var e := ev.emp;
      if phaseIdx[e] >= |wf[e]| {
        completion := completion[e := Some(ev.t)];
      } else if wf[e][phaseIdx[e]].Dispatch? {
        if active < maxConcurrency {
          active := active + 1;
          peak := Max(peak, active);
          if startTime[e] == None { startTime := startTime[e := Some(ev.t)]; }
          PushEvent(ev.t + wf[e][phaseIdx[e]].duration, e, EndDispatch);
        } else {
          parked := parked + [e];
        }
      } else {
        PushEvent(ev.t + wf[e][phaseIdx[e]].duration, e, EndWait);
      }
    }

    /** Wake employees while slots remain; since waking takes no slot, it is all of them or none. */
    method WakeParked(t: real)
      modifies this
      ensures View() == if old(active) < maxConcurrency then WakeAll(old(View()), t) else old(View())
    {
      ghost var s1, woken: nat := View(), 0;
      while parked != [] && active < maxConcurrency
        invariant woken <= |s1.parked| && (woken > 0 ==> active < maxConcurrency)
        invariant View() == s1.(parked := s1.parked[woken..], seqCounter := s1.seqCounter + woken,
                                heap := s1.heap + WakeEvents(s1.parked[..woken], s1.seqCounter, t))
        decreases |parked|
      {
        PushEvent(t, parked[0], NextPhase);
        parked := parked[1..];
        WakeOneMore(s1.parked, woken, s1.seqCounter, t);
        woken := woken + 1;
      }
      assert s1.parked[..|s1.parked|] == s1.parked;
    }

    method OnEndDispatch(ev: Event)
      requires WellFormed(wf, View()) && ev.emp < |wf|
      modifies this
      ensures View() == ApplyEndDispatch(wf, maxConcurrency, old(View()), ev)
    {
      ghost var s0, e := View(), ev.emp;
      active := active - 1;
      if firstDone[ev.emp] == None { firstDone := firstDone[ev.emp := Some(ev.t)]; }
      phaseIdx := phaseIdx[ev.emp := phaseIdx[ev.emp] + 1];
      assert View() == s0.(active := s0.active - 1,
                           firstDone := s0.firstDone[e := FirstTime(s0.firstDone[e], ev.t)],
                           phaseIdx := s0.phaseIdx[e := s0.phaseIdx[e] + 1]);
      WakeParked(ev.t);
      PushEvent(ev.t, ev.emp, NextPhase);
    }

    method OnEndWait(ev: Event)
      requires WellFormed(wf, View()) && ev.emp < |wf|
      modifies this
      ensures View() == ApplyEndWait(wf, old(View()), ev)
    {
      phaseIdx := phaseIdx[ev.emp := phaseIdx[ev.emp] + 1];
      PushEvent(ev.t, ev.emp, NextPhase);
    }

    /** One iteration: pop the least event and handle it. */
    method Iterate() returns (ghost ev: Event)
      requires Inv(wf, maxConcurrency, View()) && heap != {}
      modifies this
      ensures IsStep(wf, maxConcurrency, old(View()), ev, View())
    {
      MinExists(heap);
      var next :| IsMin(heap, next);
      heap := heap - {next};
      lastT := MaxReal(lastT, next.t);
      match next.action {
        case NextPhase => OnNextPhase(next);
        case EndDispatch => OnEndDispatch(next);
        case EndWait => OnEndWait(next);
      }
      ev := next;
    }
  }

  /**
   The replay loop. Its state after every iteration is the next state of a run, so everything
   proved of runs holds of it; in particular it ends.
   */
  method SimulateWorkflows(wf: Workflows, maxConcurrency: int)
    returns (r: Outcome, ghost run: seq<State>, ghost popped: seq<Event>)
    ensures IsRun(wf, maxConcurrency, run, popped) && run[|popped|].heap == {}
    ensures r == OutcomeOf(run[|popped|])
    ensures OutcomeFits(wf, maxConcurrency, r)
  {
    var sim := new Simulation(wf, maxConcurrency);
    run, popped := [sim.View()], [];
    InitInv(wf, maxConcurrency);
    while sim.heap != {}
      invariant sim.wf == wf && sim.maxConcurrency == maxConcurrency
      invariant IsRun(wf, maxConcurrency, run, popped) && run[|popped|] == sim.View()
      invariant Inv(wf, maxConcurrency, sim.View())
      decreases Remaining(wf, sim.View(), |wf|), |Ready(sim.heap)|
    {
      ghost var s := sim.View();
      ghost var ev := sim.Iterate();
      Progresses(wf, maxConcurrency, s, ev);
      ExtendRun(wf, maxConcurrency, run, popped, ev, sim.View());
      run, popped := run + [sim.View()], popped + [ev];
    }
    if sim.parked != [] {
      r := Deadlock(|sim.parked|, sim.active);
    } else {
      r := Finished(sim.startTime, sim.completion, sim.firstDone, sim.peak, sim.lastT);
    }
    Summary(wf, maxConcurrency, run, popped);
  }

  ghost predicate OutcomeFits(wf: Workflows, m: int, r: Outcome) {
    && (r.Deadlock? <==> m <= 0 && exists e :: 0 <= e < |wf| && HasDispatch(wf[e]))
    && (r.Finished? ==>
          && |r.startTime| == |r.completion| == |r.firstDone| == |wf| && r.peak <= Max(m, 0)
          && forall e | 0 <= e < |wf| :: FirstDispatchFits(wf, r, e))
    && (NonNegative(wf) && m >= 1 ==>
          && (forall e | 0 <= e < |wf| :: CompletesInTime(wf, m, r, e))
          && (forall e, f | 0 <= e < f < |wf| && StartsWithDispatch(wf[e]) && StartsWithDispatch(wf[f]) :: NoLater(r, e, f))
          && DispatchTotal(wf, |wf|, -1) / (m as real) <= r.totalTime
          && (wf != [] ==> exists e :: 0 <= e < |wf| && r.completion[e] == Some(r.totalTime)))
  }

  /** `e` is first dialled no later than `f`. */
  predicate NoLater(r: Outcome, e: nat, f: nat)
    requires r.Finished? && e < |r.startTime| && f < |r.startTime|
  {
    r.startTime[e].Some? && r.startTime[f].Some? && r.startTime[e].value <= r.startTime[f].value
  }

  /** Whoever has a dispatch is dialled, and its first dispatch ends its duration after it started. */
  ghost predicate FirstDispatchFits(wf: Workflows, r: Outcome, e: nat)
    requires r.Finished? && e < |wf| == |r.startTime| == |r.firstDone|
  {
    var k := FirstDispatch(wf[e]);
    && (r.startTime[e].Some? <==> HasDispatch(wf[e]))
    && (r.firstDone[e].Some? <==> HasDispatch(wf[e]))
    && (k < |wf[e]| && r.startTime[e].Some? ==> r.firstDone[e] == Some(r.startTime[e].value + wf[e][k].duration))
  }

  lemma FirstDispatchAtEnd(wf: Workflows, m: int, run: seq<State>, popped: seq<Event>, e: nat)
    requires IsRun(wf, m, run, popped) && run[|popped|].heap == {} && run[|popped|].parked == [] && e < |wf|
    ensures var r := OutcomeOf(run[|popped|]); |r.startTime| == |r.firstDone| == |wf| && FirstDispatchFits(wf, r, e)
  {
    RunInv(wf, m, run, popped, |popped|);
    DeadlockIff(wf, m, run, popped);
    RunFirstFits(wf, m, run, popped, |popped|, e);
    var k := FirstDispatch(wf[e]);
    assert k < |wf[e]| <==> HasDispatch(wf[e]);
  }

  lemma Summary(wf: Workflows, m: int, run: seq<State>, popped: seq<Event>)
    requires IsRun(wf, m, run, popped) && run[|popped|].heap == {}
    ensures OutcomeFits(wf, m, OutcomeOf(run[|popped|]))
  {
    var r := OutcomeOf(run[|popped|]);
    RunInv(wf, m, run, popped, |popped|);
    DeadlockIff(wf, m, run, popped);
    if r.Finished? {
      forall e | 0 <= e < |wf| ensures FirstDispatchFits(wf, r, e) { FirstDispatchAtEnd(wf, m, run, popped, e); }
    }
    if NonNegative(wf) && m >= 1 {
      forall e, f | 0 <= e < f < |wf| && StartsWithDispatch(wf[e]) && StartsWithDispatch(wf[f])
        ensures NoLater(r, e, f)
      {
        assert HasDispatch(wf[e]) && HasDispatch(wf[f]);
        assert FirstDispatchFits(wf, r, e) && FirstDispatchFits(wf, r, f);
        DialledInListOrder(wf, m, run, popped, |popped|, e, f);
      }
      forall e | 0 <= e < |wf| ensures CompletesInTime(wf, m, r, e) {
        EmployeeInTime(wf, m, run, popped, e);
      }
      TotalTimeBound(wf, m, run, popped);
      if wf != [] { TotalTimeAttained(wf, m, run, popped); }
    }
  }
}
