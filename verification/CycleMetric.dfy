/**
 The timeout metric: when it is in the log, and how it is lost. A run emits it in the step after its
 flip, so a run that stops between the two leaves a cycle that has timed out without the metric.
 */
module CycleMetric {
  import opened Wrappers
  import opened CycleProtocol
  import opened CycleSafety

  /** A timer run that has gone past the metric has emitted it. */
  ghost predicate MetricLogged(w: World) {
    forall r | 0 <= r < |w.runs| && w.runs[r].trigger.Timer60Min? && PastMetric(w.runs[r].pc) :: Emitted(r, CycleTimeout) in w.log
  }

  /** The log only grows, and a run comes past the metric only by emitting it. */
  lemma StepLog(w: World, a: Action, r: nat)
    requires Enabled(w, a) && r < |w.runs| && PcFits(w.runs[r])
    ensures var w' := Perform(w, a); r < |w'.runs| && w'.runs[r].trigger == w.runs[r].trigger
    ensures forall entry | entry in w.log :: entry in Perform(w, a).log
    ensures var w' := Perform(w, a);
            w.runs[r].trigger.Timer60Min? && !PastMetric(w.runs[r].pc) && PastMetric(w'.runs[r].pc)
            ==> Emitted(r, CycleTimeout) in w'.log
  {
    if a.Finalize? && a.run == r { OwnStepLog(w, r, a.listing); }
  }

  lemma OwnStepLog(w: World, r: nat, q: seq<Emp>)
    requires r < |w.runs| && !w.runs[r].pc.Done? && ListsRows(w.rows, q) && PcFits(w.runs[r])
    ensures var w' := FinalizerStep(w, r, q);
            w.runs[r].trigger.Timer60Min? && !PastMetric(w.runs[r].pc) && PastMetric(w'.runs[r].pc)
            ==> Emitted(r, CycleTimeout) in w'.log
  {
    if w.runs[r].pc.Metric60? {
      var entry := Emitted(r, CycleTimeout);
      assert (w.log + [entry])[|w.log|] == entry;
    }
  }

  lemma {:induction false} ExecutionLogs(ws: seq<World>, acts: seq<Action>, k: nat)
    requires IsExecution(ws, acts) && k < |ws|
    ensures MetricLogged(ws[k])
  {
    if k > 0 {
      ExecutionLogs(ws, acts, k - 1);
      ExecutionInv(ws, acts, k - 1);
      assert IsStep(ws[k - 1], acts[k - 1], ws[k - 1 + 1]);
      StepLogged(ws[k - 1], acts[k - 1]);
    }
  }

  lemma StepLogged(w: World, a: Action)
    requires Enabled(w, a) && Inv(w) && MetricLogged(w)
    ensures MetricLogged(Perform(w, a))
  {
    var w' := Perform(w, a);
    forall r | 0 <= r < |w'.runs| && w'.runs[r].trigger.Timer60Min? && PastMetric(w'.runs[r].pc)
      ensures Emitted(r, CycleTimeout) in w'.log
    {
      if r < |w.runs| { StepLog(w, a, r); }
    }
  }

  /**
   Exactly when the metric of a timed-out cycle has been emitted: the run that made the flip is no
   longer about to emit it.
   */
  lemma EmittedIff(ws: seq<World>, acts: seq<Action>, k: nat, r: nat)
    requires IsExecution(ws, acts) && k < |ws| && Flipped(r, TIMEOUT) in ws[k].log
    ensures r < |ws[k].runs|
    ensures Emitted(r, CycleTimeout) in ws[k].log <==> ws[k].runs[r].pc != Metric60
  {
    ExecutionInv(ws, acts, k);
    ExecutionLogs(ws, acts, k);
    var w := ws[k];
    assert EntryFits(w, Flipped(r, TIMEOUT)) && PcFits(w.runs[r]);
    if Emitted(r, CycleTimeout) in w.log { assert EntryFits(w, Emitted(r, CycleTimeout)); }
  }

  /** A crashed run stays where it is. */
  lemma {:induction false} CrashedStays(ws: seq<World>, acts: seq<Action>, i: nat, j: nat, r: nat)
    requires IsExecution(ws, acts) && i <= j < |ws| && r < |ws[i].runs| && ws[i].runs[r].crashed
    ensures r < |ws[j].runs| && ws[j].runs[r] == ws[i].runs[r]
    decreases j
  {
    if i < j {
      CrashedStays(ws, acts, i, j - 1, r);
      assert IsStep(ws[j - 1], acts[j - 1], ws[j - 1 + 1]);
    }
  }

  /** A run that stops between its flip and its metric leaves the cycle without the metric for ever. */
  lemma MetricLost(ws: seq<World>, acts: seq<Action>, i: nat, j: nat, r: nat)
    requires IsExecution(ws, acts) && i <= j < |ws|
    requires r < |ws[i].runs| && ws[i].runs[r].crashed && ws[i].runs[r].pc == Metric60
    ensures Flipped(r, TIMEOUT) in ws[j].log && forall entry | entry in ws[j].log :: !TimeoutMetric(entry)
  {
    CrashedStays(ws, acts, i, j, r);
    ExecutionInv(ws, acts, j);
    var w := ws[j];
    assert PcFits(w.runs[r]);
    forall entry | entry in w.log ensures !TimeoutMetric(entry) {
      assert EntryFits(w, entry);
      if TimeoutMetric(entry) { OneWinner(w, r, entry.run); }
    }
  }

  const START := World(Some(Cycle(RUNNING, false, false)), map[], [], [])

  function TimerRun(pc: Pc, crashed: bool): Run { Run(Timer60Min(false), pc, crashed) }

  /** Such an execution exists: a timer run on a cycle without rows that stops right after its flip. */
  lemma MetricCanBeLost() returns (ws: seq<World>, acts: seq<Action>)
    ensures IsExecution(ws, acts) && ws[|acts|].cycle == Some(Cycle(TIMEOUT, true, false))
    ensures |ws[|acts|].runs| == 1 && ws[|acts|].runs[0].crashed && ws[|acts|].runs[0].pc == Metric60
  {
    var stopped := Cycle(TIMEOUT, true, false);
    acts := [Launch(Timer60Min(false)), Finalize(0, []), Finalize(0, []), Finalize(0, []), Crash(0)];
    ws := [START, START.(runs := [TimerRun(Begin, false)]), START.(runs := [TimerRun(Query60, false)]),
      START.(runs := [TimerRun(Flip60, false)]),
      World(Some(stopped), map[], [TimerRun(Metric60, false)], [Flipped(0, TIMEOUT)]),
      World(Some(stopped), map[], [TimerRun(Metric60, true)], [Flipped(0, TIMEOUT)])];
    assert Ids([]) == [];
    forall i {:trigger acts[i]} | 0 <= i < |acts| ensures IsStep(ws[i], acts[i], ws[i + 1]) { }
  }
}
