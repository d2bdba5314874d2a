/**
 The safety of the finalizer protocol: the status leaves RUNNING at most once, and everything that
 must follow the flip comes from the run that made it.
 */
module CycleSafety {
  import opened CycleProtocol

  function Target(t: Trigger): CycleStatus { if t.MapCompleted? then COMPLETED else TIMEOUT }

  /** The run has won the status flip. */
  predicate PastFlip(pc: Pc) {
    pc.Metric60? || PastMetric(pc) || pc == Done(CompletedOutcome)
  }

  predicate PastMetric(pc: Pc) {
    pc.Requery60? || pc.Publish60? || pc.DeleteRules? || pc == Done(TimeoutApplied)
  }

  predicate PcFits(run: Run) {
    match run.pc
    case MapFlip => run.trigger.MapCompleted?
    case StopSfn | Query60 | Rewrite(_) | Flip60 | Metric60 | Requery60 | Publish60 => run.trigger.Timer60Min?
    case Query30 | SetFlag30 | Metric30 | Publish30 => run.trigger.Timer30Min?
    case DeleteRules(_) => !run.trigger.Timer30Min?
    case Done(CompletedOutcome) => run.trigger.MapCompleted?
    case Done(TimeoutApplied) => run.trigger.Timer60Min?
    case _ => true
  }

  /** What each log entry says about the world. */
  ghost predicate EntryFits(w: World, entry: Entry) {
    match entry
    case Flipped(r, to) =>
      && r < |w.runs| && PastFlip(w.runs[r].pc) && to == Target(w.runs[r].trigger)
      && w.cycle.Some? && w.cycle.value.status == to && w.cycle.value.completedAtSet
    case Emitted(r, CycleTimeout) => r < |w.runs| && PastMetric(w.runs[r].pc) && w.runs[r].trigger.Timer60Min?
    case RuleCall(r) => r < |w.runs| && PastFlip(w.runs[r].pc)
    case _ => true
  }

  predicate TimeoutMetric(entry: Entry) { entry.Emitted? && entry.metric == CycleTimeout }

  ghost predicate Inv(w: World) {
    && (forall r | 0 <= r < |w.runs| :: PcFits(w.runs[r]))
    && (forall r | 0 <= r < |w.runs| && PastFlip(w.runs[r].pc) :: Flipped(r, Target(w.runs[r].trigger)) in w.log)
    && (forall entry | entry in w.log :: EntryFits(w, entry))
    && (forall i, j | 0 <= i < j < |w.log| :: !(w.log[i].Flipped? && w.log[j].Flipped?))
    && (forall i, j | 0 <= i < j < |w.log| :: !(TimeoutMetric(w.log[i]) && TimeoutMetric(w.log[j])))
    && (w.cycle.Some? && w.cycle.value.status != RUNNING ==> exists r :: Flipped(r, w.cycle.value.status) in w.log)
  }

  lemma OneWinner(w: World, r: nat, r': nat)
    requires Inv(w) && r < |w.runs| && r' < |w.runs|
    requires PastFlip(w.runs[r].pc) && PastFlip(w.runs[r'].pc)
    ensures r == r'
  {
    var f, f' := Flipped(r, Target(w.runs[r].trigger)), Flipped(r', Target(w.runs[r'].trigger));
    var i :| 0 <= i < |w.log| && w.log[i] == f;
    var j :| 0 <= j < |w.log| && w.log[j] == f';
  }

  /** A step that neither flips the status nor emits the timeout metric. */
  lemma QuietInv(w: World, w': World, r: nat, pc: Pc, extra: seq<Entry>)
    requires Inv(w) && r < |w.runs|
    requires w'.runs == w.runs[r := w.runs[r].(pc := pc)] && PcFits(w'.runs[r])
    requires PastFlip(w.runs[r].pc) <==> PastFlip(pc)
    requires w.runs[r].trigger.Timer60Min? && PastMetric(w.runs[r].pc) ==> PastMetric(pc)
    requires w'.log == w.log + extra && |extra| <= 1
    requires forall entry | entry in extra :: entry.Stopped? || entry.Notified? || entry == Emitted(r, SlaWarning30Min)
                                            || (entry == RuleCall(r) && PastFlip(pc))
    requires w'.cycle.Some? <==> w.cycle.Some?
    requires w.cycle.Some? ==>
               && w'.cycle.value.status == w.cycle.value.status
               && w'.cycle.value.completedAtSet == w.cycle.value.completedAtSet
    ensures Inv(w')
  {
    forall entry | entry in w'.log ensures EntryFits(w', entry) {
      if entry in w.log { assert EntryFits(w, entry); }
    }
    forall i | |w.log| <= i < |w'.log| ensures !w'.log[i].Flipped? && !TimeoutMetric(w'.log[i]) {
      assert w'.log[i] == extra[i - |w.log|];
      assert w'.log[i] in extra;
    }
    if w'.cycle.Some? && w'.cycle.value.status != RUNNING {
      var r0 :| Flipped(r0, w.cycle.value.status) in w.log;
      assert Flipped(r0, w'.cycle.value.status) in w'.log;
    }
  }

  /** While the cycle is running nobody has won yet. */
  lemma RunningMeansNoFlip(w: World)
    requires Inv(w) && IsRunning(w)
    ensures forall entry | entry in w.log :: !entry.Flipped? && !TimeoutMetric(entry) && !entry.RuleCall?
    ensures forall r | 0 <= r < |w.runs| :: !PastFlip(w.runs[r].pc)
  {
    forall entry | entry in w.log ensures !entry.Flipped? { assert EntryFits(w, entry); }
    forall entry | entry in w.log ensures !TimeoutMetric(entry) && !entry.RuleCall? { assert EntryFits(w, entry); }
  }

  lemma FlipInv(w: World, r: nat, pc: Pc)
    requires Inv(w) && IsRunning(w) && r < |w.runs|
    requires PastFlip(pc) && PcFits(w.runs[r].(pc := pc))
    ensures Inv(At(SetCycleStatus(w, r, Target(w.runs[r].trigger)), r, pc))
  {
    RunningMeansNoFlip(w);
    var to := Target(w.runs[r].trigger);
    var w' := At(SetCycleStatus(w, r, to), r, pc);
    assert Flipped(r, to) in w'.log;
    forall entry | entry in w'.log ensures EntryFits(w', entry) {
      if entry in w.log { assert EntryFits(w, entry); }
    }
  }

  lemma MetricInv(w: World, r: nat)
    requires Inv(w) && r < |w.runs| && w.runs[r].pc == Metric60
    ensures Inv(At(Logged(w, Emitted(r, CycleTimeout)), r, Requery60))
  {
    var w' := At(Logged(w, Emitted(r, CycleTimeout)), r, Requery60);
    forall entry | entry in w.log ensures !TimeoutMetric(entry) {
      if TimeoutMetric(entry) {
        assert EntryFits(w, entry);
        OneWinner(w, r, entry.run);
      }
    }
    forall entry | entry in w'.log ensures EntryFits(w', entry) {
      if entry in w.log { assert EntryFits(w, entry); }
    }
    forall r' | 0 <= r' < |w'.runs| && PastFlip(w'.runs[r'].pc) ensures Flipped(r', Target(w'.runs[r'].trigger)) in w'.log {
      assert Flipped(r', Target(w.runs[r'].trigger)) in w.log;
    }
  }

  lemma FinalizerInv(w: World, r: nat, q: seq<Emp>)
    requires Inv(w) && r < |w.runs| && !w.runs[r].pc.Done? && ListsRows(w.rows, q)
    ensures Inv(FinalizerStep(w, r, q))
  {
    assert PcFits(w.runs[r]);
    match w.runs[r].pc
    case MapFlip | Flip60 => FlipStepInv(w, r, q);
    case Metric60 => MetricInv(w, r);
    case Requery60 => RequeryInv(w, r, q);
    case Begin | Query60 | Query30 => ReadInv(w, r, q);
    case Rewrite(_) => RewriteInv(w, r, q);
    case SetFlag30 => FlagInv(w, r, q);
    case DeleteRules(_) => RuleInv(w, r, q);
    case _ => ReportInv(w, r, q);
  }

  lemma RequeryInv(w: World, r: nat, q: seq<Emp>)
    requires Inv(w) && r < |w.runs| && w.runs[r].pc == Requery60 && PcFits(w.runs[r]) && ListsRows(w.rows, q)
    ensures Inv(FinalizerStep(w, r, q))
  {
    QuietInv(w, FinalizerStep(w, r, q), r, Publish60, []);
  }

  lemma ReadInv(w: World, r: nat, q: seq<Emp>)
    requires Inv(w) && r < |w.runs| && PcFits(w.runs[r]) && ListsRows(w.rows, q)
    requires w.runs[r].pc.Begin? || w.runs[r].pc.Query60? || w.runs[r].pc.Query30?
    ensures Inv(FinalizerStep(w, r, q))
  {
    match w.runs[r].pc
    case Begin => BeginInv(w, r, q);
    case Query60 => Query60Inv(w, r, q);
    case Query30 => Query30Inv(w, r, q);
  }

  lemma Query60Inv(w: World, r: nat, q: seq<Emp>)
    requires Inv(w) && r < |w.runs| && w.runs[r].pc == Query60 && PcFits(w.runs[r]) && ListsRows(w.rows, q)
    ensures Inv(FinalizerStep(w, r, q))
  {
    MoveInv(w, r, FinalizerStep(w, r, q).runs[r].pc);
  }

  lemma Query30Inv(w: World, r: nat, q: seq<Emp>)
    requires Inv(w) && r < |w.runs| && w.runs[r].pc == Query30 && PcFits(w.runs[r]) && ListsRows(w.rows, q)
    ensures Inv(FinalizerStep(w, r, q))
  {
    MoveInv(w, r, FinalizerStep(w, r, q).runs[r].pc);
  }

  /** A run that only moves on, before any flip of its own. */
  lemma MoveInv(w: World, r: nat, pc: Pc)
    requires Inv(w) && r < |w.runs| && PcFits(w.runs[r].(pc := pc))
    requires !PastFlip(w.runs[r].pc) && !PastFlip(pc)
    ensures Inv(At(w, r, pc))
  {
    QuietInv(w, At(w, r, pc), r, pc, []);
  }

  lemma FlipStepInv(w: World, r: nat, q: seq<Emp>)
    requires Inv(w) && r < |w.runs| && PcFits(w.runs[r]) && (w.runs[r].pc.MapFlip? || w.runs[r].pc.Flip60?)
    requires ListsRows(w.rows, q)
    ensures Inv(FinalizerStep(w, r, q))
  {
    var pc' := FinalizerStep(w, r, q).runs[r].pc;
    if IsRunning(w) { FlipInv(w, r, pc'); } else { MoveInv(w, r, pc'); }
  }

  lemma BeginInv(w: World, r: nat, q: seq<Emp>)
    requires Inv(w) && r < |w.runs| && w.runs[r].pc == Begin && ListsRows(w.rows, q)
    ensures Inv(FinalizerStep(w, r, q))
  {
    MoveInv(w, r, FinalizerStep(w, r, q).runs[r].pc);
  }

  lemma RewriteInv(w: World, r: nat, q: seq<Emp>)
    requires Inv(w) && r < |w.runs| && w.runs[r].pc.Rewrite? && PcFits(w.runs[r]) && ListsRows(w.rows, q)
    ensures Inv(FinalizerStep(w, r, q))
  {
    var w' := FinalizerStep(w, r, q);
    QuietInv(w, w', r, w'.runs[r].pc, []);
  }

  lemma FlagInv(w: World, r: nat, q: seq<Emp>)
    requires Inv(w) && r < |w.runs| && w.runs[r].pc == SetFlag30 && PcFits(w.runs[r]) && ListsRows(w.rows, q)
    ensures Inv(FinalizerStep(w, r, q))
  {
    var w' := FinalizerStep(w, r, q);
    QuietInv(w, w', r, w'.runs[r].pc, []);
  }

  lemma RuleInv(w: World, r: nat, q: seq<Emp>)
    requires Inv(w) && r < |w.runs| && w.runs[r].pc.DeleteRules? && PcFits(w.runs[r]) && ListsRows(w.rows, q)
    ensures Inv(FinalizerStep(w, r, q))
  {
    var w' := FinalizerStep(w, r, q);
    QuietInv(w, w', r, w'.runs[r].pc, [RuleCall(r)]);
  }

  lemma ReportInv(w: World, r: nat, q: seq<Emp>)
    requires Inv(w) && r < |w.runs| && PcFits(w.runs[r]) && ListsRows(w.rows, q)
    requires w.runs[r].pc.StopSfn? || w.runs[r].pc.Publish60? || w.runs[r].pc.Publish30? || w.runs[r].pc.Metric30?
    ensures Inv(FinalizerStep(w, r, q))
  {
    var w' := FinalizerStep(w, r, q);
    QuietInv(w, w', r, w'.runs[r].pc, [w'.log[|w.log|]]);
  }

  lemma StepInv(w: World, a: Action)
    requires Inv(w) && Enabled(w, a)
    ensures Inv(Perform(w, a))
  {
    var w' := Perform(w, a);
    if a.Finalize? {
      FinalizerInv(w, a.run, a.listing);
    } else {
      forall entry | entry in w'.log ensures EntryFits(w', entry) { assert EntryFits(w, entry); }
    }
  }

  lemma {:induction false} ExecutionInv(ws: seq<World>, acts: seq<Action>, i: nat)
    requires IsExecution(ws, acts) && i < |ws|
    ensures Inv(ws[i])
  {
    if i > 0 {
      ExecutionInv(ws, acts, i - 1);
      var w, a, w' := ws[i - 1], acts[i - 1], ws[i - 1 + 1];
      assert IsStep(w, a, w');
      StepInv(w, a);
    }
  }

  /**
   The flip is exclusive: over any execution the log holds at most one status flip and at most one
   timeout metric; the metric and every rule removal come from the run that flipped; and the
   stored status is the one that run set.
   */
  lemma OneFlipOneMetric(ws: seq<World>, acts: seq<Action>, k: nat, i: nat, j: nat)
    requires IsExecution(ws, acts) && k < |ws| && i < |ws[k].log| && j < |ws[k].log|
    ensures var log := ws[k].log;
            && (log[i].Flipped? && log[j].Flipped? ==> i == j)
            && (TimeoutMetric(log[i]) && TimeoutMetric(log[j]) ==> i == j)
            && (log[i].Flipped? ==> ws[k].cycle.Some? && ws[k].cycle.value.status == log[i].to && log[i].to != RUNNING)
            && (TimeoutMetric(log[i]) ==> Flipped(log[i].run, TIMEOUT) in log)
            && (log[i].RuleCall? ==> Flipped(log[i].run, COMPLETED) in log || Flipped(log[i].run, TIMEOUT) in log)
  {
    ExecutionInv(ws, acts, k);
    var w := ws[k];
    assert EntryFits(w, w.log[i]) && w.log[i] in w.log;
    if i < j { assert !(w.log[i].Flipped? && w.log[j].Flipped?); }
    if j < i { assert !(w.log[j].Flipped? && w.log[i].Flipped?); }
  }

  /** Once the cycle has left RUNNING its status never changes again. */
  lemma {:induction false} StatusStable(ws: seq<World>, acts: seq<Action>, i: nat, j: nat)
    requires IsExecution(ws, acts) && i <= j < |ws|
    requires ws[i].cycle.Some? && ws[i].cycle.value.status != RUNNING
    ensures ws[j].cycle.Some? && ws[j].cycle.value.status == ws[i].cycle.value.status
    decreases j
  {
    if i < j {
      StatusStable(ws, acts, i, j - 1);
      assert IsStep(ws[j - 1], acts[j - 1], ws[j - 1 + 1]);
    }
  }
}
