/**
 The three handlers of the cycle finalizer, each as the sequence of table calls it makes. A handler
 that is not interrupted is one run of the protocol from its first call to its last.
 */
module CycleFinalizer {
  import opened Wrappers
  import opened VoiceStatuses
  import R = ResponseRows
  import S = CycleSummary
  import opened CycleProtocol
  import opened CycleSweep

  /** The steps of run `r` alone, one after another. */
  ghost predicate IsRun(r: nat, ws: seq<World>, acts: seq<Action>) {
    && |ws| == |acts| + 1
    && forall i {:trigger acts[i]} | 0 <= i < |acts| :: acts[i].Finalize? && acts[i].run == r && IsStep(ws[i], acts[i], ws[i + 1])
  }

  ghost predicate CanRun(r: nat, from: World, to: World) {
    exists ws, acts :: IsRun(r, ws, acts) && ws[0] == from && ws[|acts|] == to
  }

  lemma StayRun(r: nat, w: World)
    ensures CanRun(r, w, w)
  {
    assert IsRun(r, [w], []) && [w][0] == w;
  }

  lemma StepRun(r: nat, from: World, w: World, q: seq<Emp>)
    requires CanRun(r, from, w) && Enabled(w, Finalize(r, q))
    ensures CanRun(r, from, FinalizerStep(w, r, q))
  {
    var ws, acts :| IsRun(r, ws, acts) && ws[0] == from && ws[|acts|] == w;
    var w' := FinalizerStep(w, r, q);
    var ws', acts' := ws + [w'], acts + [Finalize(r, q)];
    forall i {:trigger acts'[i]} | 0 <= i < |acts'|
      ensures acts'[i].Finalize? && acts'[i].run == r && IsStep(ws'[i], acts'[i], ws'[i + 1])
    {
      if i < |acts| { assert acts'[i] == acts[i] && ws'[i] == ws[i] && ws'[i + 1] == ws[i + 1]; }
    }
    assert IsRun(r, ws', acts') && ws'[0] == from && ws'[|acts'|] == w';
  }

  lemma HeadAndTail(todo: seq<Emp>, i: nat)
    requires i < |todo|
    ensures todo[i..] == [todo[i]] + todo[i + 1..]
  {
  }

  /** Every pending or unclassified row becomes unreachable, nothing else changes. */
  function TimedOut(rows: map<Emp, R.Row>): map<Emp, R.Row> {
    map e | e in rows :: if rows[e].voice.Some? && Rewritable(rows[e].voice.value) then rows[e].(voice := Some(Unreachable)) else rows[e]
  }

  /** The rows after the first `n` rewrites. */
  ghost predicate Rewriting(rows0: map<Emp, R.Row>, todo: seq<Emp>, n: nat, rows: map<Emp, R.Row>)
    requires n <= |todo|
  {
    && rows.Keys == rows0.Keys
    && forall e | e in rows0 :: rows[e] == if e in todo[..n] then TimedOut(rows0)[e] else rows0[e]
  }

  lemma RewritingStep(rows0: map<Emp, R.Row>, todo: seq<Emp>, n: nat, rows: map<Emp, R.Row>)
    requires n < |todo| && Rewriting(rows0, todo, n, rows)
    ensures Rewriting(rows0, todo, n + 1, R.UpdateRow(rows, todo[n], R.ForceUnreachable))
  {
    assert todo[..n + 1] == todo[..n] + [todo[n]];
  }

  lemma RewritingDone(rows0: map<Emp, R.Row>, q: seq<Emp>, rows: map<Emp, R.Row>)
    requires ListsRows(rows0, q)
    requires var todo := Ids(S.TimeoutRewrites(Listing(rows0, q))); Rewriting(rows0, todo, |todo|, rows)
    ensures rows == TimedOut(rows0)
  {
    var todo := Ids(S.TimeoutRewrites(Listing(rows0, q)));
    assert todo[..|todo|] == todo;
    forall e | e in rows0 && e !in todo ensures TimedOut(rows0)[e] == rows0[e] {
      assert e in q;
      var i :| 0 <= i < |q| && q[i] == e;
      if S.NeedsRewrite(Listing(rows0, q)[i]) { PendingIsListed(rows0, q, i); }
    }
  }

  class Finalizer {
    var cycle: Option<Cycle>
    var rows: map<Emp, R.Row>
    var log: seq<Entry>
    ghost var runs: seq<Run>

    ghost function View(): World reads this { World(cycle, rows, runs, log) }

    /** Employee identifiers are table keys, hence not empty. */
    ghost predicate Valid() reads this { "" !in rows }

    ghost predicate Started(r: nat, trigger: Trigger) reads this {
      Valid() && r < |runs| && runs[r] == Run(trigger, Begin, false)
    }

    /** Run `r`, which began at `from`, is about to make the call `pc`. */
    ghost predicate AtCall(r: nat, pc: Pc, from: World) reads this {
      r < |runs| && runs[r].pc == pc && !runs[r].crashed && CanRun(r, from, View())
    }

    constructor (cycle: Option<Cycle>, rows: map<Emp, R.Row>)
      requires "" !in rows
      ensures Valid() && View() == World(cycle, rows, [], [])
    {
      this.cycle, this.rows, log, runs := cycle, rows, [], [];
    }

    // --- Table and event calls ------------------------------------------------

    method QueryResponses() returns (q: seq<Emp>)
      ensures ListsRows(rows, q)
    {
      q := [];
      var rest := rows.Keys;
      while rest != {}
        invariant rest <= rows.Keys
        invariant forall e :: e in q <==> e in rows.Keys - rest
        invariant forall i, j | 0 <= i < j < |q| :: q[i] != q[j]
        decreases |rest|
      {
        var e :| e in rest;
        assert e !in q;
        forall i | 0 <= i < |q| ensures q[i] != e { assert q[i] in q; }
        q, rest := q + [e], rest - {e};
      }
    }

    method PutStatus(run: nat, to: CycleStatus) returns (flipped: bool)
      modifies this`cycle, this`log
      ensures flipped == IsRunning(old(View())) && View() == SetCycleStatus(old(View()), run, to)
    {
      flipped := cycle.Some? && cycle.value.status == RUNNING;
      if flipped {
        cycle := Some(cycle.value.(status := to, completedAtSet := true));
        log := log + [Flipped(run, to)];
      }
    }

    method PutSlaFlag() returns (flagged: bool)
      modifies this`cycle
      ensures flagged == IsRunning(old(View())) && View() == SetSlaFlag(old(View()))
    {
      flagged := cycle.Some? && cycle.value.status == RUNNING;
      if flagged { cycle := Some(cycle.value.(slaWarning := true)); }
    }

    method ForceResponseUnreachable(e: Emp)
      modifies this`rows
      ensures rows == R.UpdateRow(old(rows), e, R.ForceUnreachable)
    {
      if e in rows && (rows[e].voice == Some(Pending) || rows[e].voice == Some(Other)) {
        rows := rows[e := rows[e].(voice := Some(Unreachable))];
      }
    }

    method Record(entry: Entry)
      modifies this`log
      ensures View() == Logged(old(View()), entry)
    {
      log := log + [entry];
    }

    /** The run's protocol step has been performed; note where it stands now. */
    ghost method Advance(from: World, r: nat, q: seq<Emp>, before: World)
      requires CanRun(r, from, before) && Enabled(before, Finalize(r, q))
      requires runs == before.runs && At(View(), r, FinalizerStep(before, r, q).runs[r].pc) == FinalizerStep(before, r, q)
      modifies this`runs
      ensures View() == FinalizerStep(before, r, q) && CanRun(r, from, View())
    {
      StepRun(r, from, before, q);
      runs := FinalizerStep(before, r, q).runs;
    }

    method DeleteTimerRules(r: nat, ghost from: World, ghost q: seq<Emp>)
      requires AtCall(r, DeleteRules(0), from) && ListsRows(rows, q)
      modifies this`log, this`runs
      ensures runs == old(runs)[r := old(runs)[r].(pc := Done(if old(runs)[r].trigger.MapCompleted? then CompletedOutcome else TimeoutApplied))]
      ensures log == old(log) + [RuleCall(r), RuleCall(r), RuleCall(r), RuleCall(r)]
      ensures CanRun(r, from, View())
    {
      for k := 0 to RULE_CALLS
        invariant |runs| == |old(runs)| && runs[r].trigger == old(runs)[r].trigger && !runs[r].crashed
        invariant runs == old(runs)[r := runs[r]]
        invariant runs[r].pc == if k < RULE_CALLS then DeleteRules(k)
                                else Done(if runs[r].trigger.MapCompleted? then CompletedOutcome else TimeoutApplied)
        invariant log == old(log) + seq(k, _ => RuleCall(r))
        invariant CanRun(r, from, View())
      {
        ghost var before := View();
        Record(RuleCall(r));
        Advance(from, r, q, before);
      }
    }

    // --- Handlers ---------------------------------------------------------------

    method HandleMapCompleted(r: nat) returns (outcome: Outcome)
      requires Started(r, MapCompleted)
      modifies this`cycle, this`log, this`runs
      ensures CanRun(r, old(View()), View()) && runs == old(runs)[r := Run(MapCompleted, Done(outcome), false)]
      ensures outcome == if exists e :: e in rows && !TerminalRow(rows, e) then Incomplete
                         else if IsRunning(old(View())) then CompletedOutcome else AlreadyTerminal
      ensures cycle == if outcome == CompletedOutcome then Some(old(cycle).value.(status := COMPLETED, completedAtSet := true)) else old(cycle)
      ensures log == old(log) + if outcome == CompletedOutcome then [Flipped(r, COMPLETED)] + [RuleCall(r), RuleCall(r), RuleCall(r), RuleCall(r)] else []
    {
      ghost var from := View();
      var completed := QueryCompletion(r);
      if !completed { return Incomplete; }
      ghost var before := View();
      ghost var keys := QueryResponses();
      var flipped := PutStatus(r, COMPLETED);
      Advance(from, r, keys, before);
      if !flipped { return AlreadyTerminal; }
      DeleteTimerRules(r, from, keys);
      return CompletedOutcome;
    }

    method QueryCompletion(r: nat) returns (completed: bool)
      requires Started(r, MapCompleted)
      modifies this`runs
      ensures completed <==> !exists e :: e in rows && !TerminalRow(rows, e)
      ensures runs == old(runs)[r := Run(MapCompleted, if completed then MapFlip else Done(Incomplete), false)]
      ensures CanRun(r, old(View()), View())
    {
      ghost var from := View();
      StayRun(r, from);
      var q := QueryResponses();
      var listing := Listing(rows, q);
      completed := S.IsCycleCompleted(listing);
      S.Partition(listing);
      forall e | e in rows && completed ensures TerminalRow(rows, e) {
        assert e in q;
        var i :| 0 <= i < |q| && q[i] == e;
        assert listing[i] in listing;
      }
      Advance(from, r, q, from);
    }

    method HandleTimer60Min(r: nat, hasExecutionArn: bool) returns (outcome: Outcome)
      requires Started(r, Timer60Min(hasExecutionArn))
      modifies this
      ensures Valid() && CanRun(r, old(View()), View())
      ensures runs == old(runs)[r := Run(Timer60Min(hasExecutionArn), Done(outcome), false)]
      ensures outcome == if IsRunning(old(View())) then TimeoutApplied else NoOp
      ensures outcome == NoOp ==> rows == old(rows) && cycle == old(cycle) && log == old(log)
      ensures outcome == TimeoutApplied ==>
                && rows == TimedOut(old(rows))
                && cycle == Some(old(cycle).value.(status := TIMEOUT, completedAtSet := true))
                && log == old(log) + (if hasExecutionArn then [Stopped(r)] else [])
                          + [Flipped(r, TIMEOUT), Emitted(r, CycleTimeout), Notified(r)]
                          + [RuleCall(r), RuleCall(r), RuleCall(r), RuleCall(r)]
    {
      ghost var from := View();
      var running := ReadCycle(r);
      if !running { return NoOp; }
      if hasExecutionArn { StopExecution(r, from); }
      SweepRows(r, from);
      CloseCycle(r, from);
      return TimeoutApplied;
    }

    /** The read both timers begin with. */
    method ReadCycle(r: nat) returns (running: bool)
      requires Valid() && r < |runs| && runs[r].pc == Begin && !runs[r].crashed && !runs[r].trigger.MapCompleted?
      modifies this`runs
      ensures running == IsRunning(old(View())) && CanRun(r, old(View()), View())
      ensures runs == old(runs)[r := old(runs)[r].(pc := if !running then Done(NoOp)
                                                         else if old(runs)[r].trigger.Timer30Min? then Query30
                                                         else if old(runs)[r].trigger.hasExecutionArn then StopSfn else Query60)]
    {
      ghost var from := View();
      StayRun(r, from);
      ghost var keys := QueryResponses();
      Advance(from, r, keys, from);
      return cycle.Some? && cycle.value.status == RUNNING;
    }

    method StopExecution(r: nat, ghost from: World)
      requires Valid() && AtCall(r, StopSfn, from)
      modifies this`log, this`runs
      ensures log == old(log) + [Stopped(r)] && runs == old(runs)[r := old(runs)[r].(pc := Query60)]
      ensures CanRun(r, from, View())
    {
      ghost var before := View();
      ghost var keys := QueryResponses();
      Record(Stopped(r));
      Advance(from, r, keys, before);
    }

    /** The flip to TIMEOUT by a run that nobody interrupts, and what follows it. */
    method CloseCycle(r: nat, ghost from: World)
      requires AtCall(r, Flip60, from) && runs[r].trigger.Timer60Min? && IsRunning(View())
      modifies this`cycle, this`log, this`runs
      ensures runs == old(runs)[r := old(runs)[r].(pc := Done(TimeoutApplied))] && CanRun(r, from, View())
      ensures cycle == Some(old(cycle).value.(status := TIMEOUT, completedAtSet := true))
      ensures log == old(log) + [Flipped(r, TIMEOUT), Emitted(r, CycleTimeout), Notified(r)]
                     + [RuleCall(r), RuleCall(r), RuleCall(r), RuleCall(r)]
    {
      ghost var before := View();
      ghost var keys := QueryResponses();
      var flipped := PutStatus(r, TIMEOUT);
      Advance(from, r, keys, before);
      Announce(r, from, keys);
    }

    /** The query of the sweep, and the rewrites it asks for. */
    method ListRewrites(r: nat, ghost from: World) returns (ghost q: seq<Emp>, rewrites: seq<(Emp, Status)>)
      requires Valid() && AtCall(r, Query60, from)
      modifies this`runs
      ensures ListsRows(rows, q) && rewrites == S.TimeoutRewrites(Listing(rows, q))
      ensures runs == old(runs)[r := old(runs)[r].(pc := AfterRewrites(Ids(rewrites)))] && CanRun(r, from, View())
    {
      var listed := QueryResponses();
      var listing := Listing(rows, listed);
      var answer := S.ApplyTimeout(listing);
      forall j | 0 <= j < |listing| ensures !S.Unaddressable(listing[j]) { assert listed[j] in listed; }
      q, rewrites := listed, answer.value;
      Advance(from, r, q, View());
    }

    method SweepRows(r: nat, ghost from: World)
      requires Valid() && AtCall(r, Query60, from)
      modifies this`rows, this`runs
      ensures Valid() && rows == TimedOut(old(rows))
      ensures CanRun(r, from, View()) && runs == old(runs)[r := old(runs)[r].(pc := Flip60)]
    {
      var q, rewrites := ListRewrites(r, from);
      ghost var todo := Ids(rewrites);
      for i := 0 to |rewrites|
        invariant |runs| == |old(runs)| && runs == old(runs)[r := old(runs)[r].(pc := AfterRewrites(todo[i..]))]
        invariant Rewriting(old(rows), todo, i, rows)
        invariant CanRun(r, from, View())
      {
        RewritingStep(old(rows), todo, i, rows);
        HeadAndTail(todo, i);
        RewriteNext(r, rewrites[i].0, todo[i + 1..], from, q);
      }
      RewritingDone(old(rows), q, rows);
    }

    method RewriteNext(r: nat, e: Emp, ghost rest: seq<Emp>, ghost from: World, ghost q: seq<Emp>)
      requires AtCall(r, Rewrite([e] + rest), from) && ListsRows(rows, q)
      modifies this`rows, this`runs
      ensures rows == R.UpdateRow(old(rows), e, R.ForceUnreachable)
      ensures runs == old(runs)[r := old(runs)[r].(pc := AfterRewrites(rest))] && CanRun(r, from, View())
    {
      ghost var before := View();
      ForceResponseUnreachable(e);
      Advance(from, r, q, before);
    }

    method Announce(r: nat, ghost from: World, ghost q: seq<Emp>)
      requires AtCall(r, Metric60, from) && runs[r].trigger.Timer60Min? && ListsRows(rows, q)
      modifies this`log, this`runs
      ensures runs == old(runs)[r := old(runs)[r].(pc := Done(TimeoutApplied))] && CanRun(r, from, View())
      ensures log == old(log) + [Emitted(r, CycleTimeout), Notified(r)] + [RuleCall(r), RuleCall(r), RuleCall(r), RuleCall(r)]
    {
      ghost var before := View();
      Record(Emitted(r, CycleTimeout));
      Advance(from, r, q, before);
      Advance(from, r, q, View());
      before := View();
      Record(Notified(r));
      Advance(from, r, q, before);
      DeleteTimerRules(r, from, q);
    }

    method HandleTimer30Min(r: nat) returns (outcome: Outcome)
      requires Started(r, Timer30Min)
      modifies this`cycle, this`log, this`runs
      ensures CanRun(r, old(View()), View()) && runs == old(runs)[r := Run(Timer30Min, Done(outcome), false)]
      ensures outcome == if !IsRunning(old(View())) then NoOp
                         else if exists e :: e in rows && R.OrZero(rows[e].attempts) == 0 then WarningApplied
                         else NoWarningNeeded
      ensures cycle == if outcome == WarningApplied then Some(old(cycle).value.(slaWarning := true)) else old(cycle)
      ensures log == old(log) + if outcome == WarningApplied then [Emitted(r, SlaWarning30Min), Notified(r)] else []
    {
      ghost var from := View();
      var running := ReadCycle(r);
      if !running { return NoOp; }
      var incomplete := QueryFirstDispatch(r, from);
      if !incomplete { return NoWarningNeeded; }
      Warn(r, from);
      return WarningApplied;
    }

    method QueryFirstDispatch(r: nat, ghost from: World) returns (incomplete: bool)
      requires AtCall(r, Query30, from)
      modifies this`runs
      ensures incomplete <==> exists e :: e in rows && R.OrZero(rows[e].attempts) == 0
      ensures runs == old(runs)[r := old(runs)[r].(pc := if incomplete then SetFlag30 else Done(NoWarningNeeded))]
      ensures CanRun(r, from, View())
    {
      var q := QueryResponses();
      var listing := Listing(rows, q);
      var answer := S.IsFirstDispatchIncomplete(listing);
      Undispatched(q, answer);
      incomplete := answer.value;
      Advance(from, r, q, View());
    }

    method Warn(r: nat, ghost from: World)
      requires AtCall(r, SetFlag30, from) && IsRunning(View())
      modifies this`cycle, this`log, this`runs
      ensures runs == old(runs)[r := old(runs)[r].(pc := Done(WarningApplied))] && CanRun(r, from, View())
      ensures cycle == Some(old(cycle).value.(slaWarning := true))
      ensures log == old(log) + [Emitted(r, SlaWarning30Min), Notified(r)]
    {
      ghost var before := View();
      ghost var q := QueryResponses();
      var flagged := PutSlaFlag();
      Advance(from, r, q, before);
      before := View();
      Record(Emitted(r, SlaWarning30Min));
      Advance(from, r, q, before);
      before := View();
      Record(Notified(r));
      Advance(from, r, q, before);
    }

    lemma Undispatched(q: seq<Emp>, incomplete: Result<bool, S.TypeError>)
      requires ListsRows(rows, q)
      requires var l := Listing(rows, q);
        && (incomplete == Ok(false) <==> forall i | 0 <= i < |l| :: !l[i].attempts.Malformed? && !S.NeverDispatched(l[i]))
        && (incomplete == Ok(true) <==> exists i :: 0 <= i < |l| && S.NeverDispatched(l[i])
                                         && forall j | 0 <= j < i :: !l[j].attempts.Malformed?)
      ensures incomplete == Ok(exists i :: 0 <= i < |q| && S.NeverDispatched(Listing(rows, q)[i]))
      ensures incomplete == Ok(exists e :: e in rows && R.OrZero(rows[e].attempts) == 0)
    {
      var l := Listing(rows, q);
      if e :| e in rows && R.OrZero(rows[e].attempts) == 0 {
        assert e in q;
        var i :| 0 <= i < |q| && q[i] == e;
        assert S.NeverDispatched(l[i]);
      }
      forall i | 0 <= i < |q| && S.NeverDispatched(l[i]) ensures q[i] in rows && R.OrZero(rows[q[i]].attempts) == 0 {
        assert q[i] in q;
      }
    }
  }
}
