/**
 The end of a cycle as a protocol. Any number of finalizer runs (map completion, 30-minute timer,
 60-minute timer, each possibly delivered several times) interleave with each other and with the
 writers of the Response rows. Every step is one atomic call; a run may also crash at any point.
 */
module CycleProtocol {
  import opened Wrappers
  import opened VoiceStatuses
  import R = ResponseRows
  import S = CycleSummary

  type Emp = string

  datatype CycleStatus = RUNNING | COMPLETED | TIMEOUT

  datatype Cycle = Cycle(status: CycleStatus, completedAtSet: bool, slaWarning: bool)

  datatype Trigger = MapCompleted | Timer30Min | Timer60Min(hasExecutionArn: bool)

  datatype Outcome = NoOp | Incomplete | CompletedOutcome | AlreadyTerminal | TimeoutApplied | NoWarningNeeded | WarningApplied

  /** The call a run makes next. */
  datatype Pc =
    | Begin
    | MapFlip
    | StopSfn | Query60 | Rewrite(todo: seq<Emp>) | Flip60 | Metric60 | Requery60 | Publish60
    | Query30 | SetFlag30 | Metric30 | Publish30
    | DeleteRules(callsMade: nat)
    | Done(outcome: Outcome)

  datatype Run = Run(trigger: Trigger, pc: Pc, crashed: bool)

  datatype Metric = SlaWarning30Min | CycleTimeout

  /** What the outside world sees, in order. */
  datatype Entry =
    | Flipped(run: nat, to: CycleStatus)
    | Stopped(run: nat)
    | Emitted(run: nat, metric: Metric)
    | Notified(run: nat)
    | RuleCall(run: nat)

  datatype World = World(cycle: Option<Cycle>, rows: map<Emp, R.Row>, runs: seq<Run>, log: seq<Entry>)

  // --- Queries ----------------------------------------------------------------

  /** `q` lists every row's key once. */
  ghost predicate ListsRows(rows: map<Emp, R.Row>, q: seq<Emp>) {
    && (forall e :: e in q <==> e in rows)
    && (forall i, j | 0 <= i < j < |q| :: q[i] != q[j])
  }

  function AsListed(e: Emp, row: R.Row): S.Listed {
    S.Listed(Some(e), row.voice, if row.attempts.Some? then S.Number(row.attempts.value) else S.Missing)
  }

  function Listing(rows: map<Emp, R.Row>, q: seq<Emp>): (l: seq<S.Listed>)
    requires forall e | e in q :: e in rows
    ensures |l| == |q| && forall i | 0 <= i < |q| :: l[i] == AsListed(q[i], rows[q[i]])
  {
    seq(|q|, i requires 0 <= i < |q| => AsListed(q[i], rows[q[i]]))
  }

  function Ids(rewrites: seq<(string, Status)>): seq<Emp> {
    seq(|rewrites|, i requires 0 <= i < |rewrites| => rewrites[i].0)
  }

  // --- The finalizer's steps ------------------------------------------------------

  predicate IsRunning(w: World) { w.cycle.Some? && w.cycle.value.status == RUNNING }

  function At(w: World, r: nat, pc: Pc): World
    requires r < |w.runs|
  {
    w.(runs := w.runs[r := w.runs[r].(pc := pc)])
  }

  function Logged(w: World, entry: Entry): World { w.(log := w.log + [entry]) }

  /** The guarded status write: it takes effect only while the cycle is running. */
  function SetCycleStatus(w: World, r: nat, to: CycleStatus): World {
    if IsRunning(w) then Logged(w.(cycle := Some(w.cycle.value.(status := to, completedAtSet := true))), Flipped(r, to))
    else w
  }

  function SetSlaFlag(w: World): World {
    if IsRunning(w) then w.(cycle := Some(w.cycle.value.(slaWarning := true))) else w
  }

  function AfterRewrites(todo: seq<Emp>): Pc { if todo == [] then Flip60 else Rewrite(todo) }

  const RULE_CALLS := 4

  /** The next call of run `r`; `q` is the order in which a query lists the rows. */
  function FinalizerStep(w: World, r: nat, q: seq<Emp>): World
    requires r < |w.runs| && !w.runs[r].pc.Done?
    requires forall e | e in q :: e in w.rows
  {
    match w.runs[r].pc
    case Begin =>
      (match w.runs[r].trigger
       case MapCompleted => At(w, r, if S.CountPending(Listing(w.rows, q)) == 0 then MapFlip else Done(Incomplete))
       case Timer30Min => At(w, r, if IsRunning(w) then Query30 else Done(NoOp))
       case Timer60Min(arn) => At(w, r, if !IsRunning(w) then Done(NoOp) else if arn then StopSfn else Query60))
    case MapFlip =>
      At(SetCycleStatus(w, r, COMPLETED), r, if IsRunning(w) then DeleteRules(0) else Done(AlreadyTerminal))
    case StopSfn => At(Logged(w, Stopped(r)), r, Query60)
    case Query60 => At(w, r, AfterRewrites(Ids(S.TimeoutRewrites(Listing(w.rows, q)))))
    case Rewrite(todo) =>
      if todo == [] then At(w, r, Flip60)
      else At(w.(rows := R.UpdateRow(w.rows, todo[0], R.ForceUnreachable)), r, AfterRewrites(todo[1..]))
    case Flip60 => At(SetCycleStatus(w, r, TIMEOUT), r, if IsRunning(w) then Metric60 else Done(AlreadyTerminal))
    case Metric60 => At(Logged(w, Emitted(r, CycleTimeout)), r, Requery60)
    case Requery60 => At(w, r, Publish60)
    case Publish60 => At(Logged(w, Notified(r)), r, DeleteRules(0))
    case Query30 =>
      At(w, r, if exists i :: 0 <= i < |q| && S.NeverDispatched(Listing(w.rows, q)[i]) then SetFlag30 else Done(NoWarningNeeded))
    case SetFlag30 => At(SetSlaFlag(w), r, if IsRunning(w) then Metric30 else Done(NoOp))
    case Metric30 => At(Logged(w, Emitted(r, SlaWarning30Min)), r, Publish30)
    case Publish30 => At(Logged(w, Notified(r)), r, Done(WarningApplied))
    case DeleteRules(k) =>
      At(Logged(w, RuleCall(r)), r,
         if k + 1 < RULE_CALLS then DeleteRules(k + 1)
         else Done(if w.runs[r].trigger.MapCompleted? then CompletedOutcome else TimeoutApplied))
    case Done(_) => w
  }

  // --- Executions ----------------------------------------------------------------

  datatype Action =
    | Finalize(run: nat, listing: seq<Emp>)
    | Write(emp: Emp, update: R.Update)
    | Launch(trigger: Trigger)
    | Crash(run: nat)
    | CreateCycle

  ghost predicate Enabled(w: World, a: Action) {
    match a
    case Finalize(r, q) => r < |w.runs| && !w.runs[r].crashed && !w.runs[r].pc.Done? && ListsRows(w.rows, q)
    case Write(_, u) => !u.ForceUnreachable?
    case Launch(_) => true
    case Crash(r) => r < |w.runs|
    case CreateCycle => w.cycle.None?
  }

  ghost function Perform(w: World, a: Action): World
    requires Enabled(w, a)
  {
    match a
    case Finalize(r, q) => FinalizerStep(w, r, q)
    case Write(e, u) => w.(rows := R.UpdateRow(w.rows, e, u))
    case Launch(t) => w.(runs := w.runs + [Run(t, Begin, false)])
    case Crash(r) => w.(runs := w.runs[r := w.runs[r].(crashed := true)])
    case CreateCycle => w.(cycle := Some(Cycle(RUNNING, false, false)))
  }

  /** Before any finalizer run: no cycle yet, or a running one. */
  predicate Fresh(w: World) {
    w.runs == [] && w.log == [] && (w.cycle.Some? ==> w.cycle.value.status == RUNNING)
  }

  ghost predicate IsStep(w: World, a: Action, w': World) { Enabled(w, a) && w' == Perform(w, a) }

  ghost predicate IsExecution(ws: seq<World>, acts: seq<Action>) {
    && |ws| == |acts| + 1
    && Fresh(ws[0])
    && forall i {:trigger acts[i]} | 0 <= i < |acts| :: IsStep(ws[i], acts[i], ws[i + 1])
  }
}
