/**
 Which cycle an incoming call belongs to. The decision compares timestamps as strings but tests the
 reception window on instants. The instant of a timestamp enters it as a function `time`, of which
 the laws say what they need.
 */
module InboundSelection {
  import opened Wrappers
  import opened Strings
  import opened Timestamps

  datatype Status = RUNNING | COMPLETED | TIMEOUT | START_FAILED | Unknown(raw: string)

  datatype Cycle = Cycle(id: string, status: Status, startedAt: string, completedAt: Option<string>)

  datatype Flow = NOT_REGISTERED | ACTIVE_CYCLE | CYCLE_TERMINATED | NO_CYCLE

  datatype DecisionError = BadWindow | BadCycle

  datatype Decision = Decision(flow: Flow, cycleId: Option<string>)

  // --- The decision ---------------------------------------------------------------

  datatype Group = Running | CompletedRecently | TerminatedRecently

  const DAY_MICROS := 86_400_000_000

  predicate WithinWindow(time: string -> int, c: Cycle, now: int, days: int) {
    c.completedAt.Some? && time(c.completedAt.value) + days * DAY_MICROS >= now
  }

  predicate InGroup(time: string -> int, c: Cycle, g: Group, now: int, days: int) {
    match g
    case Running => c.status.RUNNING?
    case CompletedRecently => c.status.COMPLETED? && WithinWindow(time, c, now, days)
    case TerminatedRecently => (c.status.TIMEOUT? || c.status.START_FAILED?) && WithinWindow(time, c, now, days)
  }

  function Select(time: string -> int, cs: seq<Cycle>, g: Group, now: int, days: int): seq<Cycle> {
    if cs == [] then []
    else
      var last := cs[|cs| - 1];
      Select(time, cs[..|cs| - 1], g, now, days) + if InGroup(time, last, g, now, days) then [last] else []
  }

  /** The timestamp a group is compared by. */
  function KeyText(c: Cycle, g: Group): string {
    if g.Running? then c.startedAt else if c.completedAt.Some? then c.completedAt.value else ""
  }

  /** The maximum by string comparison; of equal ones the first. */
  function SelectLatest(cs: seq<Cycle>, g: Group): Option<Cycle> {
    if cs == [] then None
    else
      var best, last := SelectLatest(cs[..|cs| - 1], g), cs[|cs| - 1];
      if best.None? || Less(KeyText(best.value, g), KeyText(last, g)) then Some(last) else best
  }

  function LatestIn(time: string -> int, cs: seq<Cycle>, g: Group, now: int, days: int): Option<Cycle> {
    SelectLatest(Select(time, cs, g, now, days), g)
  }

  function Decide(time: string -> int, cs: seq<Cycle>, now: int, days: int): Decision {
    var running := LatestIn(time, cs, Running, now, days);
    if running.Some? then Decision(ACTIVE_CYCLE, Some(running.value.id))
    else
      var completed := LatestIn(time, cs, CompletedRecently, now, days);
      if completed.Some? then Decision(ACTIVE_CYCLE, Some(completed.value.id))
      else
        var terminated := LatestIn(time, cs, TerminatedRecently, now, days);
        if terminated.Some? then Decision(CYCLE_TERMINATED, Some(terminated.value.id))
        else Decision(NO_CYCLE, None)
  }

  const MIN_WINDOW_DAYS := 1
  const MAX_WINDOW_DAYS := 365

  /** The record has an identifier, a known status, and the timestamps its status requires. */
  predicate ValidRecord(c: Cycle) {
    && c.id != "" && !c.status.Unknown? && Parse(c.startedAt).Some?
    && (!c.status.RUNNING? ==> c.completedAt.Some? && Parse(c.completedAt.value).Some?)
  }

  function DecideInboundFlow(matched: bool, cs: seq<Cycle>, now: int, days: int): Result<Decision, DecisionError> {
    if !(MIN_WINDOW_DAYS <= days <= MAX_WINDOW_DAYS) then Err(BadWindow)
    else if !matched then Ok(Decision(NOT_REGISTERED, None))
    else if exists i :: 0 <= i < |cs| && !ValidRecord(cs[i]) then Err(BadCycle)
    else Ok(Decide(TimeOf, cs, now, days))
  }
}
