/**
 One Response row and the conditional and unconditional updates that seven writers make to it.
 Each update is one atomic table call, so a history of a row is a sequence of updates in any
 order, with any duplicates.
 */
module ResponseRows {
  import opened Wrappers
  import opened VoiceStatuses

  datatype CallCode = Recorded | NoAnswer | Busy | Voicemail | CallError | TranscribeFailed

  /** Attributes may be missing; `inbound` is the length of the list of inbound result codes. */
  datatype Row = Row(
    voice: Option<Status>,
    code: Option<CallCode>,
    attempts: Option<nat>,
    inbound: Option<nat>)

  datatype Update =
    | InitAttempt
    | DispatchSuccess
    | DispatchError
    | CallEnd(code: CallCode)
    | TranscribeFailure
    | Classify(status: Status)
    | ClassifyFallback
    | InboundPut
    | InboundAppend
    | FinalizeOne(status: Status)
    | ForceUnreachable

  const EmptyRow := Row(None, None, None, None)

  /** An update of a missing row starts from the bare key. */
  function Existing(row: Option<Row>): Row {
    if row.Some? then row.value else EmptyRow
  }

  function OrZero(n: Option<nat>): nat { if n.Some? then n.value else 0 }

  /** The condition expression of each update; updates without one always hold. */
  predicate Allowed(row: Option<Row>, u: Update) {
    match u
    case InitAttempt => row.None?
    case InboundPut => row.None?
    case DispatchError => Existing(row).code.None?
    case CallEnd(_) => Existing(row).code.None?
    case TranscribeFailure => Existing(row).code == Some(Recorded)
    case ForceUnreachable => Existing(row).voice == Some(Pending) || Existing(row).voice == Some(Other)
    case _ => true
  }

  /** The effect of an update whose condition holds. */
  function Effect(row: Option<Row>, u: Update): Row {
    var r := Existing(row);
    match u
    case InitAttempt => Row(Some(Pending), None, Some(0), None)
    case InboundPut => Row(Some(Pending), None, Some(0), Some(0))
    case DispatchSuccess => r.(attempts := Some(OrZero(r.attempts) + 1))
    case DispatchError => r.(code := Some(CallError), attempts := Some(OrZero(r.attempts) + 1))
    case CallEnd(c) => r.(code := Some(c))
    case TranscribeFailure => r.(code := Some(TranscribeFailed))
    case Classify(v) => r.(voice := Some(v))
    case ClassifyFallback => r.(voice := Some(Other))
    case InboundAppend => r.(inbound := Some(OrZero(r.inbound) + 1))
    case FinalizeOne(v) => r.(voice := Some(v))
    case ForceUnreachable => r.(voice := Some(Unreachable))
  }

  function Apply(row: Option<Row>, u: Update): Option<Row> {
    if Allowed(row, u) then Some(Effect(row, u)) else row
  }

  /** The update as a call on the table; a condition that fails leaves the table alone. */
  function UpdateRow(rows: map<string, Row>, e: string, u: Update): map<string, Row> {
    var row := Apply(if e in rows then Some(rows[e]) else None, u);
    if row.Some? then rows[e := row.value] else rows
  }

  /** The row after a history of updates that begins with no row. */
  function Replay(h: seq<Update>): Option<Row> {
    if h == [] then None else Apply(Replay(h[..|h| - 1]), h[|h| - 1])
  }
}
