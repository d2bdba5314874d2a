/**
 One employee's branch of a cycle: dial, record the result, classify a recording, then either wait
 and dial again or store the final status. The phases it records feed the replay of the scheduler.
 */
module RetryLoop {
  import opened Wrappers
  import opened VoiceStatuses
  import R = ResponseRows
  import opened SchedulerModel
  import B = SchedulerBounds
  import Scheduler

  // --- The retry decision -------------------------------------------------------

  datatype LoopError = InvalidStatus | LoopExhausted

  function ShouldRetry(status: Status, attempts: nat, retryCount: nat): Result<bool, LoopError> {
    if status.Unrecognised? then Err(InvalidStatus)
    else if Confirmed(status) || status.Unreachable? then Ok(false)
    else Ok(attempts < retryCount)
  }

  function DeriveFinalStatus(status: Status): Result<Status, LoopError> {
    if status.Unrecognised? then Err(InvalidStatus)
    else if Confirmed(status) then Ok(status)
    else Ok(Unreachable)
  }

  // --- What a call leads to -------------------------------------------------------

  /** The outcome of one call; `status` is the classification of the transcript of a recorded one. */
  datatype Call = Call(code: R.CallCode, status: Status)

  predicate Possible(c: Call) {
    !c.code.TranscribeFailed? && (Confirmed(c.status) || c.status.Other?)
  }

  predicate Answers(c: Call) { c.code.Recorded? && Confirmed(c.status) }

  const RETRY_INTERVAL_SEC := 300.0
  const TRANSCRIBE_SEC := 45.0
  const LONGEST_CALL_SEC := 50.0

  function DispatchSeconds(code: R.CallCode): real
    requires !code.TranscribeFailed?
  {
    match code
    case Recorded => 50.0
    case NoAnswer => 35.0
    case Busy => 5.0
    case Voicemail => 25.0
    case CallError => 5.0
  }

  function CallPhases(c: Call): seq<Phase>
    requires Possible(c)
  {
    [Dispatch(DispatchSeconds(c.code))] + if c.code.Recorded? then [WaitTranscribe(TRANSCRIBE_SEC)] else []
  }

  /** The phases of the first `n` calls, with a wait between two calls. */
  function Phases(calls: seq<Call>, n: nat): seq<Phase>
    requires n <= |calls| && forall c | c in calls :: Possible(c)
  {
    if n == 0 then []
    else Phases(calls, n - 1) + (if n == 1 then [] else [WaitInterval(RETRY_INTERVAL_SEC)]) + CallPhases(calls[n - 1])
  }

  /** The status the row shows after `n` calls: the last classification, or what it held before. */
  function SeenStatus(first: Option<R.Row>, calls: seq<Call>, n: nat): Status
    requires n <= |calls|
  {
    if n == 0 then (var v := R.Existing(first).voice; if v.Some? then v.value else Pending)
    else if calls[n - 1].code.Recorded? then calls[n - 1].status
    else SeenStatus(first, calls, n - 1)
  }

  /** The loop ends after `n` calls. */
  ghost predicate StopsAt(first: Option<R.Row>, calls: seq<Call>, retryCount: nat, n: nat) {
    && 1 <= n <= |calls|
    && (forall k | 1 <= k < n :: ShouldRetry(SeenStatus(first, calls, k), k, retryCount) == Ok(true))
    && ShouldRetry(SeenStatus(first, calls, n), n, retryCount) != Ok(true)
  }

  // --- The loop ----------------------------------------------------------------------

  class ResponseTable {
    var rows: map<string, R.Row>

    method Update(e: string, u: R.Update)
      modifies this
      ensures rows == R.UpdateRow(old(rows), e, u)
    {
      var row := if e in rows then Some(rows[e]) else None;
      if R.Allowed(row, u) { rows := rows[e := R.Effect(row, u)]; }
    }
  }

  function Find(rows: map<string, R.Row>, e: string): Option<R.Row> { if e in rows then Some(rows[e]) else None }

  /** The row after one more call: dialled, result stored if none was, recording classified. */
  function OneCall(row: Option<R.Row>, c: Call): R.Row {
    var r := if row.Some? then row.value else R.Row(Some(Pending), None, Some(0), None);
    R.Row(if c.code.Recorded? then Some(c.status) else r.voice,
          if r.code.Some? then r.code else Some(c.code),
          Some(R.OrZero(r.attempts) + 1),
          r.inbound)
  }

  function RowAfter(first: Option<R.Row>, calls: seq<Call>, n: nat): Option<R.Row>
    requires n <= |calls|
  {
    if n == 0 then first else Some(OneCall(RowAfter(first, calls, n - 1), calls[n - 1]))
  }

  /**
   The attempt counter has grown by the number of calls, the result code is the first call's unless
   one was stored before, and the status shown is that of the last classification.
   */
  lemma {:induction false} RowAfterExact(first: Option<R.Row>, calls: seq<Call>, n: nat)
    requires 1 <= n <= |calls|
    ensures var before, r := R.Existing(first), RowAfter(first, calls, n).value;
      && r.attempts == Some(R.OrZero(before.attempts) + n)
      && r.code == (if before.code.Some? then before.code else Some(calls[0].code))
      && r.inbound == before.inbound
      && (if r.voice.Some? then r.voice.value else Pending) == SeenStatus(first, calls, n)
  {
    if n > 1 { RowAfterExact(first, calls, n - 1); }
  }

  function StatusOf(row: R.Row): Status { if row.voice.Some? then row.voice.value else Pending }

  method PlaceCall(table: ResponseTable, e: string, call: Call) returns (phases: seq<Phase>, status: Status)
    requires Possible(call)
    modifies table
    ensures table.rows == old(table.rows)[e := OneCall(Find(old(table.rows), e), call)]
    ensures phases == CallPhases(call) && status == StatusOf(OneCall(Find(old(table.rows), e), call))
  {
    table.Update(e, R.InitAttempt);
    table.Update(e, R.DispatchSuccess);
    phases := [Dispatch(DispatchSeconds(call.code))];
    table.Update(e, R.CallEnd(call.code));
    if call.code.Recorded? {
      phases := phases + [WaitTranscribe(TRANSCRIBE_SEC)];
      table.Update(e, R.Classify(call.status));
    }
    status := if table.rows[e].voice.Some? then table.rows[e].voice.value else Pending;
  }

  /** The table between two attempts of an employee: only its row has changed. */
  ghost predicate After(before: map<string, R.Row>, now: map<string, R.Row>, e: string, calls: seq<Call>, n: nat)
    requires n <= |calls|
  {
    now == if n == 0 then before else before[e := RowAfter(Find(before, e), calls, n).value]
  }

  method Attempt(table: ResponseTable, e: string, calls: seq<Call>, attempt: nat, ghost before: map<string, R.Row>)
    returns (phases: seq<Phase>, status: Status)
    requires 1 <= attempt <= |calls| && Possible(calls[attempt - 1]) && After(before, table.rows, e, calls, attempt - 1)
    modifies table
    ensures After(before, table.rows, e, calls, attempt)
    ensures phases == CallPhases(calls[attempt - 1]) && status == SeenStatus(Find(before, e), calls, attempt)
  {
    phases, status := PlaceCall(table, e, calls[attempt - 1]);
    RowAfterExact(Find(before, e), calls, attempt);
  }

  /** The decision lets the loop go on after each of the first `n` calls. */
  ghost predicate GoesOn(first: Option<R.Row>, calls: seq<Call>, retryCount: nat, n: nat)
    requires n <= |calls|
  {
    forall k | 1 <= k <= n :: ShouldRetry(SeenStatus(first, calls, k), k, retryCount) == Ok(true)
  }

  /** The row at the end, with its final status. */
  function FinalRow(first: Option<R.Row>, calls: seq<Call>, n: nat): R.Row
    requires 1 <= n <= |calls| && DeriveFinalStatus(SeenStatus(first, calls, n)).Ok?
  {
    RowAfter(first, calls, n).value.(voice := Some(DeriveFinalStatus(SeenStatus(first, calls, n)).value))
  }

  /**
   What the loop leaves of a table, and returns: it stops by its decision after `n` calls, an unknown status
   is an error, and otherwise the row is final and the phases are those of the calls.
   */
  ghost predicate LoopFits(before: map<string, R.Row>, now: map<string, R.Row>, e: string, retryCount: nat, calls: seq<Call>,
                           r: Result<seq<Phase>, LoopError>, n: nat)
    requires forall c | c in calls :: Possible(c)
  {
    var first := Find(before, e);
    && StopsAt(first, calls, retryCount, n)
    && (r == Err(InvalidStatus) <==> SeenStatus(first, calls, 1).Unrecognised?)
    && r != Err(LoopExhausted)
    && (r.Err? ==> After(before, now, e, calls, n))
    && (r.Ok? ==>
          && r.value == Phases(calls, n) && InTurn(r.value, calls, n) && IsLoopResult(r.value, retryCount)
          && DeriveFinalStatus(SeenStatus(first, calls, n)).Ok?
          && now == before[e := FinalRow(first, calls, n)])
  }

  lemma LoopResult(first: Option<R.Row>, calls: seq<Call>, retryCount: nat, n: nat)
    requires |calls| == retryCount + 1 && (forall c | c in calls :: Possible(c)) && StopsAt(first, calls, retryCount, n)
    ensures IsLoopResult(Phases(calls, n), retryCount) && InTurn(Phases(calls, n), calls, n)
  {
    var at := PhasesInTurn(calls, n);
  }

  /** The decision after call `n` is not to go on: the status is unknown, or the row has been made final. */
  lemma LoopStops(before: map<string, R.Row>, now: map<string, R.Row>, e: string, retryCount: nat, calls: seq<Call>,
                  r: Result<seq<Phase>, LoopError>, n: nat)
    requires |calls| == retryCount + 1 && 1 <= n <= |calls| && forall c | c in calls :: Possible(c)
    requires var first := Find(before, e);
      && GoesOn(first, calls, retryCount, n - 1) && ShouldRetry(SeenStatus(first, calls, n), n, retryCount) != Ok(true)
      && if SeenStatus(first, calls, n).Unrecognised? then r == Err(InvalidStatus) && After(before, now, e, calls, n)
         else r == Ok(Phases(calls, n)) && now == before[e := FinalRow(first, calls, n)]
    ensures LoopFits(before, now, e, retryCount, calls, r, n)
  {
    var first := Find(before, e);
    assert StopsAt(first, calls, retryCount, n);
    UnknownOnlyAtFirst(first, calls, retryCount, n);
    LoopResult(first, calls, retryCount, n);
  }

  method StoreFinal(table: ResponseTable, e: string, calls: seq<Call>, n: nat, status: Status, ghost before: map<string, R.Row>)
    requires 1 <= n <= |calls| && After(before, table.rows, e, calls, n)
    requires status == SeenStatus(Find(before, e), calls, n) && !status.Unrecognised?
    modifies table
    ensures table.rows == before[e := FinalRow(Find(before, e), calls, n)]
  {
    table.Update(e, R.FinalizeOne(DeriveFinalStatus(status).value));
  }

  /** After a call that may happen the status is known; so an unknown one is met at the first call or never. */
  lemma UnknownOnlyAtFirst(first: Option<R.Row>, calls: seq<Call>, retryCount: nat, n: nat)
    requires 1 <= n <= |calls| && GoesOn(first, calls, retryCount, n - 1) && forall c | c in calls :: Possible(c)
    ensures SeenStatus(first, calls, n).Unrecognised? <==> SeenStatus(first, calls, 1).Unrecognised?
  {
    assert calls[n - 1] in calls;
    if n > 1 {
      assert ShouldRetry(SeenStatus(first, calls, 1), 1, retryCount) == Ok(true);
      assert ShouldRetry(SeenStatus(first, calls, n - 1), n - 1, retryCount) == Ok(true);
    }
  }

  /** The loop is to place call `k + 1`, with `phases` behind it. */
  ghost predicate Going(before: map<string, R.Row>, now: map<string, R.Row>, e: string, retryCount: nat, calls: seq<Call>,
                        phases: seq<Phase>, k: nat)
    requires k <= |calls| && forall c | c in calls :: Possible(c)
  {
    && GoesOn(Find(before, e), calls, retryCount, k)
    && After(before, now, e, calls, k)
    && phases == Phases(calls, k) + if k == 0 then [] else [WaitInterval(RETRY_INTERVAL_SEC)]
  }

  lemma PhasesStep(calls: seq<Call>, phases: seq<Phase>, k: nat)
    requires k < |calls| && forall c | c in calls :: Possible(c)
    requires phases == Phases(calls, k) + if k == 0 then [] else [WaitInterval(RETRY_INTERVAL_SEC)]
    ensures calls[k] in calls && phases + CallPhases(calls[k]) == Phases(calls, k + 1)
  {
  }

  method RunOneEmployee(table: ResponseTable, e: string, retryCount: nat, calls: seq<Call>)
    returns (r: Result<seq<Phase>, LoopError>, ghost n: nat)
    requires |calls| == retryCount + 1 && forall c | c in calls :: Possible(c)
    modifies table
    ensures LoopFits(old(table.rows), table.rows, e, retryCount, calls, r, n)
  {
    var phases: seq<Phase> := [];
    ghost var before := table.rows;
    n := 0;
    for attempt := 1 to retryCount + 2
      invariant attempt <= 1 || attempt <= retryCount
      invariant Going(before, table.rows, e, retryCount, calls, phases, attempt - 1)
    {
      PhasesStep(calls, phases, attempt - 1);
      var callPhases, status := Attempt(table, e, calls, attempt, before);
      phases := phases + callPhases;
      n := attempt;
      var retry := ShouldRetry(status, attempt, retryCount);
      if retry.Err? {
        r := Err(InvalidStatus);
        LoopStops(before, table.rows, e, retryCount, calls, r, n);
        return;
      }
      if !retry.value {
        StoreFinal(table, e, calls, attempt, status, before);
        r := Ok(phases);
        LoopStops(before, table.rows, e, retryCount, calls, r, n);
        return;
      }
      phases := phases + [WaitInterval(RETRY_INTERVAL_SEC)];
    }
    assert false;
    return Err(LoopExhausted), n;
  }

  // --- What the loop guarantees ---------------------------------------------------------

  lemma {:induction false} SeenBefore(first: Option<R.Row>, calls: seq<Call>, n: nat)
    requires n <= |calls| && forall c | c in calls :: Possible(c)
    requires !Rewritable(SeenStatus(first, calls, n))
    ensures (n > 0 && Answers(calls[n - 1]))
         || (n > 0 && !calls[n - 1].code.Recorded? && !Rewritable(SeenStatus(first, calls, n - 1)))
         || (n == 0 && first.Some? && first.value.voice.Some? && !Rewritable(first.value.voice.value))
  {
    if n > 0 { assert calls[n - 1] in calls; }
  }

  /**
   For every row the loop may start from and every sequence of outcomes, unless the row is already
   decided and the first call is not recorded: at most max(1, retryCount) calls are made; the final
   status is that of the first answered call among them, which is then the last call; without one it
   is UNREACHABLE and the budget is used up.
   */
  lemma FinalStatusIsFirstAnswer(first: Option<R.Row>, calls: seq<Call>, retryCount: nat, n: nat)
    requires |calls| == retryCount + 1 && forall c | c in calls :: Possible(c)
    requires StopsAt(first, calls, retryCount, n) && (Rewritable(SeenStatus(first, calls, 0)) || calls[0].code.Recorded?)
    ensures n <= Max(1, retryCount)
    ensures forall i | 0 <= i < n - 1 :: !Answers(calls[i])
    ensures var final := DeriveFinalStatus(SeenStatus(first, calls, n));
            final.Ok? && Terminal(final.value) &&
            final.value == if Answers(calls[n - 1]) then calls[n - 1].status else Unreachable
    ensures Answers(calls[n - 1]) || n == Max(1, retryCount)
  {
    forall i | 0 <= i < n - 1 ensures !Answers(calls[i]) {
      assert ShouldRetry(SeenStatus(first, calls, i + 1), i + 1, retryCount) == Ok(true);
    }
    if n > 1 { assert ShouldRetry(SeenStatus(first, calls, n - 1), n - 1, retryCount) == Ok(true); }
    if !Rewritable(SeenStatus(first, calls, n)) { SeenBefore(first, calls, n); }
    assert calls[n - 1] in calls;
  }

  /** A row that already holds a terminal status is kept unless the one call made is recorded. */
  lemma TerminalRowIsKept(first: R.Row, calls: seq<Call>, retryCount: nat, n: nat)
    requires |calls| == retryCount + 1 && first.voice.Some? && Terminal(first.voice.value)
    requires StopsAt(Some(first), calls, retryCount, n) && !calls[0].code.Recorded?
    ensures n == 1 && DeriveFinalStatus(SeenStatus(Some(first), calls, n)) == Ok(first.voice.value)
  {
    assert SeenStatus(Some(first), calls, 0) == SeenStatus(Some(first), calls, 1) == first.voice.value;
    assert ShouldRetry(SeenStatus(Some(first), calls, 1), 1, retryCount) == Ok(false);
  }

  // --- The phases, and the deadline of a whole cycle ----------------------------------------

  lemma {:induction false} SumAppend(ps: seq<Phase>, qs: seq<Phase>, dispatchOnly: bool)
    ensures B.PrefixSum(ps + qs, |ps + qs|, dispatchOnly) == B.PrefixSum(ps, |ps|, dispatchOnly) + B.PrefixSum(qs, |qs|, dispatchOnly)
  {
    if qs == [] {
      assert ps + qs == ps;
    } else {
      var qs0 := qs[..|qs| - 1];
      SumAppend(ps, qs0, dispatchOnly);
      PrefixOf(ps + qs, ps + qs0, |ps| + |qs0|, dispatchOnly);
      PrefixOf(qs, qs0, |qs0|, dispatchOnly);
    }
  }

  lemma {:induction false} PrefixOf(ps: seq<Phase>, qs: seq<Phase>, k: nat, dispatchOnly: bool)
    requires k <= |ps| && k <= |qs| && ps[..k] == qs[..k]
    ensures B.PrefixSum(ps, k, dispatchOnly) == B.PrefixSum(qs, k, dispatchOnly)
  {
    if k > 0 {
      assert ps[..k - 1] == ps[..k][..k - 1] && qs[..k - 1] == qs[..k][..k - 1];
      assert ps[k - 1] == ps[..k][k - 1] && qs[k - 1] == qs[..k][k - 1];
      PrefixOf(ps, qs, k - 1, dispatchOnly);
    }
  }

  // --- What the phases are ------------------------------------------------------------------

  /** The phases one call adds: the dispatch, and the transcription of a recorded one. */
  function Added(c: Call): nat { if c.code.Recorded? then 2 else 1 }

  /** Call `k` was placed at position `p`, and its transcription awaited right after it exactly if it was recorded. */
  ghost predicate DialledAt(ps: seq<Phase>, calls: seq<Call>, k: nat, p: nat)
    requires k < |calls|
  {
    && !calls[k].code.TranscribeFailed? && p + Added(calls[k]) <= |ps|
    && ps[p] == Dispatch(DispatchSeconds(calls[k].code))
    && (calls[k].code.Recorded? ==> ps[p + 1] == WaitTranscribe(TRANSCRIBE_SEC))
  }

  /**
   `ps` holds, one after the other and nothing else, the `n` calls at the positions `at`, with one wait of the
   retry interval between each two.
   */
  ghost predicate DialledInTurn(ps: seq<Phase>, calls: seq<Call>, n: nat, at: seq<nat>)
    requires n <= |calls| && forall c | c in calls :: Possible(c)
  {
    && |at| == n && (n == 0 ==> ps == []) && (n > 0 ==> at[0] == 0 && |ps| == at[n - 1] + Added(calls[n - 1]))
    && (forall k | 0 <= k < n :: calls[k] in calls && DialledAt(ps, calls, k, at[k]))
    && (forall k | 1 <= k < n ::
          at[k] == at[k - 1] + Added(calls[k - 1]) + 1 && at[k] < |ps| && ps[at[k] - 1] == WaitInterval(RETRY_INTERVAL_SEC))
  }

  ghost predicate InTurn(ps: seq<Phase>, calls: seq<Call>, n: nat) {
    n <= |calls| && (forall c | c in calls :: Possible(c)) && exists at :: DialledInTurn(ps, calls, n, at)
  }

  lemma {:induction false} PhasesInTurn(calls: seq<Call>, n: nat) returns (at: seq<nat>)
    requires n <= |calls| && forall c | c in calls :: Possible(c)
    ensures DialledInTurn(Phases(calls, n), calls, n, at)
  {
    if n == 0 {
      at := [];
    } else {
      var before := PhasesInTurn(calls, n - 1);
      var ps0, ps := Phases(calls, n - 1), Phases(calls, n);
      assert calls[n - 1] in calls;
      at := before + [if n == 1 then 0 else |ps0| + 1];
      OneMoreCall(calls, n, ps0, ps, before, at);
    }
  }

  lemma OneMoreCall(calls: seq<Call>, n: nat, ps0: seq<Phase>, ps: seq<Phase>, before: seq<nat>, at: seq<nat>)
    requires 1 <= n <= |calls| && (forall c | c in calls :: Possible(c)) && calls[n - 1] in calls
    requires DialledInTurn(ps0, calls, n - 1, before) && at == before + [if n == 1 then 0 else |ps0| + 1]
    requires ps == ps0 + (if n == 1 then [] else [WaitInterval(RETRY_INTERVAL_SEC)]) + CallPhases(calls[n - 1])
    ensures DialledInTurn(ps, calls, n, at)
  {
    assert |ps| == at[n - 1] + Added(calls[n - 1]);
    forall k | 0 <= k < n ensures calls[k] in calls && DialledAt(ps, calls, k, at[k]) {
      if k < n - 1 { assert DialledAt(ps0, calls, k, before[k]); }
    }
    forall k | 1 <= k < n ensures at[k] == at[k - 1] + Added(calls[k - 1]) + 1 && at[k] < |ps| && ps[at[k] - 1] == WaitInterval(RETRY_INTERVAL_SEC) {
      if k < n - 1 { assert at[k] == before[k] && at[k - 1] == before[k - 1]; }
    }
  }

  /** The description leaves no choice: the calls determine the phases. */
  lemma {:induction false} TurnsUnique(ps: seq<Phase>, qs: seq<Phase>, calls: seq<Call>, n: nat, at: seq<nat>, bt: seq<nat>)
    requires n <= |calls| && forall c | c in calls :: Possible(c)
    requires DialledInTurn(ps, calls, n, at) && DialledInTurn(qs, calls, n, bt)
    ensures ps == qs
  {
    if n > 0 {
      SameTurns(ps, qs, calls, n, at, bt, n - 1);
      forall p | 0 <= p < |ps| ensures ps[p] == qs[p] {
        var k := TurnOf(ps, calls, n, at, p, n - 1);
        SamePhase(ps, qs, calls, n, at, bt, k, p);
      }
    }
  }

  lemma SamePhase(ps: seq<Phase>, qs: seq<Phase>, calls: seq<Call>, n: nat, at: seq<nat>, bt: seq<nat>, k: nat, p: nat)
    requires k < n <= |calls| && forall c | c in calls :: Possible(c)
    requires DialledInTurn(ps, calls, n, at) && DialledInTurn(qs, calls, n, bt) && |ps| == |qs| && p < |ps|
    requires at[k] <= p < at[k] + Added(calls[k]) || (k > 0 && p + 1 == at[k])
    ensures ps[p] == qs[p]
  {
    SameTurns(ps, qs, calls, n, at, bt, k);
    assert DialledAt(ps, calls, k, at[k]) && DialledAt(qs, calls, k, bt[k]);
    if k > 0 { assert at[k] == at[k - 1] + Added(calls[k - 1]) + 1 && bt[k] == at[k]; }
  }

  lemma {:induction false} SameTurns(ps: seq<Phase>, qs: seq<Phase>, calls: seq<Call>, n: nat, at: seq<nat>, bt: seq<nat>, k: nat)
    requires k < n <= |calls| && forall c | c in calls :: Possible(c)
    requires DialledInTurn(ps, calls, n, at) && DialledInTurn(qs, calls, n, bt)
    ensures at[k] == bt[k]
  {
    if k > 0 { SameTurns(ps, qs, calls, n, at, bt, k - 1); }
  }

  /** Every position belongs to a call, or is the wait right before one. */
  lemma {:induction false} TurnOf(ps: seq<Phase>, calls: seq<Call>, n: nat, at: seq<nat>, p: nat, last: nat) returns (k: nat)
    requires last < n <= |calls| && forall c | c in calls :: Possible(c)
    requires DialledInTurn(ps, calls, n, at) && p < at[last] + Added(calls[last])
    ensures k <= last && (at[k] <= p < at[k] + Added(calls[k]) || (k > 0 && p + 1 == at[k]))
  {
    if p >= at[last] || (last > 0 && p + 1 == at[last]) { k := last; } else { k := TurnOf(ps, calls, n, at, p, last - 1); }
  }

  /** The seconds on a line, and with the transcriptions, of the first `n` calls. */
  function LineSeconds(calls: seq<Call>, n: nat): real
    requires n <= |calls| && forall c | c in calls :: Possible(c)
  {
    if n == 0 then 0.0 else assert calls[n - 1] in calls; LineSeconds(calls, n - 1) + DispatchSeconds(calls[n - 1].code)
  }

  function Transcriptions(calls: seq<Call>, n: nat): nat
    requires n <= |calls|
  {
    if n == 0 then 0 else Transcriptions(calls, n - 1) + if calls[n - 1].code.Recorded? then 1 else 0
  }

  /** Exactly the time of the calls, of the transcriptions, and of the waits between the calls. */
  lemma {:induction false} PhasesTake(calls: seq<Call>, n: nat)
    requires n <= |calls| && forall c | c in calls :: Possible(c)
    ensures B.DispatchTime(Phases(calls, n)) == LineSeconds(calls, n)
    ensures B.OwnTime(Phases(calls, n)) == LineSeconds(calls, n) + Transcriptions(calls, n) as real * TRANSCRIBE_SEC
              + (if n == 0 then 0 else n - 1) as real * RETRY_INTERVAL_SEC
  {
    if n > 0 {
      assert calls[n - 1] in calls;
      var ps, wait, last := Phases(calls, n - 1), (if n == 1 then [] else [WaitInterval(RETRY_INTERVAL_SEC)]), CallPhases(calls[n - 1]);
      PhasesTake(calls, n - 1);
      SumAppend(ps, wait, true);
      SumAppend(ps + wait, last, true);
      SumAppend(ps, wait, false);
      SumAppend(ps + wait, last, false);
      CallTakes(calls[n - 1]);
    }
  }

  lemma CallTakes(c: Call)
    requires Possible(c)
    ensures B.DispatchTime(CallPhases(c)) == DispatchSeconds(c.code)
    ensures B.OwnTime(CallPhases(c)) == DispatchSeconds(c.code) + if c.code.Recorded? then TRANSCRIBE_SEC else 0.0
    ensures B.DispatchTime([WaitInterval(RETRY_INTERVAL_SEC)]) == 0.0
    ensures B.OwnTime([WaitInterval(RETRY_INTERVAL_SEC)]) == RETRY_INTERVAL_SEC
  {
    var ps, ws := CallPhases(c), [WaitInterval(RETRY_INTERVAL_SEC)];
    forall d: bool ensures B.PrefixSum(ps, |ps|, d) == B.Weight(ps[0], d) + if |ps| == 2 then B.Weight(ps[1], d) else 0.0 {
      assert B.PrefixSum(ps, 1, d) == B.Weight(ps[0], d) + B.PrefixSum(ps, 0, d);
    }
    forall d: bool ensures B.PrefixSum(ws, 1, d) == B.Weight(ws[0], d) {
      assert B.PrefixSum(ws, 0, d) == 0.0;
    }
  }

  /** The time of `n` calls, and of their dispatches alone, is at most linear in `n`. */
  lemma {:induction false} PhasesBounded(calls: seq<Call>, n: nat)
    requires n <= |calls| && forall c | c in calls :: Possible(c)
    ensures var ps := Phases(calls, n);
      && (forall p | p in ps :: p.duration >= 0.0)
      && (n > 0 ==> ps != [] && ps[0].Dispatch? && ps[0].duration <= LONGEST_CALL_SEC)
      && B.DispatchTime(ps) <= n as real * LONGEST_CALL_SEC
      && (n > 0 ==> B.OwnTime(ps) <= n as real * (LONGEST_CALL_SEC + TRANSCRIBE_SEC) + (n - 1) as real * RETRY_INTERVAL_SEC)
  {
    if n > 0 {
      assert calls[n - 1] in calls && calls[0] in calls;
      var ps, wait, last := Phases(calls, n - 1), (if n == 1 then [] else [WaitInterval(RETRY_INTERVAL_SEC)]), CallPhases(calls[n - 1]);
      PhasesBounded(calls, n - 1);
      SumAppend(ps, wait, true);
      SumAppend(ps + wait, last, true);
      SumAppend(ps, wait, false);
      SumAppend(ps + wait, last, false);
      CallBounded(calls[n - 1]);
    }
  }

  lemma CallBounded(c: Call)
    requires Possible(c)
    ensures B.DispatchTime(CallPhases(c)) <= LONGEST_CALL_SEC
    ensures B.OwnTime(CallPhases(c)) <= LONGEST_CALL_SEC + TRANSCRIBE_SEC
    ensures B.DispatchTime([WaitInterval(RETRY_INTERVAL_SEC)]) == 0.0
    ensures B.OwnTime([WaitInterval(RETRY_INTERVAL_SEC)]) == RETRY_INTERVAL_SEC
  {
    CallTakes(c);
  }

  /** `ps` are the phases of at most `budget` calls. */
  ghost predicate IsWorkflow(ps: seq<Phase>, budget: nat) {
    exists calls: seq<Call>, n: nat ::
      1 <= n <= budget && n <= |calls| && (forall c | c in calls :: Possible(c)) && ps == Phases(calls, n)
  }

  /** `ps` are the phases of a retry loop that has come to its end. */
  ghost predicate IsLoopResult(ps: seq<Phase>, retryCount: nat) {
    exists first: Option<R.Row>, calls: seq<Call>, n: nat ::
      && |calls| == retryCount + 1 && (forall c | c in calls :: Possible(c))
      && StopsAt(first, calls, retryCount, n) && ps == Phases(calls, n)
  }

  /** The calls each employee may get. */
  function Budget(retryCount: nat): nat { if retryCount == 0 then 1 else retryCount }

  /** A finished loop has kept within its budget. */
  lemma LoopWithinBudget(ps: seq<Phase>, retryCount: nat)
    requires IsLoopResult(ps, retryCount)
    ensures IsWorkflow(ps, Budget(retryCount)) && WithinBudget(ps, Budget(retryCount))
  {
    var first: Option<R.Row>, calls: seq<Call>, n: nat :|
      && |calls| == retryCount + 1 && (forall c | c in calls :: Possible(c))
      && StopsAt(first, calls, retryCount, n) && ps == Phases(calls, n);
    if n > 1 { assert ShouldRetry(SeenStatus(first, calls, n - 1), n - 1, retryCount) == Ok(true); }
    PhasesBounded(calls, n);
  }

  /** What holds of the phases of every workflow. */
  ghost predicate WithinBudget(ps: seq<Phase>, budget: nat) {
    && (forall p | p in ps :: p.duration >= 0.0)
    && ps != [] && ps[0].Dispatch? && ps[0].duration <= LONGEST_CALL_SEC
    && B.DispatchTime(ps) <= budget as real * LONGEST_CALL_SEC
    && B.OwnTime(ps) <= Longest(budget)
  }

  function Longest(budget: nat): real {
    budget as real * (LONGEST_CALL_SEC + TRANSCRIBE_SEC) + (budget - 1) as real * RETRY_INTERVAL_SEC
  }

  lemma {:induction false} TotalBounded(wf: Workflows, k: nat, skip: nat, x: real)
    requires k <= |wf| && forall e | 0 <= e < |wf| :: B.DispatchTime(wf[e]) <= x
    ensures B.DispatchTotal(wf, k, skip) <= B.Times(if skip < k then k - 1 else k, x)
  {
    if k > 0 { TotalBounded(wf, k - 1, skip, x); }
  }

  /** The share of the lines taken by the others. */
  function Share(wf: Workflows, m: int, budget: nat): real
    requires m >= 1
  {
    (|wf| - 1) as real * (budget as real * LONGEST_CALL_SEC) / m as real
  }

  ghost predicate MeetsDeadline(wf: Workflows, m: int, budget: nat, r: Scheduler.Outcome, e: nat)
    requires m >= 1 && e < |wf|
  {
    && r.Finished? && |r.completion| == |r.firstDone| == |wf|
    && r.completion[e].Some? && r.completion[e].value <= Longest(budget) + Share(wf, m, budget)
    && r.firstDone[e].Some? && r.firstDone[e].value <= LONGEST_CALL_SEC + Share(wf, m, budget)
  }

  /**
   The deadline of a cycle of finished retry loops, whatever the calls came to: with m lines, everybody
   is done within the longest own time plus the others' share of the lines, and everybody's first call
   has ended within one call plus that share.
   */
  lemma CycleDeadline(wf: Workflows, m: int, retryCount: nat, r: Scheduler.Outcome)
    requires m >= 1 && wf != [] && forall e | 0 <= e < |wf| :: IsLoopResult(wf[e], retryCount)
    requires Scheduler.OutcomeFits(wf, m, r)
    ensures forall e | 0 <= e < |wf| :: MeetsDeadline(wf, m, Budget(retryCount), r, e)
    ensures r.Finished? && r.totalTime <= Longest(Budget(retryCount)) + Share(wf, m, Budget(retryCount))
  {
    var budget := Budget(retryCount);
    forall e | 0 <= e < |wf| ensures WithinBudget(wf[e], budget) { LoopWithinBudget(wf[e], retryCount); }
    assert B.NonNegative(wf) by {
      forall e, k | 0 <= e < |wf| && 0 <= k < |wf[e]| ensures wf[e][k].duration >= 0.0 {
        assert wf[e][k] in wf[e];
      }
    }
    forall e | 0 <= e < |wf| ensures MeetsDeadline(wf, m, budget, r, e) { OneInTime(wf, m, budget, r, e); }
    var last :| 0 <= last < |wf| && r.completion[last] == Some(r.totalTime);
    assert MeetsDeadline(wf, m, budget, r, last);
  }

  lemma OneInTime(wf: Workflows, m: int, budget: nat, r: Scheduler.Outcome, e: nat)
    requires m >= 1 && e < |wf| && B.NonNegative(wf) && forall i | 0 <= i < |wf| :: WithinBudget(wf[i], budget)
    requires Scheduler.OutcomeFits(wf, m, r)
    ensures MeetsDeadline(wf, m, budget, r, e)
  {
    assert WithinBudget(wf[e], budget) && r.Finished?;
    assert Scheduler.CompletesInTime(wf, m, r, e);
    SlackWithinShare(wf, m, budget, e);
    assert FirstDispatch(wf[e]) == 0;
    assert B.PrefixSum(wf[e], 0, false) == 0.0;
  }

  lemma SlackWithinShare(wf: Workflows, m: int, budget: nat, e: nat)
    requires m >= 1 && e < |wf| && forall i | 0 <= i < |wf| :: WithinBudget(wf[i], budget)
    ensures B.DispatchTotal(wf, |wf|, e) / m as real <= Share(wf, m, budget)
  {
    var x := budget as real * LONGEST_CALL_SEC;
    forall i | 0 <= i < |wf| ensures B.DispatchTime(wf[i]) <= x { assert WithinBudget(wf[i], budget); }
    TotalBounded(wf, |wf|, e, x);
    B.TimesIsProduct(|wf| - 1, x);
    Divided(B.DispatchTotal(wf, |wf|, e), (|wf| - 1) as real * x, m as real);
  }

  lemma Divided(x: real, y: real, m: real)
    requires x <= y && m >= 1.0
    ensures x / m <= y / m
  {
    assert m * (x / m) == x;
    assert m * (y / m) == y;
    CancelFactor(m, x / m, y / m);
  }

  lemma CancelFactor(f: real, x: real, y: real)
    requires f > 0.0 && f * x <= f * y
    ensures x <= y
  {
  }
}
