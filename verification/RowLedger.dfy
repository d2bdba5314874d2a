/** The ledger of a row, read off its history alone, for every order of the updates. */
module RowLedger {
  import opened Wrappers
  import opened VoiceStatuses
  import opened ResponseRows

  predicate SetsCode(u: Update) { u.DispatchError? || u.CallEnd? }

  function CodeSet(u: Update): CallCode
    requires SetsCode(u)
  {
    if u.DispatchError? then CallError else u.code
  }

  /** The position of the first update that sets a result code, or the length of the history. */
  function FirstSetter(h: seq<Update>): (k: nat)
    ensures k <= |h| && (k < |h| ==> SetsCode(h[k]))
    ensures forall i | 0 <= i < k :: !SetsCode(h[i])
  {
    if h == [] then 0
    else var k := FirstSetter(h[..|h| - 1]);
         if k < |h| - 1 || SetsCode(h[|h| - 1]) then k else |h|
  }

  /** First writer wins; a recorded call is relabelled if a transcription failure comes later. */
  ghost function LedgerCode(h: seq<Update>): Option<CallCode> {
    var k := FirstSetter(h);
    if k == |h| then None
    else if CodeSet(h[k]) == Recorded && exists j :: k < j < |h| && h[j].TranscribeFailure? then Some(TranscribeFailed)
    else Some(CodeSet(h[k]))
  }

  function Successes(h: seq<Update>): nat {
    if h == [] then 0 else Successes(h[..|h| - 1]) + if h[|h| - 1].DispatchSuccess? then 1 else 0
  }

  /** A dispatch error is counted only when it is the update that sets the code. */
  function LedgerAttempts(h: seq<Update>): nat {
    var k := FirstSetter(h);
    Successes(h) + if k < |h| && h[k].DispatchError? then 1 else 0
  }

  function InboundCalls(h: seq<Update>): nat {
    if h == [] then 0 else InboundCalls(h[..|h| - 1]) + if h[|h| - 1].InboundAppend? then 1 else 0
  }

  lemma LedgerCodeStep(h: seq<Update>, u: Update)
    ensures LedgerCode(h + [u]) ==
            match LedgerCode(h)
            case None => if SetsCode(u) then Some(CodeSet(u)) else None
            case Some(c) => if c == Recorded && u.TranscribeFailure? then Some(TranscribeFailed) else Some(c)
  {
    var k, h' := FirstSetter(h), h + [u];
    if k < |h| {
      assert h'[k] == h[k];
      if j :| k < j < |h| && h[j].TranscribeFailure? { assert h'[j].TranscribeFailure?; }
      if u.TranscribeFailure? { assert h'[|h|].TranscribeFailure?; }
    }
  }

  /**
   The whole ledger of a row, for every order of its updates: the code, the attempt counter and
   the number of inbound calls are determined by the history as above.
   */
  lemma {:induction false} Ledger(h: seq<Update>)
    ensures Existing(Replay(h)).code == LedgerCode(h)
    ensures OrZero(Existing(Replay(h)).attempts) == LedgerAttempts(h)
    ensures OrZero(Existing(Replay(h)).inbound) == InboundCalls(h)
    ensures Replay(h).None? ==> LedgerCode(h).None?
  {
    if h != [] {
      var h0, u := h[..|h| - 1], h[|h| - 1];
      assert h == h0 + [u];
      Ledger(h0);
      LedgerCodeStep(h0, u);
      assert FirstSetter(h0) < |h0| ==> h[FirstSetter(h0)] == h0[FirstSetter(h0)];
      if Replay(h0).None? { NoRowNoLedger(h0); }
    }
  }

  /** While the row is missing nothing has been counted. */
  lemma {:induction false} NoRowNoLedger(h: seq<Update>)
    requires Replay(h).None?
    ensures Successes(h) == InboundCalls(h) == 0
  {
    if h != [] { NoRowNoLedger(h[..|h| - 1]); }
  }

  /**
   Between any two points of a history the attempt counter never decreases, and a code once set
   changes only from recorded to transcription failed.
   */
  lemma {:induction false} LedgerOnlyGrows(h: seq<Update>, i: nat)
    requires i <= |h|
    ensures var before, after := Existing(Replay(h[..i])), Existing(Replay(h));
            && OrZero(before.attempts) <= OrZero(after.attempts)
            && (before.code.Some? ==>
                  || after.code == before.code
                  || (before.code == Some(Recorded) && after.code == Some(TranscribeFailed)))
    decreases |h|
  {
    if i == |h| {
      assert h[..i] == h;
    } else {
      var h0 := h[..|h| - 1];
      assert h0[..i] == h[..i];
      LedgerOnlyGrows(h0, i);
    }
  }

  // --- The status -----------------------------------------------------------------------

  /** The updates that store a status without a condition. */
  predicate WritesStatus(u: Update) { u.Classify? || u.ClassifyFallback? || u.FinalizeOne? }

  function StatusWritten(u: Update): Status
    requires WritesStatus(u)
  {
    if u.ClassifyFallback? then Other else u.status
  }

  /** The position of the last of them, or the length of the history. */
  function LastWriter(h: seq<Update>): (k: nat)
    ensures k <= |h| && (k < |h| ==> WritesStatus(h[k]))
    ensures forall i | (if k < |h| then k + 1 else 0) <= i < |h| :: !WritesStatus(h[i])
  {
    if h == [] then 0
    else
      var n := |h| - 1;
      var k := LastWriter(h[..n]);
      if WritesStatus(h[n]) then n else if k < n then k else |h|
  }

  /** The update that creates the row: the first without a condition on what is stored. */
  function Creator(h: seq<Update>): (k: nat)
    ensures k <= |h| && (k < |h| ==> !h[k].TranscribeFailure? && !h[k].ForceUnreachable?)
    ensures forall i | 0 <= i < k :: h[i].TranscribeFailure? || h[i].ForceUnreachable?
  {
    if h == [] then 0
    else
      var n := |h| - 1;
      var k := Creator(h[..n]);
      if k < n || !(h[n].TranscribeFailure? || h[n].ForceUnreachable?) then k else |h|
  }

  /** Where the status comes from: the last unconditional writer, else the creation of the row. */
  function Origin(h: seq<Update>): (k: nat)
    ensures k <= |h|
  {
    if LastWriter(h) < |h| then LastWriter(h) else Creator(h)
  }

  function OriginStatus(u: Update): Option<Status> {
    if WritesStatus(u) then Some(StatusWritten(u)) else if u.InitAttempt? || u.InboundPut? then Some(Pending) else None
  }

  /** The last unconditional writer wins; a pending or unclassified row is unreachable once forced after it. */
  ghost function LedgerStatus(h: seq<Update>): Option<Status> {
    var k := Origin(h);
    var status := if k < |h| then OriginStatus(h[k]) else None;
    if status.Some? && Rewritable(status.value) && exists j :: k < j < |h| && h[j].ForceUnreachable? then Some(Unreachable) else status
  }

  lemma OriginStep(h: seq<Update>, u: Update)
    ensures Origin(h + [u]) ==
            if WritesStatus(u) then |h|
            else if Origin(h) < |h| then Origin(h)
            else if u.TranscribeFailure? || u.ForceUnreachable? then |h| + 1 else |h|
  {
    assert (h + [u])[..|h|] == h;
  }

  lemma LedgerStatusStep(h: seq<Update>, u: Update)
    ensures LedgerStatus(h + [u]) ==
            if WritesStatus(u) then Some(StatusWritten(u))
            else if Origin(h) == |h| then OriginStatus(u)
            else if u.ForceUnreachable? && LedgerStatus(h).Some? && Rewritable(LedgerStatus(h).value) then Some(Unreachable)
            else LedgerStatus(h)
  {
    var h', k := h + [u], Origin(h);
    OriginStep(h, u);
    if !WritesStatus(u) && k < |h| {
      assert h'[k] == h[k];
      if j :| k < j < |h| && h[j].ForceUnreachable? { assert h'[j].ForceUnreachable?; }
      if u.ForceUnreachable? { assert h'[|h|].ForceUnreachable?; }
    }
  }

  /** The status of a row, for every order of its updates. */
  lemma {:induction false} StatusLedger(h: seq<Update>)
    ensures Existing(Replay(h)).voice == LedgerStatus(h)
    ensures Replay(h).None? <==> Origin(h) == |h|
  {
    if h != [] {
      var h0, u := h[..|h| - 1], h[|h| - 1];
      assert h == h0 + [u];
      StatusLedger(h0);
      OriginStep(h0, u);
      LedgerStatusStep(h0, u);
    }
  }
}
