/**
 The aggregates over the Response rows of a cycle: completion test, pending count, summary,
 timeout rewrite list and first-dispatch test.
 */
module CycleSummary {
  import opened Wrappers
  import opened VoiceStatuses

  /** The raw `callAttempts` attribute: missing, a number, or a value of another type. */
  datatype Attempts = Missing | Number(n: int) | Malformed

  /** A row as a query returns it. */
  datatype Listed = Listed(employeeId: Option<string>, status: Option<Status>, attempts: Attempts)

  datatype TypeError = BadAttempts(index: nat) | BadEmployeeId(index: nat)

  datatype Summary = Summary(
    targetTotal: nat, dispatched: nat, responded: nat, unreachable: nat, byStatus: map<Status, nat>)

  predicate IsTerminalRow(r: Listed) { r.status.Some? && Terminal(r.status.value) }

  /** A missing status counts as pending. */
  function StatusOf(r: Listed): Status { if r.status.Some? then r.status.value else Pending }

  predicate WasDispatched(r: Listed) { r.attempts.Number? && r.attempts.n > 0 }

  predicate NeverDispatched(r: Listed) { r.attempts.Missing? || r.attempts == Number(0) }

  predicate NeedsRewrite(r: Listed) { r.status.Some? && Rewritable(r.status.value) }

  datatype Test = Dispatched | Responded | MadeUnreachable | StillPending | Rewritten | Having(s: Status)

  predicate Passes(r: Listed, test: Test) {
    match test
    case Dispatched => WasDispatched(r)
    case Responded => Confirmed(StatusOf(r))
    case MadeUnreachable => StatusOf(r).Unreachable?
    case StillPending => !IsTerminalRow(r)
    case Rewritten => NeedsRewrite(r)
    case Having(s) => StatusOf(r) == s
  }

  /** The number of rows passing a test. */
  function Count(rows: seq<Listed>, test: Test): (n: nat)
    ensures n <= |rows|
  {
    if rows == [] then 0
    else Count(rows[..|rows| - 1], test) + if Passes(rows[|rows| - 1], test) then 1 else 0
  }

  method IsCycleCompleted(rows: seq<Listed>) returns (completed: bool)
    ensures completed <==> forall r | r in rows :: IsTerminalRow(r)
  {
    for i := 0 to |rows|
      invariant forall r | r in rows[..i] :: IsTerminalRow(r)
    {
      if !IsTerminalRow(rows[i]) { return false; }
      assert rows[..i + 1] == rows[..i] + [rows[i]];
    }
    assert rows[..|rows|] == rows;
    return true;
  }

  function CountPending(rows: seq<Listed>): nat { Count(rows, StillPending) }

  function Tally(m: map<Status, nat>, v: Status): nat { if v in m then m[v] else 0 }

  ghost predicate IsHistogram(rows: seq<Listed>, m: map<Status, nat>) {
    && (forall v :: Tally(m, v) == Count(rows, Having(v)))
    && (forall v | v in m :: m[v] > 0)
  }

  ghost predicate IsSummary(rows: seq<Listed>, s: Summary) {
    && s.targetTotal == |rows|
    && s.dispatched == Count(rows, Dispatched)
    && s.responded == Count(rows, Responded)
    && s.unreachable == Count(rows, MadeUnreachable)
    && IsHistogram(rows, s.byStatus)
  }

  lemma HistogramStep(rows: seq<Listed>, i: nat, m: map<Status, nat>)
    requires i < |rows| && IsHistogram(rows[..i], m)
    ensures var v := StatusOf(rows[i]); IsHistogram(rows[..i + 1], m[v := Tally(m, v) + 1])
  {
    assert rows[..i + 1][..i] == rows[..i];
    var v := StatusOf(rows[i]);
    var m' := m[v := Tally(m, v) + 1];
    forall w ensures Tally(m', w) == Count(rows[..i + 1], Having(w)) {
      assert Tally(m, w) == Count(rows[..i], Having(w));
    }
  }

  /** The summary, or the first row whose attempt counter is not a number. */
  method ComputeSummary(rows: seq<Listed>) returns (r: Result<Summary, TypeError>)
    ensures r.Ok? ==> (forall j | 0 <= j < |rows| :: !rows[j].attempts.Malformed?) && IsSummary(rows, r.value)
    ensures r.Err? ==> r.error.BadAttempts? && r.error.index < |rows| && rows[r.error.index].attempts.Malformed?
                       && forall j | 0 <= j < r.error.index :: !rows[j].attempts.Malformed?
  {
    var targetTotal, dispatched, responded, unreachable := |rows|, 0, 0, 0;
    var byStatus: map<Status, nat> := map[];
    for i := 0 to |rows|
      invariant forall j | 0 <= j < i :: !rows[j].attempts.Malformed?
      invariant dispatched == Count(rows[..i], Dispatched)
      invariant responded == Count(rows[..i], Responded)
      invariant unreachable == Count(rows[..i], MadeUnreachable)
      invariant IsHistogram(rows[..i], byStatus)
    {
      if rows[i].attempts.Malformed? { return Err(BadAttempts(i)); }
      if WasDispatched(rows[i]) { dispatched := dispatched + 1; }
      var status := StatusOf(rows[i]);
      HistogramStep(rows, i, byStatus);
      byStatus := byStatus[status := Tally(byStatus, status) + 1];
      if Confirmed(status) { responded := responded + 1; }
      if status == Unreachable { unreachable := unreachable + 1; }
      assert rows[..i + 1][..i] == rows[..i];
    }
    assert rows[..|rows|] == rows;
    r := Ok(Summary(targetTotal, dispatched, responded, unreachable, byStatus));
  }

  predicate Unaddressable(r: Listed) {
    NeedsRewrite(r) && (r.employeeId.None? || r.employeeId == Some(""))
  }

  /** The rewrites of the pending and unclassified rows, in row order. */
  function TimeoutRewrites(rows: seq<Listed>): seq<(string, Status)> {
    if rows == [] then []
    else
      var r := rows[|rows| - 1];
      TimeoutRewrites(rows[..|rows| - 1])
        + if NeedsRewrite(r) && r.employeeId.Some? then [(r.employeeId.value, Unreachable)] else []
  }

  /** The rewrite list names exactly the pending and unclassified rows, one entry for each. */
  lemma {:induction false} RewritesExact(rows: seq<Listed>, id: string)
    requires forall r | r in rows && NeedsRewrite(r) :: r.employeeId.Some?
    ensures (id, Unreachable) in TimeoutRewrites(rows) <==> exists r :: r in rows && NeedsRewrite(r) && r.employeeId == Some(id)
    ensures |TimeoutRewrites(rows)| == Count(rows, Rewritten)
    ensures forall x | x in TimeoutRewrites(rows) :: x.1 == Unreachable
  {
    if rows != [] {
      var rest, last := rows[..|rows| - 1], rows[|rows| - 1];
      assert rows == rest + [last] && last in rows;
      RewritesExact(rest, id);
    }
  }

  /** Every pending or unclassified row is listed for the rewrite, or the first bad row is reported. */
  method ApplyTimeout(rows: seq<Listed>) returns (r: Result<seq<(string, Status)>, TypeError>)
    ensures r.Ok? ==> (forall j | 0 <= j < |rows| :: !Unaddressable(rows[j])) && r.value == TimeoutRewrites(rows)
    ensures r.Err? ==> r.error.BadEmployeeId? && r.error.index < |rows| && Unaddressable(rows[r.error.index])
                       && forall j | 0 <= j < r.error.index :: !Unaddressable(rows[j])
  {
    var out: seq<(string, Status)> := [];
    for i := 0 to |rows|
      invariant forall j | 0 <= j < i :: !Unaddressable(rows[j])
      invariant out == TimeoutRewrites(rows[..i])
    {
      assert rows[..i + 1][..i] == rows[..i];
      if NeedsRewrite(rows[i]) {
        if rows[i].employeeId.None? || rows[i].employeeId.value == "" { return Err(BadEmployeeId(i)); }
        out := out + [(rows[i].employeeId.value, Unreachable)];
      }
    }
    assert rows[..|rows|] == rows;
    r := Ok(out);
  }

  /** Stops at the first row never dispatched; a malformed counter matters only before that. */
  method IsFirstDispatchIncomplete(rows: seq<Listed>) returns (r: Result<bool, TypeError>)
    ensures r == Ok(false) <==> forall i | 0 <= i < |rows| :: !rows[i].attempts.Malformed? && !NeverDispatched(rows[i])
    ensures r == Ok(true) <==> exists i :: 0 <= i < |rows| && NeverDispatched(rows[i])
                                 && forall j | 0 <= j < i :: !rows[j].attempts.Malformed?
  {
    if rows == [] { return Ok(false); }
    for i := 0 to |rows|
      invariant forall j | 0 <= j < i :: !rows[j].attempts.Malformed? && !NeverDispatched(rows[j])
    {
      if rows[i].attempts.Malformed? {
        return Err(BadAttempts(i));
      }
      if NeverDispatched(rows[i]) {
        return Ok(true);
      }
    }
    return Ok(false);
  }

  // --- Conservation ---------------------------------------------------------------

  /** The sum of the histogram over the given statuses. */
  ghost function Total(m: map<Status, nat>, keys: set<Status>): nat {
    if keys == {} then 0
    else var v :| v in keys; Tally(m, v) + Total(m, keys - {v})
  }

  /** Any key may be taken out first. */
  lemma {:induction false} TotalPick(m: map<Status, nat>, keys: set<Status>, v: Status)
    requires v in keys
    ensures Total(m, keys) == Tally(m, v) + Total(m, keys - {v})
    decreases keys
  {
    var w :| w in keys && Total(m, keys) == Tally(m, w) + Total(m, keys - {w});
    if w != v {
      TotalPick(m, keys - {w}, v);
      TotalPick(m, keys - {v}, w);
      assert keys - {w} - {v} == keys - {v} - {w};
    }
  }

  /** Counting the rows by status, over any set of statuses that covers them, counts every row once. */
  lemma {:induction false} TotalCounts(rows: seq<Listed>, m: map<Status, nat>, keys: set<Status>)
    requires forall v | v in keys :: Tally(m, v) == Count(rows, Having(v))
    requires forall r | r in rows :: StatusOf(r) in keys
    ensures Total(m, keys) == |rows|
    decreases |rows|, keys
  {
    if rows == [] {
      if keys != {} {
        var v :| v in keys;
        TotalPick(m, keys, v);
        TotalCounts(rows, m, keys - {v});
      }
    } else {
      var rest, last := rows[..|rows| - 1], rows[|rows| - 1];
      assert rows == rest + [last] && last in rows;
      var s := StatusOf(last);
      assert Tally(m, s) == Count(rows, Having(s));
      var m0 := m[s := (Tally(m, s) - 1) as nat];
      forall v | v in keys ensures Tally(m0, v) == Count(rest, Having(v)) {
        assert Tally(m, v) == Count(rows, Having(v));
      }
      TotalCounts(rest, m0, keys);
      TotalPick(m, keys, s);
      TotalPick(m0, keys, s);
      TotalSame(m, m0, keys - {s});
    }
  }

  lemma {:induction false} TotalSame(m: map<Status, nat>, m': map<Status, nat>, keys: set<Status>)
    requires forall v | v in keys :: Tally(m, v) == Tally(m', v)
    ensures Total(m, keys) == Total(m', keys)
    decreases keys
  {
    if keys != {} {
      var v :| v in keys;
      TotalPick(m, keys, v);
      TotalPick(m', keys, v);
      TotalSame(m, m', keys - {v});
    }
  }

  lemma {:induction false} Partition(rows: seq<Listed>)
    ensures Count(rows, Responded) + Count(rows, MadeUnreachable) + CountPending(rows) == |rows|
    ensures CountPending(rows) == 0 <==> forall r | r in rows :: IsTerminalRow(r)
  {
    if rows != [] {
      var rest, last := rows[..|rows| - 1], rows[|rows| - 1];
      Partition(rest);
      assert rows == rest + [last];
    }
  }

  /**
   Conservation: the histogram adds up to the target total, which is the responded, the
   unreachable and the pending rows together; and the cycle is complete exactly when none is pending.
   */
  lemma SummaryConserves(rows: seq<Listed>, s: Summary)
    requires IsSummary(rows, s)
    ensures Total(s.byStatus, s.byStatus.Keys) == s.targetTotal == s.responded + s.unreachable + CountPending(rows)
    ensures CountPending(rows) == 0 <==> forall r | r in rows :: IsTerminalRow(r)
  {
    forall r | r in rows ensures StatusOf(r) in s.byStatus.Keys {
      assert Tally(s.byStatus, StatusOf(r)) == Count(rows, Having(StatusOf(r)));
      CountPositive(rows, r);
    }
    TotalCounts(rows, s.byStatus, s.byStatus.Keys);
    Partition(rows);
  }

  lemma {:induction false} CountPositive(rows: seq<Listed>, r: Listed)
    requires r in rows
    ensures Count(rows, Having(StatusOf(r))) > 0
  {
    var rest, last := rows[..|rows| - 1], rows[|rows| - 1];
    assert rows == rest + [last];
    if r != last { CountPositive(rest, r); }
  }
}
