/**
 What the finalizer protocol does to the rows: it never touches an answer, and a timeout sweep leaves
 every row terminal whatever answers arrive meanwhile.
 */
module CycleSweep {
  import opened Wrappers
  import opened VoiceStatuses
  import R = ResponseRows
  import S = CycleSummary
  import opened CycleProtocol

  // --- Rows: the finalizer never touches an answer ----------------------------------

  predicate HasVoice(rows: map<Emp, R.Row>, e: Emp) { e in rows && rows[e].voice.Some? }

  predicate ConfirmedRow(rows: map<Emp, R.Row>, e: Emp) { HasVoice(rows, e) && Confirmed(rows[e].voice.value) }

  predicate TerminalRow(rows: map<Emp, R.Row>, e: Emp) { HasVoice(rows, e) && Terminal(rows[e].voice.value) }

  /** A finalizer step changes at most one row, from pending or unclassified to unreachable. */
  lemma FinalizerWritesOnlyPending(w: World, r: nat, q: seq<Emp>, e: Emp)
    requires r < |w.runs| && !w.runs[r].pc.Done? && ListsRows(w.rows, q)
    ensures var rows' := FinalizerStep(w, r, q).rows;
            && (e in rows' <==> e in w.rows)
            && (e in w.rows ==>
                  || rows'[e] == w.rows[e]
                  || (&& w.rows[e].voice.Some? && Rewritable(w.rows[e].voice.value)
                      && rows'[e] == w.rows[e].(voice := Some(Unreachable))))
  {
  }

  /**
   While nobody else writes a row, any interleaving of finalizer runs leaves it as it is or turns it, once,
   from pending or unclassified to unreachable: a recorded answer is never overwritten.
   */
  lemma {:induction false} AnswersSurvive(ws: seq<World>, acts: seq<Action>, i: nat, j: nat, e: Emp)
    requires IsExecution(ws, acts) && i <= j < |ws|
    requires forall k {:trigger acts[k]} | i <= k < j :: !(acts[k].Write? && acts[k].emp == e)
    ensures e in ws[j].rows <==> e in ws[i].rows
    ensures e in ws[i].rows ==>
              || ws[j].rows[e] == ws[i].rows[e]
              || (&& ws[i].rows[e].voice.Some? && Rewritable(ws[i].rows[e].voice.value)
                  && ws[j].rows[e] == ws[i].rows[e].(voice := Some(Unreachable)))
    decreases j
  {
    if i < j {
      AnswersSurvive(ws, acts, i, j - 1, e);
      var w, a := ws[j - 1], acts[j - 1];
      assert IsStep(w, a, ws[j - 1 + 1]);
      if a.Finalize? { FinalizerWritesOnlyPending(w, a.run, a.listing, e); }
    }
  }

  // --- The timeout sweep ---------------------------------------------------------------

  /** A row update by another writer that can only record a confirmed answer on a known row. */
  predicate KeepsAnswers(rows: map<Emp, R.Row>, e: Emp, u: R.Update) {
    e in rows &&
    match u
    case Classify(v) => Confirmed(v)
    case FinalizeOne(v) => Confirmed(v)
    case ClassifyFallback => false
    case _ => true
  }

  predicate KnownStatus(rows: map<Emp, R.Row>, e: Emp) {
    HasVoice(rows, e) && !rows[e].voice.value.Unrecognised?
  }

  /** Run `r` has not yet read the rows. */
  predicate BeforeQuery(pc: Pc) { pc.Begin? || pc.StopSfn? || pc.Query60? }

  function Todo(pc: Pc): seq<Emp> { if pc.Rewrite? then pc.todo else [] }

  /** Row `e` has kept what was confirmed at the query, and is terminal or still to be rewritten. */
  ghost predicate RowSwept(w: World, r: nat, rows0: map<Emp, R.Row>, e: Emp)
    requires r < |w.runs|
  {
    && KnownStatus(w.rows, e)
    && (TerminalRow(w.rows, e) || e in Todo(w.runs[r].pc))
    && (ConfirmedRow(rows0, e) ==> ConfirmedRow(w.rows, e))
  }

  /** Since the query of run `r`, which found the rows `rows0`. */
  ghost predicate Swept(w: World, r: nat, rows0: map<Emp, R.Row>) {
    && r < |w.runs| && !BeforeQuery(w.runs[r].pc)
    && w.rows.Keys == rows0.Keys
    && forall e | e in rows0 :: RowSwept(w, r, rows0, e)
  }

  /** The query that begins the sweep: of a timer run, or of a completion run that found nothing pending. */
  ghost predicate QueriesRows(w: World, r: nat, q: seq<Emp>) {
    && r < |w.runs| && ListsRows(w.rows, q)
    && (|| (w.runs[r].pc.Query60? && w.runs[r].trigger.Timer60Min?)
        || (w.runs[r].pc.Begin? && w.runs[r].trigger.MapCompleted? && S.CountPending(Listing(w.rows, q)) == 0))
  }

  lemma QueryStartsSweep(w: World, r: nat, q: seq<Emp>)
    requires QueriesRows(w, r, q) && forall e | e in w.rows :: KnownStatus(w.rows, e)
    ensures Swept(FinalizerStep(w, r, q), r, w.rows)
  {
    var w' := FinalizerStep(w, r, q);
    var l := Listing(w.rows, q);
    S.Partition(l);
    forall e | e in w.rows ensures RowSwept(w', r, w.rows, e) {
      assert KnownStatus(w.rows, e) && e in q;
      var i :| 0 <= i < |q| && q[i] == e;
      assert l[i] in l;
      if !TerminalRow(w.rows, e) { PendingIsListed(w.rows, q, i); }
    }
  }

  lemma PendingIsListed(rows: map<Emp, R.Row>, q: seq<Emp>, i: nat)
    requires ListsRows(rows, q) && i < |q| && S.NeedsRewrite(Listing(rows, q)[i])
    ensures q[i] in Ids(S.TimeoutRewrites(Listing(rows, q)))
  {
    var l := Listing(rows, q);
    var rewrites := S.TimeoutRewrites(l);
    assert l[i] in l;
    S.RewritesExact(l, q[i]);
    var j :| 0 <= j < |rewrites| && rewrites[j] == (q[i], Unreachable);
    assert Ids(rewrites)[j] == q[i];
  }

  /** What one step of any run, or of a writer that keeps answers, does to one row. */
  lemma RowKept(w: World, a: Action, e: Emp)
    requires Enabled(w, a) && (a.Write? ==> KeepsAnswers(w.rows, a.emp, a.update))
    ensures var rows' := Perform(w, a).rows;
            && (e in rows' <==> e in w.rows)
            && (KnownStatus(w.rows, e) ==> KnownStatus(rows', e))
            && (TerminalRow(w.rows, e) ==> TerminalRow(rows', e))
            && (ConfirmedRow(w.rows, e) ==> ConfirmedRow(rows', e))
  {
    if a.Finalize? { FinalizerWritesOnlyPending(w, a.run, a.listing, e); }
  }

  /** A row leaves the rewrite list of a run only when it is terminal. */
  lemma TodoServed(w: World, a: Action, r: nat, e: Emp)
    requires Enabled(w, a) && r < |w.runs| && KnownStatus(w.rows, e) && e in Todo(w.runs[r].pc)
    requires a.Write? ==> KeepsAnswers(w.rows, a.emp, a.update)
    ensures var w' := Perform(w, a); TerminalRow(w'.rows, e) || e in Todo(w'.runs[r].pc)
  {
    if a.Finalize? {
      if a.run == r { RewriteServed(w, r, a.listing, e); } else { OtherRunStays(w, a.run, a.listing, r); }
    }
  }

  lemma OtherRunStays(w: World, r: nat, q: seq<Emp>, other: nat)
    requires r < |w.runs| && !w.runs[r].pc.Done? && ListsRows(w.rows, q) && other < |w.runs| && other != r
    ensures var w' := FinalizerStep(w, r, q); |w'.runs| == |w.runs| && w'.runs[other] == w.runs[other]
  {
  }

  lemma RewriteServed(w: World, r: nat, q: seq<Emp>, e: Emp)
    requires r < |w.runs| && w.runs[r].pc.Rewrite? && ListsRows(w.rows, q)
    requires KnownStatus(w.rows, e) && e in w.runs[r].pc.todo
    ensures var w' := FinalizerStep(w, r, q); TerminalRow(w'.rows, e) || e in Todo(w'.runs[r].pc)
  {
    var todo := w.runs[r].pc.todo;
    assert e == todo[0] || e in todo[1..];
  }

  lemma PastQuery(w: World, a: Action, r: nat)
    requires Enabled(w, a) && r < |w.runs| && !BeforeQuery(w.runs[r].pc)
    ensures var w' := Perform(w, a); r < |w'.runs| && !BeforeQuery(w'.runs[r].pc)
  {
    if a.Finalize? {
      if a.run == r { OwnPastQuery(w, r, a.listing); } else { OtherRunStays(w, a.run, a.listing, r); }
    }
  }

  lemma OwnPastQuery(w: World, r: nat, q: seq<Emp>)
    requires r < |w.runs| && !w.runs[r].pc.Done? && !BeforeQuery(w.runs[r].pc) && ListsRows(w.rows, q)
    ensures var w' := FinalizerStep(w, r, q); r < |w'.runs| && !BeforeQuery(w'.runs[r].pc)
  {
  }

  lemma SweepStep(w: World, a: Action, r: nat, rows0: map<Emp, R.Row>)
    requires Enabled(w, a) && Swept(w, r, rows0)
    requires a.Write? ==> KeepsAnswers(w.rows, a.emp, a.update)
    ensures Swept(Perform(w, a), r, rows0)
  {
    PastQuery(w, a, r);
    forall e ensures e in Perform(w, a).rows <==> e in w.rows { RowKept(w, a, e); }
    forall e | e in rows0 ensures RowSwept(Perform(w, a), r, rows0, e) {
      assert RowSwept(w, r, rows0, e);
      RowKept(w, a, e);
      if e in Todo(w.runs[r].pc) { TodoServed(w, a, r, e); }
    }
  }

  /** Between the steps `a` and `c` other writers record only confirmed answers. */
  ghost predicate OnlyAnswers(ws: seq<World>, acts: seq<Action>, a: nat, c: nat)
    requires |ws| == |acts| + 1 && c < |ws|
  {
    forall i {:trigger acts[i]} | a <= i < c :: acts[i].Write? ==> KeepsAnswers(ws[i].rows, acts[i].emp, acts[i].update)
  }

  lemma {:induction false} Sweep(ws: seq<World>, acts: seq<Action>, a: nat, r: nat, c: nat)
    requires IsExecution(ws, acts) && a < c < |ws|
    requires acts[a].Finalize? && acts[a].run == r && QueriesRows(ws[a], r, acts[a].listing)
    requires forall e | e in ws[a].rows :: KnownStatus(ws[a].rows, e)
    requires OnlyAnswers(ws, acts, a, c)
    ensures Swept(ws[c], r, ws[a].rows)
    decreases c
  {
    var b := c - 1;
    assert IsStep(ws[b], acts[b], ws[b + 1]);
    if b == a {
      QueryStartsSweep(ws[a], r, acts[a].listing);
    } else {
      Sweep(ws, acts, a, r, b);
      SweepStep(ws[b], acts[b], r, ws[a].rows);
    }
  }

  /**
   The end of a sweep, under any interleaving in which other writers record only confirmed
   answers from the query on: once the run has worked off its rewrite list, every queried row is
   terminal, answers confirmed at the query are still answers, and every summary of the rows adds
   up to responded plus unreachable.
   */
  lemma SweepEndState(ws: seq<World>, acts: seq<Action>, a: nat, r: nat, c: nat, q: seq<Emp>, s: S.Summary)
    requires IsExecution(ws, acts) && a < c < |ws|
    requires acts[a].Finalize? && acts[a].run == r && QueriesRows(ws[a], r, acts[a].listing)
    requires forall e | e in ws[a].rows :: KnownStatus(ws[a].rows, e)
    requires OnlyAnswers(ws, acts, a, c)
    requires r < |ws[c].runs| && !ws[c].runs[r].pc.Rewrite?
    requires ListsRows(ws[c].rows, q) && S.IsSummary(Listing(ws[c].rows, q), s)
    ensures ws[c].rows.Keys == ws[a].rows.Keys
    ensures forall e | e in ws[a].rows :: TerminalRow(ws[c].rows, e) && (ConfirmedRow(ws[a].rows, e) ==> ConfirmedRow(ws[c].rows, e))
    ensures s.responded + s.unreachable == s.targetTotal == |ws[a].rows|
  {
    Sweep(ws, acts, a, r, c);
    var rows := ws[c].rows;
    forall e | e in ws[a].rows
      ensures TerminalRow(rows, e) && (ConfirmedRow(ws[a].rows, e) ==> ConfirmedRow(rows, e))
    {
      assert RowSwept(ws[c], r, ws[a].rows, e);
    }
    AllTerminalSummary(rows, q, s);
    assert rows.Keys == ws[a].rows.Keys;
    assert |rows| == |rows.Keys| && |ws[a].rows| == |ws[a].rows.Keys|;
  }

  lemma AllTerminalSummary(rows: map<Emp, R.Row>, q: seq<Emp>, s: S.Summary)
    requires ListsRows(rows, q) && S.IsSummary(Listing(rows, q), s)
    requires forall e | e in rows :: TerminalRow(rows, e)
    ensures s.responded + s.unreachable == s.targetTotal == |rows|
  {
    var l := Listing(rows, q);
    S.SummaryConserves(l, s);
    forall x | x in l ensures S.IsTerminalRow(x) {
      var i :| 0 <= i < |l| && l[i] == x;
      assert q[i] in q && TerminalRow(rows, q[i]);
    }
    KeyCount(rows.Keys, q);
    assert |rows| == |rows.Keys|;
  }

  lemma {:induction false} KeyCount(keys: set<Emp>, q: seq<Emp>)
    requires forall e :: e in q <==> e in keys
    requires forall i, j | 0 <= i < j < |q| :: q[i] != q[j]
    ensures |q| == |keys|
    decreases |q|
  {
    if q == [] {
      assert keys == {};
    } else {
      assert q[0] in q;
      forall e ensures e in q[1..] <==> e in keys - {q[0]} {
        if e in q[1..] {
          var i :| 0 <= i < |q[1..]| && q[1..][i] == e;
          assert q[i + 1] == e && q[0] != q[i + 1];
        }
      }
      KeyCount(keys - {q[0]}, q[1..]);
    }
  }
}
