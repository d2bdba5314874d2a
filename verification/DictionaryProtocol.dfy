/**
 Dictionary requests interleaved call by call: any number of writers, each reading, bumping the
 version, changing its keyword row, scanning and writing history rows one at a time.
 */
module DictionaryProtocol {
  import opened Classifier
  import opened Dictionary

  datatype Pc = Begin | Bump | Mutate | Scan | Record(todo: seq<HistoryRow>) | Done(response: Response)

  datatype Writer = Writer(request: Request, pc: Pc)

  datatype Entry = Won(writer: nat, expected: int) | Wrote(writer: nat, version: int)

  datatype World = World(d: Dict, writers: seq<Writer>, log: seq<Entry>)

  function At(w: World, p: nat, pc: Pc): World
    requires p < |w.writers|
  {
    w.(writers := w.writers[p := w.writers[p].(pc := pc)])
  }

  /** The next call of writer `p`; `q` is the order in which a scan lists the rows. */
  function Step(w: World, p: nat, q: seq<HistoryRow>): World
    requires p < |w.writers|
  {
    var r := w.writers[p].request;
    match w.writers[p].pc
    case Begin =>
      At(w, p, if r.row.keyword == "" then Done(BadRequest)
               else if r.Update? && r.row !in w.d.rows then Done(KeywordNotFound) else Bump)
    case Bump =>
      if CanBump(w.d, r.expected)
      then At(w.(d := Bumped(w.d, r.expected), log := w.log + [Won(p, r.expected)]), p, Mutate)
      else At(w, p, Done(VersionConflict))
    case Mutate =>
      if RowFits(w.d, r) then At(w.(d := Mutated(w.d, r)), p, Scan) else At(w, p, Done(RowConflict))
    case Scan => At(w, p, Record(q))
    case Record(todo) =>
      var v := r.expected + 1;
      if todo == [] then At(w, p, Done(Accepted(v)))
      else At(w.(d := w.d.(history := w.d.history + {(v, todo[0])}), log := w.log + [Wrote(p, v)]), p, Record(todo[1..]))
    case Done(_) => w
  }

  datatype Action = Call(writer: nat, listing: seq<HistoryRow>) | Arrive(request: Request)

  ghost predicate Enabled(w: World, a: Action) {
    a.Call? ==> a.writer < |w.writers| && multiset(a.listing) == multiset(Active(w.d))
  }

  ghost function Perform(w: World, a: Action): World
    requires Enabled(w, a)
  {
    match a
    case Call(p, q) => Step(w, p, q)
    case Arrive(r) => w.(writers := w.writers + [Writer(r, Begin)])
  }

  ghost predicate IsStep(w: World, a: Action, w': World) { Enabled(w, a) && w' == Perform(w, a) }

  ghost predicate IsExecution(ws: seq<World>, acts: seq<Action>) {
    && |ws| == |acts| + 1
    && ws[0].writers == [] && ws[0].log == [] && Sound(ws[0].d)
    && forall i {:trigger acts[i]} | 0 <= i < |acts| :: IsStep(ws[i], acts[i], ws[i + 1])
  }

  // --- At most one winner -------------------------------------------------------------

  /** The writer has won its compare-and-swap. */
  predicate Winner(x: Writer) {
    x.pc.Mutate? || x.pc.Scan? || x.pc.Record? || (x.pc.Done? && (x.pc.response.Accepted? || x.pc.response.RowConflict?))
  }

  ghost predicate EntryFits(w: World, e: Entry) {
    && e.writer < |w.writers| && Winner(w.writers[e.writer])
    && match e
       case Won(p, expected) => w.writers[p].request.expected == expected
       case Wrote(p, v) => w.writers[p].request.expected + 1 == v
  }

  ghost predicate Inv(w: World, start: Dict) {
    && CurrentVersion(w.d) >= CurrentVersion(start) >= 0
    && (forall p | 0 <= p < |w.writers| && Winner(w.writers[p]) ::
          CurrentVersion(start) <= w.writers[p].request.expected < CurrentVersion(w.d))
    && (forall p, q | 0 <= p < q < |w.writers| && Winner(w.writers[p]) && Winner(w.writers[q]) ::
          w.writers[p].request.expected != w.writers[q].request.expected)
    && (forall e | e in w.log :: EntryFits(w, e))
    && (forall h | h in w.d.history :: h in start.history || exists p: nat :: Wrote(p, h.0) in w.log)
  }

  /** A call that neither bumps the version nor writes history. */
  lemma QuietInv(w: World, d: Dict, p: nat, pc: Pc, start: Dict)
    requires Inv(w, start) && p < |w.writers|
    requires d.version == w.d.version && d.history == w.d.history
    requires Winner(w.writers[p]) <==> Winner(w.writers[p].(pc := pc))
    ensures Inv(At(w.(d := d), p, pc), start)
  {
    var w' := At(w.(d := d), p, pc);
    forall e | e in w'.log ensures EntryFits(w', e) { assert EntryFits(w, e); }
  }

  /** The compare-and-swap succeeds: every earlier winner expected a smaller version. */
  lemma BumpInv(w: World, p: nat, q: seq<HistoryRow>, start: Dict)
    requires Inv(w, start) && p < |w.writers| && w.writers[p].pc.Bump? && CanBump(w.d, w.writers[p].request.expected)
    ensures Inv(Step(w, p, q), start)
  {
    var w' := Step(w, p, q);
    forall e | e in w'.log ensures EntryFits(w', e) {
      if e in w.log { assert EntryFits(w, e); }
    }
    forall h | h in w'.d.history ensures h in start.history || exists x: nat :: Wrote(x, h.0) in w'.log {
      if x: nat :| Wrote(x, h.0) in w.log { assert Wrote(x, h.0) in w'.log; }
    }
  }

  lemma RecordInv(w: World, p: nat, q: seq<HistoryRow>, start: Dict)
    requires Inv(w, start) && p < |w.writers| && w.writers[p].pc.Record? && w.writers[p].pc.todo != []
    ensures Inv(Step(w, p, q), start)
  {
    var w' := Step(w, p, q);
    forall e | e in w'.log ensures EntryFits(w', e) {
      if e in w.log { assert EntryFits(w, e); }
    }
    forall h | h in w'.d.history ensures h in start.history || exists x: nat :: Wrote(x, h.0) in w'.log {
      if h in w.d.history {
        if x: nat :| Wrote(x, h.0) in w.log { assert Wrote(x, h.0) in w'.log; }
      } else {
        assert Wrote(p, h.0) in w'.log;
      }
    }
  }

  lemma StepInv(w: World, p: nat, q: seq<HistoryRow>, start: Dict)
    requires Inv(w, start) && p < |w.writers|
    ensures Inv(Step(w, p, q), start)
  {
    var w', x := Step(w, p, q), w.writers[p];
    if x.pc.Bump? && CanBump(w.d, x.request.expected) {
      BumpInv(w, p, q, start);
    } else if x.pc.Record? && x.pc.todo != [] {
      RecordInv(w, p, q, start);
    } else if !x.pc.Done? {
      QuietInv(w, w'.d, p, w'.writers[p].pc, start);
    }
  }

  lemma {:induction false} ExecutionInv(ws: seq<World>, acts: seq<Action>, i: nat)
    requires IsExecution(ws, acts) && i < |ws|
    ensures Inv(ws[i], ws[0].d)
  {
    if i > 0 {
      ExecutionInv(ws, acts, i - 1);
      var w, a, w' := ws[i - 1], acts[i - 1], ws[i - 1 + 1];
      assert IsStep(w, a, w');
      if a.Call? {
        StepInv(w, a.writer, a.listing, ws[0].d);
      } else {
        forall e | e in w'.log ensures EntryFits(w', e) { assert EntryFits(w, e); }
      }
    }
  }

  /**
   Under every interleaving: at most one of the writers with the same expected version wins, and
   the history rows of each new version are all written by one request, the one that produced it.
   */
  lemma OneWriterPerVersion(ws: seq<World>, acts: seq<Action>, k: nat, p: nat, q: nat, v: int)
    requires IsExecution(ws, acts) && k < |ws|
    requires Won(p, v - 1) in ws[k].log || Wrote(p, v) in ws[k].log
    requires Won(q, v - 1) in ws[k].log || Wrote(q, v) in ws[k].log
    ensures p == q && CurrentVersion(ws[0].d) < v <= CurrentVersion(ws[k].d)
  {
    ExecutionInv(ws, acts, k);
    assert p < |ws[k].writers| && Winner(ws[k].writers[p]) && ws[k].writers[p].request.expected == v - 1;
    assert q < |ws[k].writers| && Winner(ws[k].writers[q]) && ws[k].writers[q].request.expected == v - 1;
  }

  /** Every history row of a version produced in the execution was written by that version's winner. */
  lemma HistoryHasAuthor(ws: seq<World>, acts: seq<Action>, k: nat, h: (int, HistoryRow))
    requires IsExecution(ws, acts) && k < |ws| && h in ws[k].d.history && h !in ws[0].d.history
    ensures exists p: nat :: Wrote(p, h.0) in ws[k].log && p < |ws[k].writers| && ws[k].writers[p].request.expected + 1 == h.0
  {
    ExecutionInv(ws, acts, k);
    var p: nat :| Wrote(p, h.0) in ws[k].log;
    assert EntryFits(ws[k], Wrote(p, h.0));
  }

  // --- A writer that nobody interrupts ------------------------------------------------------

  /** `n` calls of writer `p` in a row; a scan lists the rows as `q`. */
  function Drive(w: World, p: nat, q: seq<HistoryRow>, n: nat): (w': World)
    requires p < |w.writers|
    ensures |w'.writers| == |w.writers|
    decreases n
  {
    if n == 0 then w else Drive(Step(w, p, q), p, q, n - 1)
  }

  lemma {:induction false} RecordAll(w: World, p: nat, q: seq<HistoryRow>, todo: seq<HistoryRow>)
    requires p < |w.writers| && w.writers[p].pc == Record(todo)
    ensures var v := w.writers[p].request.expected + 1;
            var w' := Drive(w, p, q, |todo| + 1);
            && w'.writers[p].pc == Done(Accepted(v))
            && w'.d == w.d.(history := w.d.history + set k | k in todo :: (v, k))
    decreases |todo|
  {
    var v := w.writers[p].request.expected + 1;
    var w1 := Step(w, p, q);
    if todo == [] {
      assert Drive(w1, p, q, 0) == w1;
      assert w1.d.history == w.d.history + set k | k in todo :: (v, k);
    } else {
      RecordAll(w1, p, q, todo[1..]);
      assert (set k | k in todo :: (v, k)) == {(v, todo[0])} + set k | k in todo[1..] :: (v, k);
    }
  }

  /** A request whose calls are not interleaved with others has the effect of the serial model. */
  lemma UninterruptedIsSerial(w: World, p: nat, q: seq<HistoryRow>)
    requires p < |w.writers| && w.writers[p].pc == Begin
    requires var r := w.writers[p].request; multiset(q) == multiset(Active(Mutated(w.d, r)))
    ensures var w', outcome := Drive(w, p, q, |q| + 4 + 1), Dictionary.Perform(w.d, w.writers[p].request);
            w'.d == outcome.0 && w'.writers[p].pc == Done(outcome.1)
  {
    var r := w.writers[p].request;
    var w1 := Step(w, p, q);
    if r.row.keyword == "" || (r.Update? && r.row !in w.d.rows) {
      StayDone(w1, p, q, |q| + 4);
    } else {
      assert w1.writers[p] == Writer(r, Bump) && w1.d == w.d;
      FinishFromBump(w1, p, q);
    }
  }

  lemma FinishFromBump(w: World, p: nat, q: seq<HistoryRow>)
    requires p < |w.writers| && w.writers[p].pc == Bump
    requires var r := w.writers[p].request; multiset(q) == multiset(Active(Mutated(w.d, r)))
    ensures var w', r := Drive(w, p, q, |q| + 4), w.writers[p].request;
            var v := r.expected + 1;
            if !CanBump(w.d, r.expected) then w'.d == w.d && w'.writers[p].pc == Done(VersionConflict)
            else if !RowFits(w.d, r) then w'.d == Bumped(w.d, r.expected) && w'.writers[p].pc == Done(RowConflict)
            else w'.d == Recorded(Mutated(Bumped(w.d, r.expected), r), v) && w'.writers[p].pc == Done(Accepted(v))
  {
    var w2 := Step(w, p, q);
    assert Drive(w, p, q, |q| + 4) == Drive(w2, p, q, |q| + 3);
    if w2.writers[p].pc.Done? {
      StayDone(w2, p, q, |q| + 3);
    } else {
      FinishFromMutate(w2, p, q);
    }
  }

  lemma FinishFromMutate(w: World, p: nat, q: seq<HistoryRow>)
    requires p < |w.writers| && w.writers[p].pc == Mutate
    requires var r := w.writers[p].request; multiset(q) == multiset(Active(Mutated(w.d, r)))
    ensures var w', r := Drive(w, p, q, |q| + 3), w.writers[p].request;
            if RowFits(w.d, r) then w'.d == Recorded(Mutated(w.d, r), r.expected + 1) && w'.writers[p].pc == Done(Accepted(r.expected + 1))
            else w'.d == w.d && w'.writers[p].pc == Done(RowConflict)
  {
    var r := w.writers[p].request;
    var w3 := Step(w, p, q);
    assert Drive(w, p, q, |q| + 3) == Drive(w3, p, q, |q| + 2);
    if !RowFits(w.d, r) {
      StayDone(w3, p, q, |q| + 2);
    } else {
      var w4 := Step(w3, p, q);
      assert Drive(w3, p, q, |q| + 2) == Drive(w4, p, q, |q| + 1);
      RecordAll(w4, p, q, q);
      forall k ensures k in q <==> k in w4.d.rows { assert k in multiset(q) <==> k in multiset(Active(w4.d)); }
      assert (set k | k in q :: (r.expected + 1, k)) == (set k | k in w4.d.rows :: (r.expected + 1, k));
    }
  }

  lemma {:induction false} StayDone(w: World, p: nat, q: seq<HistoryRow>, n: nat)
    requires p < |w.writers| && w.writers[p].pc.Done?
    ensures Drive(w, p, q, n) == w
    decreases n
  {
    if n > 0 { StayDone(w, p, q, n - 1); }
  }

  /**
   Outside serial runs a version can be pinned before its history is complete: between the bump
   and the last history write the snapshot of the current version still changes.
   */
  lemma UnfinishedSnapshotGrows(k: HistoryRow)
    requires k.keyword != ""
    ensures var w := World(EmptyDict, [Writer(Create(k, 0), Begin)], []);
      && CurrentVersion(Drive(w, 0, [k], 2).d) == 1 && SnapshotRows(Drive(w, 0, [k], 2).d, 1) == {}
      && SnapshotRows(Drive(w, 0, [k], 6).d, 1) == {k}
  {
    var w := World(EmptyDict, [Writer(Create(k, 0), Begin)], []);
    assert Active(Mutated(EmptyDict, Create(k, 0))) == {k};
    UninterruptedIsSerial(w, 0, [k]);
  }
}
