/**
 When the snapshot of a version is final although requests interleave: exactly when the request
 that produced the version has finished, or has no history row left to write.
 */
module DictionaryStability {
  import opened Classifier
  import opened Dictionary
  import opened DictionaryProtocol

  // --- Runs from any world -----------------------------------------------------------

  ghost predicate IsPath(ws: seq<World>, acts: seq<Action>) {
    && |ws| == |acts| + 1
    && forall i {:trigger acts[i]} | 0 <= i < |acts| :: IsStep(ws[i], acts[i], ws[i + 1])
  }

  /** Some interleaving leads from one world to the other. */
  ghost predicate Reaches(w: World, w': World) {
    exists ws, acts :: IsPath(ws, acts) && ws[0] == w && ws[|acts|] == w'
  }

  lemma ReachStep(w: World, m: World, a: Action)
    requires Reaches(w, m) && Enabled(m, a)
    ensures Reaches(w, DictionaryProtocol.Perform(m, a))
  {
    var ws, acts :| IsPath(ws, acts) && ws[0] == w && ws[|acts|] == m;
    var w' := DictionaryProtocol.Perform(m, a);
    var ws', acts' := ws + [w'], acts + [a];
    forall i {:trigger acts'[i]} | 0 <= i < |acts'| ensures IsStep(ws'[i], acts'[i], ws'[i + 1]) {
      if i < |acts| { assert acts'[i] == acts[i] && ws'[i] == ws[i] && ws'[i + 1] == ws[i + 1]; }
    }
    assert IsPath(ws', acts') && ws'[0] == w && ws'[|acts'|] == w';
  }

  lemma ReachSelf(w: World)
    ensures Reaches(w, w)
  {
    assert IsPath([w], []) && [w][0] == w;
  }

  // --- What every world keeps ------------------------------------------------------------

  /** Writer `p` has produced version `v`. */
  predicate Produced(w: World, p: nat, v: int) {
    p < |w.writers| && Winner(w.writers[p]) && w.writers[p].request.expected + 1 == v
  }

  ghost predicate HasProducer(w: World, v: int) { exists p: nat :: Produced(w, p, v) }

  /** What a winner may still write is not in the history yet. */
  ghost predicate TodoFits(w: World, x: Writer) {
    var v := x.request.expected + 1;
    match x.pc
    case Mutate | Scan => forall h | h in w.d.history :: h.0 != v
    case Record(todo) =>
      && (forall k | k in todo :: (v, k) !in w.d.history)
      && (forall i, j | 0 <= i < j < |todo| :: todo[i] != todo[j])
    case _ => true
  }

  /** Beyond the invariant of the protocol: every version has a producer, and histories are not written twice. */
  ghost predicate Kept(w: World, start: Dict) {
    && Inv(w, start)
    && (forall h | h in start.history :: h.0 <= CurrentVersion(start))
    && (forall h | h in w.d.history :: h.0 <= CurrentVersion(w.d))
    && (forall v | CurrentVersion(start) < v <= CurrentVersion(w.d) :: HasProducer(w, v))
    && (forall p | 0 <= p < |w.writers| :: TodoFits(w, w.writers[p]))
    && (forall p | 0 <= p < |w.writers| && !w.writers[p].pc.Begin? && !w.writers[p].pc.Done? :: w.writers[p].request.row.keyword != "")
    && (forall k | k in w.d.rows :: k.keyword != "")
  }

  lemma ListingDistinct(q: seq<HistoryRow>, rows: set<HistoryRow>)
    requires multiset(q) == multiset(rows)
    ensures (forall k :: k in q <==> k in rows) && forall i, j | 0 <= i < j < |q| :: q[i] != q[j]
  {
    forall k ensures k in q <==> k in rows { assert k in q <==> k in multiset(q); }
    forall i, j | 0 <= i < j < |q| ensures q[i] != q[j] {
      assert q == q[..i] + [q[i]] + q[i + 1..];
      assert q[j] in multiset(q[i + 1..]);
      assert multiset(q)[q[i]] <= 1;
    }
  }

  lemma OwnTodo(w: World, p: nat, q: seq<HistoryRow>, start: Dict)
    requires Kept(w, start) && p < |w.writers| && multiset(q) == multiset(Active(w.d))
    ensures var w' := Step(w, p, q); TodoFits(w', w'.writers[p])
  {
    var x := w.writers[p];
    assert TodoFits(w, x);
    ListingDistinct(q, Active(w.d));
    if x.pc.Record? && x.pc.todo != [] { OwnRecordTodo(w, p, q); }
  }

  lemma OwnRecordTodo(w: World, p: nat, q: seq<HistoryRow>)
    requires p < |w.writers| && TodoFits(w, w.writers[p]) && w.writers[p].pc.Record? && w.writers[p].pc.todo != []
    ensures var w' := Step(w, p, q); TodoFits(w', w'.writers[p])
  {
    var todo := w.writers[p].pc.todo;
    assert forall k | k in todo[1..] :: k in todo && k != todo[0];
  }

  lemma OtherTodo(w: World, p: nat, q: seq<HistoryRow>, start: Dict, x: nat)
    requires Kept(w, start) && p < |w.writers| && x < |w.writers| && x != p
    ensures var w' := Step(w, p, q); TodoFits(w', w'.writers[x])
  {
    var w' := Step(w, p, q);
    assert TodoFits(w, w.writers[x]) && w'.writers[x] == w.writers[x];
    if Winner(w.writers[x]) && Winner(w.writers[p]) {
      assert w.writers[x].request.expected != w.writers[p].request.expected;
    }
  }

  lemma StepProducers(w: World, p: nat, q: seq<HistoryRow>, start: Dict, v: int)
    requires Kept(w, start) && p < |w.writers|
    requires CurrentVersion(start) < v <= CurrentVersion(Step(w, p, q).d)
    ensures HasProducer(Step(w, p, q), v)
  {
    var w' := Step(w, p, q);
    if v <= CurrentVersion(w.d) {
      assert HasProducer(w, v);
      var x: nat :| Produced(w, x, v);
      assert Produced(w', x, v);
    } else {
      assert Produced(w', p, v);
    }
  }

  lemma StepBounds(w: World, p: nat, q: seq<HistoryRow>, start: Dict)
    requires Kept(w, start) && p < |w.writers|
    ensures var w' := Step(w, p, q);
      && (forall h | h in w'.d.history :: h.0 <= CurrentVersion(w'.d))
      && (forall x | 0 <= x < |w'.writers| && !w'.writers[x].pc.Begin? && !w'.writers[x].pc.Done? :: w'.writers[x].request.row.keyword != "")
      && (forall k | k in w'.d.rows :: k.keyword != "")
  {
    var w' := Step(w, p, q);
    assert CurrentVersion(w.d) <= CurrentVersion(w'.d);
  }

  lemma StepKept(w: World, p: nat, q: seq<HistoryRow>, start: Dict)
    requires Kept(w, start) && p < |w.writers| && multiset(q) == multiset(Active(w.d))
    ensures Kept(Step(w, p, q), start)
  {
    var w' := Step(w, p, q);
    StepInv(w, p, q, start);
    StepBounds(w, p, q, start);
    forall x | 0 <= x < |w'.writers| ensures TodoFits(w', w'.writers[x]) {
      if x == p { OwnTodo(w, p, q, start); } else { OtherTodo(w, p, q, start, x); }
    }
    forall v | CurrentVersion(start) < v <= CurrentVersion(w'.d) ensures HasProducer(w', v) {
      StepProducers(w, p, q, start, v);
    }
  }

  lemma ArriveKept(w: World, r: Request, start: Dict)
    requires Kept(w, start)
    ensures Kept(DictionaryProtocol.Perform(w, Arrive(r)), start)
  {
    var w' := DictionaryProtocol.Perform(w, Arrive(r));
    forall e | e in w'.log ensures EntryFits(w', e) { assert EntryFits(w, e); }
    forall v | CurrentVersion(start) < v <= CurrentVersion(w'.d) ensures HasProducer(w', v) {
      assert HasProducer(w, v);
      var x: nat :| Produced(w, x, v);
      assert Produced(w', x, v);
    }
    forall x | 0 <= x < |w'.writers| ensures TodoFits(w', w'.writers[x]) {
      if x < |w.writers| { assert TodoFits(w, w.writers[x]); }
    }
  }

  lemma ActionKept(w: World, a: Action, start: Dict)
    requires Kept(w, start) && Enabled(w, a)
    ensures Kept(DictionaryProtocol.Perform(w, a), start)
  {
    match a
    case Call(p, q) => StepKept(w, p, q, start);
    case Arrive(r) => ArriveKept(w, r, start);
  }

  lemma {:induction false} ExecutionKept(ws: seq<World>, acts: seq<Action>, i: nat)
    requires IsExecution(ws, acts) && i < |ws|
    ensures Kept(ws[i], ws[0].d)
  {
    if i > 0 {
      ExecutionKept(ws, acts, i - 1);
      assert IsStep(ws[i - 1], acts[i - 1], ws[i - 1 + 1]);
      ActionKept(ws[i - 1], acts[i - 1], ws[0].d);
    }
  }

  // --- Final versions ---------------------------------------------------------------------

  /** The producer of the version has finished or has nothing left to write; or the version is older than the run. */
  ghost predicate Settled(w: World, start: Dict, v: int) {
    v <= CurrentVersion(start) || exists p: nat :: Produced(w, p, v) && Finished(w.writers[p])
  }

  predicate Finished(x: Writer) { x.pc.Done? || x.pc == Record([]) }

  lemma SettledStep(w: World, a: Action, start: Dict, v: int)
    requires Kept(w, start) && Enabled(w, a) && Settled(w, start, v)
    ensures var w' := DictionaryProtocol.Perform(w, a); Settled(w', start, v) && SnapshotRows(w'.d, v) == SnapshotRows(w.d, v)
  {
    var w' := DictionaryProtocol.Perform(w, a);
    if v > CurrentVersion(start) {
      var p: nat :| Produced(w, p, v) && Finished(w.writers[p]);
      assert Produced(w', p, v) && Finished(w'.writers[p]);
    }
    if a.Call? { NotWritten(w, a.writer, a.listing, start, v); }
  }

  /** Nobody else writes history for a settled version. */
  lemma NotWritten(w: World, p: nat, q: seq<HistoryRow>, start: Dict, v: int)
    requires Kept(w, start) && p < |w.writers| && Settled(w, start, v)
    ensures SnapshotRows(Step(w, p, q).d, v) == SnapshotRows(w.d, v)
  {
    var x, w' := w.writers[p], Step(w, p, q);
    if x.pc.Record? && x.pc.todo != [] {
      if v > CurrentVersion(start) {
        var o: nat :| Produced(w, o, v) && Finished(w.writers[o]);
        assert o != p;
      }
      assert x.request.expected + 1 != v;
      forall h | h in w'.d.history && h.0 == v ensures h in w.d.history { }
      assert SnapshotRows(w'.d, v) == SnapshotRows(w.d, v);
    } else {
      assert w'.d.history == w.d.history;
    }
  }

  lemma {:induction false} PathSettled(ws: seq<World>, acts: seq<Action>, i: nat, start: Dict, v: int)
    requires IsPath(ws, acts) && i < |ws| && Kept(ws[0], start) && Settled(ws[0], start, v)
    ensures Kept(ws[i], start) && Settled(ws[i], start, v) && SnapshotRows(ws[i].d, v) == SnapshotRows(ws[0].d, v)
  {
    if i > 0 {
      PathSettled(ws, acts, i - 1, start, v);
      assert IsStep(ws[i - 1], acts[i - 1], ws[i - 1 + 1]);
      ActionKept(ws[i - 1], acts[i - 1], start);
      SettledStep(ws[i - 1], acts[i - 1], start, v);
    }
  }

  /** In every interleaving the snapshot of a settled version never changes again. */
  lemma SettledStable(ws: seq<World>, acts: seq<Action>, i: nat, j: nat, v: int)
    requires IsExecution(ws, acts) && i <= j < |ws| && Settled(ws[i], ws[0].d, v)
    ensures SnapshotRows(ws[j].d, v) == SnapshotRows(ws[i].d, v)
  {
    ExecutionKept(ws, acts, i);
    var path, calls := ws[i..], acts[i..];
    forall k {:trigger calls[k]} | 0 <= k < |calls| ensures IsStep(path[k], calls[k], path[k + 1]) {
      assert calls[k] == acts[i + k] && path[k] == ws[i + k] && path[k + 1] == ws[i + k + 1];
    }
    PathSettled(path, calls, j - i, ws[0].d, v);
  }

  // --- Versions that are not final -----------------------------------------------------------

  /** Some continuation changes the snapshot of the version. */
  ghost predicate CanChange(w: World, v: int) {
    exists w' :: Reaches(w, w') && SnapshotRows(w'.d, v) != SnapshotRows(w.d, v)
  }

  lemma {:induction false} ListingExists(rows: set<HistoryRow>) returns (q: seq<HistoryRow>)
    ensures multiset(q) == multiset(rows)
    decreases rows
  {
    if rows == {} {
      q := [];
    } else {
      var k :| k in rows;
      var rest := ListingExists(rows - {k});
      q := rest + [k];
      assert rows == rows - {k} + {k};
    }
  }

  /** One more call of writer `p`. */
  lemma ReachCall(w: World, m: World, p: nat) returns (q: seq<HistoryRow>)
    requires Reaches(w, m) && p < |m.writers|
    ensures multiset(q) == multiset(Active(m.d)) && Reaches(w, Step(m, p, q))
  {
    q := ListingExists(Active(m.d));
    ReachStep(w, m, Call(p, q));
  }

  /** A writer with a row to write writes it. */
  lemma RecordChanges(w: World, m: World, start: Dict, p: nat, v: int)
    requires Reaches(w, m) && Kept(m, start) && SnapshotRows(m.d, v) == SnapshotRows(w.d, v)
    requires Produced(m, p, v) && m.writers[p].pc.Record? && m.writers[p].pc.todo != []
    ensures CanChange(w, v)
  {
    var todo := m.writers[p].pc.todo;
    var q := ReachCall(w, m, p);
    var w' := Step(m, p, q);
    assert TodoFits(m, m.writers[p]) && todo[0] in todo;
    assert (v, todo[0]) in w'.d.history && (v, todo[0]) !in m.d.history;
    assert todo[0] in SnapshotRows(w'.d, v) && todo[0] !in SnapshotRows(m.d, v);
  }

  /** A writer about to scan a dictionary that is not empty will have a row to write. */
  lemma ScanChanges(w: World, m: World, start: Dict, p: nat, v: int)
    requires Reaches(w, m) && Kept(m, start) && SnapshotRows(m.d, v) == SnapshotRows(w.d, v)
    requires Produced(m, p, v) && m.writers[p].pc.Scan? && Active(m.d) != {}
    ensures CanChange(w, v)
  {
    var q := ReachCall(w, m, p);
    StepKept(m, p, q, start);
    assert q != [] by {
      var k :| k in Active(m.d);
      assert k in multiset(q);
    }
    RecordChanges(w, Step(m, p, q), start, p, v);
  }

  /** Another request, made from start to its change of the keyword row. */
  lemma Helped(w: World, m: World, start: Dict, r: Request) returns (w': World)
    requires Reaches(w, m) && Kept(m, start)
    requires r.expected == CurrentVersion(m.d) && r.row.keyword != "" && !r.Update? && RowFits(m.d, r)
    ensures Reaches(w, w') && Kept(w', start)
    ensures w'.d == Mutated(Bumped(m.d, r.expected), r)
    ensures |w'.writers| == |m.writers| + 1 && w'.writers[..|m.writers|] == m.writers
  {
    var p := |m.writers|;
    ReachStep(w, m, Arrive(r));
    var w1 := DictionaryProtocol.Perform(m, Arrive(r));
    ArriveKept(m, r, start);
    var q1 := ReachCall(w, w1, p);
    StepKept(w1, p, q1, start);
    var w2 := Step(w1, p, q1);
    var q2 := ReachCall(w, w2, p);
    StepKept(w2, p, q2, start);
    var w3 := Step(w2, p, q2);
    assert w3.writers[p].pc == Mutate && w3.d == Bumped(m.d, r.expected);
    var q3 := ReachCall(w, w3, p);
    StepKept(w3, p, q3, start);
    w' := Step(w3, p, q3);
  }

  /** If nothing is active, another request can add a keyword before the scan. */
  lemma ScanCanChange(w: World, m: World, start: Dict, p: nat, v: int)
    requires Reaches(w, m) && Kept(m, start) && SnapshotRows(m.d, v) == SnapshotRows(w.d, v)
    requires Produced(m, p, v) && m.writers[p].pc.Scan?
    ensures CanChange(w, v)
  {
    if Active(m.d) != {} {
      ScanChanges(w, m, start, p, v);
    } else {
      var row := HistoryRow(SAFE, "a");
      var m' := Helped(w, m, start, Create(row, CurrentVersion(m.d)));
      assert m'.writers[p] == m.writers[p];
      assert row in Active(m'.d);
      ScanChanges(w, m', start, p, v);
    }
  }

  lemma MutateCanChange(w: World, m: World, start: Dict, p: nat, v: int)
    requires Reaches(w, m) && Kept(m, start) && SnapshotRows(m.d, v) == SnapshotRows(w.d, v)
    requires Produced(m, p, v) && m.writers[p].pc.Mutate? && RowFits(m.d, m.writers[p].request)
    ensures CanChange(w, v)
  {
    var q := ReachCall(w, m, p);
    StepKept(m, p, q, start);
    ScanCanChange(w, Step(m, p, q), start, p, v);
  }

  /** If the row stands in the way of the change, another request can first make way for it. */
  lemma BlockedCanChange(w: World, m: World, start: Dict, p: nat, v: int)
    requires Reaches(w, m) && Kept(m, start) && SnapshotRows(m.d, v) == SnapshotRows(w.d, v)
    requires Produced(m, p, v) && m.writers[p].pc.Mutate? && !RowFits(m.d, m.writers[p].request)
    ensures CanChange(w, v)
  {
    var r := m.writers[p].request;
    var now := CurrentVersion(m.d);
    var m' := Helped(w, m, start, if r.Create? then Delete(r.row, now) else Create(r.row, now));
    assert m'.writers[p] == m.writers[p];
    MutateCanChange(w, m', start, p, v);
  }

  /** A producer that has neither finished nor written everything can still change the snapshot. */
  lemma UnsettledCanChange(w: World, start: Dict, v: int)
    requires Kept(w, start) && v <= CurrentVersion(w.d) && !Settled(w, start, v)
    ensures CanChange(w, v)
  {
    assert HasProducer(w, v);
    var p: nat :| Produced(w, p, v);
    ReachSelf(w);
    assert !Finished(w.writers[p]);
    match w.writers[p].pc
    case Mutate => if RowFits(w.d, w.writers[p].request) { MutateCanChange(w, w, start, p, v); } else { BlockedCanChange(w, w, start, p, v); }
    case Scan => ScanCanChange(w, w, start, p, v);
    case Record(todo) => RecordChanges(w, w, start, p, v);
    case _ =>
  }

  /**
   Exactly when the snapshot of a version already reached is final: no continuation, by any requests in
   any interleaving, changes it if and only if the version is older than the execution, or the
   request that produced it has finished or has nothing left to write.
   */
  lemma FinalIff(ws: seq<World>, acts: seq<Action>, i: nat, v: int)
    requires IsExecution(ws, acts) && i < |ws| && v <= CurrentVersion(ws[i].d)
    ensures (forall w' | Reaches(ws[i], w') :: SnapshotRows(w'.d, v) == SnapshotRows(ws[i].d, v))
            <==> Settled(ws[i], ws[0].d, v)
  {
    ExecutionKept(ws, acts, i);
    if Settled(ws[i], ws[0].d, v) {
      forall w' | Reaches(ws[i], w') ensures SnapshotRows(w'.d, v) == SnapshotRows(ws[i].d, v) {
        var path, calls :| IsPath(path, calls) && path[0] == ws[i] && path[|calls|] == w';
        PathSettled(path, calls, |calls|, ws[0].d, v);
      }
    } else {
      UnsettledCanChange(ws[i], ws[0].d, v);
    }
  }

  // --- Classification of a cycle ----------------------------------------------------------------

  /**
   A cycle that pins a final version: whenever and in whatever order its history is read later, however
   requests interleave, the snapshot is the same; and it holds exactly the keywords active at the
   start, provided the version was recorded faithfully.
   */
  lemma InterleavedPinned(ws: seq<World>, acts: seq<Action>, i: nat, j: nat, k: nat, v: int,
                          a: seq<HistoryRow>, b: seq<HistoryRow>, c: Category, kw: string)
    requires IsExecution(ws, acts) && i <= j < |ws| && i <= k < |ws| && Settled(ws[i], ws[0].d, v)
    requires Lists(a, SnapshotRows(ws[j].d, v)) && Lists(b, SnapshotRows(ws[k].d, v))
    ensures SnapshotOf(a) == SnapshotOf(b)
    ensures SnapshotRows(ws[i].d, v) == Active(ws[i].d) ==>
              (kw in Keywords(SnapshotOf(a), c) <==> HistoryRow(c, kw) in Active(ws[i].d))
  {
    SettledStable(ws, acts, i, j, v);
    SettledStable(ws, acts, i, k, v);
    SnapshotCanonical(a, b);
    ExecutionKept(ws, acts, i);
    KeywordListed(a, SnapshotRows(ws[j].d, v), c, kw);
  }

  /** Hence neither the status nor the matched keywords depend on when the matcher runs. */
  lemma InterleavedClassification(ws: seq<World>, acts: seq<Action>, i: nat, j: nat, k: nat, v: int,
                                  a: seq<HistoryRow>, b: seq<HistoryRow>, lower: string -> string, text: string,
                                  status: VoiceStatus, status': VoiceStatus, m: seq<string>, m': seq<string>)
    requires IsExecution(ws, acts) && i <= j < |ws| && i <= k < |ws| && Settled(ws[i], ws[0].d, v)
    requires Lists(a, SnapshotRows(ws[j].d, v)) && Lists(b, SnapshotRows(ws[k].d, v))
    requires Classifies(lower, text, SnapshotOf(a), status, m) && Classifies(lower, text, SnapshotOf(b), status', m')
    ensures status == status' && m == m'
  {
    SettledStable(ws, acts, i, j, v);
    SettledStable(ws, acts, i, k, v);
    ClassificationCanonical(lower, text, a, b, status, status', m, m');
  }
}
