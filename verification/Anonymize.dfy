/**
 Anonymisation of a deleted employee: every Response row of the employee moves, in transactional
 batches, to the same cycle under the anonymised identifier. A run may stop after any batch.
 */
module Anonymize {
  import opened Wrappers
  import R = ResponseRows
  import E = EmployeeTable
  import H = EmployeeHistory

  /** Cycle and employee. */
  type Key = (string, string)

  type Table = map<Key, R.Row>

  datatype Op = Delete(key: Key) | Put(key: Key, row: R.Row)

  datatype Response = Anonymized(count: nat) | Unavailable | Forbidden | BadRequest | NotFound | NotDeleted | Raised

  /** The rows of the cycles `cs` have moved from `emp` to `anon`; every other row stays. */
  function Rekeyed(t: Table, cs: set<string>, emp: string, anon: string): Table {
    map k | k in t.Keys + (set c | c in cs :: (c, anon)) && Remains(t, cs, emp, anon, k) :: RekeyedRow(t, cs, emp, anon, k)
  }

  predicate Moves(t: Table, cs: set<string>, emp: string, c: string) { c in cs && (c, emp) in t }

  predicate Remains(t: Table, cs: set<string>, emp: string, anon: string, k: Key) {
    !(k.0 in cs && k.1 == emp) && (k in t || (k.1 == anon && Moves(t, cs, emp, k.0)))
  }

  function RekeyedRow(t: Table, cs: set<string>, emp: string, anon: string, k: Key): R.Row
    requires Remains(t, cs, emp, anon, k)
  {
    if k.1 == anon && Moves(t, cs, emp, k.0) then t[(k.0, emp)] else t[k]
  }

  // --- Transactions ----------------------------------------------------------------

  function ApplyOp(t: Table, op: Op): Table {
    match op
    case Delete(k) => map x | x in t && x != k :: t[x]
    case Put(k, row) => t[k := row]
  }

  function ApplyOps(t: Table, ops: seq<Op>, n: nat): Table
    requires n <= |ops|
  {
    if n == 0 then t else ApplyOp(ApplyOps(t, ops, n - 1), ops[n - 1])
  }

  const ROWS_PER_BATCH := E.TRANSACT_MAX_ITEMS / 2

  /** What the database demands of a transaction. */
  predicate IsTransaction(ops: seq<Op>) {
    |ops| <= E.TRANSACT_MAX_ITEMS && forall i, j | 0 <= i < j < |ops| :: ops[i].key != ops[j].key
  }

  /** The rows to move: each a cycle and the row read. */
  type Moved = seq<(string, R.Row)>

  predicate DistinctCycles(chunk: Moved) { forall i, j | 0 <= i < j < |chunk| :: chunk[i].0 != chunk[j].0 }

  /** The rows are those stored for the employee in their cycles. */
  predicate ReadFrom(t: Table, chunk: Moved, emp: string) {
    DistinctCycles(chunk) && forall i | 0 <= i < |chunk| :: (chunk[i].0, emp) in t && t[(chunk[i].0, emp)] == chunk[i].1
  }

  function Cycles(chunk: Moved): set<string> { set i | 0 <= i < |chunk| :: chunk[i].0 }

  function Elements(cycleIds: seq<string>): set<string> { set c | c in cycleIds }

  /** A delete and a put for each row. */
  function TransactItems(chunk: Moved, emp: string, anon: string): (ops: seq<Op>)
    ensures |ops| == 2 * |chunk|
    ensures forall i | 0 <= i < |chunk| ::
              ops[2 * i] == Delete((chunk[i].0, emp)) && ops[2 * i + 1] == Put((chunk[i].0, anon), chunk[i].1)
  {
    if chunk == [] then []
    else
      var n, last := |chunk| - 1, chunk[|chunk| - 1];
      TransactItems(chunk[..n], emp, anon) + [Delete((last.0, emp)), Put((last.0, anon), last.1)]
  }

  /** A batch of up to twelve rows is a legal transaction: at most 24 operations, no key twice. */
  lemma BatchIsTransaction(chunk: Moved, emp: string, anon: string)
    requires |chunk| <= ROWS_PER_BATCH && DistinctCycles(chunk) && emp != anon
    ensures IsTransaction(TransactItems(chunk, emp, anon)) && |TransactItems(chunk, emp, anon)| <= 24
  {
    var ops := TransactItems(chunk, emp, anon);
    forall i, j | 0 <= i < j < |ops| ensures ops[i].key != ops[j].key {
      assert i == 2 * (i / 2) || i == 2 * (i / 2) + 1;
      assert j == 2 * (j / 2) || j == 2 * (j / 2) + 1;
      if i / 2 != j / 2 { assert chunk[i / 2].0 != chunk[j / 2].0; }
    }
  }

  lemma OneMove(t: Table, cs: set<string>, emp: string, anon: string, c: string)
    requires emp != anon && (c, emp) in t && c !in cs
    ensures var t' := Rekeyed(t, cs, emp, anon);
      && (c, emp) in t'
      && ApplyOp(ApplyOp(t', Delete((c, emp))), Put((c, anon), t[(c, emp)])) == Rekeyed(t, cs + {c}, emp, anon)
  {
    var t' := Rekeyed(t, cs, emp, anon);
    var left, right := ApplyOp(ApplyOp(t', Delete((c, emp))), Put((c, anon), t[(c, emp)])), Rekeyed(t, cs + {c}, emp, anon);
    forall k ensures k in left <==> k in right { }
    forall k | k in right ensures left[k] == right[k] { }
  }

  lemma {:induction false} OpsPrefix(t: Table, a: seq<Op>, b: seq<Op>, n: nat)
    requires n <= |a| <= |b| && forall i | 0 <= i < n :: a[i] == b[i]
    ensures ApplyOps(t, a, n) == ApplyOps(t, b, n)
    decreases n
  {
    if n > 0 { OpsPrefix(t, a, b, n - 1); }
  }

  lemma OneMoreCycle(rest: Moved, last: (string, R.Row))
    requires DistinctCycles(rest + [last])
    ensures last.0 !in Cycles(rest) && Cycles(rest + [last]) == Cycles(rest) + {last.0}
  {
    var chunk, n := rest + [last], |rest|;
    forall i | 0 <= i < n ensures rest[i].0 != last.0 { assert chunk[i] == rest[i] && chunk[n] == last; }
    CyclesAppend(rest, [last]);
    assert Cycles([last]) == {[last][0].0};
  }

  lemma MoveOneMore(t: Table, rest: Moved, last: (string, R.Row), emp: string, anon: string)
    requires emp != anon && ReadFrom(t, rest + [last], emp)
    requires var ops := TransactItems(rest, emp, anon); ApplyOps(t, ops, |ops|) == Rekeyed(t, Cycles(rest), emp, anon)
    ensures var ops := TransactItems(rest + [last], emp, anon); ApplyOps(t, ops, |ops|) == Rekeyed(t, Cycles(rest + [last]), emp, anon)
  {
    var chunk, n := rest + [last], |rest|;
    assert chunk[..n] == rest && chunk[n] == last;
    var ops := TransactItems(chunk, emp, anon);
    OpsPrefix(t, TransactItems(rest, emp, anon), ops, 2 * n);
    LastTwo(t, ops, 2 * n);
    OneMoreCycle(rest, last);
    OneMove(t, Cycles(rest), emp, anon, last.0);
  }

  /** Applying a batch moves exactly its rows. */
  lemma {:induction false} BatchRekeys(t: Table, chunk: Moved, emp: string, anon: string)
    requires emp != anon && ReadFrom(t, chunk, emp)
    ensures var ops := TransactItems(chunk, emp, anon); ApplyOps(t, ops, |ops|) == Rekeyed(t, Cycles(chunk), emp, anon)
    decreases |chunk|
  {
    if chunk == [] {
      NothingMoved(t, emp, anon);
      assert Cycles(chunk) == {};
    } else {
      var rest, last := chunk[..|chunk| - 1], chunk[|chunk| - 1];
      assert chunk == rest + [last];
      BatchRekeys(t, rest, emp, anon);
      MoveOneMore(t, rest, last, emp, anon);
    }
  }

  lemma LastTwo(t: Table, ops: seq<Op>, n: nat)
    requires n + 2 <= |ops|
    ensures ApplyOps(t, ops, n + 2) == ApplyOp(ApplyOp(ApplyOps(t, ops, n), ops[n]), ops[n + 1])
  {
    assert ApplyOps(t, ops, n + 1) == ApplyOp(ApplyOps(t, ops, n), ops[n]);
  }

  /** Moving some cycles and then others is moving them together, in any order and with overlaps. */
  lemma RekeyedCompose(t: Table, cs: set<string>, ds: set<string>, emp: string, anon: string)
    requires emp != anon
    ensures Rekeyed(Rekeyed(t, cs, emp, anon), ds, emp, anon) == Rekeyed(t, cs + ds, emp, anon)
  {
    var t' := Rekeyed(t, cs, emp, anon);
    var left, right := Rekeyed(t', ds, emp, anon), Rekeyed(t, cs + ds, emp, anon);
    forall k ensures k in left <==> k in right { }
    forall k | k in right ensures left[k] == right[k] { }
  }

  /** The cycles in which the employee's row lands on a row already stored under the new identifier. */
  function Collisions(t: Table, cs: set<string>, emp: string, anon: string): set<string> {
    set c | c in cs && (c, emp) in t && (c, anon) in t
  }

  /** Every moved row keeps its contents, every other row its key and contents. */
  lemma RekeyedContents(t: Table, cs: set<string>, emp: string, anon: string)
    requires emp != anon
    ensures var t' := Rekeyed(t, cs, emp, anon);
      && (forall c | Moves(t, cs, emp, c) :: (c, emp) !in t' && (c, anon) in t' && t'[(c, anon)] == t[(c, emp)])
      && (forall k | k in t && k.1 != emp && !(k.1 == anon && Moves(t, cs, emp, k.0)) :: k in t' && t'[k] == t[k])
      && (forall k | k in t' :: k in t || (k.1 == anon && Moves(t, cs, emp, k.0)))
  {
  }

  /** No row is lost or gained, except those overwritten by a collision. */
  lemma {:induction false} RekeyedCount(t: Table, cs: set<string>, emp: string, anon: string)
    requires emp != anon
    ensures |Rekeyed(t, cs, emp, anon)| + |Collisions(t, cs, emp, anon)| == |t|
    decreases cs
  {
    if cs == {} {
      NothingMoved(t, emp, anon);
    } else {
      var c :| c in cs;
      var rest := cs - {c};
      assert rest + {c} == cs;
      RekeyedCount(t, rest, emp, anon);
      CountOneMore(t, rest, emp, anon, c);
    }
  }

  lemma CountOneMore(t: Table, rest: set<string>, emp: string, anon: string, c: string)
    requires emp != anon && c !in rest
    requires |Rekeyed(t, rest, emp, anon)| + |Collisions(t, rest, emp, anon)| == |t|
    ensures |Rekeyed(t, rest + {c}, emp, anon)| + |Collisions(t, rest + {c}, emp, anon)| == |t|
  {
    RekeyedCompose(t, rest, {c}, emp, anon);
    OneCollision(t, rest, emp, anon, c);
    OneRowCount(Rekeyed(t, rest, emp, anon), emp, anon, c);
  }

  function OneIf(b: bool): nat { if b then 1 else 0 }

  lemma OneCollision(t: Table, rest: set<string>, emp: string, anon: string, c: string)
    requires emp != anon && c !in rest
    ensures var t0 := Rekeyed(t, rest, emp, anon);
            OneIf((c, emp) in t0 && (c, anon) in t0) == OneIf((c, emp) in t && (c, anon) in t)
    ensures |Collisions(t, rest + {c}, emp, anon)| == |Collisions(t, rest, emp, anon)| + OneIf((c, emp) in t && (c, anon) in t)
  {
    var before := Collisions(t, rest, emp, anon);
    assert c !in before;
    assert Collisions(t, rest + {c}, emp, anon) == before + if (c, emp) in t && (c, anon) in t then {c} else {};
  }

  lemma RekeyedOneKeys(t: Table, emp: string, anon: string, c: string)
    requires emp != anon
    ensures Rekeyed(t, {c}, emp, anon).Keys == if (c, emp) in t then t.Keys - {(c, emp)} + {(c, anon)} else t.Keys
  {
  }

  lemma OneRowCount(t: Table, emp: string, anon: string, c: string)
    requires emp != anon
    ensures |Rekeyed(t, {c}, emp, anon)| + OneIf((c, emp) in t && (c, anon) in t) == |t|
  {
    var t' := Rekeyed(t, {c}, emp, anon);
    RekeyedOneKeys(t, emp, anon, c);
    if (c, emp) in t {
      var others := t.Keys - {(c, emp)};
      assert |others| == |t.Keys| - 1;
      if (c, anon) in t { assert others + {(c, anon)} == others; }
    }
    assert |t'| == |t'.Keys| && |t| == |t.Keys|;
  }

  // --- The handler -------------------------------------------------------------------

  predicate Distinct(cycleIds: seq<string>) { forall i, j | 0 <= i < j < |cycleIds| :: cycleIds[i] != cycleIds[j] }

  predicate Admitted(existing: Option<E.Employee>, emp: string, saltSet: bool, administrator: bool) {
    saltSet && administrator && emp != "" && existing.Some? && existing.value.deleted
  }

  /** How many of `n` rows have moved when batch `failing`, if any, is rejected. */
  function Stop(n: nat, failing: Option<nat>): (k: nat)
    ensures k <= n
  {
    E.Stop(n, failing, ROWS_PER_BATCH)
  }

  /** A run over the listed cycles reads the employee's rows in them and moves them up to where it stops. */
  ghost predicate RunOf(t: Table, t': Table, cycleIds: seq<string>, emp: string, anon: string, failing: Option<nat>, moved: Moved) {
    && ReadFrom(t, moved, emp)
    && Cycles(moved) == (set c | c in cycleIds && (c, emp) in t)
    && MovedUpTo(t, t', moved, Stop(|moved|, failing), emp, anon)
  }

  /**
   What a call does. Each refusal has its own reason, the first of which is given, and changes nothing; an admitted
   call is a run, which tells how many of the employee's rows it has moved, or is stopped.
   */
  ghost predicate Handled(existing: Option<E.Employee>, t: Table, t': Table, emp: string, anon: string, saltSet: bool, administrator: bool,
                          cycleIds: seq<string>, failing: Option<nat>, moved: Moved, response: Response) {
    && (response == Unavailable <==> !saltSet)
    && (response == Forbidden <==> saltSet && !administrator)
    && (response == BadRequest <==> saltSet && administrator && emp == "")
    && (response == NotFound <==> saltSet && administrator && emp != "" && existing.None?)
    && (response == NotDeleted <==> saltSet && administrator && emp != "" && existing.Some? && !existing.value.deleted)
    && (!Admitted(existing, emp, saltSet, administrator) ==> t' == t)
    && (Admitted(existing, emp, saltSet, administrator) ==>
          && RunOf(t, t', cycleIds, emp, anon, failing, moved)
          && response == if Stop(|moved|, failing) == |moved| then Anonymized(|set c | c in cycleIds && (c, emp) in t|) else Raised)
  }

  lemma {:induction false} CyclesCount(moved: Moved)
    requires DistinctCycles(moved)
    ensures |Cycles(moved)| == |moved|
  {
    if moved == [] {
      assert Cycles(moved) == {};
    } else {
      var rest, last := moved[..|moved| - 1], moved[|moved| - 1];
      CyclesCount(rest);
      assert moved == rest + [last];
      OneMoreCycle(rest, last);
    }
  }

  class ResponseStore {
    var rows: Table

    constructor (rows: Table)
      ensures this.rows == rows
    {
      this.rows := rows;
    }

    /** All operations take effect together, or the call is rejected. */
    method TransactWrite(ops: seq<Op>, rejected: bool) returns (ok: bool)
      requires IsTransaction(ops)
      modifies this
      ensures ok == !rejected && rows == if rejected then old(rows) else ApplyOps(old(rows), ops, |ops|)
    {
      if rejected { return false; }
      for i := 0 to |ops|
        invariant rows == ApplyOps(old(rows), ops, i)
      {
        match ops[i] {
          case Delete(k) => rows := map x | x in rows && x != k :: rows[x];
          case Put(k, row) => rows := rows[k := row];
        }
      }
      return true;
    }

    method CollectRows(cycleIds: seq<string>, emp: string) returns (moved: Moved)
      requires Distinct(cycleIds)
      ensures ReadFrom(rows, moved, emp)
      ensures Cycles(moved) == set c | c in cycleIds && (c, emp) in rows
    {
      moved := [];
      for i := 0 to |cycleIds|
        invariant ReadFrom(rows, moved, emp)
        invariant Cycles(moved) == set c | c in cycleIds[..i] && (c, emp) in rows
      {
        var c := cycleIds[i];
        ghost var before := moved;
        if (c, emp) in rows {
          forall j | 0 <= j < |moved| ensures moved[j].0 != c { assert moved[j].0 in Cycles(moved); }
          moved := moved + [(c, rows[(c, emp)])];
          CyclesAppend(before, [moved[|before|]]);
          assert Cycles([moved[|before|]]) == {c};
        }
        assert cycleIds[..i + 1] == cycleIds[..i] + [c];
      }
      assert cycleIds[..|cycleIds|] == cycleIds;
    }

    /** Moves the rows batch by batch; batch `failing`, if any, is rejected and ends the run. */
    method MoveRows(moved: Moved, emp: string, anon: string, failing: Option<nat>) returns (ok: bool, ghost done: nat)
      requires emp != anon && ReadFrom(rows, moved, emp)
      modifies this
      ensures done == Stop(|moved|, failing) && (ok <==> done == |moved|)
      ensures MovedUpTo(old(rows), rows, moved, done, emp, anon)
    {
      ghost var before := rows;
      var start, batch := 0, 0;
      while start < |moved|
        invariant 0 <= start <= |moved| && (start < |moved| ==> start == batch * ROWS_PER_BATCH)
        invariant start <= Stop(|moved|, failing)
        invariant MovedUpTo(before, rows, moved, start, emp, anon)
      {
        var end := Min(start + ROWS_PER_BATCH, |moved|);
        E.BatchStops(|moved|, failing, ROWS_PER_BATCH, batch, start);
        ok := MoveBatch(moved, start, end, emp, anon, failing == Some(batch), before);
        if !ok { return false, start; }
        start, batch := end, batch + 1;
      }
      assert moved[..|moved|] == moved;
      return true, |moved|;
    }

    method MoveBatch(moved: Moved, start: nat, end: nat, emp: string, anon: string, rejected: bool, ghost before: Table)
      returns (ok: bool)
      requires start <= end <= |moved| && end - start <= ROWS_PER_BATCH
      requires emp != anon && ReadFrom(before, moved, emp) && MovedUpTo(before, rows, moved, start, emp, anon)
      modifies this
      ensures ok == !rejected && MovedUpTo(before, rows, moved, if ok then end else start, emp, anon)
    {
      ghost var here := rows;
      var chunk := moved[start..end];
      BatchIsTransaction(chunk, emp, anon);
      ok := TransactWrite(TransactItems(chunk, emp, anon), rejected);
      if ok { NextBatch(before, here, rows, moved, start, end, emp, anon); }
    }

    method AnonymizeEmployee(existing: Option<E.Employee>, emp: string, anon: string, saltSet: bool, administrator: bool,
                             cycleIds: seq<string>, failing: Option<nat>)
      returns (response: Response, ghost moved: Moved)
      requires emp != anon && Distinct(cycleIds)
      modifies this
      ensures Handled(existing, old(rows), rows, emp, anon, saltSet, administrator, cycleIds, failing, moved, response)
      ensures response.Anonymized? ==> rows == Rekeyed(old(rows), Elements(cycleIds), emp, anon)
    {
      moved := [];
      if !saltSet { return Unavailable, moved; }
      if !administrator { return Forbidden, moved; }
      if emp == "" { return BadRequest, moved; }
      if existing.None? { return NotFound, moved; }
      if !existing.value.deleted { return NotDeleted, moved; }
      var toRewrite := CollectRows(cycleIds, emp);
      moved := toRewrite;
      var ok, done := MoveRows(toRewrite, emp, anon, failing);
      if !ok { return Raised, moved; }
      CyclesCount(moved);
      CompleteRun(old(rows), rows, cycleIds, emp, anon, failing, moved);
      return Anonymized(|toRewrite|), moved;
    }
  }

  lemma NothingMoved(t: Table, emp: string, anon: string)
    ensures Rekeyed(t, {}, emp, anon) == t && Collisions(t, {}, emp, anon) == {}
  {
  }

  ghost predicate MovedUpTo(t: Table, t': Table, moved: Moved, n: nat, emp: string, anon: string)
    requires n <= |moved|
  {
    t' == Rekeyed(t, Cycles(moved[..n]), emp, anon)
  }

  lemma NextBatch(t: Table, t': Table, t'': Table, moved: Moved, start: nat, end: nat, emp: string, anon: string)
    requires start <= end <= |moved| && emp != anon && ReadFrom(t, moved, emp)
    requires MovedUpTo(t, t', moved, start, emp, anon)
    requires var ops := TransactItems(moved[start..end], emp, anon); t'' == ApplyOps(t', ops, |ops|)
    ensures MovedUpTo(t, t'', moved, end, emp, anon)
  {
    var before, chunk := moved[..start], moved[start..end];
    forall i | 0 <= i < |chunk| ensures (chunk[i].0, emp) in t' && t'[(chunk[i].0, emp)] == chunk[i].1 {
      assert chunk[i] == moved[start + i] && chunk[i].0 !in Cycles(before);
    }
    BatchRekeys(t', chunk, emp, anon);
    RekeyedCompose(t, Cycles(before), Cycles(chunk), emp, anon);
    assert moved[..end] == before + chunk;
    CyclesAppend(before, chunk);
  }

  lemma CyclesAppend(a: Moved, b: Moved)
    ensures Cycles(a + b) == Cycles(a) + Cycles(b)
  {
    forall c | c in Cycles(b) ensures c in Cycles(a + b) {
      var i :| 0 <= i < |b| && b[i].0 == c;
      assert (a + b)[|a| + i].0 == c;
    }
    forall c | c in Cycles(a) ensures c in Cycles(a + b) {
      var i :| 0 <= i < |a| && a[i].0 == c;
      assert (a + b)[i].0 == c;
    }
  }

  /** A run that is not stopped moves all the listed cycles. */
  lemma CompleteRun(t: Table, t': Table, cycleIds: seq<string>, emp: string, anon: string, failing: Option<nat>, moved: Moved)
    requires emp != anon && RunOf(t, t', cycleIds, emp, anon, failing, moved) && Stop(|moved|, failing) == |moved|
    ensures t' == Rekeyed(t, Elements(cycleIds), emp, anon)
  {
    assert moved[..|moved|] == moved;
  }

  /** A run of the employee over the cycles `cs`, in some order. */
  ghost predicate IsRun(t: Table, t': Table, cs: set<string>, emp: string, anon: string, failing: Option<nat>) {
    exists cycleIds: seq<string>, moved: Moved :: Distinct(cycleIds) && Elements(cycleIds) == cs && RunOf(t, t', cycleIds, emp, anon, failing, moved)
  }

  lemma RunRekeys(t: Table, t': Table, cs: set<string>, emp: string, anon: string, failing: Option<nat>) returns (done: set<string>)
    requires emp != anon && IsRun(t, t', cs, emp, anon, failing)
    ensures done <= cs && t' == Rekeyed(t, done, emp, anon)
    ensures failing.None? ==> t' == Rekeyed(t, cs, emp, anon)
  {
    var cycleIds: seq<string>, moved: Moved :| Distinct(cycleIds) && Elements(cycleIds) == cs && RunOf(t, t', cycleIds, emp, anon, failing, moved);
    var n := Stop(|moved|, failing);
    done := Cycles(moved[..n]);
    forall c | c in done ensures c in cs {
      var i :| 0 <= i < n && moved[..n][i].0 == c;
      assert moved[i].0 in Cycles(moved);
    }
    if failing.None? { CompleteRun(t, t', cycleIds, emp, anon, failing, moved); }
  }

  /** `ts` are the tables between consecutive runs over the same cycles, each in an order of its own. */
  ghost predicate AreRuns(ts: seq<Table>, failing: seq<Option<nat>>, cs: set<string>, emp: string, anon: string) {
    && |ts| == |failing| + 1
    && forall i {:trigger failing[i]} | 0 <= i < |failing| :: IsRun(ts[i], ts[i + 1], cs, emp, anon, failing[i])
  }

  lemma {:induction false} RunsRekey(ts: seq<Table>, failing: seq<Option<nat>>, cs: set<string>, emp: string, anon: string, n: nat)
    returns (done: set<string>)
    requires emp != anon && AreRuns(ts, failing, cs, emp, anon) && n < |ts|
    ensures done <= cs && ts[n] == Rekeyed(ts[0], done, emp, anon)
  {
    if n == 0 {
      done := {};
      NothingMoved(ts[0], emp, anon);
    } else {
      var before := RunsRekey(ts, failing, cs, emp, anon, n - 1);
      assert IsRun(ts[n - 1], ts[n - 1 + 1], cs, emp, anon, failing[n - 1]);
      var more := RunRekeys(ts[n - 1], ts[n], cs, emp, anon, failing[n - 1]);
      RekeyedCompose(ts[0], before, more, emp, anon);
      done := before + more;
    }
  }

  /**
   Resumption: any number of runs, each stopped after any of its batches, followed by a complete one
   over the same cycles in any order, end in the table that one uninterrupted run leaves.
   */
  lemma ResumeEqualsFull(ts: seq<Table>, failing: seq<Option<nat>>, cs: set<string>, emp: string, anon: string, t': Table)
    requires emp != anon && AreRuns(ts, failing, cs, emp, anon) && failing != [] && failing[|failing| - 1] == None
    requires IsRun(ts[0], t', cs, emp, anon, None)
    ensures ts[|failing|] == t' == Rekeyed(ts[0], cs, emp, anon)
  {
    var n := |failing| - 1;
    var before := RunsRekey(ts, failing, cs, emp, anon, n);
    assert IsRun(ts[n], ts[n + 1], cs, emp, anon, failing[n]);
    var last := RunRekeys(ts[n], ts[n + 1], cs, emp, anon, None);
    RekeyedCompose(ts[0], before, cs, emp, anon);
    assert before + cs == cs;
    var whole := RunRekeys(ts[0], t', cs, emp, anon, None);
  }

  /**
   Response rows move only for an employee whose deletion has succeeded, on the order of an administrator, and
   no other employee's rows are touched.
   */
  lemma OnlyDeletedMove(ts: seq<E.Table>, requests: seq<E.Request>, j: nat, t: Table, t': Table, emp: string, anon: string, saltSet: bool,
                        administrator: bool, cycleIds: seq<string>, failing: Option<nat>, moved: Moved, response: Response)
    requires E.IsSerialRun(ts, requests) && j < |ts| && emp != anon
    requires Handled(if emp in ts[j] then Some(ts[j][emp]) else None, t, t', emp, anon, saltSet, administrator, cycleIds, failing, moved, response)
    ensures t' != t ==>
              && saltSet && administrator
              && ((emp in ts[0] && ts[0][emp].deleted) || H.DeletedSince(ts, requests, 0, j, emp))
    ensures forall k: Key | k.1 != emp && k.1 != anon :: (k in t' <==> k in t) && (k in t ==> t'[k] == t[k])
  {
    H.DeletedByHistory(ts, requests, j, emp);
    if Admitted(if emp in ts[j] then Some(ts[j][emp]) else None, emp, saltSet, administrator) {
      RekeyedContents(t, Cycles(moved[..Stop(|moved|, failing)]), emp, anon);
    }
  }

  /** The number of rows is preserved exactly when no row is stored under the new identifier in a cycle of the employee. */
  lemma CountPreservedIff(t: Table, cs: set<string>, emp: string, anon: string)
    requires emp != anon
    ensures |Rekeyed(t, cs, emp, anon)| == |t| <==> forall c | c in cs && (c, emp) in t :: (c, anon) !in t
  {
    RekeyedCount(t, cs, emp, anon);
    var collisions := Collisions(t, cs, emp, anon);
    if |collisions| == 0 {
      forall c | c in cs && (c, emp) in t ensures (c, anon) !in t { assert c !in collisions; }
    } else {
      var c :| c in collisions;
    }
  }
}
