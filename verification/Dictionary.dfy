/**
 The keyword dictionary: a version counter bumped by compare-and-swap, the active keywords, and a
 history that records the active keywords under each new version.
 */
module Dictionary {
  import opened Wrappers
  import opened Classifier

  /** `version` is the counter row, missing before the first mutation; a keyword row carries its own stamp. */
  datatype Dict = Dict(version: Option<int>, rows: map<HistoryRow, int>, history: set<(int, HistoryRow)>)

  const EmptyDict := Dict(None, map[], {})

  datatype Request =
    | Create(row: HistoryRow, expected: int)
    | Update(row: HistoryRow, expected: int)
    | Delete(row: HistoryRow, expected: int)

  datatype Response = Accepted(version: int) | BadRequest | KeywordNotFound | VersionConflict | RowConflict

  function CurrentVersion(d: Dict): int { if d.version.Some? then d.version.value else 0 }

  function Active(d: Dict): set<HistoryRow> { d.rows.Keys }

  /** The history rows of one version. */
  function SnapshotRows(d: Dict, v: int): set<HistoryRow> { set e | e in d.history && e.0 == v :: e.1 }

  /** The condition of the compare-and-swap; the first mutation also accepts a missing counter. */
  predicate CanBump(d: Dict, expected: int) {
    d.version == Some(expected) || (expected == 0 && d.version.None?)
  }

  /** The condition on the keyword row, checked after the bump. */
  predicate RowFits(d: Dict, r: Request) {
    match r
    case Create(row, _) => row !in d.rows
    case Update(_, _) => true
    case Delete(row, _) => row in d.rows
  }

  function Mutated(d: Dict, r: Request): Dict {
    match r
    case Create(row, e) => d.(rows := d.rows[row := e + 1])
    case Update(row, e) => d.(rows := d.rows[row := e + 1])
    case Delete(row, _) => d.(rows := map k | k in d.rows && k != row :: d.rows[k])
  }

  function Bumped(d: Dict, expected: int): Dict { d.(version := Some(expected + 1)) }

  function Recorded(d: Dict, v: int): Dict { d.(history := d.history + set k | k in d.rows :: (v, k)) }

  /** One request, uninterrupted. */
  function Perform(d: Dict, r: Request): (Dict, Response) {
    if r.row.keyword == "" then (d, BadRequest)
    else if r.Update? && r.row !in d.rows then (d, KeywordNotFound)
    else if !CanBump(d, r.expected) then (d, VersionConflict)
    else if !RowFits(d, r) then (Bumped(d, r.expected), RowConflict)
    else (Recorded(Mutated(Bumped(d, r.expected), r), r.expected + 1), Accepted(r.expected + 1))
  }

  // --- The sort key of the history ---------------------------------------------------

  function CategoryName(c: Category): string {
    match c
    case SAFE => "SAFE"
    case INJURED => "INJURED"
    case UNAVAILABLE => "UNAVAILABLE"
  }

  function HistoryKey(k: HistoryRow): string { CategoryName(k.category) + "#" + k.keyword }

  /** Two keyword rows never share a history key, whatever characters the keywords hold. */
  lemma HistoryKeyInjective(a: HistoryRow, b: HistoryRow)
    requires HistoryKey(a) == HistoryKey(b)
    ensures a == b
  {
    var na, nb := |CategoryName(a.category)|, |CategoryName(b.category)|;
    assert HistoryKey(a)[na] == '#' && HistoryKey(b)[nb] == '#';
    assert HistoryKey(a)[0] == CategoryName(a.category)[0] && HistoryKey(b)[0] == CategoryName(b.category)[0];
    assert a.keyword == HistoryKey(a)[na + 1..] && b.keyword == HistoryKey(b)[nb + 1..];
  }

  // --- The stored tables ---------------------------------------------------------------

  class DictionaryStore {
    var version: Option<int>
    var rows: map<HistoryRow, int>
    var history: set<(int, HistoryRow)>

    ghost function View(): Dict reads this { Dict(version, rows, history) }

    constructor ()
      ensures View() == EmptyDict
    {
      version, rows, history := None, map[], {};
    }

    method IncrementVersion(expected: int) returns (ok: bool)
      modifies this`version
      ensures ok == CanBump(old(View()), expected)
      ensures View() == if ok then Bumped(old(View()), expected) else old(View())
    {
      ok := if expected == 0 then version.None? || version.value == 0 else version.Some? && version.value == expected;
      if ok { version := Some(expected + 1); }
    }

    method WriteHistorySnapshot(newVersion: int)
      modifies this`history
      ensures View() == Recorded(old(View()), newVersion)
    {
      var rest := rows.Keys;
      while rest != {}
        invariant rest <= rows.Keys
        invariant history == old(history) + set k | k in rows && k !in rest :: (newVersion, k)
        decreases |rest|
      {
        var k :| k in rest;
        history, rest := history + {(newVersion, k)}, rest - {k};
      }
    }

    method CreateKeyword(row: HistoryRow, expected: int) returns (response: Response)
      modifies this
      ensures (View(), response) == Perform(old(View()), Create(row, expected))
    {
      if row.keyword == "" { return BadRequest; }
      var ok := IncrementVersion(expected);
      if !ok { return VersionConflict; }
      if row in rows { return RowConflict; }
      rows := rows[row := expected + 1];
      WriteHistorySnapshot(expected + 1);
      return Accepted(expected + 1);
    }

    method UpdateKeyword(row: HistoryRow, expected: int) returns (response: Response)
      modifies this
      ensures (View(), response) == Perform(old(View()), Update(row, expected))
    {
      if row.keyword == "" { return BadRequest; }
      if row !in rows { return KeywordNotFound; }
      var ok := IncrementVersion(expected);
      if !ok { return VersionConflict; }
      rows := rows[row := expected + 1];
      WriteHistorySnapshot(expected + 1);
      return Accepted(expected + 1);
    }

    method DeleteKeyword(row: HistoryRow, expected: int) returns (response: Response)
      modifies this
      ensures (View(), response) == Perform(old(View()), Delete(row, expected))
    {
      if row.keyword == "" { return BadRequest; }
      var ok := IncrementVersion(expected);
      if !ok { return VersionConflict; }
      if row !in rows { return RowConflict; }
      rows := map k | k in rows && k != row :: rows[k];
      WriteHistorySnapshot(expected + 1);
      return Accepted(expected + 1);
    }
  }

  // --- Serial runs -----------------------------------------------------------------------

  ghost predicate Sound(d: Dict) {
    && (d.version.Some? ==> d.version.value >= 0)
    && (forall e | e in d.history :: e.0 <= CurrentVersion(d))
    && (forall k | k in d.rows :: k.keyword != "")
  }

  ghost predicate Follows(d: Dict, r: Request, d': Dict) { d' == Perform(d, r).0 }

  ghost predicate IsSerialRun(ds: seq<Dict>, requests: seq<Request>) {
    && |ds| == |requests| + 1 && Sound(ds[0])
    && forall i {:trigger requests[i]} | 0 <= i < |requests| :: Follows(ds[i], requests[i], ds[i + 1])
  }

  lemma {:induction false} SerialRunSound(ds: seq<Dict>, requests: seq<Request>, i: nat)
    requires IsSerialRun(ds, requests) && i < |ds|
    ensures Sound(ds[i])
  {
    if i > 0 {
      SerialRunSound(ds, requests, i - 1);
      assert Follows(ds[i - 1], requests[i - 1], ds[i - 1 + 1]);
    }
  }

  /** A snapshot once taken never changes. */
  lemma {:induction false} SnapshotStable(ds: seq<Dict>, requests: seq<Request>, i: nat, j: nat, v: int)
    requires IsSerialRun(ds, requests) && i <= j < |ds| && v <= CurrentVersion(ds[i])
    ensures SnapshotRows(ds[j], v) == SnapshotRows(ds[i], v) && CurrentVersion(ds[i]) <= CurrentVersion(ds[j])
    decreases j
  {
    if i < j {
      SnapshotStable(ds, requests, i, j - 1, v);
      SerialRunSound(ds, requests, j - 1);
      assert Follows(ds[j - 1], requests[j - 1], ds[j - 1 + 1]);
    }
  }

  /**
   The snapshot of a version, read at any later time, is the active keyword set just after the
   request that produced the version, exactly when that request was accepted or left no keyword.
   */
  lemma SnapshotExactIff(ds: seq<Dict>, requests: seq<Request>, i: nat, j: nat)
    requires IsSerialRun(ds, requests) && i < j < |ds|
    requires CurrentVersion(ds[i + 1]) != CurrentVersion(ds[i])
    ensures CurrentVersion(ds[i + 1]) == CurrentVersion(ds[i]) + 1
    ensures SnapshotRows(ds[j], CurrentVersion(ds[i + 1])) == Active(ds[i + 1])
            <==> Perform(ds[i], requests[i]).1.Accepted? || Active(ds[i + 1]) == {}
  {
    SerialRunSound(ds, requests, i);
    assert Follows(ds[i], requests[i], ds[i + 1]);
    SnapshotStable(ds, requests, i + 1, j, CurrentVersion(ds[i + 1]));
    if Perform(ds[i], requests[i]).1.Accepted? {
      AcceptedRecords(ds[i], requests[i]);
    } else {
      RejectedRecordsNothing(ds[i], requests[i]);
    }
  }

  /** An accepted request records exactly the keywords it leaves active. */
  lemma AcceptedRecords(d: Dict, r: Request)
    requires Sound(d) && Perform(d, r).1.Accepted?
    ensures var d' := Perform(d, r).0;
      CurrentVersion(d') == CurrentVersion(d) + 1 && SnapshotRows(d', CurrentVersion(d')) == Active(d')
  {
    var d', v := Perform(d, r).0, r.expected + 1;
    assert forall h | h in d.history :: h.0 < v;
    forall k ensures k in SnapshotRows(d', v) <==> k in d'.rows {
      if k in d'.rows { assert (v, k) in d'.history; }
    }
  }

  lemma RejectedRecordsNothing(d: Dict, r: Request)
    requires Sound(d) && !Perform(d, r).1.Accepted? && CurrentVersion(Perform(d, r).0) != CurrentVersion(d)
    ensures var d' := Perform(d, r).0;
      CurrentVersion(d') == CurrentVersion(d) + 1 && SnapshotRows(d', CurrentVersion(d')) == {}
  {
    assert forall h | h in d.history :: h.0 <= CurrentVersion(d);
  }

  /** A version is produced without a history exactly by a duplicate creation or a void deletion. */
  lemma RejectedAfterBumpIff(d: Dict, r: Request)
    ensures CurrentVersion(Perform(d, r).0) != CurrentVersion(d) && !Perform(d, r).1.Accepted? <==>
            && r.row.keyword != "" && CanBump(d, r.expected)
            && ((r.Create? && r.row in Active(d)) || (r.Delete? && r.row !in Active(d)))
  {
  }

  /**
   The snapshot of a version, read at any later time, is empty exactly if the request that produced it was
   a duplicate creation or a void deletion, or left no keyword.
   */
  lemma EmptySnapshotIff(ds: seq<Dict>, requests: seq<Request>, i: nat, j: nat)
    requires IsSerialRun(ds, requests) && i < j < |ds|
    requires CurrentVersion(ds[i + 1]) != CurrentVersion(ds[i])
    ensures var r, active := requests[i], Active(ds[i]);
      SnapshotRows(ds[j], CurrentVersion(ds[i + 1])) == {}
      <==> (r.Create? && r.row in active) || (r.Delete? && r.row !in active) || Active(ds[i + 1]) == {}
  {
    SerialRunSound(ds, requests, i);
    assert Follows(ds[i], requests[i], ds[i + 1]);
    SnapshotStable(ds, requests, i + 1, j, CurrentVersion(ds[i + 1]));
    RejectedAfterBumpIff(ds[i], requests[i]);
    if Perform(ds[i], requests[i]).1.Accepted? {
      AcceptedRecords(ds[i], requests[i]);
    } else {
      RejectedRecordsNothing(ds[i], requests[i]);
    }
  }

  // --- Keywords, read off the requests and their answers ---------------------------------

  /** When a request of the run is accepted, and what each refusal means. */
  lemma AnswersExact(ds: seq<Dict>, requests: seq<Request>, i: nat)
    requires IsSerialRun(ds, requests) && i < |requests|
    ensures var d, r, answer := ds[i], requests[i], Perform(ds[i], requests[i]).1;
      && (answer == BadRequest <==> r.row.keyword == "")
      && (answer.Accepted? <==>
            r.row.keyword != "" && r.expected == CurrentVersion(d) && (r.Create? <==> r.row !in Active(d)))
      && (answer == KeywordNotFound <==> r.Update? && r.row.keyword != "" && r.row !in Active(d))
      && (answer == RowConflict <==>
            r.row.keyword != "" && r.expected == CurrentVersion(d) && !r.Update? && (r.Create? <==> r.row in Active(d)))
      && (answer.Accepted? ==> answer.version == CurrentVersion(d) + 1)
      && CurrentVersion(ds[i + 1]) == CurrentVersion(d) + if answer.Accepted? || answer == RowConflict then 1 else 0
  {
  }

  /** Request `i` was accepted and names the keyword row. */
  predicate Names(ds: seq<Dict>, requests: seq<Request>, i: nat, row: HistoryRow)
    requires i < |requests| && i < |ds|
  {
    requests[i].row == row && Perform(ds[i], requests[i]).1.Accepted?
  }

  /** Since before request `k` nothing accepted has named the row. */
  ghost predicate NotNamedSince(ds: seq<Dict>, requests: seq<Request>, k: nat, j: nat, row: HistoryRow)
    requires j <= |requests| && j <= |ds|
  {
    forall i | k <= i < j :: !Names(ds, requests, i, row)
  }

  /** A request that is refused, or names another row, leaves a row and its stamp alone. */
  lemma {:induction false} RowKept(ds: seq<Dict>, requests: seq<Request>, k: nat, j: nat, row: HistoryRow)
    requires IsSerialRun(ds, requests) && k <= j < |ds| && NotNamedSince(ds, requests, k, j, row)
    ensures row in Active(ds[j]) <==> row in Active(ds[k])
    ensures row in Active(ds[j]) ==> ds[j].rows[row] == ds[k].rows[row]
    decreases j
  {
    if k < j {
      RowKept(ds, requests, k, j - 1, row);
      assert Follows(ds[j - 1], requests[j - 1], ds[j - 1 + 1]);
      assert !Names(ds, requests, j - 1, row);
    }
  }

  /**
   A keyword row is active exactly if the last accepted request naming it is not a deletion, or there is
   none and it was active from the start; and its stamp is the version that request was accepted with.
   */
  lemma ActiveByHistory(ds: seq<Dict>, requests: seq<Request>, j: nat, row: HistoryRow)
    requires IsSerialRun(ds, requests) && j < |ds|
    ensures NotNamedSince(ds, requests, 0, j, row) ==>
              && (row in Active(ds[j]) <==> row in Active(ds[0]))
              && (row in Active(ds[j]) ==> ds[j].rows[row] == ds[0].rows[row])
    ensures forall i | 0 <= i < j && Names(ds, requests, i, row) && NotNamedSince(ds, requests, i + 1, j, row) ::
              && (row in Active(ds[j]) <==> !requests[i].Delete?)
              && (row in Active(ds[j]) ==> ds[j].rows[row] == Perform(ds[i], requests[i]).1.version)
  {
    if NotNamedSince(ds, requests, 0, j, row) { RowKept(ds, requests, 0, j, row); }
    forall i | 0 <= i < j && Names(ds, requests, i, row) && NotNamedSince(ds, requests, i + 1, j, row)
      ensures row in Active(ds[j]) <==> !requests[i].Delete?
      ensures row in Active(ds[j]) ==> ds[j].rows[row] == Perform(ds[i], requests[i]).1.version
    {
      assert Follows(ds[i], requests[i], ds[i + 1]);
      RowKept(ds, requests, i + 1, j, row);
    }
  }

  /** There is a last request naming the row, right before `k`, or none does. */
  lemma LastNaming(ds: seq<Dict>, requests: seq<Request>, j: nat, row: HistoryRow) returns (k: nat)
    requires j <= |requests| && j <= |ds|
    ensures k <= j && NotNamedSince(ds, requests, k, j, row) && (k > 0 ==> Names(ds, requests, k - 1, row))
  {
    k := j;
    while k > 0 && !Names(ds, requests, k - 1, row)
      invariant k <= j && NotNamedSince(ds, requests, k, j, row)
    {
      k := k - 1;
    }
  }

  /** The requests before `j` that produced a version: the accepted ones and those refused after the bump. */
  function Bumps(ds: seq<Dict>, requests: seq<Request>, j: nat): nat
    requires j <= |requests| && j <= |ds|
  {
    if j == 0 then 0
    else
      var answer := Perform(ds[j - 1], requests[j - 1]).1;
      Bumps(ds, requests, j - 1) + if answer.Accepted? || answer == RowConflict then 1 else 0
  }

  /** The version counts them, and an accepted request is answered with the version it produced. */
  lemma {:induction false} VersionByHistory(ds: seq<Dict>, requests: seq<Request>, j: nat)
    requires IsSerialRun(ds, requests) && j < |ds|
    ensures CurrentVersion(ds[j]) == CurrentVersion(ds[0]) + Bumps(ds, requests, j)
    ensures forall i | 0 <= i < j && Perform(ds[i], requests[i]).1.Accepted? ::
              requests[i].expected == CurrentVersion(ds[0]) + Bumps(ds, requests, i)
              && Perform(ds[i], requests[i]).1.version == CurrentVersion(ds[0]) + Bumps(ds, requests, i + 1)
  {
    if j > 0 {
      VersionByHistory(ds, requests, j - 1);
      AnswersExact(ds, requests, j - 1);
    }
  }

  // --- Classification of a cycle ---------------------------------------------------------

  /** A query of one version returns each of its rows once, in some order. */
  ghost predicate Lists(rows: seq<HistoryRow>, s: set<HistoryRow>) { multiset(rows) == multiset(s) }

  /**
   A cycle pins the version it finds at its start. Whenever and in whatever order the history of
   that version is read later, the snapshot is the same; and it holds exactly the keywords active at the
   start, provided the version was recorded faithfully.
   */
  lemma PinnedSnapshot(ds: seq<Dict>, requests: seq<Request>, i: nat, j: nat, k: nat,
                       a: seq<HistoryRow>, b: seq<HistoryRow>, c: Category, kw: string)
    requires IsSerialRun(ds, requests) && i <= j < |ds| && i <= k < |ds|
    requires var v := CurrentVersion(ds[i]); Lists(a, SnapshotRows(ds[j], v)) && Lists(b, SnapshotRows(ds[k], v))
    ensures SnapshotOf(a) == SnapshotOf(b)
    ensures SnapshotRows(ds[i], CurrentVersion(ds[i])) == Active(ds[i]) ==>
              (kw in Keywords(SnapshotOf(a), c) <==> HistoryRow(c, kw) in Active(ds[i]))
  {
    var v := CurrentVersion(ds[i]);
    SnapshotStable(ds, requests, i, j, v);
    SnapshotStable(ds, requests, i, k, v);
    SnapshotCanonical(a, b);
    SerialRunSound(ds, requests, i);
    KeywordListed(a, SnapshotRows(ds[j], v), c, kw);
  }

  /** A keyword is in the snapshot of the listed rows exactly when its row is among them. */
  lemma KeywordListed(rows: seq<HistoryRow>, s: set<HistoryRow>, c: Category, kw: string)
    requires Lists(rows, s)
    ensures kw in Keywords(SnapshotOf(rows), c) <==> kw != "" && HistoryRow(c, kw) in s
  {
    SnapshotExact(rows, c, kw);
    assert kw in Keywords(SnapshotOf(rows), c) <==> kw in multiset(Keywords(SnapshotOf(rows), c));
    assert multiset(rows)[HistoryRow(c, kw)] > 0 <==> HistoryRow(c, kw) in s;
  }

  /** Hence neither the status nor the matched keywords of a transcript depend on when the matcher runs. */
  lemma ClassificationFixed(ds: seq<Dict>, requests: seq<Request>, i: nat, j: nat, k: nat,
                            a: seq<HistoryRow>, b: seq<HistoryRow>, lower: string -> string, text: string,
                            status: VoiceStatus, status': VoiceStatus, m: seq<string>, m': seq<string>)
    requires IsSerialRun(ds, requests) && i <= j < |ds| && i <= k < |ds|
    requires var v := CurrentVersion(ds[i]); Lists(a, SnapshotRows(ds[j], v)) && Lists(b, SnapshotRows(ds[k], v))
    requires Classifies(lower, text, SnapshotOf(a), status, m) && Classifies(lower, text, SnapshotOf(b), status', m')
    ensures status == status' && m == m'
  {
    SnapshotStable(ds, requests, i, j, CurrentVersion(ds[i]));
    SnapshotStable(ds, requests, i, k, CurrentVersion(ds[i]));
    ClassificationCanonical(lower, text, a, b, status, status', m, m');
  }
}
