/**
 The Employee table: registration, update, logical deletion, and bulk import with rollback.
 Stored phone numbers are compared as plain text.
 */
module EmployeeTable {
  import opened Wrappers
  import opened PhoneNumbers
  import opened Strings
  import Csv = EmployeeCsv

  datatype Employee = Employee(name: string, phone: string, admin: bool, cognitoSub: string, deleted: bool)

  type Table = map<string, Employee>

  datatype Response = Success | BadRequest | NotFound | Conflict | Raised | RolledBack

  /** What the identity provider answers to the creation of an administrator. */
  datatype CognitoReply = Created(sub: string) | UsernameExists | Failure

  predicate Active(t: Table, id: string) { id in t && !t[id].deleted }

  predicate Registered(t: Table, phone: string) { exists id | id in t :: Active(t, id) && t[id].phone == phone }

  /** Active phone numbers are valid and pairwise distinct; a deleted row has none. */
  ghost predicate Valid(t: Table) {
    && (forall id | id in t :: if t[id].deleted then t[id].phone == "" else IsValidE164(t[id].phone))
    && (forall a, b | Active(t, a) && Active(t, b) && t[a].phone == t[b].phone :: a == b)
  }

  predicate EmailChar(c: char) { c != '@' && !IsSpace(c) }

  /** A local part, an at sign, and a domain with an inner dot. */
  predicate IsValidEmail(e: string) {
    exists at, dot :: 0 < at && at + 1 < dot < |e| - 1 && e[at] == '@' && e[dot] == '.'
                      && forall k | 0 <= k < |e| && k != at :: EmailChar(e[k])
  }

  // --- The requests as functions on the table ------------------------------------

  datatype NewEmployee = NewEmployee(name: string, phone: string, adminEmail: Option<string>)

  predicate WellFormedRequest(r: NewEmployee) {
    IsValidName(r.name) && IsValidPhone(r.phone) && (r.adminEmail.Some? ==> IsValidEmail(r.adminEmail.value))
  }

  function AfterCreate(t: Table, r: NewEmployee, id: string, reply: CognitoReply): (Table, Response) {
    var phone := DomesticToE164(r.phone);
    if !WellFormedRequest(r) then (t, BadRequest)
    else if Registered(t, phone) then (t, Conflict)
    else if r.adminEmail.Some? && !reply.Created? then (t, if reply.UsernameExists? then Conflict else Raised)
    else
      var sub := if r.adminEmail.Some? then reply.sub else "";
      (t[id := Employee(r.name, phone, r.adminEmail.Some?, sub, false)], Success)
  }

  function AfterUpdate(t: Table, id: string, name: Option<string>, phone: Option<string>): (Table, Response) {
    if !Active(t, id) then (t, NotFound)
    else
      var newName := if name.Some? then name.value else t[id].name;
      var given := if phone.Some? then phone.value else t[id].phone;
      var newPhone := DomesticToE164(given);
      if !IsValidName(newName) || !IsValidPhone(given) then (t, BadRequest)
      else if newPhone != t[id].phone && Registered(t, newPhone) then (t, Conflict)
      else (t[id := t[id].(name := newName, phone := newPhone)], Success)
  }

  function AfterDelete(t: Table, id: string): (Table, Response) {
    if !Active(t, id) then (t, NotFound)
    else (t[id := t[id].(deleted := true, phone := "", cognitoSub := "")], Success)
  }

  function Imported(r: Csv.EmployeeRow): Employee { Employee(r.name, r.phone, false, "", false) }

  /** The table with the first `k` rows of a file added. */
  function Inserted(t: Table, rows: seq<Csv.EmployeeRow>, ids: seq<string>, k: nat): Table
    requires k <= |rows| <= |ids|
  {
    if k == 0 then t else Inserted(t, rows, ids, k - 1)[ids[k - 1] := Imported(rows[k - 1])]
  }

  predicate HasPhone(rows: seq<Csv.EmployeeRow>, k: nat, phone: string)
    requires k <= |rows|
  {
    exists i :: 0 <= i < k && rows[i].phone == phone
  }

  /** Clean-up by phone number: every row with one of the numbers goes, unless its clean-up call failed. */
  function Cleaned(t: Table, rows: seq<Csv.EmployeeRow>, k: nat, stuck: set<string>): Table
    requires k <= |rows|
  {
    map id | id in t && !(HasPhone(rows, k, t[id].phone) && t[id].phone !in stuck) :: t[id]
  }

  const TRANSACT_MAX_ITEMS := 25

  /** The outcome of an import whose batch number `failing` is rejected, if any. */
  function AfterImport(t: Table, b: Csv.Buffer, ids: seq<string>, failing: Option<nat>, stuck: set<string>): (Table, Response) {
    var rows := FileRows(b);
    if rows.None? || |ids| < |rows.value| then (t, BadRequest)
    else if exists i :: 0 <= i < |rows.value| && Registered(t, rows.value[i].phone) then (t, Conflict)
    else AfterBatches(t, rows.value, ids, Stop(|rows.value|, failing, TRANSACT_MAX_ITEMS), stuck)
  }

  /** How many of `n` rows are written in batches of `size` when batch `failing`, if any, is rejected. */
  function Stop(n: nat, failing: Option<nat>, size: nat): (k: nat)
    ensures k <= n
  {
    if failing.Some? && failing.value * size < n then failing.value * size else n
  }

  /** At the start of a batch: it is the rejected one, or it can be written whole. */
  lemma BatchStops(n: nat, failing: Option<nat>, size: nat, batch: nat, start: nat)
    requires start == batch * size < n && start <= Stop(n, failing, size)
    ensures if failing == Some(batch) then Stop(n, failing, size) == start else Min(start + size, n) <= Stop(n, failing, size)
  {
    if failing.Some? && failing.value != batch {
      if failing.value < batch {
        assert failing.value * size + size <= batch * size by { Multiples(failing.value, batch, size); }
      } else {
        Multiples(batch, failing.value, size);
      }
    }
  }

  lemma {:induction false} Multiples(a: nat, b: nat, size: nat)
    requires a < b
    ensures a * size + size <= b * size
  {
    var c := b - 1;
    assert b * size == c * size + size by { OneMoreTime(c, size); }
    if a < c { Multiples(a, c, size); }
  }

  lemma OneMoreTime(c: nat, size: nat)
    ensures (c + 1) * size == c * size + size
  {
  }

  /** All rows inserted, or the first `n` inserted and cleaned up. */
  function AfterBatches(t: Table, rows: seq<Csv.EmployeeRow>, ids: seq<string>, n: nat, stuck: set<string>): (Table, Response)
    requires n <= |rows| <= |ids|
  {
    if n == |rows| then (Inserted(t, rows, ids, n), Success)
    else (Cleaned(Inserted(t, rows, ids, n), rows, n, stuck), RolledBack)
  }

  /** The rows of a file without any fault. */
  function FileRows(b: Csv.Buffer): Option<seq<Csv.EmployeeRow>> {
    if Csv.Acceptable(b) then
      var rs := b.decoded.value.records;
      if Csv.FaultyLines(rs, |rs|) == [] then Some(Csv.AcceptedRows(rs, |rs|)) else None
    else None
  }

  method ReadFile(b: Csv.Buffer) returns (rows: Option<seq<Csv.EmployeeRow>>)
    ensures rows == FileRows(b)
  {
    var parsed := Csv.ParseEmployeeCsv(b);
    if Csv.Acceptable(b) {
      ghost var rs := b.decoded.value.records;
      assert |Csv.Lines(parsed.errors)| == |Csv.FaultyLines(rs, |rs|)|;
    }
    rows := if parsed.errors == [] then Some(parsed.rows) else None;
  }

  // --- The stored table ----------------------------------------------------------

  class EmployeeStore {
    var rows: Table

    constructor ()
      ensures rows == map[]
    {
      rows := map[];
    }

    method PhoneAlreadyRegistered(phone: string) returns (found: bool)
      ensures found <==> Registered(rows, phone)
    {
      var rest := rows.Keys;
      while rest != {}
        invariant rest <= rows.Keys
        invariant forall id | Active(rows, id) && rows[id].phone == phone :: id in rest
        decreases |rest|
      {
        var id :| id in rest;
        if !rows[id].deleted && rows[id].phone == phone { return true; }
        rest := rest - {id};
      }
      return false;
    }

    method CreateEmployee(r: NewEmployee, id: string, reply: CognitoReply) returns (response: Response)
      modifies this
      ensures (rows, response) == AfterCreate(old(rows), r, id, reply)
    {
      if !IsValidName(r.name) || !IsValidPhone(r.phone) { return BadRequest; }
      if r.adminEmail.Some? && !IsValidEmail(r.adminEmail.value) { return BadRequest; }
      var phone := DomesticToE164(r.phone);
      var taken := PhoneAlreadyRegistered(phone);
      if taken { return Conflict; }
      var sub := "";
      if r.adminEmail.Some? {
        match reply {
          case Created(s) => sub := s;
          case UsernameExists => return Conflict;
          case Failure => return Raised;
        }
      }
      rows := rows[id := Employee(r.name, phone, r.adminEmail.Some?, sub, false)];
      return Success;
    }

    method UpdateEmployee(id: string, name: Option<string>, phone: Option<string>) returns (response: Response)
      modifies this
      ensures (rows, response) == AfterUpdate(old(rows), id, name, phone)
    {
      if id !in rows || rows[id].deleted { return NotFound; }
      var newName, newPhone := rows[id].name, rows[id].phone;
      if name.Some? { newName := name.value; }
      if phone.Some? { newPhone := phone.value; }
      if !IsValidName(newName) || !IsValidPhone(newPhone) { return BadRequest; }
      newPhone := DomesticToE164(newPhone);
      if newPhone != rows[id].phone {
        var taken := PhoneAlreadyRegistered(newPhone);
        if taken { return Conflict; }
      }
      rows := rows[id := rows[id].(name := newName, phone := newPhone)];
      return Success;
    }

    method DeleteEmployee(id: string) returns (response: Response)
      modifies this
      ensures (rows, response) == AfterDelete(old(rows), id)
    {
      if id !in rows || rows[id].deleted { return NotFound; }
      rows := rows[id := rows[id].(deleted := true, phone := "", cognitoSub := "")];
      return Success;
    }

    /** One batch: all of its rows are added, or the call is rejected and none is. */
    method TransactWrite(batch: seq<Csv.EmployeeRow>, ids: seq<string>, rejected: bool) returns (ok: bool)
      requires |batch| == |ids| <= TRANSACT_MAX_ITEMS
      modifies this
      ensures ok == !rejected
      ensures rows == if rejected then old(rows) else Inserted(old(rows), batch, ids, |batch|)
    {
      if rejected { return false; }
      for i := 0 to |batch|
        invariant rows == Inserted(old(rows), batch, ids, i)
      {
        rows := rows[ids[i] := Imported(batch[i])];
      }
      return true;
    }

    method ImportCsv(b: Csv.Buffer, ids: seq<string>, failing: Option<nat>, stuck: set<string>) returns (response: Response)
      requires FileRows(b).Some? ==> |ids| >= |FileRows(b).value|
      modifies this
      ensures (rows, response) == AfterImport(old(rows), b, ids, failing, stuck)
    {
      var parsed := ReadFile(b);
      if parsed.None? { return BadRequest; }
      var duplicates := AnyRegistered(parsed.value);
      if duplicates { return Conflict; }
      response := InsertBatches(parsed.value, ids, failing, stuck);
    }

    method AnyRegistered(file: seq<Csv.EmployeeRow>) returns (duplicates: bool)
      ensures duplicates <==> exists i :: 0 <= i < |file| && Registered(rows, file[i].phone)
    {
      duplicates := false;
      for i := 0 to |file|
        invariant duplicates <==> exists j :: 0 <= j < i && Registered(rows, file[j].phone)
      {
        var taken := PhoneAlreadyRegistered(file[i].phone);
        if taken { duplicates := true; }
      }
    }

    method InsertBatches(file: seq<Csv.EmployeeRow>, ids: seq<string>, failing: Option<nat>, stuck: set<string>)
      returns (response: Response)
      requires |file| <= |ids|
      modifies this
      ensures (rows, response) == AfterBatches(old(rows), file, ids, Stop(|file|, failing, TRANSACT_MAX_ITEMS), stuck)
    {
      var start, batch := 0, 0;
      while start < |file|
        invariant 0 <= start <= |file| && (start < |file| ==> start == batch * TRANSACT_MAX_ITEMS)
        invariant start <= Stop(|file|, failing, TRANSACT_MAX_ITEMS)
        invariant rows == Inserted(old(rows), file, ids, start)
      {
        var end := Min(start + TRANSACT_MAX_ITEMS, |file|);
        BatchStops(|file|, failing, TRANSACT_MAX_ITEMS, batch, start);
        var ok := TransactWrite(file[start..end], ids[start..end], failing == Some(batch));
        if !ok {
          RollbackInserted(file[..start], stuck);
          CleanedPrefix(Inserted(old(rows), file, ids, start), file, start, stuck);
          return RolledBack;
        }
        InsertedSplit(old(rows), file, ids, start, end);
        start, batch := end, batch + 1;
      }
      return Success;
    }

    /** One clean-up after another; a failing call is logged and skipped. */
    method RollbackInserted(inserted: seq<Csv.EmployeeRow>, stuck: set<string>)
      modifies this
      ensures rows == Cleaned(old(rows), inserted, |inserted|, stuck)
    {
      for i := 0 to |inserted|
        invariant rows == Cleaned(old(rows), inserted, i, stuck)
      {
        var phone := inserted[i].phone;
        if phone !in stuck {
          rows := map id | id in rows && rows[id].phone != phone :: rows[id];
        }
      }
    }
  }

  lemma CleanedPrefix(t: Table, rows: seq<Csv.EmployeeRow>, k: nat, stuck: set<string>)
    requires k <= |rows|
    ensures Cleaned(t, rows[..k], k, stuck) == Cleaned(t, rows, k, stuck)
  {
    forall p ensures HasPhone(rows[..k], k, p) <==> HasPhone(rows, k, p) {
      if i :| 0 <= i < k && rows[i].phone == p { assert rows[..k][i].phone == p; }
    }
  }

  lemma {:induction false} InsertedSplit(t: Table, rows: seq<Csv.EmployeeRow>, ids: seq<string>, i: nat, j: nat)
    requires i <= j <= |rows| <= |ids|
    ensures Inserted(Inserted(t, rows, ids, i), rows[i..j], ids[i..j], j - i) == Inserted(t, rows, ids, j)
  {
    if i < j {
      InsertedSplit(t, rows, ids, i, j - 1);
      InsertedPrefix(Inserted(t, rows, ids, i), rows[i..j], ids[i..j], j - 1 - i);
      assert rows[i..j][..j - 1 - i] == rows[i..j - 1] && ids[i..j][..j - 1 - i] == ids[i..j - 1];
    }
  }

  lemma {:induction false} InsertedPrefix(t: Table, rows: seq<Csv.EmployeeRow>, ids: seq<string>, k: nat)
    requires k <= |rows| <= |ids|
    ensures Inserted(t, rows, ids, k) == Inserted(t, rows[..k], ids[..k], k)
    decreases k
  {
    if k > 0 {
      InsertedPrefix(t, rows, ids, k - 1);
      InsertedPrefix(t, rows[..k], ids[..k], k - 1);
      assert rows[..k][..k - 1] == rows[..k - 1] && ids[..k][..k - 1] == ids[..k - 1];
    }
  }

  // --- What every request keeps ------------------------------------------------------

  /** Identifiers are fresh and distinct. */
  ghost predicate FreshIds(t: Table, ids: seq<string>) {
    && (forall i | 0 <= i < |ids| :: ids[i] !in t)
    && (forall i, j | 0 <= i < j < |ids| :: ids[i] != ids[j])
  }

  /** Valid rows with distinct numbers, none of which is registered yet. */
  ghost predicate NewRows(t: Table, rows: seq<Csv.EmployeeRow>) {
    && (forall i | 0 <= i < |rows| :: IsValidE164(rows[i].phone) && !Registered(t, rows[i].phone))
    && (forall i, j | 0 <= i < j < |rows| :: rows[i].phone != rows[j].phone)
  }

  /** The old rows are untouched and the first `k` rows of the file are there, each under its own identifier. */
  lemma {:induction false} InsertedExact(t: Table, rows: seq<Csv.EmployeeRow>, ids: seq<string>, k: nat)
    requires k <= |rows| <= |ids| && FreshIds(t, ids)
    ensures var t' := Inserted(t, rows, ids, k);
      && (forall id | id in t :: id in t' && t'[id] == t[id])
      && (forall i | 0 <= i < k :: ids[i] in t' && t'[ids[i]] == Imported(rows[i]))
      && (forall id | id in t' :: id in t || exists i :: 0 <= i < k && ids[i] == id)
  {
    if k > 0 {
      InsertedExact(t, rows, ids, k - 1);
    }
  }

  lemma InsertedValid(t: Table, rows: seq<Csv.EmployeeRow>, ids: seq<string>, k: nat)
    requires k <= |rows| <= |ids| && FreshIds(t, ids) && Valid(t) && NewRows(t, rows)
    ensures Valid(Inserted(t, rows, ids, k))
  {
    InsertedExact(t, rows, ids, k);
    var t' := Inserted(t, rows, ids, k);
    forall id | id in t' ensures if t'[id].deleted then t'[id].phone == "" else IsValidE164(t'[id].phone) {
      if id !in t { var i :| 0 <= i < k && ids[i] == id; }
    }
    forall a, b | Active(t', a) && Active(t', b) && t'[a].phone == t'[b].phone ensures a == b {
      if a !in t { var i :| 0 <= i < k && ids[i] == a; assert !Registered(t, rows[i].phone); }
      if b !in t { var j :| 0 <= j < k && ids[j] == b; assert !Registered(t, rows[j].phone); }
    }
  }

  lemma FileRowsNew(t: Table, b: Csv.Buffer)
    requires FileRows(b).Some?
    requires !exists i :: 0 <= i < |FileRows(b).value| && Registered(t, FileRows(b).value[i].phone)
    ensures NewRows(t, FileRows(b).value)
  {
    var rs, rows := b.decoded.value.records, FileRows(b).value;
    forall i | 0 <= i < |rows|
      ensures IsValidE164(rows[i].phone) && !Registered(t, rows[i].phone) && forall c | 0 <= c < i :: rows[c].phone != rows[i].phone
    {
      Csv.AcceptedDistinct(rs, |rs|, i);
    }
  }

  lemma RollbackRows(t: Table, rows: seq<Csv.EmployeeRow>, ids: seq<string>, n: nat, stuck: set<string>)
    requires n <= |rows| <= |ids| && FreshIds(t, ids) && Valid(t) && NewRows(t, rows)
    ensures var t' := Cleaned(Inserted(t, rows, ids, n), rows, n, stuck);
      && (forall id | id in t :: id in t' && t'[id] == t[id])
      && (forall id | id in t' && id !in t :: exists i :: 0 <= i < n && id == ids[i] && rows[i].phone in stuck)
      && (forall i | 0 <= i < n && rows[i].phone in stuck :: ids[i] in t' && t'[ids[i]] == Imported(rows[i]))
  {
    InsertedExact(t, rows, ids, n);
    forall id | id in t ensures !HasPhone(rows, n, t[id].phone) { OldNumberKept(t, rows, n, id); }
    forall i | 0 <= i < n ensures HasPhone(rows, n, rows[i].phone) { }
  }

  /**
   All or nothing: whichever batch of a file of new rows fails, cleaning up by phone number leaves
   exactly the table from before the import, except for the inserted rows whose clean-up failed.
   */
  lemma RollbackExact(t: Table, rows: seq<Csv.EmployeeRow>, ids: seq<string>, n: nat, stuck: set<string>)
    requires n <= |rows| <= |ids| && FreshIds(t, ids) && Valid(t) && NewRows(t, rows)
    ensures var t' := Cleaned(Inserted(t, rows, ids, n), rows, n, stuck);
      && (forall id | id in t :: id in t' && t'[id] == t[id])
      && (forall id | id in t' && id !in t :: exists i :: 0 <= i < n && id == ids[i] && rows[i].phone in stuck)
      && (forall i | 0 <= i < n && rows[i].phone in stuck :: ids[i] in t' && t'[ids[i]] == Imported(rows[i]))
      && ((forall i | 0 <= i < n :: rows[i].phone !in stuck) ==> t' == t)
  {
    RollbackRows(t, rows, ids, n, stuck);
  }

  /** No row from before the import has a number of the file. */
  lemma OldNumberKept(t: Table, rows: seq<Csv.EmployeeRow>, n: nat, id: string)
    requires n <= |rows| && Valid(t) && NewRows(t, rows) && id in t
    ensures !HasPhone(rows, n, t[id].phone)
  {
    assert t[id].deleted || (Active(t, id) && Registered(t, t[id].phone));
    forall i | 0 <= i < n ensures rows[i].phone != t[id].phone {
      assert !Registered(t, rows[i].phone) && IsValidE164(rows[i].phone);
    }
  }

  /** A clean-up keeps the table valid, for it only removes rows. */
  lemma SubtableValid(t: Table, t': Table)
    requires Valid(t) && forall id | id in t' :: id in t && t'[id] == t[id]
    ensures Valid(t')
  {
    forall a, b | Active(t', a) && Active(t', b) && t'[a].phone == t'[b].phone ensures a == b {
      assert Active(t, a) && Active(t, b);
    }
  }

  datatype Request =
    | Create(employee: NewEmployee, id: string, reply: CognitoReply)
    | Update(id: string, name: Option<string>, phone: Option<string>)
    | Delete(id: string)
    | Import(file: Csv.Buffer, ids: seq<string>, failing: Option<nat>, stuck: set<string>)

  function Perform(t: Table, r: Request): (Table, Response) {
    match r
    case Create(e, id, reply) => AfterCreate(t, e, id, reply)
    case Update(id, name, phone) => AfterUpdate(t, id, name, phone)
    case Delete(id) => AfterDelete(t, id)
    case Import(b, ids, failing, stuck) => AfterImport(t, b, ids, failing, stuck)
  }

  /** The identifiers a request brings are new to the table. */
  ghost predicate BringsFreshIds(t: Table, r: Request) {
    match r
    case Create(_, id, _) => id !in t
    case Import(_, ids, _, _) => FreshIds(t, ids)
    case _ => true
  }

  lemma UpdateValid(t: Table, id: string, name: Option<string>, phone: Option<string>)
    requires Valid(t)
    ensures Valid(AfterUpdate(t, id, name, phone).0)
  {
    if AfterUpdate(t, id, name, phone).1.Success? {
      var given := if phone.Some? then phone.value else t[id].phone;
      Normalised(given, given);
    }
  }

  lemma ImportValid(t: Table, b: Csv.Buffer, ids: seq<string>, failing: Option<nat>, stuck: set<string>)
    requires Valid(t) && FreshIds(t, ids)
    ensures Valid(AfterImport(t, b, ids, failing, stuck).0)
  {
    var outcome := AfterImport(t, b, ids, failing, stuck);
    if outcome.1.Success? || outcome.1.RolledBack? {
      var rows := FileRows(b).value;
      FileRowsNew(t, b);
      var n := Stop(|rows|, failing, TRANSACT_MAX_ITEMS);
      InsertedValid(t, rows, ids, n);
      SubtableValid(Inserted(t, rows, ids, n), outcome.0);
    }
  }

  ghost predicate IsSerialRun(ts: seq<Table>, requests: seq<Request>) {
    && |ts| == |requests| + 1 && Valid(ts[0])
    && forall i {:trigger requests[i]} | 0 <= i < |requests| :: Follows(ts[i], requests[i], ts[i + 1])
  }

  ghost predicate Follows(t: Table, r: Request, t': Table) { BringsFreshIds(t, r) && t' == Perform(t, r).0 }

  lemma FollowsValid(t: Table, r: Request, t': Table)
    requires Valid(t) && Follows(t, r, t')
    ensures Valid(t')
  {
    match r
    case Update(id, name, phone) => UpdateValid(t, id, name, phone);
    case Import(b, ids, failing, stuck) => ImportValid(t, b, ids, failing, stuck);
    case _ =>
  }

  lemma FollowsAt(ts: seq<Table>, requests: seq<Request>, i: nat)
    requires IsSerialRun(ts, requests) && i < |requests|
    ensures Follows(ts[i], requests[i], ts[i + 1])
  {
  }

  /** Through every serial run active numbers stay distinct and deleted rows keep no number. */
  lemma {:induction false} SerialRunValid(ts: seq<Table>, requests: seq<Request>, i: nat)
    requires IsSerialRun(ts, requests) && i < |ts|
    ensures Valid(ts[i])
  {
    if i > 0 {
      SerialRunValid(ts, requests, i - 1);
      FollowsAt(ts, requests, i - 1);
      FollowsValid(ts[i - 1], requests[i - 1], ts[i]);
    }
  }

  /** In every serial run an import that fails and cleans up changes nothing; no row is ever lost. */
  lemma ImportAllOrNothing(ts: seq<Table>, requests: seq<Request>, i: nat)
    requires IsSerialRun(ts, requests) && i < |requests| && requests[i].Import?
    ensures Perform(ts[i], requests[i]).1 != Success && requests[i].stuck == {} ==> ts[i + 1] == ts[i]
    ensures forall id | id in ts[i] :: id in ts[i + 1] && ts[i + 1][id] == ts[i][id]
  {
    SerialRunValid(ts, requests, i);
    var t, r := ts[i], requests[i];
    assert Follows(t, r, ts[i + 1]);
    var outcome := Perform(t, r);
    if outcome.1.Success? || outcome.1.RolledBack? {
      FileRowsNew(t, r.file);
      var rows := FileRows(r.file).value;
      if outcome.1.Success? {
        InsertedExact(t, rows, r.ids, |rows|);
      } else {
        RollbackExact(t, rows, r.ids, Stop(|rows|, r.failing, TRANSACT_MAX_ITEMS), r.stuck);
      }
    }
  }

  /** A logically deleted employee stays exactly as deleted, whatever requests follow. */
  lemma {:induction false} DeletedStaysDeleted(ts: seq<Table>, requests: seq<Request>, i: nat, j: nat, id: string)
    requires IsSerialRun(ts, requests) && i <= j < |ts|
    requires id in ts[i] && ts[i][id].deleted
    ensures id in ts[j] && ts[j][id] == ts[i][id]
    decreases j
  {
    if i < j {
      DeletedStaysDeleted(ts, requests, i, j - 1, id);
      assert Follows(ts[j - 1], requests[j - 1], ts[j - 1 + 1]);
      if requests[j - 1].Import? { ImportAllOrNothing(ts, requests, j - 1); }
    }
  }
}
