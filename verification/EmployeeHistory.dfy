/**
 The Employee table read off the requests and their answers: what every row holds at any point of a
 serial run, where it came from, and which numbers are taken.
 */
module EmployeeHistory {
  import opened Wrappers
  import opened PhoneNumbers
  import opened EmployeeTable
  import Csv = EmployeeCsv

  predicate Succeeds(ts: seq<Table>, requests: seq<Request>, i: nat)
    requires i < |requests| && i < |ts|
  {
    Perform(ts[i], requests[i]).1 == Success
  }

  predicate Updates(ts: seq<Table>, requests: seq<Request>, i: nat, id: string)
    requires i < |requests| && i < |ts|
  {
    Succeeds(ts, requests, i) && requests[i].Update? && requests[i].id == id
  }

  predicate Deletes(ts: seq<Table>, requests: seq<Request>, i: nat, id: string)
    requires i < |requests| && i < |ts|
  {
    Succeeds(ts, requests, i) && requests[i] == Delete(id)
  }

  // --- What a row holds ----------------------------------------------------------------

  /** The name given last from request `i` on, or the one before. */
  function NameAfter(ts: seq<Table>, requests: seq<Request>, i: nat, j: nat, id: string, name: string): string
    requires i <= j <= |requests| && j <= |ts|
    decreases j
  {
    if i == j then name
    else if Updates(ts, requests, j - 1, id) && requests[j - 1].name.Some? then requests[j - 1].name.value
    else NameAfter(ts, requests, i, j - 1, id, name)
  }

  /** The number given last, in stored form; none after a deletion. */
  function NumberAfter(ts: seq<Table>, requests: seq<Request>, i: nat, j: nat, id: string, phone: string): string
    requires i <= j <= |requests| && j <= |ts|
    decreases j
  {
    if i == j then phone
    else if Deletes(ts, requests, j - 1, id) then ""
    else if Updates(ts, requests, j - 1, id) && requests[j - 1].phone.Some? then DomesticToE164(requests[j - 1].phone.value)
    else NumberAfter(ts, requests, i, j - 1, id, phone)
  }

  ghost predicate DeletedSince(ts: seq<Table>, requests: seq<Request>, i: nat, j: nat, id: string)
    requires j <= |requests| && j <= |ts|
  {
    exists k | i <= k < j :: Deletes(ts, requests, k, id)
  }

  /** One request leaves every row alone except the one it names. */
  lemma OneRequest(ts: seq<Table>, requests: seq<Request>, i: nat, id: string)
    requires IsSerialRun(ts, requests) && i < |requests| && id in ts[i]
    ensures id in ts[i + 1]
    ensures var before, after, r := ts[i][id], ts[i + 1][id], requests[i];
      && after.admin == before.admin
      && (Updates(ts, requests, i, id) ==>
            && !before.deleted && !after.deleted && after.cognitoSub == before.cognitoSub
            && after.name == (if r.name.Some? then r.name.value else before.name)
            && after.phone == (if r.phone.Some? then DomesticToE164(r.phone.value) else before.phone))
      && (Deletes(ts, requests, i, id) ==>
            !before.deleted && after.deleted && after.name == before.name && after.phone == after.cognitoSub == "")
      && (!Updates(ts, requests, i, id) && !Deletes(ts, requests, i, id) ==> after == before)
  {
    SerialRunValid(ts, requests, i);
    FollowsAt(ts, requests, i);
    match requests[i]
    case Import(_, _, _, _) => ImportAllOrNothing(ts, requests, i);
    case Update(other, _, phone) =>
      if Updates(ts, requests, i, id) && phone.None? { Normalised(ts[i][id].phone, ts[i][id].phone); }
    case _ =>
  }

  /** The row that the history of an earlier row tells. */
  ghost function Told(ts: seq<Table>, requests: seq<Request>, i: nat, j: nat, id: string, row: Employee): Employee
    requires i <= j <= |requests| && j <= |ts|
  {
    var gone := DeletedSince(ts, requests, i, j, id);
    Employee(NameAfter(ts, requests, i, j, id, row.name), NumberAfter(ts, requests, i, j, id, row.phone),
             row.admin, if gone then "" else row.cognitoSub, row.deleted || gone)
  }

  /** What one more request makes of the row. */
  function OneMore(ts: seq<Table>, requests: seq<Request>, i: nat, id: string, row: Employee): Employee
    requires i < |requests| && i < |ts|
  {
    var r := requests[i];
    if Deletes(ts, requests, i, id) then row.(phone := "", cognitoSub := "", deleted := true)
    else if Updates(ts, requests, i, id) then
      row.(name := if r.name.Some? then r.name.value else row.name,
           phone := if r.phone.Some? then DomesticToE164(r.phone.value) else row.phone)
    else row
  }

  lemma RowStep(ts: seq<Table>, requests: seq<Request>, i: nat, id: string)
    requires IsSerialRun(ts, requests) && i < |requests| && id in ts[i]
    ensures id in ts[i + 1] && ts[i + 1][id] == OneMore(ts, requests, i, id, ts[i][id])
  {
    OneRequest(ts, requests, i, id);
  }

  lemma ToldStep(ts: seq<Table>, requests: seq<Request>, i: nat, j: nat, id: string, row: Employee)
    requires i < j <= |requests| && j <= |ts|
    ensures Told(ts, requests, i, j, id, row) == OneMore(ts, requests, j - 1, id, Told(ts, requests, i, j - 1, id, row))
  {
    assert DeletedSince(ts, requests, i, j, id) <==> DeletedSince(ts, requests, i, j - 1, id) || Deletes(ts, requests, j - 1, id);
  }

  /**
   What a row holds at any later point: the name and the number given last, the role it was stored with,
   and after a deletion neither a number nor an identity.
   */
  lemma {:induction false} RowByHistory(ts: seq<Table>, requests: seq<Request>, i: nat, j: nat, id: string)
    requires IsSerialRun(ts, requests) && i <= j < |ts| && id in ts[i]
    ensures id in ts[j] && ts[j][id] == Told(ts, requests, i, j, id, ts[i][id])
    decreases j
  {
    if i < j {
      RowByHistory(ts, requests, i, j - 1, id);
      RowStep(ts, requests, j - 1, id);
      ToldStep(ts, requests, i, j, id, ts[i][id]);
    }
  }

  // --- Where rows come from -----------------------------------------------------------------

  /** The row a registration stores. */
  predicate StoredBy(row: Employee, r: NewEmployee, reply: CognitoReply) {
    && row.name == r.name && row.phone == DomesticToE164(r.phone) && !row.deleted
    && row.admin == r.adminEmail.Some?
    && (r.adminEmail.Some? ==> reply.Created? && row.cognitoSub == reply.sub)
    && (r.adminEmail.None? ==> row.cognitoSub == "")
  }

  /** A registration succeeds exactly if it is well formed, its number is free and the provider agrees; it adds one row. */
  lemma Registration(ts: seq<Table>, requests: seq<Request>, i: nat)
    requires IsSerialRun(ts, requests) && i < |requests| && requests[i].Create?
    ensures var t, t', r := ts[i], ts[i + 1], requests[i];
      && (Succeeds(ts, requests, i) <==>
            && WellFormedRequest(r.employee) && (forall id | Active(t, id) :: t[id].phone != DomesticToE164(r.employee.phone))
            && (r.employee.adminEmail.Some? ==> r.reply.Created?))
      && (Succeeds(ts, requests, i) ==> r.id in t' && StoredBy(t'[r.id], r.employee, r.reply) && t'.Keys == t.Keys + {r.id})
      && (!Succeeds(ts, requests, i) ==> t' == t)
      && (forall id | id in t :: id in t' && t'[id] == t[id])
  {
    FollowsAt(ts, requests, i);
  }

  /** A change succeeds exactly on an active row, with a valid name and number, if nobody else has the number; a deletion on an active row. */
  lemma ChangeAnswered(ts: seq<Table>, requests: seq<Request>, i: nat)
    requires IsSerialRun(ts, requests) && i < |requests| && (requests[i].Update? || requests[i].Delete?)
    ensures var t, r := ts[i], requests[i];
      && (r.Delete? ==> (Succeeds(ts, requests, i) <==> Active(t, r.id)))
      && (r.Update? ==> (Succeeds(ts, requests, i) <==>
            && Active(t, r.id) && (r.name.Some? ==> IsValidName(r.name.value)) && (r.name.None? ==> IsValidName(t[r.id].name))
            && (r.phone.Some? ==> IsValidPhone(r.phone.value))
            && forall id | Active(t, id) && id != r.id :: r.phone.None? || t[id].phone != DomesticToE164(r.phone.value)))
      && (!Active(t, r.id) ==> Perform(t, r) == (t, NotFound))
      && (!Succeeds(ts, requests, i) ==> ts[i + 1] == t)
  {
    FollowsAt(ts, requests, i);
    SerialRunValid(ts, requests, i);
    var t, r := ts[i], requests[i];
    if r.Update? && Active(t, r.id) {
      if r.phone.None? { Normalised(t[r.id].phone, t[r.id].phone); }
    }
  }

  /** A new row was stored by a registration, or stands in the file of an import that was completed or could not be cleaned up. */
  lemma NewRowFrom(ts: seq<Table>, requests: seq<Request>, i: nat, id: string)
    requires IsSerialRun(ts, requests) && i < |requests| && id in ts[i + 1] && id !in ts[i]
    ensures var row, r := ts[i + 1][id], requests[i];
      || (r.Create? && Succeeds(ts, requests, i) && r.id == id && StoredBy(row, r.employee, r.reply))
      || (&& r.Import? && FileRows(r.file).Some? && |FileRows(r.file).value| <= |r.ids|
          && exists k :: 0 <= k < |FileRows(r.file).value| && r.ids[k] == id && ImportedFrom(row, FileRows(r.file).value[k])
               && (Succeeds(ts, requests, i) || FileRows(r.file).value[k].phone in r.stuck))
  {
    SerialRunValid(ts, requests, i);
    FollowsAt(ts, requests, i);
    var r := requests[i];
    if r.Import? { ImportedRowFrom(ts[i], r, id); }
  }

  /** The row of an imported line: an employee, not an administrator. */
  predicate ImportedFrom(row: Employee, line: Csv.EmployeeRow) {
    row.name == line.name && row.phone == line.phone && !row.admin && row.cognitoSub == "" && !row.deleted
  }

  lemma ImportedRowFrom(t: Table, r: Request, id: string)
    requires Valid(t) && r.Import? && BringsFreshIds(t, r) && id in Perform(t, r).0 && id !in t
    ensures FileRows(r.file).Some? && |FileRows(r.file).value| <= |r.ids|
    ensures exists k :: 0 <= k < |FileRows(r.file).value| && r.ids[k] == id && ImportedFrom(Perform(t, r).0[id], FileRows(r.file).value[k])
              && (Perform(t, r).1.Success? || FileRows(r.file).value[k].phone in r.stuck)
  {
    var rows := FileRows(r.file).value;
    FileRowsNew(t, r.file);
    if Perform(t, r).1.Success? { InsertedExact(t, rows, r.ids, |rows|); } else { LeftOver(t, r, rows, id); }
  }

  /** What a clean-up has left over. */
  lemma LeftOver(t: Table, r: Request, rows: seq<Csv.EmployeeRow>, id: string)
    requires Valid(t) && r.Import? && |rows| <= |r.ids| && FreshIds(t, r.ids) && NewRows(t, rows) && id !in t
    requires var n := Stop(|rows|, r.failing, TRANSACT_MAX_ITEMS); id in Cleaned(Inserted(t, rows, r.ids, n), rows, n, r.stuck)
    ensures var n := Stop(|rows|, r.failing, TRANSACT_MAX_ITEMS);
      exists k :: 0 <= k < |rows| && r.ids[k] == id && rows[k].phone in r.stuck
               && ImportedFrom(Cleaned(Inserted(t, rows, r.ids, n), rows, n, r.stuck)[id], rows[k])
  {
    RollbackExact(t, rows, r.ids, Stop(|rows|, r.failing, TRANSACT_MAX_ITEMS), r.stuck);
  }

  /** An import succeeds exactly if the file is faultless, no number of it is taken, and no batch is rejected. */
  lemma ImportAnswered(ts: seq<Table>, requests: seq<Request>, i: nat)
    requires IsSerialRun(ts, requests) && i < |requests| && requests[i].Import?
    requires FileRows(requests[i].file).Some? ==> |FileRows(requests[i].file).value| <= |requests[i].ids|
    ensures var t, r := ts[i], requests[i];
      && (FileRows(r.file).None? <==> Perform(t, r).1 == BadRequest)
      && (Succeeds(ts, requests, i) <==>
            && FileRows(r.file).Some?
            && (forall k, id | 0 <= k < |FileRows(r.file).value| && Active(t, id) :: t[id].phone != FileRows(r.file).value[k].phone)
            && (r.failing.None? || r.failing.value * 25 >= |FileRows(r.file).value|))
  {
    var t, r := ts[i], requests[i];
    if FileRows(r.file).Some? {
      var rows := FileRows(r.file).value;
      forall k | 0 <= k < |rows| ensures Registered(t, rows[k].phone) <==> exists id :: Active(t, id) && t[id].phone == rows[k].phone { }
    }
  }

  /** A completed import stores every line of the file. */
  lemma ImportedAll(ts: seq<Table>, requests: seq<Request>, i: nat)
    requires IsSerialRun(ts, requests) && i < |requests| && requests[i].Import? && Succeeds(ts, requests, i)
    ensures var t', r := ts[i + 1], requests[i];
      && FileRows(r.file).Some? && |FileRows(r.file).value| <= |r.ids|
      && forall k | 0 <= k < |FileRows(r.file).value| :: r.ids[k] in t' && ImportedFrom(t'[r.ids[k]], FileRows(r.file).value[k])
  {
    FollowsAt(ts, requests, i);
    var rows := FileRows(requests[i].file).value;
    InsertedExact(ts[i], rows, requests[i].ids, |rows|);
  }

  /** What was registered, at any later point: the given name, number, role and identity, and what has happened to them since. */
  lemma RegisteredRow(ts: seq<Table>, requests: seq<Request>, i: nat, j: nat)
    requires IsSerialRun(ts, requests) && i < j < |ts| && requests[i].Create? && Succeeds(ts, requests, i)
    ensures var r := requests[i];
      var stored := Employee(r.employee.name, DomesticToE164(r.employee.phone), r.employee.adminEmail.Some?,
                             if r.employee.adminEmail.Some? then r.reply.sub else "", false);
      (r.employee.adminEmail.Some? ==> r.reply.Created?) && r.id in ts[j] && ts[j][r.id] == Told(ts, requests, i + 1, j, r.id, stored)
  {
    Registration(ts, requests, i);
    RowByHistory(ts, requests, i + 1, j, requests[i].id);
  }

  lemma ImportedLine(ts: seq<Table>, requests: seq<Request>, i: nat, k: nat)
    requires IsSerialRun(ts, requests) && i < |requests| && requests[i].Import? && Succeeds(ts, requests, i)
    requires FileRows(requests[i].file).Some? && k < |FileRows(requests[i].file).value| && k < |requests[i].ids|
    ensures var id, line := requests[i].ids[k], FileRows(requests[i].file).value[k];
      id in ts[i + 1] && ts[i + 1][id] == Employee(line.name, line.phone, false, "", false)
  {
    ImportedAll(ts, requests, i);
  }

  /** What was imported, at any later point: each line's name and number, as an employee. */
  lemma ImportedRow(ts: seq<Table>, requests: seq<Request>, i: nat, j: nat, k: nat)
    requires IsSerialRun(ts, requests) && i < j < |ts| && requests[i].Import? && Succeeds(ts, requests, i)
    requires FileRows(requests[i].file).Some? && k < |FileRows(requests[i].file).value| && k < |requests[i].ids|
    ensures var id, line := requests[i].ids[k], FileRows(requests[i].file).value[k];
      id in ts[j] && ts[j][id] == Told(ts, requests, i + 1, j, id, Employee(line.name, line.phone, false, "", false))
  {
    ImportedLine(ts, requests, i, k);
    RowByHistory(ts, requests, i + 1, j, requests[i].ids[k]);
  }

  // --- Which numbers are taken -------------------------------------------------------------------

  /** Nothing has happened to the row that would free or change its number. */
  ghost predicate NumberUntouched(ts: seq<Table>, requests: seq<Request>, i: nat, j: nat, id: string)
    requires j <= |requests| && j <= |ts|
  {
    forall k | i <= k < j :: !Updates(ts, requests, k, id) && !Deletes(ts, requests, k, id)
  }

  lemma {:induction false} UntouchedRow(ts: seq<Table>, requests: seq<Request>, i: nat, j: nat, id: string)
    requires IsSerialRun(ts, requests) && i <= j < |ts| && id in ts[i] && NumberUntouched(ts, requests, i, j, id)
    ensures id in ts[j] && ts[j][id] == ts[i][id]
    decreases j
  {
    if i < j {
      UntouchedRow(ts, requests, i, j - 1, id);
      OneRequest(ts, requests, j - 1, id);
      assert !Updates(ts, requests, j - 1, id) && !Deletes(ts, requests, j - 1, id);
    }
  }

  /**
   The number of a registered employee stays taken until the employee is updated or deleted: a second
   registration of it is a conflict, so is another employee's change to it, and a file with it is not imported.
   */
  lemma NumberStaysTaken(ts: seq<Table>, requests: seq<Request>, i: nat, j: nat)
    requires IsSerialRun(ts, requests) && i < j < |requests| && requests[i].Create? && Succeeds(ts, requests, i)
    requires NumberUntouched(ts, requests, i + 1, j, requests[i].id)
    ensures var id, phone, r := requests[i].id, DomesticToE164(requests[i].employee.phone), requests[j];
      && Active(ts[j], id) && ts[j][id].phone == phone && Registered(ts[j], phone)
      && (r.Create? && WellFormedRequest(r.employee) && DomesticToE164(r.employee.phone) == phone ==>
            Perform(ts[j], r) == (ts[j], Conflict))
      && (r.Update? && r.id != id && r.phone.Some? && DomesticToE164(r.phone.value) == phone ==> !Succeeds(ts, requests, j))
      && (r.Import? && FileRows(r.file).Some? && (exists k :: 0 <= k < |FileRows(r.file).value| && FileRows(r.file).value[k].phone == phone) ==>
            !Succeeds(ts, requests, j))
  {
    var id := requests[i].id;
    Registration(ts, requests, i);
    UntouchedRow(ts, requests, i + 1, j, id);
    SerialRunValid(ts, requests, j);
    assert Active(ts[j], id);
  }

  // --- Deletion -------------------------------------------------------------------------------------

  /** A row is deleted exactly if a deletion of it has succeeded, or it was deleted from the start. */
  lemma {:induction false} DeletedByHistory(ts: seq<Table>, requests: seq<Request>, j: nat, id: string)
    requires IsSerialRun(ts, requests) && j < |ts|
    ensures id in ts[j] && ts[j][id].deleted <==> (id in ts[0] && ts[0][id].deleted) || DeletedSince(ts, requests, 0, j, id)
  {
    if j > 0 {
      DeletedByHistory(ts, requests, j - 1, id);
      FollowsAt(ts, requests, j - 1);
      assert DeletedSince(ts, requests, 0, j, id) <==> DeletedSince(ts, requests, 0, j - 1, id) || Deletes(ts, requests, j - 1, id);
      if id in ts[j - 1] {
        OneRequest(ts, requests, j - 1, id);
      } else if id in ts[j] {
        NewRowFrom(ts, requests, j - 1, id);
      }
    }
  }
}
