/** The two readers of an employee CSV file: the gate that accepts files, and the parser. */
module EmployeeCsv {
  import opened Wrappers
  import opened PhoneNumbers
  import opened Strings

  type Record = seq<string>

  /** The records a CSV reader yields; `broken` means that it fails after the last of them. */
  datatype Stream = Stream(records: seq<Record>, broken: bool)

  /** A byte buffer: its size, and its decoding if it is valid UTF-8. */
  datatype Buffer = Buffer(size: nat, decoded: Option<Stream>)

  const MAX_DATA_ROWS := 300
  const MAX_BYTES := 1024 * 1024
  const REQUIRED_HEADERS := ["name", "phoneNumber"]

  datatype EmployeeRow = EmployeeRow(name: string, phone: string)

  datatype Reason =
    | TooLarge | NotUtf8 | EmptyFile | UnreadableHeader | WrongHeader | TooManyRows | Unreadable | NoDataRows
    | WrongColumns | InvalidName | InvalidPhone | DuplicateOf(line: nat)

  datatype CsvError = CsvError(line: nat, reason: Reason)

  datatype ParseResult = ParseResult(rows: seq<EmployeeRow>, errors: seq<CsvError>)

  // --- What the records say -----------------------------------------------------

  function StripAll(r: Record): (s: Record)
    ensures |s| == |r| && forall i | 0 <= i < |r| :: s[i] == Strip(r[i])
  {
    seq(|r|, i requires 0 <= i < |r| => Strip(r[i]))
  }

  predicate HeaderFits(r: Record) { StripAll(r) == REQUIRED_HEADERS }

  predicate Blank(r: Record) { r == [] || (|r| == 1 && Strip(r[0]) == []) }

  predicate WellFormed(r: Record) { |r| == 2 && IsValidName(Strip(r[0])) && IsValidDomestic(Strip(r[1])) }

  function RowOf(r: Record): EmployeeRow
    requires |r| == 2
  {
    EmployeeRow(Strip(r[0]), DomesticToE164(Strip(r[1])))
  }

  /** The stored phone number of a well-formed record. */
  function PhoneOf(r: Record): Option<string> { if WellFormed(r) then Some(RowOf(r).phone) else None }

  function Phones(rs: seq<Record>): (ps: seq<Option<string>>)
    ensures |ps| == |rs| && forall j | 0 <= j < |rs| :: ps[j] == PhoneOf(rs[j])
  {
    seq(|rs|, j requires 0 <= j < |rs| => PhoneOf(rs[j]))
  }

  /** An earlier data row gives the same number. */
  predicate Repeats(ps: seq<Option<string>>, i: nat)
    requires i < |ps|
  {
    exists j :: 1 <= j < i && ps[j] == ps[i]
  }

  predicate Accepted(rs: seq<Record>, i: nat)
    requires i < |rs|
  {
    WellFormed(rs[i]) && !Repeats(Phones(rs), i)
  }

  function DataRows(rs: seq<Record>, k: nat): nat
    requires k <= |rs|
  {
    if k <= 1 then 0 else DataRows(rs, k - 1) + if Blank(rs[k - 1]) then 0 else 1
  }

  function AcceptedRows(rs: seq<Record>, k: nat): seq<EmployeeRow>
    requires k <= |rs|
  {
    if k <= 1 then [] else AcceptedRows(rs, k - 1) + if Accepted(rs, k - 1) then [RowOf(rs[k - 1])] else []
  }

  /** The line numbers of the data rows that are malformed or repeat an earlier phone number. */
  function FaultyLines(rs: seq<Record>, k: nat): seq<nat>
    requires k <= |rs|
  {
    if k <= 1 then []
    else FaultyLines(rs, k - 1) + if !Blank(rs[k - 1]) && !Accepted(rs, k - 1) then [k] else []
  }

  function Lines(errors: seq<CsvError>): seq<nat> {
    seq(|errors|, i requires 0 <= i < |errors| => errors[i].line)
  }

  predicate FileLevel(r: Reason) {
    r.TooLarge? || r.NotUtf8? || r.EmptyFile? || r.UnreadableHeader? || r.WrongHeader? || r.TooManyRows? || r.Unreadable? || r.NoDataRows?
  }

  predicate ReportsFile(errors: seq<CsvError>) { exists i :: 0 <= i < |errors| && FileLevel(errors[i].reason) }

  /** The file as a whole can be imported; its rows may still be faulty. */
  predicate Acceptable(b: Buffer) {
    && b.size <= MAX_BYTES && b.decoded.Some?
    && var s := b.decoded.value;
       && s.records != [] && HeaderFits(s.records[0]) && !s.broken
       && 1 <= DataRows(s.records, |s.records|) <= MAX_DATA_ROWS
  }

  lemma {:induction false} DataRowsMonotone(rs: seq<Record>, i: nat, k: nat)
    requires i <= k <= |rs|
    ensures DataRows(rs, i) <= DataRows(rs, k)
  {
    if i < k { DataRowsMonotone(rs, i, k - 1); }
  }

  // --- What an error says -----------------------------------------------------------

  /** Why data row `i` is refused; of several reasons the first in this order. */
  ghost predicate Explains(rs: seq<Record>, i: nat, reason: Reason)
    requires i < |rs|
  {
    match reason
    case WrongColumns => |rs[i]| != 2
    case InvalidName => |rs[i]| == 2 && !IsValidName(Strip(rs[i][0]))
    case InvalidPhone => |rs[i]| == 2 && IsValidName(Strip(rs[i][0])) && !IsValidDomestic(Strip(rs[i][1]))
    case DuplicateOf(line) => WellFormed(rs[i]) && 2 <= line <= i && FirstWith(rs, line - 1, Strip(rs[i][1]))
    case _ => false
  }

  /** Row `j` is the first to give the number. */
  ghost predicate FirstWith(rs: seq<Record>, j: nat, number: string)
    requires 1 <= j < |rs|
  {
    WellFormed(rs[j]) && Strip(rs[j][1]) == number && forall h | 1 <= h < j && WellFormed(rs[h]) :: Strip(rs[h][1]) != number
  }

  ghost predicate Explained(rs: seq<Record>, errors: seq<CsvError>) {
    forall i | 0 <= i < |errors| :: 2 <= errors[i].line <= |rs| && Explains(rs, errors[i].line - 1, errors[i].reason)
  }

  /** Why a file is refused as a whole. */
  ghost predicate FileFault(b: Buffer, reason: Reason) {
    if b.size > MAX_BYTES then reason == TooLarge
    else if b.decoded.None? then reason == NotUtf8
    else
      var rs, broken := b.decoded.value.records, b.decoded.value.broken;
      if rs == [] then reason == if broken then UnreadableHeader else EmptyFile
      else if !HeaderFits(rs[0]) then reason == WrongHeader
      else if DataRows(rs, |rs|) > MAX_DATA_ROWS then reason == TooManyRows
      else if broken then reason == Unreadable
      else DataRows(rs, |rs|) == 0 && reason == NoDataRows
  }

  // --- The gate ---------------------------------------------------------------------

  method AcceptCsvFile(b: Buffer) returns (ok: bool)
    ensures ok <==> Acceptable(b)
  {
    if b.size > MAX_BYTES || b.decoded.None? { return false; }
    var rs := b.decoded.value.records;
    if rs == [] || !HeaderFits(rs[0]) { return false; }
    var count := 0;
    for i := 1 to |rs|
      invariant count == DataRows(rs, i) <= MAX_DATA_ROWS
    {
      if !Blank(rs[i]) {
        count := count + 1;
        if count > MAX_DATA_ROWS {
          DataRowsMonotone(rs, i + 1, |rs|);
          return false;
        }
      }
    }
    return !b.decoded.value.broken && count >= 1;
  }

  // --- The parser ---------------------------------------------------------------------

  /** The phones of the rows so far, with the line each was first seen on. */
  ghost predicate SeenFits(ps: seq<Option<string>>, k: nat, seen: map<string, nat>)
    requires k <= |ps|
  {
    && (forall p | p in seen :: 2 <= seen[p] <= k && ps[seen[p] - 1] == Some(p))
    && (forall j | 1 <= j < k && ps[j].Some? :: ps[j].value in seen)
  }

  lemma SeenStep(ps: seq<Option<string>>, i: nat, seen: map<string, nat>)
    requires 1 <= i < |ps| && SeenFits(ps, i, seen)
    ensures ps[i].Some? ==> (ps[i].value in seen <==> Repeats(ps, i))
    ensures ps[i].None? || ps[i].value in seen ==> SeenFits(ps, i + 1, seen)
    ensures ps[i].Some? ==> SeenFits(ps, i + 1, seen[ps[i].value := i + 1])
  {
    if ps[i].Some? && ps[i].value in seen { assert ps[seen[ps[i].value] - 1] == ps[i]; }
  }

  /** Where each accepted number was first seen. */
  function SeenAt(rs: seq<Record>, k: nat): map<string, nat>
    requires k <= |rs|
  {
    if k <= 1 then map[]
    else if Accepted(rs, k - 1) then SeenAt(rs, k - 1)[RowOf(rs[k - 1]).phone := k]
    else SeenAt(rs, k - 1)
  }

  lemma {:induction false} SeenAtFits(rs: seq<Record>, k: nat)
    requires k <= |rs|
    ensures SeenFits(Phones(rs), k, SeenAt(rs, k))
  {
    if k > 1 {
      SeenAtFits(rs, k - 1);
      SeenStep(Phones(rs), k - 1, SeenAt(rs, k - 1));
    }
  }

  ghost predicate Progress(rs: seq<Record>, k: nat, parsed: seq<EmployeeRow>, errors: seq<CsvError>, seen: map<string, nat>)
    requires k <= |rs|
  {
    && parsed == AcceptedRows(rs, k) && Lines(errors) == FaultyLines(rs, k) && !ReportsFile(errors) && seen == SeenAt(rs, k)
    && Explained(rs, errors)
  }

  /** Looking a number up among those seen tells whether the row is accepted. */
  lemma SeenTells(rs: seq<Record>, i: nat)
    requires 1 <= i < |rs|
    ensures Accepted(rs, i) <==> PhoneOf(rs[i]).Some? && PhoneOf(rs[i]).value !in SeenAt(rs, i)
  {
    SeenAtFits(rs, i);
    SeenStep(Phones(rs), i, SeenAt(rs, i));
  }

  /** The number was first given on that line. */
  ghost predicate FirstGiven(rs: seq<Record>, line: nat, phone: string) {
    2 <= line <= |rs| && PhoneOf(rs[line - 1]) == Some(phone) && forall h | 1 <= h < line - 1 :: PhoneOf(rs[h]) != Some(phone)
  }

  /** A number seen was first given on the line noted for it. */
  lemma {:induction false} SeenAtFirst(rs: seq<Record>, i: nat, phone: string)
    requires i <= |rs| && phone in SeenAt(rs, i)
    ensures SeenAt(rs, i)[phone] <= i && FirstGiven(rs, SeenAt(rs, i)[phone], phone)
  {
    if Accepted(rs, i - 1) && RowOf(rs[i - 1]).phone == phone {
      NotSeenBefore(rs, i - 1, phone);
    } else {
      SeenAtFirst(rs, i - 1, phone);
    }
  }

  lemma NotSeenBefore(rs: seq<Record>, i: nat, phone: string)
    requires 1 <= i < |rs| && Accepted(rs, i) && RowOf(rs[i]).phone == phone
    ensures FirstGiven(rs, i + 1, phone)
  {
    var ps := Phones(rs);
    assert ps[i] == Some(phone);
    forall h | 1 <= h < i ensures PhoneOf(rs[h]) != Some(phone) { assert ps[h] == PhoneOf(rs[h]) && ps[h] != ps[i]; }
  }

  lemma SameNumber(a: Record, b: Record)
    requires WellFormed(a) && WellFormed(b)
    ensures PhoneOf(a) == PhoneOf(b) <==> Strip(a[1]) == Strip(b[1])
  {
    DomesticInjective(Strip(a[1]), Strip(b[1]));
  }

  lemma FirstByNumber(rs: seq<Record>, i: nat, line: nat)
    requires i < |rs| && WellFormed(rs[i]) && 2 <= line <= i && PhoneOf(rs[line - 1]) == PhoneOf(rs[i])
    requires forall h | 1 <= h < line - 1 :: PhoneOf(rs[h]) != PhoneOf(rs[i])
    ensures Explains(rs, i, DuplicateOf(line))
  {
    SameNumber(rs[line - 1], rs[i]);
    forall h | 1 <= h < line - 1 && WellFormed(rs[h]) ensures Strip(rs[h][1]) != Strip(rs[i][1]) { SameNumber(rs[h], rs[i]); }
  }

  lemma SeenFirst(rs: seq<Record>, i: nat)
    requires 1 <= i < |rs| && WellFormed(rs[i]) && RowOf(rs[i]).phone in SeenAt(rs, i)
    ensures Explains(rs, i, DuplicateOf(SeenAt(rs, i)[RowOf(rs[i]).phone]))
  {
    SeenAtFirst(rs, i, RowOf(rs[i]).phone);
    FirstByNumber(rs, i, SeenAt(rs, i)[RowOf(rs[i]).phone]);
  }

  /** What `CheckRow` says of a row explains its refusal. */
  lemma FaultExplained(rs: seq<Record>, i: nat, reason: Reason)
    requires 1 <= i < |rs|
    requires reason == WrongColumns <==> |rs[i]| != 2
    requires reason == InvalidName <==> |rs[i]| == 2 && !IsValidName(Strip(rs[i][0]))
    requires reason == InvalidPhone <==> |rs[i]| == 2 && IsValidName(Strip(rs[i][0])) && !IsValidDomestic(Strip(rs[i][1]))
    requires WellFormed(rs[i]) ==> RowOf(rs[i]).phone in SeenAt(rs, i) && reason == DuplicateOf(SeenAt(rs, i)[RowOf(rs[i]).phone])
    ensures Explains(rs, i, reason)
  {
    if WellFormed(rs[i]) { SeenFirst(rs, i); }
  }

  method AddRow(rs: seq<Record>, i: nat, parsed: seq<EmployeeRow>, errors: seq<CsvError>, seen: map<string, nat>)
    returns (parsed': seq<EmployeeRow>, errors': seq<CsvError>, seen': map<string, nat>)
    requires 1 <= i < |rs| && !Blank(rs[i]) && Progress(rs, i, parsed, errors, seen)
    ensures Progress(rs, i + 1, parsed', errors', seen')
  {
    parsed', errors', seen' := parsed, errors, seen;
    SeenTells(rs, i);
    var fault, row := CheckRow(rs[i], seen);
    if fault.Some? {
      FaultExplained(rs, i, fault.value);
      errors' := errors + [CsvError(i + 1, fault.value)];
    } else {
      seen' := seen[row.phone := i + 1];
      parsed' := parsed + [row];
    }
  }

  /** One data row: why it is refused, if it is. */
  method CheckRow(record: Record, seen: map<string, nat>) returns (fault: Option<Reason>, row: EmployeeRow)
    ensures fault.None? <==> PhoneOf(record).Some? && PhoneOf(record).value !in seen
    ensures fault.None? ==> row == RowOf(record)
    ensures fault == Some(WrongColumns) <==> |record| != 2
    ensures fault == Some(InvalidName) <==> |record| == 2 && !IsValidName(Strip(record[0]))
    ensures fault == Some(InvalidPhone) <==> |record| == 2 && IsValidName(Strip(record[0])) && !IsValidDomestic(Strip(record[1]))
    ensures PhoneOf(record).Some? && PhoneOf(record).value in seen ==> fault == Some(DuplicateOf(seen[PhoneOf(record).value]))
  {
    row := EmployeeRow([], []);
    if |record| != 2 { return Some(WrongColumns), row; }
    var name, number := Strip(record[0]), Strip(record[1]);
    if !IsValidName(name) { return Some(InvalidName), row; }
    if !IsValidDomestic(number) { return Some(InvalidPhone), row; }
    var phone := DomesticToE164(number);
    if phone in seen { return Some(DuplicateOf(seen[phone])), row; }
    return None, EmployeeRow(name, phone);
  }

  /**
   The data rows. Every faulty line up to the point where reading stopped is reported, in order,
   and the last error is the file's own fault if there is one.
   */
  method ParseRows(s: Stream) returns (parsed: seq<EmployeeRow>, errors: seq<CsvError>, ghost read: nat)
    requires s.records != []
    ensures read <= |s.records| && parsed == AcceptedRows(s.records, read)
    ensures ReportsFile(errors) <==> s.broken || DataRows(s.records, |s.records|) > MAX_DATA_ROWS
    ensures !ReportsFile(errors) ==> read == |s.records| && Lines(errors) == FaultyLines(s.records, read)
    ensures ReportsFile(errors) ==> errors != [] && Lines(errors[..|errors| - 1]) == FaultyLines(s.records, read)
    ensures !ReportsFile(errors) ==> Explained(s.records, errors)
    ensures ReportsFile(errors) ==>
              && Explained(s.records, errors[..|errors| - 1])
              && errors[|errors| - 1].reason == if DataRows(s.records, |s.records|) > MAX_DATA_ROWS then TooManyRows else Unreadable
  {
    var rs := s.records;
    parsed, errors := [], [];
    var seen: map<string, nat> := map[];
    var count := 0;
    for i := 1 to |rs|
      invariant count == DataRows(rs, i) <= MAX_DATA_ROWS
      invariant Progress(rs, i, parsed, errors, seen)
    {
      if !Blank(rs[i]) {
        count := count + 1;
        if count > MAX_DATA_ROWS {
          DataRowsMonotone(rs, i + 1, |rs|);
          var all := WithFileError(errors, CsvError(i + 1, TooManyRows));
          return parsed, all, i;
        }
        parsed, errors, seen := AddRow(rs, i, parsed, errors, seen);
      }
    }
    read := |rs|;
    if s.broken { errors := WithFileError(errors, CsvError(0, Unreadable)); }
  }

  function WithFileError(errors: seq<CsvError>, e: CsvError): (all: seq<CsvError>)
    requires FileLevel(e.reason)
    ensures ReportsFile(all) && |all| == |errors| + 1 && all[..|errors|] == errors
  {
    var all := errors + [e];
    assert all[|errors|] == e;
    all
  }

  function FileError(line: nat, reason: Reason): (r: ParseResult)
    ensures FileLevel(reason) ==> ReportsFile(r.errors)
  {
    var e := CsvError(line, reason);
    assert [e][0] == e;
    ParseResult([], [e])
  }

  /**
   Rows or errors, never both and never neither. The parser blames the file exactly when the gate
   refuses it, and otherwise names exactly the faulty lines.
   */
  method ParseEmployeeCsv(b: Buffer) returns (r: ParseResult)
    ensures r.rows == [] <==> r.errors != []
    ensures ReportsFile(r.errors) <==> !Acceptable(b)
    ensures !Acceptable(b) ==> FileFault(b, r.errors[|r.errors| - 1].reason)
    ensures Acceptable(b) ==>
              var rs := b.decoded.value.records;
              && Explained(rs, r.errors)
              && Lines(r.errors) == FaultyLines(rs, |rs|)
              && (r.errors == [] ==> r.rows == AcceptedRows(rs, |rs|))
  {
    if b.size > MAX_BYTES { return FileError(0, TooLarge); }
    if b.decoded.None? { return FileError(0, NotUtf8); }
    var s := b.decoded.value;
    if s.records == [] {
      return FileError(0, if s.broken then UnreadableHeader else EmptyFile);
    }
    if !HeaderFits(s.records[0]) { return FileError(1, WrongHeader); }
    var parsed, errors, read := ParseRows(s);
    RowsAddUp(s.records, |s.records|);
    if errors != [] { return ParseResult([], errors); }
    if parsed == [] { return FileError(0, NoDataRows); }
    return ParseResult(parsed, []);
  }

  /** Every data row is accepted or faulty. */
  lemma {:induction false} RowsAddUp(rs: seq<Record>, k: nat)
    requires k <= |rs|
    ensures |AcceptedRows(rs, k)| + |FaultyLines(rs, k)| == DataRows(rs, k)
  {
    if k > 1 { RowsAddUp(rs, k - 1); }
  }

  // --- What the faulty lines mean ---------------------------------------------------------

  lemma {:induction false} FaultyLineIff(rs: seq<Record>, k: nat, i: nat)
    requires k <= |rs| && 1 <= i < k
    ensures i + 1 in FaultyLines(rs, k) <==> !Blank(rs[i]) && !Accepted(rs, i)
  {
    FaultyBound(rs, k - 1);
    if i < k - 1 { FaultyLineIff(rs, k - 1, i); }
  }

  lemma {:induction false} FaultyBound(rs: seq<Record>, k: nat)
    requires k <= |rs|
    ensures forall l | l in FaultyLines(rs, k) :: 2 <= l <= k
  {
    if k > 1 { FaultyBound(rs, k - 1); }
  }

  /**
   There is no faulty line exactly when every data row has a name and a domestic phone number, and
   the phone numbers as written in the file are pairwise distinct.
   */
  lemma NoFaultIff(rs: seq<Record>)
    ensures FaultyLines(rs, |rs|) == [] <==>
            && (forall i | 1 <= i < |rs| :: Blank(rs[i]) || WellFormed(rs[i]))
            && (forall i, j | 1 <= i < j < |rs| && WellFormed(rs[i]) && WellFormed(rs[j]) :: Strip(rs[i][1]) != Strip(rs[j][1]))
  {
    NoFaultyLineIff(rs);
    forall i | 1 <= i < |rs| ensures Accepted(rs, i) <==> NewNumber(rs, i) { FaultMeans(rs, i); }
  }

  /** The row is well formed and no earlier one has its number. */
  predicate NewNumber(rs: seq<Record>, i: nat)
    requires i < |rs|
  {
    WellFormed(rs[i]) && forall j | 1 <= j < i && WellFormed(rs[j]) :: Strip(rs[j][1]) != Strip(rs[i][1])
  }

  lemma NoFaultyLineIff(rs: seq<Record>)
    ensures FaultyLines(rs, |rs|) == [] <==> forall i | 1 <= i < |rs| :: Blank(rs[i]) || Accepted(rs, i)
  {
    var faulty := FaultyLines(rs, |rs|);
    forall i | 1 <= i < |rs| ensures i + 1 in faulty <==> !Blank(rs[i]) && !Accepted(rs, i) { FaultyLineIff(rs, |rs|, i); }
    FaultyBound(rs, |rs|);
    if faulty != [] {
      var l := faulty[0];
      assert l in faulty && (l - 1) + 1 == l;
      assert !Blank(rs[l - 1]) && !Accepted(rs, l - 1);
    } else {
      forall i | 1 <= i < |rs| ensures Blank(rs[i]) || Accepted(rs, i) { assert i + 1 !in faulty; }
    }
  }

  /** A data row is refused exactly when it is malformed or its number is written in an earlier row. */
  lemma FaultMeans(rs: seq<Record>, i: nat)
    requires 1 <= i < |rs|
    ensures Accepted(rs, i) <==> NewNumber(rs, i)
  {
    if WellFormed(rs[i]) { RepeatsIff(rs, i); }
  }

  /** Repeating a stored number is the same as repeating a number as written. */
  lemma RepeatsIff(rs: seq<Record>, i: nat)
    requires i < |rs| && WellFormed(rs[i])
    ensures Repeats(Phones(rs), i) <==> exists j :: 1 <= j < i && WellFormed(rs[j]) && Strip(rs[j][1]) == Strip(rs[i][1])
  {
    forall j | 1 <= j < i && WellFormed(rs[j])
      ensures PhoneOf(rs[j]) == PhoneOf(rs[i]) <==> Strip(rs[j][1]) == Strip(rs[i][1])
    {
      DomesticInjective(Strip(rs[j][1]), Strip(rs[i][1]));
    }
    if Repeats(Phones(rs), i) {
      var j :| 1 <= j < i && Phones(rs)[j] == Phones(rs)[i];
      assert PhoneOf(rs[j]) == PhoneOf(rs[i]);
    }
    if j :| 1 <= j < i && WellFormed(rs[j]) && Strip(rs[j][1]) == Strip(rs[i][1]) {
      assert Phones(rs)[j] == Phones(rs)[i];
    }
  }

  /** Every accepted row comes from a data row of the file. */
  lemma {:induction false} AcceptedFrom(rs: seq<Record>, k: nat, a: nat)
    requires k <= |rs| && a < |AcceptedRows(rs, k)|
    ensures exists j :: 1 <= j < k && Accepted(rs, j) && RowOf(rs[j]) == AcceptedRows(rs, k)[a]
  {
    if a < |AcceptedRows(rs, k - 1)| { AcceptedFrom(rs, k - 1, a); }
  }

  /** Accepted rows are valid, stored in E.164 form, and have pairwise distinct phone numbers. */
  lemma {:induction false} AcceptedDistinct(rs: seq<Record>, k: nat, a: nat)
    requires k <= |rs| && a < |AcceptedRows(rs, k)|
    ensures var rows := AcceptedRows(rs, k);
      && IsValidName(rows[a].name) && IsJapanese(rows[a].phone)
      && forall c | 0 <= c < a :: rows[c].phone != rows[a].phone
  {
    if a < |AcceptedRows(rs, k - 1)| {
      AcceptedDistinct(rs, k - 1, a);
    } else {
      NewRowDistinct(rs, k - 1);
    }
  }

  lemma NewRowDistinct(rs: seq<Record>, i: nat)
    requires 1 <= i < |rs| && Accepted(rs, i)
    ensures IsValidName(RowOf(rs[i]).name) && IsJapanese(RowOf(rs[i]).phone)
    ensures forall c | 0 <= c < |AcceptedRows(rs, i)| :: AcceptedRows(rs, i)[c].phone != RowOf(rs[i]).phone
  {
    PhoneRoundTrip(Strip(rs[i][1]));
    forall c | 0 <= c < |AcceptedRows(rs, i)| ensures AcceptedRows(rs, i)[c].phone != RowOf(rs[i]).phone {
      AcceptedFrom(rs, i, c);
      var j :| 1 <= j < i && Accepted(rs, j) && RowOf(rs[j]) == AcceptedRows(rs, i)[c];
    }
  }

  /** The positions of the data rows. */
  function DataLines(rs: seq<Record>, k: nat): (r: seq<nat>)
    requires k <= |rs|
    ensures forall a | 0 <= a < |r| :: 1 <= r[a] < k
  {
    if k <= 1 then [] else DataLines(rs, k - 1) + if Blank(rs[k - 1]) then [] else [k - 1]
  }

  lemma AcceptedStands(rs: seq<Record>, i: nat)
    requires i < |rs| && Accepted(rs, i)
    ensures StandsFor(RowOf(rs[i]), rs[i]) && !Blank(rs[i])
  {
    PhoneRoundTrip(Strip(rs[i][1]));
  }

  /** Each row stands for the record at its position. */
  ghost predicate StandInOrder(rows: seq<EmployeeRow>, rs: seq<Record>, lines: seq<nat>) {
    |rows| == |lines| && forall a | 0 <= a < |lines| :: lines[a] < |rs| && StandsFor(rows[a], rs[lines[a]])
  }

  lemma OneMoreStands(rows: seq<EmployeeRow>, rs: seq<Record>, lines: seq<nat>, row: EmployeeRow, i: nat)
    requires StandInOrder(rows, rs, lines) && i < |rs| && StandsFor(row, rs[i])
    ensures StandInOrder(rows + [row], rs, lines + [i])
  {
  }

  /** Without a faulty line the accepted rows are the data rows in order: the trimmed name, and the number as written. */
  lemma {:induction false} AcceptedAre(rs: seq<Record>, k: nat)
    requires k <= |rs| && FaultyLines(rs, k) == []
    ensures StandInOrder(AcceptedRows(rs, k), rs, DataLines(rs, k))
  {
    if k > 1 {
      AcceptedAre(rs, k - 1);
      if Accepted(rs, k - 1) {
        AcceptedStands(rs, k - 1);
        OneMoreStands(AcceptedRows(rs, k - 1), rs, DataLines(rs, k - 1), RowOf(rs[k - 1]), k - 1);
      }
    }
  }

  predicate StandsFor(row: EmployeeRow, record: Record) {
    |record| == 2 && row.name == Strip(record[0]) && E164ToDomestic(row.phone) == Strip(record[1]) && IsJapanese(row.phone)
  }
}
