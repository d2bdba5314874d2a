/**
 Account lockout: the lock predicate over the failure times of an account, and the stored row with
 its expiry time, after which the database may remove the row at any moment.
 */
module Lockout {
  import opened Wrappers
  import opened Sorting
  import E = EmployeeTable

  // --- The predicate --------------------------------------------------------------

  predicate AtMost(a: int, b: int) { a <= b }

  function Sorted(s: seq<int>): (r: seq<int>)
    ensures |r| == |s|
  {
    Sort(AtMost, s)
  }

  predicate IsAscending(s: seq<int>) { forall i, j | 0 <= i < j < |s| :: s[i] <= s[j] }

  /** Where a slice that counts `threshold` elements from the end begins. */
  function TailStart(n: nat, threshold: int): nat {
    if threshold > 0 then (if threshold <= n then n - threshold else 0)
    else if -threshold <= n then -threshold else n
  }

  predicate IsLocked(failedAts: seq<int>, now: int, threshold: int, window: int) {
    |failedAts| >= threshold && AllAbove(Sorted(failedAts)[TailStart(|failedAts|, threshold)..], now - window)
  }

  predicate AllAbove(s: seq<int>, cutoff: int) { forall t | t in s :: t > cutoff }

  function Newer(s: seq<int>, cutoff: int): nat {
    if s == [] then 0 else Newer(s[1..], cutoff) + if s[0] > cutoff then 1 else 0
  }

  lemma SortedFacts(s: seq<int>)
    ensures IsAscending(Sorted(s)) && multiset(Sorted(s)) == multiset(s)
  {
    SortSorts(AtMost, s);
    assert forall i, j | 0 <= i < j < |s| :: AtMost(Sorted(s)[i], Sorted(s)[j]);
  }

  lemma {:induction false} InsertNewer(x: int, s: seq<int>, cutoff: int)
    ensures Newer(Insert(AtMost, x, s), cutoff) == Newer(s, cutoff) + if x > cutoff then 1 else 0
  {
    if s != [] && x > s[0] { InsertNewer(x, s[1..], cutoff); }
  }

  lemma {:induction false} SortNewer(s: seq<int>, cutoff: int)
    ensures Newer(Sorted(s), cutoff) == Newer(s, cutoff)
  {
    if s != [] {
      SortNewer(s[1..], cutoff);
      InsertNewer(s[0], Sorted(s[1..]), cutoff);
    }
  }

  /** In a sorted list the newer elements are a suffix. */
  lemma {:induction false} SuffixNewer(s: seq<int>, i: nat, cutoff: int)
    requires IsAscending(s) && i < |s|
    ensures s[i] > cutoff <==> Newer(s, cutoff) >= |s| - i
  {
    NewerAtMost(s, cutoff);
    if i > 0 {
      SuffixNewer(s[1..], i - 1, cutoff);
      if s[0] > cutoff { AllNewer(s, cutoff); }
    } else if s[0] > cutoff {
      AllNewer(s, cutoff);
    } else {
      NewerAtMost(s[1..], cutoff);
    }
  }

  lemma {:induction false} NewerAtMost(s: seq<int>, cutoff: int)
    ensures Newer(s, cutoff) <= |s|
  {
    if s != [] { NewerAtMost(s[1..], cutoff); }
  }

  lemma {:induction false} AllNewer(s: seq<int>, cutoff: int)
    requires forall i | 0 <= i < |s| :: s[i] > cutoff
    ensures Newer(s, cutoff) == |s|
  {
    if s != [] { AllNewer(s[1..], cutoff); }
  }

  lemma SuffixAbove(s: seq<int>, i: nat, cutoff: int)
    requires IsAscending(s) && i < |s|
    ensures AllAbove(s[i..], cutoff) <==> s[i] > cutoff
  {
    assert s[i..][0] == s[i] && s[i] in s[i..];
    forall t | t in s[i..] ensures t >= s[i] {
      var k :| 0 <= k < |s[i..]| && s[i..][k] == t;
      assert s[i + k] == t;
    }
  }

  /** Locked exactly when at least `threshold` failures lie within the window. */
  lemma LockedIff(failedAts: seq<int>, now: int, threshold: int, window: int)
    requires threshold >= 1
    ensures IsLocked(failedAts, now, threshold, window) <==> Newer(failedAts, now - window) >= threshold
  {
    var n, cutoff := |failedAts|, now - window;
    SortedFacts(failedAts);
    SortNewer(failedAts, cutoff);
    NewerAtMost(failedAts, cutoff);
    if n >= threshold {
      SuffixNewer(Sorted(failedAts), n - threshold, cutoff);
      SuffixAbove(Sorted(failedAts), n - threshold, cutoff);
    }
  }

  /** A threshold of zero does not lock always: it asks that every failure be within the window. */
  lemma ThresholdZero(failedAts: seq<int>, now: int, window: int)
    ensures IsLocked(failedAts, now, 0, window) <==> forall t | t in failedAts :: t > now - window
  {
    SortedFacts(failedAts);
    assert Sorted(failedAts)[0..] == Sorted(failedAts);
    forall t ensures t in Sorted(failedAts) <==> t in failedAts {
      assert t in multiset(Sorted(failedAts)) <==> t in multiset(failedAts);
    }
  }

  /** With enough failures the lock ends exactly when the `threshold`-th newest of them leaves the window. */
  lemma LockEnds(failedAts: seq<int>, now: int, threshold: int, window: int)
    requires 1 <= threshold <= |failedAts|
    ensures IsLocked(failedAts, now, threshold, window) <==> now < Sorted(failedAts)[|failedAts| - threshold] + window
  {
    var sorted := Sorted(failedAts);
    var i := |failedAts| - threshold;
    SortedFacts(failedAts);
    SuffixAbove(sorted, i, now - window);
    assert TailStart(|failedAts|, threshold) == i;
  }

  /**
   The lock lasts a whole window after the newest failure exactly when the newest `threshold` failures
   fall on the same second.
   */
  lemma LastsWindowIff(failedAts: seq<int>, threshold: int, window: int)
    requires 1 <= threshold <= |failedAts| && window >= 1
    ensures var sorted := Sorted(failedAts);
            var last := sorted[|failedAts| - 1];
            (forall now | last <= now < last + window :: IsLocked(failedAts, now, threshold, window))
            <==> sorted[|failedAts| - threshold] == last
  {
    var sorted := Sorted(failedAts);
    var last, key := sorted[|failedAts| - 1], sorted[|failedAts| - threshold];
    SortedFacts(failedAts);
    forall now ensures IsLocked(failedAts, now, threshold, window) <==> now < key + window {
      LockEnds(failedAts, now, threshold, window);
    }
    assert key <= last;
    if key < last { assert !IsLocked(failedAts, last + window - 1, threshold, window); }
  }

  /** Four failures and one a second later: the account is locked, but no longer 1799 seconds after the last. */
  lemma LockShorter()
    ensures IsLocked([0, 0, 0, 0, 1], 1, 5, 1800) && !IsLocked([0, 0, 0, 0, 1], 1800, 5, 1800)
  {
    var f := [0, 0, 0, 0, 1];
    LockedIff(f, 1, 5, 1800);
    LockedIff(f, 1800, 5, 1800);
    assert f[1..] == [0, 0, 0, 1] && f[1..][1..] == [0, 0, 1] && f[1..][1..][1..] == [0, 1];
    assert Newer([1], 0) == Newer([0, 1], 0) == Newer([0, 0, 1], 0) == Newer([0, 0, 0, 1], 0) == Newer(f, 0) == 1;
    AllNewer(f, -1799);
  }

  /** The order in which failures were stored is irrelevant. */
  lemma OrderIrrelevant(a: seq<int>, b: seq<int>, now: int, threshold: int, window: int)
    requires multiset(a) == multiset(b)
    ensures IsLocked(a, now, threshold, window) == IsLocked(b, now, threshold, window)
  {
    SortCanonical(AtMost, a, b);
    assert |multiset(a)| == |a| && |multiset(b)| == |b|;
  }

  // --- The stored rows ---------------------------------------------------------------

  datatype Row = Row(failedAts: seq<int>, expireAt: int)

  function Failures(row: Option<Row>): seq<int> { if row.Some? then row.value.failedAts else [] }

  function AfterRecord(row: Option<Row>, now: int, window: int): Option<Row> {
    Some(Row(Failures(row) + [now], now + window))
  }

  /** A missing row is not created by a clearance. */
  function AfterClear(row: Option<Row>, now: int): Option<Row> {
    if row.Some? then Some(Row([], now - 1)) else None
  }

  /** The database may remove a row from its expiry time on. */
  function AfterCollect(row: Option<Row>, now: int): Option<Row> {
    if row.Some? && now >= row.value.expireAt then None else row
  }

  function Find(rows: map<string, Row>, user: string): Option<Row> { if user in rows then Some(rows[user]) else None }

  class LockoutTable {
    const threshold: int
    const window: int
    var rows: map<string, Row>

    constructor (threshold: int, window: int)
      ensures this.threshold == threshold && this.window == window && rows == map[]
    {
      this.threshold, this.window, rows := threshold, window, map[];
    }

    /** Identifiers that do not look like an email address are not recorded. */
    method RecordFailure(user: string, now: int) returns (recorded: bool)
      modifies this`rows
      ensures recorded == E.IsValidEmail(user)
      ensures rows == TableStep(old(rows), Access(user, Record(now)), window)
    {
      if !E.IsValidEmail(user) { return false; }
      var failedAts := if user in rows then rows[user].failedAts else [];
      rows := rows[user := Row(failedAts + [now], now + window)];
      return true;
    }

    method ClearLockout(user: string, now: int)
      modifies this`rows
      ensures rows == TableStep(old(rows), Access(user, Clear(now)), window)
    {
      if user in rows { rows := rows[user := Row([], now - 1)]; }
    }

    method CheckLockout(user: string, now: int) returns (locked: bool)
      ensures locked == IsLocked(Failures(Find(rows, user)), now, threshold, window)
      ensures threshold >= 1 ==> (locked <==> Newer(Failures(Find(rows, user)), now - window) >= threshold)
    {
      var failedAts := if user in rows then rows[user].failedAts else [];
      locked := IsLocked(failedAts, now, threshold, window);
      if threshold >= 1 { LockedIff(failedAts, now, threshold, window); }
    }
  }

  // --- Removal of expired rows cannot be observed ------------------------------------------

  datatype Event = Record(now: int) | Clear(now: int) | Check(now: int) | Collect(now: int)

  /** The row after one event; `gc` says whether the database really removes expired rows. */
  function After(row: Option<Row>, e: Event, window: int, gc: bool): Option<Row> {
    match e
    case Record(now) => AfterRecord(row, now, window)
    case Clear(now) => AfterClear(row, now)
    case Check(_) => row
    case Collect(now) => if gc then AfterCollect(row, now) else row
  }

  function RowAfter(es: seq<Event>, window: int, gc: bool): Option<Row> {
    if es == [] then None else After(RowAfter(es[..|es| - 1], window, gc), es[|es| - 1], window, gc)
  }

  ghost predicate ClockRuns(es: seq<Event>) { forall i, j | 0 <= i < j < |es| :: es[i].now <= es[j].now }

  /** The rows differ only by failures that have left the window; no stored failure outlives its row. */
  ghost predicate Alike(full: Option<Row>, kept: Option<Row>, now: int, window: int) {
    && (exists expired: seq<int> :: Failures(full) == expired + Failures(kept) && forall x | x in expired :: x + window <= now)
    && (kept.Some? ==> full.Some? && forall x | x in kept.value.failedAts :: x + window <= kept.value.expireAt)
    && (forall x | x in Failures(full) :: x <= now)
  }

  lemma {:induction false} NewerAppend(a: seq<int>, b: seq<int>, cutoff: int)
    requires forall x | x in a :: x <= cutoff
    ensures Newer(a + b, cutoff) == Newer(b, cutoff)
  {
    if a == [] {
      assert a + b == b;
    } else {
      assert (a + b)[1..] == a[1..] + b && a[0] in a;
      forall x | x in a[1..] ensures x in a { }
      NewerAppend(a[1..], b, cutoff);
    }
  }

  lemma StepAlike(full: Option<Row>, kept: Option<Row>, e: Event, before: int, window: int)
    requires Alike(full, kept, before, window) && before <= e.now
    ensures Alike(After(full, e, window, false), After(kept, e, window, true), e.now, window)
  {
    var expired: seq<int> :| Failures(full) == expired + Failures(kept) && forall x | x in expired :: x + window <= before;
    var full', kept' := After(full, e, window, false), After(kept, e, window, true);
    match e
    case Record(now) =>
      assert Failures(full') == expired + Failures(kept');
      assert forall x | x in Failures(kept) :: x in Failures(full);
    case Clear(now) =>
      assert Failures(full') == [] + Failures(kept');
    case Check(_) =>
      assert Failures(full') == expired + Failures(kept');
    case Collect(now) =>
      if kept'.None? && kept.Some? {
        assert Failures(full') == Failures(full) + Failures(kept');
        assert forall x | x in Failures(full) :: x in expired || x in Failures(kept);
      } else {
        assert Failures(full') == expired + Failures(kept');
      }
  }

  lemma {:induction false} RunAlike(es: seq<Event>, window: int, now: int)
    requires ClockRuns(es) && (es != [] ==> es[|es| - 1].now <= now)
    ensures Alike(RowAfter(es, window, false), RowAfter(es, window, true), now, window)
  {
    if es == [] {
      assert Failures(None) == [] + Failures(None);
    } else {
      var e := es[|es| - 1];
      var before := es[..|es| - 1];
      RunAlike(before, window, e.now);
      StepAlike(RowAfter(before, window, false), RowAfter(before, window, true), e, e.now, window);
    }
  }

  lemma ExpiredIrrelevant(expired: seq<int>, kept: seq<int>, now: int, threshold: int, window: int)
    requires threshold >= 1 && forall x | x in expired :: x + window <= now
    ensures IsLocked(expired + kept, now, threshold, window) == IsLocked(kept, now, threshold, window)
  {
    NewerAppend(expired, kept, now - window);
    LockedIff(kept, now, threshold, window);
    LockedIff(expired + kept, now, threshold, window);
  }

  /**
   Over every history of failures, clearances, checks and removals on a clock that never goes back,
   removing expired rows changes no verdict, neither now nor at any later time.
   */
  lemma CollectionUnobservable(es: seq<Event>, window: int, threshold: int, now: int)
    requires ClockRuns(es) && threshold >= 1 && (es != [] ==> es[|es| - 1].now <= now)
    ensures IsLocked(Failures(RowAfter(es, window, true)), now, threshold, window)
         == IsLocked(Failures(RowAfter(es, window, false)), now, threshold, window)
  {
    RunAlike(es, window, now);
    var full, kept := Failures(RowAfter(es, window, false)), Failures(RowAfter(es, window, true));
    var expired: seq<int> :| full == expired + kept && forall x | x in expired :: x + window <= now;
    ExpiredIrrelevant(expired, kept, now, threshold, window);
  }

  // --- The verdict, read off the history --------------------------------------------------

  /** Event `i` is a failure newer than the cutoff that no clearance follows. */
  ghost predicate CountsAt(es: seq<Event>, i: nat, cutoff: int) {
    i < |es| && es[i].Record? && es[i].now > cutoff && forall j | i < j < |es| :: !es[j].Clear?
  }

  ghost function Counting(es: seq<Event>, cutoff: int): set<nat> { set i: nat | i < |es| && CountsAt(es, i, cutoff) }

  lemma CountsOneMore(es: seq<Event>, e: Event, cutoff: int, i: nat)
    ensures CountsAt(es + [e], i, cutoff) <==>
            (i < |es| && CountsAt(es, i, cutoff) && !e.Clear?) || (i == |es| && e.Record? && e.now > cutoff)
  {
    var es' := es + [e];
    assert es'[|es|] == e;
    if i < |es| {
      if CountsAt(es, i, cutoff) && !e.Clear? {
        forall j | i < j < |es'| ensures !es'[j].Clear? { if j < |es| { assert !es[j].Clear?; } }
      }
      if CountsAt(es', i, cutoff) {
        forall j | i < j < |es| ensures !es[j].Clear? { assert !es'[j].Clear?; }
        assert !es'[|es|].Clear?;
      }
    }
  }

  lemma CountingStep(es: seq<Event>, e: Event, cutoff: int)
    ensures |Counting(es + [e], cutoff)| == if e.Clear? then 0 else |Counting(es, cutoff)| + if e.Record? && e.now > cutoff then 1 else 0
  {
    var before, after, n := Counting(es, cutoff), Counting(es + [e], cutoff), |es|;
    forall i: nat ensures CountsAt(es + [e], i, cutoff) <==>
      (i < n && CountsAt(es, i, cutoff) && !e.Clear?) || (i == n && e.Record? && e.now > cutoff) { CountsOneMore(es, e, cutoff, i); }
    if e.Clear? {
      assert after == {};
    } else if e.Record? && e.now > cutoff {
      assert after == before + {n};
    } else {
      assert after == before;
    }
  }

  lemma {:induction false} NewerOfOneMore(a: seq<int>, x: int, cutoff: int)
    ensures Newer(a + [x], cutoff) == Newer(a, cutoff) + if x > cutoff then 1 else 0
  {
    if a == [] {
      assert a + [x] == [x] && [x][1..] == [];
    } else {
      assert (a + [x])[1..] == a[1..] + [x];
      NewerOfOneMore(a[1..], x, cutoff);
    }
  }

  /** A row that is never removed holds the failures of the history. */
  lemma {:induction false} StoredCounts(es: seq<Event>, window: int, cutoff: int)
    ensures Newer(Failures(RowAfter(es, window, false)), cutoff) == |Counting(es, cutoff)|
  {
    if es == [] {
      assert Counting(es, cutoff) == {};
    } else {
      var before, e := es[..|es| - 1], es[|es| - 1];
      StoredCounts(before, window, cutoff);
      CountingStep(before, e, cutoff);
      assert es == before + [e];
      if e.Record? { NewerOfOneMore(Failures(RowAfter(before, window, false)), e.now, cutoff); }
    }
  }

  lemma LockedByStored(es: seq<Event>, window: int, threshold: int, now: int)
    requires threshold >= 1
    ensures IsLocked(Failures(RowAfter(es, window, false)), now, threshold, window) <==> |Counting(es, now - window)| >= threshold
  {
    var stored := Failures(RowAfter(es, window, false));
    StoredCounts(es, window, now - window);
    LockedIff(stored, now, threshold, window);
  }

  /**
   Over every history on a clock that never goes back, expired rows being removed or not: the account is
   locked exactly when at least `threshold` failures have been recorded since the last clearance within the window.
   */
  lemma LockedByHistory(es: seq<Event>, window: int, threshold: int, now: int, gc: bool)
    requires ClockRuns(es) && threshold >= 1 && (es != [] ==> es[|es| - 1].now <= now)
    ensures IsLocked(Failures(RowAfter(es, window, gc)), now, threshold, window) <==> |Counting(es, now - window)| >= threshold
  {
    LockedByStored(es, window, threshold, now);
    if gc { CollectionUnobservable(es, window, threshold, now); }
  }

  // --- The accounts of a table ---------------------------------------------------------------

  /** One event at one account. */
  datatype Access = Access(user: string, event: Event)

  /** The table after one access. */
  function TableStep(rows: map<string, Row>, a: Access, window: int): map<string, Row> {
    if a.event.Record? && !E.IsValidEmail(a.user) then rows
    else
      var row := After(Find(rows, a.user), a.event, window, true);
      if row.Some? then rows[a.user := row.value] else map u | u in rows && u != a.user :: rows[u]
  }

  function TableAfter(h: seq<Access>, window: int): map<string, Row> {
    if h == [] then map[] else TableStep(TableAfter(h[..|h| - 1], window), h[|h| - 1], window)
  }

  /** The events of one account; failures of an ill-formed identifier are not among them. */
  function EventsOf(h: seq<Access>, user: string): seq<Event> {
    if h == [] then []
    else
      var a := h[|h| - 1];
      EventsOf(h[..|h| - 1], user)
      + if a.user == user && !(a.event.Record? && !E.IsValidEmail(user)) then [a.event] else []
  }

  ghost predicate AccessesInOrder(h: seq<Access>) { forall i, j | 0 <= i < j < |h| :: h[i].event.now <= h[j].event.now }

  lemma StepOfAccount(rows: map<string, Row>, a: Access, window: int, user: string)
    ensures Find(TableStep(rows, a, window), user) ==
            if a.user == user && !(a.event.Record? && !E.IsValidEmail(user)) then After(Find(rows, user), a.event, window, true) else Find(rows, user)
  {
  }

  /** An account's row depends on its own events alone. */
  lemma {:induction false} RowOfAccount(h: seq<Access>, window: int, user: string)
    ensures Find(TableAfter(h, window), user) == RowAfter(EventsOf(h, user), window, true)
  {
    if h != [] {
      var h0, a := h[..|h| - 1], h[|h| - 1];
      RowOfAccount(h0, window, user);
      StepOfAccount(TableAfter(h0, window), a, window, user);
      var es := EventsOf(h0, user);
      assert (es + [a.event])[..|es|] == es && es + [] == es;
    }
  }

  lemma {:induction false} EventsInOrder(h: seq<Access>, user: string)
    requires AccessesInOrder(h)
    ensures ClockRuns(EventsOf(h, user))
    ensures h != [] ==> forall e | e in EventsOf(h, user) :: e.now <= h[|h| - 1].event.now
  {
    if h != [] {
      var h0, a := h[..|h| - 1], h[|h| - 1];
      EventsInOrder(h0, user);
      if h0 != [] { assert h[|h0| - 1].event.now <= a.event.now; }
      var es := EventsOf(h0, user);
      forall e | e in es ensures e.now <= a.event.now { }
      assert forall i | 0 <= i < |es| :: es[i] in es;
    }
  }

  /** The verdict on an account after any accesses to any accounts, read off the history of the accesses. */
  lemma VerdictByHistory(h: seq<Access>, window: int, threshold: int, user: string, now: int)
    requires AccessesInOrder(h) && threshold >= 1 && (h != [] ==> h[|h| - 1].event.now <= now)
    ensures IsLocked(Failures(Find(TableAfter(h, window), user)), now, threshold, window)
            <==> |Counting(EventsOf(h, user), now - window)| >= threshold
  {
    RowOfAccount(h, window, user);
    EventsInOrder(h, user);
    var es := EventsOf(h, user);
    if es != [] { assert es[|es| - 1] in es; }
    LockedByHistory(es, window, threshold, now, true);
  }

  /** An ill-formed identifier is never locked. */
  lemma {:induction false} IllFormedNeverLocked(h: seq<Access>, window: int, threshold: int, user: string, now: int)
    requires AccessesInOrder(h) && threshold >= 1 && (h != [] ==> h[|h| - 1].event.now <= now) && !E.IsValidEmail(user)
    ensures !IsLocked(Failures(Find(TableAfter(h, window), user)), now, threshold, window)
  {
    VerdictByHistory(h, window, threshold, user, now);
    NoRecords(h, user);
    assert Counting(EventsOf(h, user), now - window) == {};
  }

  lemma {:induction false} NoRecords(h: seq<Access>, user: string)
    requires !E.IsValidEmail(user)
    ensures forall i | 0 <= i < |EventsOf(h, user)| :: !EventsOf(h, user)[i].Record?
  {
    if h != [] { NoRecords(h[..|h| - 1], user); }
  }
}
