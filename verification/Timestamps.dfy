/**
 Timestamps in UTC: the calendar, the printed form YYYY-MM-DDTHH:MM:SS with an optional fraction and
 a Z (section 5.6 of RFC 3339), and the order of the printed forms.
 */
module Timestamps {
  import opened Wrappers
  import opened Strings
  import opened Digits

  datatype Stamp = Stamp(year: nat, month: nat, day: nat, hour: nat, minute: nat, second: nat, micros: nat)

  // --- The calendar ---------------------------------------------------------------

  predicate IsLeap(y: int) { y % 4 == 0 && (y % 100 != 0 || y % 400 == 0) }

  function DaysInMonth(y: int, m: int): int {
    if m == 2 then (if IsLeap(y) then 29 else 28) else if m == 4 || m == 6 || m == 9 || m == 11 then 30 else 31
  }

  function YearLength(y: int): int { if IsLeap(y) then 366 else 365 }

  const MAX_YEAR := 9999

  predicate Valid(s: Stamp) {
    && 1 <= s.year <= MAX_YEAR && 1 <= s.month <= 12 && 1 <= s.day <= DaysInMonth(s.year, s.month)
    && s.hour < 24 && s.minute < 60 && s.second < 60 && s.micros < 1_000_000
  }

  /** The days before the first of January of a year, counted from year 1. */
  function YearStart(y: nat): nat
    requires y >= 1
  {
    if y == 1 then 0 else YearStart(y - 1) + YearLength(y - 1)
  }

  /** The days of a year before the first of a month. */
  function MonthStart(y: nat, m: nat): nat
    requires 1 <= m <= 13
  {
    if m == 1 then 0 else MonthStart(y, m - 1) + DaysInMonth(y, m - 1)
  }

  function DayNumber(s: Stamp): nat
    requires Valid(s)
  {
    YearStart(s.year) + MonthStart(s.year, s.month) + s.day - 1
  }

  function TimeOfDay(s: Stamp): nat { (s.hour * 60 + s.minute) * 60 + s.second }

  /** The instant in seconds, without the fraction. */
  function Second(s: Stamp): nat
    requires Valid(s)
  {
    DayNumber(s) * 86400 + TimeOfDay(s)
  }

  /** The instant in microseconds. */
  function Instant(s: Stamp): nat
    requires Valid(s)
  {
    Second(s) * 1_000_000 + s.micros
  }

  lemma {:induction false} YearStartGrows(a: nat, b: nat)
    requires 1 <= a < b
    ensures YearStart(a) + YearLength(a) <= YearStart(b)
  {
    if a < b - 1 { YearStartGrows(a, b - 1); }
  }

  lemma {:induction false} MonthStartGrows(y: nat, a: nat, b: nat)
    requires 1 <= a < b <= 13
    ensures MonthStart(y, a) + DaysInMonth(y, a) <= MonthStart(y, b)
  {
    if a < b - 1 { MonthStartGrows(y, a, b - 1); }
  }

  lemma YearHasItsMonths(y: nat)
    ensures MonthStart(y, 13) == YearLength(y)
  {
    assert MonthStart(y, 3) == MonthStart(y, 2) + DaysInMonth(y, 2) == 31 + DaysInMonth(y, 2);
    assert MonthStart(y, 5) == MonthStart(y, 4) + 30 == MonthStart(y, 3) + 31 + 30;
    assert MonthStart(y, 7) == MonthStart(y, 6) + 30 == MonthStart(y, 5) + 31 + 30;
    assert MonthStart(y, 9) == MonthStart(y, 8) + 31 == MonthStart(y, 7) + 31 + 31;
    assert MonthStart(y, 11) == MonthStart(y, 10) + 31 == MonthStart(y, 9) + 30 + 31;
    assert MonthStart(y, 13) == MonthStart(y, 12) + 31 == MonthStart(y, 11) + 30 + 31;
  }

  lemma WithinYear(s: Stamp)
    requires Valid(s)
    ensures MonthStart(s.year, s.month) + s.day <= YearLength(s.year)
  {
    YearHasItsMonths(s.year);
    MonthStartGrows(s.year, s.month, 13);
  }

  /** The lexicographic order of the seven fields. */
  predicate Earlier(a: Stamp, b: Stamp) {
    a.year < b.year || (a.year == b.year && (
    a.month < b.month || (a.month == b.month && (
    a.day < b.day || (a.day == b.day && (
    TimeOfDay(a) < TimeOfDay(b) || (TimeOfDay(a) == TimeOfDay(b) && a.micros < b.micros)))))))
  }

  lemma EarlierDay(a: Stamp, b: Stamp)
    requires Valid(a) && Valid(b)
    requires a.year < b.year || (a.year == b.year && (a.month < b.month || (a.month == b.month && a.day < b.day)))
    ensures DayNumber(a) < DayNumber(b)
  {
    WithinYear(a);
    if a.year < b.year {
      YearStartGrows(a.year, b.year);
    } else if a.month < b.month {
      MonthStartGrows(a.year, a.month, b.month);
    }
  }

  lemma EarlierInstant(a: Stamp, b: Stamp)
    requires Valid(a) && Valid(b) && Earlier(a, b)
    ensures Instant(a) < Instant(b)
  {
    if (a.year, a.month, a.day) != (b.year, b.month, b.day) {
      EarlierDay(a, b);
      LaterDay(DayNumber(a), TimeOfDay(a), DayNumber(b), TimeOfDay(b));
    }
    LaterSecond(Second(a), a.micros, Second(b), b.micros);
  }

  lemma LaterDay(d: nat, t: nat, e: nat, u: nat)
    ensures d < e && t < 86400 ==> d * 86400 + t < e * 86400 + u
  {
  }

  lemma LaterSecond(s: nat, m: nat, t: nat, n: nat)
    ensures m < 1_000_000 && (s < t || (s == t && m < n)) ==> s * 1_000_000 + m < t * 1_000_000 + n
  {
  }

  /** Fields, compared from the year down, order valid stamps as time does, across months and leap years. */
  lemma EarlierIff(a: Stamp, b: Stamp)
    requires Valid(a) && Valid(b)
    ensures Earlier(a, b) <==> Instant(a) < Instant(b)
    ensures a == b <==> Instant(a) == Instant(b)
  {
    if Earlier(a, b) {
      EarlierInstant(a, b);
    } else if Earlier(b, a) {
      EarlierInstant(b, a);
    } else {
      SameTime(a, b);
    }
  }

  lemma SameTime(a: Stamp, b: Stamp)
    requires Valid(a) && Valid(b)
    ensures TimeOfDay(a) == TimeOfDay(b) <==> a.hour == b.hour && a.minute == b.minute && a.second == b.second
  {
    var x, y := a.hour * 60 + a.minute, b.hour * 60 + b.minute;
    assert TimeOfDay(a) == x * 60 + a.second && TimeOfDay(b) == y * 60 + b.second;
  }

  // --- Every instant has a stamp -----------------------------------------------------

  /** The year of a day, searched from `y` up. */
  function YearOf(day: nat, y: nat): (r: nat)
    requires 1 <= y && YearStart(y) <= day
    ensures y <= r && YearStart(r) <= day < YearStart(r + 1)
    decreases day - YearStart(y)
  {
    if day < YearStart(y + 1) then y else YearOf(day, y + 1)
  }

  function MonthOf(y: nat, day: nat, m: nat): (r: nat)
    requires 1 <= m <= 12 && MonthStart(y, m) <= day < MonthStart(y, 13)
    ensures m <= r <= 12 && MonthStart(y, r) <= day < MonthStart(y, r + 1)
    decreases 13 - m
  {
    if day < MonthStart(y, m + 1) then m else MonthOf(y, day, m + 1)
  }

  /** The stamp of an instant, or none beyond the last year. */
  function FromInstant(n: nat): Option<Stamp> {
    var second, micros := n / 1_000_000, n % 1_000_000;
    var day, time := second / 86400, second % 86400;
    var y := YearOf(day, 1);
    if y > MAX_YEAR then None
    else
      YearHasItsMonths(y);
      var m := MonthOf(y, day - YearStart(y), 1);
      Some(Stamp(y, m, day - YearStart(y) - MonthStart(y, m) + 1, time / 3600, time / 60 % 60, time % 60, micros))
  }

  lemma FromInstantExact(n: nat)
    ensures FromInstant(n).Some? ==> Valid(FromInstant(n).value) && Instant(FromInstant(n).value) == n
  {
    if FromInstant(n).Some? {
      var s := FromInstant(n).value;
      YearHasItsMonths(s.year);
      SplitTime(n / 1_000_000 % 86400);
    }
  }

  lemma SplitTime(t: nat)
    ensures t == (t / 3600 * 60 + t / 60 % 60) * 60 + t % 60
  {
    assert t / 3600 == t / 60 / 60;
  }

  /** The calendar is a bijection between valid stamps and the instants up to the last year. */
  lemma FromInstantInverse(s: Stamp)
    requires Valid(s)
    ensures FromInstant(Instant(s)) == Some(s)
  {
    var n := Instant(s);
    assert n / 1_000_000 == Second(s);
    assert Second(s) / 86400 == DayNumber(s);
    WithinYear(s);
    var y := YearOf(DayNumber(s), 1);
    if y < s.year { YearStartGrows(y, s.year); }
    if y > s.year { YearStartGrows(s.year, y); }
    FromInstantExact(n);
    EarlierIff(s, FromInstant(n).value);
  }

  /** Stamps and instants determine each other. */
  lemma FromInstantIff(n: nat, s: Stamp)
    ensures FromInstant(n) == Some(s) <==> Valid(s) && Instant(s) == n
  {
    FromInstantExact(n);
    if Valid(s) { FromInstantInverse(s); }
  }

  // --- Days and minutes later, on the calendar --------------------------------------------

  /** The same time on the next day. */
  function NextDate(s: Stamp): Stamp {
    if s.day < DaysInMonth(s.year, s.month) then s.(day := s.day + 1)
    else if s.month < 12 then s.(month := s.month + 1, day := 1)
    else s.(year := s.year + 1, month := 1, day := 1)
  }

  lemma NextDateAdvances(s: Stamp)
    requires Valid(s) && NextDate(s).year <= MAX_YEAR
    ensures Valid(NextDate(s)) && Instant(NextDate(s)) == Instant(s) + 86_400_000_000
  {
    var t := NextDate(s);
    assert DayNumber(t) == DayNumber(s) + 1 by {
      if t.year > s.year { YearHasItsMonths(s.year); }
    }
    assert TimeOfDay(t) == TimeOfDay(s) && t.micros == s.micros;
  }

  function DaysLater(s: Stamp, n: nat): Stamp { if n == 0 then s else NextDate(DaysLater(s, n - 1)) }

  lemma {:induction false} DaysLaterAdvances(s: Stamp, n: nat)
    requires Valid(s) && DaysLater(s, n).year <= MAX_YEAR
    ensures Valid(DaysLater(s, n)) && Instant(DaysLater(s, n)) == Instant(s) + n * 86_400_000_000
  {
    if n > 0 {
      DaysLaterAdvances(s, n - 1);
      NextDateAdvances(DaysLater(s, n - 1));
    }
  }

  /** Up to an hour later, on the clock. */
  function MinutesLater(s: Stamp, minutes: nat): Stamp {
    if s.minute + minutes < 60 then s.(minute := s.minute + minutes)
    else
      var minute := s.minute + minutes - 60;
      if s.hour < 23 then s.(hour := s.hour + 1, minute := minute) else NextDate(s).(hour := 0, minute := minute)
  }

  lemma MinutesLaterAdvances(s: Stamp, minutes: nat)
    requires Valid(s) && 1 <= minutes <= 60 && MinutesLater(s, minutes).year <= MAX_YEAR
    ensures Valid(MinutesLater(s, minutes)) && Instant(MinutesLater(s, minutes)) == Instant(s) + minutes * 60_000_000
  {
    if s.minute + minutes >= 60 && s.hour == 23 {
      var next := NextDate(s);
      NextDateAdvances(s);
      var t := MinutesLater(s, minutes);
      assert DayNumber(t) == DayNumber(next);
    }
  }

  /** Past the last year there is no stamp. */
  lemma NoStampAfterLastYear(s: Stamp, minutes: nat, t: Stamp)
    requires Valid(s) && Valid(t) && 1 <= minutes <= 60 && MinutesLater(s, minutes).year > MAX_YEAR
    ensures Instant(t) < Instant(s) + minutes * 60_000_000
  {
    YearHasItsMonths(s.year);
    assert DayNumber(s) + 1 == YearStart(s.year + 1);
    WithinYear(t);
    if t.year < s.year { YearStartGrows(t.year, s.year); }
    assert DayNumber(t) <= DayNumber(s);
  }

  // --- Printing and parsing ------------------------------------------------------------

  function Width(k: nat): nat { if k == 0 then 4 else 2 }

  /** What follows field `k`. */
  function Separator(k: nat): string { if k < 2 then "-" else if k == 2 then "T" else if k < 5 then ":" else "" }

  function Fields(s: Stamp): seq<nat> { [s.year, s.month, s.day, s.hour, s.minute, s.second] }

  predicate Fit(ns: seq<nat>) { |ns| == 6 && forall i | 0 <= i < 6 :: ns[i] < Pow10(Width(i)) }

  /** The fields from `k` on, then the tail. */
  function Print(ns: seq<nat>, k: nat, tail: string): string
    requires |ns| == 6 && k <= 6
    decreases |ns| - k
  {
    if k == 6 then tail else Pad(ns[k], Width(k)) + (Separator(k) + Print(ns, k + 1, tail))
  }

  function Fraction(micros: nat): string { if micros == 0 then "" else "." + Pad(micros, 6) }

  function Format(s: Stamp): string { Print(Fields(s), 0, Fraction(s.micros) + "Z") }

  /** The longer way to write UTC. */
  function FormatOffset(s: Stamp): string { Print(Fields(s), 0, Fraction(s.micros) + "+00:00") }

  function ReadFields(text: string, k: nat): Option<(seq<nat>, string)>
    requires k <= 6
    decreases |text|
  {
    if k == 6 then Some(([], text))
    else
      var w, sep := Width(k), Separator(k);
      if |text| < w + |sep| || !AllDigits(text[..w]) || text[w..w + |sep|] != sep then None
      else
        var rest := ReadFields(text[w + |sep|..], k + 1);
        if rest.None? then None else Some(([Number(text[..w])] + rest.value.0, rest.value.1))
  }

  function ReadTail(tail: string): Option<nat> {
    var n := if |tail| >= 1 && tail[|tail| - 1] == 'Z' then |tail| - 1
             else if |tail| >= 6 && tail[|tail| - 6..] == "+00:00" then |tail| - 6 else -1;
    if n == 0 then Some(0)
    else if n == 7 && tail[0] == '.' && AllDigits(tail[1..7]) then Some(Number(tail[1..7]))
    else None
  }

  /** The stamp a text stands for: all fields in range, then Z or the zero offset. */
  function Parse(text: string): (r: Option<Stamp>)
    ensures r.Some? ==> Valid(r.value)
  {
    var fields := ReadFields(text, 0);
    if fields.None? || |fields.value.0| != 6 then None
    else
      var ns, micros := fields.value.0, ReadTail(fields.value.1);
      if micros.None? then None
      else
        var s := Stamp(ns[0], ns[1], ns[2], ns[3], ns[4], ns[5], micros.value);
        if Valid(s) then Some(s) else None
  }

  function TimeOf(text: string): int {
    var s := Parse(text);
    if s.Some? then Instant(s.value) else 0
  }

  function SecondOf(text: string): int {
    var s := Parse(text);
    if s.Some? then Second(s.value) else -1
  }

  lemma Slices(field: string, sep: string, rest: string)
    ensures var text := field + (sep + rest);
      text[..|field|] == field && text[|field|..|field| + |sep|] == sep && text[|field| + |sep|..] == rest
  {
    var text := field + (sep + rest);
    assert text[|field|..] == sep + rest;
    assert text[|field|..|field| + |sep|] == text[|field|..][..|sep|];
    assert text[|field| + |sep|..] == text[|field|..][|sep|..];
  }

  lemma ReadOneField(field: string, k: nat, rest: string)
    requires k < 6 && |field| == Width(k) && AllDigits(field)
    requires ReadFields(rest, k + 1).Some?
    ensures var read := ReadFields(rest, k + 1).value;
            ReadFields(field + (Separator(k) + rest), k) == Some(([Number(field)] + read.0, read.1))
  {
    Slices(field, Separator(k), rest);
  }

  lemma FieldFits(ns: seq<nat>, k: nat)
    requires Fit(ns) && k < 6
    ensures AllDigits(Pad(ns[k], Width(k))) && Number(Pad(ns[k], Width(k))) == ns[k]
  {
    PadNumber(ns[k], Width(k));
  }

  lemma HeadAndTail(ns: seq<nat>, k: nat)
    requires k < |ns|
    ensures ns[k..] == [ns[k]] + ns[k + 1..]
  {
  }

  lemma {:induction false} ReadPrinted(ns: seq<nat>, k: nat, tail: string)
    requires Fit(ns) && k <= 6
    ensures ReadFields(Print(ns, k, tail), k) == Some((ns[k..], tail))
    decreases 6 - k
  {
    if k < 6 {
      var field, rest := Pad(ns[k], Width(k)), Print(ns, k + 1, tail);
      FieldFits(ns, k);
      ReadPrinted(ns, k + 1, tail);
      ReadOneField(field, k, rest);
      HeadAndTail(ns, k);
    } else {
      assert ns[k..] == [];
    }
  }

  lemma ReadPrintedTail(micros: nat)
    requires micros < 1_000_000
    ensures ReadTail(Fraction(micros) + "Z") == Some(micros) && ReadTail(Fraction(micros) + "+00:00") == Some(micros)
  {
    if micros > 0 {
      assert Pow10(6) == 1_000_000;
      PadNumber(micros, 6);
      ReadFraction(Pad(micros, 6));
    }
  }

  lemma ReadFraction(digits: string)
    requires |digits| == 6 && AllDigits(digits)
    ensures ReadTail("." + digits + "Z") == Some(Number(digits)) && ReadTail("." + digits + "+00:00") == Some(Number(digits))
  {
    var z, offset := "." + digits + "Z", "." + digits + "+00:00";
    assert z[1..7] == digits && offset[1..7] == digits;
    assert offset[|offset| - 6..] == "+00:00";
  }

  /** Printing and parsing a UTC stamp returns it, with or without a fraction, in either UTC suffix. */
  lemma FormatRoundTrip(s: Stamp)
    requires Valid(s)
    ensures Parse(Format(s)) == Some(s) && Parse(FormatOffset(s)) == Some(s)
  {
    ReadPrintedTail(s.micros);
    ReadPrinted(Fields(s), 0, Fraction(s.micros) + "Z");
    ReadPrinted(Fields(s), 0, Fraction(s.micros) + "+00:00");
    assert Fields(s)[0..] == Fields(s);
  }

  // --- The order of printed stamps --------------------------------------------------------

  predicate LexLess(ns: seq<nat>, ms: seq<nat>, k: nat)
    requires |ns| == |ms| == 6 && k <= 6
    decreases |ns| - k
  {
    k < 6 && (ns[k] < ms[k] || (ns[k] == ms[k] && LexLess(ns, ms, k + 1)))
  }

  lemma OneFieldOrder(a: nat, b: nat, w: nat, sep: string, x: string, y: string)
    requires a < Pow10(w) && b < Pow10(w)
    ensures Less(Pad(a, w) + (sep + x), Pad(b, w) + (sep + y)) <==> a < b || (a == b && Less(x, y))
  {
    PadOrder(a, b, w);
    LessFields(Pad(a, w), Pad(b, w), sep + x, sep + y);
    LessPrefix(sep, x, y);
  }

  lemma {:induction false} PrintOrder(ns: seq<nat>, ms: seq<nat>, k: nat, t: string, u: string)
    requires Fit(ns) && Fit(ms) && k <= 6
    ensures Less(Print(ns, k, t), Print(ms, k, u)) <==> LexLess(ns, ms, k) || (ns[k..] == ms[k..] && Less(t, u))
    decreases 6 - k
  {
    if k == 6 {
      assert ns[k..] == ms[k..];
    } else {
      var x, y := Print(ns, k + 1, t), Print(ms, k + 1, u);
      PrintOrder(ns, ms, k + 1, t, u);
      OneFieldOrder(ns[k], ms[k], Width(k), Separator(k), x, y);
      SameFrom(ns, ms, k);
    }
  }

  lemma SameFrom(ns: seq<nat>, ms: seq<nat>, k: nat)
    requires |ns| == |ms| && k < |ns|
    ensures ns[k..] == ms[k..] <==> ns[k] == ms[k] && ns[k + 1..] == ms[k + 1..]
  {
    HeadAndTail(ns, k);
    HeadAndTail(ms, k);
    if ns[k..] == ms[k..] { assert ns[k..][0] == ms[k..][0] && ns[k..][1..] == ms[k..][1..]; }
  }

  lemma FieldsOrder(a: Stamp, b: Stamp)
    requires Valid(a) && Valid(b)
    ensures LexLess(Fields(a), Fields(b), 0) <==> Second(a) < Second(b)
    ensures Fields(a) == Fields(b) <==> Second(a) == Second(b)
  {
    var a0, b0 := a.(micros := 0), b.(micros := 0);
    EarlierIff(a0, b0);
    var ns, ms := Fields(a), Fields(b);
    assert LexLess(ns, ms, 5) <==> a.second < b.second;
    assert LexLess(ns, ms, 4) <==> a.minute < b.minute || (a.minute == b.minute && LexLess(ns, ms, 5));
    assert LexLess(ns, ms, 3) <==> TimeOfDay(a) < TimeOfDay(b);
    assert LexLess(ns, ms, 2) <==> a.day < b.day || (a.day == b.day && LexLess(ns, ms, 3));
    assert LexLess(ns, ms, 1) <==> a.month < b.month || (a.month == b.month && LexLess(ns, ms, 2));
    assert Second(a) == Second(a0) && Second(b) == Second(b0);
    assert Instant(a0) == Second(a) * 1_000_000 && Instant(b0) == Second(b) * 1_000_000;
    assert Fields(a) == Fields(b) <==> a0 == b0;
  }

  lemma FractionOrder(m: nat, n: nat)
    requires m < 1_000_000 && n < 1_000_000
    ensures Less(Fraction(m) + "Z", Fraction(n) + "Z") <==> (if n == 0 then m > 0 else m > 0 && m < n)
  {
    PadOrder(m, n, 6);
    if m > 0 && n > 0 {
      assert Fraction(m) + "Z" == "." + (Pad(m, 6) + "Z") && Fraction(n) + "Z" == "." + (Pad(n, 6) + "Z");
      LessPrefix(".", Pad(m, 6) + "Z", Pad(n, 6) + "Z");
      LessFields(Pad(m, 6), Pad(n, 6), "Z", "Z");
      LessTotal("Z", "Z");
    } else if m == n {
      LessTotal("Z", "Z");
    }
  }

  /**
   Comparing printed stamps as strings orders them as instants, except in one case: within the same
   second a stamp with a fraction sorts before the one without, though it is later.
   */
  lemma StringOrderIff(a: Stamp, b: Stamp)
    requires Valid(a) && Valid(b)
    ensures (Less(Format(a), Format(b)) <==> Instant(a) < Instant(b))
            <==> !(Second(a) == Second(b) && (a.micros == 0) != (b.micros == 0))
  {
    PrintOrder(Fields(a), Fields(b), 0, Fraction(a.micros) + "Z", Fraction(b.micros) + "Z");
    FieldsOrder(a, b);
    FractionOrder(a.micros, b.micros);
    assert Fields(a)[0..] == Fields(a) && Fields(b)[0..] == Fields(b);
  }

  /** On the canonical form without fraction the two orders agree. */
  lemma CanonicalOrder(a: Stamp, b: Stamp)
    requires Valid(a) && Valid(b) && a.micros == 0 && b.micros == 0
    ensures Less(Format(a), Format(b)) <==> Instant(a) < Instant(b)
    ensures Format(a) == Format(b) <==> Instant(a) == Instant(b)
  {
    StringOrderIff(a, b);
    EarlierIff(a, b);
    FormatRoundTrip(a);
    FormatRoundTrip(b);
  }

  lemma Unslice(text: string, w: nat, sep: string)
    requires |text| >= w + |sep| && text[w..w + |sep|] == sep
    ensures text == text[..w] + (sep + text[w + |sep|..])
  {
    assert text == text[..w] + (text[w..w + |sep|] + text[w + |sep|..]);
  }

  /** `fields` are read from `text`, where `before` are the fields before them. */
  ghost predicate ReadAs(text: string, before: seq<nat>, fields: seq<nat>, tail: string) {
    && |before + fields| == 6 && text == Print(before + fields, |before|, tail)
    && forall i | |before| <= i < 6 :: (before + fields)[i] < Pow10(Width(i))
  }

  lemma OneMoreField(text: string, before: seq<nat>, n: nat, rest: string, fields: seq<nat>, tail: string)
    requires |before| < 6 && n < Pow10(Width(|before|)) && ReadAs(rest, before + [n], fields, tail)
    requires text == Pad(n, Width(|before|)) + (Separator(|before|) + rest)
    ensures ReadAs(text, before, [n] + fields, tail)
  {
    assert before + ([n] + fields) == (before + [n]) + fields;
  }

  /** What the fields were read from, given those before. */
  lemma {:induction false} ReadFrom(text: string, before: seq<nat>)
    requires |before| <= 6 && ReadFields(text, |before|).Some?
    ensures ReadAs(text, before, ReadFields(text, |before|).value.0, ReadFields(text, |before|).value.1)
    decreases |text|
  {
    var k := |before|;
    if k < 6 {
      var w, sep := Width(k), Separator(k);
      var n, rest := Number(text[..w]), text[w + |sep|..];
      NumberPad(text[..w]);
      Unslice(text, w, sep);
      ReadFrom(rest, before + [n]);
      OneMoreField(text, before, n, rest, ReadFields(rest, k + 1).value.0, ReadFields(rest, k + 1).value.1);
    } else {
      assert before + [] == before;
    }
  }

  /** Every text that parses is the printed fields of its stamp and a tail with its fraction. */
  lemma ParsedText(text: string) returns (tail: string)
    requires Parse(text).Some?
    ensures Fit(Fields(Parse(text).value)) && text == Print(Fields(Parse(text).value), 0, tail)
    ensures ReadTail(tail) == Some(Parse(text).value.micros)
  {
    ReadFrom(text, []);
    tail := ReadFields(text, 0).value.1;
    assert [] + ReadFields(text, 0).value.0 == Fields(Parse(text).value);
  }

  lemma TextOrder(a: string, b: string) returns (t: string, u: string)
    requires Parse(a).Some? && Parse(b).Some?
    ensures ReadTail(t) == Some(Parse(a).value.micros) && ReadTail(u) == Some(Parse(b).value.micros)
    ensures a == Print(Fields(Parse(a).value), 0, t) && b == Print(Fields(Parse(b).value), 0, u)
    ensures Less(a, b) <==> SecondOf(a) < SecondOf(b) || (SecondOf(a) == SecondOf(b) && Less(t, u))
    ensures SecondOf(a) == SecondOf(b) ==> (a == b <==> t == u)
  {
    t := ParsedText(a);
    u := ParsedText(b);
    var s, r := Parse(a).value, Parse(b).value;
    PrintOrder(Fields(s), Fields(r), 0, t, u);
    FieldsOrder(s, r);
    assert Fields(s)[0..] == Fields(s) && Fields(r)[0..] == Fields(r);
    if SecondOf(a) == SecondOf(b) { SamePrint(s, t, u); }
  }

  lemma SamePrint(s: Stamp, t: string, u: string)
    requires Valid(s)
    ensures Print(Fields(s), 0, t) == Print(Fields(s), 0, u) <==> t == u
  {
    PrintOrder(Fields(s), Fields(s), 0, t, u);
    PrintOrder(Fields(s), Fields(s), 0, u, t);
    FieldsOrder(s, s);
    LessTotal(t, u);
    LessTotal(Print(Fields(s), 0, t), Print(Fields(s), 0, u));
  }

  /** Texts of different seconds are ordered as their instants, whatever their fractions and suffixes. */
  lemma SecondsDecide(a: string, b: string)
    requires Parse(a).Some? && Parse(b).Some? && SecondOf(a) != SecondOf(b)
    ensures Less(a, b) <==> TimeOf(a) < TimeOf(b)
    ensures SecondOf(a) < SecondOf(b) <==> TimeOf(a) < TimeOf(b)
  {
    var t, u := TextOrder(a, b);
  }

  /** A tail is a suffix for UTC, or a point, six digits and a suffix. */
  lemma TailShape(tail: string)
    requires ReadTail(tail).Some?
    ensures tail == "Z" || tail == "+00:00" || (|tail| >= 8 && tail[0] == '.' && tail[1..7] == Pad(ReadTail(tail).value, 6) && ReadTail(tail).value < Pow10(6))
  {
    if |tail| >= 8 { NumberPad(tail[1..7]); }
  }

  /** Within one second the tail Z is the greatest; apart from it a greater tail has no smaller fraction. */
  lemma TailOrder(t: string, u: string)
    requires ReadTail(t).Some? && ReadTail(u).Some?
    ensures u == "Z" ==> Leq(t, u)
    ensures u != "Z" && Leq(t, u) ==> t != "Z" && ReadTail(t).value <= ReadTail(u).value
  {
    TailShape(t);
    TailShape(u);
    if |t| >= 8 && |u| >= 8 {
      var m, n := ReadTail(t).value, ReadTail(u).value;
      assert t == "." + (Pad(m, 6) + t[7..]) && u == "." + (Pad(n, 6) + u[7..]);
      LessPrefix(".", Pad(m, 6) + t[7..], Pad(n, 6) + u[7..]);
      LessFields(Pad(m, 6), Pad(n, 6), t[7..], u[7..]);
      PadOrder(m, n, 6);
    }
  }

  /** Whole seconds with a Z. */
  predicate Whole(text: string) {
    var s := Parse(text);
    s.Some? && s.value.micros == 0 && Format(s.value) == text
  }

  predicate HasFraction(text: string) {
    var s := Parse(text);
    s.Some? && s.value.micros > 0
  }

  /**
   Within one second, for every accepted form: a whole second with a Z sorts last although it is the
   earliest; any other texts are ordered as their instants.
   */
  lemma SecondOrder(a: string, b: string)
    requires Parse(a).Some? && Parse(b).Some? && SecondOf(a) == SecondOf(b)
    ensures Whole(b) ==> Leq(a, b) && TimeOf(b) <= TimeOf(a)
    ensures !Whole(b) && Leq(a, b) ==> !Whole(a) && TimeOf(a) <= TimeOf(b)
    ensures Whole(b) ==> (TimeOf(b) < TimeOf(a) <==> HasFraction(a))
  {
    var t, u := TextOrder(a, b);
    WholeTail(a, t);
    WholeTail(b, u);
    TailOrder(t, u);
  }

  lemma WholeTail(text: string, tail: string)
    requires Parse(text).Some? && ReadTail(tail) == Some(Parse(text).value.micros)
    requires text == Print(Fields(Parse(text).value), 0, tail)
    ensures Whole(text) <==> tail == "Z"
  {
    if Parse(text).value.micros == 0 {
      SamePrint(Parse(text).value, tail, "Z");
      assert Fraction(0) + "Z" == "Z";
    }
  }

  // --- The next dispatch ----------------------------------------------------------------

  datatype TimeError = BadInterval | BadTimestamp | OutOfRange

  const MIN_INTERVAL_MINUTES := 1
  const MAX_INTERVAL_MINUTES := 60

  /** The instant of the next dispatch. */
  function Due(prevEnd: string, interval: int): Result<nat, TimeError> {
    if !(MIN_INTERVAL_MINUTES <= interval <= MAX_INTERVAL_MINUTES) then Err(BadInterval)
    else
      var prev := Parse(prevEnd);
      if prev.None? then Err(BadTimestamp) else Ok(Instant(prev.value) + interval * 60_000_000)
  }

  function ComputeNextDispatchAt(prevEnd: string, interval: int): Result<string, TimeError> {
    var due := Due(prevEnd, interval);
    if due.Err? then Err(due.error)
    else
      var next := FromInstant(due.value);
      if next.None? then Err(OutOfRange) else Ok(Format(next.value))
  }

  function WholeSeconds(delta: int): int {
    Max(0, if delta >= 0 then delta / 1_000_000 else -(-delta / 1_000_000))
  }

  /** Whole seconds from now to the next dispatch, cut off toward zero, and never negative. */
  function ComputeRetryWaitSeconds(prevEnd: string, interval: int, nowText: string): Result<int, TimeError> {
    var next := ComputeNextDispatchAt(prevEnd, interval);
    if next.Err? then Err(next.error)
    else
      var at, now := Parse(next.value), Parse(nowText);
      if at.None? || now.None? then Err(BadTimestamp)
      else
        Ok(WholeSeconds(Instant(at.value) - Instant(now.value)))
  }

  /** The printed next dispatch is exactly the interval after the previous end. */
  lemma NextDispatchExact(prevEnd: string, interval: int)
    requires ComputeNextDispatchAt(prevEnd, interval).Ok?
    ensures var next := Parse(ComputeNextDispatchAt(prevEnd, interval).value);
            Due(prevEnd, interval).Ok? && next.Some? && Instant(next.value) == Due(prevEnd, interval).value
  {
    var n := Due(prevEnd, interval).value;
    FromInstantExact(n);
    FormatRoundTrip(FromInstant(n).value);
  }

  /**
   The printed next dispatch reads as the previous end with the interval added to its minutes, carried into
   the hour and the date; nothing else changes.
   */
  lemma NextDispatchFields(prevEnd: string, interval: int)
    requires ComputeNextDispatchAt(prevEnd, interval).Ok?
    ensures 1 <= interval <= 60 && Parse(prevEnd).Some?
    ensures Parse(ComputeNextDispatchAt(prevEnd, interval).value) == Some(MinutesLater(Parse(prevEnd).value, interval))
  {
    var s, n := Parse(prevEnd).value, Due(prevEnd, interval).value;
    var t := FromInstant(n).value;
    FromInstantExact(n);
    FormatRoundTrip(t);
    if MinutesLater(s, interval).year > MAX_YEAR { NoStampAfterLastYear(s, interval, t); }
    MinutesLaterAdvances(s, interval);
    FromInstantIff(n, MinutesLater(s, interval));
  }

  /**
   Waiting the computed seconds ends less than a second before the next dispatch and never after it;
   once the next dispatch has passed there is no wait.
   */
  lemma WaitExact(prevEnd: string, interval: int, nowText: string)
    requires ComputeNextDispatchAt(prevEnd, interval).Ok? && Parse(nowText).Some?
    ensures var wait := ComputeRetryWaitSeconds(prevEnd, interval, nowText);
            wait.Ok? && Due(prevEnd, interval).Ok? &&
            var due, now := Due(prevEnd, interval).value, Instant(Parse(nowText).value);
            && (now <= due ==> now + wait.value * 1_000_000 <= due < now + (wait.value + 1) * 1_000_000)
            && (now > due ==> wait.value == 0)
  {
    NextDispatchExact(prevEnd, interval);
  }

}
