/** What the inbound decision means, and the laws it obeys. */
module InboundLaws {
  import opened Wrappers
  import opened Strings
  import opened Timestamps
  import opened InboundSelection
  import opened InboundRead

  // --- The specification, over instants -------------------------------------------------

  function Key(time: string -> int, c: Cycle, g: Group): int { time(KeyText(c, g)) }

  /** `c` belongs to the group and none of the group is later. */
  ghost predicate Latest(time: string -> int, cs: seq<Cycle>, g: Group, now: int, days: int, c: Cycle) {
    && c in cs && InGroup(time, c, g, now, days)
    && forall d | d in cs && InGroup(time, d, g, now, days) :: Key(time, d, g) <= Key(time, c, g)
  }

  ghost predicate NoneIn(time: string -> int, cs: seq<Cycle>, g: Group, now: int, days: int) {
    forall c | c in cs :: !InGroup(time, c, g, now, days)
  }

  /** The group's latest cycle, if it has any. */
  ghost predicate Answer(time: string -> int, cs: seq<Cycle>, g: Group, now: int, days: int, r: Option<Cycle>) {
    if r.Some? then Latest(time, cs, g, now, days, r.value) else NoneIn(time, cs, g, now, days)
  }

  /** What the decision means, without regard to the order of the list. */
  ghost predicate Spec(time: string -> int, cs: seq<Cycle>, now: int, days: int, d: Decision) {
    exists running, completed, terminated ::
      && Answer(time, cs, Running, now, days, running)
      && Answer(time, cs, CompletedRecently, now, days, completed)
      && Answer(time, cs, TerminatedRecently, now, days, terminated)
      && d == Outcome(running, completed, terminated)
  }

  /** A running cycle wins, then a recently completed one, then a recently terminated one. */
  function Outcome(running: Option<Cycle>, completed: Option<Cycle>, terminated: Option<Cycle>): Decision {
    match (running, completed, terminated)
    case (Some(c), _, _) => Decision(ACTIVE_CYCLE, Some(c.id))
    case (None, Some(c), _) => Decision(ACTIVE_CYCLE, Some(c.id))
    case (None, None, Some(c)) => Decision(CYCLE_TERMINATED, Some(c.id))
    case (None, None, None) => Decision(NO_CYCLE, None)
  }

  lemma {:induction false} SelectMembers(time: string -> int, cs: seq<Cycle>, g: Group, now: int, days: int)
    ensures forall c :: c in Select(time, cs, g, now, days) <==> c in cs && InGroup(time, c, g, now, days)
  {
    if cs != [] {
      var rest, last := cs[..|cs| - 1], cs[|cs| - 1];
      assert cs == rest + [last];
      SelectMembers(time, rest, g, now, days);
    }
  }

  lemma {:induction false} SelectLatestGreatest(cs: seq<Cycle>, g: Group)
    ensures SelectLatest(cs, g).None? <==> cs == []
    ensures SelectLatest(cs, g).Some? ==>
              var r := SelectLatest(cs, g).value; r in cs && forall c | c in cs :: Leq(KeyText(c, g), KeyText(r, g))
  {
    LeqOrders();
    if cs != [] {
      var rest, last := cs[..|cs| - 1], cs[|cs| - 1];
      SelectLatestGreatest(rest, g);
      var best, r := SelectLatest(rest, g), SelectLatest(cs, g).value;
      if best.Some? { LessTotal(KeyText(best.value, g), KeyText(last, g)); }
      forall c | c in cs ensures Leq(KeyText(c, g), KeyText(r, g)) {
        assert c in rest || c == last;
        if c in rest { assert Leq(KeyText(c, g), KeyText(best.value, g)); }
      }
    }
  }

  /** A group has an answer exactly when it is not empty. */
  lemma LatestInSome(time: string -> int, cs: seq<Cycle>, g: Group, now: int, days: int)
    ensures LatestIn(time, cs, g, now, days).None? <==> NoneIn(time, cs, g, now, days)
  {
    var selected := Select(time, cs, g, now, days);
    SelectMembers(time, cs, g, now, days);
    SelectLatestGreatest(selected, g);
    if selected != [] { assert selected[0] in selected; }
  }

  lemma {:induction false} LatestExists(time: string -> int, cs: seq<Cycle>, g: Group, now: int, days: int) returns (r: Option<Cycle>)
    ensures Answer(time, cs, g, now, days, r)
  {
    if cs == [] {
      r := None;
    } else {
      var rest, last := cs[..|cs| - 1], cs[|cs| - 1];
      r := LatestExists(time, rest, g, now, days);
      assert cs == rest + [last];
      if InGroup(time, last, g, now, days) && (r.None? || Key(time, r.value, g) < Key(time, last, g)) { r := Some(last); }
    }
  }

  // --- When the string maximum is the latest ------------------------------------------------

  ghost predicate AllValid(cs: seq<Cycle>) { forall c | c in cs :: ValidRecord(c) }

  predicate Member(cs: seq<Cycle>, g: Group, now: int, days: int, c: Cycle) { c in cs && InGroup(TimeOf, c, g, now, days) }

  /** The latest second of the group holds a whole second with a Z, and a fraction. */
  ghost predicate MixedLast(cs: seq<Cycle>, g: Group, now: int, days: int) {
    exists c, d ::
      && Member(cs, g, now, days, c) && Whole(KeyText(c, g))
      && Member(cs, g, now, days, d) && HasFraction(KeyText(d, g))
      && SecondOf(KeyText(c, g)) == SecondOf(KeyText(d, g))
      && forall e | Member(cs, g, now, days, e) :: SecondOf(KeyText(e, g)) <= SecondOf(KeyText(c, g))
  }

  lemma KeyParses(cs: seq<Cycle>, g: Group, now: int, days: int, c: Cycle)
    requires AllValid(cs) && Member(cs, g, now, days, c)
    ensures Parse(KeyText(c, g)).Some?
  {
    assert ValidRecord(c);
  }

  /** What the string maximum `a` of a group says about another text `b` of the group. */
  lemma BelowMaximum(a: string, b: string)
    requires Parse(a).Some? && Parse(b).Some? && Leq(b, a)
    ensures SecondOf(b) <= SecondOf(a)
    ensures TimeOf(b) <= TimeOf(a) || (Whole(a) && HasFraction(b) && SecondOf(a) == SecondOf(b))
    ensures SecondOf(a) == SecondOf(b) && Whole(b) ==> a == b
    ensures Whole(a) && HasFraction(b) && SecondOf(a) == SecondOf(b) ==> TimeOf(a) < TimeOf(b)
  {
    if SecondOf(a) == SecondOf(b) {
      SecondOrder(b, a);
      SecondOrder(a, b);
      LessTotal(a, b);
    } else {
      SecondsDecide(a, b);
      LessTotal(a, b);
    }
  }

  /** The string maximum is the latest of its group exactly when the latest second is not mixed. */
  lemma LatestInIff(cs: seq<Cycle>, g: Group, now: int, days: int)
    requires AllValid(cs)
    ensures Answer(TimeOf, cs, g, now, days, LatestIn(TimeOf, cs, g, now, days)) <==> !MixedLast(cs, g, now, days)
  {
    var r := LatestIn(TimeOf, cs, g, now, days);
    LatestInSome(TimeOf, cs, g, now, days);
    if r.Some? {
      GreatestOf(cs, g, now, days);
      if MixedLast(cs, g, now, days) { MixedFails(cs, g, now, days, r.value); }
      else { NotMixedLatest(cs, g, now, days, r.value); }
    }
  }

  ghost predicate Greatest(cs: seq<Cycle>, g: Group, now: int, days: int, r: Cycle) {
    && Member(cs, g, now, days, r)
    && forall d | Member(cs, g, now, days, d) :: Leq(KeyText(d, g), KeyText(r, g))
  }

  lemma GreatestOf(cs: seq<Cycle>, g: Group, now: int, days: int)
    requires LatestIn(TimeOf, cs, g, now, days).Some?
    ensures Greatest(cs, g, now, days, LatestIn(TimeOf, cs, g, now, days).value)
  {
    SelectMembers(TimeOf, cs, g, now, days);
    SelectLatestGreatest(Select(TimeOf, cs, g, now, days), g);
  }

  lemma MixedFails(cs: seq<Cycle>, g: Group, now: int, days: int, r: Cycle)
    requires AllValid(cs) && Greatest(cs, g, now, days, r) && MixedLast(cs, g, now, days)
    ensures !Latest(TimeOf, cs, g, now, days, r)
  {
    var c, d :|
      && Member(cs, g, now, days, c) && Whole(KeyText(c, g))
      && Member(cs, g, now, days, d) && HasFraction(KeyText(d, g))
      && SecondOf(KeyText(c, g)) == SecondOf(KeyText(d, g))
      && forall e | Member(cs, g, now, days, e) :: SecondOf(KeyText(e, g)) <= SecondOf(KeyText(c, g));
    KeyParses(cs, g, now, days, c);
    KeyParses(cs, g, now, days, d);
    KeyParses(cs, g, now, days, r);
    BelowMaximum(KeyText(r, g), KeyText(c, g));
    BelowMaximum(KeyText(r, g), KeyText(d, g));
  }

  lemma NotMixedLatest(cs: seq<Cycle>, g: Group, now: int, days: int, r: Cycle)
    requires AllValid(cs) && Greatest(cs, g, now, days, r) && !MixedLast(cs, g, now, days)
    ensures Latest(TimeOf, cs, g, now, days, r)
  {
    KeyParses(cs, g, now, days, r);
    forall e | Member(cs, g, now, days, e)
      ensures SecondOf(KeyText(e, g)) <= SecondOf(KeyText(r, g)) && Key(TimeOf, e, g) <= Key(TimeOf, r, g)
    {
      forall d | Member(cs, g, now, days, d) ensures SecondOf(KeyText(d, g)) <= SecondOf(KeyText(r, g)) {
        KeyParses(cs, g, now, days, d);
        BelowMaximum(KeyText(r, g), KeyText(d, g));
      }
      KeyParses(cs, g, now, days, e);
      BelowMaximum(KeyText(r, g), KeyText(e, g));
    }
  }

  // --- When the decision is right -------------------------------------------------------------

  /** The group that decides: it has members, and none of higher priority has. */
  ghost predicate Deciding(cs: seq<Cycle>, g: Group, now: int, days: int) {
    && !NoneIn(TimeOf, cs, g, now, days)
    && (!g.Running? ==> NoneIn(TimeOf, cs, Running, now, days))
    && (g.TerminatedRecently? ==> NoneIn(TimeOf, cs, CompletedRecently, now, days))
  }

  /** The latest second of the deciding group is mixed. */
  ghost predicate Misled(cs: seq<Cycle>, now: int, days: int) {
    exists g: Group :: Deciding(cs, g, now, days) && MixedLast(cs, g, now, days)
  }

  ghost predicate DistinctIds(cs: seq<Cycle>) { forall c, d | c in cs && d in cs && c.id == d.id :: c == d }

  /** The decision for member `c` of the group. */
  function Named(g: Group, c: Cycle): Decision { Decision(if g.TerminatedRecently? then CYCLE_TERMINATED else ACTIVE_CYCLE, Some(c.id)) }

  /** The decision names the string maximum of the deciding group. */
  lemma DecidedBy(cs: seq<Cycle>, g: Group, now: int, days: int)
    requires Deciding(cs, g, now, days)
    ensures LatestIn(TimeOf, cs, g, now, days).Some?
    ensures Decide(TimeOf, cs, now, days) == Named(g, LatestIn(TimeOf, cs, g, now, days).value)
  {
    forall h: Group { LatestInSome(TimeOf, cs, h, now, days); }
  }

  lemma NobodyDecides(cs: seq<Cycle>, now: int, days: int)
    requires forall g: Group :: !Deciding(cs, g, now, days)
    ensures Decide(TimeOf, cs, now, days) == Decision(NO_CYCLE, None)
    ensures forall g: Group :: NoneIn(TimeOf, cs, g, now, days)
  {
    assert !Deciding(cs, Running, now, days) && !Deciding(cs, CompletedRecently, now, days) && !Deciding(cs, TerminatedRecently, now, days);
    forall g: Group { LatestInSome(TimeOf, cs, g, now, days); }
  }

  /** The specification asks for a latest member of the deciding group. */
  lemma SpecOfDeciding(cs: seq<Cycle>, g: Group, now: int, days: int, d: Decision)
    requires Deciding(cs, g, now, days)
    ensures Spec(TimeOf, cs, now, days, d) <==> exists c :: Latest(TimeOf, cs, g, now, days, c) && d == Named(g, c)
  {
    if c :| Latest(TimeOf, cs, g, now, days, c) && d == Named(g, c) { NamedFits(cs, g, now, days, c); }
    if Spec(TimeOf, cs, now, days, d) {
      var running, completed, terminated :|
        && Answer(TimeOf, cs, Running, now, days, running)
        && Answer(TimeOf, cs, CompletedRecently, now, days, completed)
        && Answer(TimeOf, cs, TerminatedRecently, now, days, terminated)
        && d == Outcome(running, completed, terminated);
      var r := if g.Running? then running else if g.CompletedRecently? then completed else terminated;
      assert Latest(TimeOf, cs, g, now, days, r.value) && d == Named(g, r.value);
    }
  }

  lemma NamedFits(cs: seq<Cycle>, g: Group, now: int, days: int, c: Cycle)
    requires Deciding(cs, g, now, days) && Latest(TimeOf, cs, g, now, days, c)
    ensures Spec(TimeOf, cs, now, days, Named(g, c))
  {
    var running := LatestExists(TimeOf, cs, Running, now, days);
    var completed := LatestExists(TimeOf, cs, CompletedRecently, now, days);
    var terminated := LatestExists(TimeOf, cs, TerminatedRecently, now, days);
    match g
    case Running => assert Outcome(Some(c), completed, terminated) == Named(g, c) && Answer(TimeOf, cs, g, now, days, Some(c));
    case CompletedRecently => assert Outcome(running, Some(c), terminated) == Named(g, c) && Answer(TimeOf, cs, g, now, days, Some(c));
    case TerminatedRecently => assert Outcome(running, completed, Some(c)) == Named(g, c) && Answer(TimeOf, cs, g, now, days, Some(c));
  }

  lemma SpecOfNobody(cs: seq<Cycle>, now: int, days: int, d: Decision)
    requires forall g: Group :: NoneIn(TimeOf, cs, g, now, days)
    ensures Spec(TimeOf, cs, now, days, d) <==> d == Decision(NO_CYCLE, None)
  {
    assert Answer(TimeOf, cs, Running, now, days, None) && Answer(TimeOf, cs, CompletedRecently, now, days, None)
        && Answer(TimeOf, cs, TerminatedRecently, now, days, None);
    assert Outcome(None, None, None) == Decision(NO_CYCLE, None);
  }

  /** Valid records, and only those, are decided. */
  lemma AcceptedIff(cs: seq<Cycle>, now: int, days: int)
    requires MIN_WINDOW_DAYS <= days <= MAX_WINDOW_DAYS
    ensures DecideInboundFlow(true, cs, now, days) == if AllValid(cs) then Ok(Decide(TimeOf, cs, now, days)) else Err(BadCycle)
  {
    InvalidIff(cs);
  }

  /**
   Exactly when the decision is right, for cycles with their own identifiers: unless the latest second
   of the deciding group holds both a whole second with a Z and a fraction.
   */
  lemma DecisionIff(cs: seq<Cycle>, now: int, days: int)
    requires AllValid(cs)
    ensures !Misled(cs, now, days) ==> Spec(TimeOf, cs, now, days, Decide(TimeOf, cs, now, days))
    ensures DistinctIds(cs) && Misled(cs, now, days) ==> !Spec(TimeOf, cs, now, days, Decide(TimeOf, cs, now, days))
  {
    if g: Group :| Deciding(cs, g, now, days) {
      DecidedBy(cs, g, now, days);
      SpecOfDeciding(cs, g, now, days, Decide(TimeOf, cs, now, days));
      LatestInIff(cs, g, now, days);
      OneDecides(cs, g, now, days);
      GreatestOf(cs, g, now, days);
    } else {
      NobodyDecides(cs, now, days);
      SpecOfNobody(cs, now, days, Decide(TimeOf, cs, now, days));
    }
  }

  lemma OneDecides(cs: seq<Cycle>, g: Group, now: int, days: int)
    requires Deciding(cs, g, now, days)
    ensures Misled(cs, now, days) <==> MixedLast(cs, g, now, days)
  {
    forall h: Group | Deciding(cs, h, now, days) ensures h == g { }
  }

  /** Distinct cycles have distinct times. */
  ghost predicate DistinctTimes(time: string -> int, cs: seq<Cycle>) {
    forall c, d | c in cs && d in cs && c != d ::
      && time(c.startedAt) != time(d.startedAt)
      && (Ended(c) && Ended(d) ==> time(c.completedAt.value) != time(d.completedAt.value))
  }

  predicate Ended(c: Cycle) { !c.status.RUNNING? && c.completedAt.Some? }

  /** With distinct times at most one decision meets the specification. */
  lemma SpecUnique(cs: seq<Cycle>, now: int, days: int, d: Decision, d': Decision)
    requires DistinctTimes(TimeOf, cs) && AllValid(cs) && Spec(TimeOf, cs, now, days, d) && Spec(TimeOf, cs, now, days, d')
    ensures d == d'
  {
    if g: Group :| Deciding(cs, g, now, days) {
      SpecOfDeciding(cs, g, now, days, d);
      SpecOfDeciding(cs, g, now, days, d');
    } else {
      NobodyDecides(cs, now, days);
      SpecOfNobody(cs, now, days, d);
      SpecOfNobody(cs, now, days, d');
    }
  }

  /**
   The whole decision. A window out of range is an error; an unknown caller is told so, whatever the records.
   For a known caller an invalid record is an error, and valid ones get a decision that meets the specification
   exactly unless it is misled, and with distinct times no other does.
   */
  lemma DecisionExact(matched: bool, cs: seq<Cycle>, now: int, days: int)
    ensures var r, admissible := DecideInboundFlow(matched, cs, now, days), MIN_WINDOW_DAYS <= days <= MAX_WINDOW_DAYS;
      && (r == Err(BadWindow) <==> !admissible)
      && (admissible && !matched ==> r == Ok(Decision(NOT_REGISTERED, None)))
      && (admissible && matched && !AllValid(cs) ==> r == Err(BadCycle))
      && (admissible && matched && AllValid(cs) ==> r.Ok? && RightAnswer(cs, now, days, r.value))
  {
    if matched && MIN_WINDOW_DAYS <= days <= MAX_WINDOW_DAYS {
      AcceptedIff(cs, now, days);
      if AllValid(cs) { KnownCaller(cs, now, days); }
    }
  }

  /** What a known caller is answered, given valid records. */
  ghost predicate RightAnswer(cs: seq<Cycle>, now: int, days: int, d: Decision) {
    && !d.flow.NOT_REGISTERED?
    && (!Misled(cs, now, days) ==> Spec(TimeOf, cs, now, days, d))
    && (Misled(cs, now, days) && DistinctIds(cs) ==> !Spec(TimeOf, cs, now, days, d))
    && (!Misled(cs, now, days) && DistinctTimes(TimeOf, cs) ==> forall other :: Spec(TimeOf, cs, now, days, other) ==> other == d)
  }

  lemma KnownCaller(cs: seq<Cycle>, now: int, days: int)
    requires AllValid(cs)
    ensures RightAnswer(cs, now, days, Decide(TimeOf, cs, now, days))
  {
    DecisionIff(cs, now, days);
    Registered(cs, now, days);
    if !Misled(cs, now, days) && DistinctTimes(TimeOf, cs) { OnlyDecision(cs, now, days, Decide(TimeOf, cs, now, days)); }
  }

  lemma Registered(cs: seq<Cycle>, now: int, days: int)
    ensures !Decide(TimeOf, cs, now, days).flow.NOT_REGISTERED?
  {
  }

  lemma OnlyDecision(cs: seq<Cycle>, now: int, days: int, d: Decision)
    requires DistinctTimes(TimeOf, cs) && AllValid(cs) && Spec(TimeOf, cs, now, days, d)
    ensures forall other :: Spec(TimeOf, cs, now, days, other) ==> other == d
  {
    forall other | Spec(TimeOf, cs, now, days, other) ensures other == d { SpecUnique(cs, now, days, other, d); }
  }

  // --- The window on the calendar ---------------------------------------------------------

  /** The same time of day, `days` days after the end, has not passed. */
  predicate Recent(c: Cycle, now: int, days: nat) {
    c.completedAt.Some? &&
    var s := Parse(c.completedAt.value);
    s.Some? && Valid(DaysLater(s.value, days)) && now <= Instant(DaysLater(s.value, days))
  }

  /** The window of every cycle ends before the last year does. */
  ghost predicate WindowsEnd(cs: seq<Cycle>, days: nat) {
    forall c | c in cs && c.completedAt.Some? && Parse(c.completedAt.value).Some? :: DaysLater(Parse(c.completedAt.value).value, days).year <= MAX_YEAR
  }

  lemma RecentIff(c: Cycle, now: int, days: nat)
    requires c.completedAt.Some? && Parse(c.completedAt.value).Some? && DaysLater(Parse(c.completedAt.value).value, days).year <= MAX_YEAR
    ensures WithinWindow(TimeOf, c, now, days) <==> Recent(c, now, days)
  {
    DaysLaterAdvances(Parse(c.completedAt.value).value, days);
  }

  ghost predicate HasActive(cs: seq<Cycle>, now: int, days: nat) {
    exists c :: c in cs && (c.status == RUNNING || (c.status == COMPLETED && Recent(c, now, days)))
  }

  ghost predicate HasTerminated(cs: seq<Cycle>, now: int, days: nat) {
    exists c :: c in cs && (c.status == TIMEOUT || c.status == START_FAILED) && Recent(c, now, days)
  }

  /** Which way a known caller goes, on the calendar. */
  lemma FlowOnCalendar(cs: seq<Cycle>, now: int, days: nat)
    requires AllValid(cs) && MIN_WINDOW_DAYS <= days <= MAX_WINDOW_DAYS && WindowsEnd(cs, days)
    ensures var r := DecideInboundFlow(true, cs, now, days);
      r.Ok? && r.value.flow ==
        if HasActive(cs, now, days) then ACTIVE_CYCLE else if HasTerminated(cs, now, days) then CYCLE_TERMINATED else NO_CYCLE
  {
    AcceptedIff(cs, now, days);
    forall c | c in cs && !c.status.RUNNING? ensures WithinWindow(TimeOf, c, now, days) <==> Recent(c, now, days) {
      assert ValidRecord(c);
      RecentIff(c, now, days);
    }
    GroupsOnCalendar(cs, now, days);
    forall g: Group { LatestInSome(TimeOf, cs, g, now, days); }
  }

  lemma GroupsOnCalendar(cs: seq<Cycle>, now: int, days: nat)
    requires forall c | c in cs && !c.status.RUNNING? :: WithinWindow(TimeOf, c, now, days) <==> Recent(c, now, days)
    ensures HasActive(cs, now, days) <==> !NoneIn(TimeOf, cs, Running, now, days) || !NoneIn(TimeOf, cs, CompletedRecently, now, days)
    ensures HasTerminated(cs, now, days) <==> !NoneIn(TimeOf, cs, TerminatedRecently, now, days)
  {
    if c :| c in cs && (c.status == RUNNING || (c.status == COMPLETED && Recent(c, now, days))) {
      assert InGroup(TimeOf, c, if c.status == RUNNING then Running else CompletedRecently, now, days);
    }
    if c :| c in cs && (c.status == TIMEOUT || c.status == START_FAILED) && Recent(c, now, days) {
      assert InGroup(TimeOf, c, TerminatedRecently, now, days);
    }
  }

  /**
   A misled decision: of two cycles completed within one second, the one without a fraction is chosen
   although the other ended later.
   */
  lemma OneSecondFails(c: Cycle, d: Cycle, s: Stamp, micros: nat, now: int, days: int)
    requires ValidRecord(c) && ValidRecord(d) && c.status == d.status == COMPLETED && MIN_WINDOW_DAYS <= days <= MAX_WINDOW_DAYS
    requires Valid(s) && s.micros == 0 && 0 < micros < 1_000_000 && now <= Instant(s)
    requires c.completedAt == Some(Format(s)) && d.completedAt == Some(Format(s.(micros := micros)))
    ensures DecideInboundFlow(true, [c, d], now, days) == Ok(Decision(ACTIVE_CYCLE, Some(c.id)))
    ensures TimeOf(c.completedAt.value) < TimeOf(d.completedAt.value) && Misled([c, d], now, days)
  {
    FormatRoundTrip(s);
    FormatRoundTrip(s.(micros := micros));
    StringOrderIff(s, s.(micros := micros));
    AcceptedIff([c, d], now, days);
    FirstOfTwo(TimeOf, c, d, now, days);
    MixedPair(c, d, now, days);
  }

  lemma MixedPair(c: Cycle, d: Cycle, now: int, days: int)
    requires InGroup(TimeOf, c, CompletedRecently, now, days) && InGroup(TimeOf, d, CompletedRecently, now, days)
    requires Whole(c.completedAt.value) && HasFraction(d.completedAt.value)
    requires SecondOf(c.completedAt.value) == SecondOf(d.completedAt.value)
    ensures Misled([c, d], now, days)
  {
    var g := CompletedRecently;
    assert Member([c, d], g, now, days, c) && Member([c, d], g, now, days, d);
    assert MixedLast([c, d], g, now, days) && Deciding([c, d], g, now, days);
  }

  lemma FirstOfTwo(time: string -> int, c: Cycle, d: Cycle, now: int, days: int)
    requires InGroup(time, c, CompletedRecently, now, days) && InGroup(time, d, CompletedRecently, now, days)
    requires !Less(c.completedAt.value, d.completedAt.value)
    ensures Decide(time, [c, d], now, days) == Decision(ACTIVE_CYCLE, Some(c.id))
  {
    forall g: Group ensures Select(time, [c], g, now, days) == if InGroup(time, c, g, now, days) then [c] else [] {
      assert Select(time, [c][..0], g, now, days) == [];
    }
    assert [c, d][..1] == [c];
    assert Select(time, [c, d], Running, now, days) == [];
    assert Select(time, [c, d], CompletedRecently, now, days) == [c, d];
    assert SelectLatest([c][..0], CompletedRecently) == None;
    assert SelectLatest([c], CompletedRecently) == Some(c);
  }

  // --- The order of the list -------------------------------------------------------------

  /** With distinct times the greatest text belongs to one cycle, whatever the order of the list. */
  lemma SameLatest(time: string -> int, a: seq<Cycle>, b: seq<Cycle>, g: Group, now: int, days: int)
    requires (forall c :: c in a <==> c in b) && DistinctTimes(time, a)
    ensures LatestIn(time, a, g, now, days) == LatestIn(time, b, g, now, days)
  {
    var x, y := Select(time, a, g, now, days), Select(time, b, g, now, days);
    SelectMembers(time, a, g, now, days);
    SelectMembers(time, b, g, now, days);
    SelectLatestGreatest(x, g);
    SelectLatestGreatest(y, g);
    if x != [] { assert x[0] in x && x[0] in y; }
    if y != [] { assert y[0] in y && y[0] in x; }
    if x != [] && y != [] {
      var c, d := SelectLatest(x, g).value, SelectLatest(y, g).value;
      assert Leq(KeyText(c, g), KeyText(d, g)) && Leq(KeyText(d, g), KeyText(c, g));
      SameText(time, a, g, now, days, c, d);
    }
  }

  lemma SameText(time: string -> int, cs: seq<Cycle>, g: Group, now: int, days: int, c: Cycle, d: Cycle)
    requires DistinctTimes(time, cs) && c in cs && d in cs && InGroup(time, c, g, now, days) && InGroup(time, d, g, now, days)
    requires Leq(KeyText(c, g), KeyText(d, g)) && Leq(KeyText(d, g), KeyText(c, g))
    ensures c == d
  {
    LessTotal(KeyText(c, g), KeyText(d, g));
  }

  /** Whatever the records and the window, the answer does not depend on the order of the list. */
  lemma OrderIndependent(matched: bool, a: seq<Cycle>, b: seq<Cycle>, now: int, days: int)
    requires (forall c :: c in a <==> c in b) && DistinctTimes(TimeOf, a)
    ensures DecideInboundFlow(matched, a, now, days) == DecideInboundFlow(matched, b, now, days)
  {
    InvalidIff(a);
    InvalidIff(b);
    SameDecision(TimeOf, a, b, now, days);
    assert AllValid(a) <==> AllValid(b);
  }

  lemma InvalidIff(cs: seq<Cycle>)
    ensures (exists i :: 0 <= i < |cs| && !ValidRecord(cs[i])) <==> !AllValid(cs)
  {
    if !AllValid(cs) {
      var c :| c in cs && !ValidRecord(c);
      var i :| 0 <= i < |cs| && cs[i] == c;
    }
  }

  lemma SameDecision(time: string -> int, a: seq<Cycle>, b: seq<Cycle>, now: int, days: int)
    requires (forall c :: c in a <==> c in b) && DistinctTimes(time, a)
    ensures Decide(time, a, now, days) == Decide(time, b, now, days)
  {
    SameLatest(time, a, b, Running, now, days);
    SameLatest(time, a, b, CompletedRecently, now, days);
    SameLatest(time, a, b, TerminatedRecently, now, days);
  }

  // --- The passage of time ---------------------------------------------------------------

  function Rank(f: Flow): int {
    match f
    case ACTIVE_CYCLE => 0
    case CYCLE_TERMINATED => 1
    case NO_CYCLE => 2
    case NOT_REGISTERED => 3
  }

  /** Groups only lose members as time passes, except the running cycles, which stay. */
  lemma RankAdvances(time: string -> int, cs: seq<Cycle>, now: int, later: int, days: int)
    requires now <= later
    ensures Rank(Decide(time, cs, now, days).flow) <= Rank(Decide(time, cs, later, days).flow)
  {
    forall g: Group
      ensures LatestIn(time, cs, g, later, days).Some? ==> LatestIn(time, cs, g, now, days).Some?
      ensures g.Running? && LatestIn(time, cs, g, now, days).Some? ==> LatestIn(time, cs, g, later, days).Some?
    {
      LatestInSome(time, cs, g, now, days);
      LatestInSome(time, cs, g, later, days);
      if c :| c in cs && InGroup(time, c, g, later, days) { assert InGroup(time, c, g, now, days); }
      if g.Running? && !NoneIn(time, cs, g, now, days) {
        var c :| c in cs && InGroup(time, c, g, now, days);
        assert InGroup(time, c, g, later, days);
      }
    }
  }

  lemma LatestInStep(cs: seq<Cycle>, g: Group, now: int, days: int)
    requires cs != []
    ensures var rest, last := LatestIn(TimeOf, cs[..|cs| - 1], g, now, days), cs[|cs| - 1];
            LatestIn(TimeOf, cs, g, now, days) ==
              if InGroup(TimeOf, last, g, now, days) && (rest.None? || Less(KeyText(rest.value, g), KeyText(last, g))) then Some(last) else rest
  {
    var last := cs[|cs| - 1];
    var selected := Select(TimeOf, cs[..|cs| - 1], g, now, days);
    if InGroup(TimeOf, last, g, now, days) { assert (selected + [last])[..|selected|] == selected; }
    else { assert selected + [] == selected; }
  }

  lemma ChoiceLowers(cs: seq<Cycle>, g: Group, now: int, later: int, days: int)
    requires now <= later && LatestIn(TimeOf, cs, g, later, days).Some?
    ensures LatestIn(TimeOf, cs, g, now, days).Some?
    ensures Leq(KeyText(LatestIn(TimeOf, cs, g, later, days).value, g), KeyText(LatestIn(TimeOf, cs, g, now, days).value, g))
  {
    GreatestOf(cs, g, later, days);
    var c := LatestIn(TimeOf, cs, g, later, days).value;
    assert Member(cs, g, now, days, c);
    LatestInSome(TimeOf, cs, g, now, days);
    GreatestOf(cs, g, now, days);
  }

  /** A choice that is still in its group is still the choice, for the group only loses members. */
  lemma {:induction false} ChoiceStays(cs: seq<Cycle>, g: Group, now: int, later: int, days: int)
    requires now <= later && LatestIn(TimeOf, cs, g, now, days).Some?
    requires InGroup(TimeOf, LatestIn(TimeOf, cs, g, now, days).value, g, later, days)
    ensures LatestIn(TimeOf, cs, g, later, days) == LatestIn(TimeOf, cs, g, now, days)
    decreases |cs|
  {
    var rest, last := cs[..|cs| - 1], cs[|cs| - 1];
    LatestInStep(cs, g, now, days);
    LatestInStep(cs, g, later, days);
    if LatestIn(TimeOf, cs, g, now, days) == LatestIn(TimeOf, rest, g, now, days) {
      ChoiceStays(rest, g, now, later, days);
    } else if LatestIn(TimeOf, rest, g, later, days).Some? {
      ChoiceLowers(rest, g, now, later, days);
      LeqThenLess(KeyText(LatestIn(TimeOf, rest, g, later, days).value, g), KeyText(LatestIn(TimeOf, rest, g, now, days).value, g), KeyText(last, g));
    }
  }

  lemma LeqThenLess(a: string, b: string, c: string)
    requires Leq(a, b) && Less(b, c)
    ensures Less(a, c)
  {
    if a != b { LessTransitive(a, b, c); }
  }

  /** The latest member leaves the window last. */
  lemma LatestLeavesLast(cs: seq<Cycle>, g: Group, now: int, later: int, days: int, c: Cycle)
    requires now <= later && Latest(TimeOf, cs, g, now, days, c) && !NoneIn(TimeOf, cs, g, later, days)
    ensures InGroup(TimeOf, c, g, later, days)
  {
    var d :| d in cs && InGroup(TimeOf, d, g, later, days);
    assert InGroup(TimeOf, d, g, now, days);
    assert Key(TimeOf, d, g) <= Key(TimeOf, c, g);
  }

  lemma CycleStays(cs: seq<Cycle>, now: int, later: int, days: int)
    requires AllValid(cs) && now <= later && !Misled(cs, now, days)
    ensures var before, after := Decide(TimeOf, cs, now, days), Decide(TimeOf, cs, later, days);
      before.flow == after.flow ==> before.cycleId == after.cycleId
  {
    if g: Group :| Deciding(cs, g, now, days) {
      DecidedBy(cs, g, now, days);
      LatestInIff(cs, g, now, days);
      assert !MixedLast(cs, g, now, days);
      var r := LatestIn(TimeOf, cs, g, now, days).value;
      NoneReturns(cs, now, later, days);
      if !NoneIn(TimeOf, cs, g, later, days) {
        LatestLeavesLast(cs, g, now, later, days, r);
        ChoiceStays(cs, g, now, later, days);
        DecidedBy(cs, g, later, days);
      } else {
        FlowLeft(cs, g, now, later, days);
      }
    } else {
      NobodyDecides(cs, now, days);
      NoneReturns(cs, now, later, days);
      assert forall g: Group :: !Deciding(cs, g, later, days);
      NobodyDecides(cs, later, days);
    }
  }

  /** A group without members gets none by the passage of time. */
  lemma NoneReturns(cs: seq<Cycle>, now: int, later: int, days: int)
    requires now <= later
    ensures forall g: Group | NoneIn(TimeOf, cs, g, now, days) :: NoneIn(TimeOf, cs, g, later, days)
  {
    forall g: Group, c | NoneIn(TimeOf, cs, g, now, days) && c in cs ensures !InGroup(TimeOf, c, g, later, days) {
      assert !InGroup(TimeOf, c, g, now, days);
    }
  }

  /** Once the deciding group has emptied, the flow is another. */
  lemma FlowLeft(cs: seq<Cycle>, g: Group, now: int, later: int, days: int)
    requires now <= later && Deciding(cs, g, now, days) && NoneIn(TimeOf, cs, g, later, days)
    ensures Decide(TimeOf, cs, later, days).flow != Decide(TimeOf, cs, now, days).flow
  {
    DecidedBy(cs, g, now, days);
    NoneReturns(cs, now, later, days);
    forall h: Group { LatestInSome(TimeOf, cs, h, later, days); }
  }

  /**
   As time passes over fixed cycles the flow moves only from an active cycle to a terminated one to
   none; and, if the first decision was right, the selected cycle stays while the flow does.
   */
  lemma FlowOnlyAdvances(cs: seq<Cycle>, now: int, later: int, days: int)
    requires AllValid(cs) && MIN_WINDOW_DAYS <= days <= MAX_WINDOW_DAYS && now <= later
    ensures var before, after := DecideInboundFlow(true, cs, now, days), DecideInboundFlow(true, cs, later, days);
      && before.Ok? && after.Ok? && Rank(before.value.flow) <= Rank(after.value.flow)
      && (!Misled(cs, now, days) && before.value.flow == after.value.flow ==> before.value.cycleId == after.value.cycleId)
  {
    AcceptedIff(cs, now, days);
    AcceptedIff(cs, later, days);
    RankAdvances(TimeOf, cs, now, later, days);
    if !Misled(cs, now, days) { CycleStays(cs, now, later, days); }
  }

  // --- Cycles that do not overlap -------------------------------------------------------------

  /** One cycle has ended before the other began; a running one never has. */
  predicate EndsBefore(time: string -> int, c: Cycle, d: Cycle) {
    Ended(c) && time(c.completedAt.value) < time(d.startedAt)
  }

  ghost predicate NoOverlap(time: string -> int, cs: seq<Cycle>) {
    && (forall c | c in cs && Ended(c) :: time(c.startedAt) <= time(c.completedAt.value))
    && (forall c, d | c in cs && d in cs && c != d :: EndsBefore(time, c, d) || EndsBefore(time, d, c))
  }

  lemma NoOverlapDistinct(time: string -> int, cs: seq<Cycle>)
    requires NoOverlap(time, cs)
    ensures DistinctTimes(time, cs)
  {
    forall c, d | c in cs && d in cs && c != d
      ensures time(c.startedAt) != time(d.startedAt)
      ensures Ended(c) && Ended(d) ==> time(c.completedAt.value) != time(d.completedAt.value)
    {
      assert EndsBefore(time, c, d) || EndsBefore(time, d, c);
    }
  }

  /** A cycle started by string order no earlier than `c`, and yet no later in time, starts on a whole second. */
  lemma NotLaterStart(cs: seq<Cycle>, g: Group, now: int, days: int, c: Cycle, q: Cycle)
    requires AllValid(cs) && NoOverlap(TimeOf, cs) && Latest(TimeOf, cs, g, now, days, c)
    requires q in cs && q != c && q.status == c.status && Leq(c.startedAt, q.startedAt)
    ensures Whole(q.startedAt) && SecondOf(q.startedAt) == SecondOf(c.startedAt)
  {
    assert ValidRecord(c) && ValidRecord(q);
    if TimeOf(q.startedAt) > TimeOf(c.startedAt) {
      LaterStartIsLater(TimeOf, cs, g, now, days, c, q);
    } else {
      NoOverlapDistinct(TimeOf, cs);
      BelowMaximum(q.startedAt, c.startedAt);
    }
  }

  lemma LaterStartIsLater(time: string -> int, cs: seq<Cycle>, g: Group, now: int, days: int, c: Cycle, q: Cycle)
    requires NoOverlap(time, cs) && Latest(time, cs, g, now, days, c)
    requires q in cs && q != c && q.status == c.status && (!q.status.RUNNING? ==> q.completedAt.Some?)
    ensures time(q.startedAt) <= time(c.startedAt)
  {
    if time(q.startedAt) > time(c.startedAt) {
      assert EndsBefore(time, c, q) || EndsBefore(time, q, c);
      assert !EndsBefore(time, q, c);
      assert time(q.startedAt) <= time(q.completedAt.value);
      assert Key(time, c, g) < Key(time, q, g) && InGroup(time, q, g, now, days);
    }
  }

  lemma WholeSecond(a: string, b: string)
    requires Whole(a) && Whole(b) && SecondOf(a) == SecondOf(b)
    ensures a == b
  {
    SecondOrder(a, b);
    SecondOrder(b, a);
    LessTotal(a, b);
  }

  /** The read leaves out no latest cycle. */
  lemma LatestIsRead(read: seq<Cycle>, cs: seq<Cycle>, limit: nat, g: Group, now: int, days: int, c: Cycle)
    requires AllValid(cs) && NoOverlap(TimeOf, cs) && Distinct(cs) && Covers(read, cs, limit) && limit >= 2
    requires Latest(TimeOf, cs, g, now, days, c)
    ensures c in read
  {
    if c !in read {
      assert ValidRecord(c);
      var page :| FullPage(page, read, limit, c) && Distinct(page);
      var p, q := page[0], page[1];
      TwoOf(page);
      assert p in page && q in page && p in cs && q in cs;
      NotLaterStart(cs, g, now, days, c, p);
      NotLaterStart(cs, g, now, days, c, q);
      WholeSecond(p.startedAt, q.startedAt);
      NoOverlapDistinct(TimeOf, cs);
      assert false;
    }
  }

  lemma TwoOf(page: seq<Cycle>)
    requires |page| >= 2 && Distinct(page)
    ensures page[0] != page[1]
  {
    assert page == [page[0]] + ([page[1]] + page[2..]);
    assert page[0] in page;
  }

  /** With a string maximum that was read, the same is the string maximum of what was read. */
  lemma SameChoice(read: seq<Cycle>, cs: seq<Cycle>, g: Group, now: int, days: int)
    requires (forall c | c in read :: c in cs) && NoOverlap(TimeOf, cs) && AllValid(cs)
    requires LatestIn(TimeOf, cs, g, now, days).Some? && LatestIn(TimeOf, cs, g, now, days).value in read
    ensures LatestIn(TimeOf, read, g, now, days) == LatestIn(TimeOf, cs, g, now, days)
  {
    GreatestOf(cs, g, now, days);
    var c := LatestIn(TimeOf, cs, g, now, days).value;
    assert InGroup(TimeOf, c, g, now, days);
    LatestInSome(TimeOf, read, g, now, days);
    GreatestOf(read, g, now, days);
    var d := LatestIn(TimeOf, read, g, now, days).value;
    assert Member(cs, g, now, days, d) && Member(read, g, now, days, c);
    LessTotal(KeyText(c, g), KeyText(d, g));
    NoOverlapDistinct(TimeOf, cs);
  }

  lemma SameDecider(read: seq<Cycle>, cs: seq<Cycle>, g: Group, now: int, days: int, c: Cycle)
    requires (forall d | d in read :: d in cs) && Deciding(cs, g, now, days)
    requires c in read && InGroup(TimeOf, c, g, now, days)
    ensures Deciding(read, g, now, days)
  {
  }

  lemma ReadFewer(read: seq<Cycle>, cs: seq<Cycle>, now: int, days: int)
    requires (forall d | d in read :: d in cs) && forall g: Group :: !Deciding(cs, g, now, days)
    ensures Decide(TimeOf, read, now, days) == Decide(TimeOf, cs, now, days)
  {
    NobodyDecides(cs, now, days);
    forall g: Group ensures NoneIn(TimeOf, read, g, now, days) { assert NoneIn(TimeOf, cs, g, now, days); }
    NobodyDecides(read, now, days);
  }

  lemma ReadDecides(read: seq<Cycle>, cs: seq<Cycle>, limit: nat, now: int, days: int, g: Group)
    requires AllValid(cs) && NoOverlap(TimeOf, cs) && Distinct(cs) && Covers(read, cs, limit) && limit >= 2
    requires Deciding(cs, g, now, days) && !MixedLast(cs, g, now, days)
    ensures Decide(TimeOf, read, now, days) == Decide(TimeOf, cs, now, days)
  {
    LatestInIff(cs, g, now, days);
    DecidedBy(cs, g, now, days);
    var c := LatestIn(TimeOf, cs, g, now, days).value;
    LatestIsRead(read, cs, limit, g, now, days, c);
    SameChoice(read, cs, g, now, days);
    SameDecider(read, cs, g, now, days, c);
    DecidedBy(read, g, now, days);
  }

  /** When cycles do not overlap and the decision is right, the bounded read decides as reading every cycle would. */
  lemma BoundedReadRefines(read: seq<Cycle>, cs: seq<Cycle>, limit: nat, now: int, days: int)
    requires AllValid(cs) && NoOverlap(TimeOf, cs) && Distinct(cs) && Covers(read, cs, limit) && limit >= 2
    requires MIN_WINDOW_DAYS <= days <= MAX_WINDOW_DAYS && !Misled(cs, now, days)
    ensures DecideInboundFlow(true, read, now, days) == DecideInboundFlow(true, cs, now, days)
  {
    AcceptedIff(cs, now, days);
    AcceptedIff(read, now, days);
    if g: Group :| Deciding(cs, g, now, days) { ReadDecides(read, cs, limit, now, days, g); } else { ReadFewer(read, cs, now, days); }
  }
}
