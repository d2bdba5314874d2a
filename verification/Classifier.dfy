/** From the history rows of a dictionary version to the classification of a transcript. */
module Classifier {
  import opened Sorting
  import opened Strings

  datatype Category = SAFE | INJURED | UNAVAILABLE

  datatype HistoryRow = HistoryRow(category: Category, keyword: string)

  datatype Snapshot = Snapshot(safe: seq<string>, injured: seq<string>, unavailable: seq<string>)

  function Keywords(s: Snapshot, c: Category): seq<string> {
    match c
    case SAFE => s.safe
    case INJURED => s.injured
    case UNAVAILABLE => s.unavailable
  }

  // --- The snapshot -----------------------------------------------------------------

  /** The keywords of one category, in row order; rows with an empty keyword are ignored. */
  function Grouped(rows: seq<HistoryRow>, c: Category): seq<string> {
    if rows == [] then []
    else
      var last := rows[|rows| - 1];
      Grouped(rows[..|rows| - 1], c) + if last.category == c && last.keyword != "" then [last.keyword] else []
  }

  function SnapshotOf(rows: seq<HistoryRow>): Snapshot {
    Snapshot(Sort(Leq, Grouped(rows, SAFE)), Sort(Leq, Grouped(rows, INJURED)), Sort(Leq, Grouped(rows, UNAVAILABLE)))
  }

  lemma GroupedStep(rows: seq<HistoryRow>, i: nat, c: Category)
    requires i < |rows|
    ensures Grouped(rows[..i + 1], c)
         == Grouped(rows[..i], c) + if rows[i].category == c && rows[i].keyword != "" then [rows[i].keyword] else []
  {
    assert rows[..i + 1][..i] == rows[..i];
  }

  method ToSnapshot(rows: seq<HistoryRow>) returns (s: Snapshot)
    ensures s == SnapshotOf(rows)
  {
    var safe, injured, unavailable := [], [], [];
    for i := 0 to |rows|
      invariant safe == Grouped(rows[..i], SAFE)
      invariant injured == Grouped(rows[..i], INJURED)
      invariant unavailable == Grouped(rows[..i], UNAVAILABLE)
    {
      GroupedStep(rows, i, SAFE);
      GroupedStep(rows, i, INJURED);
      GroupedStep(rows, i, UNAVAILABLE);
      if rows[i].keyword != "" {
        match rows[i].category {
          case SAFE => safe := safe + [rows[i].keyword];
          case INJURED => injured := injured + [rows[i].keyword];
          case UNAVAILABLE => unavailable := unavailable + [rows[i].keyword];
        }
      }
    }
    assert rows[..|rows|] == rows;
    s := Snapshot(Sort(Leq, safe), Sort(Leq, injured), Sort(Leq, unavailable));
  }

  lemma {:induction false} GroupedCount(rows: seq<HistoryRow>, c: Category, k: string)
    ensures multiset(Grouped(rows, c))[k] == if k == "" then 0 else multiset(rows)[HistoryRow(c, k)]
  {
    if rows != [] {
      var rest, last := rows[..|rows| - 1], rows[|rows| - 1];
      assert rows == rest + [last];
      GroupedCount(rest, c, k);
    }
  }

  /** Each category of the snapshot is sorted and holds every keyword as often as a row names it. */
  lemma SnapshotExact(rows: seq<HistoryRow>, c: Category, k: string)
    ensures var ks := Keywords(SnapshotOf(rows), c);
            IsSorted(Leq, ks) && multiset(ks)[k] == if k == "" then 0 else multiset(rows)[HistoryRow(c, k)]
  {
    LeqOrders();
    SortSorts(Leq, Grouped(rows, c));
    GroupedCount(rows, c, k);
  }

  /** The snapshot does not depend on the order in which the rows arrive. */
  lemma SnapshotCanonical(a: seq<HistoryRow>, b: seq<HistoryRow>)
    requires multiset(a) == multiset(b)
    ensures SnapshotOf(a) == SnapshotOf(b)
  {
    forall c ensures Sort(Leq, Grouped(a, c)) == Sort(Leq, Grouped(b, c)) {
      forall k ensures multiset(Grouped(a, c))[k] == multiset(Grouped(b, c))[k] {
        GroupedCount(a, c, k);
        GroupedCount(b, c, k);
      }
      LeqOrders();
      SortCanonical(Leq, Grouped(a, c), Grouped(b, c));
    }
  }

  // --- The matcher --------------------------------------------------------------------

  /** The keyword occurs in the text; both are lower-cased first. */
  predicate Occurs(lower: string -> string, text: string, kw: string) {
    kw != "" && Contains(lower(text), lower(kw))
  }

  /** `m` holds exactly the keywords of the list that occur, each once, in list order. */
  ghost predicate IsMatch(lower: string -> string, text: string, ks: seq<string>, m: seq<string>) {
    && (forall k :: k in m <==> k in ks && Occurs(lower, text, k))
    && (forall a, b | 0 <= a < b < |m| :: m[a] != m[b] && Precedes(ks, m[a], m[b]))
  }

  /** The first occurrence of `x` comes before every occurrence of `y`. */
  ghost predicate Precedes(ks: seq<string>, x: string, y: string) {
    exists i :: 0 <= i < |ks| && ks[i] == x && forall j | 0 <= j <= i :: ks[j] != y
  }

  lemma PrecedesExtends(ks: seq<string>, x: string, y: string, k: string)
    requires Precedes(ks, x, y)
    ensures Precedes(ks + [k], x, y)
  {
    var i :| 0 <= i < |ks| && ks[i] == x && forall j | 0 <= j <= i :: ks[j] != y;
    assert (ks + [k])[i] == x;
  }

  function Matched(lower: string -> string, text: string, ks: seq<string>): seq<string> {
    if ks == [] then []
    else
      var k, m := ks[|ks| - 1], Matched(lower, text, ks[..|ks| - 1]);
      m + if Occurs(lower, text, k) && k !in m then [k] else []
  }

  lemma {:induction false} MatchedIsMatch(lower: string -> string, text: string, ks: seq<string>)
    ensures IsMatch(lower, text, ks, Matched(lower, text, ks))
  {
    if ks != [] {
      var ks0, k := ks[..|ks| - 1], ks[|ks| - 1];
      assert ks == ks0 + [k];
      var m0, m := Matched(lower, text, ks0), Matched(lower, text, ks);
      MatchedIsMatch(lower, text, ks0);
      forall a, b | 0 <= a < b < |m| ensures m[a] != m[b] && Precedes(ks, m[a], m[b]) {
        if b < |m0| {
          PrecedesExtends(ks0, m0[a], m0[b], k);
        } else {
          NewestLast(ks0, m0[a], k);
        }
      }
    }
  }

  lemma NewestLast(ks: seq<string>, x: string, k: string)
    requires x in ks && k !in ks
    ensures Precedes(ks + [k], x, k)
  {
    var i :| 0 <= i < |ks| && ks[i] == x;
    assert (ks + [k])[i] == x;
  }

  method MatchCategory(lower: string -> string, text: string, ks: seq<string>) returns (matched: seq<string>)
    ensures matched == Matched(lower, text, ks) && IsMatch(lower, text, ks, matched)
  {
    matched := [];
    var seen: set<string> := {};
    for i := 0 to |ks|
      invariant forall k :: k in seen <==> k in matched
      invariant matched == Matched(lower, text, ks[..i])
    {
      assert ks[..i + 1][..i] == ks[..i];
      if ks[i] == "" { continue; }
      if ks[i] in seen { continue; }
      if Contains(lower(text), lower(ks[i])) {
        matched, seen := matched + [ks[i]], seen + {ks[i]};
      }
    }
    assert ks[..|ks|] == ks;
    MatchedIsMatch(lower, text, ks);
  }

  predicate Hits(lower: string -> string, text: string, s: Snapshot, c: Category) {
    exists k | k in Keywords(s, c) :: Occurs(lower, text, k)
  }

  datatype VoiceStatus = Category(c: Category) | OTHER

  const PRIORITY_ORDER := [INJURED, UNAVAILABLE, SAFE]

  /** The status is the first category, in priority order, with a keyword in the text. */
  ghost predicate Wins(lower: string -> string, text: string, s: Snapshot, status: VoiceStatus) {
    match status
    case OTHER => forall c :: !Hits(lower, text, s, c)
    case Category(c) =>
      && Hits(lower, text, s, c)
      && (c != INJURED ==> !Hits(lower, text, s, INJURED))
      && (c == SAFE ==> !Hits(lower, text, s, UNAVAILABLE))
  }

  /** The result of a classification: the winning status and its matched keywords, none for OTHER. */
  ghost predicate Classifies(lower: string -> string, text: string, s: Snapshot, status: VoiceStatus, matched: seq<string>) {
    && Wins(lower, text, s, status)
    && (if status.OTHER? then matched == [] else IsMatch(lower, text, Keywords(s, status.c), matched))
  }

  method ClassifyVoiceStatus(lower: string -> string, text: string, s: Snapshot)
    returns (status: VoiceStatus, matched: seq<string>)
    ensures Classifies(lower, text, s, status, matched)
  {
    for i := 0 to 3
      invariant forall j | 0 <= j < i :: !Hits(lower, text, s, PRIORITY_ORDER[j])
    {
      var c := PRIORITY_ORDER[i];
      matched := MatchCategory(lower, text, Keywords(s, c));
      if matched != [] {
        assert matched[0] in Keywords(s, c) && Occurs(lower, text, matched[0]);
        assert i > 0 ==> !Hits(lower, text, s, PRIORITY_ORDER[0]);
        assert i > 1 ==> !Hits(lower, text, s, PRIORITY_ORDER[1]);
        return Category(c), matched;
      }
      forall k | k in Keywords(s, c) ensures !Occurs(lower, text, k) { assert k !in matched; }
    }
    forall c ensures !Hits(lower, text, s, c) {
      var j := if c == INJURED then 0 else if c == UNAVAILABLE then 1 else 2;
      assert !Hits(lower, text, s, PRIORITY_ORDER[j]);
    }
    return OTHER, [];
  }

  /** The status is unique, and so is the list of matched keywords. */
  lemma {:induction false} MatchUnique(lower: string -> string, text: string, ks: seq<string>, m: seq<string>, m': seq<string>)
    requires IsMatch(lower, text, ks, m) && IsMatch(lower, text, ks, m')
    ensures m == m'
  {
    SameLength(m, m');
    forall i | 0 <= i < |m| ensures m[i] == m'[i] { SameAt(lower, text, ks, m, m', i); }
  }

  lemma {:induction false} SameAt(lower: string -> string, text: string, ks: seq<string>, m: seq<string>, m': seq<string>, i: nat)
    requires IsMatch(lower, text, ks, m) && IsMatch(lower, text, ks, m') && |m| == |m'| && i < |m|
    ensures m[i] == m'[i]
    decreases i
  {
    forall j | 0 <= j < i ensures m[j] == m'[j] { SameAt(lower, text, ks, m, m', j); }
    assert m[i] in m && m'[i] in m';
    var a :| 0 <= a < |m'| && m'[a] == m[i];
    var b :| 0 <= b < |m| && m[b] == m'[i];
    assert a >= i && b >= i;
  }

  lemma SameLength(m: seq<string>, m': seq<string>)
    requires forall k :: k in m <==> k in m'
    requires forall a, b | 0 <= a < b < |m| :: m[a] != m[b]
    requires forall a, b | 0 <= a < b < |m'| :: m'[a] != m'[b]
    ensures |m| == |m'|
  {
    var s, s' := set k | k in m, set k | k in m';
    assert s == s';
    DistinctCount(m);
    DistinctCount(m');
  }

  lemma {:induction false} DistinctCount(m: seq<string>)
    requires forall a, b | 0 <= a < b < |m| :: m[a] != m[b]
    ensures |set k | k in m| == |m|
  {
    if m != [] {
      var n := |m| - 1;
      DistinctCount(m[..n]);
      assert (set k | k in m) == (set k | k in m[..n]) + {m[n]};
    }
  }

  /** Classification through the snapshot is independent of the order of the history rows. */
  lemma ClassificationCanonical(lower: string -> string, text: string, a: seq<HistoryRow>, b: seq<HistoryRow>,
                                status: VoiceStatus, status': VoiceStatus, m: seq<string>, m': seq<string>)
    requires multiset(a) == multiset(b)
    requires Classifies(lower, text, SnapshotOf(a), status, m) && Classifies(lower, text, SnapshotOf(b), status', m')
    ensures status == status' && m == m'
  {
    SnapshotCanonical(a, b);
    if status.Category? && status'.Category? && status.c == status'.c {
      MatchUnique(lower, text, Keywords(SnapshotOf(a), status.c), m, m');
    }
  }
}
