/** The bounded read of the stored cycles: of each status the ten latest started. */
module InboundRead {
  import opened Sorting
  import opened Strings
  import opened InboundSelection

  const QUERY_LIMIT := 10

  /** The order of the index: latest start first. */
  predicate StartsLater(c: Cycle, d: Cycle) { Leq(d.startedAt, c.startedAt) }

  /** The index partition of one status, in table order. */
  function OfStatus(cs: seq<Cycle>, status: Status): seq<Cycle> {
    if cs == [] then [] else (if cs[0].status == status then [cs[0]] else []) + OfStatus(cs[1..], status)
  }

  function Partition(cs: seq<Cycle>, status: Status): seq<Cycle> { Sort(StartsLater, OfStatus(cs, status)) }

  function Query(cs: seq<Cycle>, status: Status, limit: nat): seq<Cycle> {
    var all := Partition(cs, status);
    if |all| <= limit then all else all[..limit]
  }

  const QUERY_STATUSES := [RUNNING, COMPLETED, TIMEOUT, START_FAILED]

  /** Whatever a bounded read leaves out, it has a full page of cycles of that status, none started earlier. */
  ghost predicate Covers(read: seq<Cycle>, cs: seq<Cycle>, limit: nat) {
    && (forall c | c in read :: c in cs)
    && (forall c | c in cs && !c.status.Unknown? && c !in read ::
          exists page :: FullPage(page, read, limit, c) && (Distinct(cs) ==> Distinct(page)))
  }

  /** No cycle is listed twice. */
  ghost predicate Distinct(cs: seq<Cycle>) { forall c | c in cs :: multiset(cs)[c] == 1 }

  ghost predicate FullPage(page: seq<Cycle>, read: seq<Cycle>, limit: nat, c: Cycle) {
    |page| == limit && forall q | q in page :: q in read && q.status == c.status && Leq(c.startedAt, q.startedAt)
  }

  lemma {:induction false} OfStatusMembers(cs: seq<Cycle>, status: Status)
    ensures forall c :: c in OfStatus(cs, status) <==> c in cs && c.status == status
  {
    if cs != [] {
      assert cs == [cs[0]] + cs[1..];
      OfStatusMembers(cs[1..], status);
    }
  }

  lemma {:induction false} OfStatusListed(cs: seq<Cycle>, status: Status, c: Cycle)
    ensures multiset(OfStatus(cs, status))[c] <= multiset(cs)[c]
  {
    if cs != [] {
      assert cs == [cs[0]] + cs[1..];
      OfStatusListed(cs[1..], status, c);
    }
  }

  lemma QueryDistinct(cs: seq<Cycle>, status: Status, limit: nat)
    requires Distinct(cs)
    ensures Distinct(Query(cs, status, limit))
  {
    var all, page := Partition(cs, status), Query(cs, status, limit);
    StartsLaterOrders();
    SortSorts(StartsLater, OfStatus(cs, status));
    assert all == page + all[|page|..];
    forall c | c in page ensures multiset(page)[c] == 1 {
      OfStatusListed(cs, status, c);
      PartitionFacts(cs, status);
      assert multiset(all)[c] <= multiset(cs)[c] == 1;
    }
  }

  lemma StartsLaterOrders()
    ensures IsTotalPreorder(StartsLater)
  {
    LeqOrders();
  }

  lemma PartitionFacts(cs: seq<Cycle>, status: Status)
    ensures IsSorted(StartsLater, Partition(cs, status))
    ensures forall c :: c in Partition(cs, status) <==> c in cs && c.status == status
  {
    StartsLaterOrders();
    OfStatusMembers(cs, status);
    SortSorts(StartsLater, OfStatus(cs, status));
    SortMembers(StartsLater, OfStatus(cs, status));
  }

  lemma QueryFacts(cs: seq<Cycle>, status: Status, limit: nat, c: Cycle)
    ensures c in Query(cs, status, limit) ==> c in cs && c.status == status
    ensures c in cs && c.status == status && c !in Query(cs, status, limit) ==>
              |Query(cs, status, limit)| == limit && forall q | q in Query(cs, status, limit) :: Leq(c.startedAt, q.startedAt)
  {
    PartitionFacts(cs, status);
    var all, page := Partition(cs, status), Query(cs, status, limit);
    if c in cs && c.status == status && c !in page {
      var k :| 0 <= k < |all| && all[k] == c;
      assert k >= limit;
      forall q | q in page ensures Leq(c.startedAt, q.startedAt) {
        var n :| 0 <= n < |page| && page[n] == q;
        assert StartsLater(all[n], all[k]);
      }
    }
  }

  method QueryRecentCycles(table: seq<Cycle>) returns (read: seq<Cycle>)
    ensures Covers(read, table, QUERY_LIMIT)
    ensures |read| <= 4 * QUERY_LIMIT
  {
    read := [];
    for i := 0 to |QUERY_STATUSES|
      invariant |read| <= i * QUERY_LIMIT
      invariant forall c | c in read :: c in table
      invariant forall j, c | 0 <= j < i && c in Query(table, QUERY_STATUSES[j], QUERY_LIMIT) :: c in read
    {
      var items := Query(table, QUERY_STATUSES[i], QUERY_LIMIT);
      forall c | c in items ensures c in table { QueryFacts(table, QUERY_STATUSES[i], QUERY_LIMIT, c); }
      read := read + items;
    }
    forall c | c in table && !c.status.Unknown? && c !in read
      ensures exists page :: FullPage(page, read, QUERY_LIMIT, c) && (Distinct(table) ==> Distinct(page))
    {
      var j := match c.status case RUNNING => 0 case COMPLETED => 1 case TIMEOUT => 2 case _ => 3;
      assert QUERY_STATUSES[j] == c.status;
      var page := Query(table, QUERY_STATUSES[j], QUERY_LIMIT);
      forall q { QueryFacts(table, c.status, QUERY_LIMIT, q); }
      if Distinct(table) { QueryDistinct(table, QUERY_STATUSES[j], QUERY_LIMIT); }
      assert FullPage(page, read, QUERY_LIMIT, c);
    }
  }
}
