/** Empty list filters: for which queries the SQL repository and the reference agree on every
    table, and tables on which they differ for all the others. */
module EmptyFilters {
  import opened Text
  import opened Calendar
  import opened Events
  import opened Ordering
  import opened Reference
  import opened SqlTable
  import opened SqlRepository

  /** No event satisfies the filters that SQL applies: the dates are the wrong way round, or a
      release code is asked of events that are not releases. */
  predicate Contradictory(q: EventQuery) {
    || (q.dateFrom.Some? && q.dateTo.Some? && q.dateTo.value < q.dateFrom.value)
    || (NonEmpty(q.releaseCodes) && NonEmpty(q.eventTypes) && ReleaseType !in q.eventTypes.value)
  }

  lemma ContradictoryMatchesNothing(s: Store, q: EventQuery)
    requires Contradictory(q)
    ensures Matching(s, Normalized(q)) == {}
  {
    forall id | id in s ensures !Matches(s[id], Normalized(q)) {
    }
  }

  // ----- a table for every other query ---------------------------------------------

  function SampleDetail(t: EventType, code: string): Detail {
    match t
    case HolidayType => Holiday("", FullClose, [])
    case DstChangeType => DstChange("", "", "", "")
    case ExpiryType => Expiry("", "", "", 1, None, false)
    case ReleaseType => Release("", code, "", "", None, None, None, None, "", None)
  }

  /** An event that satisfies the filters that SQL applies, if any event does. */
  function Sample(q: EventQuery, id: string): Event {
    var t := if NonEmpty(q.releaseCodes) then ReleaseType
             else if NonEmpty(q.eventTypes) then q.eventTypes.value[0]
             else HolidayType;
    var code := if NonEmpty(q.releaseCodes) then q.releaseCodes.value[0] else "";
    var exchange := if NonEmpty(q.exchanges) then Some(q.exchanges.value[0]) else None;
    var date := if q.dateFrom.Some? then q.dateFrom.value else q.dateTo.GetOr(1);
    Event(id, "", exchange, date, None, None, Some(MIN_INSTANT), Some(MIN_INSTANT), map[], SampleDetail(t, code))
  }

  lemma SampleMatches(q: EventQuery, id: string)
    requires !Contradictory(q)
    ensures Matches(Sample(q, id), Normalized(q))
  {
    var e := Sample(q, id);
    assert NonEmpty(q.eventTypes) ==> q.eventTypes.value[0] in q.eventTypes.value;
    assert NonEmpty(q.exchanges) ==> q.exchanges.value[0] in q.exchanges.value;
    assert NonEmpty(q.releaseCodes) ==> q.releaseCodes.value[0] in q.releaseCodes.value;
  }

  /** `n` rows of the sample under different ids. */
  function Copies(q: EventQuery, n: nat): Table {
    if n == 0 then map[]
    else
      var e := Sample(q, NatText(n));
      Copies(q, n - 1)[e.id := Project(e)]
  }

  lemma NatTextsDiffer(n: nat, k: nat)
    requires n != k
    ensures NatText(n) != NatText(k) && NatText(n) != ""
  {
    NatTextRoundTrip(n);
    NatTextRoundTrip(k);
    NatTextNotEmpty(n);
  }

  lemma OneMoreMatch(s: Store, e: Event, q: EventQuery)
    requires WellKeyed(s) && e.id !in s && Matches(e, q)
    ensures |Matching(s[e.id := e], q)| == |Matching(s, q)| + 1
  {
    hide Matches;
    var t := s[e.id := e];
    forall x ensures x in Matching(t, q) <==> x in Matching(s, q) || x == e {
      if x in Matching(s, q) {
        var id :| id in s && Matches(s[id], q) && x == s[id];
        assert id in t && t[id] == x;
      }
      assert t[e.id] == e;
    }
    assert Matching(t, q) == Matching(s, q) + {e};
    assert forall id :: id in s ==> s[id] != e;
    assert e !in Matching(s, q);
  }

  lemma NothingMatches(s: Store, q: EventQuery)
    requires s == map[]
    ensures Matching(s, q) == {}
  {
  }

  lemma {:induction false} CopiesMatch(q: EventQuery, n: nat)
    requires !Contradictory(q)
    ensures ValidTable(Copies(q, n))
    ensures forall k: nat :: k > n ==> NatText(k) !in Copies(q, n)
    ensures |Matching(Decoded(Copies(q, n)), Normalized(q))| == n
  {
    hide Project, Matching, Matches, Consistent, Contradictory, NatText;
    if n == 0 {
      NothingMatches(Decoded(Copies(q, 0)), Normalized(q));
    } else {
      CopiesMatch(q, n - 1);
      var t := Copies(q, n - 1);
      var e := Sample(q, NatText(n));
      NatTextNotEmpty(n);
      SampleMatches(q, e.id);
      ReplaceRow(t, e);
      assert e.id !in t;
      OneMoreMatch(Decoded(t), e, Normalized(q));
      forall k: nat | k > n ensures NatText(k) !in Copies(q, n) {
        NatTextsDiffer(k, n);
      }
    }
  }

  // ----- agreement -----------------------------------------------------------------

  ghost predicate AgreesOnEveryTable(d: Dialect, q: EventQuery) {
    forall t :: ValidTable(t) ==> SqlQuery(d, t, q) == Some(Query(Decoded(t), q))
  }

  /** The two repositories answer a query alike on every table exactly when it has no empty list
      filter, or takes nothing, or asks for what no event can be. */
  lemma FiltersAgreeExactly(d: Dialect, q: EventQuery)
    requires ForwardPage(q.limit, q.offset)
    ensures AgreesOnEveryTable(d, q) <==> !HasEmptyList(q) || q.limit == Some(0) || Contradictory(q)
  {
    hide SqlQuery, Query, Matching, Contradictory, HasEmptyList, ValidTable, Decoded, Copies;
    if !HasEmptyList(q) || q.limit == Some(0) || Contradictory(q) {
      forall t | ValidTable(t) ensures SqlQuery(d, t, q) == Some(Query(Decoded(t), q)) {
        if Contradictory(q) {
          ContradictoryMatchesNothing(Decoded(t), q);
        }
        QueryAgreesExactly(d, t, q);
      }
    } else {
      var t := Copies(q, q.offset + 1);
      CopiesMatch(q, q.offset + 1);
      QueryAgreesExactly(d, t, q);
    }
  }

  lemma OneRow(e: Event)
    requires Stamped(e)
    ensures ValidTable(map[e.id := Project(e)]) && Decoded(map[e.id := Project(e)]) == map[e.id := e]
  {
    hide Project;
    var none: Table := map[];
    ReplaceRow(none, e);
    assert Decoded(none) == map[];
    assert none[e.id := Project(e)] == map[e.id := Project(e)];
  }

  const UNFILTERED := EventQuery(None, None, None, None, None, true, None, 0)

  lemma UnfilteredFindsAll(e: Event)
    requires Stamped(e)
    ensures Query(map[e.id := e], UNFILTERED) == [e]
  {
    hide EventBefore;
    var s: Store := map[e.id := e];
    assert s[e.id] == e;
    assert Matching(s, UNFILTERED) == {e};
    MatchingOrdered(s, UNFILTERED);
    assert IsLeast(EventBefore, e, {e});
    InOrderStep(EventBefore, {e}, e);
    assert {e} - {e} == {};
    InOrderEmpty(EventBefore);
  }

  /** One row, and a query whose only filter is an empty list of types: SQL finds the row, the
      reference nothing. */
  lemma EmptyTypesDiffer(d: Dialect, e: Event)
    requires Stamped(e)
    ensures var t, q := map[e.id := Project(e)], UNFILTERED.(eventTypes := Some([]));
            && ValidTable(t)
            && SqlQuery(d, t, q) == Some([e])
            && Query(Decoded(t), q) == []
  {
    hide Project, SqlQuery, Query, ValidTable, Decoded;
    var q := UNFILTERED.(eventTypes := Some([]));
    OneRow(e);
    QueryRefines(d, map[e.id := Project(e)], q);
    assert Normalized(q) == UNFILTERED;
    UnfilteredFindsAll(e);
    EmptyListSelectsNothing(map[e.id := e], q);
  }
}
