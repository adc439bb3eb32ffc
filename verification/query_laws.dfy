/** What a query returns, event by event and field by field. */
module QueryLaws {
  import opened Text
  import opened Calendar
  import opened Events
  import opened Ordering
  import opened Reference

  // ----- which events --------------------------------------------------------------

  /** The event's class is one of those asked for. */
  predicate ClassAmong(d: Detail, types: seq<EventType>) {
    || (d.Holiday? && HolidayType in types)
    || (d.DstChange? && DstChangeType in types)
    || (d.Expiry? && ExpiryType in types)
    || (d.Release? && ReleaseType in types)
  }

  /** Every filter that is given admits the event. */
  predicate Admitted(e: Event, q: EventQuery) {
    && (match q.eventTypes case None => true case Some(types) => ClassAmong(e.detail, types))
    && (match q.exchanges case None => true case Some(xs) => exists x :: x in xs && e.exchange == Some(x))
    && (match q.dateFrom case None => true case Some(day) => e.date >= day)
    && (match q.dateTo case None => true case Some(day) => e.date <= day)
    && (match q.releaseCodes case None => true case Some(codes) => e.detail.Release? && e.detail.code in codes)
  }

  lemma MatchesAdmitted(e: Event, q: EventQuery)
    ensures Matches(e, q) <==> Admitted(e, q)
  {
  }

  ghost predicate Returned(results: seq<Event>, id: string) {
    exists i :: 0 <= i < |results| && results[i].id == id
  }

  lemma PresentAt(xs: seq<Event>, keep: bool, i: nat)
    requires i < |xs|
    ensures |Present(xs, keep)| == |xs|
    ensures Present(xs, keep)[i] == if keep then xs[i] else xs[i].(metadata := map[])
  {
  }

  lemma SortedAt(s: Store, q: EventQuery, i: nat)
    requires WellKeyed(s) && i < |Sorted(s, q)|
    ensures var e := Sorted(s, q)[i]; e.id in s && s[e.id] == e && Matches(e, q)
  {
    hide EventBefore, Matches;
    MatchingOrdered(s, q);
    assert Sorted(s, q)[i] in Elements(Sorted(s, q));
  }

  lemma SortedHolds(s: Store, q: EventQuery, id: string)
    requires WellKeyed(s) && id in s && Matches(s[id], q)
    ensures Returned(Sorted(s, q), id)
  {
    hide EventBefore, Matches;
    MatchingOrdered(s, q);
    assert s[id] in Matching(s, q);
    assert s[id] in Elements(Sorted(s, q));
    var i :| 0 <= i < |Sorted(s, q)| && Sorted(s, q)[i] == s[id];
  }

  // ----- slices --------------------------------------------------------------------

  /** Where `xs[o:]` starts. */
  function Start(len: nat, o: int): nat {
    if o >= len then len else if o >= 0 then o else if -o >= len then 0 else len + o
  }

  /** How long `xs[:l]` is. */
  function Length(len: nat, l: Option<int>): nat {
    match l
    case None => len
    case Some(l) => if l >= len then len else if l >= 0 then l else if -l >= len then 0 else len + l
  }

  /** A page is a run of the list: the offset skips from the front, or counts from the end when it
      is negative; the limit keeps so many, or drops so many from the end when it is negative. */
  lemma PageExactly<T>(xs: seq<T>, limit: Option<int>, offset: int)
    ensures var start := Start(|xs|, offset);
            var page := Page(xs, limit, offset);
            && |page| == Length(|xs| - start, limit) <= |xs| - start
            && forall i :: 0 <= i < |page| ==> page[i] == xs[start + i]
  {
    var start := Start(|xs|, offset);
    var rest := if offset != 0 then SliceFrom(xs, offset) else xs;
    assert rest == xs[start..];
  }

  // ----- the three laws ------------------------------------------------------------

  /** Every result is a stored event: as it stands when metadata is asked for, and otherwise with
      empty metadata and nothing else changed. */
  lemma ResultIsStored(s: Store, q: EventQuery, i: nat)
    requires WellKeyed(s) && i < |Query(s, q)|
    ensures var e := Query(s, q)[i];
            && e.id in s && Admitted(s[e.id], q)
            && (q.includeMetadata ==> e == s[e.id])
            && (!q.includeMetadata ==> e.metadata == map[])
            && e.source == s[e.id].source && e.exchange == s[e.id].exchange && e.date == s[e.id].date
            && e.timestampUtc == s[e.id].timestampUtc && e.rawId == s[e.id].rawId
            && e.ingestedAt == s[e.id].ingestedAt && e.updatedAt == s[e.id].updatedAt
            && e.detail == s[e.id].detail
  {
    hide Sorted, Page, Present, Matches, Admitted, WellKeyed;
    var all := Sorted(s, q);
    var page := Page(all, q.limit, q.offset);
    PageExactly(all, q.limit, q.offset);
    PresentLength(page, q.includeMetadata);
    PresentAt(page, q.includeMetadata, i);
    SortedAt(s, q, Start(|all|, q.offset) + i);
    MatchesAdmitted(page[i], q);
  }

  /** Without paging, the ids returned are exactly those of the stored events that every filter
      admits, each once, by date and then by id. */
  lemma ResultsExactly(s: Store, q: EventQuery)
    requires WellKeyed(s) && q.limit == None && q.offset == 0
    ensures forall id :: Returned(Query(s, q), id) <==> id in s && Admitted(s[id], q)
    ensures var r := Query(s, q);
            forall i, j :: 0 <= i < j < |r| ==>
              r[i].date < r[j].date || (r[i].date == r[j].date && Less(r[i].id, r[j].id))
  {
    hide Present, Matches, Admitted, Less;
    var all, r := Sorted(s, q), Query(s, q);
    PresentLength(all, q.includeMetadata);
    forall i | 0 <= i < |all| ensures r[i].id == all[i].id && r[i].date == all[i].date {
      PresentAt(all, q.includeMetadata, i);
    }
    forall id ensures Returned(r, id) <==> id in s && Admitted(s[id], q) {
      if Returned(r, id) {
        var i :| 0 <= i < |r| && r[i].id == id;
        SortedAt(s, q, i);
        MatchesAdmitted(all[i], q);
      }
      if id in s && Admitted(s[id], q) {
        MatchesAdmitted(s[id], q);
        SortedHolds(s, q, id);
        var i :| 0 <= i < |all| && all[i].id == id;
        assert r[i].id == id;
      }
    }
    forall i, j | 0 <= i < j < |r|
      ensures r[i].date < r[j].date || (r[i].date == r[j].date && Less(r[i].id, r[j].id))
    {
      assert EventBefore(all[i], all[j]);
    }
  }

  lemma SortedUnpaged(s: Store, q: EventQuery)
    requires WellKeyed(s)
    ensures Sorted(s, q.(limit := None, offset := 0)) == Sorted(s, q)
  {
    hide EventBefore;
    var p := q.(limit := None, offset := 0);
    assert forall e :: Matches(e, p) == Matches(e, q);
    assert Matching(s, p) == Matching(s, q);
    MatchingOrdered(s, q);
  }

  /** Any page, forward or backward, is the run of the full result that offset and limit mark. */
  lemma QueryPageExactly(s: Store, q: EventQuery)
    requires WellKeyed(s)
    ensures var all, page := Query(s, q.(limit := None, offset := 0)), Query(s, q);
            var start := Start(|all|, q.offset);
            && |page| == Length(|all| - start, q.limit) <= |all| - start
            && forall i :: 0 <= i < |page| ==> page[i] == all[start + i]
  {
    hide Sorted, Present, WellKeyed;
    var keep := q.includeMetadata;
    var p := q.(limit := None, offset := 0);
    SortedUnpaged(s, q);
    var xs := Sorted(s, q);
    assert Page(xs, None, 0) == xs;
    hide Page;
    var page := Page(xs, q.limit, q.offset);
    PageExactly(xs, q.limit, q.offset);
    PresentLength(xs, keep);
    PresentLength(page, keep);
    var start := Start(|xs|, q.offset);
    forall i | 0 <= i < |page| ensures Present(page, keep)[i] == Present(xs, keep)[start + i] {
      PresentAt(page, keep, i);
      PresentAt(xs, keep, start + i);
    }
  }
}
