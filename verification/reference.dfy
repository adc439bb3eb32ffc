/** The reference semantics of the repository contract: events in a dictionary. */
module Reference {
  import opened Text
  import opened Calendar
  import opened Events
  import opened Serialization
  import opened Ordering

  /** Events by id. */
  type Store = map<string, Event>

  /** What every stored event satisfies. */
  predicate Stamped(e: Event) {
    e.id != "" && e.ingestedAt.Some? && e.updatedAt.Some?
  }

  ghost predicate WellKeyed(s: Store) {
    forall id :: id in s ==> s[id].id == id && Stamped(s[id])
  }

  ghost predicate Storable(events: seq<Event>) {
    forall i :: 0 <= i < |events| ==> events[i].id != ""
  }

  datatype Counts = Counts(inserted: nat, updated: nat, same: nat) {
    function Total(): nat { inserted + updated + same }
  }

  datatype Change = Inserted | Updated | Unchanged

  function Tally(c: Counts, ch: Change): Counts {
    match ch
    case Inserted => c.(inserted := c.inserted + 1)
    case Updated => c.(updated := c.updated + 1)
    case Unchanged => c.(same := c.same + 1)
  }

  // ----- upsert --------------------------------------------------------------------

  function UpsertOne(s: Store, e: Event, now: Instant): (Store, Change) {
    if e.id !in s then
      (s[e.id := e.(ingestedAt := Some(now), updatedAt := Some(now))], Inserted)
    else if Content(s[e.id]) == Content(e) then
      (s, Unchanged)
    else
      (s[e.id := e.(ingestedAt := s[e.id].ingestedAt, updatedAt := Some(now))], Updated)
  }

  function UpsertAll(s: Store, events: seq<Event>, now: Instant): (Store, Counts) {
    if events == [] then (s, Counts(0, 0, 0))
    else
      var (s1, c1) := UpsertAll(s, events[..|events| - 1], now);
      var (s2, ch) := UpsertOne(s1, events[|events| - 1], now);
      (s2, Tally(c1, ch))
  }

  lemma UpsertOneWellKeyed(s: Store, e: Event, now: Instant)
    requires WellKeyed(s) && e.id != ""
    ensures WellKeyed(UpsertOne(s, e, now).0)
  {
  }

  lemma {:induction false} UpsertAllWellKeyed(s: Store, events: seq<Event>, now: Instant)
    requires WellKeyed(s) && Storable(events)
    ensures WellKeyed(UpsertAll(s, events, now).0)
  {
    if events == [] {
    } else {
      UpsertAllWellKeyed(s, events[..|events| - 1], now);
      UpsertOneWellKeyed(UpsertAll(s, events[..|events| - 1], now).0, events[|events| - 1], now);
    }
  }

  // ----- query ---------------------------------------------------------------------

  datatype EventQuery = EventQuery(
    eventTypes: Option<seq<EventType>>, exchanges: Option<seq<string>>,
    dateFrom: Option<Date>, dateTo: Option<Date>, releaseCodes: Option<seq<string>>,
    includeMetadata: bool, limit: Option<int>, offset: int)

  /** `FakeEventRepository._matches` */
  predicate Matches(e: Event, q: EventQuery) {
    && (q.eventTypes.Some? ==> TypeOf(e) in q.eventTypes.value)
    && (q.exchanges.Some? ==> e.exchange.Some? && e.exchange.value in q.exchanges.value)
    && (q.dateFrom.Some? ==> q.dateFrom.value <= e.date)
    && (q.dateTo.Some? ==> e.date <= q.dateTo.value)
    && (q.releaseCodes.Some? ==> e.detail.Release? && e.detail.code in q.releaseCodes.value)
  }

  predicate EventBefore(a: Event, b: Event) {
    a.date < b.date || (a.date == b.date && Less(a.id, b.id))
  }

  lemma EventOrderTotal(s: set<Event>)
    requires forall a, b :: a in s && b in s && a.id == b.id ==> a == b
    ensures StrictTotalOn(EventBefore, s)
  {
    forall a | a in s ensures !EventBefore(a, a) {
      LessIrreflexive(a.id);
    }
    forall a, b, c | a in s && b in s && c in s && EventBefore(a, b) && EventBefore(b, c)
      ensures EventBefore(a, c)
    {
      if a.date == b.date == c.date {
        LessTransitive(a.id, b.id, c.id);
      }
    }
    forall a, b | a in s && b in s
      ensures a == b || EventBefore(a, b) || EventBefore(b, a)
    {
      LessTotal(a.id, b.id);
    }
  }

  ghost function Matching(s: Store, q: EventQuery): set<Event> {
    set id | id in s && Matches(s[id], q) :: s[id]
  }

  lemma MatchingOrdered(s: Store, q: EventQuery)
    requires WellKeyed(s)
    ensures StrictTotalOn(EventBefore, Matching(s, q))
  {
    EventOrderTotal(Matching(s, q));
  }

  /** The full result, before paging. */
  ghost function Sorted(s: Store, q: EventQuery): (r: seq<Event>)
    requires WellKeyed(s)
  {
    MatchingOrdered(s, q);
    InOrder(EventBefore, Matching(s, q))
  }

  /** `xs[o:]`, counting from the end when `o` is negative. */
  function SliceFrom<T>(xs: seq<T>, o: int): seq<T> {
    if o >= |xs| then []
    else if o >= 0 then xs[o..]
    else if -o >= |xs| then xs
    else xs[|xs| + o..]
  }

  /** `xs[:l]`, counting from the end when `l` is negative. */
  function SliceTo<T>(xs: seq<T>, l: int): seq<T> {
    if l >= |xs| then xs
    else if l >= 0 then xs[..l]
    else if -l >= |xs| then []
    else xs[..|xs| + l]
  }

  function Page<T>(xs: seq<T>, limit: Option<int>, offset: int): seq<T> {
    var rest := if offset != 0 then SliceFrom(xs, offset) else xs;
    if limit.Some? then SliceTo(rest, limit.value) else rest
  }

  function Bare(e: Event): Event {
    e.(metadata := map[])
  }

  function Present(xs: seq<Event>, includeMetadata: bool): seq<Event> {
    if includeMetadata then xs else Map(Bare, xs)
  }

  lemma PresentLength(xs: seq<Event>, keep: bool)
    ensures |Present(xs, keep)| == |xs|
  {
  }

  ghost function Query(s: Store, q: EventQuery): seq<Event>
    requires WellKeyed(s)
  {
    Present(Page(Sorted(s, q), q.limit, q.offset), q.includeMetadata)
  }

  // ----- latest ingest time --------------------------------------------------------

  /** `t` is the greatest ingest time of the source among the given ids. */
  ghost predicate IsLatestAmong(s: Store, ids: set<string>, source: string, t: Option<Instant>)
    requires ids <= s.Keys
  {
    && (t.None? <==> forall id :: id in ids ==> s[id].source != source || s[id].ingestedAt.None?)
    && (t.Some? ==> exists id :: id in ids && s[id].source == source && s[id].ingestedAt == t)
    && (t.Some? ==> forall id :: id in ids && s[id].source == source && s[id].ingestedAt.Some?
                                 ==> s[id].ingestedAt.value <= t.value)
  }

  ghost predicate IsLatest(s: Store, source: string, t: Option<Instant>) {
    IsLatestAmong(s, s.Keys, source, t)
  }

  lemma LatestUnique(s: Store, source: string, t: Option<Instant>, u: Option<Instant>)
    requires IsLatest(s, source, t) && IsLatest(s, source, u)
    ensures t == u
  {
  }

  lemma MaxExists(times: set<Instant>)
    requires times != {}
    ensures exists m :: m in times && forall t :: t in times ==> t <= m
    decreases |times|
  {
    var x :| x in times;
    var rest := times - {x};
    if rest == {} {
      assert times == {x};
    } else {
      MaxExists(rest);
      var y :| y in rest && forall t :: t in rest ==> t <= y;
      var m := if x <= y then y else x;
      forall t | t in times ensures t <= m {
        assert t == x || t in rest;
      }
      assert m in times;
    }
  }

  lemma LatestExists(s: Store, source: string)
    ensures exists t :: IsLatest(s, source, t)
  {
    var times := set id | id in s && s[id].source == source && s[id].ingestedAt.Some? :: s[id].ingestedAt.value;
    assert forall id :: id in s && s[id].source == source && s[id].ingestedAt.Some?
                        ==> s[id].ingestedAt.value in times;
    if times == {} {
      assert IsLatest(s, source, None);
    } else {
      MaxExists(times);
      var m :| m in times && forall t :: t in times ==> t <= m;
      assert IsLatest(s, source, Some(m));
    }
  }

  /** `max` of the ingest times of a source, `None` when it has none. */
  ghost function LatestIngest(s: Store, source: string): (t: Option<Instant>)
    ensures IsLatest(s, source, t)
  {
    LatestExists(s, source);
    var t :| IsLatest(s, source, t);
    t
  }

  // ----- the in-memory repository --------------------------------------------------

  class FakeEventRepository {
    var events: Store

    constructor ()
      ensures events == map[]
    {
      events := map[];
    }

    method Upsert(batch: seq<Event>, now: Instant) returns (counts: Counts)
      modifies this
      ensures (events, counts) == UpsertAll(old(events), batch, now)
    {
      var inserted, updated, same := 0, 0, 0;
      for i := 0 to |batch|
        invariant (events, Counts(inserted, updated, same)) == UpsertAll(old(events), batch[..i], now)
      {
        var event := batch[i];
        assert batch[..i + 1][..i] == batch[..i];
        if event.id !in events {
          events := events[event.id := event.(ingestedAt := Some(now), updatedAt := Some(now))];
          inserted := inserted + 1;
        } else {
          var existing := events[event.id];
          if Content(existing) == Content(event) {
            same := same + 1;
          } else {
            events := events[event.id := event.(ingestedAt := existing.ingestedAt, updatedAt := Some(now))];
            updated := updated + 1;
          }
        }
      }
      assert batch[..|batch|] == batch;
      counts := Counts(inserted, updated, same);
    }

    /** Collects the matches, sorts them, pages, and strips the metadata. */
    method RunQuery(q: EventQuery) returns (results: seq<Event>)
      requires WellKeyed(events)
      ensures results == Query(events, q)
    {
      var matches := set id | id in events && Matches(events[id], q) :: events[id];
      assert matches == Matching(events, q);
      MatchingOrdered(events, q);
      results := Sort(EventBefore, matches);
      if q.offset != 0 {
        results := SliceFrom(results, q.offset);
      }
      if q.limit.Some? {
        results := SliceTo(results, q.limit.value);
      }
      if !q.includeMetadata {
        results := Map(Bare, results);
      }
    }

    method Get(id: string) returns (r: Option<Event>)
      ensures r.Some? <==> id in events
      ensures r.Some? ==> r.value == events[id] && (WellKeyed(events) ==> r.value.id == id)
    {
      r := Lookup(events, id);
    }

    method GetLatestIngestTime(source: string) returns (latest: Option<Instant>)
      ensures latest == LatestIngest(events, source)
    {
      latest := None;
      var rest := events.Keys;
      while rest != {}
        invariant rest <= events.Keys
        invariant IsLatestAmong(events, events.Keys - rest, source, latest)
        decreases |rest|
      {
        var id :| id in rest;
        rest := rest - {id};
        var e := events[id];
        if e.source == source && e.ingestedAt.Some? && (latest.None? || latest.value < e.ingestedAt.value) {
          latest := e.ingestedAt;
        }
      }
      assert events.Keys - rest == events.Keys;
      LatestUnique(events, source, latest, LatestIngest(events, source));
    }
  }
}
