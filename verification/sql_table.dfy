/** The events table, the statements run against it, and the proof that each statement
    refines the reference operation on the decoded events. */
module SqlTable {
  import opened Text
  import opened Calendar
  import opened Events
  import opened Serialization
  import opened Ordering
  import opened Reference

  /** One row: queryable text columns beside the full event as JSON. */
  datatype Row = Row(
    eventId: string, eventType: string, source: string, exchange: Option<string>,
    eventDate: string, releaseCode: Option<string>, ingestedAt: string, updatedAt: string,
    contentHash: ContentDigest, data: Wire)

  /** Rows by primary key. */
  type Table = map<string, Row>

  /** The row that `_write` stores. */
  function MakeRow(e: Event, ingested: Instant, updated: Instant, digest: ContentDigest): Row {
    var stored := e.(ingestedAt := Some(ingested), updatedAt := Some(updated));
    Row(e.id, TypeName(TypeOf(e)), e.source, e.exchange, IsoDate(e.date),
        if e.detail.Release? then Some(e.detail.code) else None,
        IsoInstant(ingested), IsoInstant(updated), digest, Serialize(stored))
  }

  /** The row whose every column is the projection of one stored event. */
  function Project(e: Event): Row
    requires Stamped(e)
  {
    Row(e.id, TypeName(TypeOf(e)), e.source, e.exchange, IsoDate(e.date),
        if e.detail.Release? then Some(e.detail.code) else None,
        IsoInstant(e.ingestedAt.value), IsoInstant(e.updatedAt.value), ContentHash(e), Serialize(e))
  }

  /** Row invariant: the columns and the hash are those of the event that `data` decodes to. */
  ghost predicate Consistent(id: string, row: Row) {
    var e := Deserialize(row.data);
    e.Some? && e.value.id == id && Stamped(e.value) && row == Project(e.value)
  }

  ghost predicate ValidTable(t: Table) {
    forall id :: id in t ==> Consistent(id, t[id])
  }

  /** The abstract store behind a table. */
  ghost function Decoded(t: Table): (s: Store)
    requires ValidTable(t)
    ensures WellKeyed(s)
  {
    map id | id in t :: Deserialize(t[id].data).value
  }

  lemma ProjectConsistent(e: Event)
    requires Stamped(e)
    ensures Consistent(e.id, Project(e)) && Deserialize(Project(e).data) == Some(e)
  {
    hide Serialize, Deserialize;
    RoundTrip(e);
  }

  /** Writing with the event's own hash stores the projection of the stamped event. */
  lemma WriteProjects(e: Event, ingested: Instant, updated: Instant)
    requires e.id != ""
    ensures MakeRow(e, ingested, updated, ContentHash(e))
         == Project(e.(ingestedAt := Some(ingested), updatedAt := Some(updated)))
  {
    hide Serialize, ContentHash;
    HashIsContent(e, e.(ingestedAt := Some(ingested), updatedAt := Some(updated)));
  }

  lemma ReplaceRow(t: Table, e: Event)
    requires ValidTable(t) && Stamped(e)
    ensures ValidTable(t[e.id := Project(e)])
    ensures Decoded(t[e.id := Project(e)]) == Decoded(t)[e.id := e]
  {
    hide Deserialize, Project;
    ProjectConsistent(e);
  }

  // ----- upsert --------------------------------------------------------------------

  /** SELECT by id, then INSERT, nothing, or UPDATE. `None` stands for a raised error. */
  function SqlUpsertOne(t: Table, e: Event, now: Instant): Option<(Table, Change)> {
    var digest := ContentHash(e);
    if e.id !in t then
      Some((t[e.id := MakeRow(e, now, now, digest)], Inserted))
    else if t[e.id].contentHash == digest then
      Some((t, Unchanged))
    else
      var prior :- ParseInstant(t[e.id].ingestedAt);
      Some((t[e.id := MakeRow(e, prior, now, digest)], Updated))
  }

  lemma UpsertOneRefines(t: Table, e: Event, now: Instant)
    requires ValidTable(t) && e.id != ""
    ensures SqlUpsertOne(t, e, now).Some?
    ensures ValidTable(SqlUpsertOne(t, e, now).value.0)
    ensures (Decoded(SqlUpsertOne(t, e, now).value.0), SqlUpsertOne(t, e, now).value.1)
         == UpsertOne(Decoded(t), e, now)
  {
    hide Serialize, Deserialize, ContentHash, Content, MakeRow, IsoInstant, ParseInstant;
    if e.id !in t {
      WriteProjects(e, now, now);
      ReplaceRow(t, e.(ingestedAt := Some(now), updatedAt := Some(now)));
    } else {
      var prior := Decoded(t)[e.id];
      assert t[e.id].contentHash == ContentHash(prior);
      HashIsContent(prior, e);
      ParseIsoInstant(prior.ingestedAt.value);
      WriteProjects(e, prior.ingestedAt.value, now);
      ReplaceRow(t, e.(ingestedAt := prior.ingestedAt, updatedAt := Some(now)));
    }
  }

  function SqlUpsertAll(t: Table, events: seq<Event>, now: Instant): Option<(Table, Counts)> {
    if events == [] then Some((t, Counts(0, 0, 0)))
    else
      var front :- SqlUpsertAll(t, events[..|events| - 1], now);
      var last :- SqlUpsertOne(front.0, events[|events| - 1], now);
      Some((last.0, Tally(front.1, last.1)))
  }

  lemma {:induction false} UpsertAllRefines(t: Table, events: seq<Event>, now: Instant)
    requires ValidTable(t) && Storable(events)
    ensures SqlUpsertAll(t, events, now).Some?
    ensures ValidTable(SqlUpsertAll(t, events, now).value.0)
    ensures (Decoded(SqlUpsertAll(t, events, now).value.0), SqlUpsertAll(t, events, now).value.1)
         == UpsertAll(Decoded(t), events, now)
  {
    hide SqlUpsertOne, UpsertOne, Consistent, Decoded, ValidTable;
    if events == [] {
    } else {
      UpsertAllRefines(t, events[..|events| - 1], now);
      UpsertOneRefines(SqlUpsertAll(t, events[..|events| - 1], now).value.0, events[|events| - 1], now);
    }
  }

  // ----- WHERE ---------------------------------------------------------------------

  datatype Condition =
    | TypeIn(names: seq<string>)
    | ExchangeIn(exchanges: seq<string>)
    | DateFrom(text: string)
    | DateTo(text: string)
    | CodeIn(codes: seq<string>)

  /** Truth of one condition; a NULL column satisfies no IN. */
  predicate Holds(c: Condition, row: Row) {
    match c
    case TypeIn(names) => row.eventType in names
    case ExchangeIn(xs) => row.exchange.Some? && row.exchange.value in xs
    case DateFrom(text) => AtMost(text, row.eventDate)
    case DateTo(text) => AtMost(row.eventDate, text)
    case CodeIn(codes) => row.releaseCode.Some? && row.releaseCode.value in codes
  }

  predicate AllHold(where: seq<Condition>, row: Row) {
    forall i :: 0 <= i < |where| ==> Holds(where[i], row)
  }

  predicate NonEmpty<T>(list: Option<seq<T>>) {
    list.Some? && list.value != []
  }

  /** The conditions that `query` collects: list filters count only when truthy. */
  function WhereOf(q: EventQuery): seq<Condition> {
    (if NonEmpty(q.eventTypes) then [TypeIn(Map(TypeName, q.eventTypes.value))] else [])
    + (if NonEmpty(q.exchanges) then [ExchangeIn(q.exchanges.value)] else [])
    + (if q.dateFrom.Some? then [DateFrom(IsoDate(q.dateFrom.value))] else [])
    + (if q.dateTo.Some? then [DateTo(IsoDate(q.dateTo.value))] else [])
    + (if NonEmpty(q.releaseCodes) then [CodeIn(q.releaseCodes.value)] else [])
  }

  function DropEmpty<T>(list: Option<seq<T>>): Option<seq<T>> {
    if NonEmpty(list) then list else None
  }

  /** The query with every empty list filter removed. */
  function Normalized(q: EventQuery): EventQuery {
    q.(eventTypes := DropEmpty(q.eventTypes), exchanges := DropEmpty(q.exchanges),
       releaseCodes := DropEmpty(q.releaseCodes))
  }

  lemma AllHoldConcat(a: seq<Condition>, b: seq<Condition>, row: Row)
    ensures AllHold(a + b, row) <==> AllHold(a, row) && AllHold(b, row)
  {
    if AllHold(a + b, row) {
      assert forall i :: 0 <= i < |a| ==> (a + b)[i] == a[i];
      assert forall i :: 0 <= i < |b| ==> (a + b)[|a| + i] == b[i];
    }
  }

  lemma AllHoldOne(c: Condition, row: Row)
    ensures AllHold([c], row) <==> Holds(c, row)
  {
    hide Holds;
    assert [c][0] == c;
  }

  lemma NamesContain(ts: seq<EventType>, t: EventType)
    ensures TypeName(t) in Map(TypeName, ts) <==> t in ts
  {
    hide TypeName;
    if t in ts {
      var i :| 0 <= i < |ts| && ts[i] == t;
      assert Map(TypeName, ts)[i] == TypeName(t);
    }
    if TypeName(t) in Map(TypeName, ts) {
      var i :| 0 <= i < |ts| && TypeName(ts[i]) == TypeName(t);
      TypeNameInjective(ts[i], t);
    }
  }

  lemma ConditionsSplit(q: EventQuery, row: Row)
    ensures AllHold(WhereOf(q), row) <==>
      && (NonEmpty(q.eventTypes) ==> Holds(TypeIn(Map(TypeName, q.eventTypes.value)), row))
      && (NonEmpty(q.exchanges) ==> Holds(ExchangeIn(q.exchanges.value), row))
      && (q.dateFrom.Some? ==> Holds(DateFrom(IsoDate(q.dateFrom.value)), row))
      && (q.dateTo.Some? ==> Holds(DateTo(IsoDate(q.dateTo.value)), row))
      && (NonEmpty(q.releaseCodes) ==> Holds(CodeIn(q.releaseCodes.value), row))
  {
    hide Holds, IsoDate;
    var a := if NonEmpty(q.eventTypes) then [TypeIn(Map(TypeName, q.eventTypes.value))] else [];
    var b := if NonEmpty(q.exchanges) then [ExchangeIn(q.exchanges.value)] else [];
    var c := if q.dateFrom.Some? then [DateFrom(IsoDate(q.dateFrom.value))] else [];
    var d := if q.dateTo.Some? then [DateTo(IsoDate(q.dateTo.value))] else [];
    var e := if NonEmpty(q.releaseCodes) then [CodeIn(q.releaseCodes.value)] else [];
    assert WhereOf(q) == a + b + c + d + e;
    AllHoldConcat(a, b, row);
    AllHoldConcat(a + b, c, row);
    AllHoldConcat(a + b + c, d, row);
    AllHoldConcat(a + b + c + d, e, row);
    forall x: Condition ensures AllHold([x], row) <==> Holds(x, row) {
      AllHoldOne(x, row);
    }
  }

  /** The text filters select a row exactly when the reference filters select its event. */
  lemma WhereRefines(e: Event, q: EventQuery)
    requires Stamped(e)
    ensures AllHold(WhereOf(q), Project(e)) <==> Matches(e, Normalized(q))
  {
    hide AllHold, WhereOf, IsoDate, Serialize, ContentHash, IsoInstant, AtMost, TypeName;
    ConditionsSplit(q, Project(e));
    if q.eventTypes.Some? {
      NamesContain(q.eventTypes.value, TypeOf(e));
    }
    if q.dateFrom.Some? {
      IsoDateAtMost(q.dateFrom.value, e.date);
    }
    if q.dateTo.Some? {
      IsoDateAtMost(e.date, q.dateTo.value);
    }
  }

  // ----- ORDER BY ------------------------------------------------------------------

  predicate RowBefore(a: Row, b: Row) {
    Less(a.eventDate, b.eventDate) || (a.eventDate == b.eventDate && Less(a.eventId, b.eventId))
  }

  lemma OrderRefines(a: Event, b: Event)
    requires Stamped(a) && Stamped(b)
    ensures RowBefore(Project(a), Project(b)) <==> EventBefore(a, b)
  {
    hide IsoDate, Less, Serialize, ContentHash, IsoInstant;
    IsoDateOrder(a.date, b.date);
    IsoDateInjective(a.date, b.date);
  }

  ghost function Selected(t: Table, where: seq<Condition>): set<Row> {
    set id | id in t && AllHold(where, t[id]) :: t[id]
  }

  ghost predicate Mirrors(rows: seq<Row>, events: seq<Event>) {
    |rows| == |events|
    && forall i :: 0 <= i < |rows| ==> Stamped(events[i]) && rows[i] == Project(events[i])
  }

  ghost predicate MirrorSets(rows: set<Row>, events: set<Event>) {
    && (forall e :: e in events ==> Stamped(e) && Project(e) in rows)
    && (forall r :: r in rows ==> exists e :: e in events && Stamped(e) && r == Project(e))
  }

  lemma SelectedMirrors(t: Table, q: EventQuery)
    requires ValidTable(t)
    ensures MirrorSets(Selected(t, WhereOf(q)), Matching(Decoded(t), Normalized(q)))
  {
    hide WhereOf, Matches, AllHold, Normalized, Deserialize, Project;
    var s := Decoded(t);
    forall id | id in t
      ensures AllHold(WhereOf(q), t[id]) <==> Matches(s[id], Normalized(q))
    {
      WhereRefines(s[id], q);
    }
    forall r | r in Selected(t, WhereOf(q))
      ensures exists e :: e in Matching(s, Normalized(q)) && Stamped(e) && r == Project(e)
    {
      var id :| id in t && AllHold(WhereOf(q), t[id]) && r == t[id];
      assert s[id] in Matching(s, Normalized(q));
    }
    forall e | e in Matching(s, Normalized(q))
      ensures Stamped(e) && Project(e) in Selected(t, WhereOf(q))
    {
      var id :| id in s && Matches(s[id], Normalized(q)) && e == s[id];
      assert t[id] == Project(e);
    }
  }

  lemma RowOrderTotal(rows: set<Row>, events: set<Event>)
    requires MirrorSets(rows, events) && StrictTotalOn(EventBefore, events)
    ensures StrictTotalOn(RowBefore, rows)
  {
    hide EventBefore, RowBefore, Project;
    forall a | a in rows ensures !RowBefore(a, a) {
      var x :| x in events && Stamped(x) && a == Project(x);
      OrderRefines(x, x);
    }
    forall a, b, c | a in rows && b in rows && c in rows && RowBefore(a, b) && RowBefore(b, c)
      ensures RowBefore(a, c)
    {
      var x :| x in events && Stamped(x) && a == Project(x);
      var y :| y in events && Stamped(y) && b == Project(y);
      var z :| z in events && Stamped(z) && c == Project(z);
      OrderRefines(x, y);
      OrderRefines(y, z);
      OrderRefines(x, z);
    }
    forall a, b | a in rows && b in rows
      ensures a == b || RowBefore(a, b) || RowBefore(b, a)
    {
      var x :| x in events && Stamped(x) && a == Project(x);
      var y :| y in events && Stamped(y) && b == Project(y);
      OrderRefines(x, y);
      OrderRefines(y, x);
    }
  }

  ghost function Projected(events: seq<Event>): (rows: seq<Row>)
    requires forall i :: 0 <= i < |events| ==> Stamped(events[i])
    ensures Mirrors(rows, events)
  {
    seq(|events|, i requires 0 <= i < |events| => Project(events[i]))
  }

  lemma ProjectedElements(rows: set<Row>, events: seq<Event>)
    requires MirrorSets(rows, Elements(events))
    requires forall i :: 0 <= i < |events| ==> Stamped(events[i])
    ensures Elements(Projected(events)) == rows
  {
    hide Project, Stamped;
    var rs := Projected(events);
    forall r | r in rows ensures r in Elements(rs) {
      var e :| e in Elements(events) && Stamped(e) && r == Project(e);
      var i :| 0 <= i < |events| && events[i] == e;
      assert rs[i] == r;
    }
    forall i | 0 <= i < |rs| ensures rs[i] in rows {
      assert events[i] in Elements(events);
    }
  }

  lemma ProjectedAscends(events: seq<Event>)
    requires forall i :: 0 <= i < |events| ==> Stamped(events[i])
    requires Ascending(EventBefore, events)
    ensures Ascending(RowBefore, Projected(events))
  {
    hide Project, Stamped;
    var rs := Projected(events);
    forall i, j | 0 <= i < j < |rs| ensures RowBefore(rs[i], rs[j]) {
      OrderRefines(events[i], events[j]);
    }
  }

  /** Sorting rows by their texts mirrors sorting events by date and id. */
  lemma SortMirrors(rows: set<Row>, events: set<Event>)
    requires MirrorSets(rows, events) && StrictTotalOn(EventBefore, events)
    ensures StrictTotalOn(RowBefore, rows)
    ensures Mirrors(InOrder(RowBefore, rows), InOrder(EventBefore, events))
  {
    hide EventBefore, RowBefore, Project, Stamped, StrictTotalOn, Ascending;
    RowOrderTotal(rows, events);
    var es := InOrder(EventBefore, events);
    assert forall i :: 0 <= i < |es| ==> es[i] in Elements(es);
    ProjectedAscends(es);
    ProjectedElements(rows, es);
    AscendingUnique(RowBefore, Projected(es), InOrder(RowBefore, rows));
  }

  // ----- LIMIT and OFFSET ----------------------------------------------------------

  datatype Dialect = Sqlite | Postgres

  datatype Clause = Clause(limit: Option<int>, offset: Option<int>)

  /** `BaseSqlEventRepository._limit_offset` */
  function BaseClause(limit: Option<int>, offset: int): Clause {
    Clause(limit, if offset != 0 then Some(offset) else None)
  }

  /** `_limit_offset` of each subclass: SQLite gets `LIMIT -1` before a lone OFFSET. */
  function PageClause(d: Dialect, limit: Option<int>, offset: int): Clause {
    if d == Sqlite && offset != 0 && limit.None? then Clause(Some(-1), Some(offset))
    else BaseClause(limit, offset)
  }

  function Take<T>(xs: seq<T>, n: int): seq<T>
    requires n >= 0
  {
    if n >= |xs| then xs else xs[..n]
  }

  function Skip<T>(xs: seq<T>, n: int): seq<T>
    requires n >= 0
  {
    if n >= |xs| then [] else xs[n..]
  }

  /** How each engine runs the clause; `None` is a syntax or runtime error. */
  function RunClause<T>(d: Dialect, xs: seq<T>, c: Clause): Option<seq<T>> {
    match d
    case Sqlite =>
      if c.offset.Some? && c.limit.None? then None
      else
        var rest := if c.offset.Some? && c.offset.value > 0 then Skip(xs, c.offset.value) else xs;
        Some(if c.limit.Some? && c.limit.value >= 0 then Take(rest, c.limit.value) else rest)
    case Postgres =>
      if (c.offset.Some? && c.offset.value < 0) || (c.limit.Some? && c.limit.value < 0) then None
      else
        var rest := if c.offset.Some? then Skip(xs, c.offset.value) else xs;
        Some(if c.limit.Some? then Take(rest, c.limit.value) else rest)
  }

  predicate ForwardPage(limit: Option<int>, offset: int) {
    (limit.Some? ==> limit.value >= 0) && offset >= 0
  }

  /** For a page counted forward, both engines slice as the reference does. */
  lemma PageRefines<T>(d: Dialect, xs: seq<T>, limit: Option<int>, offset: int)
    requires ForwardPage(limit, offset)
    ensures RunClause(d, xs, PageClause(d, limit, offset)) == Some(Page(xs, limit, offset))
  {
  }

  ghost predicate AlwaysAgrees(d: Dialect, limit: Option<int>, offset: int) {
    forall xs: seq<int> :: RunClause(d, xs, PageClause(d, limit, offset)) == Some(Page(xs, limit, offset))
  }

  function Upto(n: nat): (s: seq<int>)
    ensures |s| == n && forall i :: 0 <= i < n ==> s[i] == i
  {
    if n == 0 then [] else Upto(n - 1) + [n - 1]
  }

  lemma BackwardPageDiffers(xs: seq<int>, limit: Option<int>, offset: int)
    requires !ForwardPage(limit, offset) && limit != Some(0)
    requires xs == Upto(1 + if offset >= 0 then offset else -offset)
    ensures RunClause(Sqlite, xs, PageClause(Sqlite, limit, offset)) != Some(Page(xs, limit, offset))
  {
    var sql := RunClause(Sqlite, xs, PageClause(Sqlite, limit, offset)).value;
    var py := Page(xs, limit, offset);
    if limit.Some? && limit.value < 0 {
      assert |sql| > |py|;
    } else {
      assert sql[0] == 0;
      assert py == [] || py[0] == 1;
    }
  }

  /** Exactly the forward pages, and on SQLite the empty page, agree on every result. */
  lemma PagingAgreesExactly(d: Dialect, limit: Option<int>, offset: int)
    ensures AlwaysAgrees(d, limit, offset)
       <==> ForwardPage(limit, offset) || (d == Sqlite && limit == Some(0))
  {
    if ForwardPage(limit, offset) {
      forall xs: seq<int>
        ensures RunClause(d, xs, PageClause(d, limit, offset)) == Some(Page(xs, limit, offset))
      {
        PageRefines(d, xs, limit, offset);
      }
    } else if d == Postgres {
      assert RunClause(d, Upto(0), PageClause(d, limit, offset)) == None;
    } else if limit == Some(0) {
    } else {
      var xs := Upto(1 + if offset >= 0 then offset else -offset);
      assert RunClause(d, xs, PageClause(d, limit, offset)) != Some(Page(xs, limit, offset)) by {
        BackwardPageDiffers(xs, limit, offset);
      }
    }
  }

  // ----- query ---------------------------------------------------------------------

  /** `[deserialize_event(json.loads(r["data"])) for r in rows]` */
  function DecodeAll(rows: seq<Row>): Option<seq<Event>> {
    if rows == [] then Some([])
    else
      var e :- Deserialize(rows[0].data);
      var rest :- DecodeAll(rows[1..]);
      Some([e] + rest)
  }

  lemma {:induction false} DecodeMirrors(rows: seq<Row>, events: seq<Event>)
    requires Mirrors(rows, events)
    ensures DecodeAll(rows) == Some(events)
  {
    hide Deserialize, Project;
    if rows == [] {
    } else {
      ProjectConsistent(events[0]);
      DecodeMirrors(rows[1..], events[1..]);
      assert events == [events[0]] + events[1..];
    }
  }

  lemma SliceMirrors(rows: seq<Row>, events: seq<Event>, lo: nat, hi: nat)
    requires Mirrors(rows, events) && lo <= hi <= |rows|
    ensures Mirrors(rows[lo..hi], events[lo..hi])
  {
    hide Project, Stamped;
    forall i | 0 <= i < hi - lo ensures Stamped(events[lo..hi][i]) && rows[lo..hi][i] == Project(events[lo..hi][i]) {
      assert rows[lo..hi][i] == rows[lo + i] && events[lo..hi][i] == events[lo + i];
    }
  }

  lemma MirrorsAlike(rows: seq<Row>, events: seq<Event>)
    requires Mirrors(rows, events)
    ensures |rows| == |events| && Mirrors([], [])
    ensures rows[0..|rows|] == rows && events[0..|events|] == events
  {
  }

  lemma SliceFromMirrors(rows: seq<Row>, events: seq<Event>, o: int)
    requires Mirrors(rows, events)
    ensures Mirrors(SliceFrom(rows, o), SliceFrom(events, o))
  {
    hide Mirrors;
    MirrorsAlike(rows, events);
    if o < |rows| {
      SliceMirrors(rows, events, if o >= 0 then o else if -o >= |rows| then 0 else |rows| + o, |rows|);
    }
  }

  lemma SliceToMirrors(rows: seq<Row>, events: seq<Event>, l: int)
    requires Mirrors(rows, events)
    ensures Mirrors(SliceTo(rows, l), SliceTo(events, l))
  {
    hide Mirrors;
    MirrorsAlike(rows, events);
    if l < |rows| {
      SliceMirrors(rows, events, 0, if l >= 0 then l else if -l >= |rows| then 0 else |rows| + l);
    }
  }

  lemma PageMirrors(rows: seq<Row>, events: seq<Event>, limit: Option<int>, offset: int)
    requires Mirrors(rows, events)
    ensures Mirrors(Page(rows, limit, offset), Page(events, limit, offset))
  {
    hide Mirrors, SliceFrom, SliceTo;
    SliceFromMirrors(rows, events, offset);
    if limit.Some? {
      SliceToMirrors(if offset != 0 then SliceFrom(rows, offset) else rows,
                     if offset != 0 then SliceFrom(events, offset) else events, limit.value);
    }
  }

  lemma TableOrdered(t: Table, q: EventQuery)
    requires ValidTable(t)
    ensures StrictTotalOn(RowBefore, Selected(t, WhereOf(q)))
    ensures Mirrors(InOrder(RowBefore, Selected(t, WhereOf(q))), Sorted(Decoded(t), Normalized(q)))
  {
    SelectedMirrors(t, q);
    MatchingOrdered(Decoded(t), Normalized(q));
    SortMirrors(Selected(t, WhereOf(q)), Matching(Decoded(t), Normalized(q)));
  }

  ghost function SqlQuery(d: Dialect, t: Table, q: EventQuery): Option<seq<Event>>
    requires ValidTable(t)
  {
    TableOrdered(t, q);
    var rows :- RunClause(d, InOrder(RowBefore, Selected(t, WhereOf(q))), PageClause(d, q.limit, q.offset));
    var events :- DecodeAll(rows);
    Some(Present(events, q.includeMetadata))
  }

  /** The SQL query returns what the reference returns for the query without its empty lists. */
  lemma QueryRefines(d: Dialect, t: Table, q: EventQuery)
    requires ValidTable(t) && ForwardPage(q.limit, q.offset)
    ensures SqlQuery(d, t, q) == Some(Query(Decoded(t), Normalized(q)))
  {
    hide Decoded, ValidTable, WhereOf, DecodeAll, Page, RunClause, PageClause, RowBefore, EventBefore, Mirrors,
         StrictTotalOn, Matching, Selected;
    TableOrdered(t, q);
    var rows, events := InOrder(RowBefore, Selected(t, WhereOf(q))), Sorted(Decoded(t), Normalized(q));
    PageRefines(d, rows, q.limit, q.offset);
    PageMirrors(rows, events, q.limit, q.offset);
    DecodeMirrors(Page(rows, q.limit, q.offset), Page(events, q.limit, q.offset));
  }

  // ----- MAX(ingested_at) ----------------------------------------------------------

  ghost predicate IsMaxIngested(t: Table, ids: set<string>, source: string, m: Option<string>)
    requires ids <= t.Keys
  {
    && (m.None? <==> forall id :: id in ids ==> t[id].source != source)
    && (m.Some? ==> exists id :: id in ids && t[id].source == source && t[id].ingestedAt == m.value)
    && (m.Some? ==> forall id :: id in ids && t[id].source == source ==> AtMost(t[id].ingestedAt, m.value))
  }

  /** `dt_from_iso(latest) if latest else None` */
  function ParseLatest(m: Option<string>): Option<Option<Instant>> {
    if m.None? || m.value == "" then Some(None)
    else
      var t :- ParseInstant(m.value);
      Some(Some(t))
  }

  lemma InstantAtMost(a: Instant, b: Instant)
    ensures AtMost(IsoInstant(a), IsoInstant(b)) <==> a <= b
  {
    IsoInstantOrder(a, b);
    IsoInstantInjective(a, b);
  }

  /** The greatest ingest text parses to the greatest ingest time. */
  lemma MaxRefines(t: Table, source: string, m: Option<string>)
    requires ValidTable(t) && IsMaxIngested(t, t.Keys, source, m)
    ensures ParseLatest(m) == Some(LatestIngest(Decoded(t), source))
  {
    hide Deserialize, IsoInstant, ParseInstant, AtMost, Serialize, ContentHash, IsoDate;
    var s := Decoded(t);
    if m.Some? {
      var id :| id in t && t[id].source == source && t[id].ingestedAt == m.value;
      var latest := s[id].ingestedAt.value;
      ParseIsoInstant(latest);
      assert |IsoInstant(latest)| == 32;
      forall k | k in s && s[k].source == source ensures s[k].ingestedAt.value <= latest {
        InstantAtMost(s[k].ingestedAt.value, latest);
      }
      assert IsLatest(s, source, Some(latest));
      LatestUnique(s, source, Some(latest), LatestIngest(s, source));
    } else {
      LatestUnique(s, source, None, LatestIngest(s, source));
    }
  }
}
