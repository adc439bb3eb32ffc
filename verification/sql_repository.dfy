/** The SQL repository as an object with one transaction at a time, and whole runs of
    operations against it compared with the in-memory reference. */
module SqlRepository {
  import opened Text
  import opened Calendar
  import opened Events
  import opened Serialization
  import opened Ordering
  import opened Reference
  import opened SqlTable

  // ----- operations and runs -------------------------------------------------------

  /** `fault == Some(k)`: the statement for entry `k` raises; at `|events|` it is the commit. */
  datatype Op =
    | OpUpsert(events: seq<Event>, now: Instant, fault: Option<nat>)
    | OpQuery(q: EventQuery)
    | OpGet(id: string)
    | OpLatest(source: string)
    | OpFailedRead // a read whose SELECT raised

  datatype Reply =
    | Counted(counts: Counts)
    | Found(events: seq<Event>)
    | One(event: Option<Event>)
    | Time(latest: Option<Instant>)
    | Error

  predicate Fails(op: Op) {
    op.OpUpsert? && op.fault.Some? && op.fault.value <= |op.events|
  }

  /** Entries have ids, and pages count forward. */
  ghost predicate Regular(op: Op) {
    && (op.OpUpsert? ==> Storable(op.events))
    && (op.OpQuery? ==> ForwardPage(op.q.limit, op.q.offset))
  }

  /** The reference's answer to one operation; a batch whose transaction fails does nothing. */
  ghost function RefStep(s: Store, op: Op): (Store, Reply)
    requires WellKeyed(s)
  {
    match op
    case OpUpsert(events, now, _) =>
      if Fails(op) then (s, Error)
      else var r := UpsertAll(s, events, now); (r.0, Counted(r.1))
    case OpQuery(q) => (s, Found(Query(s, q)))
    case OpGet(id) => (s, One(Lookup(s, id)))
    case OpLatest(source) => (s, Time(LatestIngest(s, source)))
    case OpFailedRead => (s, Error)
  }

  /** `get_by_id`: `None` stands for a raised error. */
  function SqlGet(t: Table, id: string): Option<Option<Event>> {
    if id !in t then Some(None)
    else
      var e :- Deserialize(t[id].data);
      Some(Some(e))
  }

  lemma MaxTextExists(t: Table, source: string)
    requires ValidTable(t)
    ensures exists m :: IsMaxIngested(t, t.Keys, source, m)
  {
    hide Deserialize, IsoInstant, AtMost, Serialize, ContentHash, IsoDate;
    var s := Decoded(t);
    var latest := LatestIngest(s, source);
    assert forall k :: k in t ==> s[k].source == t[k].source && Stamped(s[k]);
    if latest.Some? {
      var id :| id in s && s[id].source == source && s[id].ingestedAt == latest;
      forall k | k in t && t[k].source == source
        ensures AtMost(t[k].ingestedAt, IsoInstant(latest.value))
      {
        InstantAtMost(s[k].ingestedAt.value, latest.value);
      }
      assert t[id].ingestedAt == IsoInstant(latest.value);
      assert IsMaxIngested(t, t.Keys, source, Some(IsoInstant(latest.value)));
    } else {
      assert IsMaxIngested(t, t.Keys, source, None);
    }
  }

  ghost function SqlMax(t: Table, source: string): (m: Option<string>)
    requires ValidTable(t)
    ensures IsMaxIngested(t, t.Keys, source, m)
  {
    MaxTextExists(t, source);
    var m :| IsMaxIngested(t, t.Keys, source, m);
    m
  }

  ghost function SqlStep(d: Dialect, t: Table, op: Op): (Table, Reply)
    requires ValidTable(t)
  {
    match op
    case OpUpsert(events, now, _) =>
      var r := SqlUpsertAll(t, events, now);
      if Fails(op) || r.None? then (t, Error) else (r.value.0, Counted(r.value.1))
    case OpQuery(q) =>
      var r := SqlQuery(d, t, q);
      (t, if r.Some? then Found(r.value) else Error)
    case OpGet(id) =>
      var r := SqlGet(t, id);
      (t, if r.Some? then One(r.value) else Error)
    case OpLatest(source) =>
      var r := ParseLatest(SqlMax(t, source));
      (t, if r.Some? then Time(r.value) else Error)
    case OpFailedRead => (t, Error)
  }

  function NormalOp(op: Op): Op {
    if op.OpQuery? then OpQuery(Normalized(op.q)) else op
  }

  lemma GetRefines(t: Table, id: string)
    requires ValidTable(t)
    ensures SqlGet(t, id) == Some(Lookup(Decoded(t), id))
  {
    hide Deserialize, Project;
  }

  /** Whichever statement of a batch raises, or its commit, the call raises and leaves the table and the
      reference as they were. */
  lemma FailedBatchLeavesNothing(d: Dialect, t: Table, events: seq<Event>, now: Instant, k: nat)
    requires ValidTable(t) && k <= |events|
    ensures SqlStep(d, t, OpUpsert(events, now, Some(k))) == (t, Error)
    ensures RefStep(Decoded(t), OpUpsert(events, now, Some(k))) == (Decoded(t), Error)
  {
  }

  /** One step of the SQL repository is one step of the reference on the decoded events. */
  lemma StepRefines(d: Dialect, t: Table, op: Op)
    requires ValidTable(t) && Regular(op)
    ensures ValidTable(SqlStep(d, t, op).0)
    ensures (Decoded(SqlStep(d, t, op).0), SqlStep(d, t, op).1) == RefStep(Decoded(t), NormalOp(op))
  {
    hide ValidTable, Decoded, SqlUpsertAll, SqlQuery, Query, SqlGet, Normalized;
    match op
    case OpUpsert(events, now, _) => UpsertAllRefines(t, events, now);
    case OpQuery(q) => QueryRefines(d, t, q);
    case OpGet(id) => GetRefines(t, id);
    case OpLatest(source) => MaxRefines(t, source, SqlMax(t, source));
    case OpFailedRead =>
  }

  lemma RefStepWellKeyed(s: Store, op: Op)
    requires WellKeyed(s) && Regular(op)
    ensures WellKeyed(RefStep(s, op).0)
  {
    hide UpsertAll;
    if op.OpUpsert? {
      UpsertAllWellKeyed(s, op.events, op.now);
    }
  }

  ghost function RefRun(s: Store, ops: seq<Op>): (Store, seq<Reply>)
    requires WellKeyed(s) && forall i :: 0 <= i < |ops| ==> Regular(ops[i])
    ensures WellKeyed(RefRun(s, ops).0)
    decreases |ops|
  {
    if ops == [] then (s, [])
    else
      RefStepWellKeyed(s, ops[0]);
      var (s1, r1) := RefStep(s, ops[0]);
      var (s2, rs) := RefRun(s1, ops[1..]);
      (s2, [r1] + rs)
  }

  ghost function SqlRun(d: Dialect, t: Table, ops: seq<Op>): (Table, seq<Reply>)
    requires ValidTable(t) && forall i :: 0 <= i < |ops| ==> Regular(ops[i])
    ensures ValidTable(SqlRun(d, t, ops).0)
    decreases |ops|
  {
    if ops == [] then (t, [])
    else
      StepRefines(d, t, ops[0]);
      var (t1, r1) := SqlStep(d, t, ops[0]);
      var (t2, rs) := SqlRun(d, t1, ops[1..]);
      (t2, [r1] + rs)
  }

  function NormalOps(ops: seq<Op>): (r: seq<Op>)
    ensures |r| == |ops| && forall i :: 0 <= i < |r| ==> r[i] == NormalOp(ops[i])
    decreases |ops|
  {
    if ops == [] then [] else [NormalOp(ops[0])] + NormalOps(ops[1..])
  }

  /** Over every operation sequence the SQL repository gives the reference's replies, in order,
      and ends with the reference's events. */
  lemma {:induction false} RunRefines(d: Dialect, t: Table, ops: seq<Op>)
    requires ValidTable(t) && forall i :: 0 <= i < |ops| ==> Regular(ops[i])
    ensures (Decoded(SqlRun(d, t, ops).0), SqlRun(d, t, ops).1) == RefRun(Decoded(t), NormalOps(ops))
    decreases |ops|
  {
    hide ValidTable, Decoded, SqlStep, RefStep, NormalOp, Regular;
    if ops == [] {
    } else {
      StepRefines(d, t, ops[0]);
      RunRefines(d, SqlStep(d, t, ops[0]).0, ops[1..]);
      assert NormalOps(ops)[1..] == NormalOps(ops[1..]);
    }
  }

  /** With list filters that are absent or non-empty the two runs coincide outright. */
  lemma RunAgrees(d: Dialect, ops: seq<Op>)
    requires forall i :: 0 <= i < |ops| ==> Regular(ops[i]) && NormalOp(ops[i]) == ops[i]
    ensures (Decoded(SqlRun(d, map[], ops).0), SqlRun(d, map[], ops).1) == RefRun(map[], ops)
  {
    hide SqlStep, RefStep, NormalOp, Regular;
    RunRefines(d, map[], ops);
    assert NormalOps(ops) == ops;
    assert Decoded(map[]) == map[];
  }

  // ----- empty list filters --------------------------------------------------------

  predicate HasEmptyList(q: EventQuery) {
    q.eventTypes == Some([]) || q.exchanges == Some([]) || q.releaseCodes == Some([])
  }

  lemma EmptyListSelectsNothing(s: Store, q: EventQuery)
    requires WellKeyed(s) && HasEmptyList(q)
    ensures Query(s, q) == []
  {
    MatchingOrdered(s, q);
    assert Matching(s, q) == {};
    InOrderEmpty(EventBefore);
  }

  /** A forward page is empty exactly when nothing matches, or it takes nothing, or it starts
      beyond the matches. */
  lemma QueryEmptyExactly(s: Store, q: EventQuery)
    requires WellKeyed(s) && ForwardPage(q.limit, q.offset)
    ensures Query(s, q) == [] <==>
            Matching(s, q) == {} || q.limit == Some(0) || q.offset >= |Matching(s, q)|
  {
    hide Matching, EventBefore, InOrder;
    MatchingOrdered(s, q);
    InOrderLength(EventBefore, Matching(s, q));
    PresentLength(Page(Sorted(s, q), q.limit, q.offset), q.includeMetadata);
  }

  /** An empty list filter means "no filter" to SQL and "match nothing" to the reference. On a given
      table the two agree exactly when there is none, or when the page of what matches without it
      is empty: nothing matches, the limit is zero, or the offset is beyond the matches. */
  lemma QueryAgreesExactly(d: Dialect, t: Table, q: EventQuery)
    requires ValidTable(t) && ForwardPage(q.limit, q.offset)
    ensures SqlQuery(d, t, q) == Some(Query(Decoded(t), q)) <==>
            || !HasEmptyList(q)
            || Matching(Decoded(t), Normalized(q)) == {}
            || q.limit == Some(0)
            || q.offset >= |Matching(Decoded(t), Normalized(q))|
  {
    hide SqlQuery, Query, Matching;
    QueryRefines(d, t, q);
    QueryEmptyExactly(Decoded(t), Normalized(q));
    if HasEmptyList(q) {
      EmptyListSelectsNothing(Decoded(t), q);
    } else {
      assert Normalized(q) == q;
    }
  }

  // ----- pages ---------------------------------------------------------------------

  /** The pages of the given sizes, fetched one after the other from `offset` on. */
  ghost function Pages(d: Dialect, t: Table, q: EventQuery, sizes: seq<nat>, offset: nat): Option<seq<Event>>
    requires ValidTable(t)
    decreases |sizes|
  {
    if sizes == [] then Some([])
    else
      var page :- SqlQuery(d, t, q.(limit := Some(sizes[0]), offset := offset));
      var rest :- Pages(d, t, q, sizes[1..], offset + sizes[0]);
      Some(page + rest)
  }

  function Sum(sizes: seq<nat>): nat {
    if sizes == [] then 0 else sizes[0] + Sum(sizes[1..])
  }

  lemma PresentSlice(xs: seq<Event>, lo: nat, hi: nat, keep: bool)
    requires lo <= hi <= |xs|
    ensures Present(xs[lo..hi], keep) == Present(xs, keep)[lo..hi]
    ensures |Present(xs, keep)| == |xs|
  {
  }

  function Clip(n: nat, len: nat): nat {
    if n <= len then n else len
  }

  /** As much of `xs[offset..offset + size]` as there is. */
  function Slice<T>(xs: seq<T>, offset: nat, size: nat): seq<T> {
    xs[Clip(offset, |xs|)..Clip(offset + size, |xs|)]
  }

  lemma SliceJoin<T>(xs: seq<T>, offset: nat, size: nat, more: nat)
    ensures Slice(xs, offset, 0) == []
    ensures Slice(xs, offset, size) + Slice(xs, offset + size, more) == Slice(xs, offset, size + more)
  {
  }

  lemma SortedIgnoresPage(s: Store, q: EventQuery, p: EventQuery)
    requires WellKeyed(s) && Matching(s, q) == Matching(s, p)
    ensures Sorted(s, q) == Sorted(s, p)
  {
    hide Matching;
  }

  lemma PageIsSlice(s: Store, q: EventQuery, size: nat, offset: nat)
    requires WellKeyed(s)
    ensures var all := Query(s, q.(limit := None, offset := 0));
            Query(s, q.(limit := Some(size), offset := offset)) == Slice(all, offset, size)
  {
    hide Sorted, Present;
    var q1 := q.(limit := Some(size), offset := offset);
    var q0 := q.(limit := None, offset := 0);
    assert Matching(s, q1) == Matching(s, q0);
    var xs := Sorted(s, q0);
    SortedIgnoresPage(s, q0, q1);
    PresentSlice(xs, Clip(offset, |xs|), Clip(offset + size, |xs|), q.includeMetadata);
    PresentSlice(xs, 0, |xs|, q.includeMetadata);
    assert Page(xs, Some(size), offset) == Slice(xs, offset, size);
    assert Page(xs, None, 0) == xs;
  }

  /** Consecutive pages of any sizes concatenate to the full result, as far as they reach. */
  lemma {:induction false} PagesConcatenate(d: Dialect, t: Table, q: EventQuery, sizes: seq<nat>, offset: nat)
    requires ValidTable(t)
    ensures var all := Query(Decoded(t), Normalized(q).(limit := None, offset := 0));
            Pages(d, t, q, sizes, offset) == Some(Slice(all, offset, Sum(sizes)))
    decreases |sizes|
  {
    hide ValidTable, Decoded, SqlQuery, Query;
    var s := Decoded(t);
    var all := Query(s, Normalized(q).(limit := None, offset := 0));
    if sizes == [] {
      SliceJoin(all, offset, 0, 0);
    } else {
      SliceJoin(all, offset, sizes[0], Sum(sizes[1..]));
      var p := q.(limit := Some(sizes[0]), offset := offset);
      QueryRefines(d, t, p);
      assert Normalized(p) == Normalized(q).(limit := Some(sizes[0]), offset := offset);
      PageIsSlice(s, Normalized(q), sizes[0], offset);
      PagesConcatenate(d, t, q, sizes[1..], offset + sizes[0]);
    }
  }

  // ----- the repository object -----------------------------------------------------

  datatype UpsertOutcome = Done(counts: Counts) | RepositoryError

  lemma AtMostFacts(a: string, b: string, c: string)
    ensures AtMost(c, c)
    ensures AtMost(a, b) && !AtMost(c, b) ==> AtMost(a, c)
  {
    LessTotal(b, c);
    if Less(a, b) && Less(b, c) {
      LessTransitive(a, b, c);
    }
  }

  class SqlEventRepository {
    const dialect: Dialect
    var committed: Table
    var working: Table // what statements on the connection see

    ghost predicate Valid()
      reads this
    {
      ValidTable(committed) && working == committed
    }

    constructor (dialect: Dialect)
      ensures Valid() && this.dialect == dialect && committed == map[]
    {
      this.dialect := dialect;
      committed, working := map[], map[];
    }

    /** One SELECT and at most one INSERT or UPDATE on the open transaction. */
    method WriteOne(event: Event, now: Instant) returns (change: Option<Change>)
      modifies this`working
      ensures var r := SqlUpsertOne(old(working), event, now);
              if r.Some? then change == Some(r.value.1) && working == r.value.0
              else change == None && working == old(working)
    {
      var digest := ContentHash(event);
      if event.id !in working {
        working := working[event.id := MakeRow(event, now, now, digest)];
        change := Some(Inserted);
      } else if working[event.id].contentHash == digest {
        change := Some(Unchanged);
      } else {
        var prior := ParseInstant(working[event.id].ingestedAt);
        if prior.None? {
          change := None;
        } else {
          working := working[event.id := MakeRow(event, prior.value, now, digest)];
          change := Some(Updated);
        }
      }
    }

    /** A batch in one transaction: committed as a whole or rolled back as a whole. */
    method Upsert(events: seq<Event>, now: Instant, fault: Option<nat>) returns (r: UpsertOutcome)
      requires Valid() && Storable(events)
      modifies this
      ensures Valid()
      ensures fault.Some? && fault.value <= |events| ==> r == RepositoryError && committed == old(committed)
      ensures fault.None? || fault.value > |events| ==>
                r.Done? && (Decoded(committed), r.counts) == UpsertAll(Decoded(old(committed)), events, now)
    {
      hide SqlUpsertOne, UpsertAll, Decoded, ValidTable, MakeRow;
      var inserted, updated, same := 0, 0, 0;
      ghost var start := committed;
      var failed := false;
      var i := 0;
      while i < |events| && !failed
        invariant 0 <= i <= |events|
        invariant committed == start
        invariant !failed ==> SqlUpsertAll(start, events[..i], now) == Some((working, Counts(inserted, updated, same)))
        invariant !failed ==> fault.None? || fault.value >= i
        invariant failed ==> Fails(OpUpsert(events, now, fault))
        decreases |events| - i, !failed
      {
        UpsertAllRefines(start, events[..i], now);
        UpsertOneRefines(working, events[i], now);
        assert events[..i + 1][..i] == events[..i];
        if fault == Some(i) {
          failed := true;
        } else {
          var change := WriteOne(events[i], now);
          match change.value {
            case Inserted => inserted := inserted + 1;
            case Updated => updated := updated + 1;
            case Unchanged => same := same + 1;
          }
          i := i + 1;
        }
      }
      if failed || fault == Some(|events|) {
        working := committed;
        return RepositoryError;
      }
      assert events[..|events|] == events;
      UpsertAllRefines(start, events, now);
      committed := working;
      return Done(Counts(inserted, updated, same));
    }

    /** Builds the WHERE conditions one filter at a time. */
    method BuildWhere(q: EventQuery) returns (where: seq<Condition>)
      ensures where == WhereOf(q)
    {
      hide IsoDate, Map, TypeName;
      where := [];
      if NonEmpty(q.eventTypes) {
        where := where + [TypeIn(Map(TypeName, q.eventTypes.value))];
      }
      if NonEmpty(q.exchanges) {
        where := where + [ExchangeIn(q.exchanges.value)];
      }
      if q.dateFrom.Some? {
        where := where + [DateFrom(IsoDate(q.dateFrom.value))];
      }
      if q.dateTo.Some? {
        where := where + [DateTo(IsoDate(q.dateTo.value))];
      }
      if NonEmpty(q.releaseCodes) {
        where := where + [CodeIn(q.releaseCodes.value)];
      }
    }

    method RunQuery(q: EventQuery) returns (r: Option<seq<Event>>)
      requires Valid()
      ensures r == SqlQuery(dialect, committed, q)
      ensures ForwardPage(q.limit, q.offset) ==> r == Some(Query(Decoded(committed), Normalized(q)))
    {
      hide WhereOf, AllHold, Query, DecodeAll;
      var where := BuildWhere(q);
      var matches := set id | id in working && AllHold(where, working[id]) :: working[id];
      assert matches == Selected(committed, WhereOf(q));
      TableOrdered(committed, q);
      var sorted := Sort(RowBefore, matches);
      var rows := RunClause(dialect, sorted, PageClause(dialect, q.limit, q.offset));
      if ForwardPage(q.limit, q.offset) {
        QueryRefines(dialect, committed, q);
      }
      if rows.None? {
        return None;
      }
      var events := DecodeAll(rows.value);
      if events.None? {
        return None;
      }
      return Some(Present(events.value, q.includeMetadata));
    }

    method Get(id: string) returns (r: Option<Option<Event>>)
      requires Valid()
      ensures r == Some(Lookup(Decoded(committed), id))
    {
      GetRefines(committed, id);
      r := SqlGet(working, id);
    }

    /** Scans the source's rows for the greatest ingest text, then parses it. */
    method GetLatestIngestTime(source: string) returns (r: Option<Option<Instant>>)
      requires Valid()
      ensures r == Some(LatestIngest(Decoded(committed), source))
    {
      hide AtMost, ValidTable, Decoded;
      var latest: Option<string> := None;
      var rest := working.Keys;
      while rest != {}
        invariant rest <= working.Keys
        invariant IsMaxIngested(working, working.Keys - rest, source, latest)
        decreases |rest|
      {
        var id :| id in rest;
        rest := rest - {id};
        var row := working[id];
        if row.source == source && (latest.None? || !AtMost(row.ingestedAt, latest.value)) {
          forall k | k in working.Keys - rest && working[k].source == source
            ensures AtMost(working[k].ingestedAt, row.ingestedAt)
          {
            if latest.Some? {
              AtMostFacts(working[k].ingestedAt, latest.value, row.ingestedAt);
            } else {
              AtMostFacts(row.ingestedAt, row.ingestedAt, row.ingestedAt);
            }
          }
          latest := Some(row.ingestedAt);
        }
      }
      assert working.Keys - rest == working.Keys;
      MaxRefines(committed, source, latest);
      r := ParseLatest(latest);
    }
  }
}
