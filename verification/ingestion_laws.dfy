/** A full ingest is isolated, independent of the adapter order, and accounts for every row. */
module IngestionLaws {
  import opened Text
  import opened Calendar
  import opened Events
  import opened Serialization
  import opened Reference
  import opened Retry
  import opened Ingestion
  import opened AlertRuns
  import UpsertLaws
  import SourcePriority

  /** The fixed setting of one full ingest. */
  datatype Setting = Setting(registry: Registry, policy: Backoff, range: DateRange, incremental: bool)

  ghost function One(s: Store, a: Adapter, c: Setting): (Store, SourceResult) {
    RunOne(s, a, c.registry, c.policy, c.range, c.incremental)
  }

  lemma {:induction false} AllLength(s: Store, adapters: seq<Adapter>, c: Setting)
    ensures |RunAll(s, adapters, c.registry, c.policy, c.range, c.incremental).1| == |adapters|
  {
    hide RunOne;
    if adapters == [] {
    } else {
      AllLength(s, adapters[..|adapters| - 1], c);
    }
  }

  ghost function All(s: Store, adapters: seq<Adapter>, c: Setting): (r: (Store, seq<SourceResult>))
    ensures |r.1| == |adapters|
  {
    AllLength(s, adapters, c);
    RunAll(s, adapters, c.registry, c.policy, c.range, c.incremental)
  }

  lemma AllSnoc(s: Store, front: seq<Adapter>, a: Adapter, c: Setting)
    ensures var (s1, rs) := All(s, front, c);
            All(s, front + [a], c) == (One(s1, a, c).0, rs + [One(s1, a, c).1])
  {
    hide RunOne;
    assert (front + [a])[..|front|] == front;
  }

  // ----- isolation -----------------------------------------------------------------

  /** A source that fails leaves the store exactly as it found it. */
  lemma FailureLeavesStore(s: Store, a: Adapter, c: Setting)
    ensures One(s, a, c).1.failed ==> One(s, a, c).0 == s
  {
  }

  /** The adapters whose result in this run is a success. */
  ghost function Survivors(s: Store, adapters: seq<Adapter>, c: Setting): seq<Adapter> {
    if adapters == [] then []
    else
      var front, a := adapters[..|adapters| - 1], adapters[|adapters| - 1];
      var rest := Survivors(s, front, c);
      if One(All(s, front, c).0, a, c).1.failed then rest else rest + [a]
  }

  function Successes(results: seq<SourceResult>): seq<SourceResult> {
    if results == [] then []
    else
      var front, r := Successes(results[..|results| - 1]), results[|results| - 1];
      if r.failed then front else front + [r]
  }

  lemma SuccessesSnoc(front: seq<SourceResult>, r: SourceResult)
    ensures Successes(front + [r]) == if r.failed then Successes(front) else Successes(front) + [r]
  {
    assert (front + [r])[..|front|] == front;
  }

  lemma NothingRun(s: Store, c: Setting)
    ensures All(s, [], c) == (s, [])
  {
  }

  /** Failing adapters can be dropped from the list without changing anything else. */
  lemma {:induction false} FailuresCanBeDropped(s: Store, adapters: seq<Adapter>, c: Setting)
    ensures All(s, Survivors(s, adapters, c), c) == (All(s, adapters, c).0, Successes(All(s, adapters, c).1))
  {
    hide One, RunAll;
    if adapters == [] {
      NothingRun(s, c);
    } else {
      var front, a := adapters[..|adapters| - 1], adapters[|adapters| - 1];
      assert adapters == front + [a];
      FailuresCanBeDropped(s, front, c);
      AllSnoc(s, front, a, c);
      AllSnoc(s, Survivors(s, front, c), a, c);
      FailureLeavesStore(All(s, front, c).0, a, c);
      SuccessesSnoc(All(s, front, c).1, One(All(s, front, c).0, a, c).1);
    }
  }

  // ----- each source by itself -----------------------------------------------------

  /** The part of the store that belongs to one source. */
  ghost function BySource(s: Store, source: string): Store {
    map id | id in s && s[id].source == source :: s[id]
  }

  ghost predicate OwnEvents(events: seq<Event>, source: string) {
    forall i :: 0 <= i < |events| ==> Canonical(events[i]) && events[i].source == source
  }

  /** Everything the adapter can deliver is its own: canonical ids, its own source name. */
  ghost predicate Owns(a: Adapter, registry: Registry) {
    a.name in registry ==>
      forall w, i: nat :: a.fetch(w)(i).Fetched?
                          ==> OwnEvents(NormalEvents(a.fetch(w)(i).records, registry[a.name]), a.name)
  }

  lemma LatestBySource(s: Store, t: Store, source: string)
    requires BySource(s, source) == BySource(t, source)
    ensures LatestIngest(s, source) == LatestIngest(t, source)
  {
    var b := BySource(s, source);
    forall id ensures id in s && s[id].source == source <==> id in t && t[id].source == source {
      assert id in b <==> id in BySource(t, source);
    }
    forall id | id in s && s[id].source == source ensures t[id] == s[id] {
      assert b[id] == BySource(t, source)[id];
    }
    assert IsLatest(t, source, LatestIngest(s, source));
    LatestUnique(t, source, LatestIngest(s, source), LatestIngest(t, source));
  }

  /** What an own batch meets in the store is in the source's own part. */
  lemma OwnBatchMeets(s: Store, events: seq<Event>, source: string, id: string)
    requires WellKeyed(s) && CanonicalStore(s) && OwnEvents(events, source)
    requires UpsertLaws.LastEntry(events, id).Some? && id in s
    ensures s[id].source == source
  {
    hide Canonical;
    var e := UpsertLaws.LastEntry(events, id).value;
    var i :| 0 <= i < |events| && events[i] == e;
    SourcePriority.SameKeyPersists(e, s[id]);
  }

  lemma OwnLast(events: seq<Event>, source: string, id: string)
    requires OwnEvents(events, source) && UpsertLaws.LastEntry(events, id).Some?
    ensures UpsertLaws.LastEntry(events, id).value.source == source
  {
    hide Canonical;
    var e := UpsertLaws.LastEntry(events, id).value;
    var i :| 0 <= i < |events| && events[i] == e;
  }

  /** An own batch changes nothing of another source. */
  lemma UpsertFrame(s: Store, events: seq<Event>, source: string, other: string, now: Instant)
    requires WellKeyed(s) && CanonicalStore(s) && OwnEvents(events, source) && other != source
    ensures BySource(UpsertAll(s, events, now).0, other) == BySource(s, other)
  {
    hide UpsertAll, OwnEvents, Canonical, UpsertLaws.AllAlike;
    var t := UpsertAll(s, events, now).0;
    forall id
      ensures id in t && t[id].source == other <==> id in s && s[id].source == other
      ensures id in s && s[id].source == other ==> id in t && t[id] == s[id]
    {
      UpsertLaws.UpsertClosedForm(s, events, now, id);
      if UpsertLaws.LastEntry(events, id).Some? {
        OwnLast(events, source, id);
        if id in s {
          OwnBatchMeets(s, events, source, id);
        }
      }
    }
  }

  lemma SameEntry(s: Store, t: Store, events: seq<Event>, source: string, id: string)
    requires WellKeyed(s) && CanonicalStore(s) && WellKeyed(t) && CanonicalStore(t) && OwnEvents(events, source)
    requires BySource(s, source) == BySource(t, source)
    ensures UpsertLaws.LastEntry(events, id).Some? ==> Lookup(s, id) == Lookup(t, id)
    ensures (id in s && s[id].source == source) || (id in t && t[id].source == source)
            ==> Lookup(s, id) == Lookup(t, id)
  {
    hide OwnEvents, Canonical, UpsertLaws.LastEntry;
    var b, d := BySource(s, source), BySource(t, source);
    if UpsertLaws.LastEntry(events, id).Some? {
      if id in s {
        OwnBatchMeets(s, events, source, id);
      }
      if id in t {
        OwnBatchMeets(t, events, source, id);
      }
    }
    assert id in b <==> id in d;
    assert id in b ==> b[id] == s[id] && d[id] == t[id];
  }

  lemma SameAfter(s: Store, t: Store, events: seq<Event>, source: string, now: Instant, id: string)
    requires WellKeyed(s) && CanonicalStore(s) && WellKeyed(t) && CanonicalStore(t) && OwnEvents(events, source)
    requires BySource(s, source) == BySource(t, source)
    ensures var a, b := Lookup(UpsertAll(s, events, now).0, id), Lookup(UpsertAll(t, events, now).0, id);
            (a.Some? && a.value.source == source) || (b.Some? && b.value.source == source) ==> a == b
  {
    hide UpsertAll, OwnEvents, Canonical, UpsertLaws.AllAlike, UpsertLaws.LastEntry;
    UpsertLaws.UpsertClosedForm(s, events, now, id);
    UpsertLaws.UpsertClosedForm(t, events, now, id);
    SameEntry(s, t, events, source, id);
  }

  lemma SameAfterEntry(s: Store, t: Store, events: seq<Event>, now: Instant, id: string)
    requires Lookup(s, id) == Lookup(t, id)
    ensures UpsertLaws.After(s, events, now, id) == UpsertLaws.After(t, events, now, id)
  {
    hide UpsertLaws.AllAlike, UpsertLaws.LastEntry;
  }

  lemma SameChange(s: Store, t: Store, e: Event, now: Instant)
    requires Lookup(s, e.id) == Lookup(t, e.id)
    ensures UpsertOne(s, e, now).1 == UpsertOne(t, e, now).1
  {
    hide Content;
  }

  /** The counts of a batch depend only on the stored events under its ids. */
  lemma {:induction false} SameCounts(s: Store, t: Store, events: seq<Event>, now: Instant)
    requires forall i :: 0 <= i < |events| ==> Lookup(s, events[i].id) == Lookup(t, events[i].id)
    ensures UpsertAll(s, events, now).1 == UpsertAll(t, events, now).1
  {
    hide UpsertLaws.After, UpsertLaws.LastEntry, UpsertOne, UpsertAll;
    if events == [] {
      UpsertLaws.NoUpsert(s, now);
      UpsertLaws.NoUpsert(t, now);
    } else {
      var front, e := events[..|events| - 1], events[|events| - 1];
      assert front + [e] == events;
      SameCounts(s, t, front, now);
      UpsertLaws.UpsertSnoc(s, front, e, now);
      UpsertLaws.UpsertSnoc(t, front, e, now);
      UpsertLaws.UpsertClosedForm(s, front, now, e.id);
      UpsertLaws.UpsertClosedForm(t, front, now, e.id);
      SameAfterEntry(s, t, front, now, e.id);
      SameChange(UpsertAll(s, front, now).0, UpsertAll(t, front, now).0, e, now);
    }
  }

  /** What an own batch does to its source's part depends on that part alone. */
  lemma UpsertLocal(s: Store, t: Store, events: seq<Event>, source: string, now: Instant)
    requires WellKeyed(s) && CanonicalStore(s) && WellKeyed(t) && CanonicalStore(t) && OwnEvents(events, source)
    requires BySource(s, source) == BySource(t, source)
    ensures BySource(UpsertAll(s, events, now).0, source) == BySource(UpsertAll(t, events, now).0, source)
    ensures UpsertAll(s, events, now).1 == UpsertAll(t, events, now).1
  {
    hide UpsertAll, OwnEvents, Canonical;
    var s1, t1 := UpsertAll(s, events, now).0, UpsertAll(t, events, now).0;
    forall id
      ensures id in s1 && s1[id].source == source <==> id in t1 && t1[id].source == source
      ensures id in s1 && s1[id].source == source ==> id in t1 && s1[id] == t1[id]
    {
      SameAfter(s, t, events, source, now, id);
    }
    forall i | 0 <= i < |events|
      ensures Lookup(s, events[i].id) == Lookup(t, events[i].id)
    {
      SameEntry(s, t, events, source, events[i].id);
      assert UpsertLaws.LastEntry(events, events[i].id).Some?;
    }
    SameCounts(s, t, events, now);
  }
}
