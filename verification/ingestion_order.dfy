/** The adapter order does not matter, and every row ever counted is a row in the store. */
module IngestionOrder {
  import opened Text
  import opened Calendar
  import opened Events
  import opened Reference
  import opened Retry
  import opened Ingestion
  import opened AlertRuns
  import opened IngestionLaws
  import UpsertLaws
  import SourcePriority

  /** A store of events with derived ids. */
  ghost predicate Clean(s: Store) {
    WellKeyed(s) && CanonicalStore(s)
  }

  /** The batch an adapter gets as far as storing, given its latest ingest time. */
  ghost function Delivery(latest: Option<Instant>, a: Adapter, c: Setting): Option<seq<Event>> {
    if c.incremental && a.latestRaises then None
    else match FetchResult(a, FetchWindow(latest, c.range, c.incremental), c.policy)
    case Fetched(records) =>
      if a.name !in c.registry then None
      else
        var events := NormalEvents(records, c.registry[a.name]);
        if a.fault.Some? && a.fault.value <= |events| then None else Some(events)
    case _ => None
  }

  lemma OneDelivers(s: Store, a: Adapter, c: Setting)
    ensures var (d, (t, r)) := (Delivery(LatestIngest(s, a.name), a, c), One(s, a, c));
            && (d.None? ==> r.failed && t == s)
            && (d.Some? ==> !r.failed && (t, r.counts) == UpsertAll(s, d.value, a.now))
  {
    hide UpsertAll, LatestIngest, FetchResult, FetchWindow;
  }

  lemma DeliveryIsOwn(latest: Option<Instant>, a: Adapter, c: Setting)
    requires Owns(a, c.registry) && Delivery(latest, a, c).Some?
    ensures OwnEvents(Delivery(latest, a, c).value, a.name)
  {
    hide OwnEvents, FetchWindow;
    var w := FetchWindow(latest, c.range, c.incremental);
    var i := StopAt(a.fetch(w), TransientFetch, 0, c.policy.retries);
    assert a.fetch(w)(i).Fetched?;
  }

  lemma OwnIsStorable(events: seq<Event>, source: string)
    requires OwnEvents(events, source)
    ensures Storable(events)
  {
    hide Digest;
    forall i | 0 <= i < |events| ensures events[i].id != "" {
      assert Canonical(events[i]);
      DigestHasNoColon(EventKey(events[i]));
    }
  }

  // ----- one adapter ---------------------------------------------------------------

  lemma OneKeepsClean(s: Store, a: Adapter, c: Setting)
    requires Clean(s) && Owns(a, c.registry)
    ensures Clean(One(s, a, c).0)
  {
    hide One, Delivery, Owns, WellKeyed, CanonicalStore, UpsertAll, SourcePriority.Persists;
    var latest := LatestIngest(s, a.name);
    OneDelivers(s, a, c);
    if Delivery(latest, a, c).Some? {
      var events := Delivery(latest, a, c).value;
      DeliveryIsOwn(latest, a, c);
      OwnIsStorable(events, a.name);
      UpsertAllWellKeyed(s, events, a.now);
      SourcePriority.UpsertPersists(s, events, a.now);
    }
  }

  /** An adapter changes nothing that belongs to another source. */
  lemma OneFrame(s: Store, a: Adapter, c: Setting, other: string)
    requires Clean(s) && Owns(a, c.registry) && other != a.name
    ensures BySource(One(s, a, c).0, other) == BySource(s, other)
  {
    hide One, Delivery, Owns, WellKeyed, CanonicalStore, UpsertAll, BySource, OwnEvents;
    var latest := LatestIngest(s, a.name);
    OneDelivers(s, a, c);
    if Delivery(latest, a, c).Some? {
      DeliveryIsOwn(latest, a, c);
      UpsertFrame(s, Delivery(latest, a, c).value, a.name, other, a.now);
    }
  }

  lemma SameResult(s: Store, t: Store, a: Adapter, c: Setting)
    requires LatestIngest(s, a.name) == LatestIngest(t, a.name)
    requires One(s, a, c).1.counts == One(t, a, c).1.counts
    ensures One(s, a, c).1 == One(t, a, c).1
  {
    hide UpsertAll, LatestIngest, FetchResult, FetchWindow;
  }

  lemma FailedCounts(s: Store, a: Adapter, c: Setting)
    ensures One(s, a, c).1.failed ==> One(s, a, c).1.counts == Counts(0, 0, 0)
  {
    hide UpsertAll, LatestIngest, FetchResult, FetchWindow;
  }

  /** What an adapter reports and stores depends on its own source's rows alone, in an
      incremental run too. */
  lemma OneLocal(s: Store, t: Store, a: Adapter, c: Setting)
    requires Clean(s) && Clean(t) && Owns(a, c.registry)
    requires BySource(s, a.name) == BySource(t, a.name)
    ensures BySource(One(s, a, c).0, a.name) == BySource(One(t, a, c).0, a.name)
    ensures One(s, a, c).1 == One(t, a, c).1
  {
    hide One, Delivery, Owns, WellKeyed, CanonicalStore, UpsertAll, BySource, OwnEvents;
    LatestBySource(s, t, a.name);
    var latest := LatestIngest(s, a.name);
    OneDelivers(s, a, c);
    OneDelivers(t, a, c);
    FailedCounts(s, a, c);
    FailedCounts(t, a, c);
    if Delivery(latest, a, c).Some? {
      DeliveryIsOwn(latest, a, c);
      UpsertLocal(s, t, Delivery(latest, a, c).value, a.name, a.now);
    }
    SameResult(s, t, a, c);
  }

  // ----- the whole list ------------------------------------------------------------

  ghost predicate DistinctNames(adapters: seq<Adapter>) {
    forall i, j :: 0 <= i < j < |adapters| ==> adapters[i].name != adapters[j].name
  }

  ghost predicate AllOwn(adapters: seq<Adapter>, c: Setting) {
    forall i :: 0 <= i < |adapters| ==> Owns(adapters[i], c.registry)
  }

  ghost predicate Listed(adapters: seq<Adapter>, source: string) {
    exists i :: 0 <= i < |adapters| && adapters[i].name == source
  }

  lemma {:induction false} AllKeepsClean(s: Store, adapters: seq<Adapter>, c: Setting)
    requires Clean(s) && AllOwn(adapters, c)
    ensures Clean(All(s, adapters, c).0)
  {
    hide One, RunAll, Owns, Clean;
    if adapters == [] {
      NothingRun(s, c);
    } else {
      var front, a := adapters[..|adapters| - 1], adapters[|adapters| - 1];
      assert adapters == front + [a];
      AllKeepsClean(s, front, c);
      AllSnoc(s, front, a, c);
      OneKeepsClean(All(s, front, c).0, a, c);
    }
  }

  /** A source that no adapter of the list serves keeps its rows. */
  lemma {:induction false} AllFrame(s: Store, adapters: seq<Adapter>, c: Setting, source: string)
    requires Clean(s) && AllOwn(adapters, c) && !Listed(adapters, source)
    ensures BySource(All(s, adapters, c).0, source) == BySource(s, source)
  {
    hide One, RunAll, Owns, Clean, BySource;
    if adapters == [] {
      NothingRun(s, c);
    } else {
      var front, a := adapters[..|adapters| - 1], adapters[|adapters| - 1];
      assert adapters == front + [a];
      AllFrame(s, front, c, source);
      AllSnoc(s, front, a, c);
      AllKeepsClean(s, front, c);
      OneFrame(All(s, front, c).0, a, c, source);
    }
  }

  /** Every adapter reports, and leaves for its source, exactly what it would have alone. */
  lemma {:induction false} EachAsIfAlone(s: Store, adapters: seq<Adapter>, c: Setting, i: nat)
    requires Clean(s) && AllOwn(adapters, c) && DistinctNames(adapters) && i < |adapters|
    ensures All(s, adapters, c).1[i] == One(s, adapters[i], c).1
    ensures BySource(All(s, adapters, c).0, adapters[i].name) == BySource(One(s, adapters[i], c).0, adapters[i].name)
  {
    hide One, RunAll, Owns, Clean, BySource;
    var front, a := adapters[..|adapters| - 1], adapters[|adapters| - 1];
    assert adapters == front + [a];
    AllSnoc(s, front, a, c);
    AllKeepsClean(s, front, c);
    if i < |front| {
      EachAsIfAlone(s, front, c, i);
      OneFrame(All(s, front, c).0, a, c, adapters[i].name);
    } else {
      AllFrame(s, front, c, a.name);
      OneLocal(All(s, front, c).0, s, a, c);
    }
  }

  lemma StoreBySource(s: Store, t: Store)
    requires forall n :: BySource(s, n) == BySource(t, n)
    ensures s == t
  {
    forall id ensures id in s <==> id in t ensures id in s ==> s[id] == t[id] {
      if id in s {
        assert id in BySource(s, s[id].source) && BySource(s, s[id].source)[id] == s[id];
        assert BySource(t, s[id].source)[id] == s[id];
      }
      if id in t {
        assert id in BySource(t, t[id].source);
        assert id in BySource(s, t[id].source);
      }
    }
  }

  lemma SameForSource(s: Store, xs: seq<Adapter>, ys: seq<Adapter>, c: Setting, n: string)
    requires Clean(s) && AllOwn(xs, c) && AllOwn(ys, c) && DistinctNames(xs) && DistinctNames(ys)
    requires forall a :: a in xs <==> a in ys
    ensures BySource(All(s, xs, c).0, n) == BySource(All(s, ys, c).0, n)
  {
    hide One, All, Owns, Clean, BySource;
    if Listed(xs, n) {
      var i :| 0 <= i < |xs| && xs[i].name == n;
      assert xs[i] in ys;
      var j :| 0 <= j < |ys| && ys[j] == xs[i];
      EachAsIfAlone(s, xs, c, i);
      EachAsIfAlone(s, ys, c, j);
    } else {
      forall j | 0 <= j < |ys| ensures ys[j].name != n {
        assert ys[j] in xs;
      }
      AllFrame(s, xs, c, n);
      AllFrame(s, ys, c, n);
    }
  }

  /** A full ingest is order-free: the same adapters in any order end in the same store, and each
      adapter reports the same. */
  lemma OrderFree(s: Store, xs: seq<Adapter>, ys: seq<Adapter>, c: Setting)
    requires Clean(s) && AllOwn(xs, c) && DistinctNames(xs) && DistinctNames(ys)
    requires forall a :: a in xs <==> a in ys
    ensures All(s, xs, c).0 == All(s, ys, c).0
    ensures forall i, j :: 0 <= i < |xs| && 0 <= j < |ys| && xs[i] == ys[j]
                           ==> All(s, xs, c).1[i] == All(s, ys, c).1[j]
  {
    hide One, All, Owns, Clean, BySource;
    forall j | 0 <= j < |ys| ensures Owns(ys[j], c.registry) {
      assert ys[j] in xs;
    }
    forall n ensures BySource(All(s, xs, c).0, n) == BySource(All(s, ys, c).0, n) {
      SameForSource(s, xs, ys, c, n);
    }
    StoreBySource(All(s, xs, c).0, All(s, ys, c).0);
    forall i, j | 0 <= i < |xs| && 0 <= j < |ys| && xs[i] == ys[j]
      ensures All(s, xs, c).1[i] == All(s, ys, c).1[j]
    {
      EachAsIfAlone(s, xs, c, i);
      EachAsIfAlone(s, ys, c, j);
    }
  }

  // ----- a second run --------------------------------------------------------------

  /** What an adapter delivers for the whole range names no id twice with different content. */
  ghost predicate Agrees(a: Adapter, c: Setting) {
    Delivery(None, a, c).Some? ==> UpsertLaws.OneContentPerId(Delivery(None, a, c).value)
  }

  lemma FullDelivery(latest: Option<Instant>, a: Adapter, c: Setting, later: Instant)
    requires !c.incremental
    ensures Delivery(latest, a.(now := later), c) == Delivery(None, a, c)
  {
    hide StopAt;
  }

  lemma OneTwice(s: Store, a: Adapter, c: Setting, later: Instant)
    requires !c.incremental && Agrees(a, c)
    ensures var once := One(s, a, c).0;
            var (twice, again) := One(once, a.(now := later), c);
            twice == once && again.counts == Counts(0, 0, again.counts.Total())
  {
    hide One, Delivery, UpsertAll, UpsertLaws.OneContentPerId;
    var once, b := One(s, a, c).0, a.(now := later);
    OneDelivers(s, a, c);
    OneDelivers(once, b, c);
    assert a.(now := a.now) == a;
    FullDelivery(LatestIngest(s, a.name), a, c, a.now);
    FullDelivery(LatestIngest(once, a.name), a, c, later);
    if Delivery(None, a, c).Some? {
      UpsertLaws.IdempotentExactly(s, Delivery(None, a, c).value, a.now, later);
    } else {
      FailedCounts(once, b, c);
    }
  }

  /** The same adapters answering the same, at whatever time their upserts come. */
  ghost predicate SameAdapters(xs: seq<Adapter>, ys: seq<Adapter>) {
    |xs| == |ys| && forall i :: 0 <= i < |xs| ==> ys[i] == xs[i].(now := ys[i].now)
  }

  lemma SameAdaptersOwn(xs: seq<Adapter>, ys: seq<Adapter>, c: Setting)
    requires SameAdapters(xs, ys) && AllOwn(xs, c) && DistinctNames(xs)
    ensures AllOwn(ys, c) && DistinctNames(ys)
    ensures forall n :: Listed(ys, n) ==> Listed(xs, n)
  {
    hide OwnEvents;
    forall i | 0 <= i < |ys| ensures Owns(ys[i], c.registry) && ys[i].name == xs[i].name {
      assert ys[i] == xs[i].(now := ys[i].now);
      assert Owns(xs[i], c.registry);
    }
  }

  /** Re-running a full ingest at any later times, when the sources deliver the same again, leaves
      the store as it is and reports every event unchanged. */
  lemma RerunIsUnchanged(s: Store, xs: seq<Adapter>, ys: seq<Adapter>, c: Setting)
    requires Clean(s) && AllOwn(xs, c) && DistinctNames(xs) && !c.incremental && SameAdapters(xs, ys)
    requires forall i :: 0 <= i < |xs| ==> Agrees(xs[i], c)
    ensures var (once, _) := All(s, xs, c);
            var (twice, results) := All(once, ys, c);
            && twice == once
            && forall i :: 0 <= i < |ys| ==> results[i].counts == Counts(0, 0, results[i].counts.Total())
  {
    hide One, All, Owns, Clean, BySource, Agrees;
    var once := All(s, xs, c).0;
    AllKeepsClean(s, xs, c);
    SameAdaptersOwn(xs, ys, c);
    forall i | 0 <= i < |ys|
      ensures BySource(All(once, ys, c).0, ys[i].name) == BySource(once, ys[i].name)
      ensures All(once, ys, c).1[i].counts == Counts(0, 0, All(once, ys, c).1[i].counts.Total())
    {
      var a := xs[i];
      assert ys[i] == a.(now := ys[i].now);
      EachAsIfAlone(s, xs, c, i);
      EachAsIfAlone(once, ys, c, i);
      OneKeepsClean(s, a, c);
      OneLocal(once, One(s, a, c).0, ys[i], c);
      OneTwice(s, a, c, ys[i].now);
    }
    forall n ensures BySource(All(once, ys, c).0, n) == BySource(once, n) {
      if !Listed(ys, n) {
        AllFrame(once, ys, c, n);
      }
    }
    StoreBySource(All(once, ys, c).0, once);
  }

  // ----- accounting ----------------------------------------------------------------

  /** A successful source accounts for every event it normalized, and for every record it fetched
      when its normalizer makes one event of one record. */
  lemma SuccessAddsUp(s: Store, a: Adapter, c: Setting)
    requires !One(s, a, c).1.failed
    ensures a.name in c.registry
    ensures One(s, a, c).1.normalized == One(s, a, c).1.counts.Total()
    ensures (forall r :: c.registry[a.name].one(r).Produced? ==> |c.registry[a.name].one(r).events| == 1)
            ==> One(s, a, c).1.fetched == One(s, a, c).1.normalized + One(s, a, c).1.errors
  {
    hide UpsertAll, LatestIngest, FetchWindow, NormalEvents, NormalErrors;
    var w := FetchWindow(LatestIngest(s, a.name), c.range, c.incremental);
    var records := FetchResult(a, w, c.policy).records;
    var n := c.registry[a.name];
    UpsertLaws.UpsertCounts(s, NormalEvents(records, n), a.now);
    if forall r :: n.one(r).Produced? ==> |n.one(r).events| == 1 {
      EveryRecordAccounted(records, n);
    }
  }

  function Inserted(results: seq<SourceResult>): nat {
    if results == [] then 0 else Inserted(results[..|results| - 1]) + results[|results| - 1].counts.inserted
  }

  lemma InsertedSnoc(front: seq<SourceResult>, r: SourceResult)
    ensures Inserted(front + [r]) == Inserted(front) + r.counts.inserted
  {
    assert (front + [r])[..|front|] == front;
  }

  /** The store grows by exactly the rows reported as inserted. */
  lemma {:induction false} RowsAreInserts(s: Store, adapters: seq<Adapter>, c: Setting)
    ensures |All(s, adapters, c).0| == |s| + Inserted(All(s, adapters, c).1)
  {
    hide One, RunAll, Delivery, UpsertAll;
    if adapters == [] {
      NothingRun(s, c);
    } else {
      var front, a := adapters[..|adapters| - 1], adapters[|adapters| - 1];
      assert adapters == front + [a];
      RowsAreInserts(s, front, c);
      AllSnoc(s, front, a, c);
      var s1 := All(s, front, c).0;
      InsertedSnoc(All(s, front, c).1, One(s1, a, c).1);
      OneDelivers(s1, a, c);
      FailedCounts(s1, a, c);
      if Delivery(LatestIngest(s1, a.name), a, c).Some? {
        UpsertLaws.UpsertCounts(s1, Delivery(LatestIngest(s1, a.name), a, c).value, a.now);
      }
    }
  }

  /** The store and the total of reported inserts after a history of full ingests. */
  ghost function AfterHistory(history: seq<(seq<Adapter>, Setting)>): (Store, nat) {
    if history == [] then (map[], 0)
    else
      var (s, n) := AfterHistory(history[..|history| - 1]);
      var (adapters, c) := history[|history| - 1];
      (All(s, adapters, c).0, n + Inserted(All(s, adapters, c).1))
  }

  /** Over the whole history of an initially empty store, the inserts ever reported number exactly
      the rows in it: no row is lost, none is counted twice. */
  lemma {:induction false} HistoryCountsRows(history: seq<(seq<Adapter>, Setting)>)
    ensures |AfterHistory(history).0| == AfterHistory(history).1
  {
    hide All;
    if history == [] {
    } else {
      var s := AfterHistory(history[..|history| - 1]).0;
      HistoryCountsRows(history[..|history| - 1]);
      RowsAreInserts(s, history[|history| - 1].0, history[|history| - 1].1);
    }
  }
}
