/** The ingestion engine: fetch with retry, normalize, upsert, one source at a time. */
module Ingestion {
  import opened Text
  import opened Calendar
  import opened Events
  import opened Reference
  import opened SqlTable
  import SqlRepository
  import opened Retry

  // ----- windows -------------------------------------------------------------------

  /** `_fetch_window` */
  function FetchWindow(latest: Option<Instant>, range: DateRange, incremental: bool): DateRange {
    if !incremental || latest.None? then range
    else
      var day := DateOf(latest.value);
      var narrowed := if day > range.start then day else range.start;
      DateRange(if narrowed > range.end then range.end else narrowed, range.end)
  }

  /** The window is valid, and holds exactly the requested days from the last ingest on, and the
      last requested day in any case. */
  lemma WindowExactly(latest: Option<Instant>, range: DateRange, incremental: bool, day: Date)
    requires range.Valid()
    ensures FetchWindow(latest, range, incremental).Valid()
    ensures FetchWindow(latest, range, incremental).Contains(day) <==>
            && range.Contains(day)
            && (incremental && latest.Some? ==> DateOf(latest.value) <= day || day == range.end)
  {
  }

  // ----- fetching ------------------------------------------------------------------

  datatype Raw = Raw(fields: map<string, Json>)

  datatype FetchOutcome =
    | Fetched(records: seq<Raw>)
    | Unavailable // a retryable exception
    | Broken      // any other exception

  predicate TransientFetch(o: FetchOutcome) {
    o.Unavailable?
  }

  /** A source in one run: what each attempt at each window comes to, whether the read of its latest
      ingest time or its upsert raises, and the clock reading of the upsert. */
  datatype Adapter = Adapter(
    name: string, fetch: DateRange -> (nat -> FetchOutcome),
    latestRaises: bool, fault: Option<nat>, now: Instant)

  /** The outcome that ends the retry loop. */
  function FetchResult(a: Adapter, w: DateRange, policy: Backoff): FetchOutcome {
    a.fetch(w)(StopAt(a.fetch(w), TransientFetch, 0, policy.retries))
  }

  /** `_fetch_with_retry` */
  method FetchWithRetry(a: Adapter, w: DateRange, policy: Backoff)
    returns (o: FetchOutcome, attempts: nat, slept: seq<real>)
    ensures o == FetchResult(a, w, policy)
    ensures attempts == |slept| + 1 <= policy.retries + 1 && slept == Delays(policy, |slept|)
    ensures forall i: nat :: i < attempts - 1 ==> a.fetch(w)(i).Unavailable?
    ensures o == a.fetch(w)(attempts - 1) && (o.Unavailable? ==> attempts == policy.retries + 1)
  {
    hide Delay;
    slept := [];
    var attempt := 0;
    while true
      invariant attempt <= policy.retries
      invariant StopAt(a.fetch(w), TransientFetch, 0, policy.retries)
             == StopAt(a.fetch(w), TransientFetch, attempt, policy.retries)
      invariant |slept| == attempt && slept == Delays(policy, attempt)
      invariant forall i: nat :: i < attempt ==> a.fetch(w)(i).Unavailable?
      decreases policy.retries - attempt
    {
      o := a.fetch(w)(attempt);
      if o.Unavailable? && attempt < policy.retries {
        slept := slept + [Delay(policy, attempt)];
        attempt := attempt + 1;
        continue;
      }
      return o, attempt + 1, slept;
    }
  }

  // ----- normalizing ---------------------------------------------------------------

  /** What one raw record becomes: any number of events, or a captured error. */
  datatype NormalOutcome = Produced(events: seq<Event>) | Rejected

  datatype Normalizer = Normalizer(one: Raw -> NormalOutcome)

  type Registry = map<string, Normalizer>

  function NormalEvents(records: seq<Raw>, n: Normalizer): seq<Event> {
    if records == [] then []
    else
      var front := NormalEvents(records[..|records| - 1], n);
      match n.one(records[|records| - 1])
      case Produced(events) => front + events
      case Rejected => front
  }

  function NormalErrors(records: seq<Raw>, n: Normalizer): nat {
    if records == [] then 0
    else NormalErrors(records[..|records| - 1], n) + (if n.one(records[|records| - 1]).Rejected? then 1 else 0)
  }

  /** The records that the normalizer does not reject. */
  function Accepted(records: seq<Raw>, n: Normalizer): seq<Raw> {
    if records == [] then []
    else
      var front, last := Accepted(records[..|records| - 1], n), records[|records| - 1];
      if n.one(last).Rejected? then front else front + [last]
  }

  /** `BaseNormalizer.normalize` */
  method Normalize(records: seq<Raw>, n: Normalizer) returns (events: seq<Event>, errors: nat)
    ensures events == NormalEvents(records, n) && errors == NormalErrors(records, n)
  {
    events, errors := [], 0;
    for i := 0 to |records|
      invariant events == NormalEvents(records[..i], n) && errors == NormalErrors(records[..i], n)
    {
      assert records[..i + 1][..i] == records[..i];
      var produced := n.one(records[i]);
      if produced.Rejected? {
        errors := errors + 1;
        continue;
      }
      events := events + produced.events;
    }
    assert records[..|records|] == records;
  }

  lemma NormalizeSnoc(front: seq<Raw>, last: Raw, n: Normalizer)
    ensures NormalEvents(front + [last], n)
         == if n.one(last).Rejected? then NormalEvents(front, n) else NormalEvents(front, n) + n.one(last).events
    ensures NormalErrors(front + [last], n) == NormalErrors(front, n) + (if n.one(last).Rejected? then 1 else 0)
  {
    assert (front + [last])[..|front|] == front;
  }

  /** One bad record never sinks the batch: dropping the rejected records leaves the events as they
      were, and the errors number what was dropped. */
  lemma {:induction false} RejectedCanBeDropped(records: seq<Raw>, n: Normalizer)
    ensures NormalEvents(Accepted(records, n), n) == NormalEvents(records, n)
    ensures NormalErrors(Accepted(records, n), n) == 0
    ensures NormalErrors(records, n) == |records| - |Accepted(records, n)|
  {
    if records == [] {
    } else {
      var front, last := records[..|records| - 1], records[|records| - 1];
      RejectedCanBeDropped(front, n);
      if !n.one(last).Rejected? {
        NormalizeSnoc(Accepted(front, n), last, n);
      }
    }
  }

  lemma NothingNormal(n: Normalizer)
    ensures NormalEvents([], n) == [] && NormalErrors([], n) == 0
  {
  }

  /** Normalizing a batch in two parts is normalizing it whole. */
  lemma {:induction false} NormalizeConcat(a: seq<Raw>, b: seq<Raw>, n: Normalizer)
    ensures NormalEvents(a + b, n) == NormalEvents(a, n) + NormalEvents(b, n)
    ensures NormalErrors(a + b, n) == NormalErrors(a, n) + NormalErrors(b, n)
  {
    hide NormalEvents, NormalErrors;
    if b == [] {
      assert a + b == a;
      NothingNormal(n);
    } else {
      var front, last := b[..|b| - 1], b[|b| - 1];
      NormalizeConcat(a, front, n);
      assert a + b == (a + front) + [last] && b == front + [last];
      NormalizeSnoc(a + front, last, n);
      NormalizeSnoc(front, last, n);
    }
  }

  /** One record gives its events, or one error. */
  lemma NormalizeOne(record: Raw, n: Normalizer)
    ensures NormalEvents([record], n) == match n.one(record) case Produced(events) => events case Rejected => []
    ensures NormalErrors([record], n) == match n.one(record) case Produced(_) => 0 case Rejected => 1
  {
    var none: seq<Raw> := [];
    assert [record][..0] == none;
    NothingNormal(n);
  }

  /** One record in, one event or one error out. */
  lemma {:induction false} EveryRecordAccounted(records: seq<Raw>, n: Normalizer)
    requires forall r :: n.one(r).Produced? ==> |n.one(r).events| == 1
    ensures |NormalEvents(records, n)| + NormalErrors(records, n) == |records|
  {
    if records == [] {
    } else {
      EveryRecordAccounted(records[..|records| - 1], n);
    }
  }

  // ----- one source ----------------------------------------------------------------

  datatype SourceResult = SourceResult(
    name: string, fetched: nat, normalized: nat, errors: nat, counts: Counts, failed: bool)

  ghost predicate Usable(a: Adapter, registry: Registry) {
    a.name in registry ==>
      forall w, i: nat :: a.fetch(w)(i).Fetched? ==> Storable(NormalEvents(a.fetch(w)(i).records, registry[a.name]))
  }

  /** The store and the report after running one adapter. */
  ghost function RunOne(s: Store, a: Adapter, registry: Registry, policy: Backoff, range: DateRange,
                        incremental: bool): (Store, SourceResult)
  {
    var none := Counts(0, 0, 0);
    var w := FetchWindow(LatestIngest(s, a.name), range, incremental);
    if incremental && a.latestRaises then (s, SourceResult(a.name, 0, 0, 0, none, true))
    else match FetchResult(a, w, policy)
    case Fetched(records) =>
      if a.name !in registry then (s, SourceResult(a.name, |records|, 0, 0, none, true))
      else
        var events := NormalEvents(records, registry[a.name]);
        var errors := NormalErrors(records, registry[a.name]);
        if a.fault.Some? && a.fault.value <= |events| then
          (s, SourceResult(a.name, |records|, |events|, errors, none, true))
        else
          var r := UpsertAll(s, events, a.now);
          (r.0, SourceResult(a.name, |records|, |events|, errors, r.1, false))
    case _ => (s, SourceResult(a.name, 0, 0, 0, none, true))
  }

  ghost function RunAll(s: Store, adapters: seq<Adapter>, registry: Registry, policy: Backoff, range: DateRange,
                        incremental: bool): (Store, seq<SourceResult>)
  {
    if adapters == [] then (s, [])
    else
      var (s1, rs) := RunAll(s, adapters[..|adapters| - 1], registry, policy, range, incremental);
      var (s2, r) := RunOne(s1, adapters[|adapters| - 1], registry, policy, range, incremental);
      (s2, rs + [r])
  }

  /** The fetch ends at the first attempt that is not a retryable exception, or at the last. */
  lemma FetchResultExactly(a: Adapter, w: DateRange, policy: Backoff)
    ensures exists k: nat ::
              && k <= policy.retries && FetchResult(a, w, policy) == a.fetch(w)(k)
              && (forall i: nat :: i < k ==> a.fetch(w)(i).Unavailable?)
              && (k < policy.retries ==> !a.fetch(w)(k).Unavailable?)
  {
    var k := StopAt(a.fetch(w), TransientFetch, 0, policy.retries);
    assert forall i: nat :: i < k ==> TransientFetch(a.fetch(w)(i));
    assert FetchResult(a, w, policy) == a.fetch(w)(k);
  }

  /** The report field by field: a run fails when the latest ingest time cannot be read, the fetch ends
      with an exception, there is no normalizer, or the upsert raises; the fields are those of the
      stages that were passed. */
  lemma ReportExactly(s: Store, a: Adapter, registry: Registry, policy: Backoff, range: DateRange, incremental: bool)
    ensures var (t, r) := RunOne(s, a, registry, policy, range, incremental);
            var readable := !(incremental && a.latestRaises);
            var w := if incremental then FetchWindow(LatestIngest(s, a.name), range, true) else range;
            var o := FetchResult(a, w, policy);
            var normalized := readable && o.Fetched? && a.name in registry;
            && r.name == a.name
            && r.fetched == (if readable && o.Fetched? then |o.records| else 0)
            && (!normalized ==> r.normalized == 0 && r.errors == 0 && r.failed)
            && (normalized ==>
                  var events := NormalEvents(o.records, registry[a.name]);
                  && r.normalized == |events| && r.errors == NormalErrors(o.records, registry[a.name])
                  && (r.failed <==> a.fault.Some? && a.fault.value <= |events|)
                  && (!r.failed ==> (t, r.counts) == UpsertAll(s, events, a.now)))
            && (r.failed ==> t == s && r.counts == Counts(0, 0, 0))
  {
    hide UpsertAll, NormalEvents, NormalErrors, LatestIngest, FetchResult;
  }

  class IngestionEngine {
    const repository: SqlRepository.SqlEventRepository
    const registry: Registry
    const policy: Backoff

    constructor (repository: SqlRepository.SqlEventRepository, registry: Registry, policy: Backoff)
      ensures this.repository == repository && this.registry == registry && this.policy == policy
    {
      this.repository, this.registry, this.policy := repository, registry, policy;
    }

    /** `_run_one`: the fields are filled in as far as the run gets. */
    method RunSource(a: Adapter, range: DateRange, incremental: bool) returns (result: SourceResult)
      requires repository.Valid() && range.Valid() && Usable(a, registry)
      modifies repository
      ensures repository.Valid()
      ensures (Decoded(repository.committed), result)
           == RunOne(Decoded(old(repository.committed)), a, registry, policy, range, incremental)
    {
      hide Decoded, ValidTable, UpsertAll;
      result := SourceResult(a.name, 0, 0, 0, Counts(0, 0, 0), false);
      var window := range;
      if incremental {
        if a.latestRaises {
          result := result.(failed := true);
          return;
        }
        var latest := repository.GetLatestIngestTime(a.name);
        window := FetchWindow(latest.value, range, incremental);
      }
      var outcome, _, _ := FetchWithRetry(a, window, policy);
      if !outcome.Fetched? {
        result := result.(failed := true);
        return;
      }
      result := result.(fetched := |outcome.records|);
      if a.name !in registry {
        result := result.(failed := true);
        return;
      }
      var events, errors := Normalize(outcome.records, registry[a.name]);
      result := result.(normalized := |events|, errors := errors);
      var upserted := repository.Upsert(events, a.now, a.fault);
      if upserted.RepositoryError? {
        result := result.(failed := true);
        return;
      }
      result := result.(counts := upserted.counts);
    }

    /** `run_full_ingest` */
    method RunFullIngest(adapters: seq<Adapter>, range: DateRange, incremental: bool)
      returns (results: seq<SourceResult>)
      requires repository.Valid() && range.Valid()
      requires forall i :: 0 <= i < |adapters| ==> Usable(adapters[i], registry)
      modifies repository
      ensures repository.Valid()
      ensures (Decoded(repository.committed), results)
           == RunAll(Decoded(old(repository.committed)), adapters, registry, policy, range, incremental)
    {
      hide Decoded, ValidTable, RunOne, Usable;
      results := [];
      ghost var start := Decoded(repository.committed);
      for i := 0 to |adapters|
        invariant repository.Valid()
        invariant (Decoded(repository.committed), results)
               == RunAll(start, adapters[..i], registry, policy, range, incremental)
      {
        assert adapters[..i + 1][..i] == adapters[..i];
        var result := RunSource(adapters[i], range, incremental);
        results := results + [result];
      }
      assert adapters[..|adapters|] == adapters;
    }
  }
}
