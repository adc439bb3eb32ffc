# Exchange events: a verified model

Market-calendar events (holidays, clock changes, derivatives expiries, economic releases) are
fetched from many sources, stored once per natural key, reconciled across sources and watched by
proximity rules that notify as an event comes near. This project models that pipeline in Dafny and
proves what it promises over whole runs.

How the files fit together:

- `text.dfy`, `calendar.dfy`, `ordering.dfy` — text as databases compare it, dates and instants
  with their fixed-width ISO texts, sorting by a key that tells all items apart, and stable sorting.
- `events.dfy`, `serialization.dfy`, `wire_fields.dfy` — the four event classes, natural keys and ids,
  the wire dictionary and its inverse, the content hash, and what stands under each key.
- `reference.dfy` — the in-memory repository that defines the contract. `upsert_laws.dfy` says
  what a whole batch does, independent of how it is folded, `query_laws.dfy` what a query returns.
- `sql_table.dfy`, `sql_repository.dfy`, `empty_filters.dfy` — rows with text columns beside a JSON
  blob, the statements, the repository object with its transaction, the refinement of the reference
  over every operation sequence, and exactly which filters the two read differently. `locking.dfy` —
  any number of threads, one statement at a time.
- `group_merge.dfy`, `merge_fields.dfy`, `reconciliation.dfy`, `reconciliation_laws.dfy`,
  `release_groups.dfy` — cross-source merging, field by field and release by release.
- `alert_log.dfy`, `escalation.dfy`, `alert_engine.dfy`, `rule_ids.dfy`, `alert_isolation.dfy`,
  `alert_runs.dfy`, `proximity.dfy`, `alert_grades.dfy`, `interrupted_runs.dfy`,
  `source_priority.dfy` — the alert table, the escalation loop, the rules and the engine, runs of
  evaluations with arbitrary ingests in between, the alerts in terms of what is stored, and exactly
  when each tier is notified at most once.
- `retry.dfy`, `ingestion.dfy`, `ingestion_laws.dfy`, `ingestion_order.dfy` — both retry levels,
  the ingestion engine, isolation, order-freedom and accounting.
- `value_chain.dfy`, `bls.dfy`, `bea.dfy`, `fred.dfy`, `day_scan.dfy`, `cme.dfy`, `iana.dfy` — the
  scanning loops of the adapters.
- `pipeline.dfy`, `lifetime.dfy` — the lifetime theorems: any sequence of `ingest` and `alert`
  invocations from an empty store, and the objects that run it.

A function that a loop computes is never its own witness: beside it stands a law that says in terms of
the events' own fields, or of numbers and literal texts, what comes out.

Conventions. Code that works by updating state is a class or a loop proved against a function, and
the laws are about that function. `None` of an `Option` result, `Raised` or `Error` stands for a
raised exception. A date is its proleptic Gregorian ordinal, an instant its microseconds in UTC; the
clock is an argument, read before the lock is taken as in the code. SHA-256 over a key is stood in
for by an injective encoding without colons (`Events.Digest`), SHA-256 over content by a free
constructor (`Serialization.ContentDigest`); only injectivity and, for ids, the absence of colons
are used. Failures of the outside world (a statement, a commit, a fetch attempt, an HTTP reply) are
arguments, so every theorem holds for every script of failures.

Where code and documentation part:

- `sql_repository.py:162-174` treats an empty list filter as no filter, the reference
  (`tests/fakes/repository.py:83-91`) as matching nothing. `EmptyFilters.FiltersAgreeExactly` says
  for which queries that makes no difference on any table, `SqlRepository.QueryAgreesExactly` when it
  makes none on a given one, and `EmptyFilters.EmptyTypesDiffer` shows one row on which it does.
- A negative limit or offset slices from the end in the reference, is ignored by SQLite and is an
  error in Postgres: `SqlTable.PagingAgreesExactly` gives the exact condition.
- The docstring of `_merge_group`'s caller speaks of non-`None`/non-empty values; `0.0` is a value.
- Reconciliation depends on input order when ranks tie: `ReconciliationLaws.OrderImmaterialExactly`
  gives the exact condition on a group.
- `adapters/bea.py:87` sorts by the text of the period. Between two forms of period that is month
  order exactly when the years have equally many digits and the months too
  (`Bea.SortsAsMonthsExactly`); `Bea.WrongPrevious` shows a mixed answer with a wrong `previous`.
- Re-running a batch is unchanged exactly when entries that share an id share their content
  (`UpsertLaws.IdempotentExactly`). A holiday reported once per segment does not meet this, and is
  rewritten by every run (`UpsertLaws.SegmentsNeverSettle`).
- The natural key joins its parts by colons without escaping them. Under sources without colons, two
  exchange texts can share a key exactly when one extends the other by a colon and an ISO date,
  followed by nothing or by another colon (`Events.ExchangesCollideExactly`).
- An evaluation that is interrupted by a storage error loses the notifications of the alerts it had
  already stored, since the next evaluation finds them at their severity. Repeating it makes up for
  the first exactly when none of the stored alerts was to be returned
  (`Escalation.InterruptionLosesExactly`).
- Each tier is notified at most once, and in order, exactly when the candidates of the alert id never
  climb again to a tier that they had reached (`AlertGrades.NotifiedInOrderExactly`, over any rules,
  stores and clock; `InterruptedRuns.InterruptedInOrderExactly` when evaluations are interrupted). For a proximity rule that is a condition on the grades that the days left give
  round by round (`AlertGrades.GradesInOrderExactly`). A clock that does not go back and due dates
  that never move later meet it; a due date that moves out of a tier's range and back does not
  (`AlertGrades.MovedDueNotifiesAgain`). That input comes only through a direct `upsert` of events
  with an id of the caller's own, or of expiries dated apart from their expiry date: ids are derived
  unless supplied and no normalizer supplies one, and the only normalizer that builds expiries sets
  `date` and `expiry_date` to the same day (`normalizers/exchange.py:72-79`).

## Model

| member | source | states |
|---|---|---|
| Calendar.DayNumberCivil | src/exchange_events/domain/serialization.py:43-46 | the closed day-number formula undoes counting civil dates forward one day at a time |
| Calendar.MonthsAnchored | src/exchange_events/domain/serialization.py:43-46 | the first of each month is 31, 30, 29 or 28 days after the one before, by the Gregorian rule |
| Calendar.ParseIsoDate | src/exchange_events/domain/serialization.py:43-46 | every date reads back from its `YYYY-MM-DD` text |
| Calendar.IsoDateText | src/exchange_events/domain/serialization.py:55 | the text is year, month and day in four, two and two digits between hyphens |
| Calendar.IsoDateOrder | src/exchange_events/storage/schema.py:10-11 | date texts sort exactly as dates do, so text range filters and ORDER BY are right |
| Calendar.ParseIsoInstant | src/exchange_events/domain/serialization.py:28-40 | the datetime printer and parser undo each other to the microsecond |
| Calendar.IsoInstantText | src/exchange_events/domain/serialization.py:28-34 | the text is the UTC date, `T`, hours, minutes, seconds and microseconds of that day, and `+00:00` |
| Calendar.IsoInstantOrder | src/exchange_events/storage/schema.py:10-11 | datetime texts sort exactly chronologically (the ordering claim of section 5.1 of RFC 3339) |
| Text.LessExactly | src/exchange_events/storage/schema.py:10-11 | text is compared at the first difference, by code point, a proper prefix first |
| Events.EventIdExactly | src/exchange_events/domain/ids.py:31-47 | events constructed without an id get one id exactly when they agree in source, class, exchange (None as empty), date, and the holiday name, the zone, the underlying and series, or the release code, if source and exchange have no colon |
| Events.ColonInExchangeCollides | src/exchange_events/domain/ids.py:46 | with a colon in the exchange two different keys give one text, whatever the rest |
| Events.ExchangesCollideExactly | src/exchange_events/domain/ids.py:31-47 | under colon-free sources two different exchange texts can give one key exactly when one is the other, a colon and an ISO date, followed by nothing or by another colon |
| Events.AlertIdDeterminesPair | src/exchange_events/domain/ids.py:50-60 | an alert id determines rule and event although rule ids contain colons, because event ids do not |
| Serialization.RoundTrip | src/exchange_events/domain/serialization.py:64-164 | `deserialize_event(serialize_event(e))` is `e` for every event of all four classes |
| Serialization.SerializeInjective | src/exchange_events/domain/serialization.py:64-104 | different events have different wire forms |
| WireFields.DeserializeMeans | src/exchange_events/domain/serialization.py:107-164 | whatever dictionary is read, each field of the event is what stands under its own key, with the default of a missing or null one, and a missing id is derived |
| WireFields.OptionalMayBeMissing | src/exchange_events/domain/serialization.py:107-164 | a serialized event is still read when any of the seventeen optional keys are missing |
| Serialization.HashIsContent | src/exchange_events/storage/sql_repository.py:43-49 | content hashes are equal exactly when the events agree in every field but the two repository-managed timestamps |
| Reference.FakeEventRepository.Upsert | tests/fakes/repository.py:40-57 | the loop computes `UpsertAll`, whose store and three counts UpsertClosedForm and UpsertCountsExactly give |
| Reference.FakeEventRepository.RunQuery | tests/fakes/repository.py:59-68 | the loop computes `Query`, which the three laws below give event by event |
| QueryLaws.ResultIsStored | tests/fakes/repository.py:66-67 | each result is a stored event as it stands when metadata is asked for, and with empty metadata and no other change when it is not |
| QueryLaws.ResultsExactly | tests/fakes/repository.py:59-96 | without paging the ids are those of the stored events that every given filter admits, each once, by date and then id |
| QueryLaws.QueryPageExactly | tests/fakes/repository.py:62-65 | any page, forward or backward, is the run of the full result that offset and limit mark |
| UpsertLaws.ReadYourWrites | tests/fakes/repository.py:70-71 | after a batch, looking an id up finds the content of its last entry there, and for any other id what was stored before |
| Reference.FakeEventRepository.GetLatestIngestTime | tests/fakes/repository.py:73-79 | the greatest ingest time of the source, none when it has no row |
| Reference.UpsertAllWellKeyed | tests/fakes/repository.py:40-57 | every stored event stays under its own id and stamped, through any batch |
| UpsertLaws.UpsertClosedForm | src/exchange_events/storage/sql_repository.py:81-113 | under each id a batch leaves its last entry, with the first ingest time kept, or the old event when every entry had its content |
| UpsertLaws.UpsertKeys | src/exchange_events/storage/sql_repository.py:81-156 | the stored ids afterwards are the old ones and the batch's; no row disappears |
| UpsertLaws.UpsertCounts | src/exchange_events/storage/sql_repository.py:82-113 | inserted numbers the distinct new ids, the counts add up to the batch, and the store grows by inserted |
| UpsertLaws.UpsertCountsExactly | src/exchange_events/storage/sql_repository.py:87-106 | inserted, updated and unchanged number the entries that find nothing, other content, or their own content under their id, in the batch before them or else in the store |
| UpsertLaws.UnchangedExactlyWhenHeld | src/exchange_events/storage/sql_repository.py:100-101 | a batch is reported unchanged throughout exactly when the store already holds all of it, and then nothing is written |
| UpsertLaws.IdempotentExactly | src/exchange_events/storage/sql_repository.py:5-9 | a second run is unchanged throughout, and leaves the store alone, exactly when entries sharing an id share their content |
| UpsertLaws.SegmentsNeverSettle | src/exchange_events/adapters/nse.py:69-85 | two holidays that differ only in segments share a derived id, and every further run writes both again |
| UpsertLaws.IngestTimeNeverChanges | src/exchange_events/storage/sql_repository.py:103-105 | the first insert fixes the ingest time for good |
| UpsertLaws.LatestNeverDecreases | src/exchange_events/storage/sql_repository.py:213-227 | the latest ingest time of a source never goes back, whatever the clock does, when ids keep their sources |
| SqlTable.WriteProjects | src/exchange_events/storage/sql_repository.py:115-138 | the row written is the projection of the stamped event: every column and the hash agree with `data` |
| SqlTable.UpsertOneRefines | src/exchange_events/storage/sql_repository.py:87-106 | SELECT then INSERT, nothing or UPDATE keeps the row invariant and is the reference's step on the decoded events |
| SqlTable.UpsertAllRefines | src/exchange_events/storage/sql_repository.py:87-107 | a whole batch never raises of itself, keeps the row invariant, and has the reference's store and counts |
| SqlTable.WhereRefines | src/exchange_events/storage/sql_repository.py:160-180 | the text conditions select a row exactly when the reference's filters select its event |
| SqlTable.SortMirrors | src/exchange_events/storage/sql_repository.py:181 | ordering rows by two texts mirrors ordering events by date and id |
| SqlTable.PageRefines | src/exchange_events/storage/sqlite_repository.py:34-38 | LIMIT and OFFSET, with SQLite's LIMIT -1, slice as the reference does for every forward page |
| SqlTable.PagingAgreesExactly | src/exchange_events/storage/sql_repository.py:66-75 | paging agrees with the reference on all results exactly for forward pages and, on SQLite, for the empty page |
| SqlTable.QueryRefines | src/exchange_events/storage/sql_repository.py:159-197 | a query returns what the reference returns, in the same order, for the query without its empty lists |
| SqlTable.MaxRefines | src/exchange_events/storage/sql_repository.py:213-227 | MAX over the text column parses to the greatest ingest time |
| SqlRepository.StepRefines | src/exchange_events/storage/sql_repository.py:81-227 | each operation, failing batches included, is one step of the reference on the decoded events |
| SqlRepository.FailedBatchLeavesNothing | src/exchange_events/storage/sql_repository.py:107-110 | whichever statement of a batch raises, or its commit, the call raises and changes nothing |
| SqlRepository.RunRefines | src/exchange_events/storage/sql_repository.py:81-227 | over every operation sequence the replies and the final events are the reference's |
| SqlRepository.RunAgrees | tests/fakes/repository.py:1-11 | from an empty table, with list filters absent or non-empty, the two repositories are indistinguishable |
| SqlRepository.QueryEmptyExactly | tests/fakes/repository.py:59-68 | a forward page is empty exactly when nothing matches, the limit is zero, or the offset is beyond the matches |
| SqlRepository.QueryAgreesExactly | tests/fakes/repository.py:82-96 | with an empty list filter the two agree on a table exactly when nothing in it matches the other filters, the limit is zero, or the offset is beyond the matches |
| EmptyFilters.FiltersAgreeExactly | src/exchange_events/storage/sql_repository.py:162-176 | the two agree on every table exactly when no list filter is empty, or the limit is zero, or the other filters are contradictory |
| EmptyFilters.EmptyTypesDiffer | src/exchange_events/storage/sql_repository.py:162 | one row and an empty list of types: SQL finds the row, the reference nothing |
| SqlRepository.PagesConcatenate | src/exchange_events/storage/sql_repository.py:181-184 | consecutive pages of any sizes concatenate to the full result |
| SqlRepository.SqlEventRepository.WriteOne | src/exchange_events/storage/sql_repository.py:88-106 | one SELECT and at most one write, on the open transaction only |
| SqlRepository.SqlEventRepository.Upsert | src/exchange_events/storage/sql_repository.py:81-113 | a batch is committed as the reference's batch with its counts, or rolled back as a whole when any statement or the commit raises |
| SqlRepository.SqlEventRepository.BuildWhere | src/exchange_events/storage/sql_repository.py:160-176 | one condition for each filter that is set, in order |
| SqlRepository.SqlEventRepository.RunQuery | src/exchange_events/storage/sql_repository.py:159-197 | a forward page is the reference's `Query` on the committed events, which QueryLaws gives event by event |
| SqlRepository.SqlEventRepository.Get | src/exchange_events/storage/sql_repository.py:199-211 | the committed event under the id, decoded, or none |
| SqlRepository.SqlEventRepository.GetLatestIngestTime | src/exchange_events/storage/sql_repository.py:213-227 | the greatest ingest time of the source among committed events |
| Locking.StepKeeps | src/exchange_events/storage/sql_repository.py:84-112 | every step of every thread keeps: one thread inside, the open transaction a prefix of its batch, committed state and replies those of a serial run |
| Locking.WriteNeverBlocked | src/exchange_events/storage/sql_repository.py:89-106 | what a SELECT saw still holds when its write comes: no INSERT finds its id taken and no UPDATE lacks a prior ingest time |
| Locking.NobodyIsStuck | src/exchange_events/storage/sql_repository.py:84-112 | whoever is in a call can take a step that does not raise, or the holder of the lock can |
| Locking.EveryInterleavingIsSerial | src/exchange_events/storage/sql_repository.py:84-225 | any interleaving of any number of threads: at most one inside, replies and committed events those of the reference run in lock order, raised batches and raised reads without effect |
| GroupMerge.RankedAscends | src/exchange_events/domain/reconciliation.py:104 | the stable sort orders a group by source priority |
| GroupMerge.RankedMultiset | src/exchange_events/domain/reconciliation.py:104 | the stable sort neither drops nor invents an event |
| GroupMerge.MergeGroup | src/exchange_events/domain/reconciliation.py:98-138 | the field loop computes `Merged`; which value wins each field is MergedField |
| GroupMerge.BestIsBest | src/exchange_events/domain/reconciliation.py:107-112 | no event with the field filled outranks the winner of the field |
| GroupMerge.BestIsEarliest | src/exchange_events/domain/reconciliation.py:104-112 | among equally ranked events the earliest in the group wins |
| GroupMerge.RankedFirstIsBest | src/exchange_events/domain/reconciliation.py:104-112 | walking the sorted group finds the winner of the one-pass definition |
| GroupMerge.MergedField | src/exchange_events/domain/reconciliation.py:107-138 | each merged field is its winner's value, and a gap only when every source has a gap |
| MergeFields.MergedFieldsExactly | src/exchange_events/domain/reconciliation.py:107-138 | each of the eight fields by name: the value of the best-ranked source that has one, the earliest event among equals; zero is a value, None and "" are gaps |
| MergeFields.MergedBaseExactly | src/exchange_events/domain/reconciliation.py:98-138 | a single event stays as it is; of several the earliest of the best-ranked gives everything else, and the metadata gains the sorted list of all sources |
| MergeFields.DefaultRanks | src/exchange_events/domain/reconciliation.py:38-48 | the six named sources rank in their order and any other source after them |
| Reconciliation.ReconcileEconomicReleases | src/exchange_events/domain/reconciliation.py:62-95 | the grouping and output loops compute `Reconciled`, which ReleasesExactly and ReconciledParts give |
| ReconciliationLaws.OrderIsFirstOccurrence | src/exchange_events/domain/reconciliation.py:69-70 | the output follows first occurrence in the input and leaves out no event and no release |
| ReconciliationLaws.ReconciledParts | src/exchange_events/domain/reconciliation.py:79-95 | other events come out untouched and in order; each release comes out exactly once, as the merge of its whole group |
| ReleaseGroups.ReleasesExactly | src/exchange_events/domain/reconciliation.py:84-95 | for every code and date there is one output, the merge of all inputs with that code and date, or none without such an input |
| ReleaseGroups.OneOutputPerRelease | src/exchange_events/domain/reconciliation.py:84-95 | the same code and date pairs come out as went in, no two outputs share one, and the release outputs number the distinct pairs |
| ReconciliationLaws.OrderLength | src/exchange_events/domain/reconciliation.py:89-95 | the output has one event per non-release and one per distinct release |
| ReconciliationLaws.Idempotent | src/exchange_events/domain/reconciliation.py:62-95 | reconciling twice is reconciling once |
| ReconciliationLaws.MergePermutation | src/exchange_events/domain/reconciliation.py:98-138 | a settled group (one event of least rank, and per field agreement of the best-ranked events that have it) merges the same in every order |
| ReconciliationLaws.OrderInsensitive | src/exchange_events/domain/reconciliation.py:62-95 | any reordering of the input gives the same other events and releases, and the same merged event for every settled group |
| ReconciliationLaws.DistinctRanksSettle | src/exchange_events/domain/reconciliation.py:104-112 | a group without ties in rank is settled |
| ReconciliationLaws.OrderImmaterialExactly | src/exchange_events/domain/reconciliation.py:98-138 | for any group of events with distinct ids, all orders merge alike exactly when the group is settled |
| ReconciliationLaws.TieDependsOnOrder | src/exchange_events/domain/reconciliation.py:104-105 | for two events of a release the order is immaterial exactly when their ranks differ |
| ReconciliationLaws.MergedIdentity | src/exchange_events/domain/reconciliation.py:104-119 | the merged event has the id, source, date and code of a best-ranked member |
| ReconciliationLaws.IdsStayDistinct | src/exchange_events/domain/reconciliation.py:118-119 | distinct ids stay distinct |
| AlertLog.RowRoundTrip | src/exchange_events/storage/alert_log.py:76-85 | a stored alert reads back as it was |
| AlertLog.UpsertRowRefines | src/exchange_events/storage/alert_log.py:69-74 | keeping the rule and event columns on conflict loses nothing: the log maps the id to the new alert |
| AlertLog.SqlAlertLog.Get | src/exchange_events/storage/alert_log.py:47-61 | the stored alert of the id, or none |
| AlertLog.SqlAlertLog.Upsert | src/exchange_events/storage/alert_log.py:63-92 | exactly the one id's alert is replaced, or nothing when the statement or the commit raises |
| Escalation.ReturnedIsRise | src/exchange_events/alerting/engine.py:91-96 | returned exactly when the new rank exceeds the stored one, absent counting as INFO |
| Escalation.ProcessConcat | src/exchange_events/alerting/engine.py:88-97 | evaluating twice is processing the concatenated candidates |
| Escalation.Locality | src/exchange_events/alerting/engine.py:88-97 | what is stored and returned under an id depends on that id's candidates alone |
| Escalation.StoredIsLast | src/exchange_events/alerting/engine.py:94 | the stored alert is the last candidate of the id |
| Escalation.InterruptionLoses | src/exchange_events/alerting/engine.py:89-97 | a pass interrupted by a raising log loses exactly the notifications of the candidates it had stored |
| Escalation.InterruptionLosesExactly | src/exchange_events/alerting/engine.py:89-97 | repeating the pass returns just what was fresh beyond the interruption, so it makes up for the first exactly when no stored candidate was to be returned |
| Escalation.Potential | src/exchange_events/alerting/engine.py:90-97 | returns plus the initial rank never exceed the final rank plus all drops |
| Escalation.ReturnsBounded | src/exchange_events/alerting/engine.py:90-97 | for any rules and history an id is returned at most 2 + (total drops of its stored rank) times |
| Escalation.BoundIsMet | src/exchange_events/alerting/engine.py:90-97 | a history that falls back to INFO and rises again meets that bound |
| Escalation.RisingReturns | src/exchange_events/alerting/engine.py:90-97 | when an id's candidates never fall, its returns strictly rise and the last one is what is stored |
| Escalation.ReturnsRiseExactly | src/exchange_events/alerting/engine.py:90-97 | the returns of one id strictly rise exactly when its candidates never climb again to a rank that they had reached |
| Escalation.InOrderExactly | src/exchange_events/alerting/engine.py:90-97 | in any stream of candidates, an id is returned at most once per tier and in order exactly when its own candidates meet that condition |
| AlertEngine.EvaluateHolidayRule | src/exchange_events/alerting/rules/holiday_proximity.py:28-49 | the loop computes the rule's alerts, all INFO and none past |
| AlertEngine.EvaluateDstRule | src/exchange_events/alerting/rules/dst_shift_proximity.py:26-39 | the loop computes the rule's alerts: CRITICAL up to the critical days before, WARNING from there up to the warning days before, INFO earlier |
| AlertEngine.EvaluateExpiryRule | src/exchange_events/alerting/rules/expiry_proximity.py:38-48 | the loop computes the rule's alerts: WARNING up to the warning days before the expiry date, INFO earlier |
| AlertEngine.EvaluateReleaseRule | src/exchange_events/alerting/rules/economic_release_proximity.py:41-54 | the loop computes the rule's alerts, graded like clock changes by the two thresholds |
| AlertEngine.WindowFromStore | src/exchange_events/alerting/engine.py:78 | every windowed event stands for a stored one of the same id, source, date and class |
| AlertEngine.AlertEngine.LoadWindow | src/exchange_events/alerting/engine.py:68-78 | the reconciled reference query of the window |
| AlertEngine.AlertEngine.Collect | src/exchange_events/alerting/engine.py:81-86 | all candidates in rule order, none from a rule that raised |
| AlertEngine.AlertEngine.Escalate | src/exchange_events/alerting/engine.py:88-97 | the log and the returned list are those of `Interrupted`: all of `Process`, or the stored prefix and no list when the log raises |
| AlertEngine.AlertEngine.Evaluate | src/exchange_events/alerting/engine.py:52-97 | one evaluation is that pass over the candidates of the reconciled window; when the query raises the log is untouched |
| AlertIsolation.RaisingIsAbsent | src/exchange_events/alerting/engine.py:82-86 | a rule that raises leaves the candidates of all others exactly as without it |
| AlertIsolation.RulesAreIsolated | src/exchange_events/alerting/engine.py:82-97 | whatever one rule does, every other rule's alerts are stored and returned as if it were not configured |
| RuleIds.RuleIdExactly | src/exchange_events/alerting/rules/economic_release_proximity.py:38-39 | two proximity rules share an id exactly when they are of one kind with equal thresholds |
| Proximity.AlertsExactly | src/exchange_events/alerting/rules/dst_shift_proximity.py:28-39 | a rule alerts for exactly the events of its class that it tracks and whose day has not passed; event, time, ids and grade are given by fields and numbers |
| Proximity.StoredAlertsExactly | src/exchange_events/alerting/engine.py:68-86 | over the window of a store, the holiday, clock change and expiry alerts are exactly those for the stored events dated in it |
| Proximity.OneAlertPerRelease | src/exchange_events/alerting/rules/economic_release_proximity.py:41-54 | however many sources report a release, there is exactly one alert for its code and date while it is stored, tracked and not past, graded by the days left, and otherwise none |
| Proximity.CandidatesConcat | src/exchange_events/alerting/engine.py:81-86 | the candidates come rule by rule, in order |
| Proximity.CandidatesOfOne | src/exchange_events/alerting/engine.py:82-86 | a rule contributes its alerts, a raising one none |
| Proximity.ReturnedGraded | src/exchange_events/alerting/engine.py:67-97 | over any run, interrupted or not, every returned alert of a proximity rule is graded by the days left when it was triggered |
| AlertRuns.RunIsProcess | src/exchange_events/alerting/engine.py:52-97 | a run of evaluations stores what one pass over all stored candidates stores and returns a part of what that pass returns, all of it when no evaluation was interrupted |
| AlertRuns.HistoryRises | src/exchange_events/alerting/rules/dst_shift_proximity.py:31-39 | under a clock that never goes back, with due dates that never move later, the candidates of one rule and event never fall in severity |
| AlertRuns.NotifiedOncePerTier | src/exchange_events/alerting/engine.py:67-97 | over any such run, interrupted or not: at most one WARNING and one CRITICAL per rule and event, in order, never after the date; stored CRITICAL whenever returned CRITICAL, and only then without interruptions; holidays never returned, expiries never CRITICAL |
| AlertGrades.NotifiedInOrderExactly | src/exchange_events/alerting/engine.py:67-97 | over any complete evaluations, with any rules, stores and clock, an alert id is notified at most once per tier and in order exactly when its candidates never climb again to a tier that they had reached |
| AlertGrades.GradesInOrderExactly | src/exchange_events/alerting/rules/expiry_proximity.py:38-48 | for a proximity rule the condition is on days left alone: no round grades the event above the round before it at a tier that an earlier round had reached |
| AlertGrades.WatchedNeverReclimbs | src/exchange_events/alerting/rules/dst_shift_proximity.py:31-39 | a clock that never goes back and due dates that never move later meet that condition |
| AlertGrades.MovedDueNotifiesAgain | src/exchange_events/alerting/rules/expiry_proximity.py:43-48 | an expiry upserted under an id of its own, moved a day out of the warning range and back: three evaluations of the stores, two WARNINGs |
| InterruptedRuns.RunTells | src/exchange_events/alerting/engine.py:88-97 | a run returns exactly the candidates that rise above what is stored in an evaluation that ends |
| InterruptedRuns.InterruptedInOrderExactly | src/exchange_events/alerting/engine.py:67-97 | whichever evaluations are interrupted, an alert id is notified at most once per tier and in order exactly when no evaluation that ends raises it to a tier to which an earlier one had raised it |
| InterruptedRuns.InterruptedInOrder | src/exchange_events/alerting/engine.py:67-97 | interruptions only take notifications away: candidates that never climb again still suffice |
| AlertRuns.CanonicalFixesDue | src/exchange_events/domain/ids.py:31-47 | with derived ids an event id always means one due date, so the run theorems apply |
| AlertRuns.AlertsPerRelease | src/exchange_events/alerting/engine.py:78-97 | over any run a real release is alerted at most twice per distinct event id ever stored for it |
| SourcePriority.UpsertPersists | src/exchange_events/storage/sql_repository.py:81-156 | an ingest deletes no event and moves none to another source, date or release |
| SourcePriority.WindowKeepsBest | src/exchange_events/domain/reconciliation.py:104-119 | no stored source outranks the one whose event stands for a release in the window |
| SourcePriority.LowNeverSeen | src/exchange_events/domain/reconciliation.py:104-119 | once a higher-ranked source has reported a release, the window never again shows a lower-ranked source's event of it |
| SourcePriority.HigherSilencesLower | src/exchange_events/alerting/engine.py:78-86 | once a higher-ranked source has reported a release, no proximity rule makes an alert for a lower-ranked source's event of it |
| SourcePriority.NoCandidates | src/exchange_events/alerting/engine.py:78-86 | from then on the engine meets no candidate under the lower-ranked event's alert id |
| SourcePriority.SilencedForGood | src/exchange_events/alerting/engine.py:78-97 | from then on the lower-ranked event's stored alert never changes and nothing is returned for it |
| Retry.DelayDoubles | src/exchange_events/ingestion/retry.py:23-25 | the first delay is the capped base, each further one the capped double of the one before |
| Retry.DelaysBounded | src/exchange_events/ingestion/retry.py:23-25 | delays never shrink, never exceed the cap, and sum to at most n·cap and base·(2^n − 1) |
| Retry.SleepWithinBudget | src/exchange_events/ingestion/retry.py:23-25 | however many of the allowed retries are used, the sleep stays within both bounds for all of them |
| Retry.Request | src/exchange_events/infra/http.py:102-131 | every try before the last got a network error or 429, 500, 502, 503 or 504, the last got neither or was the last allowed; requests sent and delays slept are exactly those |
| Retry.TotalConcat | src/exchange_events/infra/http.py:99-131 | the time slept is the sum of the delays |
| Retry.FetchOverHttp | src/exchange_events/adapters/base.py:52-65 | both retry levels together, for every script of replies: success exactly when some attempt gets a success status with a JSON body, no attempt after it, and exactly the requests and sleeps of the attempts made |
| Retry.SucceedsExactly | src/exchange_events/adapters/base.py:52-65 | an attempt succeeds exactly when one of its allowed tries gets a 2xx status with a JSON body after transient replies only |
| Retry.AttemptCost | src/exchange_events/infra/http.py:102-131 | each attempt adds its tries to the requests and the delays between them to the time slept |
| Retry.RequestsBounded | src/exchange_events/ingestion/engine.py:136-157 | at most (R+1)(H+1) requests |
| Retry.SleepWithinCaps | src/exchange_events/infra/http.py:99-131 | the time slept over both levels is at most R·cap + (R+1)·H·cap' |
| Retry.SleepWithinDoubling | src/exchange_events/infra/http.py:99-131 | and at most base·(2^R − 1) + (R+1)·base'·(2^H − 1) |
| Ingestion.WindowExactly | src/exchange_events/ingestion/engine.py:123-134 | the narrowed window is valid and holds exactly the requested days from the last ingest on, and the last requested day in any case |
| Ingestion.FetchWithRetry | src/exchange_events/ingestion/engine.py:136-157 | every attempt before the last raised a retryable exception, the last did not or was the R+1st; the delays are exactly the policy's |
| Ingestion.FetchResultExactly | src/exchange_events/ingestion/engine.py:136-157 | the outcome is that of the first attempt that raises nothing retryable, or of the last |
| Ingestion.Normalize | src/exchange_events/normalizers/base.py:20-46 | the loop computes `NormalEvents` and `NormalErrors`, which the three laws below give |
| Ingestion.NormalizeOne | src/exchange_events/normalizers/base.py:26-45 | one record gives all its events, or one error |
| Ingestion.RejectedCanBeDropped | src/exchange_events/normalizers/base.py:25-46 | without the rejected records the batch gives the same events and no error, and the errors number the records dropped |
| Ingestion.NormalizeConcat | src/exchange_events/normalizers/base.py:25-46 | a batch normalized in two parts gives the events in order and the errors of the whole |
| Ingestion.EveryRecordAccounted | src/exchange_events/normalizers/base.py:25-46 | with one event per good record, events and errors number the records |
| Ingestion.ReportExactly | src/exchange_events/ingestion/engine.py:75-121 | field by field: what is fetched, normalized, rejected and stored at each stage, and that a run fails exactly when the latest time, the fetch, the registry or the upsert fails |
| Ingestion.IngestionEngine.RunSource | src/exchange_events/ingestion/engine.py:75-121 | the store and the report are those of `RunOne`, whether the latest-ingest read, the fetch, the registry or the upsert fails |
| Ingestion.IngestionEngine.RunFullIngest | src/exchange_events/ingestion/engine.py:42-59 | the store and the reports are those of running the adapters one after the other, each upsert at its own clock reading |
| IngestionLaws.FailureLeavesStore | src/exchange_events/ingestion/engine.py:116-118 | a source that fails leaves the store as it found it |
| IngestionLaws.FailuresCanBeDropped | src/exchange_events/ingestion/engine.py:53-56 | failing adapters can be dropped from the list: same store, same reports of the others |
| IngestionLaws.UpsertFrame | src/exchange_events/storage/sql_repository.py:81-156 | a source's own batch changes no row of another source |
| IngestionLaws.UpsertLocal | src/exchange_events/storage/sql_repository.py:81-156 | what an own batch does to its source's rows, and its counts, depend on those rows alone |
| IngestionOrder.OneLocal | src/exchange_events/ingestion/engine.py:75-134 | an adapter's report and its source's rows depend on that source's rows alone, incremental windows included |
| IngestionOrder.EachAsIfAlone | src/exchange_events/ingestion/engine.py:53-56 | every adapter of a full ingest reports, and leaves for its source, what it would have alone |
| IngestionOrder.OrderFree | src/exchange_events/ingestion/engine.py:42-59 | the same adapters in any order end in the same store with the same reports |
| IngestionOrder.RerunIsUnchanged | src/exchange_events/ingestion/engine.py:49-50 | a full run over the same deliveries at any other times reports everything unchanged and leaves the store alone |
| IngestionOrder.SuccessAddsUp | src/exchange_events/ingestion/engine.py:88-106 | on success normalized = inserted + updated + unchanged, and fetched = normalized + errors for one-record-one-event normalizers |
| IngestionOrder.RowsAreInserts | src/exchange_events/ingestion/engine.py:103-106 | the store grows by exactly the rows reported as inserted |
| IngestionOrder.HistoryCountsRows | src/exchange_events/ingestion/report.py:20-37 | over the whole history the reported inserts number exactly the rows |
| ValueChain.PreviousIsLatestEarlier | src/exchange_events/adapters/bls.py:108-130 | every record's previous value is the latest earlier non-empty value of the series, inside the window or not |
| ValueChain.EveryReadingLinked | src/exchange_events/adapters/bls.py:114-129 | no dated observation of the window is dropped |
| ValueChain.PreviousIsLatestBefore | src/exchange_events/adapters/bls.py:106-130 | in date order that is the value of the latest earlier date that has one |
| Bls.MonthExactly | src/exchange_events/adapters/bls.py:55 | a period names a month exactly when it is one of the twelve formatted table keys |
| Bls.LookupIsLast | src/exchange_events/adapters/bls.py:99-104 | a series belongs to the last code configured for it, and is skipped exactly when there is none |
| Bls.WalkSeries | src/exchange_events/adapters/bls.py:105-130 | the inner loop skips non-monthly rows, raises on a bad year, and links the rest |
| Bls.RecordsFromRows | src/exchange_events/adapters/bls.py:105-129 | each record comes from a monthly row of the answer with its first of the month in the window, every field that row's or the series' own |
| Bls.RowsHaveRecords | src/exchange_events/adapters/bls.py:105-129 | each monthly row with its first of the month in the window has its record |
| Bls.RaisesExactly | src/exchange_events/adapters/bls.py:99-113 | a known series raises exactly when a row names a month but no year from 1 to 9999; an unknown one has no records |
| Bls.RecordsConcat | src/exchange_events/adapters/bls.py:98-131 | the series of an answer come one after the other |
| Bls.Parse | src/exchange_events/adapters/bls.py:94-131 | the outer loop computes `Records`, unknown series skipped |
| Bls.WindowIsFilter | src/exchange_events/adapters/bls.py:94-131 | parsing with a window is parsing everything and then keeping the window, raising included |
| Bls.PreviousMonth | src/exchange_events/adapters/bls.py:106-130 | in a newest-first answer each previous value is that of the latest earlier month that has one |
| Bea.Parse | src/exchange_events/adapters/bea.py:80-113 | the loop over the sorted line computes `Records`, undated rows skipped |
| Bea.RecordsFromRows | src/exchange_events/adapters/bea.py:86-111 | each record comes from a dated row of the configured line in the window, every field that row's or the table's own, its value without commas |
| Bea.RowsHaveRecords | src/exchange_events/adapters/bea.py:86-111 | each dated row of that line in the window has its record |
| Bea.WindowIsFilter | src/exchange_events/adapters/bea.py:80-113 | parsing with a window is parsing everything and then keeping the window |
| Bea.PeriodOrder | src/exchange_events/adapters/bea.py:116-125 | periods of one year width and one month width sort exactly as their months do |
| Bea.SortsAsMonthsExactly | src/exchange_events/adapters/bea.py:87 | two forms of period sort as their months do exactly when both widths agree |
| Bea.DatedHasWidths | src/exchange_events/adapters/bea.py:116-125 | every period that parses has such widths, neither of them zero |
| Bea.WrongPrevious | src/exchange_events/adapters/bea.py:87-112 | June and October without padding: October comes out without June's value, and June with October's |
| Bea.OrderInsensitive | src/exchange_events/adapters/bea.py:86-113 | the order of the rows in the answer does not matter when each dated period has one row, whatever the periods' form |
| Bea.PreviousMonth | src/exchange_events/adapters/bea.py:86-113 | when dated periods are of one form, each previous value is that of the latest earlier month of the answer that has one, whatever its order |
| Fred.Parse | src/exchange_events/adapters/fred.py:115-138 | the loop links the observations with "." and "" passed over |
| Fred.EveryObservation | src/exchange_events/adapters/fred.py:115-138 | one record an observation, in order, field by field: the value unless it is ".", "" or missing, and the latest value published before |
| Fred.FetchSeries | src/exchange_events/adapters/fred.py:106-112 | the observations, then the scheduled dates that they do not cover |
| Fred.ScheduleFillsGaps | src/exchange_events/adapters/fred.py:108-112 | observed records come first and untouched, no scheduled record falls on an observed date, and no observed or scheduled date is lost |
| Fred.ScheduleConcat | src/exchange_events/adapters/fred.py:106-112 | scheduled dates are added one after the other |
| Cme.WeekdaysAnchored | src/exchange_events/adapters/cme.py:97 | the weekday count has 2026-09-07 on a Monday and steps by one a day |
| Cme.FetchHolidays | src/exchange_events/adapters/cme.py:197-220 | the day loop computes the records of `Holidays`, none for an empty schedule |
| Cme.HolidaysExactly | src/exchange_events/adapters/cme.py:200-219 | strictly increasing, exactly the weekdays of the request without a session, strictly between the schedule's first and last date |
| Cme.RecordsExactly | src/exchange_events/adapters/cme.py:204-219 | one record a holiday, in order, with its own date, the group as segment, and both in the id |
| Cme.WeekdaysAddUp | src/exchange_events/adapters/cme.py:202-219 | holidays and trading weekdays together are all weekdays of the scanned days |
| Cme.AdjacentRequests | src/exchange_events/adapters/cme.py:202-219 | requests that follow each other find the holidays of the joined request, each once |
| Iana.TransitionsForZone | src/exchange_events/adapters/iana.py:69-92 | the day loop computes `Scan`, and raises exactly at the ends of the calendar |
| Iana.EmitsExactlyChanges | src/exchange_events/adapters/iana.py:76-91 | records in order for exactly the days whose offset differs from the day before |
| Iana.ScanRecords | src/exchange_events/adapters/iana.py:76-91 | the record of a change gives the zone, its region, the date, the offsets before and after, and whether the clock went forward |
| Iana.RegionExactly | src/exchange_events/adapters/iana.py:73 | the region is the part of the zone before the first slash |
| Iana.AdjacentScans | src/exchange_events/adapters/iana.py:69-92 | scanning two adjacent ranges is scanning their union |
| Iana.ReplayReproduces | src/exchange_events/adapters/iana.py:76-91 | replaying the records from the offset before the range gives the printed offset of every day |
| Iana.RecordsDetermineZone | src/exchange_events/adapters/iana.py:69-92 | for whole-minute offsets the records determine the offset of every day |
| Iana.FormatOffsetReads | src/exchange_events/adapters/iana.py:35-40 | the printed offset reads back as the offset cut to whole minutes towards zero |
| Iana.FormatOffsetShape | src/exchange_events/adapters/iana.py:35-40 | hours are not padded, minutes have two digits and are left out when zero |
| Iana.FormatOffsetExactly | src/exchange_events/adapters/iana.py:35-40 | two offsets print alike exactly when they agree in sign and in whole minutes |
| Iana.FormatOffsetInjective | src/exchange_events/adapters/iana.py:35-40 | on whole-minute offsets the text is faithful |
| Iana.OddSecondsCollide | src/exchange_events/adapters/iana.py:35-40 | an offset with odd seconds prints like the whole minutes next to zero |
| Pipeline.AllPersists | src/exchange_events/ingestion/engine.py:42-59 | a full ingest deletes no event and moves none to another source, date or release |
| Lifetime.RunStages | src/exchange_events/main.py:76-118 | every invocation in turn on one database: the committed events, the alert log and the notifications are those of the lifetime theorems |
| Pipeline.LifetimeNotifications | src/exchange_events/main.py:96-118 | over any sequence of ingests and evaluations, interrupted ones included, each rule notifies each event at most once per tier, in order, never after its date |
| Pipeline.LifetimeReleaseNotifications | src/exchange_events/main.py:96-118 | over that lifetime a real release is notified at most twice per distinct event id stored for it |
| Pipeline.LifetimePriority | src/exchange_events/main.py:96-118 | over that lifetime, once a higher-ranked source has reported a release, a lower-ranked source's stored alert for it never changes again and nothing more is notified for it, interruptions or not |

## Left out

- HTTP sessions, OAuth, SMTP, Teams, Flask routes, the dashboard, the command line, configuration and
  wiring: plumbing around the modelled code.
- SHA-256, `json`, the SQL engines and `zoneinfo` themselves: an injective stand-in, JSON text
  identified with its value, a table as a map of rows, a zone as an arbitrary function of the day.
- Python's equality of `1`, `1.0` and `True` inside metadata and its NaN: JSON numbers are reals. A
  metadata value that JSON cannot hold appears only as a batch that raises.
- Instants before the year 1000, where `strftime` writes fewer than four digits, and the other text
  forms that `fromisoformat` accepts: the stored texts are always of the modelled form.
- Text comparison by locale in Postgres: text is compared by code point, as SQLite and Python do.
- `int()` on texts with signs, blanks or underscores in the BLS and BEA adapters: digits only.
- FRED's dates are passed through as text by the code; here they are dates, written back as their text.
- Overriding `event_type` at construction, and naive datetimes, which raise.
- Alert titles and bodies, the recent-alerts listing, routing and dispatch: display and delivery.
- The implied-volatility rule and its context: no provider is wired. It can be any `OtherRule`.
- Concurrent alert evaluations: `get` and `upsert` of the alert log take the lock separately, so the
  alert theorems are about one evaluation at a time.
- FRED's `previous` across different request windows: the server cuts the window, so the first
  `previous` depends on the request.
- CME paging and contract cadence, page scraping (FOMC, ISM, MarketWatch), NSE and BSE, and the raw
  fields each normalizer reads: single-function mappings.
- `surprise` and the parsing of suffixed numbers: floating-point detail.
- A wire dictionary with null under `agency`, `period` or `unit`: raises here, is kept as None by the
  code. The serializer never writes one.
- AlertLog.RowRoundTrip: without the title and body columns, plain texts copied in and out.
- Ingestion.IngestionEngine.RunSource: without the error text and the duration of the report. An adapter
  answers by attempt and window only, so a source that changes its answers between two runs is two
  adapters of one name.
- Pipeline.LifetimeNotifications: that a stored CRITICAL was also notified holds for evaluations that
  complete; what an interrupted one loses is Escalation.InterruptionLosesExactly.
- AlertGrades.NotifiedInOrderExactly: exact for evaluations that complete, since a lost notification may
  spare a second one; InterruptedRuns.InterruptedInOrderExactly is exact for all.
- AlertGrades.GradesInOrderExactly: likewise for evaluations that complete; how far an interrupted one
  got is a matter of candidates, not of days left.
- Locking.EveryInterleavingIsSerial: a read that raises leaves the connection usable, as in SQLite;
  Postgres refuses further statements of that transaction until a rollback, which the code does not
  issue after a read.
- IngestionOrder.RerunIsUnchanged: only for full runs, because an incremental window narrows after the
  first run.
- Ingestion.FetchWithRetry: retry counts are not negative, as in every configuration; a negative one
  fails the code's own assertion.
- AlertEngine.AlertEngine.Evaluate: the alerting window lies inside the calendar, where the code raises
  OverflowError otherwise, and alert ids are derived rather than supplied by hand.
- Iana.RecordsDetermineZone: only for whole-minute offsets, because the printed text drops odd seconds.
- Bea.PreviousMonth: for dated periods of one form, one row each; Bea.WrongPrevious shows why.
- Bls.PreviousMonth: for a newest-first answer, which is what BLS sends; the code does not sort.
- AlertRuns.NotifiedOncePerTier: asks that an event id's due date never move later, which derived ids
  give; for every other run the exact condition is AlertGrades.NotifiedInOrderExactly.
