/** The invocations of a lifetime run on one database: the real objects give what the lifetime theorems
    are about. */
module Lifetime {
  import opened Text
  import opened Calendar
  import opened Events
  import opened Reference
  import opened SqlTable
  import opened SqlRepository
  import opened Ingestion
  import opened IngestionLaws
  import opened IngestionOrder
  import opened AlertLog
  import opened Escalation
  import opened AlertEngine
  import opened AlertRuns
  import opened Pipeline

  /** An ingest asks for a range that does not start after its end; another cannot be constructed. */
  predicate RangeValid(st: Stage) {
    st.Ingest? ==> st.setting.range.Valid()
  }

  lemma OwnIsUsable(a: Adapter, c: Setting)
    requires Owns(a, c.registry)
    ensures Usable(a, c.registry)
  {
    hide OwnEvents, NormalEvents;
    if a.name in c.registry {
      forall w, i: nat | a.fetch(w)(i).Fetched?
        ensures Storable(NormalEvents(a.fetch(w)(i).records, c.registry[a.name]))
      {
        OwnIsStorable(NormalEvents(a.fetch(w)(i).records, c.registry[a.name]), a.name);
      }
    }
  }

  lemma PrefixWellBehaved(front: seq<Stage>, st: Stage)
    requires AllWellBehaved(front + [st])
    ensures AllWellBehaved(front) && WellBehaved(st)
  {
    hide WellBehaved;
    var all := front + [st];
    assert all[|front|] == st;
    assert forall i :: 0 <= i < |front| ==> all[i] == front[i];
  }

  lemma PrefixesWellBehaved(stages: seq<Stage>, n: nat)
    requires AllWellBehaved(stages) && n <= |stages|
    ensures AllWellBehaved(stages[..n])
  {
    hide WellBehaved;
  }

  lemma EmptyTable()
    ensures ValidTable(map[]) && Decoded(map[]) == map[]
  {
  }

  lemma PlainAfter(stages: seq<Stage>)
    requires AllWellBehaved(stages)
    ensures PlainIds(StoreAfter(stages))
  {
    hide StoreAfter, CanonicalStore, PlainIds, WellKeyed;
    StoreStaysClean(stages);
    CanonicalPlain(StoreAfter(stages));
  }

  /** What an ingest adds to a lifetime. */
  lemma IngestStep(front: seq<Stage>, st: Stage)
    requires st.Ingest? && AllWellBehaved(front + [st])
    ensures AllWellBehaved(front)
    ensures StoreAfter(front + [st])
         == RunAll(StoreAfter(front), st.adapters, st.setting.registry, st.setting.policy, st.setting.range,
                   st.setting.incremental).0
    ensures Rounds(front + [st]) == Rounds(front)
    ensures forall i :: 0 <= i < |st.adapters| ==> Usable(st.adapters[i], st.setting.registry)
  {
    hide RunAll, Owns, Usable;
    var all := front + [st];
    assert all[..|front|] == front && all[|front|] == st;
    PrefixWellBehaved(front, st);
    forall i | 0 <= i < |st.adapters| ensures Usable(st.adapters[i], st.setting.registry) {
      OwnIsUsable(st.adapters[i], st.setting);
    }
  }

  /** What an evaluation adds to it. */
  lemma EvaluateStep(log: Log, front: seq<Stage>, st: Stage)
    requires st.Evaluate? && AllWellBehaved(front + [st])
    ensures AllWellBehaved(front) && AllSound(Rounds(front)) && AllSound(Rounds(front + [st]))
    ensures StoreAfter(front + [st]) == StoreAfter(front)
    ensures WellKeyed(StoreAfter(front)) && PlainIds(StoreAfter(front)) && RulesDerive(st.rules)
    ensures var (log1, told1) := Run(log, Rounds(front));
            var events := Window(StoreAfter(front), st.lo, st.hi);
            var (log2, told2) := Interrupted(log1, Candidates(st.rules, events, st.now), st.fault);
            Run(log, Rounds(front + [st])) == (log2, told1 + told2.GetOr([]))
  {
    hide Window, Candidates, Interrupted, PlainIds, CanonicalStore, RulesDerive, Honest;
    var all := front + [st];
    assert all[..|front|] == front && all[|front|] == st;
    PrefixWellBehaved(front, st);
    RoundsAreSound(front);
    RoundsAreSound(all);
    PlainAfter(front);
    StoreStaysClean(front);
    var rounds := Rounds(all);
    assert rounds[..|rounds| - 1] == Rounds(front);
  }

  lemma NothingYet()
    ensures AllWellBehaved([]) && StoreAfter([]) == map[] && Rounds([]) == [] && AllSound([])
    ensures Run(map[], []) == (map[], [])
  {
  }

  /** Every invocation in turn, over one database: the store, the alert log and the notifications are
      those that the lifetime theorems speak of. */
  method RunStages(dialect: Dialect, stages: seq<Stage>)
    returns (repository: SqlEventRepository, alertLog: SqlAlertLog, told: seq<Alert>)
    requires AllWellBehaved(stages) && forall i :: 0 <= i < |stages| ==> RangeValid(stages[i])
    ensures repository.Valid() && alertLog.Valid() && AllSound(Rounds(stages))
    ensures Decoded(repository.committed) == StoreAfter(stages)
    ensures (DecodedLog(alertLog.rows), told) == Run(map[], Rounds(stages))
  {
    hide AllWellBehaved, Rounds, StoreAfter, Run, Decoded, DecodedLog, ValidTable, ValidRows, RunAll, Usable, Window,
         Candidates, Interrupted, PlainIds, RulesDerive, AllSound;
    repository := new SqlEventRepository(dialect);
    alertLog := new SqlAlertLog();
    told := [];
    NothingYet();
    EmptyTable();
    for i := 0 to |stages|
      invariant repository.Valid() && alertLog.Valid() && fresh(repository) && fresh(alertLog)
      invariant AllWellBehaved(stages[..i]) && AllSound(Rounds(stages[..i]))
      invariant Decoded(repository.committed) == StoreAfter(stages[..i])
      invariant (DecodedLog(alertLog.rows), told) == Run(map[], Rounds(stages[..i]))
    {
      PrefixesWellBehaved(stages, i + 1);
      assert stages[..i + 1] == stages[..i] + [stages[i]];
      match stages[i]
      case Ingest(adapters, setting) =>
        IngestStep(stages[..i], stages[i]);
        var engine := new IngestionEngine(repository, setting.registry, setting.policy);
        var _ := engine.RunFullIngest(adapters, setting.range, setting.incremental);
      case Evaluate(rules, lo, hi, now, fault) =>
        EvaluateStep(map[], stages[..i], stages[i]);
        var engine := new AlertEngine(repository, alertLog, 0, hi - lo);
        var escalated := engine.Evaluate(rules, lo, now, false, fault);
        told := told + escalated.GetOr([]);
    }
    assert stages[..|stages|] == stages;
  }
}
