/** The whole system over its lifetime: any sequence of ingests and alert evaluations, from an
    empty store. */
module Pipeline {
  import opened Text
  import opened Calendar
  import opened Events
  import opened Reference
  import opened Reconciliation
  import opened Ingestion
  import opened IngestionLaws
  import opened IngestionOrder
  import opened AlertLog
  import opened Escalation
  import opened AlertEngine
  import opened AlertRuns
  import opened SourcePriority

  /** One invocation: `ingest` or `alert`. */
  datatype Stage =
    | Ingest(adapters: seq<Adapter>, setting: Setting)
    | Evaluate(rules: seq<Rule>, lo: Date, hi: Date, now: Instant, fault: Option<nat>)

  /** Adapters deliver events of their own source with derived ids; rules tag their own alerts. */
  ghost predicate WellBehaved(st: Stage) {
    match st
    case Ingest(adapters, setting) => AllOwn(adapters, setting)
    case Evaluate(rules, _, _, _, _) => RulesDerive(rules) && Honest(rules)
  }

  ghost predicate AllWellBehaved(stages: seq<Stage>) {
    forall i :: 0 <= i < |stages| ==> WellBehaved(stages[i])
  }

  ghost function StoreAfter(stages: seq<Stage>): Store {
    if stages == [] then map[]
    else
      var front, last := StoreAfter(stages[..|stages| - 1]), stages[|stages| - 1];
      if last.Ingest? then All(front, last.adapters, last.setting).0 else front
  }

  /** The evaluations, each with the store that it met. */
  ghost function Rounds(stages: seq<Stage>): seq<Round> {
    if stages == [] then []
    else
      var front, last := stages[..|stages| - 1], stages[|stages| - 1];
      if last.Evaluate? then
        Rounds(front) + [Round(last.rules, StoreAfter(front), last.lo, last.hi, last.now, last.fault)]
      else Rounds(front)
  }

  // ----- ingests keep what is stored -----------------------------------------------

  lemma OnePersists(s: Store, a: Adapter, c: Setting)
    requires Clean(s) && Owns(a, c.registry)
    ensures Persists(s, One(s, a, c).0)
  {
    hide One, Delivery, Owns, WellKeyed, CanonicalStore, UpsertAll, Persists;
    var latest := LatestIngest(s, a.name);
    OneDelivers(s, a, c);
    if Delivery(latest, a, c).Some? {
      DeliveryIsOwn(latest, a, c);
      UpsertPersists(s, Delivery(latest, a, c).value, a.now);
    } else {
      PersistsReflexive(s);
    }
  }

  lemma {:induction false} AllPersists(s: Store, adapters: seq<Adapter>, c: Setting)
    requires Clean(s) && AllOwn(adapters, c)
    ensures Persists(s, All(s, adapters, c).0)
  {
    hide One, RunAll, Owns, Clean, Persists;
    if adapters == [] {
      NothingRun(s, c);
      PersistsReflexive(s);
    } else {
      var front, a := adapters[..|adapters| - 1], adapters[|adapters| - 1];
      assert adapters == front + [a];
      AllPersists(s, front, c);
      AllKeepsClean(s, front, c);
      AllSnoc(s, front, a, c);
      OnePersists(All(s, front, c).0, a, c);
      PersistsTransitive(s, All(s, front, c).0, All(s, adapters, c).0);
    }
  }

  lemma {:induction false} StoreStaysClean(stages: seq<Stage>)
    requires AllWellBehaved(stages)
    ensures Clean(StoreAfter(stages))
  {
    hide All, AllOwn;
    if stages == [] {
    } else {
      var front, last := stages[..|stages| - 1], stages[|stages| - 1];
      StoreStaysClean(front);
      if last.Ingest? {
        hide Clean;
        AllKeepsClean(StoreAfter(front), last.adapters, last.setting);
      }
    }
  }

  lemma {:induction false} RoundsAreSound(stages: seq<Stage>)
    requires AllWellBehaved(stages)
    ensures AllSound(Rounds(stages))
    ensures forall i :: 0 <= i < |Rounds(stages)| ==> CanonicalStore(Rounds(stages)[i].store)
  {
    hide All, AllOwn, StoreAfter, PlainIds, RulesDerive, Honest;
    if stages == [] {
    } else {
      var front, last := stages[..|stages| - 1], stages[|stages| - 1];
      RoundsAreSound(front);
      StoreStaysClean(front);
      CanonicalPlain(StoreAfter(front));
      assert WellBehaved(last);
    }
  }

  lemma {:induction false} RoundsPersist(stages: seq<Stage>)
    requires AllWellBehaved(stages)
    ensures StoresPersist(Rounds(stages))
    ensures Rounds(stages) != [] ==> Persists(Rounds(stages)[|Rounds(stages)| - 1].store, StoreAfter(stages))
  {
    hide All, AllOwn, Persists, Clean;
    if stages == [] {
    } else {
      var front, last := stages[..|stages| - 1], stages[|stages| - 1];
      RoundsPersist(front);
      StoreStaysClean(front);
      assert WellBehaved(last);
      if last.Ingest? {
        AllPersists(StoreAfter(front), last.adapters, last.setting);
        if Rounds(front) != [] {
          PersistsTransitive(Rounds(front)[|Rounds(front)| - 1].store, StoreAfter(front), StoreAfter(stages));
        }
      } else {
        PersistsReflexive(StoreAfter(front));
      }
    }
  }

  // ----- what the users of the system see ------------------------------------------

  /** A proximity rule whose id no other kind of rule takes in any evaluation, under a clock that
      never goes back. */
  ghost predicate Steady(stages: seq<Stage>, r: Rule) {
    && AllWellBehaved(stages) && !r.OtherRule? && ClockForward(Rounds(stages))
    && forall i :: 0 <= i < |Rounds(stages)| ==> Genuine(Rounds(stages)[i].rules, r)
  }

  lemma SteadyIsWatched(stages: seq<Stage>, r: Rule)
    requires Steady(stages, r)
    ensures Watched(Rounds(stages), r)
  {
    hide Rounds, Sound, CanonicalStore, Genuine, FixedDue, DueNeverLater, ClockForward;
    RoundsAreSound(stages);
    CanonicalFixesDue(Rounds(stages), r);
    FixedDueNeverLater(Rounds(stages), r);
  }

  lemma SteadyBasics(stages: seq<Stage>, r: Rule)
    requires Steady(stages, r)
    ensures AllWellBehaved(stages) && !r.OtherRule?
  {
  }

  /** Over the lifetime of the system, whatever is ingested in between and whichever evaluations are
      interrupted, each rule notifies each event at most once as WARNING and at most once as CRITICAL,
      in that order, never after its date. The stored severity is CRITICAL whenever CRITICAL was
      notified, and only then if nothing was interrupted. Holidays are never notified, expiries never
      as CRITICAL. */
  lemma LifetimeNotifications(stages: seq<Stage>, r: Rule, eid: string)
    requires Steady(stages, r) && ':' !in eid
    ensures AllSound(Rounds(stages))
    ensures var id := AlertId(RuleId(r), eid);
            var (log, out) := Run(map[], Rounds(stages));
            && NotifiedInOrder(Severities(OfId(out, id)))
            && (forall a :: a in OfId(out, id) ==> a.event.id == eid && DateOf(a.triggeredAt) <= Due(r, a.event))
            && (Critical in Severities(OfId(out, id)) ==> id in log && log[id].severity == Critical)
            && (Complete(Rounds(stages)) && id in log && log[id].severity == Critical
                ==> Critical in Severities(OfId(out, id)))
            && (r.HolidayRule? ==> OfId(out, id) == [])
            && (r.ExpiryRule? ==> Critical !in Severities(OfId(out, id)))
  {
    hide Rounds, Sound, Watched, Genuine, ClockForward, Run, OfId, AlertId, RuleId, NotifiedInOrder, Due,
         AllWellBehaved;
    SteadyBasics(stages, r);
    RoundsAreSound(stages);
    SteadyIsWatched(stages, r);
    NotifiedOncePerTier(Rounds(stages), r, eid);
  }

  /** Over the lifetime of the system a real release is notified at most twice for each distinct
      event id ever stored for it. */
  lemma LifetimeReleaseNotifications(stages: seq<Stage>, r: Rule, k: Key)
    requires Steady(stages, r) && r.ReleaseRule?
    ensures AllSound(Rounds(stages))
    ensures |About(Run(map[], Rounds(stages)).1, RuleId(r), k)| <= 2 * |StoredIds(Rounds(stages), k)|
  {
    hide Rounds, Sound, Watched, Steady, Run, About, RuleId, StoredIds, AllWellBehaved;
    SteadyBasics(stages, r);
    RoundsAreSound(stages);
    SteadyIsWatched(stages, r);
    AlertsPerRelease(Rounds(stages), r, k);
  }

  /** Once a higher-ranked source has reported a release, a lower-ranked source's event for it is
      silenced for the rest of the lifetime: its stored alert never changes again, and nothing more
      is notified for it. */
  lemma LifetimePriority(stages: seq<Stage>, i: nat, high: string, m: nat, low: string, r: Rule)
    requires AllWellBehaved(stages) && Outranked(Rounds(stages), i, high, m, low) && !r.OtherRule?
    requires forall j :: i <= j < |Rounds(stages)| ==> Genuine(Rounds(stages)[j].rules, r)
    ensures i < |Rounds(stages)| && AllSound(Rounds(stages))
    ensures var id := AlertId(RuleId(r), low);
            var (before, told) := Run(map[], Rounds(stages)[..i]);
            var (after, all) := Run(map[], Rounds(stages));
            Lookup(after, id) == Lookup(before, id) && OfId(all, id) == OfId(told, id)
  {
    hide Rounds, Sound, AllWellBehaved, StoresPersist, Outranked, Run, OfId, AlertId, RuleId, Genuine;
    RoundsAreSound(stages);
    RoundsPersist(stages);
    OutrankedBounds(Rounds(stages), i, high, m, low);
    SilencedForGood(map[], Rounds(stages), i, high, m, low, r);
  }
}
