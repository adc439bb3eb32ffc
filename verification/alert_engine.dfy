/** The proximity rules and the engine that runs them over the alerting window. */
module AlertEngine {
  import opened Text
  import opened Calendar
  import opened Events
  import opened Ordering
  import opened Reference
  import opened SqlTable
  import SqlRepository
  import opened GroupMerge
  import Reconciliation
  import ReconciliationLaws
  import opened AlertLog
  import opened Escalation

  /** What evaluating one rule comes to. */
  datatype Outcome = Alerts(alerts: seq<Alert>) | Raised

  /** The four proximity rules, and any other rule with whatever it does this time. */
  datatype Rule =
    | HolidayRule
    | DstRule(warningDays: int, criticalDays: int)
    | ExpiryRule(warningDays: int, underlyings: set<string>)
    | ReleaseRule(warningDays: int, criticalDays: int, codes: set<string>)
    | OtherRule(ruleId: string, outcome: Outcome)

  function RuleId(rule: Rule): string {
    match rule
    case HolidayRule => "holiday_proximity"
    case DstRule(w, c) => "dst_shift_proximity:" + IntText(w) + ":" + IntText(c)
    case ExpiryRule(w, _) => "expiry_proximity:" + IntText(w)
    case ReleaseRule(w, c, _) => "economic_release_proximity:" + IntText(w) + ":" + IntText(c)
    case OtherRule(id, _) => id
  }

  predicate Handles(rule: Rule, e: Event) {
    match rule
    case HolidayRule => e.detail.Holiday?
    case DstRule(_, _) => e.detail.DstChange?
    case ExpiryRule(_, underlyings) => e.detail.Expiry? && e.detail.underlying in underlyings
    case ReleaseRule(_, _, codes) => e.detail.Release? && e.detail.code in codes
    case OtherRule(_, _) => false
  }

  /** The day a rule counts down to. */
  function Due(rule: Rule, e: Event): Date {
    if rule.ExpiryRule? && e.detail.Expiry? then e.detail.expiryDate else e.date
  }

  function Classify(rule: Rule, days: int): Severity {
    match rule
    case DstRule(w, c) => if days <= c then Critical else if days <= w then Warning else Info
    case ReleaseRule(w, c, _) => if days <= c then Critical else if days <= w then Warning else Info
    case ExpiryRule(w, _) => if days <= w then Warning else Info
    case _ => Info
  }

  /** CRITICAL up to `critical` days before the date, WARNING from there up to `warning` days before,
      INFO earlier. */
  predicate DateGraded(a: Alert, now: Instant, warning: int, critical: int) {
    var days := a.event.date - DateOf(now);
    (a.severity == Critical <==> days <= critical) && (a.severity == Warning <==> critical < days <= warning)
  }

  /** WARNING up to `warning` days before the expiry date, INFO earlier. */
  predicate ExpiryGraded(a: Alert, now: Instant, warning: int) {
    a.event.detail.Expiry? && a.severity == if a.event.detail.expiryDate - DateOf(now) <= warning then Warning else Info
  }

  /** The alerts of a proximity rule: one per handled event that is not past. */
  function ProximityAlerts(rule: Rule, events: seq<Event>, now: Instant): seq<Alert> {
    if events == [] then []
    else
      var front, e := ProximityAlerts(rule, events[..|events| - 1], now), events[|events| - 1];
      var days := Due(rule, e) - DateOf(now);
      if Handles(rule, e) && days >= 0 then front + [MakeAlert(RuleId(rule), e, Classify(rule, days), now)]
      else front
  }

  method EvaluateHolidayRule(events: seq<Event>, now: Instant) returns (alerts: seq<Alert>)
    ensures alerts == ProximityAlerts(HolidayRule, events, now)
    ensures forall i :: 0 <= i < |alerts| ==> alerts[i].severity == Info && alerts[i].event.date >= DateOf(now)
  {
    alerts := [];
    for i := 0 to |events|
      invariant alerts == ProximityAlerts(HolidayRule, events[..i], now)
      invariant forall k :: 0 <= k < |alerts| ==> alerts[k].severity == Info && alerts[k].event.date >= DateOf(now)
    {
      assert events[..i + 1][..i] == events[..i];
      var event := events[i];
      if event.detail.Holiday? && !(event.date < DateOf(now)) {
        alerts := alerts + [MakeAlert(RuleId(HolidayRule), event, Info, now)];
      }
    }
    assert events[..|events|] == events;
  }

  method EvaluateDstRule(warningDays: int, criticalDays: int, events: seq<Event>, now: Instant)
    returns (alerts: seq<Alert>)
    ensures alerts == ProximityAlerts(DstRule(warningDays, criticalDays), events, now)
    ensures forall i :: 0 <= i < |alerts| ==> DateGraded(alerts[i], now, warningDays, criticalDays)
  {
    var rule := DstRule(warningDays, criticalDays);
    alerts := [];
    for i := 0 to |events|
      invariant alerts == ProximityAlerts(rule, events[..i], now)
      invariant forall k :: 0 <= k < |alerts| ==> DateGraded(alerts[k], now, warningDays, criticalDays)
    {
      assert events[..i + 1][..i] == events[..i];
      var event := events[i];
      if !event.detail.DstChange? {
        continue;
      }
      var daysAway := event.date - DateOf(now);
      if daysAway < 0 {
        continue;
      }
      var severity;
      if daysAway <= criticalDays {
        severity := Critical;
      } else if daysAway <= warningDays {
        severity := Warning;
      } else {
        severity := Info;
      }
      alerts := alerts + [MakeAlert(RuleId(rule), event, severity, now)];
    }
    assert events[..|events|] == events;
  }

  method EvaluateExpiryRule(warningDays: int, underlyings: set<string>, events: seq<Event>, now: Instant)
    returns (alerts: seq<Alert>)
    ensures alerts == ProximityAlerts(ExpiryRule(warningDays, underlyings), events, now)
    ensures forall i :: 0 <= i < |alerts| ==> ExpiryGraded(alerts[i], now, warningDays)
  {
    var rule := ExpiryRule(warningDays, underlyings);
    alerts := [];
    for i := 0 to |events|
      invariant alerts == ProximityAlerts(rule, events[..i], now)
      invariant forall k :: 0 <= k < |alerts| ==> ExpiryGraded(alerts[k], now, warningDays)
    {
      assert events[..i + 1][..i] == events[..i];
      var event := events[i];
      if !event.detail.Expiry? || event.detail.underlying !in underlyings {
        continue;
      }
      var daysAway := event.detail.expiryDate - DateOf(now);
      if daysAway < 0 {
        continue;
      }
      var severity := if daysAway <= warningDays then Warning else Info;
      alerts := alerts + [MakeAlert(RuleId(rule), event, severity, now)];
    }
    assert events[..|events|] == events;
  }

  method EvaluateReleaseRule(warningDays: int, criticalDays: int, codes: set<string>, events: seq<Event>, now: Instant)
    returns (alerts: seq<Alert>)
    ensures alerts == ProximityAlerts(ReleaseRule(warningDays, criticalDays, codes), events, now)
    ensures forall i :: 0 <= i < |alerts| ==> DateGraded(alerts[i], now, warningDays, criticalDays)
  {
    var rule := ReleaseRule(warningDays, criticalDays, codes);
    alerts := [];
    for i := 0 to |events|
      invariant alerts == ProximityAlerts(rule, events[..i], now)
      invariant forall k :: 0 <= k < |alerts| ==> DateGraded(alerts[k], now, warningDays, criticalDays)
    {
      assert events[..i + 1][..i] == events[..i];
      var event := events[i];
      if !event.detail.Release? || event.detail.code !in codes {
        continue;
      }
      var daysAway := event.date - DateOf(now);
      if daysAway < 0 {
        continue;
      }
      var severity;
      if daysAway <= criticalDays {
        severity := Critical;
      } else if daysAway <= warningDays {
        severity := Warning;
      } else {
        severity := Info;
      }
      alerts := alerts + [MakeAlert(RuleId(rule), event, severity, now)];
    }
    assert events[..|events|] == events;
  }

  function OutcomeOf(rule: Rule, events: seq<Event>, now: Instant): Outcome {
    if rule.OtherRule? then rule.outcome else Alerts(ProximityAlerts(rule, events, now))
  }

  method EvaluateRule(rule: Rule, events: seq<Event>, now: Instant) returns (o: Outcome)
    ensures o == OutcomeOf(rule, events, now)
  {
    match rule {
      case HolidayRule =>
        var alerts := EvaluateHolidayRule(events, now);
        return Alerts(alerts);
      case DstRule(w, c) =>
        var alerts := EvaluateDstRule(w, c, events, now);
        return Alerts(alerts);
      case ExpiryRule(w, underlyings) =>
        var alerts := EvaluateExpiryRule(w, underlyings, events, now);
        return Alerts(alerts);
      case ReleaseRule(w, c, codes) =>
        var alerts := EvaluateReleaseRule(w, c, codes, events, now);
        return Alerts(alerts);
      case OtherRule(_, outcome) =>
        return outcome;
    }
  }

  /** All candidates in rule order; a rule that raised contributes none. */
  function Candidates(rules: seq<Rule>, events: seq<Event>, now: Instant): seq<Alert> {
    if rules == [] then []
    else
      var front := Candidates(rules[..|rules| - 1], events, now);
      match OutcomeOf(rules[|rules| - 1], events, now)
      case Alerts(alerts) => front + alerts
      case Raised => front
  }

  // ----- the alerting window -------------------------------------------------------

  function WindowQuery(lo: Date, hi: Date): EventQuery {
    EventQuery(None, None, Some(lo), Some(hi), None, true, None, 0)
  }

  /** The reconciled events of a window. */
  ghost function Window(s: Store, lo: Date, hi: Date): seq<Event>
    requires WellKeyed(s)
  {
    Reconciliation.Reconciled(Query(s, WindowQuery(lo, hi)), DEFAULT_SOURCE_PRIORITY)
  }

  /** Event ids are hex digests, so none contains a colon. */
  ghost predicate PlainIds(s: Store) {
    forall id :: id in s ==> ':' !in id
  }

  lemma QueryFromStore(s: Store, lo: Date, hi: Date, i: nat)
    requires WellKeyed(s) && i < |Query(s, WindowQuery(lo, hi))|
    ensures var e := Query(s, WindowQuery(lo, hi))[i];
            e.id in s && s[e.id] == e && lo <= e.date <= hi
  {
    hide EventBefore;
    var q := WindowQuery(lo, hi);
    var r := Sorted(s, q);
    assert Query(s, q) == r;
    assert r[i] in Elements(r);
  }

  /** Every windowed event stands for a stored one: same id, source, date and class. */
  lemma WindowFromStore(s: Store, lo: Date, hi: Date, j: nat)
    requires WellKeyed(s) && j < |Window(s, lo, hi)|
    ensures var e := Window(s, lo, hi)[j];
            && e.id in s && s[e.id].date == e.date && s[e.id].source == e.source
            && TypeOf(s[e.id]) == TypeOf(e)
            && (e.detail.Release? ==> s[e.id].detail.code == e.detail.code)
            && (!e.detail.Release? ==> s[e.id] == e)
  {
    hide Query, Reconciliation.Order, Merged;
    var events := Query(s, WindowQuery(lo, hi));
    var item := Reconciliation.Order(events)[j];
    var e := Window(s, lo, hi)[j];
    match item
    case Position(i) => QueryFromStore(s, lo, hi, i);
    case GroupOf(k) =>
      Reconciliation.MentionsGroup(events, k);
      var g := Reconciliation.Group(events, k);
      ReconciliationLaws.MergedIdentity(g, DEFAULT_SOURCE_PRIORITY);
      var m :| 0 <= m < |g| && g[m].id == e.id && g[m].source == e.source && g[m].date == e.date
               && g[m].detail.code == e.detail.code;
      assert g[m] in events;
      var i :| 0 <= i < |events| && events[i] == g[m];
      QueryFromStore(s, lo, hi, i);
  }

  ghost predicate AllDerived(alerts: seq<Alert>) {
    forall i :: 0 <= i < |alerts| ==> Derived(alerts[i])
  }

  ghost predicate RulesDerive(rules: seq<Rule>) {
    forall i :: 0 <= i < |rules| && rules[i].OtherRule? && rules[i].outcome.Alerts?
                ==> AllDerived(rules[i].outcome.alerts)
  }

  lemma {:induction false} ProximityDerived(rule: Rule, events: seq<Event>, now: Instant)
    requires forall i :: 0 <= i < |events| ==> events[i].id != "" && ':' !in events[i].id
    ensures AllDerived(ProximityAlerts(rule, events, now))
  {
    if events == [] {
    } else {
      ProximityDerived(rule, events[..|events| - 1], now);
    }
  }

  lemma {:induction false} CandidatesDerived(rules: seq<Rule>, events: seq<Event>, now: Instant)
    requires forall i :: 0 <= i < |events| ==> events[i].id != "" && ':' !in events[i].id
    requires RulesDerive(rules)
    ensures AllDerived(Candidates(rules, events, now))
  {
    hide Derived, ProximityAlerts;
    if rules == [] {
    } else {
      CandidatesDerived(rules[..|rules| - 1], events, now);
      ProximityDerived(rules[|rules| - 1], events, now);
    }
  }

  // ----- the engine ----------------------------------------------------------------

  lemma ProcessNothing(log: Log)
    ensures Process(log, []) == (log, [])
  {
  }

  class AlertEngine {
    const repository: SqlRepository.SqlEventRepository
    const alertLog: SqlAlertLog
    const lookbackDays: int
    const lookaheadDays: int

    constructor (repository: SqlRepository.SqlEventRepository, alertLog: SqlAlertLog,
                 lookbackDays: int, lookaheadDays: int)
      ensures this.repository == repository && this.alertLog == alertLog
      ensures this.lookbackDays == lookbackDays && this.lookaheadDays == lookaheadDays
    {
      this.repository, this.alertLog := repository, alertLog;
      this.lookbackDays, this.lookaheadDays := lookbackDays, lookaheadDays;
    }

    /** Steps 1 and 2: the window query and reconciliation. */
    method LoadWindow(lo: Date, hi: Date) returns (events: seq<Event>)
      requires repository.Valid()
      ensures events == Window(Decoded(repository.committed), lo, hi)
    {
      hide Query;
      var window := WindowQuery(lo, hi);
      var found := repository.RunQuery(window);
      assert Normalized(window) == window;
      events := Reconciliation.ReconcileEconomicReleases(found.value, DEFAULT_SOURCE_PRIORITY);
    }

    /** Step 4: every rule in turn, a raising rule skipped. */
    method Collect(rules: seq<Rule>, events: seq<Event>, now: Instant) returns (candidates: seq<Alert>)
      ensures candidates == Candidates(rules, events, now)
    {
      hide ProximityAlerts;
      candidates := [];
      for i := 0 to |rules|
        invariant candidates == Candidates(rules[..i], events, now)
      {
        assert rules[..i + 1][..i] == rules[..i];
        var outcome := EvaluateRule(rules[i], events, now);
        if outcome.Alerts? {
          candidates := candidates + outcome.alerts;
        }
      }
      assert rules[..|rules|] == rules;
    }

    /** Steps 5 and 6: compare with the stored severity, store, and keep the escalations. `fault`
        is the candidate at which the log raises. */
    method Escalate(candidates: seq<Alert>, fault: Option<nat>) returns (escalated: Option<seq<Alert>>)
      requires alertLog.Valid() && AllDerived(candidates)
      modifies alertLog
      ensures alertLog.Valid()
      ensures (DecodedLog(alertLog.rows), escalated) == Interrupted(DecodedLog(old(alertLog.rows)), candidates, fault)
    {
      hide Process, DecodedLog, ValidRows, Derived;
      var kept: seq<Alert> := [];
      ghost var start := DecodedLog(alertLog.rows);
      ProcessNothing(start);
      for i := 0 to |candidates|
        invariant alertLog.Valid()
        invariant fault.Some? ==> fault.value >= i
        invariant (DecodedLog(alertLog.rows), kept) == Process(start, candidates[..i])
      {
        var alert := candidates[i];
        assert candidates[..i + 1] == candidates[..i] + [alert];
        ProcessSnoc(start, candidates[..i], alert);
        var previous := alertLog.Get(alert.id);
        var isEscalation := previous.None? || SeverityRank(alert.severity) > SeverityRank(previous.value.severity);
        var stored := alertLog.Upsert(alert, fault == Some(i));
        if !stored {
          return None;
        }
        if isEscalation && alert.severity != Info {
          kept := kept + [alert];
        }
      }
      assert candidates[..|candidates|] == candidates;
      escalated := Some(kept);
    }

    /** `today` and `now` are two readings of the clock. `readFault`: the window query raises. `None`
        stands for a raised exception. */
    method Evaluate(rules: seq<Rule>, today: Date, now: Instant, readFault: bool, fault: Option<nat>)
      returns (escalated: Option<seq<Alert>>)
      requires repository.Valid() && alertLog.Valid()
      requires 1 <= today - lookbackDays <= MAX_DATE && 1 <= today + lookaheadDays <= MAX_DATE
      requires PlainIds(Decoded(repository.committed)) && RulesDerive(rules)
      modifies alertLog
      ensures alertLog.Valid()
      ensures readFault ==> escalated == None && alertLog.rows == old(alertLog.rows)
      ensures !readFault ==>
                (DecodedLog(alertLog.rows), escalated)
                == Interrupted(DecodedLog(old(alertLog.rows)),
                               Candidates(rules, Window(Decoded(repository.committed),
                                                        today - lookbackDays, today + lookaheadDays), now),
                               fault)
    {
      hide Window, Interrupted, Candidates, Decoded, RulesDerive, ValidTable, DecodedLog, ValidRows;
      if readFault {
        return None;
      }
      var events := LoadWindow(today - lookbackDays, today + lookaheadDays);
      forall j | 0 <= j < |events| ensures events[j].id != "" && ':' !in events[j].id {
        WindowFromStore(Decoded(repository.committed), today - lookbackDays, today + lookaheadDays, j);
      }
      var candidates := Collect(rules, events, now);
      CandidatesDerived(rules, events, now);
      escalated := Escalate(candidates, fault);
    }
  }
}
