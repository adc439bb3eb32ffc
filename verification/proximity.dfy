/** The proximity rules in terms of what is stored: which alerts there are, their grades, and how many
    for one release. */
module Proximity {
  import opened Text
  import opened Calendar
  import opened Events
  import opened Ordering
  import opened Reference
  import opened GroupMerge
  import opened Reconciliation
  import opened ReconciliationLaws
  import opened ReleaseGroups
  import opened AlertLog
  import opened Escalation
  import opened AlertEngine
  import opened RuleIds
  import opened AlertRuns
  import SourcePriority

  // ----- one rule over a list of events --------------------------------------------

  /** The alert that a rule makes for an event, field by field. */
  predicate AlertFor(c: Alert, rule: Rule, e: Event, now: Instant) {
    && c.event == e && c.triggeredAt == now && c.id == AlertId(c.ruleId, e.id)
    && match rule
       case HolidayRule =>
         && e.detail.Holiday? && e.date >= DateOf(now)
         && c.ruleId == "holiday_proximity" && c.severity == Info
       case DstRule(warning, critical) =>
         && e.detail.DstChange? && e.date >= DateOf(now)
         && c.ruleId == "dst_shift_proximity:" + IntText(warning) + ":" + IntText(critical)
         && DateGraded(c, now, warning, critical)
       case ExpiryRule(warning, underlyings) =>
         && e.detail.Expiry? && e.detail.underlying in underlyings && e.detail.expiryDate >= DateOf(now)
         && c.ruleId == "expiry_proximity:" + IntText(warning)
         && ExpiryGraded(c, now, warning)
       case ReleaseRule(warning, critical, codes) =>
         && e.detail.Release? && e.detail.code in codes && e.date >= DateOf(now)
         && c.ruleId == "economic_release_proximity:" + IntText(warning) + ":" + IntText(critical)
         && DateGraded(c, now, warning, critical)
       case OtherRule(_, _) => false
  }

  lemma MadeIsAlertFor(c: Alert, rule: Rule, e: Event, now: Instant)
    requires !rule.OtherRule?
    ensures MadeFor(c, rule, e, now) <==> AlertFor(c, rule, e, now)
  {
    hide AlertId, IntText;
    if AlertFor(c, rule, e, now) {
      var days := Due(rule, e) - DateOf(now);
      assert c.severity == Classify(rule, days);
      assert c == MakeAlert(RuleId(rule), e, Classify(rule, days), now);
    }
  }

  /** A rule makes an alert for exactly the events of its class that it tracks and whose day has not
      passed: holidays always INFO, expiries WARNING by days to the expiry date, clock changes and
      releases WARNING and CRITICAL by days to the date. */
  lemma AlertsExactly(rule: Rule, events: seq<Event>, now: Instant, c: Alert)
    requires !rule.OtherRule?
    ensures c in ProximityAlerts(rule, events, now) <==>
            exists j :: 0 <= j < |events| && AlertFor(c, rule, events[j], now)
  {
    hide MadeFor, AlertFor, ProximityAlerts;
    ProximityExactly(rule, events, now, c);
    forall j | 0 <= j < |events| ensures MadeFor(c, rule, events[j], now) <==> AlertFor(c, rule, events[j], now) {
      MadeIsAlertFor(c, rule, events[j], now);
    }
  }

  lemma AlertForHandled(c: Alert, rule: Rule, e: Event, now: Instant)
    requires AlertFor(c, rule, e, now)
    ensures !rule.OtherRule?
  {
  }

  lemma ProximitySnoc(rule: Rule, front: seq<Event>, e: Event, now: Instant)
    ensures var last := ProximityAlerts(rule, [e], now);
            && |last| <= 1
            && (forall c :: AlertFor(c, rule, e, now) ==> last == [c])
            && (last != [] && !rule.OtherRule? ==> AlertFor(last[0], rule, e, now))
            && ProximityAlerts(rule, front + [e], now) == ProximityAlerts(rule, front, now) + last
  {
    hide AlertFor, RuleId, Classify, Due, Handles;
    var none: seq<Event> := [];
    assert [e][..0] == none && ProximityAlerts(rule, none, now) == [];
    assert (front + [e])[..|front|] == front;
    forall c | AlertFor(c, rule, e, now) ensures ProximityAlerts(rule, [e], now) == [c] {
      AlertForHandled(c, rule, e, now);
      MadeIsAlertFor(c, rule, e, now);
    }
    if ProximityAlerts(rule, [e], now) != [] && !rule.OtherRule? {
      MadeIsAlertFor(ProximityAlerts(rule, [e], now)[0], rule, e, now);
    }
  }

  lemma NotRelease(c: Alert, rule: Rule, e: Event, now: Instant)
    requires AlertFor(c, rule, e, now)
    ensures rule.ReleaseRule? <==> e.detail.Release?
  {
  }

  lemma AlertEvent(c: Alert, rule: Rule, e: Event, now: Instant)
    requires AlertFor(c, rule, e, now)
    ensures c.event == e
  {
  }

  lemma NoAlerts(rule: Rule, now: Instant)
    ensures ProximityAlerts(rule, [], now) == []
  {
  }

  lemma ReleaseAlert(rule: Rule, e: Event, now: Instant, code: string, date: Date)
    requires rule.ReleaseRule? && IsFor(e, code, date)
    ensures var alerts := ProximityAlerts(rule, [e], now);
            if code in rule.codes && date >= DateOf(now) then
              && |alerts| == 1 && alerts[0].event == e && alerts[0].triggeredAt == now
              && DateGraded(alerts[0], now, rule.warningDays, rule.criticalDays)
            else alerts == []
  {
    hide RuleId, ProximityAlerts, AlertId, IntText;
    var alerts := ProximityAlerts(rule, [e], now);
    ProximitySnoc(rule, [], e, now);
    if code in rule.codes && date >= DateOf(now) {
      var days := Due(rule, e) - DateOf(now);
      var c := MakeAlert(RuleId(rule), e, Classify(rule, days), now);
      assert MadeFor(c, rule, e, now);
      MadeIsAlertFor(c, rule, e, now);
    }
  }

  // ----- from the store ------------------------------------------------------------

  lemma {:induction false} OthersExactly(events: seq<Event>, e: Event)
    ensures e in Others(events) <==> e in events && !e.detail.Release?
  {
    if events == [] {
    } else {
      var front, last := events[..|events| - 1], events[|events| - 1];
      assert events == front + [last];
      OthersExactly(front, e);
    }
  }

  /** An event other than a release is in the window exactly when it is stored with a date in it. */
  lemma WindowExactly(s: Store, lo: Date, hi: Date, e: Event)
    requires WellKeyed(s) && !e.detail.Release?
    ensures e in Window(s, lo, hi) <==> e.id in s && s[e.id] == e && lo <= e.date <= hi
  {
    hide Query, Reconciled, Others, Mentions, Group;
    var q := WindowQuery(lo, hi);
    var found := Query(s, q);
    ReconciledParts(found, DEFAULT_SOURCE_PRIORITY);
    OthersExactly(found, e);
    OthersExactly(Window(s, lo, hi), e);
    if e in found {
      var i :| 0 <= i < |found| && found[i] == e;
      QueryFromStore(s, lo, hi, i);
    }
    if e.id in s && s[e.id] == e && lo <= e.date <= hi {
      SourcePriority.StoreInQuery(s, lo, hi, e.id);
    }
  }

  /** Over the window of a store, the alerts of the holiday, clock change and expiry rules are exactly
      those for the stored events dated in the window. */
  lemma StoredAlertsExactly(s: Store, lo: Date, hi: Date, rule: Rule, now: Instant, c: Alert)
    requires WellKeyed(s) && !rule.OtherRule? && !rule.ReleaseRule?
    ensures c in ProximityAlerts(rule, Window(s, lo, hi), now) <==>
            exists id :: id in s && lo <= s[id].date <= hi && AlertFor(c, rule, s[id], now)
  {
    hide AlertFor, Window, ProximityAlerts;
    var events := Window(s, lo, hi);
    AlertsExactly(rule, events, now, c);
    if c in ProximityAlerts(rule, events, now) {
      var j :| 0 <= j < |events| && AlertFor(c, rule, events[j], now);
      NotRelease(c, rule, events[j], now);
      WindowExactly(s, lo, hi, events[j]);
      assert AlertFor(c, rule, s[events[j].id], now);
    }
    if id :| id in s && lo <= s[id].date <= hi && AlertFor(c, rule, s[id], now) {
      NotRelease(c, rule, s[id], now);
      WindowExactly(s, lo, hi, s[id]);
      var j :| 0 <= j < |events| && events[j] == s[id];
      assert AlertFor(c, rule, events[j], now);
    }
  }

  function AlertsAbout(alerts: seq<Alert>, code: string, date: Date): seq<Alert> {
    if alerts == [] then []
    else
      var front, a := AlertsAbout(alerts[..|alerts| - 1], code, date), alerts[|alerts| - 1];
      if IsFor(a.event, code, date) then front + [a] else front
  }

  lemma AlertsAboutSnoc(front: seq<Alert>, a: Alert, code: string, date: Date)
    ensures AlertsAbout(front + [a], code, date)
         == if IsFor(a.event, code, date) then AlertsAbout(front, code, date) + [a] else AlertsAbout(front, code, date)
  {
    assert (front + [a])[..|front|] == front;
  }

  lemma {:induction false} AlertsAboutEvents(rule: Rule, events: seq<Event>, now: Instant, code: string, date: Date)
    requires !rule.OtherRule?
    ensures AlertsAbout(ProximityAlerts(rule, events, now), code, date)
         == ProximityAlerts(rule, EventsFor(events, code, date), now)
  {
    if events == [] {
    } else {
      hide AlertFor, ProximityAlerts, AlertsAbout, IsFor;
      var front, e := events[..|events| - 1], events[|events| - 1];
      assert events == front + [e];
      AlertsAboutEvents(rule, front, now, code, date);
      ProximitySnoc(rule, front, e, now);
      ProximitySnoc(rule, EventsFor(front, code, date), e, now);
      var last := ProximityAlerts(rule, [e], now);
      if last == [] {
        assert ProximityAlerts(rule, front, now) + last == ProximityAlerts(rule, front, now);
      } else {
        assert last == [last[0]];
        AlertEvent(last[0], rule, e, now);
        AlertsAboutSnoc(ProximityAlerts(rule, front, now), last[0], code, date);
      }
    }
  }

  /** The release is stored with its date in the window, tracked, and not past. */
  ghost predicate Awaited(s: Store, lo: Date, hi: Date, codes: set<string>, now: Instant, code: string, date: Date) {
    && (exists id :: id in s && IsFor(s[id], code, date))
    && lo <= date <= hi && code in codes && date >= DateOf(now)
  }

  lemma FoundExactly(s: Store, lo: Date, hi: Date, code: string, date: Date)
    requires WellKeyed(s)
    ensures Has(Query(s, WindowQuery(lo, hi)), code, date) <==>
            lo <= date <= hi && exists id :: id in s && IsFor(s[id], code, date)
  {
    hide Query;
    var found := Query(s, WindowQuery(lo, hi));
    if Has(found, code, date) {
      var i :| 0 <= i < |found| && IsFor(found[i], code, date);
      QueryFromStore(s, lo, hi, i);
      assert IsFor(s[found[i].id], code, date);
    }
    if id :| lo <= date <= hi && id in s && IsFor(s[id], code, date) {
      SourcePriority.StoreInQuery(s, lo, hi, id);
      var i :| 0 <= i < |found| && found[i] == s[id];
      assert IsFor(found[i], code, date);
    }
  }

  lemma WindowReleases(s: Store, lo: Date, hi: Date, code: string, date: Date)
    requires WellKeyed(s)
    ensures var group := EventsFor(Window(s, lo, hi), code, date);
            if lo <= date <= hi && exists id :: id in s && IsFor(s[id], code, date)
            then group != [] && group == [group[0]] && IsFor(group[0], code, date) else group == []
  {
    hide Query, EventsFor, Merged, Reconciled, Has;
    var found := Query(s, WindowQuery(lo, hi));
    FoundExactly(s, lo, hi, code, date);
    HasExactly(found, code, date);
    ReleasesExactly(found, DEFAULT_SOURCE_PRIORITY, code, date);
    EventsForAre(Window(s, lo, hi), code, date);
  }

  /** However many sources report a release, the release rule makes exactly one alert for its code and
      date while it is awaited, graded by the days to its date, and none otherwise. */
  lemma OneAlertPerRelease(s: Store, lo: Date, hi: Date, rule: Rule, now: Instant, code: string, date: Date)
    requires WellKeyed(s) && rule.ReleaseRule?
    ensures var alerts := AlertsAbout(ProximityAlerts(rule, Window(s, lo, hi), now), code, date);
            if Awaited(s, lo, hi, rule.codes, now, code, date) then
              && |alerts| == 1 && IsFor(alerts[0].event, code, date) && alerts[0].triggeredAt == now
              && DateGraded(alerts[0], now, rule.warningDays, rule.criticalDays)
            else alerts == []
  {
    hide AlertFor, Window, ProximityAlerts, Query, EventsFor, Merged, Reconciled;
    var found := Query(s, WindowQuery(lo, hi));
    AlertsAboutEvents(rule, Window(s, lo, hi), now, code, date);
    WindowReleases(s, lo, hi, code, date);
    var group := EventsFor(Window(s, lo, hi), code, date);
    if group == [] {
      NoAlerts(rule, now);
    } else {
      ReleaseAlert(rule, group[0], now, code, date);
    }
  }

  // ----- all rules, and whole runs -------------------------------------------------

  lemma NoCandidatesYet(events: seq<Event>, now: Instant)
    ensures Candidates([], events, now) == []
  {
  }

  /** The candidates of a list of rules are those of its parts, in order. */
  lemma {:induction false} CandidatesConcat(a: seq<Rule>, b: seq<Rule>, events: seq<Event>, now: Instant)
    ensures Candidates(a + b, events, now) == Candidates(a, events, now) + Candidates(b, events, now)
  {
    hide OutcomeOf;
    if b == [] {
      assert a + b == a;
      NoCandidatesYet(events, now);
    } else {
      var front, last := b[..|b| - 1], b[|b| - 1];
      assert (a + b)[..|a + b| - 1] == a + front && (a + b)[|a + b| - 1] == last;
      CandidatesConcat(a, front, events, now);
      if OutcomeOf(last, events, now).Alerts? {
        var x, y := Candidates(a, events, now), Candidates(front, events, now);
        assert x + (y + OutcomeOf(last, events, now).alerts) == (x + y) + OutcomeOf(last, events, now).alerts;
      }
    }
  }

  /** One rule contributes its alerts, and none when it raises. */
  lemma CandidatesOfOne(rule: Rule, events: seq<Event>, now: Instant)
    ensures Candidates([rule], events, now)
         == if !rule.OtherRule? then ProximityAlerts(rule, events, now)
            else if rule.outcome.Raised? then [] else rule.outcome.alerts
  {
    hide ProximityAlerts;
    var none: seq<Rule> := [];
    assert [rule][..0] == none;
    NoCandidatesYet(events, now);
  }

  /** The alert's grade is that of the rule's thresholds at the time it was triggered. */
  predicate GradedAs(a: Alert, r: Rule) {
    match r
    case HolidayRule => a.event.detail.Holiday? && a.severity == Info && a.event.date >= DateOf(a.triggeredAt)
    case DstRule(warning, critical) =>
      && a.event.detail.DstChange? && a.event.date >= DateOf(a.triggeredAt)
      && DateGraded(a, a.triggeredAt, warning, critical)
    case ExpiryRule(warning, _) =>
      && a.event.detail.Expiry? && a.event.detail.expiryDate >= DateOf(a.triggeredAt)
      && ExpiryGraded(a, a.triggeredAt, warning)
    case ReleaseRule(warning, critical, _) =>
      && a.event.detail.Release? && a.event.date >= DateOf(a.triggeredAt)
      && DateGraded(a, a.triggeredAt, warning, critical)
    case OtherRule(_, _) => true
  }

  lemma MadeGraded(a: Alert, rule: Rule, r: Rule, e: Event, now: Instant)
    requires RuleId(rule) == RuleId(r) && Handles(rule, e) && MadeAs(a, r, e, now) && !r.OtherRule?
    ensures GradedAs(a, r) && a.triggeredAt == now
  {
    RuleIdExactly(rule, r);
    hide RuleId, AlertId;
  }

  lemma HandledBy(rules: seq<Rule>, r: Rule, e: Event)
    requires HandledAs(rules, r, e)
    ensures exists k :: 0 <= k < |rules| && RuleId(rules[k]) == RuleId(r) && Handles(rules[k], e)
  {
  }

  /** Over any run, interrupted or not, every alert that a proximity rule returns is graded by the days
      that were left when it was triggered, and was triggered in one of the rounds. */
  lemma {:induction false} ReturnedGraded(rounds: seq<Round>, r: Rule, a: Alert)
    requires AllSound(rounds) && !r.OtherRule? && forall i :: 0 <= i < |rounds| ==> Genuine(rounds[i].rules, r)
    requires a in Run(map[], rounds).1 && a.ruleId == RuleId(r)
    ensures GradedAs(a, r) && a.severity != Info
    ensures exists i :: 0 <= i < |rounds| && rounds[i].now == a.triggeredAt
  {
    hide Run, Process, Window, AlertId, RuleId, History, Candidates, Sublist, HandledAs, Genuine, RulesDerive, Honest,
         GradedAs;
    RunIsProcess(map[], rounds);
    SublistMembers(Run(map[], rounds).1, Process(map[], History(rounds)).1);
    ReturnedNotInfo(map[], History(rounds), a);
    HistorySource(rounds, a);
    var i :| 0 <= i < |rounds| && a in CandidatesIn(rounds[i]);
    var round := rounds[i];
    var events := Seen(round);
    SeenPlain(round);
    CandidatesDerived(round.rules, events, round.now);
    CandidateMade(round.rules, r, events, round.now, a, a.event.id);
    var j :| 0 <= j < |events| && HandledAs(round.rules, r, events[j]) && MadeAs(a, r, events[j], round.now);
    HandledBy(round.rules, r, events[j]);
    var k :| 0 <= k < |round.rules| && RuleId(round.rules[k]) == RuleId(r) && Handles(round.rules[k], events[j]);
    MadeGraded(a, round.rules[k], r, events[j], round.now);
  }
}
