/** Alerting over whole runs: any number of evaluations, with arbitrary ingests in between. */
module AlertRuns {
  import opened Text
  import opened Calendar
  import opened Events
  import opened Reference
  import opened Reconciliation
  import opened AlertLog
  import opened Escalation
  import opened AlertEngine
  import opened RuleIds

  /** One evaluation: the rules configured, the events stored, the window, the clock, and the
      candidate at which the alert log raises, if it does. */
  datatype Round = Round(rules: seq<Rule>, store: Store, lo: Date, hi: Date, now: Instant, fault: Option<nat>)

  /** Other rules tag their alerts with their own id. */
  ghost predicate Honest(rules: seq<Rule>) {
    forall i, j :: 0 <= i < |rules| && rules[i].OtherRule? && rules[i].outcome.Alerts?
                   && 0 <= j < |rules[i].outcome.alerts|
                   ==> rules[i].outcome.alerts[j].ruleId == rules[i].ruleId
  }

  ghost predicate Sound(r: Round) {
    WellKeyed(r.store) && PlainIds(r.store) && RulesDerive(r.rules) && Honest(r.rules)
  }

  ghost function Seen(r: Round): seq<Event>
    requires Sound(r)
  {
    Window(r.store, r.lo, r.hi)
  }

  ghost function CandidatesIn(r: Round): seq<Alert>
    requires Sound(r)
  {
    Candidates(r.rules, Seen(r), r.now)
  }

  /** The candidates that reach the log. */
  ghost function StoredIn(r: Round): seq<Alert>
    requires Sound(r)
  {
    var cands := CandidatesIn(r);
    if r.fault.Some? && r.fault.value < |cands| then cands[..r.fault.value] else cands
  }

  ghost predicate AllSound(rounds: seq<Round>) {
    forall i :: 0 <= i < |rounds| ==> Sound(rounds[i])
  }

  /** No evaluation was interrupted. */
  ghost predicate Complete(rounds: seq<Round>) {
    forall i :: 0 <= i < |rounds| ==> rounds[i].fault.None?
  }

  /** The stored candidates of all rounds, in the order in which they came. */
  ghost function History(rounds: seq<Round>): seq<Alert>
    requires AllSound(rounds)
  {
    if rounds == [] then []
    else History(rounds[..|rounds| - 1]) + StoredIn(rounds[|rounds| - 1])
  }

  /** Evaluating round after round from a given log: the log in the end and all returned alerts. */
  ghost function Run(log: Log, rounds: seq<Round>): (Log, seq<Alert>)
    requires AllSound(rounds)
  {
    if rounds == [] then (log, [])
    else
      var last := rounds[|rounds| - 1];
      var (log1, out1) := Run(log, rounds[..|rounds| - 1]);
      var (log2, told) := Interrupted(log1, CandidatesIn(last), last.fault);
      (log2, out1 + told.GetOr([]))
  }

  lemma RoundIsProcess(log: Log, r: Round)
    requires Sound(r)
    ensures var (after, told) := Interrupted(log, CandidatesIn(r), r.fault);
            && after == Process(log, StoredIn(r)).0
            && Sublist(told.GetOr([]), Process(log, StoredIn(r)).1)
            && (r.fault.None? ==> told == Some(Process(log, StoredIn(r)).1))
  {
    hide Process, CandidatesIn;
    SublistSelf(Process(log, StoredIn(r)).1);
  }

  /** A run stores what one pass over the history stores, and returns a part of what that pass
      returns: all of it when no evaluation was interrupted. */
  lemma {:induction false} RunIsProcess(log: Log, rounds: seq<Round>)
    requires AllSound(rounds)
    ensures Run(log, rounds).0 == Process(log, History(rounds)).0
    ensures Sublist(Run(log, rounds).1, Process(log, History(rounds)).1)
    ensures Complete(rounds) ==> Run(log, rounds) == Process(log, History(rounds))
  {
    hide Process, CandidatesIn, StoredIn, Interrupted, Sound, Sublist;
    if rounds == [] {
      ProcessNothing(log);
      SublistSelf([]);
    } else {
      var front, last := rounds[..|rounds| - 1], rounds[|rounds| - 1];
      RunIsProcess(log, front);
      RoundIsProcess(Run(log, front).0, last);
      ProcessConcat(log, History(front), StoredIn(last));
      var (log1, out1) := Process(log, History(front));
      SublistConcat(Run(log, front).1, out1,
                    Interrupted(log1, CandidatesIn(last), last.fault).1.GetOr([]), Process(log1, StoredIn(last)).1);
    }
  }

  // ----- where a candidate comes from ----------------------------------------------

  /** `c` is what a rule with the id and the thresholds of `r` says at `now` about `e`. */
  predicate MadeAs(c: Alert, r: Rule, e: Event, now: Instant) {
    && Due(r, e) >= DateOf(now)
    && c == MakeAlert(RuleId(r), e, Classify(r, Due(r, e) - DateOf(now)), now)
  }

  /** `c` is the alert that rule `r` makes at `now` for the event `e`. */
  predicate MadeFor(c: Alert, r: Rule, e: Event, now: Instant) {
    Handles(r, e) && MadeAs(c, r, e, now)
  }

  ghost predicate Made(c: Alert, r: Rule, events: seq<Event>, now: Instant) {
    exists j :: 0 <= j < |events| && MadeFor(c, r, events[j], now)
  }

  lemma MadeLast(c: Alert, r: Rule, e: Event, now: Instant)
    requires Handles(r, e) && Due(r, e) - DateOf(now) >= 0
    requires c == MakeAlert(RuleId(r), e, Classify(r, Due(r, e) - DateOf(now)), now)
    ensures MadeFor(c, r, e, now)
  {
  }

  lemma {:induction false} ProximityMakes(r: Rule, events: seq<Event>, now: Instant, c: Alert)
    requires !r.OtherRule? && c in ProximityAlerts(r, events, now)
    ensures Made(c, r, events, now)
  {
    hide MadeFor;
    if events == [] {
    } else {
      var front, e := events[..|events| - 1], events[|events| - 1];
      if c in ProximityAlerts(r, front, now) {
        ProximityMakes(r, front, now, c);
        var j :| 0 <= j < |front| && MadeFor(c, r, front[j], now);
        assert events[j] == front[j];
      } else {
        assert MadeFor(c, r, events[|events| - 1], now) by { MadeLast(c, r, e, now); }
      }
    }
  }

  lemma {:induction false} MadeIsEmitted(r: Rule, events: seq<Event>, now: Instant, j: nat, c: Alert)
    requires j < |events| && MadeFor(c, r, events[j], now)
    ensures c in ProximityAlerts(r, events, now)
  {
    hide RuleId, Classify;
    var front := events[..|events| - 1];
    if j == |front| {
    } else {
      MadeIsEmitted(r, front, now, j, c);
    }
  }

  /** A proximity rule emits exactly one kind of alert for exactly the events that it handles and
      whose day has not passed, graded by the days that are left. */
  lemma ProximityExactly(r: Rule, events: seq<Event>, now: Instant, c: Alert)
    requires !r.OtherRule?
    ensures c in ProximityAlerts(r, events, now) <==> Made(c, r, events, now)
  {
    hide MadeFor, ProximityAlerts;
    if c in ProximityAlerts(r, events, now) {
      ProximityMakes(r, events, now, c);
    }
    if Made(c, r, events, now) {
      var j :| 0 <= j < |events| && MadeFor(c, r, events[j], now);
      MadeIsEmitted(r, events, now, j, c);
    }
  }

  lemma {:induction false} OfIdConcat(a: seq<Alert>, b: seq<Alert>, id: string)
    ensures OfId(a + b, id) == OfId(a, id) + OfId(b, id)
  {
    hide OfId;
    if b == [] {
      assert a + b == a;
      NothingProcessed(map[], id);
    } else {
      var front, x := b[..|b| - 1], b[|b| - 1];
      OfIdConcat(a, front, id);
      assert a + b == (a + front) + [x] && b == front + [x];
      OfIdSnoc(a + front, x, id);
      OfIdSnoc(front, x, id);
    }
  }

  /** Every configured rule with the id of `r` is a proximity rule; so it is of the same kind and
      has the same thresholds, though it may handle other events. */
  ghost predicate Genuine(rules: seq<Rule>, r: Rule) {
    forall i :: 0 <= i < |rules| && RuleId(rules[i]) == RuleId(r) ==> !rules[i].OtherRule?
  }

  /** Some configured rule with the id of `r` handles the event. */
  ghost predicate HandledAs(rules: seq<Rule>, r: Rule, e: Event) {
    exists i :: 0 <= i < |rules| && RuleId(rules[i]) == RuleId(r) && Handles(rules[i], e)
  }

  ghost predicate MadeUnder(c: Alert, rules: seq<Rule>, r: Rule, events: seq<Event>, now: Instant) {
    exists j :: 0 <= j < |events| && HandledAs(rules, r, events[j]) && MadeAs(c, r, events[j], now)
  }

  lemma OtherRuleId(rule: Rule)
    ensures rule.OtherRule? ==> RuleId(rule) == rule.ruleId
  {
  }

  lemma OwnAlert(rule: Rule, r: Rule, events: seq<Event>, now: Instant, c: Alert, eid: string)
    requires !r.OtherRule? && (RuleId(rule) == RuleId(r) ==> !rule.OtherRule?) && ':' !in eid
    requires forall i :: 0 <= i < |events| ==> events[i].id != "" && ':' !in events[i].id
    requires OutcomeOf(rule, events, now).Alerts? && c in OutcomeOf(rule, events, now).alerts
    requires rule.OtherRule? ==> Derived(c) && c.ruleId == rule.ruleId
    requires c.id == AlertId(RuleId(r), eid)
    ensures c.event.id == eid && RuleId(rule) == RuleId(r)
    ensures exists j :: 0 <= j < |events| && Handles(rule, events[j]) && MadeAs(c, r, events[j], now)
  {
    hide AlertId, RuleId, Classify, Due, ProximityAlerts, Handles;
    if rule.OtherRule? {
      AlertIdDeterminesPair(c.ruleId, c.event.id, RuleId(r), eid);
      OtherRuleId(rule);
    } else {
      ProximityMakes(rule, events, now, c);
      var j :| 0 <= j < |events| && MadeFor(c, rule, events[j], now);
      AlertIdDeterminesPair(c.ruleId, c.event.id, RuleId(r), eid);
      RuleIdExactly(rule, r);
      SameGrades(rule, r, events[j], Due(rule, events[j]) - DateOf(now));
      assert Handles(rule, events[j]) && MadeAs(c, r, events[j], now);
    }
  }

  lemma HandledByFront(rules: seq<Rule>, r: Rule, e: Event)
    requires rules != []
    ensures HandledAs(rules[..|rules| - 1], r, e) ==> HandledAs(rules, r, e)
    ensures RuleId(rules[|rules| - 1]) == RuleId(r) && Handles(rules[|rules| - 1], e) ==> HandledAs(rules, r, e)
  {
    hide RuleId, Handles;
    var front := rules[..|rules| - 1];
    if HandledAs(front, r, e) {
      var i :| 0 <= i < |front| && RuleId(front[i]) == RuleId(r) && Handles(front[i], e);
      assert rules[i] == front[i];
    }
  }

  /** Every candidate under a proximity rule's alert id was made by a rule with its id. */
  lemma {:induction false} CandidateMade(rules: seq<Rule>, r: Rule, events: seq<Event>, now: Instant,
                                         c: Alert, eid: string)
    requires !r.OtherRule? && Genuine(rules, r) && ':' !in eid && RulesDerive(rules) && Honest(rules)
    requires forall i :: 0 <= i < |events| ==> events[i].id != "" && ':' !in events[i].id
    requires c in Candidates(rules, events, now) && c.id == AlertId(RuleId(r), eid)
    ensures MadeUnder(c, rules, r, events, now) && c.event.id == eid
  {
    hide MadeAs, HandledAs, AlertId, RuleId, Derived, ProximityAlerts, Handles;
    var front, rule := rules[..|rules| - 1], rules[|rules| - 1];
    if c in Candidates(front, events, now) {
      CandidateMade(front, r, events, now, c, eid);
      var j :| 0 <= j < |events| && HandledAs(front, r, events[j]) && MadeAs(c, r, events[j], now);
      HandledByFront(rules, r, events[j]);
    } else {
      var alerts := OutcomeOf(rule, events, now).alerts;
      var i :| 0 <= i < |alerts| && alerts[i] == c;
      OwnAlert(rule, r, events, now, c, eid);
      var j :| 0 <= j < |events| && Handles(rule, events[j]) && MadeAs(c, r, events[j], now);
      HandledByFront(rules, r, events[j]);
    }
  }

  // ----- at most once per tier -----------------------------------------------------

  /** The clock never goes back. */
  ghost predicate ClockForward(rounds: seq<Round>) {
    forall i, j :: 0 <= i < j < |rounds| ==> rounds[i].now <= rounds[j].now
  }

  /** Whatever event both rounds see under one id is due on the same day. */
  ghost predicate SameDue(a: Round, b: Round, r: Rule)
    requires Sound(a) && Sound(b)
  {
    forall e, f :: e in Seen(a) && f in Seen(b) && HandledAs(a.rules, r, e) && HandledAs(b.rules, r, f) && e.id == f.id
                   ==> Due(r, e) == Due(r, f)
  }

  /** Or is not due later in the second. */
  ghost predicate NoLaterDue(a: Round, b: Round, r: Rule)
    requires Sound(a) && Sound(b)
  {
    forall e, f :: e in Seen(a) && f in Seen(b) && HandledAs(a.rules, r, e) && HandledAs(b.rules, r, f) && e.id == f.id
                   ==> Due(r, f) <= Due(r, e)
  }

  /** An event id always means the same due date to the rule. */
  ghost predicate FixedDue(rounds: seq<Round>, r: Rule)
    requires AllSound(rounds)
  {
    forall i, j :: 0 <= i < |rounds| && 0 <= j < |rounds| ==> SameDue(rounds[i], rounds[j], r)
  }

  /** An event id's due date never moves to a later day. */
  ghost predicate DueNeverLater(rounds: seq<Round>, r: Rule)
    requires AllSound(rounds)
  {
    forall i, j :: 0 <= i <= j < |rounds| ==> NoLaterDue(rounds[i], rounds[j], r)
  }

  lemma FixedDueNeverLater(rounds: seq<Round>, r: Rule)
    requires AllSound(rounds) && FixedDue(rounds, r)
    ensures DueNeverLater(rounds, r)
  {
    hide Sound, Seen, HandledAs, Due;
    forall i, j | 0 <= i <= j < |rounds| ensures NoLaterDue(rounds[i], rounds[j], r) {
      assert SameDue(rounds[i], rounds[j], r);
    }
  }

  ghost predicate Watched(rounds: seq<Round>, r: Rule) {
    && !r.OtherRule?
    && AllSound(rounds)
    && (forall i :: 0 <= i < |rounds| ==> Genuine(rounds[i].rules, r))
    && ClockForward(rounds)
    && DueNeverLater(rounds, r)
  }

  ghost predicate MadeInRound(c: Alert, r: Rule, round: Round, eid: string)
    requires Sound(round)
  {
    MadeUnder(c, round.rules, r, Seen(round), round.now) && c.event.id == eid
  }

  lemma SeenPlain(round: Round)
    requires Sound(round)
    ensures forall j :: 0 <= j < |Seen(round)| ==> Seen(round)[j].id != "" && ':' !in Seen(round)[j].id
  {
    hide Window, RulesDerive, Honest;
    forall j | 0 <= j < |Seen(round)| ensures Seen(round)[j].id != "" && ':' !in Seen(round)[j].id {
      WindowFromStore(round.store, round.lo, round.hi, j);
    }
  }

  lemma RoundCandidates(round: Round, r: Rule, eid: string)
    requires Sound(round) && !r.OtherRule? && Genuine(round.rules, r) && ':' !in eid
    ensures forall c :: c in CandidatesIn(round) && c.id == AlertId(RuleId(r), eid) ==> MadeInRound(c, r, round, eid)
  {
    hide MadeUnder, AlertId, RuleId, Candidates, Genuine, RulesDerive, Honest, Window;
    SeenPlain(round);
    forall c | c in CandidatesIn(round) && c.id == AlertId(RuleId(r), eid) ensures MadeInRound(c, r, round, eid) {
      CandidateMade(round.rules, r, Seen(round), round.now, c, eid);
    }
  }

  lemma ClassifyMonotone(r: Rule, d1: int, d2: int)
    requires d2 <= d1
    ensures SeverityRank(Classify(r, d1)) <= SeverityRank(Classify(r, d2))
  {
  }

  lemma WatchedSound(rounds: seq<Round>, r: Rule)
    requires Watched(rounds, r)
    ensures !r.OtherRule? && AllSound(rounds)
    ensures forall i :: 0 <= i < |rounds| ==> Genuine(rounds[i].rules, r)
  {
  }

  lemma WatchedPair(rounds: seq<Round>, r: Rule, i: nat, j: nat, e: Event, f: Event)
    requires Watched(rounds, r) && i <= j < |rounds|
    requires Sound(rounds[i]) && Sound(rounds[j]) && e in Seen(rounds[i]) && f in Seen(rounds[j])
    requires HandledAs(rounds[i].rules, r, e) && HandledAs(rounds[j].rules, r, f) && e.id == f.id
    ensures Due(r, f) <= Due(r, e) && rounds[i].now <= rounds[j].now
  {
    hide Seen, Sound, Due, HandledAs, Genuine;
    assert NoLaterDue(rounds[i], rounds[j], r);
  }

  lemma MadeAsFacts(c: Alert, r: Rule, e: Event, now: Instant)
    requires MadeAs(c, r, e, now)
    ensures c.event == e && c.triggeredAt == now && Due(r, e) >= DateOf(now)
    ensures c.severity == Classify(r, Due(r, e) - DateOf(now))
  {
  }

  lemma LaterIsNoLower(rounds: seq<Round>, r: Rule, i: nat, j: nat, c: Alert, d: Alert, eid: string)
    requires Watched(rounds, r) && AllSound(rounds) && i <= j < |rounds|
    requires MadeInRound(c, r, rounds[i], eid) && MadeInRound(d, r, rounds[j], eid)
    ensures SeverityRank(c.severity) <= SeverityRank(d.severity)
  {
    hide SeverityRank, Classify, MadeAs, Watched, Sound, Seen, Due, HandledAs;
    var es, fs := Seen(rounds[i]), Seen(rounds[j]);
    var x :| 0 <= x < |es| && HandledAs(rounds[i].rules, r, es[x]) && MadeAs(c, r, es[x], rounds[i].now);
    var y :| 0 <= y < |fs| && HandledAs(rounds[j].rules, r, fs[y]) && MadeAs(d, r, fs[y], rounds[j].now);
    MadeAsFacts(c, r, es[x], rounds[i].now);
    MadeAsFacts(d, r, fs[y], rounds[j].now);
    WatchedPair(rounds, r, i, j, es[x], fs[y]);
    ClassifyMonotone(r, Due(r, es[x]) - DateOf(rounds[i].now), Due(r, fs[y]) - DateOf(rounds[j].now));
  }

  ghost predicate MadeSomewhere(c: Alert, r: Rule, rounds: seq<Round>, eid: string)
    requires AllSound(rounds)
  {
    exists i :: 0 <= i < |rounds| && MadeInRound(c, r, rounds[i], eid)
  }

  lemma WatchedPrefix(rounds: seq<Round>, r: Rule)
    requires Watched(rounds, r) && rounds != []
    ensures Watched(rounds[..|rounds| - 1], r)
  {
    hide Sound, Genuine, NoLaterDue;
    var front := rounds[..|rounds| - 1];
    assert forall i :: 0 <= i < |front| ==> front[i] == rounds[i];
  }

  lemma StoredAreCandidates(r: Round)
    requires Sound(r)
    ensures forall c :: c in StoredIn(r) ==> c in CandidatesIn(r)
  {
    hide CandidatesIn;
  }

  lemma OfIdMember(alerts: seq<Alert>, id: string, c: Alert)
    requires c in OfId(alerts, id)
    ensures c in alerts && c.id == id
  {
    hide OfId;
    var i :| 0 <= i < |OfId(alerts, id)| && OfId(alerts, id)[i] == c;
  }

  /** Over the run, the stored candidates for one rule and event never fall in severity. */
  lemma {:induction false} HistoryRises(rounds: seq<Round>, r: Rule, eid: string)
    requires Watched(rounds, r) && ':' !in eid
    ensures Rising(OfId(History(rounds), AlertId(RuleId(r), eid)))
    ensures forall c :: c in OfId(History(rounds), AlertId(RuleId(r), eid)) ==> MadeSomewhere(c, r, rounds, eid)
  {
    hide Watched, MadeInRound, AlertId, RuleId, OfId, CandidatesIn, StoredIn, SeverityRank, Sound;
    var id := AlertId(RuleId(r), eid);
    if rounds == [] {
      NothingProcessed(map[], id);
      assert History(rounds) == [];
    } else {
      WatchedSound(rounds, r);
      var front, last := rounds[..|rounds| - 1], rounds[|rounds| - 1];
      WatchedPrefix(rounds, r);
      HistoryRises(front, r, eid);
      var late := StoredIn(last);
      OfIdConcat(History(front), late, id);
      StoredAreCandidates(last);
      RoundCandidates(last, r, eid);
      var a, b := OfId(History(front), id), OfId(late, id);
      forall c | c in a ensures MadeSomewhere(c, r, rounds, eid) {
        var i :| 0 <= i < |front| && MadeInRound(c, r, front[i], eid);
        assert rounds[i] == front[i];
      }
      forall c | c in b ensures MadeSomewhere(c, r, rounds, eid) && MadeInRound(c, r, last, eid) {
        OfIdMember(late, id, c);
        assert MadeInRound(c, r, rounds[|rounds| - 1], eid);
      }
      forall x, y | 0 <= x < y < |a + b|
        ensures SeverityRank((a + b)[x].severity) <= SeverityRank((a + b)[y].severity)
      {
        if y >= |a| {
          var d := (a + b)[y];
          assert d in b;
          if x < |a| {
            assert a[x] in a;
            var i :| 0 <= i < |front| && MadeInRound(a[x], r, front[i], eid);
            assert rounds[i] == front[i];
            LaterIsNoLower(rounds, r, i, |rounds| - 1, a[x], d, eid);
          } else {
            assert (a + b)[x] in b;
            LaterIsNoLower(rounds, r, |rounds| - 1, |rounds| - 1, (a + b)[x], d, eid);
          }
        }
      }
    }
  }

  lemma InfoRank()
    ensures SeverityRank(Info) == 0
  {
  }

  lemma MadeFacts(a: Alert, r: Rule, rounds: seq<Round>, eid: string)
    requires AllSound(rounds) && MadeSomewhere(a, r, rounds, eid)
    ensures a.event.id == eid && DateOf(a.triggeredAt) <= Due(r, a.event)
    ensures r.HolidayRule? ==> a.severity == Info
    ensures r.ExpiryRule? ==> a.severity != Critical
  {
    hide Seen, Sound, RuleId, AlertId, HandledAs;
    var i :| 0 <= i < |rounds| && MadeInRound(a, r, rounds[i], eid);
    var events := Seen(rounds[i]);
    var j :| 0 <= j < |events| && HandledAs(rounds[i].rules, r, events[j]) && MadeAs(a, r, events[j], rounds[i].now);
  }

  lemma SeverityMembers(alerts: seq<Alert>)
    ensures forall x :: x in Severities(alerts) <==> exists a :: a in alerts && a.severity == x
  {
    var s := Severities(alerts);
    forall x ensures x in s <==> exists a :: a in alerts && a.severity == x {
      if x in s {
        var i :| 0 <= i < |s| && s[i] == x;
        assert alerts[i] in alerts;
      }
      if exists a :: a in alerts && a.severity == x {
        var a :| a in alerts && a.severity == x;
        var i :| 0 <= i < |alerts| && alerts[i] == a;
        assert s[i] == x;
      }
    }
  }

  lemma TopIsStored(out: seq<Alert>, log: Log, cands: seq<Alert>, id: string)
    requires Tracked(cands, log, out, id)
    ensures id in log && log[id].severity == Critical <==> Critical in Severities(out)
  {
    var s := Severities(out);
    if Critical in s {
      var i :| 0 <= i < |s| && s[i] == Critical;
      assert SeverityRank(out[i].severity) == 2;
    }
    if id in log && log[id].severity == Critical {
      assert SeverityRank(out[|out| - 1].severity) == 2;
      assert s[|out| - 1] == Critical;
    }
  }

  lemma TrackedRises(cands: seq<Alert>, log: Log, out: seq<Alert>, id: string)
    requires Tracked(cands, log, out, id)
    ensures StrictlyRising(out)
  {
  }

  /** Over any run with a clock that never goes back, interrupted or not, one proximity rule returns
      one event at most once as WARNING and at most once as CRITICAL, in that order and never after
      its date. Its stored severity is CRITICAL whenever CRITICAL was returned, and, if no evaluation
      was interrupted, only then. */
  lemma NotifiedOncePerTier(rounds: seq<Round>, r: Rule, eid: string)
    requires Watched(rounds, r) && ':' !in eid
    ensures var id := AlertId(RuleId(r), eid);
            var (log, out) := Run(map[], rounds);
            && NotifiedInOrder(Severities(OfId(out, id)))
            && (forall a :: a in OfId(out, id) ==> a.event.id == eid && DateOf(a.triggeredAt) <= Due(r, a.event))
            && (Critical in Severities(OfId(out, id)) ==> id in log && log[id].severity == Critical)
            && (Complete(rounds) && id in log && log[id].severity == Critical ==> Critical in Severities(OfId(out, id)))
            && (r.HolidayRule? ==> OfId(out, id) == [])
            && (r.ExpiryRule? ==> Critical !in Severities(OfId(out, id)))
  {
    hide Process, OfId, AlertId, RuleId, Watched, History, Run, MadeSomewhere, SeverityRank, IsReturned, Sound,
         Sublist, StrictlyRising, NotifiedInOrder;
    WatchedSound(rounds, r);
    var id := AlertId(RuleId(r), eid);
    RunIsProcess(map[], rounds);
    HistoryRises(rounds, r, eid);
    var cands := OfId(History(rounds), id);
    Locality(map[], History(rounds), id);
    RisingReturns(cands, id);
    var (log, all) := Process(map[], cands);
    var out := OfId(Run(map[], rounds).1, id);
    SublistOfId(Run(map[], rounds).1, Process(map[], History(rounds)).1, id);
    SublistMembers(out, all);
    TrackedRises(cands, log, all, id);
    SublistRises(out, all);
    TopIsStored(all, log, cands, id);
    SeverityMembers(out);
    SeverityMembers(all);
    forall a | a in out
      ensures a.event.id == eid && DateOf(a.triggeredAt) <= Due(r, a.event)
      ensures SeverityRank(a.severity) > 0
      ensures r.HolidayRule? ==> a.severity == Info
      ensures r.ExpiryRule? ==> a.severity != Critical
    {
      ReturnedNotInfo(map[], cands, a);
      MadeFacts(a, r, rounds, eid);
    }
    StrictMeansInOrder(out);
    InfoRank();
    if out != [] {
      assert out[0] in out;
    }
  }

  // ----- stores whose ids are derived ----------------------------------------------

  /** Ids come from natural keys without colons, and an expiry is dated by its expiry date, as
      every exchange normalizer does. */
  predicate Canonical(e: Event) {
    DerivedId(e) && ColonFree(e) && (e.detail.Expiry? ==> e.detail.expiryDate == e.date)
  }

  ghost predicate CanonicalStore(s: Store) {
    forall id :: id in s ==> Canonical(s[id])
  }

  lemma CanonicalPlain(s: Store)
    requires WellKeyed(s) && CanonicalStore(s)
    ensures PlainIds(s)
  {
    hide Digest, EventKey;
    forall id | id in s ensures ':' !in id {
      DigestHasNoColon(EventKey(s[id]));
    }
  }

  lemma DueFromKey(e: Event, f: Event, x: Event, y: Event, r: Rule)
    requires Canonical(x) && Canonical(y) && x.id == y.id
    requires x.date == e.date && y.date == f.date && TypeOf(x) == TypeOf(e) && TypeOf(y) == TypeOf(f)
    requires (!e.detail.Release? ==> x == e) && (!f.detail.Release? ==> y == f)
    ensures Due(r, e) == Due(r, f)
  {
    hide Digest, EventKey, DerivedId, ColonFree;
    EventIdDeterminesKey(x, y);
  }

  lemma CanonicalSameDue(a: Round, b: Round, r: Rule)
    requires Sound(a) && Sound(b) && CanonicalStore(a.store) && CanonicalStore(b.store)
    ensures SameDue(a, b, r)
  {
    hide Canonical, Due, HandledAs, Window, PlainIds, RulesDerive, Honest;
    forall e, f | e in Seen(a) && f in Seen(b) && HandledAs(a.rules, r, e) && HandledAs(b.rules, r, f) && e.id == f.id
      ensures Due(r, e) == Due(r, f)
    {
      var x :| 0 <= x < |Seen(a)| && Seen(a)[x] == e;
      var y :| 0 <= y < |Seen(b)| && Seen(b)[y] == f;
      WindowFromStore(a.store, a.lo, a.hi, x);
      WindowFromStore(b.store, b.lo, b.hi, y);
      DueFromKey(e, f, a.store[e.id], b.store[f.id], r);
    }
  }

  /** With derived ids the due date of an id is fixed, so the run theorem applies. */
  lemma CanonicalFixesDue(rounds: seq<Round>, r: Rule)
    requires AllSound(rounds) && forall i :: 0 <= i < |rounds| ==> CanonicalStore(rounds[i].store)
    ensures FixedDue(rounds, r)
  {
    hide Sound, CanonicalStore, SameDue;
    forall i, j | 0 <= i < |rounds| && 0 <= j < |rounds| ensures SameDue(rounds[i], rounds[j], r) {
      CanonicalSameDue(rounds[i], rounds[j], r);
    }
  }

  // ----- alerts per real release ---------------------------------------------------

  ghost function StoredIds(rounds: seq<Round>, k: Key): set<string> {
    set i, id | 0 <= i < |rounds| && id in rounds[i].store && Reports(rounds[i].store[id], k) :: id
  }

  /** The alerts of one rule about one release. */
  function About(alerts: seq<Alert>, ruleId: string, k: Key): (r: seq<Alert>)
    ensures forall i :: 0 <= i < |r| ==> r[i] in alerts && r[i].ruleId == ruleId && Reports(r[i].event, k)
  {
    if alerts == [] then []
    else
      var front, a := About(alerts[..|alerts| - 1], ruleId, k), alerts[|alerts| - 1];
      if a.ruleId == ruleId && Reports(a.event, k) then front + [a] else front
  }

  lemma {:induction false} AboutOfId(alerts: seq<Alert>, ruleId: string, k: Key, id: string)
    ensures |OfId(About(alerts, ruleId, k), id)| <= |OfId(alerts, id)|
  {
    if alerts == [] {
    } else {
      AboutOfId(alerts[..|alerts| - 1], ruleId, k, id);
      OfIdSnoc(About(alerts[..|alerts| - 1], ruleId, k), alerts[|alerts| - 1], id);
    }
  }

  function Without(alerts: seq<Alert>, id: string): (r: seq<Alert>)
    ensures forall i :: 0 <= i < |r| ==> r[i] in alerts && r[i].id != id
  {
    if alerts == [] then []
    else
      var front, a := Without(alerts[..|alerts| - 1], id), alerts[|alerts| - 1];
      if a.id == id then front else front + [a]
  }

  lemma {:induction false} SplitById(alerts: seq<Alert>, id: string, other: string)
    ensures |alerts| == |OfId(alerts, id)| + |Without(alerts, id)|
    ensures |OfId(Without(alerts, id), other)| <= |OfId(alerts, other)|
  {
    if alerts == [] {
    } else {
      SplitById(alerts[..|alerts| - 1], id, other);
      OfIdSnoc(Without(alerts[..|alerts| - 1], id), alerts[|alerts| - 1], other);
    }
  }

  lemma FirstIn(alerts: seq<Alert>)
    ensures alerts != [] ==> exists a :: a in alerts
  {
    if alerts != [] {
      assert alerts[0] in alerts;
    }
  }

  /** At most two alerts per id, and few ids, make few alerts. */
  lemma {:induction false} CountById(alerts: seq<Alert>, ids: set<string>)
    requires forall a :: a in alerts ==> a.id in ids
    requires forall id :: id in ids ==> |OfId(alerts, id)| <= 2
    ensures |alerts| <= 2 * |ids|
    decreases |ids|
  {
    hide OfId, Without;
    if ids == {} {
      FirstIn(alerts);
    } else {
      var id :| id in ids;
      forall other | other in ids - {id} ensures |OfId(Without(alerts, id), other)| <= 2 {
        SplitById(alerts, id, other);
      }
      CountById(Without(alerts, id), ids - {id});
      SplitById(alerts, id, id);
    }
  }

  lemma ImageNoLarger(eids: set<string>, ruleId: string)
    ensures |set e | e in eids :: AlertId(ruleId, e)| <= |eids|
    decreases |eids|
  {
    hide AlertId;
    var ids := set e | e in eids :: AlertId(ruleId, e);
    if eids == {} {
      assert ids == {};
    } else {
      var e :| e in eids;
      var rest := set x | x in eids - {e} :: AlertId(ruleId, x);
      ImageNoLarger(eids - {e}, ruleId);
      assert ids == rest + {AlertId(ruleId, e)};
    }
  }

  lemma ShortHistory(severities: seq<Severity>)
    requires NotifiedInOrder(severities)
    ensures |severities| <= 2
  {
  }

  lemma {:induction false} HistorySource(rounds: seq<Round>, a: Alert)
    requires AllSound(rounds) && a in History(rounds)
    ensures exists i :: 0 <= i < |rounds| && a in CandidatesIn(rounds[i])
  {
    hide Sound, CandidatesIn, StoredIn;
    var front, last := rounds[..|rounds| - 1], rounds[|rounds| - 1];
    StoredAreCandidates(last);
    if a in History(front) {
      HistorySource(front, a);
      var i :| 0 <= i < |front| && a in CandidatesIn(front[i]);
      assert rounds[i] == front[i];
    } else {
      assert a in CandidatesIn(rounds[|rounds| - 1]);
    }
  }

  /** A returned release alert is about an event id stored for that release. */
  lemma ReturnedReleaseStored(rounds: seq<Round>, r: Rule, k: Key, a: Alert)
    requires Watched(rounds, r) && AllSound(rounds) && r.ReleaseRule?
    requires a in About(Run(map[], rounds).1, RuleId(r), k)
    ensures a.event.id in StoredIds(rounds, k) && a.id == AlertId(RuleId(r), a.event.id)
  {
    hide Run, Process, Window, AlertId, RuleId, History, Candidates, DueNeverLater, ClockForward, Sublist, HandledAs,
         Genuine, RulesDerive, Honest;
    RunIsProcess(map[], rounds);
    SublistMembers(Run(map[], rounds).1, Process(map[], History(rounds)).1);
    ReturnedNotInfo(map[], History(rounds), a);
    HistorySource(rounds, a);
    var i :| 0 <= i < |rounds| && a in CandidatesIn(rounds[i]);
    var round := rounds[i];
    var events := Seen(round);
    SeenPlain(round);
    CandidatesDerived(round.rules, events, round.now);
    CandidateMade(round.rules, r, events, round.now, a, a.event.id);
    var j :| 0 <= j < |events| && HandledAs(round.rules, r, events[j]) && MadeAs(a, r, events[j], round.now);
    WindowFromStore(round.store, round.lo, round.hi, j);
    assert Reports(round.store[a.event.id], k);
  }

  lemma StoredIdsPlain(rounds: seq<Round>, k: Key, e: string)
    requires AllSound(rounds) && e in StoredIds(rounds, k)
    ensures ':' !in e
  {
  }

  /** Over a whole run, one release (code and date) is alerted at most twice for each distinct
      event id ever stored for it. */
  lemma AlertsPerRelease(rounds: seq<Round>, r: Rule, k: Key)
    requires Watched(rounds, r) && r.ReleaseRule?
    ensures |About(Run(map[], rounds).1, RuleId(r), k)| <= 2 * |StoredIds(rounds, k)|
  {
    hide Watched, Run, OfId, About, AlertId, RuleId, History, Process, NotifiedInOrder, Reports, Sound, MadeSomewhere,
         SeverityRank, StoredIds;
    WatchedSound(rounds, r);
    var all := Run(map[], rounds).1;
    var alerts := About(all, RuleId(r), k);
    var eids := StoredIds(rounds, k);
    var ids := set e | e in eids :: AlertId(RuleId(r), e);
    forall e | e in eids ensures |OfId(alerts, AlertId(RuleId(r), e))| <= 2 {
      StoredIdsPlain(rounds, k, e);
      NotifiedOncePerTier(rounds, r, e);
      ShortHistory(Severities(OfId(all, AlertId(RuleId(r), e))));
      AboutOfId(all, RuleId(r), k, AlertId(RuleId(r), e));
    }
    forall a | a in alerts ensures a.id in ids {
      ReturnedReleaseStored(rounds, r, k, a);
    }
    CountById(alerts, ids);
    ImageNoLarger(eids, RuleId(r));
  }
}
