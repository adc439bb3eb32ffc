/** Rules do not disturb each other: their ids are apart, and one that raises is as if absent. */
module AlertIsolation {
  import opened Text
  import opened Calendar
  import opened Events
  import opened AlertLog
  import opened Escalation
  import opened AlertEngine
  import opened AlertRuns

  function WithoutRule(rules: seq<Rule>, i: nat): seq<Rule>
    requires i < |rules|
  {
    rules[..i] + rules[i + 1..]
  }

  /** A rule that raises leaves the candidates of all the others exactly as without it. */
  lemma {:induction false} RaisingIsAbsent(rules: seq<Rule>, i: nat, events: seq<Event>, now: Instant)
    requires i < |rules| && OutcomeOf(rules[i], events, now).Raised?
    ensures Candidates(rules, events, now) == Candidates(WithoutRule(rules, i), events, now)
    decreases |rules|
  {
    hide OutcomeOf;
    var front, last := rules[..|rules| - 1], rules[|rules| - 1];
    if i == |front| {
      assert WithoutRule(rules, i) == front;
    } else {
      RaisingIsAbsent(front, i, events, now);
      assert WithoutRule(rules, i)[..|rules| - 2] == WithoutRule(front, i);
      assert WithoutRule(rules, i)[|rules| - 2] == last;
    }
  }

  /** The rule makes no alert under this id. */
  ghost predicate Foreign(rule: Rule, events: seq<Event>, now: Instant, id: string) {
    var o := OutcomeOf(rule, events, now);
    o.Alerts? ==> forall c :: c in o.alerts ==> c.id != id
  }

  lemma {:induction false} NoneOfId(alerts: seq<Alert>, id: string)
    requires forall c :: c in alerts ==> c.id != id
    ensures OfId(alerts, id) == []
  {
    if alerts == [] {
    } else {
      NoneOfId(alerts[..|alerts| - 1], id);
    }
  }

  /** Dropping a rule leaves the candidates under every id that is not its own as they were. */
  lemma {:induction false} ForeignIsAbsent(rules: seq<Rule>, i: nat, events: seq<Event>, now: Instant, id: string)
    requires i < |rules| && Foreign(rules[i], events, now, id)
    ensures OfId(Candidates(rules, events, now), id) == OfId(Candidates(WithoutRule(rules, i), events, now), id)
    decreases |rules|
  {
    hide OutcomeOf, OfId;
    var front, last := rules[..|rules| - 1], rules[|rules| - 1];
    if i == |front| {
      assert WithoutRule(rules, i) == front;
      if OutcomeOf(last, events, now).Alerts? {
        OfIdConcat(Candidates(front, events, now), OutcomeOf(last, events, now).alerts, id);
        NoneOfId(OutcomeOf(last, events, now).alerts, id);
      }
    } else {
      ForeignIsAbsent(front, i, events, now, id);
      assert WithoutRule(rules, i)[..|rules| - 2] == WithoutRule(front, i);
      assert WithoutRule(rules, i)[|rules| - 2] == last;
      if OutcomeOf(last, events, now).Alerts? {
        OfIdConcat(Candidates(front, events, now), OutcomeOf(last, events, now).alerts, id);
        OfIdConcat(Candidates(WithoutRule(front, i), events, now), OutcomeOf(last, events, now).alerts, id);
      }
    }
  }

  /** Every alert carries its rule's id and an id derived from it. */
  lemma RuleTags(rule: Rule, events: seq<Event>, now: Instant, c: Alert)
    requires RulesDerive([rule]) && Honest([rule])
    requires forall i :: 0 <= i < |events| ==> events[i].id != "" && ':' !in events[i].id
    requires OutcomeOf(rule, events, now).Alerts? && c in OutcomeOf(rule, events, now).alerts
    ensures Derived(c) && c.ruleId == RuleId(rule)
  {
    hide AlertId;
    if rule.OtherRule? {
      var j :| 0 <= j < |rule.outcome.alerts| && rule.outcome.alerts[j] == c;
      assert [rule][0] == rule;
      OtherRuleId(rule);
    } else {
      hide RuleId;
      ProximityMakes(rule, events, now, c);
      var j :| 0 <= j < |events| && MadeFor(c, rule, events[j], now);
    }
  }

  /** Alerts of a rule with another rule id are under other alert ids. */
  lemma OtherRulesAreForeign(rule: Rule, ruleId: string, events: seq<Event>, now: Instant, eid: string)
    requires RuleId(rule) != ruleId && ':' !in eid && RulesDerive([rule]) && Honest([rule])
    requires forall i :: 0 <= i < |events| ==> events[i].id != "" && ':' !in events[i].id
    ensures Foreign(rule, events, now, AlertId(ruleId, eid))
  {
    hide AlertId, RuleId, MadeFor, Candidates, ProximityAlerts, Honest, RulesDerive;
    var o := OutcomeOf(rule, events, now);
    if o.Alerts? {
      forall c | c in o.alerts ensures c.id != AlertId(ruleId, eid) {
        RuleTags(rule, events, now, c);
        if c.id == AlertId(ruleId, eid) {
          AlertIdDeterminesPair(c.ruleId, c.event.id, ruleId, eid);
        }
      }
    }
  }

  /** Whatever one rule does, raise or alert, every other rule's alerts are stored and returned
      as if that rule were not configured at all. */
  lemma RulesAreIsolated(log: Log, rules: seq<Rule>, i: nat, events: seq<Event>, now: Instant,
                         ruleId: string, eid: string)
    requires i < |rules| && RuleId(rules[i]) != ruleId && ':' !in eid
    requires RulesDerive([rules[i]]) && Honest([rules[i]])
    requires forall j :: 0 <= j < |events| ==> events[j].id != "" && ':' !in events[j].id
    ensures var id := AlertId(ruleId, eid);
            var (log1, out1) := Process(log, Candidates(rules, events, now));
            var (log2, out2) := Process(log, Candidates(WithoutRule(rules, i), events, now));
            Lookup(log1, id) == Lookup(log2, id) && OfId(out1, id) == OfId(out2, id)
  {
    hide AlertId, RuleId, Process, Candidates, OfId, Foreign, RulesDerive, Honest, WithoutRule;
    var id := AlertId(ruleId, eid);
    OtherRulesAreForeign(rules[i], ruleId, events, now, eid);
    ForeignIsAbsent(rules, i, events, now, id);
    Locality(log, Candidates(rules, events, now), id);
    Locality(log, Candidates(WithoutRule(rules, i), events, now), id);
  }
}
