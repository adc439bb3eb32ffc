/** Exactly when each tier is notified at most once: a condition on the grades that the rounds give. */
module AlertGrades {
  import opened Text
  import opened Calendar
  import opened Events
  import opened Serialization
  import opened Ordering
  import opened Reference
  import opened GroupMerge
  import opened Reconciliation
  import opened ReconciliationLaws
  import opened AlertLog
  import opened Escalation
  import opened AlertEngine
  import opened RuleIds
  import opened AlertRuns
  import UpsertLaws

  // ----- any rules, any stores, any clock ------------------------------------------

  /** Over any run of complete evaluations, an alert id is notified at most once per tier and in order
      exactly when its candidates never climb again to a tier that they had reached. */
  lemma NotifiedInOrderExactly(rounds: seq<Round>, id: string)
    requires AllSound(rounds) && Complete(rounds)
    ensures NotifiedInOrder(Severities(OfId(Run(map[], rounds).1, id)))
       <==> NeverReclimbs(Severities(OfId(History(rounds), id)))
  {
    hide Run, History, Process, OfId, NotifiedInOrder, NeverReclimbs, Sublist, Sound;
    RunIsProcess(map[], rounds);
    InOrderExactly(History(rounds), id);
  }

  // ----- the condition on days left ------------------------------------------------

  /** Event `j` of the round has the id, is handled under the id of `r`, and is not past. */
  ghost predicate Shows(round: Round, r: Rule, eid: string, j: nat)
    requires Sound(round)
  {
    && j < |Seen(round)| && Seen(round)[j].id == eid
    && HandledAs(round.rules, r, Seen(round)[j]) && Due(r, Seen(round)[j]) >= DateOf(round.now)
  }

  /** The grade that the days left give the event in this round, if it shows at all. */
  ghost function GradeIn(round: Round, r: Rule, eid: string): Option<Severity>
    requires Sound(round)
  {
    if j: nat :| Shows(round, r, eid, j) then Some(Classify(r, Due(r, Seen(round)[j]) - DateOf(round.now))) else None
  }

  /** The grades of the rounds in which the event shows. */
  ghost function Grades(rounds: seq<Round>, r: Rule, eid: string): seq<Severity>
    requires AllSound(rounds)
  {
    if rounds == [] then []
    else
      var front, grade := Grades(rounds[..|rounds| - 1], r, eid), GradeIn(rounds[|rounds| - 1], r, eid);
      if grade.Some? then front + [grade.value] else front
  }

  lemma NotBeforeItself(e: Event)
    ensures !EventBefore(e, e)
  {
    LessIrreflexive(e.id);
  }

  lemma QueryDistinct(s: Store, lo: Date, hi: Date)
    requires WellKeyed(s)
    ensures DistinctIds(Query(s, WindowQuery(lo, hi)))
  {
    hide EventBefore, Matching, InOrder;
    var q := WindowQuery(lo, hi);
    var r := Query(s, q);
    MatchingOrdered(s, q);
    assert r == Sorted(s, q);
    forall i, j | 0 <= i < j < |r| ensures r[i].id != r[j].id {
      QueryFromStore(s, lo, hi, i);
      QueryFromStore(s, lo, hi, j);
      assert EventBefore(r[i], r[j]);
      NotBeforeItself(r[i]);
    }
  }

  lemma SeenDistinct(round: Round)
    requires Sound(round)
    ensures DistinctIds(Seen(round))
  {
    hide Query, Reconciled, PlainIds, RulesDerive, Honest;
    QueryDistinct(round.store, round.lo, round.hi);
    IdsStayDistinct(Query(round.store, WindowQuery(round.lo, round.hi)), DEFAULT_SOURCE_PRIORITY);
  }

  lemma {:induction false} OfIdIncludes(alerts: seq<Alert>, id: string, c: Alert)
    requires c in alerts && c.id == id
    ensures c in OfId(alerts, id)
  {
    var front, last := alerts[..|alerts| - 1], alerts[|alerts| - 1];
    if c in front {
      OfIdIncludes(front, id, c);
    } else {
      assert c == last;
    }
  }

  lemma {:induction false} CandidatesInclude(rules: seq<Rule>, i: nat, events: seq<Event>, now: Instant, c: Alert)
    requires i < |rules| && OutcomeOf(rules[i], events, now).Alerts? && c in OutcomeOf(rules[i], events, now).alerts
    ensures c in Candidates(rules, events, now)
  {
    hide OutcomeOf;
    var front := rules[..|rules| - 1];
    if i < |front| {
      CandidatesInclude(front, i, events, now, c);
    } else {
      assert rules[|rules| - 1] == rules[i];
    }
  }

  /** What shows is a candidate. */
  lemma ShownIsCandidate(round: Round, r: Rule, eid: string, j: nat)
    requires Sound(round) && Genuine(round.rules, r) && !r.OtherRule? && Shows(round, r, eid, j)
    ensures OfId(CandidatesIn(round), AlertId(RuleId(r), eid)) != []
  {
    hide Seen, AlertId, RuleId, ProximityAlerts, Candidates, Sound, Classify, Due, Handles, OfId;
    var e := Seen(round)[j];
    var i :| 0 <= i < |round.rules| && RuleId(round.rules[i]) == RuleId(r) && Handles(round.rules[i], e);
    var rule := round.rules[i];
    RuleIdExactly(rule, r);
    SameGrades(rule, r, e, Due(r, e) - DateOf(round.now));
    var c := MakeAlert(RuleId(r), e, Classify(r, Due(r, e) - DateOf(round.now)), round.now);
    assert MadeFor(c, rule, e, round.now);
    MadeIsEmitted(rule, Seen(round), round.now, j, c);
    CandidatesInclude(round.rules, i, Seen(round), round.now, c);
    OfIdIncludes(CandidatesIn(round), AlertId(RuleId(r), eid), c);
  }

  lemma ShowsOnce(round: Round, r: Rule, eid: string, x: nat)
    requires Sound(round) && DistinctIds(Seen(round)) && Shows(round, r, eid, x)
    ensures GradeIn(round, r, eid) == Some(Classify(r, Due(r, Seen(round)[x]) - DateOf(round.now)))
  {
    hide Seen, Sound, Classify, Due, HandledAs;
    assert forall j: nat :: Shows(round, r, eid, j) ==> j == x;
  }

  /** All candidates of the id in one round have the grade that the days left give. */
  lemma RoundGrade(round: Round, r: Rule, eid: string)
    requires Sound(round) && Genuine(round.rules, r) && !r.OtherRule? && ':' !in eid
    ensures var block, grade := Severities(OfId(CandidatesIn(round), AlertId(RuleId(r), eid))), GradeIn(round, r, eid);
            if grade.None? then block == []
            else block != [] && forall i :: 0 <= i < |block| ==> block[i] == grade.value
  {
    hide Seen, AlertId, RuleId, CandidatesIn, Sound, Genuine, Classify, Due, HandledAs, OfId;
    var id := AlertId(RuleId(r), eid);
    var cands := OfId(CandidatesIn(round), id);
    SeenDistinct(round);
    RoundCandidates(round, r, eid);
    forall i | 0 <= i < |cands|
      ensures GradeIn(round, r, eid) == Some(cands[i].severity)
    {
      assert cands[i] in cands;
      OfIdMember(CandidatesIn(round), id, cands[i]);
      var x :| 0 <= x < |Seen(round)| && HandledAs(round.rules, r, Seen(round)[x])
               && MadeAs(cands[i], r, Seen(round)[x], round.now);
      MadeAsFacts(cands[i], r, Seen(round)[x], round.now);
      assert Shows(round, r, eid, x);
      ShowsOnce(round, r, eid, x);
    }
    if j: nat :| Shows(round, r, eid, j) {
      ShownIsCandidate(round, r, eid, j);
    }
  }

  // ----- repeated grades -----------------------------------------------------------

  /** The two never climb again together, and would go on so. */
  ghost predicate ClimbAlike(s: seq<Severity>, t: seq<Severity>) {
    (NeverReclimbs(s) <==> NeverReclimbs(t)) && Peak(s) == Peak(t) && LastRank(s) == LastRank(t)
  }

  lemma AlikeSnoc(s: seq<Severity>, t: seq<Severity>, x: Severity)
    requires ClimbAlike(s, t)
    ensures ClimbAlike(s + [x], t + [x])
  {
    hide NeverReclimbs, Peak;
    ReclimbSnoc(s, x);
    ReclimbSnoc(t, x);
    PeakSnoc(s, x);
    PeakSnoc(t, x);
  }

  lemma AlikeRepeat(s: seq<Severity>, x: Severity)
    requires s != [] && s[|s| - 1] == x
    ensures ClimbAlike(s + [x], s)
  {
    hide NeverReclimbs, Peak;
    ReclimbSnoc(s, x);
    PeakSnoc(s, x);
    LastBelowPeak(s);
  }

  /** Saying the same grade several times is saying it once. */
  lemma {:induction false} BlockAlike(s: seq<Severity>, t: seq<Severity>, block: seq<Severity>, x: Severity)
    requires ClimbAlike(s, t) && block != [] && forall i :: 0 <= i < |block| ==> block[i] == x
    ensures ClimbAlike(s + block, t + [x])
  {
    hide NeverReclimbs, Peak;
    if |block| == 1 {
      assert block == [x];
      AlikeSnoc(s, t, x);
    } else {
      var front := block[..|block| - 1];
      BlockAlike(s, t, front, x);
      AlikeRepeat(s + front, x);
      assert s + block == (s + front) + [x];
    }
  }

  lemma SeveritiesConcat(a: seq<Alert>, b: seq<Alert>)
    ensures Severities(a + b) == Severities(a) + Severities(b)
  {
  }

  lemma {:induction false} GradesAlike(rounds: seq<Round>, r: Rule, eid: string)
    requires AllSound(rounds) && Complete(rounds) && !r.OtherRule? && ':' !in eid
    requires forall i :: 0 <= i < |rounds| ==> Genuine(rounds[i].rules, r)
    ensures ClimbAlike(Severities(OfId(History(rounds), AlertId(RuleId(r), eid))), Grades(rounds, r, eid))
  {
    hide AlertId, RuleId, CandidatesIn, Sound, Genuine, GradeIn, OfId, NeverReclimbs, Peak, LastRank;
    var id := AlertId(RuleId(r), eid);
    if rounds == [] {
      NothingProcessed(map[], id);
      assert History(rounds) == [];
    } else {
      var front, last := rounds[..|rounds| - 1], rounds[|rounds| - 1];
      GradesAlike(front, r, eid);
      RoundGrade(last, r, eid);
      OfIdConcat(History(front), CandidatesIn(last), id);
      var s, block := Severities(OfId(History(front), id)), Severities(OfId(CandidatesIn(last), id));
      SeveritiesConcat(OfId(History(front), id), OfId(CandidatesIn(last), id));
      if GradeIn(last, r, eid).Some? {
        BlockAlike(s, Grades(front, r, eid), block, GradeIn(last, r, eid).value);
      } else {
        assert s + block == s;
      }
    }
  }

  /** For a proximity rule the condition is on days left alone: no round grades the event above the
      round before it at a tier that an earlier round had reached. */
  lemma GradesInOrderExactly(rounds: seq<Round>, r: Rule, eid: string)
    requires AllSound(rounds) && Complete(rounds) && !r.OtherRule? && ':' !in eid
    requires forall i :: 0 <= i < |rounds| ==> Genuine(rounds[i].rules, r)
    ensures NotifiedInOrder(Severities(OfId(Run(map[], rounds).1, AlertId(RuleId(r), eid))))
       <==> NeverReclimbs(Grades(rounds, r, eid))
  {
    hide AlertId, RuleId, Sound, Genuine, Grades, OfId, NeverReclimbs, NotifiedInOrder, Run, History;
    GradesAlike(rounds, r, eid);
    NotifiedInOrderExactly(rounds, AlertId(RuleId(r), eid));
  }

  /** A clock that never goes back, and due dates that never move later, meet the condition. */
  lemma WatchedNeverReclimbs(rounds: seq<Round>, r: Rule, eid: string)
    requires Watched(rounds, r) && AllSound(rounds) && Complete(rounds) && ':' !in eid
    ensures NeverReclimbs(Grades(rounds, r, eid))
  {
    hide AlertId, RuleId, Sound, Genuine, Grades, OfId, NeverReclimbs, Watched, History, SeverityRank;
    WatchedSound(rounds, r);
    var cands := OfId(History(rounds), AlertId(RuleId(r), eid));
    HistoryRises(rounds, r, eid);
    GradesAlike(rounds, r, eid);
    forall i: nat, j: nat | j < i < |cands| ensures RankAt(Severities(cands), j) <= RankAt(Severities(cands), i) {
      assert SeverityRank(cands[j].severity) <= SeverityRank(cands[i].severity);
    }
    RisingNeverReclimbs(Severities(cands));
  }

  // ----- a due date that moves out and back ----------------------------------------

  lemma OneUpsert(s: Store, e: Event, t: Instant)
    ensures UpsertAll(s, [e], t).0 == UpsertOne(s, e, t).0
  {
    var none: seq<Event> := [];
    UpsertLaws.NoUpsert(s, t);
    UpsertLaws.UpsertSnoc(s, none, e, t);
    assert none + [e] == [e];
  }

  /** The three stores that upserting an event, a changed version and the first again leaves. */
  lemma ChangedAndBack(near: Event, far: Event, t: Instant)
    requires near.id == far.id && Content(near) != Content(far)
    ensures var s1 := UpsertAll(map[], [near], t).0;
            var s2 := UpsertAll(s1, [far], t).0;
            var stamped := (e: Event) => e.(ingestedAt := Some(t), updatedAt := Some(t));
            && s1 == map[near.id := stamped(near)]
            && s2 == map[near.id := stamped(far)]
            && UpsertAll(s2, [near], t).0 == map[near.id := stamped(near)]
  {
    OneUpsert(map[], near, t);
    var s1 := UpsertAll(map[], [near], t).0;
    assert s1 == map[near.id := near.(ingestedAt := Some(t), updatedAt := Some(t))];
    OneUpsert(s1, far, t);
    var s2 := UpsertAll(s1, [far], t).0;
    assert s2 == map[near.id := far.(ingestedAt := Some(t), updatedAt := Some(t))];
    OneUpsert(s2, near, t);
  }

  /** A window over a store of one event other than a release is that event. */
  lemma OneEventWindow(e: Event)
    requires Stamped(e) && !e.detail.Release?
    ensures Window(map[e.id := e], 1, MAX_DATE) == [e]
  {
    hide EventBefore, Merged;
    var s: Store := map[e.id := e];
    var q := WindowQuery(1, MAX_DATE);
    assert s[e.id] == e;
    assert Matching(s, q) == {e};
    MatchingOrdered(s, q);
    InOrderStep(EventBefore, {e}, e);
    assert {e} - {e} == {};
    InOrderEmpty(EventBefore);
    assert Query(s, q) == [e];
    var none: seq<Event> := [];
    assert [e][..0] == none && Order(none) == [];
    assert Order([e]) == [Position(0)];
  }

  lemma OneEventAlert(r: Rule, e: Event, now: Instant)
    requires Handles(r, e) && Due(r, e) >= DateOf(now)
    ensures ProximityAlerts(r, [e], now) == [MakeAlert(RuleId(r), e, Classify(r, Due(r, e) - DateOf(now)), now)]
  {
    hide RuleId, Classify;
    var none: seq<Event> := [];
    assert [e][..0] == none && ProximityAlerts(r, none, now) == [];
  }

  lemma OneRuleRound(round: Round, r: Rule, e: Event)
    requires Stamped(e) && !e.detail.Release? && ':' !in e.id && !r.OtherRule?
    requires round == Round([r], map[e.id := e], 1, MAX_DATE, round.now, None)
    requires Handles(r, e) && Due(r, e) >= DateOf(round.now)
    ensures Sound(round)
    ensures CandidatesIn(round) == [MakeAlert(RuleId(r), e, Classify(r, Due(r, e) - DateOf(round.now)), round.now)]
    ensures StoredIn(round) == CandidatesIn(round)
  {
    hide Window, RuleId, Classify, ProximityAlerts, Due, Handles;
    OneEventWindow(e);
    OneEventAlert(r, e, round.now);
    var none: seq<Rule> := [];
    assert [r][..0] == none && Candidates(none, [e], round.now) == [];
  }

  lemma HistoryOfThree(a: Round, b: Round, c: Round)
    requires Sound(a) && Sound(b) && Sound(c)
    ensures History([a, b, c]) == StoredIn(a) + StoredIn(b) + StoredIn(c)
  {
    hide StoredIn, Sound;
    var none: seq<Round> := [];
    assert [a, b, c][..2] == [a, b] && [a, b][..1] == [a] && [a][..0] == none;
    assert History(none) == [];
    assert History([a]) == StoredIn(a);
    assert History([a, b]) == StoredIn(a) + StoredIn(b);
  }

  lemma WarnedTwice(a: Alert, b: Alert)
    requires a.id == b.id && a.severity == Warning && b.severity == Info
    ensures Severities(OfId(Process(map[], [a, b, a]).1, a.id)) == [Warning, Warning]
  {
    hide IsReturned, Process, OfId;
    var none: seq<Alert> := [];
    ProcessSnoc(map[], none, a);
    ProcessSnoc(map[], [a], b);
    ProcessSnoc(map[], [a, b], a);
    assert none + [a] == [a] && [a] + [b] == [a, b] && [a, b] + [a] == [a, b, a];
    NothingProcessed(map[], a.id);
    ReturnedIsRise(map[], a);
    ReturnedIsRise(map[a.id := a], b);
    ReturnedIsRise(map[a.id := a][b.id := b], a);
    assert Process(map[], [a, b, a]).1 == [a, a];
    OfIdSnoc(none, a, a.id);
    OfIdSnoc([a], a, a.id);
    assert [a] + [a] == [a, a];
  }

  /** The last day of the warning range, and the day after. */
  function Near(r: Rule, e: Event, t: Instant): Event
    requires r.ExpiryRule? && e.detail.Expiry? && 0 <= r.warningDays < MAX_DATE - DateOf(t)
  {
    e.(detail := e.detail.(expiryDate := DateOf(t) + r.warningDays))
  }

  function Far(r: Rule, e: Event, t: Instant): Event
    requires r.ExpiryRule? && e.detail.Expiry? && 0 <= r.warningDays < MAX_DATE - DateOf(t)
  {
    e.(detail := e.detail.(expiryDate := DateOf(t) + r.warningDays + 1))
  }

  /** Three evaluations of one rule, before each of which the next version is upserted. */
  function RoundsOver(r: Rule, versions: seq<Event>, t: Instant): seq<Round>
    requires |versions| == 3
  {
    var s1 := UpsertAll(map[], [versions[0]], t).0;
    var s2 := UpsertAll(s1, [versions[1]], t).0;
    var s3 := UpsertAll(s2, [versions[2]], t).0;
    [Round([r], s1, 1, MAX_DATE, t, None), Round([r], s2, 1, MAX_DATE, t, None), Round([r], s3, 1, MAX_DATE, t, None)]
  }

  /** An expiry upserted under an id of the caller's own, moved one day out of the warning range and
      back: three evaluations, and two warnings. */
  lemma MovedDueNotifiesAgain(r: Rule, e: Event, t: Instant)
    requires r.ExpiryRule? && 0 <= r.warningDays < MAX_DATE - DateOf(t)
    requires Handles(r, e) && e.id != "" && ':' !in e.id
    ensures var rounds := RoundsOver(r, [Near(r, e, t), Far(r, e, t), Near(r, e, t)], t);
            && AllSound(rounds) && Complete(rounds) && ClockForward(rounds)
            && Severities(OfId(Run(map[], rounds).1, AlertId(RuleId(r), e.id))) == [Warning, Warning]
  {
    hide RuleId, AlertId, UpsertAll, Sound, StoredIn, CandidatesIn, Run, Process, History, Sublist;
    var near, far := Near(r, e, t), Far(r, e, t);
    assert Content(near).detail != Content(far).detail;
    ChangedAndBack(near, far, t);
    var x := near.(ingestedAt := Some(t), updatedAt := Some(t));
    var y := far.(ingestedAt := Some(t), updatedAt := Some(t));
    var p := Round([r], map[e.id := x], 1, MAX_DATE, t, None);
    var q := Round([r], map[e.id := y], 1, MAX_DATE, t, None);
    OneRuleRound(p, r, x);
    OneRuleRound(q, r, y);
    var a, b := MakeAlert(RuleId(r), x, Warning, t), MakeAlert(RuleId(r), y, Info, t);
    assert StoredIn(p) == [a] && StoredIn(q) == [b];
    assert RoundsOver(r, [near, far, near], t) == [p, q, p];
    HistoryOfThree(p, q, p);
    RunIsProcess(map[], [p, q, p]);
    assert [a] + [b] + [a] == [a, b, a];
    WarnedTwice(a, b);
  }
}
