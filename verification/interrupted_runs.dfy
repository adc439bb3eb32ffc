/** Exactly when each tier is notified at most once although evaluations are interrupted. */
module InterruptedRuns {
  import opened Text
  import opened AlertLog
  import opened Escalation
  import opened AlertEngine
  import opened AlertRuns

  /** A candidate that reached the log, and whether its evaluation came to return anything. */
  datatype Offer = Offer(alert: Alert, told: bool)

  function Alerts(offers: seq<Offer>): (r: seq<Alert>)
    ensures |r| == |offers| && forall i :: 0 <= i < |r| ==> r[i] == offers[i].alert
  {
    seq(|offers|, i requires 0 <= i < |offers| => offers[i].alert)
  }

  function Offered(cands: seq<Alert>, told: bool): (r: seq<Offer>)
    ensures |r| == |cands| && forall i :: 0 <= i < |r| ==> r[i] == Offer(cands[i], told)
  {
    seq(|cands|, i requires 0 <= i < |cands| => Offer(cands[i], told))
  }

  /** The candidates that are returned: they rise above what is stored, and their evaluation ends. */
  function Tells(log: Log, offers: seq<Offer>): seq<Alert> {
    if offers == [] then []
    else
      var front, last := offers[..|offers| - 1], offers[|offers| - 1];
      var out := Tells(log, front);
      if last.told && IsReturned(Process(log, Alerts(front)).0, last.alert) then out + [last.alert] else out
  }

  lemma NothingTold(log: Log)
    ensures Tells(log, []) == [] && Alerts([]) == [] && Process(log, []) == (log, [])
  {
  }

  lemma AlertsSnoc(front: seq<Offer>, last: Offer)
    ensures Alerts(front + [last]) == Alerts(front) + [last.alert]
  {
  }

  lemma TellsSnoc(log: Log, front: seq<Offer>, last: Offer)
    ensures var returned := last.told && IsReturned(Process(log, Alerts(front)).0, last.alert);
            Tells(log, front + [last]) == if returned then Tells(log, front) + [last.alert] else Tells(log, front)
  {
    hide Process, IsReturned;
    assert (front + [last])[..|front|] == front;
  }

  lemma AlertsConcat(a: seq<Offer>, b: seq<Offer>)
    ensures Alerts(a + b) == Alerts(a) + Alerts(b)
  {
  }

  lemma {:induction false} TellsConcat(log: Log, a: seq<Offer>, b: seq<Offer>)
    ensures Tells(log, a + b) == Tells(log, a) + Tells(Process(log, Alerts(a)).0, b)
  {
    hide Tells, Process, IsReturned, Alerts;
    var log1 := Process(log, Alerts(a)).0;
    if b == [] {
      assert a + b == a;
      NothingTold(log1);
    } else {
      var front, last := b[..|b| - 1], b[|b| - 1];
      assert b == front + [last] && a + b == (a + front) + [last];
      TellsConcat(log, a, front);
      TellsSnoc(log, a + front, last);
      TellsSnoc(log1, front, last);
      AlertsConcat(a, front);
      ProcessConcat(log, Alerts(a), Alerts(front));
    }
  }

  /** An evaluation that ends returns what `Process` returns; an interrupted one, nothing. */
  lemma {:induction false} TellsOffered(log: Log, cands: seq<Alert>, told: bool)
    ensures Alerts(Offered(cands, told)) == cands
    ensures Tells(log, Offered(cands, told)) == if told then Process(log, cands).1 else []
  {
    hide Tells, Process, IsReturned;
    if cands == [] {
      NothingTold(log);
    } else {
      var front, last := cands[..|cands| - 1], cands[|cands| - 1];
      TellsOffered(log, front, told);
      assert cands == front + [last];
      assert Offered(cands, told) == Offered(front, told) + [Offer(last, told)];
      TellsSnoc(log, Offered(front, told), Offer(last, told));
      ProcessSnoc(log, front, last);
    }
  }

  // ----- whole runs ----------------------------------------------------------------

  predicate CutShort(round: Round, candidates: nat) {
    round.fault.Some? && round.fault.value < candidates
  }

  /** All candidates that reached the log over the run. */
  ghost function Offers(rounds: seq<Round>): seq<Offer>
    requires AllSound(rounds)
  {
    if rounds == [] then []
    else
      var last := rounds[|rounds| - 1];
      Offers(rounds[..|rounds| - 1]) + Offered(StoredIn(last), !CutShort(last, |CandidatesIn(last)|))
  }

  lemma RoundTells(log: Log, round: Round)
    requires Sound(round)
    ensures Interrupted(log, CandidatesIn(round), round.fault).1.GetOr([])
         == Tells(log, Offered(StoredIn(round), !CutShort(round, |CandidatesIn(round)|)))
  {
    hide Process, Tells, CandidatesIn;
    TellsOffered(log, StoredIn(round), !CutShort(round, |CandidatesIn(round)|));
  }

  lemma {:induction false} RunTells(log: Log, rounds: seq<Round>)
    requires AllSound(rounds)
    ensures Alerts(Offers(rounds)) == History(rounds)
    ensures Run(log, rounds).1 == Tells(log, Offers(rounds))
  {
    hide Process, Tells, CandidatesIn, StoredIn, Interrupted, Sound, CutShort, Alerts;
    if rounds == [] {
      NothingTold(log);
    } else {
      var front, last := rounds[..|rounds| - 1], rounds[|rounds| - 1];
      var offered := Offered(StoredIn(last), !CutShort(last, |CandidatesIn(last)|));
      RunTells(log, front);
      RunIsProcess(log, front);
      RoundTells(Run(log, front).0, last);
      TellsConcat(log, Offers(front), offered);
      AlertsConcat(Offers(front), offered);
      TellsOffered(log, StoredIn(last), !CutShort(last, |CandidatesIn(last)|));
    }
  }

  // ----- one id at a time ----------------------------------------------------------

  function OffersOf(offers: seq<Offer>, id: string): (r: seq<Offer>)
    ensures forall i :: 0 <= i < |r| ==> r[i].alert.id == id
  {
    if offers == [] then []
    else
      var front, last := OffersOf(offers[..|offers| - 1], id), offers[|offers| - 1];
      if last.alert.id == id then front + [last] else front
  }

  lemma {:induction false} TellsLocally(log: Log, offers: seq<Offer>, id: string)
    ensures Alerts(OffersOf(offers, id)) == OfId(Alerts(offers), id)
    ensures OfId(Tells(log, offers), id) == Tells(log, OffersOf(offers, id))
  {
    hide Tells, Process, IsReturned, Alerts, OfId;
    if offers == [] {
      NothingTold(log);
      NothingProcessed(log, id);
    } else {
      var front, last := offers[..|offers| - 1], offers[|offers| - 1];
      var mine := OffersOf(front, id);
      assert offers == front + [last];
      TellsLocally(log, front, id);
      TellsSnoc(log, front, last);
      AlertsSnoc(front, last);
      OfIdSnoc(Alerts(front), last.alert, id);
      OfIdSnoc(Tells(log, front), last.alert, id);
      if last.alert.id == id {
        TellsSnoc(log, mine, last);
        AlertsSnoc(mine, last);
        Locality(log, Alerts(front), id);
        SameVerdict(Process(log, Alerts(front)).0, Process(log, Alerts(mine)).0, last.alert);
      }
    }
  }

  // ----- the exact condition -------------------------------------------------------

  function RankOf(offers: seq<Offer>, i: nat): nat
    requires i < |offers|
  {
    SeverityRank(offers[i].alert.severity)
  }

  /** The candidate rises above the one before it, in an evaluation that ends. */
  predicate ToldRise(offers: seq<Offer>, i: nat)
    requires i < |offers|
  {
    offers[i].told && (if i == 0 then 0 else RankOf(offers, i - 1)) < RankOf(offers, i)
  }

  /** No such rise leads to a tier that an earlier one had reached. */
  ghost predicate NeverRetold(offers: seq<Offer>) {
    forall i: nat, j: nat :: j < i < |offers| && ToldRise(offers, j) && ToldRise(offers, i)
                             ==> RankOf(offers, j) < RankOf(offers, i)
  }

  lemma ToldSnoc(front: seq<Offer>, last: Offer)
    ensures forall i: nat :: i < |front| ==> RankOf(front + [last], i) == RankOf(front, i)
    ensures forall i: nat :: i < |front| ==> (ToldRise(front + [last], i) <==> ToldRise(front, i))
    ensures RankOf(front + [last], |front|) == SeverityRank(last.alert.severity)
    ensures ToldRise(front + [last], |front|) <==>
            last.told && LastRank(Severities(Alerts(front))) < SeverityRank(last.alert.severity)
  {
    hide SeverityRank;
    assert forall i :: 0 <= i < |front| ==> (front + [last])[i] == front[i];
  }

  lemma RetoldSnoc(front: seq<Offer>, last: Offer)
    ensures NeverRetold(front + [last]) <==>
            && NeverRetold(front)
            && (ToldRise(front + [last], |front|) ==>
                  forall j: nat :: j < |front| && ToldRise(front, j)
                                   ==> RankOf(front, j) < SeverityRank(last.alert.severity))
  {
    hide SeverityRank, RankOf, ToldRise;
    ToldSnoc(front, last);
    var all := front + [last];
    if NeverRetold(all) {
      forall i: nat, j: nat | j < i < |front| && ToldRise(front, j) && ToldRise(front, i)
        ensures RankOf(front, j) < RankOf(front, i)
      {
        assert ToldRise(all, j) && ToldRise(all, i);
      }
      forall j: nat | j < |front| && ToldRise(front, j) && ToldRise(all, |front|)
        ensures RankOf(front, j) < SeverityRank(last.alert.severity)
      {
        assert ToldRise(all, j);
      }
    }
  }

  ghost predicate Rose(offers: seq<Offer>, a: Alert) {
    exists j: nat :: j < |offers| && ToldRise(offers, j) && offers[j].alert == a
  }

  /** What is told of one id is its told rises. */
  ghost predicate ToldAre(offers: seq<Offer>, out: seq<Alert>) {
    && (forall k :: 0 <= k < |out| ==> Rose(offers, out[k]))
    && (forall j: nat :: j < |offers| && ToldRise(offers, j) ==> offers[j].alert in out)
  }

  lemma ToldAreSnoc(front: seq<Offer>, out: seq<Alert>, last: Offer)
    requires ToldAre(front, out)
    ensures ToldAre(front + [last], if ToldRise(front + [last], |front|) then out + [last.alert] else out)
  {
    hide ToldRise;
    ToldSnoc(front, last);
    var all := front + [last];
    var more := if ToldRise(all, |front|) then out + [last.alert] else out;
    forall k | 0 <= k < |more| ensures Rose(all, more[k]) {
      if k < |out| {
        assert Rose(front, out[k]);
        var j: nat :| j < |front| && ToldRise(front, j) && front[j].alert == out[k];
        assert ToldRise(all, j) && all[j].alert == more[k];
      } else {
        assert ToldRise(all, |front|) && all[|front|].alert == more[k];
      }
    }
    forall j: nat | j < |all| && ToldRise(all, j) ensures all[j].alert in more {
      if j < |front| {
        assert ToldRise(front, j) && front[j].alert in out;
      }
    }
  }

  lemma PeakOfTold(offers: seq<Offer>, out: seq<Alert>, rank: nat)
    requires ToldAre(offers, out) && rank > 0
    ensures Peak(Severities(out)) < rank <==>
            forall j: nat :: j < |offers| && ToldRise(offers, j) ==> RankOf(offers, j) < rank
  {
    hide ToldRise, SeverityRank, Peak;
    var s := Severities(out);
    PeakBelow(s, rank);
    if Peak(s) < rank {
      forall j: nat | j < |offers| && ToldRise(offers, j) ensures RankOf(offers, j) < rank {
        var k :| 0 <= k < |out| && out[k] == offers[j].alert;
        assert RankAt(s, k) == RankOf(offers, j);
      }
    }
    if forall j: nat :: j < |offers| && ToldRise(offers, j) ==> RankOf(offers, j) < rank {
      forall k: nat | k < |s| ensures RankAt(s, k) < rank {
        assert Rose(offers, out[k]);
        var j: nat :| j < |offers| && ToldRise(offers, j) && offers[j].alert == out[k];
        assert RankAt(s, k) == RankOf(offers, j);
      }
    }
  }

  lemma NothingRises()
    ensures NeverRetold([]) && ToldAre([], []) && StrictlyRising([])
  {
  }

  /** For the candidates of one id: what is told strictly rises exactly when nothing is told again. */
  lemma {:induction false} ToldRisesExactly(offers: seq<Offer>, id: string)
    requires forall i :: 0 <= i < |offers| ==> offers[i].alert.id == id
    ensures ToldAre(offers, Tells(map[], offers))
    ensures StrictlyRising(Tells(map[], offers)) <==> NeverRetold(offers)
  {
    hide Tells, Process, IsReturned, SeverityRank, Peak, NeverRetold, StrictlyRising, ToldAre, ToldRise, RankOf,
         NeverReclimbs, LastRank;
    if offers == [] {
      NothingTold(map[]);
      NothingRises();
    } else {
      var front, last := offers[..|offers| - 1], offers[|offers| - 1];
      assert offers == front + [last];
      var out, rank := Tells(map[], front), SeverityRank(last.alert.severity);
      ToldRisesExactly(front, id);
      TellsSnoc(map[], front, last);
      ReturnsRiseExactly(Alerts(front), id);
      ReturnedIsRise(Process(map[], Alerts(front)).0, last.alert);
      ToldSnoc(front, last);
      ToldAreSnoc(front, out, last);
      RetoldSnoc(front, last);
      if ToldRise(offers, |front|) {
        PeakOfTold(front, out, rank);
        RisingSnoc(out, last.alert);
      }
    }
  }

  lemma ToldNotInfo(offers: seq<Offer>, out: seq<Alert>)
    requires ToldAre(offers, out)
    ensures forall k :: 0 <= k < |out| ==> 0 < SeverityRank(out[k].severity)
  {
    hide SeverityRank;
  }

  /** Over any run, whichever evaluations are interrupted, an alert id is notified at most once per
      tier and in order exactly when no evaluation that ends raises it to a tier to which an earlier
      one had raised it. */
  lemma InterruptedInOrderExactly(rounds: seq<Round>, id: string)
    requires AllSound(rounds)
    ensures NotifiedInOrder(Severities(OfId(Run(map[], rounds).1, id)))
       <==> NeverRetold(OffersOf(Offers(rounds), id))
  {
    hide Run, Tells, OfId, NotifiedInOrder, NeverRetold, StrictlyRising, SeverityRank, Offers, OffersOf, ToldAre, Sound;
    var offers := OffersOf(Offers(rounds), id);
    RunTells(map[], rounds);
    TellsLocally(map[], Offers(rounds), id);
    ToldRisesExactly(offers, id);
    var out := Tells(map[], offers);
    ToldNotInfo(offers, out);
    if StrictlyRising(out) {
      StrictMeansInOrder(out);
    }
    if NotifiedInOrder(Severities(out)) {
      InOrderMeansStrict(out);
    }
  }

  lemma ReclimbsCoverRetold(offers: seq<Offer>)
    requires NeverReclimbs(Severities(Alerts(offers)))
    ensures NeverRetold(offers)
  {
    hide SeverityRank;
    var s := Severities(Alerts(offers));
    forall i: nat, j: nat | j < i < |offers| && ToldRise(offers, j) && ToldRise(offers, i)
      ensures RankOf(offers, j) < RankOf(offers, i)
    {
      assert ClimbsAt(s, i);
      assert RankAt(s, j) < RankAt(s, i);
    }
  }

  /** Interruptions only take notifications away: candidates that never climb again still suffice. */
  lemma InterruptedInOrder(rounds: seq<Round>, id: string)
    requires AllSound(rounds) && NeverReclimbs(Severities(OfId(History(rounds), id)))
    ensures NotifiedInOrder(Severities(OfId(Run(map[], rounds).1, id)))
  {
    hide Run, Tells, OfId, NotifiedInOrder, NeverRetold, NeverReclimbs, Offers, OffersOf, Alerts, History, Sound;
    RunTells(map[], rounds);
    TellsLocally(map[], Offers(rounds), id);
    ReclimbsCoverRetold(OffersOf(Offers(rounds), id));
    InterruptedInOrderExactly(rounds, id);
  }
}
