/** What reconciliation does, release by release: code and date decide which events are merged. */
module ReleaseGroups {
  import opened Calendar
  import opened Events
  import opened GroupMerge
  import opened Reconciliation
  import opened ReconciliationLaws

  predicate IsFor(e: Event, code: string, date: Date) {
    e.detail.Release? && e.detail.code == code && e.date == date
  }

  /** The events of one release code and date, in list order. */
  function EventsFor(events: seq<Event>, code: string, date: Date): (r: seq<Event>)
    ensures Releases(r)
  {
    if events == [] then []
    else
      var front, e := EventsFor(events[..|events| - 1], code, date), events[|events| - 1];
      if IsFor(e, code, date) then front + [e] else front
  }

  lemma {:induction false} GroupIsEventsFor(events: seq<Event>, code: string, date: Date)
    ensures Group(events, Key(code, date)) == EventsFor(events, code, date)
  {
    if events == [] {
    } else {
      GroupIsEventsFor(events[..|events| - 1], code, date);
    }
  }

  /** For every release code and date there is one output, the merge of all input events of that code
      and date, or none when there is no such input. */
  lemma ReleasesExactly(events: seq<Event>, priority: Priority, code: string, date: Date)
    ensures var group, out := EventsFor(events, code, date), EventsFor(Reconciled(events, priority), code, date);
            if group == [] then out == [] else out == [Merged(group, priority)]
  {
    hide Reconciled, Merged, Group, EventsFor, Mentions;
    ReconciledParts(events, priority);
    MentionsGroup(events, Key(code, date));
    GroupIsEventsFor(events, code, date);
    GroupIsEventsFor(Reconciled(events, priority), code, date);
  }

  lemma {:induction false} EventsForAre(events: seq<Event>, code: string, date: Date)
    ensures forall i :: 0 <= i < |EventsFor(events, code, date)| ==> IsFor(EventsFor(events, code, date)[i], code, date)
  {
    if events == [] {
    } else {
      EventsForAre(events[..|events| - 1], code, date);
    }
  }

  lemma {:induction false} EventAt(events: seq<Event>, code: string, date: Date, i: nat)
    requires i < |events| && IsFor(events[i], code, date)
    ensures EventsFor(events, code, date) != []
  {
    if i == |events| - 1 {
    } else {
      EventAt(events[..|events| - 1], code, date, i);
    }
  }

  lemma {:induction false} EventsTwice(events: seq<Event>, code: string, date: Date, i: nat, j: nat)
    requires i < j < |events| && IsFor(events[i], code, date) && IsFor(events[j], code, date)
    ensures |EventsFor(events, code, date)| >= 2
  {
    var front := events[..|events| - 1];
    if j == |front| {
      EventAt(front, code, date, i);
    } else {
      EventsTwice(front, code, date, i, j);
    }
  }

  lemma {:induction false} EventsForFound(events: seq<Event>, code: string, date: Date)
    requires EventsFor(events, code, date) != []
    ensures exists i :: 0 <= i < |events| && IsFor(events[i], code, date)
  {
    var front, e := events[..|events| - 1], events[|events| - 1];
    if IsFor(e, code, date) {
      assert IsFor(events[|events| - 1], code, date);
    } else {
      EventsForFound(front, code, date);
      var i :| 0 <= i < |front| && IsFor(front[i], code, date);
      assert events[i] == front[i];
    }
  }

  /** The code and date pairs of the releases in a list. */
  ghost function Pairs(events: seq<Event>): set<(string, Date)> {
    set i | 0 <= i < |events| && events[i].detail.Release? :: (events[i].detail.code, events[i].date)
  }

  ghost function ReleasePositions(events: seq<Event>): set<nat> {
    set i: nat | i < |events| && events[i].detail.Release?
  }

  ghost predicate OnePerPair(events: seq<Event>) {
    forall i, j :: 0 <= i < j < |events| && events[i].detail.Release? && events[j].detail.Release?
                   ==> events[i].detail.code != events[j].detail.code || events[i].date != events[j].date
  }

  lemma PairFound(events: seq<Event>, code: string, date: Date)
    requires (code, date) in Pairs(events)
    ensures exists i :: 0 <= i < |events| && IsFor(events[i], code, date)
  {
    var i :| 0 <= i < |events| && events[i].detail.Release? && (code, date) == (events[i].detail.code, events[i].date);
    assert IsFor(events[i], code, date);
  }

  lemma PairsSnoc(front: seq<Event>, e: Event)
    ensures Pairs(front + [e]) == Pairs(front) + (if e.detail.Release? then {(e.detail.code, e.date)} else {})
  {
    var all := front + [e];
    assert all[|front|] == e;
    assert forall i :: 0 <= i < |front| ==> all[i] == front[i];
    forall p ensures p in Pairs(all) <==> p in Pairs(front) || (e.detail.Release? && p == (e.detail.code, e.date)) {
      if p in Pairs(front) {
        var i :| 0 <= i < |front| && front[i].detail.Release? && p == (front[i].detail.code, front[i].date);
        assert all[i] == front[i];
      }
    }
  }

  lemma PositionsSnoc(front: seq<Event>, e: Event)
    ensures |front| !in ReleasePositions(front)
    ensures ReleasePositions(front + [e]) == ReleasePositions(front) + (if e.detail.Release? then {|front|} else {})
  {
    var all := front + [e];
    assert all[|front|] == e;
    assert forall i :: 0 <= i < |front| ==> all[i] == front[i];
  }

  lemma LastPairIsNew(front: seq<Event>, e: Event)
    requires OnePerPair(front + [e])
    ensures OnePerPair(front)
    ensures e.detail.Release? ==> (e.detail.code, e.date) !in Pairs(front)
  {
    hide Pairs;
    var all := front + [e];
    assert all[|front|] == e;
    assert forall i :: 0 <= i < |front| ==> all[i] == front[i];
    if e.detail.Release? && (e.detail.code, e.date) in Pairs(front) {
      PairFound(front, e.detail.code, e.date);
    }
  }

  lemma {:induction false} PairPerPosition(events: seq<Event>)
    requires OnePerPair(events)
    ensures |ReleasePositions(events)| == |Pairs(events)|
  {
    if events == [] {
      assert Pairs(events) == {} && ReleasePositions(events) == {};
    } else {
      hide Pairs, ReleasePositions, OnePerPair;
      var front, e := events[..|events| - 1], events[|events| - 1];
      assert events == front + [e];
      LastPairIsNew(front, e);
      PairPerPosition(front);
      PairsSnoc(front, e);
      PositionsSnoc(front, e);
    }
  }

  lemma OutputsApart(events: seq<Event>, priority: Priority)
    ensures OnePerPair(Reconciled(events, priority))
  {
    hide Reconciled, EventsFor;
    var r := Reconciled(events, priority);
    forall i, j | 0 <= i < j < |r| && r[i].detail.Release? && r[j].detail.Release?
      ensures r[i].detail.code != r[j].detail.code || r[i].date != r[j].date
    {
      if IsFor(r[j], r[i].detail.code, r[i].date) {
        ReleasesExactly(events, priority, r[i].detail.code, r[i].date);
        EventsTwice(r, r[i].detail.code, r[i].date, i, j);
      }
    }
  }

  ghost predicate Has(events: seq<Event>, code: string, date: Date) {
    exists i :: 0 <= i < |events| && IsFor(events[i], code, date)
  }

  lemma HasExactly(events: seq<Event>, code: string, date: Date)
    ensures Has(events, code, date) <==> EventsFor(events, code, date) != []
    ensures Has(events, code, date) <==> (code, date) in Pairs(events)
  {
    hide EventsFor;
    if Has(events, code, date) {
      var i :| 0 <= i < |events| && IsFor(events[i], code, date);
      EventAt(events, code, date, i);
    }
    if EventsFor(events, code, date) != [] {
      EventsForFound(events, code, date);
    }
  }

  lemma SamePairs(a: seq<Event>, b: seq<Event>)
    requires forall code: string, date: Date :: (code, date) in Pairs(a) <==> (code, date) in Pairs(b)
    ensures Pairs(a) == Pairs(b)
  {
    hide Pairs;
    forall p ensures p in Pairs(a) <==> p in Pairs(b) {
      assert p == (p.0, p.1);
    }
  }

  /** A code and date are in the output exactly when they are in the input, no two outputs share them,
      and so there are as many release outputs as distinct pairs of code and date. */
  lemma OneOutputPerRelease(events: seq<Event>, priority: Priority)
    ensures var r := Reconciled(events, priority);
            && (forall code: string, date: Date :: Has(r, code, date) <==> Has(events, code, date))
            && OnePerPair(r)
            && |ReleasePositions(r)| == |Pairs(events)|
  {
    hide Reconciled, EventsFor, Has, Pairs, ReleasePositions, OnePerPair;
    var r := Reconciled(events, priority);
    forall code: string, date: Date
      ensures Has(r, code, date) <==> Has(events, code, date)
      ensures (code, date) in Pairs(r) <==> (code, date) in Pairs(events)
    {
      ReleasesExactly(events, priority, code, date);
      HasExactly(r, code, date);
      HasExactly(events, code, date);
    }
    OutputsApart(events, priority);
    PairPerPosition(r);
    SamePairs(r, events);
  }
}
