/** Reconciling a whole list: grouping by release and date, merging each group once, in the
    place where the group first occurs. */
module Reconciliation {
  import opened Calendar
  import opened Events
  import opened GroupMerge

  /** The real-world release an event reports. */
  datatype Key = Key(code: string, date: Date)

  function KeyOf(e: Event): Key
    requires e.detail.Release?
  {
    Key(e.detail.code, e.date)
  }

  predicate Reports(e: Event, k: Key) {
    e.detail.Release? && KeyOf(e) == k
  }

  /** The events that report one release, in list order. */
  function Group(events: seq<Event>, k: Key): (g: seq<Event>)
    ensures Releases(g) && forall i :: 0 <= i < |g| ==> g[i] in events && KeyOf(g[i]) == k
  {
    if events == [] then []
    else
      var front := Group(events[..|events| - 1], k);
      var e := events[|events| - 1];
      if Reports(e, k) then front + [e] else front
  }

  predicate Mentions(events: seq<Event>, k: Key) {
    exists i :: 0 <= i < |events| && Reports(events[i], k)
  }

  datatype Item = Position(i: nat) | GroupOf(k: Key)

  /** The order of the output: each non-release by its position, each key where it first occurs. */
  function Order(events: seq<Event>): seq<Item> {
    if events == [] then []
    else
      var front, e := events[..|events| - 1], events[|events| - 1];
      if !e.detail.Release? then Order(front) + [Position(|front|)]
      else if Mentions(front, KeyOf(e)) then Order(front)
      else Order(front) + [GroupOf(KeyOf(e))]
  }

  predicate Fits(item: Item, events: seq<Event>) {
    match item
    case Position(i) => i < |events| && !events[i].detail.Release?
    case GroupOf(k) => Mentions(events, k)
  }

  lemma MentionsSnoc(front: seq<Event>, e: Event, k: Key)
    ensures Mentions(front + [e], k) <==> Mentions(front, k) || Reports(e, k)
  {
    hide Reports;
    var b := front + [e];
    assert b[|front|] == e;
    if Mentions(front, k) {
      var i :| 0 <= i < |front| && Reports(front[i], k);
      assert b[i] == front[i];
    }
  }

  lemma MentionsGroup(events: seq<Event>, k: Key)
    ensures Mentions(events, k) <==> Group(events, k) != []
  {
    if events != [] {
      var front, e := events[..|events| - 1], events[|events| - 1];
      MentionsGroup(front, k);
      MentionsSnoc(front, e, k);
      assert front + [e] == events;
    }
  }

  ghost function Output(item: Item, events: seq<Event>, priority: Priority): Event
    requires Fits(item, events)
  {
    match item
    case Position(i) => events[i]
    case GroupOf(k) =>
      MentionsGroup(events, k);
      Merged(Group(events, k), priority)
  }

  lemma ReportsOwn(e: Event)
    ensures e.detail.Release? ==> Reports(e, KeyOf(e))
  {
  }

  lemma {:induction false} OrderFits(events: seq<Event>)
    ensures forall j :: 0 <= j < |Order(events)| ==> Fits(Order(events)[j], events)
  {
    hide Mentions, Reports;
    if events == [] {
    } else {
      var front, e := events[..|events| - 1], events[|events| - 1];
      OrderFits(front);
      assert front + [e] == events;
      forall k: Key ensures Mentions(events, k) <==> Mentions(front, k) || Reports(e, k) {
        MentionsSnoc(front, e, k);
      }
      assert e.detail.Release? ==> Reports(e, KeyOf(e)) by { ReportsOwn(e); }
    }
  }

  /** `reconcile_economic_releases(events)` */
  ghost function Reconciled(events: seq<Event>, priority: Priority): (r: seq<Event>)
    ensures |r| == |Order(events)|
    ensures forall j :: 0 <= j < |r| ==>
              Fits(Order(events)[j], events) && r[j] == Output(Order(events)[j], events, priority)
  {
    OrderFits(events);
    var order := Order(events);
    seq(|order|, j requires 0 <= j < |order| && Fits(order[j], events) => Output(order[j], events, priority))
  }

  lemma EmptyList()
    ensures Order([]) == [] && forall k :: !Mentions([], k)
  {
  }

  /** What one more event does to the order and to each group. */
  lemma ListStep(events: seq<Event>, i: nat)
    requires i < |events|
    ensures Order(events[..i + 1]) ==
              if !events[i].detail.Release? then Order(events[..i]) + [Position(i)]
              else if Mentions(events[..i], KeyOf(events[i])) then Order(events[..i])
              else Order(events[..i]) + [GroupOf(KeyOf(events[i]))]
    ensures forall k :: Mentions(events[..i + 1], k) <==> Mentions(events[..i], k) || Reports(events[i], k)
    ensures forall k :: Group(events[..i + 1], k) ==
              if Reports(events[i], k) then Group(events[..i], k) + [events[i]] else Group(events[..i], k)
    ensures forall k :: Reports(events[i], k) <==> events[i].detail.Release? && k == KeyOf(events[i])
    ensures forall k :: !Mentions(events[..i], k) ==> Group(events[..i], k) == []
  {
    hide Mentions;
    var b := events[..i + 1];
    assert b[..i] == events[..i] && b[i] == events[i] && b == events[..i] + [events[i]];
    forall k: Key ensures Mentions(b, k) <==> Mentions(events[..i], k) || Reports(events[i], k) {
      MentionsSnoc(events[..i], events[i], k);
    }
    forall k: Key | !Mentions(events[..i], k) ensures Group(events[..i], k) == [] {
      MentionsGroup(events[..i], k);
    }
  }

  method ReconcileEconomicReleases(events: seq<Event>, priority: Priority) returns (result: seq<Event>)
    ensures result == Reconciled(events, priority)
  {
    hide Merged, Mentions, Reports, Group, Order;
    var groups: map<Key, seq<Event>> := map[];
    var order: seq<Item> := [];
    var passthrough: map<nat, Event> := map[];
    EmptyList();
    for i := 0 to |events|
      invariant order == Order(events[..i])
      invariant forall k :: k in groups <==> Mentions(events[..i], k)
      invariant forall k :: k in groups ==> groups[k] == Group(events[..i], k)
      invariant forall j: nat :: j in passthrough <==> j < i && !events[j].detail.Release?
      invariant forall j: nat :: j in passthrough ==> passthrough[j] == events[j]
    {
      var event := events[i];
      ListStep(events, i);
      if !event.detail.Release? {
        passthrough := passthrough[i := event];
        order := order + [Position(i)];
      } else {
        var key := KeyOf(event);
        if key !in groups {
          order := order + [GroupOf(key)];
        }
        groups := groups[key := (if key in groups then groups[key] else []) + [event]];
      }
    }
    assert events[..|events|] == events;
    OrderFits(events);
    result := [];
    for j := 0 to |order|
      invariant |result| == j
      invariant forall m :: 0 <= m < j ==> result[m] == Output(order[m], events, priority)
    {
      match order[j] {
        case Position(i) => result := result + [passthrough[i]];
        case GroupOf(k) =>
          MentionsGroup(events, k);
          var merged := MergeGroup(groups[k], priority);
          result := result + [merged];
      }
    }
  }
}
