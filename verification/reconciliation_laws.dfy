/** What reconciliation promises about whole lists. */
module ReconciliationLaws {
  import opened Events
  import opened Ordering
  import opened GroupMerge
  import opened Reconciliation

  // ----- the order of the output ---------------------------------------------------

  lemma PrefixMentions(events: seq<Event>, n: nat, k: Key)
    requires n <= |events|
    ensures Mentions(events[..n], k) <==> exists i :: 0 <= i < n && Reports(events[i], k)
  {
    hide Reports;
    var front := events[..n];
    assert forall i :: 0 <= i < n ==> front[i] == events[i];
  }

  function FirstMention(events: seq<Event>, k: Key): (i: nat)
    requires Mentions(events, k)
    ensures i < |events| && Reports(events[i], k)
    ensures forall j :: 0 <= j < i ==> !Reports(events[j], k)
    decreases |events|
  {
    var n := |events| - 1;
    PrefixMentions(events, n, k);
    if Mentions(events[..n], k) then FirstMention(events[..n], k) else n
  }

  lemma FirstMentionStable(events: seq<Event>, n: nat, k: Key)
    requires n <= |events| && Mentions(events[..n], k)
    ensures Mentions(events, k) && FirstMention(events, k) == FirstMention(events[..n], k)
  {
    hide Reports;
    PrefixMentions(events, n, k);
    var i := FirstMention(events[..n], k);
    assert Reports(events[i], k);
    assert forall j :: 0 <= j < i ==> events[..n][j] == events[j];
  }

  /** Where in the input an output item first occurs. */
  function At(item: Item, events: seq<Event>): nat
    requires Fits(item, events)
  {
    match item
    case Position(i) => i
    case GroupOf(k) => FirstMention(events, k)
  }

  lemma FirstMentionHere(events: seq<Event>, i: nat)
    requires i < |events| && events[i].detail.Release? && !Mentions(events[..i], KeyOf(events[i]))
    ensures Mentions(events, KeyOf(events[i])) && FirstMention(events, KeyOf(events[i])) == i
  {
    var k := KeyOf(events[i]);
    assert Reports(events[i], k);
    PrefixMentions(events, i, k);
  }

  /** The items first occur before position `n`, one after the other. */
  ghost predicate OccurInOrder(items: seq<Item>, events: seq<Event>, n: nat) {
    && (forall j :: 0 <= j < |items| ==> Fits(items[j], events) && At(items[j], events) < n)
    && (forall i, j :: 0 <= i < j < |items| ==> At(items[i], events) < At(items[j], events))
  }

  lemma OccurSnoc(items: seq<Item>, item: Item, events: seq<Event>, n: nat)
    requires OccurInOrder(items, events, n) && Fits(item, events) && At(item, events) == n
    ensures OccurInOrder(items + [item], events, n + 1)
  {
    hide Fits, At;
    var all := items + [item];
    assert forall j :: 0 <= j < |items| ==> all[j] == items[j];
    assert all[|items|] == item;
  }

  lemma OccurNothing(events: seq<Event>)
    ensures OccurInOrder([], events, 0)
  {
    hide Fits, At;
  }

  lemma OccurLater(items: seq<Item>, events: seq<Event>, n: nat)
    requires OccurInOrder(items, events, n)
    ensures OccurInOrder(items, events, n + 1)
  {
    hide Fits, At;
  }

  /** The item that the event at position `n` adds, if it adds one, first occurs there. */
  lemma ItemHere(events: seq<Event>, n: nat)
    requires n < |events|
    ensures !events[n].detail.Release? ==> Fits(Position(n), events) && At(Position(n), events) == n
    ensures events[n].detail.Release? && !Mentions(events[..n], KeyOf(events[n])) ==>
              var item := GroupOf(KeyOf(events[n])); Fits(item, events) && At(item, events) == n
  {
    hide Mentions, Reports, FirstMention;
    if events[n].detail.Release? && !Mentions(events[..n], KeyOf(events[n])) {
      FirstMentionHere(events, n);
    }
  }

  lemma OrderStep(events: seq<Event>, n: nat)
    requires n < |events|
    ensures Order(events[..n + 1]) ==
              if !events[n].detail.Release? then Order(events[..n]) + [Position(n)]
              else if Mentions(events[..n], KeyOf(events[n])) then Order(events[..n])
              else Order(events[..n]) + [GroupOf(KeyOf(events[n]))]
  {
    hide Mentions, Reports, Order, Group;
    ListStep(events, n);
  }

  lemma {:induction false} OrderPrefix(events: seq<Event>, n: nat)
    requires n <= |events|
    ensures |Order(events[..n])| <= n && OccurInOrder(Order(events[..n]), events, n)
  {
    hide Mentions, Reports, FirstMention, Order, Group, Fits, At, OccurInOrder;
    if n == 0 {
      EmptyList();
      assert events[..0] == [];
      OccurNothing(events);
    } else {
      OrderPrefix(events, n - 1);
      OrderStep(events, n - 1);
      ItemHere(events, n - 1);
      var order, e := Order(events[..n - 1]), events[n - 1];
      if !e.detail.Release? {
        OccurSnoc(order, Position(n - 1), events, n - 1);
      } else if !Mentions(events[..n - 1], KeyOf(e)) {
        OccurSnoc(order, GroupOf(KeyOf(e)), events, n - 1);
      } else {
        OccurLater(order, events, n - 1);
      }
    }
  }

  lemma {:induction false} OrderComplete(events: seq<Event>, item: Item)
    requires Fits(item, events)
    ensures exists j :: 0 <= j < |Order(events)| && Order(events)[j] == item
  {
    if events == [] {
    } else {
      var front, e := events[..|events| - 1], events[|events| - 1];
      assert front + [e] == events;
      if item.GroupOf? {
        MentionsSnoc(front, e, item.k);
      }
      if Fits(item, front) {
        OrderComplete(front, item);
        var j :| 0 <= j < |Order(front)| && Order(front)[j] == item;
        assert Order(events)[j] == item;
      } else {
        assert Order(events)[|Order(events)| - 1] == item;
      }
    }
  }

  /** The output follows first occurrence, and leaves out no event and no release. */
  lemma OrderIsFirstOccurrence(events: seq<Event>)
    ensures forall j :: 0 <= j < |Order(events)| ==> Fits(Order(events)[j], events)
    ensures forall i, j :: 0 <= i < j < |Order(events)| ==> At(Order(events)[i], events) < At(Order(events)[j], events)
    ensures forall item :: Fits(item, events) ==> exists j :: 0 <= j < |Order(events)| && Order(events)[j] == item
  {
    hide Order, Mentions, FirstMention;
    assert events[..|events|] == events;
    OrderPrefix(events, |events|);
    forall item: Item | Fits(item, events)
      ensures exists j :: 0 <= j < |Order(events)| && Order(events)[j] == item
    {
      OrderComplete(events, item);
    }
  }

  // ----- what each part of the output is -------------------------------------------

  function Others(events: seq<Event>): seq<Event> {
    if events == [] then []
    else
      var front, e := Others(events[..|events| - 1]), events[|events| - 1];
      if e.detail.Release? then front else front + [e]
  }

  lemma OthersSnoc(front: seq<Event>, e: Event)
    ensures Others(front + [e]) == if e.detail.Release? then Others(front) else Others(front) + [e]
  {
    assert (front + [e])[..|front|] == front;
  }

  lemma GroupSnoc(front: seq<Event>, e: Event, k: Key)
    ensures Group(front + [e], k) == if Reports(e, k) then Group(front, k) + [e] else Group(front, k)
  {
    assert (front + [e])[..|front|] == front;
  }

  /** The outputs for the order of a prefix of the input. */
  ghost function Outputs(events: seq<Event>, n: nat, priority: Priority): (r: seq<Event>)
    requires n <= |events|
    ensures |r| == |Order(events[..n])|
  {
    OrderPrefix(events, n);
    var order := Order(events[..n]);
    seq(|order|, j requires 0 <= j < |order| && Fits(order[j], events) => Output(order[j], events, priority))
  }

  lemma OutputsAll(events: seq<Event>, priority: Priority)
    ensures Outputs(events, |events|, priority) == Reconciled(events, priority)
  {
    hide Order, Output;
    assert events[..|events|] == events;
  }

  lemma OutputsStep(events: seq<Event>, n: nat, priority: Priority)
    requires n < |events|
    ensures !events[n].detail.Release? ==>
              Outputs(events, n + 1, priority) == Outputs(events, n, priority) + [events[n]]
    ensures events[n].detail.Release? && Mentions(events[..n], KeyOf(events[n])) ==>
              Outputs(events, n + 1, priority) == Outputs(events, n, priority)
    ensures events[n].detail.Release? && !Mentions(events[..n], KeyOf(events[n])) ==>
              Mentions(events, KeyOf(events[n]))
              && Outputs(events, n + 1, priority)
                 == Outputs(events, n, priority) + [Output(GroupOf(KeyOf(events[n])), events, priority)]
  {
    hide Order, Mentions, Reports, Group, Merged;
    ListStep(events, n);
    var e := events[n];
    if e.detail.Release? && !Mentions(events[..n], KeyOf(e)) {
      FirstMentionHere(events, n);
    }
  }

  lemma MergedKey(events: seq<Event>, k: Key, priority: Priority)
    requires Mentions(events, k)
    ensures Reports(Output(GroupOf(k), events, priority), k)
  {
    MentionsGroup(events, k);
    var g := Group(events, k);
    RankedReleases(g, priority);
    assert Ranked(g, priority)[0] in Ranked(g, priority);
  }

  lemma ReportsRelease(e: Event, k: Key)
    ensures Reports(e, k) ==> e.detail.Release? && KeyOf(e) == k
  {
  }

  /** Non-releases come through unchanged and in order. */
  lemma {:induction false} OthersUntouched(events: seq<Event>, n: nat, priority: Priority)
    requires n <= |events|
    ensures Others(Outputs(events, n, priority)) == Others(events[..n])
  {
    hide Outputs, Others, Output, Mentions, Reports;
    if n == 0 {
      assert events[..0] == [];
      EmptyList();
    } else {
      OthersUntouched(events, n - 1, priority);
      OutputsStep(events, n - 1, priority);
      var e := events[n - 1];
      assert events[..n] == events[..n - 1] + [e];
      OthersSnoc(events[..n - 1], e);
      if !e.detail.Release? {
        OthersSnoc(Outputs(events, n - 1, priority), e);
      } else if !Mentions(events[..n - 1], KeyOf(e)) {
        FirstMentionHere(events, n - 1);
        var m := Output(GroupOf(KeyOf(e)), events, priority);
        OthersSnoc(Outputs(events, n - 1, priority), m);
        MergedKey(events, KeyOf(e), priority);
        ReportsRelease(m, KeyOf(e));
      }
    }
  }

  /** Each release comes out exactly once, as the merge of its whole group. */
  lemma {:induction false} GroupsMergedOnce(events: seq<Event>, n: nat, k: Key, priority: Priority)
    requires n <= |events|
    ensures Mentions(events[..n], k) ==> Mentions(events, k)
    ensures Group(Outputs(events, n, priority), k)
         == if Mentions(events[..n], k) then [Output(GroupOf(k), events, priority)] else []
  {
    hide Outputs, Group, Output, Mentions, Reports;
    if n == 0 {
      assert events[..0] == [];
      EmptyList();
      MentionsGroup([], k);
    } else {
      GroupsMergedOnce(events, n - 1, k, priority);
      OutputsStep(events, n - 1, priority);
      var e := events[n - 1];
      assert events[..n] == events[..n - 1] + [e];
      MentionsSnoc(events[..n - 1], e, k);
      if Mentions(events[..n], k) {
        FirstMentionStable(events, n, k);
      }
      ReportsRelease(e, k);
      ReportsOwn(e);
      if !e.detail.Release? {
        GroupSnoc(Outputs(events, n - 1, priority), e, k);
      } else if !Mentions(events[..n - 1], KeyOf(e)) {
        FirstMentionHere(events, n - 1);
        var m := Output(GroupOf(KeyOf(e)), events, priority);
        GroupSnoc(Outputs(events, n - 1, priority), m, k);
        MergedKey(events, KeyOf(e), priority);
        ReportsRelease(m, KeyOf(e));
        ReportsRelease(m, k);
      }
    }
  }

  /** The shape of the result: the other events as they were, and for each release mentioned
      exactly one event, the merge of its group. */
  lemma ReconciledParts(events: seq<Event>, priority: Priority)
    ensures Others(Reconciled(events, priority)) == Others(events)
    ensures forall k :: Mentions(events, k) ==>
              Group(events, k) != [] && Group(Reconciled(events, priority), k) == [Merged(Group(events, k), priority)]
    ensures forall k :: !Mentions(events, k) ==> Group(Reconciled(events, priority), k) == []
  {
    hide Outputs, Others, Group, Mentions, Merged, Reconciled;
    assert events[..|events|] == events;
    OutputsAll(events, priority);
    OthersUntouched(events, |events|, priority);
    forall k: Key
      ensures Mentions(events, k) ==>
                Group(events, k) != [] && Group(Reconciled(events, priority), k) == [Merged(Group(events, k), priority)]
      ensures !Mentions(events, k) ==> Group(Reconciled(events, priority), k) == []
    {
      GroupsMergedOnce(events, |events|, k, priority);
      MentionsGroup(events, k);
    }
  }

  function Keys(events: seq<Event>): set<Key> {
    set i | 0 <= i < |events| && events[i].detail.Release? :: KeyOf(events[i])
  }

  lemma KeysSnoc(front: seq<Event>, e: Event)
    ensures Keys(front + [e]) == Keys(front) + (if e.detail.Release? then {KeyOf(e)} else {})
    ensures e.detail.Release? ==> (KeyOf(e) in Keys(front) <==> Mentions(front, KeyOf(e)))
  {
    var b := front + [e];
    assert b[|front|] == e;
    assert forall i :: 0 <= i < |front| ==> b[i] == front[i];
    if e.detail.Release? && KeyOf(e) in Keys(front) {
      var i :| 0 <= i < |front| && front[i].detail.Release? && KeyOf(front[i]) == KeyOf(e);
      assert Reports(front[i], KeyOf(e));
    }
  }

  lemma NoKeys()
    ensures Keys([]) == {}
  {
  }

  /** One output per non-release and one per distinct release. */
  lemma {:induction false} OrderLength(events: seq<Event>)
    ensures |Order(events)| == |Others(events)| + |Keys(events)|
  {
    hide Mentions, Keys;
    if events == [] {
      NoKeys();
    } else {
      var front, e := events[..|events| - 1], events[|events| - 1];
      assert front + [e] == events;
      OrderLength(front);
      KeysSnoc(front, e);
      if e.detail.Release? && !Mentions(front, KeyOf(e)) {
        assert |Keys(front) + {KeyOf(e)}| == |Keys(front)| + 1;
      } else {
        assert Keys(events) == Keys(front);
      }
    }
  }

  // ----- idempotence ---------------------------------------------------------------

  lemma {:induction false} GroupPrefixShorter(events: seq<Event>, n: nat, k: Key)
    requires n <= |events|
    ensures |Group(events[..n], k)| <= |Group(events, k)|
    decreases |events| - n
  {
    if n == |events| {
      assert events[..n] == events;
    } else {
      GroupPrefixShorter(events, n + 1, k);
      assert events[..n + 1] == events[..n] + [events[n]];
      GroupSnoc(events[..n], events[n], k);
    }
  }

  ghost predicate Single(events: seq<Event>) {
    forall k :: |Group(events, k)| <= 1
  }

  lemma {:induction false} SingleSuffix(events: seq<Event>, n: nat, k: Key)
    requires n <= |events| && |Group(events, k)| <= 1 && Group(events[..n], k) != []
    ensures Group(events, k) == Group(events[..n], k)
    decreases |events| - n
  {
    hide Reports, Group;
    if n == |events| {
      assert events[..n] == events;
    } else {
      assert events[..n + 1] == events[..n] + [events[n]];
      GroupSnoc(events[..n], events[n], k);
      GroupPrefixShorter(events, n + 1, k);
      SingleSuffix(events, n + 1, k);
    }
  }

  lemma SingleGroup(events: seq<Event>, i: nat)
    requires i < |events| && events[i].detail.Release? && Single(events)
    ensures !Mentions(events[..i], KeyOf(events[i]))
    ensures Group(events, KeyOf(events[i])) == [events[i]]
  {
    hide Group, Mentions, Reports;
    var k := KeyOf(events[i]);
    ReportsOwn(events[i]);
    GroupPrefixShorter(events, i + 1, k);
    assert events[..i + 1] == events[..i] + [events[i]];
    GroupSnoc(events[..i], events[i], k);
    MentionsGroup(events[..i], k);
    SingleSuffix(events, i + 1, k);
  }

  lemma MergedAlone(e: Event, priority: Priority)
    requires e.detail.Release?
    ensures Merged([e], priority) == e
  {
  }

  lemma {:induction false} SinglesStay(events: seq<Event>, n: nat, priority: Priority)
    requires n <= |events| && Single(events)
    ensures Outputs(events, n, priority) == events[..n]
  {
    hide Outputs, Single, Mentions, Group, Order, Merged;
    if n == 0 {
      assert events[..0] == [];
      EmptyList();
    } else {
      SinglesStay(events, n - 1, priority);
      OutputsStep(events, n - 1, priority);
      var e := events[n - 1];
      assert events[..n] == events[..n - 1] + [e];
      if e.detail.Release? {
        SingleGroup(events, n - 1);
        MergedAlone(e, priority);
      }
    }
  }

  /** Reconciling twice is reconciling once. */
  lemma Idempotent(events: seq<Event>, priority: Priority)
    ensures Reconciled(Reconciled(events, priority), priority) == Reconciled(events, priority)
  {
    hide Reconciled, Outputs, Group, Mentions, Others;
    var r := Reconciled(events, priority);
    ReconciledParts(events, priority);
    SinglesStay(r, |r|, priority);
    OutputsAll(r, priority);
    assert r[..|r|] == r;
  }

  // ----- insensitivity to input order ----------------------------------------------

  lemma {:induction false} GroupMultiset(events: seq<Event>, k: Key, e: Event)
    ensures multiset(Group(events, k))[e] == if Reports(e, k) then multiset(events)[e] else 0
  {
    hide Reports;
    if events == [] {
    } else {
      var front, last := events[..|events| - 1], events[|events| - 1];
      assert events == front + [last];
      GroupMultiset(front, k, e);
      GroupSnoc(front, last, k);
    }
  }

  lemma {:induction false} OthersMultiset(events: seq<Event>, e: Event)
    ensures multiset(Others(events))[e] == if e.detail.Release? then 0 else multiset(events)[e]
  {
    if events == [] {
    } else {
      var front, last := events[..|events| - 1], events[|events| - 1];
      assert events == front + [last];
      OthersMultiset(front, e);
      OthersSnoc(front, last);
    }
  }

  /** Nobody in the group ranks better. */
  ghost predicate Top(g: seq<Event>, e: Event, priority: Priority) {
    e in g && forall x :: x in g ==> RankOf(e, priority) <= RankOf(x, priority)
  }

  /** Nobody in the group that has the field ranks better. */
  ghost predicate TopWith(g: seq<Event>, e: Event, f: MergeField, priority: Priority)
    requires Releases(g)
  {
    && e in g && Filled(FieldOf(e, f))
    && forall x :: x in g && Filled(FieldOf(x, f)) ==> RankOf(e, priority) <= RankOf(x, priority)
  }

  /** One event has the least rank, and for each merge field the best-ranked events that have it
      agree on its value. */
  ghost predicate Settled(g: seq<Event>, priority: Priority)
    requires Releases(g)
  {
    && (forall x, y :: Top(g, x, priority) && Top(g, y, priority) ==> x == y)
    && (forall f: MergeField, x, y ::
          TopWith(g, x, f, priority) && TopWith(g, y, f, priority) ==> FieldOf(x, f) == FieldOf(y, f))
  }

  lemma RankedFirstIsTop(g: seq<Event>, priority: Priority)
    requires g != [] && Releases(g)
    ensures Ranked(g, priority) != [] && Top(g, Ranked(g, priority)[0], priority)
  {
    hide RankOf, Ranked;
    RankedReleases(g, priority);
    RankedAscends(g, priority);
    var r := Ranked(g, priority);
    assert r[0] in r;
    forall x | x in g ensures RankOf(r[0], priority) <= RankOf(x, priority) {
      var m :| 0 <= m < |r| && r[m] == x;
    }
  }

  lemma BestIsTopWith(g: seq<Event>, f: MergeField, priority: Priority)
    requires Releases(g)
    ensures Best(g, f, priority).Some? ==> TopWith(g, Best(g, f, priority).value, f, priority)
    ensures Best(g, f, priority).None? ==> forall x :: x in g ==> !Filled(FieldOf(x, f))
  {
    hide RankOf, FieldOf, Filled, Best;
    BestIsBest(g, f, priority);
  }

  lemma SourcesByMembers(g: seq<Event>)
    ensures forall s :: s in Sources(g) <==> exists e :: e in g && e.source == s
  {
    forall s | s in Sources(g) ensures exists e :: e in g && e.source == s {
      var i :| 0 <= i < |g| && g[i].source == s;
      assert g[i] in g;
    }
  }

  lemma SameTops(g: seq<Event>, h: seq<Event>, priority: Priority)
    requires Releases(g) && Releases(h) && forall x :: x in g <==> x in h
    ensures forall e :: Top(g, e, priority) <==> Top(h, e, priority)
    ensures forall e, f :: TopWith(g, e, f, priority) <==> TopWith(h, e, f, priority)
    ensures Sources(g) == Sources(h)
  {
    hide RankOf, FieldOf, Filled;
    SourcesByMembers(g);
    SourcesByMembers(h);
  }

  lemma TopWithFilled(g: seq<Event>, e: Event, f: MergeField, priority: Priority)
    requires Releases(g) && TopWith(g, e, f, priority)
    ensures e in g && Filled(FieldOf(e, f))
  {
  }

  lemma SettledField(g: seq<Event>, h: seq<Event>, f: MergeField, priority: Priority)
    requires Releases(g) && Releases(h) && (forall x :: x in g <==> x in h) && Settled(g, priority)
    ensures Releases(Ranked(g, priority)) && Releases(Ranked(h, priority))
    ensures FirstFilled(Ranked(g, priority), f) == FirstFilled(Ranked(h, priority), f)
  {
    hide RankOf, FieldOf, Filled, Best, Ranked, FirstWith, Top, TopWith;
    RankedFirstIsBest(g, f, priority);
    RankedFirstIsBest(h, f, priority);
    BestIsTopWith(g, f, priority);
    BestIsTopWith(h, f, priority);
    SameTops(g, h, priority);
    var b, d := Best(g, f, priority), Best(h, f, priority);
    if b.Some? {
      TopWithFilled(g, b.value, f, priority);
    }
    if d.Some? {
      TopWithFilled(h, d.value, f, priority);
    }
  }

  lemma CombineSame(r: seq<Event>, q: seq<Event>, sources: seq<string>)
    requires r != [] && q != [] && Releases(r) && Releases(q) && r[0] == q[0]
    requires forall f: MergeField :: FirstFilled(r, f) == FirstFilled(q, f)
    ensures Combine(r[0], f => if Releases(r) then FirstFilled(r, f) else Nil, sources)
         == Combine(q[0], f => if Releases(q) then FirstFilled(q, f) else Nil, sources)
  {
    hide FirstFilled;
  }

  lemma SettledTop(g: seq<Event>, x: Event, y: Event, priority: Priority)
    requires Releases(g) && Settled(g, priority) && Top(g, x, priority) && Top(g, y, priority)
    ensures x == y
  {
  }

  /** A settled group merges the same in every order. */
  lemma MergePermutation(g: seq<Event>, h: seq<Event>, priority: Priority)
    requires g != [] && h != [] && Releases(g) && Releases(h)
    requires multiset(g) == multiset(h) && Settled(g, priority)
    ensures Merged(g, priority) == Merged(h, priority)
  {
    hide RankOf, Ranked, Settled, Top, TopWith, Combine, FirstFilled;
    SameMembers(g, h);
    if |g| == 1 {
      assert g[0] in h;
    } else {
      SameTops(g, h, priority);
      RankedReleases(g, priority);
      RankedReleases(h, priority);
      RankedFirstIsTop(g, priority);
      RankedFirstIsTop(h, priority);
      SettledTop(g, Ranked(g, priority)[0], Ranked(h, priority)[0], priority);
      forall f: MergeField ensures FirstFilled(Ranked(g, priority), f) == FirstFilled(Ranked(h, priority), f) {
        SettledField(g, h, f, priority);
      }
      CombineSame(Ranked(g, priority), Ranked(h, priority), SortedTexts(Sources(g)));
    }
  }

  /** No two of these events have the same rank. */
  ghost predicate DistinctRanks(g: seq<Event>, priority: Priority) {
    forall x, y :: x in g && y in g && RankOf(x, priority) == RankOf(y, priority) ==> x == y
  }

  /** Groups without ties are settled. */
  lemma DistinctRanksSettle(g: seq<Event>, priority: Priority)
    requires Releases(g) && DistinctRanks(g, priority)
    ensures Settled(g, priority)
  {
    hide RankOf, FieldOf, Filled;
  }

  // ----- exactly when the order is immaterial --------------------------------------

  /** Every order of the group merges to one event. */
  ghost predicate MergesAlike(g: seq<Event>, priority: Priority)
    requires g != [] && Releases(g)
  {
    forall h: seq<Event> :: multiset(h) == multiset(g) && h != [] && Releases(h)
                            ==> Merged(h, priority) == Merged(g, priority)
  }

  lemma Reordered(g: seq<Event>, x: Event) returns (h: seq<Event>)
    requires x in g
    ensures h != [] && h[0] == x && multiset(h) == multiset(g)
    ensures Releases(g) ==> Releases(h)
  {
    var i :| 0 <= i < |g| && g[i] == x;
    h := [x] + (g[..i] + g[i + 1..]);
    assert g == g[..i] + [x] + g[i + 1..];
    assert forall k :: 0 <= k < |h| ==> h[k] in g;
  }

  lemma TopRank(g: seq<Event>, e: Event, x: Event, priority: Priority)
    requires Top(g, e, priority) && x in g
    ensures RankOf(e, priority) <= RankOf(x, priority)
  {
  }

  /** A top event put first becomes the base of the merge. */
  lemma FirstTopIsBase(h: seq<Event>, priority: Priority)
    requires h != [] && Releases(h) && Top(h, h[0], priority)
    ensures Merged(h, priority).id == h[0].id
  {
    hide RankOf, Top;
    var rest := StableSort(ByRank(priority), h[1..]);
    StableSortMultiset(ByRank(priority), h[1..]);
    if rest != [] {
      assert rest[0] in multiset(rest);
      assert rest[0] in h[1..];
      TopRank(h, h[0], rest[0], priority);
    }
    assert Ranked(h, priority) == [h[0]] + rest;
  }

  /** A top event with the field, put first, gives the field its value. */
  lemma FirstTopGivesField(h: seq<Event>, f: MergeField, priority: Priority)
    requires h != [] && Releases(h) && TopWith(h, h[0], f, priority)
    ensures FieldOf(Merged(h, priority), f) == FieldOf(h[0], f)
  {
    hide RankOf, FieldOf, Filled, Merged;
    MergedField(h, f, priority);
    var rest := Best(h[1..], f, priority);
    if rest.Some? {
      assert rest.value in h[1..] && rest.value in h;
    }
  }

  lemma TopIn(g: seq<Event>, x: Event, priority: Priority)
    requires Top(g, x, priority)
    ensures x in g
  {
  }

  lemma OrderFreeTops(g: seq<Event>, x: Event, y: Event, priority: Priority)
    requires g != [] && Releases(g) && MergesAlike(g, priority) && Top(g, x, priority) && Top(g, y, priority)
    ensures x.id == y.id
  {
    hide RankOf, Merged, Top;
    TopIn(g, x, priority);
    TopIn(g, y, priority);
    var h := Reordered(g, x);
    var k := Reordered(g, y);
    SameMembers(h, g);
    SameMembers(k, g);
    SameTops(h, g, priority);
    SameTops(k, g, priority);
    FirstTopIsBase(h, priority);
    FirstTopIsBase(k, priority);
  }

  lemma OrderFreeFields(g: seq<Event>, x: Event, y: Event, f: MergeField, priority: Priority)
    requires g != [] && Releases(g) && MergesAlike(g, priority)
    requires TopWith(g, x, f, priority) && TopWith(g, y, f, priority)
    ensures FieldOf(x, f) == FieldOf(y, f)
  {
    hide RankOf, Merged, TopWith, FieldOf, Top, Filled;
    TopWithFilled(g, x, f, priority);
    TopWithFilled(g, y, f, priority);
    var h := Reordered(g, x);
    var k := Reordered(g, y);
    SameMembers(h, g);
    SameMembers(k, g);
    SameTops(h, g, priority);
    SameTops(k, g, priority);
    FirstTopGivesField(h, f, priority);
    FirstTopGivesField(k, f, priority);
  }

  ghost predicate DistinctIds(events: seq<Event>) {
    forall i, j :: 0 <= i < j < |events| ==> events[i].id != events[j].id
  }

  /** For any group of events with distinct ids the order is immaterial exactly when the group is
      settled. */
  lemma OrderImmaterialExactly(g: seq<Event>, priority: Priority)
    requires g != [] && Releases(g) && DistinctIds(g)
    ensures MergesAlike(g, priority) <==> Settled(g, priority)
  {
    hide RankOf, Merged, Top, FieldOf, Filled;
    if Settled(g, priority) {
      forall h: seq<Event> | multiset(h) == multiset(g) && h != [] && Releases(h)
        ensures Merged(h, priority) == Merged(g, priority)
      {
        MergePermutation(g, h, priority);
      }
    }
    if MergesAlike(g, priority) {
      forall x, y | Top(g, x, priority) && Top(g, y, priority) ensures x == y {
        OrderFreeTops(g, x, y, priority);
        TopIn(g, x, priority);
        TopIn(g, y, priority);
      }
      forall f: MergeField, x, y | TopWith(g, x, f, priority) && TopWith(g, y, f, priority)
        ensures FieldOf(x, f) == FieldOf(y, f)
      {
        OrderFreeFields(g, x, y, f, priority);
      }
    }
  }

  /** Reordering the input reorders the output: the same other events, the same releases, and
      for each release with a settled group the same merged event. */
  lemma OrderInsensitive(a: seq<Event>, b: seq<Event>, priority: Priority)
    requires multiset(a) == multiset(b)
    ensures multiset(Others(Reconciled(a, priority))) == multiset(Others(Reconciled(b, priority)))
    ensures forall k :: Mentions(a, k) <==> Mentions(b, k)
    ensures forall k :: Settled(Group(a, k), priority) ==>
              Group(Reconciled(a, priority), k) == Group(Reconciled(b, priority), k)
  {
    hide Reconciled, Others, Group, Mentions, Merged, Settled;
    ReconciledParts(a, priority);
    ReconciledParts(b, priority);
    forall e ensures multiset(Others(a))[e] == multiset(Others(b))[e] {
      OthersMultiset(a, e);
      OthersMultiset(b, e);
    }
    forall k: Key
      ensures Mentions(a, k) <==> Mentions(b, k)
      ensures Settled(Group(a, k), priority) ==>
                Group(Reconciled(a, priority), k) == Group(Reconciled(b, priority), k)
    {
      forall e ensures multiset(Group(a, k))[e] == multiset(Group(b, k))[e] {
        GroupMultiset(a, k, e);
        GroupMultiset(b, k, e);
      }
      assert multiset(Group(a, k)) == multiset(Group(b, k));
      MentionsGroup(a, k);
      MentionsGroup(b, k);
      assert |Group(a, k)| == |multiset(Group(a, k))| && |Group(b, k)| == |multiset(Group(b, k))|;
      if Mentions(a, k) && Settled(Group(a, k), priority) {
        MergePermutation(Group(a, k), Group(b, k), priority);
      }
    }
  }

  /** For two events of one release the order is immaterial exactly when their ranks differ. */
  lemma TieDependsOnOrder(a: Event, b: Event, priority: Priority)
    requires a.detail.Release? && b.detail.Release? && a.id != b.id
    ensures Merged([a, b], priority) == Merged([b, a], priority) <==> RankOf(a, priority) != RankOf(b, priority)
  {
    hide RankOf, Merged, Settled;
    assert multiset([a, b]) == multiset([b, a]);
    if RankOf(a, priority) != RankOf(b, priority) {
      DistinctRanksSettle([a, b], priority);
      MergePermutation([a, b], [b, a], priority);
    } else {
      assert Top([a, b], a, priority) && Top([b, a], b, priority);
      FirstTopIsBase([a, b], priority);
      FirstTopIsBase([b, a], priority);
    }
  }

  // ----- identity ------------------------------------------------------------------

  /** The merged event carries the id, source, date and release of a best-ranked member. */
  lemma MergedIdentity(g: seq<Event>, priority: Priority)
    requires g != [] && Releases(g)
    ensures exists i :: 0 <= i < |g|
              && g[i].id == Merged(g, priority).id && g[i].source == Merged(g, priority).source
              && g[i].date == Merged(g, priority).date
              && g[i].detail.code == Merged(g, priority).detail.code
              && (forall j :: 0 <= j < |g| ==> RankOf(g[i], priority) <= RankOf(g[j], priority))
  {
    hide RankOf;
    RankedReleases(g, priority);
    RankedAscends(g, priority);
    var r := Ranked(g, priority);
    assert r[0] in r;
    var i :| 0 <= i < |g| && g[i] == r[0];
    forall j | 0 <= j < |g| ensures RankOf(g[i], priority) <= RankOf(g[j], priority) {
      assert g[j] in r;
      var m :| 0 <= m < |r| && r[m] == g[j];
    }
  }

  function Owner(events: seq<Event>, i: nat): Item
    requires i < |events|
  {
    if events[i].detail.Release? then GroupOf(KeyOf(events[i])) else Position(i)
  }

  lemma OutputOrigin(events: seq<Event>, item: Item, priority: Priority)
    requires Fits(item, events)
    ensures exists i :: 0 <= i < |events| && Owner(events, i) == item
                        && events[i].id == Output(item, events, priority).id
  {
    match item
    case Position(i) =>
      assert Owner(events, i) == item;
    case GroupOf(k) =>
      MentionsGroup(events, k);
      var g := Group(events, k);
      MergedIdentity(g, priority);
      var m :| 0 <= m < |g| && g[m].id == Merged(g, priority).id;
      assert g[m] in events;
      var i :| 0 <= i < |events| && events[i] == g[m];
      assert Owner(events, i) == item;
  }

  /** Distinct ids stay distinct. */
  lemma IdsStayDistinct(events: seq<Event>, priority: Priority)
    requires DistinctIds(events)
    ensures DistinctIds(Reconciled(events, priority))
  {
    hide Order, Output, Owner, Fits, At;
    var r, order := Reconciled(events, priority), Order(events);
    OrderIsFirstOccurrence(events);
    forall i, j | 0 <= i < j < |r| ensures r[i].id != r[j].id {
      assert At(order[i], events) < At(order[j], events);
      OutputOrigin(events, order[i], priority);
      OutputOrigin(events, order[j], priority);
      var x :| 0 <= x < |events| && Owner(events, x) == order[i] && events[x].id == r[i].id;
      var y :| 0 <= y < |events| && Owner(events, y) == order[j] && events[y].id == r[j].id;
    }
  }
}
