/** Merging the events that several sources report for one economic release. */
module GroupMerge {
  import opened Text
  import opened Events
  import opened Ordering

  type Priority = seq<string>

  const DEFAULT_SOURCE_PRIORITY: Priority :=
    ["fred_api", "fomc_schedule", "bls_api", "bea_api", "ism_pmi", "econ_calendar"]

  /** `_priority_rank`: the position of the source, or the length for an unranked one. */
  function Rank(source: string, priority: Priority): (r: nat)
    ensures r <= |priority|
    ensures r < |priority| ==> priority[r] == source
    ensures r == |priority| <==> source !in priority
    ensures forall i :: 0 <= i < r ==> priority[i] != source
  {
    if priority == [] then 0
    else if priority[0] == source then 0
    else 1 + Rank(source, priority[1..])
  }

  function RankOf(e: Event, priority: Priority): nat {
    Rank(e.source, priority)
  }

  // ----- the stable sort by rank ---------------------------------------------------

  function ByRank(priority: Priority): (Event, Event) -> bool {
    (a, b) => RankOf(a, priority) <= RankOf(b, priority)
  }

  /** `sorted(group, key=rank)` */
  function Ranked(group: seq<Event>, priority: Priority): seq<Event> {
    StableSort(ByRank(priority), group)
  }

  /** Sorting rearranges. */
  lemma RankedMultiset(group: seq<Event>, priority: Priority)
    ensures multiset(Ranked(group, priority)) == multiset(group)
    ensures |Ranked(group, priority)| == |group|
  {
    StableSortMultiset(ByRank(priority), group);
  }

  predicate RankAscends(r: seq<Event>, priority: Priority) {
    forall i, j :: 0 <= i < j < |r| ==> RankOf(r[i], priority) <= RankOf(r[j], priority)
  }

  lemma RankedAscends(group: seq<Event>, priority: Priority)
    ensures RankAscends(Ranked(group, priority), priority)
  {
    hide RankOf, StableSort;
    StableSortAscends(ByRank(priority), group);
  }

  // ----- merging one group ---------------------------------------------------------

  datatype MergeField = Forecast | Previous | Actual | Revision | Unit | Agency | Period | Country

  const MERGE_FIELDS := [Forecast, Previous, Actual, Revision, Unit, Agency, Period, Country]

  datatype FieldValue = Nil | Number(n: real) | Words(s: string)

  function OfNumber(r: Option<real>): FieldValue {
    if r.Some? then Number(r.value) else Nil
  }

  function OfText(s: Option<string>): FieldValue {
    if s.Some? then Words(s.value) else Nil
  }

  /** `getattr(event, field_name)` */
  function FieldOf(e: Event, f: MergeField): FieldValue
    requires e.detail.Release?
  {
    match f
    case Forecast => OfNumber(e.detail.forecast)
    case Previous => OfNumber(e.detail.previous)
    case Actual => OfNumber(e.detail.actual)
    case Revision => OfNumber(e.detail.revision)
    case Unit => Words(e.detail.unit)
    case Agency => Words(e.detail.agency)
    case Period => Words(e.detail.period)
    case Country => OfText(e.detail.country)
  }

  /** Only None and "" are gaps; zero is a value. */
  predicate Filled(v: FieldValue) {
    v != Nil && v != Words("")
  }

  predicate Releases(group: seq<Event>) {
    forall i :: 0 <= i < |group| ==> group[i].detail.Release?
  }

  /** The first event with the field filled. */
  function FirstWith(events: seq<Event>, f: MergeField): (r: Option<Event>)
    requires Releases(events)
    ensures r.Some? ==> r.value in events && Filled(FieldOf(r.value, f))
  {
    if events == [] then None
    else if Filled(FieldOf(events[0], f)) then Some(events[0])
    else FirstWith(events[1..], f)
  }

  function ValueOf(r: Option<Event>, f: MergeField): FieldValue
    requires r.Some? ==> r.value.detail.Release?
  {
    if r.None? then Nil else FieldOf(r.value, f)
  }

  /** The first filled value, walking the events in order. */
  function FirstFilled(ranked: seq<Event>, f: MergeField): FieldValue
    requires Releases(ranked)
  {
    ValueOf(FirstWith(ranked, f), f)
  }

  function TextOr(v: FieldValue, default: string): string {
    if v.Words? then v.s else default
  }

  function NumberOrNone(v: FieldValue): Option<real> {
    if v.Number? then Some(v.n) else None
  }

  ghost function Sources(group: seq<Event>): set<string> {
    set i | 0 <= i < |group| :: group[i].source
  }

  lemma TextTotal(s: set<string>)
    ensures StrictTotalOn(Less, s)
  {
    forall a | a in s ensures !Less(a, a) {
      LessIrreflexive(a);
    }
    forall a, b, c | a in s && b in s && c in s && Less(a, b) && Less(b, c) ensures Less(a, c) {
      LessTransitive(a, b, c);
    }
    forall a, b | a in s && b in s ensures a == b || Less(a, b) || Less(b, a) {
      LessTotal(a, b);
    }
  }

  ghost function SortedTexts(s: set<string>): seq<string> {
    TextTotal(s);
    InOrder(Less, s)
  }

  function TextArray(texts: seq<string>): Json {
    JArray(Map(s => JText(s), texts))
  }

  /** The merged event: identity from the best-ranked event, each field from the first that has it. */
  function Combine(base: Event, value: MergeField -> FieldValue, sources: seq<string>): Event
    requires base.detail.Release?
  {
    base.(metadata := base.metadata["reconciled_from" := TextArray(sources)],
          detail := Release(base.detail.releaseName, base.detail.code,
                            TextOr(value(Agency), base.detail.agency),
                            TextOr(value(Period), base.detail.period),
                            NumberOrNone(value(Forecast)), NumberOrNone(value(Previous)),
                            NumberOrNone(value(Actual)), NumberOrNone(value(Revision)),
                            TextOr(value(Unit), base.detail.unit),
                            if value(Country).Words? then Some(value(Country).s) else base.detail.country))
  }

  lemma RankedReleases(group: seq<Event>, priority: Priority)
    requires Releases(group)
    ensures Releases(Ranked(group, priority)) && |Ranked(group, priority)| == |group|
    ensures forall e :: e in Ranked(group, priority) <==> e in group
  {
    RankedMultiset(group, priority);
    var r := Ranked(group, priority);
    forall e ensures e in r <==> e in group {
      assert e in r <==> e in multiset(r);
      assert e in group <==> e in multiset(group);
    }
    assert forall i :: 0 <= i < |r| ==> r[i] in group;
  }

  ghost function Merged(group: seq<Event>, priority: Priority): (e: Event)
    requires group != [] && Releases(group)
    ensures e.detail.Release?
  {
    if |group| == 1 then group[0]
    else
      RankedReleases(group, priority);
      var ranked := Ranked(group, priority);
      Combine(ranked[0], f => if Releases(ranked) then FirstFilled(ranked, f) else Nil,
              SortedTexts(Sources(group)))
  }

  /** The inner loop of `_merge_group`: the value found before its `break`, or none. */
  method FirstValue(ranked: seq<Event>, f: MergeField) returns (value: FieldValue)
    requires Releases(ranked)
    ensures value == FirstFilled(ranked, f) && (value != Nil <==> Filled(FirstFilled(ranked, f)))
  {
    hide FieldOf;
    for j := 0 to |ranked|
      invariant FirstWith(ranked, f) == FirstWith(ranked[j..], f)
    {
      assert ranked[j..][1..] == ranked[j + 1..];
      if Filled(FieldOf(ranked[j], f)) {
        return FieldOf(ranked[j], f);
      }
    }
    value := Nil;
  }

  lemma AllMergeFields()
    ensures forall f: MergeField :: f in MERGE_FIELDS
  {
    forall f: MergeField ensures f in MERGE_FIELDS {
      var at := match f
        case Forecast => 0 case Previous => 1 case Actual => 2 case Revision => 3
        case Unit => 4 case Agency => 5 case Period => 6 case Country => 7;
      assert MERGE_FIELDS[at] == f;
    }
  }

  lemma CombineAgrees(ranked: seq<Event>, fields: map<MergeField, FieldValue>, sources: seq<string>)
    requires ranked != [] && Releases(ranked)
    requires forall f: MergeField :: f in fields <==> Filled(FirstFilled(ranked, f))
    requires forall f: MergeField :: f in fields ==> fields[f] == FirstFilled(ranked, f)
    ensures Combine(ranked[0], f => if f in fields then fields[f] else Nil, sources)
         == Combine(ranked[0], f => if Releases(ranked) then FirstFilled(ranked, f) else Nil, sources)
  {
    hide FirstWith, Filled;
    assert forall f: MergeField :: (if f in fields then fields[f] else Nil) == FirstFilled(ranked, f);
  }

  /** `_merge_group` */
  method MergeGroup(group: seq<Event>, priority: Priority) returns (e: Event)
    requires group != [] && Releases(group)
    ensures e == Merged(group, priority)
  {
    if |group| == 1 {
      return group[0];
    }
    hide Ranked, RankOf, StrictTotalOn, Combine, Filled, FirstFilled;
    RankedReleases(group, priority);
    var ranked := Ranked(group, priority);
    var mergedFields: map<MergeField, FieldValue> := map[];
    for i := 0 to |MERGE_FIELDS|
      invariant forall f :: f in mergedFields <==> f in MERGE_FIELDS[..i] && Filled(FirstFilled(ranked, f))
      invariant forall f :: f in mergedFields ==> mergedFields[f] == FirstFilled(ranked, f)
    {
      var f := MERGE_FIELDS[i];
      var value := FirstValue(ranked, f);
      if value != Nil {
        mergedFields := mergedFields[f := value];
      }
      assert MERGE_FIELDS[..i + 1] == MERGE_FIELDS[..i] + [f];
    }
    assert MERGE_FIELDS[..|MERGE_FIELDS|] == MERGE_FIELDS;
    AllMergeFields();
    var sources := set i | 0 <= i < |group| :: group[i].source;
    TextTotal(sources);
    var sorted := Sort(Less, sources);
    e := Combine(ranked[0], f => if f in mergedFields then mergedFields[f] else Nil, sorted);
    CombineAgrees(ranked, mergedFields, sorted);
  }

  // ----- which event wins a field --------------------------------------------------

  /** Reference definition by one pass: the best-ranked event with the field filled, the
      earlier one among equals. */
  function Best(group: seq<Event>, f: MergeField, priority: Priority): (r: Option<Event>)
    requires Releases(group)
    ensures r.Some? ==> r.value in group && Filled(FieldOf(r.value, f))
  {
    if group == [] then None
    else
      var rest := Best(group[1..], f, priority);
      if Filled(FieldOf(group[0], f)) && (rest.None? || RankOf(group[0], priority) <= RankOf(rest.value, priority))
      then Some(group[0]) else rest
  }

  lemma {:induction false} BestIsBest(group: seq<Event>, f: MergeField, priority: Priority)
    requires Releases(group)
    ensures forall i :: 0 <= i < |group| && Filled(FieldOf(group[i], f)) ==>
              Best(group, f, priority).Some?
              && RankOf(Best(group, f, priority).value, priority) <= RankOf(group[i], priority)
  {
    hide RankOf, FieldOf, Filled;
    if group == [] {
    } else {
      BestIsBest(group[1..], f, priority);
      assert forall i :: 0 < i < |group| ==> group[i] == group[1..][i - 1];
    }
  }

  /** Every earlier event that has the field ranks strictly worse than the one at `i`. */
  ghost predicate OutranksEarlier(group: seq<Event>, i: nat, f: MergeField, priority: Priority)
    requires Releases(group) && i < |group|
  {
    forall j :: 0 <= j < i && Filled(FieldOf(group[j], f)) ==>
      RankOf(group[i], priority) < RankOf(group[j], priority)
  }

  lemma OutranksShift(group: seq<Event>, i: nat, f: MergeField, priority: Priority)
    requires group != [] && Releases(group) && i < |group| - 1 && OutranksEarlier(group[1..], i, f, priority)
    requires Filled(FieldOf(group[0], f)) ==> RankOf(group[i + 1], priority) < RankOf(group[0], priority)
    ensures OutranksEarlier(group, i + 1, f, priority)
  {
    hide RankOf, FieldOf, Filled;
    forall j | 0 <= j < i + 1 && Filled(FieldOf(group[j], f))
      ensures RankOf(group[i + 1], priority) < RankOf(group[j], priority)
    {
      assert j > 0 ==> group[j] == group[1..][j - 1];
    }
  }

  lemma OutranksNobody(group: seq<Event>, f: MergeField, priority: Priority)
    requires group != [] && Releases(group)
    ensures OutranksEarlier(group, 0, f, priority)
  {
  }

  /** Among equally ranked events the winner is the earliest. */
  lemma {:induction false} BestIsEarliest(group: seq<Event>, f: MergeField, priority: Priority)
    requires Releases(group) && Best(group, f, priority).Some?
    ensures exists i: nat :: i < |group| && group[i] == Best(group, f, priority).value
                             && OutranksEarlier(group, i, f, priority)
  {
    hide RankOf, FieldOf, Filled, OutranksEarlier;
    var best := Best(group, f, priority).value;
    if best == group[0] {
      OutranksNobody(group, f, priority);
    } else {
      var rest := group[1..];
      BestIsEarliest(rest, f, priority);
      var i: nat :| i < |rest| && rest[i] == best && OutranksEarlier(rest, i, f, priority);
      assert group[i + 1] == best;
      OutranksShift(group, i, f, priority);
    }
  }

  lemma FirstCons(x: Event, rest: seq<Event>, f: MergeField)
    requires x.detail.Release? && Releases(rest)
    ensures Releases([x] + rest)
    ensures FirstWith([x] + rest, f) == if Filled(FieldOf(x, f)) then Some(x) else FirstWith(rest, f)
  {
    hide FieldOf, Filled;
    assert ([x] + rest)[1..] == rest;
  }

  lemma FirstNotAboveHead(r: seq<Event>, f: MergeField, priority: Priority)
    requires r != [] && Releases(r) && RankAscends(r, priority) && FirstWith(r, f).Some?
    ensures RankOf(r[0], priority) <= RankOf(FirstWith(r, f).value, priority)
  {
    hide RankOf, FieldOf, Filled, FirstWith;
    var i :| 0 <= i < |r| && r[i] == FirstWith(r, f).value;
  }

  lemma InsertByRank(x: Event, r: seq<Event>, priority: Priority)
    ensures Insert(ByRank(priority), x, r) ==
            if r == [] || RankOf(x, priority) <= RankOf(r[0], priority) then [x] + r
            else [r[0]] + Insert(ByRank(priority), x, r[1..])
  {
    hide RankOf;
  }

  lemma NothingFirst(f: MergeField)
    ensures FirstWith([], f) == None
  {
  }

  lemma {:induction false} FirstOfInsert(x: Event, r: seq<Event>, f: MergeField, priority: Priority)
    requires x.detail.Release? && Releases(r) && RankAscends(r, priority)
    ensures Releases(Insert(ByRank(priority), x, r))
    ensures FirstWith(Insert(ByRank(priority), x, r), f) ==
              var first := FirstWith(r, f);
              if Filled(FieldOf(x, f)) && (first.None? || RankOf(x, priority) <= RankOf(first.value, priority))
              then Some(x) else first
  {
    hide RankOf, FieldOf, Filled, FirstWith, Insert, ByRank;
    InsertByRank(x, r, priority);
    FirstCons(x, r, f);
    if r == [] {
      NothingFirst(f);
    } else {
      assert r == [r[0]] + r[1..];
      FirstCons(r[0], r[1..], f);
      if FirstWith(r, f).Some? {
        FirstNotAboveHead(r, f, priority);
      }
      if RankOf(x, priority) > RankOf(r[0], priority) {
        FirstOfInsert(x, r[1..], f, priority);
        FirstCons(r[0], Insert(ByRank(priority), x, r[1..]), f);
      }
    }
  }

  /** The stable sort followed by the field walk picks the reference winner. */
  lemma {:induction false} RankedFirstIsBest(group: seq<Event>, f: MergeField, priority: Priority)
    requires Releases(group)
    ensures Releases(Ranked(group, priority))
    ensures FirstWith(Ranked(group, priority), f) == Best(group, f, priority)
  {
    hide RankOf, FieldOf, Filled, Insert;
    RankedReleases(group, priority);
    if group == [] {
    } else {
      RankedFirstIsBest(group[1..], f, priority);
      RankedAscends(group[1..], priority);
      FirstOfInsert(group[0], Ranked(group[1..], priority), f, priority);
    }
  }

  lemma FilledMeansValue()
    ensures !Filled(Nil)
  {
  }

  lemma CombineField(base: Event, value: MergeField -> FieldValue, sources: seq<string>, f: MergeField)
    requires base.detail.Release?
    requires f in {Forecast, Previous, Actual, Revision} ==> !value(f).Words?
    requires f in {Unit, Agency, Period, Country} ==> !value(f).Number?
    ensures value(f) != Nil ==> FieldOf(Combine(base, value, sources), f) == value(f)
    ensures value(f) == Nil && !Filled(FieldOf(base, f)) ==> !Filled(FieldOf(Combine(base, value, sources), f))
  {
  }

  /** Each merged field is the reference winner's, and is a gap only when every event has a gap. */
  lemma MergedField(group: seq<Event>, f: MergeField, priority: Priority)
    requires group != [] && Releases(group)
    ensures var best := Best(group, f, priority);
            if best.Some? then FieldOf(Merged(group, priority), f) == FieldOf(best.value, f)
            else !Filled(FieldOf(Merged(group, priority), f))
  {
    hide RankOf, Filled, Combine;
    if |group| == 1 {
      assert group[1..] == [];
    } else {
      RankedFirstIsBest(group, f, priority);
      RankedReleases(group, priority);
      var ranked := Ranked(group, priority);
      var value := f => if Releases(ranked) then FirstFilled(ranked, f) else Nil;
      FilledMeansValue();
      CombineField(ranked[0], value, SortedTexts(Sources(group)), f);
    }
  }
}
