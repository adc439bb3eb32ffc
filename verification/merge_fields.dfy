/** Where every field of a merged event comes from, by source priority and position. */
module MergeFields {
  import opened Text
  import opened Events
  import opened Ordering
  import opened GroupMerge

  lemma NamesDiffer(a: string, b: string)
    requires |a| != |b| || (|a| > 1 && |b| > 1 && (a[0] != b[0] || a[1] != b[1]))
    ensures a != b
  {
  }

  /** The official sources come first, the aggregators last, and any other source after them. */
  lemma DefaultRanks(source: string)
    ensures forall i :: 0 <= i < 6 ==>
              Rank(["fred_api", "fomc_schedule", "bls_api", "bea_api", "ism_pmi", "econ_calendar"][i],
                   DEFAULT_SOURCE_PRIORITY) == i
    ensures source !in ["fred_api", "fomc_schedule", "bls_api", "bea_api", "ism_pmi", "econ_calendar"]
            ==> Rank(source, DEFAULT_SOURCE_PRIORITY) == 6
  {
    hide Rank;
    var p := DEFAULT_SOURCE_PRIORITY;
    assert |p[0]| == 8 && |p[1]| == 13 && |p[2]| == 7 && |p[3]| == 7 && |p[4]| == 7 && |p[5]| == 13;
    NamesDiffer(p[1], p[5]);
    NamesDiffer(p[2], p[3]);
    NamesDiffer(p[2], p[4]);
    NamesDiffer(p[3], p[4]);
  }

  // ----- the fields that are merged ------------------------------------------------

  /** A text, unless it is empty. */
  function Given(s: string): Option<string> {
    if s == "" then None else Some(s)
  }

  function ForecastIn(e: Event): Option<real> { if e.detail.Release? then e.detail.forecast else None }

  function PreviousIn(e: Event): Option<real> { if e.detail.Release? then e.detail.previous else None }

  function ActualIn(e: Event): Option<real> { if e.detail.Release? then e.detail.actual else None }

  function RevisionIn(e: Event): Option<real> { if e.detail.Release? then e.detail.revision else None }

  function UnitIn(e: Event): Option<string> { if e.detail.Release? then Given(e.detail.unit) else None }

  function AgencyIn(e: Event): Option<string> { if e.detail.Release? then Given(e.detail.agency) else None }

  function PeriodIn(e: Event): Option<string> { if e.detail.Release? then Given(e.detail.period) else None }

  function CountryIn(e: Event): Option<string> {
    if e.detail.Release? && e.detail.country.Some? then Given(e.detail.country.value) else None
  }

  // ----- who gives a field ---------------------------------------------------------

  /** The source of the event at `i` has the best priority of those that have the value, and the event
      is the earliest of them. */
  ghost predicate Gives<T(!new)>(group: seq<Event>, priority: Priority, value: Event -> Option<T>, i: nat) {
    && i < |group| && value(group[i]).Some?
    && (forall j :: 0 <= j < |group| && value(group[j]).Some? ==>
          Rank(group[i].source, priority) <= Rank(group[j].source, priority))
    && (forall j :: 0 <= j < i && value(group[j]).Some? ==>
          Rank(group[i].source, priority) < Rank(group[j].source, priority))
  }

  /** The merged value is that of the event that gives it, and there is none only if no event has one. */
  ghost predicate TakenFrom<T(!new)>(group: seq<Event>, priority: Priority, value: Event -> Option<T>, r: Option<T>) {
    if r.None? then forall i :: 0 <= i < |group| ==> value(group[i]).None?
    else exists i: nat :: Gives(group, priority, value, i) && value(group[i]) == r
  }

  /** The event at `i` wins the field. */
  ghost predicate Wins(group: seq<Event>, f: MergeField, priority: Priority, i: nat)
    requires Releases(group)
  {
    && i < |group| && Filled(FieldOf(group[i], f)) && OutranksEarlier(group, i, f, priority)
    && forall j :: 0 <= j < |group| && Filled(FieldOf(group[j], f)) ==>
         RankOf(group[i], priority) <= RankOf(group[j], priority)
  }

  lemma BestWins(group: seq<Event>, f: MergeField, priority: Priority)
    requires Releases(group) && Best(group, f, priority).Some?
    ensures exists i: nat :: i < |group| && group[i] == Best(group, f, priority).value && Wins(group, f, priority, i)
  {
    hide RankOf, FieldOf, Filled, Best, OutranksEarlier;
    BestIsBest(group, f, priority);
    BestIsEarliest(group, f, priority);
    var i: nat :| i < |group| && group[i] == Best(group, f, priority).value && OutranksEarlier(group, i, f, priority);
    assert Filled(FieldOf(group[i], f));
  }

  /** `value` is the field, with its gaps. */
  ghost predicate Reads<T(!new)>(f: MergeField, value: Event -> Option<T>) {
    && (forall e: Event :: e.detail.Release? ==> (value(e).Some? <==> Filled(FieldOf(e, f))))
    && (forall x: Event, y: Event :: x.detail.Release? && y.detail.Release? && FieldOf(x, f) == FieldOf(y, f)
                                     ==> value(x) == value(y))
  }

  lemma NumbersRead()
    ensures Reads(Forecast, ForecastIn) && Reads(Previous, PreviousIn)
    ensures Reads(Actual, ActualIn) && Reads(Revision, RevisionIn)
  {
  }

  lemma UnitReads()
    ensures Reads(Unit, UnitIn)
  {
  }

  lemma AgencyReads()
    ensures Reads(Agency, AgencyIn)
  {
  }

  lemma PeriodReads()
    ensures Reads(Period, PeriodIn)
  {
  }

  lemma CountryReads()
    ensures Reads(Country, CountryIn)
  {
  }

  lemma WinnerGives<T(!new)>(group: seq<Event>, priority: Priority, f: MergeField, value: Event -> Option<T>, i: nat)
    requires Releases(group) && Wins(group, f, priority, i)
    requires forall j :: 0 <= j < |group| ==> (value(group[j]).Some? <==> Filled(FieldOf(group[j], f)))
    ensures Gives(group, priority, value, i)
  {
    hide FieldOf, Filled, Rank;
  }

  lemma ReadsAll<T(!new)>(group: seq<Event>, f: MergeField, value: Event -> Option<T>)
    requires Releases(group) && Reads(f, value)
    ensures forall j :: 0 <= j < |group| ==> (value(group[j]).Some? <==> Filled(FieldOf(group[j], f)))
  {
    hide FieldOf, Filled;
  }

  lemma ReadsTwo<T(!new)>(f: MergeField, value: Event -> Option<T>, x: Event, y: Event)
    requires x.detail.Release? && y.detail.Release? && Reads(f, value)
    ensures FieldOf(x, f) == FieldOf(y, f) ==> value(x) == value(y)
    ensures value(x).Some? <==> Filled(FieldOf(x, f))
  {
    hide FieldOf, Filled;
  }

  lemma Taken<T(!new)>(group: seq<Event>, priority: Priority, f: MergeField, value: Event -> Option<T>)
    requires group != [] && Releases(group) && Reads(f, value)
    ensures TakenFrom(group, priority, value, value(Merged(group, priority)))
  {
    hide FieldOf, Filled, Merged, Best, Wins, Reads, Gives;
    var m, best := Merged(group, priority), Best(group, f, priority);
    MergedField(group, f, priority);
    ReadsAll(group, f, value);
    if best.Some? {
      BestWins(group, f, priority);
      var i: nat :| i < |group| && group[i] == best.value && Wins(group, f, priority, i);
      ReadsTwo(f, value, m, group[i]);
      WinnerGives(group, priority, f, value, i);
    } else {
      ReadsTwo(f, value, m, group[0]);
      BestIsBest(group, f, priority);
    }
  }

  /** Each of the eight fields comes from the best-ranked source that has it, the earliest event among
      equals; zero is a value, no number and an empty text are gaps. */
  lemma MergedFieldsExactly(group: seq<Event>, priority: Priority)
    requires group != [] && Releases(group)
    ensures var m := Merged(group, priority);
            && TakenFrom(group, priority, ForecastIn, m.detail.forecast)
            && TakenFrom(group, priority, PreviousIn, m.detail.previous)
            && TakenFrom(group, priority, ActualIn, m.detail.actual)
            && TakenFrom(group, priority, RevisionIn, m.detail.revision)
            && TakenFrom(group, priority, UnitIn, Given(m.detail.unit))
            && TakenFrom(group, priority, AgencyIn, Given(m.detail.agency))
            && TakenFrom(group, priority, PeriodIn, Given(m.detail.period))
            && TakenFrom(group, priority, CountryIn, CountryIn(m))
  {
    hide Merged, TakenFrom, Reads;
    NumbersRead();
    UnitReads();
    AgencyReads();
    PeriodReads();
    CountryReads();
    Taken(group, priority, Forecast, ForecastIn);
    Taken(group, priority, Previous, PreviousIn);
    Taken(group, priority, Actual, ActualIn);
    Taken(group, priority, Revision, RevisionIn);
    Taken(group, priority, Unit, UnitIn);
    Taken(group, priority, Agency, AgencyIn);
    Taken(group, priority, Period, PeriodIn);
    Taken(group, priority, Country, CountryIn);
  }

  // ----- what the merge takes from one event as a whole ----------------------------

  /** The source of the event at `i` has the best priority, and the event is the earliest of them. */
  ghost predicate Leads(group: seq<Event>, priority: Priority, i: nat) {
    && i < |group|
    && (forall j :: 0 <= j < |group| ==> Rank(group[i].source, priority) <= Rank(group[j].source, priority))
    && (forall j :: 0 <= j < i ==> Rank(group[i].source, priority) < Rank(group[j].source, priority))
  }

  ghost predicate Reporting(group: seq<Event>, source: string) {
    exists k :: 0 <= k < |group| && group[k].source == source
  }

  /** The texts of a JSON array, each once and in order, are the sources of the group. */
  ghost predicate ListsSources(j: Json, group: seq<Event>) {
    && j.JArray?
    && (forall i :: 0 <= i < |j.items| ==> j.items[i].JText?)
    && (forall i, k :: 0 <= i < k < |j.items| ==> Less(j.items[i].s, j.items[k].s))
    && (forall i :: 0 <= i < |j.items| ==> Reporting(group, j.items[i].s))
    && (forall k :: 0 <= k < |group| ==> JText(group[k].source) in j.items)
  }

  lemma RankedLeads(group: seq<Event>, priority: Priority)
    requires group != []
    ensures Ranked(group, priority) != []
    ensures exists i: nat :: i < |group| && Leads(group, priority, i) && Ranked(group, priority)[0] == group[i]
  {
    hide StableSort;
    StableSortHead(ByRank(priority), group);
    var i: nat :| EarliestLeast(ByRank(priority), group, i) && StableSort(ByRank(priority), group)[0] == group[i];
    assert Leads(group, priority, i);
  }

  lemma TextArrayItems(texts: seq<string>)
    ensures TextArray(texts).JArray? && |TextArray(texts).items| == |texts|
    ensures forall i :: 0 <= i < |texts| ==> TextArray(texts).items[i] == JText(texts[i])
  {
  }

  lemma SourceReported(group: seq<Event>, source: string)
    ensures source in Sources(group) <==> Reporting(group, source)
  {
  }

  lemma SourcesListed(group: seq<Event>)
    ensures ListsSources(TextArray(SortedTexts(Sources(group))), group)
  {
    hide Less, TextArray, StrictTotalOn, InOrder, Reporting;
    TextTotal(Sources(group));
    var texts := SortedTexts(Sources(group));
    TextArrayItems(texts);
    var items := TextArray(texts).items;
    forall i | 0 <= i < |items| ensures Reporting(group, items[i].s) {
      assert texts[i] in Elements(texts);
      SourceReported(group, texts[i]);
    }
    forall k | 0 <= k < |group| ensures JText(group[k].source) in items {
      assert group[k].source in Elements(texts);
      var i :| 0 <= i < |texts| && texts[i] == group[k].source;
      assert items[i] == JText(group[k].source);
    }
    forall i, k | 0 <= i < k < |items| ensures Less(items[i].s, items[k].s) {
      assert Less(texts[i], texts[k]);
    }
  }

  lemma FirstFilledCountry(ranked: seq<Event>)
    requires Releases(ranked)
    ensures FirstFilled(ranked, Country).Words? ==> FirstFilled(ranked, Country).s != ""
  {
  }

  /** A single event stays as it is. Of several, the leading one gives everything outside the eight
      fields, and the metadata gains the list of sources. */
  lemma MergedBaseExactly(group: seq<Event>, priority: Priority)
    requires group != [] && Releases(group)
    ensures |group| == 1 ==> Merged(group, priority) == group[0]
    ensures var m := Merged(group, priority);
            |group| > 1 ==>
              exists i: nat ::
                && i < |group| && Leads(group, priority, i)
                && m.id == group[i].id && m.source == group[i].source && m.exchange == group[i].exchange
                && m.date == group[i].date && m.timestampUtc == group[i].timestampUtc && m.rawId == group[i].rawId
                && m.ingestedAt == group[i].ingestedAt && m.updatedAt == group[i].updatedAt
                && m.detail.releaseName == group[i].detail.releaseName && m.detail.code == group[i].detail.code
                && (CountryIn(m).None? ==> m.detail.country == group[i].detail.country)
                && "reconciled_from" in m.metadata && ListsSources(m.metadata["reconciled_from"], group)
                && m.metadata - {"reconciled_from"} == group[i].metadata - {"reconciled_from"}
  {
    hide Ranked, Leads, FirstFilled, SortedTexts, Sources, TextArray, ListsSources;
    if |group| > 1 {
      RankedReleases(group, priority);
      RankedLeads(group, priority);
      SourcesListed(group);
      var ranked := Ranked(group, priority);
      var i: nat :| i < |group| && Leads(group, priority, i) && ranked[0] == group[i];
      var value := f => if Releases(ranked) then FirstFilled(ranked, f) else Nil;
      FirstFilledCountry(ranked);
      var m := Merged(group, priority);
      assert m == Combine(ranked[0], value, SortedTexts(Sources(group)));
      assert Leads(group, priority, i) && m.id == group[i].id;
    }
  }
}
