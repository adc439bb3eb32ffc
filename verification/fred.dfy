/** The FRED adapter: observations with carried previous values, and the forward schedule that
    fills in the dates without one. */
module Fred {
  import opened Text
  import opened Calendar
  import opened ValueChain

  datatype Observation = Observation(day: Date, value: Option<string>)

  datatype Meta = Meta(seriesId: string, releaseName: string, unit: string, agency: string)

  /** A missing observation is published as nothing, as "" or as ".". */
  function Actual(value: Option<string>): Option<string> {
    if value == None || value == Some(".") || value == Some("") then None else value
  }

  function Readings(observations: seq<Observation>): (rs: seq<Reading<Observation>>)
    ensures |rs| == |observations|
    ensures forall i :: 0 <= i < |rs| ==>
              rs[i] == Reading(observations[i].day, Actual(observations[i].value), observations[i])
  {
    if observations == [] then []
    else
      var obs := observations[|observations| - 1];
      Readings(observations[..|observations| - 1]) + [Reading(obs.day, Actual(obs.value), obs)]
  }

  function ToRecord(code: string, meta: Meta): Linked<Observation> -> ReleaseRecord {
    (l: Linked<Observation>) =>
      ReleaseRecord(code, meta.releaseName, l.reading.day, "", l.reading.value, l.previous,
                    meta.unit, meta.agency, meta.seriesId + ":" + IsoDate(l.reading.day))
  }

  function Observed(observations: seq<Observation>, code: string, meta: Meta): seq<ReleaseRecord> {
    Render(ToRecord(code, meta), Link(Readings(observations), ALL_DAYS))
  }

  lemma ReadingsSnoc(front: seq<Observation>, obs: Observation)
    ensures Readings(front + [obs]) == Readings(front) + [Reading(obs.day, Actual(obs.value), obs)]
  {
  }

  lemma NothingRead(f: Linked<Observation> -> ReleaseRecord)
    ensures Carried(Readings([])) == None && Render(f, Link(Readings([]), ALL_DAYS)) == []
  {
  }

  /** `FREDAdapter._parse` */
  method Parse(observations: seq<Observation>, code: string, meta: Meta) returns (out: seq<ReleaseRecord>)
    ensures out == Observed(observations, code, meta)
  {
    hide Readings, Carried, Link, Render, IsoDate;
    out := [];
    var previous: Option<string> := None;
    ghost var f := ToRecord(code, meta);
    NothingRead(f);
    for k := 0 to |observations|
      invariant previous == Carried(Readings(observations[..k]))
      invariant out == Render(f, Link(Readings(observations[..k]), ALL_DAYS))
    {
      var obs := observations[k];
      ghost var rs := Readings(observations[..k]);
      assert observations[..k + 1] == observations[..k] + [obs];
      ReadingsSnoc(observations[..k], obs);
      var actual := Actual(obs.value);
      LinkSnoc(rs, Reading(obs.day, actual, obs), ALL_DAYS);
      RenderSnoc(f, Link(rs, ALL_DAYS), Linked(Reading(obs.day, actual, obs), previous));
      out := out + [ReleaseRecord(code, meta.releaseName, obs.day, "", actual, previous,
                                  meta.unit, meta.agency, meta.seriesId + ":" + IsoDate(obs.day))];
      if actual.Some? {
        previous := actual;
      }
    }
    assert observations[..|observations|] == observations;
  }

  lemma {:induction false} AllLinked<T(!new)>(rs: seq<Reading<T>>)
    ensures |Link(rs, ALL_DAYS)| == |rs|
    ensures forall i :: 0 <= i < |rs| ==>
              Link(rs, ALL_DAYS)[i].reading == rs[i] && LatestEarlier(rs, i, Link(rs, ALL_DAYS)[i].previous)
  {
    hide LatestEarlier;
    if rs == [] {
    } else {
      var front := rs[..|rs| - 1];
      AllLinked(front);
      CarriedIsLatest(front);
      LatestOfPrefix(front, rs, |front|, Carried(front));
      forall i | 0 <= i < |front| ensures LatestEarlier(rs, i, Link(rs, ALL_DAYS)[i].previous) {
        LatestOfPrefix(front, rs, i, Link(front, ALL_DAYS)[i].previous);
      }
    }
  }

  /** A published value: neither missing, nor empty, nor a dot. */
  predicate Published(value: Option<string>) {
    value.Some? && value.value != "" && value.value != "."
  }

  /** `p` is the last value published before observation `n`. */
  ghost predicate LatestPublished(observations: seq<Observation>, n: nat, p: Option<string>)
    requires n <= |observations|
  {
    if p.None? then forall k :: 0 <= k < n ==> !Published(observations[k].value)
    else
      exists k :: 0 <= k < n && observations[k].value == p && Published(p)
                  && forall m :: k < m < n ==> !Published(observations[m].value)
  }

  lemma {:induction false} LatestIsPublished(observations: seq<Observation>, n: nat, p: Option<string>)
    requires n <= |observations| && LatestEarlier(Readings(observations), n, p)
    ensures LatestPublished(observations, n, p)
  {
    hide Readings;
    var rs := Readings(observations);
    forall k | 0 <= k < n ensures Gap(rs[k].value) <==> !Published(observations[k].value) {
    }
    if p.Some? {
      var k :| 0 <= k < n && rs[k].value == p && !Gap(p) && forall m :: k < m < n ==> Gap(rs[m].value);
      assert observations[k].value == p && Published(p);
    }
  }

  /** One record an observation, in order, field by field: its value is the observation's if that was
      published, and its previous value the latest that was published before. */
  lemma EveryObservation(observations: seq<Observation>, code: string, meta: Meta)
    ensures var out := Observed(observations, code, meta);
            && |out| == |observations|
            && forall i :: 0 <= i < |out| ==>
                 && out[i].code == code && out[i].name == meta.releaseName && out[i].period == ""
                 && out[i].unit == meta.unit && out[i].agency == meta.agency
                 && out[i].day == observations[i].day
                 && out[i].id == meta.seriesId + ":" + IsoDate(observations[i].day)
                 && out[i].actual == (if Published(observations[i].value) then observations[i].value else None)
                 && LatestPublished(observations, i, out[i].previous)
  {
    hide LatestEarlier, LatestPublished, Readings, IsoDate;
    var rs := Readings(observations);
    AllLinked(rs);
    forall i | 0 <= i < |observations| ensures LatestPublished(observations, i, Link(rs, ALL_DAYS)[i].previous) {
      LatestIsPublished(observations, i, Link(rs, ALL_DAYS)[i].previous);
    }
  }

  // ----- the forward schedule ------------------------------------------------------

  function Scheduled(code: string, meta: Meta, day: Date): ReleaseRecord {
    ReleaseRecord(code, meta.releaseName, day, "", None, None, meta.unit, meta.agency,
                  meta.seriesId + ":schedule:" + IsoDate(day))
  }

  predicate Covers(records: seq<ReleaseRecord>, day: Date) {
    exists i :: 0 <= i < |records| && records[i].day == day
  }

  function Filled(observed: seq<ReleaseRecord>, schedule: seq<Date>, code: string, meta: Meta): seq<ReleaseRecord> {
    if schedule == [] then observed
    else
      var front := Filled(observed, schedule[..|schedule| - 1], code, meta);
      var day := schedule[|schedule| - 1];
      if Covers(observed, day) then front else front + [Scheduled(code, meta, day)]
  }

  lemma CoversSnoc(front: seq<ReleaseRecord>, r: ReleaseRecord)
    ensures forall day :: Covers(front + [r], day) <==> Covers(front, day) || day == r.day
  {
    forall day ensures Covers(front + [r], day) <==> Covers(front, day) || day == r.day {
      assert (front + [r])[|front|] == r;
      assert forall i :: 0 <= i < |front| ==> (front + [r])[i] == front[i];
    }
  }

  lemma NothingCovered()
    ensures forall day :: !Covers([], day)
  {
  }

  /** The records of one series: the observations, then the scheduled dates they do not cover. */
  method FetchSeries(observations: seq<Observation>, schedule: seq<Date>, code: string, meta: Meta)
    returns (records: seq<ReleaseRecord>)
    ensures records == Filled(Observed(observations, code, meta), schedule, code, meta)
  {
    hide Observed, IsoDate, Covers;
    var observed := Parse(observations, code, meta);
    records := observed;
    var dates: set<Date> := {};
    NothingCovered();
    for i := 0 to |observed|
      invariant forall day :: day in dates <==> Covers(observed[..i], day)
    {
      CoversSnoc(observed[..i], observed[i]);
      assert observed[..i + 1] == observed[..i] + [observed[i]];
      dates := dates + {observed[i].day};
    }
    assert observed[..|observed|] == observed;
    for k := 0 to |schedule|
      invariant records == Filled(observed, schedule[..k], code, meta)
    {
      assert schedule[..k + 1][..k] == schedule[..k];
      if schedule[k] !in dates {
        records := records + [Scheduled(code, meta, schedule[k])];
      }
    }
    assert schedule[..|schedule|] == schedule;
  }

  /** The observations come first and untouched; what follows is scheduled only, never on an
      observed date; and together they cover exactly the observed and the scheduled dates. */
  lemma {:induction false} ScheduleFillsGaps(observed: seq<ReleaseRecord>, schedule: seq<Date>,
                                             code: string, meta: Meta)
    ensures var out := Filled(observed, schedule, code, meta);
            && observed <= out
            && (forall i :: |observed| <= i < |out| ==>
                  && out[i].code == code && out[i].name == meta.releaseName && out[i].period == ""
                  && out[i].unit == meta.unit && out[i].agency == meta.agency
                  && out[i].actual == None && out[i].previous == None
                  && out[i].id == meta.seriesId + ":schedule:" + IsoDate(out[i].day)
                  && out[i].day in schedule && !Covers(observed, out[i].day))
            && (forall day :: Covers(out, day) <==> Covers(observed, day) || day in schedule)
  {
    hide IsoDate, Covers;
    if schedule == [] {
    } else {
      var front, day := schedule[..|schedule| - 1], schedule[|schedule| - 1];
      assert schedule == front + [day];
      ScheduleFillsGaps(observed, front, code, meta);
      CoversSnoc(Filled(observed, front, code, meta), Scheduled(code, meta, day));
    }
  }

  /** Schedules that follow each other add their dates one after the other; a date is added unless it
      was observed. */
  lemma {:induction false} ScheduleConcat(observed: seq<ReleaseRecord>, a: seq<Date>, b: seq<Date>,
                                          code: string, meta: Meta)
    ensures observed <= Filled(observed, b, code, meta)
    ensures Filled(observed, a + b, code, meta)
         == Filled(observed, a, code, meta) + Filled(observed, b, code, meta)[|observed|..]
  {
    hide IsoDate, Covers, Scheduled;
    ScheduleFillsGaps(observed, b, code, meta);
    if b == [] {
      assert a + b == a;
    } else {
      var front, day := b[..|b| - 1], b[|b| - 1];
      ScheduleConcat(observed, a, front, code, meta);
      assert (a + b)[..|a + b| - 1] == a + front && (a + b)[|a + b| - 1] == day;
    }
  }

  lemma ScheduleOne(observed: seq<ReleaseRecord>, day: Date, code: string, meta: Meta)
    ensures |Filled(observed, [day], code, meta)| == |observed| + (if Covers(observed, day) then 0 else 1)
  {
    hide Covers, Scheduled;
    var none: seq<Date> := [];
    assert [day][..0] == none && Filled(observed, none, code, meta) == observed;
  }
}
