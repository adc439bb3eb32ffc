/** The BLS adapter: monthly observations, newest first in the answer. */
module Bls {
  import opened Text
  import opened Calendar
  import opened ValueChain

  datatype Row = Row(period: string, year: Option<string>, value: Option<string>, periodName: string)

  datatype SeriesResult = SeriesResult(seriesId: Option<string>, data: seq<Row>)

  datatype Meta = Meta(seriesId: string, releaseName: string, unit: string, agency: string)

  /** Release codes with their metadata, in configuration order. */
  type Series = seq<(string, Meta)>

  // ----- one row -------------------------------------------------------------------

  /** `_PERIOD_MONTH.get(period)` */
  function Month(period: string): Option<nat> {
    if |period| == 3 && period[0] == 'M' then
      var m :- ParseNat(period[1..]);
      if 1 <= m <= 12 then Some(m) else None
    else None
  }

  /** The table is built from the formatted months, and holds nothing else. */
  lemma MonthExactly(period: string, m: nat)
    ensures Month(period) == Some(m) <==> 1 <= m <= 12 && period == "M" + Pad(m, 2)
  {
    Powers();
    if 1 <= m <= 12 && period == "M" + Pad(m, 2) {
      assert period[1..] == Pad(m, 2);
      ParsePad(m, 2);
    }
    if Month(period) == Some(m) {
      PadParse(period[1..]);
      assert period == [period[0]] + period[1..];
    }
  }

  /** A row is skipped when its period is not a month, and raises when its year is not one. */
  datatype RowReading = Skipped | Raised | Read(reading: Reading<Row>)

  function ReadRow(row: Row): RowReading {
    match Month(row.period)
    case None => Skipped
    case Some(m) =>
      var year := if row.year.Some? then ParseNat(row.year.value) else None;
      if year.None? || !(1 <= year.value <= 9999) then Raised
      else Read(Reading(DayOf(Ymd(year.value, m, 1)), row.value, row))
  }

  /** The monthly rows, in the given order; `None` when one of them raises. */
  function Readings(rows: seq<Row>): Option<seq<Reading<Row>>> {
    if rows == [] then Some([])
    else
      var front :- Readings(rows[..|rows| - 1]);
      match ReadRow(rows[|rows| - 1])
      case Skipped => Some(front)
      case Raised => None
      case Read(r) => Some(front + [r])
  }

  lemma ReadingsSnoc(front: seq<Row>, row: Row)
    ensures Readings(front + [row]) ==
            if Readings(front).None? || ReadRow(row).Raised? then None
            else if ReadRow(row).Skipped? then Readings(front)
            else Some(Readings(front).value + [ReadRow(row).reading])
  {
    hide ReadRow;
    assert (front + [row])[..|front|] == front;
  }

  lemma {:induction false} RaiseEndsWalk(rows: seq<Row>, k: nat)
    requires k <= |rows| && Readings(rows[..k]).None?
    ensures Readings(rows).None?
    decreases |rows|
  {
    hide ReadRow;
    if k == |rows| {
      assert rows[..k] == rows;
    } else {
      assert rows[..|rows| - 1][..k] == rows[..k];
      RaiseEndsWalk(rows[..|rows| - 1], k);
    }
  }

  function Reversed(rows: seq<Row>): (r: seq<Row>)
    ensures |r| == |rows| && forall i :: 0 <= i < |r| ==> r[i] == rows[|rows| - 1 - i]
  {
    if rows == [] then [] else [rows[|rows| - 1]] + Reversed(rows[..|rows| - 1])
  }

  // ----- the answer ----------------------------------------------------------------

  /** `by_series_id.get(id)`: a later code overwrites an earlier one for the same series. */
  function Lookup(series: Series, id: Option<string>): Option<(string, Meta)> {
    if series == [] then None
    else if Some(series[|series| - 1].1.seriesId) == id then Some(series[|series| - 1])
    else Lookup(series[..|series| - 1], id)
  }

  /** The entry at `i` is the last one configured for the series. */
  ghost predicate LastFor(series: Series, i: nat, id: Option<string>)
    requires i < |series|
  {
    Some(series[i].1.seriesId) == id && forall j :: i < j < |series| ==> Some(series[j].1.seriesId) != id
  }

  lemma LastForLonger(front: Series, series: Series, i: nat, id: Option<string>)
    requires series != [] && front == series[..|series| - 1] && i < |front| && LastFor(front, i, id)
    requires Some(series[|series| - 1].1.seriesId) != id
    ensures LastFor(series, i, id)
  {
    forall j | i < j < |series| ensures Some(series[j].1.seriesId) != id {
      assert j < |front| ==> series[j] == front[j];
    }
  }

  /** The lookup finds the last code configured for a series, and fails only when there is none. */
  lemma {:induction false} LookupIsLast(series: Series, id: Option<string>)
    ensures Lookup(series, id).None? ==> forall i :: 0 <= i < |series| ==> Some(series[i].1.seriesId) != id
    ensures Lookup(series, id).Some? ==>
              exists i: nat :: i < |series| && series[i] == Lookup(series, id).value && LastFor(series, i, id)
  {
    if series == [] {
    } else {
      var n := |series| - 1;
      var front := series[..n];
      if Some(series[n].1.seriesId) == id {
        assert LastFor(series, n, id);
      } else {
        LookupIsLast(front, id);
        if Lookup(front, id).Some? {
          var i: nat :| i < |front| && front[i] == Lookup(front, id).value && LastFor(front, i, id);
          LastForLonger(front, series, i, id);
          assert series[i] == front[i];
        } else {
          forall i | 0 <= i < |series| ensures Some(series[i].1.seriesId) != id {
            assert i < n ==> series[i] == front[i];
          }
        }
      }
    }
  }

  function ToRecord(code: string, meta: Meta, id: string): Linked<Row> -> ReleaseRecord {
    (l: Linked<Row>) =>
      ReleaseRecord(code, meta.releaseName, l.reading.day, l.reading.row.periodName, l.reading.value, l.previous,
                    meta.unit, meta.agency, id + ":" + l.reading.row.year.GetOr("") + l.reading.row.period)
  }

  /** What one series of the answer contributes. */
  function FromSeries(result: SeriesResult, series: Series, w: DateRange): Option<seq<ReleaseRecord>> {
    match Lookup(series, result.seriesId)
    case None => Some([])
    case Some((code, meta)) =>
      var rs :- Readings(Reversed(result.data));
      Some(Render(ToRecord(code, meta, result.seriesId.GetOr("")), Link(rs, w)))
  }

  function Records(results: seq<SeriesResult>, series: Series, w: DateRange): Option<seq<ReleaseRecord>> {
    if results == [] then Some([])
    else
      var front :- Records(results[..|results| - 1], series, w);
      var last :- FromSeries(results[|results| - 1], series, w);
      Some(front + last)
  }

  lemma RecordsSnoc(front: seq<SeriesResult>, result: SeriesResult, series: Series, w: DateRange)
    ensures Records(front + [result], series, w) ==
            if Records(front, series, w).None? || FromSeries(result, series, w).None? then None
            else Some(Records(front, series, w).value + FromSeries(result, series, w).value)
  {
    hide FromSeries;
    assert (front + [result])[..|front|] == front;
  }

  lemma {:induction false} RaiseEndsParse(results: seq<SeriesResult>, k: nat, series: Series, w: DateRange)
    requires k <= |results| && Records(results[..k], series, w).None?
    ensures Records(results, series, w).None?
    decreases |results|
  {
    hide FromSeries;
    if k == |results| {
      assert results[..k] == results;
    } else {
      assert results[..|results| - 1][..k] == results[..k];
      RaiseEndsParse(results[..|results| - 1], k, series, w);
    }
  }

  lemma NothingRead(f: Linked<Row> -> ReleaseRecord, w: DateRange)
    ensures Readings([]) == Some([]) && Carried<Row>([]) == None && Render(f, Link([], w)) == []
  {
  }

  lemma ReadRowValue(row: Row)
    requires ReadRow(row).Read?
    ensures ReadRow(row).reading.value == row.value && ReadRow(row).reading.row == row
  {
  }

  /** One series: the inner loop of `_parse`. */
  method WalkSeries(observations: seq<Row>, code: string, meta: Meta, id: string, w: DateRange)
    returns (out: Option<seq<ReleaseRecord>>)
    ensures Readings(observations).None? ==> out == None
    ensures Readings(observations).Some? ==>
              out == Some(Render(ToRecord(code, meta, id), Link(Readings(observations).value, w)))
  {
    hide ReadRow, Readings, Carried, Link, Render, DayOf, Month;
    var records: seq<ReleaseRecord> := [];
    var previous: Option<string> := None;
    ghost var f := ToRecord(code, meta, id);
    NothingRead(f, w);
    for k := 0 to |observations|
      invariant Readings(observations[..k]).Some?
      invariant previous == Carried(Readings(observations[..k]).value)
      invariant records == Render(f, Link(Readings(observations[..k]).value, w))
    {
      var obs := observations[k];
      ghost var rs := Readings(observations[..k]).value;
      assert observations[..k + 1] == observations[..k] + [obs];
      ReadingsSnoc(observations[..k], obs);
      match ReadRow(obs)
      case Skipped =>
      case Raised =>
        RaiseEndsWalk(observations, k + 1);
        return None;
      case Read(r) =>
        ReadRowValue(obs);
        LinkSnoc(rs, r, w);
        if !w.Contains(r.day) {
          previous := Carry(obs.value, previous);
          continue;
        }
        RenderSnoc(f, Link(rs, w), Linked(r, previous));
        records := records + [ReleaseRecord(code, meta.releaseName, r.day, obs.periodName, obs.value, previous,
                                            meta.unit, meta.agency, id + ":" + obs.year.GetOr("") + obs.period)];
        previous := Carry(obs.value, previous);
    }
    assert observations[..|observations|] == observations;
    out := Some(records);
  }

  /** `BLSAdapter._parse`; `None` stands for a raised exception. */
  method Parse(results: seq<SeriesResult>, series: Series, w: DateRange) returns (out: Option<seq<ReleaseRecord>>)
    ensures out == Records(results, series, w)
  {
    hide Readings, Link, Render, Lookup;
    var records: seq<ReleaseRecord> := [];
    for k := 0 to |results|
      invariant Records(results[..k], series, w) == Some(records)
    {
      var result := results[k];
      assert results[..k + 1] == results[..k] + [result];
      RecordsSnoc(results[..k], result, series, w);
      var found := Lookup(series, result.seriesId);
      if found.None? {
        assert records + [] == records;
        continue;
      }
      var (code, meta) := found.value;
      var walked := WalkSeries(Reversed(result.data), code, meta, result.seriesId.GetOr(""), w);
      if walked.None? {
        RaiseEndsParse(results, k + 1, series, w);
        return None;
      }
      records := records + walked.value;
    }
    assert results[..|results|] == results;
    out := Some(records);
  }

  // ----- laws ----------------------------------------------------------------------

  function KeepWindow(records: Option<seq<ReleaseRecord>>, w: DateRange): Option<seq<ReleaseRecord>> {
    match records
    case None => None
    case Some(rs) => Some(Within(rs, w))
  }

  lemma NothingWithin(w: DateRange)
    ensures Within([], w) == []
  {
  }

  lemma SeriesWindow(result: SeriesResult, series: Series, w: DateRange)
    ensures FromSeries(result, series, w) == KeepWindow(FromSeries(result, series, ALL_DAYS), w)
  {
    hide Link, Render, Within;
    var found := Lookup(series, result.seriesId);
    if found.None? {
      assert Within([], w) == [] by { NothingWithin(w); }
    } else {
      var f := ToRecord(found.value.0, found.value.1, result.seriesId.GetOr(""));
      if Readings(Reversed(result.data)).Some? {
        LinkIsFilter(f, Readings(Reversed(result.data)).value, w);
      }
    }
  }

  /** Parsing with a window is parsing everything and then keeping the window. */
  lemma {:induction false} WindowIsFilter(results: seq<SeriesResult>, series: Series, w: DateRange)
    ensures Records(results, series, w) == KeepWindow(Records(results, series, ALL_DAYS), w)
  {
    hide FromSeries;
    if results == [] {
    } else {
      var front, last := results[..|results| - 1], results[|results| - 1];
      WindowIsFilter(front, series, w);
      SeriesWindow(last, series, w);
      if Records(front, series, ALL_DAYS).Some? && FromSeries(last, series, ALL_DAYS).Some? {
        WithinConcat(Records(front, series, ALL_DAYS).value, FromSeries(last, series, ALL_DAYS).value, w);
      }
    }
  }

  /** `row` comes later in the answer than `other`, for an earlier month. */
  ghost predicate NewestFirst(rows: seq<Row>) {
    forall i, j :: 0 <= i < j < |rows| && ReadRow(rows[i]).Read? && ReadRow(rows[j]).Read?
                   ==> ReadRow(rows[j]).reading.day < ReadRow(rows[i]).reading.day
  }

  ghost predicate OldestFirst(rows: seq<Row>) {
    forall i, j :: 0 <= i < j < |rows| && ReadRow(rows[i]).Read? && ReadRow(rows[j]).Read?
                   ==> ReadRow(rows[i]).reading.day < ReadRow(rows[j]).reading.day
  }

  lemma {:induction false} ReadingsComeFromRows(rows: seq<Row>, k: nat)
    requires Readings(rows).Some? && k < |Readings(rows).value|
    ensures exists i :: 0 <= i < |rows| && ReadRow(rows[i]) == Read(Readings(rows).value[k])
  {
    hide ReadRow;
    var front, row := rows[..|rows| - 1], rows[|rows| - 1];
    if k < |Readings(front).value| {
      ReadingsComeFromRows(front, k);
      var i :| 0 <= i < |front| && ReadRow(front[i]) == Read(Readings(front).value[k]);
      assert rows[i] == front[i];
    } else {
      assert ReadRow(rows[|front|]) == Read(Readings(rows).value[k]);
    }
  }

  lemma {:induction false} ReadingsAscend(rows: seq<Row>)
    requires OldestFirst(rows) && Readings(rows).Some?
    ensures Chronological(Readings(rows).value)
  {
    hide ReadRow;
    if rows == [] {
    } else {
      var front, row := rows[..|rows| - 1], rows[|rows| - 1];
      assert forall i :: 0 <= i < |front| ==> front[i] == rows[i];
      ReadingsAscend(front);
      forall k | 0 <= k < |Readings(front).value| && ReadRow(row).Read?
        ensures Readings(front).value[k].day < ReadRow(row).reading.day
      {
        ReadingsComeFromRows(front, k);
        var i :| 0 <= i < |front| && ReadRow(front[i]) == Read(Readings(front).value[k]);
        assert rows[i] == front[i];
      }
    }
  }

  /** An answer that is newest first is walked in date order. */
  lemma {:induction false} ReversedIsChronological(rows: seq<Row>)
    requires NewestFirst(rows) && Readings(Reversed(rows)).Some?
    ensures Chronological(Readings(Reversed(rows)).value)
  {
    ReadingsAscend(Reversed(rows));
  }

  /** In a newest-first answer every record's previous value is that of the latest earlier month
      that has one, even when that month lies outside the window. */
  lemma PreviousMonth(result: SeriesResult, series: Series, w: DateRange, j: nat)
    requires NewestFirst(result.data) && Lookup(series, result.seriesId).Some?
    requires FromSeries(result, series, w).Some? && j < |FromSeries(result, series, w).value|
    ensures Readings(Reversed(result.data)).Some?
    ensures var record := FromSeries(result, series, w).value[j];
            w.Contains(record.day) && LatestBefore(Readings(Reversed(result.data)).value, record.day, record.previous)
  {
    hide ReadRow, Readings, Link, LatestBefore, NewestFirst;
    ReversedIsChronological(result.data);
    var rs := Readings(Reversed(result.data)).value;
    PreviousIsLatestBefore(rs, w, j);
    PreviousIsLatestEarlier(rs, w, j);
  }

  // ----- field by field ------------------------------------------------------------

  /** The row is for month `m` of year `y`. */
  predicate Monthly(row: Row, y: nat, m: nat) {
    && 1 <= m <= 12 && row.period == "M" + Pad(m, 2)
    && 1 <= y <= 9999 && row.year.Some? && ParseNat(row.year.value) == Some(y)
  }

  lemma ReadRowMonthly(row: Row, y: nat, m: nat)
    requires Monthly(row, y, m)
    ensures ReadRow(row) == Read(Reading(DayOf(Ymd(y, m, 1)), row.value, row))
  {
    hide DayOf, ParseNat, Pad;
    MonthExactly(row.period, m);
  }

  lemma ReadRowExactly(row: Row)
    ensures ReadRow(row).Read? ==> exists y, m :: Monthly(row, y, m)
  {
    hide DayOf, ParseNat, Pad;
    forall m: nat ensures Month(row.period) == Some(m) <==> 1 <= m <= 12 && row.period == "M" + Pad(m, 2) {
      MonthExactly(row.period, m);
    }
    if ReadRow(row).Read? {
      assert Monthly(row, ParseNat(row.year.value).value, Month(row.period).value);
    }
  }

  /** The record of a row, but for the previous value. */
  predicate RecordOf(record: ReleaseRecord, code: string, meta: Meta, id: string, row: Row) {
    && record.code == code && record.name == meta.releaseName
    && record.unit == meta.unit && record.agency == meta.agency
    && record.period == row.periodName && record.actual == row.value
    && record.id == id + ":" + row.year.GetOr("") + row.period
  }

  ghost predicate RecordFor(record: ReleaseRecord, code: string, meta: Meta, id: string, row: Row) {
    && RecordOf(record, code, meta, id, row)
    && exists y, m :: Monthly(row, y, m) && record.day == DayOf(Ymd(y, m, 1))
  }

  lemma {:induction false} RowsAreRead(rows: seq<Row>, i: nat)
    requires Readings(rows).Some? && i < |rows| && ReadRow(rows[i]).Read?
    ensures exists k :: 0 <= k < |Readings(rows).value| && Readings(rows).value[k] == ReadRow(rows[i]).reading
  {
    hide ReadRow;
    var front, row := rows[..|rows| - 1], rows[|rows| - 1];
    if i < |front| {
      RowsAreRead(front, i);
      var k :| 0 <= k < |Readings(front).value| && Readings(front).value[k] == ReadRow(front[i]).reading;
      assert Readings(rows).value[k] == Readings(front).value[k];
    } else {
      assert Readings(rows).value[|Readings(front).value|] == ReadRow(row).reading;
    }
  }

  lemma {:induction false} ReadingsRaise(rows: seq<Row>)
    ensures Readings(rows).None? <==> exists i :: 0 <= i < |rows| && ReadRow(rows[i]).Raised?
  {
    hide ReadRow;
    if rows == [] {
    } else {
      var front, n := rows[..|rows| - 1], |rows| - 1;
      assert forall i :: 0 <= i < |front| ==> front[i] == rows[i];
      ReadingsRaise(front);
    }
  }

  lemma LinkRecord(l: Linked<Row>, code: string, meta: Meta, id: string, row: Row, y: nat, m: nat)
    requires Monthly(row, y, m) && ReadRow(row) == Read(l.reading)
    ensures RecordFor(ToRecord(code, meta, id)(l), code, meta, id, row)
    ensures ToRecord(code, meta, id)(l).day == DayOf(Ymd(y, m, 1))
  {
    hide DayOf, ParseNat, Pad, ReadRow;
    ReadRowMonthly(row, y, m);
  }

  /** Every record of a known series is made from a monthly row of the answer, whose first of the month
      lies in the window, and carries that row's own value. */
  lemma RecordsFromRows(result: SeriesResult, series: Series, w: DateRange, j: nat)
    requires Lookup(series, result.seriesId).Some? && FromSeries(result, series, w).Some?
    requires j < |FromSeries(result, series, w).value|
    ensures var (code, meta) := Lookup(series, result.seriesId).value;
            var record := FromSeries(result, series, w).value[j];
            && w.start <= record.day <= w.end
            && exists i :: 0 <= i < |result.data|
                           && RecordFor(record, code, meta, result.seriesId.GetOr(""), result.data[i])
  {
    hide ReadRow, Readings, Link, LatestEarlier, Lookup, DayOf, Monthly, RecordFor, ToRecord;
    var (code, meta) := Lookup(series, result.seriesId).value;
    var rows := Reversed(result.data);
    var rs := Readings(rows).value;
    var l := Link(rs, w)[j];
    PreviousIsLatestEarlier(rs, w, j);
    var k :| 0 <= k < |rs| && rs[k] == l.reading && w.start <= rs[k].day <= w.end;
    ReadingsComeFromRows(rows, k);
    var i :| 0 <= i < |rows| && ReadRow(rows[i]) == Read(rs[k]);
    ReadRowExactly(rows[i]);
    var y, m :| Monthly(rows[i], y, m);
    LinkRecord(l, code, meta, result.seriesId.GetOr(""), rows[i], y, m);
    ReadRowMonthly(rows[i], y, m);
    assert result.data[|rows| - 1 - i] == rows[i];
  }

  /** And every monthly row whose first of the month lies in the window has its record. */
  lemma RowsHaveRecords(result: SeriesResult, series: Series, w: DateRange, i: nat, y: nat, m: nat)
    requires Lookup(series, result.seriesId).Some? && FromSeries(result, series, w).Some?
    requires i < |result.data| && Monthly(result.data[i], y, m) && w.start <= DayOf(Ymd(y, m, 1)) <= w.end
    ensures var (code, meta) := Lookup(series, result.seriesId).value;
            var out := FromSeries(result, series, w).value;
            exists j :: 0 <= j < |out| && RecordFor(out[j], code, meta, result.seriesId.GetOr(""), result.data[i])
  {
    hide ReadRow, Readings, Link, Lookup, DayOf, Monthly, RecordFor, ToRecord;
    var (code, meta) := Lookup(series, result.seriesId).value;
    var rows := Reversed(result.data);
    var rs := Readings(rows).value;
    assert rows[|rows| - 1 - i] == result.data[i];
    ReadRowMonthly(result.data[i], y, m);
    RowsAreRead(rows, |rows| - 1 - i);
    var k :| 0 <= k < |rs| && rs[k] == ReadRow(result.data[i]).reading;
    EveryReadingLinked(rs, w, k);
    var j :| 0 <= j < |Link(rs, w)| && Link(rs, w)[j].reading == rs[k];
    LinkRecord(Link(rs, w)[j], code, meta, result.seriesId.GetOr(""), result.data[i], y, m);
    assert RecordFor(FromSeries(result, series, w).value[j], code, meta, result.seriesId.GetOr(""), result.data[i]);
  }

  /** The row names a month, but its year is not one. */
  predicate BadYear(row: Row) {
    && |row.period| == 3 && row.period[0] == 'M'
    && (match ParseNat(row.period[1..]) case Some(m) => 1 <= m <= 12 case None => false)
    && (match row.year
        case None => true
        case Some(text) => match ParseNat(text) case Some(y) => !(1 <= y <= 9999) case None => true)
  }

  lemma BadYearExactly(row: Row)
    ensures ReadRow(row).Raised? <==> BadYear(row)
  {
    hide DayOf, ParseNat;
  }

  lemma NoRecords(series: Series, w: DateRange)
    ensures Records([], series, w) == Some([])
  {
  }

  /** The records of an answer are those of its series, one after the other; one that raises ends it. */
  lemma {:induction false} RecordsConcat(a: seq<SeriesResult>, b: seq<SeriesResult>, series: Series, w: DateRange)
    ensures var (x, y) := (Records(a, series, w), Records(b, series, w));
            Records(a + b, series, w) == if x.None? || y.None? then None else Some(x.value + y.value)
  {
    hide Records, FromSeries;
    NoRecords(series, w);
    if b == [] {
      assert a + b == a;
      if Records(a, series, w).Some? {
        assert Records(a, series, w).value + [] == Records(a, series, w).value;
      }
    } else {
      var front, last := b[..|b| - 1], b[|b| - 1];
      RecordsConcat(a, front, series, w);
      assert b == front + [last] && a + b == (a + front) + [last];
      RecordsSnoc(front, last, series, w);
      RecordsSnoc(a + front, last, series, w);
      var x, y, z := Records(a, series, w), Records(front, series, w), FromSeries(last, series, w);
      if x.Some? && y.Some? && z.Some? {
        assert (x.value + y.value) + z.value == x.value + (y.value + z.value);
      }
    }
  }

  lemma RecordsOne(result: SeriesResult, series: Series, w: DateRange)
    ensures Records([result], series, w) == FromSeries(result, series, w)
  {
    hide FromSeries;
    NoRecords(series, w);
    var none: seq<SeriesResult> := [];
    RecordsSnoc(none, result, series, w);
    assert none + [result] == [result];
    if FromSeries(result, series, w).Some? {
      assert [] + FromSeries(result, series, w).value == FromSeries(result, series, w).value;
    }
  }

  /** A known series raises exactly when some row names a month without a year from 1 to 9999; an
      unknown one has no records. */
  lemma RaisesExactly(result: SeriesResult, series: Series, w: DateRange)
    ensures Lookup(series, result.seriesId).None? ==> FromSeries(result, series, w) == Some([])
    ensures Lookup(series, result.seriesId).Some? ==>
              (FromSeries(result, series, w).None? <==>
               exists i :: 0 <= i < |result.data| && BadYear(result.data[i]))
  {
    hide ReadRow, Readings, Link, Lookup, BadYear;
    var rows := Reversed(result.data);
    ReadingsRaise(rows);
    forall i | 0 <= i < |rows| ensures ReadRow(rows[i]).Raised? <==> BadYear(rows[i]) {
      BadYearExactly(rows[i]);
    }
    if i :| 0 <= i < |result.data| && BadYear(result.data[i]) {
      assert rows[|rows| - 1 - i] == result.data[i];
    }
  }
}
