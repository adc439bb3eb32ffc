/** The BEA adapter: one line of a table, sorted by the text of its period. */
module Bea {
  import opened Text
  import opened Calendar
  import opened Ordering
  import opened ValueChain

  /** A row as text: `str(LineNumber)`, `TimePeriod` and `str(DataValue)`. */
  datatype Row = Row(line: string, period: string, dataValue: string)

  datatype Table = Table(
    code: string, releaseName: string, tableName: string, line: string, unit: string, agency: string)

  // ----- periods -------------------------------------------------------------------

  /** `_parse_time_period` */
  function ParsePeriod(s: string): Option<Date> {
    var i := FirstIndex(s, 'M');
    if i == |s| then None
    else
      var y :- ParseNat(s[..i]);
      var m :- ParseNat(s[i + 1..]);
      if ValidYmd(Ymd(y, m, 1)) then Some(DayOf(Ymd(y, m, 1))) else None
  }

  function WithoutCommas(s: string): string {
    if s == [] then [] else (if s[0] == ',' then [] else [s[0]]) + WithoutCommas(s[1..])
  }

  function ValueOf(row: Row): Option<string> {
    var text := WithoutCommas(row.dataValue);
    if text == "" then None else Some(text)
  }

  // ----- the sort ------------------------------------------------------------------

  predicate PeriodAtMost(a: Row, b: Row) {
    AtMost(a.period, b.period)
  }

  /** `rows.sort(key=period)` */
  function Sorted(rows: seq<Row>): seq<Row> {
    StableSort(PeriodAtMost, rows)
  }

  lemma PeriodAtMostOrders()
    ensures TotalPreorder(PeriodAtMost)
  {
    forall a, b ensures PeriodAtMost(a, b) || PeriodAtMost(b, a) {
      LessTotal(a.period, b.period);
    }
    forall a, b, c | PeriodAtMost(a, b) && PeriodAtMost(b, c) ensures PeriodAtMost(a, c) {
      if a.period != b.period && b.period != c.period {
        LessTransitive(a.period, b.period, c.period);
      }
    }
  }

  // ----- the parser ----------------------------------------------------------------

  function Matching(rows: seq<Row>, line: string): seq<Row> {
    if rows == [] then []
    else
      var front := Matching(rows[..|rows| - 1], line);
      if rows[|rows| - 1].line == line then front + [rows[|rows| - 1]] else front
  }

  /** The dated rows, in the given order; the others are skipped. */
  function Readings(rows: seq<Row>): seq<Reading<Row>> {
    if rows == [] then []
    else
      var front, row := Readings(rows[..|rows| - 1]), rows[|rows| - 1];
      match ParsePeriod(row.period)
      case None => front
      case Some(day) => front + [Reading(day, ValueOf(row), row)]
  }

  lemma ReadingsSnoc(front: seq<Row>, row: Row)
    ensures Readings(front + [row]) ==
            match ParsePeriod(row.period)
            case None => Readings(front)
            case Some(day) => Readings(front) + [Reading(day, ValueOf(row), row)]
  {
    hide ParsePeriod, ValueOf;
    assert (front + [row])[..|front|] == front;
  }

  function ToRecord(table: Table): Linked<Row> -> ReleaseRecord {
    (l: Linked<Row>) =>
      ReleaseRecord(table.code, table.releaseName, l.reading.day, l.reading.row.period, l.reading.value, l.previous,
                    table.unit, table.agency, table.tableName + ":" + table.line + ":" + l.reading.row.period)
  }

  function Records(rows: seq<Row>, table: Table, w: DateRange): seq<ReleaseRecord> {
    Render(ToRecord(table), Link(Readings(Sorted(Matching(rows, table.line))), w))
  }

  lemma NothingRead(f: Linked<Row> -> ReleaseRecord, w: DateRange)
    ensures Carried(Readings([])) == None && Render(f, Link(Readings([]), w)) == []
  {
  }

  /** `BEAAdapter._parse` */
  method Parse(rows: seq<Row>, table: Table, w: DateRange) returns (out: seq<ReleaseRecord>)
    ensures out == Records(rows, table, w)
  {
    hide Readings, Carried, Link, Render, ParsePeriod, ValueOf, Sorted;
    var matching := Sorted(Matching(rows, table.line));
    var previous: Option<string> := None;
    ghost var f := ToRecord(table);
    out := [];
    NothingRead(f, w);
    for k := 0 to |matching|
      invariant previous == Carried(Readings(matching[..k]))
      invariant out == Render(f, Link(Readings(matching[..k]), w))
    {
      var row := matching[k];
      ghost var rs := Readings(matching[..k]);
      assert matching[..k + 1] == matching[..k] + [row];
      ReadingsSnoc(matching[..k], row);
      var day := ParsePeriod(row.period);
      if day.None? {
        continue;
      }
      var value := ValueOf(row);
      ghost var r := Reading(day.value, value, row);
      LinkSnoc(rs, r, w);
      if !w.Contains(day.value) {
        previous := Carry(value, previous);
        continue;
      }
      RenderSnoc(f, Link(rs, w), Linked(r, previous));
      out := out + [ReleaseRecord(table.code, table.releaseName, day.value, row.period, value, previous,
                                  table.unit, table.agency, table.tableName + ":" + table.line + ":" + row.period)];
      previous := Carry(value, previous);
    }
    assert matching[..|matching|] == matching;
  }

  // ----- laws ----------------------------------------------------------------------

  /** Parsing with a window is parsing everything and then keeping the window. */
  lemma WindowIsFilter(rows: seq<Row>, table: Table, w: DateRange)
    ensures Records(rows, table, w) == Within(Records(rows, table, ALL_DAYS), w)
  {
    hide Link, Render, Within, Readings, Sorted, Matching;
    LinkIsFilter(ToRecord(table), Readings(Sorted(Matching(rows, table.line))), w);
  }

  // ----- when text order is month order --------------------------------------------

  /** A year of `a` digits, `M`, a month of `c` digits. */
  predicate HasWidths(s: string, a: nat, c: nat) {
    |s| == a + 1 + c && s[a] == 'M' && ParseNat(s[..a]).Some? && ParseNat(s[a + 1..]).Some?
  }

  lemma WidthParts(s: string, a: nat, c: nat)
    requires HasWidths(s, a, c)
    ensures var (y, m) := (ParseNat(s[..a]).value, ParseNat(s[a + 1..]).value);
            && y < Power10(a) && m < Power10(c) && s == Pad(y, a) + "M" + Pad(m, c)
            && ParsePeriod(s) == if ValidYmd(Ymd(y, m, 1)) then Some(DayOf(Ymd(y, m, 1))) else None
  {
    hide DayOf, ParseNat;
    PadParse(s[..a]);
    PadParse(s[a + 1..]);
    DigitsOnly(s[..a]);
    assert forall k :: 0 <= k < a ==> s[k] == s[..a][k];
    assert FirstIndex(s, 'M') == a;
    assert s == s[..a] + "M" + s[a + 1..];
  }

  lemma NoDigits()
    ensures ParseNat("") == Some(0)
  {
  }

  /** Every dated period has widths, and neither is zero. */
  lemma DatedHasWidths(s: string)
    requires ParsePeriod(s).Some?
    ensures var a := FirstIndex(s, 'M');
            1 <= a < |s| - 1 && HasWidths(s, a, |s| - 1 - a)
  {
    hide DayOf, ParseNat, FirstIndex;
    assert ParseNat("") == Some(0) by { NoDigits(); }
    var a := FirstIndex(s, 'M');
    assert s[..0] == "" && s[|s|..] == "";
  }

  function Period(y: nat, m: nat, a: nat, c: nat): string {
    Pad(y, a) + "M" + Pad(m, c)
  }

  lemma PeriodDated(y: nat, m: nat, a: nat, c: nat)
    requires ValidYmd(Ymd(y, m, 1)) && y < Power10(a) && m < Power10(c)
    ensures HasWidths(Period(y, m, a, c), a, c)
    ensures ParsePeriod(Period(y, m, a, c)) == Some(DayOf(Ymd(y, m, 1)))
  {
    hide DayOf, Pad, ParseNat, Power10, ParsePeriod;
    var s := Period(y, m, a, c);
    ParsePad(y, a);
    ParsePad(m, c);
    assert s[..a] == Pad(y, a) && s[a] == 'M' && s[a + 1..] == Pad(m, c);
    WidthParts(s, a, c);
  }

  lemma MonthsOrder(y: nat, m: nat, z: nat, k: nat)
    requires ValidYmd(Ymd(y, m, 1)) && ValidYmd(Ymd(z, k, 1)) && (y < z || (y == z && m < k))
    ensures DayOf(Ymd(y, m, 1)) < DayOf(Ymd(z, k, 1))
  {
    DayNumberOrder(Ymd(y, m, 1), Ymd(z, k, 1));
  }

  /** Periods of one width in both parts sort exactly as their months do. */
  lemma PeriodOrder(s: string, t: string, a: nat, c: nat)
    requires HasWidths(s, a, c) && HasWidths(t, a, c) && ParsePeriod(s).Some? && ParsePeriod(t).Some?
    ensures Less(s, t) <==> ParsePeriod(s).value < ParsePeriod(t).value
  {
    hide ParsePeriod, ParseNat, DayOf, Pad, Power10;
    WidthParts(s, a, c);
    WidthParts(t, a, c);
    var (y, m) := (ParseNat(s[..a]).value, ParseNat(s[a + 1..]).value);
    var (z, k) := (ParseNat(t[..a]).value, ParseNat(t[a + 1..]).value);
    PadOrder(y, z, a);
    PadInjective(y, z, a);
    PadOrder(m, k, c);
    LessConcat(Pad(y, a) + "M", Pad(z, a) + "M", Pad(m, c), Pad(k, c));
    LessConcat(Pad(y, a), Pad(z, a), "M", "M");
    LessIrreflexive("M");
    PrefixCut(Pad(y, a), Pad(z, a), "M");
    if y < z || (y == z && m < k) {
      MonthsOrder(y, m, z, k);
    } else if z < y || (y == z && k < m) {
      MonthsOrder(z, k, y, m);
    }
  }

  /** Whatever two dated periods of these widths, the earlier month sorts first. */
  ghost predicate SortsAsMonths(a: nat, c: nat, b: nat, d: nat) {
    forall s, t :: HasWidths(s, a, c) && HasWidths(t, b, d) && ParsePeriod(s).Some? && ParsePeriod(t).Some? ==>
                     && (ParsePeriod(s).value < ParsePeriod(t).value ==> Less(s, t))
                     && (ParsePeriod(t).value < ParsePeriod(s).value ==> Less(t, s))
  }

  lemma {:induction false} ZeroPad(w: nat)
    ensures forall i :: 0 <= i < w ==> Pad(0, w)[i] == '0'
  {
    if w == 0 {
    } else {
      ZeroPad(w - 1);
    }
  }

  /** Padded wider, a two sorts before a one. */
  lemma WiderSortsFirst(a: nat, b: nat, u: string, v: string)
    requires 1 <= a < b
    ensures Less(Pad(2, b) + v, Pad(1, a) + u)
  {
    ZeroPad(a - 1);
    ZeroPad(b - 1);
    var x, y := Pad(1, a) + u, Pad(2, b) + v;
    var zeros := Pad(0, a - 1);
    assert Pad(1, a) == zeros + [Digit(1)];
    assert Pad(2, b) == Pad(0, b - 1) + [Digit(2)];
    assert forall i :: 0 <= i < a - 1 ==> y[i] == '0' && zeros[i] == '0';
    assert y[..a - 1] == zeros && y == y[..a - 1] + y[a - 1..];
    assert x == zeros + ([Digit(1)] + u);
    assert y[a - 1..][0] == '0' && ([Digit(1)] + u)[0] == '1';
    LessConcat(zeros, zeros, y[a - 1..], [Digit(1)] + u);
  }

  lemma {:induction false} PowerAtLeast(w: nat)
    requires w >= 1
    ensures Power10(w) >= 10
  {
    if w == 1 {
    } else {
      PowerAtLeast(w - 1);
    }
  }

  lemma LessAsymmetric(s: string, t: string)
    requires Less(s, t)
    ensures !Less(t, s)
  {
    if Less(t, s) {
      LessTransitive(s, t, s);
      LessIrreflexive(s);
    }
  }

  /** Years of different widths are out of order somewhere. */
  lemma YearWidthsMisorder(a: nat, c: nat, b: nat, d: nat)
    requires 1 <= a < b && 1 <= c && 1 <= d
    ensures !SortsAsMonths(a, c, b, d) && !SortsAsMonths(b, d, a, c)
  {
    hide ParsePeriod, HasWidths, DayOf, Pad;
    var s, t := Period(1, 1, a, c), Period(2, 1, b, d);
    PowerAtLeast(a);
    PowerAtLeast(b);
    PowerAtLeast(c);
    PowerAtLeast(d);
    PeriodDated(1, 1, a, c);
    PeriodDated(2, 1, b, d);
    MonthsOrder(1, 1, 2, 1);
    WiderSortsFirst(a, b, "M" + Pad(1, c), "M" + Pad(1, d));
    assert s == Pad(1, a) + ("M" + Pad(1, c)) && t == Pad(2, b) + ("M" + Pad(1, d));
    LessAsymmetric(t, s);
  }

  /** So are months of different widths. */
  lemma MonthWidthsMisorder(a: nat, c: nat, d: nat)
    requires 1 <= a && 1 <= c < d
    ensures !SortsAsMonths(a, c, a, d) && !SortsAsMonths(a, d, a, c)
  {
    hide ParsePeriod, HasWidths, DayOf, Pad;
    var s, t := Period(1, 1, a, c), Period(1, 2, a, d);
    PowerAtLeast(a);
    PowerAtLeast(c);
    PowerAtLeast(d);
    PeriodDated(1, 1, a, c);
    PeriodDated(1, 2, a, d);
    MonthsOrder(1, 1, 1, 2);
    WiderSortsFirst(c, d, "", "");
    assert Pad(2, d) + "" == Pad(2, d) && Pad(1, c) + "" == Pad(1, c);
    LessConcat(Pad(1, a) + "M", Pad(1, a) + "M", Pad(2, d), Pad(1, c));
    LessAsymmetric(t, s);
  }

  lemma OneWidthSorts(a: nat, c: nat)
    ensures SortsAsMonths(a, c, a, c)
  {
    hide ParsePeriod, HasWidths;
    forall s, t | HasWidths(s, a, c) && HasWidths(t, a, c) && ParsePeriod(s).Some? && ParsePeriod(t).Some?
      ensures ParsePeriod(s).value < ParsePeriod(t).value ==> Less(s, t)
      ensures ParsePeriod(t).value < ParsePeriod(s).value ==> Less(t, s)
    {
      PeriodOrder(s, t, a, c);
      PeriodOrder(t, s, a, c);
    }
  }

  /** Two forms of period sort as their months do exactly when both widths agree. */
  lemma SortsAsMonthsExactly(a: nat, c: nat, b: nat, d: nat)
    requires a >= 1 && b >= 1 && c >= 1 && d >= 1
    ensures SortsAsMonths(a, c, b, d) <==> a == b && c == d
  {
    hide ParsePeriod, HasWidths, SortsAsMonths;
    if a < b {
      YearWidthsMisorder(a, c, b, d);
    } else if b < a {
      YearWidthsMisorder(b, d, a, c);
    } else if c < d {
      MonthWidthsMisorder(a, c, d);
    } else if d < c {
      MonthWidthsMisorder(a, d, c);
    } else {
      OneWidthSorts(a, c);
    }
  }

  // ----- the order of the answer ---------------------------------------------------

  predicate IsDated(row: Row) {
    ParsePeriod(row.period).Some?
  }

  function Dated(rows: seq<Row>): seq<Row> {
    if rows == [] then []
    else
      var front := Dated(rows[..|rows| - 1]);
      if IsDated(rows[|rows| - 1]) then front + [rows[|rows| - 1]] else front
  }

  /** No two dated rows have the same period. */
  ghost predicate OnePerPeriod(m: multiset<Row>) {
    && (forall x, y :: x in m && y in m && IsDated(x) && x.period == y.period ==> x == y)
    && (forall x :: x in m && IsDated(x) ==> m[x] == 1)
  }

  lemma {:induction false} DatedMultiset(rows: seq<Row>, x: Row)
    ensures multiset(Dated(rows))[x] == if IsDated(x) then multiset(rows)[x] else 0
  {
    hide IsDated;
    if rows == [] {
    } else {
      var front := rows[..|rows| - 1];
      assert rows == front + [rows[|rows| - 1]];
      DatedMultiset(front, x);
    }
  }

  lemma {:induction false} DatedSuffices(rows: seq<Row>)
    ensures Readings(rows) == Readings(Dated(rows))
  {
    hide ParsePeriod, ValueOf;
    if rows == [] {
    } else {
      var front, row := rows[..|rows| - 1], rows[|rows| - 1];
      DatedSuffices(front);
      ReadingsSnoc(Dated(front), row);
    }
  }

  lemma {:induction false} DatedNonDescending(rows: seq<Row>)
    requires NonDescending(PeriodAtMost, rows)
    ensures NonDescending(PeriodAtMost, Dated(rows))
    ensures forall x :: x in Dated(rows) ==> x in rows && IsDated(x)
  {
    hide PeriodAtMost, IsDated;
    if rows == [] {
    } else {
      var front, last := rows[..|rows| - 1], rows[|rows| - 1];
      assert forall i :: 0 <= i < |front| ==> front[i] == rows[i];
      DatedNonDescending(front);
      forall x | x in front ensures PeriodAtMost(x, last) {
        var i :| 0 <= i < |front| && front[i] == x;
        assert PeriodAtMost(rows[i], rows[|front|]);
      }
    }
  }

  predicate PeriodBefore(a: Row, b: Row) {
    Less(a.period, b.period)
  }

  lemma Twice(rows: seq<Row>, i: nat, j: nat)
    requires i < j < |rows| && rows[i] == rows[j]
    ensures multiset(rows)[rows[i]] >= 2
  {
    assert rows == rows[..i] + [rows[i]] + rows[i + 1..j] + [rows[j]] + rows[j + 1..];
  }

  /** With one row a period, the dated rows come out strictly ascending. */
  lemma SortedStrictly(rows: seq<Row>)
    requires OnePerPeriod(multiset(rows))
    ensures Ascending(PeriodBefore, Dated(Sorted(rows)))
    ensures forall x :: multiset(Dated(Sorted(rows)))[x] == if IsDated(x) then multiset(rows)[x] else 0
  {
    hide IsDated, StableSort, Dated;
    var r := Dated(Sorted(rows));
    PeriodAtMostOrders();
    StableSortAscends(PeriodAtMost, rows);
    StableSortMultiset(PeriodAtMost, rows);
    DatedNonDescending(Sorted(rows));
    forall x ensures multiset(r)[x] == if IsDated(x) then multiset(rows)[x] else 0 {
      DatedMultiset(Sorted(rows), x);
    }
    forall i, j | 0 <= i < j < |r| ensures PeriodBefore(r[i], r[j]) {
      assert PeriodAtMost(r[i], r[j]);
      assert r[i] in multiset(r) && r[j] in multiset(r);
      if r[i] == r[j] {
        Twice(r, i, j);
      }
    }
  }

  lemma PeriodOrderTotal(rows: seq<Row>)
    requires forall x, y :: x in rows && y in rows && x.period == y.period ==> x == y
    ensures StrictTotalOn(PeriodBefore, Elements(rows))
  {
    forall a ensures !PeriodBefore(a, a) {
      LessIrreflexive(a.period);
    }
    forall a, b, c | PeriodBefore(a, b) && PeriodBefore(b, c) ensures PeriodBefore(a, c) {
      LessTransitive(a.period, b.period, c.period);
    }
    forall a, b | a in Elements(rows) && b in Elements(rows)
      ensures a == b || PeriodBefore(a, b) || PeriodBefore(b, a)
    {
      LessTotal(a.period, b.period);
    }
  }

  /** The order of the rows in the answer does not matter, whatever form the periods have. */
  lemma OrderInsensitive(rows: seq<Row>, other: seq<Row>, table: Table, w: DateRange)
    requires multiset(Matching(rows, table.line)) == multiset(Matching(other, table.line))
    requires OnePerPeriod(multiset(Matching(rows, table.line)))
    ensures Records(rows, table, w) == Records(other, table, w)
  {
    hide Matching, Sorted, IsDated, Readings, Link, Render, StrictTotalOn, Ascending, Dated;
    var a, b := Matching(rows, table.line), Matching(other, table.line);
    var r, q := Dated(Sorted(a)), Dated(Sorted(b));
    SortedStrictly(a);
    SortedStrictly(b);
    assert multiset(r) == multiset(q);
    SameMembers(r, q);
    assert Elements(r) == Elements(q);
    forall x | x in r ensures x in multiset(a) && IsDated(x) {
      assert x in multiset(r);
    }
    PeriodOrderTotal(r);
    AscendingUnique(PeriodBefore, r, q);
    DatedSuffices(Sorted(a));
    DatedSuffices(Sorted(b));
  }

  // ----- the previous month --------------------------------------------------------

  /** All dated rows are written with the same widths. */
  ghost predicate UniformWidths(m: multiset<Row>) {
    forall x, y :: x in m && y in m && IsDated(x) && IsDated(y) ==>
                     |x.period| == |y.period| && FirstIndex(x.period, 'M') == FirstIndex(y.period, 'M')
  }

  lemma UniformOrder(x: Row, y: Row)
    requires IsDated(x) && IsDated(y) && PeriodBefore(x, y)
    requires |x.period| == |y.period| && FirstIndex(x.period, 'M') == FirstIndex(y.period, 'M')
    ensures ParsePeriod(x.period).value < ParsePeriod(y.period).value
  {
    hide ParsePeriod, HasWidths;
    var a := FirstIndex(x.period, 'M');
    DatedHasWidths(x.period);
    DatedHasWidths(y.period);
    PeriodOrder(x.period, y.period, a, |x.period| - 1 - a);
  }

  function ReadingOf(row: Row): Reading<Row> {
    Reading(ParsePeriod(row.period).GetOr(1), ValueOf(row), row)
  }

  lemma {:induction false} DatedReadings(rows: seq<Row>)
    requires forall i :: 0 <= i < |rows| ==> IsDated(rows[i])
    ensures |Readings(rows)| == |rows|
    ensures forall i :: 0 <= i < |rows| ==> Readings(rows)[i] == ReadingOf(rows[i])
  {
    hide ParsePeriod, ValueOf;
    if rows == [] {
    } else {
      assert IsDated(rows[|rows| - 1]);
      DatedReadings(rows[..|rows| - 1]);
    }
  }

  lemma ReadingsAscend(rows: seq<Row>)
    requires OnePerPeriod(multiset(rows)) && UniformWidths(multiset(rows))
    ensures Chronological(Readings(Sorted(rows)))
  {
    hide ParsePeriod, ValueOf, Readings, Dated, Sorted;
    var r := Dated(Sorted(rows));
    SortedStrictly(rows);
    DatedSuffices(Sorted(rows));
    forall x | x in r ensures x in multiset(rows) && IsDated(x) {
      assert x in multiset(r);
    }
    DatedReadings(r);
    forall i, j | 0 <= i < j < |r| ensures ParsePeriod(r[i].period).value < ParsePeriod(r[j].period).value {
      assert r[i] in r && r[j] in r && PeriodBefore(r[i], r[j]);
      UniformOrder(r[i], r[j]);
    }
  }

  lemma {:induction false} ReadingsOf(rows: seq<Row>, r: Reading<Row>)
    ensures r in Readings(rows) <==>
            r.row in rows && IsDated(r.row) && r == ReadingOf(r.row)
  {
    hide ParsePeriod, ValueOf;
    if rows == [] {
    } else {
      var front, row := rows[..|rows| - 1], rows[|rows| - 1];
      assert rows == front + [row];
      ReadingsOf(front, r);
      ReadingsSnoc(front, row);
    }
  }

  lemma LatestBeforeTransfers(rs: seq<Reading<Row>>, qs: seq<Reading<Row>>, day: Date, p: Option<string>)
    requires (forall r :: r in rs <==> r in qs) && LatestBefore(rs, day, p)
    ensures LatestBefore(qs, day, p)
  {
    hide Gap;
    forall k | 0 <= k < |qs| ensures qs[k] in rs {
      assert qs[k] in qs;
    }
    if p.Some? {
      var k :| 0 <= k < |rs| && rs[k].day < day && rs[k].value == p && !Gap(p)
               && forall m :: 0 <= m < |rs| && rs[k].day < rs[m].day < day ==> Gap(rs[m].value);
      assert rs[k] in rs;
      var l :| 0 <= l < |qs| && qs[l] == rs[k];
      forall m | 0 <= m < |qs| && qs[l].day < qs[m].day < day ensures Gap(qs[m].value) {
        var n :| 0 <= n < |rs| && rs[n] == qs[m];
      }
    } else {
      forall k | 0 <= k < |qs| && qs[k].day < day ensures Gap(qs[k].value) {
        var n :| 0 <= n < |rs| && rs[n] == qs[k];
      }
    }
  }

  lemma SameReadings(rows: seq<Row>)
    ensures forall r :: r in Readings(Sorted(rows)) <==> r in Readings(rows)
  {
    hide ParsePeriod, ValueOf, Readings, StableSort;
    StableSortMultiset(PeriodAtMost, rows);
    SameMembers(Sorted(rows), rows);
    forall r ensures r in Readings(Sorted(rows)) <==> r in Readings(rows) {
      ReadingsOf(Sorted(rows), r);
      ReadingsOf(rows, r);
    }
  }

  /** Whatever order the answer comes in, when its periods are of one form every record's previous
      value is that of the latest earlier month that has one, inside the window or not. */
  lemma PreviousMonth(rows: seq<Row>, table: Table, w: DateRange, j: nat)
    requires OnePerPeriod(multiset(Matching(rows, table.line))) && UniformWidths(multiset(Matching(rows, table.line)))
    requires j < |Records(rows, table, w)|
    ensures var record := Records(rows, table, w)[j];
            w.Contains(record.day) && LatestBefore(Readings(Matching(rows, table.line)), record.day, record.previous)
  {
    hide Matching, Sorted, Readings, Link, LatestBefore, OnePerPeriod, UniformWidths;
    var matching := Matching(rows, table.line);
    var rs := Readings(Sorted(matching));
    ReadingsAscend(matching);
    PreviousIsLatestBefore(rs, w, j);
    PreviousIsLatestEarlier(rs, w, j);
    SameReadings(matching);
    LatestBeforeTransfers(rs, Readings(matching), Link(rs, w)[j].reading.day, Link(rs, w)[j].previous);
  }

  // ----- mixed forms go wrong ------------------------------------------------------

  lemma SmallNumbers()
    ensures ParseNat("6") == Some(6) && ParseNat("10") == Some(10) && ParseNat("2026") == Some(2026)
  {
    assert "6"[..0] == "";
    assert "10"[..1] == "1" && "1"[..0] == "";
    assert "2026"[..3] == "202" && "202"[..2] == "20" && "20"[..1] == "2" && "2"[..0] == "";
  }

  lemma PeriodText(month: string)
    requires month == "6" || month == "10"
    ensures ParsePeriod("2026M" + month) == Some(DayOf(Ymd(2026, if month == "6" then 6 else 10, 1)))
  {
    hide DayOf, FirstIndex, ParseNat;
    var s := "2026M" + month;
    assert s[0] == '2' && s[1] == '0' && s[2] == '2' && s[3] == '6' && s[4] == 'M';
    assert FirstIndex(s, 'M') == 4;
    assert s[..4] == "2026" && s[5..] == month;
    SmallNumbers();
  }

  const JUNE := "2026M" + "6"
  const OCTOBER := "2026M" + "10"

  lemma NarrowMonthsMisorder()
    ensures Less(OCTOBER, JUNE) && !Less(JUNE, OCTOBER) && JUNE != OCTOBER
    ensures ParsePeriod(JUNE) == Some(DayOf(Ymd(2026, 6, 1))) && ParsePeriod(OCTOBER) == Some(DayOf(Ymd(2026, 10, 1)))
    ensures DayOf(Ymd(2026, 6, 1)) < DayOf(Ymd(2026, 10, 1))
  {
    hide DayOf;
    LessConcat("2026M", "2026M", "10", "6");
    LessIrreflexive("2026M");
    LessAsymmetric(OCTOBER, JUNE);
    MonthsOrder(2026, 6, 2026, 10);
    PeriodText("6");
    PeriodText("10");
  }

  lemma BothMatch(x: Row, y: Row, line: string)
    requires x.line == line && y.line == line
    ensures Matching([x, y], line) == [x, y]
  {
    var none: seq<Row> := [];
    assert [x][..0] == none && Matching(none, line) == none;
    assert Matching([x], line) == none + [x];
    assert [x, y][..1] == [x] && Matching([x, y], line) == [x] + [y];
  }

  lemma TwoLinks(x: Reading<Row>, y: Reading<Row>)
    ensures Link([x, y], ALL_DAYS) == [Linked(x, None), Linked(y, Carry(x.value, None))]
  {
    var none: seq<Reading<Row>> := [];
    LinkSnoc(none, x, ALL_DAYS);
    LinkSnoc([x], y, ALL_DAYS);
    assert none + [x] == [x] && [x] + [y] == [x, y];
  }

  lemma TwoReadings(x: Row, y: Row, a: Date, b: Date)
    requires ParsePeriod(x.period) == Some(a) && ParsePeriod(y.period) == Some(b)
    ensures Readings([x, y]) == [Reading(a, ValueOf(x), x), Reading(b, ValueOf(y), y)]
  {
    hide ParsePeriod, ValueOf;
    var none: seq<Row> := [];
    ReadingsSnoc(none, x);
    ReadingsSnoc([x], y);
    assert none + [x] == [x] && [x] + [y] == [x, y];
  }

  lemma WithoutCommasOne(c: char)
    ensures WithoutCommas([c]) == if c == ',' then [] else [c]
  {
    var rest := [c][1..];
    assert rest == [] && WithoutCommas(rest) == [];
  }

  lemma Values(line: string)
    ensures ValueOf(Row(line, JUNE, "5")) == Some("5") && ValueOf(Row(line, OCTOBER, "7")) == Some("7")
  {
    WithoutCommasOne('5');
    WithoutCommasOne('7');
  }

  /** June and October written without padding: October comes out without a previous value although
      June has one, and June with October's. */
  lemma WrongPrevious(table: Table)
    ensures var rows := [Row(table.line, JUNE, "5"), Row(table.line, OCTOBER, "7")];
            var out := Records(rows, table, ALL_DAYS);
            && |out| == 2
            && out[0].day == DayOf(Ymd(2026, 10, 1)) && out[0].previous == None
            && out[1].day == DayOf(Ymd(2026, 6, 1)) && out[1].previous == Some("7")
            && !LatestBefore(Readings(Matching(rows, table.line)), out[0].day, out[0].previous)
  {
    hide DayOf, ParsePeriod, Less, StableSort, ValueOf, Matching;
    var june, october := Row(table.line, JUNE, "5"), Row(table.line, OCTOBER, "7");
    var rows := [june, october];
    NarrowMonthsMisorder();
    Values(table.line);
    BothMatch(june, october, table.line);
    StableSortPair(PeriodAtMost, june, october);
    assert Sorted(rows) == [october, june];
    var a, b := DayOf(Ymd(2026, 6, 1)), DayOf(Ymd(2026, 10, 1));
    TwoReadings(october, june, b, a);
    TwoReadings(june, october, a, b);
    TwoLinks(Reading(b, Some("7"), october), Reading(a, Some("5"), june));
    assert Readings(rows)[0].value == Some("5");
  }

  // ----- field by field ------------------------------------------------------------

  /** Commas go, everything else stays in order. */
  lemma {:induction false} WithoutCommasConcat(a: string, b: string)
    ensures WithoutCommas(a + b) == WithoutCommas(a) + WithoutCommas(b)
  {
    if a == [] {
      assert a + b == b;
    } else {
      assert (a + b)[1..] == a[1..] + b;
      WithoutCommasConcat(a[1..], b);
    }
  }

  /** The record of a row, but for the previous value: its value is the row's text without commas, or
      none when nothing is left. */
  predicate RecordFor(record: ReleaseRecord, table: Table, row: Row) {
    && record.code == table.code && record.name == table.releaseName
    && record.unit == table.unit && record.agency == table.agency
    && record.period == row.period && ParsePeriod(row.period) == Some(record.day)
    && record.actual == (if WithoutCommas(row.dataValue) == "" then None else Some(WithoutCommas(row.dataValue)))
    && record.id == table.tableName + ":" + table.line + ":" + row.period
  }

  lemma {:induction false} MatchingExactly(rows: seq<Row>, line: string, row: Row)
    ensures multiset(Matching(rows, line))[row] == if row.line == line then multiset(rows)[row] else 0
  {
    if rows == [] {
    } else {
      var front := rows[..|rows| - 1];
      assert rows == front + [rows[|rows| - 1]];
      MatchingExactly(front, line, row);
    }
  }

  lemma SortedMatching(rows: seq<Row>, line: string, row: Row)
    ensures row in Sorted(Matching(rows, line)) <==> row in rows && row.line == line
  {
    hide StableSort;
    StableSortMultiset(PeriodAtMost, Matching(rows, line));
    SameMembers(Sorted(Matching(rows, line)), Matching(rows, line));
    MatchingExactly(rows, line, row);
    assert row in Matching(rows, line) <==> row in multiset(Matching(rows, line));
    assert row in rows <==> row in multiset(rows);
  }

  lemma LinkRecord(l: Linked<Row>, table: Table)
    requires IsDated(l.reading.row) && l.reading == ReadingOf(l.reading.row)
    ensures RecordFor(ToRecord(table)(l), table, l.reading.row)
  {
    hide ParsePeriod, WithoutCommas;
  }

  lemma RecordDay(l: Linked<Row>, table: Table)
    ensures ToRecord(table)(l).day == l.reading.day
  {
  }

  /** Every record is made from a dated row of the table's line, whose month begins in the window. */
  lemma RecordsFromRows(rows: seq<Row>, table: Table, w: DateRange, j: nat)
    requires j < |Records(rows, table, w)|
    ensures var record := Records(rows, table, w)[j];
            && w.start <= record.day <= w.end
            && exists i :: 0 <= i < |rows| && rows[i].line == table.line && RecordFor(record, table, rows[i])
  {
    hide ParsePeriod, ValueOf, Readings, Link, LatestEarlier, Sorted, Matching, RecordFor, ToRecord;
    var rs := Readings(Sorted(Matching(rows, table.line)));
    var l := Link(rs, w)[j];
    PreviousIsLatestEarlier(rs, w, j);
    var k :| 0 <= k < |rs| && rs[k] == l.reading && w.start <= rs[k].day <= w.end;
    ReadingsOf(Sorted(Matching(rows, table.line)), l.reading);
    SortedMatching(rows, table.line, l.reading.row);
    LinkRecord(l, table);
    RecordDay(l, table);
    var i :| 0 <= i < |rows| && rows[i] == l.reading.row;
  }

  /** And every dated row of that line whose month begins in the window has its record. */
  lemma RowsHaveRecords(rows: seq<Row>, table: Table, w: DateRange, i: nat)
    requires i < |rows| && rows[i].line == table.line
    requires ParsePeriod(rows[i].period).Some? && w.start <= ParsePeriod(rows[i].period).value <= w.end
    ensures exists j :: 0 <= j < |Records(rows, table, w)| && RecordFor(Records(rows, table, w)[j], table, rows[i])
  {
    hide ParsePeriod, ValueOf, Readings, Link, Sorted, Matching, RecordFor, ToRecord;
    var rs := Readings(Sorted(Matching(rows, table.line)));
    var r := ReadingOf(rows[i]);
    assert rows[i] in rows;
    SortedMatching(rows, table.line, rows[i]);
    ReadingsOf(Sorted(Matching(rows, table.line)), r);
    var k :| 0 <= k < |rs| && rs[k] == r;
    EveryReadingLinked(rs, w, k);
    var j :| 0 <= j < |Link(rs, w)| && Link(rs, w)[j].reading == r;
    LinkRecord(Link(rs, w)[j], table);
    assert RecordFor(Records(rows, table, w)[j], table, rows[i]);
  }
}
