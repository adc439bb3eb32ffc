/** CME holidays, derived as the gaps of a trading schedule. */
module Cme {
  import opened Calendar
  import opened DayScan

  const FIRST_SCHEDULED := 718798 // 1969-01-01
  const LAST_SCHEDULED := 755322  // 2068-12-31

  /** What a two-digit year can denote. */
  type TradingDate = n: int | FIRST_SCHEDULED <= n <= LAST_SCHEDULED witness FIRST_SCHEDULED

  datatype HolidayRecord = HolidayRecord(date: string, segment: string, id: string)

  /** The weekday count: a known Monday, and one step a day. */
  lemma WeekdaysAnchored(n: Date)
    ensures Weekday(DayOf(Ymd(2026, 9, 7))) == 0
    ensures n < MAX_DATE ==> Weekday(n + 1) == if Weekday(n) == 6 then 0 else Weekday(n) + 1
  {
    assert DaysBeforeMonth(2026, 3) == 59;
    assert DaysBeforeMonth(2026, 5) == 120;
    assert DaysBeforeMonth(2026, 7) == 181;
    assert DaysBeforeMonth(2026, 9) == 243;
  }

  predicate IsWeekday(n: int) {
    1 <= n <= MAX_DATE && Weekday(n) != 5 && Weekday(n) != 6
  }

  ghost predicate IsFirst(trading: set<TradingDate>, d: TradingDate) {
    d in trading && forall t :: t in trading ==> d <= t
  }

  ghost predicate IsLast(trading: set<TradingDate>, d: TradingDate) {
    d in trading && forall t :: t in trading ==> t <= d
  }

  lemma FirstExists(trading: set<TradingDate>)
    requires trading != {}
    ensures exists d: TradingDate :: IsFirst(trading, d)
    decreases |trading|
  {
    var x :| x in trading;
    var rest := trading - {x};
    if rest == {} {
      assert trading == {x};
      assert IsFirst(trading, x);
    } else {
      FirstExists(rest);
      var y: TradingDate :| IsFirst(rest, y);
      assert forall t :: t in trading ==> t == x || t in rest;
      assert IsFirst(trading, if x <= y then x else y);
    }
  }

  lemma LastExists(trading: set<TradingDate>)
    requires trading != {}
    ensures exists d: TradingDate :: IsLast(trading, d)
    decreases |trading|
  {
    var x :| x in trading;
    var rest := trading - {x};
    if rest == {} {
      assert trading == {x};
      assert IsLast(trading, x);
    } else {
      LastExists(rest);
      var y: TradingDate :| IsLast(rest, y);
      assert forall t :: t in trading ==> t == x || t in rest;
      assert IsLast(trading, if y <= x then x else y);
    }
  }

  /** `min(trading_dates)` */
  ghost function First(trading: set<TradingDate>): (d: TradingDate)
    requires trading != {}
    ensures IsFirst(trading, d)
  {
    FirstExists(trading);
    var d: TradingDate :| IsFirst(trading, d);
    d
  }

  /** `max(trading_dates)` */
  ghost function Last(trading: set<TradingDate>): (d: TradingDate)
    requires trading != {}
    ensures IsLast(trading, d)
  {
    LastExists(trading);
    var d: TradingDate :| IsLast(trading, d);
    d
  }

  /** The days a holiday is looked for: the request clamped to what the schedule covers. */
  ghost function ScanStart(trading: set<TradingDate>, range: DateRange): Date
    requires trading != {}
  {
    if range.start > First(trading) then range.start else First(trading)
  }

  ghost function ScanEnd(trading: set<TradingDate>, range: DateRange): Date
    requires trading != {}
  {
    if range.end < Last(trading) then range.end else Last(trading)
  }

  function WithoutSession(trading: set<TradingDate>): int -> bool {
    d => IsWeekday(d) && d !in trading
  }

  function WithSession(trading: set<TradingDate>): int -> bool {
    d => IsWeekday(d) && d in trading
  }

  ghost function Holidays(trading: set<TradingDate>, range: DateRange): (days: seq<int>)
    ensures forall i :: 0 <= i < |days| ==> 1 <= days[i] <= MAX_DATE
  {
    if trading == {} then []
    else DaysWhere(WithoutSession(trading), ScanStart(trading, range), ScanEnd(trading, range))
  }

  function RecordOf(group: string, day: Date): HolidayRecord {
    HolidayRecord(IsoDate(day), group, "cme-holiday:" + group + ":" + IsoDate(day))
  }

  function Records(group: string, days: seq<int>): seq<HolidayRecord>
    requires forall i :: 0 <= i < |days| ==> 1 <= days[i] <= MAX_DATE
  {
    if days == [] then []
    else Records(group, days[..|days| - 1]) + [RecordOf(group, days[|days| - 1])]
  }

  lemma NoRecords(group: string)
    ensures Records(group, []) == []
  {
  }

  lemma RecordsSnoc(group: string, days: seq<int>, day: Date)
    requires forall i :: 0 <= i < |days| ==> 1 <= days[i] <= MAX_DATE
    ensures Records(group, days + [day]) == Records(group, days) + [RecordOf(group, day)]
  {
    hide RecordOf;
    assert (days + [day])[..|days|] == days;
  }

  /** `min(trading_dates), max(trading_dates)` */
  method Ends(trading: set<TradingDate>) returns (first: TradingDate, last: TradingDate)
    requires trading != {}
    ensures first == First(trading) && last == Last(trading)
  {
    FirstExists(trading);
    LastExists(trading);
    first :| first in trading && forall t :: t in trading ==> first <= t;
    last :| last in trading && forall t :: t in trading ==> t <= last;
  }

  lemma NoDays(p: int -> bool, lo: int, hi: int)
    ensures hi < lo ==> DaysWhere(p, lo, hi) == []
  {
  }

  lemma OneDay(p: int -> bool, lo: int, day: int)
    requires lo <= day
    ensures DaysWhere(p, lo, day) == if p(day) then DaysWhere(p, lo, day - 1) + [day] else DaysWhere(p, lo, day - 1)
  {
  }

  /** `_fetch_holidays`, once the schedule has been read. */
  method FetchHolidays(trading: set<TradingDate>, range: DateRange, group: string) returns (out: seq<HolidayRecord>)
    requires range.Valid()
    ensures out == Records(group, Holidays(trading, range))
  {
    hide DaysWhere, IsoDate, IsFirst, IsLast, Records;
    assert Records(group, []) == [] by { NoRecords(group); }
    out := [];
    if trading == {} {
      return;
    }
    var first, last := Ends(trading);
    var lo: Date := if range.start > first then range.start else first;
    var hi: Date := if range.end < last then range.end else last;
    var day := lo;
    NoDays(WithoutSession(trading), lo, day - 1);
    while day <= hi
      invariant lo <= day <= (if lo <= hi then hi + 1 else lo) <= MAX_DATE
      invariant out == Records(group, DaysWhere(WithoutSession(trading), lo, day - 1))
    {
      OneDay(WithoutSession(trading), lo, day);
      if Weekday(day) != 5 && Weekday(day) != 6 && day !in trading {
        RecordsSnoc(group, DaysWhere(WithoutSession(trading), lo, day - 1), day);
        out := out + [HolidayRecord(IsoDate(day), group, "cme-holiday:" + group + ":" + IsoDate(day))];
      }
      day := day + 1;
    }
    NoDays(WithoutSession(trading), lo, hi);
  }

  /** The gap scan yields, in increasing order, exactly the weekdays of the request inside the
      schedule that have no session; none is the schedule's first or last date. */
  lemma HolidaysExactly(trading: set<TradingDate>, range: DateRange)
    ensures Increasing(Holidays(trading, range))
    ensures forall d :: d in Holidays(trading, range) <==>
                        && trading != {} && range.start <= d <= range.end && First(trading) < d < Last(trading)
                        && 1 <= d <= MAX_DATE && Weekday(d) <= 4 && d !in trading
  {
    if trading != {} {
      KeepsExactly(WithoutSession(trading), ScanStart(trading, range), ScanEnd(trading, range));
    }
  }

  /** One record a holiday, in order, each with its own date, the group as its segment, and an id that
      names both. */
  lemma {:induction false} RecordsExactly(group: string, days: seq<int>)
    requires forall i :: 0 <= i < |days| ==> 1 <= days[i] <= MAX_DATE
    ensures var out := Records(group, days);
            && |out| == |days|
            && forall i :: 0 <= i < |out| ==>
                 && out[i].date == IsoDate(days[i]) && out[i].segment == group
                 && out[i].id == "cme-holiday:" + group + ":" + IsoDate(days[i])
  {
    hide IsoDate;
    if days == [] {
    } else {
      RecordsExactly(group, days[..|days| - 1]);
    }
  }

  /** Holidays and trading weekdays together are all the weekdays of the scanned days. */
  lemma WeekdaysAddUp(trading: set<TradingDate>, range: DateRange)
    requires trading != {}
    ensures var (lo, hi) := (ScanStart(trading, range), ScanEnd(trading, range));
            |DaysWhere(IsWeekday, lo, hi)|
            == |Holidays(trading, range)| + |DaysWhere(WithSession(trading), lo, hi)|
  {
    Splits(IsWeekday, WithoutSession(trading), WithSession(trading),
           ScanStart(trading, range), ScanEnd(trading, range));
  }

  /** Requests that follow each other find the holidays of the joined request, each once. */
  lemma AdjacentRequests(trading: set<TradingDate>, a: DateRange, b: DateRange)
    requires a.Valid() && b.Valid() && a.end + 1 == b.start
    ensures Holidays(trading, a) + Holidays(trading, b) == Holidays(trading, DateRange(a.start, b.end))
  {
    hide DaysWhere;
    if trading != {} {
      var p := WithoutSession(trading);
      var first, last := First(trading), Last(trading);
      if last <= a.end {
        NoDays(p, ScanStart(trading, b), ScanEnd(trading, b));
      } else if first >= b.start {
        NoDays(p, ScanStart(trading, a), ScanEnd(trading, a));
      } else {
        Concatenates(p, ScanStart(trading, a), a.end, ScanEnd(trading, b));
      }
    }
  }
}
