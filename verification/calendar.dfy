/** Calendar dates as day numbers (day 1 is 0001-01-01), instants as microseconds of UTC,
    and the fixed-width ISO texts under which both are stored. */
module Calendar {
  import opened Text

  // ----- dates ---------------------------------------------------------------------

  const MAX_DATE := 3652059 // 9999-12-31

  type Date = n: int | 1 <= n <= MAX_DATE witness 1

  datatype Ymd = Ymd(y: nat, m: nat, d: nat)

  predicate IsLeap(y: nat) {
    y % 4 == 0 && (y % 100 != 0 || y % 400 == 0)
  }

  function DaysInMonth(y: nat, m: nat): nat {
    if m == 2 then (if IsLeap(y) then 29 else 28)
    else if m == 4 || m == 6 || m == 9 || m == 11 then 30
    else 31
  }

  predicate ValidYmd(p: Ymd) {
    1 <= p.y <= 9999 && 1 <= p.m <= 12 && 1 <= p.d <= DaysInMonth(p.y, p.m)
  }

  function Next(p: Ymd): Ymd {
    if p.d < DaysInMonth(p.y, p.m) then p.(d := p.d + 1)
    else if p.m < 12 then Ymd(p.y, p.m + 1, 1)
    else Ymd(p.y + 1, 1, 1)
  }

  /** The civil date of a day number, counted forward from day 1. */
  function Civil(n: int): Ymd
    requires n >= 1
  {
    if n == 1 then Ymd(1, 1, 1) else Next(Civil(n - 1))
  }

  function DaysBeforeYear(y: nat): int
    requires y >= 1
  {
    365 * (y - 1) + (y - 1) / 4 - (y - 1) / 100 + (y - 1) / 400
  }

  function DaysBeforeMonth(y: nat, m: nat): nat
    requires m >= 1
  {
    if m == 1 then 0 else DaysBeforeMonth(y, m - 1) + DaysInMonth(y, m - 1)
  }

  function DayNumber(p: Ymd): int
    requires p.y >= 1 && p.m >= 1
  {
    DaysBeforeYear(p.y) + DaysBeforeMonth(p.y, p.m) + p.d
  }

  lemma Quotient4(z: nat)
    ensures (z + 1) / 4 == z / 4 + (if (z + 1) % 4 == 0 then 1 else 0)
  {
  }

  lemma Quotient100(z: nat)
    ensures (z + 1) / 100 == z / 100 + (if (z + 1) % 100 == 0 then 1 else 0)
  {
  }

  lemma Quotient400(z: nat)
    ensures (z + 1) / 400 == z / 400 + (if (z + 1) % 400 == 0 then 1 else 0)
  {
  }

  lemma FourTimes(k: nat)
    ensures 4 * k % 4 == 0
  {
  }

  lemma HundredTimes(k: nat)
    ensures 100 * k % 100 == 0
  {
  }

  lemma HundredsAreFours(y: nat)
    ensures y % 100 == 0 ==> y % 4 == 0
  {
    FourTimes(25 * (y / 100));
    assert y == 100 * (y / 100) + y % 100;
  }

  lemma FourHundredsAreHundreds(y: nat)
    ensures y % 400 == 0 ==> y % 100 == 0
  {
    HundredTimes(4 * (y / 400));
    assert y == 400 * (y / 400) + y % 400;
  }

  lemma YearLength(y: nat)
    requires y >= 1
    ensures DaysBeforeYear(y + 1) == DaysBeforeYear(y) + (if IsLeap(y) then 366 else 365)
  {
    Quotient4(y - 1);
    Quotient100(y - 1);
    Quotient400(y - 1);
    HundredsAreFours(y);
    FourHundredsAreHundreds(y);
  }

  lemma MonthsFillYear(y: nat)
    ensures DaysBeforeMonth(y, 12) + DaysInMonth(y, 12) == if IsLeap(y) then 366 else 365
  {
    assert DaysBeforeMonth(y, 2) == 31;
    assert DaysBeforeMonth(y, 3) == 31 + DaysInMonth(y, 2);
    assert DaysBeforeMonth(y, 4) == DaysBeforeMonth(y, 3) + 31;
    assert DaysBeforeMonth(y, 5) == DaysBeforeMonth(y, 4) + 30;
    assert DaysBeforeMonth(y, 6) == DaysBeforeMonth(y, 5) + 31;
    assert DaysBeforeMonth(y, 7) == DaysBeforeMonth(y, 6) + 30;
    assert DaysBeforeMonth(y, 8) == DaysBeforeMonth(y, 7) + 31;
    assert DaysBeforeMonth(y, 9) == DaysBeforeMonth(y, 8) + 31;
    assert DaysBeforeMonth(y, 10) == DaysBeforeMonth(y, 9) + 30;
    assert DaysBeforeMonth(y, 11) == DaysBeforeMonth(y, 10) + 31;
    assert DaysBeforeMonth(y, 12) == DaysBeforeMonth(y, 11) + 30;
  }

  predicate Proper(p: Ymd) {
    1 <= p.y && 1 <= p.m <= 12 && 1 <= p.d <= DaysInMonth(p.y, p.m)
  }

  lemma NextDayNumber(p: Ymd)
    requires Proper(p)
    ensures Proper(Next(p)) && DayNumber(Next(p)) == DayNumber(p) + 1
  {
    YearLength(p.y);
    MonthsFillYear(p.y);
  }

  /** The months of the Gregorian calendar, and its leap years. */
  lemma MonthsAnchored(y: nat, m: nat)
    requires 1 <= m < 12 && y >= 1
    ensures var leap := (y % 4 == 0 && y % 100 != 0) || y % 400 == 0;
            DayNumber(Ymd(y, m + 1, 1)) - DayNumber(Ymd(y, m, 1))
            == [31, if leap then 29 else 28, 31, 30, 31, 30, 31, 31, 30, 31, 30][m - 1]
    ensures DayNumber(Ymd(y + 1, 1, 1)) - DayNumber(Ymd(y, 12, 1)) == 31
  {
    hide DaysBeforeYear;
    YearLength(y);
    MonthsFillYear(y);
    assert DaysBeforeMonth(y, m + 1) == DaysBeforeMonth(y, m) + DaysInMonth(y, m);
  }

  /** The closed formula for the day number undoes the count. */
  lemma {:induction false} DayNumberCivil(n: int)
    requires n >= 1
    ensures Proper(Civil(n)) && DayNumber(Civil(n)) == n
  {
    if n == 1 {
    } else {
      DayNumberCivil(n - 1);
      NextDayNumber(Civil(n - 1));
    }
  }

  lemma {:induction false} YearBound(y: nat)
    requires y >= 1
    ensures y >= 10000 ==> DaysBeforeYear(y) >= MAX_DATE
  {
    if y > 10000 {
      YearBound(y - 1);
      YearLength(y - 1);
    }
  }

  lemma CivilValid(n: Date)
    ensures ValidYmd(Civil(n)) && DayNumber(Civil(n)) == n
  {
    DayNumberCivil(n);
    YearBound(Civil(n).y);
  }

  lemma {:induction false} YearsAscend(y: nat, z: nat)
    requires 1 <= y <= z
    ensures DaysBeforeYear(y) <= DaysBeforeYear(z)
  {
    if y == z {
    } else {
      YearsAscend(y, z - 1);
      YearLength(z - 1);
    }
  }

  lemma {:induction false} MonthsAscend(y: nat, m: nat, k: nat)
    requires 1 <= m < k
    ensures DaysBeforeMonth(y, m) + DaysInMonth(y, m) <= DaysBeforeMonth(y, k)
    decreases k
  {
    if m < k - 1 {
      MonthsAscend(y, m, k - 1);
    }
  }

  lemma WithinYear(p: Ymd)
    requires Proper(p)
    ensures DaysBeforeYear(p.y) < DayNumber(p) <= DaysBeforeYear(p.y + 1)
  {
    YearLength(p.y);
    MonthsFillYear(p.y);
    if p.m < 12 {
      MonthsAscend(p.y, p.m, 12);
    }
  }

  /** The day number of a valid civil date is a date. */
  function DayOf(p: Ymd): Date
    requires ValidYmd(p)
  {
    WithinYear(p);
    YearsAscend(1, p.y);
    YearsAscend(p.y + 1, 10000);
    DayNumber(p)
  }

  predicate Before(p: Ymd, q: Ymd) {
    p.y < q.y || (p.y == q.y && (p.m < q.m || (p.m == q.m && p.d < q.d)))
  }

  /** Day numbers follow the calendar. */
  lemma DayNumberOrder(p: Ymd, q: Ymd)
    requires Proper(p) && Proper(q) && Before(p, q)
    ensures DayNumber(p) < DayNumber(q)
  {
    WithinYear(p);
    WithinYear(q);
    if p.y < q.y {
      YearsAscend(p.y + 1, q.y);
    } else if p.m < q.m {
      MonthsAscend(p.y, p.m, q.m);
    }
  }

  lemma {:induction false} CivilOrder(n: int, k: int)
    requires 1 <= n < k
    ensures Before(Civil(n), Civil(k))
    decreases k
  {
    DayNumberCivil(k - 1);
    if n < k - 1 {
      CivilOrder(n, k - 1);
    }
  }

  /** `date.isoformat()` */
  function IsoDate(n: Date): (s: string)
    ensures |s| == 10
  {
    var p := Civil(n);
    Pad(p.y, 4) + "-" + Pad(p.m, 2) + "-" + Pad(p.d, 2)
  }

  /** `date.fromisoformat(s)` on the extended form; `None` stands for ValueError. */
  function ParseDate(s: string): Option<Date> {
    if |s| == 10 && s[4] == '-' && s[7] == '-' then
      var y :- ParseNat(s[..4]);
      var m :- ParseNat(s[5..7]);
      var d :- ParseNat(s[8..]);
      if ValidYmd(Ymd(y, m, d)) then Some(DayOf(Ymd(y, m, d))) else None
    else None
  }

  lemma Powers()
    ensures Power10(2) == 100 && Power10(4) == 10000 && Power10(6) == 1000000
  {
    assert Power10(1) == 10 && Power10(3) == 1000 && Power10(5) == 100000;
  }

  lemma ParseIsoDate(n: Date)
    ensures ParseDate(IsoDate(n)) == Some(n)
  {
    hide Civil, Pad, ParseNat, Power10, DaysBeforeMonth, DaysBeforeYear;
    CivilValid(n);
    var p, s := Civil(n), IsoDate(n);
    Powers();
    assert s[..4] == Pad(p.y, 4) && s[5..7] == Pad(p.m, 2) && s[8..] == Pad(p.d, 2);
    ParsePad(p.y, 4);
    ParsePad(p.m, 2);
    ParsePad(p.d, 2);
  }

  /** Year, month and day, in that order, between hyphens. */
  lemma IsoDateText(n: Date)
    ensures var (s, p) := (IsoDate(n), Civil(n));
            && s[4] == '-' && s[7] == '-'
            && ParseNat(s[..4]) == Some(p.y) && ParseNat(s[5..7]) == Some(p.m) && ParseNat(s[8..]) == Some(p.d)
  {
    hide Civil, Pad, ParseNat, Power10, DaysBeforeMonth, DaysBeforeYear;
    CivilValid(n);
    var p, s := Civil(n), IsoDate(n);
    Powers();
    assert s[..4] == Pad(p.y, 4) && s[5..7] == Pad(p.m, 2) && s[8..] == Pad(p.d, 2);
    ParsePad(p.y, 4);
    ParsePad(p.m, 2);
    ParsePad(p.d, 2);
  }

  lemma IsoDateInjective(n: Date, k: Date)
    ensures IsoDate(n) == IsoDate(k) <==> n == k
  {
    ParseIsoDate(n);
    ParseIsoDate(k);
  }

  lemma YmdTextOrder(p: Ymd, q: Ymd)
    requires ValidYmd(p) && ValidYmd(q) && Before(p, q)
    ensures Less(Pad(p.y, 4) + "-" + Pad(p.m, 2) + "-" + Pad(p.d, 2),
                 Pad(q.y, 4) + "-" + Pad(q.m, 2) + "-" + Pad(q.d, 2))
  {
    Powers();
    PadOrder(p.y, q.y, 4);
    PadOrder(p.m, q.m, 2);
    PadOrder(p.d, q.d, 2);
    LessConcat(Pad(p.y, 4) + "-" + Pad(p.m, 2) + "-", Pad(q.y, 4) + "-" + Pad(q.m, 2) + "-",
               Pad(p.d, 2), Pad(q.d, 2));
    LessConcat(Pad(p.y, 4) + "-" + Pad(p.m, 2), Pad(q.y, 4) + "-" + Pad(q.m, 2), "-", "-");
    LessConcat(Pad(p.y, 4) + "-", Pad(q.y, 4) + "-", Pad(p.m, 2), Pad(q.m, 2));
    LessConcat(Pad(p.y, 4), Pad(q.y, 4), "-", "-");
  }

  /** Text order of stored dates is calendar order. */
  lemma IsoDateOrder(n: Date, k: Date)
    ensures Less(IsoDate(n), IsoDate(k)) <==> n < k
  {
    CivilValid(n);
    CivilValid(k);
    if n < k {
      CivilOrder(n, k);
      YmdTextOrder(Civil(n), Civil(k));
    } else {
      if k < n {
        CivilOrder(k, n);
        YmdTextOrder(Civil(k), Civil(n));
        if Less(IsoDate(n), IsoDate(k)) {
          LessTransitive(IsoDate(n), IsoDate(k), IsoDate(n));
        }
      }
      LessIrreflexive(IsoDate(n));
    }
  }

  lemma IsoDateAtMost(n: Date, k: Date)
    ensures AtMost(IsoDate(n), IsoDate(k)) <==> n <= k
  {
    IsoDateOrder(n, k);
    IsoDateInjective(n, k);
  }

  /** `date.weekday()`: Monday is 0, and day 1 is a Monday. */
  function Weekday(n: Date): nat {
    (n + 6) % 7
  }

  /** An inclusive range; constructing one that starts after its end raises. */
  datatype DateRange = DateRange(start: Date, end: Date) {
    predicate Valid() { start <= end }

    predicate Contains(day: Date) { start <= day <= end }
  }

  const ALL_DAYS := DateRange(1, MAX_DATE)

  // ----- instants ------------------------------------------------------------------

  const DAY := 86_400_000_000
  const MIN_INSTANT := 364877 * DAY // 1000-01-01, the first year that strftime writes with four digits
  const MAX_INSTANT := MAX_DATE * DAY

  type Instant = t: int | MIN_INSTANT <= t < MAX_INSTANT witness MIN_INSTANT

  /** `t.date()` */
  function DateOf(t: Instant): Date {
    t / DAY + 1
  }

  function MinuteText(x: nat): (s: string)
    ensures |s| == 5
  {
    Pad(x / 60, 2) + ":" + Pad(x % 60, 2)
  }

  function SecondText(x: nat): (s: string)
    ensures |s| == 8
  {
    MinuteText(x / 60) + ":" + Pad(x % 60, 2)
  }

  function TimeText(x: nat): (s: string)
    ensures |s| == 15
  {
    SecondText(x / 1_000_000) + "." + Pad(x % 1_000_000, 6)
  }

  /** `dt_to_iso(t)` */
  function IsoInstant(t: Instant): (s: string)
    ensures |s| == 32
  {
    IsoDate(DateOf(t)) + "T" + TimeText(t % DAY) + "+00:00"
  }

  function ParseTime(s: string): Option<nat>
    requires |s| == 15
  {
    if s[2] == ':' && s[5] == ':' && s[8] == '.' then
      var h :- ParseNat(s[..2]);
      var m :- ParseNat(s[3..5]);
      var c :- ParseNat(s[6..8]);
      var u :- ParseNat(s[9..]);
      if h < 24 && m < 60 && c < 60 then Some(((h * 60 + m) * 60 + c) * 1_000_000 + u) else None
    else None
  }

  /** `dt_from_iso(s)` on the stored form. */
  function ParseInstant(s: string): Option<Instant> {
    if |s| == 32 && s[10] == 'T' && s[26..] == "+00:00" then
      var n :- ParseDate(s[..10]);
      var x :- ParseTime(s[11..26]);
      var t := (n - 1) * DAY + x;
      if MIN_INSTANT <= t < MAX_INSTANT then Some(t) else None
    else None
  }

  lemma ParseTimeText(x: nat)
    requires x < DAY
    ensures ParseTime(TimeText(x)) == Some(x)
  {
    Powers();
    var s := TimeText(x);
    var c := x / 1_000_000;
    var m := c / 60;
    assert m / 60 < 24;
    assert s[..2] == Pad(m / 60, 2);
    assert s[3..5] == Pad(m % 60, 2);
    assert s[6..8] == Pad(c % 60, 2);
    assert s[9..] == Pad(x % 1_000_000, 6);
    ParsePad(m / 60, 2);
    ParsePad(m % 60, 2);
    ParsePad(c % 60, 2);
    ParsePad(x % 1_000_000, 6);
  }

  lemma InstantParts(t: Instant)
    ensures 0 <= t % DAY < DAY && (DateOf(t) - 1) * DAY + t % DAY == t
  {
  }

  /** The datetime printer and parser undo each other to the microsecond. */
  lemma ParseIsoInstant(t: Instant)
    ensures ParseInstant(IsoInstant(t)) == Some(t)
  {
    hide IsoDate, ParseDate, TimeText, ParseTime, DateOf;
    var s := IsoInstant(t);
    assert s[..10] == IsoDate(DateOf(t));
    assert s[11..26] == TimeText(t % DAY);
    assert s[26..] == "+00:00";
    ParseIsoDate(DateOf(t));
    InstantParts(t);
    ParseTimeText(t % DAY);
  }

  lemma TimeTextParts(x: nat)
    requires x < DAY
    ensures var (s, c) := (TimeText(x), x / 1_000_000);
            && s[2] == ':' && s[5] == ':' && s[8] == '.'
            && ParseNat(s[..2]) == Some(c / 60 / 60) && ParseNat(s[3..5]) == Some(c / 60 % 60)
            && ParseNat(s[6..8]) == Some(c % 60) && ParseNat(s[9..]) == Some(x % 1_000_000)
  {
    hide Pad, ParseNat, Power10;
    Powers();
    var s, c := TimeText(x), x / 1_000_000;
    var m := c / 60;
    assert m / 60 < 24;
    assert s[..2] == Pad(m / 60, 2) && s[3..5] == Pad(m % 60, 2) && s[6..8] == Pad(c % 60, 2);
    assert s[9..] == Pad(x % 1_000_000, 6);
    ParsePad(m / 60, 2);
    ParsePad(m % 60, 2);
    ParsePad(c % 60, 2);
    ParsePad(x % 1_000_000, 6);
  }

  /** The UTC date, then hours, minutes, seconds and microseconds of that day. */
  lemma IsoInstantText(t: Instant)
    ensures var s, x := IsoInstant(t), t - (DateOf(t) - 1) * 86_400_000_000;
            && 0 <= x < 86_400_000_000 && s[..10] == IsoDate(DateOf(t))
            && s[10] == 'T' && s[13] == ':' && s[16] == ':' && s[19] == '.' && s[26..] == "+00:00"
            && ParseNat(s[11..13]) == Some(x / 1_000_000 / 60 / 60)
            && ParseNat(s[14..16]) == Some(x / 1_000_000 / 60 % 60)
            && ParseNat(s[17..19]) == Some(x / 1_000_000 % 60) && ParseNat(s[20..26]) == Some(x % 1_000_000)
  {
    hide IsoDate, DateOf, ParseNat, TimeText;
    InstantParts(t);
    var s, x := IsoInstant(t), t % DAY;
    var time := TimeText(x);
    TimeTextParts(x);
    assert s[11..26] == time;
    assert s[11..13] == time[..2] && s[14..16] == time[3..5] && s[17..19] == time[6..8] && s[20..26] == time[9..];
    assert s[13] == time[2] && s[16] == time[5] && s[19] == time[8];
  }

  lemma IsoInstantInjective(t: Instant, u: Instant)
    ensures IsoInstant(t) == IsoInstant(u) <==> t == u
  {
    ParseIsoInstant(t);
    ParseIsoInstant(u);
  }

  lemma PrefixCut(a: string, b: string, c: string)
    ensures a + c == b + c <==> a == b
  {
    if a + c == b + c {
      assert |a| == |b|;
      assert a == (a + c)[..|a|] && b == (b + c)[..|b|];
    }
  }

  lemma MinuteOrder(x: nat, y: nat)
    requires x < 1440 && y < 1440
    ensures Less(MinuteText(x), MinuteText(y)) <==> x < y
  {
    Powers();
    PadOrder(x / 60, y / 60, 2);
    PadInjective(x / 60, y / 60, 2);
    PadOrder(x % 60, y % 60, 2);
    LessConcat(Pad(x / 60, 2) + ":", Pad(y / 60, 2) + ":", Pad(x % 60, 2), Pad(y % 60, 2));
    LessConcat(Pad(x / 60, 2), Pad(y / 60, 2), ":", ":");
    PrefixCut(Pad(x / 60, 2), Pad(y / 60, 2), ":");
  }

  lemma SecondOrder(x: nat, y: nat)
    requires x < 86400 && y < 86400
    ensures Less(SecondText(x), SecondText(y)) <==> x < y
    ensures MinuteText(x / 60) == MinuteText(y / 60) <==> x / 60 == y / 60
  {
    Powers();
    MinuteOrder(x / 60, y / 60);
    MinuteOrder(y / 60, x / 60);
    LessIrreflexive(MinuteText(x / 60));
    PadOrder(x % 60, y % 60, 2);
    LessConcat(MinuteText(x / 60) + ":", MinuteText(y / 60) + ":", Pad(x % 60, 2), Pad(y % 60, 2));
    LessConcat(MinuteText(x / 60), MinuteText(y / 60), ":", ":");
    PrefixCut(MinuteText(x / 60), MinuteText(y / 60), ":");
  }

  lemma TimeOrder(x: nat, y: nat)
    requires x < DAY && y < DAY
    ensures Less(TimeText(x), TimeText(y)) <==> x < y
  {
    Powers();
    var a, b := x / 1_000_000, y / 1_000_000;
    SecondOrder(a, b);
    SecondOrder(b, a);
    LessIrreflexive(SecondText(a));
    PadOrder(x % 1_000_000, y % 1_000_000, 6);
    LessConcat(SecondText(a) + ".", SecondText(b) + ".", Pad(x % 1_000_000, 6), Pad(y % 1_000_000, 6));
    LessConcat(SecondText(a), SecondText(b), ".", ".");
    PrefixCut(SecondText(a), SecondText(b), ".");
  }

  /** Text order of stored datetimes is chronological order. */
  lemma IsoInstantOrder(t: Instant, u: Instant)
    ensures Less(IsoInstant(t), IsoInstant(u)) <==> t < u
  {
    var a, b := DateOf(t), DateOf(u);
    var x, y := t % DAY, u % DAY;
    IsoDateOrder(a, b);
    IsoDateInjective(a, b);
    TimeOrder(x, y);
    TimeOrder(y, x);
    LessIrreflexive(TimeText(x));
    LessConcat(IsoDate(a) + "T" + TimeText(x), IsoDate(b) + "T" + TimeText(y), "+00:00", "+00:00");
    LessIrreflexive("+00:00");
    LessConcat(IsoDate(a) + "T", IsoDate(b) + "T", TimeText(x), TimeText(y));
    LessConcat(IsoDate(a), IsoDate(b), "T", "T");
    LessIrreflexive("T");
    PrefixCut(IsoDate(a), IsoDate(b), "T");
  }
}
