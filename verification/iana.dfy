/** Clock changes of a time zone, found by comparing the UTC offset of consecutive days. */
module Iana {
  import opened Text
  import opened Calendar
  import opened DayScan

  /** The zone database: seconds east of UTC at noon of each day. */
  type Zone = Date -> Option<int>

  datatype ChangeRecord = ChangeRecord(
    zone: string, date: string, region: string, oldOffset: string, newOffset: string, starts: bool)

  // ----- offsets as text -----------------------------------------------------------

  function Magnitude(total: int): nat {
    if total >= 0 then total else -total
  }

  /** Hours, and minutes unless they are zero. */
  function Body(m: nat): string {
    NatText(m / 60) + (if m % 60 == 0 then "" else ":" + Pad(m % 60, 2))
  }

  /** `_format_offset` */
  function FormatOffset(delta: Option<int>): string {
    var total := delta.GetOr(0);
    "UTC" + (if total >= 0 then "+" else "-") + Body(Magnitude(total) / 60)
  }

  lemma BodyInjective(m: nat, k: nat)
    requires Body(m) == Body(k)
    ensures m == k
  {
    hide NatText, Pad;
    Powers();
    var a, b := NatText(m / 60), NatText(k / 60);
    NatTextRoundTrip(m / 60);
    NatTextRoundTrip(k / 60);
    assert ':' !in a && ':' !in b;
    var s, t := Body(m), Body(k);
    assert m % 60 != 0 ==> s[|a|] == ':';
    assert k % 60 != 0 ==> t[|b|] == ':';
    assert ':' in s <==> m % 60 != 0;
    assert ':' in t <==> k % 60 != 0;
    if m % 60 != 0 {
      assert s == a + [':'] + Pad(m % 60, 2) && t == b + [':'] + Pad(k % 60, 2);
      CutUnique(a, Pad(m % 60, 2), b, Pad(k % 60, 2), ':');
      PadInjective(m % 60, k % 60, 2);
    } else {
      assert s == a && t == b;
    }
    assert m / 60 == k / 60 && m % 60 == k % 60;
  }

  lemma BodyText(a: Option<int>)
    ensures var s := FormatOffset(a);
            && |s| >= 4 && s[..3] == "UTC" && s[3] == (if a.GetOr(0) >= 0 then '+' else '-')
            && s[4..] == Body(Magnitude(a.GetOr(0)) / 60)
            && s == s[..3] + [s[3]] + s[4..]
  {
  }

  /** Two offsets print alike exactly when they agree in sign and in whole minutes. */
  lemma FormatOffsetExactly(a: Option<int>, b: Option<int>)
    ensures FormatOffset(a) == FormatOffset(b) <==>
            && (a.GetOr(0) >= 0 <==> b.GetOr(0) >= 0)
            && Magnitude(a.GetOr(0)) / 60 == Magnitude(b.GetOr(0)) / 60
  {
    hide Body;
    var s, t := FormatOffset(a), FormatOffset(b);
    var m, k := Magnitude(a.GetOr(0)) / 60, Magnitude(b.GetOr(0)) / 60;
    BodyText(a);
    BodyText(b);
    if s == t {
      assert s[3] == t[3] && s[4..] == t[4..];
      BodyInjective(m, k);
    }
  }

  /** Reads a printed offset back, in seconds. */
  function ParseOffset(s: string): Option<int> {
    if |s| < 5 || s[..3] != "UTC" || s[3] !in {'+', '-'} then None
    else
      var body := s[4..];
      var i := FirstIndex(body, ':');
      var h :- ParseNat(body[..i]);
      var m :- if i < |body| then ParseNat(body[i + 1..]) else Some(0);
      Some(if s[3] == '+' then (60 * h + m) * 60 else -((60 * h + m) * 60))
  }

  /** Seconds cut off towards zero. */
  function WholeMinutePart(total: int): int {
    if total >= 0 then total / 60 * 60 else -(-total / 60 * 60)
  }

  lemma ReadBody(m: nat)
    ensures var body := Body(m); var i := FirstIndex(body, ':');
            && body != [] && ParseNat(body[..i]) == Some(m / 60)
            && (if i < |body| then ParseNat(body[i + 1..]) == Some(m % 60) else m % 60 == 0)
  {
    hide NatText, Pad, FirstIndex, ParseNat;
    Powers();
    var h, body := NatText(m / 60), Body(m);
    NatTextRoundTrip(m / 60);
    ParsePad(m % 60, 2);
    assert forall k :: 0 <= k < |h| ==> body[k] == h[k] && h[k] in h;
    assert h != [] by { NatTextNotEmpty(m / 60); }
    if m % 60 == 0 {
      assert body == h && FirstIndex(body, ':') == |h| && body[..|h|] == h;
    } else {
      assert body[|h|] == ':' && FirstIndex(body, ':') == |h|;
      assert body[..|h|] == h && body[|h| + 1..] == Pad(m % 60, 2);
    }
  }

  /** The printed offset reads back as the offset cut to whole minutes. */
  lemma FormatOffsetReads(a: Option<int>)
    ensures ParseOffset(FormatOffset(a)) == Some(WholeMinutePart(a.GetOr(0)))
  {
    hide Body, FormatOffset, FirstIndex, ParseNat;
    var m := Magnitude(a.GetOr(0)) / 60;
    BodyText(a);
    ReadBody(m);
    assert 60 * (m / 60) + m % 60 == m;
  }

  lemma DigitTexts()
    ensures NatText(0) == "0" && NatText(5) == "5" && NatText(12) == "12"
    ensures Pad(30, 2) == "30" && Pad(5, 2) == "05"
  {
    assert NatText(1) == "1";
    assert Pad(0, 0) == "" && Pad(3, 1) == "3" && Pad(0, 1) == "0";
  }

  /** Hours without padding, minutes with two digits and only when there are any. */
  lemma FormatOffsetShape()
    ensures FormatOffset(None) == "UTC+0" && FormatOffset(Some(-18000)) == "UTC-5"
    ensures FormatOffset(Some(19800)) == "UTC+5:30" && FormatOffset(Some(43500)) == "UTC+12:05"
  {
    hide NatText, Pad;
    DigitTexts();
  }

  predicate WholeMinutes(a: Option<int>) {
    a.Some? && a.value % 60 == 0
  }

  /** On whole-minute offsets the text is faithful. */
  lemma FormatOffsetInjective(a: Option<int>, b: Option<int>)
    requires WholeMinutes(a) && WholeMinutes(b)
    ensures FormatOffset(a) == FormatOffset(b) <==> a == b
  {
    hide FormatOffset;
    FormatOffsetExactly(a, b);
    assert Magnitude(a.value) % 60 == 0 && Magnitude(b.value) % 60 == 0;
  }

  /** A local-mean-time offset of odd seconds prints like the whole minutes next to zero. */
  lemma OddSecondsCollide()
    ensures FormatOffset(Some(-75)) == FormatOffset(Some(-60)) != FormatOffset(Some(75))
  {
    hide FormatOffset;
    FormatOffsetExactly(Some(-75), Some(-60));
    FormatOffsetExactly(Some(-60), Some(75));
  }

  // ----- the scan ------------------------------------------------------------------

  /** `zone_name.split("/", 1)[0]` */
  function Region(zone: string): string {
    if zone == [] || zone[0] == '/' then [] else [zone[0]] + Region(zone[1..])
  }

  function Changes(off: Zone): int -> bool {
    d => 2 <= d <= MAX_DATE && off(d) != off(d - 1)
  }

  function RecordAt(zone: string, off: Zone, d: Date): ChangeRecord
    requires d >= 2
  {
    ChangeRecord(zone, IsoDate(d), Region(zone), FormatOffset(off(d - 1)), FormatOffset(off(d)),
                 off(d).GetOr(0) > off(d - 1).GetOr(0))
  }

  function RecordsAt(zone: string, off: Zone, days: seq<int>): seq<ChangeRecord>
    requires forall i :: 0 <= i < |days| ==> 2 <= days[i] <= MAX_DATE
  {
    if days == [] then []
    else RecordsAt(zone, off, days[..|days| - 1]) + [RecordAt(zone, off, days[|days| - 1])]
  }

  function Scan(zone: string, off: Zone, lo: Date, hi: int): seq<ChangeRecord>
    requires 2 <= lo && hi <= MAX_DATE
  {
    RecordsAt(zone, off, DaysWhere(Changes(off), lo, hi))
  }

  lemma RecordsAtSnoc(zone: string, off: Zone, days: seq<int>, d: Date)
    requires forall i :: 0 <= i < |days| ==> 2 <= days[i] <= MAX_DATE
    requires d >= 2
    ensures RecordsAt(zone, off, days + [d]) == RecordsAt(zone, off, days) + [RecordAt(zone, off, d)]
  {
    hide RecordAt;
    assert (days + [d])[..|days|] == days;
  }

  lemma NoScan(zone: string, off: Zone, lo: Date)
    requires 2 <= lo
    ensures Scan(zone, off, lo, lo - 1) == []
  {
  }

  lemma ScanSnoc(zone: string, off: Zone, lo: Date, d: Date)
    requires 2 <= lo <= d
    ensures var front := Scan(zone, off, lo, d - 1);
            Scan(zone, off, lo, d) == if off(d) != off(d - 1) then front + [RecordAt(zone, off, d)] else front
  {
    hide RecordAt;
    RecordsAtSnoc(zone, off, DaysWhere(Changes(off), lo, d - 1), d);
  }

  /** `_transitions_for_zone`. Stepping off either end of the calendar raises OverflowError
      (`None`): the day before the first date, or the day after the last. */
  method TransitionsForZone(zone: string, off: Zone, range: DateRange) returns (out: Option<seq<ChangeRecord>>)
    requires range.Valid()
    ensures out == if range.start == 1 || range.end == MAX_DATE then None
                   else Some(Scan(zone, off, range.start, range.end))
  {
    hide Scan, IsoDate, FormatOffset, Region;
    var start := range.start;
    if start == 1 {
      return None;
    }
    var region := Region(zone);
    var records: seq<ChangeRecord> := [];
    var previous := off(start - 1);
    var day := start;
    NoScan(zone, off, start);
    while day <= range.end
      invariant start <= day <= range.end + 1 && day <= MAX_DATE
      invariant previous == off(day - 1)
      invariant records == Scan(zone, off, start, day - 1)
    {
      var offset := off(day);
      ScanSnoc(zone, off, start, day);
      if offset != previous {
        var starts := offset.GetOr(0) > previous.GetOr(0);
        records := records + [ChangeRecord(zone, IsoDate(day), region, FormatOffset(previous), FormatOffset(offset),
                                           starts)];
      }
      previous := offset;
      if day == MAX_DATE {
        return None;
      }
      day := day + 1;
    }
    out := Some(records);
  }

  // ----- what the records say ------------------------------------------------------

  /** The scan emits one record, in order, for exactly the days whose offset differs from the
      day before. */
  lemma EmitsExactlyChanges(off: Zone, lo: Date, hi: Date)
    requires 2 <= lo
    ensures Increasing(DaysWhere(Changes(off), lo, hi))
    ensures forall d: Date :: d in DaysWhere(Changes(off), lo, hi) <==> lo <= d <= hi && off(d) != off(d - 1)
  {
    hide DaysWhere, Increasing;
    KeepsExactly(Changes(off), lo, hi);
  }

  /** The part before the first slash, or all of it. */
  lemma {:induction false} RegionExactly(zone: string)
    ensures var r := Region(zone);
            && r <= zone && '/' !in r
            && (|r| < |zone| ==> zone[|r|] == '/')
  {
    if zone == [] || zone[0] == '/' {
    } else {
      RegionExactly(zone[1..]);
    }
  }

  /** The record says of day `d` when it is, in which zone, what the offsets were and are, and whether
      the clock went forward. */
  predicate RecordsChange(r: ChangeRecord, zone: string, off: Zone, d: Date)
    requires d >= 2
  {
    && r.zone == zone && r.region == Region(zone) && r.date == IsoDate(d)
    && r.oldOffset == FormatOffset(off(d - 1)) && r.newOffset == FormatOffset(off(d))
    && (r.starts <==> off(d).GetOr(0) > off(d - 1).GetOr(0))
  }

  lemma {:induction false} RecordsAtExactly(zone: string, off: Zone, days: seq<int>)
    requires forall i :: 0 <= i < |days| ==> 2 <= days[i] <= MAX_DATE
    ensures var out := RecordsAt(zone, off, days);
            |out| == |days| && forall i :: 0 <= i < |out| ==> RecordsChange(out[i], zone, off, days[i])
  {
    hide IsoDate, FormatOffset, Region;
    if days == [] {
    } else {
      RecordsAtExactly(zone, off, days[..|days| - 1]);
    }
  }

  /** The scan gives one record for each of the changes, in order. */
  lemma ScanRecords(zone: string, off: Zone, lo: Date, hi: Date)
    requires 2 <= lo
    ensures var days, out := DaysWhere(Changes(off), lo, hi), Scan(zone, off, lo, hi);
            |out| == |days| && forall i :: 0 <= i < |out| ==> RecordsChange(out[i], zone, off, days[i])
  {
    hide RecordsAt, RecordsChange;
    RecordsAtExactly(zone, off, DaysWhere(Changes(off), lo, hi));
  }

  lemma {:induction false} RecordsAtConcat(zone: string, off: Zone, a: seq<int>, b: seq<int>)
    requires forall i :: 0 <= i < |a| ==> 2 <= a[i] <= MAX_DATE
    requires forall i :: 0 <= i < |b| ==> 2 <= b[i] <= MAX_DATE
    ensures RecordsAt(zone, off, a + b) == RecordsAt(zone, off, a) + RecordsAt(zone, off, b)
  {
    hide RecordAt;
    if b == [] {
      assert a + b == a;
    } else {
      var front, d := b[..|b| - 1], b[|b| - 1];
      RecordsAtConcat(zone, off, a, front);
      assert a + b == (a + front) + [d];
      RecordsAtSnoc(zone, off, a + front, d);
    }
  }

  /** Scanning two adjacent ranges is scanning their union. */
  lemma AdjacentScans(zone: string, off: Zone, lo: Date, mid: Date, hi: Date)
    requires 2 <= lo <= mid < hi
    ensures Scan(zone, off, lo, mid) + Scan(zone, off, mid + 1, hi) == Scan(zone, off, lo, hi)
  {
    hide RecordsAt, Changes, DaysWhere;
    var p := Changes(off);
    Concatenates(p, lo, mid, hi);
    RecordsAtConcat(zone, off, DaysWhere(p, lo, mid), DaysWhere(p, mid + 1, hi));
  }

  /** The offset text in force on a date: that of the last record up to it. */
  function Replay(before: string, records: seq<ChangeRecord>, date: string): string {
    if records == [] then before
    else if AtMost(records[|records| - 1].date, date) then records[|records| - 1].newOffset
    else Replay(before, records[..|records| - 1], date)
  }

  /** Replaying the records from the offset before the range reproduces the offset of every
      day of it, and keeps the last one afterwards. */
  lemma {:induction false} ReplayReproduces(zone: string, off: Zone, lo: Date, hi: int, d: Date)
    requires 2 <= lo && lo - 1 <= hi <= MAX_DATE && lo - 1 <= d
    ensures Replay(FormatOffset(off(lo - 1)), Scan(zone, off, lo, hi), IsoDate(d))
         == FormatOffset(off(if d <= hi then d else hi))
    decreases hi - lo
  {
    hide Scan, FormatOffset, IsoDate, AtMost;
    if hi == lo - 1 {
      NoScan(zone, off, lo);
    } else {
      ReplayReproduces(zone, off, lo, hi - 1, d);
      ScanSnoc(zone, off, lo, hi);
      IsoDateAtMost(hi, d);
      var front := Scan(zone, off, lo, hi - 1);
      assert (front + [RecordAt(zone, off, hi)])[..|front|] == front;
    }
  }

  /** For a zone of whole-minute offsets the records determine the offset of every day. */
  lemma RecordsDetermineZone(zone: string, off: Zone, other: Zone, lo: Date, hi: Date, d: Date)
    requires 2 <= lo <= d <= hi
    requires forall x: Date :: WholeMinutes(off(x)) && WholeMinutes(other(x))
    requires off(lo - 1) == other(lo - 1) && Scan(zone, off, lo, hi) == Scan(zone, other, lo, hi)
    ensures off(d) == other(d)
  {
    hide Scan, FormatOffset, Replay;
    ReplayReproduces(zone, off, lo, hi, d);
    ReplayReproduces(zone, other, lo, hi, d);
    FormatOffsetInjective(off(d), other(d));
  }
}
