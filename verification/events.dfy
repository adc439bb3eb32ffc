/** The canonical events, and the identifiers derived from their natural keys. */
module Events {
  import opened Text
  import opened Calendar

  /** A JSON value. Numbers are reals; NaN and the int/float distinction are not modelled. */
  datatype Json =
    | JNull
    | JBool(b: bool)
    | JNumber(n: real)
    | JText(s: string)
    | JArray(items: seq<Json>)
    | JObject(fields: map<string, Json>)

  datatype EventType = HolidayType | DstChangeType | ExpiryType | ReleaseType

  datatype SessionType = FullClose | HalfDay | SpecialSession

  /** What the four event classes add to the common fields. */
  datatype Detail =
    | Holiday(holidayName: string, sessionType: SessionType, affectedSegments: seq<string>)
    | DstChange(region: string, oldOffset: string, newOffset: string, zone: string)
    | Expiry(instrumentType: string, underlying: string, series: string,
             expiryDate: Date, rolloverTo: Option<Date>, isRevised: bool)
    | Release(releaseName: string, code: string, agency: string, period: string,
              forecast: Option<real>, previous: Option<real>, actual: Option<real>,
              revision: Option<real>, unit: string, country: Option<string>)

  datatype Event = Event(
    id: string, source: string, exchange: Option<string>, date: Date,
    timestampUtc: Option<Instant>, rawId: Option<string>,
    ingestedAt: Option<Instant>, updatedAt: Option<Instant>,
    metadata: map<string, Json>, detail: Detail)

  function TypeOf(e: Event): EventType {
    match e.detail
    case Holiday(_, _, _) => HolidayType
    case DstChange(_, _, _, _) => DstChangeType
    case Expiry(_, _, _, _, _, _) => ExpiryType
    case Release(_, _, _, _, _, _, _, _, _, _) => ReleaseType
  }

  /** `str(event_type)` */
  function TypeName(t: EventType): string {
    match t
    case HolidayType => "holiday"
    case DstChangeType => "dst_change"
    case ExpiryType => "expiry"
    case ReleaseType => "economic_release"
  }

  /** `EventType(s)`; `None` stands for ValueError. */
  function ParseType(s: string): (r: Option<EventType>)
    ensures r.Some? ==> TypeName(r.value) == s
  {
    if s == "holiday" then Some(HolidayType)
    else if s == "dst_change" then Some(DstChangeType)
    else if s == "expiry" then Some(ExpiryType)
    else if s == "economic_release" then Some(ReleaseType)
    else None
  }

  lemma ParseTypeName(t: EventType)
    ensures ParseType(TypeName(t)) == Some(t)
  {
    assert |TypeName(HolidayType)| == 7 && |TypeName(DstChangeType)| == 10;
    assert |TypeName(ExpiryType)| == 6 && |TypeName(ReleaseType)| == 16;
  }

  lemma TypeNameInjective(t: EventType, u: EventType)
    ensures TypeName(t) == TypeName(u) <==> t == u
  {
    ParseTypeName(t);
    ParseTypeName(u);
  }

  /** `discriminator()` */
  function Discriminator(d: Detail): string {
    match d
    case Holiday(name, _, _) => name
    case DstChange(_, _, _, zone) => zone
    case Expiry(_, underlying, series, _, _, _) => underlying + ":" + series
    case Release(_, code, _, _, _, _, _, _, _, _) => code
  }

  // ----- identifiers ---------------------------------------------------------------

  /** Stands in for SHA-256: an injective encoding into texts without a colon. Nothing else
      about it is used. */
  function Digest(s: string): string {
    if s == [] then [] else Pad(s[0] as int, 7) + Digest(s[1..])
  }

  lemma DigestInjectiveStep(s: string, t: string)
    requires s != [] && Digest(s) == Digest(t)
    ensures t != [] && s[0] == t[0] && Digest(s[1..]) == Digest(t[1..])
  {
    assert |Digest(s)| >= 7;
    assert Digest(s)[..7] == Pad(s[0] as int, 7) && Digest(t)[..7] == Pad(t[0] as int, 7);
    assert Digest(s)[7..] == Digest(s[1..]) && Digest(t)[7..] == Digest(t[1..]);
    assert Power10(7) == 10_000_000 by { Powers(); assert Power10(7) == 10 * Power10(6); }
    PadInjective(s[0] as int, t[0] as int, 7);
  }

  lemma {:induction false} DigestInjective(s: string, t: string)
    requires Digest(s) == Digest(t)
    ensures s == t
  {
    assert Power10(7) == 10_000_000 by { Powers(); assert Power10(7) == 10 * Power10(6); }
    if s != [] {
      DigestInjectiveStep(s, t);
      DigestInjective(s[1..], t[1..]);
      assert s == [s[0]] + s[1..] && t == [t[0]] + t[1..];
    } else {
      assert |Digest(t)| == 0;
    }
  }

  lemma {:induction false} DigestHasNoColon(s: string)
    ensures ':' !in Digest(s)
    ensures s != [] ==> Digest(s) != []
  {
    if s == [] {
    } else {
      DigestHasNoColon(s[1..]);
    }
  }

  /** The text hashed by `make_event_id`. */
  function NaturalKey(source: string, t: EventType, exchange: Option<string>, date: Date, disc: string): string {
    source + ":" + (TypeName(t) + ":" + (exchange.GetOr("") + ":" + (IsoDate(date) + ":" + disc)))
  }

  function EventKey(e: Event): string {
    NaturalKey(e.source, TypeOf(e), e.exchange, e.date, Discriminator(e.detail))
  }

  /** `Event.__post_init__`: a missing id is derived from the natural key. */
  function Constructed(e: Event): Event {
    if e.id == "" then e.(id := Digest(EventKey(e))) else e
  }

  predicate DerivedId(e: Event) {
    e.id == Digest(EventKey(e))
  }

  predicate ColonFree(e: Event) {
    ':' !in e.source && ':' !in e.exchange.GetOr("")
  }

  lemma TypeNameHasNoColon(t: EventType)
    ensures ':' !in TypeName(t)
  {
  }

  lemma IsoDateHasNoColon(d: Date)
    ensures ':' !in IsoDate(d)
  {
  }

  /** The derived id determines every component of the natural key. */
  lemma EventIdDeterminesKey(a: Event, b: Event)
    requires DerivedId(a) && DerivedId(b) && ColonFree(a) && ColonFree(b)
    requires a.id == b.id
    ensures a.source == b.source && TypeOf(a) == TypeOf(b) && a.exchange.GetOr("") == b.exchange.GetOr("")
    ensures a.date == b.date && Discriminator(a.detail) == Discriminator(b.detail)
  {
    DigestInjective(EventKey(a), EventKey(b));
    var a3, b3 := IsoDate(a.date) + ":" + Discriminator(a.detail), IsoDate(b.date) + ":" + Discriminator(b.detail);
    var a2, b2 := a.exchange.GetOr("") + ":" + a3, b.exchange.GetOr("") + ":" + b3;
    var a1, b1 := TypeName(TypeOf(a)) + ":" + a2, TypeName(TypeOf(b)) + ":" + b2;
    CutUnique(a.source, a1, b.source, b1, ':');
    TypeNameHasNoColon(TypeOf(a));
    TypeNameHasNoColon(TypeOf(b));
    CutUnique(TypeName(TypeOf(a)), a2, TypeName(TypeOf(b)), b2, ':');
    TypeNameInjective(TypeOf(a), TypeOf(b));
    CutUnique(a.exchange.GetOr(""), a3, b.exchange.GetOr(""), b3, ':');
    IsoDateHasNoColon(a.date);
    IsoDateHasNoColon(b.date);
    CutUnique(IsoDate(a.date), Discriminator(a.detail), IsoDate(b.date), Discriminator(b.detail), ':');
    IsoDateInjective(a.date, b.date);
  }

  /** The class, and what tells two events of it apart on one day: the holiday's name, the zone, the
      underlying and series, or the release code. */
  predicate SameOccasion(a: Detail, b: Detail) {
    match a
    case Holiday(name, _, _) => b.Holiday? && name == b.holidayName
    case DstChange(_, _, _, zone) => b.DstChange? && zone == b.zone
    case Expiry(_, underlying, series, _, _, _) =>
      b.Expiry? && underlying + ":" + series == b.underlying + ":" + b.series
    case Release(_, code, _, _, _, _, _, _, _, _) => b.Release? && code == b.code
  }

  /** Without colons in source and exchange, events constructed without an id get one id exactly when
      they agree in source, exchange (none counting as empty), date, and that. */
  lemma EventIdExactly(a: Event, b: Event)
    requires a.id == b.id == "" && ColonFree(a) && ColonFree(b)
    ensures Constructed(a).id == Constructed(b).id <==>
            && a.source == b.source && a.exchange.GetOr("") == b.exchange.GetOr("") && a.date == b.date
            && SameOccasion(a.detail, b.detail)
    ensures Constructed(a) == a.(id := Constructed(a).id) && ':' !in Constructed(a).id && Constructed(a).id != ""
  {
    hide Digest;
    var x, y := Constructed(a), Constructed(b);
    assert EventKey(x) == EventKey(a) && EventKey(y) == EventKey(b);
    DigestHasNoColon(EventKey(a));
    if x.id == y.id {
      EventIdDeterminesKey(x, y);
    }
  }

  /** A colon inside the exchange breaks this: two different keys give one text. */
  lemma ColonInExchangeCollides(source: string, t: EventType, d1: Date, d2: Date, disc: string)
    ensures NaturalKey(source, t, Some(""), d1, IsoDate(d2) + ":" + disc)
         == NaturalKey(source, t, Some(":" + IsoDate(d1)), d2, disc)
  {
    var tail := IsoDate(d2) + ":" + disc;
    assert "" + ":" + (IsoDate(d1) + ":" + tail) == (":" + IsoDate(d1)) + ":" + tail;
  }

  /** The components of a natural key other than the exchange. */
  datatype KeyRest = KeyRest(source: string, t: EventType, date: Date, disc: string)

  function KeyOn(exchange: string, k: KeyRest): string {
    NaturalKey(k.source, k.t, Some(exchange), k.date, k.disc)
  }

  /** Two exchanges under which events of colon-free sources can share a key text. */
  ghost predicate CanCollide(x: string, y: string) {
    exists k: KeyRest, l: KeyRest :: ':' !in k.source && ':' !in l.source && KeyOn(x, k) == KeyOn(y, l)
  }

  predicate ExtendsBy(x: string, y: string, d: Date, z: string) {
    (z == "" || z[0] == ':') && y == x + ":" + IsoDate(d) + z
  }

  /** `y` is `x`, a colon and an ISO date, followed by nothing or by another colon. */
  ghost predicate Extends(x: string, y: string) {
    exists d: Date, z: string :: ExtendsBy(x, y, d, z)
  }

  lemma KeysMeetAfterType(x: string, k: KeyRest, y: string, l: KeyRest)
    requires ':' !in k.source && ':' !in l.source && KeyOn(x, k) == KeyOn(y, l)
    ensures x + ":" + (IsoDate(k.date) + ":" + k.disc) == y + ":" + (IsoDate(l.date) + ":" + l.disc)
  {
    hide IsoDate;
    var a2, b2 := x + ":" + (IsoDate(k.date) + ":" + k.disc), y + ":" + (IsoDate(l.date) + ":" + l.disc);
    CutUnique(k.source, TypeName(k.t) + ":" + a2, l.source, TypeName(l.t) + ":" + b2, ':');
    TypeNameHasNoColon(k.t);
    TypeNameHasNoColon(l.t);
    CutUnique(TypeName(k.t), a2, TypeName(l.t), b2, ':');
  }

  lemma LongerExtends(x: string, y: string, d: Date, p: string, q: string)
    requires |x| < |y| && x + ":" + (IsoDate(d) + ":" + p) == y + ":" + q
    ensures Extends(x, y)
  {
    hide IsoDate;
    var s := x + ":" + (IsoDate(d) + ":" + p);
    var iso := IsoDate(d);
    IsoDateHasNoColon(d);
    assert s == y + ":" + q;
    assert y == s[..|y|] && x == s[..|x|] && s[|x|] == ':' && s[|y|] == ':';
    var u := iso + ":" + p;
    assert s[|x| + 1..] == u;
    assert forall n :: 0 <= n < 10 ==> u[n] == iso[n] && u[n] in iso;
    var w := |y| - |x| - 1;
    assert u[w] == s[|x| + 1 + w];
    assert w >= 10;
    var z := y[|x| + 11..];
    assert y == x + ":" + u[..w] && u[..w] == iso + u[10..w] && z == u[10..w];
    assert z == "" || z[0] == u[10];
    assert ExtendsBy(x, y, d, z);
  }

  lemma ExtensionCollides(x: string, y: string, k: KeyRest)
    requires Extends(x, y) && ':' !in k.source
    ensures CanCollide(x, y) && CanCollide(y, x)
  {
    hide IsoDate;
    var d: Date, z: string :| ExtendsBy(x, y, d, z);
    var tail := IsoDate(k.date) + ":" + k.disc;
    var disc := if z == "" then tail else z[1..] + ":" + tail;
    var l := k.(date := d, disc := disc);
    assert z != "" ==> z == ":" + z[1..];
    assert y + ":" + tail == x + ":" + (IsoDate(d) + ":" + disc);
    assert KeyOn(x, l) == KeyOn(y, k);
  }

  lemma PrefixesDiffer(x: string, p: string, y: string, q: string)
    requires x != y && x + ":" + p == y + ":" + q
    ensures |x| != |y|
  {
    assert x == (x + ":" + p)[..|x|] && y == (y + ":" + q)[..|y|];
  }

  /** With colon-free sources two different exchanges can collide exactly when one extends the other
      by an ISO date. */
  lemma ExchangesCollideExactly(x: string, y: string)
    requires x != y
    ensures CanCollide(x, y) <==> Extends(x, y) || Extends(y, x)
  {
    hide IsoDate, Extends, KeyOn;
    var k := KeyRest("", HolidayType, 1, "");
    if Extends(x, y) {
      ExtensionCollides(x, y, k);
    }
    if Extends(y, x) {
      ExtensionCollides(y, x, k);
    }
    if CanCollide(x, y) {
      var k: KeyRest, l: KeyRest :| ':' !in k.source && ':' !in l.source && KeyOn(x, k) == KeyOn(y, l);
      KeysMeetAfterType(x, k, y, l);
      PrefixesDiffer(x, IsoDate(k.date) + ":" + k.disc, y, IsoDate(l.date) + ":" + l.disc);
      if |x| < |y| {
        LongerExtends(x, y, k.date, k.disc, IsoDate(l.date) + ":" + l.disc);
      } else if |y| < |x| {
        LongerExtends(y, x, l.date, l.disc, IsoDate(k.date) + ":" + k.disc);
      }
    }
  }

  /** `make_alert_id` */
  function AlertId(ruleId: string, eventId: string): string {
    Digest(ruleId + ":" + eventId)
  }

  /** Rule ids contain colons; the alert id still determines the pair, since event ids do not. */
  lemma AlertIdDeterminesPair(r1: string, e1: string, r2: string, e2: string)
    requires ':' !in e1 && ':' !in e2
    requires AlertId(r1, e1) == AlertId(r2, e2)
    ensures r1 == r2 && e1 == e2
  {
    var s, t := r1 + ":" + e1, r2 + ":" + e2;
    DigestInjective(s, t);
    assert s[|r1|] == ':' && s[|r2|] == ':';
    assert forall i :: |r1| < i < |s| ==> s[i] == e1[i - |r1| - 1] && s[i] in e1;
    assert forall i :: |r2| < i < |s| ==> s[i] == e2[i - |r2| - 1] && s[i] in e2;
    assert |r1| == |r2|;
    assert r1 == s[..|r1|] && r2 == s[..|r2|];
    assert e1 == s[|r1| + 1..] && e2 == s[|r2| + 1..];
  }
}
