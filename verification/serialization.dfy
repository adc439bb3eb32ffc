/** Events to wire dictionaries and back, and the content hash taken over the wire form. */
module Serialization {
  import opened Text
  import opened Calendar
  import opened Events

  /** The keys of a serialized event. */
  datatype Field =
    | EventIdKey | EventTypeKey | SourceKey | ExchangeKey | DateKey | TimestampUtcKey
    | SourceRawIdKey | IngestedAtKey | UpdatedAtKey | MetadataKey
    | HolidayNameKey | SessionTypeKey | AffectedSegmentsKey
    | RegionKey | OldUtcOffsetKey | NewUtcOffsetKey | IanaZoneKey
    | InstrumentTypeKey | UnderlyingKey | SeriesKey | ExpiryDateKey | RolloverToKey | IsRevisedKey
    | ReleaseNameKey | ReleaseCodeKey | AgencyKey | PeriodKey | ForecastKey | PreviousKey
    | ActualKey | RevisionKey | UnitKey | CountryKey

  /** A serialized event. JSON text is identified with the value it encodes. */
  type Wire = map<Field, Json>

  // ----- to the wire ---------------------------------------------------------------

  function OptText(s: Option<string>): Json {
    if s.Some? then JText(s.value) else JNull
  }

  function OptInstant(t: Option<Instant>): Json {
    if t.Some? then JText(IsoInstant(t.value)) else JNull
  }

  function OptDate(d: Option<Date>): Json {
    if d.Some? then JText(IsoDate(d.value)) else JNull
  }

  function OptNumber(r: Option<real>): Json {
    if r.Some? then JNumber(r.value) else JNull
  }

  function TextItems(s: seq<string>): seq<Json> {
    if s == [] then [] else [JText(s[0])] + TextItems(s[1..])
  }

  function SessionName(t: SessionType): string {
    match t
    case FullClose => "full_close"
    case HalfDay => "half_day"
    case SpecialSession => "special_session"
  }

  predicate CommonKey(k: Field) {
    match k
    case EventIdKey | EventTypeKey | SourceKey | ExchangeKey | DateKey | TimestampUtcKey
      | SourceRawIdKey | IngestedAtKey | UpdatedAtKey | MetadataKey => true
    case _ => false
  }

  /** The keys that each event class adds. */
  predicate OwnKey(t: EventType, k: Field) {
    match t
    case HolidayType => k in {HolidayNameKey, SessionTypeKey, AffectedSegmentsKey}
    case DstChangeType => k in {RegionKey, OldUtcOffsetKey, NewUtcOffsetKey, IanaZoneKey}
    case ExpiryType =>
      k in {InstrumentTypeKey, UnderlyingKey, SeriesKey, ExpiryDateKey, RolloverToKey, IsRevisedKey}
    case ReleaseType =>
      k in {ReleaseNameKey, ReleaseCodeKey, AgencyKey, PeriodKey, ForecastKey, PreviousKey, ActualKey,
            RevisionKey, UnitKey, CountryKey}
  }

  /** `_common(event)` */
  function CommonValue(e: Event, k: Field): Json
    requires CommonKey(k)
  {
    match k
    case EventIdKey => JText(e.id)
    case EventTypeKey => JText(TypeName(TypeOf(e)))
    case SourceKey => JText(e.source)
    case ExchangeKey => OptText(e.exchange)
    case DateKey => JText(IsoDate(e.date))
    case TimestampUtcKey => OptInstant(e.timestampUtc)
    case SourceRawIdKey => OptText(e.rawId)
    case IngestedAtKey => OptInstant(e.ingestedAt)
    case UpdatedAtKey => OptInstant(e.updatedAt)
    case MetadataKey => JObject(e.metadata)
  }

  function HolidayValue(d: Detail, k: Field): Json
    requires d.Holiday? && OwnKey(HolidayType, k)
  {
    match k
    case HolidayNameKey => JText(d.holidayName)
    case SessionTypeKey => JText(SessionName(d.sessionType))
    case AffectedSegmentsKey => JArray(TextItems(d.affectedSegments))
  }

  function DstChangeValue(d: Detail, k: Field): Json
    requires d.DstChange? && OwnKey(DstChangeType, k)
  {
    match k
    case RegionKey => JText(d.region)
    case OldUtcOffsetKey => JText(d.oldOffset)
    case NewUtcOffsetKey => JText(d.newOffset)
    case IanaZoneKey => JText(d.zone)
  }

  function ExpiryValue(d: Detail, k: Field): Json
    requires d.Expiry? && OwnKey(ExpiryType, k)
  {
    match k
    case InstrumentTypeKey => JText(d.instrumentType)
    case UnderlyingKey => JText(d.underlying)
    case SeriesKey => JText(d.series)
    case ExpiryDateKey => JText(IsoDate(d.expiryDate))
    case RolloverToKey => OptDate(d.rolloverTo)
    case IsRevisedKey => JBool(d.isRevised)
  }

  function ReleaseValue(d: Detail, k: Field): Json
    requires d.Release? && OwnKey(ReleaseType, k)
  {
    match k
    case ReleaseNameKey => JText(d.releaseName)
    case ReleaseCodeKey => JText(d.code)
    case AgencyKey => JText(d.agency)
    case PeriodKey => JText(d.period)
    case ForecastKey => OptNumber(d.forecast)
    case PreviousKey => OptNumber(d.previous)
    case ActualKey => OptNumber(d.actual)
    case RevisionKey => OptNumber(d.revision)
    case UnitKey => JText(d.unit)
    case CountryKey => OptText(d.country)
  }

  function OwnValue(e: Event, k: Field): Json
    requires OwnKey(TypeOf(e), k)
  {
    match e.detail
    case Holiday(_, _, _) => HolidayValue(e.detail, k)
    case DstChange(_, _, _, _) => DstChangeValue(e.detail, k)
    case Expiry(_, _, _, _, _, _) => ExpiryValue(e.detail, k)
    case Release(_, _, _, _, _, _, _, _, _, _) => ReleaseValue(e.detail, k)
  }

  function CommonFields(e: Event): Wire {
    map k: Field | CommonKey(k) :: CommonValue(e, k)
  }

  function OwnFields(e: Event): Wire {
    map k: Field | OwnKey(TypeOf(e), k) :: OwnValue(e, k)
  }

  /** `serialize_event(event)`: the common dictionary updated with the class's own entries. */
  function Serialize(e: Event): Wire {
    CommonFields(e) + OwnFields(e)
  }

  // ----- from the wire -------------------------------------------------------------

  /** `data[key]`: a missing key is an error. */
  function Item(w: Wire, k: Field): Option<Json> {
    if k in w then Some(w[k]) else None
  }

  /** `data.get(key, default)` */
  function ItemOr(w: Wire, k: Field, default: Json): Json {
    if k in w then w[k] else default
  }

  function AsText(j: Json): Option<string> {
    if j.JText? then Some(j.s) else None
  }

  function AsOptText(j: Json): Option<Option<string>> {
    if j.JNull? then Some(None) else if j.JText? then Some(Some(j.s)) else None
  }

  function AsOptNumber(j: Json): Option<Option<real>> {
    if j.JNull? then Some(None) else if j.JNumber? then Some(Some(j.n)) else None
  }

  function AsDate(j: Json): Option<Date> {
    var s :- AsText(j);
    ParseDate(s)
  }

  function AsOptDate(j: Json): Option<Option<Date>> {
    if j.JNull? then Some(None) else var d :- AsDate(j); Some(Some(d))
  }

  function AsOptInstant(j: Json): Option<Option<Instant>> {
    if j.JNull? then Some(None)
    else
      var s :- AsText(j);
      var t :- ParseInstant(s);
      Some(Some(t))
  }

  function AsBool(j: Json): Option<bool> {
    if j.JBool? then Some(j.b) else None
  }

  function AsTextItems(items: seq<Json>): Option<seq<string>> {
    if items == [] then Some([])
    else
      var s :- AsText(items[0]);
      var rest :- AsTextItems(items[1..]);
      Some([s] + rest)
  }

  /** `list(value or [])` */
  function AsSegments(j: Json): Option<seq<string>> {
    if j.JNull? then Some([]) else if j.JArray? then AsTextItems(j.items) else None
  }

  /** `dict(value or {})` */
  function AsMetadata(j: Json): Option<map<string, Json>> {
    if j.JNull? then Some(map[]) else if j.JObject? then Some(j.fields) else None
  }

  function ParseSession(s: string): Option<SessionType> {
    if s == "full_close" then Some(FullClose)
    else if s == "half_day" then Some(HalfDay)
    else if s == "special_session" then Some(SpecialSession)
    else None
  }

  function ReadText(w: Wire, k: Field): Option<string> {
    var j :- Item(w, k);
    AsText(j)
  }

  function ReadHoliday(w: Wire): Option<Detail> {
    var name :- ReadText(w, HolidayNameKey);
    var sessionText :- ReadText(w, SessionTypeKey);
    var session :- ParseSession(sessionText);
    var segments :- AsSegments(ItemOr(w, AffectedSegmentsKey, JNull));
    Some(Holiday(name, session, segments))
  }

  function ReadDstChange(w: Wire): Option<Detail> {
    var region :- ReadText(w, RegionKey);
    var oldOffset :- ReadText(w, OldUtcOffsetKey);
    var newOffset :- ReadText(w, NewUtcOffsetKey);
    var zone :- ReadText(w, IanaZoneKey);
    Some(DstChange(region, oldOffset, newOffset, zone))
  }

  function ReadExpiry(w: Wire): Option<Detail> {
    var instrument :- ReadText(w, InstrumentTypeKey);
    var underlying :- ReadText(w, UnderlyingKey);
    var series :- ReadText(w, SeriesKey);
    var expiryText :- ReadText(w, ExpiryDateKey);
    var expiry :- ParseDate(expiryText);
    var rollover :- AsOptDate(ItemOr(w, RolloverToKey, JNull));
    var revised :- AsBool(ItemOr(w, IsRevisedKey, JBool(false)));
    Some(Expiry(instrument, underlying, series, expiry, rollover, revised))
  }

  function ReadRelease(w: Wire): Option<Detail> {
    var name :- ReadText(w, ReleaseNameKey);
    var code :- ReadText(w, ReleaseCodeKey);
    var agency :- AsText(ItemOr(w, AgencyKey, JText("")));
    var period :- AsText(ItemOr(w, PeriodKey, JText("")));
    var forecast :- AsOptNumber(ItemOr(w, ForecastKey, JNull));
    var previous :- AsOptNumber(ItemOr(w, PreviousKey, JNull));
    var actual :- AsOptNumber(ItemOr(w, ActualKey, JNull));
    var revision :- AsOptNumber(ItemOr(w, RevisionKey, JNull));
    var unit :- AsText(ItemOr(w, UnitKey, JText("")));
    var country :- AsOptText(ItemOr(w, CountryKey, JNull));
    Some(Release(name, code, agency, period, forecast, previous, actual, revision, unit, country))
  }

  function ReadDetail(t: EventType, w: Wire): Option<Detail> {
    match t
    case HolidayType => ReadHoliday(w)
    case DstChangeType => ReadDstChange(w)
    case ExpiryType => ReadExpiry(w)
    case ReleaseType => ReadRelease(w)
  }

  /** `_common_kwargs(data)` together with the class-specific part. */
  function ReadCommon(w: Wire, d: Detail): Option<Event> {
    var id :- ReadText(w, EventIdKey);
    var source :- ReadText(w, SourceKey);
    var exchange :- AsOptText(ItemOr(w, ExchangeKey, JNull));
    var dateJson :- Item(w, DateKey);
    var date :- AsDate(dateJson);
    var timestamp :- AsOptInstant(ItemOr(w, TimestampUtcKey, JNull));
    var rawId :- AsOptText(ItemOr(w, SourceRawIdKey, JNull));
    var ingested :- AsOptInstant(ItemOr(w, IngestedAtKey, JNull));
    var updated :- AsOptInstant(ItemOr(w, UpdatedAtKey, JNull));
    var metadata :- AsMetadata(ItemOr(w, MetadataKey, JNull));
    Some(Event(id, source, exchange, date, timestamp, rawId, ingested, updated, metadata, d))
  }

  /** `deserialize_event(data)`; `None` stands for a raised KeyError or ValueError. */
  function Deserialize(w: Wire): Option<Event> {
    var typeText :- ReadText(w, EventTypeKey);
    var t :- ParseType(typeText);
    var d :- ReadDetail(t, w);
    var e :- ReadCommon(w, d);
    Some(Constructed(e))
  }

  // ----- round trip ----------------------------------------------------------------

  lemma {:induction false} TextItemsRoundTrip(s: seq<string>)
    ensures AsTextItems(TextItems(s)) == Some(s)
  {
    if s == [] {
    } else {
      TextItemsRoundTrip(s[1..]);
      assert TextItems(s)[1..] == TextItems(s[1..]);
      assert s == [s[0]] + s[1..];
    }
  }

  lemma OptInstantRoundTrip(t: Option<Instant>)
    ensures AsOptInstant(OptInstant(t)) == Some(t)
  {
    if t.Some? {
      ParseIsoInstant(t.value);
    }
  }

  lemma SessionRoundTrip(t: SessionType)
    ensures ParseSession(SessionName(t)) == Some(t)
  {
    assert |SessionName(FullClose)| == 10 && |SessionName(HalfDay)| == 8;
  }

  lemma KeysApart(t: EventType, k: Field)
    ensures !(CommonKey(k) && OwnKey(t, k))
  {
  }

  lemma CommonLookup(e: Event, k: Field)
    requires CommonKey(k)
    ensures k in Serialize(e) && Serialize(e)[k] == CommonValue(e, k)
  {
    hide CommonKey, OwnKey, CommonValue, OwnValue;
    KeysApart(TypeOf(e), k);
  }

  lemma OwnLookup(e: Event, k: Field)
    requires OwnKey(TypeOf(e), k)
    ensures k in Serialize(e) && Serialize(e)[k] == OwnValue(e, k)
  {
    hide CommonKey, OwnKey, CommonValue, OwnValue;
  }

  lemma KeysOf(e: Event, k: Field)
    ensures k in Serialize(e) <==> CommonKey(k) || OwnKey(TypeOf(e), k)
  {
    hide CommonKey, OwnKey, CommonValue, OwnValue;
  }

  lemma HolidayRoundTrip(e: Event)
    requires e.detail.Holiday?
    ensures ReadHoliday(Serialize(e)) == Some(e.detail)
  {
    hide ParseSession, SessionName, Serialize;
    SessionRoundTrip(e.detail.sessionType);
    TextItemsRoundTrip(e.detail.affectedSegments);
    OwnLookup(e, HolidayNameKey);
    OwnLookup(e, SessionTypeKey);
    OwnLookup(e, AffectedSegmentsKey);
  }

  lemma DstChangeRoundTrip(e: Event)
    requires e.detail.DstChange?
    ensures ReadDstChange(Serialize(e)) == Some(e.detail)
  {
    hide Serialize;
    OwnLookup(e, RegionKey);
    OwnLookup(e, OldUtcOffsetKey);
    OwnLookup(e, NewUtcOffsetKey);
    OwnLookup(e, IanaZoneKey);
  }

  lemma ExpiryRoundTrip(e: Event)
    requires e.detail.Expiry?
    ensures ReadExpiry(Serialize(e)) == Some(e.detail)
  {
    hide ParseDate, IsoDate, Serialize;
    ParseIsoDate(e.detail.expiryDate);
    if e.detail.rolloverTo.Some? {
      ParseIsoDate(e.detail.rolloverTo.value);
    }
    OwnLookup(e, InstrumentTypeKey);
    OwnLookup(e, UnderlyingKey);
    OwnLookup(e, SeriesKey);
    OwnLookup(e, ExpiryDateKey);
    OwnLookup(e, RolloverToKey);
    OwnLookup(e, IsRevisedKey);
  }

  lemma OptTextRoundTrip(s: Option<string>)
    ensures AsOptText(OptText(s)) == Some(s)
  {
  }

  lemma OptNumberRoundTrip(r: Option<real>)
    ensures AsOptNumber(OptNumber(r)) == Some(r)
  {
  }

  lemma ReleaseLookup(e: Event, k: Field)
    requires e.detail.Release? && OwnKey(ReleaseType, k)
    ensures k in Serialize(e) && Serialize(e)[k] == ReleaseValue(e.detail, k)
  {
    hide Serialize, ReleaseValue, OwnKey;
    OwnLookup(e, k);
  }

  lemma ReleaseRoundTrip(e: Event)
    requires e.detail.Release?
    ensures ReadRelease(Serialize(e)) == Some(e.detail)
  {
    hide Serialize, OptText, OptNumber;
    OptTextRoundTrip(e.detail.country);
    OptNumberRoundTrip(e.detail.forecast);
    OptNumberRoundTrip(e.detail.previous);
    OptNumberRoundTrip(e.detail.actual);
    OptNumberRoundTrip(e.detail.revision);
    hide AsOptText, AsOptNumber;
    ReleaseLookup(e, ReleaseNameKey);
    ReleaseLookup(e, ReleaseCodeKey);
    ReleaseLookup(e, AgencyKey);
    ReleaseLookup(e, PeriodKey);
    ReleaseLookup(e, ForecastKey);
    ReleaseLookup(e, PreviousKey);
    ReleaseLookup(e, ActualKey);
    ReleaseLookup(e, RevisionKey);
    ReleaseLookup(e, UnitKey);
    ReleaseLookup(e, CountryKey);
  }

  lemma DetailRoundTrip(e: Event)
    ensures ReadDetail(TypeOf(e), Serialize(e)) == Some(e.detail)
  {
    hide ReadHoliday, ReadDstChange, ReadExpiry, ReadRelease, Serialize;
    match e.detail
    case Holiday(_, _, _) => HolidayRoundTrip(e);
    case DstChange(_, _, _, _) => DstChangeRoundTrip(e);
    case Expiry(_, _, _, _, _, _) => ExpiryRoundTrip(e);
    case Release(_, _, _, _, _, _, _, _, _, _) => ReleaseRoundTrip(e);
  }

  lemma CommonRoundTrip(e: Event)
    ensures ReadCommon(Serialize(e), e.detail) == Some(e)
  {
    hide ParseDate, IsoDate, AsOptInstant, OptInstant, Serialize;
    ParseIsoDate(e.date);
    OptInstantRoundTrip(e.timestampUtc);
    OptInstantRoundTrip(e.ingestedAt);
    OptInstantRoundTrip(e.updatedAt);
    CommonLookup(e, EventIdKey);
    CommonLookup(e, SourceKey);
    CommonLookup(e, ExchangeKey);
    CommonLookup(e, DateKey);
    CommonLookup(e, TimestampUtcKey);
    CommonLookup(e, SourceRawIdKey);
    CommonLookup(e, IngestedAtKey);
    CommonLookup(e, UpdatedAtKey);
    CommonLookup(e, MetadataKey);
  }

  /** `deserialize_event` is the exact inverse of `serialize_event`, for all four variants. */
  lemma RoundTrip(e: Event)
    requires e.id != ""
    ensures Deserialize(Serialize(e)) == Some(e)
  {
    hide ReadDetail, ReadCommon, Serialize;
    CommonLookup(e, EventTypeKey);
    ParseTypeName(TypeOf(e));
    DetailRoundTrip(e);
    CommonRoundTrip(e);
  }

  lemma SerializeInjective(a: Event, b: Event)
    requires a.id != "" && b.id != "" && Serialize(a) == Serialize(b)
    ensures a == b
  {
    RoundTrip(a);
    RoundTrip(b);
  }

  // ----- content hash --------------------------------------------------------------

  /** An ideal hash: one digest per hashed value. */
  datatype ContentDigest = ContentDigest(payload: Wire)

  /** `content_hash(event)`: the repository-managed timestamps are left out. */
  function ContentHash(e: Event): ContentDigest {
    ContentDigest(Serialize(e) - {IngestedAtKey, UpdatedAtKey})
  }

  /** An event without what the repository manages. */
  function Content(e: Event): Event {
    e.(ingestedAt := None, updatedAt := None)
  }

  lemma OwnDependsOnDetail(a: Event, b: Event, k: Field)
    requires a.detail == b.detail && OwnKey(TypeOf(a), k)
    ensures OwnValue(a, k) == OwnValue(b, k)
  {
    hide HolidayValue, DstChangeValue, ExpiryValue, ReleaseValue;
  }

  lemma SameOutsideTimestamps(e: Event, k: Field)
    ensures k in Serialize(Content(e)) <==> k in Serialize(e)
    ensures k in Serialize(e) && k != IngestedAtKey && k != UpdatedAtKey
            ==> Serialize(Content(e))[k] == Serialize(e)[k]
  {
    hide Serialize, OwnKey, OwnValue;
    var c := Content(e);
    KeysOf(e, k);
    KeysOf(c, k);
    if CommonKey(k) {
      CommonLookup(e, k);
      CommonLookup(c, k);
    } else if OwnKey(TypeOf(e), k) {
      OwnLookup(e, k);
      OwnLookup(c, k);
      OwnDependsOnDetail(e, c, k);
    }
  }

  lemma TimestampsNull(e: Event)
    ensures IngestedAtKey in Serialize(Content(e)) && Serialize(Content(e))[IngestedAtKey] == JNull
    ensures UpdatedAtKey in Serialize(Content(e)) && Serialize(Content(e))[UpdatedAtKey] == JNull
  {
    hide Serialize;
    CommonLookup(Content(e), IngestedAtKey);
    CommonLookup(Content(e), UpdatedAtKey);
  }

  lemma StripThenNull(e: Event)
    ensures Serialize(Content(e))
         == (Serialize(e) - {IngestedAtKey, UpdatedAtKey})[IngestedAtKey := JNull][UpdatedAtKey := JNull]
  {
    hide Serialize, CommonKey;
    var w, v := Serialize(e), Serialize(Content(e));
    forall k: Field
      ensures k in v <==> k in w
      ensures k in w && k != IngestedAtKey && k != UpdatedAtKey ==> v[k] == w[k]
    {
      SameOutsideTimestamps(e, k);
    }
    TimestampsNull(e);
  }

  lemma HashOfContent(e: Event)
    ensures ContentHash(Content(e)) == ContentHash(e)
  {
    hide Serialize;
    var w, v := Serialize(e), Serialize(Content(e));
    forall k: Field
      ensures k in v <==> k in w
      ensures k in w && k != IngestedAtKey && k != UpdatedAtKey ==> v[k] == w[k]
    {
      SameOutsideTimestamps(e, k);
    }
    assert v - {IngestedAtKey, UpdatedAtKey} == w - {IngestedAtKey, UpdatedAtKey};
  }

  /** What the content is: everything but the two timestamps. */
  lemma ContentExactly(a: Event, b: Event)
    ensures Content(a) == Content(b) <==>
            && a.id == b.id && a.source == b.source && a.exchange == b.exchange && a.date == b.date
            && a.timestampUtc == b.timestampUtc && a.rawId == b.rawId && a.metadata == b.metadata
            && a.detail == b.detail
  {
    assert Content(a) == a.(ingestedAt := None, updatedAt := None);
    assert Content(b) == b.(ingestedAt := None, updatedAt := None);
  }

  /** Hash equality is content equality: of everything but the two timestamps. */
  lemma HashIsContent(a: Event, b: Event)
    requires a.id != "" && b.id != ""
    ensures ContentHash(a) == ContentHash(b) <==> Content(a) == Content(b)
    ensures ContentHash(a) == ContentHash(b) <==>
            && a.id == b.id && a.source == b.source && a.exchange == b.exchange && a.date == b.date
            && a.timestampUtc == b.timestampUtc && a.rawId == b.rawId && a.metadata == b.metadata
            && a.detail == b.detail
  {
    ContentExactly(a, b);
    hide Serialize;
    StripThenNull(a);
    StripThenNull(b);
    HashOfContent(a);
    HashOfContent(b);
    if ContentHash(a) == ContentHash(b) {
      SerializeInjective(Content(a), Content(b));
    }
  }
}
