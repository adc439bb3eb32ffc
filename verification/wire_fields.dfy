/** What each key of a wire dictionary means, whoever wrote it, and which keys may be missing. */
module WireFields {
  import opened Text
  import opened Calendar
  import opened Events
  import opened Serialization

  // ----- a value under a key -------------------------------------------------------

  function TextAt(w: Wire, k: Field): Option<string> {
    if k in w && w[k].JText? then Some(w[k].s) else None
  }

  function NumberAt(w: Wire, k: Field): Option<real> {
    if k in w && w[k].JNumber? then Some(w[k].n) else None
  }

  function DateAt(w: Wire, k: Field): Option<Date> {
    var s :- TextAt(w, k);
    ParseDate(s)
  }

  function InstantAt(w: Wire, k: Field): Option<Instant> {
    var s :- TextAt(w, k);
    ParseInstant(s)
  }

  /** The common fields of an event are those under its keys; a missing or null one is none. */
  ghost predicate CommonMeans(w: Wire, e: Event) {
    && TextAt(w, EventIdKey) == Some(e.id)
    && TextAt(w, SourceKey) == Some(e.source)
    && DateAt(w, DateKey) == Some(e.date)
    && e.exchange == TextAt(w, ExchangeKey)
    && e.timestampUtc == InstantAt(w, TimestampUtcKey)
    && e.rawId == TextAt(w, SourceRawIdKey)
    && e.ingestedAt == InstantAt(w, IngestedAtKey)
    && e.updatedAt == InstantAt(w, UpdatedAtKey)
    && e.metadata == if MetadataKey in w && w[MetadataKey].JObject? then w[MetadataKey].fields else map[]
  }

  ghost predicate HolidayMeans(w: Wire, d: Detail) {
    && d.Holiday?
    && TextAt(w, EventTypeKey) == Some("holiday")
    && TextAt(w, HolidayNameKey) == Some(d.holidayName)
    && TextAt(w, SessionTypeKey)
       == Some(match d.sessionType
               case FullClose => "full_close" case HalfDay => "half_day" case SpecialSession => "special_session")
    && (AffectedSegmentsKey in w && w[AffectedSegmentsKey].JArray? ==>
          var items := w[AffectedSegmentsKey].items;
          && |d.affectedSegments| == |items|
          && forall i :: 0 <= i < |items| ==> items[i] == JText(d.affectedSegments[i]))
    && (AffectedSegmentsKey !in w || w[AffectedSegmentsKey].JNull? ==> d.affectedSegments == [])
  }

  ghost predicate DstChangeMeans(w: Wire, d: Detail) {
    && d.DstChange?
    && TextAt(w, EventTypeKey) == Some("dst_change")
    && TextAt(w, RegionKey) == Some(d.region)
    && TextAt(w, OldUtcOffsetKey) == Some(d.oldOffset)
    && TextAt(w, NewUtcOffsetKey) == Some(d.newOffset)
    && TextAt(w, IanaZoneKey) == Some(d.zone)
  }

  ghost predicate ExpiryMeans(w: Wire, d: Detail) {
    && d.Expiry?
    && TextAt(w, EventTypeKey) == Some("expiry")
    && TextAt(w, InstrumentTypeKey) == Some(d.instrumentType)
    && TextAt(w, UnderlyingKey) == Some(d.underlying)
    && TextAt(w, SeriesKey) == Some(d.series)
    && DateAt(w, ExpiryDateKey) == Some(d.expiryDate)
    && d.rolloverTo == DateAt(w, RolloverToKey)
    && d.isRevised == (IsRevisedKey in w && w[IsRevisedKey] == JBool(true))
  }

  ghost predicate ReleaseMeans(w: Wire, d: Detail) {
    && d.Release?
    && TextAt(w, EventTypeKey) == Some("economic_release")
    && TextAt(w, ReleaseNameKey) == Some(d.releaseName)
    && TextAt(w, ReleaseCodeKey) == Some(d.code)
    && d.agency == TextAt(w, AgencyKey).GetOr("")
    && d.period == TextAt(w, PeriodKey).GetOr("")
    && d.forecast == NumberAt(w, ForecastKey)
    && d.previous == NumberAt(w, PreviousKey)
    && d.actual == NumberAt(w, ActualKey)
    && d.revision == NumberAt(w, RevisionKey)
    && d.unit == TextAt(w, UnitKey).GetOr("")
    && d.country == TextAt(w, CountryKey)
  }

  ghost predicate DetailMeans(w: Wire, d: Detail) {
    HolidayMeans(w, d) || DstChangeMeans(w, d) || ExpiryMeans(w, d) || ReleaseMeans(w, d)
  }

  lemma {:induction false} ItemsMean(items: seq<Json>)
    requires AsTextItems(items).Some?
    ensures var r := AsTextItems(items).value;
            |r| == |items| && forall i :: 0 <= i < |r| ==> items[i] == JText(r[i])
  {
    if items == [] {
    } else {
      ItemsMean(items[1..]);
    }
  }

  lemma ReadCommonMeans(w: Wire, d: Detail)
    requires ReadCommon(w, d).Some?
    ensures CommonMeans(w, ReadCommon(w, d).value) && ReadCommon(w, d).value.detail == d
  {
    hide ParseDate, ParseInstant;
  }

  lemma ReadHolidayMeans(w: Wire)
    requires ReadHoliday(w).Some? && TextAt(w, EventTypeKey) == Some("holiday")
    ensures HolidayMeans(w, ReadHoliday(w).value)
  {
    if AffectedSegmentsKey in w && w[AffectedSegmentsKey].JArray? {
      ItemsMean(w[AffectedSegmentsKey].items);
    }
  }

  lemma ReadExpiryMeans(w: Wire)
    requires ReadExpiry(w).Some? && TextAt(w, EventTypeKey) == Some("expiry")
    ensures ExpiryMeans(w, ReadExpiry(w).value)
  {
    hide ParseDate;
  }

  lemma ReadReleaseMeans(w: Wire)
    requires ReadRelease(w).Some? && TextAt(w, EventTypeKey) == Some("economic_release")
    ensures ReleaseMeans(w, ReadRelease(w).value)
  {
  }

  lemma ReadDetailMeans(w: Wire, t: EventType)
    requires TextAt(w, EventTypeKey) == Some(TypeName(t)) && ReadDetail(t, w).Some?
    ensures DetailMeans(w, ReadDetail(t, w).value)
  {
    hide ReadHoliday, ReadExpiry, ReadRelease, HolidayMeans, ExpiryMeans, ReleaseMeans, ParseDate;
    match t
    case HolidayType => ReadHolidayMeans(w);
    case DstChangeType =>
    case ExpiryType => ReadExpiryMeans(w);
    case ReleaseType => ReadReleaseMeans(w);
  }

  /** Whatever dictionary is read, every field of the event is what stands under its own key; a
      missing id is derived. */
  lemma DeserializeMeans(w: Wire)
    requires Deserialize(w).Some?
    ensures var e := Deserialize(w).value;
            && DetailMeans(w, e.detail)
            && (CommonMeans(w, e) || (e == Constructed(e.(id := "")) && CommonMeans(w, e.(id := ""))))
  {
    hide ReadDetail, ReadCommon, DetailMeans, CommonMeans, Digest, EventKey;
    var t := ParseType(TextAt(w, EventTypeKey).value).value;
    var d := ReadDetail(t, w).value;
    var e := ReadCommon(w, d).value;
    ReadDetailMeans(w, t);
    ReadCommonMeans(w, d);
    assert e.id == "" ==> Constructed(e).(id := "") == e;
  }

  // ----- keys that may be missing --------------------------------------------------

  predicate Optional(k: Field) {
    k in {ExchangeKey, TimestampUtcKey, SourceRawIdKey, IngestedAtKey, UpdatedAtKey, MetadataKey,
          AffectedSegmentsKey, RolloverToKey, IsRevisedKey, AgencyKey, PeriodKey, ForecastKey, PreviousKey,
          ActualKey, RevisionKey, UnitKey, CountryKey}
  }

  /** `v` is the serialized event with some optional entries left out. */
  ghost predicate PartOf(v: Wire, e: Event) {
    && (forall k :: k in v ==> k in Serialize(e) && v[k] == Serialize(e)[k])
    && (forall k :: k in Serialize(e) && !Optional(k) ==> k in v)
  }

  lemma NullInstant()
    ensures OptInstant(None) == JNull && AsOptInstant(JNull) == Some(None)
  {
  }

  lemma CommonKept(v: Wire, e: Event, k: Field)
    requires PartOf(v, e) && CommonKey(k)
    ensures k in v ==> v[k] == CommonValue(e, k)
    ensures !Optional(k) ==> k in v
  {
    hide Serialize, CommonValue, CommonKey, Optional;
    CommonLookup(e, k);
  }

  lemma OwnKept(v: Wire, e: Event, k: Field)
    requires PartOf(v, e) && OwnKey(TypeOf(e), k)
    ensures k in v ==> v[k] == OwnValue(e, k)
    ensures !Optional(k) ==> k in v
  {
    hide Serialize, OwnValue, OwnKey, Optional;
    OwnLookup(e, k);
  }

  lemma OptInstantPart(v: Wire, e: Event, k: Field, t: Option<Instant>)
    requires PartOf(v, e) && CommonKey(k) && CommonValue(e, k) == OptInstant(t)
    ensures AsOptInstant(ItemOr(v, k, JNull)).Some?
  {
    hide PartOf, CommonKey, CommonValue, AsOptInstant, OptInstant;
    CommonKept(v, e, k);
    OptInstantRoundTrip(t);
    NullInstant();
  }

  lemma OptTextPart(v: Wire, e: Event, k: Field, t: Option<string>)
    requires PartOf(v, e) && CommonKey(k) && CommonValue(e, k) == OptText(t)
    ensures AsOptText(ItemOr(v, k, JNull)).Some?
  {
    hide PartOf, CommonKey, CommonValue;
    CommonKept(v, e, k);
  }

  lemma MetadataPart(v: Wire, e: Event)
    requires PartOf(v, e)
    ensures AsMetadata(ItemOr(v, MetadataKey, JNull)).Some?
  {
    hide PartOf;
    CommonKept(v, e, MetadataKey);
  }

  lemma CommonPart(v: Wire, e: Event)
    requires PartOf(v, e)
    ensures ReadCommon(v, e.detail).Some? && ReadCommon(v, e.detail).value.id == e.id
    ensures TextAt(v, EventTypeKey) == Some(TypeName(TypeOf(e)))
  {
    hide PartOf, ParseDate, IsoDate, AsOptInstant, AsOptText, AsMetadata, OptInstant, OptText, TypeName, ItemOr;
    ParseIsoDate(e.date);
    CommonKept(v, e, EventIdKey);
    CommonKept(v, e, EventTypeKey);
    CommonKept(v, e, SourceKey);
    CommonKept(v, e, DateKey);
    OptTextPart(v, e, ExchangeKey, e.exchange);
    OptTextPart(v, e, SourceRawIdKey, e.rawId);
    OptInstantPart(v, e, TimestampUtcKey, e.timestampUtc);
    OptInstantPart(v, e, IngestedAtKey, e.ingestedAt);
    OptInstantPart(v, e, UpdatedAtKey, e.updatedAt);
    MetadataPart(v, e);
  }

  lemma HolidayPart(v: Wire, e: Event)
    requires PartOf(v, e) && e.detail.Holiday?
    ensures ReadHoliday(v).Some?
  {
    hide ParseSession, SessionName, Serialize, PartOf;
    SessionRoundTrip(e.detail.sessionType);
    TextItemsRoundTrip(e.detail.affectedSegments);
    OwnKept(v, e, HolidayNameKey);
    OwnKept(v, e, SessionTypeKey);
    OwnKept(v, e, AffectedSegmentsKey);
  }

  lemma DstChangePart(v: Wire, e: Event)
    requires PartOf(v, e) && e.detail.DstChange?
    ensures ReadDstChange(v).Some?
  {
    hide Serialize, PartOf;
    OwnKept(v, e, RegionKey);
    OwnKept(v, e, OldUtcOffsetKey);
    OwnKept(v, e, NewUtcOffsetKey);
    OwnKept(v, e, IanaZoneKey);
  }

  lemma ExpiryPart(v: Wire, e: Event)
    requires PartOf(v, e) && e.detail.Expiry?
    ensures ReadExpiry(v).Some?
  {
    hide ParseDate, IsoDate, Serialize, PartOf;
    ParseIsoDate(e.detail.expiryDate);
    if e.detail.rolloverTo.Some? {
      ParseIsoDate(e.detail.rolloverTo.value);
    }
    OwnKept(v, e, InstrumentTypeKey);
    OwnKept(v, e, UnderlyingKey);
    OwnKept(v, e, SeriesKey);
    OwnKept(v, e, ExpiryDateKey);
    OwnKept(v, e, RolloverToKey);
    OwnKept(v, e, IsRevisedKey);
  }

  lemma ReleasePart(v: Wire, e: Event)
    requires PartOf(v, e) && e.detail.Release?
    ensures ReadRelease(v).Some?
  {
    hide Serialize, PartOf;
    OwnKept(v, e, ReleaseNameKey);
    OwnKept(v, e, ReleaseCodeKey);
    OwnKept(v, e, AgencyKey);
    OwnKept(v, e, PeriodKey);
    OwnKept(v, e, ForecastKey);
    OwnKept(v, e, PreviousKey);
    OwnKept(v, e, ActualKey);
    OwnKept(v, e, RevisionKey);
    OwnKept(v, e, UnitKey);
    OwnKept(v, e, CountryKey);
  }

  lemma ReadCommonKeeps(w: Wire, d: Detail, other: Detail)
    ensures ReadCommon(w, other).Some? <==> ReadCommon(w, d).Some?
  {
    hide ParseDate, ParseInstant;
  }

  /** A serialized event is still read when optional entries are missing. What stands for them is
      DeserializeMeans. */
  lemma OptionalMayBeMissing(v: Wire, e: Event)
    requires PartOf(v, e)
    ensures Deserialize(v).Some?
  {
    hide ReadHoliday, ReadDstChange, ReadExpiry, ReadRelease, ReadCommon, PartOf, Digest, EventKey, TypeName;
    CommonPart(v, e);
    ParseTypeName(TypeOf(e));
    match e.detail
    case Holiday(_, _, _) => HolidayPart(v, e); ReadCommonKeeps(v, e.detail, ReadHoliday(v).value);
    case DstChange(_, _, _, _) => DstChangePart(v, e); ReadCommonKeeps(v, e.detail, ReadDstChange(v).value);
    case Expiry(_, _, _, _, _, _) => ExpiryPart(v, e); ReadCommonKeeps(v, e.detail, ReadExpiry(v).value);
    case Release(_, _, _, _, _, _, _, _, _, _) => ReleasePart(v, e); ReadCommonKeeps(v, e.detail, ReadRelease(v).value);
  }
}
