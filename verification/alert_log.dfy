/** Alerts and the table that keeps one row per alert id. */
module AlertLog {
  import opened Text
  import opened Calendar
  import opened Events
  import opened Serialization

  datatype Severity = Info | Warning | Critical

  /** `_SEVERITY_RANK` */
  function SeverityRank(s: Severity): (r: nat)
    ensures r <= 2
  {
    match s
    case Info => 0
    case Warning => 1
    case Critical => 2
  }

  function SeverityName(s: Severity): string {
    match s
    case Info => "info"
    case Warning => "warning"
    case Critical => "critical"
  }

  function ParseSeverity(s: string): Option<Severity> {
    if s == "info" then Some(Info)
    else if s == "warning" then Some(Warning)
    else if s == "critical" then Some(Critical)
    else None
  }

  lemma SeverityRoundTrip(s: Severity)
    ensures ParseSeverity(SeverityName(s)) == Some(s)
  {
    assert |SeverityName(Info)| == 4 && |SeverityName(Warning)| == 7;
  }

  lemma SeverityNames(s: Severity)
    ensures SeverityName(s) == match s case Info => "info" case Warning => "warning" case Critical => "critical"
  {
  }

  /** An alert without its display texts. */
  datatype Alert = Alert(id: string, ruleId: string, event: Event, severity: Severity, triggeredAt: Instant)

  /** `Alert.__post_init__`: the id is derived from the rule and the event, never from the time. */
  function MakeAlert(ruleId: string, event: Event, severity: Severity, now: Instant): Alert {
    Alert(AlertId(ruleId, event.id), ruleId, event, severity, now)
  }

  predicate Derived(a: Alert) {
    a.id == AlertId(a.ruleId, a.event.id) && a.event.id != "" && ':' !in a.event.id
  }

  /** Alerts by id: what the log means. */
  type Log = map<string, Alert>

  datatype AlertRow = AlertRow(ruleId: string, eventId: string, severity: string, triggeredAt: string, eventData: Wire)

  type AlertTable = map<string, AlertRow>

  function AlertToRow(a: Alert): AlertRow {
    AlertRow(a.ruleId, a.event.id, SeverityName(a.severity), IsoInstant(a.triggeredAt), Serialize(a.event))
  }

  /** `_row_to_alert`; `None` stands for a raised error. */
  function RowToAlert(id: string, row: AlertRow): Option<Alert> {
    var triggered :- ParseInstant(row.triggeredAt);
    var event :- Deserialize(row.eventData);
    var severity :- ParseSeverity(row.severity);
    Some(Alert(id, row.ruleId, event, severity, triggered))
  }

  lemma RowRoundTrip(a: Alert)
    requires a.event.id != ""
    ensures RowToAlert(a.id, AlertToRow(a)) == Some(a)
    ensures AlertToRow(a).severity
         == match a.severity case Info => "info" case Warning => "warning" case Critical => "critical"
    ensures AlertToRow(a).ruleId == a.ruleId && AlertToRow(a).eventId == a.event.id
  {
    hide Serialize, Deserialize, IsoInstant, ParseInstant, ParseSeverity, SeverityName;
    ParseIsoInstant(a.triggeredAt);
    RoundTrip(a.event);
    SeverityRoundTrip(a.severity);
    SeverityNames(a.severity);
  }

  ghost predicate RowValid(id: string, row: AlertRow) {
    var a := RowToAlert(id, row);
    a.Some? && Derived(a.value) && row == AlertToRow(a.value)
  }

  ghost predicate ValidRows(t: AlertTable) {
    forall id :: id in t ==> RowValid(id, t[id])
  }

  ghost function DecodedLog(t: AlertTable): Log
    requires ValidRows(t)
  {
    map id | id in t :: RowToAlert(id, t[id]).value
  }

  /** INSERT .. ON CONFLICT (alert_id) DO UPDATE: the rule and event columns are kept. */
  function UpsertRow(t: AlertTable, a: Alert): AlertTable {
    var next := AlertToRow(a);
    t[a.id := if a.id in t then next.(ruleId := t[a.id].ruleId, eventId := t[a.id].eventId) else next]
  }

  lemma StoredId(id: string, row: AlertRow)
    requires RowToAlert(id, row).Some?
    ensures RowToAlert(id, row).value.id == id
  {
    hide Deserialize, ParseInstant, ParseSeverity;
  }

  /** Keeping those columns loses nothing, because the alert id determines them. */
  lemma UpsertRowRefines(t: AlertTable, a: Alert)
    requires ValidRows(t) && Derived(a)
    ensures ValidRows(UpsertRow(t, a)) && DecodedLog(UpsertRow(t, a)) == DecodedLog(t)[a.id := a]
  {
    hide Serialize, Deserialize, IsoInstant, ParseInstant, ParseSeverity, SeverityName, RowToAlert, AlertId;
    RowRoundTrip(a);
    if a.id in t {
      var stored := RowToAlert(a.id, t[a.id]).value;
      StoredId(a.id, t[a.id]);
      AlertIdDeterminesPair(stored.ruleId, stored.event.id, a.ruleId, a.event.id);
    }
    assert UpsertRow(t, a)[a.id] == AlertToRow(a);
  }

  class SqlAlertLog {
    var rows: AlertTable

    ghost predicate Valid()
      reads this
    {
      ValidRows(rows)
    }

    constructor ()
      ensures Valid() && DecodedLog(rows) == map[]
    {
      rows := map[];
    }

    method Get(id: string) returns (r: Option<Alert>)
      requires Valid()
      ensures r == if id in DecodedLog(rows) then Some(DecodedLog(rows)[id]) else None
    {
      if id !in rows {
        return None;
      }
      r := RowToAlert(id, rows[id]);
    }

    /** `fault`: the statement or its commit raises, and is rolled back. */
    method Upsert(a: Alert, fault: bool) returns (ok: bool)
      requires Valid() && Derived(a)
      modifies this
      ensures Valid() && ok == !fault
      ensures DecodedLog(rows) == if ok then DecodedLog(old(rows))[a.id := a] else DecodedLog(old(rows))
    {
      ok := !fault;
      if ok {
        UpsertRowRefines(rows, a);
        rows := UpsertRow(rows, a);
      }
    }
  }
}
