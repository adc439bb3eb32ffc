/** Which source's event stands for a release, now and in every later evaluation. */
module SourcePriority {
  import opened Text
  import opened Calendar
  import opened Events
  import opened Ordering
  import opened Reference
  import opened GroupMerge
  import opened Reconciliation
  import opened ReconciliationLaws
  import opened AlertLog
  import opened Escalation
  import opened AlertEngine
  import opened AlertRuns
  import UpsertLaws

  // ----- events stay ---------------------------------------------------------------

  /** The same source, date and class, and the same release if it is one. */
  predicate SameSubject(x: Event, y: Event) {
    && y.source == x.source && y.date == x.date && TypeOf(y) == TypeOf(x)
    && (x.detail.Release? && y.detail.Release? ==> y.detail.code == x.detail.code)
  }

  /** Every id stored in `s` is still stored in `later`, for the same subject. */
  ghost predicate Persists(s: Store, later: Store) {
    forall id :: id in s ==> id in later && SameSubject(s[id], later[id])
  }

  lemma PersistsTransitive(a: Store, b: Store, c: Store)
    requires Persists(a, b) && Persists(b, c)
    ensures Persists(a, c)
  {
  }

  lemma SameKeyPersists(x: Event, y: Event)
    requires Canonical(x) && Canonical(y) && x.id == y.id
    ensures SameSubject(x, y)
  {
    hide Digest, EventKey;
    EventIdDeterminesKey(x, y);
  }

  lemma StampsKeepCanonical(e: Event, i: Option<Instant>, u: Option<Instant>)
    requires Canonical(e)
    ensures Canonical(e.(ingestedAt := i, updatedAt := u))
  {
    hide Digest;
    assert EventKey(e.(ingestedAt := i, updatedAt := u)) == EventKey(e);
  }

  /** Ingesting a batch with derived ids deletes nothing and moves nothing to another release. */
  lemma UpsertPersists(s: Store, batch: seq<Event>, now: Instant)
    requires WellKeyed(s) && CanonicalStore(s)
    requires forall i :: 0 <= i < |batch| ==> Canonical(batch[i])
    ensures Persists(s, UpsertAll(s, batch, now).0) && CanonicalStore(UpsertAll(s, batch, now).0)
  {
    hide Canonical, UpsertAll, UpsertLaws.AllAlike;
    var later := UpsertAll(s, batch, now).0;
    forall id | id in later
      ensures Canonical(later[id])
      ensures id in s ==> later[id].id == s[id].id
    {
      UpsertLaws.UpsertClosedForm(s, batch, now, id);
      var last := UpsertLaws.LastEntry(batch, id);
      if last.Some? {
        var i :| 0 <= i < |batch| && batch[i] == last.value;
        StampsKeepCanonical(last.value, later[id].ingestedAt, later[id].updatedAt);
      }
    }
    forall id | id in s ensures id in later && SameSubject(s[id], later[id]) {
      UpsertLaws.UpsertClosedForm(s, batch, now, id);
      SameKeyPersists(s[id], later[id]);
    }
  }

  // ----- one window ----------------------------------------------------------------

  lemma {:induction false} GroupMember(events: seq<Event>, k: Key, i: nat)
    requires i < |events| && Reports(events[i], k)
    ensures events[i] in Group(events, k)
  {
    var front, e := events[..|events| - 1], events[|events| - 1];
    if i == |front| {
    } else {
      GroupMember(front, k, i);
    }
  }

  lemma StoreInQuery(s: Store, lo: Date, hi: Date, id: string)
    requires WellKeyed(s) && id in s && lo <= s[id].date <= hi
    ensures s[id] in Query(s, WindowQuery(lo, hi))
  {
    hide EventBefore;
    var q := WindowQuery(lo, hi);
    assert s[id] in Matching(s, q);
    assert Query(s, q) == Sorted(s, q);
    assert s[id] in Elements(Sorted(s, q));
  }

  lemma EventItem(events: seq<Event>, j: nat)
    requires j < |Reconciled(events, DEFAULT_SOURCE_PRIORITY)|
    ensures var e := Reconciled(events, DEFAULT_SOURCE_PRIORITY)[j];
            e.detail.Release? ==>
              Mentions(events, KeyOf(e)) && Group(events, KeyOf(e)) != []
              && e == Merged(Group(events, KeyOf(e)), DEFAULT_SOURCE_PRIORITY)
  {
    hide Order, Merged, Mentions;
    var item := Order(events)[j];
    match item
    case Position(i) =>
    case GroupOf(k) =>
      MentionsGroup(events, k);
      MergedKey(events, k, DEFAULT_SOURCE_PRIORITY);
  }

  lemma WindowDates(s: Store, lo: Date, hi: Date, j: nat)
    requires WellKeyed(s) && j < |Window(s, lo, hi)|
    ensures lo <= Window(s, lo, hi)[j].date <= hi
  {
    hide Query, Merged, Order;
    var events := Query(s, WindowQuery(lo, hi));
    var e := Window(s, lo, hi)[j];
    match Order(events)[j]
    case Position(i) => QueryFromStore(s, lo, hi, i);
    case GroupOf(k) =>
      MergedKey(events, k, DEFAULT_SOURCE_PRIORITY);
      var i :| 0 <= i < |events| && Reports(events[i], k);
      QueryFromStore(s, lo, hi, i);
  }

  /** A release event in the window comes from a source that nobody stored outranks. */
  lemma WindowKeepsBest(s: Store, lo: Date, hi: Date, j: nat, high: string)
    requires WellKeyed(s) && j < |Window(s, lo, hi)| && high in s
    requires Window(s, lo, hi)[j].detail.Release? && Reports(s[high], KeyOf(Window(s, lo, hi)[j]))
    ensures Rank(Window(s, lo, hi)[j].source, DEFAULT_SOURCE_PRIORITY) <= RankOf(s[high], DEFAULT_SOURCE_PRIORITY)
  {
    hide Query, Merged, Rank, Mentions, Order;
    var events := Query(s, WindowQuery(lo, hi));
    var e := Window(s, lo, hi)[j];
    WindowFromStore(s, lo, hi, j);
    EventItem(events, j);
    WindowDates(s, lo, hi, j);
    StoreInQuery(s, lo, hi, high);
    var i :| 0 <= i < |events| && events[i] == s[high];
    GroupMember(events, KeyOf(e), i);
    var g := Group(events, KeyOf(e));
    MergedIdentity(g, DEFAULT_SOURCE_PRIORITY);
    var m :| 0 <= m < |g| && g[m].source == e.source
             && forall x :: 0 <= x < |g| ==>
                  RankOf(g[m], DEFAULT_SOURCE_PRIORITY) <= RankOf(g[x], DEFAULT_SOURCE_PRIORITY);
    var x :| 0 <= x < |g| && g[x] == s[high];
  }

  // ----- the whole run -------------------------------------------------------------

  ghost predicate StoresPersist(rounds: seq<Round>) {
    forall i :: 0 < i < |rounds| ==> Persists(rounds[i - 1].store, rounds[i].store)
  }

  lemma PersistsReflexive(s: Store)
    ensures Persists(s, s)
  {
  }

  lemma {:induction false} PersistsAlong(rounds: seq<Round>, i: nat, j: nat)
    requires StoresPersist(rounds) && i <= j < |rounds|
    ensures Persists(rounds[i].store, rounds[j].store)
  {
    hide Persists;
    if i < j {
      PersistsAlong(rounds, i, j - 1);
      PersistsTransitive(rounds[i].store, rounds[j - 1].store, rounds[j].store);
    } else {
      PersistsReflexive(rounds[i].store);
    }
  }

  lemma SoundStore(r: Round)
    requires Sound(r)
    ensures WellKeyed(r.store)
  {
  }

  /** `low` reports, at some round, the release that `high` reports, and ranks below it. */
  ghost predicate Outranked(rounds: seq<Round>, i: nat, high: string, m: nat, low: string) {
    && i < |rounds| && high in rounds[i].store && rounds[i].store[high].detail.Release?
    && m < |rounds| && low in rounds[m].store
    && Reports(rounds[m].store[low], KeyOf(rounds[i].store[high]))
    && RankOf(rounds[i].store[high], DEFAULT_SOURCE_PRIORITY) < RankOf(rounds[m].store[low], DEFAULT_SOURCE_PRIORITY)
  }

  lemma OutrankedBounds(rounds: seq<Round>, i: nat, high: string, m: nat, low: string)
    requires Outranked(rounds, i, high, m, low)
    ensures i < |rounds| && m < |rounds| && low in rounds[m].store
  {
  }

  lemma OutrankedAnywhere(rounds: seq<Round>, i: nat, high: string, m: nat, low: string, j: nat)
    requires StoresPersist(rounds) && Outranked(rounds, i, high, m, low)
    requires j < |rounds| && low in rounds[j].store
    ensures Outranked(rounds, i, high, j, low)
  {
    hide Rank, StoresPersist;
    if j <= m {
      PersistsAlong(rounds, j, m);
    } else {
      PersistsAlong(rounds, m, j);
    }
    assert SameSubject(rounds[j].store[low], rounds[m].store[low])
        || SameSubject(rounds[m].store[low], rounds[j].store[low]);
  }

  /** From the round in which the higher-ranked source is stored, the lower-ranked event never stands
      for the release: no event that the rules see carries its id. */
  lemma LowNeverSeen(rounds: seq<Round>, i: nat, high: string, m: nat, low: string, j: nat, x: nat)
    requires AllSound(rounds) && StoresPersist(rounds)
    requires Outranked(rounds, i, high, m, low) && i <= j < |rounds| && x < |Seen(rounds[j])|
    ensures Seen(rounds[j])[x].id != low
  {
    hide Window, Rank, Sound, StoresPersist;
    assert Sound(rounds[j]);
    SoundStore(rounds[j]);
    var s, e := rounds[j].store, Seen(rounds[j])[x];
    WindowFromStore(s, rounds[j].lo, rounds[j].hi, x);
    PersistsAlong(rounds, i, j);
    if e.id == low {
      OutrankedAnywhere(rounds, i, high, m, low, j);
      assert Reports(s[high], KeyOf(e));
      WindowKeepsBest(s, rounds[j].lo, rounds[j].hi, x, high);
      assert false;
    }
  }

  /** So no proximity rule makes an alert for it. */
  lemma HigherSilencesLower(rounds: seq<Round>, i: nat, high: string, m: nat, low: string, r: Rule, j: nat, c: Alert)
    requires AllSound(rounds) && StoresPersist(rounds)
    requires Outranked(rounds, i, high, m, low) && i <= j < |rounds|
    requires !r.OtherRule? && c in ProximityAlerts(r, Seen(rounds[j]), rounds[j].now)
    ensures c.event.id != low
  {
    hide Seen, ProximityAlerts, Sound, StoresPersist, Outranked, MadeAs;
    ProximityMakes(r, Seen(rounds[j]), rounds[j].now, c);
    var x :| 0 <= x < |Seen(rounds[j])| && MadeFor(c, r, Seen(rounds[j])[x], rounds[j].now);
    MadeAsFacts(c, r, Seen(rounds[j])[x], rounds[j].now);
    LowNeverSeen(rounds, i, high, m, low, j, x);
  }

  lemma PlainStore(r: Round, id: string)
    requires Sound(r) && id in r.store
    ensures ':' !in id
  {
  }

  /** And the engine meets no candidate under its alert id. */
  lemma NoCandidates(rounds: seq<Round>, i: nat, high: string, m: nat, low: string, r: Rule, j: nat)
    requires AllSound(rounds) && StoresPersist(rounds)
    requires Outranked(rounds, i, high, m, low) && i <= j < |rounds|
    requires !r.OtherRule? && Genuine(rounds[j].rules, r)
    ensures OfId(CandidatesIn(rounds[j]), AlertId(RuleId(r), low)) == []
  {
    hide Seen, CandidatesIn, Sound, StoresPersist, RuleId, AlertId, OfId, Genuine, MadeAs, HandledAs, Outranked;
    var id := AlertId(RuleId(r), low);
    var cands := OfId(CandidatesIn(rounds[j]), id);
    OutrankedBounds(rounds, i, high, m, low);
    PlainStore(rounds[m], low);
    RoundCandidates(rounds[j], r, low);
    if cands != [] {
      var c := cands[0];
      OfIdMember(CandidatesIn(rounds[j]), id, c);
      var x :| 0 <= x < |Seen(rounds[j])| && HandledAs(rounds[j].rules, r, Seen(rounds[j])[x])
               && MadeAs(c, r, Seen(rounds[j])[x], rounds[j].now);
      MadeAsFacts(c, r, Seen(rounds[j])[x], rounds[j].now);
      LowNeverSeen(rounds, i, high, m, low, j, x);
    }
  }

  lemma NothingStored(r: Round, id: string)
    requires Sound(r) && OfId(CandidatesIn(r), id) == []
    ensures OfId(StoredIn(r), id) == []
  {
    hide CandidatesIn, Sound, OfId;
    var cands := CandidatesIn(r);
    if r.fault.Some? && r.fault.value < |cands| {
      var k := r.fault.value;
      assert cands == cands[..k] + cands[k..];
      OfIdConcat(cands[..k], cands[k..], id);
    }
  }

  lemma NoSublistOfNothing(a: seq<Alert>)
    ensures Sublist(a, []) ==> a == []
  {
  }

  lemma {:induction false} SilentTail(log: Log, rounds: seq<Round>, i: nat, n: nat, id: string)
    requires AllSound(rounds) && i <= n <= |rounds|
    requires forall j :: i <= j < n ==> OfId(CandidatesIn(rounds[j]), id) == []
    ensures Lookup(Run(log, rounds[..n]).0, id) == Lookup(Run(log, rounds[..i]).0, id)
    ensures OfId(Run(log, rounds[..n]).1, id) == OfId(Run(log, rounds[..i]).1, id)
  {
    hide Sound, CandidatesIn, StoredIn, Process, OfId, Interrupted, Sublist;
    if i == n {
    } else {
      SilentTail(log, rounds, i, n - 1, id);
      var front, last := rounds[..n - 1], rounds[n - 1];
      assert rounds[..n][..n - 1] == front && rounds[..n][n - 1] == last;
      var (log1, out1) := Run(log, front);
      var told := Interrupted(log1, CandidatesIn(last), last.fault).1.GetOr([]);
      RoundIsProcess(log1, last);
      NothingStored(last, id);
      Locality(log1, StoredIn(last), id);
      NothingProcessed(log1, id);
      SublistOfId(told, Process(log1, StoredIn(last)).1, id);
      NoSublistOfNothing(OfId(told, id));
      OfIdConcat(out1, told, id);
    }
  }

  /** Once a higher-ranked source has reported a release, a lower-ranked source's event for it is
      silenced for good: from that round on its stored alert never changes again and nothing is
      returned for it. */
  lemma SilencedForGood(log: Log, rounds: seq<Round>, i: nat, high: string, m: nat, low: string, r: Rule)
    requires AllSound(rounds) && StoresPersist(rounds)
    requires Outranked(rounds, i, high, m, low) && !r.OtherRule?
    requires forall j :: i <= j < |rounds| ==> Genuine(rounds[j].rules, r)
    ensures i < |rounds|
    ensures var id := AlertId(RuleId(r), low);
            var (before, told) := Run(log, rounds[..i]);
            var (after, all) := Run(log, rounds);
            Lookup(after, id) == Lookup(before, id) && OfId(all, id) == OfId(told, id)
  {
    hide Sound, CandidatesIn, Seen, Run, OfId, Genuine, RuleId, AlertId, StoresPersist, Outranked;
    OutrankedBounds(rounds, i, high, m, low);
    forall j | i <= j < |rounds| ensures OfId(CandidatesIn(rounds[j]), AlertId(RuleId(r), low)) == [] {
      NoCandidates(rounds, i, high, m, low, r, j);
    }
    SilentTail(log, rounds, i, |rounds|, AlertId(RuleId(r), low));
    assert rounds[..|rounds|] == rounds;
  }
}
