/** What a whole batch does to the store, independent of how it is folded. */
module UpsertLaws {
  import opened Text
  import opened Calendar
  import opened Events
  import opened Serialization
  import opened Reference

  /** The last entry of the batch for an id. */
  function LastEntry(batch: seq<Event>, id: string): (r: Option<Event>)
    ensures r.Some? ==> r.value in batch && r.value.id == id
    ensures r.None? ==> forall i :: 0 <= i < |batch| ==> batch[i].id != id
  {
    if batch == [] then None
    else if batch[|batch| - 1].id == id then Some(batch[|batch| - 1])
    else LastEntry(batch[..|batch| - 1], id)
  }

  ghost predicate AllAlike(batch: seq<Event>, id: string, like: Event) {
    forall i :: 0 <= i < |batch| && batch[i].id == id ==> Content(batch[i]) == Content(like)
  }

  /** The event stored under `id` after the batch. */
  ghost function After(s: Store, batch: seq<Event>, now: Instant, id: string): Option<Event> {
    var last := LastEntry(batch, id);
    if last.None? then Lookup(s, id)
    else if id !in s then Some(last.value.(ingestedAt := Some(now), updatedAt := Some(now)))
    else if AllAlike(batch, id, s[id]) then Some(s[id])
    else Some(last.value.(ingestedAt := s[id].ingestedAt, updatedAt := Some(now)))
  }

  lemma AllAlikeSnoc(front: seq<Event>, e: Event, id: string, like: Event)
    requires e.id == id
    ensures AllAlike(front + [e], id, like) <==> AllAlike(front, id, like) && Content(e) == Content(like)
  {
    hide Content;
    var b := front + [e];
    if AllAlike(b, id, like) {
      assert b[|front|] == e;
      assert forall i :: 0 <= i < |front| ==> b[i] == front[i];
    }
  }

  lemma LastAlike(front: seq<Event>, id: string, like: Event)
    requires LastEntry(front, id).Some? && AllAlike(front, id, like)
    ensures Content(LastEntry(front, id).value) == Content(like)
  {
    hide Content;
    var e := LastEntry(front, id).value;
    var i :| 0 <= i < |front| && front[i] == e;
  }

  lemma UpsertClosedStep(s: Store, front: seq<Event>, e: Event, now: Instant)
    requires Lookup(UpsertAll(s, front, now).0, e.id) == After(s, front, now, e.id)
    ensures Lookup(UpsertOne(UpsertAll(s, front, now).0, e, now).0, e.id) == After(s, front + [e], now, e.id)
  {
    hide UpsertAll;
    var id, b := e.id, front + [e];
    assert b[..|b| - 1] == front && LastEntry(b, id) == Some(e);
    if id in s {
      AllAlikeSnoc(front, e, id, s[id]);
    }
    if LastEntry(front, id).Some? && id in s && AllAlike(front, id, s[id]) {
      LastAlike(front, id, s[id]);
    }
  }

  lemma AfterNothing(s: Store, now: Instant, id: string)
    ensures After(s, [], now, id) == Lookup(s, id)
  {
  }

  lemma AfterOther(s: Store, front: seq<Event>, e: Event, now: Instant, id: string)
    requires e.id != id
    ensures After(s, front + [e], now, id) == After(s, front, now, id)
  {
    hide Content;
    var b := front + [e];
    assert b[..|b| - 1] == front && LastEntry(b, id) == LastEntry(front, id);
    if id in s {
      assert b[|front|] == e;
      assert forall i :: 0 <= i < |front| ==> b[i] == front[i];
      assert AllAlike(b, id, s[id]) <==> AllAlike(front, id, s[id]);
    }
  }

  lemma UpsertOther(s: Store, e: Event, now: Instant, id: string)
    requires e.id != id
    ensures Lookup(UpsertOne(s, e, now).0, id) == Lookup(s, id)
  {
    hide Content;
  }

  lemma {:induction false} UpsertClosedForm(s: Store, batch: seq<Event>, now: Instant, id: string)
    ensures Lookup(UpsertAll(s, batch, now).0, id) == After(s, batch, now, id)
  {
    hide UpsertOne, After;
    if batch == [] {
      AfterNothing(s, now, id);
    } else {
      var front, e := batch[..|batch| - 1], batch[|batch| - 1];
      assert front + [e] == batch;
      UpsertClosedForm(s, front, now, id);
      if e.id == id {
        UpsertClosedStep(s, front, e, now);
      } else {
        UpsertOther(UpsertAll(s, front, now).0, e, now, id);
        AfterOther(s, front, e, now, id);
      }
    }
  }

  ghost function Ids(batch: seq<Event>): set<string> {
    set i | 0 <= i < |batch| :: batch[i].id
  }

  lemma UpsertOneEffect(s: Store, e: Event, now: Instant)
    ensures var (s2, ch) := UpsertOne(s, e, now);
            && s2.Keys == s.Keys + {e.id}
            && |s2| == |s| + (if ch == Inserted then 1 else 0)
            && (ch == Inserted <==> e.id !in s)
            && (ch == Unchanged <==> e.id in s && Content(s[e.id]) == Content(e))
            && (ch == Unchanged ==> s2 == s)
  {
    hide Content;
  }

  lemma UpsertSnoc(s: Store, front: seq<Event>, e: Event, now: Instant)
    ensures var (s1, c1) := UpsertAll(s, front, now);
            var (s2, ch) := UpsertOne(s1, e, now);
            UpsertAll(s, front + [e], now) == (s2, Tally(c1, ch))
  {
    hide UpsertOne;
    var b := front + [e];
    assert b[..|b| - 1] == front && b[|b| - 1] == e;
  }

  /** The stored ids after a batch; no row ever disappears. */
  lemma UpsertKeys(s: Store, batch: seq<Event>, now: Instant)
    ensures UpsertAll(s, batch, now).0.Keys == s.Keys + Ids(batch)
  {
    hide UpsertAll, AllAlike;
    forall id ensures id in UpsertAll(s, batch, now).0 <==> id in s || id in Ids(batch) {
      UpsertClosedForm(s, batch, now, id);
      if LastEntry(batch, id).Some? {
        var i :| 0 <= i < |batch| && batch[i] == LastEntry(batch, id).value;
      }
    }
  }

  ghost function NewIds(s: Store, batch: seq<Event>): set<string> {
    Ids(batch) - s.Keys
  }

  lemma IdsSnoc(front: seq<Event>, e: Event)
    ensures Ids(front + [e]) == Ids(front) + {e.id}
  {
    var b := front + [e];
    assert b[|front|] == e;
    assert forall i :: 0 <= i < |front| ==> b[i] == front[i];
  }

  lemma OneMore(ids: set<string>, id: string, known: set<string>)
    ensures |(ids + {id}) - known| == |ids - known| + (if id in known + ids then 0 else 1)
  {
    if id in known + ids {
      assert (ids + {id}) - known == ids - known;
    } else {
      assert (ids + {id}) - known == (ids - known) + {id};
    }
  }

  lemma NewIdsSnoc(s: Store, front: seq<Event>, e: Event, now: Instant)
    ensures |NewIds(s, front + [e])|
         == |NewIds(s, front)| + (if e.id in UpsertAll(s, front, now).0 then 0 else 1)
  {
    hide UpsertAll, Ids;
    var known, ids := s.Keys, Ids(front);
    UpsertKeys(s, front, now);
    IdsSnoc(front, e);
    OneMore(ids, e.id, known);
  }

  lemma NoNewIds(s: Store)
    ensures |NewIds(s, [])| == 0
  {
    assert Ids([]) == {};
    assert NewIds(s, []) == {};
  }

  lemma NoUpsert(s: Store, now: Instant)
    ensures UpsertAll(s, [], now) == (s, Counts(0, 0, 0))
  {
  }

  /** Inserted counts the new ids, the counts add up to the batch, and the store grows by what
      was inserted. */
  lemma {:induction false} UpsertCounts(s: Store, batch: seq<Event>, now: Instant)
    ensures UpsertAll(s, batch, now).1.inserted == |NewIds(s, batch)|
    ensures UpsertAll(s, batch, now).1.Total() == |batch|
    ensures |UpsertAll(s, batch, now).0| == |s| + UpsertAll(s, batch, now).1.inserted
  {
    hide UpsertOne, UpsertAll, NewIds;
    if batch == [] {
      NoUpsert(s, now);
      NoNewIds(s);
    } else {
      var front, e := batch[..|batch| - 1], batch[|batch| - 1];
      assert front + [e] == batch;
      UpsertCounts(s, front, now);
      UpsertSnoc(s, front, e, now);
      UpsertOneEffect(UpsertAll(s, front, now).0, e, now);
      NewIdsSnoc(s, front, e, now);
    }
  }

  lemma AfterIsLast(s: Store, batch: seq<Event>, now: Instant, i: nat)
    requires i < |batch|
    ensures batch[i].id in UpsertAll(s, batch, now).0 && LastEntry(batch, batch[i].id).Some?
    ensures Content(UpsertAll(s, batch, now).0[batch[i].id]) == Content(LastEntry(batch, batch[i].id).value)
  {
    var id := batch[i].id;
    UpsertClosedForm(s, batch, now, id);
    if id in s && AllAlike(batch, id, s[id]) {
      LastAlike(batch, id, s[id]);
    }
  }

  lemma ContentKeepsId(a: Event, b: Event)
    requires Content(a) == Content(b)
    ensures a.id == b.id
  {
    assert Content(a).id == a.id && Content(b).id == b.id;
  }

  /** After a batch, looking an id up finds the content of the id's last entry in it, and for any
      other id what was stored before. */
  lemma ReadYourWrites(s: Store, batch: seq<Event>, now: Instant, id: string)
    ensures var found := Lookup(UpsertAll(s, batch, now).0, id);
            match LastEntry(batch, id)
            case Some(e) => found.Some? && Content(found.value) == Content(e) && found.value.id == id
            case None => found == Lookup(s, id)
  {
    hide UpsertAll, Content, AllAlike;
    UpsertClosedForm(s, batch, now, id);
    if LastEntry(batch, id).Some? {
      var i :| 0 <= i < |batch| && batch[i] == LastEntry(batch, id).value;
      AfterIsLast(s, batch, now, i);
      ContentKeepsId(UpsertAll(s, batch, now).0[id], LastEntry(batch, id).value);
    }
  }

  // ----- how a batch splits into the three counts ----------------------------------

  /** What a batch finds under the id of its entry `i`: the id's last entry before, or else what was
      stored. */
  function FoundAt(s: Store, batch: seq<Event>, i: nat): Option<Event>
    requires i < |batch|
  {
    var id := batch[i].id;
    var earlier := LastEntry(batch[..i], id);
    if earlier.Some? then earlier else Lookup(s, id)
  }

  predicate FindsNothing(s: Store, batch: seq<Event>, i: nat) {
    i < |batch| && FoundAt(s, batch, i).None?
  }

  predicate FindsOther(s: Store, batch: seq<Event>, i: nat) {
    i < |batch| && FoundAt(s, batch, i).Some? && Content(FoundAt(s, batch, i).value) != Content(batch[i])
  }

  predicate FindsSame(s: Store, batch: seq<Event>, i: nat) {
    i < |batch| && FoundAt(s, batch, i).Some? && Content(FoundAt(s, batch, i).value) == Content(batch[i])
  }

  /** How many entries pass a test. */
  ghost function Number(n: nat, test: nat -> bool): nat {
    |set i: nat | i < n && test(i)|
  }

  lemma NumberStep(n: nat, p: nat -> bool, q: nat -> bool)
    requires forall i: nat :: i < n ==> p(i) == q(i)
    ensures Number(n + 1, q) == Number(n, p) + (if q(n) then 1 else 0)
  {
    var before, after := (set i: nat | i < n && p(i)), (set i: nat | i < n + 1 && q(i));
    assert n !in before;
    assert after == before + (if q(n) then {n} else {});
  }

  lemma NumberNone(test: nat -> bool)
    ensures Number(0, test) == 0
  {
  }

  lemma FoundInFront(s: Store, front: seq<Event>, e: Event, i: nat)
    requires i < |front|
    ensures FoundAt(s, front + [e], i) == FoundAt(s, front, i) && (front + [e])[i] == front[i]
  {
    assert (front + [e])[..i] == front[..i];
  }

  /** The fold meets under the id of the last entry the content that FoundAt gives. */
  lemma FoundAtLast(s: Store, front: seq<Event>, e: Event, now: Instant)
    ensures var found, held := FoundAt(s, front + [e], |front|), Lookup(UpsertAll(s, front, now).0, e.id);
            (found.None? <==> held.None?) && (found.Some? ==> Content(found.value) == Content(held.value))
  {
    hide UpsertAll, Content, LastEntry;
    assert (front + [e])[..|front|] == front;
    ReadYourWrites(s, front, now, e.id);
  }

  /** Inserted numbers the entries that find nothing under their id, updated those that find other
      content, and unchanged those that find their own. */
  lemma {:induction false} UpsertCountsExactly(s: Store, batch: seq<Event>, now: Instant)
    ensures var counts := UpsertAll(s, batch, now).1;
            && counts.inserted == Number(|batch|, (i: nat) => FindsNothing(s, batch, i))
            && counts.updated == Number(|batch|, (i: nat) => FindsOther(s, batch, i))
            && counts.same == Number(|batch|, (i: nat) => FindsSame(s, batch, i))
  {
    hide UpsertOne, UpsertAll, FoundAt, Number, Content;
    if batch == [] {
      NoUpsert(s, now);
      NumberNone((i: nat) => FindsNothing(s, batch, i));
      NumberNone((i: nat) => FindsOther(s, batch, i));
      NumberNone((i: nat) => FindsSame(s, batch, i));
    } else {
      var front, e := batch[..|batch| - 1], batch[|batch| - 1];
      assert front + [e] == batch;
      UpsertCountsExactly(s, front, now);
      UpsertSnoc(s, front, e, now);
      UpsertOneEffect(UpsertAll(s, front, now).0, e, now);
      FoundAtLast(s, front, e, now);
      forall i: nat | i < |front| ensures FoundAt(s, batch, i) == FoundAt(s, front, i) && batch[i] == front[i] {
        FoundInFront(s, front, e, i);
      }
      NumberStep(|front|, (i: nat) => FindsNothing(s, front, i), (i: nat) => FindsNothing(s, batch, i));
      NumberStep(|front|, (i: nat) => FindsOther(s, front, i), (i: nat) => FindsOther(s, batch, i));
      NumberStep(|front|, (i: nat) => FindsSame(s, front, i), (i: nat) => FindsSame(s, batch, i));
    }
  }

  // ----- idempotence ---------------------------------------------------------------

  /** Entries that share an id share their content. */
  ghost predicate OneContentPerId(batch: seq<Event>) {
    forall i, j :: 0 <= i < |batch| && 0 <= j < |batch| && batch[i].id == batch[j].id
                   ==> Content(batch[i]) == Content(batch[j])
  }

  ghost predicate Holds(s: Store, batch: seq<Event>) {
    forall i :: 0 <= i < |batch| ==> batch[i].id in s && Content(s[batch[i].id]) == Content(batch[i])
  }

  lemma HoldsSnoc(s: Store, front: seq<Event>, e: Event)
    ensures Holds(s, front + [e]) <==> Holds(s, front) && e.id in s && Content(s[e.id]) == Content(e)
  {
    hide Content;
    var b := front + [e];
    assert b[|front|] == e;
    assert forall i :: 0 <= i < |front| ==> b[i] == front[i];
  }

  lemma HoldsNothing(s: Store)
    ensures Holds(s, [])
  {
  }

  /** A batch is reported unchanged throughout exactly when the store already holds it. */
  lemma {:induction false} UnchangedExactlyWhenHeld(s: Store, batch: seq<Event>, now: Instant)
    ensures UpsertAll(s, batch, now).1 == Counts(0, 0, |batch|) <==> Holds(s, batch)
    ensures Holds(s, batch) ==> UpsertAll(s, batch, now).0 == s
  {
    hide Content, UpsertOne, UpsertAll, Holds, Ids;
    if batch == [] {
      HoldsNothing(s);
      NoUpsert(s, now);
    } else {
      var front, e := batch[..|batch| - 1], batch[|batch| - 1];
      assert front + [e] == batch;
      UnchangedExactlyWhenHeld(s, front, now);
      UpsertCounts(s, front, now);
      UpsertSnoc(s, front, e, now);
      UpsertOneEffect(UpsertAll(s, front, now).0, e, now);
      HoldsSnoc(s, front, e);
    }
  }

  /** Running one batch twice: the second run reports every entry unchanged, and leaves the
      store as it is, exactly when entries that share an id share their content. */
  lemma IdempotentExactly(s: Store, batch: seq<Event>, t1: Instant, t2: Instant)
    ensures var once := UpsertAll(s, batch, t1).0;
            var (twice, counts) := UpsertAll(once, batch, t2);
            && (counts == Counts(0, 0, |batch|) <==> OneContentPerId(batch))
            && (OneContentPerId(batch) ==> twice == once)
  {
    var once := UpsertAll(s, batch, t1).0;
    UnchangedExactlyWhenHeld(once, batch, t2);
    forall i | 0 <= i < |batch|
      ensures batch[i].id in once && LastEntry(batch, batch[i].id).Some?
      ensures Content(once[batch[i].id]) == Content(LastEntry(batch, batch[i].id).value)
    {
      AfterIsLast(s, batch, t1, i);
    }
    assert OneContentPerId(batch) ==> Holds(once, batch);
  }

  /** One holiday reported once per segment: the segments are not in the natural key, so the two
      events share an id and differ in content, and every further run writes both again. */
  lemma SegmentsNeverSettle(s: Store, e: Event, x: seq<string>, y: seq<string>, t1: Instant, t2: Instant)
    requires e.id == "" && e.detail.Holiday? && x != y
    ensures var a := Constructed(e.(detail := e.detail.(affectedSegments := x)));
            var b := Constructed(e.(detail := e.detail.(affectedSegments := y)));
            && a.id == b.id && DerivedId(a) && DerivedId(b) && !OneContentPerId([a, b])
            && UpsertAll(UpsertAll(s, [a, b], t1).0, [a, b], t2).1 == Counts(0, 2, 0)
  {
    hide Digest, UpsertAll, AllAlike;
    var a := Constructed(e.(detail := e.detail.(affectedSegments := x)));
    var b := Constructed(e.(detail := e.detail.(affectedSegments := y)));
    assert EventKey(a) == EventKey(b);
    var batch := [a, b];
    assert batch[0] == a && batch[1] == b && Content(a) != Content(b);
    var once := UpsertAll(s, batch, t1).0;
    AfterIsLast(s, batch, t1, 1);
    assert LastEntry(batch, b.id) == Some(b);
    var none: seq<Event> := [];
    NoUpsert(once, t2);
    UpsertSnoc(once, none, a, t2);
    UpsertSnoc(once, [a], b, t2);
    assert none + [a] == [a] && [a] + [b] == batch;
  }

  // ----- ingest times --------------------------------------------------------------

  /** The first insert fixes the ingest time for good. */
  lemma IngestTimeNeverChanges(s: Store, batch: seq<Event>, now: Instant, id: string)
    requires id in s
    ensures id in UpsertAll(s, batch, now).0
    ensures UpsertAll(s, batch, now).0[id].ingestedAt == s[id].ingestedAt
  {
    UpsertClosedForm(s, batch, now, id);
  }

  ghost predicate KeepsSources(s: Store, batch: seq<Event>) {
    forall i :: 0 <= i < |batch| && batch[i].id in s ==> batch[i].source == s[batch[i].id].source
  }

  lemma SourceNeverChanges(s: Store, batch: seq<Event>, now: Instant, id: string)
    requires id in s && KeepsSources(s, batch)
    ensures id in UpsertAll(s, batch, now).0 && UpsertAll(s, batch, now).0[id].source == s[id].source
  {
    UpsertClosedForm(s, batch, now, id);
    var last := LastEntry(batch, id);
    if last.Some? {
      var i :| 0 <= i < |batch| && batch[i] == last.value;
    }
  }

  /** The latest ingest time of a source never goes back, whatever the clock does. */
  lemma LatestNeverDecreases(s: Store, batch: seq<Event>, now: Instant, source: string)
    requires WellKeyed(s) && Storable(batch) && KeepsSources(s, batch)
    ensures var before, after := LatestIngest(s, source), LatestIngest(UpsertAll(s, batch, now).0, source);
            before.Some? ==> after.Some? && before.value <= after.value
  {
    hide UpsertAll;
    var before := LatestIngest(s, source);
    if before.Some? {
      var id :| id in s && s[id].source == source && s[id].ingestedAt == before;
      IngestTimeNeverChanges(s, batch, now, id);
      SourceNeverChanges(s, batch, now, id);
    }
  }
}
