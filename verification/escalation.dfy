/** The escalation loop over any stream of candidate alerts: what is stored, what is returned,
    and how often. */
module Escalation {
  import opened Text
  import opened AlertLog

  /** Rank of the stored severity; an alert never seen counts as INFO. */
  function StoredRank(log: Log, id: string): (r: nat)
    ensures r <= 2
  {
    if id in log then SeverityRank(log[id].severity) else 0
  }

  /** `is_escalation and alert.severity != INFO` */
  predicate IsReturned(log: Log, a: Alert) {
    (a.id !in log || SeverityRank(a.severity) > SeverityRank(log[a.id].severity)) && a.severity != Info
  }

  /** Stores every candidate in turn, collecting those returned. */
  function Process(log: Log, cands: seq<Alert>): (Log, seq<Alert>) {
    if cands == [] then (log, [])
    else
      var (log1, out) := Process(log, cands[..|cands| - 1]);
      var a := cands[|cands| - 1];
      (log1[a.id := a], if IsReturned(log1, a) then out + [a] else out)
  }

  lemma ProcessSnoc(log: Log, front: seq<Alert>, a: Alert)
    ensures var (log1, out) := Process(log, front);
            Process(log, front + [a]) == (log1[a.id := a], if IsReturned(log1, a) then out + [a] else out)
  {
    assert (front + [a])[..|front|] == front;
  }

  /** "Returned" is exactly a strict rise of the stored rank. */
  lemma ReturnedIsRise(log: Log, a: Alert)
    ensures IsReturned(log, a) <==> SeverityRank(a.severity) > StoredRank(log, a.id)
  {
  }

  /** Two evaluations in a row process the concatenation. */
  lemma {:induction false} ProcessConcat(log: Log, c1: seq<Alert>, c2: seq<Alert>)
    ensures var (log1, out1) := Process(log, c1);
            var (log2, out2) := Process(log1, c2);
            Process(log, c1 + c2) == (log2, out1 + out2)
  {
    if c2 == [] {
      assert c1 + c2 == c1;
      var out1 := Process(log, c1).1;
      assert out1 + [] == out1;
    } else {
      var front, a := c2[..|c2| - 1], c2[|c2| - 1];
      ProcessConcat(log, c1, front);
      assert c1 + c2 == (c1 + front) + [a];
      ProcessSnoc(log, c1 + front, a);
      var (log1, out1) := Process(log, c1);
      var out := Process(log1, front).1;
      assert out1 + (out + [a]) == (out1 + out) + [a];
    }
  }

  // ----- one id at a time ----------------------------------------------------------

  function OfId(alerts: seq<Alert>, id: string): (r: seq<Alert>)
    ensures forall i :: 0 <= i < |r| ==> r[i].id == id && r[i] in alerts
  {
    if alerts == [] then []
    else
      var front, a := OfId(alerts[..|alerts| - 1], id), alerts[|alerts| - 1];
      if a.id == id then front + [a] else front
  }

  lemma OfIdSnoc(front: seq<Alert>, a: Alert, id: string)
    ensures OfId(front + [a], id) == if a.id == id then OfId(front, id) + [a] else OfId(front, id)
  {
    assert (front + [a])[..|front|] == front;
  }

  lemma NothingProcessed(log: Log, id: string)
    ensures OfId([], id) == [] && Process(log, []) == (log, [])
  {
  }

  lemma SameVerdict(log1: Log, log2: Log, a: Alert)
    requires Lookup(log1, a.id) == Lookup(log2, a.id)
    ensures IsReturned(log1, a) <==> IsReturned(log2, a)
  {
  }

  /** What is stored and returned under an id depends on that id's candidates alone. */
  lemma {:induction false} Locality(log: Log, cands: seq<Alert>, id: string)
    ensures Lookup(Process(log, cands).0, id) == Lookup(Process(log, OfId(cands, id)).0, id)
    ensures OfId(Process(log, cands).1, id) == Process(log, OfId(cands, id)).1
  {
    hide Process, IsReturned, OfId;
    if cands == [] {
      NothingProcessed(log, id);
    } else {
      var front, a := cands[..|cands| - 1], cands[|cands| - 1];
      assert front + [a] == cands;
      Locality(log, front, id);
      ProcessSnoc(log, front, a);
      OfIdSnoc(front, a, id);
      OfIdSnoc(Process(log, front).1, a, id);
      if a.id == id {
        ProcessSnoc(log, OfId(front, id), a);
        SameVerdict(Process(log, front).0, Process(log, OfId(front, id)).0, a);
      }
    }
  }

  /** The stored alert is the last candidate; without one it is what was there before. */
  lemma {:induction false} StoredIsLast(log: Log, cands: seq<Alert>, id: string)
    ensures Lookup(Process(log, cands).0, id)
         == if OfId(cands, id) == [] then Lookup(log, id) else Some(OfId(cands, id)[|OfId(cands, id)| - 1])
  {
    hide Process, OfId, IsReturned;
    if cands == [] {
      NothingProcessed(log, id);
    } else {
      var front, a := cands[..|cands| - 1], cands[|cands| - 1];
      assert front + [a] == cands;
      StoredIsLast(log, front, id);
      ProcessSnoc(log, front, a);
      OfIdSnoc(front, a, id);
    }
  }

  // ----- interrupted passes --------------------------------------------------------

  /** A pass in which the log raises at candidate `fault`: what came before is stored, and nothing
      is returned. */
  function Interrupted(log: Log, cands: seq<Alert>, fault: Option<nat>): (Log, Option<seq<Alert>>) {
    if fault.Some? && fault.value < |cands| then (Process(log, cands[..fault.value]).0, None)
    else
      var (after, out) := Process(log, cands);
      (after, Some(out))
  }

  ghost predicate DistinctAlertIds(cands: seq<Alert>) {
    forall i, j :: 0 <= i < j < |cands| ==> cands[i].id != cands[j].id
  }

  lemma {:induction false} OnlyOfId(cands: seq<Alert>, n: nat, i: nat)
    requires DistinctAlertIds(cands) && n <= |cands| && i < |cands|
    ensures OfId(cands[..n], cands[i].id) == if i < n then [cands[i]] else []
  {
    hide OfId;
    if n == 0 {
      assert cands[..0] == [];
      NothingProcessed(map[], cands[i].id);
    } else {
      OnlyOfId(cands, n - 1, i);
      assert cands[..n] == cands[..n - 1] + [cands[n - 1]];
      OfIdSnoc(cands[..n - 1], cands[n - 1], cands[i].id);
    }
  }

  lemma ProcessOne(log: Log, a: Alert)
    ensures Process(log, [a]).1 == if IsReturned(log, a) then [a] else []
  {
    var none: seq<Alert> := [];
    ProcessSnoc(log, none, a);
    assert none + [a] == [a];
  }

  /** An interrupted pass loses notifications, and exactly those of the candidates it had stored:
      repeating the pass returns nothing for them, and for the others what the first pass would
      have returned. */
  lemma InterruptionLoses(log: Log, cands: seq<Alert>, k: nat, i: nat)
    requires DistinctAlertIds(cands) && k < |cands| && i < |cands|
    ensures var (stored, told) := Interrupted(log, cands, Some(k));
            && told == None
            && OfId(Process(stored, cands).1, cands[i].id)
               == if i < k then [] else OfId(Process(log, cands).1, cands[i].id)
  {
    hide Process, OfId, IsReturned;
    var stored := Process(log, cands[..k]).0;
    var a := cands[i];
    assert cands[..|cands|] == cands;
    OnlyOfId(cands, k, i);
    OnlyOfId(cands, |cands|, i);
    StoredIsLast(log, cands[..k], a.id);
    Locality(stored, cands, a.id);
    Locality(log, cands, a.id);
    ProcessOne(stored, a);
    ProcessOne(log, a);
    if i < k {
      ReturnedIsRise(stored, a);
    } else {
      SameVerdict(stored, log, a);
    }
  }

  /** The candidates that exceed what the log stores under their ids. */
  function Fresh(log: Log, cands: seq<Alert>): seq<Alert> {
    if cands == [] then []
    else
      var front, a := Fresh(log, cands[..|cands| - 1]), cands[|cands| - 1];
      if IsReturned(log, a) then front + [a] else front
  }

  lemma FreshSnoc(log: Log, front: seq<Alert>, a: Alert)
    ensures Fresh(log, front + [a]) == if IsReturned(log, a) then Fresh(log, front) + [a] else Fresh(log, front)
  {
    assert (front + [a])[..|front|] == front;
  }

  lemma {:induction false} FreshConcat(log: Log, a: seq<Alert>, b: seq<Alert>)
    ensures Fresh(log, a + b) == Fresh(log, a) + Fresh(log, b)
  {
    hide IsReturned;
    if b == [] {
      assert a + b == a;
    } else {
      var front, x := b[..|b| - 1], b[|b| - 1];
      FreshConcat(log, a, front);
      assert a + b == (a + front) + [x];
      FreshSnoc(log, a + front, x);
    }
  }

  lemma {:induction false} FreshAlike(log1: Log, log2: Log, cands: seq<Alert>)
    requires forall i :: 0 <= i < |cands| ==> (IsReturned(log1, cands[i]) <==> IsReturned(log2, cands[i]))
    ensures Fresh(log1, cands) == Fresh(log2, cands)
  {
    hide IsReturned;
    if cands == [] {
    } else {
      FreshAlike(log1, log2, cands[..|cands| - 1]);
    }
  }

  lemma {:induction false} NothingFresh(log: Log, cands: seq<Alert>)
    ensures Fresh(log, cands) == [] <==> forall i :: 0 <= i < |cands| ==> !IsReturned(log, cands[i])
  {
    hide IsReturned;
    if cands == [] {
    } else {
      var front := cands[..|cands| - 1];
      assert forall i :: 0 <= i < |front| ==> front[i] == cands[i];
      NothingFresh(log, front);
    }
  }

  /** With distinct ids a pass returns the candidates that are fresh to the log it starts from. */
  lemma {:induction false} DistinctReturns(log: Log, cands: seq<Alert>)
    requires DistinctAlertIds(cands)
    ensures Process(log, cands).1 == Fresh(log, cands)
  {
    hide Process, Fresh, OfId, IsReturned;
    if cands == [] {
      NothingProcessed(log, "");
      NothingFresh(log, cands);
    } else {
      var front, a := cands[..|cands| - 1], cands[|cands| - 1];
      assert front + [a] == cands;
      assert forall i :: 0 <= i < |front| ==> front[i] == cands[i];
      DistinctReturns(log, front);
      ProcessSnoc(log, front, a);
      FreshSnoc(log, front, a);
      OnlyOfId(cands, |front|, |front|);
      StoredIsLast(log, front, a.id);
      SameVerdict(Process(log, front).0, log, a);
    }
  }

  lemma StoredVerdict(log: Log, cands: seq<Alert>, k: nat, i: nat)
    requires DistinctAlertIds(cands) && k <= |cands| && i < |cands|
    ensures IsReturned(Process(log, cands[..k]).0, cands[i]) <==> k <= i && IsReturned(log, cands[i])
  {
    hide Process, OfId, IsReturned;
    var stored := Process(log, cands[..k]).0;
    OnlyOfId(cands, k, i);
    StoredIsLast(log, cands[..k], cands[i].id);
    if i < k {
      ReturnedIsRise(stored, cands[i]);
    } else {
      SameVerdict(stored, log, cands[i]);
    }
  }

  /** Repeating the interrupted pass returns just what was fresh beyond the interruption. So nothing
      is lost exactly when none of the stored candidates was to be returned. */
  lemma InterruptionLosesExactly(log: Log, cands: seq<Alert>, k: nat)
    requires DistinctAlertIds(cands) && k < |cands|
    ensures var stored := Interrupted(log, cands, Some(k)).0;
            && Process(stored, cands).1 == Fresh(log, cands[k..])
            && (Process(stored, cands).1 == Process(log, cands).1
                <==> forall i :: 0 <= i < k ==> !IsReturned(log, cands[i]))
  {
    hide Process, Fresh, IsReturned;
    var stored := Process(log, cands[..k]).0;
    var a, b := cands[..k], cands[k..];
    assert a + b == cands;
    DistinctReturns(stored, cands);
    DistinctReturns(log, cands);
    FreshConcat(stored, a, b);
    FreshConcat(log, a, b);
    forall i | 0 <= i < |cands| ensures IsReturned(stored, cands[i]) <==> k <= i && IsReturned(log, cands[i]) {
      StoredVerdict(log, cands, k, i);
    }
    assert forall i :: 0 <= i < |a| ==> a[i] == cands[i];
    assert forall i :: 0 <= i < |b| ==> b[i] == cands[k + i];
    NothingFresh(stored, a);
    NothingFresh(log, a);
    FreshAlike(stored, log, b);
  }

  // ----- the potential -------------------------------------------------------------

  /** Total by which the stored rank of `id` falls while the candidates are processed. */
  function Drops(log: Log, cands: seq<Alert>, id: string): nat {
    if cands == [] then 0
    else
      var before := Process(log, cands[..|cands| - 1]).0;
      var a := cands[|cands| - 1];
      var fall := if a.id == id && SeverityRank(a.severity) < StoredRank(before, id)
                  then StoredRank(before, id) - SeverityRank(a.severity) else 0;
      Drops(log, cands[..|cands| - 1], id) + fall
  }

  /** Every return raises the stored rank by at least one, and only drops lower it again. */
  lemma {:induction false} Potential(log: Log, cands: seq<Alert>, id: string)
    ensures |OfId(Process(log, cands).1, id)| + StoredRank(log, id)
         <= StoredRank(Process(log, cands).0, id) + Drops(log, cands, id)
  {
    if cands == [] {
    } else {
      var front, a := cands[..|cands| - 1], cands[|cands| - 1];
      Potential(log, front, id);
      OfIdSnoc(Process(log, front).1, a, id);
      ReturnedIsRise(Process(log, front).0, a);
    }
  }

  /** For any rules and any history, an alert id is returned at most twice plus once per unit by
      which its stored severity ever fell. */
  lemma ReturnsBounded(cands: seq<Alert>, id: string)
    ensures |OfId(Process(map[], cands).1, id)| <= 2 + Drops(map[], cands, id)
  {
    Potential(map[], cands, id);
  }

  lemma NothingYet(id: string)
    ensures OfId(Process(map[], []).1, id) == [] && Drops(map[], [], id) == 0
    ensures StoredRank(Process(map[], []).0, id) == 0
  {
  }

  /** One candidate under the id: how the three quantities move. */
  lemma OneMore(log: Log, front: seq<Alert>, a: Alert, id: string)
    requires a.id == id
    ensures var before := StoredRank(Process(log, front).0, id);
            && StoredRank(Process(log, front + [a]).0, id) == SeverityRank(a.severity)
            && |OfId(Process(log, front + [a]).1, id)|
               == |OfId(Process(log, front).1, id)| + (if SeverityRank(a.severity) > before then 1 else 0)
            && Drops(log, front + [a], id)
               == Drops(log, front, id)
                  + (if SeverityRank(a.severity) < before then before - SeverityRank(a.severity) else 0)
  {
    ProcessSnoc(log, front, a);
    ReturnedIsRise(Process(log, front).0, a);
    OfIdSnoc(Process(log, front).1, a, id);
    assert (front + [a])[..|front|] == front;
  }

  /** The bound is met: an alert that falls back to INFO and rises again notifies again. */
  lemma BoundIsMet(a: Alert)
    ensures var w, c, i := a.(severity := Warning), a.(severity := Critical), a.(severity := Info);
            var cands := [w, c, i, w, c];
            |OfId(Process(map[], cands).1, a.id)| == 2 + Drops(map[], cands, a.id) == 4
  {
    var w, c, i := a.(severity := Warning), a.(severity := Critical), a.(severity := Info);
    hide Process, OfId, Drops, IsReturned, StoredRank;
    Potential(map[], [w, c, i, w, c], a.id);
    OneMore(map[], [], w, a.id);
    OneMore(map[], [w], c, a.id);
    OneMore(map[], [w, c], i, a.id);
    OneMore(map[], [w, c, i], w, a.id);
    OneMore(map[], [w, c, i, w], c, a.id);
    assert [] + [w] == [w] && [w] + [c] == [w, c] && [w, c] + [i] == [w, c, i];
    assert [w, c, i] + [w] == [w, c, i, w] && [w, c, i, w] + [c] == [w, c, i, w, c];
    NothingYet(a.id);
  }

  // ----- severities that only rise -------------------------------------------------

  ghost predicate Rising(alerts: seq<Alert>) {
    forall i, j :: 0 <= i < j < |alerts| ==> SeverityRank(alerts[i].severity) <= SeverityRank(alerts[j].severity)
  }

  ghost predicate StrictlyRising(alerts: seq<Alert>) {
    forall i, j :: 0 <= i < j < |alerts| ==> SeverityRank(alerts[i].severity) < SeverityRank(alerts[j].severity)
  }

  /** What holds of an id whose candidates never fall. */
  ghost predicate Tracked(cands: seq<Alert>, log: Log, out: seq<Alert>, id: string) {
    && StrictlyRising(out)
    && (forall i :: 0 <= i < |out| ==> 0 < SeverityRank(out[i].severity) <= StoredRank(log, id))
    && (StoredRank(log, id) > 0 ==> out != [] && SeverityRank(out[|out| - 1].severity) == StoredRank(log, id))
    && StoredRank(log, id) == if cands == [] then 0 else SeverityRank(cands[|cands| - 1].severity)
  }

  lemma TrackedStep(cands: seq<Alert>, log: Log, out: seq<Alert>, id: string, a: Alert)
    requires Tracked(cands, log, out, id) && a.id == id && StoredRank(log, id) <= SeverityRank(a.severity)
    ensures Tracked(cands + [a], log[id := a], if IsReturned(log, a) then out + [a] else out, id)
  {
    ReturnedIsRise(log, a);
  }

  /** If the candidates of an id never fall, the returned ones strictly rise, and the last of
      them is what is stored. */
  lemma {:induction false} RisingReturns(cands: seq<Alert>, id: string)
    requires Rising(cands) && forall i :: 0 <= i < |cands| ==> cands[i].id == id
    ensures Tracked(cands, Process(map[], cands).0, Process(map[], cands).1, id)
  {
    hide SeverityRank, Process, IsReturned;
    if cands == [] {
      NothingProcessed(map[], id);
    } else {
      var front, a := cands[..|cands| - 1], cands[|cands| - 1];
      assert front + [a] == cands;
      RisingReturns(front, id);
      ProcessSnoc(map[], front, a);
      if front != [] {
        assert front[|front| - 1] == cands[|cands| - 2];
      }
      var (log, out) := Process(map[], front);
      assert StoredRank(log, id) <= SeverityRank(a.severity);
      TrackedStep(front, log, out, id, a);
    }
  }

  /** The notification history of an id: nothing, one WARNING, one CRITICAL, or both in order. */
  predicate NotifiedInOrder(severities: seq<Severity>) {
    severities in {[], [Warning], [Critical], [Warning, Critical]}
  }

  function Severities(alerts: seq<Alert>): (r: seq<Severity>)
    ensures |r| == |alerts| && forall i :: 0 <= i < |r| ==> r[i] == alerts[i].severity
  {
    if alerts == [] then [] else [alerts[0].severity] + Severities(alerts[1..])
  }

  lemma SeveritiesSnoc(front: seq<Alert>, a: Alert)
    ensures Severities(front + [a]) == Severities(front) + [a.severity]
  {
  }

  lemma {:induction false} RankAbovePosition(alerts: seq<Alert>, i: nat)
    requires StrictlyRising(alerts) && i < |alerts|
    requires forall j :: 0 <= j < |alerts| ==> 0 < SeverityRank(alerts[j].severity)
    ensures i < SeverityRank(alerts[i].severity)
  {
    if i == 0 {
    } else {
      RankAbovePosition(alerts, i - 1);
    }
  }

  lemma {:induction false} StrictMeansInOrder(alerts: seq<Alert>)
    requires StrictlyRising(alerts)
    requires forall i :: 0 <= i < |alerts| ==> 0 < SeverityRank(alerts[i].severity)
    ensures NotifiedInOrder(Severities(alerts))
  {
    var s := Severities(alerts);
    if alerts == [] {
    } else {
      RankAbovePosition(alerts, |alerts| - 1);
      assert s == if |s| == 1 then [s[0]] else [s[0], s[1]];
    }
  }

  lemma InOrderMeansStrict(alerts: seq<Alert>)
    requires NotifiedInOrder(Severities(alerts))
    ensures StrictlyRising(alerts)
  {
    var s := Severities(alerts);
    assert |s| <= 2;
    assert |s| == 2 ==> s[0] == Warning && s[1] == Critical;
  }

  // ----- exactly when each tier is notified at most once ---------------------------

  function RankAt(s: seq<Severity>, i: nat): nat
    requires i < |s|
  {
    SeverityRank(s[i])
  }

  predicate ClimbsAt(s: seq<Severity>, i: nat)
    requires i < |s|
  {
    i > 0 && RankAt(s, i - 1) < RankAt(s, i)
  }

  /** Whoever grades above the one before it grades above everyone before it: a tier that was left
      is not reached again by rising. */
  ghost predicate NeverReclimbs(s: seq<Severity>) {
    forall i: nat, j: nat :: j < i < |s| && ClimbsAt(s, i) ==> RankAt(s, j) < RankAt(s, i)
  }

  /** The highest rank so far; INFO before anything. */
  function Peak(s: seq<Severity>): (p: nat)
    ensures forall i :: 0 <= i < |s| ==> SeverityRank(s[i]) <= p
    ensures p == 0 || exists i :: 0 <= i < |s| && SeverityRank(s[i]) == p
  {
    if s == [] then 0
    else
      var front, rank := Peak(s[..|s| - 1]), SeverityRank(s[|s| - 1]);
      if front < rank then rank else front
  }

  function LastRank(s: seq<Severity>): nat {
    if s == [] then 0 else SeverityRank(s[|s| - 1])
  }

  lemma PeakSnoc(front: seq<Severity>, x: Severity)
    ensures Peak(front + [x]) == if Peak(front) < SeverityRank(x) then SeverityRank(x) else Peak(front)
  {
    assert (front + [x])[..|front|] == front;
  }

  lemma RankSnoc(front: seq<Severity>, x: Severity)
    ensures forall i: nat :: i < |front| ==> RankAt(front + [x], i) == RankAt(front, i)
    ensures forall i: nat :: i < |front| ==> (ClimbsAt(front + [x], i) <==> ClimbsAt(front, i))
    ensures RankAt(front + [x], |front|) == SeverityRank(x)
    ensures front != [] ==> (ClimbsAt(front + [x], |front|) <==> LastRank(front) < SeverityRank(x))
  {
    hide SeverityRank;
    var s := front + [x];
    assert forall i :: 0 <= i < |front| ==> s[i] == front[i];
  }

  /** The peak is below a positive rank exactly when every grade is. */
  lemma PeakBelow(s: seq<Severity>, rank: nat)
    requires rank > 0
    ensures Peak(s) < rank <==> forall i: nat :: i < |s| ==> RankAt(s, i) < rank
  {
    hide SeverityRank;
    if Peak(s) > 0 {
      var k :| 0 <= k < |s| && SeverityRank(s[k]) == Peak(s);
      assert RankAt(s, k) == Peak(s);
    }
  }

  lemma NothingClimbs()
    ensures NeverReclimbs([]) && StrictlyRising([]) && Peak([]) == 0 && LastRank([]) == 0
  {
  }

  lemma ReclimbSnoc(front: seq<Severity>, x: Severity)
    ensures NeverReclimbs(front + [x]) <==>
            NeverReclimbs(front) && (LastRank(front) < SeverityRank(x) ==> Peak(front) < SeverityRank(x))
  {
    hide SeverityRank, RankAt, ClimbsAt, Peak;
    var s := front + [x];
    RankSnoc(front, x);
    if front == [] {
      assert Peak(front) == 0 by { NothingClimbs(); }
    } else if LastRank(front) < SeverityRank(x) {
      PeakBelow(front, SeverityRank(x));
      if NeverReclimbs(s) {
        forall j: nat | j < |front| ensures RankAt(front, j) < SeverityRank(x) {
          assert RankAt(s, j) < RankAt(s, |front|);
        }
      }
    }
    if NeverReclimbs(s) {
      forall i: nat, j: nat | j < i < |front| && ClimbsAt(front, i) ensures RankAt(front, j) < RankAt(front, i) {
        assert RankAt(s, j) < RankAt(s, i);
      }
    }
  }

  lemma RisingSnoc(out: seq<Alert>, a: Alert)
    requires SeverityRank(a.severity) > 0
    ensures StrictlyRising(out + [a]) <==> StrictlyRising(out) && Peak(Severities(out)) < SeverityRank(a.severity)
  {
    hide SeverityRank, Peak;
    var s, all := Severities(out), out + [a];
    assert forall i :: 0 <= i < |out| ==> all[i] == out[i];
    assert all[|out|] == a;
    PeakBelow(s, SeverityRank(a.severity));
    forall j: nat | j < |out| ensures RankAt(s, j) == SeverityRank(out[j].severity) {
    }
    if StrictlyRising(all) {
      forall j: nat | j < |out| ensures RankAt(s, j) < SeverityRank(a.severity) {
        assert SeverityRank(all[j].severity) < SeverityRank(all[|out|].severity);
      }
    }
    if Peak(s) < SeverityRank(a.severity) {
      forall j: nat | j < |out| ensures SeverityRank(out[j].severity) < SeverityRank(a.severity) {
        assert RankAt(s, j) < SeverityRank(a.severity);
      }
    }
  }

  lemma LastBelowPeak(s: seq<Severity>)
    ensures LastRank(s) <= Peak(s)
  {
  }

  /** For the candidates of one id: the returned ones strictly rise exactly when the candidates never
      climb again to a tier that they had reached. */
  lemma {:induction false} ReturnsRiseExactly(cands: seq<Alert>, id: string)
    requires forall i :: 0 <= i < |cands| ==> cands[i].id == id
    ensures StrictlyRising(Process(map[], cands).1) <==> NeverReclimbs(Severities(cands))
    ensures Peak(Severities(Process(map[], cands).1)) == Peak(Severities(cands))
    ensures StoredRank(Process(map[], cands).0, id) == LastRank(Severities(cands))
  {
    hide Process, IsReturned, SeverityRank, Peak, NeverReclimbs, StrictlyRising;
    if cands == [] {
      NothingProcessed(map[], id);
      NothingClimbs();
    } else {
      var front, a := cands[..|cands| - 1], cands[|cands| - 1];
      assert front + [a] == cands;
      ReturnsRiseExactly(front, id);
      ProcessSnoc(map[], front, a);
      var (log, out) := Process(map[], front);
      ReturnedIsRise(log, a);
      SeveritiesSnoc(front, a);
      SeveritiesSnoc(out, a);
      ReclimbSnoc(Severities(front), a.severity);
      PeakSnoc(Severities(front), a.severity);
      PeakSnoc(Severities(out), a.severity);
      LastBelowPeak(Severities(front));
      if IsReturned(log, a) {
        RisingSnoc(out, a);
      }
    }
  }

  lemma {:induction false} ReturnedNotInfo(log: Log, cands: seq<Alert>, a: Alert)
    requires a in Process(log, cands).1
    ensures a in cands && SeverityRank(a.severity) > 0
  {
    hide SeverityRank;
    if cands == [] {
    } else {
      var front, last := cands[..|cands| - 1], cands[|cands| - 1];
      ReturnedIsRise(Process(log, front).0, last);
      if a in Process(log, front).1 {
        ReturnedNotInfo(log, front, a);
      }
    }
  }

  /** For any candidates whatever, an id is notified at most once per tier and in order exactly when
      its own candidates never climb again. */
  lemma InOrderExactly(cands: seq<Alert>, id: string)
    ensures NotifiedInOrder(Severities(OfId(Process(map[], cands).1, id)))
       <==> NeverReclimbs(Severities(OfId(cands, id)))
  {
    hide Process, OfId, NeverReclimbs, StrictlyRising, NotifiedInOrder, SeverityRank;
    Locality(map[], cands, id);
    ReturnsRiseExactly(OfId(cands, id), id);
    var out := Process(map[], OfId(cands, id)).1;
    forall i | 0 <= i < |out| ensures SeverityRank(out[i].severity) > 0 {
      ReturnedNotInfo(map[], OfId(cands, id), out[i]);
    }
    if StrictlyRising(out) {
      StrictMeansInOrder(out);
    }
    if NotifiedInOrder(Severities(out)) {
      InOrderMeansStrict(out);
    }
  }

  /** Grades that never fall never climb again. */
  lemma RisingNeverReclimbs(s: seq<Severity>)
    requires forall i: nat, j: nat :: j < i < |s| ==> RankAt(s, j) <= RankAt(s, i)
    ensures NeverReclimbs(s)
  {
    hide RankAt;
    forall i: nat, j: nat | j < i < |s| && ClimbsAt(s, i) ensures RankAt(s, j) < RankAt(s, i) {
      assert j < i - 1 ==> RankAt(s, j) <= RankAt(s, i - 1);
    }
  }

  // ----- parts of a stream ---------------------------------------------------------

  /** `a` is `b` with some elements left out. */
  predicate Sublist(a: seq<Alert>, b: seq<Alert>) {
    if a == [] then true
    else if b == [] then false
    else
      || (a[|a| - 1] == b[|b| - 1] && Sublist(a[..|a| - 1], b[..|b| - 1]))
      || Sublist(a, b[..|b| - 1])
  }

  lemma {:induction false} SublistSnoc(a: seq<Alert>, b: seq<Alert>, x: Alert)
    requires Sublist(a, b)
    ensures Sublist(a, b + [x]) && Sublist(a + [x], b + [x])
  {
    assert (b + [x])[..|b|] == b && (a + [x])[..|a|] == a;
  }

  lemma {:induction false} SublistConcat(a: seq<Alert>, b: seq<Alert>, c: seq<Alert>, d: seq<Alert>)
    requires Sublist(a, b) && Sublist(c, d)
    ensures Sublist(a + c, b + d)
    decreases |d|
  {
    if d == [] {
      assert a + c == a && b + d == b;
    } else {
      var rest, x := d[..|d| - 1], d[|d| - 1];
      assert b + d == (b + rest) + [x];
      if c != [] && c[|c| - 1] == x && Sublist(c[..|c| - 1], rest) {
        SublistConcat(a, b, c[..|c| - 1], rest);
        assert a + c == (a + c[..|c| - 1]) + [x];
        SublistSnoc(a + c[..|c| - 1], b + rest, x);
      } else {
        SublistConcat(a, b, c, rest);
        SublistSnoc(a + c, b + rest, x);
      }
    }
  }

  lemma {:induction false} SublistSelf(a: seq<Alert>)
    ensures Sublist(a, a) && Sublist([], a)
  {
    if a == [] {
    } else {
      SublistSelf(a[..|a| - 1]);
    }
  }

  lemma {:induction false} SublistMembers(a: seq<Alert>, b: seq<Alert>)
    requires Sublist(a, b)
    ensures forall x :: x in a ==> x in b
    decreases |b|
  {
    if a == [] {
    } else if a[|a| - 1] == b[|b| - 1] && Sublist(a[..|a| - 1], b[..|b| - 1]) {
      SublistMembers(a[..|a| - 1], b[..|b| - 1]);
      assert a == a[..|a| - 1] + [a[|a| - 1]];
    } else {
      SublistMembers(a, b[..|b| - 1]);
    }
  }

  lemma SublistStep(a: seq<Alert>, b: seq<Alert>)
    requires Sublist(a, b) && a != []
    ensures b != []
    ensures (a[|a| - 1] == b[|b| - 1] && Sublist(a[..|a| - 1], b[..|b| - 1])) || Sublist(a, b[..|b| - 1])
  {
  }

  lemma {:induction false} SublistOfId(a: seq<Alert>, b: seq<Alert>, id: string)
    requires Sublist(a, b)
    ensures Sublist(OfId(a, id), OfId(b, id))
    decreases |b|
  {
    hide OfId, Sublist;
    if a == [] {
      NothingProcessed(map[], id);
      SublistSelf(OfId(b, id));
    } else {
      SublistStep(a, b);
      var rest, y := b[..|b| - 1], b[|b| - 1];
      assert b == rest + [y];
      OfIdSnoc(rest, y, id);
      if a[|a| - 1] == y && Sublist(a[..|a| - 1], rest) {
        assert a == a[..|a| - 1] + [y];
        OfIdSnoc(a[..|a| - 1], y, id);
        SublistOfId(a[..|a| - 1], rest, id);
        SublistSnoc(OfId(a[..|a| - 1], id), OfId(rest, id), y);
      } else {
        SublistOfId(a, rest, id);
        SublistSnoc(OfId(a, id), OfId(rest, id), y);
      }
    }
  }

  lemma {:induction false} SublistRises(a: seq<Alert>, b: seq<Alert>)
    requires Sublist(a, b) && StrictlyRising(b)
    ensures StrictlyRising(a)
    decreases |b|
  {
    hide SeverityRank, Sublist;
    if a == [] {
    } else {
      SublistStep(a, b);
      var rest, y := b[..|b| - 1], b[|b| - 1];
      assert forall i :: 0 <= i < |rest| ==> rest[i] == b[i];
      if a[|a| - 1] == y && Sublist(a[..|a| - 1], rest) {
        SublistRises(a[..|a| - 1], rest);
        SublistMembers(a[..|a| - 1], rest);
        forall i | 0 <= i < |a| - 1 ensures SeverityRank(a[i].severity) < SeverityRank(y.severity) {
          assert a[..|a| - 1][i] in rest;
          var m :| 0 <= m < |rest| && rest[m] == a[i];
          assert b[m] == a[i] && b[|rest|] == y;
        }
      } else {
        SublistRises(a, rest);
      }
    }
  }
}
