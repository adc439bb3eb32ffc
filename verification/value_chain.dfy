/** Carrying the previous value along a series of observations, and windowing the result. */
module ValueChain {
  import opened Text
  import opened Calendar

  /** One observation of a series, in the order in which the adapter walks them. */
  datatype Reading<T> = Reading(day: Date, value: Option<string>, row: T)

  /** A reading with the previous value that was carried up to it. */
  datatype Linked<T> = Linked(reading: Reading<T>, previous: Option<string>)

  /** The raw record that an adapter hands to its normalizer. `day` is written as its ISO text. */
  datatype ReleaseRecord = ReleaseRecord(
    code: string, name: string, day: Date, period: string, actual: Option<string>, previous: Option<string>,
    unit: string, agency: string, id: string)

  /** `value or previous` */
  function Carry(value: Option<string>, previous: Option<string>): Option<string> {
    if value == None || value == Some("") then previous else value
  }

  /** The carried value after all the readings. */
  function Carried<T>(rs: seq<Reading<T>>): Option<string> {
    if rs == [] then None else Carry(rs[|rs| - 1].value, Carried(rs[..|rs| - 1]))
  }

  /** The readings of the window, each with what was carried up to it. */
  function Link<T>(rs: seq<Reading<T>>, w: DateRange): seq<Linked<T>> {
    if rs == [] then []
    else
      var front, r := rs[..|rs| - 1], rs[|rs| - 1];
      if w.Contains(r.day) then Link(front, w) + [Linked(r, Carried(front))] else Link(front, w)
  }

  lemma LinkSnoc<T>(front: seq<Reading<T>>, r: Reading<T>, w: DateRange)
    ensures Carried(front + [r]) == Carry(r.value, Carried(front))
    ensures Link(front + [r], w)
         == if w.Contains(r.day) then Link(front, w) + [Linked(r, Carried(front))] else Link(front, w)
  {
    assert (front + [r])[..|front|] == front;
  }

  // ----- windowing -----------------------------------------------------------------

  function Within(records: seq<ReleaseRecord>, w: DateRange): seq<ReleaseRecord> {
    if records == [] then []
    else
      var front := Within(records[..|records| - 1], w);
      if w.Contains(records[|records| - 1].day) then front + [records[|records| - 1]] else front
  }

  lemma WithinSnoc(front: seq<ReleaseRecord>, r: ReleaseRecord, w: DateRange)
    ensures Within(front + [r], w) == if w.Contains(r.day) then Within(front, w) + [r] else Within(front, w)
  {
    assert (front + [r])[..|front|] == front;
  }

  lemma {:induction false} WithinConcat(a: seq<ReleaseRecord>, b: seq<ReleaseRecord>, w: DateRange)
    ensures Within(a + b, w) == Within(a, w) + Within(b, w)
  {
    if b == [] {
      assert a + b == a;
    } else {
      var front, r := b[..|b| - 1], b[|b| - 1];
      assert a + b == (a + front) + [r];
      WithinConcat(a, front, w);
      WithinSnoc(a + front, r, w);
    }
  }

  function Render<T>(f: Linked<T> -> ReleaseRecord, links: seq<Linked<T>>): (r: seq<ReleaseRecord>)
    ensures |r| == |links| && forall i :: 0 <= i < |r| ==> r[i] == f(links[i])
  {
    if links == [] then [] else Render(f, links[..|links| - 1]) + [f(links[|links| - 1])]
  }

  lemma RenderSnoc<T>(f: Linked<T> -> ReleaseRecord, front: seq<Linked<T>>, l: Linked<T>)
    ensures Render(f, front + [l]) == Render(f, front) + [f(l)]
  {
    assert (front + [l])[..|front|] == front;
  }

  /** Linking a window is linking everything and then keeping the window. */
  lemma {:induction false} LinkIsFilter<T(!new)>(f: Linked<T> -> ReleaseRecord, rs: seq<Reading<T>>, w: DateRange)
    requires forall l :: f(l).day == l.reading.day
    ensures Render(f, Link(rs, w)) == Within(Render(f, Link(rs, ALL_DAYS)), w)
  {
    if rs == [] {
    } else {
      var front, r := rs[..|rs| - 1], rs[|rs| - 1];
      assert rs == front + [r];
      var l := Linked(r, Carried(front));
      LinkIsFilter(f, front, w);
      LinkSnoc(front, r, w);
      LinkSnoc(front, r, ALL_DAYS);
      RenderSnoc(f, Link(front, ALL_DAYS), l);
      RenderSnoc(f, Link(front, w), l);
      WithinSnoc(Render(f, Link(front, ALL_DAYS)), f(l), w);
    }
  }

  // ----- what is carried -----------------------------------------------------------

  predicate Gap(v: Option<string>) {
    v == None || v == Some("")
  }

  /** `p` is the last value before position `n` that is not a gap. */
  ghost predicate LatestEarlier<T(!new)>(rs: seq<Reading<T>>, n: nat, p: Option<string>)
    requires n <= |rs|
  {
    if p.None? then forall k :: 0 <= k < n ==> Gap(rs[k].value)
    else
      exists k :: 0 <= k < n && rs[k].value == p && !Gap(p) && forall m :: k < m < n ==> Gap(rs[m].value)
  }

  lemma {:induction false} CarriedIsLatest<T(!new)>(rs: seq<Reading<T>>)
    ensures LatestEarlier(rs, |rs|, Carried(rs))
  {
    if rs == [] {
    } else {
      var front := rs[..|rs| - 1];
      CarriedIsLatest(front);
      assert forall k :: 0 <= k < |front| ==> rs[k] == front[k];
    }
  }

  lemma LatestOfPrefix<T(!new)>(front: seq<Reading<T>>, rs: seq<Reading<T>>, n: nat, p: Option<string>)
    requires |front| <= |rs| && front == rs[..|front|] && n <= |front| && LatestEarlier(front, n, p)
    ensures LatestEarlier(rs, n, p)
  {
    assert forall k :: 0 <= k < |front| ==> rs[k] == front[k];
  }

  /** Every linked reading is a reading of the window, and its previous value is the latest
      earlier value of the whole series, whether or not that one lies in the window. */
  lemma {:induction false} PreviousIsLatestEarlier<T(!new)>(rs: seq<Reading<T>>, w: DateRange, j: nat)
    requires j < |Link(rs, w)|
    ensures exists i :: 0 <= i < |rs| && rs[i] == Link(rs, w)[j].reading && w.start <= rs[i].day <= w.end
                        && LatestEarlier(rs, i, Link(rs, w)[j].previous)
  {
    hide LatestEarlier;
    var front := rs[..|rs| - 1];
    if j < |Link(front, w)| {
      PreviousIsLatestEarlier(front, w, j);
      var i :| 0 <= i < |front| && front[i] == Link(front, w)[j].reading && w.Contains(front[i].day)
               && LatestEarlier(front, i, Link(front, w)[j].previous);
      LatestOfPrefix(front, rs, i, Link(front, w)[j].previous);
      assert rs[i] == front[i];
    } else {
      CarriedIsLatest(front);
      LatestOfPrefix(front, rs, |front|, Carried(front));
      assert rs[|front|] == Link(rs, w)[j].reading;
    }
  }

  /** Every reading of the window is linked: none is dropped. */
  lemma {:induction false} EveryReadingLinked<T(!new)>(rs: seq<Reading<T>>, w: DateRange, i: nat)
    requires i < |rs| && w.start <= rs[i].day <= w.end
    ensures exists j :: 0 <= j < |Link(rs, w)| && Link(rs, w)[j].reading == rs[i]
  {
    var front, r := rs[..|rs| - 1], rs[|rs| - 1];
    if i < |front| {
      EveryReadingLinked(front, w, i);
      var j :| 0 <= j < |Link(front, w)| && Link(front, w)[j].reading == front[i];
      assert Link(rs, w)[j] == Link(front, w)[j];
    } else {
      assert Link(rs, w)[|Link(front, w)|].reading == rs[i];
    }
  }

  ghost predicate Chronological<T(!new)>(rs: seq<Reading<T>>) {
    forall i, j :: 0 <= i < j < |rs| ==> rs[i].day < rs[j].day
  }

  /** `p` is the value of the latest day before `day` that has one. */
  ghost predicate LatestBefore<T(!new)>(rs: seq<Reading<T>>, day: Date, p: Option<string>) {
    if p.None? then forall k :: 0 <= k < |rs| && rs[k].day < day ==> Gap(rs[k].value)
    else
      exists k :: 0 <= k < |rs| && rs[k].day < day && rs[k].value == p && !Gap(p)
                  && forall m :: 0 <= m < |rs| && rs[k].day < rs[m].day < day ==> Gap(rs[m].value)
  }

  lemma EarlierIsBefore<T(!new)>(rs: seq<Reading<T>>, i: nat, p: Option<string>)
    requires Chronological(rs) && i < |rs| && LatestEarlier(rs, i, p)
    ensures LatestBefore(rs, rs[i].day, p)
  {
    hide Gap;
    assert forall k :: 0 <= k < |rs| && rs[k].day < rs[i].day ==> k < i;
    if p.Some? {
      var k :| 0 <= k < i && rs[k].value == p && !Gap(p) && forall m :: k < m < i ==> Gap(rs[m].value);
      forall m | 0 <= m < |rs| && rs[k].day < rs[m].day < rs[i].day ensures Gap(rs[m].value) {
        assert k < m < i;
      }
    }
  }

  /** Walking a series in date order carries the value of the latest earlier date. */
  lemma PreviousIsLatestBefore<T(!new)>(rs: seq<Reading<T>>, w: DateRange, j: nat)
    requires Chronological(rs) && j < |Link(rs, w)|
    ensures LatestBefore(rs, Link(rs, w)[j].reading.day, Link(rs, w)[j].previous)
  {
    hide Link, LatestEarlier, LatestBefore, Chronological;
    PreviousIsLatestEarlier(rs, w, j);
    var l := Link(rs, w)[j];
    var i :| 0 <= i < |rs| && rs[i] == l.reading && LatestEarlier(rs, i, l.previous);
    EarlierIsBefore(rs, i, l.previous);
  }
}
