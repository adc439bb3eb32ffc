/** Sorting by a key that tells all items apart: there is only one sorted sequence. */
module Ordering {
  ghost predicate StrictTotalOn<T(!new)>(before: (T, T) -> bool, s: set<T>) {
    && (forall x :: x in s ==> !before(x, x))
    && (forall x, y, z :: x in s && y in s && z in s && before(x, y) && before(y, z) ==> before(x, z))
    && (forall x, y :: x in s && y in s ==> x == y || before(x, y) || before(y, x))
  }

  ghost predicate Ascending<T(!new)>(before: (T, T) -> bool, r: seq<T>) {
    forall i, j :: 0 <= i < j < |r| ==> before(r[i], r[j])
  }

  ghost function Elements<T>(r: seq<T>): set<T> {
    set x | x in r
  }

  ghost predicate IsLeast<T(!new)>(before: (T, T) -> bool, x: T, s: set<T>) {
    x in s && forall y :: y in s ==> y == x || before(x, y)
  }

  lemma LeastExists<T(!new)>(before: (T, T) -> bool, s: set<T>)
    requires s != {} && StrictTotalOn(before, s)
    ensures exists x :: IsLeast(before, x, s)
    decreases |s|
  {
    var x :| x in s;
    var rest := s - {x};
    if rest == {} {
      assert s == {x};
      assert IsLeast(before, x, s);
    } else {
      LeastExists(before, rest);
      var y :| IsLeast(before, y, rest);
      assert IsLeast(before, if before(x, y) then x else y, s);
    }
  }

  lemma ElementsCons<T>(x: T, r: seq<T>)
    ensures Elements([x] + r) == {x} + Elements(r)
  {
    assert forall y :: y in [x] + r <==> y == x || y in r;
  }

  lemma SubsetTotal<T(!new)>(before: (T, T) -> bool, s: set<T>, t: set<T>)
    requires StrictTotalOn(before, s) && t <= s
    ensures StrictTotalOn(before, t)
  {
  }

  lemma PrependLeast<T(!new)>(before: (T, T) -> bool, s: set<T>, x: T, rest: seq<T>)
    requires IsLeast(before, x, s) && Ascending(before, rest) && Elements(rest) == s - {x}
    ensures Ascending(before, [x] + rest) && Elements([x] + rest) == s
  {
    ElementsCons(x, rest);
    forall i | 0 <= i < |rest| ensures before(x, rest[i]) {
      assert rest[i] in Elements(rest);
    }
  }

  /** The items of `s` in order. */
  ghost function InOrder<T(!new)>(before: (T, T) -> bool, s: set<T>): (r: seq<T>)
    requires StrictTotalOn(before, s)
    ensures Ascending(before, r) && Elements(r) == s
    decreases |s|
  {
    if s == {} then []
    else
      LeastExists(before, s);
      var x :| IsLeast(before, x, s);
      SubsetTotal(before, s, s - {x});
      var rest := InOrder(before, s - {x});
      PrependLeast(before, s, x, rest);
      [x] + rest
  }

  lemma HeadFirst<T(!new)>(before: (T, T) -> bool, r: seq<T>)
    requires r != [] && Ascending(before, r)
    ensures forall x :: x in Elements(r) ==> x == r[0] || before(r[0], x)
  {
    assert forall i :: 0 < i < |r| ==> before(r[0], r[i]);
  }

  lemma SameHead<T(!new)>(before: (T, T) -> bool, r: seq<T>, q: seq<T>)
    requires StrictTotalOn(before, Elements(r)) && Elements(r) == Elements(q)
    requires Ascending(before, r) && Ascending(before, q) && r != [] && q != []
    ensures r[0] == q[0]
  {
    assert r[0] in Elements(r) && q[0] in Elements(q);
    HeadFirst(before, r);
    HeadFirst(before, q);
  }

  lemma TailElements<T(!new)>(before: (T, T) -> bool, r: seq<T>)
    requires r != [] && StrictTotalOn(before, Elements(r)) && Ascending(before, r)
    ensures Elements(r[1..]) == Elements(r) - {r[0]}
    ensures StrictTotalOn(before, Elements(r[1..])) && Ascending(before, r[1..])
  {
    assert forall i :: 0 < i < |r| ==> before(r[0], r[i]) && r[i] in Elements(r);
    assert r[0] in Elements(r);
    assert r == [r[0]] + r[1..];
    ElementsCons(r[0], r[1..]);
    assert forall i :: 0 <= i < |r[1..]| ==> r[1..][i] == r[i + 1];
  }

  /** Two ascending sequences of the same items are the same sequence. */
  lemma {:induction false} AscendingUnique<T(!new)>(before: (T, T) -> bool, r: seq<T>, q: seq<T>)
    requires StrictTotalOn(before, Elements(r)) && Elements(r) == Elements(q)
    requires Ascending(before, r) && Ascending(before, q)
    ensures r == q
    decreases |r|
  {
    if r == [] {
      assert forall i :: 0 <= i < |q| ==> q[i] in Elements(q);
    } else {
      assert r[0] in Elements(q);
      assert q != [] && q[0] in Elements(r);
      SameHead(before, r, q);
      TailElements(before, r);
      TailElements(before, q);
      AscendingUnique(before, r[1..], q[1..]);
      assert r == [r[0]] + r[1..] && q == [q[0]] + q[1..];
    }
  }

  function Map<T, U>(f: T -> U, r: seq<T>): (q: seq<U>)
    ensures |q| == |r| && forall i :: 0 <= i < |r| ==> q[i] == f(r[i])
  {
    if r == [] then [] else [f(r[0])] + Map(f, r[1..])
  }

  lemma InOrderStep<T(!new)>(before: (T, T) -> bool, s: set<T>, x: T)
    requires StrictTotalOn(before, s) && IsLeast(before, x, s)
    ensures InOrder(before, s) == [x] + InOrder(before, s - {x})
  {
    forall y | IsLeast(before, y, s) ensures y == x {
    }
  }

  lemma InOrderEmpty<T(!new)>(before: (T, T) -> bool)
    ensures InOrder(before, {}) == []
  {
  }

  lemma LeastIn<T(!new)>(before: (T, T) -> bool, x: T, s: set<T>)
    requires IsLeast(before, x, s)
    ensures x in s
  {
  }

  lemma {:induction false} InOrderLength<T(!new)>(before: (T, T) -> bool, s: set<T>)
    requires StrictTotalOn(before, s)
    ensures |InOrder(before, s)| == |s|
    decreases |s|
  {
    hide StrictTotalOn, IsLeast;
    if s == {} {
      InOrderEmpty(before);
    } else {
      LeastExists(before, s);
      var x :| IsLeast(before, x, s);
      assert x in s by { LeastIn(before, x, s); }
      InOrderStep(before, s, x);
      SubsetTotal(before, s, s - {x});
      InOrderLength(before, s - {x});
    }
  }

  /** Sorts by repeatedly taking the least item. */
  method Sort<T(!new, ==)>(before: (T, T) -> bool, items: set<T>) returns (r: seq<T>)
    requires StrictTotalOn(before, items)
    ensures r == InOrder(before, items)
  {
    hide StrictTotalOn, InOrder, Ascending, Elements;
    r := [];
    var rest := items;
    while rest != {}
      invariant rest <= items && StrictTotalOn(before, rest)
      invariant r + InOrder(before, rest) == InOrder(before, items)
      decreases |rest|
    {
      LeastExists(before, rest);
      var x :| x in rest && forall y :: y in rest ==> y == x || before(x, y);
      InOrderStep(before, rest, x);
      SubsetTotal(before, rest, rest - {x});
      ghost var tail := InOrder(before, rest - {x});
      assert r + ([x] + tail) == (r + [x]) + tail;
      r := r + [x];
      rest := rest - {x};
    }
    assert r + InOrder(before, {}) == r by { InOrderEmpty(before); }
  }

  // ----- stable sorting ------------------------------------------------------------

  function Insert<T>(atMost: (T, T) -> bool, x: T, r: seq<T>): seq<T> {
    if r == [] || atMost(x, r[0]) then [x] + r
    else [r[0]] + Insert(atMost, x, r[1..])
  }

  /** `sorted(items, key=...)`: stable, so items with equal keys keep their order. */
  function StableSort<T>(atMost: (T, T) -> bool, items: seq<T>): seq<T> {
    if items == [] then [] else Insert(atMost, items[0], StableSort(atMost, items[1..]))
  }

  ghost predicate TotalPreorder<T(!new)>(atMost: (T, T) -> bool) {
    && (forall a, b :: atMost(a, b) || atMost(b, a))
    && (forall a, b, c :: atMost(a, b) && atMost(b, c) ==> atMost(a, c))
  }

  ghost predicate NonDescending<T(!new)>(atMost: (T, T) -> bool, r: seq<T>) {
    forall i, j :: 0 <= i < j < |r| ==> atMost(r[i], r[j])
  }

  lemma {:induction false} InsertMultiset<T>(atMost: (T, T) -> bool, x: T, r: seq<T>)
    ensures multiset(Insert(atMost, x, r)) == multiset{x} + multiset(r)
  {
    if r == [] {
    } else {
      assert r == [r[0]] + r[1..];
      InsertMultiset(atMost, x, r[1..]);
    }
  }

  /** Sorting rearranges. */
  lemma {:induction false} StableSortMultiset<T>(atMost: (T, T) -> bool, items: seq<T>)
    ensures multiset(StableSort(atMost, items)) == multiset(items)
    ensures |StableSort(atMost, items)| == |items|
  {
    if items == [] {
    } else {
      assert items == [items[0]] + items[1..];
      StableSortMultiset(atMost, items[1..]);
      InsertMultiset(atMost, items[0], StableSort(atMost, items[1..]));
      assert |multiset(StableSort(atMost, items))| == |multiset(items)|;
    }
  }

  lemma {:induction false} InsertAscends<T(!new)>(atMost: (T, T) -> bool, x: T, r: seq<T>)
    requires TotalPreorder(atMost) && NonDescending(atMost, r)
    ensures NonDescending(atMost, Insert(atMost, x, r))
  {
    if r == [] {
    } else if atMost(x, r[0]) {
      forall j | 0 <= j < |r| ensures atMost(x, r[j]) {
        assert j > 0 ==> atMost(r[0], r[j]);
      }
    } else {
      var tail := Insert(atMost, x, r[1..]);
      InsertAscends(atMost, x, r[1..]);
      InsertMultiset(atMost, x, r[1..]);
      forall i | 0 <= i < |tail| ensures atMost(r[0], tail[i]) {
        assert tail[i] in multiset(tail);
        assert tail[i] == x || tail[i] in r[1..];
      }
    }
  }

  lemma {:induction false} StableSortAscends<T(!new)>(atMost: (T, T) -> bool, items: seq<T>)
    requires TotalPreorder(atMost)
    ensures NonDescending(atMost, StableSort(atMost, items))
  {
    hide TotalPreorder;
    if items == [] {
    } else {
      StableSortAscends(atMost, items[1..]);
      InsertAscends(atMost, items[0], StableSort(atMost, items[1..]));
    }
  }

  lemma StableSortPair<T>(atMost: (T, T) -> bool, a: T, b: T)
    ensures StableSort(atMost, [a, b]) == if atMost(a, b) then [a, b] else [b, a]
  {
    var none: seq<T> := [];
    assert [a, b][1..] == [b] && [b][1..] == none;
    assert StableSort(atMost, none) == none;
    assert Insert(atMost, b, none) == [b];
    assert StableSort(atMost, [b]) == [b];
    assert Insert(atMost, a, none) == [a];
  }

  /** Two sequences with the same items, as often. */
  lemma SameMembers<T>(a: seq<T>, b: seq<T>)
    requires multiset(a) == multiset(b)
    ensures forall x :: x in a <==> x in b
    ensures |a| == |b|
  {
    forall x ensures x in a <==> x in b {
      assert x in a <==> x in multiset(a);
      assert x in b <==> x in multiset(b);
    }
    assert |a| == |multiset(a)| && |b| == |multiset(b)|;
  }

  /** The item at `i` is among the first, and the earliest of them. */
  ghost predicate EarliestLeast<T(!new)>(atMost: (T, T) -> bool, items: seq<T>, i: nat) {
    && i < |items|
    && (forall j :: 0 <= j < |items| ==> atMost(items[i], items[j]))
    && (forall j :: 0 <= j < i ==> !atMost(items[j], items[i]))
  }

  /** A stable sort starts with the earliest of the least items. */
  lemma {:induction false} StableSortHead<T(!new)>(atMost: (T, T) -> bool, items: seq<T>)
    requires TotalPreorder(atMost) && items != []
    ensures StableSort(atMost, items) != []
    ensures exists i: nat :: EarliestLeast(atMost, items, i) && StableSort(atMost, items)[0] == items[i]
  {
    var rest := items[1..];
    if rest == [] {
      assert EarliestLeast(atMost, items, 0);
    } else {
      StableSortHead(atMost, rest);
      var i: nat :| EarliestLeast(atMost, rest, i) && StableSort(atMost, rest)[0] == rest[i];
      assert forall j :: 0 < j < |items| ==> items[j] == rest[j - 1];
      if atMost(items[0], rest[i]) {
        assert EarliestLeast(atMost, items, 0);
      } else {
        assert EarliestLeast(atMost, items, i + 1);
      }
    }
  }
}
