/** Walking a range day by day and keeping the days that pass a test. */
module DayScan {

  function DaysWhere(p: int -> bool, lo: int, hi: int): (r: seq<int>)
    ensures forall i :: 0 <= i < |r| ==> lo <= r[i] <= hi
    decreases hi - lo
  {
    if hi < lo then []
    else if p(hi) then DaysWhere(p, lo, hi - 1) + [hi]
    else DaysWhere(p, lo, hi - 1)
  }

  ghost predicate Increasing(days: seq<int>) {
    forall i, j :: 0 <= i < j < |days| ==> days[i] < days[j]
  }

  /** The walk keeps exactly the days that pass, in increasing order. */
  lemma {:induction false} KeepsExactly(p: int -> bool, lo: int, hi: int)
    ensures Increasing(DaysWhere(p, lo, hi))
    ensures forall d :: d in DaysWhere(p, lo, hi) <==> lo <= d <= hi && p(d)
    decreases hi - lo
  {
    if hi < lo {
    } else {
      KeepsExactly(p, lo, hi - 1);
      var front := DaysWhere(p, lo, hi - 1);
      forall d ensures d in DaysWhere(p, lo, hi) <==> d in front || (d == hi && p(hi)) {
      }
    }
  }

  /** Walking two adjacent ranges is walking their union. */
  lemma {:induction false} Concatenates(p: int -> bool, lo: int, mid: int, hi: int)
    requires lo - 1 <= mid <= hi
    ensures DaysWhere(p, lo, mid) + DaysWhere(p, mid + 1, hi) == DaysWhere(p, lo, hi)
    decreases hi - mid
  {
    if mid == hi {
    } else {
      Concatenates(p, lo, mid, hi - 1);
      assert DaysWhere(p, lo, mid) + (DaysWhere(p, mid + 1, hi - 1) + [hi])
          == (DaysWhere(p, lo, mid) + DaysWhere(p, mid + 1, hi - 1)) + [hi];
    }
  }

  /** A test splits the days of another one in two. */
  lemma {:induction false} Splits(p: int -> bool, q: int -> bool, r: int -> bool, lo: int, hi: int)
    requires forall d {:trigger p(d)} {:trigger q(d)} {:trigger r(d)} ::
               lo <= d <= hi ==> p(d) == (q(d) || r(d)) && !(q(d) && r(d))
    ensures |DaysWhere(p, lo, hi)| == |DaysWhere(q, lo, hi)| + |DaysWhere(r, lo, hi)|
    decreases hi - lo
  {
    if hi < lo {
    } else {
      Splits(p, q, r, lo, hi - 1);
    }
  }
}
