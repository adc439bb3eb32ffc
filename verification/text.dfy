/** Text as the database and Python compare it: by code point, first difference first.
    Also the zero-padded decimals from which every stored date and time is made. */
module Text {
  datatype Option<+T> = None | Some(value: T) {
    predicate IsFailure() { None? }

    function PropagateFailure<U>(): Option<U>
      requires None?
    {
      None
    }

    function Extract(): T
      requires Some?
    {
      value
    }

    function GetOr(default: T): T {
      match this
      case Some(v) => v
      case None => default
    }
  }

  /** `m.get(key)` */
  function Lookup<T>(m: map<string, T>, key: string): Option<T> {
    if key in m then Some(m[key]) else None
  }

  // ----- order ---------------------------------------------------------------------

  predicate Less(a: string, b: string) {
    b != [] && (a == [] || a[0] < b[0] || (a[0] == b[0] && Less(a[1..], b[1..])))
  }

  predicate AtMost(a: string, b: string) {
    a == b || Less(a, b)
  }

  lemma {:induction false} LessIrreflexive(a: string)
    ensures !Less(a, a)
  {
    if a == [] {
    } else {
      LessIrreflexive(a[1..]);
    }
  }

  lemma {:induction false} LessTransitive(a: string, b: string, c: string)
    requires Less(a, b) && Less(b, c)
    ensures Less(a, c)
  {
    if a != [] && a[0] == b[0] == c[0] {
      LessTransitive(a[1..], b[1..], c[1..]);
    }
  }

  lemma {:induction false} LessTotal(a: string, b: string)
    ensures a == b || Less(a, b) || Less(b, a)
  {
    if a != [] && b != [] && a[0] == b[0] {
      LessTotal(a[1..], b[1..]);
      assert a == [a[0]] + a[1..] && b == [b[0]] + b[1..];
    }
  }

  /** The texts agree up to `k`, where `a` ends or has the smaller character. */
  predicate SplitsAt(a: string, b: string, k: nat) {
    k <= |a| && k < |b| && a[..k] == b[..k] && (k == |a| || a[k] < b[k])
  }

  lemma SameFirst(a: string, b: string, k: nat)
    requires k <= |a| && k <= |b| && a[..k] == b[..k]
    ensures k > 0 ==> a != [] && b != [] && a[0] == b[0]
  {
    if k > 0 {
      assert a[..k][0] == a[0] && b[..k][0] == b[0];
    }
  }

  /** The first difference decides, by code point; a proper prefix comes first. */
  lemma {:induction false} LessExactly(a: string, b: string)
    ensures Less(a, b) <==> exists k: nat :: SplitsAt(a, b, k)
  {
    if a == [] || b == [] || a[0] != b[0] {
      assert Less(a, b) ==> SplitsAt(a, b, 0);
      forall k: nat | SplitsAt(a, b, k) ensures k == 0 {
        SameFirst(a, b, k);
      }
    } else {
      LessExactly(a[1..], b[1..]);
      forall k: nat | SplitsAt(a[1..], b[1..], k) ensures SplitsAt(a, b, k + 1) {
        assert a[..k + 1] == [a[0]] + a[1..][..k] && b[..k + 1] == [b[0]] + b[1..][..k];
      }
      forall k: nat | SplitsAt(a, b, k) ensures k > 0 && SplitsAt(a[1..], b[1..], k - 1) {
        assert a[1..][..k - 1] == a[..k][1..] && b[1..][..k - 1] == b[..k][1..];
      }
    }
  }

  /** Comparing texts that start with blocks of equal width compares the blocks first. */
  lemma {:induction false} LessConcat(a: string, b: string, c: string, d: string)
    requires |a| == |b|
    ensures Less(a + c, b + d) <==> Less(a, b) || (a == b && Less(c, d))
  {
    if a == [] {
      assert a + c == c && b + d == d;
    } else {
      assert (a + c)[1..] == a[1..] + c && (b + d)[1..] == b[1..] + d;
      assert a == [a[0]] + a[1..] && b == [b[0]] + b[1..];
      LessConcat(a[1..], b[1..], c, d);
    }
  }

  // ----- zero-padded decimals ------------------------------------------------------

  function Power10(w: nat): nat {
    if w == 0 then 1 else 10 * Power10(w - 1)
  }

  function Digit(d: nat): char
    requires d < 10
  {
    ('0' as int + d) as char
  }

  predicate IsDigit(c: char) {
    '0' <= c <= '9'
  }

  /** The last `w` decimal digits of `n`. */
  function Pad(n: nat, w: nat): (s: string)
    ensures |s| == w
    ensures forall i :: 0 <= i < |s| ==> IsDigit(s[i])
  {
    if w == 0 then "" else Pad(n / 10, w - 1) + [Digit(n % 10)]
  }

  /** `int(s)` for a run of digits; anything else is an error. */
  function ParseNat(s: string): Option<nat> {
    if s == [] then Some(0)
    else
      var last := s[|s| - 1];
      var front :- ParseNat(s[..|s| - 1]);
      if IsDigit(last) then Some(10 * front + (last as int - '0' as int)) else None
  }

  lemma {:induction false} ParsePad(n: nat, w: nat)
    requires n < Power10(w)
    ensures ParseNat(Pad(n, w)) == Some(n)
  {
    if w == 0 {
    } else {
      ParsePad(n / 10, w - 1);
      assert Pad(n, w)[..w - 1] == Pad(n / 10, w - 1);
    }
  }

  /** A text of digits is its number padded to its width. */
  lemma {:induction false} PadParse(s: string)
    requires ParseNat(s).Some?
    ensures ParseNat(s).value < Power10(|s|) && Pad(ParseNat(s).value, |s|) == s
  {
    if s == [] {
    } else {
      var front := s[..|s| - 1];
      PadParse(front);
      assert s == front + [s[|s| - 1]];
    }
  }

  lemma {:induction false} DigitsOnly(s: string)
    requires ParseNat(s).Some?
    ensures forall i :: 0 <= i < |s| ==> IsDigit(s[i])
  {
    if s == [] {
    } else {
      DigitsOnly(s[..|s| - 1]);
    }
  }

  lemma PadInjective(n: nat, m: nat, w: nat)
    requires n < Power10(w) && m < Power10(w)
    ensures Pad(n, w) == Pad(m, w) <==> n == m
  {
    ParsePad(n, w);
    ParsePad(m, w);
  }

  /** Padded to one width, text order is numeric order. */
  lemma {:induction false} PadOrder(n: nat, m: nat, w: nat)
    requires n < Power10(w) && m < Power10(w)
    ensures Less(Pad(n, w), Pad(m, w)) <==> n < m
  {
    if w == 0 {
    } else {
      PadOrder(n / 10, m / 10, w - 1);
      PadInjective(n / 10, m / 10, w - 1);
      LessConcat(Pad(n / 10, w - 1), Pad(m / 10, w - 1), [Digit(n % 10)], [Digit(m % 10)]);
    }
  }

  /** `str(n)` */
  function NatText(n: nat): string {
    if n < 10 then [Digit(n)] else NatText(n / 10) + [Digit(n % 10)]
  }

  function IntText(n: int): string {
    if n < 0 then "-" + NatText(-n) else NatText(n)
  }

  /** `int(str(n))` is `n`, and the text is all digits. */
  lemma {:induction false} NatTextRoundTrip(n: nat)
    ensures ParseNat(NatText(n)) == Some(n)
    ensures forall c :: c in NatText(n) ==> IsDigit(c)
  {
    if n < 10 {
      assert NatText(n)[..0] == [];
    } else {
      NatTextRoundTrip(n / 10);
      assert NatText(n)[..|NatText(n)| - 1] == NatText(n / 10);
    }
  }

  lemma NatTextNotEmpty(n: nat)
    ensures NatText(n) != []
  {
  }

  lemma IntTextInjective(n: int, m: int)
    requires IntText(n) == IntText(m)
    ensures n == m
  {
    hide NatText;
    NatTextRoundTrip(if n < 0 then -n else n);
    NatTextRoundTrip(if m < 0 then -m else m);
    assert n < 0 ==> IntText(n)[0] == '-' && IntText(n)[1..] == NatText(-n);
    assert m < 0 ==> IntText(m)[0] == '-' && IntText(m)[1..] == NatText(-m);
    assert n >= 0 ==> '-' !in IntText(n);
    assert m >= 0 ==> '-' !in IntText(m);
  }

  lemma IntTextHasNoColon(n: int)
    ensures ':' !in IntText(n)
  {
    NatTextRoundTrip(if n < 0 then -n else n);
  }

  // ----- splitting at a separator --------------------------------------------------

  /** Where the separator first occurs, or the length. */
  function FirstIndex(s: string, sep: char): (i: nat)
    ensures i <= |s| && (i < |s| ==> s[i] == sep)
    ensures forall k :: 0 <= k < i ==> s[k] != sep
  {
    if s == [] || s[0] == sep then 0 else 1 + FirstIndex(s[1..], sep)
  }

  /** Two ways of cutting one text at a separator that neither left part contains agree. */
  lemma {:induction false} CutUnique(a: string, b: string, c: string, d: string, sep: char)
    requires sep !in a && sep !in c
    requires a + [sep] + b == c + [sep] + d
    ensures a == c && b == d
  {
    var s := a + [sep] + b;
    assert s[|a|] == sep && s[|c|] == sep;
    assert forall i :: 0 <= i < |a| ==> s[i] == a[i] && a[i] in a;
    assert forall i :: 0 <= i < |c| ==> s[i] == c[i] && c[i] in c;
    assert |a| == |c|;
    assert a == s[..|a|] && c == s[..|c|];
    assert b == s[|a| + 1..] && d == s[|c| + 1..];
  }
}
