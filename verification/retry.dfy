/** Retrying with capped exponential backoff: the ingestion policy and the HTTP client. */
module Retry {
  function Power2(n: nat): (p: nat)
    ensures p >= 1
  {
    if n == 0 then 1 else 2 * Power2(n - 1)
  }

  datatype Backoff = Backoff(retries: nat, base: real, cap: real) {
    predicate Sane() { base >= 0.0 && cap >= 0.0 }
  }

  /** `backoff_for(attempt)` and `_backoff(attempt)` */
  function Delay(b: Backoff, attempt: nat): real {
    var d := b.base * Power2(attempt) as real;
    if b.cap <= d then b.cap else d
  }

  /** The delays slept before attempts 1 to n. */
  function Delays(b: Backoff, n: nat): (s: seq<real>)
    ensures |s| == n && forall i :: 0 <= i < n ==> s[i] == Delay(b, i)
  {
    if n == 0 then [] else Delays(b, n - 1) + [Delay(b, n - 1)]
  }

  function Total(s: seq<real>): real {
    if s == [] then 0.0 else Total(s[..|s| - 1]) + s[|s| - 1]
  }

  lemma DelayStep(b: Backoff, i: nat)
    requires b.Sane()
    ensures 0.0 <= Delay(b, i) <= Delay(b, i + 1) <= b.cap
    ensures Delay(b, i) <= b.base * Power2(i) as real
  {
    var d := b.base * Power2(i) as real;
    assert d >= 0.0;
    assert b.base * Power2(i + 1) as real == 2.0 * d by {
      assert Power2(i + 1) as real == 2.0 * Power2(i) as real;
    }
  }

  lemma {:induction false} DelayGrows(b: Backoff, i: nat, j: nat)
    requires b.Sane() && i <= j
    ensures 0.0 <= Delay(b, i) <= Delay(b, j) <= b.cap
  {
    hide Delay;
    DelayStep(b, j);
    if i == j {
    } else {
      DelayGrows(b, i, j - 1);
      DelayStep(b, j - 1);
    }
  }

  /** The first delay is the capped base; each further one is the capped double of the one before. */
  lemma DelayDoubles(b: Backoff, i: nat)
    requires b.Sane()
    ensures Delay(b, 0) == if b.cap <= b.base then b.cap else b.base
    ensures Delay(b, i + 1) == if b.cap <= 2.0 * Delay(b, i) then b.cap else 2.0 * Delay(b, i)
  {
    assert Power2(i + 1) as real == 2.0 * Power2(i) as real;
    assert b.base * Power2(i + 1) as real == 2.0 * (b.base * Power2(i) as real);
  }

  lemma TotalSnoc(b: Backoff, n: nat)
    requires n > 0
    ensures Total(Delays(b, n)) == Total(Delays(b, n - 1)) + Delay(b, n - 1)
  {
    hide Delay;
    assert Delays(b, n)[..n - 1] == Delays(b, n - 1);
  }

  lemma CapStep(cap: real, n: nat)
    requires n > 0
    ensures n as real * cap == (n - 1) as real * cap + cap
  {
  }

  lemma GeometricStep(base: real, n: nat)
    requires n > 0
    ensures base * (Power2(n) - 1) as real == base * (Power2(n - 1) - 1) as real + base * Power2(n - 1) as real
  {
    var p := Power2(n - 1);
    assert (Power2(n) - 1) as real == (p - 1) as real + p as real;
  }

  lemma NoDelays(b: Backoff)
    ensures Total(Delays(b, 0)) == 0.0 && Power2(0) == 1
  {
  }

  lemma {:induction false} TotalBounded(b: Backoff, n: nat)
    requires b.Sane()
    ensures Total(Delays(b, n)) <= n as real * b.cap
    ensures Total(Delays(b, n)) <= b.base * (Power2(n) - 1) as real
  {
    hide Delay, Delays, Total, Power2;
    if n == 0 {
      NoDelays(b);
    } else {
      TotalBounded(b, n - 1);
      TotalSnoc(b, n);
      DelayStep(b, n - 1);
      GeometricStep(b.base, n);
      CapStep(b.cap, n);
    }
  }

  /** Delays never shrink, never exceed the cap, and together stay within both bounds. */
  lemma DelaysBounded(b: Backoff, n: nat)
    requires b.Sane()
    ensures forall i, j :: 0 <= i <= j < n ==> Delays(b, n)[i] <= Delays(b, n)[j] <= b.cap
    ensures Total(Delays(b, n)) <= n as real * b.cap
    ensures Total(Delays(b, n)) <= b.base * (Power2(n) - 1) as real
  {
    hide Delay;
    forall i, j | 0 <= i <= j < n ensures Delays(b, n)[i] <= Delays(b, n)[j] <= b.cap {
      DelayGrows(b, i, j);
    }
    TotalBounded(b, n);
  }

  /** The attempt at which a retry loop stops: the first outcome that is not transient, or the
      last attempt allowed. */
  function StopAt<T>(script: nat -> T, transient: T -> bool, from: nat, retries: nat): (k: nat)
    requires from <= retries
    ensures from <= k <= retries
    ensures forall i: nat :: from <= i < k ==> transient(script(i))
    ensures k < retries ==> !transient(script(k))
    decreases retries - from
  {
    if from == retries || !transient(script(from)) then from else StopAt(script, transient, from + 1, retries)
  }

  // ----- the HTTP client -----------------------------------------------------------

  datatype Reply = NetworkError | Status(code: int, json: bool)

  datatype Response = Response(code: int, json: bool) | SourceUnavailable

  predicate RetryableStatus(code: int) {
    code in {429, 500, 502, 503, 504}
  }

  predicate TransientReply(r: Reply) {
    match r
    case NetworkError => true
    case Status(code, _) => RetryableStatus(code)
  }

  /** `_request`: the network's replies to successive attempts are given by `net`. */
  method Request(net: nat -> Reply, b: Backoff) returns (r: Response, sent: nat, slept: seq<real>)
    ensures var k := StopAt(net, TransientReply, 0, b.retries);
            && sent == k + 1
            && slept == Delays(b, k)
            && r == match net(k) case NetworkError => SourceUnavailable case Status(code, json) => Response(code, json)
    ensures 1 <= sent <= b.retries + 1
    ensures forall i: nat :: i < sent - 1 ==> net(i).NetworkError? || net(i).code in {429, 500, 502, 503, 504}
    ensures sent <= b.retries ==> net(sent - 1).Status? && net(sent - 1).code !in {429, 500, 502, 503, 504}
    ensures r == if net(sent - 1).NetworkError? then SourceUnavailable
                 else Response(net(sent - 1).code, net(sent - 1).json)
  {
    slept := [];
    var attempt := 0;
    while true
      invariant attempt <= b.retries
      invariant StopAt(net, TransientReply, 0, b.retries) == StopAt(net, TransientReply, attempt, b.retries)
      invariant slept == Delays(b, attempt)
      invariant forall i: nat :: i < attempt ==> net(i).NetworkError? || net(i).code in {429, 500, 502, 503, 504}
      decreases b.retries - attempt
    {
      var raw := net(attempt);
      if raw.NetworkError? {
        if attempt < b.retries {
          slept := slept + [Delay(b, attempt)];
          attempt := attempt + 1;
          continue;
        }
        return SourceUnavailable, attempt + 1, slept;
      }
      if RetryableStatus(raw.code) && attempt < b.retries {
        slept := slept + [Delay(b, attempt)];
        attempt := attempt + 1;
        continue;
      }
      return Response(raw.code, raw.json), attempt + 1, slept;
    }
  }

  // ----- both levels together ------------------------------------------------------

  /** The try at which the client stops in attempt `a`. */
  function LastTry(net: nat -> (nat -> Reply), a: nat, http: Backoff): (k: nat)
    ensures k <= http.retries
  {
    StopAt(net(a), TransientReply, 0, http.retries)
  }

  /** Attempt `a` of a fetch that asks once for JSON ends well: a success status and a body that
      parses. Anything else is a retryable error. */
  predicate Succeeds(net: nat -> (nat -> Reply), a: nat, http: Backoff) {
    var last := net(a)(LastTry(net, a, http));
    last.Status? && 200 <= last.code < 300 && last.json
  }

  /** The client's tries of attempt `a` get nothing but network errors and the five transient statuses
      before try `k`, which gets a success status and JSON. */
  predicate SucceedsAt(net: nat -> (nat -> Reply), a: nat, k: nat) {
    && (forall i: nat :: i < k ==> net(a)(i).NetworkError? || net(a)(i).code in {429, 500, 502, 503, 504})
    && net(a)(k).Status? && 200 <= net(a)(k).code < 300 && net(a)(k).json
  }

  /** An attempt ends well exactly when one of its allowed tries does after transient ones only. */
  lemma SucceedsExactly(net: nat -> (nat -> Reply), a: nat, http: Backoff)
    ensures Succeeds(net, a, http) <==> exists k: nat :: k <= http.retries && SucceedsAt(net, a, k)
  {
    var last := LastTry(net, a, http);
    if Succeeds(net, a, http) {
      assert forall i: nat :: i < last ==> TransientReply(net(a)(i));
      assert SucceedsAt(net, a, last);
    }
    if k: nat :| k <= http.retries && SucceedsAt(net, a, k) {
      assert !TransientReply(net(a)(k));
      assert forall i: nat :: i < k ==> TransientReply(net(a)(i));
      assert k == last;
    }
  }

  /** The requests of the first `n` attempts. */
  function Requests(net: nat -> (nat -> Reply), n: nat, http: Backoff): nat {
    if n == 0 then 0 else Requests(net, n - 1, http) + LastTry(net, n - 1, http) + 1
  }

  /** The time that the client sleeps in the first `n` attempts. */
  function ClientSleep(net: nat -> (nat -> Reply), n: nat, http: Backoff): real {
    if n == 0 then 0.0
    else ClientSleep(net, n - 1, http) + Total(Delays(http, LastTry(net, n - 1, http)))
  }

  /** A total adds up: of parts, and of one. */
  lemma {:induction false} TotalConcat(a: seq<real>, b: seq<real>)
    ensures Total(a + b) == Total(a) + Total(b)
  {
    if b == [] {
      assert a + b == a;
    } else {
      var front := b[..|b| - 1];
      assert (a + b)[..|a + b| - 1] == a + front;
      TotalConcat(a, front);
    }
  }

  lemma TotalOne(x: real)
    ensures Total([x]) == x && Total([]) == 0.0
  {
    var none: seq<real> := [];
    assert [x][..0] == none;
  }

  /** Attempt `a` ends with try `k`: those before got network errors and transient statuses, and `k` is
      the last allowed or got neither. */
  predicate EndsWithTry(net: nat -> (nat -> Reply), a: nat, k: nat, retries: nat) {
    && k <= retries
    && (forall i: nat :: i < k ==> net(a)(i).NetworkError? || net(a)(i).code in {429, 500, 502, 503, 504})
    && (k < retries ==> net(a)(k).Status? && net(a)(k).code !in {429, 500, 502, 503, 504})
  }

  /** Each attempt adds its tries to the requests sent and the delays between them to the time slept. */
  lemma AttemptCost(net: nat -> (nat -> Reply), a: nat, http: Backoff)
    ensures exists k: nat ::
              && EndsWithTry(net, a, k, http.retries)
              && Requests(net, a + 1, http) == Requests(net, a, http) + k + 1
              && ClientSleep(net, a + 1, http) == ClientSleep(net, a, http) + Total(Delays(http, k))
    ensures Requests(net, 0, http) == 0 && ClientSleep(net, 0, http) == 0.0
  {
    hide Total, Delays;
    var k := LastTry(net, a, http);
    assert forall i: nat :: i < k ==> TransientReply(net(a)(i));
    assert EndsWithTry(net, a, k, http.retries);
    assert Requests(net, a + 1, http) == Requests(net, a, http) + k + 1;
  }

  lemma RequestMeans(net: nat -> (nat -> Reply), a: nat, http: Backoff, r: Response, n: nat, pauses: seq<real>)
    requires var k := StopAt(net(a), TransientReply, 0, http.retries);
             && n == k + 1 && pauses == Delays(http, k)
             && r == match net(a)(k)
                     case NetworkError => SourceUnavailable
                     case Status(code, json) => Response(code, json)
    ensures n == LastTry(net, a, http) + 1 && pauses == Delays(http, LastTry(net, a, http))
    ensures Succeeds(net, a, http) <==> r.Response? && 200 <= r.code < 300 && r.json
  {
  }

  /** An adapter whose fetch makes one request for JSON per attempt; `net(a)(i)` is the network's
      reply to try `i` of attempt `a`. `slept` are the delays between attempts, `waited` the time
      slept inside them. */
  method FetchOverHttp(net: nat -> (nat -> Reply), policy: Backoff, http: Backoff)
    returns (ok: bool, sent: nat, slept: seq<real>, waited: real)
    ensures ok <==> exists a: nat :: a <= policy.retries && Succeeds(net, a, http)
    ensures |slept| <= policy.retries && slept == Delays(policy, |slept|)
    ensures forall a: nat :: a < |slept| ==> !Succeeds(net, a, http)
    ensures if ok then Succeeds(net, |slept|, http) else |slept| == policy.retries
    ensures sent == Requests(net, |slept| + 1, http)
    ensures waited == ClientSleep(net, |slept| + 1, http)
  {
    hide Delay, Succeeds, Power2, Total, LastTry;
    sent, slept, ok, waited := 0, [], false, 0.0;
    var attempt := 0;
    while true
      invariant attempt <= policy.retries && |slept| == attempt && slept == Delays(policy, attempt)
      invariant sent == Requests(net, attempt, http) && waited == ClientSleep(net, attempt, http)
      invariant forall a: nat :: a < attempt ==> !Succeeds(net, a, http)
      decreases policy.retries - attempt
    {
      var r, n, pauses := Request(net(attempt), http);
      RequestMeans(net, attempt, http, r, n, pauses);
      sent, waited := sent + n, waited + Total(pauses);
      ok := r.Response? && 200 <= r.code < 300 && r.json;
      if ok || attempt == policy.retries {
        return;
      }
      slept := slept + [Delay(policy, attempt)];
      attempt := attempt + 1;
    }
  }

  /** The requests that a number of attempts may cost. */
  function Budget(attempts: nat, http: Backoff): nat {
    attempts * (http.retries + 1)
  }

  lemma ProductGrows(a: nat, b: nat, c: nat)
    requires a <= b
    ensures a * c <= b * c
  {
  }

  lemma BudgetBound(a: nat, policy: Backoff, http: Backoff)
    requires a <= policy.retries + 1
    ensures Budget(a, http) <= (policy.retries + 1) * (http.retries + 1)
    ensures Budget(0, http) == 0
  {
    ProductGrows(a, policy.retries + 1, http.retries + 1);
  }

  lemma BudgetStep(a: nat, http: Backoff)
    ensures Budget(a + 1, http) == Budget(a, http) + http.retries + 1
  {
  }

  /** At most (R+1)(H+1) requests. */
  lemma {:induction false} RequestsBounded(net: nat -> (nat -> Reply), n: nat, policy: Backoff, http: Backoff)
    requires n <= policy.retries + 1
    ensures n <= Requests(net, n, http) <= Budget(n, http) <= (policy.retries + 1) * (http.retries + 1)
  {
    hide LastTry, Budget;
    BudgetBound(n, policy, http);
    if n == 0 {
    } else {
      RequestsBounded(net, n - 1, policy, http);
      BudgetStep(n - 1, http);
    }
  }

  lemma {:induction false} ClientSleepBounded(net: nat -> (nat -> Reply), n: nat, http: Backoff, each: real)
    requires forall k: nat :: k <= http.retries ==> Total(Delays(http, k)) <= each
    ensures ClientSleep(net, n, http) <= n as real * each
  {
    hide LastTry, Total, Delays;
    if n == 0 {
    } else {
      ClientSleepBounded(net, n - 1, http, each);
      CapStep(each, n);
    }
  }

  lemma TimesGrows(n: nat, m: nat, each: real)
    requires n <= m && each >= 0.0
    ensures n as real * each <= m as real * each
  {
  }

  lemma SleepOverBoth(net: nat -> (nat -> Reply), n: nat, policy: Backoff, http: Backoff, outer: real, each: real)
    requires n <= policy.retries && 0.0 <= each && Total(Delays(policy, n)) <= outer
    requires forall k: nat :: k <= http.retries ==> Total(Delays(http, k)) <= each
    ensures Total(Delays(policy, n)) + ClientSleep(net, n + 1, http) <= outer + (policy.retries + 1) as real * each
  {
    hide Total, Delays, ClientSleep;
    ClientSleepBounded(net, n + 1, http, each);
    TimesGrows(n + 1, policy.retries + 1, each);
  }

  lemma {:induction false} MoreRetriesMoreTotal(b: Backoff, n: nat, m: nat)
    requires b.Sane() && n <= m
    ensures n as real * b.cap <= m as real * b.cap
    ensures b.base * (Power2(n) - 1) as real <= b.base * (Power2(m) - 1) as real
    decreases m
  {
    if n == m {
    } else {
      MoreRetriesMoreTotal(b, n, m - 1);
      GeometricStep(b.base, m);
      assert m as real * b.cap == (m - 1) as real * b.cap + b.cap;
    }
  }

  /** However many of the allowed retries were used, the time slept stays within both bounds. */
  lemma SleepWithinBudget(b: Backoff, n: nat)
    requires b.Sane() && n <= b.retries
    ensures Total(Delays(b, n)) <= b.retries as real * b.cap
    ensures Total(Delays(b, n)) <= b.base * (Power2(b.retries) - 1) as real
  {
    hide Delays, Total, Power2;
    DelaysBounded(b, n);
    MoreRetriesMoreTotal(b, n, b.retries);
  }

  /** The time slept over both levels stays within the caps of the two policies together. */
  lemma SleepWithinCaps(net: nat -> (nat -> Reply), n: nat, policy: Backoff, http: Backoff)
    requires policy.Sane() && http.Sane() && n <= policy.retries
    ensures Total(Delays(policy, n)) + ClientSleep(net, n + 1, http)
         <= policy.retries as real * policy.cap + (policy.retries + 1) as real * (http.retries as real * http.cap)
  {
    hide Total, Delays, ClientSleep, Power2;
    forall k: nat | k <= http.retries ensures Total(Delays(http, k)) <= http.retries as real * http.cap {
      SleepWithinBudget(http, k);
    }
    SleepWithinBudget(policy, n);
    NoDelays(http);
    SleepOverBoth(net, n, policy, http, policy.retries as real * policy.cap, http.retries as real * http.cap);
  }

  /** And within their doubling bounds together. */
  lemma SleepWithinDoubling(net: nat -> (nat -> Reply), n: nat, policy: Backoff, http: Backoff)
    requires policy.Sane() && http.Sane() && n <= policy.retries
    ensures Total(Delays(policy, n)) + ClientSleep(net, n + 1, http)
         <= policy.base * (Power2(policy.retries) - 1) as real
            + (policy.retries + 1) as real * (http.base * (Power2(http.retries) - 1) as real)
  {
    hide Total, Delays, ClientSleep, Power2;
    var each := http.base * (Power2(http.retries) - 1) as real;
    forall k: nat | k <= http.retries ensures Total(Delays(http, k)) <= each {
      SleepWithinBudget(http, k);
    }
    SleepWithinBudget(policy, n);
    NoDelays(http);
    SleepOverBoth(net, n, policy, http, policy.base * (Power2(policy.retries) - 1) as real, each);
  }
}
