/** The per-call delay the poll loop sleeps between two symbol requests, derived from two
    provider rate-limit tiers (`calculate_sleep_duration`, src/lib.rs). All quantities are
    unsigned integers; `checked_sub(..).unwrap_or_default()` is a subtraction clamped at 0. */
module RateBudget {
  import opened Wrappers

  /** `a.checked_sub(b).unwrap_or_default()`: `a - b`, or 0 when that would underflow. */
  function SatSub(a: nat, b: nat): (r: nat)
    ensures r <= a
    ensures b <= a ==> r + b == a
    ensures a < b ==> r == 0
  {
    if b <= a then a - b else 0
  }

  function Min(a: nat, b: nat): (r: nat)
    ensures r <= a && r <= b
    ensures r == a || r == b
  {
    if a <= b then a else b
  }

  /** Tier 1: the period minus the share of the quota one ticker gets (floor division). */
  function Tier1Delay(numTickers: nat, rateLimit1: nat, period1: nat): (d: nat)
    requires numTickers > 0
    ensures d <= period1
    ensures d == 0 <==> period1 <= rateLimit1 / numTickers
    ensures d > 0 ==> d + rateLimit1 / numTickers == period1
  {
    SatSub(period1, rateLimit1 / numTickers)
  }

  /** Tier 2: the period minus what is left of the quota after one call per ticker. */
  function Tier2Delay(numTickers: nat, rateLimit2: nat, period2: nat): (d: nat)
    ensures d <= period2
    ensures numTickers >= rateLimit2 ==> d == period2
    ensures numTickers < rateLimit2 && d > 0 ==> d + (rateLimit2 - numTickers) == period2
    ensures d == 0 <==> period2 <= SatSub(rateLimit2, numTickers)
  {
    SatSub(period2, SatSub(rateLimit2, numTickers))
  }

  /** `calculate_sleep_duration`: no delay at all for an empty ticker set; otherwise the
      stricter (smaller) of the two tier delays. */
  function CalculateSleepDuration(numTickers: nat, rateLimit1: nat, period1: nat,
                                  rateLimit2: nat, period2: nat): (r: Option<nat>)
    ensures r.None? <==> numTickers == 0
    ensures r.Some? ==> r.value <= period1 && r.value <= period2
    ensures r.Some? ==>
      && r.value <= Tier1Delay(numTickers, rateLimit1, period1)
      && r.value <= Tier2Delay(numTickers, rateLimit2, period2)
      && (r.value == Tier1Delay(numTickers, rateLimit1, period1) ||
          r.value == Tier2Delay(numTickers, rateLimit2, period2))
  {
    if numTickers == 0 then None
    else Some(Min(Tier1Delay(numTickers, rateLimit1, period1),
                  Tier2Delay(numTickers, rateLimit2, period2)))
  }

  /** With more tickers than tier-1 calls, each ticker's share floors to 0 and the tier-1
      delay is the whole period. */
  lemma Tier1WithMoreTickersThanQuota(numTickers: nat, rateLimit1: nat, period1: nat)
    requires numTickers > rateLimit1
    ensures Tier1Delay(numTickers, rateLimit1, period1) == period1
  {
  }

  /** With at least as many tickers as tier-2 calls, the tier-2 quota clamps to 0 and the
      tier-2 delay is the whole period. */
  lemma Tier2WithQuotaExhausted(numTickers: nat, rateLimit2: nat, period2: nat)
    requires numTickers >= rateLimit2
    ensures Tier2Delay(numTickers, rateLimit2, period2) == period2
  {
  }

  lemma MulMonotone(x: nat, y: nat, c: nat)
    requires x <= y
    ensures x * c <= y * c
  {
  }

  /** Any multiplier whose product with `n` stays within `a` is at most `a / n`. */
  lemma {:induction false} BelowQuotient(a: nat, n: nat, q: nat)
    requires n > 0 && q * n <= a
    ensures q <= a / n
  {
    var k, r := a / n, a % n;
    assert a == k * n + r && r < n;
    assert (k + 1) * n == k * n + n;
    if q > k {
      MulMonotone(k + 1, q, n);
      assert false;
    }
  }

  /** Floor division by a larger divisor gives a smaller (or equal) quotient. */
  lemma {:induction false} DivAntitone(a: nat, n: nat, m: nat)
    requires 0 < n <= m
    ensures a / m <= a / n
  {
    var q := a / m;
    assert q * m <= a by {
      assert a == q * m + a % m;
    }
    MulMonotone(n, m, q);
    assert n * q == q * n && m * q == q * m;
    BelowQuotient(a, n, q);
  }

  /** Adding tickers never shortens the delay: both tiers grow (weakly) with the count. */
  lemma {:induction false} DelayMonotoneInTickers(n: nat, m: nat, rateLimit1: nat, period1: nat,
                                                   rateLimit2: nat, period2: nat)
    requires 0 < n <= m
    ensures CalculateSleepDuration(n, rateLimit1, period1, rateLimit2, period2).value
         <= CalculateSleepDuration(m, rateLimit1, period1, rateLimit2, period2).value
  {
    DivAntitone(rateLimit1, n, m);
    assert Tier1Delay(n, rateLimit1, period1) <= Tier1Delay(m, rateLimit1, period1);
    assert Tier2Delay(n, rateLimit2, period2) <= Tier2Delay(m, rateLimit2, period2);
  }

  /** The result never exceeds the periods, so it is always representable as a `u64`
      when the arguments are. */
  lemma DelayFitsU64(numTickers: nat, rateLimit1: nat, period1: nat, rateLimit2: nat, period2: nat)
    requires numTickers > 0 && period1 <= U64_MAX && period2 <= U64_MAX
    ensures CalculateSleepDuration(numTickers, rateLimit1, period1, rateLimit2, period2).value <= U64_MAX
  {
  }

  /** The worked example: 5 tickers under (8 per 60 s, 800 per 23400 s). */
  lemma FiveTickersExample()
    ensures Tier1Delay(5, 8, 60) == 59
    ensures Tier2Delay(5, 800, 23400) == 22605
    ensures CalculateSleepDuration(5, 8, 60, 800, 23400) == Some(59)
    ensures CalculateSleepDuration(0, 8, 60, 800, 23400) == None
  {
  }
}
