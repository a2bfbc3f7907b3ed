/** One iteration of the poll loop in `main` (src/main.rs:35-56): wait for the market,
    pick up a changed ticker list, then fetch every symbol in order with the rate-limit
    delay after each. Sleeps and fetches are emitted as a trace of actions. */
module PollLoop {
  import opened Wrappers
  import opened RateBudget
  import opened TickerStore
  import MarketClock

  /** The compiled-in rate limits: 8 calls per 60 s and 800 calls per
      `(6.5 * 60. * 60.) as u64` s, which is exactly 23400 s. */
  const RATE_LIMIT_1: nat := 8
  const PERIOD_1: nat := 60
  const RATE_LIMIT_2: nat := 800
  const PERIOD_2: nat := 13 * 60 * 60 / 2

  /** What the loop does, in order: a timed suspension, or one price request. */
  datatype Action = Sleep(secs: nat) | Fetch(symbol: string)

  /** The inter-call delay for a list of `numTickers` symbols under the configured limits. */
  function Delay(numTickers: nat): (d: Option<nat>)
    ensures d.None? <==> numTickers == 0
    ensures d.Some? ==> d.value <= PERIOD_1
  {
    CalculateSleepDuration(numTickers, RATE_LIMIT_1, PERIOD_1, RATE_LIMIT_2, PERIOD_2)
  }

  /** Whenever the symbol loop runs, there is at least one ticker, so the delay is defined;
      under the configured limits tier 1 always binds and the delay is at most a minute. */
  lemma DelayDefinedInLoop(numTickers: nat)
    requires numTickers > 0
    ensures Delay(numTickers).Some?
    ensures Delay(numTickers).value == SatSub(PERIOD_1, RATE_LIMIT_1 / numTickers)
    ensures Delay(numTickers).value <= PERIOD_1
  {
    assert PERIOD_2 == 23400;
    assert Tier2Delay(numTickers, RATE_LIMIT_2, PERIOD_2) >= 22600;
  }

  /** The fetch-and-wait schedule for a list: each symbol fetched, then one sleep of
      `delay`, the last symbol included. */
  function FetchSchedule(symbols: seq<string>, delay: nat): (schedule: seq<Action>)
    ensures |schedule| == 2 * |symbols|
    decreases |symbols|
  {
    if symbols == [] then []
    else FetchSchedule(symbols[..|symbols| - 1], delay) + [Fetch(symbols[|symbols| - 1]), Sleep(delay)]
  }

  /** The symbols requested by a trace, in order. */
  function Fetched(trace: seq<Action>): seq<string>
    decreases |trace|
  {
    if trace == [] then []
    else (if trace[0].Fetch? then [trace[0].symbol] else []) + Fetched(trace[1..])
  }

  /** The schedule alternates: position 2i fetches the i-th symbol and position 2i + 1
      sleeps for the delay; there is nothing else. */
  lemma {:induction false} ScheduleShape(symbols: seq<string>, delay: nat)
    ensures |FetchSchedule(symbols, delay)| == 2 * |symbols|
    ensures forall i :: 0 <= i < |symbols| ==>
              FetchSchedule(symbols, delay)[2 * i] == Fetch(symbols[i]) &&
              FetchSchedule(symbols, delay)[2 * i + 1] == Sleep(delay)
    decreases |symbols|
  {
    if symbols != [] {
      var n := |symbols|;
      var init := symbols[..n - 1];
      ScheduleShape(init, delay);
      forall i | 0 <= i < n
        ensures FetchSchedule(symbols, delay)[2 * i] == Fetch(symbols[i])
        ensures FetchSchedule(symbols, delay)[2 * i + 1] == Sleep(delay)
      {
        if i < n - 1 {
          assert init[i] == symbols[i];
        }
      }
    }
  }

  lemma {:induction false} FetchedAppend(a: seq<Action>, b: seq<Action>)
    ensures Fetched(a + b) == Fetched(a) + Fetched(b)
    decreases |a|
  {
    if a != [] {
      FetchedAppend(a[1..], b);
      assert (a + b)[1..] == a[1..] + b;
    } else {
      assert a + b == b;
    }
  }

  /** Every symbol is requested exactly once per occurrence in the list, in stored order. */
  lemma {:induction false} FetchedSchedule(symbols: seq<string>, delay: nat)
    ensures Fetched(FetchSchedule(symbols, delay)) == symbols
    decreases |symbols|
  {
    if symbols != [] {
      var n := |symbols|;
      FetchedSchedule(symbols[..n - 1], delay);
      var tail := [Fetch(symbols[n - 1]), Sleep(delay)];
      FetchedAppend(FetchSchedule(symbols[..n - 1], delay), tail);
      assert tail[1..] == [Sleep(delay)];
      assert [Sleep(delay)][1..] == [];
      assert Fetched([Sleep(delay)]) == [];
      assert Fetched(tail) == [symbols[n - 1]] + Fetched([Sleep(delay)]);
      assert symbols[..n - 1] + [symbols[n - 1]] == symbols;
    }
  }

  /** One loop iteration, given the market wait (`None` when `should_sleep` failed) and the
      outcome of the reload check. The trace opens with the market sleep, then fetches each
      active symbol in stored order, each followed by one sleep of the delay (the last one
      too): |tickers| fetches and |tickers| delay sleeps. The outcome of each price request
      is discarded at the call site, so a failed request never stops the remaining symbols. */
  method Cycle(clock: Option<nat>, reload: Option<Tickers>, tickers: Tickers)
    returns (active: Tickers, trace: seq<Action>)
    ensures active == (if reload.Some? then reload.value else tickers)
    ensures |active.tickers| == 0 ==> trace == [Sleep(clock.GetOr(0))]
    ensures |active.tickers| > 0 ==>
              trace == [Sleep(clock.GetOr(0))] + FetchSchedule(active.tickers, Delay(|active.tickers|).value)
    ensures |trace| == 1 + 2 * |active.tickers| && trace[0] == Sleep(clock.GetOr(0))
    ensures Fetched(trace) == active.tickers
    ensures forall i :: 0 <= i < |active.tickers| ==>
              trace[1 + 2 * i] == Fetch(active.tickers[i]) &&
              trace[2 + 2 * i] == Sleep(Delay(|active.tickers|).value)
  {
    var wait := clock.GetOr(0);
    trace := [Sleep(wait)];
    active := tickers;
    if reload.Some? {
      active := reload.value;
    }
    var symbols := active.GetTickers();
    var delay := Delay(|symbols|);
    for i := 0 to |symbols|
      invariant trace == [Sleep(wait)] + FetchSchedule(symbols[..i], delay.GetOr(0))
    {
      DelayDefinedInLoop(|symbols|);
      assert symbols[..i + 1][..i] == symbols[..i];
      trace := trace + [Fetch(symbols[i]), Sleep(delay.value)];
    }
    assert symbols[..|symbols|] == symbols;
    if symbols != [] {
      DelayDefinedInLoop(|symbols|);
    }
    CycleTrace(wait, symbols, delay.GetOr(0));
  }

  /** The trace of a cycle, read position by position. */
  lemma CycleTrace(wait: nat, symbols: seq<string>, delay: nat)
    ensures var trace := [Sleep(wait)] + FetchSchedule(symbols, delay);
      && |trace| == 1 + 2 * |symbols| && trace[0] == Sleep(wait)
      && Fetched(trace) == symbols
      && forall i :: 0 <= i < |symbols| ==>
           trace[1 + 2 * i] == Fetch(symbols[i]) && trace[2 + 2 * i] == Sleep(delay)
  {
    ScheduleShape(symbols, delay);
    FetchedSchedule(symbols, delay);
    FetchedAppend([Sleep(wait)], FetchSchedule(symbols, delay));
    assert [Sleep(wait)][1..] == [];
  }

  /** The whole loop body against the store: query the market, sleep, check the ticker file
      with the observed fingerprint `modified`, then run the symbol loop. */
  method RunCycle(store: Store, reply: MarketClock.Reply, modified: nat, tickers: Tickers)
    returns (active: Tickers, trace: seq<Action>)
    requires MarketClock.ReplyDefined(reply) && store.file != Absent
    modifies store`lastModified
    ensures store.lastModified == modified
    ensures modified == old(store.lastModified) ==> active == tickers
    ensures modified != old(store.lastModified) ==> fresh(active) && active.tickers == Loaded(store.file)
    ensures |trace| == 1 + 2 * |active.tickers|
    ensures trace[0] == Sleep(MarketClock.SleepFor(reply).GetOr(0))
    ensures Fetched(trace) == active.tickers
    ensures forall i :: 0 <= i < |active.tickers| ==>
              trace[1 + 2 * i] == Fetch(active.tickers[i]) &&
              trace[2 + 2 * i] == Sleep(Delay(|active.tickers|).value)
  {
    var clock := MarketClock.ShouldSleep(reply);
    var reload := store.CheckTickers(modified);
    active, trace := Cycle(clock, reload, tickers);
  }
}
