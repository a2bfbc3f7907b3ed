# fintek scheduling core, modelled in Dafny

fintek polls a market-data provider for a list of stock symbols and exports the prices as
metrics. This project models the part that makes decisions:

- **RateBudget** (`rate_budget.dfy`): `calculate_sleep_duration`, the delay between two
  price requests. It uses two rate-limit tiers, saturating subtraction and floor division.
- **TimeToOpen** (`time_to_open.dfy`): the closed-market countdown `"H:M:S"`. This covers
  Rust's `str::split(':')`, `u64::from_str` (an unparsable piece counts 0) and the total in
  seconds.
- **MarketClock** (`market_clock.dfy`): `should_sleep` above the JSON layer. It scans a
  sequence of abstract market-state records and stops at the first one with a boolean
  `is_market_open`. It is a loop method proved against a recursive specification.
- **TickerStore** (`ticker_store.dfy`): the `Tickers` record (`Default`, `new`,
  `set_tickers`, `get_tickers`, `dump_to_file`, `init`) as a class. The class `Store` holds
  the abstract backing file (`Absent | Wellformed(list) | Malformed`) and the
  `LAST_MODIFIED` fingerprint of `check_tickers`, which starts at 0. It also provides
  `read_tickers`, `create_tickers` and `check_tickers`.
- **PollLoop** (`poll_loop.dfy`): one iteration of `main`'s `loop`. It sleeps for the
  market, reloads the tickers, computes the delay for the post-reload count with the
  constants (8, 60, 800, 23400), then fetches every symbol with a delay sleep after each.
  The sleeps and requests come out as a trace of `Sleep(n) | Fetch(symbol)` actions.
- `wrappers.dfy`: Rust's `Option` with `unwrap_or`.

Inputs that come from the outside world are parameters:
- the HTTP reply to the market-state query (`MarketClock.Reply`);
- the file's modification fingerprint (`modified`);
- the contents of the ticker file (`FileState`).

The model follows the code as written:
- The ticker list is not deduplicated and may hold empty strings. Loading keeps order and
  duplicates.
- The ticker file is overwritten directly (`fs::write`), not written and then renamed.
- The fingerprint is the number of seconds *elapsed* since the file was modified. It
  changes as time passes, so a reload can happen without any edit. The model takes it as a
  parameter and only proves what `check_tickers` does with it.
- At src/main.rs:55 the `Option<u64>` returned by `calculate_sleep_duration` is passed
  straight to `Duration::from_secs`. The model uses the carried value.
  `PollLoop.DelayDefinedInLoop` shows the value is always present inside the symbol loop,
  because the list is non-empty there.

## Model

| member | source | states |
|---|---|---|
| RateBudget.SatSub | src/lib.rs:102-104 | `checked_sub(..).unwrap_or_default()`: the difference when there is no underflow, else 0; never above the minuend |
| RateBudget.Min | src/lib.rs:114 | `std::cmp::min`: at most both arguments and equal to one of them |
| RateBudget.Tier1Delay | src/lib.rs:99-104 | at most the tier-1 period; it is 0 exactly when one ticker's share of the quota covers the period, and otherwise it and that share add up to the period |
| RateBudget.Tier2Delay | src/lib.rs:106-111 | at most the tier-2 period; the whole period when the tickers use up the quota; otherwise, when positive, it and the remaining quota add up to the period; 0 exactly when the remaining quota covers the period |
| RateBudget.CalculateSleepDuration | src/lib.rs:88-117 | `None` exactly when there are no tickers; otherwise at most both periods, at most both tier delays and equal to one of them (the stricter tier wins) |
| RateBudget.Tier1WithMoreTickersThanQuota | src/lib.rs:99-104 | with more tickers than tier-1 calls the share floors to 0 and the tier-1 delay is the whole period |
| RateBudget.Tier2WithQuotaExhausted | src/lib.rs:106-111 | with at least as many tickers as tier-2 calls the quota clamps to 0 and the tier-2 delay is the whole period |
| RateBudget.DelayMonotoneInTickers | src/lib.rs:99-114 | for positive counts, more tickers never give a shorter delay |
| RateBudget.DelayFitsU64 | src/lib.rs:88-94 | the delay fits in a `u64` whenever the periods do |
| RateBudget.FiveTickersExample | src/lib.rs:88-117 | (5, 8, 60, 800, 23400) gives tier delays 59 and 22605 and the result `Some(59)`; zero tickers give `None` |
| TimeToOpen.Split | src/lib.rs:73-74 | splitting always yields at least one piece |
| TimeToOpen.SplitJoin | src/lib.rs:73-74 | the pieces contain no colon, join back to the input and number one more than its colons |
| TimeToOpen.JoinSplit | src/lib.rs:73-74 | joining colon-free pieces with ':' and splitting gives back exactly those pieces, empty ones included |
| TimeToOpen.Digits | src/lib.rs:75-77 | the digit run read by `u64::from_str`: non-empty, all ASCII digits, and the input itself or the input after one '+'; every non-empty run of ASCII digits is accepted as it is, and so is one after a single '+' |
| TimeToOpen.ParseU64 | src/lib.rs:75-77 | a value comes back exactly when there is a digit run whose value is at most `u64::MAX`, and it is that run's value |
| TimeToOpen.Component | src/lib.rs:75-77 | a countdown piece counts its parsed value when it parses and 0 when it does not; never above `u64::MAX` |
| TimeToOpen.LeadingZero | src/lib.rs:75-77 | a leading zero does not change the value of a digit run |
| TimeToOpen.ParseLeadingZero | src/lib.rs:75-77 | parsing gives the same result with or without a leading zero in front of a digit run |
| TimeToOpen.ParsePadded | src/lib.rs:75-77 | every `u64` value rendered behind any number of padding zeros ("05", "007") parses back to that value |
| TimeToOpen.ParseDecimal | src/lib.rs:75-77 | every `u64` value's decimal rendering parses back to that value |
| TimeToOpen.OverflowIsZero | src/lib.rs:75-77 | a decimal above `u64::MAX` does not parse and so counts 0 |
| TimeToOpen.SignsRejected | src/lib.rs:75-77 | a leading '-', a lone '+' and the empty string do not parse |
| TimeToOpen.PlusSignAccepted | src/lib.rs:75-77 | one leading '+' before a digit run does not change the value |
| TimeToOpen.ThreeFieldsIffTwoColons | src/lib.rs:73-77 | the three pieces the code indexes exist exactly when the text has at least two colons |
| TimeToOpen.Countdown | src/lib.rs:75-79 | the wait is at most 3661·`u64::MAX`, and 0 when none of the first three pieces parses; `CountdownOfFields`, `CountdownOfParsed`, `CountdownOfDecimals` and `CountdownOfPadded` pin it to hours·3600 + minutes·60 + seconds |
| TimeToOpen.CountdownOfParsed | src/lib.rs:73-79 | three colon-free pieces that parse to h, m and s count h·3600 + m·60 + s |
| TimeToOpen.CountdownOfFields | src/lib.rs:73-79 | for colon-free pieces the countdown is the weighted sum of their values (unparsable ones 0), whatever pieces follow the third |
| TimeToOpen.CountdownOfDecimals | src/lib.rs:73-79 | the text "H:M:S" of rendered numbers counts H·3600 + M·60 + S seconds |
| TimeToOpen.DefaultCountdownIsZero | src/lib.rs:70-72 | the default text "0:0:0" is well formed and counts 0 seconds |
| TimeToOpen.CountdownOfPadded | src/lib.rs:73-79 | zero-padded rendered pieces count H·3600 + M·60 + S, as without the padding |
| TimeToOpen.CountdownExample | src/lib.rs:73-79 | "1:30:15" counts 5415 seconds |
| TimeToOpen.PaddedCountdownExample | src/lib.rs:73-79 | "00:14:34" counts 874 seconds |
| MarketClock.CountdownText | src/lib.rs:70-72 | a closed record's countdown text is its `time_to_open` string, or "0:0:0" when that is missing or not a string |
| MarketClock.MarketWait | src/lib.rs:62-85 | a positive wait only ever comes from a record that says the market is closed |
| MarketClock.SleepFor | src/lib.rs:53-86 | no result exactly on a transport error; a body that is malformed or not an array waits 0; a positive wait comes from a closed record of the array |
| MarketClock.Records | src/lib.rs:61-62 | a malformed body or a value that is not an array gives no records; an array gives its records |
| MarketClock.ShouldSleep | src/lib.rs:53-86 | the record scan with early return gives `None` on a transport error and otherwise the market wait of the records |
| MarketClock.DecidedAt | src/lib.rs:62-80 | the first record with a boolean `is_market_open` alone decides: the scan is defined exactly when that record is open or its countdown has three pieces, and it waits 0 if open and the countdown if closed |
| MarketClock.NoDecider | src/lib.rs:62-85 | with no record carrying a boolean `is_market_open`, the wait is 0 |
| MarketClock.FailOpen | src/lib.rs:59-85 | malformed JSON, a non-array value and an empty array all give a wait of 0; a transport error is reported as an error |
| MarketClock.Examples | src/lib.rs:63-79 | an open record gives 0; a closed one with "1:30:15" gives 5415; a closed one without `time_to_open` gives 0 |
| TickerStore.Loaded | src/lib.rs:139-142 | a well-formed file yields its list unchanged; a malformed one yields the empty list |
| TickerStore.Tickers.Default | src/lib.rs:170-174 | the default list is empty |
| TickerStore.Tickers.constructor | src/lib.rs:187-189 | `new(t)` holds exactly `t` |
| TickerStore.Tickers.SetTickers | src/lib.rs:191-193 | the list is replaced wholesale by the given one |
| TickerStore.Tickers.GetTickers | src/lib.rs:195-197 | returns the current list and changes nothing |
| TickerStore.Tickers.DumpToFile | src/lib.rs:199-204 | the file afterwards holds exactly this list |
| TickerStore.Tickers.Init | src/lib.rs:177-185 | an absent file is created holding the empty list and [] is returned; a present file is left as it is and its loaded list returned |
| TickerStore.Store.constructor | src/lib.rs:146 | the stored fingerprint starts at 0 |
| TickerStore.Store.ReadTickers | src/lib.rs:138-142 | a fresh `Tickers` holding the loaded list of the present file |
| TickerStore.Store.CreateTickers | src/lib.rs:207-209 | the file afterwards holds the empty list |
| TickerStore.Store.CheckTickers | src/lib.rs:144-163 | a reload happens exactly when the observed fingerprint differs from the stored one; afterwards the stored one is the observed one; a reload holds the loaded list |
| TickerStore.CheckTwice | src/lib.rs:156-162 | a second check with the same fingerprint reports no change |
| TickerStore.FirstCheckAtZero | src/lib.rs:146-162 | a fresh process's first check with fingerprint 0 reports no change |
| TickerStore.PersistThenLoad | src/lib.rs:199-204 | persisting a list and reading it back gives the same list in the same order |
| PollLoop.Delay | src/main.rs:46-48 | the delay for the post-reload count under (8, 60, 800, 23400): absent exactly for an empty list, otherwise at most 60 s |
| PollLoop.FetchSchedule | src/main.rs:50-56 | two actions per symbol; `ScheduleShape` and `FetchedSchedule` give each position |
| PollLoop.DelayDefinedInLoop | src/main.rs:46-55 | with at least one ticker the delay is present, equals the tier-1 delay under the configured constants and is at most 60 s |
| PollLoop.ScheduleShape | src/main.rs:50-56 | the schedule has two actions per symbol: the i-th symbol's fetch at 2i, a delay sleep at 2i + 1 |
| PollLoop.FetchedSchedule | src/main.rs:50-56 | the schedule requests exactly the list's symbols, in stored order, once per occurrence |
| PollLoop.CycleTrace | src/main.rs:36-56 | a cycle's trace is the market sleep, then fetch/sleep pairs for every symbol; it has 1 + 2·n actions and requests exactly the list |
| PollLoop.Cycle | src/main.rs:35-56 | opens with `Sleep` of the market wait (0 on error); the active list is the reloaded one only when a reload happened; fetches every active symbol in order, each followed by the delay for the post-reload count, the last one too; an empty list gives the market sleep alone |
| PollLoop.RunCycle | src/main.rs:35-56 | the loop body against the store: the market sleep comes from the market reply, a reload happens exactly when the fingerprint changed, the trace requests exactly the active list in stored order, and each fetch is followed by one sleep of the rate-limit delay for the active count |

## Left out

- HTTP requests to the market-state and price endpoints. A reply is a parameter
  (`MarketClock.Reply`), and a price request is an opaque `Fetch(symbol)` action.
- `call_api`'s price path: JSON, `f64` parsing and the metrics update. It is network I/O
  and floating point. Its result is discarded in `main`, so the trace does not depend on it.
- The metrics module (a prometheus gauge in a global and a warp server). It is a library
  wrapper and a concurrent server.
- JSON parsing and serialisation. The model works on abstract records and an abstract file
  state. Reading back what `dump_to_file` wrote is the abstract state round trip only.
- A value in the market array that is not an object. `value["is_market_open"]` is then
  `Null`, which the model covers as a record with both fields `None`.
- Filesystem metadata and the wall clock. The fingerprint is a parameter. `try_exists`
  failing is treated like an absent file, as the source does, but it is not a separate state.
- Two panics from `unwrap`/`expect` are preconditions: reading or checking a missing file
  (`file != Absent`), and fewer than three countdown pieces (`WaitDefined`).
- A failed write of the ticker file (`fs::write(..).expect(..)` in `dump_to_file`, reached
  from `create_tickers` and `init`) is not modelled. `Tickers.DumpToFile` always succeeds,
  because the abstract file state has no write errors.
- Tokio sleeping and spawning, the metrics task, `dotenv`/`API_KEY` loading and tracing
  setup. The endless outer `loop` is modelled as one cycle, with sleeps emitted as actions.
- `Markets` and its `Display` formatting. It is a trivial `Debug` format that only goes
  into the request URL and logs.
- TimeToOpen.Countdown: `hours * 3600 + minutes * 60 + seconds` is computed on
  unbounded naturals. A `u64` overflow there is not modelled.
