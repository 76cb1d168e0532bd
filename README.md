# Momentum strategy checker — Dafny model

A day trader configures "strategies" for currency pairs. Each strategy is eligible on
some weekdays and at some hours. It looks back a configured number of hours and tests
the price momentum since then against optional percentage thresholds. On each run the
program validates all strategies, then evaluates the ones selected by an optional name
filter. It reports "all conditions match" for a strategy whose weekday, time and
momentum conditions all hold.

This project models that decision procedure, in `main.go`, and proves its properties:

- `clock.dfy` (module `Clock`): UTC calendar arithmetic on integer seconds. It covers
  hour of day, weekday, truncation to the hour, whole hours of a time of day, and the
  target instant `now + (1 - offset)` hours truncated to its hour.
- `strategies.dfy` (module `Strategies`): the strategy record and `Configuration.validate`.
  The fatal exit becomes a `Fatal(index, error)` result that names the failed check.
- `momentum.dfy` (module `Momentum`): price bars and the backward scan for the anchor bar.
  It also holds the momentum `(latest.close / anchor.open - 1) * 100` and the strict-AND
  threshold test.
- `evaluator.dfy` (module `Evaluator`): `Strategy.evaluate`. It has the weekday gate,
  the hour gate (`now.Hour() + 1` against the whole hours of each time, with no wrap at
  midnight), the anchor scan and the final verdict.
- `program.dfy` (module `Program`): `evaluateStrategies` with its name filter, and the
  program flow "validate everything, then evaluate".
- `wrappers.dfy` (module `Wrappers`): `Option`. A nil threshold pointer is modelled as `None`.

Each loop of the decision procedure is a method with the same loop, proved against a specification
function: `Validate`, `MatchTime`, `ScanForAnchor` and `EvaluateStrategies`. The
properties are then lemmas about those functions.

Modelling decisions:
- Instants and `now` are whole seconds since the epoch, UTC. A configured time of day is
  a duration in seconds. Weekdays are numbered as Go numbers them, Sunday = 0.
- A float64 is modelled as `Float = Finite(real) | PosInf | NegInf | NaN`. So the initial
  `math.NaN()` is exact. Dividing by an anchor whose open is zero needs no precondition: it
  yields an infinity, or NaN, and IEEE comparisons with NaN are false.
- The bar series must be non-empty only once the weekday gate has passed. Only then does
  the code read the newest bar, and an empty slice would panic there.
- The clock and the download are parameters. `now` is the current instant, and
  `fetch: string -> seq<Record>` gives the series of a currency.

The model keeps these behaviours exactly as the code has them, although a reader might expect otherwise:
- The hour gate compares `now.Hour() + 1` with the hour of each entry without `mod 24`.
  During hour 23 a `00:xx` entry never matches (`Evaluator.NoMidnightWrap`).
- Strategy names are not checked for uniqueness. A non-empty weekday list is not required.
- When both thresholds are absent, the threshold test is true, even for NaN. Validation
  rejects such a strategy, so this never shows (`Evaluator.ValidatedUndefinedNeverMatches`).

## Model

| member | source | states |
|---|---|---|
| `Clock.HourOf` | main.go:106 | the hour of day is in 0..23, and `t` lies inside that hour of its UTC day |
| `Clock.WeekdayOf` | main.go:88 | `now.Weekday()`: the number of whole UTC days since the epoch plus 4 (Thursday), modulo 7, with Sunday = 0 |
| `Clock.WeekdayOfNextDay` | main.go:88 | the weekday advances by one, modulo 7, from one UTC day to the next |
| `Clock.EpochIsThursday` | main.go:88 | the epoch day gets weekday 4 (Thursday, with Sunday = 0) |
| `Clock.TruncateToHour` | main.go:114-123 | the result is a whole hour at or before `t` and less than an hour before it, on the same UTC day and with the same hour of day |
| `Clock.SameDay` | main.go:114-123 | a whole hour within the hour before `t` has the day and hour of `t`, as rebuilding the date from its fields gives |
| `Clock.TruncateToHourUnique` | main.go:114-123 | every whole hour within the hour before `t` equals the truncation of `t`, so the truncation is uniquely determined |
| `Clock.TruncateShift` | main.go:113-123 | moving an instant by `k` whole hours moves the start of its hour by `k` hours |
| `Clock.HoursOf` | main.go:107 | `int(t.Hours())` counts whole hours and rounds toward zero; minutes and seconds are dropped |
| `Clock.TargetInstant` | main.go:113-123 | the target is a whole hour, and `now + (1 - offset)` hours lies in the hour starting at the target |
| `Clock.TargetBeforeCurrentHour` | main.go:113-123 | the target is `offset - 1` hours before the start of the current hour; with offset 1 it is the start of the current hour; a positive offset never looks past it |
| `Strategies.WellFormed` | main.go:70-81 | the four demands together: a non-empty name, a non-empty currency, a positive offset, and at least one threshold |
| `Strategies.CheckStrategy` | main.go:70-81 | no error exactly for a well-formed strategy; otherwise the error of the first failed check, in the order name, currency, offset, thresholds |
| `Strategies.Validate` | main.go:68-83 | accepts iff every strategy has a name, a currency, a positive offset and at least one threshold; otherwise it reports the first offending strategy, all earlier ones valid, with that strategy's first failed check |
| `Momentum.Greater` | main.go:136 | the float64 comparison `momentum > greaterThan`: true for +Inf, false for -Inf and NaN |
| `Momentum.Less` | main.go:139 | the float64 comparison `momentum < lessThan`: true for -Inf, false for +Inf and NaN |
| `Momentum.ThresholdMatch` | main.go:134-141 | the momentum test: each configured threshold is met strictly, and an absent one is ignored |
| `Momentum.Change` | main.go:133 | with a positive anchor open, momentum is finite and positive iff the latest close exceeds the anchor open (zero iff they are equal); with a non-zero open it is the percentage change from open to close; with a zero open it is not finite |
| `Momentum.NaNMatchesNoThreshold` | main.go:134-141 | an undefined (NaN) momentum passes the test only when no threshold is configured |
| `Momentum.FiniteThresholdMatch` | main.go:134-141 | a finite momentum matches iff it is strictly above `greaterThan` (if set) and strictly below `lessThan` (if set) |
| `Momentum.EmptyBand` | main.go:134-141 | with `greaterThan >= lessThan` no momentum matches |
| `Momentum.ThresholdExamples` | main.go:134-141 | above 5 matches 10 but not 3; between 5 and 10 matches 7 but neither 12 nor 3 |
| `Momentum.LastAtOrBefore` | main.go:126-132 | the index found has a timestamp not after the target and every later record is after it; None means every record is after the target |
| `Momentum.AnchorExists` | main.go:130-132 | an anchor is found iff some record has a timestamp at or before the target |
| `Momentum.LastAtOrBeforeUnique` | main.go:130-145 | the scan's result is the only index that is at or before the target with every later record after it |
| `Momentum.AnchorIsLatestAtOrBefore` | main.go:130-132 | on an ascending series the anchor is the bar with the greatest timestamp not after the target, and every bar at or before the target precedes it |
| `Momentum.ScanForAnchor` | main.go:124-146 | the backward scan returns the last record not after the target; momentum runs from its open to the newest record's close; without an anchor the momentum stays NaN and the match stays false |
| `Evaluator.TimeMatches` | main.go:104-112 | some configured time has whole hours equal to `now.Hour() + 1`, with no wrap at midnight |
| `Evaluator.AllConditionsMatch` | main.go:178 | the verdict: the weekday gate passed and the time match and the momentum match both hold |
| `Evaluator.Evaluation` | main.go:85-146 | the decision: it stops on an inactive weekday; otherwise the newest bar is the latest one, the target is the target hour, and there are two cases. Without an anchor the momentum is NaN and does not match. With an anchor, it is at or before the target and the momentum runs from its open to the latest close |
| `Evaluator.MatchTime` | main.go:104-112 | the time gate holds iff some configured time's whole hours equal `now.Hour() + 1` |
| `Evaluator.Evaluate` | main.go:85-146 | evaluation stops at the weekday gate; otherwise it yields the time gate, the target, the newest bar, the anchor, the momentum and its match, as the decision function defines them |
| `Evaluator.OffDayStopsEarly` | main.go:100-103 | on an inactive weekday nothing further is examined and the verdict is not given |
| `Evaluator.AllConditionsMatchIff` | main.go:178 | the verdict holds iff the weekday is active, a time names the next hour, and some bar is at or before the target with every later bar after it and a momentum that passes the thresholds |
| `Evaluator.NoAnchorNoMatch` | main.go:124-146 | when every bar is after the target there is no anchor, the momentum is NaN and it does not match, whatever the thresholds |
| `Evaluator.AnchoredDecision` | main.go:127-141 | with anchor `k` (non-zero open), momentum is `(latest.close / records[k].open - 1) * 100` with the newest bar as latest, and it matches iff it is strictly inside the configured band |
| `Evaluator.ValidatedUndefinedNeverMatches` | main.go:124-141 | for a strategy that passes validation, an undefined momentum never matches and the verdict is never given |
| `Evaluator.InsufficientHistory` | main.go:113-132 | a series covering only the last half hour has no anchor for any offset of 2 or more: momentum undefined, no match |
| `Evaluator.TimeGateByHour` | main.go:104-112 | for non-negative times, the gate holds iff some time lies in the hour after the current one; minutes are ignored |
| `Evaluator.NoMidnightWrap` | main.go:104-112 | during hour 23 no time within the day matches (there is no wrap to 00:xx) |
| `Evaluator.TimeGateExample` | main.go:104-112 | a 14:00 entry matches at any minute of hour 13 and not during hour 14 |
| `Evaluator.EndToEndScenario` | main.go:113-146 | bars at 10:00, 11:00 and 12:00, now 12:00, offset 2: target 11:00, anchor the 11:00 bar, momentum 100/7 percent, which passes `greaterThan` 10, and all conditions match |
| `Program.Selected` | main.go:61 | the negation of the `continue` test: the filter is empty or equals the strategy's name exactly |
| `Program.Filtered` | main.go:60-63 | every selected strategy is configured and passes the filter, and there are no more of them than configured |
| `Program.EmptyFilterSelectsAll` | main.go:61 | an empty filter selects every strategy, in order |
| `Program.FilteredMembership` | main.go:60-63 | a strategy is selected iff it is configured and the filter is empty or equals its name |
| `Program.FilteredAppend` | main.go:60-63 | selection keeps configuration order: filtering `a + b` is filtering `a`, then `b` |
| `Program.NamedFilterSelectsByName` | main.go:61-63 | a non-empty filter selects only strategies with exactly that name |
| `Program.EvaluateStrategies` | main.go:58-66 | exactly the selected strategies are evaluated, in configuration order, each against its own currency's series |
| `Program.RunProgram` | main.go:46-56 | the run aborts iff some strategy is invalid, reporting the first, and then evaluates nothing; otherwise it evaluates exactly the selected, valid strategies |

## Left out

- `loadRecords`, the download of 5-minute bars from Binance with JSON and float parsing: network I/O. It is the `fetch` parameter.
- `loadConfiguration` and the global configuration: YAML loading. The strategy list is passed in explicitly.
- `time.Now()`: `now` is a parameter. `Program.EvaluateStrategies` gives every strategy the same `now`; the source reads the clock again for each strategy.
- `fetch` is one fixed function for the whole run. The source downloads the series again for each strategy, with a fresh end time, so two strategies on the same currency may see different series.
- All console output and `formatBool`: presentation only. This includes the anchor's close printed as the "Momentum price" and the weekday and time strings.
- The `Up` field: it only selects a word that is printed.
- The loop that copies the configured weekdays into a `[]time.Weekday`: the copy is the identity here, so the model tests membership in the configured list directly.
- `log.Fatalf` and the panic on an empty series: the first is a `Fatal` result, the second a precondition.
- Momentum.Change: float64 rounding and the sign of zero are not modelled; a finite result is the exact real quotient.
- Clock.TargetInstant: does not model int64 wrap-around of `time.Duration(1 - offset) * time.Hour`, which only happens for offsets above about 2.5 million hours.
- Clock.HoursOf: does not model float64 rounding in `t.Hours()` for durations a few nanoseconds below a whole hour; instants and durations are whole seconds.
- Concurrency: there is none in the source.
