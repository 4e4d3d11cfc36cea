# Market clock session engine

This project models the session engine of a desktop market clock. The clock
shows three stock exchanges: London, New York and Sydney. Once a second, for
each market, the engine reads the market's local wall clock at one shared
instant. From that reading it computes:

- the fraction of the local day that has passed;
- the fractions of the day at which the market opens and closes;
- whether the market is open, with the opening second inside the session and the closing second outside it;
- a status label;
- zero-padded `HH:MM` texts for the opening and closing times.

It then publishes one state per market, in the order of its fixed list.

Modules:

- `MarketTypes`: the value types from `MarketClock/GlobalMarketClockApp.swift`.
  - `MarketConfig` holds a market's names, zone identifier and trading hours.
  - Its `TimeZone` falls back to the current zone when the identifier does not resolve.
  - `MarketState` is one market's state for one tick.
  - Hours, minutes and seconds are subset types (`Hour` is 0-23, `Minute` and `Second` are 0-59). The source declares the trading hours as plain `Int`s and documents them as local 24-hour values; the model enforces that documented format by type, so a configuration outside it cannot be written.
- `Formatting`: `%d` and `%02d` for non-negative values. Each formatter has a decoder, and every formatter is proved to read back as its inputs.
- `MarketClock`: the view model from `MarketClock/MarketClockViewModel.swift`.
  - `Markets()` is the market list.
  - `MarketStateAt` is the per-market body of `updateTimes`, as a pure function. Three lemmas state what its result means.
  - `Snapshot` is the list published for one tick. It is defined with `MapInOrder`, the append-one-result-per-element loop written as a function.
  - The class `MarketClockViewModel` has the published `marketStates` field. Its `UpdateTimes` loop builds the new list and then assigns that field.
- `Wrappers`: `Option`, for identifiers that may not resolve.

The Foundation calls are parameters, bundled in the `Foundation` datatype:

- `TimeZone(identifier:)`;
- `TimeZone.current`;
- `Calendar.dateComponents` in a zone.

The instant `Date()` is the parameter `now`. Progress values are exact
`real`s, so 43200/86400 is exactly 0.5. Because `UpdateTimes` is specified by
`Snapshot`, equal inputs always give the same published list. The proof of
`SnapshotIndependent` shows that one market's state never depends on the
other markets.

The source does not check that a market opens before it closes, and the
model does not require it either. `SessionWithinDay` is a predicate, and
`MarketsSessionsWithinDay` proves it for each of the three configured
markets. The comment on `MarketState` gives the progress range as 0.0 to 1.0.
`MarketState.OnBar` is that range, and `MarketStateAtOnBar` states both it
and the stronger bound [0, 1). The stronger bound holds for configurations in
the documented 24-hour format, the only ones the model's types admit. A Swift
configuration with `closeHour: 24` would give `closeProgress == 1.0`.

## Model

| member | source | states |
|---|---|---|
| `MarketTypes.MarketConfig.TimeZone` | MarketClock/GlobalMarketClockApp.swift:18-21 | total: the resolved zone when the identifier is known, the current zone otherwise |
| `Wrappers.Option.GetOr` | MarketClock/GlobalMarketClockApp.swift:20 | Swift's `??`: the wrapped value when there is one, the fallback otherwise |
| `MarketTypes.MarketConfig.SessionWithinDay` | MarketClock/GlobalMarketClockApp.swift:12-16 | a session is within one day exactly when its opening time comes strictly before its closing time on the 24-hour clock, compared hour first, then minute |
| `MarketTypes.MarketConfig.OpenSeconds` | MarketClock/MarketClockViewModel.swift:68 | opening second lies in [0, 86400), is a whole minute, and decodes back to the configured hour and minute |
| `MarketTypes.MarketConfig.CloseSeconds` | MarketClock/MarketClockViewModel.swift:69 | closing second lies in [0, 86400), is a whole minute, and decodes back to the configured hour and minute |
| `Formatting.Decimal` | MarketClock/MarketClockViewModel.swift:84-85 | the decimal numeral of n is all digits, reads back as n, and has one digit exactly when n < 10 and at most two when n < 100 |
| `Formatting.ZeroPad2` | MarketClock/MarketClockViewModel.swift:84-85 | `%02d` of n is at least two digits and reads back as n; below 100 it is exactly two digits |
| `Formatting.FormatHHMM` | MarketClock/MarketClockViewModel.swift:84-85 | `%02d:%02d` is five characters, two digits, ':', two digits, and parses back to (h, m) |
| `Formatting.FormatHHMMInjective` | MarketClock/MarketClockViewModel.swift:84-85 | different open/close times never print the same text |
| `Formatting.FormatHHMMExamples` | MarketClock/MarketClockViewModel.swift:84-85 | (9, 30) prints "09:30" and (16, 0) prints "16:00" |
| `Formatting.FormatHHMMSS` | MarketClock/MarketClockViewModel.swift:78-81 | `HH:mm:ss` text is eight characters in the `DD:DD:DD` shape and parses back to the clock reading |
| `MarketClock.Markets` | MarketClock/MarketClockViewModel.swift:11-39 | the fixed list holds three markets |
| `MarketClock.MarketsSessionsWithinDay` | MarketClock/MarketClockViewModel.swift:11-39 | every configured market opens before it closes, so no session crosses midnight |
| `MarketClock.SecondsSinceMidnight` | MarketClock/MarketClockViewModel.swift:61 | lies in [0, 86399] and decomposes back into the hour, minute and second it came from |
| `MarketClock.Progress` | MarketClock/MarketClockViewModel.swift:62-65 | the fraction times 86400 gives back the seconds |
| `MarketClock.ProgressOrder` | MarketClock/MarketClockViewModel.swift:65-75 | dividing by 86400 preserves `<=` and `<` in both directions |
| `MarketClock.ProgressInDay` | MarketClock/MarketClockViewModel.swift:64-72 | any second of the day maps into [0, 1) |
| `MarketClock.DayProgressExtremes` | MarketClock/MarketClockViewModel.swift:61-65 | day progress is at most 86399/86400, reached at 23:59:59, and is exactly 0.5 at 12:00:00 |
| `MarketClock.InSession` | MarketClock/MarketClockViewModel.swift:75 | the `isOpen` test, inclusive at the opening second and exclusive at the closing second, holds exactly when the day progress lies between the open progress (inclusive) and the close progress (exclusive) |
| `MarketClock.StatusText` | MarketClock/MarketClockViewModel.swift:90 | the label is never empty |
| `MarketClock.StatusTextDistinct` | MarketClock/MarketClockViewModel.swift:90 | the label determines the open flag and is determined by it |
| `MarketClock.MarketStateAt` | MarketClock/MarketClockViewModel.swift:87-97 | the state built for a market carries the config it was built from |
| `MarketClock.MarketStateAtSession` | MarketClock/MarketClockViewModel.swift:61-75 | open exactly when open second <= current second < close second, equivalently open progress <= day progress < close progress (inclusive open, exclusive close); the status label is the one for that flag |
| `MarketClock.MarketStateAtOnBar` | MarketClock/MarketClockViewModel.swift:61-72 | day, open and close progress are the seconds over 86400, each in [0, 1), so within the bar's [0.0, 1.0]; a same-day session has its close to the right of its open |
| `MarketClock.MarketStateAtDisplays` | MarketClock/MarketClockViewModel.swift:78-85 | the local time text parses back to the clock reading; the open and close texts are `DD:DD` and parse back to the trading hours |
| `MarketClock.MarketStateNow` | MarketClock/MarketClockViewModel.swift:55-60 | a market's state at an instant carries that market's config |
| `MarketClock.MarketStateNowZone` | MarketClock/GlobalMarketClockApp.swift:19-21 | the clock is read in the zone the identifier resolves to, or in the current zone when the identifier is unknown; a state is produced either way |
| `MarketClock.LondonBoundaries` | MarketClock/MarketClockViewModel.swift:75 | London is open at 08:00:00 and 16:29:59, and closed at 16:30:00 and 07:59:59 |
| `MarketClock.StateAtInstant` | MarketClock/MarketClockViewModel.swift:55-97 | the per-market step at one instant keeps each market's config |
| `MarketClock.MapInOrder` | MarketClock/MarketClockViewModel.swift:53-99 | the appending loop yields exactly one result per element |
| `MarketClock.MapInOrderAt` | MarketClock/MarketClockViewModel.swift:53-99 | result i of the appending loop is the step applied to element i, so order is kept |
| `MarketClock.MapInOrderExtend` | MarketClock/MarketClockViewModel.swift:98 | one more iteration appends the next element's result to the list built so far |
| `MarketClock.Snapshot` | MarketClock/MarketClockViewModel.swift:53-99 | the published list has exactly one state per configured market |
| `MarketClock.SnapshotExtend` | MarketClock/MarketClockViewModel.swift:56-98 | reading market i's clock in its zone and appending its state extends the list for the first i markets to the list for the first i + 1 |
| `MarketClock.SnapshotAt` | MarketClock/MarketClockViewModel.swift:55-98 | state i of the list carries config i and is the state of market i at the one shared instant |
| `MarketClock.SnapshotIndependent` | MarketClock/MarketClockViewModel.swift:55-98 | the same config at the same instant gives the same state at any position in any list |
| `MarketClock.MarketClockViewModel.UpdateTimes` | MarketClock/MarketClockViewModel.swift:51-102 | the published list becomes the snapshot of the configured markets at `now` |
| `MarketClock.MarketClockViewModel.constructor` | MarketClock/MarketClockViewModel.swift:41-42 | the markets are the fixed list and the first tick is published at once |

## Left out

- The once-a-second `Timer.publish` subscription in `init` (`MarketClock/MarketClockViewModel.swift:43-48`) is not modelled. It is scheduling on the main run loop; an external driver is assumed to call `UpdateTimes`.
- Time zone conversion is not modelled. `Calendar.dateComponents`, `TimeZone(identifier:)`, `TimeZone.current` and `Date()` are foreign Foundation calls, so they are parameters. No zone database, daylight saving rule or calendar is modelled.
- `DateFormatter` with `HH:mm:ss` is modelled as the zero-padded hour, minute and second of the same calendar reading. The formatter's locale behaviour is not modelled.
- IEEE `Double` rounding of the progress values is not modelled; the model uses exact reals.
- The record fields `id` (a `UUID`), `flag` and `accentColor` are left out. No computation reads them.
- MarketTypes.MarketConfig: trading hours outside the documented local 24-hour format (an hour outside 0-23 or a minute outside 0-59) are excluded by the `Hour` and `Minute` types. The source's plain `Int` fields would accept them, and `closeHour: 24` would give `closeProgress == 1.0`. The engine's behaviour on such configurations is not modelled.
- `%02d` of a negative value is not modelled. The hour and minute types rule such inputs out.
- `MarketClock/ContentView.swift` (SwiftUI layout, bar geometry, hover and tooltip) is not part of this model. It is presentation.
- `MarketClock/MarketModels.swift` (the `@main` app entry and window setup) is not part of this model.
- Observation of `@Published` by SwiftUI is not modelled. `marketStates` is a plain field.
