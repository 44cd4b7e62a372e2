# TVL analysis of the DeFi Llama wrapper, in Dafny

This project models `ProtocolAnalyzer` (`src/formatters/analysis.ts`) and the
formatting helpers it relies on (`formatUtils` in `src/formatters/index.ts`).

`ProtocolAnalyzer` turns the historical TVL (total value locked) series that
DeFi Llama returns into summaries:

- it reads a protocol's metadata with safe defaults;
- it picks the protocol's TVL series;
- it drops unusable entries;
- it groups the remaining points by UTC month key (`toISOString().slice(0, 7)`) and by local year (`getFullYear()`);
- it summarises each group and the whole series: average, minimum, maximum, first and last value, percentage change and spread.

The formatting layer renders every amount in compact dollars (`$1.50K`), every change as a signed percentage, and every month as a month label.

The model is a set of pure functions over immutable datatypes. Dafny checks
their contracts and lemmas.

- `Wrappers`: `Option` and `Result`.
- `JsValues`:
  - the JavaScript values the code reads from loosely typed JSON: numbers with NaN and the infinities, missing or `null` fields, strings;
  - truthiness and `isNaN` on those values.
- `Digits`, `Strings`, `NumberParsing`: digit strings, `String.prototype.split` and `parseInt`.
- `Calendar`:
  - `new Date(seconds * 1000)` with TimeClip;
  - the UTC civil calendar and the month key, including the expanded-year form of `toISOString`;
  - the local year.
- `Statistics`: `calculateStats`.
- `Bucketing`, `EntryOrder`:
  - the `reduce` that groups points into accumulators;
  - the order in which `Object.entries` lists the groups: string keys in insertion order; integer-like year keys ascending, then the others.
- `Engine`: the analysis shared by the protocol and the chain variants, from filtered points to `byMonth`, `byYear` and `overall`.
- `Extraction`: the filter-then-map shape both analyses share, and the positions of the kept records.
- `ProtocolAnalysis`, `ChainAnalysis`: `analyzeProtocolData` and `analyzeChainTVLData`, meaning the field extraction, the series selection, the entry filters and the errors they throw.
- `FormatUtils`:
  - `toFixed(2)`, `compactCurrency`, `changePercent` and `volatility`;
  - the guard branches of `number`, `currency` and `percentage`.
- `Formatted`: `formatProtocolAnalysis` and `formatChainTVLAnalysis` as written, including the month label `monthYear(new Date(key))` of each monthly row. Also a corrected monthly row (`IntendedMonth`) whose label names the month of its key on every host; see "## Findings".

Exceptions become `Err` results. The host's time zone is a parameter
`offset: int -> int`: the offset from UTC, in milliseconds, at a given
instant. The current time is a parameter `now`. TVL amounts are exact reals.

## Model

| member | source | states |
|---|---|---|
| Calendar.FromSeconds | src/formatters/analysis.ts:53 | a timestamp in seconds gives a valid date exactly when its millisecond value is within ±8.64e15, and that date is the millisecond value truncated toward zero; `null` gives the epoch, while missing and NaN give an invalid date |
| Calendar.KeyYearOfMonthKey | src/formatters/analysis.ts:84 | the year can be read back from a month key, in both the `YYYY-MM` and the expanded `±YYYYYY` forms |
| Calendar.SameMonthKeySameUtcYear | src/formatters/analysis.ts:84 | two valid dates that share a month key lie in the same UTC year |
| Calendar.LocalYearOnUtcHost | src/formatters/analysis.ts:101 | on a host with zero offset, `getFullYear` is the UTC year |
| Calendar.MonthAndYearDisagreeWestOfUtc | src/formatters/analysis.ts:84-101 | five hours west of UTC, 2020-01-01T01:00Z gets the month key "2020-01" but the year 2019 |
| Calendar.CivilFromDaysOfFirst | src/formatters/index.ts:43-45 | the day count of the first day of any month converts back to that year and month, as the engine's date-to-calendar step does for `toLocaleString` |
| Statistics.Minimum | src/formatters/analysis.ts:72 | the minimum is one of the values and is at most every value |
| Statistics.Maximum | src/formatters/analysis.ts:73 | the maximum is one of the values and is at least every value |
| Statistics.CalculateStats | src/formatters/analysis.ts:66-78 | an empty list gives all zeros. Otherwise min and max are values of the list and bound every value, the average lies between them and times the count gives the sum, and the spread is non-negative |
| Statistics.NoSpreadForConstant | src/formatters/analysis.ts:66-78 | min equals max exactly when every value is equal, and then the value is the average, min and max, with no spread |
| Statistics.SumBetween | src/formatters/analysis.ts:69 | values between two bounds sum to between count × lower and count × upper bound |
| Bucketing.Record | src/formatters/analysis.ts:85-93 | one reducer step: an unseen key opens an accumulator of the value, and a seen key appends the value and moves its end. No other key changes |
| Bucketing.GroupBy | src/formatters/analysis.ts:81-95 | the accumulator object has a bucket for exactly the keys that occur |
| Bucketing.GroupByIsSelect | src/formatters/analysis.ts:81-95 | each bucket holds the values of its key, in scan order |
| Bucketing.SelectEnds | src/formatters/analysis.ts:88-93 | a key's values start with the value at the key's first occurrence and end with the value at its last |
| Bucketing.GroupByOrder | src/formatters/analysis.ts:81-95 | the keys are recorded in the order of their first occurrence |
| Bucketing.GroupBySizes | src/formatters/analysis.ts:81-95 | the bucket sizes add up to the number of points: every point lands in exactly one bucket |
| EntryOrder.YearEntriesOrder | src/formatters/analysis.ts:127 | `Object.entries` of the year accumulator lists the same years, each once, with array-index years first and ascending |
| EntryOrder.YearEntriesKeepInsertionOrder | src/formatters/analysis.ts:127 | years that are not array indices (negative years) keep their insertion order |
| EntryOrder.Sort | src/formatters/analysis.ts:127 | the sort is ascending and a permutation of its input (the same multiset of keys), and it keeps distinct keys distinct |
| Engine.PercentChange | src/formatters/analysis.ts:123 | for a non-zero start, a finite percentage that gives back the end when applied to the start, with sign agreeing with the move; a zero start gives ±Infinity by the sign of the end, or NaN |
| Engine.Summarize | src/formatters/analysis.ts:114-125 | a period summary keeps its bucket's first and last value. Its min and max are values of the bucket and bound every value, its average times the count gives the bucket's sum and lies between min and max, and a period that ends where it started, from a non-zero start, has change 0 |
| Engine.Summaries | src/formatters/analysis.ts:114-138 | one summary per listed key, in the order listed |
| Engine.Analyze | src/formatters/analysis.ts:81-95 | the analysis fails with a RangeError exactly when some kept date is invalid, and otherwise returns the summaries |
| Engine.Analysis | src/formatters/analysis.ts:140-154 | overall start and current are the first and last TVL, the total change is their percent change, min and max bound every point, and the spread is non-negative. The whole overall block is the `Overall` summary of the points' TVL list, so min and max are TVLs of the series and the average is their mean |
| Engine.Overall | src/formatters/analysis.ts:140-153 | start and current are the first and last value, the total change is their percent change, min and max are values of the list and bound every value, the average times the count gives the sum, and the spread is non-negative |
| Engine.GroupByBuildsReference | src/formatters/analysis.ts:81-112 | each bucket the reducer builds equals a reference bucket defined directly from the keyed values |
| Engine.SummariesMatchReference | src/formatters/analysis.ts:114-138 | every summary is the summary of the reference bucket of its period |
| Engine.MonthlySummaries | src/formatters/analysis.ts:114-125 | the months listed are distinct, are exactly the month keys of the points, come in order of first occurrence, and each summarises its reference bucket |
| Engine.YearlySummaries | src/formatters/analysis.ts:127-138 | the years listed are distinct, are exactly the local years of the points, put array-index years first in ascending order and the rest in insertion order, and each summarises its reference bucket |
| Engine.MonthsPartitionPoints | src/formatters/analysis.ts:81-95 | the monthly buckets together cover every point exactly once |
| Engine.UtcHostMonthsWithinYears | src/formatters/analysis.ts:84-112 | on a UTC host, the year of every listed month is among the listed years |
| Strings.Split | src/formatters/analysis.ts:23 | `split(":")` gives at least one piece, no piece contains the separator, and there is one piece exactly when the separator is absent |
| Strings.JoinSplit | src/formatters/analysis.ts:23 | joining the pieces of a split with the separator restores the string |
| Strings.SplitJoin | src/formatters/analysis.ts:23 | splitting a join of separator-free pieces gives back the pieces |
| NumberParsing.ParseInt | src/formatters/analysis.ts:29 | `parseInt` is NaN exactly when no digit follows the optional space, sign and `0x` prefix, and a negative result needs a minus sign |
| NumberParsing.ParseIntOfDecimal | src/formatters/analysis.ts:29 | a decimal numeral followed by a non-digit parses to its value |
| NumberParsing.ParseIntSkipsSpace | src/formatters/analysis.ts:29 | leading white space does not change the result |
| NumberParsing.ParseIntOfNegative | src/formatters/analysis.ts:29 | a minus sign before a numeral negates its value |
| ProtocolAnalysis.AfterChainPrefix | src/formatters/analysis.ts:23 | the address after the chain prefix contains no colon, and is `undefined` exactly when the address has no colon |
| ProtocolAnalysis.GithubLinks | src/formatters/analysis.ts:37-39 | one link per repository, in order, each under `https://github.com/` |
| ProtocolAnalysis.ExtractInfo | src/formatters/analysis.ts:21-41 | name and category are never empty and keep truthy inputs. The address has no colon and is `undefined` exactly when the given one has none. The audit note is truthy or `null`, the twitter link is present exactly for a truthy handle, a listing date exists exactly for a truthy `listedAt`, and the chain table is an object or `null` |
| ProtocolAnalysis.AddressOfQualified | src/formatters/analysis.ts:23 | `chain:address` gives back `address` |
| ProtocolAnalysis.AuditCountOfDecimal | src/formatters/analysis.ts:29 | a decimal audit count in a string is read as its value |
| ProtocolAnalysis.SelectSeries | src/formatters/analysis.ts:44 | the series of the named chain when it exists, else the top-level `tvl`, else an empty list |
| Extraction.Points | src/formatters/analysis.ts:50-58 | filtering then mapping gives no more points than records, none exactly when no record is kept, and only clipped dates |
| Extraction.KeptPositions | src/formatters/analysis.ts:50-58 | the positions listed are kept records, in increasing order |
| Extraction.PointsOfKeptPositions | src/formatters/analysis.ts:50-58 | there is one point per kept record, and the j-th point is built from the j-th kept record |
| Extraction.KeptPositionsComplete | src/formatters/analysis.ts:50-58 | every kept record is listed |
| Extraction.DroppedIgnored | src/formatters/analysis.ts:50-58 | appending a record the filter drops leaves the points unchanged |
| ProtocolAnalysis.AdmissibleEntries | src/formatters/analysis.ts:51-57 | every entry both filters keep is mapped to a point whose date is clipped to the valid range |
| ProtocolAnalysis.ExtractPoints | src/formatters/analysis.ts:50-58 | the points are those of the kept entries, one each and in order, and there are none exactly when no entry is kept |
| ProtocolAnalysis.DroppedEntryIgnored | src/formatters/analysis.ts:51-58 | an entry the filters reject changes nothing |
| ProtocolAnalysis.ZeroLiquidityReadsTokens | src/formatters/analysis.ts:54 | a zero `totalLiquidityUSD` falls back to the first token value |
| ProtocolAnalysis.AnalyzeProtocol | src/formatters/analysis.ts:16-63 | it throws "Invalid TVL data structure…" exactly when the selected series is not an array, "No valid TVL data found…" exactly when no point survives, and a RangeError exactly when a surviving date is invalid. Otherwise it returns the extracted info and the analysis of the points |
| ChainAnalysis.PointOf | src/formatters/analysis.ts:224-227 | a kept point keeps its TVL, and a `null` TVL enters as 0 |
| ChainAnalysis.AdmissiblePoints | src/formatters/analysis.ts:222-227 | every kept record is mapped to a point whose date is clipped to the valid range |
| ChainAnalysis.ExtractPoints | src/formatters/analysis.ts:222-227 | the points are those of the kept records, one each and in order, and there are none exactly when no record is kept |
| ChainAnalysis.AnalyzeChain | src/formatters/analysis.ts:220-231 | it throws "No valid TVL data found for chain" exactly when no record is kept, and a RangeError exactly when a kept date is invalid; otherwise it returns the analysis |
| ChainAnalysis.NullTvlCountsAsZero | src/formatters/analysis.ts:223 | a point with a `null` TVL passes `!isNaN` and counts as 0 |
| ChainAnalysis.MissingTvlDropped | src/formatters/analysis.ts:223 | a point without a TVL is dropped |
| FormatUtils.Hundredths | src/formatters/index.ts:40 | the integer that `toFixed(2)` prints is the nearest number of hundredths |
| FormatUtils.FixedPointParts | src/formatters/index.ts:40 | the digits `toFixed(2)` prints are the whole part, a point, and two digits of hundredths |
| FormatUtils.ToFixed2 | src/formatters/index.ts:40 | NaN and the infinities print as "NaN", "Infinity" and "-Infinity", and every result has at least three characters |
| FormatUtils.ToFixed2Shape | src/formatters/index.ts:40 | the result starts with '-' exactly for negative values, and a finite value ends in a digit |
| FormatUtils.ToFixed2ReadsBack | src/formatters/index.ts:40 | the printed figure reads back within 0.005 of the value |
| FormatUtils.ToFixed2OfNegative | src/formatters/index.ts:40 | a negative value prints as '-' followed by its magnitude |
| FormatUtils.ToFixed2RoundsTiesUp | src/formatters/index.ts:40 | 0.125 prints as "0.13" |
| FormatUtils.MagnitudeOf | src/formatters/index.ts:36-39 | the unit chosen is B, M or K exactly when the magnitude reaches 1e9, 1e6 or 1e3 and no larger unit |
| FormatUtils.CompactCurrency | src/formatters/index.ts:34-41 | always a dollar sign first; "$0" exactly for the falsy numbers 0 and NaN; otherwise the amount in its unit |
| FormatUtils.CompactCurrencyShape | src/formatters/index.ts:34-41 | the last character is B, M, K or a digit exactly by the magnitude, and a minus sign follows the dollar exactly for negative amounts |
| FormatUtils.CompactCurrencyReadsBack | src/formatters/index.ts:34-41 | the figure of a non-zero amount, times its unit, reads back within half a hundredth of a unit of the amount |
| FormatUtils.CompactCurrencyOfNegative | src/formatters/index.ts:34-41 | a negative amount renders as the positive one with a minus sign after the dollar |
| FormatUtils.CompactCurrencyOfZero | src/formatters/index.ts:35 | zero renders as "$0" |
| FormatUtils.CompactCurrencyOfUnits | src/formatters/index.ts:40 | 500 renders as "$500.00" |
| FormatUtils.CompactCurrencyOfThousands | src/formatters/index.ts:39 | 1500 renders as "$1.50K" |
| FormatUtils.CompactCurrencyOfMillions | src/formatters/index.ts:38 | 2.5e6 renders as "$2.50M" |
| FormatUtils.CompactCurrencyOfBillions | src/formatters/index.ts:37 | 3.2e9 renders as "$3.20B" |
| FormatUtils.ChangePercent | src/formatters/index.ts:47-50 | ends in '%'; starts with '+' exactly for values ≥ 0 (Infinity too) and with '-' exactly for negative ones; NaN shows "NaN%" |
| FormatUtils.ChangePercentReadsBack | src/formatters/index.ts:47-50 | the signed figure reads back within 0.005 of the value |
| FormatUtils.ChangePercentOfGain | src/formatters/index.ts:47-50 | 50 shows "+50.00%" |
| FormatUtils.ChangePercentOfLoss | src/formatters/index.ts:47-50 | -12.5 shows "-12.50%" |
| FormatUtils.Volatility | src/formatters/index.ts:52-58 | the label is indexed by the number of thresholds 0.1, 0.25, 0.5 and 1 that the value reaches; NaN and Infinity are "Very High" and -Infinity is "Very Low" |
| FormatUtils.ReachedMonotone | src/formatters/index.ts:52-58 | a larger value reaches at least as many thresholds |
| FormatUtils.VolatilityMonotone | src/formatters/index.ts:52-58 | the label of the larger value is the smaller value's label or one listed after it in the order Very Low, Low, Moderate, High, Very High |
| FormatUtils.FormatNumber | src/formatters/index.ts:2-10 | the literal default "0" is returned exactly when the input is falsy or converts to NaN; otherwise the result is a localized rendering of a non-NaN number with 0 to 2 decimals (which may itself read "0") |
| FormatUtils.FormatCurrency | src/formatters/index.ts:12-20 | the literal default "$0.00" is returned exactly in the same cases; otherwise a localized rendering with exactly 2 decimals after a dollar sign (which may itself read "$0.00") |
| FormatUtils.FormatPercentage | src/formatters/index.ts:22-27 | "0%" exactly in the same cases; otherwise the `toFixed(2)` figure followed by '%' |
| FormatUtils.DefaultsAgree | src/formatters/index.ts:2-27 | the three formatters fall back to their defaults on exactly the same inputs |
| FormatUtils.NaNTestOnlyForText | src/formatters/index.ts:3-5 | for a number input, the `isNaN` guard adds nothing to the falsy guard |
| Formatted.LabelAsWritten | src/formatters/analysis.ts:208 | the label the formatter computes for a month key, which is invalid exactly when the key does not parse to a valid date |
| Formatted.KeyLabel | src/formatters/analysis.ts:208 | the intended label: for a `YYYY-MM` key, a month exactly when the month digits are 1 to 12; every month label has a month from 1 to 12 |
| Formatted.MonthLabelShiftsWestOfUtc | src/formatters/analysis.ts:208 | five hours west of UTC, the bucket "2020-01" is labelled December 2019 as written, but January 2020 as intended |
| Formatted.MonthLabelOnUtcHost | src/formatters/analysis.ts:208 | for every key, on a host whose clock reads UTC at the instant the key parses to, the label as written is the intended one, except for an expanded-year key whose January 1 is not a valid date |
| Formatted.FirstInstantLabel | src/formatters/index.ts:43-45 | `monthYear` of the first instant of a month, on a host whose clock reads UTC then, names that month |
| Formatted.KeyLabelOfMonthKey | src/formatters/analysis.ts:208 | the key of a month of the years 0 to 9999 is labelled with that month |
| Formatted.KeyLabelOfExpandedKey | src/formatters/analysis.ts:208 | an expanded-year key is labelled with a month of its own year |
| Formatted.KeyLabelRekeys | src/formatters/analysis.ts:208 | writing the intended label of a `YYYY-MM` key back as a key gives the key |
| Formatted.KeyLabelNamesKey | src/formatters/analysis.ts:208 | every intended label names its key |
| Formatted.ListingLabel | src/formatters/analysis.ts:178 | without a listing date the label is the current local month; the label is "Invalid Date" exactly for an out-of-range listing date |
| Formatted.FormatChainTable | src/formatters/analysis.ts:180-186 | the chain table keeps its chains in order, each amount in compact dollars |
| Formatted.FormatAnalysis | src/formatters/analysis.ts:188-216 | one formatted row per year and per month, in the order of the analysis; each monthly row is labelled as written, with `monthYear(new Date(key))` in the host's local time |
| Formatted.IntendedMonth | src/formatters/analysis.ts:207-215 | the corrected monthly row: the same figures as the formatter's row, with a label that names the bucket's key on every host |
| Formatted.IntendedMonthOnUtcHost | src/formatters/analysis.ts:207-215 | on a host whose clock reads UTC at the key's instant, the formatter's row is the corrected row (save for an expanded key whose January 1 is not a valid date) |
| Formatted.FormatProtocol | src/formatters/analysis.ts:159-218 | it fails as the analysis fails, and otherwise exactly when the chain table is `null`. The rows are the formatted analysis with the month labels as written, and the name and category are never empty |
| Formatted.FormatReport | src/formatters/analysis.ts:162-186 | given a successful analysis, it throws exactly when the chain table is `null`. Otherwise it keeps the name and category, shows the listing date as a month label, and renders each chain entry in compact dollars under its own name, in order |
| Formatted.FormatChain | src/formatters/analysis.ts:321-355 | it fails exactly when the chain analysis fails, with the same error, and otherwise holds the formatted analysis, month labels as written |
| Formatted.MoneyShowsAmount | src/formatters/analysis.ts:190-194 | every figure shows "$0" for zero, and otherwise a figure that reads back as the amount up to rounding in its unit |
| Formatted.ChangeShown | src/formatters/analysis.ts:195 | every change is shown signed as its value, reading back within 0.005 |
| Formatted.FormattedAnalysisShows | src/formatters/analysis.ts:188-216 | every figure of every row shows the value of the analysis it comes from. A month row names its bucket's key when the host's clock reads UTC at the key's instant, unless the key is an expanded-year key whose January 1 is not a valid date |
| Formatted.OverallOfSeries | src/formatters/analysis.ts:189-197 | current and starting figures show the last and first TVL, and the total change has a '+' exactly when the TVL did not move against the sign of the first value; from a first value of zero it shows "NaN%" exactly when the TVL stayed zero |
| Formatted.YearRowsOfSeries | src/formatters/analysis.ts:198-206 | the yearly rows list each local year of the series once, with array-index years first and ascending |
| Formatted.MonthRowsOfSeries | src/formatters/analysis.ts:207-215 | each monthly row belongs to the month key of some point of the series. When the host's clock reads UTC at the key's instant, the row names that key (again except an out-of-range expanded key) |

## Left out

- Binary floating point. Amounts are exact reals, so float rounding of sums, quotients and `toFixed` is not modelled, and neither is the exponent form `toFixed` uses from 1e21 up.
- `Math.sqrt`. Reals have no square root, so the analysis field `variance` and the formatted field `FormattedOverall.volatility` both hold the square of the source's `volatility`.
- `toLocaleString`. `number` and `currency` return a `Localized` rendering request. `monthYear` gives a (year, month) label rather than a locale's month name.
- String inputs of `number`, `currency` and `percentage`. Their conversion `Number(s)` is a parameter `toNumber`.
- `new Date()` and the host time zone. They are the parameters `now` and `offset`.
- -0 and infinite TVL values. JSON cannot carry infinities, and -0 renders like 0.
- String-typed TVL fields. A numeric string in `totalLiquidityUSD` would pass the filter and then be concatenated by the sums; readings are numbers, `null`, missing or NaN.
- A non-string `address`. It would make `split` throw a TypeError.
- The reducers' `typeof tvl !== "number"` guard (analysis.ts:82 and 99). After the filters every TVL is a number, so the guard is not modelled.
- ChainAnalysis.PointOf: a `null` TVL is carried as 0. That is what it is in every sum, comparison, `toFixed` and truthiness test it reaches. The `null` itself is not kept.
- The order of `Object.entries` on the chain table. It is given as the input sequence.
- Calendar.CivilFromDays: it is proved to invert `DaysFromCivil` on the first day of every month (Calendar.CivilFromDaysOfFirst), but not on other days, and its month is not proved to lie in 1..12 for every day; Formatted.KeyLabelOfMonthKey takes that range as a precondition.
- Formatted.KeyLabel: an expanded-year key keeps only its year, so its label uses January.
- `formatUtils.date` and the HTTP client (`src/core/api.ts`, `src/core/defillama.ts`). src/core/api.ts and src/core/defillama.ts are not part of this model.

## Findings

| source | as written | input that shows it | evidently intended | confidence | as-written member | corrected member |
|---|---|---|---|---|---|---|
| src/formatters/analysis.ts:208 | `new Date(month.month)` parses the UTC month key "YYYY-MM" as midnight UTC on the 1st, and `monthYear` shows it in local time, so west of UTC every month is labelled with the month before (the same at line 345) | bucket "2020-01" on a host at UTC-5: 2020-01-01T00:00Z is 2019-12-31 19:00 local, labelled December 2019 | the label names the month of the bucket's key | not executed | Formatted.MonthLabelShiftsWestOfUtc | Formatted.IntendedMonth |
