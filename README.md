# Periodic timestamp service, modelled in Dafny

The service answers requests for the timestamps of a periodic task. A
request names a period (a step count followed by a unit: `h`, `d`, `mo`
or `y`), a timezone and two instants, t1 and t2. The answer lists the
starts of periods strictly between t1 and t2, in order and in the
`20060102T150405Z` layout (UTC). Before that, a validator checks the
request in a fixed order, and the first failing check names the error.

The model has seven modules, one file each:

- `Calendar` (calendar.dfy): the time library's civil arithmetic.
  - The proleptic Gregorian calendar, with day numbers counted from 0001-01-01.
  - Instants are whole seconds since 0001-01-01T00:00:00Z.
  - A location is a fixed offset.
  - The wall-clock reading `Civil` of an instant.
  - The normalising date constructor `MakeTime`, and `AddDate` built on it.
  - `Truncate(1h)`, which rounds an instant down to a whole hour counted from the zero time.
- `Models` (models.dfy): the period units, the validated `Request` record, and `Option`/`Result`.
- `Period` (period.dfy): the parser. Its loop runs over the characters of the token and stands for the service's loop over bytes: the two agree because the digits are ASCII and the unit text after them is passed on unchanged. The step count is kept in an 8-bit integer.
- `Boundaries` (boundaries.dfy): `endOfDay`, `endOfMonth` and `endOfYear`, computed as the service computes them.
- `Format` (format.dfy): the layout, written with the library's zero-padded decimal fields.
- `Engine` (engine.dfy):
  - the four generators, as loops over a candidate instant;
  - the functions they are proved against: seed, advance and series;
  - the dispatch `HandleRequest`.
- `Validator` (validator.dfy): `validateAndParse`.
  - Its configuration record is the datatype `RequestValidator`. Its constructor plays the part of `newValidator`.
  - The query is a map from keys to their values.
  - The whitelist is scanned by a loop that stops at the first match; the result does not depend on where the scan stops.
  - Loading a timezone and parsing a time are parameters standing for the time library.

Each generator is proved to build exactly the formatted series of its unit.

The series of a unit is an arithmetic progression of period starts. It begins at the period after the one holding t1 (for hours, `step` hours after the hour of t1), advances `step` periods at a time, and stops at the first start that is not before t2. Period starts are:

- whole hours since the zero time;
- local midnights that begin a day, the first of a month, or 1 January.

## Model

| member | source | states |
|---|---|---|
| Models.UnitOf | models.go:5-12 | The unit a text names keeps that text. It is `Unknown` exactly when the text is none of "h", "d", "mo", "y". |
| Models.UnitOfText | models.go:7-12 | Each known unit is read back from its own text. |
| Period.ParsePeriod | server.go:81-91 | The loop returns `PeriodOf(period)`: the leading digit run's value modulo 256, and the unit named by the rest of the token. |
| Period.PeriodRoundTrip | server.go:81-91 | The decimal text of n followed by a known unit's text parses back to (n mod 256, that unit). |
| Period.NoLeadingDigits | server.go:82-90 | A token that does not start with a digit has count 0 and is all unit text. |
| Period.ParseExamples | server.go:81-91 | "1y" parses to (1, years) and "15mo" to (15, months). |
| Period.DecimalValueOfDecimal | server.go:88 | Reading the digits of a decimal text gives back its value. |
| Calendar.Civil | server.go:98 | The wall-clock reading is valid. Its time of day is under 24 hours. Its day number and time of day add up to the instant plus the offset. |
| Calendar.DateOf | server.go:98 | The date of a day number is valid and has that day number. |
| Calendar.MakeTime | server.go:103-106 | No contract of its own: the library's date constructor, which accepts out-of-range fields. `Calendar.MakeTimeNormalises` and `Calendar.CivilOfMakeTime` state what it promises. |
| Calendar.MakeTimeNormalises | server.go:103-110 | Fields whose time of day is under 24 hours name that time of day on the day `day - 1` days after the first of the normalised month, so day 0 is the last day of the month before and month 13 is January of the next year. |
| Calendar.CivilOfMakeTime | server.go:106 | Valid wall-clock fields are read back from the instant they name. |
| Calendar.MakeTimeOfCivil | server.go:99 | The wall-clock reading of an instant names that instant again. |
| Calendar.CivilInjective | server.go:119 | Two instants with the same reading in one location are equal. |
| Calendar.AddDate | server.go:99 | No contract of its own: shift the date fields of the wall-clock reading and normalise. `Calendar.AddDateReading` and `Calendar.AddDaysShift` state what it promises. |
| Calendar.AddDateReading | server.go:106 | The result keeps the time of day of t and lands on day d + days counted from the first of month m + months of year y + years (normalised), where y-m-d is the date of t. |
| Calendar.AddDaysShift | server.go:130 | Adding n calendar days under a fixed offset moves the instant by n whole days. |
| Calendar.TruncateToHour | server.go:117 | The result is a whole hour since the zero time, at most t, and less than an hour before t. |
| Calendar.MonthFirstStep | server.go:105-107 | Consecutive months start as many days apart as the earlier month has. |
| Boundaries.EndOfDay | server.go:93-100 | The result is a local midnight, strictly after t and at most one day after it. |
| Boundaries.EndOfDayIsNextMidnight | server.go:97-100 | The result reads 00:00:00 on the calendar day after the day of t. |
| Boundaries.EndOfDayExample | server.go:93-96 | 2023-02-03 15:12:45 UTC ends at 2023-02-04 00:00:00 UTC. |
| Boundaries.EndOfMonth | server.go:102-107 | The result reads 00:00:00 on the first of the month after the month of t, and is after t. |
| Boundaries.EndOfYear | server.go:109-113 | The result reads hour 0 on 1 January of the next year, with the minutes and seconds of t, and is after t. |
| Format.AppendInt | main.go:10 | No contract of its own: a field of the layout, a sign and zero-padded digits. `Format.AppendIntReadsBack` states what it promises. |
| Format.AppendIntReadsBack | main.go:10 | A field padded to a width is at least that wide, all digits, and reads back as its value. A negative field is the positive one behind a minus sign. |
| Format.FormatUTC | server.go:119 | No contract of its own: the UTC reading of an instant in the layout. `Format.FormatReadsBack` and `Format.FormatInjective` state what it promises. |
| Format.FormatReadsBack | main.go:10 | For years 0 to 9999 the text is 16 characters long and reads back as the UTC reading of the instant. |
| Format.FormatInjective | main.go:10 | Distinct instants of years 0 to 9999 get distinct texts. |
| Format.FormatAll | server.go:119 | One text per instant, in the same order: the UTC reading in the layout. |
| Engine.AnchorReading | server.go:115-153 | A period start is a whole hour, or it reads 00:00:00 on its day, on the first of its month, or on 1 January of its year. |
| Engine.Seed | server.go:117-147 | No contract of its own: the first candidate of each generator. `Engine.SeedIsAnchor` states what it promises. |
| Engine.SeedIsAnchor | server.go:115-147 | The seed of every unit starts the period after the one holding t1 (for hours, `step` hours after the hour of t1) and is after t1. |
| Engine.Advance | server.go:120-150 | Every unit's step moves strictly forward. |
| Engine.AdvanceAnchor | server.go:115-153 | Advancing from the start of period j gives the start of period j + step. |
| Engine.Series | server.go:118-121 | No contract of its own: the candidates each loop lists. `Engine.SeriesShape`, `Engine.SeriesOfAnchors` and `Engine.GeneratedSeries` state what it promises. |
| Engine.SeriesShape | server.go:118-121 | The series starts at the seed and increases strictly. Each element follows the previous one by one advance. All elements are before t2. It ends at the first candidate that is not before t2, and is empty exactly when the seed is not before t2. |
| Engine.SeriesOfAnchors | server.go:115-153 | From the start of period j, element i is the start of period j + i·step. The first start left out is not before t2. |
| Engine.GeneratedSeries | server.go:62 | Every listed instant is strictly between t1 and t2, and the list increases strictly. Element i is the start of period FirstIndex + i·step. Every later start of the progression is not before t2, so none is skipped. |
| Engine.DoubleStep | server.go:125-153 | From a period start, doubling the step keeps every other element of the series. |
| Engine.DoubleStepKeepsEveryOther | server.go:125-153 | For days, months and years, the list for step 2k is the even-indexed elements of the list for step k. |
| Engine.HoursDoubleStep | server.go:115-123 | For hours, the list for step 2k is every other element of the list for step k, starting from its second element. |
| Engine.NoDaysExample | server.go:125-133 | From 10:46:03 to 12:34:56 of one day in Europe/Athens, the daily list is empty. |
| Engine.TimestampsHours | server.go:115-123 | The loop builds exactly the formatted hours series from the seed. |
| Engine.TimestampsDays | server.go:125-133 | The loop builds exactly the formatted days series from the seed. |
| Engine.TimestampsMonths | server.go:135-143 | The loop builds exactly the formatted months series from the seed. |
| Engine.TimestampsYears | server.go:145-153 | The loop builds exactly the formatted years series from the corrected seed (see Findings). |
| Engine.HandleRequest | server.go:56-79 | A known unit gets its generator's list for the parsed step and the request's instants and location. An unknown unit gets no timestamps. |
| Engine.DefaultPeriodsSensible | main.go:16 | The default periods "1h", "1d", "1mo", "1y" parse to a step of 1 of each unit, so the engine can handle them. |
| Engine.YearsSeedAsWritten | server.go:147 | The seed as written is a whole UTC hour, within the hour before the end of the year of t1. |
| Engine.YearsSeed | server.go:147 | The corrected seed is local midnight of 1 January of the year after t1, and is after t1. |
| Engine.YearsSeedWholeHourOffset | server.go:147 | Under an offset of whole hours, the seed as written equals the corrected one. |
| Engine.YearsSeedHalfHourOffset | server.go:147 | Under UTC+05:30 from 20210615T000000Z, the seed as written is 20211231T190000Z (00:30 local). The corrected seed is 20211231T183000Z (local midnight). |
| Engine.YearsSeedHalfHourEarlyMinute | server.go:147 | Under UTC+05:30 from 20210614T234000Z (05:10 local), the seed as written is 20211231T180000Z, which reads 23:30 on 31 December, not 1 January. The corrected seed is 20211231T183000Z. |
| Validator.MessagesDistinct | dtos.go:11-22 | Distinct errors carry distinct messages. |
| Validator.RankInjective | validator.go:23-69 | The checks are applied in a total order. |
| Validator.Get | validator.go:31 | A key's first value, or the empty text when the key is absent or has no value. |
| Validator.ValidateAndParse | validator.go:23-77 | The answer is the error of the first failing check, with every earlier check passing. If no check fails, the answer is the request built from the period text, the loaded location and the two parsed instants. |
| Validator.AnswerUnique | validator.go:23-77 | That description admits exactly one answer per request. |
| Validator.FirstFailureDecides | validator.go:23-69 | A check that fails while all earlier checks pass decides the error. |
| Validator.ValidatedRequest | validator.go:24-76 | An accepted request is addressed to the endpoint. Its query holds all four keys. Its period is whitelisted. Its location is the one loaded. Its t1 is strictly before its t2. |
| Validator.UnsupportedPeriodExample | validator.go:32-41 | With the whitelist {"1h", "1d", "1mo"}, "2h" is refused as unsupported. |
| Validator.MissingPeriodExample | validator.go:28-30 | A query without a period is refused for that reason, before the whitelist is consulted. |
| Validator.AcceptedExample | validator.go:71-76 | A whitelisted period with a known zone and t1 before t2 is accepted, and its period passed on unchanged. |

## Left out

- HTTP serving is not modelled: `ServeHTTP`, the status codes, JSON encoding of the answer, `newHttpServer`, and the flags and start-up in `main`. The endpoint and whitelist are parameters of `RequestValidator`.
- Timezones are fixed offsets, not the IANA database, so daylight-saving changes are not modelled. The daily lists expected across the October and November 2021 changes cannot be reproduced: Europe/Athens at server_test.go:75-76 and America/Chicago at server_test.go:141.
  - Under a fixed offset, the time of day `endOfDay` subtracts equals the one after the day is added. That is not so across such a change.
- Loading a location and parsing a time (`time.LoadLocation`, `time.Parse`) are parameters of `ValidateAndParse` that may fail. Their internals are not modelled. `Format.ReadBasic` checks the layout's shape only and is used to state round trips, not by the validator.
- Instants are whole seconds. Nanoseconds and the library's 64-bit range are not modelled; integers are unbounded.
- The raw query string is not parsed. A query is already a map from keys to value lists.
- Engine.HandleRequest: requires a step of at least 1 for a known unit. The source assumes whitelisted periods are sensible: a step of 0 (for example "0h", or "256h" after the 8-bit wrap) never advances, so the source loops forever whenever its first candidate is before t2, which is always the case for hours. The precondition also excludes the step-0 calls for days, months and years whose first candidate is not before t2; the source returns an empty list for those.
- Engine.HandleRequest: returns an empty list for an unknown unit, where the source leaves its list nil (encoded as JSON null). The validator's whitelist keeps such units away unless it is configured with them.
- Engine.TimestampsYears: uses the corrected seed. The seed as written is `Engine.YearsSeedAsWritten` (see Findings).
- Engine.Seed: its years case is the corrected seed `Engine.YearsSeed`, not the seed as written.
- Engine.SeedIsAnchor: states the years case for the corrected seed; the seed as written is a period start only under whole-hour offsets (`Engine.YearsSeedWholeHourOffset`).
- Engine.HandleRequest: its years list starts from the corrected seed, as `Engine.TimestampsYears` does.
- Formatting years outside 0 to 9999 is modelled (a minus sign, then at least four digits), but the round-trip lemmas cover years 0 to 9999 only.

## Findings

| source | as written | input that shows it | evidently intended | confidence | as-written member | corrected member |
|---|---|---|---|---|---|---|
| server.go:147 | The years seed rounds the end of the year down to a whole hour of UTC. | Asia/Kolkata (UTC+05:30). With t1 = 20210615T000000Z (local minute 30) the first element is 20211231T190000Z, 00:30 on 1 January 2022 local time (`Engine.YearsSeedHalfHourOffset`). With t1 = 20210614T234000Z (local minute 10) it is 20211231T180000Z, 23:30 on 31 December 2021 local time, so the list is not on 1 January at all (`Engine.YearsSeedHalfHourEarlyMinute`). Every later element keeps the reading of the first. | Round down to a whole hour of the local clock, giving local midnight of 1 January: 20211231T183000Z, as the day and month lists do. | high for zones whose offset is not a whole number of hours; not executed | Engine.YearsSeedAsWritten | Engine.YearsSeed |
