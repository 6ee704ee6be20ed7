# DayCount, modelled in Dafny

DayCount counts the whole days between a date and a reference date. The
reference defaults to today in UTC. It is a small Go command-line tool and
HTTP service with three pieces of logic, and this project models each one
and proves what it does:

- **the date parser** (`internal/parse`): trims white space, then tries six
  layouts in a fixed order and keeps the first that accepts the text. The
  layouts are `2006-01-02`, `2006/01/02`, `01/02/2006`, RFC 3339,
  `2006-01-02T15:04:05` and `2006-01-02 15:04:05`. The result is midnight
  UTC of the date literally written in the text.
- **the day counter** (`internal/compute`): subtracts the two midnights as a
  `time.Duration` and divides by 24 hours.
- **the HTTP handlers** (`internal/server`): `/daycount` validates its query,
  counts, picks "days since" or "days until", and answers in plain text or
  as a JSON `Response`. `/healthz` answers `ok`.

The modules follow the Go packages:

- `Parse` models `parse.go`. `ParseDate` is a method whose loop runs over
  the layouts and stops at the first success. It is proved equal to the
  function `ParseOutcome`, which the handler model uses.
- `Compute` models `compute.go`, as functions and lemmas over a day ordinal.
- `Server` models the decision logic of `server.go`. The handler is a pure
  function from the decoded query and a clock reading to a `Reply`.

Three helper modules model the parts of Go's standard library the core
relies on:

- `Text`: `unicode.IsSpace`, `strings.TrimSpace`, `%d`, and the zero padding
  of `time.Format`.
- `Calendar`: Gregorian validity, month lengths, the day ordinal `Ord`, a
  wall-clock `Time`, and `Format(time.DateOnly)`.
- `Wrappers`: `Option` and `Result`.

`ParseExamples` and `ServerExamples` work the inputs of the Go tests through
the model.

Layout interpretation follows `time.Parse`:

- Each layout is a sequence of elements, and `Parse.Scan` reads them in
  order.
- `2006` is four digits. `01`, `02`, `04` and `05` are two digits each.
- The hour is at most 23, the minute and second at most 59, and the day at
  most the length of its month.
- `Z07:00` is `Z` or `±hh:mm`.
- The whole text must be consumed.

A parsed zone offset does not move the date, and a zone-less text gives its
fields as written.

Three clock and time details:

- The clock that stands for `time.Now().UTC()` is a parameter of
  `Server.Daycount`. `compute.DaysSinceNow` is `Compute.DaysSince` with that
  clock as `now`.
- Go's `time.Duration` saturates at about ±292 years. As a result,
  `Compute.DaysBetween` equals the difference of day ordinals only up to
  ±106751 days (`Compute.MaxDays`). Beyond that it is clamped to ±106751.
  The model states the clamp, and `Compute.SaturationExample` shows two
  parseable dates where it applies.
- The doc comment of `ParseDate` says that a zone-less input is read as local
  time. `time.Parse` actually reads it as UTC. The model follows the code.
  Either way the date fields come out as written.

## Model

| member | source | states |
|---|---|---|
| Text.TrimSpace | internal/parse/parse.go:28 | the trimmed text is empty or starts and ends with a character that is not white space; Text.TrimSpaceIsInfix states which slice of the input it is |
| Text.TrimSpaceIsInfix | internal/parse/parse.go:28 | the trimmed text is the slice of the input that starts at the first character that is not white space, with only white space before and after it |
| Text.TrimSpaceKeepsUnpadded | internal/parse/parse.go:28 | a text that neither starts nor ends with white space is left as it is |
| Text.TrimSpaceIgnoresPadding | internal/parse/parse.go:28 | white space added at either end does not change the trimmed text |
| Text.Decimal | internal/server/server.go:93-98 | `%d` of a non-negative count is a run of digits with no redundant leading zero, and it reads back to the count |
| Text.PadIntReadsBack | internal/server/server.go:64 | a zero-padded field of a value below 10^width is exactly width digits that read back to the value |
| Calendar.DaysIn | internal/parse/parse.go:32 | a month has 28 to 31 days, and February has 29 exactly in leap years |
| Calendar.Ord | internal/compute/compute.go:11-14 | the day ordinal DaysBetween subtracts; Calendar.OrdNext and Calendar.OrdOrder state that it counts calendar days |
| Calendar.FormatDateOnly | internal/server/server.go:64 | `Format(time.DateOnly)`; Parse.ParseFormatDateOnly states that it parses back to the same date |
| Calendar.OrdNext | internal/compute/compute.go:8-15 | the day ordinal of the next calendar day is one more |
| Calendar.OrdOrder | internal/compute/compute.go:8-15 | the day ordinal is strictly monotone in calendar order and one-to-one |
| Parse.Zone | internal/parse/parse.go:19 | how `Z07:00` reads a zone: `Z`, or a sign, two digits, a colon and two digits; Parse.ScanZone states what it accepts and the offset it gives |
| Parse.Step | internal/parse/parse.go:32 | one layout element read from the front of the text; Parse.ScanCons states how a layout advances by it |
| Parse.Scan | internal/parse/parse.go:32 | time.Parse reading a layout's elements in order until the text is used up; its fields stay in range, and Parse.DateLayoutAccepts, USLayoutAccepts, RFC3339Accepts and StampLayoutAccepts state what each layout accepts |
| Parse.ParseOutcome | internal/parse/parse.go:27-47 | midnight UTC of the date the first accepting layout reads from the trimmed text, or `UnrecognizedFormat`; its properties are Parse.ParseUsesMatchingLayout, ParseFailsIffNoLayout, ParseIgnoresSurroundingSpace, ParsedDateIsWritten and ParseFormatDateOnly |
| Parse.ParseDate | internal/parse/parse.go:27-47 | the first-match loop over the layouts returns exactly `ParseOutcome(input)`: midnight UTC of the first layout's date, or `UnrecognizedFormat` |
| Parse.FirstMatch | internal/parse/parse.go:31-36 | a result is that of the first layout that accepts the text, every earlier layout having failed, and there is none exactly when every layout fails |
| Parse.ParseLayout | internal/parse/parse.go:32 | an accepted text gives a valid Gregorian date (its type is `CalendarDate`), a year of four digits and a clock in range |
| Parse.DateLayoutAccepts | internal/parse/parse.go:16-17 | `2006-01-02` and `2006/01/02` accept exactly a valid date written as year, separator, month, separator, day |
| Parse.USLayoutAccepts | internal/parse/parse.go:18 | `01/02/2006` accepts exactly a valid date written as month/day/year |
| Parse.RFC3339Accepts | internal/parse/parse.go:19 | RFC 3339 accepts exactly a valid date, `T`, an in-range clock and `Z` or `±hh:mm`, keeping the written fields and the offset |
| Parse.StampLayoutAccepts | internal/parse/parse.go:20-21 | the zone-less stamps accept exactly a valid date, their separator and an in-range clock, at offset 0 |
| Parse.LayoutFootprint | internal/parse/parse.go:15-22 | the length and separators each layout requires of a text it accepts |
| Parse.LayoutsDisjoint | internal/parse/parse.go:15-22 | no text is accepted by two layouts, so the order of tries never changes the result |
| Parse.ParseUsesMatchingLayout | internal/parse/parse.go:31-46 | when some layout accepts the trimmed text, the result is midnight UTC of that layout's date |
| Parse.ParseFailsIffNoLayout | internal/parse/parse.go:38-40 | parsing fails exactly when no layout accepts the trimmed text, and then the error is `UnrecognizedFormat` |
| Parse.ParseIgnoresSurroundingSpace | internal/parse/parse.go:28 | white space around the input never changes the outcome |
| Parse.ParsedDateIsWritten | internal/parse/parse.go:42-46 | a result is a midnight whose year, month and day are the ones written at the start of the trimmed text, with no zone shift |
| Parse.LayoutWritesDate | internal/parse/parse.go:43 | the date any layout yields is the date the text begins with |
| Parse.ParseFormatDateOnly | internal/parse/parse.go:16 | what `Format(time.DateOnly)` writes parses back to the same date, for years 0 to 9999 |
| ParseExamples.YmdText | internal/parse/parse.go:16-17 | any valid year-first date without padding parses to itself |
| ParseExamples.MdyText | internal/parse/parse.go:18 | any valid month-first date without padding parses to itself |
| ParseExamples.StampText | internal/parse/parse.go:19-21 | any stamp in the three stamp layouts parses to midnight of its date |
| ParseExamples.DateOnlyExample | internal/parse/parse_test.go:8-29 | `2024-12-31` gives midnight of 2024-12-31 |
| ParseExamples.SlashDateExample | internal/parse/parse_test.go:8-29 | `2024/12/31` gives midnight of 2024-12-31 |
| ParseExamples.USDateExample | internal/parse/parse_test.go:8-29 | `12/31/2024` gives midnight of 2024-12-31 |
| ParseExamples.RFC3339Example | internal/parse/parse_test.go:8-29 | `2024-12-31T23:59:59Z` gives midnight of 2024-12-31 |
| ParseExamples.LocalTExample | internal/parse/parse_test.go:8-29 | `2024-12-31T23:59:59` gives midnight of 2024-12-31 |
| ParseExamples.LocalSpaceExample | internal/parse/parse_test.go:8-29 | `2024-12-31 23:59:59` gives midnight of 2024-12-31 |
| ParseExamples.OffsetKeepsDateExample | internal/parse/parse.go:42-46 | `2024-12-31T23:59:59-05:00` keeps 2024-12-31 rather than moving to the UTC date |
| ParseExamples.LeapDayExample | internal/parse/parse_test.go:32-40 | `2020-02-29T12:30:00Z` gives midnight of 2020-02-29 |
| ParseExamples.PaddedExample | internal/parse/parse.go:28 | a date with a leading space and a trailing newline still parses |
| ParseExamples.NoLeapDayExample | internal/parse/parse.go:38-40 | `2019-02-29` fails with `UnrecognizedFormat` |
| ParseExamples.NotADateExample | internal/parse/parse_test.go:42-50 | `not-a-date` fails with `UnrecognizedFormat` |
| Compute.Sub | internal/compute/compute.go:13 | the difference of two times lies in the range of `time.Duration`, is exact whenever it fits, and is the largest or the smallest Duration when it overflows or underflows |
| Compute.DaysBetween | internal/compute/compute.go:8-15 | the result is the difference of the two dates' day ordinals within ±106751 days, and ±106751 beyond that |
| Compute.SubOfMidnights | internal/compute/compute.go:11-14 | subtracting two midnights and truncating to whole days gives the clamped ordinal difference |
| Compute.DaysSince | internal/compute/compute.go:17-21 | DaysBetween from the date to now; Compute.DaysSinceSign states its sign and value |
| Compute.DaysBetweenCountsDays | internal/compute/compute.go:5-7 | from a date to the date n calendar days later is n days, up to the bound |
| Compute.DaysBetweenCountsBack | internal/compute/compute.go:5-7 | from a date n calendar days later back to the first date is -n, up to the bound |
| Compute.DaysBetweenSameDate | internal/compute/compute_test.go:20-25 | two times on the same date are 0 days apart |
| Compute.DaysBetweenAntisymmetric | internal/compute/compute.go:5-7 | swapping the arguments negates the result |
| Compute.DaysBetweenSign | internal/compute/compute.go:5-7 | the result is negative, zero or positive exactly when `to` is before, on or after the date of `from` |
| Compute.DaysBetweenIgnoresClock | internal/compute/compute.go:9-12 | only the dates matter, not the clock or the zone offset |
| Compute.DaysBetweenAdditive | internal/compute/compute.go:13-14 | within the bound, the days from a to b plus the days from b to c are the days from a to c |
| Compute.DaysSinceSign | internal/compute/compute.go:17-21 | DaysSince is negative exactly for a date after now, zero exactly on the same date, and, within ±106751 days, the ordinal difference |
| Compute.BasicExample | internal/compute/compute_test.go:12-18 | 2024-01-01 to 2024-01-11 is 10 days |
| Compute.SameDayExample | internal/compute/compute_test.go:20-25 | 2024-05-05 to itself is 0 days |
| Compute.FutureExample | internal/compute/compute_test.go:27-37 | DaysSince of 2024-06-10 with now 2024-06-01 is -9 |
| Compute.LeapSpanExample | internal/compute/compute_test.go:39-52 | 2019-02-28 to 2019-03-01 is 1 day, and 2020-02-28 to 2020-03-01 is 2 days |
| Compute.SaturationExample | internal/compute/compute.go:13-14 | 1700-01-01 to 2024-01-01 is 118338 calendar days, but the count saturates at 106751 |
| Server.Get | internal/server/server.go:37 | a query value is the first value given for the key, and empty when the key is absent or has no values |
| Server.FormatInt | internal/server/server.go:95-97 | `%d`: a minus sign for a negative value, then the digits of Text.Decimal; Server.FormatPlainReadsBack states what it writes |
| Server.PhraseFor | internal/server/server.go:71-74 | `days until` for a negative count and `days since` otherwise; Server.DaycountJson states when each is picked |
| Server.FormatPlain | internal/server/server.go:93-98 | formatPlain, with Go's wrapping 64-bit `-days`; Server.FormatPlainMagnitude, Server.FormatPlainReadsBack and Server.FormatPlainAtMinInt64 state what it writes |
| Server.Daycount | internal/server/server.go:35-52 | daycountHandler, from the decoded query and the clock to a reply; Server.DaycountErrors, DaycountMissingDate, DaycountUnrecognizedDate, DaycountInvalidReference, DaycountJson, DaycountPlainIsPhrase and DaycountFormat state its replies |
| Server.AgainstReference | internal/server/server.go:54-68 | resolving the reference, parsed when given and the clock otherwise; Server.DaycountInvalidReference and Server.DaycountAnswers state its outcome |
| Server.Answer | internal/server/server.go:63-90 | the count, the phrase, and the plain or JSON reply; Server.DaycountJson, DaycountPlainIsPhrase, DaycountReferenceParses and DaycountSameDay state its content |
| Server.Healthz | internal/server/server.go:31 | `/healthz` answers 200 with `ok`; Server.RouteHealthz states it |
| Server.Route | internal/server/server.go:28-33 | the two registered paths and a 404 for every other path; Server.RouteHealthz and Server.RouteNotFound state it |
| Server.FormatPlainMagnitude | internal/server/server.go:93-98 | a count and its negation give the same text whenever both are 64-bit ints, so the magnitude is printed |
| Server.FormatPlainReadsBack | internal/server/server.go:93-98 | the text is a minus sign exactly for math.MinInt64, then the magnitude's digits, a space, the phrase, a space and the raw input, and it ends with the raw input |
| Server.FormatPlainAtMinInt64 | internal/server/server.go:94-95 | at math.MinInt64 `-days` wraps, so the text starts with a minus sign and differs from the text for the negated count |
| Server.DaycountMissingDate | internal/server/server.go:37-41 | the missing-date 400 is given exactly when the date parameter is absent or empty |
| Server.DaycountUnrecognizedDate | internal/server/server.go:43-52 | the unrecognized-format 400 is given exactly when a non-empty date parses in no layout |
| Server.DaycountInvalidReference | internal/server/server.go:54-62 | the invalid-reference 400 is given exactly when the date parses and a non-empty reference does not |
| Server.DaycountErrors | internal/server/server.go:35-62 | every rejection is a 400 and comes from one of the three checks, and every other answer is a 200 |
| Server.DaycountAnswers | internal/server/server.go:54-70 | once the date and a given reference have parsed, the answer depends only on them and on the format |
| Server.DaycountJson | internal/server/server.go:63-90 | JSON echoes the raw date and gives DaysSince from the date to the reference, negative exactly when the date lies ahead |
| Server.DaycountPlainIsPhrase | internal/server/server.go:76-88 | `format=plain` gives a text/plain 200 whose body is the phrase the JSON answer would carry |
| Server.DaycountFormat | internal/server/server.go:76-90 | an accepted request is answered in plain text exactly when `format` is `plain`, and in JSON otherwise |
| Server.DaycountReferenceParses | internal/server/server.go:63-67 | the reference field parses back to the date actually counted to |
| Server.DaycountSameDay | internal/server/server.go:70-74 | a date counted against itself gives 0 and `0 days since` followed by the raw date |
| Server.RouteHealthz | internal/server/server.go:31 | `/healthz` answers 200 with the body `ok`, as plain text |
| Server.RouteNotFound | internal/server/server.go:28-33 | exactly the unregistered paths answer 404, and `/daycount` is the daycount handler |
| ServerExamples.BasicPastExample | internal/server/server_test.go:16-34 | `date=2024-01-01&reference=2024-01-11` gives JSON with 10 and `10 days since 2024-01-01` |
| ServerExamples.FutureExample | internal/server/server_test.go:36-52 | `date=2024-06-10&reference=2024-06-01` gives JSON with -9 and `9 days until 2024-06-10` |
| ServerExamples.PlainExample | internal/server/server_test.go:54-68 | `date=2024-06-01&reference=2024-06-10&format=plain` gives a 200 text/plain body `9 days since 2024-06-01` |
| ServerExamples.MissingDateExample | internal/server/server_test.go:70-78 | a request without a date is a 400 with the missing-date message |
| ServerExamples.BadDateExample | internal/server/server_test.go:80-88 | `date=not-a-date` is a 400 with the unrecognized-format message |
| ServerExamples.BadReferenceExample | internal/server/server_test.go:90-98 | `reference=bad-ref` is a 400 with the invalid-reference message |
| ServerExamples.FormatPlainExample | internal/server/server_test.go:113-119 | `formatPlain(-5, "days until", "2030-01-01")` is `5 days until 2030-01-01` |

## Left out

- `Run` and `RunContext` (internal/server/server.go:100-154) are not modelled. They are goroutines, OS signals, `ListenAndServe` and `Shutdown`: concurrency and networking.
- `time.Now()` (internal/server/server.go:66, internal/compute/compute.go:23-26) is not modelled. The clock is a parameter of `Server.Daycount`, and `DaysSinceNow` is `Compute.DaysSince` with that clock.
- JSON byte encoding is left out (internal/server/server.go:89-90). This includes the encoder's trailing newline. The `Json` reply carries the content type and the `Response` record.
- The bytes and headers of `http.Error` are left out: its `X-Content-Type-Options` header and the newline it appends to the message. An `Error` reply carries the status and the message.
- The content type of `/healthz` is modelled as `text/plain; charset=utf-8`. That is what `net/http` sniffs from the body `ok`; sniffing itself is not modelled.
- Only the routing of `Handler` (internal/server/server.go:28-33) is modelled: exact paths and a 404. `ServeMux`'s path cleaning, redirects and method handling are left out.
- URL query decoding is not modelled. `Server.Query` is the already decoded map from keys to their values.
- The reassignable `sprintf` hook (internal/server/server.go:157) is replaced by a pure `%d` rendering, `Server.FormatInt`.
- cmd/daycount/main.go is not part of this model. It is flag parsing and output. Its phrase and `abs` code repeats `formatPlain`.
- The `"parse error"` branch (internal/server/server.go:50) is left out. `ParseDate` returns only `ErrUnrecognizedFormat`, so the branch cannot be reached, and `Parse.ParseError` has that one value.
- Parse.ParseLayout does not model these `time.Parse` leniencies, none of which the repository relies on. Each model rejects an input Go accepts:
  - a one-digit hour for `15`;
  - fractional seconds after `05`;
  - a run of spaces where a layout has one space.
- Parse.ParseLayout does not model the RFC 3339 offset range check that newer Go versions apply. The model accepts any two-digit hour and minute in an offset.
- Text: strings are sequences of characters. Go's byte-level treatment of invalid UTF-8 in `strings.TrimSpace` and `time.Parse` is not modelled.
- Compute.DaysBetween models `int(d.Hours() / 24)` as truncation toward zero, with no float64 rounding. This is exact for what can reach it: whole multiples of a day up to 106751 days, and the two saturated extremes.
- Server.FormatPlain: `days` is an unbounded integer, of which only the 64-bit values are Go ints. For those the model wraps `-days` as Go does, so math.MinInt64 keeps its minus sign. The handler never passes such a count, since Compute.DaysBetween keeps it within ±106751.
- Compute.Sub: the model's instants are unbounded integers. The year range of a Go `time.Time`, and the int64 overflow of its seconds far outside any parseable year, are not modelled.
