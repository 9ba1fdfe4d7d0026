# deskbird_auto `/run` handler — a Dafny model

This project models the decision logic of the `POST /run` handler of deskbird_auto.
That handler books desks on the deskbird platform and checks the user in for today.
It does four things, and each becomes one module:

- **Exclusion dates** (`DateFormats`, `Api`). Free-form exclusion strings are read
  day-first by `to_yyyy_mm_dd`. It tries `%d/%m/%Y`, `%d-%m-%Y` and `%d.%m.%Y` on the
  stripped string, then falls back to `dateutil`. The result is rendered as `YYYY-MM-DD`.
  Strings that fail are dropped.
- **Display** (`DateFormats`). `to_dd_mm_yyyy` turns a `YYYY-MM-DD` date into
  `DD/MM/YYYY`.
- **Booking pass** (`BookingPass`). Each requested weekday name is mapped to its index,
  and unknown names are skipped. Each upcoming occurrence is then handled in one of two
  ways. An excluded occurrence is recorded as `excluded`. Any other occurrence tries the
  favourite seats in their order and stops at the first successful booking.
- **Check-in sweep** (`CheckInSweep`). Every booking that starts today and is not
  `checkedIn` gets one check-in call. Its success or failure is recorded.

`Api.Run` puts the four together.

The remote platform and the host are given as oracles in `Remote.Remote`:
- `get_upcoming_occurrences` is a function of weekday index and horizon.
- `book_seat`, `get_user_bookings` and `check_in_booking` answer as functions of the
  call and of all calls made before it in the same request. A platform that remembers
  earlier bookings is therefore covered.
- The `dateutil` fallback is an opaque partial function.
- The host clock (`datetime.now().date()`) and the host-local conversion of epoch
  milliseconds (`datetime.fromtimestamp`) are inputs.

`strptime` with a fixed format is modelled by what it accepts:
- the separator splits the string into exactly three fields (`to_yyyy_mm_dd` strips it first; `to_dd_mm_yyyy` does not);
- the day field is `3[01]`, `[12]` and a digit, `0[1-9]`, `[1-9]` or a space and `[1-9]`;
- the month field is `1[0-2]`, `0[1-9]` or `[1-9]`;
- the year field is exactly four digits;
- the date must exist in the proleptic Gregorian calendar between years 1 and 9999.

`str.strip` removes the characters Python's `str.isspace` accepts.

`to_dd_mm_yyyy` raises `ValueError` on a date that `strptime(…, "%Y-%m-%d")` rejects
(`ToDdMmYyyy(d) == None`). The handler does not catch it, so the request fails. The model calls this an abort: `Run` returns no
response, together with the calls made up to that point.

## Model

| member | source | states |
|---|---|---|
| DateFormats.DayField | api.py:55-57 | a `%d` field that parses denotes a day from 1 to 31 |
| DateFormats.MonthField | api.py:55-57 | a `%m` field that parses denotes a month from 1 to 12 |
| DateFormats.YearField | api.py:55-57 | a `%Y` field that parses denotes a year from 0 to 9999 |
| DateFormats.FixedWidth | api.py:57 | the zero-padded rendering of `n` has exactly `w` digits and denotes `n` |
| DateFormats.Render | api.py:57 | `strftime` of a fixed format always writes 10 characters |
| DateFormats.RenderParse | api.py:63-65 | `strptime` with a fixed format reads back exactly the date `strftime` wrote with it |
| DateFormats.DayFirstReading | api.py:55-57 | `a<sep>b<sep>c` parses with the day-first format iff `a` is a day, `b` a month and `c` a year forming a real date; the first field is then the day and the second the month |
| DateFormats.StripLeading | api.py:57 | the leading half of `str.strip()`: the result is a suffix of the input, everything cut off is whitespace, and the result does not start with whitespace |
| DateFormats.StripTrailing | api.py:57 | the trailing half of `str.strip()`: the result is a prefix of the input, everything cut off is whitespace, and the result does not end with whitespace |
| DateFormats.Strip | api.py:57 | `str.strip()`: the result neither starts nor ends with whitespace |
| DateFormats.StripCutsOnlySpace | api.py:57 | `str.strip()` removes whitespace only: the input is the result with whitespace around it |
| DateFormats.Parse | api.py:57 | `strptime` with one fixed format: exactly three fields at the separator, read as day, month and year in the format's order, forming a real date; none where `strptime` raises. Its properties are stated by `RenderParse`, `DayFirstReading` and `NoOtherFormatParses` |
| DateFormats.ParseFirst | api.py:55-59 | the format loop: tries the formats in order and keeps the first date that parses. `ParseFirstIsFirst` states this |
| DateFormats.ParseFirstIsFirst | api.py:55-59 | the format loop yields the date of the first format under which the string parses, and none exactly when no format parses |
| DateFormats.StripPadded | api.py:57 | stripping removes the surrounding whitespace and nothing else |
| DateFormats.NoOtherFormatParses | api.py:55-59 | a string built with one separator is rejected by the formats of the other separators, so the first format that parses is the one whose separator it uses |
| DateFormats.ToYyyyMmDd | api.py:52-61 | every normalised exclusion is a canonical `YYYY-MM-DD` string, whichever path produced it |
| DateFormats.ToDdMmYyyy | api.py:63-65 | `to_dd_mm_yyyy`: reads `%Y-%m-%d` and writes `%d/%m/%Y`, with none for the `ValueError`. `DisplayReadsBack` and `DisplayRoundTrip` state its properties |
| DateFormats.DisplayReadsBack | api.py:63-65 | `to_dd_mm_yyyy` answers exactly when `strptime(s, "%Y-%m-%d")` accepts `s`, and its `DD/MM/YYYY` answer reads back as the same date |
| DateFormats.DayFirstNormalised | api.py:52-61 | a whitespace-padded `D/M/Y`, `D-M-Y` or `D.M.Y` string of valid fields normalises to the date with that day and month, never through the fallback |
| DateFormats.DisplayNormalises | api.py:55-57 | a padded `DD/MM/YYYY` rendering of a date normalises to the same date in `YYYY-MM-DD` form |
| DateFormats.DisplayRoundTrip | api.py:52-65 | `to_dd_mm_yyyy(to_yyyy_mm_dd(s)) == s` for every zero-padded valid `DD/MM/YYYY` string `s` |
| DateFormats.DayFirstExample | api.py:55-57 | `03/04/2025` is read as 3 April 2025, not 4 March |
| BookingPass.UnknownDayIgnored | api.py:76-79 | a weekday name outside `Mon`..`Sun` contributes no occurrence date, so the booking pass and its calls are as if it were absent |
| BookingPass.DatesFor | api.py:76-79 | the occurrence dates for one weekday name: the generator's dates for its index with a 10-day horizon, none for an unknown name. `UnknownDayIgnored` states the consequence |
| BookingPass.TargetDates | api.py:76-80 | the dates the pass visits: the dates of each requested name, concatenated in request order |
| BookingPass.TrySeatsFrom | api.py:85-95 | the seat loop from seat `k`: books seats in order until one accepts. Its behaviour is stated by `StopsAtFirstSuccess` and `AllSeatsTried` |
| BookingPass.Attempts | api.py:85-91 | one booking call per seat tried |
| BookingPass.StopsAtFirstSuccess | api.py:85-95 | when seat `k` is the first to succeed, seats `0..k` are each tried once in insertion order, no later seat is tried, and seat `k`'s name is the winner |
| BookingPass.AllSeatsTried | api.py:85-96 | when no seat succeeds, every seat is tried exactly once in order and there is no winner |
| BookingPass.TrySeatsCalls | api.py:86-91 | the seat loop only appends booking calls, all for its own date and workspace |
| BookingPass.Step | api.py:80-98 | one date of the pass: nothing after an abort; an excluded date is recorded `excluded`; any other date runs the seat loop and records `success` or `all_seats_unavailable`; an unreadable date aborts |
| BookingPass.PassOver | api.py:80-98 | the pass over a list of dates, one `Step` per date in order, starting with no outcomes and no calls |
| BookingPass.ExcludedStep | api.py:81-83 | one step on an excluded date makes no call and adds one `excluded` entry; over a whole pass, the guarantee that excluded dates get no booking call is `NoBookingForExcludedDates` |
| BookingPass.FirstSuccessStep | api.py:84-95 | a date whose first succeeding seat is `k` adds one `success` entry naming seat `k`, after `k + 1` calls |
| BookingPass.AllSeatsFailStep | api.py:84-98 | a date no seat accepts gets one call per seat and one `all_seats_unavailable` entry |
| BookingPass.AbortIsFinal | api.py:80-98 | once `to_dd_mm_yyyy` has raised, later dates do nothing |
| BookingPass.AbortsIffUnreadableDate | api.py:80-98 | the pass fails iff `strptime(…, "%Y-%m-%d")` rejects one of its dates (`ToDdMmYyyy(d) == None`), whether excluded or not; unpadded dates such as `2025-6-2` are accepted |
| BookingPass.NoBookingForExcludedDates | api.py:80-91 | every call of the pass books a seat for a processed date that is not excluded, in the request's workspace |
| BookingPass.StepAddsOneOutcome | api.py:80-98 | a date that does not abort appends exactly one outcome, showing the date in display form |
| BookingPass.OneOutcomeEach | api.py:76-98 | a pass that answers holds as many outcomes as processed dates |
| BookingPass.OutcomeAt | api.py:76-98 | outcome `i` belongs to processed date `i` |
| BookingPass.OneOutcomePerDate | api.py:76-98 | one outcome per processed date, in processing order; it shows the date in display form and is `excluded` exactly when the date is excluded |
| BookingPass.Partition | api.py:82-98 | `bookings_made`, `bookings_failed` and `bookings_skipped` together hold every outcome exactly once |
| BookingPass.ListsHoldTheirKind | api.py:82-98 | `bookings_made` holds only `success` entries, `bookings_failed` only `all_seats_unavailable`, `bookings_skipped` only `excluded` |
| BookingPass.BookDate | api.py:81-98 | the per-date loop body, with its `booked` flag and `break`, does what one step of the pass specifies and keeps the three lists split by kind |
| BookingPass.BookAll | api.py:76-98 | the nested weekday and date loops produce the three lists, the calls and the abort status of the pass over all occurrence dates in order |
| CheckInSweep.IsDue | api.py:106-107 | a booking is due when it starts on the host's local today and its `checkInStatus` is not `checkedIn` |
| CheckInSweep.Due | api.py:105-107 | the due bookings, in list order: each of them is due, and there are at most as many as bookings |
| CheckInSweep.Sweep | api.py:105-112 | the check-in loop: for each due booking, in order, one check-in call and one `success` or `failed` entry |
| CheckInSweep.DueExactly | api.py:105-107 | the bookings selected are exactly those that start today and are not `checkedIn` |
| CheckInSweep.OneAttemptPerDueBooking | api.py:105-112 | the sweep makes exactly one check-in call per due booking, in order, and records one entry per due booking, whatever earlier calls answered |
| CheckInSweep.SweepEndsWithCheckIns | api.py:105-112 | the calls of the sweep end with one check-in per due booking, in order, and it records one entry per due booking |
| CheckInSweep.SweepBooksNothing | api.py:105-112 | the sweep makes no call other than check-ins |
| CheckInSweep.OutcomeOfDueBooking | api.py:108-112 | entry `i` is `success` for due booking `i` when its call returned, or `failed` with the error text when the call raised |
| CheckInSweep.CheckInAll | api.py:102-112 | the check-in loop produces the sweep's entries and calls, one entry per due booking |
| Api.CollectExactly | api.py:68-73 | the collected set holds exactly the normalised forms of the entries that have one |
| Api.Exclusions | api.py:67-73 | `normalized_excludes`: the set of `to_yyyy_mm_dd` results of the exclusion strings that normalise |
| Api.ExclusionsExactly | api.py:67-73 | `normalized_excludes` holds exactly the results of the exclusions that normalise, all in `YYYY-MM-DD` form; unparseable ones are dropped |
| Api.NormalizeExcludes | api.py:67-73 | the normalisation loop builds that set |
| Api.RunSpec | api.py:76-120 | the handler after authentication: no response after an abort; otherwise the three booking lists of the pass, the check-in entries and `upcoming_bookings`, with the calls made |
| Api.RunBooksOnlyVisitedDates | api.py:76-112 | every seat booking of a request is for a processed occurrence date that is not excluded, in the request's workspace |
| Api.RunListsEveryDate | api.py:76-119 | a request that answers lists as many booking outcomes as processed occurrence dates; `OneOutcomePerDate` and `Partition` on the same pass give the per-date correspondence |
| Api.RunChecksInEveryDueBooking | api.py:101-119 | a request that answers has one `checkins` entry per due booking in `upcoming_bookings`, and its last calls are one check-in per due booking, in order |
| Api.RunFailsIffUnreadableDate | api.py:76-98 | a request fails iff one of its occurrence dates cannot be shown as `DD/MM/YYYY` |
| Api.CanonicalDatesAlwaysAnswer | api.py:79-98 | when the occurrence generator returns `YYYY-MM-DD` dates, the request always answers |
| Api.Run | api.py:47-120 | the handler after authentication: its response and calls are the specified ones; seat bookings skip excluded dates; booking outcomes match processed dates; check-in entries match due bookings; it fails iff a date is unreadable |

## Left out

- The credentials check that answers HTTP 500, `authenticate`, the FastAPI and pydantic plumbing, and `/health` (api.py:1-45). They are framework code and environment reads, and `Run` starts after authentication.
- The code of the `deskbird` client functions. They are oracles: `book_seat` is reduced to the truthiness of `successfulBookings`. `get_user_bookings` is reduced to its `results` list, empty when the key is absent.
- Exceptions raised by `book_seat`, `get_user_bookings`, `get_upcoming_occurrences` (api.py:79) or `datetime.fromtimestamp` (api.py:106). None of them is caught, so each aborts the request in the source. The model treats these calls as total.
- `time.sleep(0.2)` between failed seats. It only paces the calls.
- The `dateutil` fallback is an arbitrary partial function. The model proves nothing about which strings it accepts.
- The host clock and time zone are inputs. `datetime.fromtimestamp` on millisecond values is given as `localDate`.
- Booking records with missing keys. The model's `Booking` always has `id`, `bookingStartTime` and `zoneItemId`. In the source a missing key behaves in one of three ways:
  - `bookingStartTime` is read outside the `try` (api.py:106), so a record without it raises `KeyError` and aborts the request.
  - `id` and `zoneItemId` are read only for due bookings (api.py:107-109), so a record that is not due needs neither.
  - For a due booking, a missing `zoneItemId` raises inside the `try` at api.py:109, where it is caught and recorded as `failed` with error text `'zoneItemId'`, and the sweep goes on.
  - For a due booking, a missing `id` is caught at api.py:109 but read again at api.py:112, outside any `try`, which aborts the request.
- DateFormats.Parse: `strptime`'s `\d` also accepts non-ASCII decimal digits, and its `%d` accepts a space followed by a digit. The model accepts the space form but reads only ASCII digits `0`-`9`.
- DateFormats.Render: years below 1000 are zero-padded to four digits. Some Python versions on glibc write `%Y` for such years without padding.
- The JSON rendering of the response, including the `status` strings. Each outcome constructor stands for its status.
- When the request's `favorite_seats` object repeats a seat name (a duplicate JSON key), the parsed dict keeps one entry, holding the last value. The model's `seq<FavoriteSeat>` allows duplicate names, which the source never produces. The same seat under two different names is two entries in both, and both are tried.
