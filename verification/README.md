# Nurse duty roster editor — client state model

A Dafny model of the state layer of the duty-roster editor in
`frontend/src/App.jsx`. The editor keeps a roster of nurses, a ledger of
per-day duty requests, three per-shift coverage targets and the last schedule
returned by an external scheduling service. It posts roster, ledger and
targets to that service, and it colours each footer cell of the returned
schedule red when fewer nurses work that shift on that day than the target asks.

Modules (one file each):

- `Wrappers` (`wrappers.dfy`): `Option` (JavaScript `null`) and `Result`.
- `Text` (`text.dfy`): ECMAScript `String.prototype.trim` and the blank-name test.
- `Shifts` (`shifts.dfy`): the shift codes (0 off-duty, 1 morning, 2 afternoon,
  3 night, 4 leave), the `Targets` record and `getTarget`.
- `Roster` (`roster.dfy`): nurses, `max(id) + 1` id allocation and the add operation.
- `Ledger` (`ledger.dfy`): duty requests, the filter-then-append upsert, positional
  removal, and `ToMap`, the map keyed by (nurse id, day) that a ledger denotes
  (last write wins). `ToMap` is the reference the upsert is proved against.
- `Calendar` (`calendar.dfy`): the proleptic Gregorian day count and `isSunday`.
  The successor-day lemma is the independent check of the day-count formula.
- `Coverage` (`coverage.dfy`): `countShift`, the deficit test and the footer matrix.
  Counts are characterised as multiset occurrences in a day's column of shift codes.
- `App` (`app.dfy`): the whole editor state as one value. Each event handler is
  a pure step, and the generate handler takes the service's reply as a parameter.
  Every reachable state keeps nurse ids and request keys unique.

The model follows the code where its behaviour is easy to misread:

- Generation clears the schedule *before* sending the request (App.jsx line 89).
  A rejected or failed generation therefore leaves no schedule, not the
  previous one (`App.Generate`, `App.GenerateIsolatesFailure`).
- The stored nurse name is the raw, untrimmed input. Only the emptiness test trims.
- `role` is free text (`"karu"`, `"wakaru"`, `"regular"`), not a closed enumeration.
- No validation of month, year or targets happens before the payload is built.
  The payload passes the roster and ledger through unchanged.

## Model

| member | source | states |
|---|---|---|
| Text.Trim | frontend/src/App.jsx:61 | the trimmed name is a contiguous slice of the input, everything cut off on either side is white space, and a non-empty result neither starts nor ends with white space |
| Text.IsBlank | frontend/src/App.jsx:61 | a name is refused exactly when every character is ECMAScript white space or a line terminator, i.e. when its trim is empty |
| Roster.MaxId | frontend/src/App.jsx:63 | the maximum over a non-empty roster is an id in use that no other id exceeds |
| Roster.NextId | frontend/src/App.jsx:62-63 | the allocated id is 1 on an empty roster, otherwise some member's id plus one, and it exceeds (so differs from) every id in use |
| Roster.Add | frontend/src/App.jsx:60-65 | refused exactly for all-white-space names; otherwise one member is appended last with id max+1 (or 1), role "regular" and the untrimmed name, and all earlier members are unchanged |
| Roster.AddExtendsIds | frontend/src/App.jsx:62-65 | a successful add grows the id set by exactly the new id, which was not in use |
| Roster.AddKeepsIdsUnique | frontend/src/App.jsx:62-65 | a roster with unique ids still has unique ids after an add |
| Shifts.KindOf | frontend/src/App.jsx:47-53 | codes 0..4 and only those decode to a shift kind, and decoding inverts the kind's code |
| Shifts.KindOfCode | frontend/src/App.jsx:47-53 | encoding a kind and decoding the code gives the kind back |
| Shifts.GetTarget | frontend/src/App.jsx:125-126 | the result is always one of the three targets |
| Shifts.GetTargetMatchesKind | frontend/src/App.jsx:125-126 | codes 1, 2 and 3 select the target of the morning, afternoon and night kind; every other code falls through to the night target |
| Ledger.UniqueKeysIffCountAtMostOne | frontend/src/App.jsx:81-84 | "no two entries share a (nurse id, day) key" is the same as "every key occurs at most once" |
| Ledger.Without | frontend/src/App.jsx:81-83 | the filter removes every entry of the key and only those: the length drops by that key's count and the key no longer occurs |
| Ledger.WithoutKeepsOtherCounts | frontend/src/App.jsx:81-83 | the filter leaves the number of entries of every other key unchanged |
| Ledger.WithoutMembers | frontend/src/App.jsx:81-83 | an entry survives the filter exactly when it was in the ledger with a different key |
| Ledger.WithoutAppend | frontend/src/App.jsx:81-83 | the filter distributes over concatenation, so the kept entries keep their relative order |
| Ledger.Upsert | frontend/src/App.jsx:75-85 | after an upsert exactly one entry has the new key, it is the last entry and it is the new request; every other key is as frequent as before; the length is the old length plus one minus the old count of the key |
| Ledger.UpsertKeepsOthersInOrder | frontend/src/App.jsx:81-84 | the entries before the new one are exactly the old entries with other keys, in their old order |
| Ledger.UpsertKeepsKeysUnique | frontend/src/App.jsx:81-84 | upsert keeps keys unique; the ledger grows by one for a new key and keeps its length when an entry is replaced |
| Ledger.ToMapDomain | frontend/src/App.jsx:81-84 | a key is in the denoted map exactly when some ledger entry carries it |
| Ledger.ToMapWithout | frontend/src/App.jsx:81-83 | filtering out a key removes exactly that key from the denoted map |
| Ledger.UpsertUpdatesMap | frontend/src/App.jsx:81-84 | last write wins: an upsert sets the denoted map at the request's key to its shift and changes no other key |
| Ledger.UpsertAllFromEmpty | frontend/src/App.jsx:75-85 | for any series of upserts the ledger never holds two entries with one key, and each key maps to the shift of its most recent request |
| Ledger.RemoveAt | frontend/src/App.jsx:309-310 | an in-range index removes exactly that element and keeps the rest in order; an out-of-range index leaves the ledger unchanged |
| Ledger.RemoveKeepsKeysUnique | frontend/src/App.jsx:309-310 | removal keeps keys unique and shortens the ledger by one for an in-range index |
| Ledger.RemoveDeletesOverride | frontend/src/App.jsx:309-310 | on a ledger with unique keys, removing position idx equals filtering out that entry's key, and deletes just that key from the denoted map |
| Calendar.DaysInMonth | frontend/src/App.jsx:55 | months have 28 to 31 days, and February has 29 exactly in Gregorian leap years |
| Calendar.DaysBeforeMonth | frontend/src/App.jsx:55 | the days before month m lie between 28 and 31 per preceding month |
| Calendar.DayOfWeek | frontend/src/App.jsx:55 | the weekday number lies in 0..6 as getDay returns it |
| Calendar.YearLength | frontend/src/App.jsx:55 | the closed-form day count advances by 366 over leap years and 365 over the others, matching the sum of the month lengths |
| Calendar.NextDateIsNextDay | frontend/src/App.jsx:55 | the day count of the following date (across month and year ends) is one more, so the weekday advances by one modulo 7 |
| Calendar.SundaysAreWeeksFromOctober6th2024 | frontend/src/App.jsx:55 | a date is a Sunday exactly when it lies a whole number of weeks before or after 6 October 2024 |
| Calendar.October2024 | frontend/src/App.jsx:55 | 6 October 2024 is a Sunday and 7 October 2024 is a Monday, not a Sunday |
| Coverage.CountRows | frontend/src/App.jsx:122-123 | the filtered row count equals the number of occurrences of the shift code in the day's column and is at most the number of rows |
| Coverage.CountShift | frontend/src/App.jsx:120-124 | zero with no schedule; otherwise the occurrences of the code in the day's column, so within 0..rows |
| Coverage.CountFullIffAllOnShift | frontend/src/App.jsx:122-123 | the count equals the number of rows exactly when every row has that shift on that day |
| Coverage.CountZeroIffNoneOnShift | frontend/src/App.jsx:122-123 | the count is zero exactly when no row has that shift on that day |
| Coverage.FooterLine | frontend/src/App.jsx:403-413 | one cell per day, each showing the column count of the shift, judged against the shift's target, red exactly when the count is below it |
| Coverage.Footer | frontend/src/App.jsx:391-416 | three lines for morning, afternoon and night, each with one cell per day; each cell is red exactly when its count is below the target of that kind |
| Coverage.TwoDayDeficitOnDayZero | frontend/src/App.jsx:407 | with a morning target of 5, a day with four morning nurses is flagged as a deficit |
| Coverage.TwoDayNoDeficitOnDayOne | frontend/src/App.jsx:407 | with a morning target of 5, a day with five morning nurses is not flagged |
| Coverage.OneNurseOneDay | frontend/src/App.jsx:120-126 | one nurse on the morning shift against a morning target of 1 gives count 1 and no deficit |
| App.InitialConsistent | frontend/src/App.jsx:15-30 | the initial fourteen-nurse roster has unique ids and the next nurse gets id 15; the empty ledger has unique keys |
| App.NumberedFromOne | frontend/src/App.jsx:62-63 | a roster numbered 1, 2, ... in order has unique ids and its next id is its length plus one |
| App.AddNurse | frontend/src/App.jsx:60-67 | a blank draft leaves the state exactly unchanged and raises the blank-name alert; otherwise a regular nurse with the next id and the untrimmed name is appended, the draft is cleared and nothing else changes |
| App.AddRequest | frontend/src/App.jsx:75-85 | the denoted request map is updated at (nurse id, day) to the form's shift, and only the ledger changes |
| App.RemoveRequest | frontend/src/App.jsx:308-311 | an in-range press deletes exactly that request; an out-of-range index changes nothing; only the ledger changes |
| App.BuildPayload | frontend/src/App.jsx:91-101 | the payload carries the current roster, ledger, period and targets unchanged |
| App.PayloadConsistent | frontend/src/App.jsx:91-101 | a payload built from a consistent state has unique nurse ids and request keys and denotes the same request map |
| App.Generate | frontend/src/App.jsx:87-118 | a press while busy does nothing; otherwise the current payload is sent and the busy flag ends reset; success installs the returned schedule and day count; rejection alerts the server's message and a transport failure the backend alert, both leaving no schedule |
| App.GenerateIsolatesFailure | frontend/src/App.jsx:87-118 | generation never changes roster, ledger, targets, period or draft name; a failed exchange changes nothing except clearing the schedule |
| App.ApplyKeepsConsistent | frontend/src/App.jsx:60-311 | every event handler keeps nurse ids and request keys unique |
| App.RunKeepsConsistent | frontend/src/App.jsx:60-85 | any series of events from a consistent state ends in a consistent state |
| App.ReachableConsistent | frontend/src/App.jsx:14-42 | every state reachable from the initial one has unique nurse ids and unique request keys |

## Left out

- backend/main.py: the CP-SAT solver call is a foreign library, and its request
  schema (`num_nurses`, `nurse_index`, `shift_types`, `min_days_off`) does not match
  what the editor sends. The service's reply is a parameter (`App.Reply`).
- The service's reply as written never carries `days_count`. `App.Generate`
  installs whatever day count the reply carries.
- `fetch`, JSON encoding and decoding, `await`: network I/O. Their outcomes are the
  three cases of `App.Reply`.
- `alert`, `window.print`, `html2canvas`, `useRef`: browser side effects. Alerts are
  modelled only as the message a step raises.
- JSX rendering, colours, `toLocaleString` month names and the current-date footer:
  display and locale concerns. The request list's nurse-name and shift-label lookup
  (App.jsx lines 298 and 306) is display only.
- `parseInt` and form values held as strings: all inputs are integers here. NaN,
  and string-versus-number comparison of targets edited in the form, are not modelled.
- JavaScript `Date` quirks: years 0-99 mapped to 1900-1999, and day or month
  overflow rolling into the next month. `Calendar.IsSunday` requires a valid date.
  Outside the range of `Date` (plus or minus 8.64e15 ms, years beyond about
  275,760 either side of 1970) `getDay()` returns NaN and the source reports no
  Sunday at all; the model applies the Gregorian formula to every year.
- Coverage.CountShift: a row with no entry at the day index makes the source throw a
  TypeError; the model requires every row to cover the day instead.
- Time zones: `getDay` is read in local time on a local-midnight date, so the
  weekday depends on the zone only where that zone skipped a whole calendar day
  (Pacific/Kwajalein skipped 21 August 1993, so that local midnight moves to the
  next day). Such skipped days are not modelled; the model gives the plain
  Gregorian weekday.
- Generation is one atomic step in the model: the in-flight window between
  sending the request and reading its reply (App.jsx lines 102-107), in which
  `loading` is true, the schedule is null and other handlers still run, is not
  represented, so `App.Generate`'s busy-press case is never reached from a state
  where `loading` is false. This loses nothing for the other state: the reply writes only the
  schedule, the day count and `loading`, so an edit made during the request ends
  in the same state as the same edit made after it.
- frontend/vite.config.js: build configuration.
