# Lunar date widget popup, modelled in Dafny

This project models the popup of the lunar-date-widget browser extension, `popup.js`. It covers three parts:

- **Prayer times.** `updatePrayerTimes` writes each present timing into its cell. It then marks the next prayer: the earliest of the six whose time today lies after now. A tie goes to the prayer that comes first in the list.
- **Hijri date and cache.** `getHijriDate` resolves the location, from the cache or from one IP-geolocation lookup. On success it shows and caches the Hijri date line and the prayer times. On any failure it shows placeholders plus whatever is cached, with the date line marked " (Cached)".
- **Countdown.** The Ramadan table for 2024–2026 feeds `isInRamadan` and `getNextRamadanDate`; the fallback branch of the latter is modelled as JavaScript actually evaluates it. On top of that sit `getTimeDifference`, which uses JavaScript's truncating `%`, the cell rendering of `updateDisplay` (clamp at zero, pad to two digits) and the panel choice of `updateCountdowns`.

How the program is represented:

- **Time.** Instants are integer milliseconds on the browser's local wall clock. The year of `now` (`getFullYear()`) is a parameter; `Calendar.IsLocalYear` says when it is the right one. A time of day is milliseconds since local midnight.
- **Cache and page.** `chrome.storage.local` is four fields of the class `Popup.PopupState`. The page is three more fields of that class:
  - the text of each element, by id;
  - the ids hidden with `d-none`;
  - the prayers whose row has class `next-prayer`.
- **Outside inputs.** Network responses, the clock and `formatTime` are passed in.

Modules:

- `Text`: `toString`, `padStart`, ASCII `toLowerCase`, `split` and `parseInt`.
- `Calendar`: local midnights of dates, and years.
- `Ramadan`: the table, `isInRamadan`, `getNextRamadanDate`.
- `Countdown`: `getTimeDifference`, cell text, panel choice.
- `Prayer`: parsing a timing, choosing the next prayer.
- `Popup`: the stateful class.

Two places where the code does not do what its own comments or structure suggest; the model follows the code:

- **The fallback of `getNextRamadanDate` (lines 233–236).** The comment at line 233 calls it an approximation: the last known start plus 355 days. As written it can never produce a date:
  - `Object.keys` of the current year's window gives `["start", "end"]`.
  - `Math.max` of those is `NaN`.
  - `getRamadanDates(NaN)` is `null`.
  - So the fallback throws even for 2024–2026 (reading `.start` of `null`), and outside those years it throws at `Object.keys(null)`.

  `Ramadan.Fallback` states this. The error is caught in `updateCountdowns`, so the countdown cells keep their text.
- **`formatTime` on a malformed time.** Its catch block (lines 51–52) returns the text unchanged, but a malformed time never reaches it: `setHours(NaN, …)` does not throw, and `toLocaleTimeString` of the resulting invalid Date is "Invalid Date". The model does not fix either behaviour: `formatTime` is a function parameter `fmt`.

## Model

| member | source | states |
|---|---|---|
| Text.NatToString | popup.js:203-205 | `toString` of a field: only digits, never empty; a leading zero only for 0; one digit exactly below 10, two exactly from 10 to 99 |
| Text.DecimalRoundTrip | popup.js:203-205 | the rendered number reads back as the number |
| Text.PadStart | popup.js:203-205 | `padStart`: the result is the width long (or the input, if longer), ends with the input, and is filled before it |
| Text.Split | popup.js:76 | `split(':')` has at least one piece; a string without ':' is its own only piece; no piece contains ':' |
| Text.SplitJoin | popup.js:76 | joining the pieces of `split(':')` back with ':' gives the original string |
| Text.ParseInt | popup.js:78 | `parseInt` is `NaN` exactly when no digit follows the optional space and sign |
| Text.ParseIntValue | popup.js:78 | `parseInt` of spaces, an optional sign, digits, then anything not starting with a digit is the digits' decimal value, negated after '-' |
| Calendar.YearLength | popup.js:158-167 | a year of the calendar `new Date('YYYY-MM-DD…')` reads is 366 days when leap and 365 otherwise |
| Calendar.LocalMidnight | popup.js:158-167 | `new Date('YYYY-MM-DDT00:00:00')` is a whole number of days, and for a day of 1 to 31 it falls inside year YYYY |
| Calendar.YearStartIncreasing | popup.js:213 | later years start later |
| Calendar.LocalYearExists | popup.js:213 | `getFullYear()` is defined for every instant: each instant lies in some year |
| Calendar.LocalYearUnique | popup.js:213 | an instant lies in at most one year, so with `LocalYearExists` `getFullYear()` names exactly one |
| Ramadan.RamadanDates | popup.js:155-172 | the table has a window exactly for 2024, 2025 and 2026, and `null` otherwise |
| Ramadan.TableWellFormed | popup.js:155-172 | each window starts before it ends and lies inside its own year; later years start later |
| Ramadan.InRamadan | popup.js:212-218 | `isInRamadan` can hold only in 2024 to 2026 |
| Ramadan.InRamadanIffInsideSomeWindow | popup.js:212-218 | looking up `now`'s own year is true exactly when `now` lies in some window of the table, start included, end excluded |
| Ramadan.SearchFrom | popup.js:226-231 | a start the loop finds is after `now`; an empty range finds nothing |
| Ramadan.SearchFromFirst | popup.js:226-231 | the loop finds a start exactly when some year in range lies ahead, and then the first such year's start |
| Ramadan.Fallback | popup.js:233-236 | the fallback never yields a date: `null.start` inside 2024–2026, `Object.keys(null)` outside |
| Ramadan.NextStart | popup.js:221-237 | a returned date is after `now`; the error thrown is `null.start` inside 2024–2026 and `Object.keys(null)` outside |
| Ramadan.NextRamadanDate | popup.js:221-237 | the loop over three years returns what `NextStart` specifies |
| Ramadan.NextStartFirstUpcoming | popup.js:221-237 | a returned date is after `now` and is the start of the first upcoming year of the three; it throws exactly when none of the three is upcoming |
| Ramadan.NextStartIsNearest | popup.js:221-231 | the returned date is the nearest window start after `now` in the whole table |
| Countdown.JsRem | popup.js:182-183 | JavaScript `%` by a positive divisor lies in [0, b) for a non-negative dividend and in (-b, 0] for a non-positive one |
| Countdown.JsRemIsTruncatedRemainder | popup.js:182-183 | `a % b` is `a` minus `b` times the quotient truncated toward zero |
| Countdown.FloorDiv | popup.js:181-183 | `Math.floor(a / b)` is the largest `q` with `b * q <= a` |
| Countdown.TimeDifference | popup.js:175-185 | `total` is the delta; for a future target days are at least 0, hours 0–23 and minutes 0–59; for a past target every field is negative or zero and the days at most -1 |
| Countdown.TimeSplitNonNegative | popup.js:175-185 | for a future target: whole days, then 0–23 hours, then 0–59 minutes, together within a minute below the delta |
| Countdown.CellText | popup.js:203-205 | a cell's text is at least two characters, all digits |
| Countdown.CellTextMeaning | popup.js:203-205 | a cell shows digits only, at least two, whose value is the field clamped at zero; a leading zero exactly below ten; more than two digits exactly from 100 on |
| Countdown.CellTextClamps | popup.js:203-205 | a field of zero or less shows "00" |
| Countdown.CountdownCells | popup.js:190-192 | the day, hour and minute cells of one countdown are three different elements |
| Countdown.CountdownCellsDisjoint | popup.js:190-192 | the three cell ids of a countdown differ, and two different ids write disjoint cells |
| Countdown.CountdownTarget | popup.js:246-261 | the instant counted down to is after `now`; it can fail only outside Ramadan |
| Countdown.CountdownTargetAhead | popup.js:240-265 | inside a window the Eid panel counts to that year's end; outside, the Ramadan panel counts to the next start or errs; a target is always after `now`, so no field is clamped |
| Countdown.CountdownExamples | popup.js:240-265 | 2025-01-01 counts down to 2025-02-28; 2025-03-10 is in Ramadan and counts to Eid on 2025-03-29; 2026-10-14 is past the table and the countdown fails |
| Prayer.TimeElementId | popup.js:69-70 | a prayer's cell id ends in "time" |
| Prayer.ParseTime | popup.js:76-78 | a timing without ':' is an invalid Date: the minutes are `parseInt(undefined)` |
| Prayer.Candidate | popup.js:71-80 | a prayer that competes has a truthy timing that parses to a time after `now` |
| Prayer.CandidateTimes | popup.js:68-85 | one candidate per listed prayer |
| Prayer.ImproveNoLater | popup.js:80-83 | one pass keeps the choice so far or takes the candidate, and the result is no later than either |
| Prayer.Earliest | popup.js:68-85 | a chosen position holds a candidate with the chosen time |
| Prayer.EarliestMeaning | popup.js:68-85 | nothing is chosen exactly when there is no candidate; otherwise the choice is at least as early as every candidate and strictly earlier than every candidate before it |
| Prayer.IsEarliestUnique | popup.js:80 | with strict `<`, at most one position is the earliest, ties going to the first |
| Prayer.NextPrayer | popup.js:68-85 | the next prayer is one of the six, is a candidate at the chosen time, and lies after `now` |
| Prayer.NextPrayerIff | popup.js:68-85 | the next prayer is position `k` at time `t` if and only if that position is the earliest candidate |
| Prayer.NoNextPrayerIff | popup.js:68-91 | no prayer is highlighted if and only if no prayer is a candidate |
| Prayer.ParseTimeReadsHHMM | popup.js:76-78 | "HH:MM" as the API writes it reads back as that time of day |
| Prayer.MalformedTimeIsNoCandidate | popup.js:76-80 | a timing such as "bad-time" makes an invalid Date, so that prayer is never next |
| Prayer.OnlyDhuhrAhead | popup.js:68-85 | with only Fajr and Dhuhr timed, between the two Dhuhr (position 2) is next |
| Popup.ResolvedLocation | popup.js:11-33 | a cached location wins; without one, the lookup's city and country with the system time zone, or none when the lookup fails |
| Popup.HijriString | popup.js:124 | the date line starts with the day and ends in " AH" |
| Popup.CachedLine | popup.js:146 | the cached line is followed by a marker ending in ")", so no cached line reads as a fresh date line |
| Popup.WithTimeTextsKeepsElements | popup.js:68-74 | writing the time cells removes no element |
| Popup.WithTimeTextsElsewhere | popup.js:68-74 | the time cells written by the loop leave every element whose id does not end in "time" alone |
| Popup.TimeElementIdsDistinct | popup.js:69-70 | the six prayers write six different cells |
| Popup.EachTimingShown | popup.js:71-73 | after the loop every prayer with a timing shows it formatted |
| Popup.TracksImprove | popup.js:80-83 | `nextPrayer` and `nextPrayerTime` stay the name and the time of the choice so far |
| Popup.Highlight | popup.js:87-96 | at most one row is marked |
| Popup.ShowCountdown | popup.js:203-205 | `updateDisplay` writes the three cells of its countdown with the three fields' texts and leaves every other element alone |
| Popup.PlaceLocation | popup.js:107-108 | the location line shows "city, country", the title is "Prayer Times of " followed by that line, and nothing else changes |
| Popup.PlacePlaceholders | popup.js:140-141 | the catch block writes "Location unavailable" and "Prayer Times" and nothing else |
| Popup.ShowCachedHijri | popup.js:145-147 | a truthy cached line is shown marked " (Cached)" and nothing else changes; otherwise the page is unchanged |
| Popup.PlaceholdersOverwriteLocation | popup.js:138-141 | the catch block's placeholders replace the location line and the title that the try block wrote |
| Popup.FetchedPageShows | popup.js:107-137 | on success the page shows "city, country", "Prayer Times of city, country" and the Hijri line |
| Popup.FailedPageShows | popup.js:138-151 | on failure the page shows "Location unavailable" and "Prayer Times", and the cached Hijri line with " (Cached)" when one is cached; without one the date cell is untouched |
| Popup.PopupState.GetUserLocation | popup.js:8-37 | the cached location if any, else the lookup's location, which is then cached, else none |
| Popup.PopupState.UpdatePrayerTimes | popup.js:57-97 | caches the timings, writes the time cells, and marks exactly the row of the next prayer |
| Popup.PopupState.ShowPrayerTime | popup.js:69-84 | one pass of the loop: writes the cell of a timed prayer and takes over a strictly earlier candidate |
| Popup.PopupState.GetHijriDate | popup.js:100-152 | the new cache and page: on success, the fetched line, time and timings; on failure, the placeholders and the cached data, with the cache unchanged |
| Popup.PopupState.ShowFetched | popup.js:123-137 | caches the line and the update time, runs `updatePrayerTimes` when timings came, shows the line |
| Popup.PopupState.ShowFailure | popup.js:138-151 | placeholders, the cached line marked " (Cached)" if truthy, and the cached timings if any |
| Popup.PopupState.UpdateDisplay | popup.js:188-209 | the three cells of countdown `id` show the clamped, padded fields |
| Popup.PopupState.UpdateCountdowns | popup.js:240-265 | exactly one panel is hidden; the shown panel's cells show the time left to its target, or stay as they were when the target throws |

## Left out

- `background.js` is not part of this model.
- Network requests, JSON parsing, `chrome.storage` and the DOM's asynchrony: responses are inputs, and the storage and the page are fields updated in program order.
- The missing-element checks of `updateDisplay` (lines 198–201) and the `if (timeElement && …)` test: every element is assumed present.
- `formatTime` (lines 41–54): locale formatting is not modelled; the formatter is the parameter `fmt`.
- Time zones and daylight saving: the timeline is the local wall clock, with days of exactly 24 hours.
- `setHours` overflow (hours above 23, negative minutes) is taken literally as `h * 1h + m * 1min` after midnight.
- The several `new Date()` calls of one update are one `now`; its milliseconds are not split from the time of day.
- `parseInt` is modelled for decimal digits with ASCII space and an optional sign. Hexadecimal prefixes and other Unicode white space are not modelled.
- JavaScript numbers are exact integers: `diff / MsPerDay` is floored exactly, with no floating-point rounding.
- Fields of the responses that are missing or not strings (an `undefined` city, a timing that is not a string) are not modelled; every field is a string.
- The timers and the `DOMContentLoaded` handler (lines 267–276) only call `getHijriDate` and `updateCountdowns`, which are modelled.
- Popup.Highlight: marks the prayer's name rather than the `.prayer-time` row found with `closest()`.
