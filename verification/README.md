# Grassland-curing observation sharing: a Dafny model of the cloud code

This project models the logic in `cloud/main.js` of the grassland-curing observation
sharing service (the Victorian Parse server). States (jurisdictions) submit curing
observations and decide which other states may see them. The model covers:

- the `beforeSave` trigger that gives a new observation its `SharedBy` sharing matrix.
  The matrix has one `{st, sh: true}` entry per jurisdiction settings record, in registry order;
- `getPrevSimpleObsSharedInfoForState`. It walks the fetched current observations, drops stale ones,
  and emits one record per observation whose `SharedBy` lists the requesting state.
  The record carries the flag of the first matching entry;
- staleness (`numDaysBetween`, `isObsTooOld`): more than 30 days between the finalised
  date and now, in either direction;
- the twelve-hour clock text `getval`, its parser `get24Hr`, and the weekly
  validation-email window (`isTodayWednesday`, `isToSendRequestForValidationEmail`);
- `getLastDayOfMonth` and `getTodayString`. The second moves the UTC date to the Eastern-states date and prints it as `DD/MM/YYYY`;
- the array helpers `contains`, `each`, `uniquelize`, `intersect`, `minus`, `union`,
  `complement`, `inAButNotInB`, and the `sort_by` comparator.

Everything is a pure function over sequences, strings and integers. Values the source
reads from the clock or the object store are parameters:

- the current instant, weekday, hour and minute;
- the UTC date;
- the list of jurisdiction settings records;
- the list of fetched observations.

Instants are integer milliseconds. `SharedBy` is the decoded list of `ShareEntry(st, sh)` values, not JSON text.

Modules, one per component of the file:

- `Wrappers`: the `Option` type. `None` stands for an absent value or a step that throws.
- `Decimal`: digit strings, the way JavaScript prints small integers and `Number` reads them back.
- `ClockTime`: `getval`, `get24Hr`, the regular-expression captures it uses, and the weekly window.
- `Calendar`: `getLastDayOfMonth`, `getTodayString`, and a Gregorian day count used to state the roll-over.
- `Staleness`: `numDaysBetween` (exact real quotient) and `isObsTooOld` (integer comparison).
- `SharingMatrix`: the `SharedBy` entries, their initialisation, and the first-match lookup.
- `SharedInfo`: the observation and result records, and the selection loop.
- `ArrayUtils`: the list-as-set helpers and the comparator.

Behaviour of `cloud/main.js` that the model keeps as written:

- The weekly window tests `getDay() == 3` (Wednesday, UTC). The comment at main.js:214-217 places the
  job between 10:45 PM and 11:15 PM GMT (9:45 PM to 10:15 PM under daylight saving), which it
  equates with Thursday 8:45 AM to 9:15 AM in Eastern time.
- The `SharedBy` matrix is built from the ordered list of settings records, duplicates included.
- `getPrevSimpleObsSharedInfoForState` keeps every current observation that lists the state, with
  no spatial filter. It reports the state's `sh` flag in each record instead of filtering on it.
- `getLastDayOfMonth` goes through the JavaScript `Date` constructor. That constructor reads years 0..99 as 1900..1999.
  So year 0, a Gregorian leap year, gets a 28-day February (`Calendar.LastDayExamples`).
  For every year from 1 on the rule is the Gregorian one.

## Model

| member | source | states |
|---|---|---|
| SharingMatrix.Jurisdictions | cloud/main.js:50-56 | one jurisdiction code per settings record, in registry order |
| SharingMatrix.SharedWithAll | cloud/main.js:58-65 | one entry per code, in order, with `st` the code and `sh` true |
| SharingMatrix.InitSharedBy | cloud/main.js:50-67 | the new observation's matrix has exactly one entry per settings record, in the same order, each `{st: that record's jurisdiction, sh: true}` |
| SharingMatrix.InitSharedByLookup | cloud/main.js:50-67 | looking a state up in a freshly initialised matrix gives "shared" exactly for registered jurisdictions and "no entry" otherwise |
| SharingMatrix.FirstMatch | cloud/main.js:117-137 | the inner search yields nothing iff no entry has `st` equal to the state; otherwise it yields the `sh` of the first such entry |
| SharingMatrix.FirstMatchIsFirst | cloud/main.js:117-137 | entries after the first match never affect the result (the `break`) |
| SharedInfo.SharedInfoFor | cloud/main.js:91-139 | an observation yields a record iff it is not stale, has `SharedBy`, and `SharedBy` lists the state; the record's flag is the first matching entry's `sh` and every other field is copied from the observation |
| SharedInfo.CollectSharedInfos | cloud/main.js:89-141 | the emitted list is never longer than the candidate list |
| SharedInfo.CollectAppend | cloud/main.js:91-141 | output order follows input order: the records of a concatenation of candidate lists are the records of each part, in turn |
| SharedInfo.CollectOne | cloud/main.js:111-139 | a single observation contributes at most one record |
| SharedInfo.CollectMembership | cloud/main.js:91-141 | a record is in the result iff some candidate observation produces it |
| SharedInfo.GetPrevSimpleObsSharedInfoForState | cloud/main.js:89-147 | the nested loops with `break` compute exactly the per-observation records in input order; a record is returned iff some candidate produces it |
| Staleness.NumDaysBetween | cloud/main.js:348-351 | the day count is non-negative and zero only for equal instants |
| Staleness.IsObsTooOld | cloud/main.js:353-364 | the integer-millisecond test agrees with the day-count test "more than 30 days between now and the finalised date" |
| Staleness.TooOldIsSymmetric | cloud/main.js:348-364 | a finalised date the same distance in the future is judged like one in the past |
| Staleness.ThirtyDayBoundary | cloud/main.js:16 | exactly 30 days either side is current; one millisecond more is stale |
| ClockTime.LeadingDigits | cloud/main.js:242 | the capture of `^(\d+)` is the longest all-digit prefix of the text |
| ClockTime.LeadingDigitsStop | cloud/main.js:242 | the hour capture stops at the first non-digit |
| ClockTime.SuffixFrom | cloud/main.js:243 | the capture of `\s(.*)$` is a proper suffix of the text |
| ClockTime.SuffixFromFails | cloud/main.js:243 | the marker match fails iff no white space is followed by a single-line rest |
| ClockTime.SuffixFromLeftmost | cloud/main.js:243 | the leftmost matching white space decides the captured marker |
| ClockTime.ColonDigitsFrom | cloud/main.js:247 | the capture of `:(\d+)` is a non-empty run of digits |
| ClockTime.ColonDigitsFromFails | cloud/main.js:247 | the minute match fails iff no colon is followed by a digit |
| ClockTime.ColonDigitsFromLeftmost | cloud/main.js:247 | the leftmost colon followed by a digit decides the captured minutes |
| ClockTime.Get24Hr | cloud/main.js:241-251 | a successful parse starts with a digit |
| ClockTime.SuffixOfClockText | cloud/main.js:243 | in "H:MM marker" the marker capture is the marker |
| ClockTime.ColonDigitsOfClockText | cloud/main.js:247 | in "H:MM marker" the minute capture is MM |
| ClockTime.To24Hour | cloud/main.js:244-245 | for a clock-face hour 1..12 with an AM or PM marker the result is a 24-hour hour congruent to it modulo 12, at least 12 exactly for PM; any other marker leaves the hour unchanged |
| ClockTime.ParseClockText | cloud/main.js:241-251 | any "digits:digits marker" text parses to the PM/AM-adjusted hour times 100 plus the minutes |
| ClockTime.TwelveHour | cloud/main.js:260-267 | the clock-face hour is in 1..12 and agrees with the 24-hour hour modulo 12 |
| ClockTime.Meridiem | cloud/main.js:260-264 | the marker is AM or PM, PM exactly from hour 12 on |
| ClockTime.ClockFaceRoundTrip | cloud/main.js:244-245 | `get24Hr`'s marker adjustments turn `getval`'s clock-face hour and marker back into the hour read from the clock |
| ClockTime.Getval | cloud/main.js:253-271 | the text is "H:MM AM/PM" with an unpadded hour in 1..12 (no leading zero) congruent to the hour modulo 12, two minute digits reading as the minutes, and PM exactly from noon |
| ClockTime.GetvalRoundTrip | cloud/main.js:241-271 | `get24Hr(getval(h, m)) == 100*h + m` for every 0 <= h < 24, 0 <= m < 60 |
| ClockTime.Midnight | cloud/main.js:241-271 | midnight shows "12:MM AM" and reads back as MM |
| ClockTime.Noon | cloud/main.js:241-271 | noon shows "12:MM PM" and reads back as 1200 + MM |
| ClockTime.IsTodayWednesday | cloud/main.js:219-225 | true exactly when the `getDay` number (Sunday = 0) names Wednesday |
| ClockTime.IsToSendRequestForValidationEmail | cloud/main.js:219-239 | true iff the weekday is 3 and start < now < end as HHMM, both endpoints excluded; never true on another day; throws only when a window text the short-circuit reaches does not parse |
| ClockTime.JobWindowStart | cloud/main.js:214-217 | "10:45 PM", the GMT start time of the job comment, is what `getval` prints at 22:45 and reads as 2245 |
| ClockTime.JobWindowEnd | cloud/main.js:214-217 | "11:15 PM", the GMT end time of the job comment, is what `getval` prints at 23:15 and reads as 2315 |
| ClockTime.JobValidationWindow | cloud/main.js:214-239 | with the 10:45 PM to 11:15 PM window the decision never throws and is "Wednesday and strictly between 2245 and 2315" |
| ClockTime.ValidationWindowExamples | cloud/main.js:214-239 | 11:00 PM on Wednesday is inside; 10:44 PM, 10:45 PM and 11:15 PM on Wednesday and 11:00 PM on Thursday are not |
| Calendar.ConstructorYear | cloud/main.js:278 | the `Date` constructor's year is the given year, except that 0..99 become 1900..1999 |
| Calendar.LastDayOfMonth | cloud/main.js:273-280 | February has 29 days in leap years of the constructor's year and 28 otherwise; April, June, September and November have 30; the other seven months have 31 |
| Calendar.LastDayExamples | cloud/main.js:273-280 | `getLastDayOfMonth(2009, 9) == 30`; century rules for 1900 and 2000; year 0 read as 1900 |
| Calendar.FebruaryFollowsGregorianRule | cloud/main.js:277-280 | from year 1 on, February has 29 days exactly in Gregorian leap years |
| Calendar.MonthsFillYear | cloud/main.js:277-280 | the twelve month lengths sum to 366 in leap years and 365 otherwise |
| Calendar.NextOrdinal | cloud/main.js:308-318 | the month and year roll-over step yields a valid date whose day number is one more |
| Calendar.NextDayHour | cloud/main.js:300-306 | the UTC hour at which the Eastern clock (UTC+11 under daylight saving, UTC+10 otherwise) reaches midnight |
| Calendar.LocalDate | cloud/main.js:287-318 | the result is a valid date; unchanged before UTC hour 13 (daylight saving) or 14; otherwise exactly the next calendar day; the year advances iff stepping past 31 December |
| Calendar.GetTodayString | cloud/main.js:287-329 | the text is two digits, "/", two digits, "/", the year's digits without a leading zero, reading back as the local day, month and year |
| Decimal.NatToDecimal | cloud/main.js:268 | the printed number is a non-empty digit string reading back as the number, one digit below 10 and two below 100, and no leading zero for a positive number |
| Decimal.ZeroPad2 | cloud/main.js:320-324 | a number below 100 prints as exactly two digits reading back as the number |
| ArrayUtils.Contains | cloud/main.js:168-175 | true iff the element occurs in the array |
| ArrayUtils.FirstIndex | cloud/main.js:188-196 | the position of the first occurrence: holds the element and nothing earlier does |
| ArrayUtils.Each | cloud/main.js:177-186 | the result is no longer than the input and holds exactly the non-null callback results |
| ArrayUtils.EachAppend | cloud/main.js:177-186 | order is kept: `each` over a concatenation is `each` over the first part, then `each` over the second with indices continuing |
| ArrayUtils.EachCounts | cloud/main.js:177-186 | duplicates are kept: each value occurs as often as there are indices whose callback returns it |
| ArrayUtils.EachFilterNoDuplicates | cloud/main.js:202-208 | a keep-or-drop callback keeps a duplicate-free array duplicate-free |
| ArrayUtils.Uniquelize | cloud/main.js:188-196 | no duplicates, the same elements as the input, in order of first occurrence |
| ArrayUtils.FirstIndexInPrefix | cloud/main.js:188-196 | first occurrences in a prefix are first occurrences in the whole array |
| ArrayUtils.Intersect | cloud/main.js:202-204 | duplicate-free, holding exactly the elements in both arrays |
| ArrayUtils.Minus | cloud/main.js:206-208 | duplicate-free, holding exactly the elements of `a` not in `b` |
| ArrayUtils.Union | cloud/main.js:210-212 | duplicate-free, holding exactly the elements in either array |
| ArrayUtils.Complement | cloud/main.js:198-200 | duplicate-free, holding exactly the elements in one array but not the other |
| ArrayUtils.InAButNotInB | cloud/main.js:159-163 | never longer than `A`; holds exactly the elements of `A` not in `B` |
| ArrayUtils.InAButNotInBCounts | cloud/main.js:159-163 | duplicates are kept: each element not in `B` occurs as often as in `A`, elements of `B` not at all |
| ArrayUtils.InAButNotInBAppend | cloud/main.js:159-163 | order is kept: filtering a concatenation filters each part in turn |
| ArrayUtils.SortBy | cloud/main.js:334-342 | the comparator returns -1, 0 or 1; 0 iff the keys are equal; 1 iff the first key is greater (smaller when reversed) |

## Left out

- Parse transport and store: `Parse.Cloud.define`/`beforeSave`, `response.success`/`error`, `useMasterKey`, and the `hello` and `countOfObservations` handlers. These are request plumbing around the modelled logic.
- The store queries: the `ObservationStatus == 1` filter and the 1000-record limit. The candidate observations are a parameter, as already fetched. A failed query's error response is transport.
- `existed()` in `beforeSave`: only the new-record branch is modelled. The existing-record branch saves unchanged.
- JSON: `JSON.stringify`/`JSON.parse` of `SharedBy` are library serialisation. The model works on the decoded list. A malformed `SharedBy`, or an `sh` that is not a boolean, is not modelled.
- Clock reads: `new Date()`, `getDay`, `getHours`, `getMinutes`, `getDate`, `getMonth`, `getFullYear` and `getTime` become parameters. The server clock is taken to be UTC, as the source's comments assume.
- One clock reading per request: `isObsTooOld` calls `new Date()` once per observation, and the window check reads the clock in both `getval` and `isTodayWednesday`. The model passes one `now` to every staleness test and one weekday, hour and minute to the window check. So it takes the clock not to advance during a request. A request that runs across midnight or across the 30-day boundary is not modelled.
- NumDaysBetween: the floating-point division is replaced by exact real division. Instants are whole milliseconds below 2^53, so the double quotient exceeds 30 exactly when the exact quotient does, and the decision is the same.
- Environment variables (`SUPER_USER`, `APP_ID`, `MASTER_KEY`, `APP_NAME`), `console.log`, and the `Array.prototype` patching mechanism are left out. The helpers are functions on sequences.
- Each: the `Function.K` default callback, the extra arguments passed after the callback, and the `this` binding are left out. No caller in the file uses them.
- Intersect: JavaScript `each` drops null and undefined callback results. So a null or undefined element is dropped even when both arrays hold it. The model's element types have no null.
- Minus: the same null/undefined drop as for Intersect applies.
- Contains: `===` and underscore's `_.contains` treat NaN differently. The model uses Dafny equality.
- SortBy: keys are integers. JavaScript `>` on strings or mixed types, and the `Array.sort` that consumes the comparator, are not modelled.
- Get24Hr: `Number` on digit runs longer than double precision loses digits. The model reads them as unbounded integers.
- JOB_START_TIME and JOB_END_TIME are not defined in `cloud/main.js`. They are parameters of the window check.
- LastDayOfMonth: months outside 1..12 are not modelled. The JavaScript `Date` constructor would normalise them, but the only caller passes `getMonth() + 1`.
- LocalDate: dates before year 1 are not modelled, since the clock of a running server does not produce them.
- GetTodayString: the same year-1 lower bound as for LocalDate applies.
- GetPrevSimpleObsSharedInfoForState: an observation without `FinalisedDate` is not modelled. The source throws inside `getTime` for it.
- The spatial buffer filter, `getSharedPrevCuringForStateForInputToVISCA`, `updateSharedByInfo` and `finaliseObservationOnParse` have no code in `cloud/main.js`. They are not part of this model.
