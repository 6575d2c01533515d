# ECRP-FTD dashboard: data shaping and route gate

A Dafny model of the logic behind the ECRP-FTD field-training dashboard. The
rest of the dashboard is React pages and HTTP handlers. The model covers:

- the two forms: creating an FTD session and creating an EMR record;
- the spreadsheet-row shaping every table applies once the CSV text has been
  parsed into rows;
- the name and date filters of the tables;
- the page-size clamp;
- the `ProtectedView` gate that decides what a protected page shows.

A parsed row is a `Sheet.Row`. It holds the header keys in order and a map from
key to cell text. A key the row lacks reads as `undefined`. Two JavaScript
defaults are kept apart:
- `value || fallback` (`Sheet.Or`) also replaces the empty string;
- `value ?? fallback` (`Sheet.Coalesce`) replaces only a missing cell.

The JavaScript string and number built-ins the code relies on live in module
`Text`:
- `toLowerCase`, `trim`, `includes` and `split`;
- `parseInt` and `Number`, restricted to decimal integers;
- template-literal rendering of integers.

Modules, one per source file:

| module | file | what it models |
|---|---|---|
| `Optional`, `Text`, `Seqs`, `Sheet`, `Forms` | optional.dfy, text.dfy, seqs.dfy, sheet.dfy, forms.dfy | missing values, string built-ins, filtering, rows, defaults, `findIndex`, page size, request outcomes |
| `SessionForm` | session_form.dfy | `create-new-session.tsx`: `formatTime12h`, required fields, payload, reset |
| `EmrForm` | emr_form.dfy | `create-new-emr.tsx`: required fields, payload, no reset |
| `EmployeeStats` | employee_stats.dfy | `employee-stats/columns.tsx`: `getUniqueEmployeeRows` |
| `Columns` | columns.dfy | both `generateColumns` variants |
| `CurrentEmrs` | current_emrs.dfy | `mapEmployeeDataRaw`, `StatusBox`, the EMR name filter of `current-emrs-table.tsx` |
| `SessionStats` | session_stats.dfy | `mappedMonthlySessionData` and `fetchSessionStats` after parsing |
| `EmployeeStatsFetch` | employee_stats_fetch.dfy | the row window of `fetchEmployeeStats` |
| `FetchEmrs` | fetch_emrs.dfy | `fetchEMRs` after parsing |
| `AllDataFilter` | all_data_filter.dfy | `filteredData` of `all-data-table.tsx` |
| `DateRange` | date_range.dfy | the `dateRange` filter of `data-table.tsx` |
| `ProtectedView` | protected_view.dfy | `ProtectedView.tsx` |

Things the model makes explicit:
- A stop row ("Ex FTOs") at index 0 or 1 empties the employee-stats window.
- Only one trailing all-empty row is dropped.
- All-data rows whose date does not parse are kept by the date filter.
- Data-table cells whose date part is empty never pass.
- A cell that is not a date passes the data-table filter when no bound is set.
- `Number(x) || 1` lets negative page sizes through.
- The EMR form is not cleared after a successful submit, so the same record
  can be posted twice.
- An `excludeKeys` entry with an uppercase letter never excludes a column.
- An employee-stats output row is an `EmployeeTotal(name, total)`, so it has
  exactly the two keys "Your Name" and "Total Sessions".

## Model

| member | source | states |
|---|---|---|
| Text.ShowNat | src/components/create-new-session/create-new-session.tsx:90 | the hour printed in the template literal has no leading zero (first digit is '0' only for 0) and reads back as the number |
| Text.LeadingDigits | src/components/create-new-session/create-new-session.tsx:86 | `parseInt` reads the longest run of digits: the prefix is all digits and the next character is not a digit |
| Text.ParseInt | src/components/create-new-session/create-new-session.tsx:86 | `parseInt(hourStr, 10)` is a number exactly when, after leading whitespace and an optional sign, the text starts with a digit |
| Text.ParseIntIgnoresTail | src/components/create-new-session/create-new-session.tsx:86 | `parseInt` reads a digit run as its decimal value and ignores whatever follows the first non-digit |
| Text.NumberOf | src/components/session-stats/fetchMonthlySession.ts:21 | `Number` of blank text is 0, and the result is a number exactly for blank text or an optional sign followed by digits |
| Text.PaddedReads | src/components/data-table.tsx:65 | a number padded with leading zeros is still all digits and reads back as that number |
| Text.ParseShowNat | src/components/create-new-session/create-new-session.tsx:86 | `parseInt` and `Number` both read a rendered natural number back as that number |
| Text.ParseDigits | src/components/data-table.tsx:69 | `Number` of a non-empty digit string is its decimal value |
| Text.TrimStart | src/components/employee-stats/columns.tsx:55 | `trim` removes exactly the leading run of JavaScript whitespace, and what remains starts with a non-space |
| Text.TrimEnd | src/components/employee-stats/columns.tsx:55 | `trim` removes exactly the trailing run of JavaScript whitespace, and what remains ends with a non-space |
| Text.Lower | src/components/employee-stats/columns.tsx:49 | `toLowerCase` keeps the length and maps each character on its own |
| Text.LowerHasNoUpper | src/components/all-data-table/columns.tsx:22 | a lowercased key never equals a text that holds an uppercase letter |
| Text.Capitalize | src/components/columns.tsx:23 | the header text equals the key except that the first character is uppercased; an empty key stays empty |
| Text.ContainsAt | src/components/employee-stats/columns.tsx:50 | `includes` holds exactly when the text occurs at some position |
| Text.Split | src/components/data-table.tsx:66 | `split` on one character yields at least one piece, and no piece holds the separator |
| Text.JoinSplit | src/components/data-table.tsx:66 | joining the pieces of `split` with the separator gives back the input |
| Seqs.Filter | src/components/employee-stats/columns.tsx:46-51 | `filter` keeps only elements of the input that satisfy the predicate, and keeps every element that does; each satisfying value occurs in the result as often as in the input, every other value not at all |
| Seqs.FilterIsSubsequence | src/components/current-emrs/current-emrs-table.tsx:57-61 | `filter` keeps the input order |
| Sheet.Or | src/components/employee-stats/columns.tsx:47 | `v \|\| fallback` gives the fallback exactly when the cell is missing, empty or already the fallback, and the cell otherwise |
| Sheet.Coalesce | src/components/current-emrs/columns.tsx:16 | `v ?? fallback` gives the fallback only for a missing cell; a present empty cell is kept |
| Sheet.FirstWith | src/components/employee-stats/fetchEmployeeStats.ts:20 | `findIndex` gives the first row whose cell equals the value, and none when no row has it |
| Sheet.PageSize | src/components/all-data-table/all-data-table.tsx:85 | `Number(x) \|\| 1`: a nonzero input passes through, 0 and NaN give 1, and the result is below 1 exactly for negative input (same line in data-table.tsx:99 and current-emrs-table.tsx:77) |
| SessionForm.JsRem | src/components/create-new-session/create-new-session.tsx:88 | JavaScript `%` takes the dividend's sign: it agrees with the mathematical remainder for a non-negative dividend, lies in (-b, 0] for a negative one, and always differs from the dividend by a multiple of b |
| SessionForm.DialHour | src/components/create-new-session/create-new-session.tsx:88-89 | the shown hour is congruent to the hour modulo 12, and is 12 exactly when the hour is a multiple of 12; for a non-negative hour it lies in 1..12, for a negative one it is 12 or in -11..-1; NaN stays NaN |
| SessionForm.Meridiem | src/components/create-new-session/create-new-session.tsx:87 | the suffix is "PM" exactly for a number hour of at least 12, and "AM" otherwise (NaN included) |
| SessionForm.ClockPieces | src/components/create-new-session/create-new-session.tsx:90 | the output is hour, minute and "00 AM/PM" separated by colons |
| SessionForm.FormatTime12h | src/components/create-new-session/create-new-session.tsx:84-91 | the result ends in " PM" exactly when the parsed hour is at least 12, and in " AM" otherwise |
| SessionForm.DialOfDayHour | src/components/create-new-session/create-new-session.tsx:88-89 | hour 0 shows 12, hours 1..12 show themselves, hours 13..23 lose twelve |
| SessionForm.TwelveHourTable | src/components/create-new-session/create-new-session.tsx:84-91 | for "HH:MM" with an hour below 24 the output is the dial hour, the minute text copied verbatim, seconds "00", then AM below 12 and PM from 12 |
| SessionForm.DisplayedHourOnDial | src/components/create-new-session/create-new-session.tsx:86-90 | the displayed hour is a digit string with no leading zero whose value lies in 1..12 |
| SessionForm.Time12hRoundTrip | src/components/create-new-session/create-new-session.tsx:84-91 | reading the 12-hour text back recovers the 24-hour hour and the minute text |
| Text.PadZeros | src/components/create-new-session/create-new-session.tsx:97 | padding keeps the digits as the tail and puts only zeros in front, up to the width |
| SessionForm.FormatDate | src/components/create-new-session/create-new-session.tsx:97 | the payload date splits at its slashes into three digit fields that read back as month, day and year |
| SessionForm.DateRoundTrip | src/components/create-new-session/create-new-session.tsx:97 | the `MM/dd/yyyy` text splits into 2, 2 and 4 digits that read back as month, day and year |
| SessionForm.Submit | src/components/create-new-session/create-new-session.tsx:68-98 | nothing is sent exactly when one of the six fields is empty or missing; the payload keeps name, EMR and session type, and carries both times in 12-hour form and the date as `MM/dd/yyyy` |
| SessionForm.HandleSubmit | src/components/create-new-session/create-new-session.tsx:65-117 | the form becomes blank exactly when a request was sent and succeeded (or it was blank already); otherwise it is unchanged |
| SessionForm.ResetFormIsRejected | src/components/create-new-session/create-new-session.tsx:110-117 | after a successful submit all six fields are empty, so submitting again sends nothing |
| EmrForm.Submit | src/components/create-new-emr/create-new-emr.tsx:33-47 | nothing is sent exactly when EMR, profile link, training reminder, start date or four-weeks date is empty; the payload is the form itself |
| EmrForm.HandleSubmit | src/components/create-new-emr/create-new-emr.tsx:57-70 | the form keeps its contents whatever the endpoint answers |
| EmrForm.OptionalFieldsNotRequired | src/components/create-new-emr/create-new-emr.tsx:33-39 | the notes and the three check boxes never decide whether a submit goes through |
| EmrForm.ResubmitPostsAgain | src/components/create-new-emr/create-new-emr.tsx:57-70 | after a successful submit, submitting again posts the same record again |
| EmployeeStats.KeysOf | src/components/employee-stats/columns.tsx:55 | each kept row is counted under its trimmed name, or "Unknown" when the name is falsy |
| EmployeeStats.Tally | src/components/employee-stats/columns.tsx:56 | one increment keeps names distinct, adds the name, raises its total and the sum by one, and leaves every other total alone |
| EmployeeStats.Aggregate | src/components/employee-stats/columns.tsx:53-57 | the names are pairwise distinct, every total is at least 1, and the totals add up to the number of rows counted |
| EmployeeStats.AggregateCounts | src/components/employee-stats/columns.tsx:53-57 | each name's total is the number of times it occurs, and a name is listed exactly when it occurs |
| EmployeeStats.UniqueEmployeeRows | src/components/employee-stats/columns.tsx:45-62 | distinct names, totals at least 1, and the totals sum to the number of rows the filter kept |
| EmployeeStats.UniqueEmployeeTotals | src/components/employee-stats/columns.tsx:45-62 | every listed total counts the kept rows with that trimmed name, and the listed names are exactly the kept rows' trimmed names |
| EmployeeStats.KeptRowsAreMatching | src/components/employee-stats/columns.tsx:46-51 | a row is kept, in order, exactly when its lowercased name (or "Unknown") contains the lowercased filter |
| EmployeeStats.EmptyFilterKeepsAll | src/components/employee-stats/columns.tsx:45 | the default empty filter keeps every row |
| EmployeeStats.TrimmedNamesMerge | src/components/employee-stats/columns.tsx:47-55 | " Bob" and "Bob" end up in one entry with total 2 |
| Columns.PlainColumns | src/components/columns.tsx:17-24 | no data gives no columns; one column per first-row key not excluded, none missing, accessor key unchanged and header the capitalized key |
| Columns.AllDataColumns | src/components/all-data-table/columns.tsx:19-50 | no data gives no columns; header text is the capitalized key, and only a key whose lowercase is "timestamp" gets the sort button |
| Columns.AccessorKeysInOrder | src/components/columns.tsx:19-22 | the accessor keys appear in the first row's key order |
| Columns.OnlyFirstRowMatters | src/components/all-data-table/columns.tsx:21 | rows after the first never change the columns |
| Columns.UppercaseExcludeIgnored | src/components/all-data-table/columns.tsx:22 | adding an exclude entry with an uppercase letter changes nothing |
| Columns.VariantsAgree | src/components/all-data-table/columns.tsx:23-49 | both variants give the same keys and header texts, and differ only for a timestamp key |
| CurrentEmrs.EmrRecord | src/components/current-emrs/columns.tsx:15-24 | the record has the eight keys in order, EMR from `""`, then "Start Date" from `_1` through Notes from `_7`, each defaulted with `??` |
| CurrentEmrs.RecordWellFormed | src/components/current-emrs/columns.tsx:16-23 | every record has exactly eight distinct keys, each with a cell |
| CurrentEmrs.CoalescingRecord | src/components/current-emrs/columns.tsx:16-23 | a missing source cell becomes "", and a present one, even empty, is copied unchanged |
| CurrentEmrs.FetchCurrentEmrs | src/components/current-emrs/fetchCurrentEMRs.ts:17-21 | the rows handed to the table are the parsed rows from the third on: max(0, n-2) of them, row i being parsed row i+2 |
| CurrentEmrs.MapEmployeeDataRaw | src/components/current-emrs/columns.tsx:14-25 | the output has max(0, n-1) records, and record i is built from row i+1 |
| CurrentEmrs.TableRows | src/components/current-emrs/current-emrs-table.tsx:55-63 | at most n-1 rows are shown, each matching the EMR filter and carrying the record keys |
| CurrentEmrs.TableRowsAreFilteredRecords | src/components/current-emrs/current-emrs-table.tsx:53-63 | the shown rows keep the record order, a record is shown exactly when it matches, and every shown row is an unmodified record of some row after the first |
| CurrentEmrs.EmptyFilterShowsAll | src/components/current-emrs/current-emrs-table.tsx:55-61 | the empty filter shows every record |
| CurrentEmrs.StatusBox | src/components/current-emrs/columns.tsx:4-5 | yes is shown exactly for the text "TRUE", compared case-sensitively; any other text, "True" and "true" included, shows no |
| CurrentEmrs.StatusBoxCaseSensitive | src/components/current-emrs/columns.tsx:5 | "true", "True" and "TRUE " show no |
| SessionStats.SessionsOf | src/components/session-stats/columns.tsx:14 | the first present cell among "Sessions", the month column and "_1", else "" |
| SessionStats.MappedMonthlySessionData | src/components/session-stats/columns.tsx:12-15 | one row per input row in order, the name defaulted with `??` and the sessions from the fallback chain |
| SessionStats.EmptySessionsWins | src/components/session-stats/columns.tsx:14 | a present but empty "Sessions" cell wins over the other columns |
| SessionStats.TotalMonthSessions | src/components/session-stats/fetchMonthlySession.ts:14-22 | 0 without a "Total Month Sessions" row; otherwise `Number` of the first such row's `_1`, or 0 when that cell is missing |
| SessionStats.FetchSessionStats | src/components/session-stats/fetchMonthlySession.ts:5-37 | the data is the suffix after the first "Employee" row (all rows without one), and the total is `Number(_1 ?? 0)` of the first "Total Month Sessions" row of the whole sheet, 0 without one |
| SessionStats.MonthlyData | src/components/session-stats/fetchMonthlySession.ts:25-31 | always a suffix of the rows: the row just before it is the first "Employee" row, and the whole input is returned exactly when there is none |
| SessionStats.TotalReadsBack | src/components/session-stats/fetchMonthlySession.ts:19-21 | a total written as a plain number in `_1` of the first total row reads back as that number |
| SessionStats.MappingKeepsSuffix | src/components/session-stats/columns.tsx:12 | mapping the monthly data gives the tail of the mapping of the whole sheet, since each row is mapped on its own |
| EmployeeStatsFetch.Sliced | src/components/employee-stats/fetchEmployeeStats.ts:20-24 | with the first stop row at k the result is rows 1 to k-1 (nothing for k of 0 or 1); without a stop row it is every row but the first |
| EmployeeStatsFetch.TrimEmptyLast | src/components/employee-stats/fetchEmployeeStats.ts:27-32 | at most the last row goes, and it goes exactly when all its cells are falsy |
| EmployeeStatsFetch.StatsWindow | src/components/employee-stats/fetchEmployeeStats.ts:19-34 | with the first stop row at k (or k the row count when there is none) the result is rows 1 to k-1, minus row k-1 when all its cells are empty; it holds no stop row |
| EmployeeStatsFetch.StopAfterTwo | src/components/employee-stats/fetchEmployeeStats.ts:19-34 | a stop row at index 3 after three ordinary rows leaves rows 1 and 2 |
| EmployeeStatsFetch.WholeTail | src/components/employee-stats/fetchEmployeeStats.ts:23-32 | without a stop row and with a non-empty last row, every row after the first is returned |
| EmployeeStatsFetch.OneTrailingRowRemoved | src/components/employee-stats/fetchEmployeeStats.ts:27-32 | of two trailing empty rows only the last is dropped |
| FetchEmrs.EmrNames | src/helpers/fetchEMRs.tsx:18-20 | max(0, n-2) names; a name is "" exactly when the `""` cell of row i+2 is missing or empty, and otherwise is that cell |
| FetchEmrs.EmrNamesAreTableColumn | src/helpers/fetchEMRs.tsx:18-20 | the current-EMRs table's records, built from `fetchCurrentEMRs`'s rows, number one fewer than the names, and record i's EMR cell is name i+1 |
| AllDataFilter.FilteredData | src/components/all-data-table/all-data-table.tsx:55-67 | no bounds return the data unchanged; rows without a date, with an empty date or with an unparsable date are always kept |
| AllDataFilter.FilteredIsSubsequence | src/components/all-data-table/all-data-table.tsx:58-66 | the result keeps the data's order |
| AllDataFilter.InclusiveBounds | src/components/all-data-table/all-data-table.tsx:63-65 | a row with a valid date is kept exactly when start <= date <= end for the bounds that are set |
| DateRange.DateRangeFilter | src/components/data-table.tsx:58-93 | an empty date part fails; otherwise a cell passes exactly when it is at or after a set start and at or before a set end, with invalid dates failing every comparison |
| DateRange.NotAfterTotal | src/components/data-table.tsx:88-90 | any two dates compare one way or the other |
| DateRange.NotAfterAntisymmetric | src/components/data-table.tsx:88-90 | dates that are each not after the other are equal |
| DateRange.NotAfterTransitive | src/components/data-table.tsx:88-90 | the order on dates is transitive |
| DateRange.DateOnlyIsMidnight | src/components/data-table.tsx:69-72 | a cell "M/D/YYYY" without a time reads as 00:00:00 of that day |
| DateRange.TimestampRoundTrip | src/components/data-table.tsx:65-81 | a cell "M/D/YYYY H:mm:ss", minutes and seconds padded to two digits, reads back as the date it was written from |
| DateRange.BoundsInclusive | src/components/data-table.tsx:88 | a cell equal to both bounds passes |
| DateRange.UnparsableCell | src/components/data-table.tsx:67-92 | a cell that is not a date ("n/a", which has no year piece) passes when no bound is set and fails once any bound is set |
| DateRange.MissingDatePiece | src/components/data-table.tsx:69-81 | fewer than three slash pieces give an invalid date |
| DateRange.LeadingSpaceRejected | src/components/data-table.tsx:66-67 | a cell starting with a space has an empty date part and never passes |
| ProtectedView.RouteSecret | src/components/ProtectedView.tsx:16-21 | "/" needs NEXT_PUBLIC_SITE_PASS, "/fd-command" needs NEXT_PUBLIC_FTD_COMMAND_PASS, and every other path needs nothing |
| ProtectedView.TokenKey | src/components/ProtectedView.tsx:27-28 | "public_jwt_token" for "/", "command_jwt_token" for any other path |
| ProtectedView.StartVerify | src/components/ProtectedView.tsx:23-39 | no check for an unprotected path; a missing or empty token only marks the path checked; otherwise the stored token is sent with the path |
| ProtectedView.Step | src/components/ProtectedView.tsx:30-44 | neither flag ever goes back; logged in exactly after a valid verdict or an unlock; checked exactly after a verdict or the no-token case |
| ProtectedView.EffectEvent | src/components/ProtectedView.tsx:30-44 | the effect ends with no event, the no-token event, or the endpoint's verdict |
| ProtectedView.Render | src/components/ProtectedView.tsx:51-63 | unprotected paths show the children; protected ones show nothing until checked, then the login modal for the path's secret until logged in, then the children |
| ProtectedView.RunMonotone | src/components/ProtectedView.tsx:43-57 | over any sequence of events `loggedIn` and `checked` only change from false to true |
| ProtectedView.LoggedInExactlyAfterGrant | src/components/ProtectedView.tsx:43-57 | the view is logged in after a run exactly when it was before or some event was a valid verdict or an unlock |
| ProtectedView.UnprotectedPath | src/components/ProtectedView.tsx:24 | an unprotected path shows its children in every state and runs no check |
| ProtectedView.NoTokenShowsLogin | src/components/ProtectedView.tsx:30-33 | without a token the path ends checked, not logged in, and showing the login modal |
| ProtectedView.VerdictDecides | src/components/ProtectedView.tsx:41-63 | a valid token shows the children; an invalid one shows the login modal until it is unlocked |

## Left out

- Fetching, CSV parsing and the `catch` paths of the fetch helpers. The model starts from the parsed rows and takes a cell to be a string.
- The fetches and CSV parses in `fetchAllData.ts` and `fetchCurrentEMRs.ts`. `fetchAllData` returns the parsed rows as they are; the `slice(2)` of `fetchCurrentEMRs` is `CurrentEmrs.FetchCurrentEmrs`.
- The pipelines of `employee-stats-table.tsx` and `monthly-session-stats-table.tsx`. They call a `mapEmployeeData` that is not defined in the file they import from, and call `mappedMonthlySessionData` with one argument. Their name filter is the predicate `CurrentEmrs.TableRows` uses, applied to the "Employee Name" key.
- React rendering, toasts, the `submitting` flag and the data refresh after a submit. @tanstack/react-table sorting and pagination, the route handlers under `src/app/api`, `src/lib/auth.ts` and `LoginModal.tsx` are also out.
- The BBCode report generator and markup editor are not part of this model.
- The date picker's output and date-fns `format("PPP")`. The session form's date is a year, month and day; `MM/dd/yyyy` is `SessionForm.FormatDate`.
- Text.NumberOf: reads decimal integers only. Decimals, exponents, hex and "Infinity" give NaN here although JavaScript reads them as numbers. Integers are unbounded, so digit strings beyond 2^53 are not rounded to the nearest double as JavaScript rounds them.
- Text.ParseInt: integers are unbounded. JavaScript's `parseInt` returns a double, so a digit run beyond 2^53 rounds: "9007199254740993" reads as 9007199254740992, and the hour of `formatTime12h` then differs from the model's.
- Text.Capitalize: uppercases ASCII letters only, so the result always has the key's length. JavaScript's `toUpperCase` maps some characters to several ("ß" becomes "SS").
- Text.Lower: maps ASCII letters only. JavaScript's full Unicode case mapping is not modelled.
- EmployeeStats.Aggregate: lists names in first-occurrence order. `Object.entries` lists integer-like names first, in numeric order.
- EmployeeStats.Aggregate: counts into a map, not into a plain object `{}`. In the source a trimmed name that is an `Object.prototype` property breaks the count. "__proto__" goes through the prototype setter, which ignores the value, so its rows never appear. "constructor", "toString", "valueOf", "hasOwnProperty" and the other inherited names start from the inherited function, so their total becomes a string such as "function toString() { [native code] }1". The model's distinct names, totals of at least 1 and sum hold only for names that are not such properties.
- EmployeeStats.Tally: adds 1 for every name. In the source the increment `(aggregated[name] || 0) + 1` on an `Object.prototype` name gives a string, or for "__proto__" nothing at all.
- EmployeeStats.AggregateCounts: a name's total equals its number of occurrences only for names that are not `Object.prototype` properties; for those the source keeps a string or, for "__proto__", no entry.
- EmployeeStats.UniqueEmployeeRows: the totals add up to the kept rows only when no trimmed name is an `Object.prototype` property; rows named "__proto__" are lost in the source.
- EmployeeStats.UniqueEmployeeTotals: the per-name totals equal the matching-row counts only for names that are not `Object.prototype` properties.
- Columns.PlainColumns: takes the first row's key order as given. JavaScript's ordering of integer-like keys is not modelled.
- AllDataFilter.FilteredData: `new Date(text)`, `isBefore` and `isAfter` are an instant parser passed as a parameter, with `None` for Invalid Date. Time zones are not modelled.
- DateRange.DateRangeFilter: bound texts are parsed by a parameter. Cell dates compare field by field without JavaScript's normalisation of out-of-range fields (month 13, day 0) and without its mapping of years 0..99 to 1900..1999. The date range limit of JavaScript's Date is not modelled either.
- DateRange.DateRangeFilter: a missing cell, which makes `split` throw in the source, is not modelled; a cell is always a string.
- Sheet.PageSize: takes the already converted number; the page-size input's conversion from text is not modelled.
- ProtectedView.StartVerify: the token-checking request and its reply are an event carrying the verdict. A failing request is not modelled.
- SessionForm.HandleSubmit: a failed or unreachable request leaves the form as it was; the error toast is not modelled.
- SessionForm.FormatDate: prints the year with at least four digits, so year 0 gives "0000". date-fns `yyyy` prints era years, and year 0 (1 BC) gives "0001". The date picker does not offer such dates.
