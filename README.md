# cast_manage reservation dashboard: a Dafny model

The dashboard shows the reservations of a cast agency. They are read from a spreadsheet endpoint as a list of JSON rows keyed by Japanese column names. This project models the client-side logic between those rows and the table:

- **The booking hook** (`useBookingData`):
  - The row validator drops rows missing 日付, 店舗, キャスト, 名前 or 電話番号.
  - The projection keeps seven fields.
  - The sort state has a toggle rule. The comparator sort is the stable sort ECMA-262 requires of `Array.prototype.sort`.
  - A calendar-day date filter follows the sort.
  - The `sortConfig`/`searchDate` state and its handlers form a class.
- **The dashboard page** (`App`): the global text search, the count of today's reservations and the caption above the table.
- **The search box** (`SearchBar`): the term, the most-recent-first history (no repeats, at most five entries), and the search, clear and key handlers.
- **The date picker** (`ModernDatePicker`):
  - month navigation with year wrap;
  - the month grid of leading blanks, then days 1..n;
  - the 21-year range and the month labels;
  - the clear handler.
- **The date formatters** (`dateUtils`): `formatDate`, `formatDateTime`, `formatDateWithWeekday` and `getRelativeTime`.
- **The avatar helpers** (`UserAvatar`): the initials, the 32-bit string hash that picks the colour, and the size/status/shape class mappings.

Three modules of support code hold the JavaScript semantics the code relies on:

- **JsText:**
  - truthiness and `String(v)`;
  - `<` on strings as lexicographic order on UTF-16 code units;
  - ASCII case mapping;
  - `includes`, `trim` and `split`.
- **Calendar:** proleptic Gregorian day numbers, month lengths and weekdays, plus the 0..99 → 19xx reading of `new Date(y, m, d)`.
- **Decimal:** decimal rendering, zero padding and reading back.

The model does not parse dates. Parsing (`new Date(text)`) is a parameter `DateParser` that returns the local fields of a valid date, or nothing. The clock ("now", "today") is also a parameter.

Files:

- `wrappers.dfy`, `seqs.dfy`: Option and the filter/subsequence laws.
- `js_text.dfy`, `decimal.dfy`, `calendar.dfy`: the support code described above.
- `stable_sort.dfy`: a stable insertion sort driven by a JS comparator, with its laws: sorted, a permutation, stable, and unique among stable sorts.
- `bookings.dfy`, `booking_sort.dfy`, `booking_view.dfy`: the booking hook.
- `global_search.dfy`: the dashboard page.
- `search_bar.dfy`, `date_picker.dfy`, `date_utils.dfy`, `user_avatar.dfy`: the components and formatters.

## Model

| member | source | states |
|---|---|---|
| Bookings.Field | src/hooks/useBookingData.js:34-38 | `row[key]` is the stored string when the key is present and `undefined` otherwise |
| Bookings.IsValidIff | src/hooks/useBookingData.js:32-40 | a row passes the validator exactly when each of 日付, 店舗, キャスト, 名前, 電話番号 is present and non-empty |
| Bookings.ValidRows | src/hooks/useBookingData.js:32-40 | every surviving row is valid |
| Bookings.ValidRowsSpec | src/hooks/useBookingData.js:32-40 | the valid rows are a subsequence of the input (order kept); a row survives iff it is in the input and valid; nothing is dropped iff every row is valid |
| Bookings.Booking.Values | src/App.jsx:36 | `Object.values` lists the seven fields in key creation order |
| Bookings.Project | src/hooks/useBookingData.js:44-52 | the projected record has each of the seven keys with the row's value, copied unchanged, and `undefined` for any other key |
| Bookings.Normalize | src/hooks/useBookingData.js:43-53 | one record per valid row, in order; each record carries the row's seven values and has the five required fields truthy |
| Bookings.NormalizeTrace | src/hooks/useBookingData.js:32-53 | every displayed record is the projection of some valid input row |
| Bookings.NormalizeAppend | src/hooks/useBookingData.js:32-53 | validation plus projection distributes over concatenation of the raw rows |
| BookingSort.ToggleSort | src/hooks/useBookingData.js:56-62 | the key becomes the chosen one; the direction is descending iff the state was that key ascending |
| BookingSort.ToggleTwice | src/hooks/useBookingData.js:56-62 | choosing a key twice keeps the key and flips the direction; the key never returns to unset |
| BookingSort.JsLessAsymmetric | src/hooks/useBookingData.js:71-76 | `a < b` and `b < a` never both hold |
| BookingSort.CompareMeaning | src/hooks/useBookingData.js:67-78 | the descending comparator is the exact negation of the ascending one; a result ≤ 0 means the pair is in order (ascending: not `b < a`; descending: not `a < b`) |
| BookingSort.InOrderOnText | src/hooks/useBookingData.js:71-76 | on rows that have the key, "in order" is reflexive, total and transitive, and antisymmetric up to equal key values |
| BookingSort.TieIffSameValue | src/hooks/useBookingData.js:71-77 | on rows with the key, the comparator returns 0 exactly when the key values are equal |
| BookingSort.ComparatorConsistent | src/hooks/useBookingData.js:67-78 | on rows with the key, the comparator is consistent in the ECMA-262 sense (reflexive ties, sign symmetry, transitivity) |
| BookingSort.SortedMeaning | src/hooks/useBookingData.js:67-78 | the list is sorted by the comparator iff every pair is in order for the key and direction |
| BookingSort.SortBy | src/hooks/useBookingData.js:67-78 | `[...s].sort(cmp)` is a permutation of `s` |
| BookingSort.SortView | src/hooks/useBookingData.js:64-79 | with no (or an empty) key the view is the projected list itself; otherwise a permutation of it |
| BookingSort.SortBySorted | src/hooks/useBookingData.js:67-78 | ascending: no row's key is less than an earlier row's; descending: the reverse |
| BookingSort.TiesAreKeyValue | src/hooks/useBookingData.js:71-77 | the rows tying with a row are exactly those with its key value |
| BookingSort.SortByStable | src/hooks/useBookingData.js:67-78 | rows sharing a key value keep their input order |
| BookingSort.SortUnique | src/hooks/useBookingData.js:67-78 | every sorted, stable permutation equals the model's sort, so any conforming engine gives the same list |
| BookingSort.SortByAllMissing | src/hooks/useBookingData.js:68-77 | a key that no row has leaves the list unchanged |
| BookingSort.MissingKeyIsInconsistent | src/hooks/useBookingData.js:71-77 | with a row lacking the key, the comparator calls `b`~`undefined` and `undefined`~`a` ties while `b` > `a`: it is not consistent |
| StableSort.SortWithPermutation | src/hooks/useBookingData.js:67 | the insertion sort returns a permutation of its input |
| StableSort.SortWithSorted | src/hooks/useBookingData.js:67-78 | under a consistent comparator the result is sorted |
| StableSort.SortWithStable | src/hooks/useBookingData.js:67-78 | under a consistent comparator each group of tying elements keeps its input order |
| StableSort.SortWithUnique | src/hooks/useBookingData.js:67-78 | a sorted permutation that keeps every tie group's order equals the insertion sort |
| StableSort.SortWithAllTies | src/hooks/useBookingData.js:77 | a comparator returning 0 everywhere leaves the list unchanged |
| JsDate.ToDateString | src/hooks/useBookingData.js:87-88 | `toDateString()` is "Invalid Date" exactly for an invalid date, and otherwise determined by the local year, month and day |
| BookingView.DateFiltered | src/hooks/useBookingData.js:82-91 | an empty search date is the identity; the filter never lengthens the list |
| BookingView.DateFilteredSpec | src/hooks/useBookingData.js:85-90 | with a search date: a subsequence holding exactly the rows on that day, never a row with a missing or empty date |
| BookingView.OnDayValidTarget | src/hooks/useBookingData.js:85-90 | for a parseable search date a row matches iff its date parses to the same local year, month and day |
| BookingView.OnDayInvalidTarget | src/hooks/useBookingData.js:86-89 | for an unparseable search date exactly the rows whose non-empty date is unparseable match (both print "Invalid Date") |
| BookingView.ViewSpec | src/hooks/useBookingData.js:32-91 | each shown record is the projection of a valid row; no more records than valid rows; no key and no date give the projected list |
| BookingView.ClearedView | src/hooks/useBookingData.js:83 | with the search date empty the view is the sorted list |
| BookingView.SortCommutesWithFilter | src/hooks/useBookingData.js:64-91 | on rows that all have the key, sort-then-filter equals filter-then-sort |
| BookingView.ViewFilterFirst | src/hooks/useBookingData.js:64-91 | the date filter may run before the sort without changing the view |
| BookingView.RequiredKeysPresent | src/hooks/useBookingData.js:32-53 | every shown row has each of the five required columns (日付, 店舗, キャスト, 名前, 電話番号) as text |
| BookingView.DateFilteredKeysPresent | src/hooks/useBookingData.js:82-91 | the date filter keeps only input rows, so a column every input row has stays present |
| BookingView.ViewSortedByRequiredKey | src/hooks/useBookingData.js:64-91 | after a click on a required column the shown table is in order for that column and direction, holds exactly the rows the date filter keeps, and rows tying on the column keep their input order |
| BookingView.BookingState.constructor | src/hooks/useBookingData.js:4-8 | no rows, no sort key (ascending), empty search date |
| BookingView.BookingState.Receive | src/hooks/useBookingData.js:16 | the fetched rows replace the data; sort and search state unchanged |
| BookingView.BookingState.HandleSort | src/hooks/useBookingData.js:56-62 | the sort state becomes `ToggleSort` of the old one; data and search date unchanged |
| BookingView.BookingState.HandleDateSearch | src/hooks/useBookingData.js:93-95 | only the search date changes, to the given one |
| BookingView.BookingState.ClearSearch | src/hooks/useBookingData.js:97-99 | only the search date changes, to empty; the view becomes the sorted list |
| JsText.ToJsString | src/App.jsx:37 | `String(v)` is the string itself, or "undefined" for a missing field |
| JsText.ToLower | src/App.jsx:34-37 | lower-casing keeps the length and maps each character (ASCII letters) |
| JsText.ToLowerOfUpper | src/App.jsx:34-37 | lower-casing forgets an earlier upper-casing |
| GlobalSearch.SearchFilter | src/App.jsx:31-40 | an empty term returns the rows unchanged (also after the clear handler at :46-48); the result is never longer |
| GlobalSearch.SearchFilterSpec | src/App.jsx:34-39 | a non-empty term gives a subsequence holding exactly the rows with a field whose lower-cased text contains the lower-cased term |
| GlobalSearch.MatchesByKey | src/App.jsx:36-37 | `some` over `Object.values` is "some of the seven keys" |
| GlobalSearch.MissingFieldMatches | src/App.jsx:36-37 | a missing 指名 or メール reads "undefined" and matches terms such as "def" |
| GlobalSearch.SearchIgnoresCase | src/App.jsx:34-37 | an upper-cased term finds the same rows |
| GlobalSearch.SearchIdempotent | src/App.jsx:31-40 | searching the result again with the same term changes nothing |
| GlobalSearch.DatePrefix | src/App.jsx:172 | a missing date gives nothing; a present one its prefix before the first 'T' |
| GlobalSearch.TodayCount | src/App.jsx:170-173 | the count is at most the number of rows |
| GlobalSearch.TodayCountSpec | src/App.jsx:170-173 | a row counts iff its date text up to the first 'T' is today's; the count is the full length iff every row counts |
| GlobalSearch.TodayCountAppend | src/App.jsx:170-173 | the count is additive over concatenation |
| GlobalSearch.CaptionKind | src/App.jsx:235-240 | search caption iff the term is non-empty; filter caption iff no term but a search date; else the all-records caption |
| GlobalSearch.ResultMessageInjective | src/App.jsx:235-240 | two captions are equal iff they are of the same kind and show the same count |
| JsText.TrimEmptyIff | src/components/SearchBar.jsx:24 | `term.trim()` is falsy iff every character of the term is JS white space |
| SearchBar.NewHistory | src/components/SearchBar.jsx:30 | the new history has 1 to 5 entries, the term first |
| SearchBar.NewHistorySpec | src/components/SearchBar.jsx:30 | the term occurs nowhere after the head; the rest are the old entries other than the term, in their order, cut to four |
| SearchBar.NewHistoryNoDuplicates | src/components/SearchBar.jsx:30 | a history without repeats stays without repeats |
| SearchBar.NewHistoryIdempotent | src/components/SearchBar.jsx:30 | searching the head term again leaves the history as it is |
| SearchBar.SearchBox.constructor | src/components/SearchBar.jsx:4-7 | empty term and history, suggestions closed, not focused |
| SearchBar.SearchBox.HandleSearch | src/components/SearchBar.jsx:23-34 | a blank term changes nothing and calls nothing; otherwise the term is set, `onSearch(term)` called, suggestions closed, history updated; history stays bounded and duplicate-free |
| SearchBar.SearchBox.HandleClear | src/components/SearchBar.jsx:36-40 | the term empties, `onClear` is called, suggestions close, the history is unchanged |
| SearchBar.SearchBox.HandleKeyPress | src/components/SearchBar.jsx:42-48 | Enter searches the current term; Escape only closes the suggestions; other keys change nothing |
| SearchBar.SearchBox.Type | src/components/SearchBar.jsx:93 | the term follows the typed text; nothing else changes |
| SearchBar.SearchBox.Focus | src/components/SearchBar.jsx:94-97 | focused with the suggestions open; term and history unchanged |
| DatePicker.Navigate | src/components/ModernDatePicker.jsx:85-101 | the month stays in 0..11; "prev" lowers `year*12 + month` by exactly 1, any other direction raises it by 1 |
| DatePicker.MonthIndexInjective | src/components/ModernDatePicker.jsx:85-101 | `year*12 + month` determines the displayed month |
| DatePicker.NavigateInverse | src/components/ModernDatePicker.jsx:85-101 | "prev" after "next" and "next" after "prev" are the identity; "next" is the calendar's next month |
| DatePicker.StartingDay | src/components/ModernDatePicker.jsx:104-107 | the weekday of the first of the month is in 0..6 |
| DatePicker.MonthLength | src/components/ModernDatePicker.jsx:105-106 | the last day of the month is 28..31 |
| Calendar.DaysInMonth | src/components/ModernDatePicker.jsx:105-106 | month lengths 28..31: 29 exactly for February of a leap year, 28 for February otherwise |
| Calendar.DateConstructorYear | src/components/ModernDatePicker.jsx:104-105 | `new Date(y, m, d)` reads years 0..99 as 1900..1999 and other years as given |
| Calendar.YearLength | src/components/ModernDatePicker.jsx:105-107 | a year has 366 days when leap, 365 otherwise, consistent with the day numbering |
| Calendar.NextMonthWeekday | src/components/ModernDatePicker.jsx:104-107 | the next month starts on the weekday after this month's last day, across year ends too |
| DatePicker.MonthGrid | src/components/ModernDatePicker.jsx:103-122 | the grid has `startingDay + daysInMonth` cells |
| DatePicker.MonthGridColumns | src/components/ModernDatePicker.jsx:103-122 | the leading cells are blank; every day of the month appears exactly once, in the column of its weekday |
| DatePicker.GenerateYearRange | src/components/ModernDatePicker.jsx:124-131 | 21 consecutive years from current−10 to current+10 |
| DatePicker.MonthLabelsSpec | src/components/ModernDatePicker.jsx:133-138 | twelve labels, the i-th being `i+1` followed by 月 |
| DatePicker.Picker.constructor | src/components/ModernDatePicker.jsx:4-10 | closed, calendar panel, no day selected, selected and displayed month both today's |
| DatePicker.Picker.NavigateMonth | src/components/ModernDatePicker.jsx:85-101 | only the displayed month moves, as `Navigate` says |
| DatePicker.Picker.HandleClear | src/components/ModernDatePicker.jsx:74-83 | no selected day; selected and displayed month reset to today's; `onClear` called; panel closed |
| DatePicker.Picker.PickYear | src/components/ModernDatePicker.jsx:194-195 | the year is displayed and the month panel opens; nothing else changes |
| DatePicker.Picker.PickMonth | src/components/ModernDatePicker.jsx:218-219 | the month is displayed and the grid panel returns; nothing else changes |
| DatePicker.Picker.GenerateCalendar | src/components/ModernDatePicker.jsx:103-122 | the two push loops build exactly `MonthGrid` of the displayed month |
| DateUtils.Formatted | src/utils/dateUtils.js:2-6 | every formatter gives "" for an empty text, 無効な日付 for an unparseable one, else its layout of the parsed fields |
| Decimal.IntToStringRoundTrip | src/utils/dateUtils.js:8-14 | the year's decimal text reads back as the year |
| Decimal.Pad2ReadsBack | src/utils/dateUtils.js:9-12 | `String(n).padStart(2, '0')` for n < 100 is two digits reading back as n |
| DateUtils.FormatDateReadsBack | src/utils/dateUtils.js:8-14 | the `formatDate` text reads back as year, month+1, day, hours, minutes |
| DateUtils.FormatDateTimeExtends | src/utils/dateUtils.js:36-43 | `formatDateTime` is the `formatDate` text followed by ':' and two-digit seconds |
| DateUtils.DayEnd | src/utils/dateUtils.js:60 | the day part ends after the year text and the six characters "/MM/DD" |
| DateUtils.FormatDateWithWeekdayInserts | src/utils/dateUtils.js:52-60 | `formatDateWithWeekday` is the `formatDate` text with "(" + 日月火水木金土[weekday] + ")" inserted after the day |
| DateUtils.NestedFloorDiv | src/utils/dateUtils.js:71-73 | flooring minutes, then hours, then days equals flooring the milliseconds by 3600000 and 86400000 |
| DateUtils.RelativeBucketSpec | src/utils/dateUtils.js:70-80 | under a minute (future dates included) is just now; then whole minutes 1..59, hours 1..23, days 1..6; a week or more is absolute |
| DateUtils.GetRelativeTime | src/utils/dateUtils.js:63-68 | an empty text gives ""; an unparseable one gives 無効な日付 |
| DateUtils.RelativeTimeWithinWeek | src/utils/dateUtils.js:75-78 | within a week the text is the bucket's text |
| DateUtils.RelativeTimeAfterWeek | src/utils/dateUtils.js:78-80 | a week or more after the date the text is the `formatDate` text |
| DateUtils.CountTextIsNotJustNow | src/utils/dateUtils.js:75-78 | a count text is never たった今 |
| DateUtils.BucketTextInjective | src/utils/dateUtils.js:75-78 | two buckets have the same text iff they are the same bucket |
| DateUtils.RelativeTextDeterminesBucket | src/utils/dateUtils.js:70-78 | within a week, two clock readings give the same text iff they fall in the same bucket |
| UserAvatar.FirstOrUndefined | src/components/UserAvatar.jsx:16 | `p[0]` in a string sum is the first character, or "undefined" for an empty part |
| UserAvatar.Prefix2 | src/components/UserAvatar.jsx:18 | `substring(0, 2)` is the prefix of length min(2, len) |
| JsText.ToUpper | src/components/UserAvatar.jsx:16-18 | upper-casing keeps the length and maps each character (ASCII letters) |
| JsText.Split | src/components/UserAvatar.jsx:14 | `split` gives at least one part and no part holds the separator |
| JsText.SplitJoin | src/components/UserAvatar.jsx:14 | joining the parts with the separator rebuilds the string |
| JsText.JoinSplit | src/components/UserAvatar.jsx:14 | splitting parts joined by a separator none of them holds gives the parts back |
| JsText.JoinMembers | src/components/UserAvatar.jsx:14 | the characters of a join are the separator and the characters of the parts |
| JsText.SplitCount | src/components/UserAvatar.jsx:14-15 | there are two or more parts iff the separator occurs |
| UserAvatar.InitialsAsWritten | src/components/UserAvatar.jsx:13-18 | a falsy name gives "?"; the code throws exactly when the first and the last space-separated parts are both empty |
| UserAvatar.WrittenFromParts | src/components/UserAvatar.jsx:14-18 | on given parts, the code throws exactly when there are two or more and the first and last are empty |
| UserAvatar.TrailingSpaceInitials | src/components/UserAvatar.jsx:16 | "Taro " gives "TUNDEFINED" |
| UserAvatar.BlankNameThrows | src/components/UserAvatar.jsx:16 | " " makes the code throw |
| UserAvatar.Initials | src/components/UserAvatar.jsx:13-18 | corrected initials: "?" for a falsy name, else one or two characters, never a space or a lower-case ASCII letter |
| UserAvatar.IntendedFromParts | src/components/UserAvatar.jsx:14-18 | over the non-empty parts (words): none gives "?"; one gives its first (up to) two characters upper-cased; two or more give the upper-cased first letters of the first and last word; no space if no part holds one |
| UserAvatar.PartsAgree | src/components/UserAvatar.jsx:14-18 | on parts whose first and last are non-empty, the code as written and the corrected version agree |
| UserAvatar.InitialsIgnoreExtraSpaces | src/components/UserAvatar.jsx:14-18 | a name with a non-space character has the corrected initials of its words joined by single spaces, and the code as written shows exactly those on that squashed name |
| UserAvatar.SquashedWords | src/components/UserAvatar.jsx:14 | the squashed name of such a name is non-empty and splits into its words |
| UserAvatar.WordsOfNonBlank | src/components/UserAvatar.jsx:14 | a name with a non-space character has at least one word |
| UserAvatar.SameWordsSameInitials | src/components/UserAvatar.jsx:14-18 | the corrected initials depend on the words alone |
| UserAvatar.BlankNameInitials | src/components/UserAvatar.jsx:14-18 | a name of spaces only shows "?" in the corrected version, while the code as written throws |
| UserAvatar.TrailingSpaceCorrected | src/components/UserAvatar.jsx:14-18 | "Taro " shows "TA" in the corrected version |
| UserAvatar.InitialsAgree | src/components/UserAvatar.jsx:14-18 | for a name without empty first/last part (no leading or trailing space) the corrected initials are what the code returns: first letters of the first and last parts, or the first two characters, upper-cased |
| UserAvatar.Label | src/components/UserAvatar.jsx:104 | the avatar shows "?" for a falsy name, else the initials |
| JsText.Utf16 | src/components/UserAvatar.jsx:38-39 | `split('')` and `charCodeAt` see the UTF-16 code units, each in 0..65535 |
| UserAvatar.ToInt32 | src/components/UserAvatar.jsx:39-40 | the 32-bit signed value congruent to x modulo 2^32 |
| UserAvatar.HashStepSpec | src/components/UserAvatar.jsx:39-40 | `((a << 5) - a) + c` then `a & a` is `ToInt32(31a + c)` |
| UserAvatar.Hash | src/components/UserAvatar.jsx:38-41 | the fold starts at 0 and always yields a signed 32-bit value |
| UserAvatar.HashIsPolynomial | src/components/UserAvatar.jsx:38-41 | the hash is the base-31 polynomial of the code units wrapped to 32 bits |
| UserAvatar.ColorIndex | src/components/UserAvatar.jsx:43 | `Math.abs(hash) % 10` is in 0..9 |
| UserAvatar.BackgroundColor | src/components/UserAvatar.jsx:22-44 | a falsy name gets bg-gray-400; any other name one of the ten colours, never the fallback |
| UserAvatar.BackgroundColorSpec | src/components/UserAvatar.jsx:25-43 | the colour is the entry at the wrapped polynomial hash of the name |
| UserAvatar.EffectiveSize | src/components/UserAvatar.jsx:46-61 | unknown size keys stand for md; known ones for themselves |
| UserAvatar.SizeClassesIff | src/components/UserAvatar.jsx:46-61 | two sizes get the same classes iff they stand for the same size |
| UserAvatar.EffectiveStatus | src/components/UserAvatar.jsx:63-76 | unknown status keys stand for offline; known ones for themselves |
| UserAvatar.StatusColorIff | src/components/UserAvatar.jsx:63-76 | two statuses get the same dot colour iff they stand for the same status |
| UserAvatar.VariantClasses | src/components/UserAvatar.jsx:78-88 | rounded-lg iff "rounded", rounded-none iff "square", rounded-full for everything else |

## Left out

- Fetching the rows, the loading and error flags, and the `url` effect (src/hooks/useBookingData.js:10-29) are network I/O. The fetched list is the argument of `BookingState.Receive`.
- Saving and loading the history in `localStorage` (src/components/SearchBar.jsx:32, 51-56) is I/O. The history is a plain field.
- `new Date(text)`, time zones and the clock are parameters: a `DateParser` returning the local fields (with a weekday consistent with the calendar), and "now"/"today" passed in. The model does not decide which texts parse, nor that a 'YYYY-MM-DD' search date is read as UTC while other texts are read as local time.
- `toDateString()` is represented by the local day it prints. Its exact text ("Fri Jan 05 2024") is not built, since it is a one-to-one function of that day.
- `toISOString().split('T')[0]` for "today" (src/App.jsx:171) is a parameter string.
- Case mapping covers ASCII letters only. Unicode `toLowerCase`/`toUpperCase` is not modelled.
- JSON values other than strings (numbers, booleans, null) in a row are not modelled; a field is a string or missing.
- BookingSort.SortBySorted: requires every row to have the sort key. The shown rows always have the five required columns (日付, 店舗, キャスト, 名前, 電話番号; `RequiredKeysPresent`), so for those the condition holds and `ViewSortedByRequiredKey` states the result for the view. Only a sort by 指名 or メール can meet rows without the key. A mix of rows with and without the key makes the comparator inconsistent (`MissingKeyIsInconsistent`), and ECMA-262 then leaves the order implementation-defined.
- BookingSort.SortByStable: has the same requirement, which holds for the five required columns; only 指名 and メール are not covered.
- BookingSort.SortUnique: has the same requirement, which holds for the five required columns; only 指名 and メール are not covered.
- The Date object's own arithmetic when it normalises a month index to a year is covered only for the forms the picker uses. In `new Date(y, m + 1, 0)`, `m + 1` may be 12; the model uses the month length directly. Years 0..99 are handled as 19xx.
- `getInitials` indexes UTF-16 code units (`names[0][0]`, `substring`). The model indexes characters, which differs only for characters outside the Basic Multilingual Plane.
- The `handleDateSelect` and `handleDateTimeSelect` handlers of the picker (src/components/ModernDatePicker.jsx:56-72) build `toISOString()` text from a local date; that depends on the time zone.
- Also not modelled from the picker:
  - `formatDisplayDate` (`toLocaleDateString`);
  - the hour/minute selectors;
  - the open/close toggles and the outside-click listener.
- `formatDateForDisplay` (src/utils/dateUtils.js:17-28) is locale formatting via `toLocaleDateString`.
- `generateSuggestions` and the rendering of the search box (src/components/SearchBar.jsx:58 onward) are static display data.
- src/components/Charts.jsx, DateDisplay.jsx, GlobalSearchBar.jsx, AdminPanel.jsx, DataTable.jsx, StatusBadge.jsx and LoadingSpinner.jsx are not part of this model. They are presentation, clock-based floating-point badges, or an unused copy of the search box without history.
- All JSX markup and Tailwind class composition beyond the three class mappings are not modelled.

## Findings

| source | as written | input that shows it | evidently intended | confidence | as-written member | corrected member |
|---|---|---|---|---|---|---|
| src/components/UserAvatar.jsx:14-17 | `names[0][0] + names[names.length - 1][0]` reads `undefined` for an empty first or last part. One empty part gives text with "UNDEFINED" in it; two make the sum `NaN`, whose `toUpperCase` throws. | "Taro " gives "TUNDEFINED"; " " throws a TypeError | initials taken from the words, the non-empty parts: "Taro " → "TA" (one word: its first two characters; no word: "?") | not executed | UserAvatar.InitialsAsWritten (TrailingSpaceInitials, BlankNameThrows) | UserAvatar.Initials (InitialsAgree, InitialsIgnoreExtraSpaces, TrailingSpaceCorrected, BlankNameInitials) |
