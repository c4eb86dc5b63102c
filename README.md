# CoruñaTech calendar — a Dafny model

This project models the calendar of the CoruñaTech events site. The calendar
is built once from the events collection and then browsed in the page:

- **Keys and ranges** (`src/utils/calendar-utils.ts`):
  - the `YYYY-MM-DD` day key and the `YYYY-MM` month key, and `parseKey`,
    which reads a key back with `new Date`;
  - the month span that covers every event and today, and the loop that lists
    its month keys;
  - the bucketing of events by month, the cut of a time group into visible
    and overflow items, and the community links.
- **The month grid** (`src/utils/calendar-data.ts`):
  - `createMonthData` sorts a month's events, files them by day as display
    items, lays out a Monday-first grid padded to whole weeks, and groups each
    day's items by time label, in order of first occurrence;
  - it then cuts the grid into week rows;
  - `createCalendarData` builds a month per month key, lists the weeks of all
    months, and picks the month and week the page opens at.
- **Navigation** (`src/scripts/calendar-navigation.ts`): the page's month and
  week cursors and its mobile (week) or desktop (month) mode. The previous and
  next buttons and the media query move them, and a render step marks the
  active element and sets the label and the buttons.
- **Helpers**: the split of events into upcoming and past, community slugs,
  URL joining, e-mail and blank-value checks.

JavaScript's semantics are written out where the code relies on them:

- **Dates**: ECMA-262 day arithmetic, `Date`'s normalisation of days and
  months that overflow, and its rule that years 0 to 99 mean 1900 to 1999.
- **Numbers and strings**: `Number`, `String`, `padStart`, `split` and `trim`.
- **Arrays**: the stable `sort`, `Array.from` with a callback, `findIndex`, a
  `map` whose callback may throw, and the insertion order of a `Map`.

The locale formatters (`Intl.DateTimeFormat`) are given functions, passed in as
a `Locale` value. The clock read by `separateEventsByDate` is a parameter.

Modules, one per source concern:

- `Wrappers`: `Option` and `Result`.
- `Strings`: number and string conversions.
- `Dates`: the calendar arithmetic.
- `CalendarTypes`: the records of `src/types/calendar.ts`.
- `Grouping`: insertion-ordered bucketing.
- `Sorting`: the stable sort.
- `NavText`: the navigation labels.
- `CalendarUtils`, `CalendarData`, `CommunityUtils`, `UrlUtils`,
  `ValidationUtils`: the source files of the same names.
- `CalendarNavigation`: the navigation script.

State that the code changes in place is modelled imperatively:

- The navigation state and the page's elements are a class. The marks of the
  month and week elements are arrays it updates.
- Each source loop is a method proved equal to a specification function:
  - the month-key loop;
  - the bucketing loops;
  - the week-row loop;
  - the grid's `Array.from`;
  - the `map` over month keys.

The model keeps two behaviours of the code as written:

- The week label's separator is the bytes of an en dash read as Windows-1252
  text (`calendar-data.ts:110`). The navigation label uses a real en dash.
- `parseKey` of a key whose year is below 100 gives a date in the 1900s, and a
  negative year shifts the key's parts. So reading a key back is proved to
  give the same date only from year 100 on (`ParseBuildKey`,
  `ParseKeyTwoDigitYear`, `ParseNegativeKey`). It is proved to give *some*
  date for every valid day (`ParseKeyDefined`). That is why building a month
  never fails in the model, which has no upper limit on dates (see
  "## Left out").

## Model

| member | source | states |
|---|---|---|
| Strings.NatToString | src/utils/calendar-utils.ts:5 | `String(n)` of a natural number is non-empty decimal digits, one digit exactly below 10, with no leading zero |
| Strings.IntToString | src/utils/calendar-utils.ts:11 | `String(i)` is the digits of `i`, preceded by '-' when `i` is negative |
| Strings.JsNumber | src/utils/calendar-utils.ts:14 | `Number(s)` is a number exactly when `s` is all digits (the empty string included), and then it is non-negative |
| Strings.NumberOfNatToString | src/utils/calendar-utils.ts:14 | `Number(String(n))` gives back `n` for every natural number |
| Strings.PadStart2 | src/utils/calendar-utils.ts:5 | `padStart(2, '0')` keeps the string as its suffix, has length max(2, length), and puts only zeros before it |
| Strings.NumberOfPad2 | src/utils/calendar-utils.ts:14 | a two-digit padded number is still digits, and `Number` reads it back as the number |
| Strings.Split | src/utils/calendar-utils.ts:14 | `split` on one character gives at least one part, and no part contains the separator |
| Strings.JoinSplit | src/utils/calendar-utils.ts:14 | joining the parts of a split with the separator gives the original string back |
| Strings.Trim | src/utils/validation-utils.ts:16 | neither end of the result is white space, and the result is empty exactly when the string is all white space |
| Strings.TrimIsSlice | src/utils/validation-utils.ts:16 | `trim` gives one slice of the string, with only white space cut off before and after it |
| Strings.TrimStart | src/utils/calendar-utils.ts:56 | the leading white space is cut off and the rest of the string kept as it is |
| Strings.TrimEnd | src/utils/calendar-utils.ts:56 | the trailing white space is cut off and the rest of the string kept as it is |
| Dates.DaysInMonth | src/utils/calendar-data.ts:30 | a month has 28 to 31 days, and 29 exactly for February of a leap year |
| Dates.DayFromYearFormula | src/utils/calendar-data.ts:68 | the day number of a year's first day, summed year by year, equals ECMA-262's closed DayFromYear formula |
| Dates.Weekday | src/utils/calendar-data.ts:68 | `getDay` is a weekday from 0 to 6 |
| Dates.NormalizeDay | src/utils/calendar-data.ts:73 | the Date constructor's normalisation gives a valid calendar day whose day number is ECMA-262 MakeDay of the year, month and (possibly overflowing) day |
| Dates.LocalDate | src/utils/calendar-utils.ts:15 | `new Date(y, m, d)` is a valid day with MakeDay's day number, after years 0 to 99 are moved to 1900 to 1999 |
| Dates.MakeDateOfValid | src/utils/calendar-utils.ts:15 | a valid day rebuilt from its own fields is itself |
| Dates.LocalDateOfValid | src/utils/calendar-utils.ts:15 | `new Date` of a valid day of a year from 100 on is that day |
| Dates.DayNumberInjective | src/utils/calendar-data.ts:73 | two valid days with the same day number are the same day |
| Dates.TimeOrdersDays | src/utils/calendar-utils.ts:146 | instants of valid date-times are ordered like their days |
| Dates.SetMonth | src/utils/calendar-utils.ts:148 | `setMonth(m)` keeps the time of day and gives the day MakeDay of the same year, month `m` and the same day of the month |
| Dates.SetMonthAdvances | src/utils/calendar-utils.ts:148 | moving a date-time one month on with `setMonth` makes it strictly later, so the month-key loop ends |
| Dates.SetMonthOfFirst | src/utils/calendar-utils.ts:148 | `setMonth` one on from the first of a month is the first of the next month at the same time |
| Dates.FirstOfMonth | src/utils/calendar-utils.ts:132-137 | the first of the month with a given index is a valid day 1 of that very month |
| CalendarUtils.MonthKeyDigits | src/utils/calendar-utils.ts:10-11 | `buildMonthKey` is the year's digits, '-', and the two digits of the month counted from 1 |
| CalendarUtils.BuildKey | src/utils/calendar-utils.ts:4-8 | a day key is its month key, a '-', and the day padded to two digits |
| CalendarUtils.SplitKey | src/utils/calendar-utils.ts:13-14 | a day key of a non-negative year splits on '-' into exactly the year's digits and the padded month and day |
| CalendarUtils.ParseKeyOutcome | src/utils/calendar-utils.ts:13-16 | `parseKey` gives a date exactly when the key's first three '-'-separated parts are all digits, and that date is a valid day at midnight |
| CalendarUtils.ParseBuildKeyParts | src/utils/calendar-utils.ts:13-16 | `parseKey` of a built key of a non-negative year is `new Date` of that year, month and day at midnight |
| CalendarUtils.ParseBuildKey | src/utils/calendar-utils.ts:13-16 | from year 100 on, `parseKey` reads a valid day's key back as that very day at midnight |
| CalendarUtils.ParseKeyTwoDigitYear | src/utils/calendar-utils.ts:15 | the key of 31 December 99 reads back as 31 December 1999: keys of two-digit years do not round-trip |
| CalendarUtils.ParseNegativeKey | src/utils/calendar-utils.ts:14-15 | the key of year `-n` splits with an empty first part, so it reads as year 0, month `n` and day month+1 |
| CalendarUtils.ParseKeyDefined | src/utils/calendar-utils.ts:13-16 | every valid day's key reads back as some date, never the invalid date |
| CalendarUtils.DayKeyInjective | src/utils/calendar-utils.ts:4-8 | distinct valid days from year 100 on have distinct day keys |
| CalendarUtils.ParseMonthKeyOutcome | src/utils/calendar-data.ts:155 | a month key reads as a year and a month exactly when its first two parts are all digits; the year is then non-negative and the month at least −1 |
| CalendarUtils.ParseBuildMonthKey | src/utils/calendar-data.ts:155 | a month key of a non-negative year splits and reads back as its year and its month counted from 0 |
| CalendarUtils.MonthKeyInjective | src/utils/calendar-utils.ts:10-11 | distinct months of non-negative years have distinct month keys |
| CalendarUtils.ShortYear | src/utils/calendar-utils.ts:53 | `String(value).slice(-2)` for every integer: the one digit of 0 to 9, the last two digits from 10 on, '-' and the digit for −9 to −1, and the last two digits of the magnitude from −10 down |
| CalendarUtils.ShortYearOfCentury | src/utils/calendar-utils.ts:53 | from year 10 on, `shortYear` is the year within its century, padded to two digits |
| CalendarUtils.PrepareGroup | src/utils/calendar-utils.ts:74-83 | one column; visible then overflow items are the group's items; at most five are visible; overflow counts the rest |
| CalendarUtils.CollapseLeadingSlashes | src/utils/calendar-utils.ts:92 | a string starting with '/' loses all but one of its leading slashes and keeps the rest of the string after them; any other string is unchanged |
| CalendarUtils.BuildCommunityHref | src/utils/calendar-utils.ts:85-93 | the link ends in `/communities/<community>` and never starts with '//'; unless the base starts with "//" (so for "/" and "/corunatech/" too) the link is the base without one trailing '/', then `/communities/<community>` |
| CalendarUtils.LeadingSlashesKeepTail | src/utils/calendar-utils.ts:92 | collapsing leading slashes keeps the `/communities/<community>` ending |
| CalendarUtils.CommunityHrefDefaultBase | src/utils/calendar-utils.ts:87 | with the default base '/' the link is `/communities/<community>` |
| CalendarUtils.GroupEventsByMonth | src/utils/calendar-utils.ts:102-115 | the loop's map equals the reference bucketing of the events by month key |
| CalendarUtils.MonthBucket | src/utils/calendar-utils.ts:102-115 | a month has a bucket exactly when some event falls in it; no bucket is empty; a bucket holds every copy of each event of its month and nothing else |
| CalendarUtils.Earliest | src/utils/calendar-utils.ts:125-127 | `Math.min` of the times is the time of one of the dates, at or before all of them |
| CalendarUtils.Latest | src/utils/calendar-utils.ts:128-130 | `Math.max` of the times is the time of one of the dates, at or after all of them |
| CalendarUtils.MonthOf | src/utils/calendar-utils.ts:132-137 | `new Date(getFullYear(), getMonth(), 1)` is midnight of a month's first; from year 100 on it is in the date's own month |
| CalendarUtils.FirstOfLocalMonth | src/utils/calendar-utils.ts:132-137 | `new Date(y, m, 1)` is the first of month `m` of the full year of `y` |
| CalendarUtils.ReferenceDates | src/utils/calendar-utils.ts:121-123 | the compared dates are non-empty and valid, and are exactly `now` and the events' dates |
| CalendarUtils.CalculateDateRange | src/utils/calendar-utils.ts:117-140 | both ends of the range are valid midnights of a month's first day |
| CalendarUtils.DateRangeCovers | src/utils/calendar-utils.ts:117-140 | from year 100 on, the range runs from the month of the earliest of the events and `now` to that of the latest, and every event's month and the current month lie within it |
| CalendarUtils.MonthKeySpan | src/utils/calendar-utils.ts:142-152 | the keys of a span of months number one per month, none when the span is empty |
| CalendarUtils.GenerateMonthKeys | src/utils/calendar-utils.ts:142-152 | the loop returns the keys the cursor passes through, and none exactly when the end is before the start |
| CalendarUtils.MonthKeysFromFirst | src/utils/calendar-utils.ts:142-152 | from the first of a month, the loop lists the key of every month from the start's to the end's, once each and in order |
| Grouping.BucketsSpec | src/utils/calendar-utils.ts:105-112 | the insertion-ordered bucketing has a bucket exactly for the keys that occur, each holding that key's elements in input order |
| Grouping.MappedBucketsSpec | src/utils/calendar-data.ts:38-66 | bucketing items made from the elements has the same keys, each bucket the images of that key's elements in order |
| Grouping.BucketCount | src/utils/calendar-utils.ts:105-112 | each copy of an element goes into the bucket of its own key and no other |
| Grouping.BucketsPartition | src/utils/calendar-utils.ts:102-115 | the buckets' keys are exactly the occurring keys, and each bucket is non-empty and equal to its reference bucket |
| Grouping.GroupBy | src/utils/calendar-utils.ts:105-112 | the `Map` filling loop gives the reference bucketing |
| Grouping.GroupMapBy | src/utils/calendar-data.ts:38-66 | the `Map` filling loop that files an item per element gives the reference mapped bucketing |
| Grouping.KeyOrderSpec | src/utils/calendar-data.ts:78-89 | the `Map`'s key order lists each occurring key once, in the order of first occurrence |
| Grouping.GroupInOrder | src/utils/calendar-data.ts:78-89 | the loop and `Array.from(entries())` give the groups in the `Map`'s insertion order |
| Grouping.OrderedBucketsPartition | src/utils/calendar-data.ts:78-89 | the groups have distinct keys, exactly the occurring ones, in order of first occurrence; each is non-empty and holds every copy of its key's elements |
| Grouping.OrderedBucketsMember | src/utils/calendar-data.ts:79-84 | every element is in the group of its own key |
| Grouping.MappedBucketsMember | src/utils/calendar-data.ts:45-50 | every element's item is filed under the element's key |
| Sorting.InsertCount | src/utils/calendar-data.ts:34 | inserting keeps the elements with their multiplicities |
| Sorting.InsertSorted | src/utils/calendar-data.ts:34 | inserting into a sorted sequence keeps it sorted |
| Sorting.SortByCorrect | src/utils/calendar-data.ts:31-34 | the stable sort is ordered by the key, a permutation of the input, and keeps elements with equal keys in input order |
| Sorting.SortBySorted | src/utils/calendar-data.ts:34 | sorting an already sorted sequence changes nothing |
| Sorting.SortByIdempotent | src/utils/calendar-data.ts:34 | sorting twice is sorting once |
| NavText.Capitalize | src/utils/calendar-utils.ts:63 | a word keeps its length and all but its first character; the first is upper-cased exactly when the pattern matches it |
| NavText.RemoveDots | src/utils/calendar-utils.ts:56 | the dots are removed and every other character is kept; a dot-free string is unchanged |
| NavText.RemoveDotsAppend | src/utils/calendar-utils.ts:56 | removing dots works piece by piece, so the kept characters stay in order with their multiplicities |
| NavText.SplitWhitespace | src/utils/calendar-utils.ts:61 | `split(/\s+/)` gives at least one piece, and no piece holds white space |
| NavText.JoinSplitWhitespace | src/utils/calendar-utils.ts:61-65 | the pieces joined with one ' ' are the string with each run of white space made one ' ': no character is lost, added or moved |
| NavText.FormatNavText | src/utils/calendar-utils.ts:55-66 | the label is the value without dots, trimmed, with each white-space run made one ' ', and with exactly the first character of each word upper-cased where the pattern matches it, every other character unchanged; it holds no dot, no white space at either end, and only single spaces between words |
| NavText.FormatNavTextEmpty | src/utils/calendar-utils.ts:56-59 | the label is empty exactly when the value holds nothing but dots and white space |
| NavText.WordsOfInput | src/utils/calendar-utils.ts:60-65 | the capitalised words joined are the cleaned value with its white space squashed, with each word's first character upper-cased where the pattern matches it and nothing else changed |
| NavText.JoinCapitalized | src/utils/calendar-utils.ts:61-65 | pieces without white space, each capitalised and joined by ' ', are the joined pieces with the character at the front and after each ' ' capitalised |
| NavText.WeekNavLabelYear | src/utils/calendar-utils.ts:68-72 | from year 10 on, `buildWeekNavLabel` is the cleaned start label, " – ", the cleaned end label, an apostrophe and the two-digit year of the week's end |
| CalendarData.ToItem | src/utils/calendar-data.ts:50-64 | an item is future exactly when the event is strictly after `now`; it names the community by its known display name, else by its id, and carries the locale's time and date labels |
| CalendarData.StartOffset | src/utils/calendar-data.ts:68 | the Monday-first offset is 0 to 6 |
| CalendarData.WholeWeeks | src/utils/calendar-data.ts:69 | `Math.ceil(n / 7) * 7` is the least multiple of seven at or above `n` |
| CalendarData.Cells | src/utils/calendar-data.ts:71 | `Array.from({length: n}, f)` has `n` entries |
| CalendarData.CellsAt | src/utils/calendar-data.ts:71 | entry `i` of `Array.from` is the callback's result for `i` |
| CalendarData.MonthBounds | src/utils/calendar-data.ts:29-30 | `firstDay` is the first of the grid's month, and `lastDay` is the last day of that same month, even when the month argument overflows |
| CalendarData.GridShape | src/utils/calendar-data.ts:68-69 | the month has 28 to 31 days, and the grid is a multiple of seven cells, at least the offset plus the days and less than a week more |
| CalendarData.MonthLength | src/utils/calendar-data.ts:29-30 | for a year from 100 on and a month 0 to 11, `firstDay` is that month's first and `lastDay` has the calendar month's length |
| CalendarData.CellDates | src/utils/calendar-data.ts:72-75 | cell dates are consecutive days from the month's first; a cell is of the month exactly when its date is in the grid's month, where it is day index−offset+1 |
| CalendarData.GroupByTime | src/utils/calendar-data.ts:78-89 | the day's groups are its items grouped by time label in the `Map`'s insertion order |
| CalendarData.MakeCell | src/utils/calendar-data.ts:71-98 | the callback builds the reference cell for its index |
| CalendarData.FillCells | src/utils/calendar-data.ts:71-98 | the `Array.from` loop gives the cells the callback makes for indices 0 to n−1 |
| CalendarData.BuildDays | src/utils/calendar-data.ts:68-98 | the cells built are the month's reference grid |
| CalendarData.RowsLoop | src/utils/calendar-data.ts:100-118 | the week loop over any row callback gives the reference rows, or the first row's failure |
| CalendarData.BuildWeeks | src/utils/calendar-data.ts:100-118 | the week loop gives the reference rows of the cells |
| CalendarData.RowsTile | src/utils/calendar-data.ts:101-102 | on whole weeks, each row is built from seven consecutive cells, and there is one row per seven cells |
| CalendarData.RowDaysConcat | src/utils/calendar-data.ts:102 | rows of seven consecutive cells, laid end to end, spell out the cells |
| CalendarData.WeeksTile | src/utils/calendar-data.ts:100-118 | on whole weeks the rows tile the cells: seven each, in order, each keyed by its first and last day keys |
| CalendarData.RowsDefined | src/utils/calendar-data.ts:106-111 | when the row callback succeeds on every pair of cells, the loop does not fail |
| CalendarData.WeeksDefined | src/utils/calendar-data.ts:106-111 | when every cell key reads back as a date, building the rows does not fail |
| CalendarData.CreateMonthData | src/utils/calendar-data.ts:20-134 | `createMonthData` builds the reference month, or fails as the formatter would |
| CalendarData.MonthDataKey | src/utils/calendar-data.ts:28 | a month is keyed by its year and month |
| CalendarData.MonthDataDays | src/utils/calendar-data.ts:71-98 | a month's cells are the grid of its items filed by day |
| CalendarData.MonthDataWeeks | src/utils/calendar-data.ts:100-118 | a month's rows are the rows of its cells |
| CalendarData.MonthShape | src/utils/calendar-data.ts:68-118 | a month always builds; it has whole weeks of cells covering the offset and the days, and its rows are its cells seven by seven, in order |
| CalendarData.MonthDataDefined | src/utils/calendar-data.ts:106-107 | every cell key of a grid reads back as a date, so building a month never fails (within the unbounded date range of the model) |
| CalendarData.ItemGrouped | src/utils/calendar-data.ts:79-89 | an item of a day is in the group of its own time label |
| CalendarData.GridCell | src/utils/calendar-data.ts:72-97 | every cell, padding included, is keyed and labelled by the day its index stands for, is today exactly when its key is today's, is of the month exactly when its index is, and has no groups when it is padding |
| CalendarData.CellOfDay | src/utils/calendar-data.ts:71-98 | day `d` of a month (year from 100 on) is cell offset+d−1: keyed by its day key, labelled with its day, marked as of the month, today exactly when its key is today's, and holding its items grouped by time |
| CalendarData.ItemShown | src/utils/calendar-data.ts:76-97 | an item filed under a day shows in that day's cell, in the group of its time label |
| CalendarData.EventFiled | src/utils/calendar-data.ts:38-66 | every event of a month's bucket is filed under its day key as its item |
| CalendarData.EventShown | src/utils/calendar-data.ts:20-98 | every event in its own month's bucket shows in its day's cell of that month, in the group of its time label |
| CalendarData.BucketSorted | src/utils/calendar-data.ts:31-47 | the day buckets of a sorted month are sorted |
| CalendarData.DayItemsInOrder | src/utils/calendar-data.ts:31-66 | a day's items are the items of that day's events, earliest first (ties in bucket order), each copy once |
| CalendarData.MapAll | src/utils/calendar-data.ts:154-164 | a `map` whose callback may throw, when it succeeds, has one result per element |
| CalendarData.MapAllSpec | src/utils/calendar-data.ts:154-164 | the `map` succeeds exactly when every callback does, and then holds their results in order |
| CalendarData.MapEach | src/utils/calendar-data.ts:154-164 | the `map` loop gives the results in order, or the first failure |
| CalendarData.MonthOfKeyDefined | src/utils/calendar-data.ts:154-164 | a month key builds a month exactly when its first two parts are numbers |
| CalendarData.MonthOfKeyKey | src/utils/calendar-data.ts:154-164 | a well-formed month key builds the month with that very key |
| CalendarData.MonthEntries | src/utils/calendar-data.ts:167-171 | a month contributes one entry per week |
| CalendarData.AllWeeksLayout | src/utils/calendar-data.ts:166-172 | week `j` of month `i` is entry `weeks before i + j` of all weeks, tagged with `i` and the month's key |
| CalendarData.AllWeeksLength | src/utils/calendar-data.ts:166-172 | all weeks number the sum of the months' weeks |
| CalendarData.AllWeeksOrigin | src/utils/calendar-data.ts:166-172 | every entry is a week of the month it names, carrying that month's key |
| CalendarData.FindFirst | src/utils/calendar-data.ts:176 | `findIndex` is the first index satisfying the test, or −1 exactly when none does |
| CalendarData.FindFirstOpens | src/utils/calendar-data.ts:175-182 | `Math.max(findIndex, 0)` is the first match, or 0 when there is none |
| CalendarData.CreateCalendarData | src/utils/calendar-data.ts:136-191 | `createCalendarData` builds the reference calendar, or fails with the first month that fails |
| CalendarData.CalendarDefined | src/utils/calendar-data.ts:154-164 | the calendar builds exactly when every month key starts with two numbers |
| CalendarData.CalendarMonths | src/utils/calendar-data.ts:142-172 | there is a month per key, in order, each built from the events bucketed by month; all weeks are the months' weeks; today's key is `now`'s |
| CalendarData.CalendarMonthKey | src/utils/calendar-data.ts:154-164 | the month built from a well-formed key carries that key |
| CalendarData.CalendarCursors | src/utils/calendar-data.ts:174-182 | the page opens at the first month keyed like `now`'s month and the first week showing today, else at 0 |
| CalendarData.CalendarShowsEvent | src/utils/calendar-data.ts:136-191 | every event from year 100 on shows in the month of its month key, in its day's cell, in the group of its time label |
| CommunityUtils.Filter | src/utils/community-utils.ts:7 | `filter` keeps exactly the elements passing the test, and no more elements than it is given; one element is kept exactly when it passes |
| CommunityUtils.FilterAppend | src/utils/community-utils.ts:7 | filtering works piece by piece, so the kept elements stay in input order with their multiplicities |
| CommunityUtils.FilterWithKey | src/utils/community-utils.ts:7-14 | when the test decides all elements of one key alike, the filter keeps all of them in order or none |
| CommunityUtils.FilterPartition | src/utils/community-utils.ts:7-14 | filtering by a test and by its negation splits a sequence in two, multiplicities included |
| CommunityUtils.SeparateEventsByDate | src/utils/community-utils.ts:3-21 | upcoming holds exactly the events strictly after `now`, past those at or before it; upcoming is sorted oldest first and past newest first |
| CommunityUtils.SeparateEventsByDateSplits | src/utils/community-utils.ts:3-21 | upcoming holds the events strictly after `now`, oldest first; past holds those at or before `now`, newest first; together they are the events with their multiplicities |
| CommunityUtils.SeparateEventsByDateStable | src/utils/community-utils.ts:6-18 | events at the same instant keep their input order in whichever list they land in, as the stable sort keeps them |
| CommunityUtils.EventAtNowIsPast | src/utils/community-utils.ts:7-14 | an event dated exactly `now` is past, not upcoming |
| CommunityUtils.GetCommunitySlug | src/utils/community-utils.ts:23-25 | the slug is the id without one trailing ".yaml", or the id itself when there is none |
| CommunityUtils.SlugOfEntry | src/utils/community-utils.ts:24 | the slug of `<name>.yaml` is `<name>`, even when `name` itself ends in ".yaml" |
| UrlUtils.BuildImageUrl | src/utils/url-utils.ts:3-9 | with no site or an empty one the path itself; otherwise the site followed by the path |
| UrlUtils.GetDefaultImage | src/utils/constants.ts:2 | the default image is "/meta.png" |
| UrlUtils.CleanBase | src/utils/url-utils.ts:16 | the base loses exactly one trailing '/' when it has one |
| UrlUtils.CleanPath | src/utils/url-utils.ts:17 | the path starts with '/', gaining one only when it had none |
| UrlUtils.BuildFullUrl | src/utils/url-utils.ts:15-19 | the URL is the cleaned base, one '/', then the path without its leading '/' |
| UrlUtils.FullUrlJoins | src/utils/url-utils.ts:15-19 | a base without a trailing '/' and a path with a leading one are simply joined |
| UrlUtils.FullUrlSlashes | src/utils/url-utils.ts:15-19 | with or without the base's trailing '/' and the path's leading '/', the result has exactly one '/' between them |
| ValidationUtils.IsValidEmail | src/utils/validation-utils.ts:10-13 | an address is accepted exactly when it is a local part, '@', a domain part, '.', and a last part, each non-empty and free of white space and '@' |
| ValidationUtils.ScanMatchesShape | src/utils/validation-utils.ts:10-13 | scanning for the first '@' and a later '.' accepts exactly the strings the expression matches |
| ValidationUtils.ValidEmailOneAt | src/utils/validation-utils.ts:10-13 | an accepted address holds exactly one '@' and no white space |
| ValidationUtils.IsEmpty | src/utils/validation-utils.ts:15-17 | a value is empty exactly when it is null, undefined or only white space |
| ValidationUtils.IsNotEmpty | src/utils/validation-utils.ts:19-21 | a value is non-empty exactly when it is a string with a character other than white space |
| CalendarNavigation.Step | src/scripts/calendar-navigation.ts:132-159 | a media change switches only the mode; a button moves only the cursor of the current mode |
| CalendarNavigation.ButtonMoves | src/scripts/calendar-navigation.ts:132-154 | previous moves the current cursor back one unless it is at 0; next moves it on one unless it is at the last element |
| CalendarNavigation.RunInRange | src/scripts/calendar-navigation.ts:132-159 | cursors that start in range stay in range whatever the inputs |
| CalendarNavigation.ShowOnly | src/scripts/calendar-navigation.ts:39-48 | only the element at the cursor is active and shown; every other one is inactive and hidden |
| CalendarNavigation.HideAll | src/scripts/calendar-navigation.ts:50-53 | every element is inactive and hidden |
| CalendarNavigation.Navigation.constructor | src/scripts/calendar-navigation.ts:17-36 | the state starts at the initial cursors and the media query's mode, and the view is rendered |
| CalendarNavigation.Navigation.UpdateMonthView | src/scripts/calendar-navigation.ts:38-68 | the month at the cursor is shown and every week hidden; the label is the month's nav label; the buttons are disabled at the ends |
| CalendarNavigation.Navigation.UpdateWeekView | src/scripts/calendar-navigation.ts:70-100 | the week at the cursor is shown and every month hidden; the label is the week's nav label; the buttons are disabled at the ends |
| CalendarNavigation.Navigation.DisableNavigation | src/scripts/calendar-navigation.ts:120-130 | the label present is emptied and the buttons present are disabled |
| CalendarNavigation.Navigation.SyncView | src/scripts/calendar-navigation.ts:102-118 | the view of the current mode is rendered; with no elements of that mode, navigation is disabled and the elements are left alone |
| CalendarNavigation.Navigation.HandlePrevious | src/scripts/calendar-navigation.ts:132-142 | the state takes one step back, and the view is rendered again only when it moved; a missing label or button keeps its state, and with no elements of the mode the elements are left alone |
| CalendarNavigation.Navigation.HandleNext | src/scripts/calendar-navigation.ts:144-154 | the state takes one step on, and the view is rendered again only when it moved; a missing label or button keeps its state, and with no elements of the mode the elements are left alone |
| CalendarNavigation.Navigation.HandleMediaChange | src/scripts/calendar-navigation.ts:156-159 | the mode follows the media query, the cursors stay, and the view is rendered again; a missing label or button keeps its state, and with no elements of the mode the elements are left alone |

## Left out

- **Time zones.** A `Date` is a local calendar day plus milliseconds since its
  midnight, and `getTime` is computed from that pair. Daylight-saving shifts,
  and the UTC offset between the build machine and the browser, are not
  modelled.
- **Number parsing.** `Number` of a key part is modelled for decimal digits
  and the empty string only. Signs, white space, exponents and hexadecimal
  forms are absent: they become NaN here, which they are not in JavaScript.
  A part that is not a number gives the invalid date (`None`).
- **Strings.** Strings are sequences of characters. UTF-16 code units,
  surrogate pairs and Unicode case mapping beyond the letters of the
  capitalisation pattern are not modelled.
- **Locale formatters.** `Intl.DateTimeFormat` (`formatTime`,
  `formatDateTime`, the week, month and navigation formatters) are taken as
  given functions of a date, the fields of `Locale`. Their output is not
  modelled. The `RangeError` they throw on an invalid date is the `Failure`
  case.
- **`getWeekdayLabels`** (`calendar-utils.ts:95-100`) only formats seven fixed
  dates through `Intl`, so it is not modelled.
- **`isValidUrl`** (`validation-utils.ts:1-8`) delegates to the platform's
  URL parser, so it is not modelled.
- **`getCommunityEvents`** (`community-utils.ts:27-35`) is an asynchronous
  call into the content collection, so it is not modelled.
- **In-place sort of the shared bucket.** `createMonthData` sorts the month's
  bucket of `eventsByMonth` in place. The model sorts a copy, so the later
  order of that shared bucket is not modelled. No other reader of the map
  depends on it.
- **The dead guard** at `calendar-data.ts:103-105` is not modelled. The loop
  index always stays below the number of cells, so a slice is never empty.
- **The DOM.** The page's elements are abstracted:
  - The month and week elements are arrays of `Flags`: the active class and
    `aria-hidden`.
  - Their `data-nav-label` values are sequences of strings.
  - Whether the label and the buttons exist is a constant.
  - `dataset.view`, the label's text and the buttons' `disabled` are fields.
- **Navigation start-up.** The event-listener wiring, the `Number(...)` read
  of the initial indices from the root's dataset, and the listener fallback
  for older browsers (`calendar-navigation.ts:17-36`, `161-178`) are left
  out. The initial indices and the media query's value are constructor
  parameters.
- **Missing values.** `null` and `undefined` are one case, `None`, in `IsEmpty`
  and `BuildImageUrl`.
- **`communityNames[...]`.** The lookup is a map lookup. Keys inherited from
  `Object.prototype` are not modelled.
- **The month callback.** `createCalendarData` maps each key through the
  specification function `MonthOfKey`, not through the `CreateMonthData`
  method. `CreateMonthData` is proved equal to that function.
- **The time-value limit.** JavaScript clips a time value to ±8.64e15 ms
  (TimeClip, about 275,760 years either side of 1970); beyond it
  `new Date(...)` is the invalid date and the `Intl` formatters throw
  `RangeError`. Dates here are unbounded, so `CalendarData.MonthDataDefined`
  and `CalendarData.CalendarDefined` prove success also for keys such as
  "300000-01", where the site would fail.
- **Year 100 bound.** The event-placement lemmas (`CellOfDay`, `EventShown`,
  `CalendarShowsEvent`, `DateRangeCovers`) require years from 100 on. Below
  that, the Date constructor moves two-digit years into the 1900s, so a key
  does not read back as its own day.
- Grouping.BucketsPartition: does not repeat the per-element multiplicity
  clause, which `Grouping.BucketCount` states for every key and element.
- CalendarData.MapAll: states only the length of a successful result. The
  rest of `map`'s behaviour is in `CalendarData.MapAllSpec`.
