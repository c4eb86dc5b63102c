/**
 * The month grid and the calendar built from it: each month as a Monday-first
 * grid of day cells padded to whole weeks, the events of each day grouped by
 * their time label, the grid cut into week rows, and the weeks of all months
 * in one list with the cursors the page opens at.
 */
module CalendarData {
  import opened Wrappers
  import opened Dates
  import opened CalendarTypes
  import opened Grouping
  import opened Sorting
  import opened CalendarUtils
  import opened NavText

  /** The key of an event's local calendar day. */
  function EventDayKey(e: Event): string {
    DayKey(e.date.date)
  }

  /**
   * The item the grid shows for an event: the community's display name when
   * one is known (else the community itself), the locale's time and date
   * labels, and whether the event is strictly after `now`.
   */
  function ToItem(e: Event, communityNames: map<string, string>, locale: Locale, now: Stamp): (item: CalendarEventItem)
    ensures item.isFuture <==> Time(e.date) > Time(now)
    ensures e.community in communityNames ==> item.communityName == communityNames[e.community]
    ensures e.community !in communityNames ==> item.communityName == e.community
    ensures item.timeLabel == locale.formatTime(e.date) && item.dateLabel == locale.formatDateTime(e.date)
  {
    CalendarEventItem(
      e.id, e.title, e.community,
      if e.community in communityNames then communityNames[e.community] else e.community,
      e.description, e.location, e.duration, e.tags,
      locale.formatTime(e.date), locale.formatDateTime(e.date), e.rsvpLink,
      Time(e.date) > Time(now))
  }

  /** `ToItem` as a function of the event. */
  function ItemMaker(communityNames: map<string, string>, locale: Locale, now: Stamp): Event -> CalendarEventItem {
    e => ToItem(e, communityNames, locale, now)
  }

  /** A month's events, sorted by instant (equal instants in bucket order); none when the month has no bucket. */
  function MonthEvents(eventsByMonth: map<string, seq<Event>>, key: string): seq<Event> {
    if key in eventsByMonth then SortBy(eventsByMonth[key], EventTime) else []
  }

  /** The items of a month by day key. */
  function DayEvents(monthEvents: seq<Event>, communityNames: map<string, string>, locale: Locale, now: Stamp)
    : map<string, seq<CalendarEventItem>>
  {
    MappedBuckets(monthEvents, EventDayKey, ItemMaker(communityNames, locale, now))
  }

  // The grid

  /** `new Date(year, month, 1)`. */
  function FirstDay(year: int, month: int): Date {
    LocalDate(year, month, 1)
  }

  /** `new Date(year, month + 1, 0)`: the last day of the month. */
  function LastDay(year: int, month: int): Date {
    LocalDate(year, month + 1, 0)
  }

  /** Cells before the first of the month in a Monday-first week. */
  function StartOffset(year: int, month: int): (off: int)
    ensures 0 <= off < 7
  {
    (Weekday(FirstDay(year, month)) + 6) % 7
  }

  /** The cells of the grid: the offset and the month's days rounded up to whole weeks. */
  function TotalCells(year: int, month: int): nat {
    WholeWeeks(StartOffset(year, month) + LastDay(year, month).day)
  }

  /** `Math.ceil(cells / 7) * 7`: the cells of the whole weeks that hold `cells` cells. */
  function WholeWeeks(cells: int): (n: nat)
    requires cells >= 0
    ensures n % 7 == 0 && cells <= n < cells + 7
  {
    ((cells + 6) / 7) * 7
  }

  /** The day cell `index` stands for, after `off` padding cells (the day overflows into the months around). */
  function CellDate(year: int, month: int, off: int, index: int): Date {
    LocalDate(year, month, index - off + 1)
  }

  /** The day groups of a cell's items: one per time label, in order of first occurrence. */
  function TimeLabelOf(item: CalendarEventItem): string {
    item.timeLabel
  }

  function ToEventGroup(entry: (string, seq<CalendarEventItem>)): EventGroup {
    EventGroup(entry.0, entry.1)
  }

  function TimeGroups(items: seq<CalendarEventItem>): seq<EventGroup> {
    MapSeq(OrderedBuckets(items, TimeLabelOf), ToEventGroup)
  }

  /** Whether cell `index` is a day of the month itself rather than padding, for `off` padding cells and `last` days. */
  predicate InMonth(off: int, last: int, index: int) {
    var dayNumber := index - off + 1;
    1 <= dayNumber <= last
  }

  /** The items shown in cell `index`: its day's items when it is a day of the month, none in padding. */
  function CellItems(year: int, month: int, off: int, last: int, index: int,
                     dayEvents: map<string, seq<CalendarEventItem>>): seq<CalendarEventItem> {
    var dayKey := DayKey(CellDate(year, month, off, index));
    if InMonth(off, last, index) && dayKey in dayEvents then dayEvents[dayKey] else []
  }

  /** Cell `index` of the grid. */
  function Cell(year: int, month: int, off: int, last: int, index: int,
                dayEvents: map<string, seq<CalendarEventItem>>, todayKey: string): DayCell {
    var date := CellDate(year, month, off, index);
    var dayKey := DayKey(date);
    DayCell(dayKey, date.day, InMonth(off, last, index), dayKey == todayKey,
      TimeGroups(CellItems(year, month, off, last, index, dayEvents)))
  }

  /** `Cell` as a function of the index. */
  function CellMaker(year: int, month: int, off: int, last: int,
                     dayEvents: map<string, seq<CalendarEventItem>>, todayKey: string): int -> DayCell {
    i => Cell(year, month, off, last, i, dayEvents, todayKey)
  }

  lemma CellMakerApply(year: int, month: int, off: int, last: int, index: int,
                       dayEvents: map<string, seq<CalendarEventItem>>, todayKey: string)
    ensures CellMaker(year, month, off, last, dayEvents, todayKey)(index) == Cell(year, month, off, last, index, dayEvents, todayKey)
  {
  }

  /** The cells made for the indices `0` to `n - 1`, in order (`Array.from` with a callback). */
  function Cells(cell: int -> DayCell, n: nat): (cells: seq<DayCell>)
    ensures |cells| == n
  {
    if n == 0 then [] else Cells(cell, n - 1) + [cell(n - 1)]
  }

  /** Entry `i` is the cell made for `i`. */
  lemma {:induction false} CellsAt(cell: int -> DayCell, n: nat, i: nat)
    requires i < n
    ensures Cells(cell, n)[i] == cell(i)
  {
    if i < n - 1 {
      CellsAt(cell, n - 1, i);
    }
  }

  /** The whole grid. */
  function GridDays(year: int, month: int, dayEvents: map<string, seq<CalendarEventItem>>, todayKey: string): seq<DayCell> {
    Cells(CellMaker(year, month, StartOffset(year, month), LastDay(year, month).day, dayEvents, todayKey),
      TotalCells(year, month))
  }

  /** The month index of the grid's month, counted from year 0 (the month argument may overflow). */
  function GridMonth(year: int, month: int): int {
    12 * FullYear(year) + month
  }

  /**
   * The first cell of the month is the first of month `GridMonth`, and the last
   * day of the month is the last day of that same month.
   */
  lemma MonthBounds(year: int, month: int)
    ensures var k := GridMonth(year, month);
      && FirstDay(year, month) == FirstOfMonth(k)
      && LastDay(year, month) == Date(k / 12, k % 12, DaysInMonth(k / 12, k % 12))
  {
    FirstDayBound(year, month);
    LastDayBound(year, month);
  }

  lemma FirstDayBound(year: int, month: int)
    ensures FirstDay(year, month) == FirstOfMonth(GridMonth(year, month))
  {
    MakeDayByMonthIndex(FullYear(year), month, 1);
    DayNumberInjective(FirstDay(year, month), FirstOfMonth(GridMonth(year, month)));
  }

  lemma LastDayBound(year: int, month: int)
    ensures var k := GridMonth(year, month);
      LastDay(year, month) == Date(k / 12, k % 12, DaysInMonth(k / 12, k % 12))
  {
    var k := GridMonth(year, month);
    var y, m := k / 12, k % 12;
    var last := Date(y, m, DaysInMonth(y, m));
    assert 12 * y + m == k;
    MakeDayByMonthIndex(FullYear(year), month + 1, 0);
    assert DayNumber(LastDay(year, month)) == MonthStart(k + 1) - 1;
    MakeDayByMonthIndex(y, m, DaysInMonth(y, m));
    assert DayNumber(last) == MonthStart(k) + DaysInMonth(y, m) - 1;
    MonthStartStep(k);
    DayNumberInjective(LastDay(year, month), last);
  }

  /**
   * The grid is whole weeks: a multiple of seven cells, at least the offset
   * plus the month's days and less than a week more.
   */
  lemma GridShape(year: int, month: int)
    ensures var used := StartOffset(year, month) + LastDay(year, month).day;
      && 28 <= LastDay(year, month).day <= 31
      && TotalCells(year, month) % 7 == 0
      && used <= TotalCells(year, month) < used + 7
  {
    MonthBounds(year, month);
  }

  /** For an ordinary year and month, the month's length is the calendar's. */
  lemma MonthLength(year: int, month: int)
    requires year >= 100 && 0 <= month < 12
    ensures FirstDay(year, month) == Date(year, month, 1)
    ensures LastDay(year, month).day == DaysInMonth(year, month)
  {
    MonthBounds(year, month);
    DivMod12(GridMonth(year, month), year, month);
  }

  /**
   * The cells are consecutive calendar days, and a cell is a day of the month
   * exactly when its date falls in the grid's month, where it is day
   * `index - offset + 1`.
   */
  lemma CellDates(year: int, month: int, index: int)
    ensures var off := StartOffset(year, month);
      && DayNumber(CellDate(year, month, off, index)) == DayNumber(FirstDay(year, month)) + index - off
      && (InMonth(off, LastDay(year, month).day, index) <==> MonthIndex(CellDate(year, month, off, index)) == GridMonth(year, month))
      && (InMonth(off, LastDay(year, month).day, index) ==> CellDate(year, month, off, index).day == index - off + 1)
  {
    var k := GridMonth(year, month);
    var d := CellDate(year, month, StartOffset(year, month), index);
    MonthBounds(year, month);
    MakeDayByMonthIndex(FullYear(year), month, 1);
    MakeDayByMonthIndex(FullYear(year), month, index - StartOffset(year, month) + 1);
    MonthStartStep(k);
    DateInMonth(d);
    if MonthStart(k) <= DayNumber(d) < MonthStart(k + 1) {
      DateOfDayNumber(d, k);
    }
  }

  // The week rows

  /** The separator of the week label: the bytes of an en dash read as Windows-1252 text. */
  const WeekLabelDash: string := " \U{00E2}\U{20AC}\U{201C} "

  /** The message of the `RangeError` a formatter throws for an invalid date. */
  const InvalidTime: string := "Invalid time value"

  function Min(a: int, b: int): int {
    if a < b then a else b
  }

  /**
   * The row of `weekDays`, from its first and its last cell: keyed by their
   * day keys and labelled from the dates those keys read back as; a key that
   * reads back as no date makes the formatter fail.
   */
  function MakeRow(first: DayCell, last: DayCell, weekDays: seq<DayCell>, locale: Locale): Result<MonthWeek> {
    var startDate, endDate := ParseKey(first.key), ParseKey(last.key);
    if startDate.None? || endDate.None? then Failure(InvalidTime)
    else
      Success(MonthWeek(
        first.key + "_" + last.key,
        locale.weekRange(startDate.value) + WeekLabelDash + locale.weekRange(endDate.value),
        BuildWeekNavLabel(locale, startDate.value, endDate.value),
        weekDays))
  }

  /** `MakeRow` as a function value. */
  function RowMaker(locale: Locale): (DayCell, DayCell, seq<DayCell>) -> Result<MonthWeek> {
    (first, last, weekDays) => MakeRow(first, last, weekDays, locale)
  }

  lemma RowMakerApply(first: DayCell, last: DayCell, weekDays: seq<DayCell>, locale: Locale)
    ensures RowMaker(locale)(first, last, weekDays) == MakeRow(first, last, weekDays, locale)
  {
  }

  /** The rows from cell `index` on, one per slice of up to seven cells. */
  function Rows(days: seq<DayCell>, index: nat, row: (DayCell, DayCell, seq<DayCell>) -> Result<MonthWeek>)
    : Result<seq<MonthWeek>>
    decreases |days| - index
  {
    if index >= |days| then Success([])
    else
      var weekDays := days[index..Min(index + 7, |days|)];
      match row(weekDays[0], weekDays[|weekDays| - 1], weekDays)
      case Failure(err) => Failure(err)
      case Success(week) =>
        match Rows(days, index + 7, row)
        case Failure(err) => Failure(err)
        case Success(rest) => Success([week] + rest)
  }

  /** The rows of a month's cells. */
  function WeeksOf(days: seq<DayCell>, locale: Locale): Result<seq<MonthWeek>> {
    Rows(days, 0, RowMaker(locale))
  }

  /** `ws` in front of a successful result; a failure stays. */
  function Prepend<T>(ws: seq<T>, r: Result<seq<T>>): Result<seq<T>> {
    if r.Success? then Success(ws + r.value) else r
  }

  lemma PrependNothing<T>(r: Result<seq<T>>)
    ensures Prepend([], r) == r
  {
    if r.Success? {
      assert [] + r.value == r.value;
    }
  }

  lemma PrependStep<T>(ws: seq<T>, w: T, r: Result<seq<T>>)
    ensures Prepend(ws, if r.Success? then Success([w] + r.value) else r) == Prepend(ws + [w], r)
  {
    if r.Success? {
      assert ws + ([w] + r.value) == (ws + [w]) + r.value;
    }
  }

  /** The week loop: a row per seven cells, pushed in order; the first row that fails fails it. */
  method BuildWeeks(days: seq<DayCell>, locale: Locale) returns (r: Result<seq<MonthWeek>>)
    ensures r == WeeksOf(days, locale)
  {
    r := RowsLoop(days, RowMaker(locale));
  }

  /** The loop of BuildWeeks over any row-making callback. */
  method RowsLoop(days: seq<DayCell>, row: (DayCell, DayCell, seq<DayCell>) -> Result<MonthWeek>)
    returns (r: Result<seq<MonthWeek>>)
    ensures r == Rows(days, 0, row)
  {
    var weeks: seq<MonthWeek> := [];
    var index := 0;
    PrependNothing(Rows(days, 0, row));
    while index < |days|
      invariant Prepend(weeks, Rows(days, index, row)) == Rows(days, 0, row)
      decreases |days| - index
    {
      var weekDays := days[index..Min(index + 7, |days|)];
      var week := row(weekDays[0], weekDays[|weekDays| - 1], weekDays);
      if week.Failure? {
        assert Rows(days, index, row) == Failure(week.error);
        return Failure(week.error);
      }
      var rest := Rows(days, index + 7, row);
      assert Rows(days, index, row) == if rest.Success? then Success([week.value] + rest.value) else rest;
      PrependStep(weeks, week.value, rest);
      weeks := weeks + [week.value];
      index := index + 7;
    }
    assert weeks + [] == weeks;
    return Success(weeks);
  }

  /** The days of the rows, one after another. */
  function RowDays(ws: seq<MonthWeek>): seq<DayCell> {
    if ws == [] then [] else ws[0].days + RowDays(ws[1..])
  }

  /** A row holds the cells it was made from, keyed by the first and the last. */
  lemma MakeRowShape(first: DayCell, last: DayCell, weekDays: seq<DayCell>, locale: Locale)
    requires MakeRow(first, last, weekDays, locale).Success?
    ensures MakeRow(first, last, weekDays, locale).value.days == weekDays
    ensures MakeRow(first, last, weekDays, locale).value.key == first.key + "_" + last.key
  {
  }

  /** `w` is the row made from the seven cells at `p`. */
  predicate RowAt(days: seq<DayCell>, p: int, row: (DayCell, DayCell, seq<DayCell>) -> Result<MonthWeek>, w: MonthWeek) {
    0 <= p && p + 7 <= |days| && row(days[p], days[p + 6], days[p..p + 7]) == Success(w)
  }

  /** On whole weeks, the rows are made from the seven cells at every seventh cell on. */
  lemma {:induction false} RowsTile(days: seq<DayCell>, index: nat, row: (DayCell, DayCell, seq<DayCell>) -> Result<MonthWeek>)
    requires |days| % 7 == 0 && index % 7 == 0 && index <= |days|
    requires Rows(days, index, row).Success?
    ensures |Rows(days, index, row).value| * 7 == |days| - index
    ensures forall k :: 0 <= k < |Rows(days, index, row).value| ==>
      RowAt(days, index + 7 * k, row, Rows(days, index, row).value[k])
    decreases |days| - index
  {
    if index < |days| {
      assert index + 7 <= |days| by {
        assert |days| == 7 * (|days| / 7) && index == 7 * (index / 7);
      }
      RowsTile(days, index + 7, row);
      var ws := Rows(days, index, row).value;
      var rest := Rows(days, index + 7, row).value;
      assert ws == [ws[0]] + rest;
      forall k | 1 <= k < |ws| ensures RowAt(days, index + 7 * k, row, ws[k]) {
        var j := k - 1;
        assert RowAt(days, index + 7 + 7 * j, row, rest[j]);
        assert index + 7 + 7 * j == index + 7 * k;
      }
    }
  }

  /** Rows of seven consecutive cells from `index` on spell out the cells. */
  lemma {:induction false} RowDaysConcat(ws: seq<MonthWeek>, days: seq<DayCell>, index: nat)
    requires index + 7 * |ws| == |days|
    requires forall k :: 0 <= k < |ws| ==> ws[k].days == days[index + 7 * k..index + 7 * k + 7]
    ensures RowDays(ws) == days[index..]
    decreases |ws|
  {
    if ws != [] {
      forall k | 0 <= k < |ws| - 1 ensures ws[1..][k].days == days[index + 7 + 7 * k..index + 7 + 7 * k + 7] {
        assert ws[1..][k] == ws[k + 1];
        assert index + 7 * (k + 1) == index + 7 + 7 * k;
      }
      RowDaysConcat(ws[1..], days, index + 7);
      assert days[index..] == days[index..index + 7] + days[index + 7..];
    } else {
      assert days[index..] == [];
    }
  }

  /**
   * On a grid of whole weeks the week rows tile the cells: seven cells each,
   * in order, each keyed by its first and last day keys.
   */
  lemma WeeksTile(days: seq<DayCell>, locale: Locale)
    requires |days| % 7 == 0 && WeeksOf(days, locale).Success?
    ensures var ws := WeeksOf(days, locale).value;
      && |ws| * 7 == |days|
      && RowDays(ws) == days
      && forall k :: 0 <= k < |ws| ==>
           ws[k].days == days[7 * k..7 * k + 7]
           && ws[k].key == days[7 * k].key + "_" + days[7 * k + 6].key
  {
    var ws := WeeksOf(days, locale).value;
    RowsTile(days, 0, RowMaker(locale));
    forall k | 0 <= k < |ws|
      ensures ws[k].days == days[7 * k..7 * k + 7] && ws[k].key == days[7 * k].key + "_" + days[7 * k + 6].key
    {
      assert RowAt(days, 0 + 7 * k, RowMaker(locale), ws[k]);
      MakeRowShape(days[7 * k], days[7 * k + 6], days[7 * k..7 * k + 7], locale);
    }
    RowDaysConcat(ws, days, 0);
    assert days[0..] == days;
  }

  /** When every cell's key reads back as a date, building the rows does not fail. */
  lemma {:induction false} RowsDefined(days: seq<DayCell>, index: nat, row: (DayCell, DayCell, seq<DayCell>) -> Result<MonthWeek>)
    requires forall a, b, ws :: a in days && b in days ==> row(a, b, ws).Success?
    ensures Rows(days, index, row).Success?
    decreases |days| - index
  {
    if index < |days| {
      RowsDefined(days, index + 7, row);
      var weekDays := days[index..Min(index + 7, |days|)];
      assert weekDays[0] in days && weekDays[|weekDays| - 1] in days;
    }
  }

  lemma WeeksDefined(days: seq<DayCell>, locale: Locale)
    requires forall i :: 0 <= i < |days| ==> ParseKey(days[i].key).Some?
    ensures WeeksOf(days, locale).Success?
  {
    forall a, b, ws | a in days && b in days ensures RowMaker(locale)(a, b, ws).Success? {
      RowMakerApply(a, b, ws, locale);
    }
    RowsDefined(days, 0, RowMaker(locale));
  }

  // A month

  /** The insertion-ordered grouping of a day's items by time label, read back as groups. */
  method GroupByTime(items: seq<CalendarEventItem>) returns (groups: seq<EventGroup>)
    ensures groups == TimeGroups(items)
  {
    var entries := GroupInOrder(items, TimeLabelOf);
    groups := MapSeq(entries, ToEventGroup);
  }

  /** The callback of the grid's `Array.from`: the cell for `index`, with its items grouped by time label. */
  method MakeCell(year: int, month: int, startOffset: int, lastDate: int, index: int,
                  dayEvents: map<string, seq<CalendarEventItem>>, todayKey: string)
    returns (cell: DayCell)
    ensures cell == Cell(year, month, startOffset, lastDate, index, dayEvents, todayKey)
  {
    var dayNumber := index - startOffset + 1;
    var date := LocalDate(year, month, dayNumber);
    assert date == CellDate(year, month, startOffset, index);
    var dayKey := DayKey(date);
    var isCurrentMonth := 1 <= dayNumber <= lastDate;
    var eventsForDay := if isCurrentMonth && dayKey in dayEvents then dayEvents[dayKey] else [];
    assert eventsForDay == CellItems(year, month, startOffset, lastDate, index, dayEvents);
    var groups := GroupByTime(eventsForDay);
    cell := DayCell(dayKey, date.day, isCurrentMonth, dayKey == todayKey, groups);
  }

  /** The cells of the grid, made one by one. */
  method BuildDays(year: int, month: int, dayEvents: map<string, seq<CalendarEventItem>>, todayKey: string)
    returns (days: seq<DayCell>)
    ensures days == GridDays(year, month, dayEvents, todayKey)
  {
    var startOffset := StartOffset(year, month);
    var lastDate := LastDay(year, month).day;
    var totalCells := TotalCells(year, month);
    days := FillCells(year, month, startOffset, lastDate, totalCells, dayEvents, todayKey);
  }

  /** The `Array.from` of the grid: `n` cells, each made by the callback. */
  method FillCells(year: int, month: int, startOffset: int, lastDate: int, n: nat,
                   dayEvents: map<string, seq<CalendarEventItem>>, todayKey: string)
    returns (days: seq<DayCell>)
    ensures days == Cells(CellMaker(year, month, startOffset, lastDate, dayEvents, todayKey), n)
  {
    days := [];
    for index := 0 to n
      invariant days == Cells(CellMaker(year, month, startOffset, lastDate, dayEvents, todayKey), index)
    {
      var cell := MakeCell(year, month, startOffset, lastDate, index, dayEvents, todayKey);
      CellMakerApply(year, month, startOffset, lastDate, index, dayEvents, todayKey);
      days := days + [cell];
    }
  }

  /** The cells of a month: the grid of the month's sorted events, filed by day as items. */
  function MonthDays(year: int, month: int, eventsByMonth: map<string, seq<Event>>,
                     communityNames: map<string, string>, now: Stamp, todayKey: string, locale: Locale): seq<DayCell>
  {
    GridDays(year, month, DayEvents(MonthEvents(eventsByMonth, BuildMonthKey(year, month)), communityNames, locale, now), todayKey)
  }

  /** A month as `createMonthData` builds it; building its rows fails only on a cell key that reads back as no date. */
  function MonthDataOf(year: int, month: int, eventsByMonth: map<string, seq<Event>>,
                       communityNames: map<string, string>, now: Stamp, todayKey: string, locale: Locale): Result<MonthData>
  {
    var key := BuildMonthKey(year, month);
    var days := MonthDays(year, month, eventsByMonth, communityNames, now, todayKey, locale);
    var firstDay := Stamp(FirstDay(year, month), 0);
    match WeeksOf(days, locale)
    case Failure(err) => Failure(err)
    case Success(weeks) =>
      Success(MonthData(key, locale.monthLong(firstDay), FormatNavText(locale.monthNav(firstDay)), days, weeks))
  }

  /** `createMonthData`: sort the month's bucket, file its items by day, lay out the grid and cut it into rows. */
  method CreateMonthData(year: int, month: int, eventsByMonth: map<string, seq<Event>>,
                         communityNames: map<string, string>, now: Stamp, todayKey: string, locale: Locale)
    returns (r: Result<MonthData>)
    ensures r == MonthDataOf(year, month, eventsByMonth, communityNames, now, todayKey, locale)
  {
    var key := BuildMonthKey(year, month);
    var firstDay := Stamp(FirstDay(year, month), 0);
    var monthEvents := if key in eventsByMonth then SortBy(eventsByMonth[key], EventTime) else [];
    var dayEvents := GroupMapBy(monthEvents, EventDayKey, ItemMaker(communityNames, locale, now));
    var days := BuildDays(year, month, dayEvents, todayKey);
    var weeks := BuildWeeks(days, locale);
    if weeks.Failure? {
      return Failure(weeks.error);
    }
    var monthLabel := locale.monthLong(firstDay);
    var monthNavLabel := FormatNavText(locale.monthNav(firstDay));
    r := Success(MonthData(key, monthLabel, monthNavLabel, days, weeks.value));
  }

  /** A month is keyed by its year and month. */
  lemma MonthDataKey(year: int, month: int, eventsByMonth: map<string, seq<Event>>,
                     communityNames: map<string, string>, now: Stamp, todayKey: string, locale: Locale)
    requires MonthDataOf(year, month, eventsByMonth, communityNames, now, todayKey, locale).Success?
    ensures MonthDataOf(year, month, eventsByMonth, communityNames, now, todayKey, locale).value.key == BuildMonthKey(year, month)
  {
  }

  /** A month's cells are the grid of its items by day. */
  lemma MonthDataDays(year: int, month: int, eventsByMonth: map<string, seq<Event>>,
                      communityNames: map<string, string>, now: Stamp, todayKey: string, locale: Locale)
    requires MonthDataOf(year, month, eventsByMonth, communityNames, now, todayKey, locale).Success?
    ensures MonthDataOf(year, month, eventsByMonth, communityNames, now, todayKey, locale).value.days
        == MonthDays(year, month, eventsByMonth, communityNames, now, todayKey, locale)
  {
  }

  /** A month's rows are the rows of its cells. */
  lemma MonthDataWeeks(year: int, month: int, eventsByMonth: map<string, seq<Event>>,
                       communityNames: map<string, string>, now: Stamp, todayKey: string, locale: Locale)
    requires MonthDataOf(year, month, eventsByMonth, communityNames, now, todayKey, locale).Success?
    ensures var md := MonthDataOf(year, month, eventsByMonth, communityNames, now, todayKey, locale).value;
      WeeksOf(md.days, locale) == Success(md.weeks)
  {
  }

  /**
   * A month is whole weeks: its cells are a multiple of seven, at least the
   * offset plus the month's days and less than a week more, and its rows are
   * its cells seven by seven, in order.
   */
  lemma MonthShape(year: int, month: int, eventsByMonth: map<string, seq<Event>>,
                   communityNames: map<string, string>, now: Stamp, todayKey: string, locale: Locale)
    ensures var r := MonthDataOf(year, month, eventsByMonth, communityNames, now, todayKey, locale);
      var used := StartOffset(year, month) + LastDay(year, month).day;
      && r.Success?
      && |r.value.days| % 7 == 0
      && used <= |r.value.days| < used + 7
      && |r.value.weeks| * 7 == |r.value.days|
      && RowDays(r.value.weeks) == r.value.days
      && forall k :: 0 <= k < |r.value.weeks| ==> r.value.weeks[k].days == r.value.days[7 * k..7 * k + 7]
  {
    MonthDataDefined(year, month, eventsByMonth, communityNames, now, todayKey, locale);
    MonthDataDays(year, month, eventsByMonth, communityNames, now, todayKey, locale);
    MonthDataWeeks(year, month, eventsByMonth, communityNames, now, todayKey, locale);
    GridShape(year, month);
    var md := MonthDataOf(year, month, eventsByMonth, communityNames, now, todayKey, locale).value;
    WeeksTile(md.days, locale);
  }

  /** Every cell key of a grid reads back as a date, so building a month never fails. */
  lemma MonthDataDefined(year: int, month: int, eventsByMonth: map<string, seq<Event>>,
                         communityNames: map<string, string>, now: Stamp, todayKey: string, locale: Locale)
    ensures MonthDataOf(year, month, eventsByMonth, communityNames, now, todayKey, locale).Success?
  {
    var key := BuildMonthKey(year, month);
    var dayEvents := DayEvents(MonthEvents(eventsByMonth, key), communityNames, locale, now);
    var days := GridDays(year, month, dayEvents, todayKey);
    forall i | 0 <= i < |days| ensures ParseKey(days[i].key).Some? {
      CellsAt(CellMaker(year, month, StartOffset(year, month), LastDay(year, month).day, dayEvents, todayKey), |days|, i);
      CellMakerApply(year, month, StartOffset(year, month), LastDay(year, month).day, i, dayEvents, todayKey);
      ParseKeyDefined(CellDate(year, month, StartOffset(year, month), i));
    }
    WeeksDefined(days, locale);
  }

  // What a month shows

  /** An item of a day sits in the group of its time label. */
  lemma ItemGrouped(items: seq<CalendarEventItem>, item: CalendarEventItem)
    requires item in items
    ensures exists g :: g in TimeGroups(items) && g.timeLabel == item.timeLabel && item in g.items
  {
    OrderedBucketsMember(items, TimeLabelOf, item);
    var gs := OrderedBuckets(items, TimeLabelOf);
    var j :| 0 <= j < |gs| && gs[j].0 == TimeLabelOf(item) && item in gs[j].1;
    assert TimeGroups(items)[j] == ToEventGroup(gs[j]);
  }

  /** The cell `off + day - 1` after `off` padding cells stands for the day itself. */
  lemma CellDateOfDay(year: int, month: int, off: int, d: Date)
    requires year >= 100 && d.Valid() && d.year == year && d.month == month
    ensures CellDate(year, month, off, off + d.day - 1) == d
  {
    LocalDateOfValid(d);
    assert off + d.day - 1 - off + 1 == d.day;
  }

  /** A day of an ordinary month is the in-month cell `offset + day - 1` of the month's grid. */
  lemma DayCellIndex(year: int, month: int, d: Date)
    requires year >= 100 && d.Valid() && d.year == year && d.month == month
    ensures var off := StartOffset(year, month);
      var i := off + d.day - 1;
      && 0 <= i < TotalCells(year, month)
      && InMonth(off, LastDay(year, month).day, i)
  {
    MonthLength(year, month);
    GridShape(year, month);
  }

  /**
   * `cell` is the cell of day `d`: keyed by the day, labelled with its day of
   * the month, marked as of the month, today exactly when its key is today's,
   * and holding the day's items grouped by time label.
   */
  predicate CellOfDate(cell: DayCell, d: Date, dayEvents: map<string, seq<CalendarEventItem>>, todayKey: string) {
    && cell.key == DayKey(d)
    && cell.dayLabel == d.day
    && cell.isCurrentMonth
    && (cell.isToday <==> DayKey(d) == todayKey)
    && cell.groups == TimeGroups(if DayKey(d) in dayEvents then dayEvents[DayKey(d)] else [])
  }

  /**
   * The cell of a day of an ordinary month: keyed by the day, marked as of the
   * month, today exactly when its key is today's, and holding the day's items
   * grouped by time label.
   */
  lemma CellOfDay(year: int, month: int, dayEvents: map<string, seq<CalendarEventItem>>, todayKey: string, d: Date, i: int)
    requires year >= 100 && d.Valid() && d.year == year && d.month == month
    requires i == StartOffset(year, month) + d.day - 1
    ensures 0 <= i < |GridDays(year, month, dayEvents, todayKey)|
    ensures CellOfDate(GridDays(year, month, dayEvents, todayKey)[i], d, dayEvents, todayKey)
  {
    DayCellFacts(year, month, d, i);
    CellOfGrid(year, month, i, dayEvents, todayKey, d);
  }

  /** Day `d` of an ordinary month is the in-month cell `i` of its grid, dated `d`. */
  lemma DayCellFacts(year: int, month: int, d: Date, i: int)
    requires year >= 100 && d.Valid() && d.year == year && d.month == month
    requires i == StartOffset(year, month) + d.day - 1
    ensures 0 <= i < TotalCells(year, month)
    ensures CellDate(year, month, StartOffset(year, month), i) == d
    ensures InMonth(StartOffset(year, month), LastDay(year, month).day, i)
  {
    DayCellIndex(year, month, d);
    CellDateOfDay(year, month, StartOffset(year, month), d);
  }

  /** The grid's cell at an in-month index whose date is `d`. */
  lemma CellOfGrid(year: int, month: int, i: int, dayEvents: map<string, seq<CalendarEventItem>>, todayKey: string, d: Date)
    requires 0 <= i < TotalCells(year, month)
    requires CellDate(year, month, StartOffset(year, month), i) == d
    requires InMonth(StartOffset(year, month), LastDay(year, month).day, i)
    ensures i < |GridDays(year, month, dayEvents, todayKey)|
    ensures CellOfDate(GridDays(year, month, dayEvents, todayKey)[i], d, dayEvents, todayKey)
  {
    CellOfIndex(year, month, StartOffset(year, month), LastDay(year, month).day, TotalCells(year, month), i, dayEvents, todayKey, d);
  }

  /** The cell at an in-month index whose date is `d`, in a grid of any size. */
  lemma CellOfIndex(year: int, month: int, off: int, last: int, n: nat, i: int,
                    dayEvents: map<string, seq<CalendarEventItem>>, todayKey: string, d: Date)
    requires 0 <= i < n && CellDate(year, month, off, i) == d && InMonth(off, last, i)
    ensures CellOfDate(Cells(CellMaker(year, month, off, last, dayEvents, todayKey), n)[i], d, dayEvents, todayKey)
  {
    CellsAt(CellMaker(year, month, off, last, dayEvents, todayKey), n, i);
    CellMakerApply(year, month, off, last, i, dayEvents, todayKey);
    CellFields(year, month, off, last, i, dayEvents, todayKey, d, Cells(CellMaker(year, month, off, last, dayEvents, todayKey), n)[i]);
  }

  /** The fields of an in-month cell whose date is `d`. */
  lemma CellFields(year: int, month: int, off: int, last: int, i: int,
                   dayEvents: map<string, seq<CalendarEventItem>>, todayKey: string, d: Date, cell: DayCell)
    requires CellDate(year, month, off, i) == d && InMonth(off, last, i)
    requires cell == Cell(year, month, off, last, i, dayEvents, todayKey)
    ensures CellOfDate(cell, d, dayEvents, todayKey)
  {
    assert CellItems(year, month, off, last, i, dayEvents) == if DayKey(d) in dayEvents then dayEvents[DayKey(d)] else [];
  }

  /**
   * Every cell of a grid, padding included: keyed by the day its index stands
   * for, today exactly when that key is today's, of the month exactly when
   * its index is, and without groups when it is padding.
   */
  lemma GridCell(year: int, month: int, dayEvents: map<string, seq<CalendarEventItem>>, todayKey: string, i: int)
    requires 0 <= i < |GridDays(year, month, dayEvents, todayKey)|
    ensures var cell := GridDays(year, month, dayEvents, todayKey)[i];
      var off, last := StartOffset(year, month), LastDay(year, month).day;
      && cell.key == DayKey(CellDate(year, month, off, i))
      && cell.dayLabel == CellDate(year, month, off, i).day
      && (cell.isToday <==> cell.key == todayKey)
      && (cell.isCurrentMonth <==> InMonth(off, last, i))
      && (!InMonth(off, last, i) ==> cell.groups == [])
  {
    var off, last := StartOffset(year, month), LastDay(year, month).day;
    var maker := CellMaker(year, month, off, last, dayEvents, todayKey);
    CellsAt(maker, TotalCells(year, month), i);
    CellMakerApply(year, month, off, last, i, dayEvents, todayKey);
    if !InMonth(off, last, i) {
      assert CellItems(year, month, off, last, i, dayEvents) == [];
      assert OrderedBuckets([], TimeLabelOf) == [];
    }
  }

  /** Cell `i` of `days` is the in-month cell keyed `key`, with a group labelled `timeLabel` that holds `item`. */
  ghost predicate Shows(days: seq<DayCell>, i: int, key: string, timeLabel: string, item: CalendarEventItem) {
    && 0 <= i < |days|
    && days[i].key == key
    && days[i].isCurrentMonth
    && exists g :: g in days[i].groups && g.timeLabel == timeLabel && item in g.items
  }

  /** An item filed under a day of an ordinary month shows in that day's cell, in the group of its time label. */
  lemma ItemShown(year: int, month: int, dayEvents: map<string, seq<CalendarEventItem>>, todayKey: string,
                  d: Date, item: CalendarEventItem)
    requires year >= 100 && d.Valid() && d.year == year && d.month == month
    requires DayKey(d) in dayEvents && item in dayEvents[DayKey(d)]
    ensures Shows(GridDays(year, month, dayEvents, todayKey), StartOffset(year, month) + d.day - 1, DayKey(d), item.timeLabel, item)
  {
    CellOfDay(year, month, dayEvents, todayKey, d, StartOffset(year, month) + d.day - 1);
    ItemGrouped(dayEvents[DayKey(d)], item);
  }

  /** A month's events are filed under their day keys as their items. */
  lemma EventFiled(eventsByMonth: map<string, seq<Event>>, key: string, communityNames: map<string, string>,
                   now: Stamp, locale: Locale, e: Event)
    requires key in eventsByMonth && e in eventsByMonth[key]
    ensures var dayEvents := DayEvents(MonthEvents(eventsByMonth, key), communityNames, locale, now);
      DayKey(e.date.date) in dayEvents && ToItem(e, communityNames, locale, now) in dayEvents[DayKey(e.date.date)]
  {
    var monthEvents := MonthEvents(eventsByMonth, key);
    SortByCorrect(eventsByMonth[key], EventTime);
    assert e in multiset(monthEvents);
    var f := ItemMaker(communityNames, locale, now);
    MappedBucketsMember(monthEvents, EventDayKey, f, e);
    assert f(e) == ToItem(e, communityNames, locale, now);
  }

  /**
   * Every event filed under the key of its own month (of a year from 100 on)
   * shows in that month's cell of its day, in the group of its time label.
   */
  lemma EventShown(eventsByMonth: map<string, seq<Event>>, communityNames: map<string, string>,
                   now: Stamp, todayKey: string, locale: Locale, e: Event)
    requires e.date.date.Valid() && e.date.date.year >= 100
    requires MonthKey(e.date.date) in eventsByMonth && e in eventsByMonth[MonthKey(e.date.date)]
    ensures Shows(MonthDays(e.date.date.year, e.date.date.month, eventsByMonth, communityNames, now, todayKey, locale),
                  StartOffset(e.date.date.year, e.date.date.month) + e.date.date.day - 1,
                  DayKey(e.date.date), locale.formatTime(e.date), ToItem(e, communityNames, locale, now))
  {
    var d := e.date.date;
    var key := MonthKey(d);
    var dayEvents := DayEvents(MonthEvents(eventsByMonth, key), communityNames, locale, now);
    EventFiled(eventsByMonth, key, communityNames, now, locale, e);
    ItemShown(d.year, d.month, dayEvents, todayKey, d, ToItem(e, communityNames, locale, now));
  }

  /** A bucket of a sorted sequence is sorted. */
  lemma {:induction false} BucketSorted<T>(xs: seq<T>, group: T -> string, k: string, key: T -> int)
    requires SortedBy(xs, key)
    ensures SortedBy(Bucket(xs, group, k), key)
    decreases |xs|
  {
    if xs != [] {
      var init, x := xs[..|xs| - 1], xs[|xs| - 1];
      assert SortedBy(init, key);
      BucketSorted(init, group, k, key);
      BucketMembers(init, group, k);
      forall y | y in init ensures key(y) <= key(x) {
        var i :| 0 <= i < |init| && init[i] == y;
      }
    }
  }

  /**
   * A day's items are the items of that day's events of the month, earliest
   * first (equal instants in bucket order), each copy of such an event once.
   */
  lemma DayItemsInOrder(eventsByMonth: map<string, seq<Event>>, key: string, communityNames: map<string, string>,
                        locale: Locale, now: Stamp, dayKey: string)
    ensures var monthEvents := MonthEvents(eventsByMonth, key);
      var dayEvents := DayEvents(monthEvents, communityNames, locale, now);
      var dayBucket := Bucket(monthEvents, EventDayKey, dayKey);
      && (dayKey in dayEvents ==> dayEvents[dayKey] == MapSeq(dayBucket, ItemMaker(communityNames, locale, now)))
      && SortedBy(dayBucket, EventTime)
      && forall e :: multiset(dayBucket)[e] == if EventDayKey(e) == dayKey then multiset(monthEvents)[e] else 0
  {
    var monthEvents := MonthEvents(eventsByMonth, key);
    if key in eventsByMonth {
      SortByCorrect(eventsByMonth[key], EventTime);
    }
    MappedBucketsSpec(monthEvents, EventDayKey, ItemMaker(communityNames, locale, now), dayKey);
    BucketSorted(monthEvents, EventDayKey, dayKey, EventTime);
    forall e ensures multiset(Bucket(monthEvents, EventDayKey, dayKey))[e]
        == if EventDayKey(e) == dayKey then multiset(monthEvents)[e] else 0 {
      BucketCount(monthEvents, EventDayKey, dayKey, e);
    }
  }

  // The calendar

  /**
   * `Array.prototype.map` with a callback that may throw: the results in order,
   * or the failure of the first element whose callback throws.
   */
  function MapAll<T, U>(xs: seq<T>, f: T -> Result<U>): (r: Result<seq<U>>)
    ensures r.Success? ==> |r.value| == |xs|
  {
    if xs == [] then Success([])
    else
      match MapAll(xs[..|xs| - 1], f)
      case Failure(err) => Failure(err)
      case Success(us) =>
        match f(xs[|xs| - 1])
        case Failure(err) => Failure(err)
        case Success(u) => Success(us + [u])
  }

  /** The map succeeds exactly when every callback does, and then holds their results in order. */
  lemma {:induction false} MapAllSpec<T, U>(xs: seq<T>, f: T -> Result<U>)
    ensures MapAll(xs, f).Success? <==> forall i :: 0 <= i < |xs| ==> f(xs[i]).Success?
    ensures MapAll(xs, f).Success? ==> forall i :: 0 <= i < |xs| ==> MapAll(xs, f).value[i] == f(xs[i]).value
  {
    if xs != [] {
      var init := xs[..|xs| - 1];
      MapAllSpec(init, f);
      assert forall i :: 0 <= i < |init| ==> init[i] == xs[i];
    }
  }

  /** One more element: the map so far, extended by the callback's result unless it fails. */
  lemma MapAllSnoc<T, U>(xs: seq<T>, x: T, f: T -> Result<U>, us: seq<U>)
    requires MapAll(xs, f) == Success(us)
    ensures f(x).Failure? ==> MapAll(xs + [x], f) == Failure(f(x).error)
    ensures f(x).Success? ==> MapAll(xs + [x], f) == Success(us + [f(x).value])
  {
    assert (xs + [x])[..|xs|] == xs;
  }

  /** Once a prefix fails, the whole map fails with the same error. */
  lemma {:induction false} MapAllFailure<T, U>(xs: seq<T>, f: T -> Result<U>, i: nat)
    requires i <= |xs| && MapAll(xs[..i], f).Failure?
    ensures MapAll(xs, f) == MapAll(xs[..i], f)
    decreases |xs| - i
  {
    if i < |xs| {
      assert xs[..i + 1][..i] == xs[..i];
      MapAllFailure(xs, f, i + 1);
    } else {
      assert xs[..i] == xs;
    }
  }

  /**
   * The month of a month key: `key.split('-').map(Number)` gives the year and
   * the month counted from 1; a part that is no number makes every date of the
   * month invalid, and formatting the month label throws.
   */
  function MonthOfKey(key: string, eventsByMonth: map<string, seq<Event>>, communityNames: map<string, string>,
                      now: Stamp, todayKey: string, locale: Locale): Result<MonthData>
  {
    match ParseMonthKey(key)
    case None => Failure(InvalidTime)
    case Some((year, month)) => MonthDataOf(year, month, eventsByMonth, communityNames, now, todayKey, locale)
  }

  /** `MonthOfKey` as a function of the key. */
  function MonthMaker(eventsByMonth: map<string, seq<Event>>, communityNames: map<string, string>,
                      now: Stamp, todayKey: string, locale: Locale): string -> Result<MonthData>
  {
    key => MonthOfKey(key, eventsByMonth, communityNames, now, todayKey, locale)
  }

  lemma MonthMakerApply(key: string, eventsByMonth: map<string, seq<Event>>, communityNames: map<string, string>,
                        now: Stamp, todayKey: string, locale: Locale)
    ensures MonthMaker(eventsByMonth, communityNames, now, todayKey, locale)(key)
         == MonthOfKey(key, eventsByMonth, communityNames, now, todayKey, locale)
  {
  }

  /** A month key makes a month exactly when its first two parts are numbers. */
  lemma MonthOfKeyDefined(key: string, eventsByMonth: map<string, seq<Event>>, communityNames: map<string, string>,
                          now: Stamp, todayKey: string, locale: Locale)
    ensures MonthOfKey(key, eventsByMonth, communityNames, now, todayKey, locale).Success?
        <==> ParseMonthKey(key).Some?
  {
    if ParseMonthKey(key).Some? {
      var (year, month) := ParseMonthKey(key).value;
      MonthDataDefined(year, month, eventsByMonth, communityNames, now, todayKey, locale);
    }
  }

  /** The month of a key is keyed by the key's own year and month, which is the key itself when it is well formed. */
  lemma MonthOfKeyKey(year: int, month: int, eventsByMonth: map<string, seq<Event>>, communityNames: map<string, string>,
                      now: Stamp, todayKey: string, locale: Locale)
    requires year >= 0 && 0 <= month < 12
    ensures var key := BuildMonthKey(year, month);
      var r := MonthOfKey(key, eventsByMonth, communityNames, now, todayKey, locale);
      r.Success? && r.value.key == key
  {
    var key := BuildMonthKey(year, month);
    ParseBuildMonthKey(year, month);
    MonthDataDefined(year, month, eventsByMonth, communityNames, now, todayKey, locale);
    MonthDataKey(year, month, eventsByMonth, communityNames, now, todayKey, locale);
    assert MonthOfKey(key, eventsByMonth, communityNames, now, todayKey, locale)
        == MonthDataOf(year, month, eventsByMonth, communityNames, now, todayKey, locale);
  }

  /**
   * `xs.map(f)` for a callback that may throw: the results in order, or the
   * error of the first call that fails.
   */
  method MapEach<T, U>(xs: seq<T>, f: T -> Result<U>) returns (r: Result<seq<U>>)
    ensures r == MapAll(xs, f)
  {
    var us: seq<U> := [];
    for i := 0 to |xs|
      invariant MapAll(xs[..i], f) == Success(us)
    {
      var u := f(xs[i]);
      MapAllSnoc(xs[..i], xs[i], f, us);
      assert xs[..i] + [xs[i]] == xs[..i + 1];
      if u.Failure? {
        MapAllFailure(xs, f, i + 1);
        return Failure(u.error);
      }
      us := us + [u.value];
    }
    assert xs[..|xs|] == xs;
    r := Success(us);
  }

  /** A week of month `monthIndex` as listed among all weeks: its fields, its month's index and key. */
  function ToEntry(week: MonthWeek, monthIndex: int, monthKey: string): WeekEntry {
    WeekEntry(week.key, week.weekLabel, week.navLabel, week.days, monthIndex, monthKey)
  }

  /** The entries of one month's weeks. */
  function MonthEntries(month: MonthData, monthIndex: int): (entries: seq<WeekEntry>)
    ensures |entries| == |month.weeks|
  {
    seq(|month.weeks|, j requires 0 <= j < |month.weeks| => ToEntry(month.weeks[j], monthIndex, month.key))
  }

  /** The weeks of all months, month after month (`flatMap`). */
  function AllWeeks(months: seq<MonthData>): seq<WeekEntry> {
    if months == [] then []
    else AllWeeks(months[..|months| - 1]) + MonthEntries(months[|months| - 1], |months| - 1)
  }

  /** The number of weeks of the months. */
  function WeekCount(months: seq<MonthData>): nat {
    if months == [] then 0 else WeekCount(months[..|months| - 1]) + |months[|months| - 1].weeks|
  }

  /**
   * Week `j` of month `i` is entry `WeekCount(months[..i]) + j` of all weeks,
   * with month index `i` and the month's key; there are `WeekCount(months)` entries.
   */
  lemma {:induction false} AllWeeksLayout(months: seq<MonthData>, i: nat, j: nat)
    requires i < |months| && j < |months[i].weeks|
    ensures |AllWeeks(months)| == WeekCount(months)
    ensures WeekCount(months[..i]) + j < |AllWeeks(months)|
    ensures AllWeeks(months)[WeekCount(months[..i]) + j] == ToEntry(months[i].weeks[j], i, months[i].key)
  {
    var n := |months|;
    var init := months[..n - 1];
    AllWeeksLength(init);
    if i < n - 1 {
      assert init[..i] == months[..i] && init[i] == months[i];
      AllWeeksLayout(init, i, j);
    } else {
      assert months[..i] == init;
    }
  }

  lemma {:induction false} AllWeeksLength(months: seq<MonthData>)
    ensures |AllWeeks(months)| == WeekCount(months)
  {
    if months != [] {
      AllWeeksLength(months[..|months| - 1]);
    }
  }

  /** Every entry of all weeks is a week of the month it names, and carries that month's key. */
  lemma {:induction false} AllWeeksOrigin(months: seq<MonthData>, p: nat)
    requires p < |AllWeeks(months)|
    ensures var e := AllWeeks(months)[p];
      && 0 <= e.monthIndex < |months|
      && e.monthKey == months[e.monthIndex].key
      && exists j :: 0 <= j < |months[e.monthIndex].weeks| && e == ToEntry(months[e.monthIndex].weeks[j], e.monthIndex, e.monthKey)
  {
    var n := |months|;
    var init := months[..n - 1];
    if p < |AllWeeks(init)| {
      AllWeeksOrigin(init, p);
      var e := AllWeeks(months)[p];
      assert init[e.monthIndex] == months[e.monthIndex];
    } else {
      var j := p - |AllWeeks(init)|;
      assert AllWeeks(months)[p] == MonthEntries(months[n - 1], n - 1)[j];
    }
  }

  /** `findIndex`: the first index whose element satisfies `p`, or -1. */
  function FindFirst<T>(xs: seq<T>, p: T -> bool): (i: int)
    ensures -1 <= i < |xs|
    ensures i >= 0 ==> p(xs[i]) && forall j :: 0 <= j < i ==> !p(xs[j])
    ensures i == -1 ==> forall j :: 0 <= j < |xs| ==> !p(xs[j])
  {
    if xs == [] then -1
    else if p(xs[0]) then 0
    else
      var k := FindFirst(xs[1..], p);
      assert forall j :: 1 <= j < |xs| ==> xs[1..][j - 1] == xs[j];
      if k == -1 then -1 else k + 1
  }

  function Max(a: int, b: int): int {
    if a < b then b else a
  }

  /** Whether a month has the given key. */
  function HasKey(key: string): MonthData -> bool {
    (month: MonthData) => month.key == key
  }

  /** Whether a week shows the day with the given key (`week.days.some(...)`). */
  function ShowsDay(key: string): WeekEntry -> bool {
    (week: WeekEntry) => exists d :: 0 <= d < |week.days| && week.days[d].key == key
  }

  /** `createCalendarData`: today's key, the months of the keys, all their weeks and the cursors the page opens at. */
  function CalendarOf(events: seq<Event>, communityNames: map<string, string>, now: Stamp,
                      monthKeys: seq<string>, locale: Locale): Result<CalendarData>
  {
    var todayKey := DayKey(now.date);
    var eventsByMonth := Buckets(events, EventMonthKey);
    match MapAll(monthKeys, MonthMaker(eventsByMonth, communityNames, now, todayKey, locale))
    case Failure(err) => Failure(err)
    case Success(months) =>
      var allWeeks := AllWeeks(months);
      var currentMonthKey := MonthKey(now.date);
      Success(CalendarData(months, allWeeks,
        Max(FindFirst(months, HasKey(currentMonthKey)), 0),
        Max(FindFirst(allWeeks, ShowsDay(todayKey)), 0),
        todayKey))
  }

  method CreateCalendarData(events: seq<Event>, communityNames: map<string, string>, now: Stamp,
                            monthKeys: seq<string>, locale: Locale)
    returns (r: Result<CalendarData>)
    ensures r == CalendarOf(events, communityNames, now, monthKeys, locale)
  {
    var todayKey := BuildKey(now.date.year, now.date.month, now.date.day);
    var eventsByMonth := GroupEventsByMonth(events);
    var months := MapEach(monthKeys, MonthMaker(eventsByMonth, communityNames, now, todayKey, locale));
    if months.Failure? {
      return Failure(months.error);
    }
    var allWeeks := AllWeeks(months.value);
    var currentMonthKey := BuildMonthKey(now.date.year, now.date.month);
    var initialMonthIndex := Max(FindFirst(months.value, HasKey(currentMonthKey)), 0);
    var initialWeekIndex := Max(FindFirst(allWeeks, ShowsDay(todayKey)), 0);
    r := Success(CalendarData(months.value, allWeeks, initialMonthIndex, initialWeekIndex, todayKey));
  }

  /** The calendar is built exactly when every month key starts with two numbers. */
  lemma CalendarDefined(events: seq<Event>, communityNames: map<string, string>, now: Stamp,
                        monthKeys: seq<string>, locale: Locale)
    ensures CalendarOf(events, communityNames, now, monthKeys, locale).Success?
        <==> forall p :: 0 <= p < |monthKeys| ==> ParseMonthKey(monthKeys[p]).Some?
  {
    var todayKey := DayKey(now.date);
    var eventsByMonth := Buckets(events, EventMonthKey);
    var f := MonthMaker(eventsByMonth, communityNames, now, todayKey, locale);
    MapAllSpec(monthKeys, f);
    forall p | 0 <= p < |monthKeys| ensures f(monthKeys[p]).Success? <==> ParseMonthKey(monthKeys[p]).Some? {
      MonthMakerApply(monthKeys[p], eventsByMonth, communityNames, now, todayKey, locale);
      MonthOfKeyDefined(monthKeys[p], eventsByMonth, communityNames, now, todayKey, locale);
    }
  }

  /**
   * A built calendar has a month per key, in order, each the month of its key
   * over the events bucketed by month; all its weeks are the months' weeks,
   * and today's key is the key of `now`'s day.
   */
  lemma CalendarMonths(events: seq<Event>, communityNames: map<string, string>, now: Stamp,
                       monthKeys: seq<string>, locale: Locale)
    requires CalendarOf(events, communityNames, now, monthKeys, locale).Success?
    ensures var c := CalendarOf(events, communityNames, now, monthKeys, locale).value;
      && |c.months| == |monthKeys|
      && (forall p :: 0 <= p < |monthKeys| ==>
            MonthOfKey(monthKeys[p], Buckets(events, EventMonthKey), communityNames, now, c.todayKey, locale) == Success(c.months[p]))
      && c.allWeeks == AllWeeks(c.months)
      && c.todayKey == DayKey(now.date)
  {
    var todayKey := DayKey(now.date);
    var eventsByMonth := Buckets(events, EventMonthKey);
    var f := MonthMaker(eventsByMonth, communityNames, now, todayKey, locale);
    MapAllSpec(monthKeys, f);
    forall p | 0 <= p < |monthKeys|
      ensures f(monthKeys[p]) == MonthOfKey(monthKeys[p], eventsByMonth, communityNames, now, todayKey, locale)
    {
      MonthMakerApply(monthKeys[p], eventsByMonth, communityNames, now, todayKey, locale);
    }
  }

  /** A month key of a year from 0 on and a month from 0 to 11 makes the month with that very key. */
  lemma CalendarMonthKey(events: seq<Event>, communityNames: map<string, string>, now: Stamp,
                         monthKeys: seq<string>, locale: Locale, p: int, year: int, month: int)
    requires CalendarOf(events, communityNames, now, monthKeys, locale).Success?
    requires 0 <= p < |monthKeys| && year >= 0 && 0 <= month < 12 && monthKeys[p] == BuildMonthKey(year, month)
    ensures CalendarOf(events, communityNames, now, monthKeys, locale).value.months[p].key == monthKeys[p]
  {
    CalendarMonths(events, communityNames, now, monthKeys, locale);
    MonthOfKeyKey(year, month, Buckets(events, EventMonthKey), communityNames, now, DayKey(now.date), locale);
  }

  /**
   * `Math.max(xs.findIndex(p), 0)` is `i`: the first index whose element
   * satisfies `p`, or 0 when none does.
   */
  ghost predicate OpensAt<T>(xs: seq<T>, p: T -> bool, i: int) {
    && 0 <= i && (xs != [] ==> i < |xs|)
    && ((exists j :: 0 <= j < |xs| && p(xs[j])) ==> p(xs[i]) && forall j :: 0 <= j < i ==> !p(xs[j]))
    && ((forall j :: 0 <= j < |xs| ==> !p(xs[j])) ==> i == 0)
  }

  lemma FindFirstOpens<T>(xs: seq<T>, p: T -> bool)
    ensures OpensAt(xs, p, Max(FindFirst(xs, p), 0))
  {
    var i := FindFirst(xs, p);
    if i == -1 {
      assert forall j :: 0 <= j < |xs| ==> !p(xs[j]);
    }
  }

  /**
   * The page opens at the first month keyed like `now`'s month and at the
   * first week that shows today, or at the first month and week when there
   * is none.
   */
  lemma CalendarCursors(events: seq<Event>, communityNames: map<string, string>, now: Stamp,
                        monthKeys: seq<string>, locale: Locale)
    requires CalendarOf(events, communityNames, now, monthKeys, locale).Success?
    ensures var c := CalendarOf(events, communityNames, now, monthKeys, locale).value;
      && OpensAt(c.months, HasKey(MonthKey(now.date)), c.initialMonthIndex)
      && OpensAt(c.allWeeks, ShowsDay(c.todayKey), c.initialWeekIndex)
  {
    var c := CalendarOf(events, communityNames, now, monthKeys, locale).value;
    FindFirstOpens(c.months, HasKey(MonthKey(now.date)));
    FindFirstOpens(c.allWeeks, ShowsDay(c.todayKey));
  }

  /**
   * Every event of a year from 100 on shows in the calendar: in the month of
   * the key that names its month, in the cell of its day, in the group of its
   * time label.
   */
  lemma CalendarShowsEvent(events: seq<Event>, communityNames: map<string, string>, now: Stamp,
                           monthKeys: seq<string>, locale: Locale, e: Event, p: int)
    requires CalendarOf(events, communityNames, now, monthKeys, locale).Success?
    requires e in events && e.date.date.Valid() && e.date.date.year >= 100
    requires 0 <= p < |monthKeys| && monthKeys[p] == MonthKey(e.date.date)
    ensures var d := e.date.date;
      Shows(CalendarOf(events, communityNames, now, monthKeys, locale).value.months[p].days,
            StartOffset(d.year, d.month) + d.day - 1, DayKey(d), locale.formatTime(e.date), ToItem(e, communityNames, locale, now))
  {
    var d := e.date.date;
    var todayKey := DayKey(now.date);
    var eventsByMonth := Buckets(events, EventMonthKey);
    CalendarMonths(events, communityNames, now, monthKeys, locale);
    BucketsSpec(events, EventMonthKey, MonthKey(d));
    assert Occurs(events, EventMonthKey, MonthKey(d));
    InOwnBucket(events, EventMonthKey, e);
    ParseBuildMonthKey(d.year, d.month);
    MonthDataDefined(d.year, d.month, eventsByMonth, communityNames, now, todayKey, locale);
    MonthDataDays(d.year, d.month, eventsByMonth, communityNames, now, todayKey, locale);
    EventShown(eventsByMonth, communityNames, now, todayKey, locale, e);
  }
}
