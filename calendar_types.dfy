/**
 * The records the calendar works with: the event entries it reads and the
 * month, week and day structures it produces for the page.
 */
module CalendarTypes {
  import opened Wrappers
  import opened Dates

  /** An entry of the events collection: the fields the calendar reads. */
  datatype Event = Event(
    id: string,
    title: string,
    description: string,
    date: Stamp,
    endDate: Option<Stamp>,
    duration: Option<string>,
    location: Option<string>,
    rsvpLink: Option<string>,
    tags: seq<string>,
    community: string)

  /** The instant of an event, by which events are sorted. */
  function EventTime(e: Event): int {
    Time(e.date)
  }

  /** One event as the calendar shows it. */
  datatype CalendarEventItem = CalendarEventItem(
    id: string,
    title: string,
    community: string,
    communityName: string,
    description: string,
    location: Option<string>,
    duration: Option<string>,
    tags: seq<string>,
    timeLabel: string,
    dateLabel: string,
    rsvpLink: Option<string>,
    isFuture: bool)

  /** The events of one day that share a formatted time. */
  datatype EventGroup = EventGroup(timeLabel: string, items: seq<CalendarEventItem>)

  /** One cell of a month grid; `dayLabel` (the source's `label`) is the day of the month. */
  datatype DayCell = DayCell(key: string, dayLabel: int, isCurrentMonth: bool, isToday: bool, groups: seq<EventGroup>)

  /** One row of seven cells (`weekLabel` is the source's `label`). */
  datatype MonthWeek = MonthWeek(key: string, weekLabel: string, navLabel: string, days: seq<DayCell>)

  /** A month (`monthLabel` is the source's `label`): its key (`YYYY-MM`), labels, padded grid of cells and the grid's rows. */
  datatype MonthData = MonthData(key: string, monthLabel: string, navLabel: string, days: seq<DayCell>, weeks: seq<MonthWeek>)

  /** A week row tagged with the position and key of the month it comes from. */
  datatype WeekEntry = WeekEntry(
    key: string,
    weekLabel: string,
    navLabel: string,
    days: seq<DayCell>,
    monthIndex: int,
    monthKey: string)

  /** A time group cut to the items shown and the items counted as overflow. */
  datatype PreparedGroup = PreparedGroup(
    columns: int,
    visibleItems: seq<CalendarEventItem>,
    overflowItems: seq<CalendarEventItem>,
    overflow: int)

  /**
   * The locale formatters (`Intl.DateTimeFormat`) the calendar uses, taken as
   * given functions of a date: the time of an event and its full date, the day
   * and short month of a week's ends (for the label and for the navigation), the
   * long month and year, and the short month with a two-digit year.
   */
  datatype Locale = Locale(
    formatTime: Stamp -> string,
    formatDateTime: Stamp -> string,
    weekRange: Stamp -> string,
    weekNav: Stamp -> string,
    monthLong: Stamp -> string,
    monthNav: Stamp -> string)

  /** What `createCalendarData` hands to the page. */
  datatype CalendarData = CalendarData(
    months: seq<MonthData>,
    allWeeks: seq<WeekEntry>,
    initialMonthIndex: int,
    initialWeekIndex: int,
    todayKey: string)
}
