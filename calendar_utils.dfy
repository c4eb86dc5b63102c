/**
 * Calendar keys and ranges: the `YYYY-MM-DD` day key and `YYYY-MM` month key,
 * reading a day key back into a date, the cap on the items a time group shows,
 * community links, the bucketing of events by month, the month span the
 * calendar covers and the enumeration of its month keys.
 */
module CalendarUtils {
  import opened Wrappers
  import opened Strings
  import opened Dates
  import opened CalendarTypes
  import opened Grouping
  import UrlUtils

  /** `YYYY-MM` for a year and a month counted from 0. */
  function BuildMonthKey(year: int, month: int): string {
    IntToString(year) + "-" + PadStart2(IntToString(month + 1))
  }

  /** A month key is the year's digits, '-', and the two digits of the month counted from 1. */
  lemma MonthKeyDigits(year: int, month: int)
    requires 0 <= month < 12
    ensures BuildMonthKey(year, month) == IntToString(year) + "-" + [DigitChar((month + 1) / 10), DigitChar((month + 1) % 10)]
  {
    PaddedTwoDigits(month + 1);
  }

  /** `YYYY-MM-DD` for a year, a month counted from 0 and a day. */
  function BuildKey(year: int, month: int, day: int): (key: string)
    ensures key == BuildMonthKey(year, month) + "-" + PadStart2(IntToString(day))
  {
    IntToString(year) + "-" + PadStart2(IntToString(month + 1)) + "-" + PadStart2(IntToString(day))
  }

  /** The day key of a date's local calendar day. */
  function DayKey(d: Date): string {
    BuildKey(d.year, d.month, d.day)
  }

  /** The month key of a date's local calendar month. */
  function MonthKey(d: Date): string {
    BuildMonthKey(d.year, d.month)
  }

  /**
   * `parseKey`: split on '-', read the first three parts as numbers and build
   * `new Date(year, month - 1, day)`; `None` stands for the invalid date a
   * missing or non-numeric part gives.
   */
  function ParseKey(key: string): Option<Stamp> {
    var parts := Split(key, '-');
    var year := JsNumber(parts[0]);
    var month := if |parts| > 1 then JsNumber(parts[1]) else None;
    var day := if |parts| > 2 then JsNumber(parts[2]) else None;
    DateOfParts(year, month, day)
  }

  /**
   * A key reads as a date exactly when it has three '-'-separated parts
   * before any further ones, each of digits only; the date is then a valid
   * day at midnight.
   */
  lemma ParseKeyOutcome(key: string)
    ensures var parts, r := Split(key, '-'), ParseKey(key);
      && (r.Some? <==> |parts| >= 3 && AllDigits(parts[0]) && AllDigits(parts[1]) && AllDigits(parts[2]))
      && (r.Some? ==> r.value.Valid() && r.value.ms == 0)
  {
  }

  /** `new Date(year, month - 1, day)` at midnight, or `None` when a part is not a number. */
  function DateOfParts(year: Option<int>, month: Option<int>, day: Option<int>): Option<Stamp> {
    if year.Some? && month.Some? && day.Some? then
      Some(Stamp(LocalDate(year.value, month.value - 1, day.value), 0))
    else
      None
  }

  /** The parts of a day key built from a non-negative year. */
  lemma SplitKey(year: nat, month: int, day: int)
    requires -1 <= month && 0 <= day
    ensures Split(BuildKey(year, month, day), '-')
      == [NatToString(year), PadStart2(NatToString(month + 1)), PadStart2(NatToString(day))]
  {
    var y, m, d := NatToString(year), PadStart2(NatToString(month + 1)), PadStart2(NatToString(day));
    PadDigits(NatToString(month + 1));
    PadDigits(NatToString(day));
    assert BuildKey(year, month, day) == y + ['-'] + m + ['-'] + d;
    SplitThree(y, m, d, '-');
  }

  /** `parseKey` on a key whose first three parts are numbers. */
  lemma ParseKeyOfParts(key: string, y: nat, m: nat, d: nat)
    requires |Split(key, '-')| >= 3
    requires JsNumber(Split(key, '-')[0]) == Some(y)
    requires JsNumber(Split(key, '-')[1]) == Some(m)
    requires JsNumber(Split(key, '-')[2]) == Some(d)
    ensures ParseKey(key) == Some(Stamp(LocalDate(y, m - 1, d), 0))
  {
    assert ParseKey(key) == DateOfParts(Some(y), Some(m), Some(d));
  }

  /** The parts of a day key read back as the year, the month counted from 1 and the day. */
  lemma ParseBuildKeyParts(year: nat, month: int, day: int)
    requires -1 <= month && 0 <= day
    ensures ParseKey(BuildKey(year, month, day)) == Some(Stamp(LocalDate(year, month, day), 0))
  {
    SplitKey(year, month, day);
    NumberOfNatToString(year);
    NumberOfPad2(month + 1);
    NumberOfPad2(day);
    ParseKeyOfParts(BuildKey(year, month, day), year, month + 1, day);
  }

  /** A day key built from a negative year: a '-', then the digits of the year, the month and the day joined by '-'. */
  lemma NegativeKeyShape(year: int, month: int, day: int)
    requires year < 0
    ensures BuildKey(year, month, day)
      == ['-'] + (NatToString(-year) + ['-'] + PadStart2(IntToString(month + 1)) + ['-'] + PadStart2(IntToString(day)))
  {
    var n, m, d := NatToString(-year), PadStart2(IntToString(month + 1)), PadStart2(IntToString(day));
    assert BuildKey(year, month, day) == ['-'] + n + ['-'] + m + ['-'] + d;
    Regroup(['-'], n, ['-'], m, ['-'], d);
  }


  /** The parts of a day key built from a negative year: an empty part comes first. */
  lemma SplitKeyNegative(year: int, month: int, day: int)
    requires year < 0 && -1 <= month && 0 <= day
    ensures Split(BuildKey(year, month, day), '-')
      == [[], NatToString(-year), PadStart2(NatToString(month + 1)), PadStart2(NatToString(day))]
  {
    var n, m, d := NatToString(-year), PadStart2(NatToString(month + 1)), PadStart2(NatToString(day));
    PadDigits(NatToString(month + 1));
    PadDigits(NatToString(day));
    NegativeKeyShape(year, month, day);
    SplitLeadingThree(n, m, d, '-');
  }

  /**
   * Reading back a key of a valid date whose year has at least three digits
   * gives that date at midnight.
   */
  lemma ParseBuildKey(year: int, month: int, day: int)
    requires year >= 100 && Date(year, month, day).Valid()
    ensures ParseKey(BuildKey(year, month, day)) == Some(Stamp(Date(year, month, day), 0))
  {
    ParseBuildKeyParts(year, month, day);
    MakeDateOfValid(Date(year, month, day));
  }

  /** A year below 100 does not read back: the Date constructor moves it into the 1900s. */
  lemma ParseKeyTwoDigitYear()
    ensures ParseKey(BuildKey(99, 11, 31)) == Some(Stamp(Date(1999, 11, 31), 0))
  {
    ParseBuildKeyParts(99, 11, 31);
    MakeDateOfValid(Date(1999, 11, 31));
  }

  /**
   * Every key built from a calendar day reads back as a date, so the labels of a
   * grid are never formatted from an invalid date (a negative year starts the
   * key with '-', and its parts shift: the empty first part reads as year 0).
   */
  lemma ParseKeyDefined(d: Date)
    requires d.Valid()
    ensures ParseKey(DayKey(d)).Some?
  {
    if d.year >= 0 {
      ParseBuildKeyParts(d.year, d.month, d.day);
    } else {
      ParseNegativeKey(-d.year, d.month, d.day);
    }
  }

  /** A key of year `-n` reads back through an empty first part: year 0, month `n`, day `month + 1`. */
  lemma ParseNegativeKey(n: nat, month: int, day: int)
    requires n > 0 && -1 <= month && 0 <= day
    ensures ParseKey(BuildKey(0 - n, month, day)) == Some(Stamp(LocalDate(0, n - 1, month + 1), 0))
  {
    var key := BuildKey(0 - n, month, day);
    SplitKeyNegative(0 - n, month, day);
    NumberOfNatToString(n);
    NumberOfPad2(month + 1);
    assert JsNumber([]) == Some(0);
    ParseKeyOfParts(key, 0, n, month + 1);
  }

  /** Day keys of valid dates with years of three or more digits are distinct. */
  lemma DayKeyInjective(a: Date, b: Date)
    requires a.Valid() && b.Valid() && a.year >= 100 && b.year >= 100
    requires DayKey(a) == DayKey(b)
    ensures a == b
  {
    ParseBuildKey(a.year, a.month, a.day);
    ParseBuildKey(b.year, b.month, b.day);
  }

  /** Reading a month key as `createCalendarData` does: the year and the month counted from 0. */
  function ParseMonthKey(key: string): Option<(int, int)> {
    var parts := Split(key, '-');
    var year := JsNumber(parts[0]);
    var month := if |parts| > 1 then JsNumber(parts[1]) else None;
    if year.Some? && month.Some? then Some((year.value, month.value - 1)) else None
  }

  /**
   * A month key reads as a year and month exactly when its first two
   * '-'-separated parts are digits only; the year is then non-negative and
   * the month, counted from 0, at least -1 (for "00").
   */
  lemma ParseMonthKeyOutcome(key: string)
    ensures var parts, r := Split(key, '-'), ParseMonthKey(key);
      && (r.Some? <==> |parts| >= 2 && AllDigits(parts[0]) && AllDigits(parts[1]))
      && (r.Some? ==> r.value.0 >= 0 && r.value.1 >= -1)
  {
  }

  /** Month keys of non-negative years read back as their year and month. */
  lemma ParseBuildMonthKey(year: int, month: int)
    requires year >= 0 && 0 <= month < 12
    ensures ParseMonthKey(BuildMonthKey(year, month)) == Some((year, month))
  {
    var y, m := NatToString(year), PadStart2(NatToString(month + 1));
    NumberOfNatToString(year);
    NumberOfPad2(month + 1);
    assert BuildMonthKey(year, month) == y + ['-'] + m;
    SplitTwo(y, m, '-');
    ParseMonthKeyOfParts(BuildMonthKey(year, month), year, month + 1);
  }

  lemma ParseMonthKeyOfParts(key: string, y: nat, m: nat)
    requires |Split(key, '-')| >= 2
    requires JsNumber(Split(key, '-')[0]) == Some(y)
    requires JsNumber(Split(key, '-')[1]) == Some(m)
    ensures ParseMonthKey(key) == Some((y, m - 1))
  {
  }

  /** Month keys of valid months with non-negative years are distinct. */
  lemma MonthKeyInjective(y1: int, m1: int, y2: int, m2: int)
    requires y1 >= 0 && y2 >= 0 && 0 <= m1 < 12 && 0 <= m2 < 12
    requires BuildMonthKey(y1, m1) == BuildMonthKey(y2, m2)
    ensures y1 == y2 && m1 == m2
  {
    ParseBuildMonthKey(y1, m1);
    ParseBuildMonthKey(y2, m2);
  }

  /** `shortYear`: the last two characters of `String(value)`, the whole string when shorter. */
  function ShortYear(value: int): (r: string)
    ensures |r| <= 2
    ensures 0 <= value < 10 ==> r == [DigitChar(value)]
    ensures value >= 10 ==> r == [DigitChar(value / 10 % 10), DigitChar(value % 10)]
    ensures -10 < value < 0 ==> r == ['-', DigitChar(-value)]
    ensures value <= -10 ==> r == [DigitChar(-value / 10 % 10), DigitChar(-value % 10)]
  {
    var s := IntToString(value);
    StringEnds(value);
    if |s| < 2 then s else s[|s| - 2..]
  }

  /** `String(value)` in full below two characters, and its last two characters otherwise. */
  lemma StringEnds(value: int)
    ensures var s := IntToString(value);
      && (0 <= value < 10 ==> s == [DigitChar(value)])
      && (-10 < value < 0 ==> s == ['-', DigitChar(-value)])
      && (value >= 10 ==> |s| >= 2 && s[|s| - 2..] == [DigitChar(value / 10 % 10), DigitChar(value % 10)])
      && (value <= -10 ==> |s| >= 2 && s[|s| - 2..] == [DigitChar(-value / 10 % 10), DigitChar(-value % 10)])
  {
    if value >= 10 {
      LastTwoDigits(value);
    } else if value <= -10 {
      var t := NatToString(-value);
      LastTwoDigits(-value);
      assert IntToString(value) == "-" + t;
      assert ("-" + t)[|t| - 1..] == t[|t| - 2..];
    }
  }

  /** The last two characters of a number of two or more digits are its tens and units digits. */
  lemma LastTwoDigits(n: nat)
    requires n >= 10
    ensures var s := NatToString(n); s[|s| - 2..] == [DigitChar(n / 10 % 10), DigitChar(n % 10)]
  {
    var s, t := NatToString(n), NatToString(n / 10);
    assert s == t + [DigitChar(n % 10)];
    if n / 10 < 10 {
      assert t == [DigitChar(n / 10 % 10)];
    } else {
      assert t == NatToString(n / 10 / 10) + [DigitChar(n / 10 % 10)];
    }
    assert s[|s| - 2..] == [t[|t| - 1], DigitChar(n % 10)];
  }

  /** A number below 100 padded to two characters is its tens and units digits. */
  lemma PaddedTwoDigits(c: nat)
    requires c < 100
    ensures PadStart2(NatToString(c)) == [DigitChar(c / 10), DigitChar(c % 10)]
  {
    if c >= 10 {
      assert NatToString(c) == NatToString(c / 10) + [DigitChar(c % 10)];
    }
  }

  lemma CenturyDigits(n: nat)
    ensures (n % 100) / 10 == n / 10 % 10 && (n % 100) % 10 == n % 10
  {
    var a, b := n / 100, n % 100;
    assert n == 100 * a + b;
    assert n / 10 == 10 * a + b / 10;
  }

  /** From year 10 on, the short year is the two-digit year of the century. */
  lemma ShortYearOfCentury(value: int)
    requires value >= 10
    ensures ShortYear(value) == PadStart2(NatToString(value % 100))
  {
    LastTwoDigits(value);
    PaddedTwoDigits(value % 100);
    CenturyDigits(value);
  }

  /** The number of items a time group shows before the rest is counted as overflow. */
  const MaxVisibleItems: nat := 5

  /** `prepareGroup`: the first five items are shown, the rest are overflow. */
  function PrepareGroup(group: EventGroup): (p: PreparedGroup)
    ensures p.columns == 1
    ensures p.visibleItems + p.overflowItems == group.items
    ensures |p.visibleItems| == if |group.items| < MaxVisibleItems then |group.items| else MaxVisibleItems
    ensures p.overflow == |p.overflowItems| == if |group.items| > MaxVisibleItems then |group.items| - MaxVisibleItems else 0
  {
    var items := group.items;
    var visibleItems := if |items| <= MaxVisibleItems then items else items[..MaxVisibleItems];
    var overflowItems := if |items| <= MaxVisibleItems then [] else items[MaxVisibleItems..];
    PreparedGroup(1, visibleItems, overflowItems, |overflowItems|)
  }

  /**
   * `s.replace(/^\/+/, '/')`: a leading run of slashes becomes one slash and
   * the rest of the string is kept.
   */
  function CollapseLeadingSlashes(s: string): (r: string)
    ensures |s| > 0 && s[0] == '/' ==> |r| > 0 && r[0] == '/' && (|r| == 1 || r[1] != '/')
    ensures |s| > 0 && s[0] == '/' ==>
      && |r| <= |s| && r[1..] == s[|s| - |r| + 1..]
      && forall j :: 0 <= j <= |s| - |r| ==> s[j] == '/'
    ensures (|s| == 0 || s[0] != '/') ==> r == s
    decreases |s|
  {
    if |s| >= 2 && s[0] == '/' && s[1] == '/' then CollapseLeadingSlashes(s[1..]) else s
  }

  /**
   * `buildCommunityHref`: the community page under a base URL whose one
   * trailing slash is dropped; only a base that starts with two slashes has
   * its leading run collapsed.
   */
  function BuildCommunityHref(community: string, baseUrl: string := "/"): (href: string)
    ensures |href| >= 2 && href[0] == '/' ==> href[1] != '/'
    ensures EndsWithCommunities(href, community)
    ensures !StartsWith(baseUrl, "//") ==> href == UrlUtils.CleanBase(baseUrl) + "/communities/" + community
  {
    var sanitizedBaseUrl := UrlUtils.CleanBase(baseUrl);
    LeadingSlashesKeepTail(sanitizedBaseUrl, community);
    HrefNotCollapsed(baseUrl, community);
    CollapseLeadingSlashes(sanitizedBaseUrl + "/communities/" + community)
  }

  /** Unless the base opens with "//", the link it gives has no run of slashes to collapse. */
  lemma HrefNotCollapsed(baseUrl: string, community: string)
    ensures var s := UrlUtils.CleanBase(baseUrl) + "/communities/" + community;
      !StartsWith(baseUrl, "//") ==> CollapseLeadingSlashes(s) == s
  {
    var b := UrlUtils.CleanBase(baseUrl);
    var s := b + "/communities/" + community;
    if !StartsWith(baseUrl, "//") {
      if |b| >= 2 {
        assert b[0] == baseUrl[0] && b[1] == baseUrl[1];
      }
      if b == "/" {
        if EndsWith(baseUrl, "/") {
          assert baseUrl == b + "/";
        }
      }
      assert b == [] ==> s[1] == 'c';
    }
  }

  predicate EndsWithCommunities(href: string, community: string) {
    var tail := "/communities/" + community;
    |tail| <= |href| && href[|href| - |tail|..] == tail
  }

  lemma {:induction false} LeadingSlashesKeepTail(base: string, community: string)
    ensures EndsWithCommunities(CollapseLeadingSlashes(base + "/communities/" + community), community)
    decreases |base|
  {
    var s := base + "/communities/" + community;
    if |base| == 0 {
      assert s[1] == 'c';
    } else if s[0] == '/' && s[1] == '/' {
      assert s[1..] == base[1..] + "/communities/" + community;
      LeadingSlashesKeepTail(base[1..], community);
    }
  }

  /** With the default base the link is the site-relative community page. */
  lemma CommunityHrefDefaultBase(community: string)
    ensures BuildCommunityHref(community) == "/communities/" + community
  {
    assert ("" + "/communities/" + community)[1] == 'c';
  }

  /** The month key an event is filed under. */
  function EventMonthKey(e: Event): string {
    MonthKey(e.date.date)
  }

  /** `groupEventsByMonth`: the events bucketed by their month key. */
  method GroupEventsByMonth(events: seq<Event>) returns (eventsByMonth: map<string, seq<Event>>)
    ensures eventsByMonth == Buckets(events, EventMonthKey)
  {
    eventsByMonth := GroupBy(events, EventMonthKey);
  }

  /**
   * The month buckets partition the events: a bucket exists exactly for the
   * months that some event falls in, none is empty, and the bucket of `k` holds
   * every copy of each event of month `k` and nothing else.
   */
  lemma MonthBucket(events: seq<Event>, k: string, e: Event)
    ensures k in Buckets(events, EventMonthKey) <==> exists x :: x in events && EventMonthKey(x) == k
    ensures k in Buckets(events, EventMonthKey) ==> Buckets(events, EventMonthKey)[k] != []
    ensures k in Buckets(events, EventMonthKey) ==>
      multiset(Buckets(events, EventMonthKey)[k])[e] == if EventMonthKey(e) == k then multiset(events)[e] else 0
  {
    BucketsSpec(events, EventMonthKey, k);
    BucketEmpty(events, EventMonthKey, k);
    BucketCount(events, EventMonthKey, k, e);
  }

  /** The two dates that bound the calendar, each the first of a month at midnight. */
  datatype DateRange = DateRange(rangeStart: Stamp, rangeEnd: Stamp)

  /** `Math.min` over the times of a non-empty list, as the date-time that has it. */
  function Earliest(ds: seq<Stamp>): (r: Stamp)
    requires |ds| > 0
    ensures r in ds && forall d :: d in ds ==> Time(r) <= Time(d)
    decreases |ds|
  {
    if |ds| == 1 then ds[0]
    else
      var e := Earliest(ds[..|ds| - 1]);
      assert forall d :: d in ds ==> d in ds[..|ds| - 1] || d == ds[|ds| - 1];
      if Time(ds[|ds| - 1]) < Time(e) then ds[|ds| - 1] else e
  }

  /** `Math.max` over the times of a non-empty list, as the date-time that has it. */
  function Latest(ds: seq<Stamp>): (r: Stamp)
    requires |ds| > 0
    ensures r in ds && forall d :: d in ds ==> Time(d) <= Time(r)
    decreases |ds|
  {
    if |ds| == 1 then ds[0]
    else
      var e := Latest(ds[..|ds| - 1]);
      assert forall d :: d in ds ==> d in ds[..|ds| - 1] || d == ds[|ds| - 1];
      if Time(ds[|ds| - 1]) > Time(e) then ds[|ds| - 1] else e
  }

  function EventDates(events: seq<Event>): (ds: seq<Stamp>)
    ensures |ds| == |events| && forall i :: 0 <= i < |events| ==> ds[i] == events[i].date
  {
    seq(|events|, i requires 0 <= i < |events| => events[i].date)
  }

  /** Every date an event carries is a calendar date with a time of day. */
  predicate EventDatesValid(events: seq<Event>) {
    forall e :: e in events ==> e.date.Valid()
  }

  /** `new Date(s.getFullYear(), s.getMonth(), 1)`: midnight of the first of the month. */
  function MonthOf(s: Stamp): (r: Stamp)
    requires s.Valid()
    ensures r == Stamp(FirstOfMonth(12 * FullYear(s.date.year) + s.date.month), 0)
    ensures s.date.year >= 100 ==> MonthIndex(r.date) == MonthIndex(s.date)
  {
    FirstOfLocalMonth(s.date.year, s.date.month);
    Stamp(LocalDate(s.date.year, s.date.month, 1), 0)
  }

  /** `new Date(y, m, 1)` is the first of a month: of month `m` of `y` itself from year 100 on. */
  lemma FirstOfLocalMonth(y: int, m: int)
    requires 0 <= m < 12
    ensures LocalDate(y, m, 1) == FirstOfMonth(12 * FullYear(y) + m)
  {
    var k := 12 * FullYear(y) + m;
    MakeDayByMonthIndex(FullYear(y), m, 1);
    DayNumberInjective(LocalDate(y, m, 1), FirstOfMonth(k));
  }

  /** The dates `calculateDateRange` compares: the events' dates, or `now` alone, then `now`. */
  function ReferenceDates(events: seq<Event>, now: Stamp): (ds: seq<Stamp>)
    requires now.Valid() && EventDatesValid(events)
    ensures |ds| > 0 && forall d :: d in ds ==> d.Valid()
    ensures forall d :: d in ds <==> d == now || exists e :: e in events && e.date == d
  {
    var ds := (if |events| > 0 then EventDates(events) else [now]) + [now];
    assert forall d :: d in EventDates(events) <==> exists e :: e in events && e.date == d by {
      forall d | d in EventDates(events) ensures exists e :: e in events && e.date == d {
        var i :| 0 <= i < |events| && EventDates(events)[i] == d;
        assert events[i] in events;
      }
      forall e | e in events ensures e.date in EventDates(events) {
        var i :| 0 <= i < |events| && events[i] == e;
        assert EventDates(events)[i] == e.date;
      }
    }
    ds
  }

  /**
   * `calculateDateRange`: the first of the month of the earliest and of the
   * latest among the event dates and `now`.
   */
  function CalculateDateRange(events: seq<Event>, now: Stamp): (r: DateRange)
    requires now.Valid() && EventDatesValid(events)
    ensures r.rangeStart.Valid() && r.rangeStart.date.day == 1 && r.rangeStart.ms == 0
    ensures r.rangeEnd.Valid() && r.rangeEnd.date.day == 1 && r.rangeEnd.ms == 0
  {
    var referenceDates := ReferenceDates(events, now);
    DateRange(MonthOf(Earliest(referenceDates)), MonthOf(Latest(referenceDates)))
  }

  /**
   * From year 100 on, the range covers every event and `now`: its first month
   * is the month of the earliest of them, its last month that of the latest,
   * and every event's month and the current month lie between the two.
   */
  lemma DateRangeCovers(events: seq<Event>, now: Stamp)
    requires now.Valid() && EventDatesValid(events)
    requires now.date.year >= 100 && forall e :: e in events ==> e.date.date.year >= 100
    ensures var r := CalculateDateRange(events, now);
      && (forall e :: e in events ==>
            MonthIndex(r.rangeStart.date) <= MonthIndex(e.date.date) <= MonthIndex(r.rangeEnd.date))
      && MonthIndex(r.rangeStart.date) <= MonthIndex(now.date) <= MonthIndex(r.rangeEnd.date)
      && (exists d :: d in ReferenceDates(events, now) && MonthIndex(r.rangeStart.date) == MonthIndex(d.date))
      && (exists d :: d in ReferenceDates(events, now) && MonthIndex(r.rangeEnd.date) == MonthIndex(d.date))
  {
    var refs := ReferenceDates(events, now);
    var lo, hi := Earliest(refs), Latest(refs);
    assert lo.date.year >= 100 && hi.date.year >= 100;
    forall d | d in refs
      ensures MonthIndex(lo.date) <= MonthIndex(d.date) <= MonthIndex(hi.date)
    {
      TimeOrdersDays(lo, d);
      MonthIndexMonotone(lo.date, d.date);
      TimeOrdersDays(d, hi);
      MonthIndexMonotone(d.date, hi.date);
    }
    forall e | e in events
      ensures MonthIndex(lo.date) <= MonthIndex(e.date.date) <= MonthIndex(hi.date)
    {
      assert e.date in refs;
    }
  }

  /** The month key of the month with index `k`. */
  function MonthKeyOfIndex(k: int): string {
    BuildMonthKey(k / 12, k % 12)
  }

  /** The month keys of the months with indices `i` to `j`, in order. */
  function MonthKeySpan(i: int, j: int): (keys: seq<string>)
    ensures |keys| == if j < i then 0 else j - i + 1
    decreases j - i
  {
    if j < i then [] else [MonthKeyOfIndex(i)] + MonthKeySpan(i + 1, j)
  }

  /**
   * The keys the month loop pushes from `cursor` on: the cursor's month key,
   * then those from one `setMonth` later, while the cursor is not after `rangeEnd`.
   */
  function KeysFrom(cursor: Stamp, rangeEnd: Stamp): seq<string>
    requires cursor.Valid()
    decreases Time(rangeEnd) - Time(cursor)
  {
    if Time(cursor) <= Time(rangeEnd) then
      SetMonthAdvances(cursor);
      [MonthKey(cursor.date)] + KeysFrom(SetMonth(cursor, cursor.date.month + 1), rangeEnd)
    else []
  }

  lemma KeysFromStep(cursor: Stamp, rangeEnd: Stamp)
    requires cursor.Valid() && Time(cursor) <= Time(rangeEnd)
    ensures KeysFrom(cursor, rangeEnd) == [MonthKey(cursor.date)] + KeysFrom(SetMonth(cursor, cursor.date.month + 1), rangeEnd)
  {
  }

  /** A date on the first of its month is that month's first day. */
  lemma FirstOfOwnMonth(d: Date)
    requires d.Valid() && d.day == 1
    ensures FirstOfMonth(MonthIndex(d)) == d
  {
    DivMod12(MonthIndex(d), d.year, d.month);
  }

  /**
   * From midnight of the first of month `k` the loop pushes the key of every
   * month from `k` to the month of `rangeEnd`, once each and in order.
   */
  lemma {:induction false} KeysFromFirst(k: int, rangeEnd: Stamp)
    requires rangeEnd.Valid()
    ensures KeysFrom(Stamp(FirstOfMonth(k), 0), rangeEnd) == MonthKeySpan(k, MonthIndex(rangeEnd.date))
    decreases MonthIndex(rangeEnd.date) - k
  {
    var cursor := Stamp(FirstOfMonth(k), 0);
    var last := MonthIndex(rangeEnd.date);
    MonthStartBefore(k, rangeEnd);
    if k <= last {
      SetMonthOfFirst(k, 0);
      KeysFromFirst(k + 1, rangeEnd);
      KeysFromStep(cursor, rangeEnd);
      MonthKeyOfFirst(k);
      assert MonthKeySpan(k, last) == [MonthKeyOfIndex(k)] + MonthKeySpan(k + 1, last);
    }
  }

  lemma MonthKeyOfFirst(k: int)
    ensures MonthKey(FirstOfMonth(k)) == MonthKeyOfIndex(k)
  {
  }

  /**
   * `generateMonthKeys`: from the start, push the month key of the cursor and
   * move the cursor on one month with `setMonth` while it is not after the end.
   */
  method GenerateMonthKeys(rangeStart: Stamp, rangeEnd: Stamp) returns (monthKeys: seq<string>)
    requires rangeStart.Valid()
    ensures monthKeys == KeysFrom(rangeStart, rangeEnd)
    ensures Time(rangeEnd) < Time(rangeStart) <==> monthKeys == []
  {
    monthKeys := [];
    var cursor := rangeStart;
    while Time(cursor) <= Time(rangeEnd)
      invariant cursor.Valid()
      invariant monthKeys + KeysFrom(cursor, rangeEnd) == KeysFrom(rangeStart, rangeEnd)
      invariant monthKeys == [] ==> cursor == rangeStart
      decreases Time(rangeEnd) - Time(cursor)
    {
      var key := BuildMonthKey(cursor.date.year, cursor.date.month);
      SetMonthAdvances(cursor);
      var next := SetMonth(cursor, cursor.date.month + 1);
      KeysFromStep(cursor, rangeEnd);
      AppendAssoc(monthKeys, [key], KeysFrom(next, rangeEnd));
      monthKeys := monthKeys + [key];
      cursor := next;
    }
  }

  /**
   * From midnight of the first of a month, as `calculateDateRange` gives, the
   * loop pushes the key of every month from the start's to the end's, once
   * each and in order.
   */
  lemma MonthKeysFromFirst(rangeStart: Stamp, rangeEnd: Stamp)
    requires rangeStart.Valid() && rangeEnd.Valid()
    requires rangeStart.date.day == 1 && rangeStart.ms == 0
    ensures KeysFrom(rangeStart, rangeEnd) == MonthKeySpan(MonthIndex(rangeStart.date), MonthIndex(rangeEnd.date))
  {
    FirstOfOwnMonth(rangeStart.date);
    KeysFromFirst(MonthIndex(rangeStart.date), rangeEnd);
  }
}
