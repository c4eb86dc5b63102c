/**
 * The calendar page's navigation: a month cursor, a week cursor and the mobile
 * (week) or desktop (month) mode, moved by the previous and next buttons and
 * by the media query, with the rendering step that marks the element at the
 * active cursor and sets the label and the buttons. The page's elements are
 * abstracted into fields: the marks of each month and week element, the nav
 * labels their datasets carry, the label's text and the buttons' `disabled`.
 */
module CalendarNavigation {

  /** The two marks of a month or week element: the active class and `aria-hidden`. */
  datatype Flags = Flags(active: bool, hidden: bool)

  /** The navigation state proper. */
  datatype Cursor = Cursor(monthIndex: int, weekIndex: int, isMobile: bool)

  /** What the page reacts to: the two buttons and a change of the media query. */
  datatype Input = Previous | Next | MediaChange(matches: bool)

  /**
   * One reaction to an input, for `monthCount` months and `weekCount` weeks:
   * a button moves only the cursor of the current mode, a media change only
   * switches the mode.
   */
  function Step(c: Cursor, input: Input, monthCount: int, weekCount: int): (d: Cursor)
    ensures d.isMobile == (if input.MediaChange? then input.matches else c.isMobile)
    ensures (input.MediaChange? || c.isMobile) ==> d.monthIndex == c.monthIndex
    ensures (input.MediaChange? || !c.isMobile) ==> d.weekIndex == c.weekIndex
  {
    match input
    case Previous =>
      if c.isMobile then (if c.weekIndex > 0 then c.(weekIndex := c.weekIndex - 1) else c)
      else if c.monthIndex > 0 then c.(monthIndex := c.monthIndex - 1) else c
    case Next =>
      if c.isMobile then (if c.weekIndex < weekCount - 1 then c.(weekIndex := c.weekIndex + 1) else c)
      else if c.monthIndex < monthCount - 1 then c.(monthIndex := c.monthIndex + 1) else c
    case MediaChange(matches) => c.(isMobile := matches)
  }

  /** The index of the current mode's cursor. */
  function Active(c: Cursor): int {
    if c.isMobile then c.weekIndex else c.monthIndex
  }

  /**
   * A button moves the current cursor one step toward its end and never past
   * it: previous stops at 0, next at the last element.
   */
  lemma ButtonMoves(c: Cursor, input: Input, monthCount: int, weekCount: int)
    requires !input.MediaChange?
    ensures var count := if c.isMobile then weekCount else monthCount;
      var d := Step(c, input, monthCount, weekCount);
      && d.isMobile == c.isMobile
      && (input.Previous? ==> Active(d) == if Active(c) > 0 then Active(c) - 1 else Active(c))
      && (input.Next? ==> Active(d) == if Active(c) < count - 1 then Active(c) + 1 else Active(c))
  {
  }

  /** Both cursors index an element. */
  predicate InRange(c: Cursor, monthCount: int, weekCount: int) {
    0 <= c.monthIndex < monthCount && 0 <= c.weekIndex < weekCount
  }

  /** The state after a run of inputs. */
  function Run(c: Cursor, inputs: seq<Input>, monthCount: int, weekCount: int): Cursor
    decreases |inputs|
  {
    if inputs == [] then c else Run(Step(c, inputs[0], monthCount, weekCount), inputs[1..], monthCount, weekCount)
  }

  /** Cursors that start in range stay in range whatever the inputs. */
  lemma {:induction false} RunInRange(c: Cursor, inputs: seq<Input>, monthCount: int, weekCount: int)
    requires InRange(c, monthCount, weekCount)
    ensures InRange(Run(c, inputs, monthCount, weekCount), monthCount, weekCount)
    decreases |inputs|
  {
    if inputs != [] {
      assert InRange(Step(c, inputs[0], monthCount, weekCount), monthCount, weekCount);
      RunInRange(Step(c, inputs[0], monthCount, weekCount), inputs[1..], monthCount, weekCount);
    }
  }

  /** The nav label of element `i`, or '' when `i` indexes no element. */
  function LabelAt(labels: seq<string>, i: int): string {
    if 0 <= i < |labels| then labels[i] else ""
  }

  /** Marks element `k` active and shown and every other one inactive and hidden. */
  method ShowOnly(a: array<Flags>, k: int)
    modifies a
    ensures forall i :: 0 <= i < a.Length ==> a[i] == Flags(i == k, i != k)
  {
    for i := 0 to a.Length
      invariant forall j :: 0 <= j < i ==> a[j] == Flags(j == k, j != k)
    {
      a[i] := Flags(i == k, i != k);
    }
  }

  /** Marks every element inactive and hidden. */
  method HideAll(a: array<Flags>)
    modifies a
    ensures forall i :: 0 <= i < a.Length ==> a[i] == Flags(false, true)
  {
    for i := 0 to a.Length
      invariant forall j :: 0 <= j < i ==> a[j] == Flags(false, true)
    {
      a[i] := Flags(false, true);
    }
  }

  class Navigation {
    var monthIndex: int
    var weekIndex: int
    var isMobile: bool
    /** `root.dataset.view`. */
    var view: string
    /** The label's text and the buttons' `disabled`. */
    var navText: string
    var prevDisabled: bool
    var nextDisabled: bool
    /** The marks of the month and week elements, and the nav labels of their datasets. */
    const months: array<Flags>
    const weeks: array<Flags>
    const monthLabels: seq<string>
    const weekLabels: seq<string>
    /** Whether the page has the label and the two buttons. */
    const hasLabel: bool
    const hasPrev: bool
    const hasNext: bool

    ghost predicate Valid()
      reads this
    {
      months != weeks && months.Length == |monthLabels| && weeks.Length == |weekLabels|
    }

    function State(): Cursor
      reads this
    {
      Cursor(monthIndex, weekIndex, isMobile)
    }

    /** The number of elements of the current mode. */
    function ActiveCount(): int
      reads this
    {
      if isMobile then weeks.Length else months.Length
    }

    /**
     * The view the render step leaves: the mode's name on the root; with
     * elements of the current mode, only the one at its cursor active and
     * shown and every element of the other mode inactive and hidden; the
     * label that element's nav label ('' with no element there or no
     * elements at all); previous disabled at index 0 and next at the last
     * index, both with no elements.
     */
    ghost predicate Rendered()
      reads this, months, weeks
    {
      var k := Active(State());
      && view == (if isMobile then "week" else "month")
      && (ActiveCount() > 0 && isMobile ==>
            (forall i :: 0 <= i < weeks.Length ==> weeks[i] == Flags(i == k, i != k))
            && forall i :: 0 <= i < months.Length ==> months[i] == Flags(false, true))
      && (ActiveCount() > 0 && !isMobile ==>
            (forall i :: 0 <= i < months.Length ==> months[i] == Flags(i == k, i != k))
            && forall i :: 0 <= i < weeks.Length ==> weeks[i] == Flags(false, true))
      && (hasLabel ==> navText == if ActiveCount() == 0 then "" else LabelAt(if isMobile then weekLabels else monthLabels, k))
      && (hasPrev ==> prevDisabled == (ActiveCount() == 0 || k == 0))
      && (hasNext ==> nextDisabled == (ActiveCount() == 0 || k == ActiveCount() - 1))
    }

    /** Reads the page's elements and the initial cursors and renders the view. */
    constructor (monthLabels: seq<string>, weekLabels: seq<string>, monthFlags: seq<Flags>, weekFlags: seq<Flags>,
                 hasLabel: bool, hasPrev: bool, hasNext: bool,
                 initialMonthIndex: int, initialWeekIndex: int, matches: bool)
      requires |monthFlags| == |monthLabels| && |weekFlags| == |weekLabels|
      ensures Valid() && fresh(months) && fresh(weeks)
      ensures this.monthLabels == monthLabels && this.weekLabels == weekLabels
      ensures this.hasLabel == hasLabel && this.hasPrev == hasPrev && this.hasNext == hasNext
      ensures State() == Cursor(initialMonthIndex, initialWeekIndex, matches)
      ensures Rendered()
    {
      this.monthLabels := monthLabels;
      this.weekLabels := weekLabels;
      this.hasLabel := hasLabel;
      this.hasPrev := hasPrev;
      this.hasNext := hasNext;
      months := new Flags[|monthFlags|](i requires 0 <= i < |monthFlags| => monthFlags[i]);
      weeks := new Flags[|weekFlags|](i requires 0 <= i < |weekFlags| => weekFlags[i]);
      monthIndex := initialMonthIndex;
      weekIndex := initialWeekIndex;
      isMobile := matches;
      view := "";
      navText := "";
      prevDisabled := false;
      nextDisabled := false;
      new;
      SyncView();
    }

    /** `updateMonthView`: the month at the cursor shown, every week hidden, label and buttons for the month. */
    method UpdateMonthView()
      requires Valid()
      modifies months, weeks, this`navText, this`prevDisabled, this`nextDisabled
      ensures forall i :: 0 <= i < months.Length ==> months[i] == Flags(i == monthIndex, i != monthIndex)
      ensures forall i :: 0 <= i < weeks.Length ==> weeks[i] == Flags(false, true)
      ensures navText == if hasLabel then LabelAt(monthLabels, monthIndex) else old(navText)
      ensures prevDisabled == if hasPrev then monthIndex == 0 else old(prevDisabled)
      ensures nextDisabled == if hasNext then monthIndex == months.Length - 1 else old(nextDisabled)
    {
      ShowOnly(months, monthIndex);
      HideAll(weeks);
      if hasLabel {
        navText := LabelAt(monthLabels, monthIndex);
      }
      if hasPrev {
        prevDisabled := monthIndex == 0;
      }
      if hasNext {
        nextDisabled := monthIndex == months.Length - 1;
      }
    }

    /** `updateWeekView`: the week at the cursor shown, every month hidden, label and buttons for the week. */
    method UpdateWeekView()
      requires Valid()
      modifies months, weeks, this`navText, this`prevDisabled, this`nextDisabled
      ensures forall i :: 0 <= i < weeks.Length ==> weeks[i] == Flags(i == weekIndex, i != weekIndex)
      ensures forall i :: 0 <= i < months.Length ==> months[i] == Flags(false, true)
      ensures navText == if hasLabel then LabelAt(weekLabels, weekIndex) else old(navText)
      ensures prevDisabled == if hasPrev then weekIndex == 0 else old(prevDisabled)
      ensures nextDisabled == if hasNext then weekIndex == weeks.Length - 1 else old(nextDisabled)
    {
      ShowOnly(weeks, weekIndex);
      HideAll(months);
      if hasLabel {
        navText := LabelAt(weekLabels, weekIndex);
      }
      if hasPrev {
        prevDisabled := weekIndex == 0;
      }
      if hasNext {
        nextDisabled := weekIndex == weeks.Length - 1;
      }
    }

    /** `disableNavigation`: an empty label and both buttons disabled. */
    method DisableNavigation()
      modifies this`navText, this`prevDisabled, this`nextDisabled
      ensures navText == if hasLabel then "" else old(navText)
      ensures prevDisabled == (hasPrev || old(prevDisabled))
      ensures nextDisabled == (hasNext || old(nextDisabled))
    {
      if hasLabel {
        navText := "";
      }
      if hasPrev {
        prevDisabled := true;
      }
      if hasNext {
        nextDisabled := true;
      }
    }

    /**
     * `syncView`: the view of the current mode, or, with no elements of that
     * mode, navigation disabled and every element left as it was.
     */
    method SyncView()
      requires Valid()
      modifies months, weeks, this`view, this`navText, this`prevDisabled, this`nextDisabled
      ensures Rendered()
      ensures ActiveCount() == 0 ==> unchanged(months, weeks)
      ensures !hasLabel ==> navText == old(navText)
      ensures !hasPrev ==> prevDisabled == old(prevDisabled)
      ensures !hasNext ==> nextDisabled == old(nextDisabled)
    {
      view := if isMobile then "week" else "month";
      if isMobile {
        if weeks.Length == 0 {
          DisableNavigation();
          return;
        }
        UpdateWeekView();
      } else {
        if months.Length == 0 {
          DisableNavigation();
          return;
        }
        UpdateMonthView();
      }
    }

    /** `handlePrevious`: one step back in the current mode and a new render, or nothing at index 0. */
    method HandlePrevious()
      requires Valid()
      modifies this, months, weeks
      ensures Valid()
      ensures State() == Step(old(State()), Previous, months.Length, weeks.Length)
      ensures State() == old(State()) ==> unchanged(this, months, weeks)
      ensures State() != old(State()) ==> Rendered()
      ensures !hasLabel ==> navText == old(navText)
      ensures !hasPrev ==> prevDisabled == old(prevDisabled)
      ensures !hasNext ==> nextDisabled == old(nextDisabled)
      ensures ActiveCount() == 0 ==> unchanged(months, weeks)
    {
      if isMobile {
        if weekIndex > 0 {
          weekIndex := weekIndex - 1;
          SyncView();
        }
      } else if monthIndex > 0 {
        monthIndex := monthIndex - 1;
        SyncView();
      }
    }

    /** `handleNext`: one step forward in the current mode and a new render, or nothing at the last index. */
    method HandleNext()
      requires Valid()
      modifies this, months, weeks
      ensures Valid()
      ensures State() == Step(old(State()), Next, months.Length, weeks.Length)
      ensures State() == old(State()) ==> unchanged(this, months, weeks)
      ensures State() != old(State()) ==> Rendered()
      ensures !hasLabel ==> navText == old(navText)
      ensures !hasPrev ==> prevDisabled == old(prevDisabled)
      ensures !hasNext ==> nextDisabled == old(nextDisabled)
      ensures ActiveCount() == 0 ==> unchanged(months, weeks)
    {
      if isMobile {
        if weekIndex < weeks.Length - 1 {
          weekIndex := weekIndex + 1;
          SyncView();
        }
      } else if monthIndex < months.Length - 1 {
        monthIndex := monthIndex + 1;
        SyncView();
      }
    }

    /** `handleMediaChange`: the mode follows the media query, the cursors stay, and the view is rendered again. */
    method HandleMediaChange(matches: bool)
      requires Valid()
      modifies this, months, weeks
      ensures Valid()
      ensures State() == Step(old(State()), MediaChange(matches), months.Length, weeks.Length)
      ensures Rendered()
      ensures !hasLabel ==> navText == old(navText)
      ensures !hasPrev ==> prevDisabled == old(prevDisabled)
      ensures !hasNext ==> nextDisabled == old(nextDisabled)
      ensures ActiveCount() == 0 ==> unchanged(months, weeks)
    {
      isMobile := matches;
      SyncView();
    }
  }
}
