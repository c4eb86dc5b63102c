/**
 * A community page's two event lists, upcoming and past, and the slug of a
 * community entry's file name.
 */
module CommunityUtils {
  import opened Strings
  import opened Dates
  import opened CalendarTypes
  import opened Sorting

  /** `xs.filter(p)`: the elements of `xs` that satisfy `p`, in order. */
  function Filter<T(!new)>(xs: seq<T>, p: T -> bool): (r: seq<T>)
    ensures forall x :: x in r <==> x in xs && p(x)
    ensures |r| <= |xs|
    ensures |xs| == 1 ==> r == if p(xs[0]) then xs else []
    decreases |xs|
  {
    if xs == [] then []
    else
      assert xs == [xs[0]] + xs[1..];
      (if p(xs[0]) then [xs[0]] else []) + Filter(xs[1..], p)
  }

  /**
   * Filtering works piece by piece, so with the one-element case it keeps the
   * passing elements in their order and as often as they occur.
   */
  lemma {:induction false} FilterAppend<T(!new)>(xs: seq<T>, ys: seq<T>, p: T -> bool)
    ensures Filter(xs + ys, p) == Filter(xs, p) + Filter(ys, p)
    decreases |xs|
  {
    if xs == [] {
      assert xs + ys == ys;
    } else {
      var x := xs[0];
      assert (xs + ys)[0] == x && (xs + ys)[1..] == xs[1..] + ys;
      FilterAppend(xs[1..], ys, p);
      AppendAssoc(if p(x) then [x] else [], Filter(xs[1..], p), Filter(ys, p));
    }
  }

  /**
   * When the test gives `b` on every element whose key is `t`, filtering keeps
   * all of those elements in order (`b`) or none of them.
   */
  lemma {:induction false} FilterWithKey<T(!new)>(xs: seq<T>, p: T -> bool, key: T -> int, t: int, b: bool)
    requires forall x :: key(x) == t ==> p(x) == b
    ensures WithKey(Filter(xs, p), key, t) == if b then WithKey(xs, key, t) else []
    decreases |xs|
  {
    if xs != [] {
      var x := xs[0];
      var f := Filter(xs[1..], p);
      FilterWithKey(xs[1..], p, key, t, b);
      if p(x) {
        assert Filter(xs, p) == [x] + f;
        assert ([x] + f)[1..] == f;
      } else {
        assert Filter(xs, p) == f;
      }
    }
  }

  /** Filtering by a test and by its negation splits a sequence in two. */
  lemma {:induction false} FilterPartition<T(!new)>(xs: seq<T>, p: T -> bool, q: T -> bool)
    requires forall x :: p(x) <==> !q(x)
    ensures multiset(Filter(xs, p)) + multiset(Filter(xs, q)) == multiset(xs)
    decreases |xs|
  {
    if xs != [] {
      var x, rest := xs[0], xs[1..];
      FilterPartition(rest, p, q);
      assert xs == [x] + rest;
      assert p(x) <==> !q(x);
      var hp, hq := if p(x) then [x] else [], if q(x) then [x] else [];
      assert Filter(xs, p) == hp + Filter(rest, p);
      assert Filter(xs, q) == hq + Filter(rest, q);
      assert multiset(hp) + multiset(hq) == multiset{x};
    }
  }

  /** Strictly after `now`. */
  function IsUpcoming(now: Stamp): Event -> bool {
    e => EventTime(e) > Time(now)
  }

  /** At `now` or before it. */
  function IsPast(now: Stamp): Event -> bool {
    e => EventTime(e) <= Time(now)
  }

  /** The key the comparator `b - a` sorts by: newest first. */
  function NewestFirst(e: Event): int {
    -EventTime(e)
  }

  datatype Separated = Separated(upcomingEvents: seq<Event>, pastEvents: seq<Event>)

  /**
   * `separateEventsByDate`, with the clock read made the parameter `now`: the
   * events strictly after `now`, oldest first, and those at or before `now`,
   * newest first.
   */
  function SeparateEventsByDate(events: seq<Event>, now: Stamp): (r: Separated)
    ensures forall e :: e in r.upcomingEvents <==> e in events && EventTime(e) > Time(now)
    ensures forall e :: e in r.pastEvents <==> e in events && EventTime(e) <= Time(now)
    ensures SortedBy(r.upcomingEvents, EventTime) && SortedBy(r.pastEvents, NewestFirst)
  {
    SortedSelection(events, IsUpcoming(now), EventTime);
    SortedSelection(events, IsPast(now), NewestFirst);
    Separated(SortBy(Filter(events, IsUpcoming(now)), EventTime), SortBy(Filter(events, IsPast(now)), NewestFirst))
  }

  /** Sorting the elements that pass a test keeps exactly those elements, each as often as it occurs. */
  lemma SortedSelection<T(!new)>(xs: seq<T>, p: T -> bool, key: T -> int)
    ensures var r := SortBy(Filter(xs, p), key);
      && (forall x :: x in r <==> x in xs && p(x))
      && multiset(r) == multiset(Filter(xs, p))
      && SortedBy(r, key)
  {
    SortByCorrect(Filter(xs, p), key);
    var r := SortBy(Filter(xs, p), key);
    forall x ensures x in r <==> x in Filter(xs, p) {
      assert x in r <==> x in multiset(r);
    }
  }

  /**
   * Every event lands in exactly one list: the upcoming ones, strictly after
   * `now`, oldest first; the past ones, at `now` or before, newest first.
   * Together the lists hold the events with their multiplicities.
   */
  lemma SeparateEventsByDateSplits(events: seq<Event>, now: Stamp)
    ensures var r := SeparateEventsByDate(events, now);
      && (forall e :: e in r.upcomingEvents <==> e in events && EventTime(e) > Time(now))
      && (forall e :: e in r.pastEvents <==> e in events && EventTime(e) <= Time(now))
      && multiset(r.upcomingEvents) + multiset(r.pastEvents) == multiset(events)
      && |r.upcomingEvents| + |r.pastEvents| == |events|
      && (forall i, j :: 0 <= i < j < |r.upcomingEvents| ==> EventTime(r.upcomingEvents[i]) <= EventTime(r.upcomingEvents[j]))
      && (forall i, j :: 0 <= i < j < |r.pastEvents| ==> EventTime(r.pastEvents[i]) >= EventTime(r.pastEvents[j]))
  {
    var r := SeparateEventsByDate(events, now);
    SortedSelection(events, IsUpcoming(now), EventTime);
    SortedSelection(events, IsPast(now), NewestFirst);
    FilterPartition(events, IsUpcoming(now), IsPast(now));
    assert |multiset(r.upcomingEvents)| + |multiset(r.pastEvents)| == |multiset(events)|;
    forall i, j | 0 <= i < j < |r.pastEvents|
      ensures EventTime(r.pastEvents[i]) >= EventTime(r.pastEvents[j])
    {
      assert NewestFirst(r.pastEvents[i]) <= NewestFirst(r.pastEvents[j]);
    }
  }

  /**
   * Events at the same instant keep the order they were given in: the sort
   * is stable, in the upcoming list and in the past one.
   */
  lemma SeparateEventsByDateStable(events: seq<Event>, now: Stamp, t: int)
    ensures var r := SeparateEventsByDate(events, now);
      && WithKey(r.upcomingEvents, EventTime, t) == (if t > Time(now) then WithKey(events, EventTime, t) else [])
      && WithKey(r.pastEvents, EventTime, t) == (if t <= Time(now) then WithKey(events, EventTime, t) else [])
  {
    var up, past := Filter(events, IsUpcoming(now)), Filter(events, IsPast(now));
    SortByCorrect(up, EventTime);
    FilterWithKey(events, IsUpcoming(now), EventTime, t, t > Time(now));
    SortByCorrect(past, NewestFirst);
    NewestFirstWithKey(SortBy(past, NewestFirst), t);
    NewestFirstWithKey(past, t);
    FilterWithKey(events, IsPast(now), EventTime, t, t <= Time(now));
  }

  /** The events whose `NewestFirst` key is `-t` are those at instant `t`. */
  lemma {:induction false} NewestFirstWithKey(xs: seq<Event>, t: int)
    ensures WithKey(xs, NewestFirst, -t) == WithKey(xs, EventTime, t)
    decreases |xs|
  {
    if xs != [] {
      NewestFirstWithKey(xs[1..], t);
    }
  }

  /** An event dated exactly `now` is past, not upcoming. */
  lemma EventAtNowIsPast(events: seq<Event>, now: Stamp, e: Event)
    requires e in events && EventTime(e) == Time(now)
    ensures e in SeparateEventsByDate(events, now).pastEvents
    ensures e !in SeparateEventsByDate(events, now).upcomingEvents
  {
    SeparateEventsByDateSplits(events, now);
  }

  /** `getCommunitySlug`: the id without one trailing ".yaml". */
  function GetCommunitySlug(communityId: string): (slug: string)
    ensures EndsWith(communityId, ".yaml") ==> slug + ".yaml" == communityId
    ensures !EndsWith(communityId, ".yaml") ==> slug == communityId
  {
    if EndsWith(communityId, ".yaml") then communityId[..|communityId| - 5] else communityId
  }

  /** The slug of an entry file is its name without the extension, even when that name itself ends in ".yaml". */
  lemma SlugOfEntry(name: string)
    ensures GetCommunitySlug(name + ".yaml") == name
  {
    assert (name + ".yaml")[|name|..] == ".yaml";
  }
}
