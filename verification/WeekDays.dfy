/**
  Which part of a day the week view shows of an event, told by its first and last instant in minutes.
 */
module WeekDays {
  import opened WeekGrid
  import opened Wrappers

  /** The event has a date and a time of day to start at, and is neither a task nor all day long. */
  ghost predicate IsTimed(ev: TimedItem, date: int, minutes: nat) {
    && !ev.isTask && !ev.allDay && ev.dtstart.date == Some(date) && ev.dtstart.hasTime
    && ev.dtstart.minutes == Some(minutes) && minutes < DAY
  }

  /** And a date and a time to end at, to the minute. */
  ghost predicate EndsAt(ev: TimedItem, date: int, minutes: nat) {
    && ev.dtend.Some? && ev.dtend.value.date == Some(date) && ev.dtend.value.hasTime
    && ev.dtend.value.minutes == Some(minutes) && minutes < DAY && (ev.dtend.value.midnight <==> minutes == 0)
  }

  /** What two stretches of time have in common, if anything. */
  function Common(from: int, to: int, first: int, last: int): Option<(int, int)> {
    var (a, b) := (if from < first then first else from, if to < last then to else last);
    if a < b then Some((a, b)) else None
  }

  /** An event that ends after it starts is shown on each day for the minutes it has in common with it, and on no other. */
  lemma ShownInCommon(ev: TimedItem, day: int, s: int, m: nat, e: int, n: nat)
    requires IsTimed(ev, s, m) && EndsAt(ev, e, n) && s * DAY + m < e * DAY + n
    ensures TimedRange(ev, day) ==
            match Common(s * DAY + m, e * DAY + n, day * DAY, (day + 1) * DAY)
            case None => None
            case Some((a, b)) => Some(Span(a - day * DAY, b - day * DAY))
  {
  }

  /** Without an end it is shown for an hour, on the day it starts and not beyond. */
  lemma HourWithoutEnd(ev: TimedItem, day: int, s: int, m: nat)
    requires IsTimed(ev, s, m) && ev.dtend.None?
    ensures TimedRange(ev, day) == if day == s then Some(Span(m, if m + 60 < DAY then m + 60 else DAY)) else None
  {
  }

  /** A time of day that cannot be read counts as midnight, and without an end the event lasts an hour. */
  lemma UnreadableTime(ev: TimedItem, day: int, s: int)
    requires !ev.isTask && !ev.allDay && ev.dtstart == Stamp(Some(s), true, None, ev.dtstart.midnight) && ev.dtend.None?
    ensures TimedRange(ev, day) == if day == s then Some(Span(0, 60)) else None
  {
  }

  /** If it ends no later than it starts, for half an hour. */
  lemma HalfAnHour(ev: TimedItem, day: int, s: int, m: nat, n: nat)
    requires IsTimed(ev, s, m) && EndsAt(ev, s, n) && n <= m
    ensures TimedRange(ev, day) == if day == s then Some(Span(m, if m + 30 < DAY then m + 30 else DAY)) else None
  {
  }

  /** If it ends on a date without a time, to the end of the day before that. */
  lemma ToTheDate(ev: TimedItem, day: int, s: int, m: nat, e: int)
    requires IsTimed(ev, s, m) && ev.dtend.Some? && ev.dtend.value.date == Some(e) && !ev.dtend.value.hasTime && s < e
    ensures TimedRange(ev, day) == if s <= day < e then Some(Span(if day == s then m else 0, DAY)) else None
  {
  }

  /** If it ends on an earlier date, only on the day it starts. */
  lemma EndsEarlier(ev: TimedItem, day: int, s: int, m: nat, e: int)
    requires IsTimed(ev, s, m) && ev.dtend.Some? && ev.dtend.value.date == Some(e) && e < s
    ensures TimedRange(ev, day).Some? <==> day == s
  {
  }

  /** Tasks, events that last all day and events without a time are not shown among the timed ones. */
  lemma NotAmongTimed(ev: TimedItem, day: int)
    requires ev.isTask || ev.allDay || !ev.dtstart.hasTime || ev.dtstart.date.None?
    ensures TimedRange(ev, day) == None
  {
  }

  /** An event of whole days is on the days from the first to before the end, and on one at least. */
  lemma DaysOfAllDay(ev: TimedItem, day: int, s: int)
    requires ev.dtstart.date == Some(s) && ev.allDay
    ensures EventOnDay(ev, day) <==>
              day == s || (ev.dtend.Some? && ev.dtend.value.date.Some? && s <= day < ev.dtend.value.date.value)
  {
  }

  /** Blocks that are sorted start one after the other, and those that start together end one after the other. */
  lemma SortedByStartThenEnd(spans: seq<Span>, i: nat, j: nat)
    requires Sorted(spans) && i < j < |spans|
    ensures spans[i].start <= spans[j].start
    ensures spans[i].start == spans[j].start ==> spans[i].end <= spans[j].end
  {
  }

  // ----- the blocks of a day -----

  lemma {:induction false} InsertKeepsAll<T>(s: seq<T>, x: T, key: T -> Span)
    ensures multiset(Insert(s, x, key)) == multiset(s) + multiset{x}
  {
    hide Le;
    if s != [] {
      var k := |s| - 1;
      InsertKeepsAll(s[..k], x, key);
      assert s == s[..k] + [s[k]];
    }
  }

  lemma {:induction false} SortKeepsAll<T>(s: seq<T>, key: T -> Span)
    ensures multiset(Sort(s, key)) == multiset(s)
  {
    if s != [] {
      var k := |s| - 1;
      SortKeepsAll(s[..k], key);
      InsertKeepsAll(Sort(s[..k], key), s[k], key);
      assert s == s[..k] + [s[k]];
    }
  }

  lemma {:induction false} TimedAre(items: seq<TimedItem>, day: int, item: TimedItem)
    ensures match TimedRange(item, day)
            case None => forall e | e in TimedOf(items, day) :: e.item != item
            case Some(range) => multiset(TimedOf(items, day))[Entry(item, range)] == multiset(items)[item]
  {
    hide TimedRange;
    if items != [] {
      var k := |items| - 1;
      TimedAre(items[..k], day, item);
      assert items == items[..k] + [items[k]];
    }
  }

  /** An event is laid out as often as it is given, with its part of the day, if it has one, and else not at all. */
  lemma EveryEventHasItsBlock(items: seq<TimedItem>, day: int, item: TimedItem)
    ensures var laidOut := Sort(TimedOf(items, day), SpanOfEntry);
            match TimedRange(item, day)
            case None => forall e | e in laidOut :: e.item != item
            case Some(range) => multiset(laidOut)[Entry(item, range)] == multiset(items)[item]
  {
    hide TimedRange, TimedOf, Sort;
    var timed := TimedOf(items, day);
    TimedAre(items, day, item);
    SortKeepsAll(timed, SpanOfEntry);
    forall e | e in Sort(timed, SpanOfEntry) ensures e in timed {
      assert e in multiset(timed);
    }
  }
}
