/**
  The calendar page: its per-day lookup over the filtered events, the month grid it renders
  (blank leading cells, then one cell per day holding that day's interest-matching events),
  and the search highlight of a grid cell.
 */
module CalendarPage {
  import opened Wrappers
  import Seqs
  import Text
  import StableSort
  import CalendarDay
  import Interests
  import opened EventFilter

  /** `getEventsByDate` of the calendar page: the filtered events released on `day`. */
  function EventsByDate(events: seq<Event>, interests: seq<string>, query: string, day: int): (r: seq<Event>)
    ensures StableSort.SortedBy(r, ReleaseOf)
    ensures forall e :: e in r <==>
              e in events && EventDay(e) == day && MatchesSearch(e, query) && MatchesInterests(e, interests)
  {
    var kept := Seqs.Filter(events, KeepIf(interests, query));
    FilteredEventsSpec(events, interests, query);
    Seqs.FilterMembers(FilteredEvents(events, interests, query), DayIs(day));
    StableSort.SortFilterCommute(kept, ReleaseOf, DayIs(day));
    OnDay(FilteredEvents(events, interests, query), day)
  }

  /** A grid cell: `date` is absent for the leading blanks. */
  datatype Cell = Cell(date: Option<int>, events: seq<Event>)

  /** Adding `j` days moves the weekday on by `j` columns. */
  lemma WeekdayShift(first: int, j: int)
    ensures (CalendarDay.Weekday(first) + j) % 7 == CalendarDay.Weekday(first + j)
  {
  }

  /** The cell of `day`: the date and the interest-matching events released on it. */
  function DayCell(events: seq<Event>, interests: seq<string>, day: int): Cell {
    Cell(Some(day), InterestEventsOn(events, interests, day))
  }

  /** After `lead` blanks, the cell of every day of an `n`-day month sits in its weekday's column. */
  lemma DayColumns(first: int, lead: int, n: int)
    requires lead == CalendarDay.Weekday(first)
    ensures forall k :: lead <= k < lead + n ==> k % 7 == CalendarDay.Weekday(first + k - lead)
  {
    forall k | lead <= k < lead + n ensures k % 7 == CalendarDay.Weekday(first + k - lead) {
      WeekdayShift(first, k - lead);
    }
  }

  /**
    `getDaysInMonth`: as many blank cells as the weekday of the 1st, then one cell per day of
    the month holding the interest-matching events of that day. The search query plays no
    part. Every day cell lands in the column of its weekday, and the last cell is `lastDay`,
    day zero of the next month.
   */
  method MonthGrid(events: seq<Event>, interests: seq<string>, year: int, month: int) returns (cells: seq<Cell>)
    requires 0 <= month < 12
    ensures var first, lead := CalendarDay.MonthStart(year, month), CalendarDay.Weekday(CalendarDay.MonthStart(year, month));
      && |cells| == lead + CalendarDay.DaysInMonth(year, month)
      && (forall k :: 0 <= k < lead ==> cells[k] == Cell(None, []))
      && (forall k :: lead <= k < |cells| ==> cells[k] == DayCell(events, interests, first + k - lead))
      && (forall k :: lead <= k < |cells| ==> k % 7 == CalendarDay.Weekday(first + k - lead))
      && cells[|cells| - 1] == DayCell(events, interests, CalendarDay.LastOfMonth(year, month))
  {
    var first := CalendarDay.MonthStart(year, month);
    var lastDate := CalendarDay.DaysInMonth(year, month);
    var lead := CalendarDay.Weekday(first);
    DayColumns(first, lead, lastDate);
    cells := FillGrid(events, interests, first, lead, lastDate);
  }

  /** The grid's loops: `lead` blanks, then the cells of the `n` days from `first` on. */
  method FillGrid(events: seq<Event>, interests: seq<string>, first: int, lead: nat, n: nat) returns (cells: seq<Cell>)
    ensures |cells| == lead + n
    ensures forall k :: 0 <= k < lead ==> cells[k] == Cell(None, [])
    ensures forall k :: lead <= k < |cells| ==> cells[k] == DayCell(events, interests, first + k - lead)
    ensures n > 0 ==> cells[|cells| - 1] == DayCell(events, interests, first + n - 1)
  {
    var index := Interests.BuildSubcategoryIndex(interests);
    cells := [];
    var i := 0;
    while i < lead
      invariant 0 <= i <= lead
      invariant |cells| == i
      invariant forall k :: 0 <= k < i ==> cells[k] == Cell(None, [])
    {
      cells := cells + [Cell(None, [])];
      i := i + 1;
    }
    i := 1;
    while i <= n
      invariant 1 <= i <= n + 1
      invariant |cells| == lead + i - 1
      invariant forall k :: 0 <= k < lead ==> cells[k] == Cell(None, [])
      invariant forall k :: lead <= k < |cells| ==> cells[k] == DayCell(events, interests, first + k - lead)
    {
      var day := first + i - 1;
      IndexedDayAgrees(events, interests, index, day);
      var dayEvents := Seqs.Filter(events, OnDayIndexed(interests, index, day));
      assert Cell(Some(day), dayEvents) == DayCell(events, interests, day);
      cells := cells + [Cell(Some(day), dayEvents)];
      i := i + 1;
    }
  }

  /** `events.some(…)` over title and description. */
  function AnyTextMatch(events: seq<Event>, query: string): (r: bool)
    ensures r <==> exists e :: e in events && TextMatch(e, query)
  {
    if events == [] then false
    else
      assert events == [events[0]] + events[1..];
      TextMatch(events[0], query) || AnyTextMatch(events[1..], query)
  }

  /** `hasSearchMatch`: never for a blank query, otherwise when some event of the cell matches the text. */
  function HasSearchMatch(cellEvents: seq<Event>, query: string): (r: bool)
    ensures r <==> !Text.IsBlank(query) && exists e :: e in cellEvents && TextMatch(e, query)
  {
    if Text.IsBlank(query) then false else AnyTextMatch(cellEvents, query)
  }

  /**
    For a non-blank query, a grid cell is highlighted exactly when the page's own lookup for
    that day, which applies the search, finds something.
   */
  lemma HighlightMatchesLookup(events: seq<Event>, interests: seq<string>, query: string, day: int)
    requires !Text.IsBlank(query)
    ensures HasSearchMatch(InterestEventsOn(events, interests, day), query)
        <==> EventsByDate(events, interests, query, day) != []
  {
    assert query != "" by {
      if query == "" {
        assert Text.IsBlank(query);
      }
    }
    InterestEventsOnMembers(events, interests, day);
    var r := EventsByDate(events, interests, query, day);
    if r != [] {
      assert r[0] in r;
    }
  }
}
