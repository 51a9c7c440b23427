/**
  The list page: the same filtered events as the calendar page, shown as day groups in
  ascending date order, and a suggestion dropdown with the first five of them.
 */
module ListPage {
  import Seqs
  import StableSort
  import opened EventFilter
  import DayGroups

  /** The day of an `Object.entries` pair, as the emission sort reads it from the key. */
  function EntryDay(entry: (int, seq<Event>)): int {
    entry.0
  }

  /** `Object.entries(groupedEvents)`: one (day, bucket) pair per key, in key insertion order. */
  function Entries(order: seq<int>, buckets: map<int, seq<Event>>): (r: seq<(int, seq<Event>)>)
    requires forall k :: 0 <= k < |order| ==> order[k] in buckets
    ensures |r| == |order|
    ensures forall k :: 0 <= k < |order| ==> r[k] == (order[k], buckets[order[k]])
  {
    seq(|order|, k requires 0 <= k < |order| => (order[k], buckets[order[k]]))
  }

  /**
    The groups the page renders: filter and sort the events, bucket them by day, and emit
    the buckets sorted by date. Because the filtered events are already sorted, the groups
    come out in strictly ascending date order, one per day that has events, each holding
    that day's filtered events in filtered order.
   */
  method DayGroupsToShow(events: seq<Event>, interests: seq<string>, query: string)
    returns (groups: seq<(int, seq<Event>)>)
    ensures var filtered := FilteredEvents(events, interests, query);
      && |groups| == |DayGroups.DistinctDays(filtered)|
      && (forall k :: 0 <= k < |groups| ==> groups[k].0 == DayGroups.DistinctDays(filtered)[k])
      && (forall k :: 0 <= k < |groups| ==> groups[k].1 == OnDay(filtered, groups[k].0) && groups[k].1 != [])
      && (forall i, j :: 0 <= i < j < |groups| ==> groups[i].0 < groups[j].0)
  {
    var filtered := SelectEvents(events, interests, query);
    var order, buckets := DayGroups.GroupByDay(filtered);
    FilteredEventsSpec(events, interests, query);
    EntriesAlreadySorted(filtered, order, buckets);
    var entries := Entries(order, buckets);
    groups := StableSort.SortBy(entries, EntryDay);
    DayBucketsNonEmpty(filtered);
  }

  /**
    When the events are sorted by release, the day keys come out in ascending order, so sorting
    the entries by day leaves them as they are.
   */
  lemma EntriesAlreadySorted(filtered: seq<Event>, order: seq<int>, buckets: map<int, seq<Event>>)
    requires StableSort.SortedBy(filtered, ReleaseOf)
    requires order == DayGroups.DistinctDays(filtered)
    requires forall d :: d in buckets <==> d in order
    ensures forall k :: 0 <= k < |order| ==> order[k] in buckets
    ensures StableSort.SortBy(Entries(order, buckets), EntryDay) == Entries(order, buckets)
    ensures DayGroups.StrictlyIncreasing(order)
  {
    assert forall k :: 0 <= k < |order| ==> order[k] in order;
    DayGroups.SortedDaysIncrease(filtered);
    var entries := Entries(order, buckets);
    assert StableSort.SortedBy(entries, EntryDay);
    StableSort.SortSorted(entries, EntryDay);
  }

  /** Every day that has an event has a non-empty bucket. */
  lemma DayBucketsNonEmpty(filtered: seq<Event>)
    ensures forall d :: d in DayGroups.DistinctDays(filtered) ==> OnDay(filtered, d) != []
  {
    DayGroups.DistinctDaysMembers(filtered);
    forall d | d in DayGroups.DistinctDays(filtered) ensures OnDay(filtered, d) != [] {
      var e :| e in filtered && EventDay(e) == d;
      Seqs.FilterMembers(filtered, DayIs(d));
      assert e in OnDay(filtered, d);
    }
  }

  /** `filteredEvents.slice(0, 5)`: the first five filtered events, or all of them when fewer. */
  function Suggestions(filtered: seq<Event>): (r: seq<Event>)
    ensures |r| == if |filtered| < 5 then |filtered| else 5
    ensures r <= filtered
  {
    filtered[..if |filtered| < 5 then |filtered| else 5]
  }

  /** The suggestions are matching events released no later than any filtered event left out. */
  lemma SuggestionsAreEarliest(events: seq<Event>, interests: seq<string>, query: string)
    ensures var filtered := FilteredEvents(events, interests, query);
      var shown := Suggestions(filtered);
      && (forall e :: e in shown ==> e in events && MatchesSearch(e, query) && MatchesInterests(e, interests))
      && (forall i, j :: 0 <= i < |shown| <= j < |filtered| ==> shown[i].release <= filtered[j].release)
  {
    var filtered := FilteredEvents(events, interests, query);
    FilteredEventsSpec(events, interests, query);
    var shown := Suggestions(filtered);
    forall e | e in shown ensures e in filtered {
      var k :| 0 <= k < |shown| && shown[k] == e;
      assert filtered[k] == e;
    }
    forall i, j | 0 <= i < |shown| <= j < |filtered| ensures shown[i].release <= filtered[j].release {
      assert shown[i] == filtered[i];
      assert ReleaseOf(filtered[i]) <= ReleaseOf(filtered[j]);
    }
  }
}
