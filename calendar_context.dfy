/**
  The calendar context: the loaded events, the user's interest Set with its copy in
  `localStorage`, and the context's own `getEventsByDate`.
 */
module CalendarContext {
  import Seqs
  import StableSort
  import Interests
  import ListToggle
  import opened EventFilter

  /** `STORAGE_KEY`. */
  const STORAGE_KEY: string := "userInterests"

  /**
    The provider's state. `interests` is the Set in iteration (insertion) order; `storage`
    stands for `localStorage`, each key holding the array that its JSON text encodes.
   */
  class CalendarStore {
    var events: seq<Event>
    var interests: seq<string>
    var storage: map<string, seq<string>>

    /** A Set holds each interest once. */
    ghost predicate Valid()
      reads this
    {
      Seqs.NoDup(interests)
    }

    /** The initial state: no events, an empty interest Set, and whatever the storage holds. */
    constructor (saved: map<string, seq<string>>)
      ensures Valid()
      ensures events == [] && interests == [] && storage == saved
    {
      events, interests, storage := [], [], saved;
    }

    /** `loadUserInterests`: `new Set(JSON.parse(saved))` when something is saved, else no change. */
    method LoadInterests()
      requires Valid()
      modifies this
      ensures Valid()
      ensures STORAGE_KEY in storage ==> interests == Seqs.Dedup(storage[STORAGE_KEY])
      ensures STORAGE_KEY !in storage ==> interests == old(interests)
      ensures events == old(events) && storage == old(storage)
    {
      if STORAGE_KEY in storage {
        interests := Seqs.Dedup(storage[STORAGE_KEY]);
      }
    }

    /**
      `toggleInterest`: delete a present interest, add an absent one at the end, and store the
      array of the new Set. A later `LoadInterests` reads back the same Set.
     */
    method ToggleInterest(interest: string)
      requires Valid()
      modifies this
      ensures Valid()
      ensures interests == ListToggle.Toggle(old(interests), interest)
      ensures interest in interests <==> interest !in old(interests)
      ensures forall i :: i != interest ==> (i in interests <==> i in old(interests))
      ensures storage == old(storage)[STORAGE_KEY := interests]
      ensures Seqs.Dedup(storage[STORAGE_KEY]) == interests
      ensures events == old(events)
    {
      ListToggle.ToggleNoDup(interests, interest);
      interests := ListToggle.Toggle(interests, interest);
      storage := storage[STORAGE_KEY := interests];
      Seqs.DedupNoDup(interests);
    }

    /**
      The context's `getEventsByDate`: build the subcategory index, then keep the events of
      `day` that pass the interest test, in their loaded order. No search and no sort: sorted,
      the result is the calendar page's selection for that day with an empty query.
     */
    method EventsByDate(day: int) returns (r: seq<Event>)
      ensures r == InterestEventsOn(events, interests, day)
      ensures forall e :: e in r <==> e in events && EventDay(e) == day && MatchesInterests(e, interests)
      ensures StableSort.SortBy(r, ReleaseOf) == OnDay(FilteredEvents(events, interests, ""), day)
    {
      var index := Interests.BuildSubcategoryIndex(interests);
      IndexedDayAgrees(events, interests, index, day);
      r := Seqs.Filter(events, OnDayIndexed(interests, index, day));
      InterestEventsOnMembers(events, interests, day);
      InterestEventsAgreeWithCalendar(events, interests, day);
    }
  }
}
