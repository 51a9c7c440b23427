/**
  The event filter written three times in the application (calendar page, list page and
  calendar context): an interest test with subcategory precedence, a case-insensitive
  search, a stable sort by release instant, and the per-day selections built on them.
 */
module EventFilter {
  import opened Wrappers
  import Seqs
  import Text
  import StableSort
  import CalendarDay
  import Interests

  /** A row of the `events` table; `release` is `release_date` as an instant in milliseconds. */
  datatype Event = Event(
    id: string,
    title: string,
    description: string,
    release: int,
    category: string,
    subcategory1: Option<string>,
    subcategory2: Option<string>,
    link: Option<string>)

  /** The sort key `new Date(e.release_date).getTime()`. */
  function ReleaseOf(e: Event): int {
    e.release
  }

  /** JavaScript truthiness of a nullable string: present and not empty. */
  predicate Truthy(o: Option<string>) {
    o.Some? && o.value != ""
  }

  /** `sub && subs.includes(sub)`. */
  predicate ListedSubcategory(sub: Option<string>, subs: seq<string>) {
    Truthy(sub) && sub.value in subs
  }

  /**
    The interest test: everything passes an empty interest set; a category with selected
    subcategories admits only events tagged with one of them; any other category must be
    selected as a bare interest.
   */
  predicate MatchesInterests(e: Event, interests: seq<string>) {
    if interests == [] then true
    else
      var subs := Interests.SubcategoriesFor(interests, e.category);
      if |subs| > 0 then ListedSubcategory(e.subcategory1, subs) || ListedSubcategory(e.subcategory2, subs)
      else e.category in Seqs.Filter(interests, Interests.IsBareInterest)
  }

  /** `subcategoriesByMainCategory` as built from `interests` (see Interests.BuildSubcategoryIndex). */
  ghost predicate IndexesSubcategories(interests: seq<string>, index: map<string, seq<string>>) {
    (forall c :: c in index <==> Interests.SubcategoriesFor(interests, c) != [])
    && (forall c :: c in index ==> index[c] == Interests.SubcategoriesFor(interests, c))
  }

  /** The interest test as the pages write it, looking the category up in the index. */
  predicate MatchesInterestsIndexed(e: Event, interests: seq<string>, index: map<string, seq<string>>) {
    if interests == [] then true
    else if e.category in index && |index[e.category]| > 0 then
      ListedSubcategory(e.subcategory1, index[e.category]) || ListedSubcategory(e.subcategory2, index[e.category])
    else e.category in Seqs.Filter(interests, Interests.IsBareInterest)
  }

  /** Reading the index gives the same verdict as the interest test. */
  lemma IndexedMatchAgrees(e: Event, interests: seq<string>, index: map<string, seq<string>>)
    requires IndexesSubcategories(interests, index)
    ensures MatchesInterestsIndexed(e, interests, index) == MatchesInterests(e, interests)
  {
    if e.category !in index {
      assert Interests.SubcategoriesFor(interests, e.category) == [];
    }
  }

  /** The lower-cased query occurs in the lower-cased title or in a non-empty description. */
  function TextMatch(e: Event, query: string): (r: bool)
    ensures r <==> ((exists k :: Text.OccursAt(Text.Lower(e.title), Text.Lower(query), k))
                    || (e.description != "" && exists k :: Text.OccursAt(Text.Lower(e.description), Text.Lower(query), k)))
  {
    Text.Includes(Text.Lower(e.title), Text.Lower(query))
    || (e.description != "" && Text.Includes(Text.Lower(e.description), Text.Lower(query)))
  }

  /** `searchQuery === '' || …`: the empty query matches every event. */
  predicate MatchesSearch(e: Event, query: string) {
    query == "" || TextMatch(e, query)
  }

  /** The predicate the calendar and list pages filter with. */
  function KeepIf(interests: seq<string>, query: string): Event -> bool {
    e => MatchesSearch(e, query) && MatchesInterests(e, interests)
  }

  /** The search alone, as a predicate. */
  function SearchFor(query: string): Event -> bool {
    e => MatchesSearch(e, query)
  }

  /** `filteredEvents` of the calendar and list pages: filter, then sort by release instant. */
  function FilteredEvents(events: seq<Event>, interests: seq<string>, query: string): seq<Event> {
    StableSort.SortBy(Seqs.Filter(events, KeepIf(interests, query)), ReleaseOf)
  }

  /** The calendar day of an event's release. */
  function EventDay(e: Event): int {
    CalendarDay.DayOf(e.release)
  }

  /** The predicate "released on `day`". */
  function DayIs(day: int): Event -> bool {
    e => EventDay(e) == day
  }

  /** The events of `s` released on `day`, in the order of `s`. */
  function OnDay(s: seq<Event>, day: int): seq<Event> {
    Seqs.Filter(s, DayIs(day))
  }

  /** The predicate of the month grid and the context: released on `day` and matching the interests. */
  function OnDayMatching(interests: seq<string>, day: int): Event -> bool {
    e => EventDay(e) == day && MatchesInterests(e, interests)
  }

  /** The same day filter as the pages write it, reading the subcategory index. */
  function OnDayIndexed(interests: seq<string>, index: map<string, seq<string>>, day: int): Event -> bool {
    e => EventDay(e) == day && MatchesInterestsIndexed(e, interests, index)
  }

  /** The interest-matching events of one day, unsorted and unsearched. */
  function InterestEventsOn(events: seq<Event>, interests: seq<string>, day: int): seq<Event> {
    Seqs.Filter(events, OnDayMatching(interests, day))
  }

  /** Filtering a day through the subcategory index keeps the same events as the direct test. */
  lemma IndexedDayAgrees(events: seq<Event>, interests: seq<string>, index: map<string, seq<string>>, day: int)
    requires IndexesSubcategories(interests, index)
    ensures Seqs.Filter(events, OnDayIndexed(interests, index, day)) == InterestEventsOn(events, interests, day)
  {
    forall e | e in events ensures OnDayIndexed(interests, index, day)(e) == OnDayMatching(interests, day)(e) {
      IndexedMatchAgrees(e, interests, index);
    }
    Seqs.FilterCongruent(events, OnDayIndexed(interests, index, day), OnDayMatching(interests, day));
  }

  /** The filter predicate of the pages, reading the index. */
  function KeepIndexed(interests: seq<string>, index: map<string, seq<string>>, query: string): Event -> bool {
    e => MatchesSearch(e, query) && MatchesInterestsIndexed(e, interests, index)
  }

  /**
    The `filteredEvents` memo of the calendar and list pages: build the subcategory index,
    filter with it, then sort by release instant.
   */
  method SelectEvents(events: seq<Event>, interests: seq<string>, query: string) returns (filtered: seq<Event>)
    ensures filtered == FilteredEvents(events, interests, query)
  {
    var index := Interests.BuildSubcategoryIndex(interests);
    forall e | e in events ensures KeepIndexed(interests, index, query)(e) == KeepIf(interests, query)(e) {
      IndexedMatchAgrees(e, interests, index);
    }
    Seqs.FilterCongruent(events, KeepIndexed(interests, index, query), KeepIf(interests, query));
    filtered := StableSort.SortBy(Seqs.Filter(events, KeepIndexed(interests, index, query)), ReleaseOf);
  }

  /** With no interests selected, the pages show exactly the search matches, sorted. */
  lemma NoInterestsShowsAll(events: seq<Event>, query: string)
    ensures FilteredEvents(events, [], query)
         == StableSort.SortBy(Seqs.Filter(events, SearchFor(query)), ReleaseOf)
  {
    Seqs.FilterCongruent(events, KeepIf([], query), SearchFor(query));
  }

  /** Subcategory `sub` of an event is selected by interest `i` for the event's category. */
  predicate SelectedBy(sub: Option<string>, category: string, i: string) {
    Truthy(sub) && Interests.SelectsSubcategory(i, category, sub.value)
  }

  /**
    Once any subcategory of the event's category is selected, the event passes exactly when
    one of its (non-empty) subcategories is selected; a bare selection of the category no
    longer counts.
   */
  lemma SubcategoriesOverride(e: Event, interests: seq<string>)
    requires exists i :: i in interests && Interests.IsSubcategoryInterest(i) && Interests.MainCategory(i) == e.category
    ensures MatchesInterests(e, interests)
        <==> exists i :: i in interests
               && (SelectedBy(e.subcategory1, e.category, i) || SelectedBy(e.subcategory2, e.category, i))
  {
    Interests.HasSubcategoriesFor(interests, e.category);
    Interests.SubcategoriesForMembers(interests, e.category);
  }

  /** With a subcategory of its category selected, an event without subcategories is hidden. */
  lemma UntaggedEventHidden(e: Event, interests: seq<string>)
    requires exists i :: i in interests && Interests.IsSubcategoryInterest(i) && Interests.MainCategory(i) == e.category
    requires !Truthy(e.subcategory1) && !Truthy(e.subcategory2)
    ensures !MatchesInterests(e, interests)
  {
    SubcategoriesOverride(e, interests);
  }

  /** Without selected subcategories of its category, an event passes iff its category is a selected bare interest. */
  lemma BareCategoryDecides(e: Event, interests: seq<string>)
    requires interests != []
    requires forall i :: i in interests && Interests.IsSubcategoryInterest(i) ==> Interests.MainCategory(i) != e.category
    ensures MatchesInterests(e, interests) <==> e.category in interests && ':' !in e.category
  {
    Interests.HasSubcategoriesFor(interests, e.category);
    Seqs.FilterMembers(interests, Interests.IsBareInterest);
  }

  /** A query that literally occurs in the title matches, whatever its letter case. */
  lemma TitleOccurrenceMatches(e: Event, query: string, k: int)
    requires Text.OccursAt(e.title, query, k)
    ensures TextMatch(e, query) && MatchesSearch(e, query)
  {
    Text.LowerOccurs(e.title, query, k);
  }

  /** Queries that differ only in letter case select the same events. */
  lemma SearchIgnoresCase(e: Event, q1: string, q2: string)
    requires Text.Lower(q1) == Text.Lower(q2)
    ensures MatchesSearch(e, q1) == MatchesSearch(e, q2)
  {
    assert |q1| == |Text.Lower(q1)| && |q2| == |Text.Lower(q2)|;
  }

  /**
    `filteredEvents` is sorted by release instant and is a permutation of the events that
    pass both the search and the interest test.
   */
  lemma FilteredEventsSpec(events: seq<Event>, interests: seq<string>, query: string)
    ensures StableSort.SortedBy(FilteredEvents(events, interests, query), ReleaseOf)
    ensures multiset(FilteredEvents(events, interests, query))
         == multiset(Seqs.Filter(events, KeepIf(interests, query)))
    ensures forall e :: e in FilteredEvents(events, interests, query)
              <==> e in events && MatchesSearch(e, query) && MatchesInterests(e, interests)
  {
    var kept := Seqs.Filter(events, KeepIf(interests, query));
    Seqs.FilterMembers(events, KeepIf(interests, query));
    forall e ensures e in FilteredEvents(events, interests, query) <==> e in kept {
      assert e in FilteredEvents(events, interests, query) <==> e in multiset(kept);
    }
  }

  /** Events released at the same instant keep their original relative order. */
  lemma FilteredEventsStable(events: seq<Event>, interests: seq<string>, query: string, t: int)
    ensures Seqs.Filter(FilteredEvents(events, interests, query), StableSort.KeyIs(ReleaseOf, t))
         == Seqs.Filter(Seqs.Filter(events, KeepIf(interests, query)), StableSort.KeyIs(ReleaseOf, t))
  {
    StableSort.SortStable(Seqs.Filter(events, KeepIf(interests, query)), ReleaseOf, t);
  }

  /** The per-day selection holds exactly the interest-matching events of that day. */
  lemma InterestEventsOnMembers(events: seq<Event>, interests: seq<string>, day: int)
    ensures forall e :: e in InterestEventsOn(events, interests, day)
              <==> e in events && EventDay(e) == day && MatchesInterests(e, interests)
  {
    Seqs.FilterMembers(events, OnDayMatching(interests, day));
  }

  /**
    The unsorted, unsearched per-day selection, once sorted, is the calendar page's selection
    for that day with an empty query: the copies differ only in sorting and search.
   */
  lemma InterestEventsAgreeWithCalendar(events: seq<Event>, interests: seq<string>, day: int)
    ensures StableSort.SortBy(InterestEventsOn(events, interests, day), ReleaseOf)
         == OnDay(FilteredEvents(events, interests, ""), day)
  {
    var keep := KeepIf(interests, "");
    StableSort.SortFilterCommute(Seqs.Filter(events, keep), ReleaseOf, DayIs(day));
    Seqs.FilterFilter(events, keep, DayIs(day));
    Seqs.FilterCongruent(events, Seqs.Both(keep, DayIs(day)), OnDayMatching(interests, day));
  }
}
