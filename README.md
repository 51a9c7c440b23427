# Release calendar: a verified model of its core

The release calendar is a Next.js application. It lists upcoming releases (movies, TV shows,
anime, games, music), lets a user pick interests, and shows matching events as a month grid
and as a date-grouped list. This project is a Dafny model of the application's core logic,
with proofs of what that logic promises:

- **Interest filtering.** Interests are bare categories (`Movies`) or subcategory interests
  (`Movies:Sci-Fi`). Selected subcategories of a category take precedence over the bare
  category. The index `subcategoriesByMainCategory` is built by pushes in a loop
  (`Interests.BuildSubcategoryIndex`) and proved equal to a pure definition
  (`Interests.SubcategoriesFor`). The calendar page, the list page and the calendar context each
  carry an identical copy of this filter; the model defines it once (`EventFilter.MatchesInterests`).
- **Search.** Case-insensitive substring search on the title and a non-empty description.
- **Sorting.** A stable sort by release instant.
- **Grouping.** Events grouped by calendar day, and the groups emitted in date order.
- **Month grid.** Leading blank cells for the weekday of the first, then one cell per day.
- **Interest set.** Toggling and persisting the interest set, and the favourites list.
- **Interests page.** The expanded-category list.
- **Toast queue.** The reducer and its module-level store.
- **Countdown.** The countdown's day/hour/minute/second decomposition.
- **Sign-up form.** Its password checks.
- **Events API route.** A TTL response cache, query construction and the POST validation.

Modelling choices:

- **Instants** (`release_date`, `Date.now()`) are integer milliseconds.
- **Calendar days.** A calendar day is `instant / 86400000`, with a proleptic Gregorian
  calendar counted from 1970-01-01 (a Thursday).
- **Interest sets.** A JavaScript `Set` of interests is a duplicate-free sequence in insertion
  order, so the order in which a `Set` iterates and is persisted is visible.
- **Functions and classes.** Pure computations are functions. State the source mutates in place
  is held in classes:
  - the calendar context's interests and storage;
  - the favourites list;
  - the expanded categories;
  - the toast counter and queue;
  - the route's cache;
  - the sign-up form.

  Loops that push into arrays or records are methods with loop invariants, proved equal to
  those functions.
- **Events API route: cache key.** Dash-free parameters are recovered from the cache key
  (`EventsRoute.CacheKeyFields`). A parameter containing a dash, as the subcategory names
  `Sci-Fi` or `K-Pop` do, can make two different requests share one key
  (`EventsRoute.DashedParametersCollide`).
- **Events API route: POST status.** A successful `POST` answers with the default status 200,
  not 201: the handler passes no status to `NextResponse.json`.
- **Interest toggling.** Toggling a present interest off and on again moves it to the end of
  the persisted list (`ListToggle.ToggleTwiceReorders`). It does not restore the original
  order.

## Model

| member | source | states |
|---|---|---|
| Interests.IsSubcategoryInterest | app/context/CalendarContext.tsx:25-27 | defines an interest as a subcategory interest exactly when it contains a colon |
| Interests.MainCategory | app/calendar/page.tsx:50-52 | the main category is colon-free; it is the whole interest when there is no colon, otherwise the text before the first colon |
| Interests.SubcategoryPart | app/interests/page.tsx:88-90 | `split(":")[1]` exists exactly when the interest has a colon, and is colon-free |
| Interests.SubcategoryInterestRoundTrip | app/interests/page.tsx:92-94 | the `${category}:${sub}` string the checkboxes toggle is a subcategory interest whose main category and subcategory read back as the originals |
| Interests.SubcategoriesForMembers | app/calendar/page.tsx:71-78 | a subcategory is listed under a category exactly when some interest `category:sub` selects it |
| Interests.HasSubcategoriesFor | app/calendar/page.tsx:94 | the list for a category is non-empty exactly when some subcategory interest has that main category |
| Interests.SubcategoriesForAppend | app/calendar/page.tsx:72-78 | each interest contributes independently: the list for a concatenation is the concatenation of the lists |
| Interests.SubcategoriesForSkipsBare | app/calendar/page.tsx:68 | filtering out the bare interests first does not change any list |
| Interests.BuildSubcategoryIndex | app/calendar/page.tsx:71-78 | the record built by the push loop has a key exactly for the categories with selected subcategories, holding that category's subcategories in interest order |
| Interests.IndexStep | app/calendar/page.tsx:71-78 | pushing one more subcategory interest onto its category's list, creating the list when the category is new, keeps the record exact for the longer interest list |
| EventFilter.MatchesInterests | app/calendar/page.tsx:86-103 | defines the interest test: every event passes an empty interest list; an event whose category has selected subcategories passes only when its truthy `subcategory1` or `subcategory2` is one of them; otherwise its category must be selected as a bare interest |
| EventFilter.IndexedMatchAgrees | app/calendar/page.tsx:86-103 | the interest test read through the index agrees with the test on the pure definition |
| EventFilter.MatchesSearch | app/calendar/page.tsx:81-84 | defines the search test: the empty query matches every event, any other query must pass `TextMatch` |
| EventFilter.TextMatch | app/calendar/page.tsx:81-84 | the text match holds exactly when the lower-cased query occurs in the lower-cased title, or in the lower-cased non-empty description |
| EventFilter.SelectEvents | app/calendar/page.tsx:62-107 | builds the index, filters and sorts; the result equals the filtered-and-sorted specification |
| EventFilter.NoInterestsShowsAll | app/calendar/page.tsx:89-92 | with no interests the result is exactly the search-matching events, sorted |
| EventFilter.SubcategoriesOverride | app/calendar/page.tsx:93-98 | once a subcategory of an event's category is selected, the event passes exactly when its subcategory1 or subcategory2 is selected under that category |
| EventFilter.UntaggedEventHidden | app/calendar/page.tsx:95-98 | an event with no truthy subcategory is hidden once a subcategory of its category is selected, even when the bare category is also selected |
| EventFilter.BareCategoryDecides | app/calendar/page.tsx:100-103 | without selected subcategories of its category, a non-empty interest set passes an event exactly when its category is a bare selected interest |
| EventFilter.TitleOccurrenceMatches | app/calendar/page.tsx:83 | any occurrence of the query in the title makes the event match the search |
| EventFilter.SearchIgnoresCase | app/calendar/page.tsx:81-84 | queries equal up to letter case select the same events |
| EventFilter.FilteredEvents | app/calendar/page.tsx:80-106 | defines `filteredEvents`: the events passing both the search and the interest test, stably sorted by release instant |
| EventFilter.FilteredEventsSpec | app/calendar/page.tsx:80-106 | `filteredEvents` is sorted by release instant, is a permutation of the kept events, and keeps exactly the events that match search and interests |
| EventFilter.FilteredEventsStable | app/calendar/page.tsx:106 | events with the same release instant keep their original relative order |
| EventFilter.InterestEventsOn | app/context/CalendarContext.tsx:120-141 | defines the events of one calendar day that pass the interest test, in the order of the event list |
| EventFilter.InterestEventsOnMembers | app/context/CalendarContext.tsx:120-141 | the context's `getEventsByDate` yields exactly the events of that day that pass the interest test; search plays no part |
| EventFilter.InterestEventsAgreeWithCalendar | app/context/CalendarContext.tsx:102-142 | sorting the context's day list gives the calendar page's day list for an empty search |
| CalendarDay.DayOf | app/calendar/page.tsx:169-172 | the calendar day of an instant: the instant lies within that day's milliseconds, so two instants share a day exactly when the page's date, month and year comparison holds |
| CalendarDay.DayOfMonotone | app/calendar/page.tsx:169-172 | a later instant never falls on an earlier calendar day |
| CalendarDay.DaysInMonth | app/calendar/page.tsx:140 | the length of a month under the Gregorian rule, always between 28 and 31 days |
| CalendarDay.MonthStart | app/calendar/page.tsx:139 | defines `firstDay`, `new Date(year, month, 1)`, as January 1 of the year plus the lengths of the earlier months |
| CalendarDay.MonthsFillYear | app/calendar/page.tsx:140 | the twelve month lengths add up to the length of the year, 365 or 366 days |
| CalendarDay.MonthsAdjacent | app/calendar/page.tsx:140 | each month ends the day before the next one starts (December the day before January 1 of the next year); this is what makes day zero of the next month the last day of this one |
| CalendarDay.LastOfMonth | app/calendar/page.tsx:140 | `lastDay`, day zero of the next month, is the first of the month plus `DaysInMonth` minus one, so `lastDay.getDate()` is the month's length |
| CalendarDay.Weekday | app/calendar/page.tsx:161 | `getDay()` of a calendar day: a weekday from 0 (Sunday) to 6 |
| CalendarPage.EventsByDate | app/calendar/page.tsx:126-134 | the page's `getEventsByDate` is sorted and holds exactly the events of that day that match search and interests |
| CalendarPage.WeekdayShift | app/calendar/page.tsx:161-167 | the weekday advances by one per cell, modulo 7 |
| CalendarPage.DayColumns | app/calendar/page.tsx:161-167 | after as many blanks as the weekday of the 1st, every day cell sits in the column of its own weekday |
| CalendarPage.DayCell | app/calendar/page.tsx:166-201 | defines the cell of one day: its date and the events released on it that pass the interest test |
| CalendarPage.MonthGrid | app/calendar/page.tsx:136-205 | weekday-of-the-first blank cells with no events, then one cell per day of the month in order, each holding that day's interest-matching events without the search filter; every day cell sits in its weekday's column, and the last cell is the cell of `lastDay` (`LastOfMonth`) |
| CalendarPage.FillGrid | app/calendar/page.tsx:161-201 | the two loops of `getDaysInMonth`: `lead` blank cells, then the cell of each of the `n` days in order, the last one being the cell of day `first + n - 1` |
| CalendarPage.AnyTextMatch | app/calendar/page.tsx:211-214 | `some` holds exactly when some event of the list matches the query text |
| CalendarPage.HasSearchMatch | app/calendar/page.tsx:208-215 | a blank query highlights nothing; otherwise a cell is highlighted exactly when one of its events matches the text |
| CalendarPage.HighlightMatchesLookup | app/calendar/page.tsx:423-424 | for a non-blank query, a grid cell is highlighted exactly when the page's `getEventsByDate` for that day is non-empty |
| DayGroups.DistinctDaysMembers | app/calendar/page.tsx:116-118 | a day has a bucket exactly when some event falls on it |
| DayGroups.OnDayEmpty | app/calendar/page.tsx:116-118 | a day on which no event falls has no events |
| DayGroups.DistinctDaysSnoc | app/calendar/page.tsx:112-121 | one more event adds its day to the bucket order only when the day is new |
| DayGroups.OnDaySnoc | app/calendar/page.tsx:120 | one more event is appended to its own day's bucket only |
| DayGroups.GroupByDay | app/calendar/page.tsx:109-124 | the `forEach` with pushes creates buckets in order of first appearance, exactly one per day with events, each holding that day's events in filtered order |
| DayGroups.GroupStep | app/calendar/page.tsx:112-121 | pushing one more event onto its day's bucket, creating the bucket and appending the day when it is new, keeps the grouping exact for the longer event list |
| DayGroups.EachEventInOneBucket | app/list/page.tsx:84-99 | every filtered event is in its own day's bucket and in no other |
| DayGroups.GroupSizesSum | app/list/page.tsx:84-99 | the bucket sizes add up to the number of filtered events |
| DayGroups.DedupIncreasing | app/list/page.tsx:282-284 | de-duplicating a non-decreasing day list gives a strictly increasing one |
| DayGroups.SortedDaysIncrease | app/list/page.tsx:81-96 | for sorted events the buckets are created in strictly increasing day order |
| ListPage.Entries | app/list/page.tsx:283 | `Object.entries`: one `(day, bucket)` pair per key, in key order |
| ListPage.DayGroupsToShow | app/list/page.tsx:37-99 | the rendered groups are the distinct days of the filtered events in strictly ascending order, each with a non-empty bucket of that day's filtered events in filtered order |
| ListPage.EntriesAlreadySorted | app/list/page.tsx:283-285 | the day keys of date-sorted events come out in strictly ascending order, so sorting the entries by date leaves them unchanged |
| ListPage.DayBucketsNonEmpty | app/list/page.tsx:84-99 | every day that has a filtered event has a non-empty bucket |
| ListPage.Suggestions | app/list/page.tsx:262 | the dropdown shows the first min(5, n) filtered events |
| ListPage.SuggestionsAreEarliest | app/calendar/page.tsx:370 | the suggestions are filtered events released no later than any event not shown |
| ListToggle.Toggle | app/hooks/useEvents.ts:62-68 | the toggled element's membership flips and no other element's membership changes |
| ListToggle.ToggleKeepsOthers | app/hooks/useEvents.ts:62-68 | the other elements keep their relative order and multiplicity |
| ListToggle.ToggleNoDup | app/hooks/useEvents.ts:62-68 | a duplicate-free list stays duplicate-free |
| ListToggle.ToggleTwiceAbsent | app/hooks/useEvents.ts:65-67 | toggling an absent element twice restores the list exactly |
| ListToggle.ToggleTwicePresent | app/hooks/useEvents.ts:63-64 | toggling a present element twice removes every copy and appends one at the end, so membership is restored |
| ListToggle.ToggleTwiceReorders | app/context/CalendarContext.tsx:86-93 | toggling a present interest twice can change the persisted order |
| Favorites.FavoritesStore.constructor | app/hooks/useEvents.ts:21 | the favourites list starts empty |
| Favorites.FavoritesStore.ToggleFavorite | app/hooks/useEvents.ts:61-69 | the favourites list becomes the toggled list: the id's `isFavorite` flips, every other id's stays |
| Favorites.FavoritesStore.IsFavorite | app/hooks/useEvents.ts:71-73 | defines `isFavorite`: the identifier is in the favourites list |
| CalendarContext.CalendarStore.constructor | app/context/CalendarContext.tsx:34-38 | no events and an empty interest set, over whatever the storage holds |
| CalendarContext.CalendarStore.LoadInterests | app/context/CalendarContext.tsx:66-76 | a saved list is loaded as the set of its distinct entries in first-occurrence order; with nothing saved the interests are unchanged |
| CalendarContext.CalendarStore.ToggleInterest | app/context/CalendarContext.tsx:83-100 | the interest's membership flips, the others stay, the set stays duplicate-free, and the stored list under `userInterests` is the new set, reloading to the same set |
| CalendarContext.CalendarStore.EventsByDate | app/context/CalendarContext.tsx:102-142 | the index-building method returns the events of that day passing the interest test, in original order, and sorted it equals the calendar page's day list |
| InterestsPage.ParentCategories | app/interests/page.tsx:43-47 | the categories collected are exactly the main categories of the subcategory interests |
| InterestsPage.InitialExpanded | app/interests/page.tsx:40-52 | the initial expanded list is the distinct parent categories in first-occurrence order |
| InterestsPage.SyncExpanded | app/interests/page.tsx:55-74 | the previous list is kept as a prefix, the new parent categories not yet present are appended in order, and no duplicate is introduced |
| InterestsPage.SyncStep | app/interests/page.tsx:66-71 | one step of the sync: the next parent category is appended exactly when the previous list lacks it, keeping the appended part equal to the filtered parents so far and free of duplicates |
| InterestsPage.ExpansionState.constructor | app/interests/page.tsx:52 | the expanded list starts as the initial expanded categories |
| InterestsPage.ExpansionState.ToggleExpand | app/interests/page.tsx:80-86 | `toggleExpand` flips the category's membership by the shared toggle |
| InterestsPage.ExpansionState.Sync | app/interests/page.tsx:65-73 | the old list is kept as a prefix; the appended part is the distinct parent categories of selected subcategories missing from it, in interest order; the members are the old ones plus the parents, and a duplicate-free list stays duplicate-free |
| InterestsPage.IsSubcategorySelected | app/interests/page.tsx:92-94 | defines `isSubcategorySelected`: the interest `Category:Sub` is among the selected interests |
| InterestsPage.SelectedSubcategoryFilters | app/interests/page.tsx:149-150 | a checked subcategory box is a subcategory the calendar filter lists for that category |
| InterestsPage.HasSubcategorySelected | app/interests/page.tsx:111-113 | holds exactly when some subcategory interest has this main category |
| InterestsPage.HasSubcategoryMeansPrecedence | app/interests/page.tsx:111-113 | the page highlights a category exactly when subcategory precedence applies to it in the filters |
| Toast.Reduce | app/components/ui/use-toast.tsx:64-120 | ADD puts the toast first and truncates to 3; UPDATE merges the patch into toasts with its id only; DISMISS sets duration 0 on the matching toast, or on all without an id; REMOVE empties the queue without an id, otherwise drops exactly the toasts with that id |
| Toast.ReduceWithinLimit | app/components/ui/use-toast.tsx:69 | no single action grows a queue of at most 3 toasts beyond 3 |
| Toast.ReachableWithinLimit | app/components/ui/use-toast.tsx:126-131 | any sequence of dispatches from a queue within the limit stays within the limit |
| Toast.RemoveByIdKeepsOthers | app/components/ui/use-toast.tsx:115-118 | removing by id leaves no toast with that id and keeps every other toast in order |
| Toast.IdsDistinctBeforeWrap | app/components/ui/use-toast.tsx:33-36 | the ids of the next `MAX_SAFE_INTEGER` calls of `genId` are pairwise distinct |
| Toast.EffectiveDuration | app/components/ui/use-toast.tsx:150 | an absent or zero duration becomes 5000, any other is kept |
| Toast.ToastStore.constructor | app/components/ui/use-toast.tsx:124 | the counter starts at 0 and the queue empty |
| Toast.ToastStore.GenId | app/components/ui/use-toast.tsx:33-36 | the counter advances modulo `MAX_SAFE_INTEGER` and the id is its decimal rendering |
| Toast.ToastStore.Dispatch | app/components/ui/use-toast.tsx:126-131 | the state becomes the reducer's result and stays within the limit |
| Toast.ToastStore.MakeToast | app/components/ui/use-toast.tsx:135-159 | `toast()` takes a fresh id and puts the toast, with its effective duration, first in the queue |
| Toast.ToastStore.UpdateToastWith | app/components/ui/use-toast.tsx:138-142 | `update` dispatches an UPDATE carrying this toast's id |
| Toast.ToastStore.Dismiss | app/components/ui/use-toast.tsx:143-177 | `dismiss` dispatches DISMISS for one id, or for all |
| Countdown.CalculateTimeLeft | app/components/CountdownTimer.tsx:19-41 | a past or present target gives all zeros with `isPast`; otherwise days, hours, minutes and seconds are in range and the time they span is within one second below the difference |
| Countdown.FieldsOfSeconds | app/components/CountdownTimer.tsx:35-38 | each field is the mixed-radix digit of the whole seconds |
| Countdown.TimeLeftUnique | app/components/CountdownTimer.tsx:34-40 | the countdown is the only in-range decomposition spanning the difference to within one second |
| EventsRoute.CacheKey | app/api/events/route.ts:19 | defines the cache key: `events` and the four query parameters, each absent or empty one read as `all`, joined by dashes |
| EventsRoute.CacheKeyFields | app/api/events/route.ts:19 | for dash-free parameters, splitting the key on `-` gives `events` and the four parameters, with `all` for absent or empty ones |
| EventsRoute.CacheKeySeparates | app/api/events/route.ts:19 | dash-free requests that share a key agree on every parameter up to the `all` substitution |
| EventsRoute.AbsentIsAll | app/api/events/route.ts:19 | an absent, an empty and a literal `all` category share one cache entry |
| EventsRoute.DashedParametersCollide | app/api/events/route.ts:19 | moving a dash-joined part from one parameter to the next gives the same key |
| EventsRoute.Lookup | app/api/events/route.ts:73-78 | defines a cache lookup: with `localStorage` available, the value stored under the key when its expiry instant is later than now, otherwise nothing |
| EventsRoute.AfterLookup | app/api/events/route.ts:73-81 | defines the store after a lookup: an entry under the key whose expiry has passed is removed, nothing else changes |
| EventsRoute.AfterStore | app/api/events/route.ts:97-105 | defines the store after caching: with `localStorage` available, the value is stored under the key with expiry now plus the duration in milliseconds; without it the store is unchanged |
| EventsRoute.CachedUntilExpiry | app/api/events/route.ts:77-104 | a value cached at `now` for `d` seconds is answered strictly before `now + 1000·d` and not afterwards |
| EventsRoute.MissClearsKey | app/api/events/route.ts:79-87 | a lookup that misses leaves no entry under its key and leaves every other key alone |
| EventsRoute.UnavailableCacheInert | app/api/events/route.ts:73-97 | without `localStorage` nothing is answered, removed or stored |
| EventsRoute.ResponseCache.constructor | app/api/events/route.ts:73 | an empty store, available exactly when `localStorage` exists |
| EventsRoute.ResponseCache.GetCachedResponse | app/api/events/route.ts:68-88 | answers the value exactly for an unexpired entry, and removes an expired one |
| EventsRoute.ResponseCache.CacheResponse | app/api/events/route.ts:91-109 | stores the value with `expires = now + duration·1000`, only when `localStorage` exists |
| EventsRoute.QueryFor | app/api/events/route.ts:27-46 | the query reads the `events` table ordered ascending by `release_date` |
| EventsRoute.QueryForMembers | app/api/events/route.ts:29-44 | a filter is in the query exactly when it is the filter of a truthy parameter: `category` equality, the comma-split `subcategories` membership, the `startDate` lower bound or the `endDate` upper bound |
| EventsRoute.QueryForColumns | app/api/events/route.ts:29-44 | one filter per truthy parameter and no other, each on the `category` or the `release_date` column; no filter touches the subcategory columns |
| EventsRoute.QueryForCategoryFilters | app/api/events/route.ts:29-36 | an equality on `category` is present exactly for a truthy `category`, with its value; a membership filter on `category` exactly for truthy `subcategories`, with the comma-split list |
| EventsRoute.QueryForDateFilters | app/api/events/route.ts:38-44 | the lower bound on `release_date` is present exactly for a truthy `startDate` and the upper bound exactly for a truthy `endDate`, each with that value |
| EventsRoute.BuildQuery | app/api/events/route.ts:27-46 | the step-by-step reassignments build exactly that query |
| EventsRoute.HandleGet | app/api/events/route.ts:10-64 | defines `GET`: a cache hit answers 200 with the cached rows; a miss runs the query, answers 200 with its rows and caches them for `CACHE_DURATION` seconds, or answers 500 with the error message, or 500 `Internal Server Error` when the query throws |
| EventsRoute.CacheHitSkipsDatabase | app/api/events/route.ts:22-25 | a cache hit answers 200 with the cached rows, whatever the database would say, and leaves the cache as it is |
| EventsRoute.RepeatedGetServedFromCache | app/api/events/route.ts:22-58 | after a GET that read rows, the same request within 300 seconds is answered with those rows without the database |
| EventsRoute.FailedGetNotCached | app/api/events/route.ts:48-64 | a query error or an exception answers 500 with an error body and caches nothing |
| EventsRoute.Get | app/api/events/route.ts:10-65 | the handler's response and cache state are those of the GET specification |
| EventsRoute.HandlePost | app/api/events/route.ts:111-156 | an insert is attempted exactly for a parsed body with truthy title, release_date and category, carrying the body's fields; a missing field answers 400 `Missing required fields`; an unparsable body, or one that parses to JSON `null`, answers 500 (both are `None`); the insert's error or exception answers 500; success answers 200 with the row |
| EventsRoute.MissingRequired | app/api/events/route.ts:116 | defines the rejection test: the title, release date or category is absent or empty |
| EventsRoute.OptionalFieldsNeverRejected | app/api/events/route.ts:116 | description, subcategories and link never decide a 400 |
| EventsRoute.PostStatuses | app/api/events/route.ts:116-155 | the status is 200, 400 or 500, and 200 exactly when the insert succeeded |
| SignUp.Validate | app/auth/sign-up/page.tsx:22-30 | the checks pass exactly for equal passwords of at least 6 characters |
| SignUp.MismatchReportedFirst | app/auth/sign-up/page.tsx:22-30 | a mismatch is reported whatever the length |
| SignUp.ShortPasswordReported | app/auth/sign-up/page.tsx:27-30 | the length message appears exactly for equal passwords shorter than 6 characters |
| SignUp.SignUpForm.constructor | app/auth/sign-up/page.tsx:12-15 | all three inputs and the error start empty |
| SignUp.SignUpForm.HandleSubmit | app/auth/sign-up/page.tsx:18-37 | the error is cleared first; `signUp` is called exactly when the checks pass, with the entered email and password; the error ends as the failing check's message, or the rejection message, or empty |
| StableSort.SortBy | app/calendar/page.tsx:106 | the result is sorted by the key and is a permutation of the input |
| StableSort.SortStable | app/calendar/page.tsx:106 | elements sharing a key keep their relative order |
| Seqs.Dedup | app/context/CalendarContext.tsx:70 | `new Set(xs)` iterates the distinct elements, duplicate-free, with the same members |
| Text.Split | app/calendar/page.tsx:73 | `split` gives at least one piece, one exactly when the separator is absent, and no piece holds the separator |
| Text.SplitJoin | app/api/events/route.ts:34 | splitting joined separator-free pieces gives the pieces back |
| Text.Includes | app/calendar/page.tsx:83 | `includes` holds exactly when the text occurs at some index |
| Text.Lower | app/calendar/page.tsx:83 | `toLowerCase` maps each character and keeps the length |
| Text.DecimalRoundTrip | app/components/ui/use-toast.tsx:35 | the decimal rendering of a count reads back as the count |

## Left out

- **Rendering.** React rendering, class-name tables, routing, the `Toaster` component and every
  JSX detail are not part of this model. React nodes in toasts are strings.
- **Toast fields.** A toast keeps only its id, title, description and duration. The other
  `ToastProps` fields (variant, class name, open state and callbacks) and `action` are not part
  of this model, so UPDATE's merge is modelled on those four fields only.
- **Time zones.** Local time zones and `toDateString()` are not modelled: a calendar day is the
  UTC day number of the instant. The "ET" display formatting is also left out.
- **Month navigation.** Month navigation and the fixed year 2025 of the calendar page's
  initial state are left out. `MonthGrid` takes the year and month as parameters.
- **Timers and listeners.** Timers are left out: the countdown's `setInterval`, and the DISMISS
  `setTimeout` that later dispatches REMOVE. The `useToast` listener list is also left out.
  Both concern scheduling and subscription, not the state they produce.
- **Network and storage I/O.** Network fetches (`loadEvents`, the `useEvents` fetch) are left
  out. JSON encoding and parsing in `localStorage` are left out, with the `try/catch` blocks
  that only log a parse or storage error. The favourites' `localStorage` effect is left out.
- **Events API route: backend.** The Supabase client is represented only by the query data
  and a function parameter giving its outcome. How Supabase evaluates filters is not
  modelled, nor is `new URL` failing on a malformed request.
- **Events API route: response clone.** The JSON round trip of a cached response through
  `response.clone()` is not modelled: the cached value is the row list itself.
- **JSON body types.** A JSON body whose fields are not strings is not modelled: absent fields
  are `None` and present ones are strings.
- **AuthContext.** `signUp` in AuthContext is not part of this model. The form receives its
  outcome as a parameter, `None` when it completes.
- `Text.Lower`: only ASCII capitals are lower-cased, not the full Unicode case mapping of
  `toLowerCase`, because no Unicode table is available here.
- `SignUp.Validate`: the length counts characters, not UTF-16 code units, so it differs from
  `password.length` for characters outside the Basic Multilingual Plane.
- `Toast.Reduce`: a patch field given explicitly as `undefined` overwrites in JavaScript but
  is treated as absent here, because options are modelled as `Option` values.
- **JavaScript object quirks.** Record keys that collide with `Object.prototype` members
  (such as a category named `constructor`) are not modelled. The interest index is a plain map.
