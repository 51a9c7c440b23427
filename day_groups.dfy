/**
  `groupedEvents` of the calendar and list pages: the filtered events pushed, one by one,
  into a dictionary keyed by calendar day. The dictionary's keys keep their insertion order,
  so it is modelled as that order of days together with a map from day to bucket.
 */
module DayGroups {
  import Seqs
  import StableSort
  import CalendarDay
  import opened EventFilter

  /** The calendar day of every event, position by position. */
  function Days(s: seq<Event>): (r: seq<int>)
    ensures |r| == |s|
    ensures forall k :: 0 <= k < |s| ==> r[k] == EventDay(s[k])
  {
    seq(|s|, k requires 0 <= k < |s| => EventDay(s[k]))
  }

  /** The days of `s`, each once, in order of first appearance. */
  function DistinctDays(s: seq<Event>): seq<int> {
    Seqs.Dedup(Days(s))
  }

  /** Adding an event to the end of the events adds its day to the end of the days. */
  lemma DaysSnoc(s: seq<Event>, e: Event)
    ensures Days(s + [e]) == Days(s) + [EventDay(e)]
  {
  }

  /** A day is among the distinct days exactly when some event falls on it. */
  lemma DistinctDaysMembers(s: seq<Event>)
    ensures forall d :: d in DistinctDays(s) <==> exists e :: e in s && EventDay(e) == d
  {
    var ds := Days(s);
    forall d ensures d in ds <==> exists e :: e in s && EventDay(e) == d {
      if d in ds {
        var k :| 0 <= k < |ds| && ds[k] == d;
        assert s[k] in s;
      }
    }
  }

  /** The bucket of a day on which no event falls is empty. */
  lemma {:induction false} OnDayEmpty(s: seq<Event>, d: int)
    requires d !in DistinctDays(s)
    ensures OnDay(s, d) == []
  {
    if s != [] {
      DistinctDaysMembers(s);
      DistinctDaysMembers(s[1..]);
      assert s[0] in s;
      forall e | e in s[1..] ensures e in s {
      }
      OnDayEmpty(s[1..], d);
    }
  }

  /** One more event adds its day at the end unless the day was already seen. */
  lemma DistinctDaysSnoc(s: seq<Event>, e: Event)
    ensures DistinctDays(s + [e])
         == if EventDay(e) in DistinctDays(s) then DistinctDays(s) else DistinctDays(s) + [EventDay(e)]
  {
    DaysSnoc(s, e);
    assert Days(s + [e])[..|s|] == Days(s);
  }

  /** One more event joins the end of its own day's bucket only. */
  lemma OnDaySnoc(s: seq<Event>, e: Event, d: int)
    ensures OnDay(s + [e], d) == if EventDay(e) == d then OnDay(s, d) + [e] else OnDay(s, d)
  {
    Seqs.FilterAppend(s, [e], DayIs(d));
    assert [e][1..] == [];
  }

  /** `order` and `buckets` are the grouping of `s`: its distinct days and each day's bucket. */
  ghost predicate Groups(order: seq<int>, buckets: map<int, seq<Event>>, s: seq<Event>) {
    && order == DistinctDays(s)
    && (forall d :: d in buckets <==> d in order)
    && (forall d :: d in buckets ==> buckets[d] == OnDay(s, d))
  }

  /** Pushing one more event onto its day's bucket, creating the bucket when needed, groups the longer sequence. */
  lemma GroupStep(order: seq<int>, buckets: map<int, seq<Event>>, s: seq<Event>, e: Event)
    requires Groups(order, buckets, s)
    ensures var day := EventDay(e);
      Groups(if day in buckets then order else order + [day],
             buckets[day := (if day in buckets then buckets[day] else []) + [e]],
             s + [e])
  {
    var day := EventDay(e);
    DistinctDaysSnoc(s, e);
    if day !in buckets {
      OnDayEmpty(s, day);
    }
    forall d ensures OnDay(s + [e], d) == if day == d then OnDay(s, d) + [e] else OnDay(s, d) {
      OnDaySnoc(s, e, d);
    }
  }

  /** The `forEach` callback: create the bucket of the event's day if it is new, then push the event. */
  method AddToGroup(order: seq<int>, buckets: map<int, seq<Event>>, e: Event)
    returns (order': seq<int>, buckets': map<int, seq<Event>>)
    ensures var day := EventDay(e);
      && order' == (if day in buckets then order else order + [day])
      && buckets' == buckets[day := (if day in buckets then buckets[day] else []) + [e]]
  {
    var day := EventDay(e);
    order', buckets' := order, buckets;
    if day !in buckets' {
      buckets' := buckets'[day := []];
      order' := order' + [day];
    }
    buckets' := buckets'[day := buckets'[day] + [e]];
  }

  /**
    The `forEach` of `groupedEvents`: a bucket is created the first time its day is seen,
    and each event is pushed onto the bucket of its day.
   */
  method GroupByDay(s: seq<Event>) returns (order: seq<int>, buckets: map<int, seq<Event>>)
    ensures order == DistinctDays(s)
    ensures forall d :: d in buckets <==> d in order
    ensures forall d :: d in buckets ==> buckets[d] == OnDay(s, d)
  {
    order, buckets := [], map[];
    ghost var done: seq<Event> := [];
    var k := 0;
    while k < |s|
      invariant 0 <= k <= |s|
      invariant done == s[..k]
      invariant Groups(order, buckets, done)
    {
      var e := s[k];
      GroupStep(order, buckets, done, e);
      order, buckets := AddToGroup(order, buckets, e);
      Seqs.TakeSnoc(s, k);
      done := done + [e];
      k := k + 1;
    }
    assert done == s;
  }

  /** Every event lies in the bucket of its own day and in no other bucket. */
  lemma EachEventInOneBucket(s: seq<Event>, e: Event)
    requires e in s
    ensures EventDay(e) in DistinctDays(s)
    ensures e in OnDay(s, EventDay(e))
    ensures forall d :: d != EventDay(e) ==> e !in OnDay(s, d)
  {
    DistinctDaysMembers(s);
    Seqs.FilterMembers(s, DayIs(EventDay(e)));
    forall d | d != EventDay(e) ensures e !in OnDay(s, d) {
      Seqs.FilterMembers(s, DayIs(d));
    }
  }

  /** The sum of the bucket sizes over `days`. */
  function TotalSize(s: seq<Event>, days: seq<int>): nat {
    if days == [] then 0 else |OnDay(s, days[0])| + TotalSize(s, days[1..])
  }

  /** No events, no bucket contents. */
  lemma {:induction false} TotalSizeEmpty(days: seq<int>)
    ensures TotalSize([], days) == 0
  {
    if days != [] {
      TotalSizeEmpty(days[1..]);
    }
  }

  /** An event appended to the events adds one to the total when its day is counted once. */
  lemma {:induction false} TotalSizeSnoc(s: seq<Event>, e: Event, days: seq<int>)
    requires Seqs.NoDup(days)
    ensures TotalSize(s + [e], days) == TotalSize(s, days) + (if EventDay(e) in days then 1 else 0)
  {
    if days != [] {
      var d0, rest := days[0], days[1..];
      assert Seqs.NoDup(rest) by {
        forall i, j | 0 <= i < j < |rest| ensures rest[i] != rest[j] {
          assert rest[i] == days[i + 1] && rest[j] == days[j + 1];
        }
      }
      TotalSizeSnoc(s, e, rest);
      Seqs.FilterAppend(s, [e], DayIs(d0));
      assert [e][1..] == [];
      assert days == [d0] + rest;
      if EventDay(e) == d0 {
        assert d0 !in rest by {
          forall k | 0 <= k < |rest| ensures rest[k] != d0 {
            assert rest[k] == days[k + 1];
          }
        }
      }
    }
  }

  /** Buckets over a duplicate-free list of days that covers every event hold all the events. */
  lemma {:induction false} TotalSizeCovers(s: seq<Event>, days: seq<int>)
    requires Seqs.NoDup(days)
    requires forall e :: e in s ==> EventDay(e) in days
    ensures TotalSize(s, days) == |s|
  {
    if s == [] {
      TotalSizeEmpty(days);
    } else {
      var init, last := s[..|s| - 1], s[|s| - 1];
      assert s == init + [last];
      TotalSizeCovers(init, days);
      TotalSizeSnoc(init, last, days);
    }
  }

  /** The buckets partition the events: their sizes add up to the number of events. */
  lemma GroupSizesSum(s: seq<Event>)
    ensures TotalSize(s, DistinctDays(s)) == |s|
  {
    DistinctDaysMembers(s);
    TotalSizeCovers(s, DistinctDays(s));
  }

  /** Strictly ascending. */
  predicate StrictlyIncreasing(xs: seq<int>) {
    forall i, j :: 0 <= i < j < |xs| ==> xs[i] < xs[j]
  }

  /** Non-decreasing. */
  predicate NonDecreasing(xs: seq<int>) {
    forall i, j :: 0 <= i < j < |xs| ==> xs[i] <= xs[j]
  }

  /** The distinct values of a non-decreasing sequence, in order, are strictly ascending. */
  lemma {:induction false} DedupIncreasing(xs: seq<int>)
    requires NonDecreasing(xs)
    ensures StrictlyIncreasing(Seqs.Dedup(xs))
  {
    if xs != [] {
      var init, last := xs[..|xs| - 1], xs[|xs| - 1];
      DedupIncreasing(init);
      var d := Seqs.Dedup(init);
      if last !in d {
        forall i | 0 <= i < |d| ensures d[i] < last {
          assert d[i] in init;
          var k :| 0 <= k < |init| && init[k] == d[i];
          assert xs[k] <= xs[|xs| - 1];
        }
      }
    }
  }

  /** Bucketing events sorted by release instant meets the days in strictly ascending order. */
  lemma SortedDaysIncrease(s: seq<Event>)
    requires StableSort.SortedBy(s, ReleaseOf)
    ensures StrictlyIncreasing(DistinctDays(s))
  {
    var ds := Days(s);
    forall i, j | 0 <= i < j < |ds| ensures ds[i] <= ds[j] {
      CalendarDay.DayOfMonotone(s[i].release, s[j].release);
    }
    DedupIncreasing(ds);
  }
}
