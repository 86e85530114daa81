/**
  The day-bucket statistics of src/utils/stats.ts: `generateStats` reads every stored item,
  groups the items by local midnight, and summarises each day (newest day first) with its
  history in time order, its total as text and in minutes, and, when a rate is given, its cost.
  The calendar is a parameter: `midnight` stands for `getMidnightTimestamp` and `formatDate`
  for the "DD Month YYYY" rendering.
 */
module Stats {
  import opened Errors
  import opened Storage
  import opened History
  import opened Durations

  /**
    `cost?: number | string`: the amount itself, or the amount followed by the currency
    (printed with two decimals, which the model does not render).
   */
  datatype Cost = Amount(value: real) | Labelled(value: real, currency: string)

  datatype Raw = Raw(day: int, total: int)

  /** `DayStats`; `cost` is absent unless a rate was given. */
  datatype DayStats = DayStats(day: string, total: string, history: seq<StorageItem>, raw: Raw, cost: Option<Cost>)

  /**
    `calculateCost`: the hours wasted times the hourly rate; a non-empty currency turns the
    amount into a labelled one (an empty string is falsy in the source's `if (currency)`).
   */
  function CalculateCost(totalMinutes: int, rate: real, currency: Option<string>): (c: Cost)
    ensures c.Labelled? <==> currency.Some? && currency.value != ""
    ensures c.Labelled? ==> c.currency == currency.value
  {
    var hours := totalMinutes as real / 60.0;
    var cost := hours * rate;
    if currency.Some? && currency.value != "" then Labelled(cost, currency.value) else Amount(cost)
  }

  /** The amount is the hourly rate times the hours wasted: an hour at rate r costs r. */
  lemma CostIsRateTimesHours(totalMinutes: int, rate: real, currency: Option<string>)
    ensures CalculateCost(totalMinutes, rate, currency).value * 60.0 == totalMinutes as real * rate
    ensures CalculateCost(60, rate, currency).value == rate
  {
  }

  /** Ordered by `key`, smallest first. */
  predicate SortedBy<T>(s: seq<T>, key: T -> int) {
    forall i, j :: 0 <= i < j < |s| ==> key(s[i]) <= key(s[j])
  }

  /** Puts x into a sequence, after every leading element whose key is not larger. */
  function InsertBy<T>(x: T, s: seq<T>, key: T -> int): (r: seq<T>)
    ensures multiset(r) == multiset(s) + multiset{x}
  {
    if s == [] then [x]
    else if key(x) < key(s[0]) then [x] + s
    else
      assert s == [s[0]] + s[1..];
      [s[0]] + InsertBy(x, s[1..], key)
  }

  /** A sorted sequence stays sorted under a head no larger than any of its elements. */
  lemma SortedCons<T>(h: T, rest: seq<T>, key: T -> int)
    requires SortedBy(rest, key)
    requires forall y :: y in rest ==> key(h) <= key(y)
    ensures SortedBy([h] + rest, key)
  {
    var r := [h] + rest;
    forall i, j | 0 <= i < j < |r| ensures key(r[i]) <= key(r[j]) {
      assert r[j] == rest[j - 1];
      if i > 0 {
        assert r[i] == rest[i - 1];
      }
    }
  }

  lemma {:induction false} InsertBySorted<T>(x: T, s: seq<T>, key: T -> int)
    requires SortedBy(s, key)
    ensures SortedBy(InsertBy(x, s, key), key)
  {
    if s == [] {
    } else if key(x) < key(s[0]) {
      forall y | y in s ensures key(x) <= key(y) {
        var i :| 0 <= i < |s| && s[i] == y;
      }
      SortedCons(x, s, key);
    } else {
      var rest := InsertBy(x, s[1..], key);
      InsertBySorted(x, s[1..], key);
      forall y | y in rest ensures key(s[0]) <= key(y) {
        assert y in multiset(rest);
        if y != x {
          assert y in multiset(s[1..]);
          var i :| 0 <= i < |s[1..]| && s[1..][i] == y;
          assert s[i + 1] == y;
        }
      }
      SortedCons(s[0], rest, key);
    }
  }

  /**
    `Array.prototype.sort` with a comparator `(a, b) => key(a) - key(b)`: the same elements,
    in key order (a stable insertion sort).
   */
  function SortBy<T>(s: seq<T>, key: T -> int): (r: seq<T>)
    ensures multiset(r) == multiset(s)
    ensures SortedBy(r, key)
  {
    if s == [] then []
    else
      var n := |s| - 1;
      assert s == s[..n] + [s[n]];
      InsertBySorted(s[n], SortBy(s[..n], key), key);
      InsertBy(s[n], SortBy(s[..n], key), key)
  }

  /** The comparator key of a day's history: `(a, b) => a.timestamp - b.timestamp`. */
  const ByTimestamp: StorageItem -> int := (x: StorageItem) => x.timestamp

  /** The comparator key of the days: `([a], [b]) => b - a`, newest first. */
  const NewestFirst: int -> int := (d: int) => -d

  predicate Distinct(s: seq<int>) {
    forall i, j :: 0 <= i < j < |s| ==> s[i] != s[j]
  }

  lemma {:induction false} DistinctCounts(s: seq<int>, v: int)
    requires Distinct(s)
    ensures multiset(s)[v] <= 1
  {
    if s != [] {
      var n := |s| - 1;
      assert s == s[..n] + [s[n]];
      DistinctCounts(s[..n], v);
      if s[n] == v {
        assert v !in s[..n];
      }
    }
  }

  lemma TwoOccurrences(r: seq<int>, i: int, j: int)
    requires 0 <= i < j < |r| && r[i] == r[j]
    ensures multiset(r)[r[i]] >= 2
  {
    assert r == r[..j] + r[j..];
    assert r[..j][i] == r[i];
    assert r[j..][0] == r[j];
  }

  predicate StrictlyDescending(s: seq<int>) {
    forall i, j :: 0 <= i < j < |s| ==> s[i] > s[j]
  }

  /** Sorting distinct days newest first gives a strictly descending sequence. */
  lemma NewestFirstIsStrict(days: seq<int>)
    requires Distinct(days)
    ensures StrictlyDescending(SortBy(days, NewestFirst))
  {
    var r := SortBy(days, NewestFirst);
    forall i, j | 0 <= i < j < |r| ensures r[i] > r[j] {
      assert NewestFirst(r[i]) <= NewestFirst(r[j]);
      if r[i] == r[j] {
        TwoOccurrences(r, i, j);
        DistinctCounts(days, r[i]);
        assert false;
      }
    }
  }

  /** The items stamped on day `day`, in their original order. */
  function DayItems(items: seq<StorageItem>, midnight: int -> int, day: int): (r: seq<StorageItem>)
    ensures forall x :: x in r <==> x in items && midnight(x.timestamp) == day
  {
    if items == [] then []
    else
      var item := items[|items| - 1];
      DayItems(items[..|items| - 1], midnight, day) + (if midnight(item.timestamp) == day then [item] else [])
  }

  /** The days the items fall on, each once, in order of first appearance (a `Map`'s key order). */
  function DaysInOrder(items: seq<StorageItem>, midnight: int -> int): (days: seq<int>)
    ensures forall d :: d in days <==> exists x :: x in items && midnight(x.timestamp) == d
    ensures Distinct(days)
  {
    if items == [] then []
    else
      var item := items[|items| - 1];
      var before := DaysInOrder(items[..|items| - 1], midnight);
      var d := midnight(item.timestamp);
      if d in before then before else before + [d]
  }

  lemma {:induction false} DayItemsNone(items: seq<StorageItem>, midnight: int -> int, day: int)
    requires forall x :: x in items ==> midnight(x.timestamp) != day
    ensures DayItems(items, midnight, day) == []
  {
    if items != [] {
      DayItemsNone(items[..|items| - 1], midnight, day);
    }
  }

  /** A map with the keys and values of the grouping is the grouping. */
  lemma BucketsExact(byDay: map<int, seq<StorageItem>>, items: seq<StorageItem>, midnight: int -> int)
    requires forall d :: d in byDay <==> d in DaysInOrder(items, midnight)
    requires forall d :: d in byDay ==> byDay[d] == DayItems(items, midnight, d)
    ensures byDay == Buckets(items, midnight)
  {
  }

  /** Days of one more item: its day is appended when it is new. */
  lemma DaysInOrderSnoc(items: seq<StorageItem>, x: StorageItem, midnight: int -> int)
    ensures DaysInOrder(items + [x], midnight)
      == var before := DaysInOrder(items, midnight);
         if midnight(x.timestamp) in before then before else before + [midnight(x.timestamp)]
  {
    assert (items + [x])[..|items|] == items;
  }

  /** One step of the grouping loop keeps the grouping exact. */
  lemma GroupStep(byDay: map<int, seq<StorageItem>>, days: seq<int>, items: seq<StorageItem>, i: int, midnight: int -> int)
    requires 0 <= i < |items|
    requires days == DaysInOrder(items[..i], midnight) && byDay == Buckets(items[..i], midnight)
    ensures var d0 := midnight(items[i].timestamp);
      var bucket := if d0 in byDay then byDay[d0] else [];
      && (if d0 in byDay then days else days + [d0]) == DaysInOrder(items[..i + 1], midnight)
      && byDay[d0 := bucket + [items[i]]] == Buckets(items[..i + 1], midnight)
  {
    var prefix, x := items[..i], items[i];
    assert items[..i + 1] == prefix + [x];
    var d0 := midnight(x.timestamp);
    DaysInOrderSnoc(prefix, x, midnight);
    if d0 !in byDay {
      DayItemsNone(prefix, midnight, d0);
    }
    var bucket := if d0 in byDay then byDay[d0] else [];
    var byDay' := byDay[d0 := bucket + [x]];
    forall d | d in byDay' ensures byDay'[d] == DayItems(prefix + [x], midnight, d) {
      DayItemsSnoc(prefix, x, midnight, d);
    }
    BucketsExact(byDay', prefix + [x], midnight);
  }

  /**
    The grouping loop: a map from midnight to that day's items in their original order, and
    the map's keys in insertion order.
   */
  method GroupByDay(items: seq<StorageItem>, midnight: int -> int) returns (itemsByDay: map<int, seq<StorageItem>>, days: seq<int>)
    ensures days == DaysInOrder(items, midnight)
    ensures itemsByDay == Buckets(items, midnight)
  {
    itemsByDay := map[];
    days := [];
    for i := 0 to |items|
      invariant days == DaysInOrder(items[..i], midnight)
      invariant itemsByDay == Buckets(items[..i], midnight)
    {
      GroupStep(itemsByDay, days, items, i, midnight);
      var item := items[i];
      var dayTimestamp := midnight(item.timestamp);
      var bucket := [];
      if dayTimestamp in itemsByDay {
        bucket := itemsByDay[dayTimestamp];
      } else {
        days := days + [dayTimestamp];
      }
      itemsByDay := itemsByDay[dayTimestamp := bucket + [item]];
    }
    assert items[..|items|] == items;
  }

  /** The summary of one day: the body of the `.map` callback. */
  function BuildDayStats(dayTimestamp: int, items: seq<StorageItem>, formatDate: int -> string,
                         rate: Option<real>, currency: Option<string>): DayStats
  {
    var totalMinutes := Sum(items);
    var cost := if rate.Some? then Some(CalculateCost(totalMinutes, rate.value, currency)) else None;
    DayStats(formatDate(dayTimestamp), StatsFormatTime(totalMinutes), SortBy(items, ByTimestamp),
             Raw(dayTimestamp, totalMinutes), cost)
  }

  /** The `.map` over the sorted entries: one summary per day of `days`, in that order. */
  function Summaries(days: seq<int>, byDay: map<int, seq<StorageItem>>, formatDate: int -> string,
                     rate: Option<real>, currency: Option<string>): (r: seq<DayStats>)
    requires forall k :: 0 <= k < |days| ==> days[k] in byDay
    ensures |r| == |days|
  {
    if days == [] then []
    else
      var n := |days| - 1;
      Summaries(days[..n], byDay, formatDate, rate, currency)
        + [BuildDayStats(days[n], byDay[days[n]], formatDate, rate, currency)]
  }

  lemma {:induction false} SummaryAt(days: seq<int>, byDay: map<int, seq<StorageItem>>, formatDate: int -> string,
                                     rate: Option<real>, currency: Option<string>, k: int)
    requires forall k :: 0 <= k < |days| ==> days[k] in byDay
    requires 0 <= k < |days|
    ensures Summaries(days, byDay, formatDate, rate, currency)[k]
      == BuildDayStats(days[k], byDay[days[k]], formatDate, rate, currency)
  {
    var n := |days| - 1;
    if k < n {
      SummaryAt(days[..n], byDay, formatDate, rate, currency, k);
    }
  }

  /** Summary k is about day k of `days`, and carries that day's minutes. */
  lemma SummariesRaw(days: seq<int>, byDay: map<int, seq<StorageItem>>, formatDate: int -> string,
                     rate: Option<real>, currency: Option<string>)
    requires forall k :: 0 <= k < |days| ==> days[k] in byDay
    ensures var r := Summaries(days, byDay, formatDate, rate, currency);
      forall k :: 0 <= k < |days| ==> r[k].raw == Raw(days[k], Sum(byDay[days[k]]))
  {
    forall k | 0 <= k < |days|
      ensures Summaries(days, byDay, formatDate, rate, currency)[k].raw == Raw(days[k], Sum(byDay[days[k]]))
    {
      SummaryAt(days, byDay, formatDate, rate, currency, k);
    }
  }

  /** The grouping as a value: each day some item falls on, mapped to that day's items. */
  function Buckets(items: seq<StorageItem>, midnight: int -> int): (byDay: map<int, seq<StorageItem>>)
    ensures forall d :: d in byDay <==> d in DaysInOrder(items, midnight)
    ensures forall d :: d in byDay ==> byDay[d] == DayItems(items, midnight, d)
  {
    map d | d in DaysInOrder(items, midnight) :: DayItems(items, midnight, d)
  }

  lemma SameMembers(a: seq<int>, b: seq<int>)
    requires multiset(a) == multiset(b)
    ensures forall d :: d in a <==> d in b
  {
    forall d ensures d in a <==> d in b {
      assert d in a <==> d in multiset(a);
      assert d in b <==> d in multiset(b);
    }
  }

  /** The days some item falls on, each once, newest first (strictly descending). */
  function NewestFirstDays(items: seq<StorageItem>, midnight: int -> int): (days: seq<int>)
    ensures StrictlyDescending(days)
    ensures forall d :: d in days <==> d in DaysInOrder(items, midnight)
    ensures forall k :: 0 <= k < |days| ==> days[k] in DaysInOrder(items, midnight)
  {
    var inOrder := DaysInOrder(items, midnight);
    var sorted := SortBy(inOrder, NewestFirst);
    NewestFirstIsStrict(inOrder);
    SameMembers(inOrder, sorted);
    sorted
  }

  /** What `generateStats` returns for the stored items. */
  function StatsOf(items: seq<StorageItem>, midnight: int -> int, formatDate: int -> string,
                   rate: Option<real>, currency: Option<string>): seq<DayStats>
  {
    Summaries(NewestFirstDays(items, midnight), Buckets(items, midnight), formatDate, rate, currency)
  }

  /** Summaries listed under the days of a list inherit its order. */
  lemma DaysOfSummariesOrder(stats: seq<DayStats>, days: seq<int>)
    requires |stats| == |days| && forall k :: 0 <= k < |days| ==> stats[k].raw.day == days[k]
    requires StrictlyDescending(days)
    ensures forall i, j :: 0 <= i < j < |stats| ==> stats[i].raw.day > stats[j].raw.day
  {
  }

  /** Some item falls on day `d`. */
  predicate SomeItemOn(items: seq<StorageItem>, midnight: int -> int, d: int) {
    exists x :: x in items && midnight(x.timestamp) == d
  }

  lemma DayOfSomeItem(d: int, items: seq<StorageItem>, midnight: int -> int)
    requires d in DaysInOrder(items, midnight)
    ensures SomeItemOn(items, midnight, d)
  {
  }

  /** Summaries listed under days that some item falls on are about such days. */
  lemma DaysOfSummariesSound(stats: seq<DayStats>, days: seq<int>, items: seq<StorageItem>, midnight: int -> int)
    requires |stats| == |days| && forall k :: 0 <= k < |days| ==> stats[k].raw.day == days[k]
    requires forall k :: 0 <= k < |days| ==> days[k] in DaysInOrder(items, midnight)
    ensures forall k :: 0 <= k < |stats| ==> SomeItemOn(items, midnight, stats[k].raw.day)
  {
    forall k | 0 <= k < |stats| ensures SomeItemOn(items, midnight, stats[k].raw.day) {
      DayOfSomeItem(stats[k].raw.day, items, midnight);
    }
  }

  /** Summaries listed under every day some item falls on cover every item. */
  lemma DaysOfSummariesComplete(stats: seq<DayStats>, days: seq<int>, items: seq<StorageItem>, midnight: int -> int)
    requires |stats| == |days| && forall k :: 0 <= k < |days| ==> stats[k].raw.day == days[k]
    requires forall d :: d in DaysInOrder(items, midnight) ==> d in days
    ensures forall x :: x in items ==> exists k :: 0 <= k < |stats| && stats[k].raw.day == midnight(x.timestamp)
  {
    forall x | x in items ensures exists k :: 0 <= k < |stats| && stats[k].raw.day == midnight(x.timestamp) {
      assert midnight(x.timestamp) in DaysInOrder(items, midnight);
      var k :| 0 <= k < |days| && days[k] == midnight(x.timestamp);
    }
  }

  /** The day summaries come newest first, strictly: no day appears twice. */
  lemma StatsNewestFirst(items: seq<StorageItem>, midnight: int -> int, formatDate: int -> string,
                         rate: Option<real>, currency: Option<string>)
    ensures var stats := StatsOf(items, midnight, formatDate, rate, currency);
      forall i, j :: 0 <= i < j < |stats| ==> stats[i].raw.day > stats[j].raw.day
  {
    SummariesRaw(NewestFirstDays(items, midnight), Buckets(items, midnight), formatDate, rate, currency);
    DaysOfSummariesOrder(StatsOf(items, midnight, formatDate, rate, currency), NewestFirstDays(items, midnight));
  }

  /** Every day summary is about a day some item falls on. */
  lemma StatsDaysSound(items: seq<StorageItem>, midnight: int -> int, formatDate: int -> string,
                       rate: Option<real>, currency: Option<string>)
    ensures var stats := StatsOf(items, midnight, formatDate, rate, currency);
      forall k :: 0 <= k < |stats| ==> SomeItemOn(items, midnight, stats[k].raw.day)
  {
    var days := NewestFirstDays(items, midnight);
    var stats := StatsOf(items, midnight, formatDate, rate, currency);
    SummariesRaw(days, Buckets(items, midnight), formatDate, rate, currency);
    DaysOfSummariesSound(stats, days, items, midnight);
  }

  /** Every day some item falls on has a summary. */
  lemma StatsDaysComplete(items: seq<StorageItem>, midnight: int -> int, formatDate: int -> string,
                          rate: Option<real>, currency: Option<string>)
    ensures var stats := StatsOf(items, midnight, formatDate, rate, currency);
      forall x :: x in items ==> exists k :: 0 <= k < |stats| && stats[k].raw.day == midnight(x.timestamp)
  {
    SummariesRaw(NewestFirstDays(items, midnight), Buckets(items, midnight), formatDate, rate, currency);
    DaysOfSummariesComplete(StatsOf(items, midnight, formatDate, rate, currency), NewestFirstDays(items, midnight), items, midnight);
  }

  /** The summary of one day, given that day's items. */
  lemma DayStatsOfBucket(day: int, bucket: seq<StorageItem>, formatDate: int -> string,
                         rate: Option<real>, currency: Option<string>)
    ensures var s := BuildDayStats(day, bucket, formatDate, rate, currency);
      && SortedBy(s.history, ByTimestamp)
      && multiset(s.history) == multiset(bucket)
      && s.raw == Raw(day, Sum(bucket))
      && s.total == StatsFormatTime(s.raw.total)
      && s.day == formatDate(day)
      && (s.cost.Some? <==> rate.Some?)
      && (s.cost.Some? ==> s.cost.value == CalculateCost(s.raw.total, rate.value, currency))
  {
  }

  /**
    Each day's summary: the day's items sorted by timestamp (the same items, as a multiset),
    their total in minutes and as text, the date text, and a cost exactly when a rate was given.
   */
  lemma StatsOfDay(items: seq<StorageItem>, midnight: int -> int, formatDate: int -> string,
                   rate: Option<real>, currency: Option<string>, k: int)
    requires 0 <= k < |StatsOf(items, midnight, formatDate, rate, currency)|
    ensures var s := StatsOf(items, midnight, formatDate, rate, currency)[k];
      var bucket := DayItems(items, midnight, s.raw.day);
      && SortedBy(s.history, ByTimestamp)
      && multiset(s.history) == multiset(bucket)
      && s.raw.total == Sum(bucket)
      && s.total == StatsFormatTime(s.raw.total)
      && s.day == formatDate(s.raw.day)
      && (s.cost.Some? <==> rate.Some?)
      && (s.cost.Some? ==> s.cost.value == CalculateCost(s.raw.total, rate.value, currency))
  {
    var days := NewestFirstDays(items, midnight);
    SummaryAt(days, Buckets(items, midnight), formatDate, rate, currency, k);
    DayStatsOfBucket(days[k], DayItems(items, midnight, days[k]), formatDate, rate, currency);
  }

  /** Every item is listed under exactly one day: the day of its midnight. */
  lemma EachItemInOneBucket(items: seq<StorageItem>, midnight: int -> int, formatDate: int -> string,
                            rate: Option<real>, currency: Option<string>, x: StorageItem)
    requires x in items
    ensures var stats := StatsOf(items, midnight, formatDate, rate, currency);
      && (exists k :: 0 <= k < |stats| && x in stats[k].history)
      && (forall k :: 0 <= k < |stats| ==> (x in stats[k].history <==> stats[k].raw.day == midnight(x.timestamp)))
  {
    var stats := StatsOf(items, midnight, formatDate, rate, currency);
    StatsDaysComplete(items, midnight, formatDate, rate, currency);
    forall k | 0 <= k < |stats| ensures x in stats[k].history <==> stats[k].raw.day == midnight(x.timestamp) {
      StatsOfDay(items, midnight, formatDate, rate, currency, k);
      assert x in stats[k].history <==> x in multiset(stats[k].history);
    }
    var k :| 0 <= k < |stats| && stats[k].raw.day == midnight(x.timestamp);
    assert x in stats[k].history;
  }

  /** The minutes of the day summaries, added up. */
  function TotalMinutes(stats: seq<DayStats>): int {
    if stats == [] then 0 else TotalMinutes(stats[..|stats| - 1]) + stats[|stats| - 1].raw.total
  }

  /** The day totals of `days`, added up. */
  function SumOver(days: seq<int>, items: seq<StorageItem>, midnight: int -> int): int {
    if days == [] then 0
    else
      var n := |days| - 1;
      SumOver(days[..n], items, midnight) + Sum(DayItems(items, midnight, days[n]))
  }

  lemma {:induction false} SumOverEmpty(days: seq<int>, midnight: int -> int)
    ensures SumOver(days, [], midnight) == 0
  {
    if days != [] {
      SumOverEmpty(days[..|days| - 1], midnight);
    }
  }

  lemma DayItemsSnoc(items: seq<StorageItem>, x: StorageItem, midnight: int -> int, day: int)
    ensures DayItems(items + [x], midnight, day)
      == DayItems(items, midnight, day) + (if midnight(x.timestamp) == day then [x] else [])
  {
    assert (items + [x])[..|items|] == items;
  }

  /** One more item adds its minutes to the day it falls on, when that day is listed. */
  lemma {:induction false} SumOverSnoc(days: seq<int>, items: seq<StorageItem>, x: StorageItem, midnight: int -> int)
    requires Distinct(days)
    ensures SumOver(days, items + [x], midnight)
      == SumOver(days, items, midnight) + (if midnight(x.timestamp) in days then x.wasted else 0)
  {
    if days != [] {
      var n := |days| - 1;
      var d := days[n];
      assert Distinct(days[..n]);
      SumOverSnoc(days[..n], items, x, midnight);
      DayItemsSnoc(items, x, midnight, d);
      assert days == days[..n] + [d];
      if midnight(x.timestamp) == d {
        SumAppend(DayItems(items, midnight, d), [x]);
        assert d !in days[..n];
      } else {
        assert DayItems(items + [x], midnight, d) == DayItems(items, midnight, d);
      }
    }
  }

  /** Over distinct days covering every item, the day totals add up to the total of all items. */
  lemma {:induction false} SumOverCovering(days: seq<int>, items: seq<StorageItem>, midnight: int -> int)
    requires Distinct(days)
    requires forall x :: x in items ==> midnight(x.timestamp) in days
    ensures SumOver(days, items, midnight) == Sum(items)
  {
    if items == [] {
      SumOverEmpty(days, midnight);
    } else {
      var n := |items| - 1;
      assert items == items[..n] + [items[n]];
      SumOverCovering(days, items[..n], midnight);
      SumOverSnoc(days, items[..n], items[n], midnight);
    }
  }

  lemma {:induction false} TotalMinutesOfSummaries(days: seq<int>, items: seq<StorageItem>, midnight: int -> int,
                                                   formatDate: int -> string, rate: Option<real>, currency: Option<string>)
    requires forall k :: 0 <= k < |days| ==> days[k] in DaysInOrder(items, midnight)
    ensures TotalMinutes(Summaries(days, Buckets(items, midnight), formatDate, rate, currency)) == SumOver(days, items, midnight)
  {
    if days != [] {
      var n := |days| - 1;
      var byDay := Buckets(items, midnight);
      var r := Summaries(days, byDay, formatDate, rate, currency);
      TotalMinutesOfSummaries(days[..n], items, midnight, formatDate, rate, currency);
      assert r[..n] == Summaries(days[..n], byDay, formatDate, rate, currency);
    }
  }

  /** The day totals add up to the minutes of all stored items. */
  lemma StatsTotal(items: seq<StorageItem>, midnight: int -> int, formatDate: int -> string,
                   rate: Option<real>, currency: Option<string>)
    ensures TotalMinutes(StatsOf(items, midnight, formatDate, rate, currency)) == Sum(items)
  {
    var inOrder := DaysInOrder(items, midnight);
    var days := NewestFirstDays(items, midnight);
    TotalMinutesOfSummaries(days, items, midnight, formatDate, rate, currency);
    forall x | x in items ensures midnight(x.timestamp) in days {
      assert midnight(x.timestamp) in inOrder;
    }
    assert Distinct(days) by {
      assert StrictlyDescending(days);
    }
    SumOverCovering(days, items, midnight);
  }

  /**
    `generateStats`: reads every stored item through `storage` and summarises them; a
    failure to open the database reaches the caller.
   */
  method GenerateStats(storage: AppStorage, midnight: int -> int, formatDate: int -> string,
                       rate: Option<real>, currency: Option<string>) returns (r: Result<seq<DayStats>>)
    modifies storage
    ensures Opens(old(storage.version)) ==>
      var t0 := TableAfterOpen(old(storage.version), old(storage.table));
      && storage.version == SchemaVersion && storage.table == t0
      && r == Ok(StatsOf(Items(t0), midnight, formatDate, rate, currency))
    ensures !Opens(old(storage.version)) ==>
      && storage.version == old(storage.version) && storage.table == old(storage.table)
      && r == Err(VersionError(old(storage.version)))
  {
    var allItems := storage.GetAllItems();
    if allItems.Err? {
      return Err(allItems.error);
    }
    var itemsByDay, days := GroupByDay(allItems.value, midnight);
    var newestFirst := SortBy(days, NewestFirst);
    assert newestFirst == NewestFirstDays(allItems.value, midnight);
    var stats := Summaries(newestFirst, itemsByDay, formatDate, rate, currency);
    r := Ok(stats);
  }
}
