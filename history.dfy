/**
  The pure parts of the reconciliation service (src/services/TimeWasteService.ts): the
  "today" filter, the running total, creating an entry and undoing the last one.
  The clock is a parameter: `now` for a new entry, `todayMidnight` for the filter.
 */
module History {
  import opened Storage

  /** `isFromToday`: stamped at or after today's local midnight. */
  predicate IsFromToday(timestamp: int, todayMidnight: int) {
    timestamp >= todayMidnight
  }

  /** `items.filter(item => isFromToday(item.timestamp))`, order kept. */
  function TodayItems(items: seq<StorageItem>, todayMidnight: int): (r: seq<StorageItem>)
    ensures forall x :: x in r <==> x in items && IsFromToday(x.timestamp, todayMidnight)
    ensures |r| <= |items|
  {
    if items == [] then []
    else
      var last := items[|items| - 1];
      TodayItems(items[..|items| - 1], todayMidnight)
        + (if IsFromToday(last.timestamp, todayMidnight) then [last] else [])
  }

  /** Filtering distributes over concatenation, which fixes the order of the result. */
  lemma {:induction false} TodayItemsAppend(a: seq<StorageItem>, b: seq<StorageItem>, todayMidnight: int)
    ensures TodayItems(a + b, todayMidnight) == TodayItems(a, todayMidnight) + TodayItems(b, todayMidnight)
    decreases |b|
  {
    if b != [] {
      var n := |b| - 1;
      assert (a + b)[..|a + b| - 1] == a + b[..n];
      TodayItemsAppend(a, b[..n], todayMidnight);
    } else {
      assert a + b == a;
    }
  }

  /** `items.reduce((total, item) => total + item.wasted, 0)`. */
  function Sum(items: seq<StorageItem>): int {
    if items == [] then 0 else Sum(items[..|items| - 1]) + items[|items| - 1].wasted
  }

  lemma {:induction false} SumAppend(a: seq<StorageItem>, b: seq<StorageItem>)
    ensures Sum(a + b) == Sum(a) + Sum(b)
    decreases |b|
  {
    if b == [] {
      assert a + b == a;
    } else {
      var n := |b| - 1;
      assert (a + b)[..|a + b| - 1] == a + b[..n];
      SumAppend(a, b[..n]);
    }
  }

  /** The total of a history whose entries all waste a non-negative amount is non-negative. */
  lemma {:induction false} SumNonNegative(items: seq<StorageItem>)
    requires forall x :: x in items ==> x.wasted >= 0
    ensures Sum(items) >= 0
  {
    if items != [] {
      SumNonNegative(items[..|items| - 1]);
    }
  }

  /** `addTimeWaste`: a new entry stamped with the current time; nothing is stored. */
  function AddTimeWaste(wasted: int, now: int): (item: StorageItem)
    ensures item.timestamp == now && item.wasted == wasted
  {
    StorageItem(now, wasted)
  }

  /**
    `removeLastTimeWaste`: the history without its last entry and the minutes that entry
    carried; an empty history gives back an empty history and zero.
   */
  function RemoveLastTimeWaste(history: seq<StorageItem>): (r: (seq<StorageItem>, int))
    ensures history == [] ==> r == ([], 0)
    ensures history != [] ==>
      r.0 + [history[|history| - 1]] == history && r.1 == history[|history| - 1].wasted
  {
    if |history| == 0 then ([], 0)
    else
      var lastItem := history[|history| - 1];
      (history[..|history| - 1], lastItem.wasted)
  }

  /** Undo keeps the displayed total consistent: the new total plus the removed minutes is the old total. */
  lemma UndoKeepsTotal(history: seq<StorageItem>)
    ensures var (newHistory, removedWasted) := RemoveLastTimeWaste(history);
      Sum(newHistory) + removedWasted == Sum(history)
  {
  }

  /** Adding an entry and undoing it gives back the history and the minutes just added. */
  lemma UndoAfterAdd(history: seq<StorageItem>, wasted: int, now: int)
    ensures RemoveLastTimeWaste(history + [AddTimeWaste(wasted, now)]) == (history, wasted)
  {
    var h := history + [AddTimeWaste(wasted, now)];
    assert h[..|h| - 1] == history;
  }
}
