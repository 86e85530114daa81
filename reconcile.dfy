/**
  The diff at the heart of `performSync` (src/services/TimeWasteService.ts): compare the
  working history with today's stored items by their `(timestamp, wasted)` keys, upsert what
  the store lacks and delete what the history lacks. The operation list is a value here, and
  applying it to a table is a fold, so both can be specified exactly.
 */
module Reconcile {
  import opened Errors
  import opened Decimal
  import opened Storage
  import opened History

  /** One write that a reconciliation pass issues. */
  datatype SyncOp = Upsert(item: StorageItem) | Delete(timestamp: int)

  /** The comparison key of an item; the source renders it as the string `${timestamp}-${wasted}`. */
  function Key(x: StorageItem): (int, int) {
    (x.timestamp, x.wasted)
  }

  /** The string form of the key, as the source builds it. */
  function KeyString(x: StorageItem): string {
    IntToString(x.timestamp) + "-" + IntToString(x.wasted)
  }

  /** The first '-' at or after index i, or |s| when there is none. */
  function DashFrom(s: string, i: nat): (j: nat)
    requires i <= |s|
    ensures i <= j <= |s|
    ensures forall k :: i <= k < j ==> s[k] != '-'
    ensures j < |s| ==> s[j] == '-'
    decreases |s| - i
  {
    if i == |s| then i else if s[i] == '-' then i else DashFrom(s, i + 1)
  }

  /** Splits a key string at the first '-' that is not a leading minus sign. */
  function ParseKey(s: string): Option<(int, int)> {
    if |s| == 0 then None
    else
      var j := DashFrom(s, 1);
      if j == |s| then None
      else
        match (ParseInt(s[..j]), ParseInt(s[j + 1..]))
        case (Some(t), Some(w)) => Some((t, w))
        case _ => None
  }

  lemma ParseKeyString(x: StorageItem)
    ensures ParseKey(KeyString(x)) == Some(Key(x))
  {
    var a, b := IntToString(x.timestamp), IntToString(x.wasted);
    var s := a + "-" + b;
    var j := DashFrom(s, 1);
    assert s[|a|] == '-';
    assert forall k :: 1 <= k < |a| ==> s[k] == a[k] && IsDigit(s[k]);
    assert j == |a|;
    assert s[..j] == a && s[j + 1..] == b;
    ParseIntToString(x.timestamp);
    ParseIntToString(x.wasted);
  }

  /**
    For integral fields the string key identifies the item: two items share a key string
    exactly when they are equal, so comparing the pairs is comparing the strings.
   */
  lemma KeyStringInjective(x: StorageItem, y: StorageItem)
    ensures KeyString(x) == KeyString(y) <==> x == y
  {
    ParseKeyString(x);
    ParseKeyString(y);
  }

  /** `new Set(items.map(item => key(item)))`. */
  function KeySet(items: seq<StorageItem>): (keys: set<(int, int)>)
    ensures forall x :: x in items ==> Key(x) in keys
    ensures forall k :: k in keys ==> exists x :: x in items && Key(x) == k
  {
    set x | x in items :: Key(x)
  }

  /** The first loop: an upsert for each history item whose key is not among the stored keys. */
  function UpsertOps(history: seq<StorageItem>, storedKeys: set<(int, int)>): (ops: seq<SyncOp>)
    ensures forall op :: op in ops <==> op.Upsert? && op.item in history && Key(op.item) !in storedKeys
    ensures |ops| <= |history|
  {
    if history == [] then []
    else
      var item := history[|history| - 1];
      UpsertOps(history[..|history| - 1], storedKeys)
        + (if Key(item) !in storedKeys then [Upsert(item)] else [])
  }

  /** The second loop: a delete for each stored item whose key is not among the history keys. */
  function DeleteOps(stored: seq<StorageItem>, historyKeys: set<(int, int)>): (ops: seq<SyncOp>)
    ensures forall op :: op in ops <==>
      op.Delete? && exists x :: x in stored && x.timestamp == op.timestamp && Key(x) !in historyKeys
    ensures |ops| <= |stored|
  {
    if stored == [] then []
    else
      var item := stored[|stored| - 1];
      DeleteOps(stored[..|stored| - 1], historyKeys)
        + (if Key(item) !in historyKeys then [Delete(item.timestamp)] else [])
  }

  /** The `operations` array of one pass, in the order the two loops push onto it. */
  function SyncOps(history: seq<StorageItem>, todayStored: seq<StorageItem>): seq<SyncOp> {
    UpsertOps(history, KeySet(todayStored)) + DeleteOps(todayStored, KeySet(history))
  }

  /**
    What a pass issues, against the stored items filtered to today: an upsert for exactly the
    history items whose key is not stored today, a delete for exactly the timestamps of today's
    stored items whose key the history lacks, and never a delete before today's midnight.
   */
  lemma {:induction false} SyncOpsExact(history: seq<StorageItem>, stored: seq<StorageItem>, todayMidnight: int)
    ensures var today := TodayItems(stored, todayMidnight);
      var ops := SyncOps(history, today);
      && (forall x :: Upsert(x) in ops <==>
            x in history && !(exists y :: y in today && Key(y) == Key(x)))
      && (forall t :: Delete(t) in ops <==>
            exists y :: y in stored && y.timestamp == t && IsFromToday(t, todayMidnight) &&
              !(exists x :: x in history && Key(x) == Key(y)))
      && (forall t :: Delete(t) in ops ==> t >= todayMidnight)
  {
    var today := TodayItems(stored, todayMidnight);
    var ops := SyncOps(history, today);
    forall x ensures Upsert(x) in ops <==> x in history && !(exists y :: y in today && Key(y) == Key(x)) {
      assert Upsert(x) in ops <==> Upsert(x) in UpsertOps(history, KeySet(today));
    }
    forall t ensures Delete(t) in ops <==>
      exists y :: y in stored && y.timestamp == t && IsFromToday(t, todayMidnight) &&
        !(exists x :: x in history && Key(x) == Key(y))
    {
      assert Delete(t) in ops <==> Delete(t) in DeleteOps(today, KeySet(history));
    }
  }

  lemma {:induction false} UpsertOpsEmpty(history: seq<StorageItem>, storedKeys: set<(int, int)>)
    requires forall x :: x in history ==> Key(x) in storedKeys
    ensures UpsertOps(history, storedKeys) == []
  {
    if history != [] {
      UpsertOpsEmpty(history[..|history| - 1], storedKeys);
    }
  }

  lemma {:induction false} DeleteOpsEmpty(stored: seq<StorageItem>, historyKeys: set<(int, int)>)
    requires forall x :: x in stored ==> Key(x) in historyKeys
    ensures DeleteOps(stored, historyKeys) == []
  {
    if stored != [] {
      DeleteOpsEmpty(stored[..|stored| - 1], historyKeys);
    }
  }

  /**
    A pass issues nothing exactly when the history and today's stored items have the same
    key sets: running it against a store that already matches the history writes nothing.
   */
  lemma SyncIdleIffSameKeys(history: seq<StorageItem>, todayStored: seq<StorageItem>)
    ensures SyncOps(history, todayStored) == [] <==> KeySet(history) == KeySet(todayStored)
  {
    var ups := UpsertOps(history, KeySet(todayStored));
    var dels := DeleteOps(todayStored, KeySet(history));
    if KeySet(history) == KeySet(todayStored) {
      UpsertOpsEmpty(history, KeySet(todayStored));
      DeleteOpsEmpty(todayStored, KeySet(history));
    }
    if SyncOps(history, todayStored) == [] {
      assert ups == [] && dels == [];
      forall k | k in KeySet(history) ensures k in KeySet(todayStored) {
        var x :| x in history && Key(x) == k;
        assert Upsert(x) !in ups;
      }
      forall k | k in KeySet(todayStored) ensures k in KeySet(history) {
        var y :| y in todayStored && Key(y) == k;
        assert Delete(y.timestamp) !in dels;
      }
    }
  }

  /** One write applied to the table. */
  function ApplyOp(t: map<int, int>, op: SyncOp): map<int, int> {
    match op
    case Upsert(item) => t[item.timestamp := item.wasted]
    case Delete(timestamp) => t - {timestamp}
  }

  /** The writes applied one after another, first to last. */
  function ApplyOps(t: map<int, int>, ops: seq<SyncOp>): map<int, int> {
    if ops == [] then t else ApplyOp(ApplyOps(t, ops[..|ops| - 1]), ops[|ops| - 1])
  }

  lemma {:induction false} ApplyOpsAppend(t: map<int, int>, a: seq<SyncOp>, b: seq<SyncOp>)
    ensures ApplyOps(t, a + b) == ApplyOps(ApplyOps(t, a), b)
    decreases |b|
  {
    if b == [] {
      assert a + b == a;
    } else {
      var n := |b| - 1;
      assert (a + b)[..|a + b| - 1] == a + b[..n];
      ApplyOpsAppend(t, a, b[..n]);
    }
  }

  /** The timestamps a delete list removes. */
  function DeletedKeys(stored: seq<StorageItem>, historyKeys: set<(int, int)>): (d: set<int>)
    ensures forall k :: k in d <==> exists x :: x in stored && x.timestamp == k && Key(x) !in historyKeys
  {
    if stored == [] then {}
    else
      var item := stored[|stored| - 1];
      DeletedKeys(stored[..|stored| - 1], historyKeys)
        + (if Key(item) !in historyKeys then {item.timestamp} else {})
  }

  lemma {:induction false} ApplyDeleteOps(t: map<int, int>, stored: seq<StorageItem>, historyKeys: set<(int, int)>)
    ensures ApplyOps(t, DeleteOps(stored, historyKeys)) == t - DeletedKeys(stored, historyKeys)
    decreases |stored|
  {
    if stored != [] {
      var n := |stored| - 1;
      var item := stored[n];
      var prefix := DeleteOps(stored[..n], historyKeys);
      var before := DeletedKeys(stored[..n], historyKeys);
      ApplyDeleteOps(t, stored[..n], historyKeys);
      if Key(item) !in historyKeys {
        ApplyOpsAppend(t, prefix, [Delete(item.timestamp)]);
        assert [Delete(item.timestamp)][..0] == [];
        assert (t - before) - {item.timestamp} == t - (before + {item.timestamp});
      } else {
        assert prefix + [] == prefix;
      }
    }
  }

  /** The map a sequence of upserts leaves behind: later items overwrite earlier ones. */
  function UpsertMap(items: seq<StorageItem>, storedKeys: set<(int, int)>): map<int, int> {
    if items == [] then map[]
    else
      var item := items[|items| - 1];
      var before := UpsertMap(items[..|items| - 1], storedKeys);
      if Key(item) !in storedKeys then before[item.timestamp := item.wasted] else before
  }

  /** Applying one more write at the end. */
  lemma ApplyOpsSnoc(t: map<int, int>, ops: seq<SyncOp>, op: SyncOp)
    ensures ApplyOps(t, ops + [op]) == ApplyOp(ApplyOps(t, ops), op)
  {
    assert (ops + [op])[..|ops|] == ops;
  }

  lemma OverrideUpdate(t: map<int, int>, b: map<int, int>, k: int, v: int)
    ensures (t + b)[k := v] == t + b[k := v]
  {
  }

  lemma {:induction false} ApplyUpsertOps(t: map<int, int>, history: seq<StorageItem>, storedKeys: set<(int, int)>)
    ensures ApplyOps(t, UpsertOps(history, storedKeys)) == t + UpsertMap(history, storedKeys)
    decreases |history|
  {
    if history != [] {
      var n := |history| - 1;
      var item := history[n];
      var prefix := UpsertOps(history[..n], storedKeys);
      var before := UpsertMap(history[..n], storedKeys);
      ApplyUpsertOps(t, history[..n], storedKeys);
      if Key(item) !in storedKeys {
        assert UpsertOps(history, storedKeys) == prefix + [Upsert(item)];
        ApplyOpsSnoc(t, prefix, Upsert(item));
        OverrideUpdate(t, before, item.timestamp, item.wasted);
      } else {
        assert UpsertOps(history, storedKeys) == prefix + [];
        assert prefix + [] == prefix;
      }
    } else {
      assert t + map[] == t;
    }
  }

  /** No two entries share a timestamp (entries are created with distinct clock readings). */
  predicate UniqueTimestamps(items: seq<StorageItem>) {
    forall i, j :: 0 <= i < j < |items| ==> items[i].timestamp != items[j].timestamp
  }

  lemma {:induction false} UpsertMapAt(items: seq<StorageItem>, storedKeys: set<(int, int)>)
    requires UniqueTimestamps(items)
    ensures forall k :: k in UpsertMap(items, storedKeys) <==>
      exists x :: x in items && x.timestamp == k && Key(x) !in storedKeys
    ensures forall x :: x in items && Key(x) !in storedKeys ==> UpsertMap(items, storedKeys)[x.timestamp] == x.wasted
    decreases |items|
  {
    if items != [] {
      var n := |items| - 1;
      var prefix := items[..n];
      assert UniqueTimestamps(prefix);
      UpsertMapAt(prefix, storedKeys);
      assert items == prefix + [items[n]];
      forall x | x in prefix ensures x.timestamp != items[n].timestamp {
        var i :| 0 <= i < n && prefix[i] == x;
      }
    }
  }

  /** The history as a table: timestamp -> wasted, later entries winning. */
  function HistoryMap(history: seq<StorageItem>): map<int, int> {
    UpsertMap(history, {})
  }

  /** The part of a table stamped before today's midnight, which a pass never touches. */
  function EarlierPart(t: map<int, int>, todayMidnight: int): map<int, int> {
    map k | k in t && k < todayMidnight :: t[k]
  }

  /**
    A pass applied with its deletes before its upserts. This is not the order `performSync`
    issues them in (see `IssueOrderDropsChangedItems`); it is the order under which a pass
    mirrors the history (`ReconcileMirrorsHistory`).
   */
  function ReconciledTable(t: map<int, int>, history: seq<StorageItem>, todayStored: seq<StorageItem>): map<int, int> {
    ApplyOps(ApplyOps(t, DeleteOps(todayStored, KeySet(history))), UpsertOps(history, KeySet(todayStored)))
  }

  /** An item of `Items(t)` is determined by its timestamp. */
  lemma ItemOfTable(t: map<int, int>, x: StorageItem, y: StorageItem)
    requires x in Items(t) && y in Items(t) && x.timestamp == y.timestamp
    ensures x == y
  {
  }

  lemma SameTimestampSameEntry(history: seq<StorageItem>, x: StorageItem, x': StorageItem)
    requires UniqueTimestamps(history)
    requires x in history && x' in history && x.timestamp == x'.timestamp
    ensures x == x'
  {
    var i :| 0 <= i < |history| && history[i] == x;
    var j :| 0 <= j < |history| && history[j] == x';
    assert !(i < j) && !(j < i);
  }

  /** The outcome of a pass written out: the table minus its deletes, overridden by its upserts. */
  function MirrorOf(t: map<int, int>, history: seq<StorageItem>, todayMidnight: int): map<int, int> {
    var today := TodayItems(Items(t), todayMidnight);
    (t - DeletedKeys(today, KeySet(history))) + UpsertMap(history, KeySet(today))
  }

  lemma ReconciledIsMirror(t: map<int, int>, history: seq<StorageItem>, todayMidnight: int)
    ensures ReconciledTable(t, history, TodayItems(Items(t), todayMidnight)) == MirrorOf(t, history, todayMidnight)
  {
    var today := TodayItems(Items(t), todayMidnight);
    ApplyDeleteOps(t, today, KeySet(history));
    ApplyUpsertOps(t - DeletedKeys(today, KeySet(history)), history, KeySet(today));
  }

  lemma MirrorAtHistoryKey(t: map<int, int>, history: seq<StorageItem>, todayMidnight: int, x: StorageItem)
    requires UniqueTimestamps(history)
    requires x in history
    ensures var r := MirrorOf(t, history, todayMidnight); x.timestamp in r && r[x.timestamp] == x.wasted
  {
    var today := TodayItems(Items(t), todayMidnight);
    var hk, sk := KeySet(history), KeySet(today);
    var d, u := DeletedKeys(today, hk), UpsertMap(history, sk);
    var k := x.timestamp;
    UpsertMapAt(history, sk);
    if Key(x) in sk {
      var y :| y in today && Key(y) == Key(x);
      assert k in t && t[k] == x.wasted;
      forall z | z in today && z.timestamp == k ensures Key(z) in hk {
        ItemOfTable(t, z, y);
      }
      forall x' | x' in history && x'.timestamp == k ensures Key(x') in sk {
        SameTimestampSameEntry(history, x, x');
      }
      assert k !in d;
      assert k !in u;
    } else {
      assert k in u && u[k] == x.wasted;
    }
  }

  lemma MirrorAtOtherKey(t: map<int, int>, history: seq<StorageItem>, todayMidnight: int, k: int)
    requires forall x :: x in history ==> x.timestamp != k
    ensures var r := MirrorOf(t, history, todayMidnight);
      && (k in r <==> k in EarlierPart(t, todayMidnight))
      && (k in r ==> r[k] == t[k])
  {
    var today := TodayItems(Items(t), todayMidnight);
    var hk, sk := KeySet(history), KeySet(today);
    var d := DeletedKeys(today, hk);
    assert k !in UpsertMap(history, sk) by {
      UniqueKeysOfUpsertMap(history, sk, k);
    }
    if k >= todayMidnight && k in t {
      var y := StorageItem(k, t[k]);
      assert y in today;
      assert k in d;
    }
  }

  lemma {:induction false} UniqueKeysOfUpsertMap(items: seq<StorageItem>, storedKeys: set<(int, int)>, k: int)
    requires forall x :: x in items ==> x.timestamp != k
    ensures k !in UpsertMap(items, storedKeys)
  {
    if items != [] {
      UniqueKeysOfUpsertMap(items[..|items| - 1], storedKeys, k);
    }
  }

  lemma MirrorAgreesAt(t: map<int, int>, history: seq<StorageItem>, todayMidnight: int, k: int)
    requires UniqueTimestamps(history)
    ensures var lhs := MirrorOf(t, history, todayMidnight);
      var rhs := EarlierPart(t, todayMidnight) + HistoryMap(history);
      (k in lhs <==> k in rhs) && (k in lhs ==> lhs[k] == rhs[k])
  {
    if x :| x in history && x.timestamp == k {
      MirrorAtHistoryKey(t, history, todayMidnight, x);
      UpsertMapAt(history, {});
    } else {
      MirrorAtOtherKey(t, history, todayMidnight, k);
      UniqueKeysOfUpsertMap(history, {}, k);
    }
  }

  /** Two tables with the same keys and the same value under each key are equal. */
  lemma SameMaps(a: map<int, int>, b: map<int, int>)
    requires forall k :: k in a <==> k in b
    requires forall k :: k in a ==> a[k] == b[k]
    ensures a == b
  {
    forall k ensures (k in a <==> k in b) && (k in a ==> a[k] == b[k]) {
    }
  }

  /**
    After a pass (deletes first) over a history of distinct timestamps, the store holds exactly
    its entries from before today overridden by the history. A history entry stamped before
    midnight is written again, with the history's minutes.
   */
  lemma ReconcileMirrorsHistory(t: map<int, int>, history: seq<StorageItem>, todayMidnight: int)
    requires UniqueTimestamps(history)
    ensures ReconciledTable(t, history, TodayItems(Items(t), todayMidnight))
      == EarlierPart(t, todayMidnight) + HistoryMap(history)
  {
    ReconciledIsMirror(t, history, todayMidnight);
    var lhs := MirrorOf(t, history, todayMidnight);
    var rhs := EarlierPart(t, todayMidnight) + HistoryMap(history);
    forall k ensures (k in lhs <==> k in rhs) && (k in lhs ==> lhs[k] == rhs[k]) {
      MirrorAgreesAt(t, history, todayMidnight, k);
    }
    SameMaps(lhs, rhs);
  }

  /**
    Running a second pass right after a deletes-first pass, with the same history stamped
    today, issues nothing: the corrected reconciliation is idempotent.
   */
  lemma ReconcileThenIdle(t: map<int, int>, history: seq<StorageItem>, todayMidnight: int)
    requires UniqueTimestamps(history)
    requires forall x :: x in history ==> IsFromToday(x.timestamp, todayMidnight)
    ensures var after := ReconciledTable(t, history, TodayItems(Items(t), todayMidnight));
      SyncOps(history, TodayItems(Items(after), todayMidnight)) == []
  {
    ReconcileMirrorsHistory(t, history, todayMidnight);
    var after := EarlierPart(t, todayMidnight) + HistoryMap(history);
    MirrorHoldsHistory(EarlierPart(t, todayMidnight), history, todayMidnight);
    TodayKeysWithin(after, history, todayMidnight);
    TodayKeysCover(after, history, todayMidnight);
    var today := TodayItems(Items(after), todayMidnight);
    assert KeySet(today) == KeySet(history);
    SyncIdleIffSameKeys(history, today);
  }

  /**
    A table made of an earlier part and the history map agrees with the history map from
    midnight on, and holds every history entry.
   */
  lemma MirrorHoldsHistory(earlier: map<int, int>, history: seq<StorageItem>, todayMidnight: int)
    requires UniqueTimestamps(history)
    requires forall x :: x in history ==> IsFromToday(x.timestamp, todayMidnight)
    requires forall k :: k in earlier ==> k < todayMidnight
    ensures var after := earlier + HistoryMap(history);
      && (forall k :: k in after && k >= todayMidnight ==> k in HistoryMap(history) && after[k] == HistoryMap(history)[k])
      && (forall x :: x in history ==> x.timestamp in after && after[x.timestamp] == x.wasted)
  {
    UpsertMapAt(history, {});
  }

  /** Where a table agrees with the history map from midnight on, its keys of today are history keys. */
  lemma TodayKeysWithin(after: map<int, int>, history: seq<StorageItem>, todayMidnight: int)
    requires UniqueTimestamps(history)
    requires forall k :: k in after && k >= todayMidnight ==> k in HistoryMap(history) && after[k] == HistoryMap(history)[k]
    ensures forall k :: k in KeySet(TodayItems(Items(after), todayMidnight)) ==> k in KeySet(history)
  {
    UpsertMapAt(history, {});
    var today := TodayItems(Items(after), todayMidnight);
    forall k | k in KeySet(today) ensures k in KeySet(history) {
      var y :| y in today && Key(y) == k;
      var x :| x in history && x.timestamp == y.timestamp;
      assert Key(x) == k;
    }
  }

  /** A table holding every history entry of today lists all of them among today's items. */
  lemma TodayKeysCover(after: map<int, int>, history: seq<StorageItem>, todayMidnight: int)
    requires forall x :: x in history ==> IsFromToday(x.timestamp, todayMidnight)
    requires forall x :: x in history ==> x.timestamp in after && after[x.timestamp] == x.wasted
    ensures forall k :: k in KeySet(history) ==> k in KeySet(TodayItems(Items(after), todayMidnight))
  {
    var today := TodayItems(Items(after), todayMidnight);
    forall k | k in KeySet(history) ensures k in KeySet(today) {
      var x :| x in history && Key(x) == k;
      assert x in today;
    }
  }

  /**
    Applied in the order they are issued (every upsert, then every delete), the writes of one
    pass lose each history entry whose minutes changed: its upsert is undone by the delete of
    the stale stored entry under the same timestamp.
   */
  lemma IssueOrderDropsChangedItems(t: map<int, int>, history: seq<StorageItem>, todayMidnight: int, x: StorageItem)
    requires UniqueTimestamps(history)
    requires x in history && IsFromToday(x.timestamp, todayMidnight)
    requires x.timestamp in t && t[x.timestamp] != x.wasted
    ensures x.timestamp !in ApplyOps(t, SyncOps(history, TodayItems(Items(t), todayMidnight)))
  {
    var today := TodayItems(Items(t), todayMidnight);
    var hk := KeySet(history);
    var ups := UpsertOps(history, KeySet(today));
    ApplyOpsAppend(t, ups, DeleteOps(today, hk));
    ApplyDeleteOps(ApplyOps(t, ups), today, hk);
    var y := StorageItem(x.timestamp, t[x.timestamp]);
    assert y in today;
    if Key(y) in hk {
      var z :| z in history && Key(z) == Key(y);
      var i :| 0 <= i < |history| && history[i] == x;
      assert false;  // z and x would be two entries with one timestamp
    }
    assert x.timestamp in DeletedKeys(today, hk);
  }

  /** The keys of the smallest case: one history entry and one stored entry, both at timestamp 10. */
  lemma ExampleKeys()
    ensures KeySet([StorageItem(10, 2)]) == {(10, 2)}
    ensures KeySet([StorageItem(10, 1)]) == {(10, 1)}
  {
    var history := [StorageItem(10, 2)];
    var today := [StorageItem(10, 1)];
    assert StorageItem(10, 2) in history && StorageItem(10, 1) in today;
    forall k | k in KeySet(history) ensures k == (10, 2) {
      var x :| x in history && Key(x) == k;
    }
    forall k | k in KeySet(today) ensures k == (10, 1) {
      var x :| x in today && Key(x) == k;
    }
  }

  lemma ExampleOps()
    ensures UpsertOps([StorageItem(10, 2)], KeySet([StorageItem(10, 1)])) == [Upsert(StorageItem(10, 2))]
    ensures DeleteOps([StorageItem(10, 1)], KeySet([StorageItem(10, 2)])) == [Delete(10)]
  {
    ExampleKeys();
  }

  lemma ExampleApplied()
    ensures ApplyOps(map[10 := 1], [Upsert(StorageItem(10, 2)), Delete(10)]) == map[]
    ensures ApplyOps(ApplyOps(map[10 := 1], [Delete(10)]), [Upsert(StorageItem(10, 2))]) == map[10 := 2]
  {
    var ops := [Upsert(StorageItem(10, 2)), Delete(10)];
    assert ops[..1] == [Upsert(StorageItem(10, 2))];
    assert ApplyOps(map[10 := 1], ops[..1]) == map[10 := 2];
    assert map[10 := 2] - {10} == map[];
    assert map[10 := 1] - {10} == map[];
    assert map[][10 := 2] == map[10 := 2];
  }

  /** The smallest case: a stored entry whose minutes were edited vanishes in issue order. */
  lemma IssueOrderExample()
    ensures var history := [StorageItem(10, 2)];
      var today := [StorageItem(10, 1)];
      SyncOps(history, today) == [Upsert(StorageItem(10, 2)), Delete(10)]
      && ApplyOps(map[10 := 1], SyncOps(history, today)) == map[]
      && ReconciledTable(map[10 := 1], history, today) == map[10 := 2]
  {
    ExampleOps();
    ExampleApplied();
  }

  /**
    Applied in issue order, a pass ends in the same table as with its deletes first whenever no
    history entry of today edits the minutes of a stored entry: then no timestamp is both
    upserted and deleted.
   */
  lemma IssueOrderWithoutEdits(t: map<int, int>, history: seq<StorageItem>, todayMidnight: int)
    requires UniqueTimestamps(history)
    requires forall x :: x in history && IsFromToday(x.timestamp, todayMidnight) && x.timestamp in t ==>
      t[x.timestamp] == x.wasted
    ensures var today := TodayItems(Items(t), todayMidnight);
      ApplyOps(t, SyncOps(history, today)) == ReconciledTable(t, history, today)
  {
    var today := TodayItems(Items(t), todayMidnight);
    var d, u := DeletedKeys(today, KeySet(history)), UpsertMap(history, KeySet(today));
    assert forall k :: k in d ==> k !in u by {
      NothingUpsertedAndDeleted(t, history, todayMidnight);
    }
    IssueOrderOfDisjointPass(t, history, today);
  }

  /** A pass whose upserted and deleted timestamps are disjoint ends alike in either order. */
  lemma IssueOrderOfDisjointPass(t: map<int, int>, history: seq<StorageItem>, today: seq<StorageItem>)
    requires forall k :: k in DeletedKeys(today, KeySet(history)) ==> k !in UpsertMap(history, KeySet(today))
    ensures ApplyOps(t, SyncOps(history, today)) == ReconciledTable(t, history, today)
  {
    var hk, sk := KeySet(history), KeySet(today);
    var d, u := DeletedKeys(today, hk), UpsertMap(history, sk);
    ApplyOpsAppend(t, UpsertOps(history, sk), DeleteOps(today, hk));
    ApplyUpsertOps(t, history, sk);
    ApplyDeleteOps(t + u, today, hk);
    ApplyDeleteOps(t, today, hk);
    ApplyUpsertOps(t - d, history, sk);
    DisjointOverride(t, u, d);
  }

  /**
    So a pass as issued mirrors the history, as long as no entry of today had its minutes
    edited: the store ends with its entries from before today overridden by the history.
   */
  lemma IssueOrderMirrorsUneditedHistory(t: map<int, int>, history: seq<StorageItem>, todayMidnight: int)
    requires UniqueTimestamps(history)
    requires forall x :: x in history && IsFromToday(x.timestamp, todayMidnight) && x.timestamp in t ==>
      t[x.timestamp] == x.wasted
    ensures ApplyOps(t, SyncOps(history, TodayItems(Items(t), todayMidnight)))
      == EarlierPart(t, todayMidnight) + HistoryMap(history)
  {
    IssueOrderWithoutEdits(t, history, todayMidnight);
    ReconcileMirrorsHistory(t, history, todayMidnight);
  }

  /** Without edits, no timestamp of today is both upserted and deleted by one pass. */
  lemma NothingUpsertedAndDeleted(t: map<int, int>, history: seq<StorageItem>, todayMidnight: int)
    requires UniqueTimestamps(history)
    requires forall x :: x in history && IsFromToday(x.timestamp, todayMidnight) && x.timestamp in t ==>
      t[x.timestamp] == x.wasted
    ensures var today := TodayItems(Items(t), todayMidnight);
      forall k :: k in DeletedKeys(today, KeySet(history)) ==> k !in UpsertMap(history, KeySet(today))
  {
    var today := TodayItems(Items(t), todayMidnight);
    var hk, sk := KeySet(history), KeySet(today);
    var d, u := DeletedKeys(today, hk), UpsertMap(history, sk);
    UpsertMapAt(history, sk);
    forall k | k in d ensures k !in u {
      var y :| y in today && y.timestamp == k && Key(y) !in hk;
      assert y == StorageItem(k, t[k]);
    }
  }

  /** Removing keys and overriding commute when no removed key is overridden. */
  lemma DisjointOverride(t: map<int, int>, u: map<int, int>, d: set<int>)
    requires forall k :: k in d ==> k !in u
    ensures (t + u) - d == (t - d) + u
  {
    SameMaps((t + u) - d, (t - d) + u);
  }

  /**
    A history entry stamped before today's midnight is never among today's stored keys, so every
    pass upserts it again, whatever the store holds: a pass over such a history is never idle.
   */
  lemma PreMidnightEntryReupserted(t: map<int, int>, history: seq<StorageItem>, todayMidnight: int, x: StorageItem)
    requires x in history && x.timestamp < todayMidnight
    ensures Upsert(x) in SyncOps(history, TodayItems(Items(t), todayMidnight))
  {
    var today := TodayItems(Items(t), todayMidnight);
    assert Key(x) !in KeySet(today);
    assert Upsert(x) in UpsertOps(history, KeySet(today));
  }

  /** The smallest case: stored {5: 1}, history [(5, 1)], midnight at 10; a pass re-upserts (5, 1). */
  lemma PreMidnightExample()
    ensures Upsert(StorageItem(5, 1)) in SyncOps([StorageItem(5, 1)], TodayItems(Items(map[5 := 1]), 10))
  {
    PreMidnightEntryReupserted(map[5 := 1], [StorageItem(5, 1)], 10, StorageItem(5, 1));
  }

  /**
    As issued, with no entry of today edited and the whole history stamped today, a second
    pass with the same history issues nothing.
   */
  lemma IssueOrderThenIdle(t: map<int, int>, history: seq<StorageItem>, todayMidnight: int)
    requires UniqueTimestamps(history)
    requires forall x :: x in history ==> IsFromToday(x.timestamp, todayMidnight)
    requires forall x :: x in history && IsFromToday(x.timestamp, todayMidnight) && x.timestamp in t ==>
      t[x.timestamp] == x.wasted
    ensures var after := ApplyOps(t, SyncOps(history, TodayItems(Items(t), todayMidnight)));
      SyncOps(history, TodayItems(Items(after), todayMidnight)) == []
  {
    IssueOrderWithoutEdits(t, history, todayMidnight);
    ReconcileThenIdle(t, history, todayMidnight);
  }

  /**
    As issued, a pass that drops an edited entry is not the last one: the next pass with the
    same history upserts that entry again, so the loss lasts until then.
   */
  lemma IssueOrderSecondPassRestores(t: map<int, int>, history: seq<StorageItem>, todayMidnight: int, x: StorageItem)
    requires UniqueTimestamps(history)
    requires x in history && IsFromToday(x.timestamp, todayMidnight)
    requires x.timestamp in t && t[x.timestamp] != x.wasted
    ensures var after := ApplyOps(t, SyncOps(history, TodayItems(Items(t), todayMidnight)));
      Upsert(x) in SyncOps(history, TodayItems(Items(after), todayMidnight))
  {
    var after := ApplyOps(t, SyncOps(history, TodayItems(Items(t), todayMidnight)));
    IssueOrderDropsChangedItems(t, history, todayMidnight, x);
    AbsentEntryUpserted(after, history, todayMidnight, x);
  }

  /** A history entry whose timestamp the table lacks is upserted by the next pass. */
  lemma AbsentEntryUpserted(t: map<int, int>, history: seq<StorageItem>, todayMidnight: int, x: StorageItem)
    requires x in history && x.timestamp !in t
    ensures Upsert(x) in SyncOps(history, TodayItems(Items(t), todayMidnight))
  {
    var today := TodayItems(Items(t), todayMidnight);
    assert Key(x) !in KeySet(today);
    assert Upsert(x) in UpsertOps(history, KeySet(today));
  }
}
