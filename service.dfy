/**
  The reconciliation service (src/services/TimeWasteService.ts): it loads today's history
  from the store, debounces sync requests and runs the reconciliation pass against the store.
  Local midnight, which the source reads from the clock at each `isFromToday` call, is the
  parameter `todayMidnight`; the debounce timer is the `scheduled` field and the method
  `OnSyncTimeout`, which an environment calls when the timer fires.
 */
module Service {
  import opened Errors
  import opened Storage
  import opened History
  import opened Reconcile

  class TimeWasteService {
    const storage: AppStorage
    /**
      The history captured by the debounced callback that is waiting to fire; None when no
      callback is pending (none was scheduled, it was cancelled, or it has fired).
     */
    var scheduled: Option<seq<StorageItem>>
    var isSyncing: bool
    var hasLoadedInitialData: bool

    /** `new AppStorage("waste-timer")`, over a browser that already holds `onDiskVersion` and `onDiskTable`. */
    constructor (onDiskVersion: nat, onDiskTable: map<int, int>)
      ensures fresh(storage)
      ensures storage.databaseName == "waste-timer"
      ensures storage.version == onDiskVersion && storage.table == onDiskTable
      ensures scheduled == None && !isSyncing && !hasLoadedInitialData
    {
      storage := new AppStorage("waste-timer", onDiskVersion, onDiskTable);
      scheduled := None;
      isSyncing := false;
      hasLoadedInitialData := false;
    }

    /**
      `initialize`: today's stored items and their total. A failure to read the store is
      swallowed and yields an empty history; either way later syncs are enabled.
     */
    method Initialize(todayMidnight: int) returns (timeWasted: int, timeWastedHistory: seq<StorageItem>)
      modifies this, storage
      ensures hasLoadedInitialData
      ensures isSyncing == old(isSyncing) && scheduled == old(scheduled)
      ensures Opens(old(storage.version)) ==>
        var t0 := TableAfterOpen(old(storage.version), old(storage.table));
        && storage.version == SchemaVersion && storage.table == t0
        && timeWastedHistory == TodayItems(Items(t0), todayMidnight)
        && timeWasted == Sum(timeWastedHistory)
      ensures !Opens(old(storage.version)) ==>
        && storage.version == old(storage.version) && storage.table == old(storage.table)
        && timeWasted == 0 && timeWastedHistory == []
    {
      var storedItems := storage.GetAllItems();
      if storedItems.Err? {
        hasLoadedInitialData := true;
        return 0, [];
      }
      var todayItems := TodayItems(storedItems.value, todayMidnight);
      timeWasted := Sum(todayItems);
      hasLoadedInitialData := true;
      timeWastedHistory := todayItems;
    }

    /**
      `syncToStorage`: ignored until the initial load has run; otherwise (re)schedules the
      debounced sync with this history, cancelling a callback still pending.
     */
    method SyncToStorage(history: seq<StorageItem>)
      modifies this
      ensures isSyncing == old(isSyncing) && hasLoadedInitialData == old(hasLoadedInitialData)
      ensures old(hasLoadedInitialData) ==> scheduled == Some(history)
      ensures !old(hasLoadedInitialData) ==> scheduled == old(scheduled)
    {
      if !hasLoadedInitialData {
        return;
      }
      scheduled := Some(history);
    }

    /**
      The debounced callback firing: it runs a pass with the history it captured unless a pass
      is already running. With nothing pending, nothing happens.
     */
    method OnSyncTimeout(todayMidnight: int) returns (operations: seq<SyncOp>)
      modifies this, storage
      ensures scheduled == None
      ensures isSyncing == old(isSyncing) && hasLoadedInitialData == old(hasLoadedInitialData)
      ensures old(scheduled) == None || old(isSyncing) ==>
        operations == [] && storage.version == old(storage.version) && storage.table == old(storage.table)
      ensures old(scheduled).Some? && !old(isSyncing) && Opens(old(storage.version)) ==>
        var t0 := TableAfterOpen(old(storage.version), old(storage.table));
        var today := TodayItems(Items(t0), todayMidnight);
        && operations == SyncOps(old(scheduled).value, today)
        && storage.version == SchemaVersion
        && storage.table == ApplyOps(t0, SyncOps(old(scheduled).value, today))
      ensures old(scheduled).Some? && !Opens(old(storage.version)) ==>
        operations == [] && storage.version == old(storage.version) && storage.table == old(storage.table)
    {
      operations := [];
      if scheduled == None {
        return;
      }
      var history := scheduled.value;
      scheduled := None;
      if !isSyncing {
        operations := PerformSync(history, todayMidnight);
      }
    }

    /** `forceSync`: cancels the pending callback and runs a pass at once. */
    method ForceSync(history: seq<StorageItem>, todayMidnight: int) returns (operations: seq<SyncOp>)
      modifies this, storage
      ensures scheduled == None
      ensures isSyncing == old(isSyncing) && hasLoadedInitialData == old(hasLoadedInitialData)
      ensures old(isSyncing) ==>
        operations == [] && storage.version == old(storage.version) && storage.table == old(storage.table)
      ensures !old(isSyncing) && Opens(old(storage.version)) ==>
        var t0 := TableAfterOpen(old(storage.version), old(storage.table));
        var today := TodayItems(Items(t0), todayMidnight);
        && operations == SyncOps(history, today)
        && storage.version == SchemaVersion
        && storage.table == ApplyOps(t0, SyncOps(history, today))
      ensures !Opens(old(storage.version)) ==>
        operations == [] && storage.version == old(storage.version) && storage.table == old(storage.table)
    {
      scheduled := None;
      operations := PerformSync(history, todayMidnight);
    }

    /** `getTotalStoredItemsCount`: the number of stored records, or 0 when the store cannot be read. */
    method GetTotalStoredItemsCount() returns (count: nat)
      modifies storage
      ensures Opens(old(storage.version)) ==>
        var t0 := TableAfterOpen(old(storage.version), old(storage.table));
        storage.version == SchemaVersion && storage.table == t0 && count == |t0|
      ensures !Opens(old(storage.version)) ==>
        storage.version == old(storage.version) && storage.table == old(storage.table) && count == 0
    {
      var storedItems := storage.GetAllItems();
      if storedItems.Err? {
        return 0;
      }
      count := |storedItems.value|;
    }

    /**
      `clearAllStorage` as written: it calls a method the storage layer does not define, so the
      call throws before touching the store, and the error is rethrown to the caller.
     */
    method ClearAllStorage() returns (r: Outcome)
      ensures r == Fail(NotAFunction("clearAllStorage"))
    {
      r := Fail(NotAFunction("clearAllStorage"));
    }

    /** One write of a pass, sent to the store (`upsertItem` or `deleteItem`). */
    method Issue(op: SyncOp) returns (r: Outcome)
      modifies storage
      requires storage.version == SchemaVersion
      ensures r == Pass
      ensures storage.version == SchemaVersion && storage.table == ApplyOp(old(storage.table), op)
    {
      match op
      case Upsert(item) =>
        r := storage.UpsertItem(item);
      case Delete(timestamp) =>
        r := storage.DeleteItem(timestamp);
    }

    /** Sends `ops` to the store one after another. */
    method IssueAll(ops: seq<SyncOp>)
      modifies storage
      requires storage.version == SchemaVersion
      ensures storage.version == SchemaVersion && storage.table == ApplyOps(old(storage.table), ops)
    {
      var t0 := storage.table;
      var i := 0;
      while i < |ops|
        invariant 0 <= i <= |ops|
        invariant storage.version == SchemaVersion && storage.table == ApplyOps(t0, ops[..i])
      {
        assert ops[..i + 1][..i] == ops[..i];
        var _ := Issue(ops[i]);
        i := i + 1;
      }
      assert ops[..i] == ops;
    }

    /** The first loop of a pass: an upsert for each history entry whose key is not stored. */
    static method CollectUpserts(history: seq<StorageItem>, storedKeys: set<(int, int)>) returns (upserts: seq<SyncOp>)
      ensures upserts == UpsertOps(history, storedKeys)
    {
      upserts := [];
      var i := 0;
      while i < |history|
        invariant 0 <= i <= |history|
        invariant upserts == UpsertOps(history[..i], storedKeys)
      {
        assert history[..i + 1][..i] == history[..i];
        var item := history[i];
        if Key(item) !in storedKeys {
          upserts := upserts + [Upsert(item)];
        }
        i := i + 1;
      }
      assert history[..i] == history;
    }

    /** The second loop of a pass: a delete for each stored entry whose key the history lacks. */
    static method CollectDeletes(todayStoredItems: seq<StorageItem>, historyKeys: set<(int, int)>) returns (deletes: seq<SyncOp>)
      ensures deletes == DeleteOps(todayStoredItems, historyKeys)
    {
      deletes := [];
      var j := 0;
      while j < |todayStoredItems|
        invariant 0 <= j <= |todayStoredItems|
        invariant deletes == DeleteOps(todayStoredItems[..j], historyKeys)
      {
        assert todayStoredItems[..j + 1][..j] == todayStoredItems[..j];
        var item := todayStoredItems[j];
        if Key(item) !in historyKeys {
          deletes := deletes + [Delete(item.timestamp)];
        }
        j := j + 1;
      }
      assert todayStoredItems[..j] == todayStoredItems;
    }

    /**
      `performSync`: reads the store, keeps today's items, and issues an upsert for each
      history entry whose key is not stored today and a delete for each stored entry of today
      whose key the history lacks. A pass already running makes this a no-op; a failure to read
      the store is swallowed. The writes of one `Promise.all` each open the database at once,
      and IndexedDB runs read-write transactions on one store in the order they were created,
      so they take effect in issue order: every upsert, then every delete.
     */
    method PerformSync(history: seq<StorageItem>, todayMidnight: int) returns (operations: seq<SyncOp>)
      modifies this, storage
      ensures isSyncing == old(isSyncing)
      ensures scheduled == old(scheduled) && hasLoadedInitialData == old(hasLoadedInitialData)
      ensures old(isSyncing) ==>
        operations == [] && storage.version == old(storage.version) && storage.table == old(storage.table)
      ensures !old(isSyncing) && Opens(old(storage.version)) ==>
        var t0 := TableAfterOpen(old(storage.version), old(storage.table));
        var today := TodayItems(Items(t0), todayMidnight);
        && operations == SyncOps(history, today)
        && storage.version == SchemaVersion
        && storage.table == ApplyOps(t0, SyncOps(history, today))
      ensures !Opens(old(storage.version)) ==>
        operations == [] && storage.version == old(storage.version) && storage.table == old(storage.table)
    {
      operations := [];
      if isSyncing {
        return;
      }
      isSyncing := true;
      var storedItems := storage.GetAllItems();
      if storedItems.Err? {
        isSyncing := false;
        return;
      }
      var t0 := storage.table;
      var todayStoredItems := TodayItems(storedItems.value, todayMidnight);
      var historyKeys := KeySet(history);
      var storedKeys := KeySet(todayStoredItems);

      var upserts := CollectUpserts(history, storedKeys);
      var deletes := CollectDeletes(todayStoredItems, historyKeys);
      operations := upserts + deletes;
      IssueAll(operations);
      isSyncing := false;
    }
  }
}
