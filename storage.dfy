/**
  The durable store (src/utils/AppStorage.ts): one IndexedDB object store named "store",
  keyed on `timestamp`, inside a database whose schema version this code opens at 6.
  The object store is modelled as its contents, a map from timestamp to wasted minutes; the
  database as an object whose on-disk version and table the methods update in place.
 */
module Storage {
  import opened Errors

  /** One recorded event: `timestamp` (milliseconds, the primary key) and `wasted` (minutes). */
  datatype StorageItem = StorageItem(timestamp: int, wasted: int)

  /** The schema version `openDB` asks for. */
  const SchemaVersion: nat := 6

  /** Opening at SchemaVersion succeeds unless the database on disk is already newer. */
  predicate Opens(onDisk: nat) {
    onDisk <= SchemaVersion
  }

  function OpenOutcome(onDisk: nat): (r: Outcome)
    ensures r.Pass? <==> Opens(onDisk)
  {
    if Opens(onDisk) then Pass else Fail(VersionError(onDisk))
  }

  /** The table once the open has run its upgrade: an older schema is dropped and recreated empty. */
  function TableAfterOpen(onDisk: nat, table: map<int, int>): (t: map<int, int>)
    ensures onDisk < SchemaVersion ==> t == map[]
    ensures onDisk >= SchemaVersion ==> t == table
  {
    if onDisk < SchemaVersion then map[] else table
  }

  lemma {:induction false} ExtremaExist(s: set<int>)
    requires s != {}
    ensures exists k :: k in s && forall j :: j in s ==> k <= j
    ensures exists k :: k in s && forall j :: j in s ==> j <= k
  {
    if forall y :: y !in s {
      assert false;  // s would be the empty set
    }
    var x :| x in s;
    if s != {x} {
      var rest := s - {x};
      ExtremaExist(rest);
      var lo :| lo in rest && forall j :: j in rest ==> lo <= j;
      var hi :| hi in rest && forall j :: j in rest ==> j <= hi;
      assert forall j :: j in s ==> j == x || j in rest;
      var m := if x < lo then x else lo;
      assert m in s && forall j :: j in s ==> m <= j;
      var n := if x > hi then x else hi;
      assert n in s && forall j :: j in s ==> j <= n;
    } else {
      assert forall j :: j in s ==> j == x;
    }
  }

  /** The smallest key of a non-empty key set. */
  function MinKey(s: set<int>): (k: int)
    requires s != {}
    ensures k in s && forall j :: j in s ==> k <= j
  {
    ExtremaExist(s);
    var k :| k in s && forall j :: j in s ==> k <= j; k
  }

  /** The largest key of a non-empty key set (`Math.max(...keys)`). */
  function MaxKey(s: set<int>): (k: int)
    requires s != {}
    ensures k in s && forall j :: j in s ==> j <= k
  {
    ExtremaExist(s);
    var k :| k in s && forall j :: j in s ==> j <= k; k
  }

  /**
    What `getAll()` returns for a table: one item per key, in ascending key order
    (an object store hands its records back sorted by primary key).
   */
  function Items(t: map<int, int>): (r: seq<StorageItem>)
    ensures |r| == |t|
    ensures forall x :: x in r <==> x.timestamp in t && t[x.timestamp] == x.wasted
    ensures forall i, j :: 0 <= i < j < |r| ==> r[i].timestamp < r[j].timestamp
    decreases |t|
  {
    if |t| == 0 then []
    else
      var k := MinKey(t.Keys);
      var rest := t - {k};
      assert rest.Keys == t.Keys - {k};
      [StorageItem(k, t[k])] + Items(rest)
  }

  /** Writing the same timestamp twice leaves one record, carrying the second value. */
  lemma UpsertOverwrites(t: map<int, int>, k: int, first: int, second: int)
    ensures StorageItem(k, second) in Items(t[k := first][k := second])
    ensures forall x :: x in Items(t[k := first][k := second]) && x.timestamp == k ==> x.wasted == second
  {
  }

  /** Deleting the latest key right after writing a newer timestamp restores the table. */
  lemma DeleteLatestUndoesNewest(t: map<int, int>, k: int, v: int)
    requires forall j :: j in t ==> j < k
    ensures var u := t[k := v]; k in u.Keys && u - {MaxKey(u.Keys)} == t
  {
    var u := t[k := v];
    assert k in u.Keys;
    assert MaxKey(u.Keys) == k;
    assert u - {k} == t;
  }

  class AppStorage {
    const databaseName: string
    /** Schema version of the database on disk; 0 when it has never been created. */
    var version: nat
    /** Contents of the object store "store": timestamp -> wasted. */
    var table: map<int, int>

    /** A handle on database `databaseName`, which already holds `onDiskVersion` and `onDiskTable`. */
    constructor (databaseName: string, onDiskVersion: nat, onDiskTable: map<int, int>)
      ensures this.databaseName == databaseName
      ensures version == onDiskVersion && table == onDiskTable
    {
      this.databaseName := databaseName;
      version := onDiskVersion;
      table := onDiskTable;
    }

    /**
      `indexedDB.open(name, 6)`. An older database triggers the upgrade, which deletes the
      object store if it exists and creates it again, empty; a newer one fails to open.
     */
    method OpenDB() returns (r: Outcome)
      modifies this
      ensures r == OpenOutcome(old(version))
      ensures Opens(old(version)) ==> version == SchemaVersion && table == TableAfterOpen(old(version), old(table))
      ensures !Opens(old(version)) ==> version == old(version) && table == old(table)
    {
      if version > SchemaVersion {
        return Fail(VersionError(version));
      }
      if version < SchemaVersion {
        table := map[];
        version := SchemaVersion;
      }
      r := Pass;
    }

    /** `put` of the item: creates or overwrites the record under its timestamp. */
    method UpsertItem(item: StorageItem) returns (r: Outcome)
      modifies this
      ensures r == OpenOutcome(old(version))
      ensures Opens(old(version)) ==>
        version == SchemaVersion && table == TableAfterOpen(old(version), old(table))[item.timestamp := item.wasted]
      ensures !Opens(old(version)) ==> version == old(version) && table == old(table)
    {
      r := OpenDB();
      if r.Fail? {
        return;
      }
      table := table[item.timestamp := item.wasted];
    }

    /** `getAll()`: every record, one per key. */
    method GetAllItems() returns (r: Result<seq<StorageItem>>)
      modifies this
      ensures r.Ok? <==> Opens(old(version))
      ensures Opens(old(version)) ==>
        version == SchemaVersion && table == TableAfterOpen(old(version), old(table)) && r.value == Items(table)
      ensures !Opens(old(version)) ==>
        version == old(version) && table == old(table) && r == Err(VersionError(old(version)))
    {
      var open := OpenDB();
      if open.Fail? {
        return Err(open.error);
      }
      r := Ok(Items(table));
    }

    /** `delete(id)`: removes the record if present; an absent key is not an error. */
    method DeleteItem(id: int) returns (r: Outcome)
      modifies this
      ensures r == OpenOutcome(old(version))
      ensures Opens(old(version)) ==>
        version == SchemaVersion && table == TableAfterOpen(old(version), old(table)) - {id}
      ensures Opens(old(version)) && id !in TableAfterOpen(old(version), old(table)) ==>
        table == TableAfterOpen(old(version), old(table))
      ensures !Opens(old(version)) ==> version == old(version) && table == old(table)
    {
      r := OpenDB();
      if r.Fail? {
        return;
      }
      table := table - {id};
    }

    /** `getAllKeys()`, then `delete(Math.max(...keys))` unless there are none. */
    method DeleteLatest() returns (r: Outcome)
      modifies this
      ensures r == OpenOutcome(old(version))
      ensures Opens(old(version)) && TableAfterOpen(old(version), old(table)) == map[] ==>
        version == SchemaVersion && table == map[]
      ensures Opens(old(version)) && TableAfterOpen(old(version), old(table)) != map[] ==>
        var before := TableAfterOpen(old(version), old(table));
        version == SchemaVersion && table == before - {MaxKey(before.Keys)}
      ensures !Opens(old(version)) ==> version == old(version) && table == old(table)
    {
      r := OpenDB();
      if r.Fail? {
        return;
      }
      var keys := table.Keys;
      if |keys| == 0 {
        assert table == map[];
        return;
      }
      var latestKey := MaxKey(keys);
      table := table - {latestKey};
    }

    /**
      The clear-all operation the service calls; src/utils/AppStorage.ts does not define it.
      Modelled as what the call evidently intends: every record is removed.
     */
    method ClearAllStorage() returns (r: Outcome)
      modifies this
      ensures r == OpenOutcome(old(version))
      ensures Opens(old(version)) ==> version == SchemaVersion && table == map[] && Items(table) == []
      ensures !Opens(old(version)) ==> version == old(version) && table == old(table)
    {
      r := OpenDB();
      if r.Fail? {
        return;
      }
      table := map[];
    }
  }
}
