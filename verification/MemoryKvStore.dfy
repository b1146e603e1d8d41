/** The in-memory adapter: one map, updated in place by every write. */
module MemoryKvStores {
  import opened Options
  import opened KvTypes
  import opened KvRows

  class MemoryKvStore {
    var store: map<string, Row>

    constructor ()
      ensures store == map[]
    {
      store := map[];
    }

    method Get(key: string, includeExpired: bool, now: int) returns (record: Option<Record>)
      ensures (store, Got(record)) == StoreStep(Memory, store, TimedCall(now, On(key, RowOp.Get(includeExpired))))
    {
      UpdateByItsOwn(store, key);
      if key !in store {
        return None;
      }
      var entry := store[key];
      if !includeExpired && ExpiredBySecond(entry, now) {
        return None;
      }
      return Some(ToRecord(entry));
    }

    method Put(key: string, value: Value, opts: WriteOptions, now: int) returns (record: Record)
      modifies this
      ensures (store, Wrote(record)) == StoreStep(Memory, old(store), TimedCall(now, On(key, RowOp.Put(value, opts))))
    {
      var version := if key in store then store[key].version + 1 else 1;
      var entry := NewRow(value, version, opts, now);
      store := store[key := entry];
      record := ToRecord(entry);
    }

    method PutIfAbsent(key: string, value: Value, opts: WriteOptions, now: int)
      returns (applied: bool, record: Option<Record>)
      modifies this
      ensures (store, Cas(applied, record))
           == StoreStep(Memory, old(store), TimedCall(now, On(key, RowOp.PutIfAbsent(value, opts))))
    {
      UpdateByItsOwn(store, key);
      if key in store && !ExpiredBySecond(store[key], now) {
        return false, Some(ToRecord(store[key]));
      }
      var version := if key in store then store[key].version + 1 else 1;
      var entry := NewRow(value, version, opts, now);
      store := store[key := entry];
      return true, Some(ToRecord(entry));
    }

    method CompareAndSet(key: string, expected: int, value: Value, opts: WriteOptions, now: int)
      returns (applied: bool, record: Option<Record>)
      modifies this
      ensures (store, Cas(applied, record))
           == StoreStep(Memory, old(store), TimedCall(now, On(key, RowOp.CompareAndSet(expected, value, opts))))
    {
      UpdateByItsOwn(store, key);
      var live := key in store && !ExpiredBySecond(store[key], now);
      var currentVersion := if live then store[key].version else 0;
      if currentVersion != expected {
        return false, if live then Some(ToRecord(store[key])) else None;
      }
      var entry := NewRow(value, expected + 1, opts, now);
      store := store[key := entry];
      return true, Some(ToRecord(entry));
    }

    method PutIfFresher(key: string, value: Value, freshUntil: int, indexedKey: Option<string>, now: int)
      returns (applied: bool, record: Option<Record>)
      modifies this
      ensures (store, Cas(applied, record))
           == StoreStep(Memory, old(store), TimedCall(now, On(key, RowOp.PutIfFresher(value, freshUntil, indexedKey))))
    {
      UpdateByItsOwn(store, key);
      var live := key in store && !ExpiredBySecond(store[key], now);
      var canWrite := !live || store[key].expiresAt.None? || store[key].expiresAt.value < freshUntil;
      if !canWrite {
        return false, Some(ToRecord(store[key]));
      }
      var entry := Row(value, 1, Some(freshUntil), indexedKey);
      store := store[key := entry];
      return true, Some(ToRecord(entry));
    }

    method Increment(key: string, fieldName: string, delta: int, opts: WriteOptions,
        now: int) returns (outcome: Outcome)
      modifies this
      ensures (store, outcome) == StoreStep(Memory, old(store), TimedCall(now, On(key, RowOp.Increment(fieldName,
                delta, opts))))
    {
      UpdateByItsOwn(store, key);
      if !IsFieldName(fieldName) {
        return Rejected;
      }
      var base: Value := map[];
      var version, expiresAt, indexedKey := 1, ResolveExpiry(opts, now), None;
      if key in store {
        var existing := store[key];
        base, version, indexedKey := existing.value, existing.version + 1, existing.indexedKey;
        if existing.expiresAt.Some? {
          expiresAt := existing.expiresAt;
        }
      }
      var current := Counter(base, fieldName);
      var next := if current.Num? then Num(current.n + delta) else NotANumber;
      store := store[key := Row(base[fieldName := next], version, expiresAt, indexedKey)];
      return Sum(next);
    }

    method Delete(key: string, guard: Option<int>) returns (removed: bool)
      modifies this
      ensures forall now ::
                (store, Deleted(removed)) == StoreStep(Memory, old(store), TimedCall(now, On(key, RowOp.Delete(guard))))
    {
      UpdateByItsOwn(store, key);
      if key !in store {
        return false;
      }
      if guard.Some? && store[key].version != guard.value {
        return false;
      }
      store := store - {key};
      return true;
    }

    method QueryByIndex(indexValue: string, now: int) returns (results: map<string, Record>)
      ensures (store, Listed(results)) == StoreStep(Memory, store, TimedCall(now, Call.QueryByIndex(indexValue)))
    {
      results := map[];
      var rest := store.Keys;
      while rest != {}
        invariant rest <= store.Keys
        invariant results == map k | k in IndexRows(Memory, store, now, indexValue) && k !in rest :: ToRecord(store[k])
        decreases |rest|
      {
        var key :| key in rest;
        rest := rest - {key};
        var entry := store[key];
        if ExpiredBySecond(entry, now) || entry.indexedKey != Some(indexValue) {
          continue;
        }
        results := results[key := ToRecord(entry)];
      }
      assert results == IndexRows(Memory, store, now, indexValue);
    }
  }
}
