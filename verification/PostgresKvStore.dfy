/** The Postgres adapter: one table for all namespaces, each method one atomic statement. */
module PostgresKvStores {
  import opened Options
  import opened KvTypes
  import opened KvRows
  import KvSweep

  /** The composite primary key. */
  datatype PrimaryKey = PrimaryKey(namespace: string, key: string)

  /** A table row; `expiresAtMs` is the timestamp column. */
  datatype TableRow = TableRow(value: Value, version: int, expiresAtMs: Option<int>, indexedKey: Option<string>)

  /** Seconds become a timestamp on the way in … */
  function ExpiryParam(seconds: Option<int>): (ms: Option<int>) {
    if seconds.Some? then Some(seconds.value * 1000) else None
  }

  /** … and are floored back out of it on the way out. */
  function ReadRow(r: TableRow): (row: Row) {
    Row(r.value, r.version, if r.expiresAtMs.Some? then Some(r.expiresAtMs.value / 1000) else None, r.indexedKey)
  }

  function WriteRow(row: Row): (r: TableRow) {
    TableRow(row.value, row.version, ExpiryParam(row.expiresAt), row.indexedKey)
  }

  lemma RowsRoundTrip(row: Row)
    ensures ReadRow(WriteRow(row)) == row
  {
  }

  type Table = map<PrimaryKey, TableRow>

  /** Timestamps are whole seconds: nothing else is ever written. */
  predicate WholeSeconds(rows: Table) {
    forall k | k in rows && rows[k].expiresAtMs.Some? :: rows[k].expiresAtMs.value % 1000 == 0
  }

  /** One namespace of the table, as callers of its store see it. */
  function Namespace(rows: Table, namespace: string): (store: map<string, Row>) {
    map k | k in rows && k.namespace == namespace :: k.key := ReadRow(rows[k])
  }

  lemma NamespaceLookup(rows: Table, namespace: string, key: string)
    ensures Lookup(Namespace(rows, namespace), key)
         == match Lookup(rows, PrimaryKey(namespace, key)) case Some(r) => Some(ReadRow(r)) case None => None
  {
    if PrimaryKey(namespace, key) in rows {
      assert PrimaryKey(namespace, key).key in Namespace(rows, namespace);
    }
  }

  lemma SameLookups(a: map<string, Row>, b: map<string, Row>)
    requires forall k :: Lookup(a, k) == Lookup(b, k)
    ensures a == b
  {
    forall k
      ensures k in a <==> k in b
      ensures k in a ==> a[k] == b[k]
    {
      assert Lookup(a, k) == Lookup(b, k);
    }
  }

  /** A statement touching one primary key leaves every other key and namespace alone. */
  lemma OneRowChanges(before: Table, after: Table, namespace: string, key: string)
    requires forall k | k != PrimaryKey(namespace, key) :: Lookup(before, k) == Lookup(after, k)
    ensures Namespace(after, namespace)
         == Update(Namespace(before, namespace), key, Lookup(Namespace(after, namespace), key))
    ensures forall ns | ns != namespace :: Namespace(after, ns) == Namespace(before, ns)
  {
    var row := Lookup(Namespace(after, namespace), key);
    forall k ensures Lookup(Namespace(after, namespace), k) == Lookup(Update(Namespace(before, namespace), key, row),
        k) {
      NamespaceLookup(after, namespace, k);
      NamespaceLookup(before, namespace, k);
    }
    SameLookups(Namespace(after, namespace), Update(Namespace(before, namespace), key, row));
    forall ns | ns != namespace ensures Namespace(after, ns) == Namespace(before, ns) {
      forall k ensures Lookup(Namespace(after, ns), k) == Lookup(Namespace(before, ns), k) {
        NamespaceLookup(after, ns, k);
        NamespaceLookup(before, ns, k);
      }
      SameLookups(Namespace(after, ns), Namespace(before, ns));
    }
  }

  /** The call did to its namespace what the row-level step says, and nothing to any other. */
  ghost predicate Performed(before: Table, after: Table, namespace: string, c: TimedCall, outcome: Outcome) {
    && (Namespace(after, namespace), outcome) == StoreStep(Postgres, Namespace(before, namespace), c)
    && forall ns | ns != namespace :: Namespace(after, ns) == Namespace(before, ns)
  }

  predicate ChangedOnly(before: Table, after: Table, k: PrimaryKey) {
    before - {k} == after - {k}
  }

  lemma RowStepPerformed(before: Table, after: Table, namespace: string, key: string, now: int, op: RowOp,
      outcome: Outcome)
    requires ChangedOnly(before, after, PrimaryKey(namespace, key))
    requires (Lookup(Namespace(after, namespace), key), outcome)
          == PostgresStep(Lookup(Namespace(before, namespace), key), now, op)
    ensures Performed(before, after, namespace, TimedCall(now, On(key, op)), outcome)
  {
    var k := PrimaryKey(namespace, key);
    forall j | j != k ensures Lookup(before, j) == Lookup(after, j) {
      assert Lookup(before, j) == Lookup(before - {k}, j) && Lookup(after, j) == Lookup(after - {k}, j);
    }
    OneRowChanges(before, after, namespace, key);
  }

  lemma DeletedRowsCounted(before: Table, dead: set<PrimaryKey>)
    requires dead <= before.Keys
    ensures |before - dead| == |before| - |dead|
  {
    assert before.Keys == (before - dead).Keys + dead && (before - dead).Keys !! dead;
  }

  lemma SweepPerNamespace(before: Table, after: Table, namespace: string, now: int)
    requires WholeSeconds(before)
    requires after == map k | k in before && !(before[k].expiresAtMs.Some? && before[k].expiresAtMs.value < now) ::
              before[k]
    ensures Namespace(after, namespace) == KvSweep.Swept(Namespace(before, namespace), now)
  {
    forall key ensures Lookup(Namespace(after, namespace), key) == Lookup(KvSweep.Swept(Namespace(before, namespace),
        now), key) {
      NamespaceLookup(after, namespace, key);
      NamespaceLookup(before, namespace, key);
    }
    SameLookups(Namespace(after, namespace), KvSweep.Swept(Namespace(before, namespace), now));
  }

  class KvEntries {
    var rows: Table

    constructor ()
      ensures rows == map[] && WholeSeconds(rows)
    {
      rows := map[];
    }

    /** Remove the rows of every namespace whose expiry has passed; a null expiry never qualifies. */
    method SweepExpired(now: int) returns (removed: nat)
      requires WholeSeconds(rows)
      modifies this
      ensures WholeSeconds(rows)
      ensures forall ns :: Namespace(rows, ns) == KvSweep.Swept(old(Namespace(rows, ns)), now)
      ensures rows.Keys <= old(rows).Keys && removed == |old(rows)| - |rows|
    {
      var dead := set k | k in rows && rows[k].expiresAtMs.Some? && rows[k].expiresAtMs.value < now;
      ghost var was := rows;
      removed := |dead|;
      rows := rows - dead;
      DeletedRowsCounted(was, dead);
      assert rows == map k | k in was && !(was[k].expiresAtMs.Some? && was[k].expiresAtMs.value < now) :: was[k];
      forall ns ensures Namespace(rows, ns) == KvSweep.Swept(Namespace(was, ns), now) {
        SweepPerNamespace(was, rows, ns, now);
      }
    }
  }

  /** The WHERE clause of the index query. */
  predicate IndexedAndLive(r: TableRow, indexValue: string, now: int) {
    && r.indexedKey == Some(indexValue)
    && (r.expiresAtMs.None? || r.expiresAtMs.value > now)
  }

  /** `SELECT … WHERE indexed_key = … AND (expires_at IS NULL OR expires_at > now)`. */
  function Selected(rows: Table, indexValue: string, now: int): (r: Table) {
    map k | k in rows && IndexedAndLive(rows[k], indexValue, now) :: rows[k]
  }

  function Records(store: map<string, Row>): map<string, Record> {
    map k | k in store :: ToRecord(store[k])
  }

  lemma IndexLookup(rows: Table, namespace: string, indexValue: string, now: int)
    requires WholeSeconds(rows)
    ensures Records(Namespace(Selected(rows, indexValue, now), namespace))
         == IndexRows(Postgres, Namespace(rows, namespace), now, indexValue)
  {
    var chosen, store := Namespace(Selected(rows, indexValue, now), namespace), Namespace(rows, namespace);
    forall key
      ensures key in chosen <==> key in IndexRows(Postgres, store, now, indexValue)
      ensures key in chosen ==> key in store && chosen[key] == store[key]
    {
      NamespaceLookup(rows, namespace, key);
      NamespaceLookup(Selected(rows, indexValue, now), namespace, key);
    }
  }

  /** `expires_at IS NULL OR expires_at < :incoming`. */
  predicate Overtaken(r: TableRow, freshUntil: int) {
    r.expiresAtMs.None? || r.expiresAtMs.value < freshUntil * 1000
  }

  lemma OvertakenBySeconds(r: TableRow, freshUntil: int)
    requires r.expiresAtMs.Some? ==> r.expiresAtMs.value % 1000 == 0
    ensures Overtaken(r, freshUntil)
       <==> ReadRow(r).expiresAt.None? || ReadRow(r).expiresAt.value < freshUntil
  {
  }

  /** A store bound to one namespace of a table it shares with the others. */
  class PostgresKvStore {
    const table: KvEntries
    const namespace: string

    constructor (table: KvEntries, namespace: string)
      ensures this.table == table && this.namespace == namespace
    {
      this.table, this.namespace := table, namespace;
    }

    method Get(key: string, includeExpired: bool, now: int) returns (record: Option<Record>)
      requires WholeSeconds(table.rows)
      ensures Performed(table.rows, table.rows, namespace, TimedCall(now, On(key, RowOp.Get(includeExpired))),
                Got(record))
      ensures Got(record) == PostgresStep(Lookup(Namespace(table.rows, namespace), key), now,
                RowOp.Get(includeExpired)).1
    {
      NamespaceLookup(table.rows, namespace, key);
      var k := PrimaryKey(namespace, key);
      if k in table.rows && (includeExpired || table.rows[k].expiresAtMs.None?
          || table.rows[k].expiresAtMs.value > now) {
        record := Some(ToRecord(ReadRow(table.rows[k])));
      } else {
        record := None;
      }
      RowStepPerformed(table.rows, table.rows, namespace, key, now, RowOp.Get(includeExpired), Got(record));
    }

    /** `INSERT … ON CONFLICT DO UPDATE`: insert at version one, or overwrite and bump. */
    method Upsert(key: string, value: Value, expiresAt: Option<int>, indexedKey: Option<string>) returns (version: int)
      requires WholeSeconds(table.rows)
      modifies table
      ensures WholeSeconds(table.rows)
      ensures Lookup(Namespace(table.rows, namespace), key) == Some(Row(value, version, expiresAt, indexedKey))
      ensures version == VersionOf(Lookup(old(Namespace(table.rows, namespace)), key)) + 1
      ensures ChangedOnly(old(table.rows), table.rows, PrimaryKey(namespace, key))
    {
      ghost var was := table.rows;
      var k := PrimaryKey(namespace, key);
      version := if k in table.rows then table.rows[k].version + 1 else 1;
      table.rows := table.rows[k := TableRow(value, version, ExpiryParam(expiresAt), indexedKey)];
      RowsRoundTrip(Row(value, version, expiresAt, indexedKey));
      NamespaceLookup(was, namespace, key);
      NamespaceLookup(table.rows, namespace, key);
    }

    method Put(key: string, value: Value, opts: WriteOptions, now: int) returns (record: Record)
      requires WholeSeconds(table.rows)
      modifies table
      ensures WholeSeconds(table.rows)
      ensures Performed(old(table.rows), table.rows, namespace, TimedCall(now, On(key, RowOp.Put(value, opts))),
                Wrote(record))
    {
      var expiry := ResolveExpiry(opts, now);
      var version := Upsert(key, value, expiry, opts.indexedKey);
      record := Record(value, version, expiry);
      RowStepPerformed(old(table.rows), table.rows, namespace, key, now, RowOp.Put(value, opts), Wrote(record));
    }

    method PutIfAbsent(key: string, value: Value, opts: WriteOptions, now: int)
      returns (applied: bool, record: Option<Record>)
      requires WholeSeconds(table.rows)
      modifies table
      ensures WholeSeconds(table.rows)
      ensures Performed(old(table.rows), table.rows, namespace,
                        TimedCall(now, On(key, RowOp.PutIfAbsent(value, opts))), Cas(applied, record))
    {
      applied, record := CreateOrTakeOver(key, value, opts, now);
    }

    /** The statement shared by create-once and compare-and-set on absence. */
    method CreateOrTakeOver(key: string, value: Value, opts: WriteOptions, now: int)
      returns (applied: bool, record: Option<Record>)
      requires WholeSeconds(table.rows)
      modifies table
      ensures WholeSeconds(table.rows)
      ensures Performed(old(table.rows), table.rows, namespace,
                        TimedCall(now, On(key, RowOp.PutIfAbsent(value, opts))), Cas(applied, record))
    {
      NamespaceLookup(table.rows, namespace, key);
      var k := PrimaryKey(namespace, key);
      if k !in table.rows || (table.rows[k].expiresAtMs.Some? && table.rows[k].expiresAtMs.value < now) {
        var expiry := ResolveExpiry(opts, now);
        var version := Upsert(key, value, expiry, opts.indexedKey);
        applied, record := true, Some(Record(value, version, expiry));
      } else {
        record := Get(key, false, now);
        applied := false;
      }
      RowStepPerformed(old(table.rows), table.rows, namespace, key, now, RowOp.PutIfAbsent(value, opts), Cas(applied,
          record));
    }

    method CompareAndSet(key: string, expected: int, value: Value, opts: WriteOptions, now: int)
      returns (applied: bool, record: Option<Record>)
      requires WholeSeconds(table.rows)
      modifies table
      ensures WholeSeconds(table.rows)
      ensures Performed(old(table.rows), table.rows, namespace,
                        TimedCall(now, On(key, RowOp.CompareAndSet(expected, value, opts))), Cas(applied, record))
    {
      if expected == 0 {
        applied, record := CreateOrTakeOver(key, value, opts, now);
        return;
      }
      NamespaceLookup(table.rows, namespace, key);
      var k := PrimaryKey(namespace, key);
      if k in table.rows && table.rows[k].version == expected
         && (table.rows[k].expiresAtMs.None? || table.rows[k].expiresAtMs.value > now) {
        var expiry := ResolveExpiry(opts, now);
        var version := Upsert(key, value, expiry, opts.indexedKey);
        applied, record := true, Some(Record(value, version, expiry));
      } else {
        record := Get(key, false, now);
        applied := false;
      }
      RowStepPerformed(old(table.rows), table.rows, namespace, key, now,
                       RowOp.CompareAndSet(expected, value, opts), Cas(applied, record));
    }

    method PutIfFresher(key: string, value: Value, freshUntil: int, indexedKey: Option<string>, now: int)
      returns (applied: bool, record: Option<Record>)
      requires WholeSeconds(table.rows)
      modifies table
      ensures WholeSeconds(table.rows)
      ensures Performed(old(table.rows), table.rows, namespace,
                        TimedCall(now, On(key, RowOp.PutIfFresher(value, freshUntil, indexedKey))), Cas(applied,
                            record))
    {
      NamespaceLookup(table.rows, namespace, key);
      var k := PrimaryKey(namespace, key);
      if k in table.rows {
        OvertakenBySeconds(table.rows[k], freshUntil);
      }
      if k !in table.rows || Overtaken(table.rows[k], freshUntil) {
        var version := Upsert(key, value, Some(freshUntil), indexedKey);
        applied, record := true, Some(Record(value, version, Some(freshUntil)));
      } else {
        record := Get(key, false, now);
        applied := false;
      }
      RowStepPerformed(old(table.rows), table.rows, namespace, key, now,
                       RowOp.PutIfFresher(value, freshUntil, indexedKey), Cas(applied, record));
    }

    method Increment(key: string, fieldName: string, delta: int, opts: WriteOptions,
        now: int) returns (outcome: Outcome)
      requires WholeSeconds(table.rows)
      modifies table
      ensures WholeSeconds(table.rows)
      ensures Performed(old(table.rows), table.rows, namespace,
                        TimedCall(now, On(key, RowOp.Increment(fieldName, delta, opts))), outcome)
    {
      NamespaceLookup(table.rows, namespace, key);
      var k := PrimaryKey(namespace, key);
      var value: Value, expiresAt, indexedKey := map[], ResolveExpiry(opts, now), None;
      if k in table.rows {
        var row := ReadRow(table.rows[k]);
        value, indexedKey := row.value, row.indexedKey;
        if row.expiresAt.Some? {
          expiresAt := row.expiresAt;
        }
      }
      if IsFieldName(fieldName) && Counter(value, fieldName).Num? {
        var next := Num(Counter(value, fieldName).n + delta);
        var _ := Upsert(key, value[fieldName := next], expiresAt, indexedKey);
        outcome := Sum(next);
      } else {
        outcome := Rejected;
      }
      RowStepPerformed(old(table.rows), table.rows, namespace, key, now, RowOp.Increment(fieldName, delta, opts),
          outcome);
    }

    method RemoveRow(key: string)
      requires WholeSeconds(table.rows)
      modifies table
      ensures WholeSeconds(table.rows)
      ensures Lookup(Namespace(table.rows, namespace), key) == None
      ensures ChangedOnly(old(table.rows), table.rows, PrimaryKey(namespace, key))
    {
      table.rows := table.rows - {PrimaryKey(namespace, key)};
      NamespaceLookup(table.rows, namespace, key);
    }

    method Delete(key: string, guard: Option<int>, ghost now: int) returns (removed: bool)
      requires WholeSeconds(table.rows)
      modifies table
      ensures WholeSeconds(table.rows)
      ensures Performed(old(table.rows), table.rows, namespace, TimedCall(now, On(key, RowOp.Delete(guard))),
                Deleted(removed))
    {
      NamespaceLookup(table.rows, namespace, key);
      var k := PrimaryKey(namespace, key);
      removed := k in table.rows && (guard.Some? ==> table.rows[k].version == guard.value);
      if removed {
        RemoveRow(key);
      }
      RowStepPerformed(old(table.rows), table.rows, namespace, key, now, RowOp.Delete(guard), Deleted(removed));
    }

    method QueryByIndex(indexValue: string, now: int) returns (results: map<string, Record>)
      requires WholeSeconds(table.rows)
      ensures Performed(table.rows, table.rows, namespace, TimedCall(now, Call.QueryByIndex(indexValue)),
                Listed(results))
    {
      results := Records(Namespace(Selected(table.rows, indexValue, now), namespace));
      IndexLookup(table.rows, namespace, indexValue, now);
    }
  }
}
