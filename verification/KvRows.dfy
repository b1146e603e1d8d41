/** One row under one call, for each of the three adapters. Every function here is one atomic
    step of its backend when all clock readings inside the call agree. */
module KvRows {
  import opened Options
  import opened KvTypes

  datatype Backend = Memory | Dynamo | Postgres

  // ---- expiry tests -------------------------------------------------------------------------

  /** Memory and DynamoDB compare whole seconds, so a record lives through its expiry second. */
  predicate ExpiredBySecond(row: Row, now: int) {
    row.expiresAt.Some? && row.expiresAt.value < Seconds(now)
  }

  /** Postgres reads compare the timestamp in milliseconds. */
  predicate LiveByMilli(row: Row, now: int) {
    row.expiresAt.Some? ==> row.expiresAt.value * 1000 > now
  }

  /** Postgres takeovers and sweeps ask for an expiry strictly in the past. */
  predicate DeadByMilli(row: Row, now: int) {
    row.expiresAt.Some? && row.expiresAt.value * 1000 < now
  }

  predicate Live(b: Backend, row: Option<Row>, now: int) {
    row.Some? && if b.Postgres? then LiveByMilli(row.value, now) else !ExpiredBySecond(row.value, now)
  }

  // ---- in-memory map ------------------------------------------------------------------------

  function MemoryStep(row: Option<Row>, now: int, op: RowOp): (r: (Option<Row>, Outcome)) {
    var live := row.Some? && !ExpiredBySecond(row.value, now);
    match op
    case Get(includeExpired) => (row, Got(Visible(row, includeExpired || live)))
    case Put(v, opts) =>
      var entry := NewRow(v, VersionOf(row) + 1, opts, now);
      (Some(entry), Wrote(ToRecord(entry)))
    case PutIfAbsent(v, opts) =>
      if live then (row, Cas(false, Some(ToRecord(row.value))))
      else
        var entry := NewRow(v, VersionOf(row) + 1, opts, now);
        (Some(entry), Cas(true, Some(ToRecord(entry))))
    case CompareAndSet(expected, v, opts) =>
      var current := if live then row.value.version else 0;
      if current != expected then (row, Cas(false, Visible(row, live)))
      else
        var entry := NewRow(v, expected + 1, opts, now);
        (Some(entry), Cas(true, Some(ToRecord(entry))))
    case PutIfFresher(v, freshUntil, indexedKey) =>
      if !live || row.value.expiresAt.None? || row.value.expiresAt.value < freshUntil then
        var entry := Row(v, 1, Some(freshUntil), indexedKey);
        (Some(entry), Cas(true, Some(ToRecord(entry))))
      else (row, Cas(false, Some(ToRecord(row.value))))
    case Increment(name, delta, opts) =>
      if !IsFieldName(name) then (row, Rejected)
      else
        var base := if row.Some? then row.value.value else map[];
        var next := var f := Counter(base, name); if f.Num? then Num(f.n + delta) else NotANumber;
        var expiry := if row.Some? && row.value.expiresAt.Some? then row.value.expiresAt else ResolveExpiry(opts, now);
        (Some(Row(base[name := next], VersionOf(row) + 1, expiry, if row.Some? then row.value.indexedKey else None)),
         Sum(next))
    case Delete(guard) => DeleteStep(row, guard)
  }

  /** All three adapters delete the physical row, live or not. */
  function DeleteStep(row: Option<Row>, guard: Option<int>): (r: (Option<Row>, Outcome)) {
    if row.None? || (guard.Some? && row.value.version != guard.value) then (row, Deleted(false))
    else (None, Deleted(true))
  }

  /** A counter add that a backend refuses when the stored field is not a number. */
  function AddStep(row: Option<Row>, now: int, name: string, delta: int, opts: WriteOptions): (r: (Option<Row>,
      Outcome)) {
    var base := if row.Some? then row.value.value else map[];
    if !IsFieldName(name) || !Counter(base, name).Num? then (row, Rejected)
    else
      var next := Num(Counter(base, name).n + delta);
      var expiry := if row.Some? && row.value.expiresAt.Some? then row.value.expiresAt else ResolveExpiry(opts, now);
      (Some(Row(base[name := next], VersionOf(row) + 1, expiry, if row.Some? then row.value.indexedKey else None)),
       Sum(next))
  }

  // ---- DynamoDB conditional writes ------------------------------------------------------------

  function DynamoStep(row: Option<Row>, now: int, op: RowOp): (r: (Option<Row>, Outcome)) {
    var live := row.Some? && !ExpiredBySecond(row.value, now);
    match op
    case Get(includeExpired) => (row, Got(Visible(row, includeExpired || live)))
    case Put(v, opts) =>
      var item := NewRow(v, VersionOf(row) + 1, opts, now);
      (Some(item), Wrote(ToRecord(item)))
    case PutIfAbsent(v, opts) =>
      if row.Some? && live then (row, Cas(false, Some(ToRecord(row.value))))
      else
        var item := NewRow(v, VersionOf(row) + 1, opts, now);
        (Some(item), Cas(true, Some(ToRecord(item))))
    case CompareAndSet(expected, v, opts) =>
      // attribute_not_exists(pk) when zero is expected, else equality on the version; no expiry test
      if (if expected == 0 then row.None? else row.Some? && row.value.version == expected) then
        var item := NewRow(v, expected + 1, opts, now);
        (Some(item), Cas(true, Some(ToRecord(item))))
      else (row, Cas(false, Visible(row, live)))
    case PutIfFresher(v, freshUntil, indexedKey) =>
      if row.None? || row.value.expiresAt.None? || row.value.expiresAt.value < freshUntil then
        var item := Row(v, 1, Some(freshUntil), indexedKey);
        (Some(item), Cas(true, Some(ToRecord(item))))
      else (row, Cas(false, Visible(row, live)))
    case Increment(name, delta, opts) => AddStep(row, now, name, delta, opts)
    case Delete(guard) => DeleteStep(row, guard)
  }

  // ---- Postgres single statements ---------------------------------------------------------------

  /** The upsert shared by every Postgres write: insert at version one, else bump the version. */
  function Upsert(row: Option<Row>, value: Value, expiresAt: Option<int>, indexedKey: Option<string>): (r: Row) {
    Row(value, VersionOf(row) + 1, expiresAt, indexedKey)
  }

  function PostgresStep(row: Option<Row>, now: int, op: RowOp): (r: (Option<Row>, Outcome)) {
    var live := row.Some? && LiveByMilli(row.value, now);
    match op
    case Get(includeExpired) => (row, Got(Visible(row, includeExpired || live)))
    case Put(v, opts) =>
      var written := Upsert(row, v, ResolveExpiry(opts, now), opts.indexedKey);
      (Some(written), Wrote(ToRecord(written)))
    case PutIfAbsent(v, opts) => CreateOrTakeOver(row, now, v, opts)
    case CompareAndSet(expected, v, opts) =>
      if expected == 0 then CreateOrTakeOver(row, now, v, opts)
      else if row.Some? && row.value.version == expected && live then
        var written := Upsert(row, v, ResolveExpiry(opts, now), opts.indexedKey);
        (Some(written), Cas(true, Some(ToRecord(written))))
      else (row, Cas(false, Visible(row, live)))
    case PutIfFresher(v, freshUntil, indexedKey) =>
      if row.None? || row.value.expiresAt.None? || row.value.expiresAt.value < freshUntil then
        var written := Upsert(row, v, Some(freshUntil), indexedKey);
        (Some(written), Cas(true, Some(ToRecord(written))))
      else (row, Cas(false, Visible(row, live)))
    case Increment(name, delta, opts) => AddStep(row, now, name, delta, opts)
    case Delete(guard) => DeleteStep(row, guard)
  }

  /** `INSERT … ON CONFLICT DO UPDATE … WHERE expires_at < now`. */
  function CreateOrTakeOver(row: Option<Row>, now: int, v: Value, opts: WriteOptions): (r: (Option<Row>, Outcome)) {
    if row.None? || DeadByMilli(row.value, now) then
      var written := Upsert(row, v, ResolveExpiry(opts, now), opts.indexedKey);
      (Some(written), Cas(true, Some(ToRecord(written))))
    else (row, Cas(false, Visible(row, LiveByMilli(row.value, now))))
  }

  // ---- whole stores -----------------------------------------------------------------------------

  function Step(b: Backend, row: Option<Row>, now: int, op: RowOp): (r: (Option<Row>, Outcome)) {
    match b
    case Memory => MemoryStep(row, now, op)
    case Dynamo => DynamoStep(row, now, op)
    case Postgres => PostgresStep(row, now, op)
  }

  function Lookup<K, V>(store: map<K, V>, key: K): Option<V> {
    if key in store then Some(store[key]) else None
  }

  function Update<K(!new), V>(store: map<K, V>, key: K, row: Option<V>): (r: map<K, V>)
    ensures forall k :: Lookup(r, k) == if k == key then row else Lookup(store, k)
  {
    match row
    case Some(x) => store[key := x]
    case None => store - {key}
  }

  lemma UpdateByItsOwn<K(!new), V>(store: map<K, V>, key: K)
    ensures Update(store, key, Lookup(store, key)) == store
  {
  }

  /** The live records under one index value. */
  function IndexRows(b: Backend, store: map<string, Row>, now: int, indexValue: string): map<string, Record> {
    map k | k in store && Live(b, Some(store[k]), now) && store[k].indexedKey == Some(indexValue) :: ToRecord(store[k])
  }

  function StoreStep(b: Backend, store: map<string, Row>, c: TimedCall): (r: (map<string, Row>, Outcome)) {
    match c.call
    case On(key, op) =>
      var (row, outcome) := Step(b, Lookup(store, key), c.now, op);
      (Update(store, key, row), outcome)
    case QueryByIndex(indexValue) => (store, Listed(IndexRows(b, store, c.now, indexValue)))
  }

  function StoreAfter(b: Backend, store: map<string, Row>, calls: seq<TimedCall>): map<string, Row>
    decreases |calls|
  {
    if calls == [] then store else StoreAfter(b, StoreStep(b, store, calls[0]).0, calls[1..])
  }

  function Outcomes(b: Backend, store: map<string, Row>, calls: seq<TimedCall>): (r: seq<Outcome>)
    ensures |r| == |calls|
    decreases |calls|
  {
    if calls == [] then []
    else var (next, outcome) := StoreStep(b, store, calls[0]); [outcome] + Outcomes(b, next, calls[1..])
  }

  /** No step of any adapter ever leaves a row below version one. */
  lemma StepKeepsVersionsPositive(b: Backend, row: Option<Row>, now: int, op: RowOp)
    requires WellFormed(row)
    ensures WellFormed(Step(b, row, now, op).0)
  {
  }

  // ---- versions -----------------------------------------------------------------------------------

  /** Did the call write the row? */
  predicate Writes(outcome: Outcome) {
    outcome.Wrote? || outcome.Sum? || (outcome.Cas? && outcome.applied)
  }

  /** Freshness writes leave version one outside Postgres, and so does the in-memory compare-and-set that requires
      absence, whatever row they replace. */
  predicate StartsOver(b: Backend, row: Option<Row>, op: RowOp) {
    row.Some? && ((op.PutIfFresher? && !b.Postgres?) || (op.CompareAndSet? && op.expected == 0 && b.Memory?))
  }

  /** An applied write bumps the version by exactly one except where versions start over. */
  lemma VersionBumpsByOneExactlyWhen(b: Backend, row: Option<Row>, now: int, op: RowOp)
    requires WellFormed(row) && Writes(Step(b, row, now, op).1)
    ensures Step(b, row, now, op).0.Some?
    ensures Step(b, row, now, op).0.value.version == VersionOf(row) + 1 <==> !StartsOver(b, row, op)
    ensures StartsOver(b, row, op) ==> Step(b, row, now, op).0.value.version == 1
  {
  }

  /** A delete guarded by the version that an applied write replaced removes the new record exactly when that version
      was one and the write started over from it. */
  lemma StaleDeleteHitsExactlyWhen(b: Backend, row: Row, now: int, op: RowOp, later: int)
    requires WellFormed(Some(row)) && Writes(Step(b, Some(row), now, op).1)
    ensures var written := Step(b, Some(row), now, op).0;
            Step(b, written, later, Delete(Some(row.version))) == (None, Deleted(true))
            <==> row.version == 1 && StartsOver(b, Some(row), op)
  {
    VersionBumpsByOneExactlyWhen(b, Some(row), now, op);
  }

  /** In memory: the record expires, another holder takes its place with a compare-and-set that requires absence, and
      the first holder's guarded delete removes it. */
  lemma ExpiredHolderDeletesItsSuccessor(v: Value, w: Value, opts: WriteOptions)
    ensures var (written, outcome) := MemoryStep(Some(Row(v, 1, Some(10), None)), 11_000, CompareAndSet(0, w, opts));
            && outcome.applied && written.Some? && written.value.value == w
            && MemoryStep(written, 11_000, Delete(Some(1))) == (None, Deleted(true))
  {
  }
}
