/** The vocabulary of the `KvStore` contract: records, write options, calls and their outcomes. */
module KvTypes {
  import opened Options

  /** A top-level field of a stored value. `Text` is text that does not read as a number;
      `NotANumber` only arises when the in-memory adapter increments such a text. */
  datatype Field = Num(n: int) | NotANumber | Text(s: string)

  type Value = map<string, Field>

  datatype WriteOptions = WriteOptions(ttlSeconds: Option<int>, expiresAt: Option<int>, indexedKey: Option<string>)

  /** What a backend physically keeps for one key. Expiries are epoch seconds. */
  datatype Row = Row(value: Value, version: int, expiresAt: Option<int>, indexedKey: Option<string>)

  /** What a caller sees of a row. */
  datatype Record = Record(value: Value, version: int, expiresAt: Option<int>)

  datatype RowOp =
    | Get(includeExpired: bool)
    | Put(value: Value, opts: WriteOptions)
    | PutIfAbsent(value: Value, opts: WriteOptions)
    | CompareAndSet(expected: int, value: Value, opts: WriteOptions)
    | PutIfFresher(value: Value, freshUntil: int, indexedKey: Option<string>)
    | Increment(fieldName: string, delta: int, opts: WriteOptions)
    | Delete(guard: Option<int>)

  datatype Call = On(key: string, op: RowOp) | QueryByIndex(indexValue: string)

  datatype Outcome =
    | Got(got: Option<Record>)
    | Wrote(record: Record)
    | Cas(applied: bool, current: Option<Record>)
    | Sum(total: Field)
    | Deleted(removed: bool)
    | Listed(rows: map<string, Record>)
    | Rejected

  /** A call together with the clock reading (epoch milliseconds) it runs under. */
  datatype TimedCall = TimedCall(now: int, call: Call)

  function ToRecord(row: Row): Record {
    Record(row.value, row.version, row.expiresAt)
  }

  function Seconds(now: int): int {
    now / 1000
  }

  /** An absolute expiry wins over a relative one; neither means the record never expires. */
  function ResolveExpiry(opts: WriteOptions, now: int): Option<int> {
    if opts.expiresAt.Some? then opts.expiresAt
    else if opts.ttlSeconds.Some? then Some(Seconds(now) + opts.ttlSeconds.value)
    else None
  }

  function NewRow(value: Value, version: int, opts: WriteOptions, now: int): Row {
    Row(value, version, ResolveExpiry(opts, now), opts.indexedKey)
  }

  predicate IsLetter(c: char) {
    'a' <= c <= 'z' || 'A' <= c <= 'Z'
  }

  /** `increment` accepts a bare identifier only: a letter, then letters, digits and underscores. */
  predicate IsFieldName(name: string) {
    && |name| > 0
    && IsLetter(name[0])
    && forall i | 0 <= i < |name| :: IsLetter(name[i]) || '0' <= name[i] <= '9' || name[i] == '_'
  }

  /** The field as a counter: an absent field counts from zero. */
  function Counter(value: Value, name: string): Field {
    if name in value then value[name] else Num(0)
  }

  /** Versions handed out by the stores start at one. */
  predicate WellFormed(row: Option<Row>) {
    row.Some? ==> row.value.version >= 1
  }

  function Visible(row: Option<Row>, live: bool): Option<Record> {
    if row.Some? && live then Some(ToRecord(row.value)) else None
  }

  function VersionOf(row: Option<Row>): int {
    if row.Some? then row.value.version else 0
  }

  /** The version column moves; everything a caller reads besides it stays. */
  predicate SameButVersion(a: Option<Record>, b: Option<Record>) {
    match (a, b)
    case (Some(x), Some(y)) => x.value == y.value && x.expiresAt == y.expiresAt
    case (None, None) => true
    case _ => false
  }

  predicate SameRowsButVersion(a: map<string, Record>, b: map<string, Record>) {
    a.Keys == b.Keys && forall k | k in a :: SameButVersion(Some(a[k]), Some(b[k]))
  }

  predicate AlikeButVersion(a: Outcome, b: Outcome) {
    match (a, b)
    case (Got(x), Got(y)) => SameButVersion(x, y)
    case (Wrote(x), Wrote(y)) => SameButVersion(Some(x), Some(y))
    case (Cas(p, x), Cas(q, y)) => p == q && SameButVersion(x, y)
    case (Listed(x), Listed(y)) => SameRowsButVersion(x, y)
    case _ => a == b
  }
}
