/** When do the three adapters answer alike? Step by step the exact condition, and over every
    sequential run the agreement that follows from it. */
module KvAgreement {
  import opened Options
  import opened KvTypes
  import opened KvRows

  // ---- memory against DynamoDB ------------------------------------------------------------------

  predicate ExpiredButPresent(row: Option<Row>, now: int) {
    row.Some? && ExpiredBySecond(row.value, now)
  }

  /** The increment's field, if there, holds a number. */
  predicate CountsFrom(row: Option<Row>, op: RowOp) {
    op.Increment? && row.Some? && IsFieldName(op.fieldName) ==> Counter(row.value.value, op.fieldName).Num?
  }

  /** A compare-and-set on an expired row still present decides differently when it names that
      row's version or requires absence; a freshness write does when its own expiry is no later
      than the expired one it meets. */
  predicate MemoryMeetsDynamo(row: Option<Row>, now: int, op: RowOp) {
    && (op.CompareAndSet? && ExpiredButPresent(row, now) ==> op.expected != 0 && op.expected != row.value.version)
    && (op.PutIfFresher? && ExpiredButPresent(row, now) ==> row.value.expiresAt.value < op.freshUntil)
    && CountsFrom(row, op)
  }

  lemma MemoryAgreesWithDynamoExactlyWhen(row: Option<Row>, now: int, op: RowOp)
    requires WellFormed(row)
    ensures MemoryStep(row, now, op) == DynamoStep(row, now, op) <==> MemoryMeetsDynamo(row, now, op)
  {
    if op.Increment? && !CountsFrom(row, op) {
      assert MemoryStep(row, now, op).1.Sum?;
    }
  }

  /** No compare-and-set on an expired row still present, no freshness write already past, and a field that counts:
      enough for every call. */
  predicate Plain(row: Option<Row>, now: int, op: RowOp) {
    && (op.CompareAndSet? ==> !ExpiredButPresent(row, now))
    && (op.PutIfFresher? ==> op.freshUntil >= Seconds(now))
    && CountsFrom(row, op)
  }

  lemma PlainCallsAgree(row: Option<Row>, now: int, op: RowOp)
    requires WellFormed(row) && Plain(row, now, op)
    ensures MemoryStep(row, now, op) == DynamoStep(row, now, op)
  {
    MemoryAgreesWithDynamoExactlyWhen(row, now, op);
  }

  predicate StoreWellFormed(store: map<string, Row>) {
    forall k | k in store :: store[k].version >= 1
  }

  /** Every call of the run meets its row, as the memory store holds it, in a state where `ok` holds. */
  ghost predicate Along(ok: (Option<Row>, int, RowOp) -> bool, store: map<string, Row>, calls: seq<TimedCall>)
    decreases |calls|
  {
    calls != [] ==>
      && (calls[0].call.On? ==> ok(Lookup(store, calls[0].call.key), calls[0].now, calls[0].call.op))
      && Along(ok, StoreStep(Memory, store, calls[0]).0, calls[1..])
  }

  lemma StoreStepKeepsWellFormed(b: Backend, store: map<string, Row>, c: TimedCall)
    requires StoreWellFormed(store)
    ensures StoreWellFormed(StoreStep(b, store, c).0)
  {
    var next := StoreStep(b, store, c).0;
    if c.call.On? {
      StepKeepsVersionsPositive(b, Lookup(store, c.call.key), c.now, c.call.op);
      forall k | k in next ensures next[k].version >= 1 {
        assert Lookup(next, k) == Some(next[k]);
      }
    }
  }

  /** Every sequential run without the excluded meetings: the in-memory adapter and DynamoDB give
      the same outcome for every call and end with the same rows. */
  lemma {:induction false} MemoryAndDynamoRunAlike(store: map<string, Row>, calls: seq<TimedCall>)
    requires StoreWellFormed(store)
    requires Along(MemoryMeetsDynamo, store, calls)
    ensures Outcomes(Memory, store, calls) == Outcomes(Dynamo, store, calls)
    ensures StoreAfter(Memory, store, calls) == StoreAfter(Dynamo, store, calls)
    decreases |calls|
  {
    if calls != [] {
      var c := calls[0];
      if c.call.On? {
        MemoryAgreesWithDynamoExactlyWhen(Lookup(store, c.call.key), c.now, c.call.op);
      } else {
        assert IndexRows(Memory, store, c.now, c.call.indexValue) == IndexRows(Dynamo, store, c.now, c.call.indexValue);
      }
      assert StoreStep(Memory, store, c) == StoreStep(Dynamo, store, c);
      StoreStepKeepsWellFormed(Memory, store, c);
      MemoryAndDynamoRunAlike(StoreStep(Memory, store, c).0, calls[1..]);
    }
  }

  // ---- memory against Postgres ------------------------------------------------------------------

  /** The clock stands in the very second in which the stored row expires. */
  predicate InExpirySecond(row: Option<Row>, now: int) {
    row.Some? && row.value.expiresAt == Some(Seconds(now))
  }

  /** Outcome and surviving row agree; for a freshness write the version is left aside. */
  predicate SameStep(a: (Option<Row>, Outcome), b: (Option<Row>, Outcome), op: RowOp) {
    if op.PutIfFresher? then SameRow(a.0, b.0, true) && AlikeButVersion(a.1, b.1) else a == b
  }

  predicate SameRow(a: Option<Row>, b: Option<Row>, anyVersion: bool) {
    match (a, b)
    case (Some(x), Some(y)) => x == y || (anyVersion && x.(version := y.version) == y)
    case (None, None) => true
    case _ => false
  }

  /** Exact: in its expiry second a row is live to one adapter and dead to the other, which every
      call that asks about liveness reveals; a required absence over an expired row restarts the
      version in one and bumps it in the other. */
  predicate MemoryMeetsPostgres(row: Option<Row>, now: int, op: RowOp) {
    && (InExpirySecond(row, now) ==>
          match op
          case Get(includeExpired) => includeExpired
          case PutIfAbsent(_, _) => false
          case CompareAndSet(_, _, _) => false
          case PutIfFresher(_, freshUntil, _) => row.value.expiresAt.value < freshUntil
          case _ => true)
    && (op.CompareAndSet? && ExpiredButPresent(row, now) ==> op.expected != 0)
    && (op.PutIfFresher? && ExpiredButPresent(row, now) ==> row.value.expiresAt.value < op.freshUntil)
    && CountsFrom(row, op)
  }

  lemma ClocksAgreeOutsideExpirySecond(row: Row, now: int)
    requires !InExpirySecond(Some(row), now)
    ensures LiveByMilli(row, now) <==> !ExpiredBySecond(row, now)
    ensures DeadByMilli(row, now) <==> ExpiredBySecond(row, now)
  {
  }

  lemma ClocksDisagreeInExpirySecond(row: Row, now: int)
    requires InExpirySecond(Some(row), now)
    ensures !ExpiredBySecond(row, now) && !LiveByMilli(row, now)
  {
  }

  lemma MemoryAgreesWithPostgresExactlyWhen(row: Option<Row>, now: int, op: RowOp)
    requires WellFormed(row)
    ensures SameStep(MemoryStep(row, now, op), PostgresStep(row, now, op), op) <==> MemoryMeetsPostgres(row, now, op)
  {
    if row.Some? {
      if InExpirySecond(row, now) {
        ClocksDisagreeInExpirySecond(row.value, now);
      } else {
        ClocksAgreeOutsideExpirySecond(row.value, now);
      }
    }
    if op.Increment? && !CountsFrom(row, op) {
      assert MemoryStep(row, now, op).1.Sum?;
    }
  }

  /** `loose` names the keys kept by freshness writes; on those the versions of the two stores may
      drift, so no call there is guarded by a version. */
  predicate KeyDiscipline(loose: set<string>, c: Call) {
    c.On? ==>
      if c.key in loose then !c.op.CompareAndSet? && (c.op.Delete? ==> c.op.guard.None?)
      else !c.op.PutIfFresher?
  }

  /** Rows whose versions may have drifted still step alike under calls that ask for no version. */
  lemma DriftedRowsStepAlike(m: Option<Row>, p: Option<Row>, now: int, op: RowOp)
    requires WellFormed(m) && WellFormed(p) && SameRow(m, p, true)
    requires MemoryMeetsPostgres(m, now, op) && !InExpirySecond(m, now)
    requires !op.CompareAndSet? && (op.Delete? ==> op.guard.None?)
    ensures SameRow(MemoryStep(m, now, op).0, PostgresStep(p, now, op).0, true)
    ensures AlikeButVersion(MemoryStep(m, now, op).1, PostgresStep(p, now, op).1)
  {
    if m.Some? {
      ClocksAgreeOutsideExpirySecond(m.value, now);
      ClocksAgreeOutsideExpirySecond(p.value, now);
    }
  }

  ghost predicate SameStores(loose: set<string>, m: map<string, Row>, p: map<string, Row>) {
    forall k :: SameRow(Lookup(m, k), Lookup(p, k), k in loose)
  }

  /** Same outcome up to the versions of keys in `loose`. */
  predicate SameOutcome(loose: set<string>, c: Call, a: Outcome, b: Outcome) {
    && AlikeButVersion(a, b)
    && match c
       case On(key, _) => key !in loose ==> a == b
       case QueryByIndex(_) =>
         a.Listed? && b.Listed? && forall k | k in a.rows && k !in loose :: k in b.rows && a.rows[k] == b.rows[k]
  }

  predicate NoRowInExpirySecond(store: map<string, Row>, now: int) {
    forall k | k in store :: !InExpirySecond(Some(store[k]), now)
  }

  ghost predicate PostgresRunConditions(loose: set<string>, store: map<string, Row>, calls: seq<TimedCall>)
    decreases |calls|
  {
    calls != [] ==>
      && KeyDiscipline(loose, calls[0].call)
      && NoRowInExpirySecond(store, calls[0].now)
      && (calls[0].call.On? ==> MemoryMeetsPostgres(Lookup(store, calls[0].call.key), calls[0].now, calls[0].call.op))
      && PostgresRunConditions(loose, StoreStep(Memory, store, calls[0]).0, calls[1..])
  }

  lemma StoresStepAlike(loose: set<string>, m: map<string, Row>, p: map<string, Row>, c: TimedCall)
    requires StoreWellFormed(m) && StoreWellFormed(p) && SameStores(loose, m, p)
    requires PostgresRunConditions(loose, m, [c])
    ensures SameStores(loose, StoreStep(Memory, m, c).0, StoreStep(Postgres, p, c).0)
    ensures SameOutcome(loose, c.call, StoreStep(Memory, m, c).1, StoreStep(Postgres, p, c).1)
  {
    match c.call
    case On(key, op) =>
      var a, b := Lookup(m, key), Lookup(p, key);
      assert SameRow(a, b, key in loose);
      if key in loose {
        DriftedRowsStepAlike(a, b, c.now, op);
      } else {
        MemoryAgreesWithPostgresExactlyWhen(a, c.now, op);
      }
    case QueryByIndex(indexValue) =>
      IndexRowsAlike(loose, m, p, c.now, indexValue);
  }

  lemma IndexRowsAlike(loose: set<string>, m: map<string, Row>, p: map<string, Row>, now: int, indexValue: string)
    requires SameStores(loose, m, p) && NoRowInExpirySecond(m, now)
    ensures SameOutcome(loose, QueryByIndex(indexValue),
                        Listed(IndexRows(Memory, m, now, indexValue)), Listed(IndexRows(Postgres, p, now, indexValue)))
  {
    var a, b := IndexRows(Memory, m, now, indexValue), IndexRows(Postgres, p, now, indexValue);
    forall k
      ensures k in a <==> k in b
      ensures k in a ==> SameButVersion(Some(a[k]), Some(b[k])) && (k !in loose ==> a[k] == b[k])
    {
      assert SameRow(Lookup(m, k), Lookup(p, k), k in loose);
      if k in m {
        ClocksAgreeOutsideExpirySecond(m[k], now);
        ClocksAgreeOutsideExpirySecond(p[k], now);
      }
    }
  }

  ghost predicate SameOutcomes(loose: set<string>, calls: seq<TimedCall>, a: seq<Outcome>, b: seq<Outcome>) {
    |a| == |b| == |calls| && forall i | 0 <= i < |a| :: SameOutcome(loose, calls[i].call, a[i], b[i])
  }

  /** Every sequential run in which no call falls in the second a stored row expires: Postgres
      answers as the in-memory adapter does, versions of freshness-written keys left aside. */
  lemma {:induction false} MemoryAndPostgresRunAlike(
    loose: set<string>, m: map<string, Row>, p: map<string, Row>, calls: seq<TimedCall>)
    requires StoreWellFormed(m) && StoreWellFormed(p) && SameStores(loose, m, p)
    requires PostgresRunConditions(loose, m, calls)
    ensures SameOutcomes(loose, calls, Outcomes(Memory, m, calls), Outcomes(Postgres, p, calls))
    ensures SameStores(loose, StoreAfter(Memory, m, calls), StoreAfter(Postgres, p, calls))
    decreases |calls|
  {
    if calls != [] {
      var c := calls[0];
      StoresStepAlike(loose, m, p, c);
      StoreStepKeepsWellFormed(Memory, m, c);
      StoreStepKeepsWellFormed(Postgres, p, c);
      MemoryAndPostgresRunAlike(loose, StoreStep(Memory, m, c).0, StoreStep(Postgres, p, c).0, calls[1..]);
    }
  }

  // ---- the divergences, each as one concrete step ---------------------------------------------------

  const NO_OPTIONS := WriteOptions(None, None, None)

  /** Requiring absence over an expired row: restarted, refused, bumped. */
  lemma AbsenceOverExpiredRowSplitsThreeWays(v: Value, w: Value)
    ensures var row := Some(Row(v, 7, Some(100), None));
            var op := CompareAndSet(0, w, NO_OPTIONS);
            && MemoryStep(row, 200_000, op).1 == Cas(true, Some(Record(w, 1, None)))
            && DynamoStep(row, 200_000, op).1 == Cas(false, None)
            && PostgresStep(row, 200_000, op).1 == Cas(true, Some(Record(w, 8, None)))
  {
  }

  /** DynamoDB honours a stale version token of an expired record; the other two do not. */
  lemma DynamoSwapsOnExpiredVersion(v: Value, w: Value)
    ensures var row := Some(Row(v, 7, Some(100), None));
            var op := CompareAndSet(7, w, NO_OPTIONS);
            && MemoryStep(row, 200_000, op).1 == Cas(false, None)
            && DynamoStep(row, 200_000, op).1 == Cas(true, Some(Record(w, 8, None)))
            && PostgresStep(row, 200_000, op).1 == Cas(false, None)
  {
  }
}
