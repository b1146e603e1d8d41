/** The Postgres space reclaimer: which calls notice that a row past its expiry has been removed. */
module KvSweep {
  import opened Options
  import opened KvTypes
  import opened KvRows

  type Store = map<string, Row>

  /** `DELETE … WHERE expires_at IS NOT NULL AND expires_at < now`. */
  function Swept(store: Store, now: int): (r: Store) {
    map k | k in store && !DeadByMilli(store[k], now) :: store[k]
  }

  function SweptCount(store: Store, now: int): (n: nat) {
    |set k | k in store && DeadByMilli(store[k], now)|
  }

  /** Exactly the rows past their expiry go; a row without expiry is never among them. */
  lemma SweepRemovesExactlyTheDead(store: Store, now: int, key: string)
    ensures key in Swept(store, now) <==> key in store && !DeadByMilli(store[key], now)
    ensures key in store && store[key].expiresAt.None? ==> Lookup(Swept(store, now), key) == Some(store[key])
    ensures |store| == |Swept(store, now)| + SweptCount(store, now)
  {
    var dead := set k | k in store && DeadByMilli(store[k], now);
    assert store.Keys == Swept(store, now).Keys + dead;
    assert Swept(store, now).Keys !! dead;
  }

  datatype Event = Do(call: TimedCall) | Sweep(at: int)

  function TimeOf(e: Event): int {
    match e
    case Do(c) => c.now
    case Sweep(at) => at
  }

  function After(store: Store, e: Event): (r: Store) {
    match e
    case Do(c) => StoreStep(Postgres, store, c).0
    case Sweep(at) => Swept(store, at)
  }

  /** What callers see: one outcome per call, none for a sweep. */
  function Seen(store: Store, events: seq<Event>): (r: seq<Outcome>)
    decreases |events|
  {
    if events == [] then []
    else
      (if events[0].Do? then [StoreStep(Postgres, store, events[0].call).1] else [])
      + Seen(After(store, events[0]), events[1..])
  }

  function WithoutSweeps(events: seq<Event>): (r: seq<Event>) {
    if events == [] then []
    else (if events[0].Do? then [events[0]] else []) + WithoutSweeps(events[1..])
  }

  // ---- one call over a dead row -----------------------------------------------------------------------

  /** The calls that answer over a row past its expiry as they do over no row, versions aside. */
  predicate GoesUnnoticed(row: Row, op: RowOp)
    requires row.expiresAt.Some?
  {
    match op
    case Get(includeExpired) => !includeExpired
    case PutIfFresher(_, freshUntil, _) => row.expiresAt.value < freshUntil
    case Increment(name, _, _) => IsFieldName(name) ==> Counter(row.value, name) == Num(0)
    case Delete(guard) => guard.Some? && guard.value != row.version
    case _ => true
  }

  /** Those of them that also leave a row as they would over no row, or the dead row itself. An increment keeps
      the expiry that has passed. */
  predicate LeavesAlike(row: Row, now: int, op: RowOp)
    requires row.expiresAt.Some?
  {
    && GoesUnnoticed(row, op)
    && (op.Increment? && IsFieldName(op.fieldName) ==>
          row.value.Keys <= {op.fieldName} && row.indexedKey.None? && ResolveExpiry(op.opts, now) == row.expiresAt)
  }

  lemma DeadRowAnswersAsAbsentExactlyWhen(row: Row, now: int, op: RowOp)
    requires DeadByMilli(row, now)
    ensures AlikeButVersion(PostgresStep(None, now, op).1, PostgresStep(Some(row), now, op).1)
       <==> GoesUnnoticed(row, op)
  {
  }

  lemma DeadRowStepsAsAbsentExactlyWhen(row: Row, now: int, op: RowOp)
    requires DeadByMilli(row, now)
    ensures var (x, a) := PostgresStep(None, now, op);
            var (y, b) := PostgresStep(Some(row), now, op);
            AlikeButVersion(a, b) && RowsRelated(x, y, now) <==> LeavesAlike(row, now, op)
  {
    if op.Increment? && IsFieldName(op.fieldName) && Counter(row.value, op.fieldName) == Num(0) {
      OnlyField(row.value, op.fieldName, Num(op.delta));
    }
  }

  lemma OnlyField(value: Value, name: string, next: Field)
    ensures value[name := next] == map[][name := next] <==> value.Keys <= {name}
  {
    if value.Keys <= {name} {
      assert value[name := next].Keys == {name};
    } else {
      var other :| other in value && other != name;
      assert other in value[name := next];
    }
  }

  /** A sweep just before a call changes its answer, versions aside, exactly when the call addresses a dead row and
      is not one that goes unnoticed there. */
  lemma SweepBeforeCallUnnoticedExactlyWhen(store: Store, c: TimedCall)
    ensures AlikeButVersion(StoreStep(Postgres, Swept(store, c.now), c).1, StoreStep(Postgres, store, c).1) <==>
            (c.call.On? && c.call.key in store && DeadByMilli(store[c.call.key], c.now) ==>
             GoesUnnoticed(store[c.call.key], c.call.op))
  {
    match c.call
    case On(key, op) =>
      if key in store && DeadByMilli(store[key], c.now) {
        DeadRowAnswersAsAbsentExactlyWhen(store[key], c.now, op);
      }
    case QueryByIndex(v) =>
      assert IndexRows(Postgres, Swept(store, c.now), c.now, v) == IndexRows(Postgres, store, c.now, v);
  }

  // ---- whole runs ---------------------------------------------------------------------------------------

  /** The operations whose answer over this row depends on its version. */
  predicate SeesVersion(row: Row, now: int, op: RowOp) {
    match op
    case CompareAndSet(expected, _, _) => expected != 0 && LiveByMilli(row, now)
    case Delete(guard) => guard.Some?
    case _ => false
  }

  predicate Unswayed(store: Store, c: TimedCall) {
    c.call.On? && c.call.key in store ==>
      var row, op := store[c.call.key], c.call.op;
      !SeesVersion(row, c.now, op) && (DeadByMilli(row, c.now) ==> LeavesAlike(row, c.now, op))
  }

  /** Every call of the run, sweeps left out, is one that a sweep before it would not sway. */
  predicate AllUnswayed(store: Store, events: seq<Event>)
    decreases |events|
  {
    events != [] ==>
      var e := events[0];
      if e.Do? then Unswayed(store, e.call) && AllUnswayed(After(store, e), events[1..])
      else AllUnswayed(store, events[1..])
  }

  /** The calls no sweep sways whatever is stored: expiry-aware reads, plain writes, create-once, compare-and-set
      that requires absence, and freshness writes that have not expired themselves. */
  predicate Sweepable(c: TimedCall) {
    match c.call
    case QueryByIndex(_) => true
    case On(_, op) =>
      match op
      case Get(includeExpired) => !includeExpired
      case Put(_, _) => true
      case PutIfAbsent(_, _) => true
      case CompareAndSet(expected, _, _) => expected == 0
      case PutIfFresher(_, freshUntil, _) => freshUntil * 1000 >= c.now
      case _ => false
  }

  lemma {:induction false} SweepableIsUnswayed(store: Store, events: seq<Event>)
    requires forall i | 0 <= i < |events| :: events[i].Do? ==> Sweepable(events[i].call)
    ensures AllUnswayed(store, events)
    decreases |events|
  {
    if events != [] {
      SweepableIsUnswayed(if events[0].Do? then After(store, events[0]) else store, events[1..]);
    }
  }

  predicate ClockNeverGoesBack(from: int, events: seq<Event>) {
    && (forall i | 0 <= i < |events| :: from <= TimeOf(events[i]))
    && (forall i, j | 0 <= i < j < |events| :: TimeOf(events[i]) <= TimeOf(events[j]))
  }

  /** The swept store lacks some rows that are dead by now; the rest agree but for versions. */
  predicate RowsRelated(swept: Option<Row>, full: Option<Row>, now: int) {
    match (swept, full)
    case (Some(x), Some(y)) => x.(version := y.version) == y
    case (None, Some(y)) => DeadByMilli(y, now)
    case (None, None) => true
    case (Some(_), None) => false
  }

  ghost predicate Related(swept: Store, full: Store, now: int) {
    forall k :: RowsRelated(Lookup(swept, k), Lookup(full, k), now)
  }

  lemma StepKeepsRelated(x: Option<Row>, y: Option<Row>, now: int, op: RowOp)
    requires RowsRelated(x, y, now)
    requires y.Some? ==> !SeesVersion(y.value, now, op)
    requires y.Some? && DeadByMilli(y.value, now) ==> LeavesAlike(y.value, now, op)
    ensures RowsRelated(PostgresStep(x, now, op).0, PostgresStep(y, now, op).0, now)
    ensures AlikeButVersion(PostgresStep(x, now, op).1, PostgresStep(y, now, op).1)
  {
    if x.None? && y.Some? {
      DeadRowStepsAsAbsentExactlyWhen(y.value, now, op);
    }
  }

  lemma CallKeepsRelated(swept: Store, full: Store, from: int, c: TimedCall)
    requires Related(swept, full, from) && from <= c.now && Unswayed(full, c)
    ensures Related(StoreStep(Postgres, swept, c).0, StoreStep(Postgres, full, c).0, c.now)
    ensures AlikeButVersion(StoreStep(Postgres, swept, c).1, StoreStep(Postgres, full, c).1)
  {
    forall k ensures RowsRelated(Lookup(swept, k), Lookup(full, k), c.now) {
      assert RowsRelated(Lookup(swept, k), Lookup(full, k), from);
    }
    match c.call
    case On(key, op) =>
      StepKeepsRelated(Lookup(swept, key), Lookup(full, key), c.now, op);
    case QueryByIndex(v) =>
      var a, b := IndexRows(Postgres, swept, c.now, v), IndexRows(Postgres, full, c.now, v);
      forall k
        ensures k in a <==> k in b
        ensures k in a ==> SameButVersion(Some(a[k]), Some(b[k]))
      {
        assert RowsRelated(Lookup(swept, k), Lookup(full, k), c.now);
      }
  }

  lemma SweepKeepsRelated(swept: Store, full: Store, from: int, at: int)
    requires Related(swept, full, from) && from <= at
    ensures Related(Swept(swept, at), full, at)
  {
    forall k ensures RowsRelated(Lookup(Swept(swept, at), k), Lookup(full, k), at) {
      assert RowsRelated(Lookup(swept, k), Lookup(full, k), from);
    }
  }

  predicate AllAlike(a: seq<Outcome>, b: seq<Outcome>) {
    |a| == |b| && forall i | 0 <= i < |a| :: AlikeButVersion(a[i], b[i])
  }

  lemma SeenFirst(store: Store, e: Event, rest: seq<Event>)
    ensures Seen(store, [e] + rest)
         == (if e.Do? then [StoreStep(Postgres, store, e.call).1] else []) + Seen(After(store, e), rest)
  {
    assert ([e] + rest)[1..] == rest;
  }

  lemma {:induction false} RelatedStoresSeenAlike(swept: Store, full: Store, from: int, events: seq<Event>)
    requires Related(swept, full, from) && ClockNeverGoesBack(from, events) && AllUnswayed(full, events)
    ensures AllAlike(Seen(swept, events), Seen(full, WithoutSweeps(events)))
    decreases |events|
  {
    if events != [] {
      var e, rest := events[0], events[1..];
      assert ClockNeverGoesBack(TimeOf(e), rest);
      match e
      case Do(c) =>
        CallKeepsRelated(swept, full, from, c);
        RelatedStoresSeenAlike(After(swept, e), After(full, e), TimeOf(e), rest);
        SeenFirst(full, e, WithoutSweeps(rest));
      case Sweep(at) =>
        SweepKeepsRelated(swept, full, from, at);
        RelatedStoresSeenAlike(Swept(swept, at), full, at, rest);
        assert WithoutSweeps(events) == WithoutSweeps(rest);
    }
  }

  /** Sweeps inserted anywhere in a run under a clock that never goes back change no returned
      value, expiry, applied flag or listed key: only versions can differ. */
  lemma SweepsGoUnnoticed(store: Store, from: int, events: seq<Event>)
    requires ClockNeverGoesBack(from, events) && AllUnswayed(store, events)
    ensures AllAlike(Seen(store, events), Seen(store, WithoutSweeps(events)))
  {
    assert Related(store, store, from);
    RelatedStoresSeenAlike(store, store, from, events);
  }

  /** An expired counter goes on counting while its row stands and starts over once it has been swept. */
  lemma SweepRestartsCounters(now: int)
    requires now > 10_999
    ensures var store := map["k" := Row(map["n" := Num(5)], 1, Some(10), None)];
            var add := TimedCall(now, On("k", Increment("n", 1, WriteOptions(None, None, None))));
            && StoreStep(Postgres, store, add).1 == Sum(Num(6))
            && StoreStep(Postgres, Swept(store, now), add).1 == Sum(Num(1))
  {
    var store := map["k" := Row(map["n" := Num(5)], 1, Some(10), None)];
    assert Lookup(Swept(store, now), "k") == None;
    assert IsFieldName("n");
  }

  /** Versions do differ: without the sweep the takeover bumps, with it the row starts afresh. */
  lemma SweepRestartsVersions(v: Value)
    ensures var store := map["k" := Row(v, 4, Some(10), None)];
            var put := Do(TimedCall(20_000, On("k", Put(v, WriteOptions(None, None, None)))));
            && Seen(store, [put]) == [Wrote(Record(v, 5, None))]
            && Seen(store, [Sweep(20_000), put]) == [Wrote(Record(v, 1, None))]
  {
    var store := map["k" := Row(v, 4, Some(10), None)];
    var put := Do(TimedCall(20_000, On("k", Put(v, WriteOptions(None, None, None)))));
    assert [put][1..] == [] && [Sweep(20_000), put][1..] == [put];
    assert Seen(store, [put]) == [StoreStep(Postgres, store, put.call).1] + Seen(After(store, put), []);
    var swept := Swept(store, 20_000);
    assert swept == map[];
    assert Seen(swept, [put]) == [StoreStep(Postgres, swept, put.call).1] + Seen(After(swept, put), []);
  }
}
