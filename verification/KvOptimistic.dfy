/** Postgres optimistic concurrency: versions count writes, and any number of clients interleaving
    read, pure update and compare-and-set on one key lose no update. */
module KvOptimistic {
  import opened Options
  import opened KvTypes
  import opened KvRows

  datatype TimedOp = TimedOp(now: int, op: RowOp)

  function RowAfter(row: Option<Row>, ops: seq<TimedOp>): (r: Option<Row>)
    decreases |ops|
  {
    if ops == [] then row else RowAfter(PostgresStep(row, ops[0].now, ops[0].op).0, ops[1..])
  }

  function WritesApplied(row: Option<Row>, ops: seq<TimedOp>): (n: nat)
    decreases |ops|
  {
    if ops == [] then 0
    else
      var (next, outcome) := PostgresStep(row, ops[0].now, ops[0].op);
      (if Writes(outcome) then 1 else 0) + WritesApplied(next, ops[1..])
  }

  /** While nothing deletes the row, its version counts the writes applied since its creation,
      the creating write included. */
  lemma {:induction false} VersionCountsWrites(row: Option<Row>, ops: seq<TimedOp>)
    requires forall i | 0 <= i < |ops| :: !ops[i].op.Delete?
    ensures VersionOf(RowAfter(row, ops)) == VersionOf(row) + WritesApplied(row, ops)
    decreases |ops|
  {
    if ops != [] {
      VersionCountsWrites(PostgresStep(row, ops[0].now, ops[0].op).0, ops[1..]);
    }
  }

  // ---- clients ------------------------------------------------------------------------------------

  /** A client's pure update: from the value it saw, if any, to the value it wants. */
  type Change = Option<Value> -> Value

  datatype Event =
    | Read(client: nat, now: int)
    | Swap(client: nat, now: int, change: Change, opts: WriteOptions)
    | Other(now: int, op: RowOp)
    | Sweep(now: int)

  /** What a client saw, and how many removals of the row had happened by then. */
  datatype Seen = Seen(record: Option<Record>, at: nat)

  /** One applied write, in commit order, over what stood there; `removals` is how many had happened by then. */
  datatype Commit =
    | Swapped(change: Change, base: Option<Value>, over: Option<Row>, row: Row, at: int, readAt: nat, removals: nat)
    | Blind(over: Option<Row>, row: Row, removals: nat)

  datatype State = State(row: Option<Row>, seen: map<nat, Seen>, log: seq<Commit>, removals: nat)

  const EMPTY := State(None, map[], [], 0)

  ghost function Committed(s: State, c: Commit): State {
    s.(row := Some(c.row), log := s.log + [c])
  }

  function Removed(s: State): State {
    s.(row := None, removals := s.removals + 1)
  }

  ghost function SwapStep(s: State, c: nat, now: int, change: Change, opts: WriteOptions): (r: State)
    requires c in s.seen
  {
    var Seen(record, readAt) := s.seen[c];
    var expected := if record.Some? then record.value.version else 0;
    var base := if record.Some? then Some(record.value.value) else None;
    var (row, outcome) := PostgresStep(s.row, now, CompareAndSet(expected, change(base), opts));
    if outcome.applied then Committed(s, Swapped(change, base, s.row, row.value, now, readAt, s.removals)) else s
  }

  ghost function Exec(s: State, e: Event): (r: State) {
    match e
    case Read(c, now) => s.(seen := s.seen[c := Seen(PostgresStep(s.row, now, Get(false)).1.got, s.removals)])
    case Swap(c, now, change, opts) => if c in s.seen then SwapStep(s, c, now, change, opts) else s
    case Other(now, op) =>
      var (row, outcome) := PostgresStep(s.row, now, op);
      if Writes(outcome) then Committed(s, Blind(s.row, row.value, s.removals))
      else if s.row.Some? && row.None? then Removed(s) else s
    case Sweep(now) => if s.row.Some? && DeadByMilli(s.row.value, now) then Removed(s) else s
  }

  ghost function Run(events: seq<Event>): (r: State) {
    if events == [] then EMPTY else Exec(Run(events[..|events| - 1]), events[|events| - 1])
  }

  /** The swap wrote what its change makes of exactly what it replaced: of the value that stood there live, or of
      absence where nothing stood or it had expired. */
  ghost predicate BuiltOnReplaced(c: Commit)
    requires c.Swapped?
  {
    && c.row.value == c.change(c.base)
    && match c.base
       case Some(v) => c.over.Some? && v == c.over.value.value && LiveByMilli(c.over.value, c.at)
       case None => c.over.None? || DeadByMilli(c.over.value, c.at)
  }

  /** The client had seen a record, and the row was removed between its read and its swap. */
  predicate RemovedSinceRead(c: Commit)
    requires c.Swapped?
  {
    c.base.Some? && c.readAt < c.removals
  }

  ghost predicate Honest(c: Commit) {
    c.Swapped? ==> BuiltOnReplaced(c) || RemovedSinceRead(c)
  }

  /** The write replaced the one before it, or followed a removal; versions count on from what it replaced. */
  predicate Follows(log: seq<Commit>, i: nat)
    requires i < |log|
  {
    && log[i].over == (if i > 0 && log[i - 1].removals == log[i].removals then Some(log[i - 1].row) else None)
    && log[i].row.version == VersionOf(log[i].over) + 1
    && (i > 0 ==> log[i - 1].removals <= log[i].removals)
  }

  /** What a client remembers still stands or has a higher version, unless the row has been removed since. */
  predicate Remembered(s: State, seen: Seen) {
    && seen.at <= s.removals
    && (seen.record.Some? ==> seen.record.value.version >= 1)
    && (seen.record.Some? && seen.at == s.removals ==>
          && s.row.Some?
          && (s.row.value.version > seen.record.value.version || ToRecord(s.row.value) == seen.record.value))
  }

  /** The last write, unless the row has been removed since. */
  predicate Standing(s: State) {
    if s.log != [] && s.log[|s.log| - 1].removals == s.removals
    then s.row == Some(s.log[|s.log| - 1].row)
    else s.row.None? && (s.log != [] ==> s.log[|s.log| - 1].removals < s.removals)
  }

  ghost predicate Consistent(s: State) {
    && WellFormed(s.row) && Standing(s)
    && (forall i: nat | i < |s.log| :: Follows(s.log, i) && Honest(s.log[i]))
    && (forall c | c in s.seen :: Remembered(s, s.seen[c]))
  }

  lemma CommitKeepsConsistent(s: State, c: Commit)
    requires Consistent(s) && Honest(c) && c.over == s.row && c.removals == s.removals
    requires c.row.version == VersionOf(s.row) + 1
    ensures Consistent(Committed(s, c))
  {
    var r := Committed(s, c);
    forall i: nat | i < |r.log| ensures Follows(r.log, i) && Honest(r.log[i]) {
      if i < |s.log| {
        assert Follows(s.log, i) && Honest(s.log[i]);
      }
    }
    forall k | k in r.seen ensures Remembered(r, r.seen[k]) {
      assert Remembered(s, s.seen[k]);
    }
  }

  lemma RemovalKeepsConsistent(s: State)
    requires Consistent(s)
    ensures Consistent(Removed(s))
  {
    var r := Removed(s);
    forall i: nat | i < |r.log| ensures Follows(r.log, i) && Honest(r.log[i]) {
      assert Follows(s.log, i) && Honest(s.log[i]);
    }
    forall k | k in r.seen ensures Remembered(r, r.seen[k]) {
      assert Remembered(s, s.seen[k]);
    }
  }

  lemma ReadKeepsConsistent(s: State, c: nat, now: int)
    requires Consistent(s)
    ensures Consistent(Exec(s, Read(c, now)))
  {
    var r := Exec(s, Read(c, now));
    forall i: nat | i < |r.log| ensures Follows(r.log, i) && Honest(r.log[i]) {
      assert Follows(s.log, i) && Honest(s.log[i]);
    }
    forall k | k in r.seen ensures Remembered(r, r.seen[k]) {
      if k != c {
        assert Remembered(s, s.seen[k]);
      }
    }
  }

  lemma SwapKeepsConsistent(s: State, c: nat, now: int, change: Change, opts: WriteOptions)
    requires Consistent(s) && c in s.seen
    ensures Consistent(SwapStep(s, c, now, change, opts))
  {
    assert Remembered(s, s.seen[c]);
    var r := SwapStep(s, c, now, change, opts);
    if |r.log| > |s.log| {
      CommitKeepsConsistent(s, r.log[|s.log|]);
    }
  }

  lemma OtherKeepsConsistent(s: State, now: int, op: RowOp)
    requires Consistent(s)
    ensures Consistent(Exec(s, Other(now, op)))
  {
    var (row, outcome) := PostgresStep(s.row, now, op);
    if Writes(outcome) {
      VersionBumpsByOneExactlyWhen(Postgres, s.row, now, op);
      CommitKeepsConsistent(s, Blind(s.row, row.value, s.removals));
    } else if s.row.Some? && row.None? {
      RemovalKeepsConsistent(s);
    }
  }

  lemma ExecKeepsConsistent(s: State, e: Event)
    requires Consistent(s)
    ensures Consistent(Exec(s, e))
  {
    match e
    case Read(c, now) => ReadKeepsConsistent(s, c, now);
    case Swap(c, now, change, opts) =>
      if c in s.seen {
        SwapKeepsConsistent(s, c, now, change, opts);
      }
    case Other(now, op) => OtherKeepsConsistent(s, now, op);
    case Sweep(now) => RemovalKeepsConsistent(s);
  }

  /** Every interleaving of clients, of all other calls on the row and of sweeps: each applied swap was computed from
      precisely what it replaced, unless the row was removed between that client's own read and its swap. */
  lemma {:induction false} NoUpdateIsLost(events: seq<Event>)
    ensures Consistent(Run(events))
  {
    if events != [] {
      NoUpdateIsLost(events[..|events| - 1]);
      ExecKeepsConsistent(Run(events[..|events| - 1]), events[|events| - 1]);
    }
  }

  /** While the row has not been removed since a client's read, its swap is applied exactly when the very record it
      saw still stands there live. */
  lemma SwapAppliesOverItsBaseExactlyWhen(s: State, c: nat, now: int, value: Value, opts: WriteOptions)
    requires Consistent(s) && c in s.seen && s.seen[c].record.Some? && s.seen[c].at == s.removals
    ensures var seen := s.seen[c].record.value;
            PostgresStep(s.row, now, CompareAndSet(seen.version, value, opts)).1.applied
            <==> s.row.Some? && ToRecord(s.row.value) == seen && LiveByMilli(s.row.value, now)
  {
    assert Remembered(s, s.seen[c]);
  }

  /** The write built on exactly the write before it: on its value while that was live, on absence when there was
      none or it had expired. */
  ghost predicate BuiltOnPrevious(log: seq<Commit>, i: nat)
    requires i < |log|
  {
    log[i].Swapped? ==>
      && log[i].row.value == log[i].change(log[i].base)
      && match log[i].base
         case Some(v) => i > 0 && v == log[i - 1].row.value && LiveByMilli(log[i - 1].row, log[i].at)
         case None => i == 0 || DeadByMilli(log[i - 1].row, log[i].at)
  }

  /** A row that was never removed: it is the last applied write, versions number the writes from one, and each swap
      was computed from precisely the write before it. */
  ghost predicate Unbroken(s: State) {
    && VersionOf(s.row) == |s.log|
    && (s.row.Some? <==> s.log != [])
    && (s.log != [] ==> s.row == Some(s.log[|s.log| - 1].row))
    && (forall i | 0 <= i < |s.log| :: s.log[i].row.version == i + 1)
    && (forall i: nat | i < |s.log| :: BuiltOnPrevious(s.log, i))
  }

  lemma {:induction false} VersionsNumberWrites(log: seq<Commit>, i: nat)
    requires i < |log| && forall j: nat | j < |log| :: Follows(log, j) && log[j].removals == 0
    ensures log[i].row.version == i + 1
  {
    assert Follows(log, i);
    if i > 0 {
      VersionsNumberWrites(log, i - 1);
    }
  }

  lemma {:induction false} RemovalsMount(log: seq<Commit>, i: nat)
    requires i < |log| && forall j: nat | j < |log| :: Follows(log, j)
    ensures log[i].removals <= log[|log| - 1].removals
    decreases |log| - i
  {
    if i + 1 < |log| {
      assert Follows(log, i + 1);
      RemovalsMount(log, i + 1);
    }
  }

  lemma NothingRemoved(s: State, i: nat)
    requires Consistent(s) && s.removals == 0 && i < |s.log|
    ensures s.log[i].removals == 0
  {
    RemovalsMount(s.log, i);
  }

  lemma HonestBuildsOnPrevious(log: seq<Commit>, i: nat)
    requires i < |log| && Follows(log, i) && Honest(log[i]) && log[i].removals == 0
    requires i > 0 ==> log[i - 1].removals == 0
    ensures BuiltOnPrevious(log, i)
  {
  }

  lemma NeverRemovedIsUnbroken(s: State)
    requires Consistent(s) && s.removals == 0
    ensures Unbroken(s)
  {
    forall i: nat | i < |s.log| ensures s.log[i].removals == 0 {
      NothingRemoved(s, i);
    }
    forall i: nat | i < |s.log| ensures s.log[i].row.version == i + 1 && BuiltOnPrevious(s.log, i) {
      VersionsNumberWrites(s.log, i);
      HonestBuildsOnPrevious(s.log, i);
    }
  }

  /** Every interleaving in which nothing removes the row. */
  lemma NoUpdateIsLostWithoutRemoval(events: seq<Event>)
    requires Run(events).removals == 0
    ensures Unbroken(Run(events))
  {
    NoUpdateIsLost(events);
    NeverRemovedIsUnbroken(Run(events));
  }

  /** A run one event longer. */
  lemma Then(events: seq<Event>, e: Event) returns (longer: seq<Event>, s: State)
    ensures longer == events + [e] && s == Run(longer) == Exec(Run(events), e)
  {
    longer, s := events + [e], Exec(Run(events), e);
    assert longer[..|longer| - 1] == events;
  }

  /** A removal does lose an update: a client reads version 1 before the row expires, the row is swept, another
      client creates version 1 anew, and the first client's swap replaces that by what it made of the old value. */
  lemma SweepLosesAnUpdate(v: Value, w: Value, change: Change)
    requires v != w
    ensures exists events ::
              var s := Run(events);
              && |s.log| == 3 && s.log[2].Swapped? && s.log[2].change == change && s.log[2].base == Some(v)
              && s.log[2].over == Some(Row(w, 1, None, None)) && !BuiltOnReplaced(s.log[2])
  {
    var lasting, brief := WriteOptions(None, None, None), WriteOptions(None, Some(10), None);
    var events, s := Then([], Other(0, Put(v, brief)));
    events, s := Then(events, Read(0, 9_000));
    assert s.seen[0].record == Some(Record(v, 1, Some(10)));
    events, s := Then(events, Sweep(11_000));
    events, s := Then(events, Other(12_000, PutIfAbsent(w, lasting)));
    assert s.row == Some(Row(w, 1, None, None));
    events, s := Then(events, Swap(0, 13_000, change, lasting));
    assert s == Run(events);
  }

  predicate SwapsOnly(events: seq<Event>) {
    forall i | 0 <= i < |events| ::
      !events[i].Other? && (events[i].Swap? ==> events[i].opts.expiresAt.None? && events[i].opts.ttlSeconds.None?)
  }

  /** Applying the changes one after the other, from absence. */
  ghost function Composed(log: seq<Commit>): (v: Option<Value>)
    requires forall i | 0 <= i < |log| :: log[i].Swapped?
  {
    if log == [] then None else Some(log[|log| - 1].change(Composed(log[..|log| - 1])))
  }

  lemma {:induction false} SwapsWithoutExpiryNeverExpire(events: seq<Event>)
    requires SwapsOnly(events)
    ensures forall i | 0 <= i < |Run(events).log| :: Run(events).log[i].Swapped?
              && Run(events).log[i].row.expiresAt.None?
    ensures Run(events).row.Some? ==> Run(events).row.value.expiresAt.None?
    ensures Run(events).removals == 0
  {
    if events != [] {
      SwapsWithoutExpiryNeverExpire(events[..|events| - 1]);
    }
  }

  lemma {:induction false} ChainComposes(log: seq<Commit>)
    requires forall i | 0 <= i < |log| :: log[i].Swapped? && log[i].row.expiresAt.None?
    requires forall i: nat | i < |log| :: BuiltOnPrevious(log, i)
    ensures log != [] ==> Composed(log) == Some(log[|log| - 1].row.value)
  {
    if log != [] {
      var before := log[..|log| - 1];
      forall i: nat | i < |before| ensures BuiltOnPrevious(before, i) {
        assert BuiltOnPrevious(log, i);
      }
      ChainComposes(before);
      assert BuiltOnPrevious(log, |log| - 1);
    }
  }

  /** With records that do not expire, the final value is the composition of exactly the applied
      changes, in commit order. */
  lemma FinalValueComposesAppliedChanges(events: seq<Event>)
    requires SwapsOnly(events)
    ensures forall i | 0 <= i < |Run(events).log| :: Run(events).log[i].Swapped?
    ensures Composed(Run(events).log) == match Run(events).row case Some(r) => Some(r.value) case None => None
  {
    SwapsWithoutExpiryNeverExpire(events);
    NoUpdateIsLostWithoutRemoval(events);
    ChainComposes(Run(events).log);
  }

  // ---- DynamoDB's unconditional put -------------------------------------------------------------------

  /** What a put writes after having read `seen`, whatever happened to the row in between. */
  function PutAfterReading(seen: Option<Row>, value: Value, opts: WriteOptions, now: int): Row {
    NewRow(value, VersionOf(seen) + 1, opts, now)
  }

  /** In DynamoDB the read and the write of a put are two steps. Two puts that read the same row write the same
      version, so a compare-and-set by the first writer succeeds over the second writer's value. Run one
      after the other, the same calls end with the compare-and-set refused. */
  lemma RacingPutsLoseAnUpdate(row: Option<Row>, now: int, a: Value, b: Value, c: Value, opts: WriteOptions)
    requires VersionOf(row) >= 0
    ensures var first, second := PutAfterReading(row, a, opts, now), PutAfterReading(row, b, opts, now);
            && first.version == second.version
            && DynamoStep(Some(second), now, CompareAndSet(first.version, c, opts)).1.applied
    ensures var first := DynamoStep(row, now, RowOp.Put(a, opts)).0;
            var second := DynamoStep(first, now, RowOp.Put(b, opts)).0;
            && second == Some(PutAfterReading(first, b, opts, now))
            && !DynamoStep(second, now, CompareAndSet(first.value.version, c, opts)).1.applied
  {
  }
}
