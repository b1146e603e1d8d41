/** What a caller of any of the three adapters learns from a second call about the first: how long a written record is
    shown, what it reads as, and when a conditional call goes through, told by reads alone. */
module KvContract {
  import opened Options
  import opened KvTypes
  import opened KvRows

  function Read(b: Backend, row: Option<Row>, now: int, includeExpired: bool): (got: Option<Record>) {
    Step(b, row, now, Get(includeExpired)).1.got
  }

  /** An expiry-aware read at this instant shows a record. */
  predicate Shown(b: Backend, row: Option<Row>, now: int) {
    Read(b, row, now, false).Some?
  }

  /** Up to which instant a record with this expiry, in epoch seconds, is shown: through its expiry second in memory and
      in DynamoDB, up to the beginning of that second in Postgres. */
  predicate UpTo(b: Backend, expiry: int, t: int) {
    if b.Postgres? then t < expiry * 1000 else t / 1000 <= expiry
  }

  predicate WritesValue(op: RowOp) {
    op.Put? || op.PutIfAbsent? || op.CompareAndSet?
  }

  // ---- how long a record is shown -----------------------------------------------------------------------

  /** A relative expiry counts whole seconds from the clock of the write; an absolute one wins over it; without either
      the record is shown for ever. */
  lemma WrittenIsShownExactlyUntil(b: Backend, row: Option<Row>, now: int, op: RowOp, t: int)
    requires WritesValue(op) && Writes(Step(b, row, now, op).1)
    ensures var shown := Shown(b, Step(b, row, now, op).0, t);
            match (op.opts.expiresAt, op.opts.ttlSeconds)
            case (Some(e), _) => shown <==> UpTo(b, e, t)
            case (None, Some(n)) => shown <==> UpTo(b, now / 1000 + n, t)
            case (None, None) => shown
  {
  }

  lemma FreshWriteIsShownExactlyUntil(b: Backend, row: Option<Row>, now: int, value: Value, freshUntil: int,
      indexedKey: Option<string>, t: int)
    requires Writes(Step(b, row, now, PutIfFresher(value, freshUntil, indexedKey)).1)
    ensures Shown(b, Step(b, row, now, PutIfFresher(value, freshUntil, indexedKey)).0, t) <==> UpTo(b, freshUntil, t)
  {
  }

  /** An increment gives a row its expiry once: a row that has one keeps it. */
  lemma CountedIsShownExactlyUntil(b: Backend, row: Option<Row>, now: int, name: string, delta: int,
      opts: WriteOptions, t: int)
    requires Writes(Step(b, row, now, Increment(name, delta, opts)).1)
    ensures var shown := Shown(b, Step(b, row, now, Increment(name, delta, opts)).0, t);
            if row.Some? && row.value.expiresAt.Some? then shown <==> UpTo(b, row.value.expiresAt.value, t)
            else
              match (opts.expiresAt, opts.ttlSeconds)
              case (Some(e), _) => shown <==> UpTo(b, e, t)
              case (None, Some(n)) => shown <==> UpTo(b, now / 1000 + n, t)
              case (None, None) => shown
  {
  }

  // ---- what a record reads as ---------------------------------------------------------------------------

  /** The record a write answers with is the one a later read shows, and holds the value that was passed. */
  lemma WrittenReadsBack(b: Backend, row: Option<Row>, now: int, op: RowOp, t: int)
    requires (WritesValue(op) || op.PutIfFresher?) && Writes(Step(b, row, now, op).1)
    ensures var (after, outcome) := Step(b, row, now, op);
            var got := Read(b, after, t, true);
            && got.Some? && got.value.value == op.value
            && outcome == (if op.Put? then Wrote(got.value) else Cas(true, got))
            && (Shown(b, after, t) ==> Read(b, after, t, false) == got)
  {
  }

  /** The total an increment answers with is what stood there plus the difference, is what a later read shows, and is
      all that has changed of the value; only in memory does it turn text into not-a-number. */
  lemma CountedReadsBack(b: Backend, row: Option<Row>, now: int, name: string, delta: int, opts: WriteOptions, t: int)
    requires Writes(Step(b, row, now, Increment(name, delta, opts)).1)
    ensures var (after, outcome) := Step(b, row, now, Increment(name, delta, opts));
            var before := match Read(b, row, t, true) case Some(r) => r.value case None => map[];
            var got := Read(b, after, t, true);
            && got.Some? && name in got.value.value && outcome == Sum(got.value.value[name])
            && (Counter(before, name).Num? ==> got.value.value[name] == Num(Counter(before, name).n + delta))
            && (!Counter(before, name).Num? ==> b.Memory? && got.value.value[name] == NotANumber)
            && got.value.value - {name} == before - {name}
  {
  }

  /** A field that is not there counts from zero. */
  lemma FirstCountIsTheDifference(b: Backend, row: Option<Row>, now: int, name: string, delta: int, opts: WriteOptions)
    requires IsFieldName(name) && (row.Some? ==> name !in row.value.value)
    ensures Step(b, row, now, Increment(name, delta, opts)).1 == Sum(Num(delta))
  {
  }

  /** The first record under a key has version one. */
  lemma FirstVersionIsOne(b: Backend, now: int, op: RowOp, t: int)
    requires Writes(Step(b, None, now, op).1)
    ensures var got := Read(b, Step(b, None, now, op).0, t, true); got.Some? && got.value.version == 1
  {
  }

  /** A call that does not write and does not delete leaves the row as it was. */
  lemma RefusalChangesNothing(b: Backend, row: Option<Row>, now: int, op: RowOp)
    ensures var (after, outcome) := Step(b, row, now, op);
            !Writes(outcome) && outcome != Deleted(true) ==> after == row
  {
  }

  /** What a write has put under an index value, a query of that value lists as long as it is shown, and no other
      query does. */
  lemma WrittenIsListedExactlyWhen(b: Backend, row: Option<Row>, now: int, op: RowOp, key: string, t: int, v: string)
    requires WritesValue(op) && Writes(Step(b, row, now, op).1)
    ensures var after := Step(b, row, now, op).0;
            Lookup(IndexRows(b, map[key := after.value], t, v), key)
            == if op.opts.indexedKey == Some(v) then Read(b, after, t, false) else None
  {
  }

  // ---- when a conditional call goes through ---------------------------------------------------------------

  /** No record is in the way: none is shown, in Postgres none was a millisecond ago. */
  predicate Free(b: Backend, row: Option<Row>, now: int) {
    !Shown(b, row, if b.Postgres? then now - 1 else now)
  }

  /** Create-once applies exactly when no record is in the way, and otherwise shows what a read shows. */
  lemma CreateOnceAppliesExactlyWhen(b: Backend, row: Option<Row>, now: int, value: Value, opts: WriteOptions)
    ensures var outcome := Step(b, row, now, PutIfAbsent(value, opts)).1;
            && (Writes(outcome) <==> Free(b, row, now))
            && (!Writes(outcome) ==> outcome == Cas(false, Read(b, row, now, false)))
  {
  }

  /** Compare-and-set applies exactly when the version is the one a read shows: in memory and in Postgres a read that
      passes over expired records, in DynamoDB one that does not. Requiring absence is create-once in memory and in
      Postgres; in DynamoDB an expired record is in the way too. */
  lemma SwapAppliesExactlyWhen(b: Backend, row: Option<Row>, now: int, expected: int, value: Value, opts: WriteOptions)
    requires WellFormed(row)
    ensures var outcome := Step(b, row, now, CompareAndSet(expected, value, opts)).1;
            var seen := Read(b, row, now, b.Dynamo?);
            && (expected != 0 ==> (Writes(outcome) <==> seen.Some? && seen.value.version == expected))
            && (expected == 0 ==> (Writes(outcome) <==> if b.Dynamo? then seen.None? else Free(b, row, now)))
            && (!Writes(outcome) ==> outcome == Cas(false, Read(b, row, now, false)))
  {
  }

  /** A freshness write applies exactly when what a read shows expires earlier or never: in memory a read that passes
      over expired records, elsewhere one that does not. */
  lemma FresherAppliesExactlyWhen(b: Backend, row: Option<Row>, now: int, value: Value, freshUntil: int,
      indexedKey: Option<string>)
    ensures var outcome := Step(b, row, now, PutIfFresher(value, freshUntil, indexedKey)).1;
            var seen := Read(b, row, now, !b.Memory?);
            && (Writes(outcome) <==>
                seen.None? || seen.value.expiresAt.None? || seen.value.expiresAt.value < freshUntil)
            && (!Writes(outcome) ==> outcome == Cas(false, Read(b, row, now, false)))
  {
  }

  /** A delete removes the record, expired or not, exactly when there is one and it has the version asked for; then no
      read shows it any more, and otherwise nothing has changed. */
  lemma DeletesExactlyWhen(b: Backend, row: Option<Row>, now: int, guard: Option<int>, t: int)
    ensures var (after, outcome) := Step(b, row, now, Delete(guard));
            var there := Read(b, row, t, true);
            var hit := there.Some? && (guard.Some? ==> there.value.version == guard.value);
            outcome == Deleted(hit) && (if hit then Read(b, after, t, true).None? else after == row)
  {
  }

  /** A plain write always goes through. */
  lemma PutAlwaysWrites(b: Backend, row: Option<Row>, now: int, value: Value, opts: WriteOptions)
    ensures Writes(Step(b, row, now, Put(value, opts)).1)
  {
  }

  /** An increment goes through exactly when the name is an identifier and, outside memory, the field counts. */
  lemma CountsExactlyWhen(b: Backend, row: Option<Row>, now: int, name: string, delta: int, opts: WriteOptions, t: int)
    ensures var before := match Read(b, row, t, true) case Some(r) => r.value case None => map[];
            Writes(Step(b, row, now, Increment(name, delta, opts)).1)
            <==> IsFieldName(name) && (b.Memory? || Counter(before, name).Num?)
  {
  }

  // ---- field names ----------------------------------------------------------------------------------------

  const CAPITALS := "ABCDEFGHIJKLMNOPQRSTUVWXYZ"
  const SMALL := "abcdefghijklmnopqrstuvwxyz"

  /** A letter is a field name, and a field name followed by a letter, a digit or an underscore is one; nothing else. */
  lemma FieldNamesGrow(name: string, c: char)
    ensures !IsFieldName("") && (IsFieldName([c]) <==> c in CAPITALS || c in SMALL)
    ensures name != "" ==>
              (IsFieldName(name + [c]) <==>
               IsFieldName(name) && (c in CAPITALS || c in SMALL || c in "0123456789_"))
  {
    LettersAre(c);
    if name != "" {
      var longer := name + [c];
      assert forall i | 0 <= i < |name| :: longer[i] == name[i];
      assert longer[|name|] == c;
    }
  }

  lemma LettersAre(c: char)
    ensures IsLetter(c) <==> c in CAPITALS || c in SMALL
  {
    CapitalsAre(c);
    SmallLettersAre(c);
  }

  lemma CapitalsAre(c: char)
    ensures 'A' <= c <= 'Z' <==> c in CAPITALS
  {
  }

  lemma SmallLettersAre(c: char)
    ensures 'a' <= c <= 'z' <==> c in SMALL
  {
  }
}
