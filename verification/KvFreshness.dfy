/** `putIfFresher`: writes in any order settle on the one that expires last, and what live reads
    show never steps back to an earlier expiry. */
module KvFreshness {
  import opened Options
  import opened KvTypes
  import opened KvRows

  datatype FreshWrite = FreshWrite(value: Value, freshUntil: int, indexedKey: Option<string>, now: int)

  function WriteFresh(b: Backend, row: Option<Row>, w: FreshWrite): (r: Option<Row>) {
    Step(b, row, w.now, PutIfFresher(w.value, w.freshUntil, w.indexedKey)).0
  }

  /** The row left by the writes in commit order. */
  function Settle(b: Backend, row: Option<Row>, ws: seq<FreshWrite>): (r: Option<Row>) {
    if ws == [] then row else WriteFresh(b, Settle(b, row, ws[..|ws| - 1]), ws[|ws| - 1])
  }

  predicate DistinctExpiries(ws: seq<FreshWrite>) {
    forall i, j | 0 <= i < j < |ws| :: ws[i].freshUntil != ws[j].freshUntil
  }

  predicate ExpiresLast(ws: seq<FreshWrite>, w: FreshWrite) {
    w in ws && forall i | 0 <= i < |ws| :: ws[i].freshUntil <= w.freshUntil
  }

  predicate Holds(row: Option<Row>, w: FreshWrite) {
    && row.Some?
    && row.value.value == w.value
    && row.value.expiresAt == Some(w.freshUntil)
    && row.value.indexedKey == w.indexedKey
  }

  lemma {:induction false} SettlesOnLastToExpire(b: Backend, ws: seq<FreshWrite>, w: FreshWrite)
    requires !b.Memory?
    requires DistinctExpiries(ws) && ExpiresLast(ws, w)
    ensures Holds(Settle(b, None, ws), w)
  {
    var last := ws[|ws| - 1];
    var before := ws[..|ws| - 1];
    if before == [] {
      assert last == w;
    } else {
      var v := Latest(before);
      SettlesOnLastToExpire(b, before, v);
      assert v in before && last.freshUntil != v.freshUntil;
    }
  }

  lemma {:induction false} Latest(ws: seq<FreshWrite>) returns (w: FreshWrite)
    requires ws != []
    ensures ExpiresLast(ws, w)
  {
    w := ws[0];
    if |ws| > 1 {
      var v := Latest(ws[1..]);
      if v.freshUntil > w.freshUntil {
        w := v;
      }
      assert forall i | 1 <= i < |ws| :: ws[i] == ws[1..][i - 1];
    }
  }

  /** Convergence: DynamoDB and Postgres reach the same value, expiry and index from any two orders
      of the same writes; in DynamoDB the versions agree as well. */
  lemma OrderDoesNotMatter(b: Backend, ws: seq<FreshWrite>, vs: seq<FreshWrite>)
    requires !b.Memory? && DistinctExpiries(ws) && multiset(ws) == multiset(vs)
    ensures ws == [] ==> Settle(b, None, ws) == Settle(b, None, vs) == None
    ensures ws != [] ==>
              exists w :: ExpiresLast(ws, w) && Holds(Settle(b, None, ws), w) && Holds(Settle(b, None, vs), w)
    ensures b.Dynamo? ==> Settle(b, None, ws) == Settle(b, None, vs)
  {
    if ws == [] {
      assert |vs| == |multiset(vs)| == 0;
    } else {
      var w := Latest(ws);
      SettlesOnLastToExpire(b, ws, w);
      forall i | 0 <= i < |vs| ensures vs[i].freshUntil <= w.freshUntil {
        assert vs[i] in multiset(vs);
        assert vs[i] in ws;
      }
      assert w in multiset(ws);
      assert w in vs;
      DistinctSurvivesReordering(ws, vs);
      SettlesOnLastToExpire(b, vs, w);
      if b.Dynamo? {
        FreshWritesStayAtVersionOne(ws);
        FreshWritesStayAtVersionOne(vs);
      }
    }
  }

  lemma {:induction false} FreshWritesStayAtVersionOne(ws: seq<FreshWrite>)
    ensures Settle(Dynamo, None, ws).Some? ==> Settle(Dynamo, None, ws).value.version == 1
  {
    if ws != [] {
      FreshWritesStayAtVersionOne(ws[..|ws| - 1]);
    }
  }

  lemma DistinctSurvivesReordering(ws: seq<FreshWrite>, vs: seq<FreshWrite>)
    requires DistinctExpiries(ws) && multiset(ws) == multiset(vs)
    ensures DistinctExpiries(vs)
  {
    forall i, j | 0 <= i < j < |vs| ensures vs[i].freshUntil != vs[j].freshUntil {
      if vs[i].freshUntil == vs[j].freshUntil {
        assert vs[i] in multiset(vs) && vs[j] in multiset(vs);
        assert vs[i] in ws && vs[j] in ws;
        assert vs[i] == vs[j];
        TwicePresent(vs, i, j);
        OncePresent(ws, vs[i]);
      }
    }
  }

  lemma TwicePresent(s: seq<FreshWrite>, i: int, j: int)
    requires 0 <= i < j < |s| && s[i] == s[j]
    ensures multiset(s)[s[i]] >= 2
  {
    assert s == s[..j] + [s[j]] + s[j + 1..];
    assert s[..j][i] == s[i];
    assert s[i] in s[..j];
  }

  lemma {:induction false} OncePresent(s: seq<FreshWrite>, w: FreshWrite)
    requires DistinctExpiries(s)
    ensures multiset(s)[w] <= 1
  {
    if s != [] {
      assert s == [s[0]] + s[1..];
      OncePresent(s[1..], w);
      if s[0] == w {
        forall j | 0 <= j < |s[1..]| ensures s[1..][j] != w {
          assert s[1..][j] == s[j + 1];
        }
      }
    }
  }

  // ---- when the in-memory adapter converges ---------------------------------------------------------

  /** Every order of the writes leaves `w`. */
  ghost predicate EveryOrderLeaves(b: Backend, ws: seq<FreshWrite>, w: FreshWrite) {
    forall vs: seq<FreshWrite> | multiset(vs) == multiset(ws) :: Holds(Settle(b, None, vs), w)
  }

  /** No other write comes so late that the record expiring last has expired by then. */
  predicate OutlivesTheOthers(ws: seq<FreshWrite>, last: FreshWrite) {
    forall i | 0 <= i < |ws| && ws[i] != last :: last.freshUntil >= Seconds(ws[i].now)
  }

  /** The in-memory adapter forgets an expired record's expiry, so it settles on the last to expire in every
      order exactly when that record is still live whenever another write comes. */
  lemma MemoryConvergesExactlyWhen(ws: seq<FreshWrite>, last: FreshWrite)
    requires DistinctExpiries(ws) && ExpiresLast(ws, last)
    ensures EveryOrderLeaves(Memory, ws, last) <==> OutlivesTheOthers(ws, last)
  {
    if OutlivesTheOthers(ws, last) {
      forall vs: seq<FreshWrite> | multiset(vs) == multiset(ws) ensures Holds(Settle(Memory, None, vs), last) {
        SameWrites(ws, vs, last);
        MemorySettlesExactlyWhen(vs, last);
      }
    } else {
      var i :| 0 <= i < |ws| && ws[i] != last && last.freshUntil < Seconds(ws[i].now);
      var vs := SpoilingOrder(ws, last, ws[i]);
      assert !Holds(Settle(Memory, None, vs), last);
    }
  }

  /** A reordering has distinct expiries and the same last to expire. */
  lemma SameWrites(ws: seq<FreshWrite>, vs: seq<FreshWrite>, last: FreshWrite)
    requires multiset(vs) == multiset(ws) && DistinctExpiries(ws) && ExpiresLast(ws, last)
    ensures DistinctExpiries(vs) && ExpiresLast(vs, last) && forall i | 0 <= i < |vs| :: vs[i] in ws
  {
    DistinctSurvivesReordering(ws, vs);
    assert last in multiset(ws);
    forall i | 0 <= i < |vs| ensures vs[i].freshUntil <= last.freshUntil && vs[i] in ws {
      assert vs[i] in multiset(vs);
      assert vs[i] in ws;
    }
    assert last in multiset(vs);
  }

  /** Whatever stands in the row was written by one of the writes. */
  lemma {:induction false} SettledIsAWrite(b: Backend, ws: seq<FreshWrite>)
    ensures ws != [] ==> Settle(b, None, ws).Some? && exists i :: 0 <= i < |ws| && Holds(Settle(b, None, ws), ws[i])
  {
    if |ws| > 0 {
      var before, w := ws[..|ws| - 1], ws[|ws| - 1];
      SettledIsAWrite(b, before);
      if Settle(b, None, ws) == Settle(b, None, before) && before != [] {
        var i :| 0 <= i < |before| && Holds(Settle(b, None, before), before[i]);
        assert Holds(Settle(b, None, ws), ws[i]);
      } else {
        assert Holds(Settle(b, None, ws), w);
      }
    }
  }

  /** No write behind `last` comes after that record has expired. */
  predicate NothingLateAfter(ws: seq<FreshWrite>, last: FreshWrite) {
    forall i, j | 0 <= i < j < |ws| && ws[i] == last :: last.freshUntil >= Seconds(ws[j].now)
  }

  /** One order: the in-memory adapter is left with the record that expires last exactly when none of the writes
      behind it comes after it has expired. */
  lemma {:induction false} MemorySettlesExactlyWhen(ws: seq<FreshWrite>, last: FreshWrite)
    requires DistinctExpiries(ws) && ExpiresLast(ws, last)
    ensures Holds(Settle(Memory, None, ws), last) <==> NothingLateAfter(ws, last)
  {
    var before, w := ws[..|ws| - 1], ws[|ws| - 1];
    if w == last {
      LastIsLeft(ws, last);
    } else {
      assert last in before;
      assert forall i | 0 <= i < |before| :: before[i] == ws[i];
      MemorySettlesExactlyWhen(before, last);
      OneMoreWrite(Settle(Memory, None, before), w, last);
      var i :| 0 <= i < |before| && before[i] == last;
      assert NothingLateAfter(ws, last) <==> NothingLateAfter(before, last) && last.freshUntil >= Seconds(w.now) by {
        assert ws[i] == last && ws[|ws| - 1] == w;
      }
    }
  }

  lemma LastIsLeft(ws: seq<FreshWrite>, last: FreshWrite)
    requires DistinctExpiries(ws) && ExpiresLast(ws, last) && ws[|ws| - 1] == last
    ensures Holds(Settle(Memory, None, ws), last) && NothingLateAfter(ws, last)
  {
    var before := ws[..|ws| - 1];
    SettledIsAWrite(Memory, before);
    if before != [] {
      var i :| 0 <= i < |before| && Holds(Settle(Memory, None, before), before[i]);
      assert ws[i].freshUntil < last.freshUntil;
    }
  }

  /** A write that expires earlier leaves the record standing exactly when it stood and comes in time. */
  lemma OneMoreWrite(row: Option<Row>, w: FreshWrite, last: FreshWrite)
    requires w.freshUntil < last.freshUntil
    ensures Holds(WriteFresh(Memory, row, w), last) <==> Holds(row, last) && last.freshUntil >= Seconds(w.now)
  {
  }

  function Removed(ws: seq<FreshWrite>, w: FreshWrite): (r: seq<FreshWrite>)
    requires w in ws
    ensures multiset(r) + multiset{w} == multiset(ws)
  {
    assert ws == [ws[0]] + ws[1..];
    if ws[0] == w then ws[1..] else [ws[0]] + Removed(ws[1..], w)
  }

  /** A write that comes after the other has expired leaves anything but the other. */
  lemma LateWriteSpoils(row: Option<Row>, last: FreshWrite, w: FreshWrite)
    requires w.freshUntil < last.freshUntil < Seconds(w.now)
    ensures !Holds(WriteFresh(Memory, row, w), last)
  {
  }

  /** All the writes, with the late one at the end. */
  lemma SpoilingOrder(ws: seq<FreshWrite>, last: FreshWrite, w: FreshWrite) returns (vs: seq<FreshWrite>)
    requires w in ws && w.freshUntil < last.freshUntil < Seconds(w.now)
    ensures multiset(vs) == multiset(ws) && !Holds(Settle(Memory, None, vs), last)
  {
    var rest := Removed(ws, w);
    vs := rest + [w];
    assert vs[..|vs| - 1] == rest;
    LateWriteSpoils(Settle(Memory, None, rest), last, w);
  }

  // ---- under a clock that never goes back -------------------------------------------------------------

  predicate InClockOrder(ws: seq<FreshWrite>) {
    forall i, j | 0 <= i < j < |ws| :: ws[i].now <= ws[j].now
  }

  ghost predicate EveryClockedOrderLeaves(b: Backend, ws: seq<FreshWrite>, w: FreshWrite) {
    forall vs: seq<FreshWrite> | multiset(vs) == multiset(ws) && InClockOrder(vs) :: Holds(Settle(b, None, vs), w)
  }

  /** No other write comes at the same time or later, and after the record expiring last has expired. */
  predicate OutlivesTheLater(ws: seq<FreshWrite>, last: FreshWrite) {
    forall i | 0 <= i < |ws| && ws[i] != last && ws[i].now >= last.now :: last.freshUntil >= Seconds(ws[i].now)
  }

  /** Put a write behind all those that come no later. */
  function InsertByClock(ws: seq<FreshWrite>, w: FreshWrite): (r: seq<FreshWrite>)
    ensures multiset(r) == multiset(ws) + multiset{w}
  {
    if ws == [] || ws[|ws| - 1].now <= w.now then ws + [w]
    else
      assert ws == ws[..|ws| - 1] + [ws[|ws| - 1]];
      InsertByClock(ws[..|ws| - 1], w) + [ws[|ws| - 1]]
  }

  lemma {:induction false} InsertKeepsClockOrder(ws: seq<FreshWrite>, w: FreshWrite)
    requires InClockOrder(ws)
    ensures InClockOrder(InsertByClock(ws, w))
  {
    if ws != [] && ws[|ws| - 1].now > w.now {
      var init, end := ws[..|ws| - 1], ws[|ws| - 1];
      InsertKeepsClockOrder(init, w);
      forall i | 0 <= i < |InsertByClock(init, w)| ensures InsertByClock(init, w)[i].now <= end.now {
        assert InsertByClock(init, w)[i] in multiset(InsertByClock(init, w));
        assert InsertByClock(init, w)[i] in init || InsertByClock(init, w)[i] == w;
      }
    }
  }

  lemma {:induction false} InsertedBehind(ws: seq<FreshWrite>, w: FreshWrite, earlier: FreshWrite)
    requires earlier in ws && earlier.now <= w.now
    requires InClockOrder(ws)
    ensures exists i, j :: 0 <= i < j < |InsertByClock(ws, w)|
              && InsertByClock(ws, w)[i] == earlier && InsertByClock(ws, w)[j] == w
  {
    var r := InsertByClock(ws, w);
    if ws[|ws| - 1].now <= w.now {
      var i :| 0 <= i < |ws| && ws[i] == earlier;
      assert r[i] == earlier && r[|ws|] == w;
    } else {
      var init := ws[..|ws| - 1];
      assert earlier in init;
      InsertedBehind(init, w, earlier);
      var i, j :| 0 <= i < j < |InsertByClock(init, w)|
        && InsertByClock(init, w)[i] == earlier && InsertByClock(init, w)[j] == w;
      assert r[i] == earlier && r[j] == w;
    }
  }

  function ByClock(ws: seq<FreshWrite>): (r: seq<FreshWrite>)
    ensures multiset(r) == multiset(ws)
  {
    if ws == [] then []
    else
      assert ws == ws[..|ws| - 1] + [ws[|ws| - 1]];
      InsertByClock(ByClock(ws[..|ws| - 1]), ws[|ws| - 1])
  }

  lemma {:induction false} ByClockIsInOrder(ws: seq<FreshWrite>)
    ensures InClockOrder(ByClock(ws))
  {
    if ws != [] {
      ByClockIsInOrder(ws[..|ws| - 1]);
      InsertKeepsClockOrder(ByClock(ws[..|ws| - 1]), ws[|ws| - 1]);
    }
  }

  /** All the writes in the order of the clock, the late one behind the last to expire. */
  lemma SpoilingClockedOrder(ws: seq<FreshWrite>, last: FreshWrite, w: FreshWrite) returns (vs: seq<FreshWrite>)
    requires w in ws && last in ws && w != last && last.now <= w.now && last.freshUntil < Seconds(w.now)
    ensures multiset(vs) == multiset(ws) && InClockOrder(vs) && !NothingLateAfter(vs, last)
  {
    var rest := Removed(ws, w);
    assert last in multiset(rest) + multiset{w};
    var sorted := ByClock(rest);
    ByClockIsInOrder(rest);
    assert last in multiset(sorted);
    vs := InsertByClock(sorted, w);
    InsertKeepsClockOrder(sorted, w);
    InsertedBehind(sorted, w, last);
  }

  /** Under a clock that never goes back, the in-memory adapter settles on the last to expire in every order exactly
      when that record is still live whenever another write comes at the same time or later. */
  lemma MemoryConvergesInClockOrderExactlyWhen(ws: seq<FreshWrite>, last: FreshWrite)
    requires DistinctExpiries(ws) && ExpiresLast(ws, last)
    ensures EveryClockedOrderLeaves(Memory, ws, last) <==> OutlivesTheLater(ws, last)
  {
    if OutlivesTheLater(ws, last) {
      forall vs: seq<FreshWrite> | multiset(vs) == multiset(ws) && InClockOrder(vs)
        ensures Holds(Settle(Memory, None, vs), last)
      {
        SameWrites(ws, vs, last);
        MemorySettlesExactlyWhen(vs, last);
      }
    } else {
      var i :| 0 <= i < |ws| && ws[i] != last && ws[i].now >= last.now && last.freshUntil < Seconds(ws[i].now);
      var vs := SpoilingClockedOrder(ws, last, ws[i]);
      SameWrites(ws, vs, last);
      MemorySettlesExactlyWhen(vs, last);
    }
  }

  /** The in-memory adapter forgets an expired row's expiry, so a write that is itself already past
      can win over one that expires later. */
  lemma MemoryDoesNotConverge(v: Value, w: Value)
    requires v != w
    ensures var a, b := FreshWrite(v, 100, None, 200_000), FreshWrite(w, 50, None, 200_000);
            !Holds(Settle(Memory, None, [a, b]), a) && Holds(Settle(Memory, None, [b, a]), a)
  {
    var a, b := FreshWrite(v, 100, None, 200_000), FreshWrite(w, 50, None, 200_000);
    assert [a, b][..1] == [a] && [b, a][..1] == [b];
    assert [a][..0] == [] && [b][..0] == [];
    assert Settle(Memory, None, [a]) == WriteFresh(Memory, None, a);
    assert Settle(Memory, None, [b]) == WriteFresh(Memory, None, b);
  }

  // ---- what successive live reads show ------------------------------------------------------------

  datatype Event = Write(w: FreshWrite) | Read(at: int) | Sweep(when: int)

  function EventTime(e: Event): int {
    match e
    case Write(w) => w.now
    case Read(at) => at
    case Sweep(when) => when
  }

  /** A time-to-live sweep takes a row away only once it is past its expiry. */
  function SweepRow(b: Backend, row: Option<Row>, now: int): (r: Option<Row>) {
    if row.Some? && (if b.Postgres? then DeadByMilli(row.value, now) else ExpiredBySecond(row.value, now))
    then None else row
  }

  function After(b: Backend, row: Option<Row>, e: Event): Option<Row> {
    match e
    case Write(w) => WriteFresh(b, row, w)
    case Read(_) => row
    case Sweep(when) => SweepRow(b, row, when)
  }

  /** The expiries shown by the live reads of the run, in order. */
  function ReadExpiries(b: Backend, row: Option<Row>, events: seq<Event>): seq<int>
    decreases |events|
  {
    if events == [] then []
    else
      var e := events[0];
      (if e.Read? && Live(b, row, e.at) && row.value.expiresAt.Some? then [row.value.expiresAt.value] else [])
      + ReadExpiries(b, After(b, row, e), events[1..])
  }

  predicate ClockNeverGoesBack(from: int, events: seq<Event>) {
    && (forall i | 0 <= i < |events| :: from <= EventTime(events[i]))
    && (forall i, j | 0 <= i < j < |events| :: EventTime(events[i]) <= EventTime(events[j]))
  }

  /** A record expiring at `e` is no longer shown by the clock reading `now`. */
  predicate GoneBy(b: Backend, e: int, now: int) {
    if b.Postgres? then e * 1000 <= now else e < Seconds(now)
  }

  /** Whatever a live read may still show expires no earlier than `floor`. */
  predicate AtLeast(b: Backend, row: Option<Row>, floor: int, now: int) {
    GoneBy(b, floor, now) || (row.Some? && row.value.expiresAt.Some? && row.value.expiresAt.value >= floor)
  }

  lemma EventKeepsFloor(b: Backend, row: Option<Row>, floor: int, from: int, e: Event)
    requires AtLeast(b, row, floor, from) && from <= EventTime(e)
    ensures AtLeast(b, After(b, row, e), floor, EventTime(e))
    ensures e.Read? && Live(b, row, e.at) && row.value.expiresAt.Some? ==> row.value.expiresAt.value >= floor
    ensures e.Read? && Live(b, row, e.at) && row.value.expiresAt.Some? ==>
              AtLeast(b, row, row.value.expiresAt.value, e.at)
  {
    if GoneBy(b, floor, from) {
      assert GoneBy(b, floor, EventTime(e));
    }
  }

  predicate Ascending(xs: seq<int>) {
    forall i, j | 0 <= i < j < |xs| :: xs[i] <= xs[j]
  }

  lemma {:induction false} ReadsStayAboveFloor(b: Backend, row: Option<Row>, floor: int, from: int, events: seq<Event>)
    requires AtLeast(b, row, floor, from) && ClockNeverGoesBack(from, events)
    ensures forall i | 0 <= i < |ReadExpiries(b, row, events)| :: ReadExpiries(b, row, events)[i] >= floor
    decreases |events|
  {
    if events != [] {
      var e := events[0];
      EventKeepsFloor(b, row, floor, from, e);
      assert ClockNeverGoesBack(EventTime(e), events[1..]);
      ReadsStayAboveFloor(b, After(b, row, e), floor, EventTime(e), events[1..]);
    }
  }

  /** All three adapters, any run of freshness writes, live reads and sweeps on one key under a
      clock that never goes back: the expiries read never go down. */
  lemma {:induction false} LiveReadsNeverGoBack(b: Backend, row: Option<Row>, from: int, events: seq<Event>)
    requires ClockNeverGoesBack(from, events)
    ensures Ascending(ReadExpiries(b, row, events))
    decreases |events|
  {
    if events != [] {
      var e := events[0];
      var next := After(b, row, e);
      assert ClockNeverGoesBack(EventTime(e), events[1..]);
      LiveReadsNeverGoBack(b, next, EventTime(e), events[1..]);
      if e.Read? && Live(b, row, e.at) && row.value.expiresAt.Some? {
        ReadsStayAboveFloor(b, next, row.value.expiresAt.value, e.at, events[1..]);
      }
    }
  }
}
