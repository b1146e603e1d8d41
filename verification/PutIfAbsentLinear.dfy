/** Create-once as its callers see it: although it is several requests, each finished call answers as the one atomic
    step would have at some instant while it ran. */
module PutIfAbsentLinear {
  import opened Options
  import opened KvTypes
  import opened PutIfAbsentProtocol
  import KvRows

  /** A run from a quiet start. */
  datatype History = History(clock: int, item: Option<Item>, events: seq<Event>)
  {
    /** The state after the first `k` events. */
    function At(k: nat): State
      requires k <= |events|
    {
      Run(Start(clock, item), events[..k])
    }

    function Now(): State {
      Run(Start(clock, item), events)
    }

    function Plus(e: Event): History {
      History(clock, item, events + [e])
    }
  }

  lemma AtLonger(h: History, e: Event)
    ensures forall k: nat | k <= |h.events| :: h.Plus(e).At(k) == h.At(k)
    ensures h.At(|h.events|) == h.Now() && h.Plus(e).Now() == Exec(h.Now(), e)
  {
    forall k: nat | k <= |h.events| ensures h.Plus(e).At(k) == h.At(k) {
      assert (h.events + [e])[..k] == h.events[..k];
    }
    assert h.events[..|h.events|] == h.events;
    assert (h.events + [e])[..|h.events|] == h.events;
  }

  function RowOf(item: Option<Item>): Option<Row> {
    if item.Some? then Some(Row(item.value.value, ReadVersion(item.value), item.value.ttl, None)) else None
  }

  /** What a finished call told its caller. */
  function Answer(done: Pc): Outcome
    requires done.Done?
  {
    var row := RowOf(done.current);
    Cas(done.applied, if row.Some? then Some(ToRecord(row.value)) else None)
  }

  /** The atomic create-once of this call in this state, its expiry already resolved. */
  function AtomicStep(s: State, c: nat, expiresAt: Option<int>): (Option<Row>, Outcome)
    requires c in s.calls
  {
    KvRows.DynamoStep(RowOf(s.item), s.clock, PutIfAbsent(s.calls[c].value, WriteOptions(None, expiresAt, None)))
  }

  predicate Running(s: State, c: nat) {
    c in s.calls && !s.calls[c].pc.Done?
  }

  predicate Resolves(s: State, c: nat, expiresAt: Option<int>) {
    c in s.calls && s.calls[c].pc.Entered? && ResolveExpiry(s.calls[c].opts, s.clock) == expiresAt
  }

  /** At one of its instants up to the `n`-th event the call resolved its options to this expiry. */
  ghost predicate Resolved(h: History, n: nat, c: nat, expiresAt: Option<int>)
    requires n <= |h.events|
  {
    exists k: nat :: k <= n && Resolves(h.At(k), c, expiresAt)
  }

  /** At the `k`-th instant, while the call ran, the atomic step gives this answer; if that writes, the step is taken
      at that instant. */
  ghost predicate TakesEffectAt(h: History, k: nat, c: nat, done: Pc, expiresAt: Option<int>)
    requires k < |h.events| && done.Done?
  {
    && Running(h.At(k), c) && Resolved(h, k, c, expiresAt)
    && AtomicStep(h.At(k), c, expiresAt).1 == Answer(done)
    && AtomicStep(h.At(k), c, expiresAt).0 == RowOf(if done.applied then h.At(k + 1).item else h.At(k).item)
    && (done.applied ==> h.events[k] == Advance(c))
  }

  /** The call's answer is the atomic step's at some instant between its beginning and its end. */
  ghost predicate Linearized(h: History, c: nat, done: Pc)
    requires done.Done?
  {
    exists k: nat, e :: k < |h.events| && TakesEffectAt(h, k, c, done, e)
  }

  /** While the call ran, some time ago, this was the item. */
  ghost predicate Saw(h: History, c: nat, item: Option<Item>) {
    exists k: nat, e :: k < |h.events| && SawAt(h, k, c, item, e)
  }

  ghost predicate SawAt(h: History, k: nat, c: nat, item: Option<Item>, e: Option<int>)
    requires k < |h.events|
  {
    Running(h.At(k), c) && h.At(k).item == item && Resolved(h, k, c, e) && h.At(k).clock <= h.Now().clock
  }

  /** The call lost its takeover, and what it then read had expired when it was judged; without resets that was an
      item. */
  ghost predicate WinnerExpired(h: History, c: nat) {
    exists k: nat :: k < |h.events| && WinnerExpiredAt(h.At(k), c)
  }

  predicate WinnerExpiredAt(s: State, c: nat) {
    && c in s.calls && s.calls[c].pc.JudgingWinner?
    && match s.calls[c].pc.winner
       case Some(item) => IsExpired(item, s.clock)
       case None => s.resets > 0
  }

  predicate WonAfterReset(s: State, c: nat) {
    exists i :: 0 <= i < |s.wins| && s.wins[i].call == c && ResetSinceRead(s.wins[i])
  }

  /** What is known of a call from where it stands. */
  ghost predicate Explained(h: History, c: nat, pc: Pc) {
    match pc
    case Entered => true
    case Creating(e) => Resolved(h, |h.events|, c, e)
    case Reading(e) => Resolved(h, |h.events|, c, e)
    case Judging(e, seen, _) => Resolved(h, |h.events|, c, e) && Saw(h, c, Some(seen))
    case TakingOver(e, seen, _) => Resolved(h, |h.events|, c, e)
    case Beaten => (exists e :: Resolved(h, |h.events|, c, e)) && (h.Now().item.None? ==> h.Now().resets > 0)
    case JudgingWinner(w) => Saw(h, c, w) && (w.None? ==> h.Now().resets > 0)
    case Done(applied, current) =>
      if current.None? then !applied && WinnerExpired(h, c)
      else Linearized(h, c, pc) || (applied && WonAfterReset(h.Now(), c))
  }

  ghost predicate AllExplained(h: History) {
    forall c | c in h.Now().calls :: Explained(h, c, h.Now().calls[c].pc)
  }

  // ---- what stays known ---------------------------------------------------------------------------------

  lemma ResolvedLater(h: History, ev: Event, n: nat, c: nat, e: Option<int>)
    requires n <= |h.events| && Resolved(h, n, c, e)
    ensures Resolved(h.Plus(ev), n, c, e) && Resolved(h.Plus(ev), |h.events| + 1, c, e)
  {
    AtLonger(h, ev);
    var k: nat :| k <= n && Resolves(h.At(k), c, e);
    assert Resolves(h.Plus(ev).At(k), c, e);
  }

  lemma ClockAdvances(s: State, e: Event)
    ensures s.clock <= Exec(s, e).clock
  {
  }

  lemma SawLater(h: History, ev: Event, c: nat, item: Option<Item>)
    requires Saw(h, c, item)
    ensures Saw(h.Plus(ev), c, item)
  {
    AtLonger(h, ev);
    ClockAdvances(h.Now(), ev);
    var k: nat, e :| k < |h.events| && SawAt(h, k, c, item, e);
    ResolvedLater(h, ev, k, c, e);
    assert SawAt(h.Plus(ev), k, c, item, e);
  }

  lemma LinearizedLater(h: History, ev: Event, c: nat, done: Pc)
    requires done.Done? && Linearized(h, c, done)
    ensures Linearized(h.Plus(ev), c, done)
  {
    AtLonger(h, ev);
    var k: nat, e :| k < |h.events| && TakesEffectAt(h, k, c, done, e);
    ResolvedLater(h, ev, k, c, e);
    assert TakesEffectAt(h.Plus(ev), k, c, done, e);
  }

  lemma WinnerExpiredLater(h: History, ev: Event, c: nat)
    requires WinnerExpired(h, c)
    ensures WinnerExpired(h.Plus(ev), c)
  {
    AtLonger(h, ev);
    var k: nat :| k < |h.events| && WinnerExpiredAt(h.At(k), c);
    assert WinnerExpiredAt(h.Plus(ev).At(k), c);
  }

  lemma ResetsStay(s: State, e: Event)
    ensures s.resets <= Exec(s, e).resets
    ensures s.item.Some? && Exec(s, e).item.None? ==> Exec(s, e).resets > 0
    ensures forall c | WonAfterReset(s, c) :: WonAfterReset(Exec(s, e), c)
  {
    var r := Exec(s, e);
    forall c | WonAfterReset(s, c) ensures WonAfterReset(r, c) {
      var i :| 0 <= i < |s.wins| && s.wins[i].call == c && ResetSinceRead(s.wins[i]);
      assert r.wins[i] == s.wins[i];
    }
  }

  /** An event that leaves a call where it was leaves it explained. */
  lemma StaysExplained(h: History, ev: Event, c: nat, pc: Pc)
    requires Explained(h, c, pc)
    ensures Explained(h.Plus(ev), c, pc)
  {
    AtLonger(h, ev);
    ResetsStay(h.Now(), ev);
    match pc
    case Entered =>
    case Creating(e) => ResolvedLater(h, ev, |h.events|, c, e);
    case Reading(e) => ResolvedLater(h, ev, |h.events|, c, e);
    case Judging(e, seen, _) =>
      ResolvedLater(h, ev, |h.events|, c, e);
      SawLater(h, ev, c, Some(seen));
    case TakingOver(e, _, _) => ResolvedLater(h, ev, |h.events|, c, e);
    case Beaten =>
      var e :| Resolved(h, |h.events|, c, e);
      ResolvedLater(h, ev, |h.events|, c, e);
    case JudgingWinner(w) => SawLater(h, ev, c, w);
    case Done(_, current) =>
      if current.None? {
        WinnerExpiredLater(h, ev, c);
      } else if Linearized(h, c, pc) {
        LinearizedLater(h, ev, c, pc);
      }
  }

  // ---- what a step adds ---------------------------------------------------------------------------------

  /** The last instant before an event is one of the longer history's. */
  lemma LastInstant(h: History, ev: Event, c: nat, e: Option<int>)
    requires Resolved(h, |h.events|, c, e) && Running(h.Now(), c)
    ensures Saw(h.Plus(ev), c, h.Now().item)
  {
    AtLonger(h, ev);
    ClockAdvances(h.Now(), ev);
    ResolvedLater(h, ev, |h.events|, c, e);
    assert SawAt(h.Plus(ev), |h.events|, c, h.Now().item, e);
  }

  /** A live item that was seen while the call ran is the atomic step's answer at that instant. */
  lemma SeenLive(h: History, c: nat, seen: Item)
    requires Saw(h, c, Some(seen)) && !IsExpired(seen, h.Now().clock)
    ensures Linearized(h, c, Done(false, Some(seen)))
  {
    var k: nat, e :| k < |h.events| && SawAt(h, k, c, Some(seen), e);
    assert TakesEffectAt(h, k, c, Done(false, Some(seen)), e);
  }

  /** What a create over nothing, or a takeover of the item that stands, writes. */
  function Written(s: State, c: nat, e: Option<int>): Option<Item>
    requires c in s.calls
  {
    Some(Item(s.calls[c].value, Some((if s.item.Some? then ReadVersion(s.item.value) else 0) + 1), e))
  }

  lemma AtomicWrite(s: State, c: nat, e: Option<int>)
    requires c in s.calls && (s.item.Some? ==> IsExpired(s.item.value, s.clock))
    ensures AtomicStep(s, c, e) == (RowOf(Written(s, c, e)), Answer(Done(true, Written(s, c, e))))
  {
  }

  /** A write over nothing, or over the expired item that stands, is the atomic step taken then. */
  lemma WrittenNow(h: History, c: nat, e: Option<int>)
    requires Running(h.Now(), c) && Resolved(h, |h.events|, c, e)
    requires h.Now().item.Some? ==> IsExpired(h.Now().item.value, h.Now().clock)
    requires var r := Exec(h.Now(), Advance(c));
             c in r.calls && r.item == Written(h.Now(), c, e) && r.calls[c].pc == Done(true, r.item)
    ensures var done := Exec(h.Now(), Advance(c)).calls[c].pc; Linearized(h.Plus(Advance(c)), c, done)
  {
    var longer := h.Plus(Advance(c));
    AtLonger(h, Advance(c));
    assert longer.events[..|longer.events|] == longer.events;
    AtomicWrite(h.Now(), c, e);
    ResolvedLater(h, Advance(c), |h.events|, c, e);
    assert TakesEffectAt(longer, |h.events|, c, Exec(h.Now(), Advance(c)).calls[c].pc, e);
  }

  lemma TakeoverExplained(h: History, c: nat)
    requires Safe(h.Now()) && c in h.Now().calls && h.Now().calls[c].pc.TakingOver?
    requires Explained(h, c, h.Now().calls[c].pc)
    ensures Explained(h.Plus(Advance(c)), c, Exec(h.Now(), Advance(c)).calls[c].pc)
  {
    var s, r := h.Now(), Exec(h.Now(), Advance(c));
    var TakingOver(e, seen, at) := s.calls[c].pc;
    AtLonger(h, Advance(c));
    assert Remembers(s, s.calls[c].pc);
    if !GuardPasses(s.item, seen) {
      ResolvedLater(h, Advance(c), |h.events|, c, e);
    } else if at == s.resets {
      WrittenNow(h, c, e);
    } else {
      var w := r.wins[|s.wins|];
      assert w.call == c && ResetSinceRead(w);
    }
  }

  lemma CreateExplained(h: History, c: nat)
    requires c in h.Now().calls && h.Now().calls[c].pc.Creating?
    requires Explained(h, c, h.Now().calls[c].pc)
    ensures Explained(h.Plus(Advance(c)), c, Exec(h.Now(), Advance(c)).calls[c].pc)
  {
    var e := h.Now().calls[c].pc.expiresAt;
    if h.Now().item.None? {
      WrittenNow(h, c, e);
    } else {
      ResolvedLater(h, Advance(c), |h.events|, c, e);
    }
  }

  lemma ReadExplained(h: History, c: nat)
    requires c in h.Now().calls && h.Now().calls[c].pc.Reading?
    requires Explained(h, c, h.Now().calls[c].pc)
    ensures Explained(h.Plus(Advance(c)), c, Exec(h.Now(), Advance(c)).calls[c].pc)
  {
    var e := h.Now().calls[c].pc.expiresAt;
    ResolvedLater(h, Advance(c), |h.events|, c, e);
    LastInstant(h, Advance(c), c, e);
  }

  lemma JudgementExplained(h: History, c: nat)
    requires c in h.Now().calls && h.Now().calls[c].pc.Judging?
    requires Explained(h, c, h.Now().calls[c].pc)
    ensures Explained(h.Plus(Advance(c)), c, Exec(h.Now(), Advance(c)).calls[c].pc)
  {
    var Judging(e, seen, at) := h.Now().calls[c].pc;
    if IsExpired(seen, h.Now().clock) {
      ResolvedLater(h, Advance(c), |h.events|, c, e);
    } else {
      SeenLive(h, c, seen);
      LinearizedLater(h, Advance(c), c, Done(false, Some(seen)));
    }
  }

  lemma WinnerExplained(h: History, c: nat)
    requires c in h.Now().calls && (h.Now().calls[c].pc.Beaten? || h.Now().calls[c].pc.JudgingWinner?)
    requires Explained(h, c, h.Now().calls[c].pc)
    ensures Explained(h.Plus(Advance(c)), c, Exec(h.Now(), Advance(c)).calls[c].pc)
  {
    AtLonger(h, Advance(c));
    ResetsStay(h.Now(), Advance(c));
    match h.Now().calls[c].pc
    case Beaten =>
      var e :| Resolved(h, |h.events|, c, e);
      LastInstant(h, Advance(c), c, e);
    case JudgingWinner(w) =>
      if w.Some? && !IsExpired(w.value, h.Now().clock) {
        SeenLive(h, c, w.value);
        LinearizedLater(h, Advance(c), c, Done(false, w));
      } else {
        assert WinnerExpiredAt(h.Plus(Advance(c)).At(|h.events|), c);
      }
  }

  lemma EntryExplained(h: History, c: nat)
    requires c in h.Now().calls && h.Now().calls[c].pc.Entered?
    ensures Explained(h.Plus(Advance(c)), c, Exec(h.Now(), Advance(c)).calls[c].pc)
  {
    AtLonger(h, Advance(c));
    assert Resolves(h.Plus(Advance(c)).At(|h.events|), c, ResolveExpiry(h.Now().calls[c].opts, h.Now().clock));
  }

  lemma AdvanceExplained(h: History, c: nat)
    requires Safe(h.Now()) && c in h.Now().calls && Explained(h, c, h.Now().calls[c].pc)
    ensures Explained(h.Plus(Advance(c)), c, Exec(h.Now(), Advance(c)).calls[c].pc)
  {
    match h.Now().calls[c].pc
    case Entered => EntryExplained(h, c);
    case Creating(_) => CreateExplained(h, c);
    case Reading(_) => ReadExplained(h, c);
    case Judging(_, _, _) => JudgementExplained(h, c);
    case TakingOver(_, _, _) => TakeoverExplained(h, c);
    case Beaten => WinnerExplained(h, c);
    case JudgingWinner(_) => WinnerExplained(h, c);
    case Done(_, _) => StaysExplained(h, Advance(c), c, h.Now().calls[c].pc);
  }

  lemma OtherCallsStay(s: State, ev: Event, c: nat)
    requires c in s.calls && ev != Advance(c)
    ensures c in Exec(s, ev).calls && Exec(s, ev).calls[c] == s.calls[c]
  {
  }

  lemma CallStaysExplained(h: History, ev: Event, c: nat)
    requires Safe(h.Now()) && c in h.Now().calls && Explained(h, c, h.Now().calls[c].pc)
    ensures c in Exec(h.Now(), ev).calls && Explained(h.Plus(ev), c, Exec(h.Now(), ev).calls[c].pc)
  {
    if ev == Advance(c) {
      AdvanceExplained(h, c);
    } else {
      OtherCallsStay(h.Now(), ev, c);
      StaysExplained(h, ev, c, h.Now().calls[c].pc);
    }
  }

  lemma NewCallsEnter(s: State, ev: Event, c: nat)
    requires c in Exec(s, ev).calls && c !in s.calls
    ensures Exec(s, ev).calls[c].pc.Entered?
  {
  }

  lemma EventKeepsExplained(h: History, ev: Event)
    requires Safe(h.Now()) && AllExplained(h)
    ensures AllExplained(h.Plus(ev))
  {
    AtLonger(h, ev);
    forall c | c in h.Plus(ev).Now().calls ensures Explained(h.Plus(ev), c, h.Plus(ev).Now().calls[c].pc) {
      if c in h.Now().calls {
        CallStaysExplained(h, ev, c);
      } else {
        NewCallsEnter(h.Now(), ev, c);
      }
    }
  }

  /** Every interleaving: a finished call answered as the atomic step does at some instant while it ran, or told
      that it lost to nothing, the winner having expired by the time it was judged, or wrote after a reset of the
      versions between its own read and its write. */
  lemma {:induction false} FinishedCallsAreExplained(h: History)
    ensures AllExplained(h)
    decreases |h.events|
  {
    if h.events != [] {
      var before := History(h.clock, h.item, h.events[..|h.events| - 1]);
      FinishedCallsAreExplained(before);
      LiveOverwrittenOnlyAfterOwnReset(h.clock, h.item, before.events);
      EventKeepsExplained(before, h.events[|h.events| - 1]);
      assert before.Plus(h.events[|h.events| - 1]) == h;
    }
  }

  /** The atomic step never says that it did not apply and that nothing live stands there. */
  lemma NothingIsNoAnswer(h: History, c: nat)
    ensures !Linearized(h, c, Done(false, None))
  {
  }

  /** While nothing resets the versions: a finished call's answer is the atomic step's at some instant while it ran,
      with the step's write at that instant, exactly when it is not the answer that names no record. */
  lemma LinearizableExactlyWhen(h: History, c: nat)
    requires h.Now().resets == 0 && c in h.Now().calls && h.Now().calls[c].pc.Done?
    ensures var done := h.Now().calls[c].pc;
            && (Linearized(h, c, done) <==> done.current.Some?)
            && (done.current.None? ==> !done.applied && WinnerExpired(h, c))
  {
    var done := h.Now().calls[c].pc;
    FinishedCallsAreExplained(h);
    assert Explained(h, c, done);
    NothingIsNoAnswer(h, c);
    NoResetNoResetWin(h, c);
  }

  lemma NoResetNoResetWin(h: History, c: nat)
    requires h.Now().resets == 0
    ensures !WonAfterReset(h.Now(), c)
  {
    ResetsAreCounted(h.clock, h.item, h.events);
  }
}
