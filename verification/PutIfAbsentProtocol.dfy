/** DynamoDB's create-once as it runs: a conditional create, a consistent read, a clock reading and
    a version-guarded takeover, each a step of its own, for any number of concurrent calls on one
    item. Single-item requests are atomic; everything between two requests may interleave. */
module PutIfAbsentProtocol {
  import opened Options
  import opened KvTypes
  import KvRows

  /** An item as stored. Items written before versions were introduced carry no version attribute. */
  datatype Item = Item(value: Value, version: Option<int>, ttl: Option<int>)

  /** A missing version attribute reads as zero. */
  function ReadVersion(item: Item): int {
    if item.version.Some? then item.version.value else 0
  }

  predicate IsExpired(item: Item, clock: int) {
    item.ttl.Some? && item.ttl.value < Seconds(clock)
  }

  /** Where a call stands between two requests; `readAt` is how many resets had happened when it read. */
  datatype Pc =
    | Entered
    | Creating(expiresAt: Option<int>)
    | Reading(expiresAt: Option<int>)
    | Judging(expiresAt: Option<int>, seen: Item, readAt: nat)
    | TakingOver(expiresAt: Option<int>, seen: Item, readAt: nat)
    | Beaten
    | JudgingWinner(winner: Option<Item>)
    | Done(applied: bool, current: Option<Item>)

  datatype Call = Call(value: Value, opts: WriteOptions, pc: Pc)

  /** An applied write: by which call, when, over which item, and how many resets had happened when the
      call read and when it wrote. */
  datatype Win = Win(call: nat, at: int, over: Option<Item>, item: Item, readAt: nat, resets: nat)

  datatype Attempt = Attempt(call: nat, seen: Item, won: bool)

  datatype State = State(
    clock: int, item: Option<Item>, calls: map<nat, Call>,
    wins: seq<Win>, attempts: seq<Attempt>, born: int, resets: nat)

  datatype Event =
    | Tick(to: int)
    | Begin(call: nat, value: Value, opts: WriteOptions)
    | Advance(call: nat)
    | Rewrite(value: Value, ttl: Option<int>)  // another client's increment or version-guarded write
    | Overwrite(value: Value, version: int, ttl: Option<int>)  // a freshness write, or a put that read earlier
    | Remove                                   // a delete, or the time-to-live sweep

  function Start(clock: int, item: Option<Item>): State {
    State(clock, item, map[], [], [], if item.Some? then ReadVersion(item.value) else 1, 0)
  }

  function WithPc(s: State, c: nat, pc: Pc): State
    requires c in s.calls
  {
    s.(calls := s.calls[c := s.calls[c].(pc := pc)])
  }

  /** The conditional write went through. */
  function Won(s: State, c: nat, version: int, expiresAt: Option<int>, readAt: nat): State
    requires c in s.calls
  {
    var item := Item(s.calls[c].value, Some(version), expiresAt);
    WithPc(s, c, Done(true, Some(item)))
    .(item := Some(item), wins := s.wins + [Win(c, s.clock, s.item, item, readAt, s.resets)])
  }

  /** The takeover's condition: the version attribute is there and is the version seen. */
  predicate GuardPasses(item: Option<Item>, seen: Item) {
    item.Some? && item.value.version == Some(ReadVersion(seen))
  }

  function AdvanceCall(s: State, c: nat): (r: State)
    requires c in s.calls
  {
    match s.calls[c].pc
    case Entered => WithPc(s, c, Creating(ResolveExpiry(s.calls[c].opts, s.clock)))
    case Creating(e) => if s.item.None? then Won(s, c, 1, e, s.resets) else WithPc(s, c, Reading(e))
    case Reading(e) => WithPc(s, c, if s.item.None? then Entered else Judging(e, s.item.value, s.resets))
    case Judging(e, seen, at) =>
      WithPc(s, c, if IsExpired(seen, s.clock) then TakingOver(e, seen, at) else Done(false, Some(seen)))
    case TakingOver(e, seen, at) =>
      var won := GuardPasses(s.item, seen);
      (if won then Won(s, c, ReadVersion(seen) + 1, e, at) else WithPc(s, c, Beaten))
      .(attempts := s.attempts + [Attempt(c, seen, won)])
    case Beaten => WithPc(s, c, JudgingWinner(s.item))
    case JudgingWinner(w) =>
      WithPc(s, c, Done(false, if w.Some? && !IsExpired(w.value, s.clock) then w else None))
    case Done(_, _) => s
  }

  /** A freshness write leaves version one and a put the version it once read plus one, whatever stands there. Where
      that does not raise the version of a standing item, versions start over. */
  function Overwritten(s: State, item: Item): (r: State) {
    s.(item := Some(item),
       resets := s.resets + if s.item.Some? && ReadVersion(item) <= ReadVersion(s.item.value) then 1 else 0)
  }

  /** Events that are not enabled leave the state alone. */
  function Exec(s: State, e: Event): (r: State) {
    match e
    case Tick(to) => if to >= s.clock then s.(clock := to) else s
    case Begin(c, value, opts) =>
      if c in s.calls then s else s.(calls := s.calls[c := Call(value, opts, Entered)])
    case Advance(c) => if c in s.calls then AdvanceCall(s, c) else s
    case Rewrite(value, ttl) =>
      s.(item := Some(Item(value, Some(if s.item.Some? then ReadVersion(s.item.value) + 1 else 1), ttl)))
    case Overwrite(value, version, ttl) =>
      if version >= 1 then Overwritten(s, Item(value, Some(version), ttl)) else s
    case Remove => if s.item.None? then s else s.(item := None, resets := s.resets + 1)
  }

  function Run(s: State, events: seq<Event>): (r: State)
    decreases |events|
  {
    if events == [] then s else Exec(Run(s, events[..|events| - 1]), events[|events| - 1])
  }

  /** Besides create-once nothing but writes that raise the version. */
  predicate VersionsOnlyRise(events: seq<Event>) {
    forall e | e in events :: !e.Remove? && !e.Overwrite?
  }

  predicate CreateOnceOnly(events: seq<Event>) {
    forall e | e in events :: !e.Remove? && !e.Rewrite? && !e.Overwrite?
  }

  // ---- a live record is never overwritten -----------------------------------------------------------

  /** What a call remembers of the item: unless its versions have been reset since the call read it, it is still
      the same item or its version has moved on. */
  predicate Remembers(s: State, pc: Pc) {
    match pc
    case Judging(_, seen, at) => at <= s.resets && (at == s.resets ==> StillOrMoved(s.item, seen))
    case TakingOver(_, seen, at) =>
      && at <= s.resets
      && (at == s.resets ==> StillOrMoved(s.item, seen))
      && IsExpired(seen, s.clock)
    case _ => true
  }

  predicate StillOrMoved(item: Option<Item>, seen: Item) {
    item.Some? && (item.value == seen || ReadVersion(item.value) > ReadVersion(seen))
  }

  predicate OverNothingLive(w: Win) {
    w.over.Some? ==> IsExpired(w.over.value, w.at)
  }

  /** The item was removed, or given a version no higher, between the call's own read and its write. */
  predicate ResetSinceRead(w: Win) {
    w.readAt < w.resets
  }

  predicate Safe(s: State) {
    && (forall c | c in s.calls :: Remembers(s, s.calls[c].pc))
    && (forall i | 0 <= i < |s.wins| :: OverNothingLive(s.wins[i]) || ResetSinceRead(s.wins[i]))
  }

  lemma ExecKeepsSafe(s: State, e: Event)
    requires Safe(s)
    ensures Safe(Exec(s, e))
  {
    var r := Exec(s, e);
    forall c | c in r.calls ensures Remembers(r, r.calls[c].pc) {
      if c in s.calls {
        assert Remembers(s, s.calls[c].pc);
      }
    }
    if e.Advance? && e.call in s.calls {
      assert Remembers(s, s.calls[e.call].pc);
    }
  }

  /** Every interleaving of any number of calls, of other clients' writes and removals and of a clock that
      never goes back: create-once overwrites a live record only if between that very call's read and its write
      the item was removed or given a version no higher than it had. */
  lemma {:induction false} LiveOverwrittenOnlyAfterOwnReset(clock: int, item: Option<Item>, events: seq<Event>)
    ensures Safe(Run(Start(clock, item), events))
  {
    if events != [] {
      LiveOverwrittenOnlyAfterOwnReset(clock, item, events[..|events| - 1]);
      ExecKeepsSafe(Run(Start(clock, item), events[..|events| - 1]), events[|events| - 1]);
    }
  }

  predicate WinsCountResets(s: State) {
    forall i | 0 <= i < |s.wins| :: s.wins[i].resets <= s.resets
  }

  lemma {:induction false} ResetsAreCounted(clock: int, item: Option<Item>, events: seq<Event>)
    ensures WinsCountResets(Run(Start(clock, item), events))
    ensures VersionsOnlyRise(events) ==> Run(Start(clock, item), events).resets == 0
  {
    if events != [] {
      ResetsAreCounted(clock, item, events[..|events| - 1]);
    }
  }

  /** In particular, while nothing resets the item's versions, whatever create-once overwrites had expired at that
      moment. */
  lemma LiveRecordNeverOverwritten(clock: int, item: Option<Item>, events: seq<Event>)
    requires Run(Start(clock, item), events).resets == 0
    ensures forall i | 0 <= i < |Run(Start(clock, item), events).wins| ::
              OverNothingLive(Run(Start(clock, item), events).wins[i])
  {
    LiveOverwrittenOnlyAfterOwnReset(clock, item, events);
    ResetsAreCounted(clock, item, events);
  }

  /** What the guard proves. With no reset since the read it passes exactly over the very item seen, if that
      carries a version; it passes over anything else exactly when, after a reset, a different item carries the
      version seen. */
  lemma GuardPassesExactlyWhen(s: State, c: nat)
    requires Safe(s) && c in s.calls && s.calls[c].pc.TakingOver?
    ensures var TakingOver(e, seen, at) := s.calls[c].pc;
            && (at == s.resets ==> (GuardPasses(s.item, seen) <==> s.item == Some(seen) && seen.version.Some?))
            && (GuardPasses(s.item, seen) && s.item != Some(seen) <==>
                at < s.resets && s.item.Some? && s.item.value != seen
                && s.item.value.version == Some(ReadVersion(seen)))
  {
    assert Remembers(s, s.calls[c].pc);
  }

  // ---- applied results and expiry -------------------------------------------------------------------

  /** Each applied write replaced the one before it, at a time no earlier. */
  predicate WinsChain(s: State) {
    && (s.wins != [] ==> s.item == Some(s.wins[|s.wins| - 1].item) && s.wins[|s.wins| - 1].at <= s.clock)
    && (forall i | 0 < i < |s.wins| :: s.wins[i].over == Some(s.wins[i - 1].item) && s.wins[i - 1].at <= s.wins[i].at)
  }

  /** The calls that report success are exactly the calls that wrote, each once. */
  predicate ResultsAreWins(s: State) {
    && (forall i | 0 <= i < |s.wins| ::
          s.wins[i].call in s.calls && s.calls[s.wins[i].call].pc == Done(true, Some(s.wins[i].item)))
    && (forall i, j | 0 <= i < j < |s.wins| :: s.wins[i].call != s.wins[j].call)
    && (forall c | c in s.calls && s.calls[c].pc.Done? && s.calls[c].pc.applied ::
          exists i :: 0 <= i < |s.wins| && s.wins[i].call == c)
  }

  lemma StepKeepsResults(s: State, c: nat, pc: Pc)
    requires ResultsAreWins(s) && c in s.calls && !s.calls[c].pc.Done? && !(pc.Done? && pc.applied)
    ensures ResultsAreWins(WithPc(s, c, pc))
  {
  }

  lemma WinKeepsResults(s: State, c: nat, version: int, expiresAt: Option<int>, readAt: nat)
    requires ResultsAreWins(s) && c in s.calls && !s.calls[c].pc.Done?
    ensures ResultsAreWins(Won(s, c, version, expiresAt, readAt))
  {
    var r := Won(s, c, version, expiresAt, readAt);
    forall d | d in r.calls && r.calls[d].pc.Done? && r.calls[d].pc.applied
      ensures exists i :: 0 <= i < |r.wins| && r.wins[i].call == d
    {
      if d == c {
        assert r.wins[|s.wins|].call == d;
      } else {
        var i :| 0 <= i < |s.wins| && s.wins[i].call == d;
        assert r.wins[i].call == d;
      }
    }
  }

  lemma TakeoverKeepsResults(s: State, c: nat)
    requires ResultsAreWins(s) && c in s.calls && s.calls[c].pc.TakingOver?
    ensures ResultsAreWins(AdvanceCall(s, c))
  {
    var TakingOver(e, seen, at) := s.calls[c].pc;
    if GuardPasses(s.item, seen) {
      WinKeepsResults(s, c, ReadVersion(seen) + 1, e, at);
    } else {
      StepKeepsResults(s, c, Beaten);
    }
  }

  lemma AdvanceKeepsResults(s: State, c: nat)
    requires ResultsAreWins(s) && c in s.calls && !s.calls[c].pc.Done?
    ensures ResultsAreWins(AdvanceCall(s, c))
  {
    var pc := s.calls[c].pc;
    if pc.TakingOver? {
      TakeoverKeepsResults(s, c);
    } else if pc.Creating? && s.item.None? {
      WinKeepsResults(s, c, 1, pc.expiresAt, s.resets);
    } else {
      StepKeepsResults(s, c, AdvanceCall(s, c).calls[c].pc);
    }
  }

  lemma ExecKeepsResults(s: State, e: Event)
    requires ResultsAreWins(s)
    ensures ResultsAreWins(Exec(s, e))
  {
    if e.Advance? && e.call in s.calls && !s.calls[e.call].pc.Done? {
      AdvanceKeepsResults(s, e.call);
    }
  }

  lemma {:induction false} SuccessMeansWritten(clock: int, item: Option<Item>, events: seq<Event>)
    ensures ResultsAreWins(Run(Start(clock, item), events))
  {
    if events != [] {
      SuccessMeansWritten(clock, item, events[..|events| - 1]);
      ExecKeepsResults(Run(Start(clock, item), events[..|events| - 1]), events[|events| - 1]);
    }
  }

  lemma ExecKeepsChain(s: State, e: Event)
    requires WinsChain(s) && !e.Remove? && !e.Rewrite? && !e.Overwrite?
    ensures WinsChain(Exec(s, e))
  {
  }

  lemma {:induction false} WinsFormAChain(clock: int, item: Option<Item>, events: seq<Event>)
    requires CreateOnceOnly(events)
    ensures WinsChain(Run(Start(clock, item), events))
  {
    if events != [] {
      WinsFormAChain(clock, item, events[..|events| - 1]);
      ExecKeepsChain(Run(Start(clock, item), events[..|events| - 1]), events[|events| - 1]);
    }
  }

  /** Two applied results on one key: the earlier record had expired when the later one was written. */
  lemma TwoAppliedMeansFirstExpired(clock: int, item: Option<Item>, events: seq<Event>, i: nat, j: nat)
    requires CreateOnceOnly(events)
    requires i < j < |Run(Start(clock, item), events).wins|
    ensures var s := Run(Start(clock, item), events);
            s.wins[i].at <= s.wins[j].at <= s.clock && IsExpired(s.wins[i].item, s.wins[j].at)
    decreases j - i
  {
    var s := Run(Start(clock, item), events);
    WinsFormAChain(clock, item, events);
    ResetsAreCounted(clock, item, events);
    LiveRecordNeverOverwritten(clock, item, events);
    assert OverNothingLive(s.wins[i + 1]);
    LaterWinsAreLater(s, i + 1, j);
  }

  lemma {:induction false} LaterWinsAreLater(s: State, i: nat, j: nat)
    requires WinsChain(s) && i <= j < |s.wins|
    ensures s.wins[i].at <= s.wins[j].at <= s.clock
    decreases |s.wins| - i
  {
    if i < j {
      LaterWinsAreLater(s, i + 1, j);
    } else if j + 1 < |s.wins| {
      LaterWinsAreLater(s, i + 1, j + 1);
    }
  }

  // ---- exactly one takeover wins ----------------------------------------------------------------------

  /** How many takeovers built on version `v` were applied. */
  function Winners(attempts: seq<Attempt>, v: int): (n: nat) {
    if attempts == [] then 0
    else
      var last := attempts[|attempts| - 1];
      Winners(attempts[..|attempts| - 1], v) + if last.won && ReadVersion(last.seen) == v then 1 else 0
  }

  predicate SawThisRow(s: State, seen: Item) {
    seen.version.Some? ==> s.item.Some? && s.born <= ReadVersion(seen) <= ReadVersion(s.item.value)
  }

  ghost predicate OneWinnerEach(s: State) {
    && s.resets == 0
    && (s.item.Some? ==> s.born <= ReadVersion(s.item.value))
    && (s.item.None? ==> s.attempts == [] && s.born == 1)
    && (forall c | c in s.calls && (s.calls[c].pc.Judging? || s.calls[c].pc.TakingOver?) ::
        SawThisRow(s, s.calls[c].pc.seen))
    && (forall a | a in s.attempts && a.seen.version.Some? ::
          s.item.Some? && s.born <= ReadVersion(a.seen) < ReadVersion(s.item.value))
    && (forall v :: Winners(s.attempts, v) == if s.item.Some? && s.born <= v < ReadVersion(s.item.value) then 1 else 0)
  }

  lemma AttemptKeepsOneWinnerEach(s: State, c: nat)
    requires OneWinnerEach(s) && c in s.calls && s.calls[c].pc.TakingOver? && Remembers(s, s.calls[c].pc)
    ensures OneWinnerEach(AdvanceCall(s, c))
  {
    var r := AdvanceCall(s, c);
    var seen := s.calls[c].pc.seen;
    assert SawThisRow(s, seen);
    assert r.attempts[..|r.attempts| - 1] == s.attempts;
    forall v
      ensures Winners(r.attempts, v) == if r.item.Some? && r.born <= v < ReadVersion(r.item.value) then 1 else 0
    {
      assert Winners(s.attempts, v) == if s.item.Some? && s.born <= v < ReadVersion(s.item.value) then 1 else 0;
    }
  }

  lemma OtherStepKeepsOneWinnerEach(s: State, c: nat)
    requires OneWinnerEach(s) && c in s.calls && !s.calls[c].pc.TakingOver?
    ensures OneWinnerEach(AdvanceCall(s, c))
  {
    var r := AdvanceCall(s, c);
    assert r.attempts == s.attempts;
    forall v
      ensures Winners(r.attempts, v) == if r.item.Some? && r.born <= v < ReadVersion(r.item.value) then 1 else 0
    {
      assert Winners(s.attempts, v) == if s.item.Some? && s.born <= v < ReadVersion(s.item.value) then 1 else 0;
    }
  }

  lemma ExecKeepsOneWinnerEach(s: State, e: Event)
    requires OneWinnerEach(s) && Safe(s) && !e.Remove? && !e.Rewrite? && !e.Overwrite?
    ensures OneWinnerEach(Exec(s, e))
  {
    if e.Advance? && e.call in s.calls {
      assert Remembers(s, s.calls[e.call].pc);
      if s.calls[e.call].pc.TakingOver? {
        AttemptKeepsOneWinnerEach(s, e.call);
      } else {
        OtherStepKeepsOneWinnerEach(s, e.call);
      }
    }
  }

  lemma {:induction false} TakeoversAreUnique(clock: int, item: Option<Item>, events: seq<Event>)
    requires CreateOnceOnly(events)
    ensures OneWinnerEach(Run(Start(clock, item), events))
  {
    if events != [] {
      var before := events[..|events| - 1];
      TakeoversAreUnique(clock, item, before);
      LiveOverwrittenOnlyAfterOwnReset(clock, item, before);
      ExecKeepsOneWinnerEach(Run(Start(clock, item), before), events[|events| - 1]);
    }
  }

  /** However many calls try to take over one expired versioned item, exactly one is applied. */
  lemma ExactlyOneTakeoverWins(clock: int, item: Option<Item>, events: seq<Event>, a: Attempt)
    requires CreateOnceOnly(events)
    requires a in Run(Start(clock, item), events).attempts && a.seen.version.Some?
    ensures Winners(Run(Start(clock, item), events).attempts, ReadVersion(a.seen)) == 1
  {
    TakeoversAreUnique(clock, item, events);
  }

  // ---- where the guarantee ends -----------------------------------------------------------------------

  /** A takeover of an item unchanged since it was read applies exactly when the item carries a
      version attribute: equality with zero is false of an attribute that is not there. */
  lemma TakeoverAppliesExactlyToVersionedItems(s: State, c: nat, e: Option<int>, seen: Item, at: nat)
    requires c in s.calls && s.calls[c].pc == TakingOver(e, seen, at) && s.item == Some(seen)
    ensures AdvanceCall(s, c).calls[c].pc == Done(true, AdvanceCall(s, c).item) <==> seen.version.Some?
  {
  }

  /** So an expired item from before versions were introduced keeps refusing every create-once. */
  lemma {:induction false} UnversionedItemIsNeverTakenOver(clock: int, item: Item, events: seq<Event>)
    requires item.version.None? && CreateOnceOnly(events)
    ensures Run(Start(clock, Some(item)), events).item == Some(item)
    ensures Run(Start(clock, Some(item)), events).wins == []
  {
    if events != [] {
      UnversionedItemIsNeverTakenOver(clock, item, events[..|events| - 1]);
    }
  }

  /** A run one event longer. */
  lemma Then(start: State, events: seq<Event>, e: Event) returns (longer: seq<Event>, s: State)
    ensures longer == events + [e]
    ensures s == Run(start, longer) == Exec(Run(start, events), e)
  {
    longer, s := events + [e], Exec(Run(start, events), e);
    assert longer[..|longer| - 1] == events;
  }

  // ---- which takeovers a reset can turn against a live record -------------------------------------------

  /** Versions start over from one, so whatever stands after a reset carries a version of at least one. */
  predicate RestartedFromOne(s: State) {
    s.resets > 0 && s.item.Some? ==> s.item.value.version.Some? && s.item.value.version.value >= 1
  }

  lemma {:induction false} ReachedRestartsFromOne(clock: int, item: Option<Item>, events: seq<Event>)
    ensures RestartedFromOne(Run(Start(clock, item), events))
  {
    if events != [] {
      ReachedRestartsFromOne(clock, item, events[..|events| - 1]);
    }
  }

  predicate HitsLive(s: State, c: nat) {
    exists i :: 0 <= i < |s.wins| && s.wins[i].call == c && !OverNothingLive(s.wins[i])
  }

  /** A call that is harmless for good: it saw a version below one, or has been answered or beaten. */
  predicate Harmless(s: State, c: nat) {
    && c in s.calls && !HitsLive(s, c)
    && match s.calls[c].pc
       case TakingOver(_, seen, _) => ReadVersion(seen) < 1
       case Beaten => true
       case JudgingWinner(_) => true
       case Done(_, _) => true
       case _ => false
  }

  lemma ExecKeepsHarmless(s: State, c: nat, e: Event)
    requires Safe(s) && RestartedFromOne(s) && Harmless(s, c)
    ensures Harmless(Exec(s, e), c)
  {
    var r := Exec(s, e);
    if |r.wins| > |s.wins| {
      var w := r.wins[|s.wins|];
      assert Remembers(s, s.calls[w.call].pc);
      assert w.call == c ==> OverNothingLive(w);
      assert forall i | 0 <= i < |s.wins| :: r.wins[i] == s.wins[i];
    }
  }

  lemma {:induction false} RunKeepsHarmless(s: State, c: nat, events: seq<Event>)
    requires Safe(s) && RestartedFromOne(s) && Harmless(s, c)
    ensures var r := Run(s, events); Safe(r) && RestartedFromOne(r) && Harmless(r, c)
  {
    if events != [] {
      var before, e := events[..|events| - 1], events[|events| - 1];
      RunKeepsHarmless(s, c, before);
      ExecKeepsSafe(Run(s, before), e);
      ExecKeepsHarmless(Run(s, before), c, e);
    }
  }

  /** A removal, then writes of `value` by others. */
  predicate RemovedAndRewritten(events: seq<Event>, value: Value) {
    events != [] && events[0] == Remove && forall i | 0 < i < |events| :: events[i] == Rewrite(value, None)
  }

  lemma {:induction false} VersionsRestart(s: State, events: seq<Event>, value: Value)
    requires RemovedAndRewritten(events, value)
    ensures Run(s, events).calls == s.calls && Run(s, events).clock == s.clock
    ensures Run(s, events).item == if |events| == 1 then None else Some(Item(value, Some(|events| - 1), None))
  {
    if |events| == 1 {
      assert events[..0] == [];
    } else {
      VersionsRestart(s, events[..|events| - 1], value);
    }
  }

  /** A takeover waiting in any reachable state can still go on to overwrite a live record exactly when the
      version it saw is at least one: then a removal and as many writes, for one, make its guard pass again. */
  lemma TakeoverCanHitLiveExactlyWhen(clock: int, item: Option<Item>, events: seq<Event>, c: nat)
    requires var s := Run(Start(clock, item), events); c in s.calls && s.calls[c].pc.TakingOver?
    ensures var s := Run(Start(clock, item), events);
            (exists later :: HitsLive(Run(s, later), c)) <==> ReadVersion(s.calls[c].pc.seen) >= 1
  {
    var s := Run(Start(clock, item), events);
    var n := ReadVersion(s.calls[c].pc.seen);
    LiveOverwrittenOnlyAfterOwnReset(clock, item, events);
    ReachedRestartsFromOne(clock, item, events);
    SuccessMeansWritten(clock, item, events);
    assert !HitsLive(s, c);
    if n >= 1 {
      var value := s.calls[c].value;
      var before := [Remove] + seq(n, _ => Rewrite(value, None));
      VersionsRestart(s, before, value);
      var later, r := Then(s, before, Advance(c));
      assert r.wins[|r.wins| - 1].call == c && !OverNothingLive(r.wins[|r.wins| - 1]);
    } else {
      forall later ensures !HitsLive(Run(s, later), c) {
        RunKeepsHarmless(s, c, later);
      }
    }
  }

  /** Physical removal restarts versions at one. A call that judged version 1 expired, then slept
      through the removal and another call's create, overwrites that live record. */
  lemma RemovalBreaksTheGuarantee(v: Value, w: Value)
    ensures exists events ::
              var s := Run(Start(20_000, Some(Item(v, Some(1), Some(10)))), events);
              |s.wins| == 2 && !OverNothingLive(s.wins[1]) && s.wins[1].over == Some(s.wins[0].item)
  {
    var opts := WriteOptions(None, None, None);
    var s0 := Start(20_000, Some(Item(v, Some(1), Some(10))));
    var events, s := Then(s0, [], Begin(0, v, opts));
    events, s := Then(s0, events, Advance(0));
    events, s := Then(s0, events, Advance(0));
    events, s := Then(s0, events, Advance(0));
    events, s := Then(s0, events, Advance(0));
    assert s.calls[0].pc == TakingOver(None, Item(v, Some(1), Some(10)), 0);
    events, s := Then(s0, events, Remove);
    events, s := Then(s0, events, Begin(1, w, opts));
    events, s := Then(s0, events, Advance(1));
    events, s := Then(s0, events, Advance(1));
    assert s.item == Some(Item(w, Some(1), None));
    events, s := Then(s0, events, Advance(0));
    assert s == Run(s0, events);
  }

  /** So does a freshness write, without any removal: it leaves version one over version one. */
  lemma FreshnessWriteBreaksTheGuarantee(v: Value, w: Value)
    ensures KvRows.DynamoStep(Some(Row(v, 1, Some(10), None)), 20_000, PutIfFresher(w, 1000, None)).0
         == Some(Row(w, 1, Some(1000), None))
    ensures exists events ::
              var s := Run(Start(20_000, Some(Item(v, Some(1), Some(10)))), events);
              && Remove !in events && |s.wins| == 1
              && !OverNothingLive(s.wins[0]) && s.wins[0].over == Some(Item(w, Some(1), Some(1000)))
  {
    var opts := WriteOptions(None, None, None);
    var s0 := Start(20_000, Some(Item(v, Some(1), Some(10))));
    var events, s := Then(s0, [], Begin(0, v, opts));
    events, s := Then(s0, events, Advance(0));
    events, s := Then(s0, events, Advance(0));
    events, s := Then(s0, events, Advance(0));
    events, s := Then(s0, events, Advance(0));
    assert s.calls[0].pc == TakingOver(None, Item(v, Some(1), Some(10)), 0);
    events, s := Then(s0, events, Overwrite(w, 1, Some(1000)));
    events, s := Then(s0, events, Advance(0));
    assert s == Run(s0, events);
  }
}
