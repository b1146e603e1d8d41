/** Create-once comes to an end: alone it answers as the one atomic step, and beside any other clients it runs out of
    requests. */
module PutIfAbsentProgress {
  import opened Options
  import opened KvTypes
  import opened PutIfAbsentProtocol
  import opened PutIfAbsentLinear

  // ---- alone ----------------------------------------------------------------------------------------------

  /** The call sends its next `n` requests with nothing in between. */
  function Alone(s: State, c: nat, n: nat): State {
    Run(s, seq(n, _ => Advance(c)))
  }

  lemma AloneOneMore(s: State, c: nat, n: nat)
    ensures Alone(s, c, 0) == s && Alone(s, c, n + 1) == Exec(Alone(s, c, n), Advance(c))
  {
    var longer := seq(n + 1, _ => Advance(c));
    assert longer[..n] == seq(n, _ => Advance(c));
  }

  lemma FourRequests(s: State, c: nat)
    ensures Alone(s, c, 2) == Exec(Exec(s, Advance(c)), Advance(c))
    ensures Alone(s, c, 4) == Exec(Exec(Alone(s, c, 2), Advance(c)), Advance(c))
  {
    AloneOneMore(s, c, 0);
    AloneOneMore(s, c, 1);
    AloneOneMore(s, c, 2);
    AloneOneMore(s, c, 3);
  }

  lemma LastRequests(s: State, c: nat)
    ensures Alone(s, c, 5) == Exec(Alone(s, c, 4), Advance(c))
    ensures Alone(s, c, 7) == Exec(Exec(Alone(s, c, 5), Advance(c)), Advance(c))
  {
    AloneOneMore(s, c, 4);
    AloneOneMore(s, c, 5);
    AloneOneMore(s, c, 6);
  }

  /** How many steps the call takes from its entry when nobody interferes. */
  function StepsAlone(s: State): (n: nat) {
    if s.item.None? then 2
    else if !IsExpired(s.item.value, s.clock) then 4
    else if s.item.value.version.Some? then 5 else 7
  }

  predicate ExpiredWithoutVersion(s: State) {
    s.item.Some? && IsExpired(s.item.value, s.clock) && s.item.value.version.None?
  }

  /** The call has answered, and answer and item are those of the atomic step taken in the state `s`. */
  predicate AsTheAtomicStep(s: State, c: nat, r: State)
    requires c in s.calls
  {
    && c in r.calls && r.calls[c].pc.Done?
    && (RowOf(r.item), Answer(r.calls[c].pc)) == AtomicStep(s, c, ResolveExpiry(s.calls[c].opts, s.clock))
    && (!r.calls[c].pc.applied ==> r.item == s.item)
  }

  lemma AloneBeforeTakeover(s: State, c: nat)
    requires c in s.calls && s.calls[c].pc.Entered?
    ensures s.item.None? ==> AsTheAtomicStep(s, c, Alone(s, c, 2))
    ensures s.item.Some? && !IsExpired(s.item.value, s.clock) ==> AsTheAtomicStep(s, c, Alone(s, c, 4))
    ensures s.item.Some? && IsExpired(s.item.value, s.clock) ==>
              var r := Alone(s, c, 4);
              && r.item == s.item && r.clock == s.clock && c in r.calls && r.calls[c].value == s.calls[c].value
              && r.calls[c].pc == TakingOver(ResolveExpiry(s.calls[c].opts, s.clock), s.item.value, s.resets)
  {
    FourRequests(s, c);
  }

  lemma AloneFromTakeover(s: State, c: nat)
    requires c in s.calls && s.calls[c].pc.Entered? && s.item.Some? && IsExpired(s.item.value, s.clock)
    ensures s.item.value.version.Some? ==> AsTheAtomicStep(s, c, Alone(s, c, 5))
    ensures s.item.value.version.None? ==>
              var r := Alone(s, c, 7);
              c in r.calls && r.calls[c].pc == Done(false, None) && r.item == s.item
  {
    AloneBeforeTakeover(s, c);
    LastRequests(s, c);
  }

  lemma NoRecordIsNotAtomic(s: State, c: nat, r: State)
    requires c in s.calls && c in r.calls && r.calls[c].pc == Done(false, None)
    ensures !AsTheAtomicStep(s, c, r)
  {
  }

  /** From its entry, in any state, a call left alone answers within seven steps: as the atomic step does, with the
      item the atomic step leaves, exactly when it does not meet an expired item without a version. */
  lemma AloneIsAtomicExactlyWhen(s: State, c: nat)
    requires c in s.calls && s.calls[c].pc.Entered?
    ensures var r := Alone(s, c, StepsAlone(s));
            && StepsAlone(s) <= 7 && (!ExpiredWithoutVersion(s) ==> StepsAlone(s) <= 5)
            && c in r.calls && r.calls[c].pc.Done?
            && (AsTheAtomicStep(s, c, r) <==> !ExpiredWithoutVersion(s))
            && (ExpiredWithoutVersion(s) ==> Answer(r.calls[c].pc) == Cas(false, None) && r.item == s.item)
  {
    AloneBeforeTakeover(s, c);
    if s.item.Some? && IsExpired(s.item.value, s.clock) {
      AloneFromTakeover(s, c);
    }
    if ExpiredWithoutVersion(s) {
      NoRecordIsNotAtomic(s, c, Alone(s, c, 7));
    }
  }

  /** A live item from before versions were introduced is answered as a record of version zero. */
  lemma UnversionedReadsAsZero(s: State, c: nat)
    requires c in s.calls && s.calls[c].pc.Entered?
    requires s.item.Some? && s.item.value.version.None? && !IsExpired(s.item.value, s.clock)
    ensures var r := Alone(s, c, 4);
            && c in r.calls && r.calls[c].pc.Done? && r.item == s.item
            && Answer(r.calls[c].pc) == Cas(false, Some(Record(s.item.value.value, 0, s.item.value.ttl)))
  {
    AloneBeforeTakeover(s, c);
  }

  // ---- beside any others --------------------------------------------------------------------------------

  /** An upper bound on the steps still to come while no read finds the item gone. */
  function Rank(pc: Pc): (n: nat) {
    match pc
    case Entered => 7
    case Creating(_) => 6
    case Reading(_) => 5
    case Judging(_, _, _) => 4
    case TakingOver(_, _, _) => 3
    case Beaten => 2
    case JudgingWinner(_) => 1
    case Done(_, _) => 0
  }

  /** The step is a read that finds the item gone, after which the create is tried again. */
  predicate FindsItGone(s: State, c: nat) {
    c in s.calls && s.calls[c].pc.Reading? && s.item.None?
  }

  /** Then the call starts over, its expiry resolved anew: left alone it creates the item as the atomic step would
      now. */
  lemma FoundGoneStartsOver(s: State, c: nat)
    requires FindsItGone(s, c)
    ensures AsTheAtomicStep(s, c, Alone(s, c, 3))
  {
    AloneOneMore(s, c, 0);
    AloneOneMore(s, c, 1);
    AloneOneMore(s, c, 2);
  }

  /** Every step of an unfinished call brings it nearer to its answer, a read that finds the item gone excepted; no
      other event moves it. */
  lemma StepLowersRank(s: State, e: Event, c: nat)
    requires c in s.calls
    ensures c in Exec(s, e).calls
    ensures e != Advance(c) ==> Exec(s, e).calls[c] == s.calls[c]
    ensures e == Advance(c) && !s.calls[c].pc.Done? ==>
              (Rank(Exec(s, e).calls[c].pc) < Rank(s.calls[c].pc) <==> !FindsItGone(s, c))
    ensures Rank(s.calls[c].pc) == 0 <==> s.calls[c].pc.Done?
  {
  }

  /** How often the call was given a step. */
  function Steps(s: State, events: seq<Event>, c: nat): (n: nat) {
    if events == [] then 0
    else
      var before := events[..|events| - 1];
      Steps(s, before, c) + if events[|events| - 1] == Advance(c) && c in Run(s, before).calls then 1 else 0
  }

  /** How often an item that stood was removed. */
  function Removals(s: State, events: seq<Event>): (n: nat) {
    if events == [] then 0
    else
      var before := events[..|events| - 1];
      Removals(s, before) + if events[|events| - 1].Remove? && Run(s, before).item.Some? then 1 else 0
  }

  /** The steps taken and those still to come are bounded by the removals: each costs the call at most three more. */
  predicate Nearing(s: State, c: nat, steps: nat, removals: nat) {
    if c !in s.calls then steps == 0
    else s.calls[c].pc.Done? || steps + Rank(s.calls[c].pc) + (if FindsItGone(s, c) then 3 else 0) <= 7 + 3 * removals
  }

  lemma StepKeepsNearing(s: State, e: Event, c: nat, steps: nat, removals: nat)
    requires Nearing(s, c, steps, removals)
    ensures Nearing(Exec(s, e), c, steps + if e == Advance(c) && c in s.calls then 1 else 0,
                    removals + if e.Remove? && s.item.Some? then 1 else 0)
  {
  }

  lemma {:induction false} RunIsNearing(clock: int, item: Option<Item>, events: seq<Event>, c: nat)
    ensures var s := Start(clock, item);
            Nearing(Run(s, events), c, Steps(s, events, c), Removals(s, events))
  {
    if events != [] {
      var before, e := events[..|events| - 1], events[|events| - 1];
      var s := Start(clock, item);
      RunIsNearing(clock, item, before, c);
      StepKeepsNearing(Run(s, before), e, c, Steps(s, before, c), Removals(s, before));
    }
  }

  /** Every interleaving: a call that has been given seven steps, and three more for each time the item was removed,
      has answered. */
  lemma EveryCallAnswers(clock: int, item: Option<Item>, events: seq<Event>, c: nat)
    requires c in Run(Start(clock, item), events).calls
    requires Steps(Start(clock, item), events, c) >= 7 + 3 * Removals(Start(clock, item), events)
    ensures Run(Start(clock, item), events).calls[c].pc.Done?
  {
    RunIsNearing(clock, item, events, c);
  }
}
