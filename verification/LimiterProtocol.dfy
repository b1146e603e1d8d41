/** The stored limiters (Postgres and DynamoDB alike): read the clock, read the row, write it back
    guarded by the refill time that was read; at most three attempts, then answer unguarded.
    Any number of calls on one bucket interleave between these steps, each with its own clock; a read may
    return any row that stood earlier, since DynamoDB's is not a consistent one. */
module LimiterProtocol {
  import opened Options
  import opened TokenBucket

  const MAX_RETRIES := 3

  datatype Pc =
    | Ready(attempt: nat)
    | Clocked(attempt: nat, now: int)
    | Seen(attempt: nat, now: int, state: Option<Bucket>)
    | Done(result: Result)

  /** `writes` counts the guarded writes the call has sent. */
  datatype Call = Call(cost: real, pc: Pc, writes: nat)

  /** What a call was told, and whether its write went through or it failed open. */
  datatype Answer = Answer(call: nat, seen: Option<Bucket>, now: int, cost: real, result: Result, committed: bool)

  /** `past` holds the rows replaced so far, oldest first. */
  datatype State = State(row: Option<Bucket>, past: seq<Option<Bucket>>, calls: map<nat, Call>, answers: seq<Answer>)

  datatype Event =
    | Begin(call: nat, cost: real)
    | ReadClock(call: nat, reading: int)
    | ReadRow(call: nat, version: nat)        // which of the rows that ever stood; past the last, the current one
    | WriteRow(call: nat)
    | WriteError(call: nat, retryable: bool)  // the backend refuses without looking at the guard

  function Start(row: Option<Bucket>): State {
    State(row, [], map[], [])
  }

  function RowRead(s: State, version: nat): Option<Bucket> {
    if version < |s.past| then s.past[version] else s.row
  }

  function Moved(s: State, c: nat, pc: Pc): State
    requires c in s.calls
  {
    s.(calls := s.calls[c := s.calls[c].(pc := pc)])
  }

  /** The conditional write: insert if nothing was there, else match the refill time that was read. */
  predicate GuardHolds(row: Option<Bucket>, seen: Option<Bucket>) {
    if seen.None? then row.None? else row.Some? && row.value.lastRefillMs == seen.value.lastRefillMs
  }

  function Finish(s: State, c: nat, committed: bool, cfg: Config): (r: State)
    requires cfg.Valid() && c in s.calls && s.calls[c].pc.Seen?
  {
    var Seen(_, now, seen) := s.calls[c].pc;
    var (b, result) := Consume(seen, now, s.calls[c].cost, cfg);
    var told := s.(calls := s.calls[c := Call(s.calls[c].cost, Done(result), s.calls[c].writes + 1)],
                   answers := s.answers + [Answer(c, seen, now, s.calls[c].cost, result, committed)]);
    if committed then told.(row := Some(b), past := s.past + [s.row]) else told
  }

  /** A lost race or a retryable error: try again, or after the last attempt answer what was computed. */
  function Refused(s: State, c: nat, retryable: bool, cfg: Config): (r: State)
    requires cfg.Valid() && c in s.calls && s.calls[c].pc.Seen?
  {
    var attempt := s.calls[c].pc.attempt;
    if retryable && attempt < MAX_RETRIES - 1
    then s.(calls := s.calls[c := Call(s.calls[c].cost, Ready(attempt + 1), s.calls[c].writes + 1)])
    else Finish(s, c, false, cfg)
  }

  function Exec(s: State, e: Event, cfg: Config): (r: State)
    requires cfg.Valid()
  {
    match e
    case Begin(c, cost) => if c in s.calls then s else s.(calls := s.calls[c := Call(cost, Ready(0), 0)])
    case ReadClock(c, reading) =>
      if c in s.calls && s.calls[c].pc.Ready? then Moved(s, c, Clocked(s.calls[c].pc.attempt, reading)) else s
    case ReadRow(c, version) =>
      if c in s.calls && s.calls[c].pc.Clocked?
      then Moved(s, c, Seen(s.calls[c].pc.attempt, s.calls[c].pc.now, RowRead(s, version))) else s
    case WriteRow(c) =>
      if c in s.calls && s.calls[c].pc.Seen? then
        if GuardHolds(s.row, s.calls[c].pc.state) then Finish(s, c, true, cfg) else Refused(s, c, true, cfg)
      else s
    case WriteError(c, retryable) =>
      if c in s.calls && s.calls[c].pc.Seen? then Refused(s, c, retryable, cfg) else s
  }

  function Run(s: State, events: seq<Event>, cfg: Config): (r: State)
    requires cfg.Valid()
  {
    if events == [] then s else Exec(Run(s, events[..|events| - 1], cfg), events[|events| - 1], cfg)
  }

  /** A read may return the current row or any row that stood before; every committed write adds to those. */
  lemma AnyEarlierRowMayBeRead(s: State, c: nat, version: nat, cfg: Config)
    requires cfg.Valid() && c in s.calls && s.calls[c].pc.Clocked? && version <= |s.past|
    ensures var r := Exec(s, ReadRow(c, version), cfg);
            && c in r.calls && r.calls[c].pc.Seen? && r.calls[c].pc.now == s.calls[c].pc.now
            && r.calls[c].pc.state == (s.past + [s.row])[version]
    ensures forall d | d in s.calls && s.calls[d].pc.Seen? && GuardHolds(s.row, s.calls[d].pc.state) ::
              Exec(s, WriteRow(d), cfg).past == s.past + [s.row]
  {
  }

  // ---- committed writes form a sequential run ---------------------------------------------------------

  /** The committed answers, in commit order. */
  function Commits(answers: seq<Answer>): (commits: seq<Answer>) {
    if answers == [] then []
    else
      var last := answers[|answers| - 1];
      Commits(answers[..|answers| - 1]) + if last.committed then [last] else []
  }

  function Requests(commits: seq<Answer>): (rs: seq<Request>)
    ensures |rs| == |commits|
    ensures forall i | 0 <= i < |rs| :: rs[i] == Request(commits[i].now, commits[i].cost)
  {
    seq(|commits|, i requires 0 <= i < |commits| => Request(commits[i].now, commits[i].cost))
  }

  /** Each committing attempt read a clock strictly later than the refill time it read. */
  predicate StrictlyLater(commits: seq<Answer>) {
    forall i | 0 <= i < |commits| :: commits[i].seen.Some? ==> commits[i].now > commits[i].seen.value.lastRefillMs
  }

  predicate NeverEarlier(commits: seq<Answer>) {
    forall i | 0 <= i < |commits| :: commits[i].seen.Some? ==> commits[i].now >= commits[i].seen.value.lastRefillMs
  }

  /** The call has read a row of this refill time and not yet written. */
  predicate Holds(pc: Pc, refillMs: int) {
    pc.Seen? && pc.state.Some? && pc.state.value.lastRefillMs == refillMs
  }

  predicate HeldByAnother(s: State, c: nat, refillMs: int) {
    exists d :: d in s.calls && d != c && Holds(s.calls[d].pc, refillMs)
  }

  /** A write that passes its guard comes strictly later than the refill time, or in the same millisecond while no
      other call holds a row of that time; a stale read does not return a row of the current refill time. */
  predicate InOrder(s: State, e: Event) {
    match e
    case ReadRow(_, version) =>
      var read := RowRead(s, version);
      read.Some? && s.row.Some? && read.value.lastRefillMs == s.row.value.lastRefillMs ==> read == s.row
    case WriteRow(c) =>
      c in s.calls && s.calls[c].pc.Seen? && s.calls[c].pc.state.Some? && GuardHolds(s.row, s.calls[c].pc.state) ==>
        var refillMs, now := s.calls[c].pc.state.value.lastRefillMs, s.calls[c].pc.now;
        now > refillMs || (now == refillMs && !HeldByAnother(s, c, refillMs))
    case _ => true
  }

  /** Every step of the run is in order. */
  predicate Orderly(s: State, events: seq<Event>, cfg: Config)
    requires cfg.Valid()
  {
    events != [] ==>
      var before := events[..|events| - 1];
      Orderly(s, before, cfg) && InOrder(Run(s, before, cfg), events[|events| - 1])
  }

  /** Commit by commit, what was read is what the commits before it left, and what was answered is
      what the plain sequential limiter answers there. */
  predicate Sequential(start: Option<Bucket>, commits: seq<Answer>, row: Option<Bucket>, cfg: Config)
    requires cfg.Valid()
  {
    && row == StateAfter(start, Requests(commits), cfg)
    && forall i | 0 <= i < |commits| ::
         var before := StateAfter(start, Requests(commits)[..i], cfg);
         commits[i].seen == before && commits[i].result == Consume(before, commits[i].now, commits[i].cost, cfg).1
  }

  /** A call that has read a row holds the current one, unless the refill time has moved on. */
  predicate HoldsCurrent(row: Option<Bucket>, pc: Pc) {
    pc.Seen? && pc.state.Some? ==>
      row.Some? && (row == pc.state || row.value.lastRefillMs > pc.state.value.lastRefillMs)
  }

  predicate NotAfter(past: Option<Bucket>, row: Option<Bucket>) {
    past.Some? ==> row.Some? && past.value.lastRefillMs <= row.value.lastRefillMs
  }

  predicate AllHoldCurrent(s: State) {
    && (forall c | c in s.calls :: HoldsCurrent(s.row, s.calls[c].pc))
    && (forall k | 0 <= k < |s.past| :: NotAfter(s.past[k], s.row))
  }

  lemma StateAfterOneMore(start: Option<Bucket>, rs: seq<Request>, r: Request, cfg: Config)
    requires cfg.Valid()
    ensures StateAfter(start, rs + [r], cfg) == Some(Consume(StateAfter(start, rs, cfg), r.now, r.cost, cfg).0)
  {
    RunSplits(start, rs + [r], |rs|, cfg);
    assert (rs + [r])[..|rs|] == rs && (rs + [r])[|rs|..] == [r];
    assert [r][1..] == [];
  }

  lemma CommitKeepsSequential(start: Option<Bucket>, commits: seq<Answer>, row: Option<Bucket>, a: Answer, cfg: Config)
    requires cfg.Valid() && Sequential(start, commits, row, cfg)
    requires a.seen == row && a.result == Consume(row, a.now, a.cost, cfg).1
    ensures Sequential(start, commits + [a], Some(Consume(row, a.now, a.cost, cfg).0), cfg)
  {
    var r := Request(a.now, a.cost);
    assert Requests(commits + [a]) == Requests(commits) + [r];
    StateAfterOneMore(start, Requests(commits), r, cfg);
    forall i | 0 <= i <= |commits| ensures Requests(commits + [a])[..i] == Requests(commits)[..i] {
    }
    assert Requests(commits)[..|commits|] == Requests(commits);
  }

  lemma CommitsOneMore(answers: seq<Answer>, a: Answer)
    ensures Commits(answers + [a]) == Commits(answers) + if a.committed then [a] else []
  {
    assert (answers + [a])[..|answers|] == answers;
  }

  /** An event leaves row and answers alone, or adds one answer; only a committed one moves the
      row, from the row that passed its guard. */
  lemma ExecShape(s: State, e: Event, cfg: Config) returns (a: Option<Answer>)
    requires cfg.Valid()
    ensures var r := Exec(s, e, cfg);
            match a
            case None => r.answers == s.answers && r.row == s.row && r.past == s.past
            case Some(x) =>
              && r.answers == s.answers + [x]
              && x.call in s.calls && s.calls[x.call].pc.Seen? && s.calls[x.call].pc.state == x.seen
              && s.calls[x.call].cost == x.cost
              && x.result == Consume(x.seen, x.now, x.cost, cfg).1
              && s.calls[x.call].pc.now == x.now && r.calls == s.calls[x.call := r.calls[x.call]]
              && r.calls[x.call].pc.Done?
              && (x.committed ==> e == WriteRow(x.call) && GuardHolds(s.row, x.seen) && r.past == s.past + [s.row])
              && (x.committed ==> r.row == Some(Consume(x.seen, x.now, x.cost, cfg).0))
              && (!x.committed ==> r.row == s.row && r.past == s.past)
  {
    var r := Exec(s, e, cfg);
    a := if |r.answers| > |s.answers| then Some(r.answers[|s.answers|]) else None;
  }

  lemma CommitKeepsHolding(s: State, c: nat, cfg: Config)
    requires cfg.Valid() && AllHoldCurrent(s) && InOrder(s, WriteRow(c))
    requires c in s.calls && s.calls[c].pc.Seen? && GuardHolds(s.row, s.calls[c].pc.state)
    ensures s.calls[c].pc.state == s.row
    ensures AllHoldCurrent(Finish(s, c, true, cfg))
  {
    var r := Finish(s, c, true, cfg);
    assert HoldsCurrent(s.row, s.calls[c].pc);
    assert r.row.value.lastRefillMs == s.calls[c].pc.now;
    forall d | d in r.calls ensures HoldsCurrent(r.row, r.calls[d].pc) {
      if d != c {
        assert HoldsCurrent(s.row, s.calls[d].pc);
      }
    }
    forall k | 0 <= k < |r.past| ensures NotAfter(r.past[k], r.row) {
      if k < |s.past| {
        assert NotAfter(s.past[k], s.row);
      }
    }
  }

  lemma StepKeepsHolding(s: State, c: nat, call: Call)
    requires AllHoldCurrent(s) && HoldsCurrent(s.row, call.pc)
    ensures AllHoldCurrent(s.(calls := s.calls[c := call]))
  {
    var r := s.(calls := s.calls[c := call]);
    forall d | d in r.calls ensures HoldsCurrent(r.row, r.calls[d].pc) {
      if d != c {
        assert HoldsCurrent(s.row, s.calls[d].pc);
      }
    }
  }

  lemma ReadKeepsHolding(s: State, version: nat)
    requires AllHoldCurrent(s)
    ensures NotAfter(RowRead(s, version), s.row)
  {
  }

  lemma ExecKeepsHolding(s: State, e: Event, cfg: Config)
    requires cfg.Valid() && AllHoldCurrent(s) && InOrder(s, e)
    ensures AllHoldCurrent(Exec(s, e, cfg))
  {
    var r := Exec(s, e, cfg);
    if e.ReadRow? {
      ReadKeepsHolding(s, e.version);
    }
    if r != s && r.row == s.row && r.past == s.past {
      StepKeepsHolding(s, e.call, r.calls[e.call]);
    } else if r != s {
      CommitKeepsHolding(s, e.call, cfg);
    }
  }

  lemma ExecKeepsSequential(start: Option<Bucket>, s: State, e: Event, cfg: Config)
    requires cfg.Valid() && AllHoldCurrent(s) && InOrder(s, e)
    requires Sequential(start, Commits(s.answers), s.row, cfg)
    ensures AllHoldCurrent(Exec(s, e, cfg))
    ensures Sequential(start, Commits(Exec(s, e, cfg).answers), Exec(s, e, cfg).row, cfg)
  {
    var a := ExecShape(s, e, cfg);
    if a.Some? {
      CommitsOneMore(s.answers, a.value);
      if a.value.committed {
        CommitKeepsHolding(s, a.value.call, cfg);
        CommitKeepsSequential(start, Commits(s.answers), s.row, a.value, cfg);
      } else {
        assert Commits(s.answers) + [] == Commits(s.answers);
      }
    }
    ExecKeepsHolding(s, e, cfg);
  }

  lemma SequentialPrefix(start: Option<Bucket>, commits: seq<Answer>, row: Option<Bucket>, cfg: Config)
    requires cfg.Valid() && Sequential(start, commits, row, cfg) && commits != []
    ensures var before, last := commits[..|commits| - 1], commits[|commits| - 1];
            var mid := StateAfter(start, Requests(before), cfg);
            && Sequential(start, before, mid, cfg)
            && Requests(commits) == Requests(before) + [Request(last.now, last.cost)]
            && last.seen == mid && last.result == Consume(mid, last.now, last.cost, cfg).1
            && row == Some(Consume(mid, last.now, last.cost, cfg).0)
  {
    var before, last := commits[..|commits| - 1], commits[|commits| - 1];
    assert Requests(before) == Requests(commits)[..|before|];
    forall i | 0 <= i < |before| ensures Requests(before)[..i] == Requests(commits)[..i] {
    }
    assert Requests(commits) == Requests(before) + [Request(last.now, last.cost)];
    StateAfterOneMore(start, Requests(before), Request(last.now, last.cost), cfg);
  }

  lemma AnswersGrow(s: State, e: Event, cfg: Config)
    requires cfg.Valid() && StrictlyLater(Commits(Exec(s, e, cfg).answers))
    ensures StrictlyLater(Commits(s.answers))
  {
    var r := Exec(s, e, cfg);
    if r.answers != s.answers {
      CommitsOneMore(s.answers, r.answers[|r.answers| - 1]);
      assert Commits(s.answers) == Commits(r.answers)[..|Commits(s.answers)|];
    }
  }

  /** Every orderly interleaving of any number of calls without reset: the committed writes are one sequential
      run of the plain limiter. */
  lemma {:induction false} CommittedWritesAreSequential(start: Option<Bucket>, events: seq<Event>, cfg: Config)
    requires cfg.Valid() && Orderly(Start(start), events, cfg)
    ensures var s := Run(Start(start), events, cfg);
            Sequential(start, Commits(s.answers), s.row, cfg) && AllHoldCurrent(s)
  {
    if events != [] {
      var before := events[..|events| - 1];
      CommittedWritesAreSequential(start, before, cfg);
      ExecKeepsSequential(start, Run(Start(start), before, cfg), events[|events| - 1], cfg);
    }
  }

  /** Every row replaced so far has an earlier refill time than the one that stands. */
  predicate PastOlder(s: State) {
    forall k | 0 <= k < |s.past| && s.past[k].Some? ::
      s.row.Some? && s.past[k].value.lastRefillMs < s.row.value.lastRefillMs
  }

  /** Without two commits in one millisecond every run is orderly, however stale its reads. */
  lemma {:induction false} StrictlyLaterIsOrderly(start: Option<Bucket>, events: seq<Event>, cfg: Config)
    requires cfg.Valid() && StrictlyLater(Commits(Run(Start(start), events, cfg).answers))
    ensures Orderly(Start(start), events, cfg) && PastOlder(Run(Start(start), events, cfg))
  {
    if events != [] {
      var before, e := events[..|events| - 1], events[|events| - 1];
      var s := Run(Start(start), before, cfg);
      AnswersGrow(s, e, cfg);
      StrictlyLaterIsOrderly(start, before, cfg);
      StrictlyLaterStep(s, e, cfg);
    }
  }

  lemma StrictlyLaterStep(s: State, e: Event, cfg: Config)
    requires cfg.Valid() && PastOlder(s) && StrictlyLater(Commits(Exec(s, e, cfg).answers))
    ensures InOrder(s, e) && PastOlder(Exec(s, e, cfg))
  {
    var a := ExecShape(s, e, cfg);
    if a.Some? && a.value.committed {
      CommitsOneMore(s.answers, a.value);
      assert Commits(Exec(s, e, cfg).answers)[|Commits(s.answers)|] == a.value;
    }
  }

  /** In an orderly run no commit's clock reading is before the refill time it read. */
  lemma {:induction false} OrderlyIsNeverEarlier(start: Option<Bucket>, events: seq<Event>, cfg: Config)
    requires cfg.Valid() && Orderly(Start(start), events, cfg)
    ensures NeverEarlier(Commits(Run(Start(start), events, cfg).answers))
  {
    if events != [] {
      var before, e := events[..|events| - 1], events[|events| - 1];
      var s := Run(Start(start), before, cfg);
      OrderlyIsNeverEarlier(start, before, cfg);
      var a := InOrderIsNotEarlier(s, e, cfg);
      OneMoreNeverEarlier(s.answers, Exec(s, e, cfg).answers, a);
    }
  }

  predicate NotEarlier(a: Answer) {
    a.committed && a.seen.Some? ==> a.now >= a.seen.value.lastRefillMs
  }

  lemma InOrderIsNotEarlier(s: State, e: Event, cfg: Config) returns (a: Option<Answer>)
    requires cfg.Valid() && InOrder(s, e)
    ensures Exec(s, e, cfg).answers == if a.Some? then s.answers + [a.value] else s.answers
    ensures a.Some? ==> NotEarlier(a.value)
  {
    a := ExecShape(s, e, cfg);
  }

  lemma OneMoreNeverEarlier(before: seq<Answer>, after: seq<Answer>, a: Option<Answer>)
    requires NeverEarlier(Commits(before)) && after == if a.Some? then before + [a.value] else before
    requires a.Some? ==> NotEarlier(a.value)
    ensures NeverEarlier(Commits(after))
  {
    if a.Some? {
      CommitsOneMore(before, a.value);
    }
  }

  // ---- one answer per call, within three attempts -----------------------------------------------------

  predicate Bounded(s: State) {
    && (forall c | c in s.calls ::
          var pc := s.calls[c].pc;
          if pc.Done? then 1 <= s.calls[c].writes <= MAX_RETRIES
          else s.calls[c].writes == pc.attempt < MAX_RETRIES)
    && (forall i | 0 <= i < |s.answers| ::
          s.answers[i].call in s.calls && s.calls[s.answers[i].call].pc == Done(s.answers[i].result))
    && (forall i, j | 0 <= i < j < |s.answers| :: s.answers[i].call != s.answers[j].call)
  }

  lemma ExecKeepsBounded(s: State, e: Event, cfg: Config)
    requires cfg.Valid() && Bounded(s)
    ensures Bounded(Exec(s, e, cfg))
  {
  }

  /** No call sends more than three guarded writes or is answered, let alone committed, twice. */
  lemma {:induction false} AnsweredOnceWithinThreeAttempts(start: Option<Bucket>, events: seq<Event>, cfg: Config)
    requires cfg.Valid()
    ensures Bounded(Run(Start(start), events, cfg))
  {
    if events != [] {
      var before := events[..|events| - 1];
      AnsweredOnceWithinThreeAttempts(start, before, cfg);
      ExecKeepsBounded(Run(Start(start), before, cfg), events[|events| - 1], cfg);
    }
  }

  // ---- when a call answers unguarded ----------------------------------------------------------------------

  /** The call's guarded write is refused: a lost race, or an error of the backend. */
  predicate WriteFails(s: State, c: nat, e: Event) {
    && c in s.calls && s.calls[c].pc.Seen?
    && ((e == WriteRow(c) && !GuardHolds(s.row, s.calls[c].pc.state)) || (e.WriteError? && e.call == c))
  }

  /** A refused write is answered at once, unguarded, exactly when it was the third one or the error is one that is
      not retried; otherwise the call starts over from its clock, and nothing has been answered. */
  lemma FailsOpenExactlyWhen(s: State, c: nat, e: Event, cfg: Config)
    requires cfg.Valid() && Bounded(s) && WriteFails(s, c, e)
    ensures var r := Exec(s, e, cfg);
            && c in r.calls && r.calls[c].writes == s.calls[c].writes + 1 && r.row == s.row
            && (|r.answers| == |s.answers| + 1 <==> s.calls[c].writes + 1 == 3 || e == WriteError(c, false))
            && (|r.answers| == |s.answers| + 1 <==> r.calls[c].pc.Done?)
            && (!r.calls[c].pc.Done? ==> r.calls[c].pc.Ready? && r.answers == s.answers)
            && (r.calls[c].pc.Done? ==>
                  r.answers[|s.answers|].call == c && !r.answers[|s.answers|].committed
                  && r.calls[c].pc == Done(Consume(s.calls[c].pc.state, s.calls[c].pc.now, s.calls[c].cost, cfg).1))
  {
  }

  /** While it waited for its write, the call met an error that is not retried. */
  ghost predicate MetFatalError(start: Option<Bucket>, events: seq<Event>, c: nat, cfg: Config)
    requires cfg.Valid()
  {
    exists k :: 0 <= k < |events| && events[k] == WriteError(c, false) && SeenAt(start, events, k, c, cfg)
  }

  predicate SeenAt(start: Option<Bucket>, events: seq<Event>, k: nat, c: nat, cfg: Config)
    requires cfg.Valid() && k < |events|
  {
    var s := Run(Start(start), events[..k], cfg);
    c in s.calls && s.calls[c].pc.Seen?
  }

  lemma MetFatalErrorLater(start: Option<Bucket>, events: seq<Event>, e: Event, c: nat, cfg: Config)
    requires cfg.Valid() && MetFatalError(start, events, c, cfg)
    ensures MetFatalError(start, events + [e], c, cfg)
  {
    var k :| 0 <= k < |events| && events[k] == WriteError(c, false) && SeenAt(start, events, k, c, cfg);
    assert (events + [e])[..k] == events[..k] && (events + [e])[k] == events[k];
    assert SeenAt(start, events + [e], k, c, cfg);
  }

  predicate FailedOpenAfterThree(s: State, a: Answer) {
    !a.committed && a.call in s.calls && s.calls[a.call].writes == 3
  }

  ghost predicate OpenAnswersEarned(start: Option<Bucket>, events: seq<Event>, cfg: Config)
    requires cfg.Valid()
  {
    var s := Run(Start(start), events, cfg);
    forall i | 0 <= i < |s.answers| && !s.answers[i].committed ::
      FailedOpenAfterThree(s, s.answers[i]) || MetFatalError(start, events, s.answers[i].call, cfg)
  }

  /** The new answer of a step, if it is an unguarded one. */
  lemma NewOpenAnswer(s: State, e: Event, cfg: Config)
    requires cfg.Valid() && Bounded(s)
    ensures var r := Exec(s, e, cfg);
            && |s.answers| <= |r.answers| <= |s.answers| + 1 && r.answers[..|s.answers|] == s.answers
            && (|r.answers| > |s.answers| && !r.answers[|s.answers|].committed ==>
                  var c := r.answers[|s.answers|].call;
                  && c in s.calls && s.calls[c].pc.Seen?
                  && (e == WriteError(c, false) || (c in r.calls && r.calls[c].writes == 3)))
            && (forall c | c in s.calls && s.calls[c].pc.Done? :: c in r.calls && r.calls[c] == s.calls[c])
  {
    var _ := ExecShape(s, e, cfg);
  }

  lemma ExecKeepsOpenAnswersEarned(start: Option<Bucket>, events: seq<Event>, e: Event, cfg: Config)
    requires cfg.Valid() && OpenAnswersEarned(start, events, cfg) && Bounded(Run(Start(start), events, cfg))
    ensures OpenAnswersEarned(start, events + [e], cfg)
  {
    var s, longer := Run(Start(start), events, cfg), events + [e];
    assert longer[..|events|] == events;
    var r := Exec(s, e, cfg);
    NewOpenAnswer(s, e, cfg);
    forall i | 0 <= i < |r.answers| && !r.answers[i].committed
      ensures FailedOpenAfterThree(r, r.answers[i]) || MetFatalError(start, longer, r.answers[i].call, cfg)
    {
      if i < |s.answers| {
        assert r.answers[i] == r.answers[..|s.answers|][i] == s.answers[i];
        if MetFatalError(start, events, s.answers[i].call, cfg) {
          MetFatalErrorLater(start, events, e, s.answers[i].call, cfg);
        }
      } else if e == WriteError(r.answers[i].call, false) {
        assert SeenAt(start, longer, |events|, r.answers[i].call, cfg);
      }
    }
  }

  /** Every run: a call is answered unguarded only after exactly three guarded writes, or after an error that is not
      retried. */
  lemma {:induction false} OpenOnlyAfterThreeWritesOrFatalError(start: Option<Bucket>, events: seq<Event>, cfg: Config)
    requires cfg.Valid()
    ensures OpenAnswersEarned(start, events, cfg)
  {
    if events != [] {
      var before := events[..|events| - 1];
      OpenOnlyAfterThreeWritesOrFatalError(start, before, cfg);
      AnsweredOnceWithinThreeAttempts(start, before, cfg);
      ExecKeepsOpenAnswersEarned(start, before, events[|events| - 1], cfg);
      assert before + [events[|events| - 1]] == events;
    }
  }

  // ---- alone ----------------------------------------------------------------------------------------------

  /** A call that reads the current row with nothing in between answers, commits and leaves what the plain limiter
      answers and leaves there. */
  lemma AloneIsPlainLimiter(s: State, c: nat, reading: int, version: nat, cfg: Config)
    requires cfg.Valid() && c in s.calls && s.calls[c].pc.Ready? && version >= |s.past|
    ensures var r := Exec(Exec(Exec(s, ReadClock(c, reading), cfg), ReadRow(c, version), cfg), WriteRow(c), cfg);
            var (b, result) := Consume(s.row, reading, s.calls[c].cost, cfg);
            && r.row == Some(b) && c in r.calls && r.calls[c].pc == Done(result)
            && r.answers == s.answers + [Answer(c, s.row, reading, s.calls[c].cost, result, true)]
  {
  }

  // ---- what all calls together are allowed --------------------------------------------------------------

  predicate InWindow(now: int, from: int, to: int) {
    from <= now <= to
  }

  /** Cost of the answers that allowed, clock readings within the window. */
  function Spent(answers: seq<Answer>, from: int, to: int): (total: real) {
    if answers == [] then 0.0
    else
      var last := answers[|answers| - 1];
      Spent(answers[..|answers| - 1], from, to) + if last.result.allowed && InWindow(last.now, from, to) then
          last.cost else 0.0
  }

  function FailedOpen(answers: seq<Answer>): (open: seq<Answer>) {
    if answers == [] then []
    else
      var last := answers[|answers| - 1];
      FailedOpen(answers[..|answers| - 1]) + if last.committed then [] else [last]
  }

  lemma SpentOneMore(answers: seq<Answer>, a: Answer, from: int, to: int)
    ensures Spent(answers + [a], from, to)
         == Spent(answers, from, to) + if a.result.allowed && InWindow(a.now, from, to) then a.cost else 0.0
  {
    assert (answers + [a])[..|answers|] == answers;
  }

  lemma {:induction false} SpentIsCommittedPlusOpen(answers: seq<Answer>, from: int, to: int)
    ensures Spent(answers, from, to) == Spent(Commits(answers), from, to) + Spent(FailedOpen(answers), from, to)
  {
    if answers != [] {
      var before, last := answers[..|answers| - 1], answers[|answers| - 1];
      SpentIsCommittedPlusOpen(before, from, to);
      SpentOneMore(Commits(before), last, from, to);
      SpentOneMore(FailedOpen(before), last, from, to);
      assert Commits(before) + [] == Commits(before) && FailedOpen(before) + [] == FailedOpen(before);
    }
  }

  /** The same sum over a plain sequential run. */
  function SpentIn(state: Option<Bucket>, rs: seq<Request>, from: int, to: int, cfg: Config): (total: real)
    requires cfg.Valid()
    decreases |rs|
  {
    if rs == [] then 0.0
    else
      var (b, r) := Consume(state, rs[0].now, rs[0].cost, cfg);
      (if r.allowed && InWindow(rs[0].now, from, to) then rs[0].cost
          else 0.0) + SpentIn(Some(b), rs[1..], from, to, cfg)
  }

  lemma {:induction false} SpentInOneMore(state: Option<Bucket>, rs: seq<Request>, r: Request, from: int, to: int,
      cfg: Config)
    requires cfg.Valid()
    ensures SpentIn(state, rs + [r], from, to, cfg)
         == SpentIn(state, rs, from, to, cfg)
            + if Consume(StateAfter(state, rs, cfg), r.now, r.cost, cfg).1.allowed && InWindow(r.now, from, to) then
                r.cost else 0.0
    decreases |rs|
  {
    if rs == [] {
      assert ([] + [r])[1..] == [];
      assert [] + [r] == [r];
    } else {
      assert (rs + [r])[1..] == rs[1..] + [r];
      SpentInOneMore(Some(Consume(state, rs[0].now, rs[0].cost, cfg).0), rs[1..], r, from, to, cfg);
    }
  }

  lemma {:induction false} SequentialSpends(start: Option<Bucket>, commits: seq<Answer>, row: Option<Bucket>,
      from: int, to: int, cfg: Config)
    requires cfg.Valid() && Sequential(start, commits, row, cfg)
    ensures Spent(commits, from, to) == SpentIn(start, Requests(commits), from, to, cfg)
    decreases |commits|
  {
    if commits != [] {
      var before, last := commits[..|commits| - 1], commits[|commits| - 1];
      SequentialPrefix(start, commits, row, cfg);
      SequentialSpends(start, before, StateAfter(start, Requests(before), cfg), from, to, cfg);
      SpentInOneMore(start, Requests(before), Request(last.now, last.cost), from, to, cfg);
    }
  }

  predicate Increasing(state: Option<Bucket>, rs: seq<Request>) {
    && (forall i, j | 0 <= i < j < |rs| :: rs[i].now <= rs[j].now)
    && (rs != [] ==> ReadAfter(state, rs[0].now))
  }

  lemma {:induction false} SpentFromWithin(state: Option<Bucket>, rs: seq<Request>, from: int, to: int, cfg: Config)
    requires cfg.Valid() && Increasing(state, rs) && Within(state, cfg) && rs != [] && from <= rs[0].now <= to
    requires forall i | 0 <= i < |rs| :: rs[i].cost >= 0.0
    ensures SpentIn(state, rs, from, to, cfg) <= Refilled(state, rs[0].now, cfg) + Earned(to - rs[0].now, cfg)
    decreases |rs|
  {
    var (b, r) := Consume(state, rs[0].now, rs[0].cost, cfg);
    var rest := rs[1..];
    EarnedGrows(0, to - rs[0].now, cfg);
    RefilledWithin(state, rs[0].now, cfg);
    if rest != [] && rest[0].now <= to {
      SpentFromWithin(Some(b), rest, from, to, cfg);
      RefillComposes(Some(b), rs[0].now, rest[0].now, cfg);
      EarnedAdds(rest[0].now - rs[0].now, to - rest[0].now, cfg);
    } else {
      NothingSpentAfter(Some(b), rest, from, to, cfg);
    }
  }

  lemma {:induction false} NothingSpentAfter(state: Option<Bucket>, rs: seq<Request>, from: int, to: int, cfg: Config)
    requires cfg.Valid() && forall i | 0 <= i < |rs| :: rs[i].now > to
    ensures SpentIn(state, rs, from, to, cfg) == 0.0
    decreases |rs|
  {
    if rs != [] {
      NothingSpentAfter(Some(Consume(state, rs[0].now, rs[0].cost, cfg).0), rs[1..], from, to, cfg);
    }
  }

  lemma {:induction false} SpentInBound(state: Option<Bucket>, rs: seq<Request>, from: int, to: int, cfg: Config)
    requires cfg.Valid() && Increasing(state, rs) && Within(state, cfg) && from <= to
    requires forall i | 0 <= i < |rs| :: rs[i].cost >= 0.0
    ensures SpentIn(state, rs, from, to, cfg) <= cfg.capacity + Earned(to - from, cfg)
    decreases |rs|
  {
    EarnedGrows(0, to - from, cfg);
    if rs != [] {
      RefilledWithin(state, rs[0].now, cfg);
      if rs[0].now < from {
        SpentInBound(Some(Consume(state, rs[0].now, rs[0].cost, cfg).0), rs[1..], from, to, cfg);
      } else if rs[0].now <= to {
        SpentFromWithin(state, rs, from, to, cfg);
        EarnedGrows(to - rs[0].now, to - from, cfg);
      } else {
        NothingSpentAfter(state, rs, from, to, cfg);
      }
    }
  }

  lemma {:induction false} NeighboursIncrease(rs: seq<Request>)
    requires forall i | 0 < i < |rs| :: rs[i - 1].now <= rs[i].now
    ensures forall i, j | 0 <= i < j < |rs| :: rs[i].now <= rs[j].now
  {
    if |rs| > 1 {
      NeighboursIncrease(rs[..|rs| - 1]);
      assert forall i | 0 <= i < |rs| - 1 :: rs[i].now <= rs[|rs| - 2].now;
    }
  }

  lemma SequentialIsIncreasing(start: Option<Bucket>, commits: seq<Answer>, row: Option<Bucket>, cfg: Config)
    requires cfg.Valid() && Sequential(start, commits, row, cfg) && NeverEarlier(commits)
    ensures Increasing(start, Requests(commits))
  {
    var rs := Requests(commits);
    forall i | 0 < i < |rs| ensures rs[i - 1].now <= rs[i].now {
      LastRefillIsLastCall(start, rs[..i], cfg);
      assert commits[i].seen == StateAfter(start, rs[..i], cfg);
    }
    NeighboursIncrease(rs);
    if rs != [] {
      assert rs[..0] == [] && commits[0].seen == StateAfter(start, rs[..0], cfg);
    }
  }

  predicate NoNegativeCost(s: State) {
    && (forall c | c in s.calls :: s.calls[c].cost >= 0.0)
    && (forall i | 0 <= i < |s.answers| :: s.answers[i].cost >= 0.0)
  }

  lemma ExecKeepsCosts(s: State, e: Event, cfg: Config)
    requires cfg.Valid() && NoNegativeCost(s) && (e.Begin? ==> e.cost >= 0.0)
    ensures NoNegativeCost(Exec(s, e, cfg))
  {
    var _ := ExecShape(s, e, cfg);
  }

  lemma {:induction false} CostsComeFromCalls(start: Option<Bucket>, events: seq<Event>, cfg: Config)
    requires cfg.Valid()
    requires forall i | 0 <= i < |events| :: events[i].Begin? ==> events[i].cost >= 0.0
    ensures NoNegativeCost(Run(Start(start), events, cfg))
  {
    if events != [] {
      CostsComeFromCalls(start, events[..|events| - 1], cfg);
      ExecKeepsCosts(Run(Start(start), events[..|events| - 1], cfg), events[|events| - 1], cfg);
    }
  }

  lemma {:induction false} CommitsAreAnswers(answers: seq<Answer>)
    ensures forall a | a in Commits(answers) :: a in answers
  {
    if answers != [] {
      CommitsAreAnswers(answers[..|answers| - 1]);
    }
  }

  /** Any orderly interleaving, any window of clock readings: all calls together are allowed at most the
      capacity, what is earned in the window, and the costs answered on the fail-open path. */
  lemma ConcurrentWindowBound(start: Option<Bucket>, events: seq<Event>, from: int, to: int, cfg: Config)
    requires cfg.Valid() && Within(start, cfg) && from <= to
    requires forall i | 0 <= i < |events| :: events[i].Begin? ==> events[i].cost >= 0.0
    requires Orderly(Start(start), events, cfg)
    ensures var answers := Run(Start(start), events, cfg).answers;
            Spent(answers, from, to) <= cfg.capacity + Earned(to - from, cfg) + Spent(FailedOpen(answers), from, to)
  {
    var s := Run(Start(start), events, cfg);
    var commits := Commits(s.answers);
    CommittedWritesAreSequential(start, events, cfg);
    OrderlyIsNeverEarlier(start, events, cfg);
    CostsComeFromCalls(start, events, cfg);
    CommitsAreAnswers(s.answers);
    forall i | 0 <= i < |commits| ensures commits[i].cost >= 0.0 {
      assert commits[i] in s.answers;
    }
    SequentialIsIncreasing(start, commits, s.row, cfg);
    SequentialSpends(start, commits, s.row, from, to, cfg);
    SpentInBound(start, Requests(commits), from, to, cfg);
    SpentIsCommittedPlusOpen(s.answers, from, to);
  }

  // ---- why the reading must be strictly later ------------------------------------------------------------

  lemma Then(start: Option<Bucket>, events: seq<Event>, e: Event, cfg: Config) returns (longer: seq<Event>, s: State)
    requires cfg.Valid()
    ensures longer == events + [e]
    ensures s == Run(Start(start), longer, cfg) == Exec(Run(Start(start), events, cfg), e, cfg)
  {
    longer, s := events + [e], Exec(Run(Start(start), events, cfg), e, cfg);
    assert longer[..|longer| - 1] == events;
  }

  lemma TwoReads(b: Bucket, cost: real, t: int, u: int, cfg: Config) returns (events: seq<Event>, s: State)
    requires cfg.Valid()
    ensures s == Run(Start(Some(b)), events, cfg)
    ensures s == State(Some(b), [], map[0 := Call(cost, Seen(0, t, Some(b)), 0), 1 :=
              Call(cost, Seen(0, u, Some(b)), 0)], [])
  {
    events, s := Then(Some(b), [], Begin(0, cost), cfg);
    events, s := Then(Some(b), events, ReadClock(0, t), cfg);
    events, s := Then(Some(b), events, ReadRow(0, 0), cfg);
    events, s := Then(Some(b), events, Begin(1, cost), cfg);
    events, s := Then(Some(b), events, ReadClock(1, u), cfg);
    events, s := Then(Some(b), events, ReadRow(1, 0), cfg);
  }

  /** Both calls hold the row that stands. */
  predicate BothHold(s: State, c: nat, d: nat) {
    && c != d && c in s.calls && d in s.calls && s.row.Some?
    && s.calls[c].pc.Seen? && s.calls[d].pc.Seen? && s.calls[c].pc.state == s.calls[d].pc.state == s.row
  }

  function BothWrite(s: State, c: nat, d: nat, cfg: Config): (r: State)
    requires cfg.Valid()
  {
    Exec(Exec(s, WriteRow(c), cfg), WriteRow(d), cfg)
  }

  /** Whenever two calls hold the row that stands and write one after the other, the first commits, and the second
      commits too, on the same tokens, exactly when the first one's clock reading was the refill time itself. */
  lemma BothCommitExactlyWhen(s: State, c: nat, d: nat, cfg: Config)
    requires cfg.Valid() && BothHold(s, c, d)
    ensures var first := Exec(s, WriteRow(c), cfg);
            && |first.answers| == |s.answers| + 1 && first.answers[..|s.answers|] == s.answers
            && first.answers[|s.answers|].call == c && first.answers[|s.answers|].committed
    ensures var answers := BothWrite(s, c, d, cfg).answers;
            |answers| == |s.answers| + 2 && answers[|s.answers| + 1].committed && answers[|s.answers| + 1].seen == s.row
            <==> s.calls[c].pc.now == s.row.value.lastRefillMs
  {
    assert Exec(s, WriteRow(c), cfg).row.value.lastRefillMs == s.calls[c].pc.now;
  }

  /** A write whose guard holds commits, and keeps a sequential run sequential exactly when the row it read is the
      one that stands. */
  lemma WriteStaysSequentialExactlyWhen(start: Option<Bucket>, s: State, c: nat, cfg: Config)
    requires cfg.Valid() && Sequential(start, Commits(s.answers), s.row, cfg)
    requires c in s.calls && s.calls[c].pc.Seen?
    ensures var r := Exec(s, WriteRow(c), cfg);
            Sequential(start, Commits(r.answers), r.row, cfg) <==>
            GuardHolds(s.row, s.calls[c].pc.state) ==> s.calls[c].pc.state == s.row
  {
    var r := Exec(s, WriteRow(c), cfg);
    var a := ExecShape(s, WriteRow(c), cfg);
    if a.Some? {
      var commits := Commits(s.answers);
      CommitsOneMore(s.answers, a.value);
      if a.value.committed && a.value.seen == s.row {
        CommitKeepsSequential(start, commits, s.row, a.value, cfg);
      } else if a.value.committed {
        assert Requests(commits + [a.value])[..|commits|] == Requests(commits);
        assert (commits + [a.value])[|commits|].seen != s.row;
      } else {
        assert commits + [] == commits;
      }
    }
  }

  /** Two calls that hold the row that stands leave a sequential run sequential exactly when the first one's clock
      reading is not the refill time, or it leaves the bucket as it was. */
  lemma BothStaySequentialExactlyWhen(start: Option<Bucket>, s: State, c: nat, d: nat, cfg: Config)
    requires cfg.Valid() && BothHold(s, c, d) && Sequential(start, Commits(s.answers), s.row, cfg)
    ensures var r := BothWrite(s, c, d, cfg);
            Sequential(start, Commits(r.answers), r.row, cfg) <==>
            s.calls[c].pc.now != s.row.value.lastRefillMs || Exec(s, WriteRow(c), cfg).row == s.row
  {
    var first := Exec(s, WriteRow(c), cfg);
    assert first.row.value.lastRefillMs == s.calls[c].pc.now;
    WriteStaysSequentialExactlyWhen(start, s, c, cfg);
    WriteStaysSequentialExactlyWhen(start, first, d, cfg);
  }

  /** A call that reads a stale row and writes keeps a sequential run sequential exactly when that row has another
      refill time than the current one, or is no different. */
  lemma StaleReadStaysSequentialExactlyWhen(start: Option<Bucket>, s: State, c: nat, version: nat, cfg: Config)
    requires cfg.Valid() && Sequential(start, Commits(s.answers), s.row, cfg)
    requires c in s.calls && s.calls[c].pc.Clocked?
    ensures var r := Exec(Exec(s, ReadRow(c, version), cfg), WriteRow(c), cfg);
            Sequential(start, Commits(r.answers), r.row, cfg) <==> InOrder(s, ReadRow(c, version))
  {
    WriteStaysSequentialExactlyWhen(start, Exec(s, ReadRow(c, version), cfg), c, cfg);
  }

  /** Two calls in the millisecond of the last refill both pass the guard and both spend the same
      tokens, whatever the bucket holds. */
  lemma SameMillisecondSpendsTwice(b: Bucket, cost: real, cfg: Config)
    requires cfg.Valid() && 0.0 < cost <= b.tokens <= cfg.capacity
    ensures exists events ::
              var s := Run(Start(Some(b)), events, cfg);
              && |s.answers| == 2 && s.answers[0].now == s.answers[1].now == b.lastRefillMs
              && s.answers[0].committed && s.answers[1].committed
              && s.answers[0].result.allowed && s.answers[1].result.allowed
              && s.row == Some(Bucket(b.tokens - cost, b.lastRefillMs))
  {
    var t := b.lastRefillMs;
    var events, s := TwoReads(b, cost, t, t, cfg);
    assert Earned(0, cfg) == 0.0;
    assert Refilled(Some(b), t, cfg) == b.tokens;
    events, s := Then(Some(b), events, WriteRow(0), cfg);
    assert s.row == Some(Bucket(b.tokens - cost, t));
    events, s := Then(Some(b), events, WriteRow(1), cfg);
  }
}
