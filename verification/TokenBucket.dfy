/** The token-bucket arithmetic, over exact reals: how full a bucket is, what a request does to it,
    and what its answers promise. */
module TokenBucket {
  import opened Options

  datatype Config = Config(capacity: real, refillRate: real) {
    predicate Valid() {
      capacity > 0.0 && refillRate > 0.0
    }
  }

  datatype Bucket = Bucket(tokens: real, lastRefillMs: int)

  datatype Result = Result(allowed: bool, remaining: int, resetAt: int, retryAfter: Option<int>)

  function Min(a: real, b: real): real {
    if a <= b then a else b
  }

  function Max(a: int, b: int): int {
    if a >= b then a else b
  }

  function Ceil(x: real): (n: int)
    ensures (n - 1) as real < x <= n as real
  {
    -((-x).Floor)
  }

  /** Tokens earned in `ms` milliseconds. */
  function Earned(ms: int, cfg: Config): real {
    (ms as real * cfg.refillRate) / 1000.0
  }

  /** How full the bucket stands at `now`; a bucket that does not exist yet is full. */
  function Refilled(state: Option<Bucket>, now: int, cfg: Config): real {
    var effective := if state.Some? then state.value else Bucket(cfg.capacity, now);
    Min(cfg.capacity, effective.tokens + Earned(Max(0, now - effective.lastRefillMs), cfg))
  }

  function ResetAt(refilled: real, now: int, cfg: Config): int
    requires cfg.Valid()
  {
    now + Ceil(((cfg.capacity - refilled) / cfg.refillRate) * 1000.0)
  }

  function Consume(state: Option<Bucket>, now: int, cost: real, cfg: Config): (r: (Bucket, Result))
    requires cfg.Valid()
  {
    var refilled := Refilled(state, now, cfg);
    var resetAt := ResetAt(refilled, now, cfg);
    if refilled >= cost then
      (Bucket(refilled - cost, now), Result(true, (refilled - cost).Floor, resetAt, None))
    else
      var retryAfterMs := Ceil(((cost - refilled) / cfg.refillRate) * 1000.0);
      (Bucket(refilled, now), Result(false, 0, resetAt, Some(Max(1, Ceil(retryAfterMs as real / 1000.0)))))
  }

  function Peek(state: Option<Bucket>, now: int, cfg: Config): (r: Result)
    requires cfg.Valid()
  {
    var refilled := Refilled(state, now, cfg);
    Result(refilled >= 1.0, refilled.Floor, ResetAt(refilled, now, cfg), None)
  }

  /** Seconds a written bucket must be kept. */
  function TtlSeconds(b: Bucket, cfg: Config): int
    requires cfg.Valid()
  {
    var needed := if cfg.capacity - b.tokens > 0.0 then cfg.capacity - b.tokens else 0.0;
    Ceil(needed / cfg.refillRate) + 60
  }

  // ---- refilling ------------------------------------------------------------------------------------

  lemma EarnedAdds(a: int, b: int, cfg: Config)
    ensures Earned(a + b, cfg) == Earned(a, cfg) + Earned(b, cfg)
  {
    assert (a + b) as real * cfg.refillRate == a as real * cfg.refillRate + b as real * cfg.refillRate;
  }

  lemma EarnedGrows(a: int, b: int, cfg: Config)
    requires cfg.Valid() && a <= b
    ensures Earned(a, cfg) <= Earned(b, cfg)
  {
    assert (b - a) as real * cfg.refillRate >= 0.0;
    EarnedAdds(a, b - a, cfg);
  }

  predicate ReadAfter(state: Option<Bucket>, now: int) {
    state.Some? ==> state.value.lastRefillMs <= now
  }

  /** Refilling to `t` and from there to `u` is refilling to `u`. */
  lemma RefillComposes(state: Option<Bucket>, t: int, u: int, cfg: Config)
    requires cfg.Valid() && ReadAfter(state, t) && t <= u
    ensures Refilled(state, u, cfg) == Min(cfg.capacity, Refilled(state, t, cfg) + Earned(u - t, cfg))
    ensures Refilled(Some(Bucket(Refilled(state, t, cfg), t)), u, cfg) == Refilled(state, u, cfg)
  {
    EarnedGrows(0, u - t, cfg);
    if state.Some? {
      EarnedAdds(t - state.value.lastRefillMs, u - t, cfg);
    }
  }

  predicate Within(state: Option<Bucket>, cfg: Config) {
    state.Some? ==> 0.0 <= state.value.tokens <= cfg.capacity
  }

  lemma RefilledWithin(state: Option<Bucket>, now: int, cfg: Config)
    requires cfg.Valid() && Within(state, cfg)
    ensures 0.0 <= Refilled(state, now, cfg) <= cfg.capacity
  {
    var elapsed := Max(0, now - (if state.Some? then state.value.lastRefillMs else now));
    EarnedGrows(0, elapsed, cfg);
  }

  // ---- what a denial promises -----------------------------------------------------------------------

  lemma CeilOfCeil(x: real)
    ensures Ceil(Ceil(x * 1000.0) as real / 1000.0) == Ceil(x)
  {
    var n := Ceil(x);
    assert Ceil(x * 1000.0) <= n * 1000;
    assert Ceil(x * 1000.0) as real > (n - 1) as real * 1000.0;
  }

  /** Refilling by whole seconds from a denied request's bucket. */
  lemma SecondsEarn(n: int, cfg: Config)
    ensures Earned(1000 * n, cfg) == n as real * cfg.refillRate
  {
    assert (1000 * n) as real * cfg.refillRate == 1000.0 * (n as real * cfg.refillRate);
  }

  lemma QuotientBounds(need: real, rate: real, n: int)
    requires rate > 0.0
    ensures need / rate <= n as real <==> need <= n as real * rate
  {
    var q := need / rate;
    assert need == q * rate;
    if q <= n as real {
      assert (n as real - q) * rate >= 0.0;
    } else {
      assert (q - n as real) * rate > 0.0;
    }
  }

  lemma AllowedAfterSeconds(b: Bucket, cost: real, cfg: Config, n: nat)
    requires cfg.Valid() && cost <= cfg.capacity
    ensures Consume(Some(b), b.lastRefillMs + 1000 * n, cost, cfg).1.allowed
       <==> cost - b.tokens <= n as real * cfg.refillRate
  {
    SecondsEarn(n, cfg);
  }

  /** The nested ceilings and the floor of one second come to a single ceiling. */
  lemma DeniedRetryAfter(state: Option<Bucket>, now: int, cost: real, cfg: Config)
    requires cfg.Valid() && !Consume(state, now, cost, cfg).1.allowed
    ensures var (b, r) := Consume(state, now, cost, cfg);
            r.retryAfter == Some(Ceil((cost - b.tokens) / cfg.refillRate)) && r.retryAfter.value >= 1
  {
    var need := cost - Refilled(state, now, cfg);
    QuotientBounds(need, cfg.refillRate, 0);
    CeilOfCeil(need / cfg.refillRate);
  }

  /** A denied request whose cost the bucket could ever hold: `retryAfter` is the least whole number
      of seconds after which the same request, with no other traffic, is allowed. */
  lemma RetryAfterIsLeast(state: Option<Bucket>, now: int, cost: real, cfg: Config, n: nat)
    requires cfg.Valid() && cost <= cfg.capacity
    requires !Consume(state, now, cost, cfg).1.allowed
    ensures var (b, r) := Consume(state, now, cost, cfg);
            && r.retryAfter.Some? && r.retryAfter.value >= 1
            && (Consume(Some(b), now + 1000 * n, cost, cfg).1.allowed <==> n >= r.retryAfter.value)
  {
    var (b, r) := Consume(state, now, cost, cfg);
    DeniedRetryAfter(state, now, cost, cfg);
    AllowedWhenEarned(b, cost, cfg, n, r.retryAfter.value);
  }

  lemma AllowedWhenEarned(b: Bucket, cost: real, cfg: Config, n: nat, least: int)
    requires cfg.Valid() && cost <= cfg.capacity && least == Ceil((cost - b.tokens) / cfg.refillRate)
    ensures Consume(Some(b), b.lastRefillMs + 1000 * n, cost, cfg).1.allowed <==> n >= least
  {
    AllowedAfterSeconds(b, cost, cfg, n);
    LeastSeconds(cost - b.tokens, cfg.refillRate, n);
  }

  lemma LeastSeconds(need: real, rate: real, n: int)
    requires rate > 0.0
    ensures need <= n as real * rate <==> n >= Ceil(need / rate)
  {
    QuotientBounds(need, rate, n);
  }

  /** A denial's or a peek's `resetAt` is the first millisecond at which the bucket is full. */
  lemma ResetAtIsFirstFull(state: Option<Bucket>, now: int, cfg: Config, t: int)
    requires cfg.Valid() && t >= now
    ensures var refilled := Refilled(state, now, cfg);
            Refilled(Some(Bucket(refilled, now)), t, cfg) == cfg.capacity <==> t >= Peek(state, now, cfg).resetAt
  {
    var need := cfg.capacity - Refilled(state, now, cfg);
    MillisToEarn(need, t - now, cfg);
  }

  lemma MillisToEarn(need: real, ms: int, cfg: Config)
    requires cfg.Valid()
    ensures need <= Earned(ms, cfg) <==> ms >= Ceil((need / cfg.refillRate) * 1000.0)
  {
    QuotientBounds(need * 1000.0, cfg.refillRate, ms);
    assert (need * 1000.0) / cfg.refillRate == (need / cfg.refillRate) * 1000.0;
  }

  /** An allowed request's `resetAt` is computed before its tokens are taken: the bucket is full by
      then exactly when the cost fits into the rounding up to a millisecond. */
  lemma AllowedResetAtIsFullExactlyWhen(state: Option<Bucket>, now: int, cost: real, cfg: Config)
    requires cfg.Valid() && cost >= 0.0
    requires Consume(state, now, cost, cfg).1.allowed
    ensures var (b, r) := Consume(state, now, cost, cfg);
            var full := Peek(state, now, cfg).resetAt;
            && r.resetAt == full
            && (Refilled(Some(b), r.resetAt, cfg) == cfg.capacity
                <==> cost <= Earned(full - now, cfg) - (cfg.capacity - Refilled(state, now, cfg)))
    ensures cost >= Earned(1, cfg) ==>
              Refilled(Some(Consume(state, now, cost, cfg).0), Consume(state, now, cost, cfg).1.resetAt,
                  cfg) < cfg.capacity
  {
    var (b, r) := Consume(state, now, cost, cfg);
    var need := cfg.capacity - Refilled(state, now, cfg);
    var wait := r.resetAt - now;
    QuotientBounds(need, cfg.refillRate, 0);
    MillisToEarn(need, wait - 1, cfg);
    EarnedAdds(wait - 1, 1, cfg);
    if need <= 0.0 {
      assert need == 0.0;
    }
    NoWaitWithoutNeed(need, wait, cfg);
  }

  lemma NoWaitWithoutNeed(need: real, wait: int, cfg: Config)
    requires cfg.Valid() && need >= 0.0 && wait == Ceil((need / cfg.refillRate) * 1000.0)
    ensures wait >= 0
  {
    QuotientBounds(need, cfg.refillRate, -1);
  }

  // ---- sequential runs ------------------------------------------------------------------------------

  datatype Request = Request(now: int, cost: real)

  function StateAfter(state: Option<Bucket>, rs: seq<Request>, cfg: Config): (after: Option<Bucket>)
    requires cfg.Valid()
    decreases |rs|
  {
    if rs == [] then state
    else StateAfter(Some(Consume(state, rs[0].now, rs[0].cost, cfg).0), rs[1..], cfg)
  }

  function Results(state: Option<Bucket>, rs: seq<Request>, cfg: Config): (results: seq<Result>)
    requires cfg.Valid()
    ensures |results| == |rs|
    decreases |rs|
  {
    if rs == [] then []
    else
      var (b, r) := Consume(state, rs[0].now, rs[0].cost, cfg);
      [r] + Results(Some(b), rs[1..], cfg)
  }

  /** The summed cost of the requests that were allowed. */
  function AllowedCost(state: Option<Bucket>, rs: seq<Request>, cfg: Config): (total: real)
    requires cfg.Valid()
    decreases |rs|
  {
    if rs == [] then 0.0
    else
      var (b, r) := Consume(state, rs[0].now, rs[0].cost, cfg);
      (if r.allowed then rs[0].cost else 0.0) + AllowedCost(Some(b), rs[1..], cfg)
  }

  predicate ClockNeverGoesBack(state: Option<Bucket>, rs: seq<Request>) {
    && (forall i, j | 0 <= i < j < |rs| :: rs[i].now <= rs[j].now)
    && (rs != [] ==> ReadAfter(state, rs[0].now))
  }

  lemma {:induction false} TokensStayWithin(state: Option<Bucket>, rs: seq<Request>, cfg: Config)
    requires cfg.Valid() && Within(state, cfg)
    requires forall i | 0 <= i < |rs| :: rs[i].cost >= 0.0
    ensures Within(StateAfter(state, rs, cfg), cfg)
    decreases |rs|
  {
    if rs != [] {
      RefilledWithin(state, rs[0].now, cfg);
      TokensStayWithin(Some(Consume(state, rs[0].now, rs[0].cost, cfg).0), rs[1..], cfg);
    }
  }

  lemma CostAboveCapacityIsNeverAllowed(state: Option<Bucket>, now: int, cost: real, cfg: Config)
    requires cfg.Valid() && cost > cfg.capacity
    ensures !Consume(state, now, cost, cfg).1.allowed
  {
  }

  /** What is spent and what is left never exceed what stood there and what was earned meanwhile. */
  lemma {:induction false} SpentPlusLeft(state: Option<Bucket>, rs: seq<Request>, cfg: Config)
    requires cfg.Valid() && rs != [] && ClockNeverGoesBack(state, rs)
    ensures StateAfter(state, rs, cfg).Some?
    ensures AllowedCost(state, rs, cfg) + StateAfter(state, rs, cfg).value.tokens
         <= Refilled(state, rs[0].now, cfg) + Earned(rs[|rs| - 1].now - rs[0].now, cfg)
    decreases |rs|
  {
    var (b, r) := Consume(state, rs[0].now, rs[0].cost, cfg);
    if |rs| == 1 {
      assert rs[1..] == [];
    } else {
      SpentPlusLeft(Some(b), rs[1..], cfg);
      EarnedAdds(rs[1].now - rs[0].now, rs[|rs| - 1].now - rs[1].now, cfg);
    }
  }

  lemma {:induction false} RunSplits(state: Option<Bucket>, rs: seq<Request>, i: nat, cfg: Config)
    requires cfg.Valid() && i <= |rs|
    ensures StateAfter(state, rs, cfg) == StateAfter(StateAfter(state, rs[..i], cfg), rs[i..], cfg)
    ensures AllowedCost(state, rs, cfg) == AllowedCost(state, rs[..i], cfg) + AllowedCost(StateAfter(state, rs[..i],
              cfg), rs[i..], cfg)
    decreases i
  {
    if i > 0 {
      assert rs[..i][1..] == rs[1..][..i - 1] && rs[i..] == rs[1..][i - 1..];
      RunSplits(Some(Consume(state, rs[0].now, rs[0].cost, cfg).0), rs[1..], i - 1, cfg);
    } else {
      assert rs[..0] == [] && rs[0..] == rs;
    }
  }

  lemma {:induction false} LastRefillIsLastCall(state: Option<Bucket>, rs: seq<Request>, cfg: Config)
    requires cfg.Valid() && rs != []
    ensures StateAfter(state, rs, cfg).Some? && StateAfter(state, rs, cfg).value.lastRefillMs == rs[|rs| - 1].now
    decreases |rs|
  {
    if |rs| > 1 {
      LastRefillIsLastCall(Some(Consume(state, rs[0].now, rs[0].cost, cfg).0), rs[1..], cfg);
    } else {
      assert rs[1..] == [];
    }
  }

  /** Any run, any two of its calls: what was allowed from the one to the other costs at most the
      capacity plus what is earned in the time between them. */
  lemma WindowBound(state: Option<Bucket>, rs: seq<Request>, i: nat, j: nat, cfg: Config)
    requires cfg.Valid() && Within(state, cfg) && ClockNeverGoesBack(state, rs)
    requires forall k | 0 <= k < |rs| :: rs[k].cost >= 0.0
    requires i <= j < |rs|
    ensures AllowedCost(StateAfter(state, rs[..i], cfg), rs[i..j + 1], cfg)
         <= cfg.capacity + Earned(rs[j].now - rs[i].now, cfg)
  {
    var before, window := StateAfter(state, rs[..i], cfg), rs[i..j + 1];
    TokensStayWithin(state, rs[..i], cfg);
    SliceKeepsClock(state, rs, i, j, cfg);
    TokensStayWithin(before, window, cfg);
    SpentPlusLeft(before, window, cfg);
  }

  lemma SliceKeepsClock(state: Option<Bucket>, rs: seq<Request>, i: nat, j: nat, cfg: Config)
    requires cfg.Valid() && ClockNeverGoesBack(state, rs) && i <= j < |rs|
    ensures ClockNeverGoesBack(StateAfter(state, rs[..i], cfg), rs[i..j + 1])
  {
    if i > 0 {
      LastRefillIsLastCall(state, rs[..i], cfg);
    }
  }

  // ---- what a call answers ----------------------------------------------------------------------------

  lemma NothingEarnedAtOnce(b: Bucket, cfg: Config)
    ensures Refilled(Some(b), b.lastRefillMs, cfg) == Min(cfg.capacity, b.tokens)
  {
    assert Earned(0, cfg) == 0.0;
  }

  lemma WholeTokens(x: real, n: int)
    ensures n as real <= x <==> n <= x.Floor
  {
  }

  /** An allowed call takes exactly its cost, and its `remaining` is the largest whole cost that would be allowed next
      in the same millisecond. */
  lemma RemainingIsWhatStillFits(state: Option<Bucket>, now: int, cost: real, cfg: Config, n: nat)
    requires cfg.Valid() && cost >= 0.0 && Consume(state, now, cost, cfg).1.allowed
    ensures var (b, r) := Consume(state, now, cost, cfg);
            && Consume(Some(b), now, n as real, cfg).1.allowed <==> n <= r.remaining
    ensures Consume(state, now, cost, cfg).0.tokens + cost == Refilled(state, now, cfg)
    ensures Consume(state, now, cost, cfg).1.retryAfter == None
  {
    var b := Consume(state, now, cost, cfg).0;
    NothingEarnedAtOnce(b, cfg);
    WholeTokens(b.tokens, n);
  }

  /** A denied call takes nothing and has nothing remaining. */
  lemma DeniedTakesNothing(state: Option<Bucket>, now: int, cost: real, cfg: Config)
    requires cfg.Valid() && !Consume(state, now, cost, cfg).1.allowed
    ensures var (b, r) := Consume(state, now, cost, cfg);
            r.remaining == 0 && b.tokens == Refilled(state, now, cfg)
  {
  }

  /** A peek's `remaining` is the largest whole cost that would be allowed at that instant, and its `allowed` means that
      a cost of one would be. */
  lemma PeekTellsWhatFits(state: Option<Bucket>, now: int, cfg: Config, n: nat)
    requires cfg.Valid()
    ensures Consume(state, now, n as real, cfg).1.allowed <==> n <= Peek(state, now, cfg).remaining
    ensures Peek(state, now, cfg).allowed <==> Consume(state, now, 1.0, cfg).1.allowed
    ensures Peek(state, now, cfg).retryAfter == None
  {
    WholeTokens(Refilled(state, now, cfg), n);
  }

  /** A written bucket is kept for a minute longer than it takes, in whole seconds, to fill up. */
  lemma KeptAMinutePastFull(b: Bucket, cfg: Config, n: nat)
    requires cfg.Valid() && b.tokens <= cfg.capacity
    ensures Refilled(Some(b), b.lastRefillMs + 1000 * n, cfg) == cfg.capacity <==> n >= TtlSeconds(b, cfg) - 60
  {
    SecondsEarn(n, cfg);
    LeastSeconds(cfg.capacity - b.tokens, cfg.refillRate, n);
  }

  /** The clock must not go back: a denied call that reads an earlier clock moves the refill time back, and the time
      in between is earned a second time. */
  lemma ClockGoingBackEarnsTwice(now: int, back: nat, cost: real, cfg: Config)
    requires cfg.Valid() && cost > 0.0
    ensures var (empty, all) := Consume(None, now, cfg.capacity, cfg);
            var (moved, denied) := Consume(Some(empty), now - back, cost, cfg);
            && all.allowed && !denied.allowed
            && Refilled(Some(empty), now, cfg) == 0.0
            && Refilled(Some(moved), now, cfg) == Min(cfg.capacity, Earned(back, cfg))
  {
    EarnedGrows(0, back, cfg);
  }

  // ---- denied calls and forgotten buckets -----------------------------------------------------------

  /** Two states no call from `t` on can tell apart. */
  predicate Indistinct(a: Option<Bucket>, b: Option<Bucket>, t: int, cfg: Config) {
    ReadAfter(a, t) && ReadAfter(b, t) && Refilled(a, t, cfg) == Refilled(b, t, cfg)
  }

  lemma IndistinctLasts(a: Option<Bucket>, b: Option<Bucket>, t: int, u: int, cfg: Config)
    requires cfg.Valid() && Indistinct(a, b, t, cfg) && t <= u
    ensures Indistinct(a, b, u, cfg)
  {
    RefillComposes(a, t, u, cfg);
    RefillComposes(b, t, u, cfg);
  }

  lemma IndistinctAnswerAlike(a: Option<Bucket>, b: Option<Bucket>, t: int, u: int, cost: real, cfg: Config)
    requires cfg.Valid() && Indistinct(a, b, t, cfg) && t <= u
    ensures Consume(a, u, cost, cfg) == Consume(b, u, cost, cfg)
    ensures Peek(a, u, cfg) == Peek(b, u, cfg)
    ensures Indistinct(Some(Consume(a, u, cost, cfg).0), Some(Consume(b, u, cost, cfg).0), u, cfg)
    ensures !Consume(a, u, cost, cfg).1.allowed ==> Indistinct(Some(Consume(a, u, cost, cfg).0), b, u, cfg)
  {
    IndistinctLasts(a, b, t, u, cfg);
    if !Consume(a, u, cost, cfg).1.allowed {
      DenialLeavesNoTrace(b, u, cost, cfg);
    }
  }

  /** An absent bucket is the fully refilled one. */
  lemma AbsentIsFull(t: int, cfg: Config)
    requires cfg.Valid()
    ensures Indistinct(None, Some(Bucket(cfg.capacity, t)), t, cfg)
  {
  }

  /** A denied call leaves no trace. */
  lemma DenialLeavesNoTrace(state: Option<Bucket>, now: int, cost: real, cfg: Config)
    requires cfg.Valid() && ReadAfter(state, now) && !Consume(state, now, cost, cfg).1.allowed
    ensures Indistinct(Some(Consume(state, now, cost, cfg).0), state, now, cfg)
  {
    RefillComposes(state, now, now, cfg);
  }

  /** When a bucket written under the clock reading `writtenAt` may be dropped, in milliseconds. */
  function ExpiryMs(b: Bucket, writtenAt: int, cfg: Config): int
    requires cfg.Valid()
  {
    (writtenAt / 1000 + TtlSeconds(b, cfg)) * 1000
  }

  /** From its expiry on a stored bucket is full, so dropping it cannot be noticed. */
  lemma ExpiredBucketIsFull(b: Bucket, writtenAt: int, t: int, cfg: Config)
    requires cfg.Valid() && b.lastRefillMs <= writtenAt && t >= ExpiryMs(b, writtenAt, cfg)
    ensures Indistinct(Some(b), None, t, cfg)
  {
    var need := if cfg.capacity - b.tokens > 0.0 then cfg.capacity - b.tokens else 0.0;
    var secs := Ceil(need / cfg.refillRate);
    QuotientBounds(need, cfg.refillRate, secs);
    QuotientBounds(need, cfg.refillRate, -1);
    assert secs >= 0;
    assert t - b.lastRefillMs >= 1000 * secs;
    SecondsEarn(secs, cfg);
    EarnedGrows(1000 * secs, t - b.lastRefillMs, cfg);
  }

  /** A stored bucket with the instant from which the backend may drop it. */
  datatype Stored = Stored(bucket: Bucket, expiresAtMs: int)

  datatype Event =
    | Ask(r: Request, writtenAt: int)  // the write may read the clock again, later
    | Drop(at: int)                    // the backend's time-to-live

  function EventTime(e: Event): int {
    if e.Ask? then e.r.now else e.at
  }

  predicate Ordered(from: int, events: seq<Event>) {
    && (forall i | 0 <= i < |events| :: from <= EventTime(events[i]) && (events[i].Ask? ==>
        events[i].r.now <= events[i].writtenAt))
    && (forall i, j | 0 <= i < j < |events| :: EventTime(events[i]) <= EventTime(events[j]))
  }

  function BucketOf(s: Option<Stored>): Option<Bucket> {
    if s.Some? then Some(s.value.bucket) else None
  }

  /** What every call of the run answers, the backend dropping due buckets wherever it likes. */
  function Answers(s: Option<Stored>, events: seq<Event>, cfg: Config): (results: seq<Result>)
    requires cfg.Valid()
    decreases |events|
  {
    if events == [] then []
    else match events[0]
      case Ask(r, writtenAt) =>
        var (b, result) := Consume(BucketOf(s), r.now, r.cost, cfg);
        [result] + Answers(Some(Stored(b, ExpiryMs(b, writtenAt, cfg))), events[1..], cfg)
      case Drop(at) =>
        Answers(if s.Some? && at >= s.value.expiresAtMs then None else s, events[1..], cfg)
  }

  /** The requests made. */
  function Asked(events: seq<Event>): (rs: seq<Request>) {
    if events == [] then [] else (if events[0].Ask? then [events[0].r] else []) + Asked(events[1..])
  }

  /** The requests of a run that were allowed … */
  function AllowedRequests(state: Option<Bucket>, rs: seq<Request>, cfg: Config): (kept: seq<Request>)
    requires cfg.Valid()
    decreases |rs|
  {
    if rs == [] then []
    else
      var (b, r) := Consume(state, rs[0].now, rs[0].cost, cfg);
      (if r.allowed then [rs[0]] else []) + AllowedRequests(Some(b), rs[1..], cfg)
  }

  /** … and the answers they got. */
  function AllowedResults(results: seq<Result>): (kept: seq<Result>) {
    if results == [] then [] else (if results[0].allowed then [results[0]] else []) + AllowedResults(results[1..])
  }

  ghost predicate DueWhenFull(s: Option<Stored>, cfg: Config)
    requires cfg.Valid()
  {
    s.Some? ==> exists w :: s.value.bucket.lastRefillMs <= w && s.value.expiresAtMs == ExpiryMs(s.value.bucket, w, cfg)
  }

  lemma DueAfterWrite(state: Option<Bucket>, r: Request, writtenAt: int, cfg: Config)
    requires cfg.Valid() && r.now <= writtenAt
    ensures var next := Consume(state, r.now, r.cost, cfg).0;
            DueWhenFull(Some(Stored(next, ExpiryMs(next, writtenAt, cfg))), cfg)
  {
  }

  lemma DropGoesUnnoticed(s: Option<Stored>, b: Option<Bucket>, from: int, at: int, cfg: Config)
    requires cfg.Valid() && Indistinct(BucketOf(s), b, from, cfg) && from <= at && DueWhenFull(s, cfg)
    ensures Indistinct(BucketOf(if s.Some? && at >= s.value.expiresAtMs then None else s), b, at, cfg)
  {
    IndistinctLasts(BucketOf(s), b, from, at, cfg);
    if s.Some? && at >= s.value.expiresAtMs {
      var w :| s.value.bucket.lastRefillMs <= w && s.value.expiresAtMs == ExpiryMs(s.value.bucket, w, cfg);
      ExpiredBucketIsFull(s.value.bucket, w, at, cfg);
    }
  }

  /** Dropping due buckets anywhere in a run changes no answer. */
  lemma {:induction false} DropsChangeNoAnswer(s: Option<Stored>, b: Option<Bucket>, from: int, events: seq<Event>,
      cfg: Config)
    requires cfg.Valid() && Ordered(from, events) && DueWhenFull(s, cfg)
    requires Indistinct(BucketOf(s), b, from, cfg)
    ensures Answers(s, events, cfg) == Results(b, Asked(events), cfg)
    decreases |events|
  {
    if events != [] {
      var e, rest := events[0], events[1..];
      assert Ordered(EventTime(e), rest);
      match e
      case Ask(r, writtenAt) =>
        IndistinctAnswerAlike(BucketOf(s), b, from, r.now, r.cost, cfg);
        var next := Consume(b, r.now, r.cost, cfg).0;
        DueAfterWrite(b, r, writtenAt, cfg);
        DropsChangeNoAnswer(Some(Stored(next, ExpiryMs(next, writtenAt, cfg))), Some(next), r.now, rest, cfg);
        assert Asked(events) == [r] + Asked(rest) && ([r] + Asked(rest))[1..] == Asked(rest);
        FirstResult(b, Asked(events), cfg);
        assert Results(b, Asked(events), cfg) == [Consume(b, r.now, r.cost, cfg).1] + Results(Some(next), Asked(rest),
            cfg);
      case Drop(at) =>
        DropGoesUnnoticed(s, b, from, at, cfg);
        DropsChangeNoAnswer(if s.Some? && at >= s.value.expiresAtMs then None else s, b, at, rest, cfg);
        assert Asked(events) == Asked(rest);
    }
  }

  /** Leaving out every denied call of a run changes no answer of the others. */
  lemma {:induction false} DenialsChangeNoOtherAnswer(a: Option<Bucket>, b: Option<Bucket>, from: int,
      rs: seq<Request>, cfg: Config)
    requires cfg.Valid() && Indistinct(a, b, from, cfg)
    requires forall i | 0 <= i < |rs| :: from <= rs[i].now
    requires forall i, j | 0 <= i < j < |rs| :: rs[i].now <= rs[j].now
    ensures AllowedResults(Results(a, rs, cfg)) == Results(b, AllowedRequests(a, rs, cfg), cfg)
    decreases |rs|
  {
    if rs != [] {
      var now, cost, rest := rs[0].now, rs[0].cost, rs[1..];
      IndistinctAnswerAlike(a, b, from, now, cost, cfg);
      var (next, r) := Consume(a, now, cost, cfg);
      FirstResult(a, rs, cfg);
      assert AllowedResults(Results(a, rs, cfg)) == (if r.allowed then [r]
          else []) + AllowedResults(Results(Some(next), rest, cfg));
      if r.allowed {
        DenialsChangeNoOtherAnswer(Some(next), Some(next), now, rest, cfg);
        var kept := AllowedRequests(Some(next), rest, cfg);
        assert ([rs[0]] + kept)[1..] == kept;
        FirstResult(b, [rs[0]] + kept, cfg);
        assert Results(b, [rs[0]] + kept, cfg) == [r] + Results(Some(next), kept, cfg);
      } else {
        DenialsChangeNoOtherAnswer(Some(next), b, now, rest, cfg);
        assert AllowedRequests(a, rs, cfg) == AllowedRequests(Some(next), rest, cfg);
      }
    }
  }

  lemma FirstResult(state: Option<Bucket>, rs: seq<Request>, cfg: Config)
    requires cfg.Valid() && rs != []
    ensures var (next, r) := Consume(state, rs[0].now, rs[0].cost, cfg);
            && Results(state, rs, cfg)[0] == r
            && Results(state, rs, cfg)[1..] == Results(Some(next), rs[1..], cfg)
            && AllowedRequests(state, rs, cfg)
            == (if r.allowed then [rs[0]] else []) + AllowedRequests(Some(next), rs[1..], cfg)
  {
  }

  /** Both at once, from a fresh key: the allowed calls alone, against a bucket never dropped, are
      answered as they were among denials and drops. */
  lemma OnlyAllowedCallsMatter(from: int, events: seq<Event>, cfg: Config)
    requires cfg.Valid() && Ordered(from, events)
    ensures Answers(None, events, cfg) == Results(None, Asked(events), cfg)
    ensures AllowedResults(Answers(None, events, cfg)) == Results(None, AllowedRequests(None, Asked(events), cfg), cfg)
  {
    DropsChangeNoAnswer(None, None, from, events, cfg);
    AskedStaysOrdered(from, events);
    DenialsChangeNoOtherAnswer(None, None, from, Asked(events), cfg);
  }

  lemma {:induction false} AskedStaysOrdered(from: int, events: seq<Event>)
    requires Ordered(from, events)
    ensures forall i | 0 <= i < |Asked(events)| :: from <= Asked(events)[i].now
    ensures forall i, j | 0 <= i < j < |Asked(events)| :: Asked(events)[i].now <= Asked(events)[j].now
    decreases |events|
  {
    if events != [] {
      assert Ordered(EventTime(events[0]), events[1..]);
      AskedStaysOrdered(EventTime(events[0]), events[1..]);
    }
  }
}
