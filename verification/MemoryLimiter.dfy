/** The in-memory limiter: a map of buckets updated in place, one sequential run per key. */
module MemoryLimiter {
  import opened Options
  import opened TokenBucket

  datatype UnknownKeyStrategy = SharedBucket | Reject | Allow

  datatype Reply = Answered(result: Result) | InvalidConfig

  const UNKNOWN := "unknown"

  predicate IsUnknown(key: string) {
    key == UNKNOWN || (|key| > |UNKNOWN| && key[|key| - |UNKNOWN| - 1..] == ":" + UNKNOWN)
  }

  /** The key is the text "unknown", or ends in it behind a colon. */
  lemma UnknownKeysAre(key: string)
    ensures IsUnknown(key) <==> key == "unknown" || exists head :: key == head + ":unknown"
  {
    if |key| > |UNKNOWN| && IsUnknown(key) {
      assert key == key[..|key| - 8] + ":unknown";
    }
    forall head | key == head + ":unknown" ensures IsUnknown(key) {
      assert key[|key| - 8..] == ":unknown";
    }
  }

  function At(buckets: map<string, Bucket>, key: string): Option<Bucket> {
    if key in buckets then Some(buckets[key]) else None
  }

  class MemoryTokenBucketLimiter {
    var buckets: map<string, Bucket>
    const defaultConfig: Config
    const strategy: UnknownKeyStrategy

    constructor (defaultConfig: Config, strategy: UnknownKeyStrategy)
      requires defaultConfig.Valid()
      ensures buckets == map[] && this.defaultConfig == defaultConfig && this.strategy == strategy
    {
      buckets, this.defaultConfig, this.strategy := map[], defaultConfig, strategy;
    }

    function Effective(override: Option<Config>): Config {
      if override.Some? then override.value else defaultConfig
    }

    /** One token-bucket step on the key's own bucket; a rejected key or an invalid override touches
        nothing, and no call touches another key's bucket. */
    method Consume(key: string, cost: real, override: Option<Config>, now: int) returns (reply: Reply)
      requires defaultConfig.Valid()
      modifies this
      ensures forall k | k != key :: At(buckets, k) == old(At(buckets, k))
      ensures strategy.Reject? && IsUnknown(key) ==>
                reply == Answered(Result(false, 0, now, Some(0))) && buckets == old(buckets)
      ensures !(strategy.Reject? && IsUnknown(key)) ==>
                if Effective(override).Valid()
                then
                  var (b, result) := TokenBucket.Consume(old(At(buckets, key)), now, cost, Effective(override));
                  reply == Answered(result) && At(buckets, key) == Some(b)
                else reply == InvalidConfig && buckets == old(buckets)
    {
      if IsUnknown(key) && strategy.Reject? {
        return Answered(Result(false, 0, now, Some(0)));
      }
      var cfg := Effective(override);
      if !cfg.Valid() {
        return InvalidConfig;
      }
      var (newState, result) := TokenBucket.Consume(At(buckets, key), now, cost, cfg);
      buckets := buckets[key := newState];
      return Answered(result);
    }

    method Peek(key: string, override: Option<Config>, now: int) returns (reply: Reply)
      requires defaultConfig.Valid()
      ensures reply == if Effective(override).Valid()
                       then Answered(TokenBucket.Peek(At(buckets, key), now, Effective(override))) else InvalidConfig
    {
      var cfg := Effective(override);
      if !cfg.Valid() {
        return InvalidConfig;
      }
      return Answered(TokenBucket.Peek(At(buckets, key), now, cfg));
    }

    method Reset(key: string)
      modifies this
      ensures At(buckets, key) == None
      ensures forall k | k != key :: At(buckets, k) == old(At(buckets, k))
    {
      buckets := buckets - {key};
    }
  }
}
