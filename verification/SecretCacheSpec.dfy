/** What the secret cache means: a list of live secrets, least recently touched first. */
module SecretCacheSpec {
  import opened Options
  import opened Bytes

  /** Derived by the caller from a secret reference and version; only ever compared. */
  datatype Key = Key(text: string)

  datatype Slot = Slot(key: Key, bytes: seq<byte>, expiresAt: int)

  ghost predicate Has(l: seq<Slot>, key: Key) {
    exists i :: 0 <= i < |l| && l[i].key == key
  }

  /** Where a key stands; lists carry every key at most once. */
  ghost function Place(l: seq<Slot>, key: Key): (p: nat)
    requires Has(l, key)
    ensures p < |l| && l[p].key == key
  {
    var i :| 0 <= i < |l| && l[i].key == key;
    i
  }

  ghost function Without(l: seq<Slot>, key: Key): (r: seq<Slot>) {
    if Has(l, key) then l[..Place(l, key)] + l[Place(l, key) + 1..] else l
  }

  /** Drop from the front until at most `max` are left. */
  function Trim(l: seq<Slot>, max: int): (r: seq<Slot>) {
    if |l| <= max then l else if max >= 0 then l[|l| - max..] else []
  }

  ghost function Get(l: seq<Slot>, key: Key, now: int): (r: (seq<Slot>, Option<seq<byte>>)) {
    if !Has(l, key) then (l, None)
    else
      var slot := l[Place(l, key)];
      if slot.expiresAt <= now then (Without(l, key), None)
      else (Without(l, key) + [slot], Some(slot.bytes))
  }

  ghost function Set(l: seq<Slot>, key: Key, bytes: seq<byte>, expiresAt: int, max: int): (r: seq<Slot>) {
    Trim(Without(l, key) + [Slot(key, bytes, expiresAt)], max)
  }

  // ---- runs ---------------------------------------------------------------------------------------

  datatype Op = DoGet(key: Key, now: int) | DoSet(key: Key, bytes: seq<byte>,
      now: int) | DoInvalidate(key: Key) | DoClear

  datatype Limits = Limits(max: int, ttlMs: int)

  ghost function Exec(l: seq<Slot>, op: Op, lim: Limits): (r: seq<Slot>) {
    match op
    case DoGet(key, now) => Get(l, key, now).0
    case DoSet(key, bytes, now) => Set(l, key, bytes, now + lim.ttlMs, lim.max)
    case DoInvalidate(key) => Without(l, key)
    case DoClear => []
  }

  ghost function Run(ops: seq<Op>, lim: Limits): (r: seq<Slot>) {
    if ops == [] then [] else Exec(Run(ops[..|ops| - 1], lim), ops[|ops| - 1], lim)
  }

  /** An independent account of a run: at which call each key was last set or successfully read,
      and what it was last set to. */
  datatype Journal = Journal(touched: map<Key, nat>, lastSet: map<Key, (seq<byte>, int)>)

  function Note(j: Journal, op: Op, n: nat, hit: bool): Journal {
    match op
    case DoGet(key, _) => if hit then j.(touched := j.touched[key := n]) else j
    case DoSet(key, bytes, now) => Journal(j.touched[key := n], j.lastSet[key := (bytes, now)])
    case DoInvalidate(_) => j
    case DoClear => j
  }

  ghost predicate Hit(l: seq<Slot>, op: Op) {
    op.DoGet? && Get(l, op.key, op.now).1.Some?
  }

  ghost function JournalOf(ops: seq<Op>, lim: Limits): (j: Journal) {
    if ops == [] then Journal(map[], map[])
    else
      var before, op := ops[..|ops| - 1], ops[|ops| - 1];
      Note(JournalOf(before, lim), op, |before|, Hit(Run(before, lim), op))
  }

  predicate DistinctKeys(l: seq<Slot>) {
    forall i, j | 0 <= i < j < |l| :: l[i].key != l[j].key
  }

  predicate Journaled(slot: Slot, j: Journal, ttlMs: int) {
    && slot.key in j.touched && slot.key in j.lastSet
    && slot.bytes == j.lastSet[slot.key].0
    && slot.expiresAt == j.lastSet[slot.key].1 + ttlMs
  }

  /** Each secret under its own key, holding the bytes and the expiry of its last set, and the
      secrets in the order in which their keys were last touched. */
  predicate Records(l: seq<Slot>, j: Journal, ttlMs: int) {
    && DistinctKeys(l)
    && (forall i | 0 <= i < |l| :: Journaled(l[i], j, ttlMs))
    && (forall i, k | 0 <= i < k < |l| :: j.touched[l[i].key] < j.touched[l[k].key])
  }

  predicate Before(j: Journal, n: nat) {
    forall k | k in j.touched :: j.touched[k] < n
  }

  lemma CutStillRecords(l: seq<Slot>, key: Key, j: Journal, ttlMs: int)
    requires Records(l, j, ttlMs)
    ensures Records(Without(l, key), j, ttlMs)
    ensures |Without(l, key)| <= |l| && !Has(Without(l, key), key)
    ensures Has(l, key) ==> |Without(l, key)| < |l|
  {
    if Has(l, key) {
      var p, r := Place(l, key), Without(l, key);
      forall i | 0 <= i < |r| ensures Journaled(r[i], j, ttlMs) && r[i].key != key {
        assert r[i] == if i < p then l[i] else l[i + 1];
      }
    }
  }

  /** A touched key goes to the end, past every key touched before. */
  lemma AppendStillRecords(l: seq<Slot>, slot: Slot, j: Journal, j': Journal, n: nat, ttlMs: int)
    requires Records(l, j, ttlMs) && !Has(l, slot.key) && Before(j, n)
    requires j'.touched == j.touched[slot.key := n]
    requires Journaled(slot, j', ttlMs)
    requires forall k | k in j.lastSet && k != slot.key :: k in j'.lastSet && j'.lastSet[k] == j.lastSet[k]
    ensures Records(l + [slot], j', ttlMs)
  {
    var r := l + [slot];
    forall i | 0 <= i < |l| ensures l[i].key != slot.key && r[i] == l[i] && Journaled(r[i], j', ttlMs) {
      assert Journaled(l[i], j, ttlMs);
    }
  }

  lemma TrimStillRecords(l: seq<Slot>, max: int, j: Journal, ttlMs: int)
    requires Records(l, j, ttlMs)
    ensures Records(Trim(l, max), j, ttlMs)
  {
    var r := Trim(l, max);
    forall i | 0 <= i < |r| ensures r[i] == l[|l| - |r| + i] {
    }
  }

  predicate Faithful(l: seq<Slot>, j: Journal, n: nat, lim: Limits) {
    Records(l, j, lim.ttlMs) && Before(j, n) && (lim.max >= 0 ==> |l| <= lim.max)
  }

  lemma CutKeepsFaith(l: seq<Slot>, j: Journal, n: nat, op: Op, lim: Limits)
    requires Faithful(l, j, n, lim) && !op.DoSet? && !Hit(l, op)
    ensures Faithful(Exec(l, op, lim), Note(j, op, n, Hit(l, op)), n + 1, lim)
  {
    if !op.DoClear? {
      CutStillRecords(l, op.key, j, lim.ttlMs);
    }
  }

  lemma HitKeepsFaith(l: seq<Slot>, j: Journal, n: nat, op: Op, lim: Limits)
    requires Faithful(l, j, n, lim) && Hit(l, op)
    ensures Faithful(Exec(l, op, lim), Note(j, op, n, Hit(l, op)), n + 1, lim)
  {
    var key := op.key;
    CutStillRecords(l, key, j, lim.ttlMs);
    assert Journaled(l[Place(l, key)], j, lim.ttlMs);
    AppendStillRecords(Without(l, key), l[Place(l, key)], j, Note(j, op, n, true), n, lim.ttlMs);
  }

  lemma SetStillRecords(l: seq<Slot>, j: Journal, n: nat, op: Op, lim: Limits) returns (added: seq<Slot>)
    requires Faithful(l, j, n, lim) && op.DoSet?
    ensures added == Without(l, op.key) + [Slot(op.key, op.bytes, op.now + lim.ttlMs)]
    ensures Records(added, Note(j, op, n, false), lim.ttlMs) && Before(Note(j, op, n, false), n + 1)
  {
    var slot := Slot(op.key, op.bytes, op.now + lim.ttlMs);
    added := Without(l, op.key) + [slot];
    CutStillRecords(l, op.key, j, lim.ttlMs);
    AppendStillRecords(Without(l, op.key), slot, j, Note(j, op, n, false), n, lim.ttlMs);
  }

  lemma SetIsTrimmed(l: seq<Slot>, op: Op, lim: Limits, added: seq<Slot>)
    requires op.DoSet? && added == Without(l, op.key) + [Slot(op.key, op.bytes, op.now + lim.ttlMs)]
    ensures Exec(l, op, lim) == Trim(added, lim.max) && !Hit(l, op)
  {
  }

  lemma SetKeepsFaith(l: seq<Slot>, j: Journal, n: nat, op: Op, lim: Limits)
    requires Faithful(l, j, n, lim) && op.DoSet?
    ensures Faithful(Exec(l, op, lim), Note(j, op, n, Hit(l, op)), n + 1, lim)
  {
    var added := SetStillRecords(l, j, n, op, lim);
    SetIsTrimmed(l, op, lim, added);
    TrimStillRecords(added, lim.max, Note(j, op, n, Hit(l, op)), lim.ttlMs);
  }

  lemma ExecKeepsFaith(l: seq<Slot>, j: Journal, n: nat, op: Op, lim: Limits)
    requires Faithful(l, j, n, lim)
    ensures Faithful(Exec(l, op, lim), Note(j, op, n, Hit(l, op)), n + 1, lim)
  {
    if op.DoSet? {
      SetKeepsFaith(l, j, n, op, lim);
    } else if Hit(l, op) {
      HitKeepsFaith(l, j, n, op, lim);
    } else {
      CutKeepsFaith(l, j, n, op, lim);
    }
  }

  /** Any run: at most `max` secrets, ordered by recency, each the last one set under its key. */
  lemma {:induction false} RunsAreFaithful(ops: seq<Op>, lim: Limits)
    ensures Faithful(Run(ops, lim), JournalOf(ops, lim), |ops|, lim)
  {
    if ops != [] {
      var before, op := ops[..|ops| - 1], ops[|ops| - 1];
      RunsAreFaithful(before, lim);
      ExecKeepsFaith(Run(before, lim), JournalOf(before, lim), |before|, op, lim);
    }
  }

  /** A successful get returns the bytes last set under the key, within their time to live. */
  lemma GetReturnsLastSet(ops: seq<Op>, key: Key, now: int, lim: Limits)
    ensures var got, j := Get(Run(ops, lim), key, now).1, JournalOf(ops, lim);
            got.Some? ==> key in j.lastSet && got.value == j.lastSet[key].0 && now < j.lastSet[key].1 + lim.ttlMs
  {
    RunsAreFaithful(ops, lim);
    var l := Run(ops, lim);
    if Has(l, key) {
      assert Journaled(l[Place(l, key)], JournalOf(ops, lim), lim.ttlMs);
    }
  }

  /** Adding to a list of distinct keys and trimming it loses only its front. */
  lemma SetLosesTheFront(l: seq<Slot>, key: Key, bytes: seq<byte>, expiresAt: int, max: int, k: Key)
    requires DistinctKeys(l) && |l| <= max && max >= 1 && k != key
    requires Has(l, k) && !Has(Set(l, key, bytes, expiresAt, max), k)
    ensures |l| == max && !Has(l, key) && l[0].key == k
  {
    var i := Place(l, k);
    var added := Without(l, key) + [Slot(key, bytes, expiresAt)];
    var trimmed := Trim(added, max);
    var q := if !Has(l, key) || i < Place(l, key) then i else i - 1;
    assert added[q].key == k;
    forall j | |added| - |trimmed| <= j < |added| ensures added[j].key != k {
      assert trimmed[j - (|added| - |trimmed|)] == added[j];
    }
  }

  /** Set evicts only on overflow, and then only the one secret touched longest ago. */
  lemma VictimIsLeastRecentlyTouched(ops: seq<Op>, key: Key, bytes: seq<byte>, now: int, lim: Limits, k: Key)
    requires lim.max >= 1
    requires k != key && Has(Run(ops, lim), k) && !Has(Set(Run(ops, lim), key, bytes, now + lim.ttlMs, lim.max), k)
    ensures |Run(ops, lim)| == lim.max && !Has(Run(ops, lim), key)
    ensures var touched := JournalOf(ops, lim).touched;
            forall other | other != k && Has(Run(ops, lim), other) :: k in touched && other in touched
                && touched[k] < touched[other]
  {
    var l, j := Run(ops, lim), JournalOf(ops, lim);
    RunsAreFaithful(ops, lim);
    SetLosesTheFront(l, key, bytes, now + lim.ttlMs, lim.max, k);
    FrontIsOldest(l, j, lim.ttlMs);
  }

  lemma FrontIsOldest(l: seq<Slot>, j: Journal, ttlMs: int)
    requires l != [] && Records(l, j, ttlMs)
    ensures forall other | other != l[0].key && Has(l, other) ::
              l[0].key in j.touched && other in j.touched && j.touched[l[0].key] < j.touched[other]
  {
    forall other | other != l[0].key && Has(l, other)
      ensures l[0].key in j.touched && other in j.touched && j.touched[l[0].key] < j.touched[other]
    {
      assert Journaled(l[0], j, ttlMs) && Journaled(l[Place(l, other)], j, ttlMs);
    }
  }

  // ---- what stays -----------------------------------------------------------------------------------------

  /** A get hits exactly when the key is held and has not expired; it answers what is held. */
  lemma GetHitsExactlyWhen(l: seq<Slot>, key: Key, now: int)
    ensures Get(l, key, now).1
         == if Has(l, key) && now < l[Place(l, key)].expiresAt then Some(l[Place(l, key)].bytes) else None
  {
  }

  lemma WithoutHolds(l: seq<Slot>, key: Key, k: Key)
    requires DistinctKeys(l)
    ensures Has(Without(l, key), k) <==> k != key && Has(l, k)
  {
    if Has(l, key) {
      var p, r := Place(l, key), Without(l, key);
      assert forall i | 0 <= i < |r| :: r[i] == if i < p then l[i] else l[i + 1];
      if k != key && Has(l, k) {
        var q := Place(l, k);
        assert r[if q < p then q else q - 1].key == k;
      }
    }
  }

  lemma AppendHolds(l: seq<Slot>, slot: Slot, k: Key)
    ensures Has(l + [slot], k) <==> k == slot.key || Has(l, k)
  {
    assert (l + [slot])[|l|] == slot;
    if Has(l, k) {
      assert (l + [slot])[Place(l, k)].key == k;
    }
    if Has(l + [slot], k) && k != slot.key {
      assert l[Place(l + [slot], k)].key == k;
    }
  }

  lemma BehindTheFrontHolds(l: seq<Slot>, k: Key)
    requires DistinctKeys(l) && l != []
    ensures Has(l[1..], k) <==> Has(l, k) && l[0].key != k
  {
    if Has(l, k) && l[0].key != k {
      assert l[1..][Place(l, k) - 1].key == k;
    }
    if Has(l[1..], k) {
      assert l[Place(l[1..], k) + 1].key == k;
    }
  }

  lemma TrimDropsOneAtMost(l: seq<Slot>, max: int)
    requires 0 <= max && |l| <= max + 1
    ensures Trim(l, max) == if |l| == max + 1 then l[1..] else l
  {
  }

  /** After a set: the key itself, and every other that was held, but for the front one of a full list to which a new
      key is added. */
  lemma SetHolds(l: seq<Slot>, key: Key, bytes: seq<byte>, expiresAt: int, max: int, k: Key)
    requires DistinctKeys(l) && |l| <= max && max >= 1
    ensures Has(Set(l, key, bytes, expiresAt, max), k)
       <==> k == key || (Has(l, k) && !(|l| == max && !Has(l, key) && l[0].key == k))
  {
    var slot := Slot(key, bytes, expiresAt);
    var added := Without(l, key) + [slot];
    WithoutHolds(l, key, k);
    AppendHolds(Without(l, key), slot, k);
    TrimDropsOneAtMost(added, max);
    if |added| == max + 1 {
      assert added == l + [slot] && !Has(l, key);
      assert forall i | 0 <= i < |l| :: l[i].key != key;
      BehindTheFrontHolds(added, k);
    }
  }

  /** Which keys are held after a call, told from those held before: a get loses its own key if that has expired, a
      set the front one if a new key makes the list too long, invalidation its key, clearing all. */
  lemma HeldAfterExactlyWhen(l: seq<Slot>, op: Op, lim: Limits, k: Key)
    requires DistinctKeys(l) && |l| <= lim.max && lim.max >= 1
    ensures Has(Exec(l, op, lim), k) <==>
            match op
            case DoGet(key, now) => Has(l, k) && (k == key ==> now < l[Place(l, k)].expiresAt)
            case DoSet(key, _, _) => k == key || (Has(l, k) && !(|l| == lim.max && !Has(l, key) && l[0].key == k))
            case DoInvalidate(key) => Has(l, k) && k != key
            case DoClear => false
  {
    match op
    case DoGet(key, now) =>
      WithoutHolds(l, key, k);
      if Has(l, key) {
        AppendHolds(Without(l, key), l[Place(l, key)], k);
      }
    case DoSet(key, bytes, now) => SetHolds(l, key, bytes, now + lim.ttlMs, lim.max, k);
    case DoInvalidate(key) => WithoutHolds(l, key, k);
    case DoClear =>
  }

  /** The other keys touched since this one. */
  function TouchedSince(j: Journal, key: Key): set<Key> {
    set k | k in j.touched && k != key && key in j.touched && j.touched[k] > j.touched[key]
  }

  /** The key has been set, not invalidated, cleared or asked for after its time since, and at no set of another have
      as many other keys as the cache holds been touched since it was. */
  ghost predicate Sheltered(ops: seq<Op>, key: Key, lim: Limits) {
    ops != [] &&
      var before, op := ops[..|ops| - 1], ops[|ops| - 1];
      match op
      case DoSet(k, _, _) =>
        k == key || (Sheltered(before, key, lim) && |TouchedSince(JournalOf(ops, lim), key)| < lim.max)
      case DoGet(k, now) => Sheltered(before, key, lim) && (k == key ==> InTime(JournalOf(before, lim), key, now, lim))
      case DoInvalidate(k) => Sheltered(before, key, lim) && k != key
      case DoClear => false
  }

  predicate InTime(j: Journal, key: Key, now: int, lim: Limits) {
    key in j.lastSet && now < j.lastSet[key].1 + lim.ttlMs
  }

  function KeysOf(l: seq<Slot>): set<Key> {
    set i | 0 <= i < |l| :: l[i].key
  }

  lemma {:induction false} DistinctKeysCount(l: seq<Slot>)
    requires DistinctKeys(l)
    ensures |KeysOf(l)| == |l|
  {
    if l != [] {
      var init, last := l[..|l| - 1], l[|l| - 1];
      DistinctKeysCount(init);
      assert KeysOf(l) == KeysOf(init) + {last.key};
    }
  }

  /** Were the front one of a full list lost to a new key, as many others would have been touched since. */
  lemma LostMeansManyTouched(l: seq<Slot>, j: Journal, n: nat, op: Op, lim: Limits)
    requires Faithful(l, j, n, lim) && op.DoSet? && l != [] && |l| == lim.max && !Has(l, op.key)
    ensures |TouchedSince(Note(j, op, n, false), l[0].key)| >= lim.max
  {
    var later, key := TouchedSince(Note(j, op, n, false), l[0].key), l[0].key;
    assert Journaled(l[0], j, lim.ttlMs) && op.key != key;
    assert forall i | 0 <= i < |l| :: l[i].key != op.key;
    forall k | k in KeysOf(l[1..]) ensures k in later && k != op.key {
      var i :| 0 <= i < |l[1..]| && l[1..][i].key == k;
      assert l[i + 1].key == k && Journaled(l[i + 1], j, lim.ttlMs);
    }
    DistinctKeysCount(l[1..]);
    SubsetIsSmaller(KeysOf(l[1..]) + {op.key}, later);
  }

  lemma {:induction false} SubsetIsSmaller(a: set<Key>, b: set<Key>)
    requires a <= b
    ensures |a| <= |b|
  {
    if a != {} {
      var x :| x in a;
      SubsetIsSmaller(a - {x}, b - {x});
    }
  }

  /** Least recently used, as a promise: a sheltered secret is held. */
  lemma {:induction false} ShelteredIsHeld(ops: seq<Op>, key: Key, lim: Limits)
    requires Sheltered(ops, key, lim) && lim.max >= 1
    ensures Has(Run(ops, lim), key)
  {
    var before, op := ops[..|ops| - 1], ops[|ops| - 1];
    var l, j := Run(before, lim), JournalOf(before, lim);
    RunsAreFaithful(before, lim);
    HeldAfterExactlyWhen(l, op, lim, key);
    if Sheltered(before, key, lim) {
      ShelteredIsHeld(before, key, lim);
      assert Journaled(l[Place(l, key)], j, lim.ttlMs);
    }
    if op.DoSet? && op.key != key && |l| == lim.max && !Has(l, op.key) && l[0].key == key {
      LostMeansManyTouched(l, j, |before|, op, lim);
    }
  }

  /** So a get within its time to live returns the bytes last set under it. */
  lemma ShelteredGetHits(ops: seq<Op>, key: Key, now: int, lim: Limits)
    requires Sheltered(ops, key, lim) && lim.max >= 1 && InTime(JournalOf(ops, lim), key, now, lim)
    ensures Get(Run(ops, lim), key, now).1 == Some(JournalOf(ops, lim).lastSet[key].0)
  {
    var l := Run(ops, lim);
    ShelteredIsHeld(ops, key, lim);
    RunsAreFaithful(ops, lim);
    assert Journaled(l[Place(l, key)], JournalOf(ops, lim), lim.ttlMs);
  }
}
