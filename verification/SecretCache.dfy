/** The secret cache: it owns the buffers handed to it, keeps them in recency order in one
    insertion-ordered map, and overwrites with zeros every buffer it lets go. */
module SecretCaches {
  import opened Options
  import opened Bytes
  import Spec = SecretCacheSpec

  type Key = Spec.Key

  datatype Entry = Entry(value: array<byte>, expiresAt: int)

  predicate AllZero(a: array<byte>)
    reads a
  {
    forall i | 0 <= i < a.Length :: a[i] == 0
  }

  method FillZero(a: array<byte>)
    modifies a
    ensures AllZero(a)
  {
    forall i | 0 <= i < a.Length {
      a[i] := 0;
    }
  }

  function Zeros(n: nat): (bytes: seq<byte>)
    ensures |bytes| == n
  {
    seq(n, _ => 0)
  }

  // ---- the map's shape --------------------------------------------------------------------------------

  predicate DistinctKeys(keys: seq<Key>) {
    forall i, j | 0 <= i < j < |keys| :: keys[i] != keys[j]
  }

  /** No buffer under two keys. */
  ghost predicate Unshared(entries: seq<Entry>) {
    forall i, j | 0 <= i < j < |entries| :: entries[i].value != entries[j].value
  }

  ghost function Buffers(entries: seq<Entry>): set<array<byte>> {
    if entries == [] then {} else Buffers(entries[..|entries| - 1]) + {entries[|entries| - 1].value}
  }

  lemma {:induction false} BufferOfEach(entries: seq<Entry>, i: nat)
    requires i < |entries|
    ensures entries[i].value in Buffers(entries)
  {
    if i < |entries| - 1 {
      BufferOfEach(entries[..|entries| - 1], i);
    }
  }

  lemma {:induction false} EntryOfBuffer(entries: seq<Entry>, a: array<byte>) returns (i: nat)
    requires a in Buffers(entries)
    ensures i < |entries| && entries[i].value == a
  {
    if a == entries[|entries| - 1].value {
      i := |entries| - 1;
    } else {
      i := EntryOfBuffer(entries[..|entries| - 1], a);
    }
  }

  lemma {:induction false} BuffersOfBoth(a: seq<Entry>, b: seq<Entry>)
    ensures Buffers(a + b) == Buffers(a) + Buffers(b)
  {
    if b == [] {
      assert a + b == a;
    } else {
      var init := b[..|b| - 1];
      BuffersOfBoth(a, init);
      assert (a + b)[..|a + b| - 1] == a + init;
    }
  }

  lemma NotAmong(entries: seq<Entry>, a: array<byte>)
    requires forall i | 0 <= i < |entries| :: entries[i].value != a
    ensures a !in Buffers(entries)
  {
    if a in Buffers(entries) {
      var i := EntryOfBuffer(entries, a);
      assert false;
    }
  }

  lemma UnsharedBoth(a: seq<Entry>, b: seq<Entry>)
    requires Unshared(a + b)
    ensures Unshared(a) && Unshared(b) && Buffers(a) !! Buffers(b)
  {
    assert forall i | 0 <= i < |a| :: (a + b)[i] == a[i];
    assert forall i | 0 <= i < |b| :: (a + b)[|a| + i] == b[i];
    forall x | x in Buffers(a) ensures x !in Buffers(b) {
      var i := EntryOfBuffer(a, x);
      assert (a + b)[i].value == x;
      forall j | 0 <= j < |b| ensures b[j].value != x {
        assert (a + b)[|a| + j] == b[j];
      }
      NotAmong(b, x);
    }
  }

  ghost function Place(keys: seq<Key>, key: Key): (p: nat)
    requires key in keys
    ensures p < |keys| && keys[p] == key
  {
    var p: nat :| p < |keys| && keys[p] == key;
    p
  }

  function Cut<T>(s: seq<T>, p: nat): (r: seq<T>)
    requires p < |s|
    ensures |r| == |s| - 1
    ensures forall i | 0 <= i < p :: r[i] == s[i]
    ensures forall i | p <= i < |r| :: r[i] == s[i + 1]
  {
    s[..p] + s[p + 1..]
  }

  /** The map without a key. */
  ghost function WithoutKey<T>(s: seq<T>, keys: seq<Key>, key: Key): (r: seq<T>)
    requires |s| == |keys|
  {
    if key in keys then Cut(s, Place(keys, key)) else s
  }

  /** How many entries have to go for the limit. */
  function Overflow(size: nat, maxEntries: int): (n: nat)
    ensures n <= size
  {
    if size <= maxEntries then 0 else if maxEntries < 0 then size else size - maxEntries
  }

  lemma BuffersOfOne(entry: Entry)
    ensures Buffers([entry]) == {entry.value}
  {
    assert [entry][..0] == [];
  }

  /** Taking an entry out takes out its buffer and no other. */
  lemma {:induction false} BuffersOfCut(entries: seq<Entry>, p: nat)
    requires p < |entries|
    ensures Buffers(Cut(entries, p)) + {entries[p].value} == Buffers(entries)
  {
    var n := |entries| - 1;
    if p == n {
      assert Cut(entries, p) == entries[..n];
    } else {
      BuffersOfCut(entries[..n], p);
      CutBeforeLast(entries, p);
      BuffersOfMore(Cut(entries[..n], p), entries[n]);
    }
  }

  lemma CutBeforeLast<T>(s: seq<T>, p: nat)
    requires p < |s| - 1
    ensures Cut(s, p) == Cut(s[..|s| - 1], p) + [s[|s| - 1]]
  {
  }

  lemma UnsharedCut(entries: seq<Entry>, p: nat)
    requires p < |entries| && Unshared(entries)
    ensures Unshared(Cut(entries, p)) && entries[p].value !in Buffers(Cut(entries, p))
  {
    var rest := Cut(entries, p);
    assert forall i | 0 <= i < |rest| :: rest[i] == entries[if i < p then i else i + 1];
    NotAmong(rest, entries[p].value);
  }

  lemma BuffersOfMore(entries: seq<Entry>, entry: Entry)
    ensures Buffers(entries + [entry]) == Buffers(entries) + {entry.value}
    ensures Unshared(entries) && entry.value !in Buffers(entries) ==> Unshared(entries + [entry])
  {
    BuffersOfBoth(entries, [entry]);
    BuffersOfOne(entry);
    var more := entries + [entry];
    if entry.value !in Buffers(entries) {
      forall i | 0 <= i < |entries| ensures more[i] == entries[i] && entries[i].value != entry.value {
        BufferOfEach(entries, i);
      }
    }
  }

  /** An entry's secret as its buffer now reads. */
  ghost function SlotAt(key: Key, entry: Entry): Spec.Slot
    reads entry.value
  {
    Spec.Slot(key, entry.value[..], entry.expiresAt)
  }

  ghost function SlotsOf(keys: seq<Key>, entries: seq<Entry>): (l: seq<Spec.Slot>)
    requires |keys| == |entries|
    reads Buffers(entries)
    ensures |l| == |keys|
  {
    if keys == [] then []
    else
      var n := |keys| - 1;
      SlotsOf(keys[..n], entries[..n]) + [SlotAt(keys[n], entries[n])]
  }

  lemma {:induction false} SlotsAt(keys: seq<Key>, entries: seq<Entry>, i: nat)
    requires |keys| == |entries| && i < |keys|
    ensures SlotsOf(keys, entries)[i] == SlotAt(keys[i], entries[i])
  {
    if i < |keys| - 1 {
      SlotsAt(keys[..|keys| - 1], entries[..|keys| - 1], i);
    }
  }

  class SecretCache {
    const maxEntries: int
    const ttlMs: int
    /** The map's keys in insertion order, and its entries in the same order. */
    var keys: seq<Key>
    var entries: seq<Entry>
    ghost var owned: set<array<byte>>
    ghost var released: set<array<byte>>

    /** What holds whatever buffers callers hand in. */
    ghost predicate Shaped()
      reads this
    {
      |keys| == |entries| && DistinctKeys(keys) && owned == Buffers(entries)
    }

    /** What holds as long as no buffer is handed in that the cache already holds under another key. */
    ghost predicate Valid()
      reads this
    {
      Shaped() && Unshared(entries)
    }

    /** And as long as nobody writes to a buffer the cache has let go: all of those are zeros. */
    ghost predicate Clean()
      reads this, released
    {
      Valid() && owned !! released && forall a | a in released :: AllZero(a)
    }

    /** The secrets held, least recently touched first, read off the owned buffers themselves. */
    ghost function Slots(): (l: seq<Spec.Slot>)
      requires Shaped()
      reads this, owned
      ensures |l| == |keys|
    {
      SlotsOf(keys, entries)
    }

    /** Slot by slot, the list is what the buffers hold. */
    ghost predicate Read()
      requires Shaped()
      reads this, owned
    {
      forall i | 0 <= i < |keys| :: entries[i].value in owned && Slots()[i] == SlotAt(keys[i], entries[i])
    }

    lemma AlwaysRead()
      requires Shaped()
      ensures Read()
    {
      forall i | 0 <= i < |keys|
        ensures entries[i].value in owned && Slots()[i] == SlotAt(keys[i], entries[i])
      {
        BufferOfEach(entries, i);
        SlotsAt(keys, entries, i);
      }
    }

    /** A list that is what the buffers hold, slot by slot, is the list of secrets. */
    lemma ReadsAs(l: seq<Spec.Slot>)
      requires Shaped() && |l| == |keys| && forall i | 0 <= i < |keys| :: l[i] == SlotAt(keys[i], entries[i])
      ensures Slots() == l
    {
      AlwaysRead();
    }

    /** The buffer is held under this key. */
    ghost predicate HeldUnder(key: Key, value: array<byte>)
      requires Shaped()
      reads this
    {
      key in keys && entries[Place(keys, key)].value == value
    }

    ghost predicate HeldElsewhere(key: Key, value: array<byte>)
      requires Shaped()
      reads this
    {
      exists i :: 0 <= i < |keys| && keys[i] != key && entries[i].value == value
    }

    constructor (maxEntries: int, ttlSeconds: int)
      ensures Clean() && Slots() == [] && owned == {} && released == {}
      ensures this.maxEntries == maxEntries && ttlMs == ttlSeconds * 1000
    {
      this.maxEntries, ttlMs := maxEntries, ttlSeconds * 1000;
      keys, entries, owned, released := [], [], {}, {};
    }

    /** The position of a key in the map. */
    method Find(key: Key) returns (p: nat)
      requires Shaped()
      ensures p <= |keys| && (p < |keys| <==> key in keys)
      ensures p < |keys| ==> keys[p] == key && Place(keys, key) == p
      ensures Spec.Has(Slots(), key) <==> p < |keys|
      ensures p < |keys| ==> Spec.Place(Slots(), key) == p
    {
      p := 0;
      while p < |keys| && keys[p] != key
        invariant p <= |keys|
        invariant forall i | 0 <= i < p :: keys[i] != key
      {
        p := p + 1;
      }
      AlwaysRead();
      if p < |keys| {
        assert Slots()[p].key == key;
      }
    }

    /** Take the entry at `p` out of the map and zero its buffer, whoever else shares it. */
    method Evict(p: nat)
      requires Shaped() && p < |keys|
      modifies this, owned
      ensures Shaped() && keys == Cut(old(keys), p) && entries == Cut(old(entries), p)
      ensures AllZero(old(entries[p].value))
      ensures forall a | a in old(owned) && a != old(entries[p].value) :: a[..] == old(a[..])
      ensures released == old(released) + {old(entries[p].value)}
      ensures owned + {old(entries[p].value)} == old(owned)
      ensures old(Valid()) ==> Valid() && Slots() == Cut(old(Slots()), p)
      ensures old(Clean()) ==> Clean()
    {
      ghost var left, valid := Cut(Slots(), p), Valid();
      AlwaysRead();
      Release(p);
      if valid {
        forall i | 0 <= i < |keys| ensures left[i] == SlotAt(keys[i], entries[i]) {
          BufferOfEach(entries, i);
        }
        ReadsAs(left);
      }
    }

    method Release(p: nat)
      requires Shaped() && p < |keys|
      modifies this, owned
      ensures Shaped() && keys == Cut(old(keys), p) && entries == Cut(old(entries), p)
      ensures AllZero(old(entries[p].value))
      ensures forall a | a in old(owned) && a != old(entries[p].value) :: a[..] == old(a[..])
      ensures released == old(released) + {old(entries[p].value)}
      ensures owned + {old(entries[p].value)} == old(owned)
      ensures old(Unshared(entries)) ==> Unshared(entries) && old(entries[p].value) !in owned
    {
      BufferOfEach(entries, p);
      FillZero(entries[p].value);
      Drop(p);
    }

    /** Deletion from the map. */
    method Drop(p: nat)
      requires Shaped() && p < |keys|
      modifies this
      ensures Shaped() && keys == Cut(old(keys), p) && entries == Cut(old(entries), p)
      ensures released == old(released) + {old(entries[p].value)}
      ensures owned + {old(entries[p].value)} == old(owned)
      ensures old(Unshared(entries)) ==> Unshared(entries) && old(entries[p].value) !in owned
    {
      BuffersOfCut(entries, p);
      if Unshared(entries) {
        UnsharedCut(entries, p);
      }
      released := released + {entries[p].value};
      keys := Cut(keys, p);
      entries := Cut(entries, p);
      owned := Buffers(entries);
    }

    method EvictKey(key: Key) returns (removed: bool)
      requires Shaped()
      modifies this, owned
      ensures Shaped() && key !in keys
      ensures removed <==> key in old(keys)
      ensures keys == old(WithoutKey(keys, keys, key)) && entries == old(WithoutKey(entries, keys, key))
      ensures removed ==> AllZero(old(entries[Place(keys, key)].value))
      ensures forall a | a in old(owned) && !old(HeldUnder(key, a)) :: a[..] == old(a[..])
      ensures old(Valid()) ==> Valid() && Slots() == old(Spec.Without(Slots(), key))
      ensures old(Clean()) ==> Clean()
      ensures owned + released == old(owned + released) && old(released) <= released && owned <= old(owned)
    {
      var p := Find(key);
      removed := p < |keys|;
      KeyGone(keys, key);
      if removed {
        Evict(p);
      }
    }

    ghost predicate LiveAt(key: Key, now: int)
      requires Shaped()
      reads this
    {
      key in keys && entries[Place(keys, key)].expiresAt > now
    }

    /** The cached buffer, or none on a miss or past the expiry, which also evicts. */
    method Get(key: Key, now: int) returns (value: Option<array<byte>>)
      requires Shaped()
      modifies this, owned
      ensures Shaped() && owned + released == old(owned + released) && old(released) <= released
      ensures value.Some? <==> old(LiveAt(key, now))
      ensures value.Some? ==> value.value == old(entries[Place(keys, key)].value) && owned == old(owned)
      ensures value.Some? ==> HeldUnder(key, value.value) && LiveAt(key, now) && |keys| == old(|keys|)
      ensures value.Some? ==> forall a | a in owned :: a[..] == old(a[..])
      ensures old(Valid()) ==> Valid() && Slots() == old(Spec.Get(Slots(), key, now).0)
      ensures old(Clean()) ==> Clean()
      ensures old(Valid()) ==>
                match old(Spec.Get(Slots(), key, now).1)
                case Some(bytes) => value.Some? && value.value in owned && value.value[..] == bytes
                case None => value.None?
    {
      ghost var before := Slots();
      AlwaysRead();
      var p := Find(key);
      if p == |keys| {
        return None;
      }
      SpecGetAt(before, key, now);
      if entries[p].expiresAt <= now {
        Evict(p);
        return None;
      }
      value := Some(entries[p].value);
      Touch(p);
      AloneAtEnd(keys, key);
    }

    /** Re-insertion: the entry at `p` moves to the end. */
    method Touch(p: nat)
      requires Shaped() && p < |keys|
      modifies this
      ensures Shaped() && owned == old(owned) && released == old(released)
      ensures keys == Cut(old(keys), p) + [old(keys)[p]] && entries == Cut(old(entries), p) + [old(entries)[p]]
      ensures old(Valid()) ==> Valid() && Slots() == Cut(old(Slots()), p) + [old(Slots())[p]]
      ensures old(Clean()) ==> Clean()
    {
      ghost var moved := Cut(Slots(), p) + [Slots()[p]];
      AlwaysRead();
      var key, entry := keys[p], entries[p];
      MovedToEnd(keys, entries, p);
      keys := Cut(keys, p) + [key];
      entries := Cut(entries, p) + [entry];
      ReadsAs(moved);
    }

    /** Entries go from the front until the limit holds; every one of their buffers is zeroed. */
    method EvictOverflow() returns (ghost gone: set<array<byte>>)
      requires Shaped()
      modifies this, owned
      ensures Shaped()
      ensures var n := Overflow(old(|keys|), maxEntries);
              keys == old(keys)[n..] && entries == old(entries)[n..] && gone == Buffers(old(entries)[..n])
      ensures forall a | a in old(owned) && a in gone :: AllZero(a)
      ensures forall a | a in old(owned) && a !in gone :: a[..] == old(a[..])
      ensures old(Valid()) ==> Valid() && Slots() == old(Spec.Trim(Slots(), maxEntries))
      ensures old(Clean()) ==> Clean()
      ensures released == old(released) + gone && owned + gone == old(owned)
    {
      ghost var before, valid := Slots(), Valid();
      AlwaysRead();
      ghost var n;
      gone, n := EvictFront();
      FrontBuffers(old(entries), n);
      TrimDrops(before, maxEntries);
      if valid {
        forall i | 0 <= i < |keys| ensures before[n..][i] == SlotAt(keys[i], entries[i]) {
          BufferOfEach(entries, i);
        }
        ReadsAs(before[n..]);
      }
    }

    /** The eviction loop. */
    method EvictFront() returns (ghost gone: set<array<byte>>, ghost n: nat)
      requires Shaped()
      modifies this, owned
      ensures Shaped() && n == Overflow(old(|keys|), maxEntries)
      ensures keys == old(keys)[n..] && entries == old(entries)[n..] && gone == Buffers(old(entries)[..n])
      ensures forall a | a in old(owned) && a in gone :: AllZero(a)
      ensures forall a | a in old(owned) && a !in gone :: a[..] == old(a[..])
      ensures released == old(released) + gone
    {
      gone, n := {}, 0;
      while |keys| > maxEntries && keys != []
        invariant Shaped() && n <= Overflow(old(|keys|), maxEntries)
        invariant keys == old(keys)[n..] && entries == old(entries)[n..] && gone == Buffers(old(entries)[..n])
        invariant owned <= old(owned) && released == old(released) + gone
        invariant forall a | a in old(owned) && a in gone :: AllZero(a)
        invariant forall a | a in old(owned) && a !in gone :: a[..] == old(a[..])
        decreases |keys|
      {
        FirstBuffers(old(entries), n);
        gone := gone + {entries[0].value};
        ReleaseFirst();
        n := n + 1;
      }
    }

    method ReleaseFirst()
      requires Shaped() && keys != []
      modifies this, owned
      ensures Shaped() && keys == old(keys)[1..] && entries == old(entries)[1..]
      ensures AllZero(old(entries[0].value))
      ensures forall a | a in old(owned) && a != old(entries[0].value) :: a[..] == old(a[..])
      ensures released == old(released) + {old(entries[0].value)}
      ensures owned + {old(entries[0].value)} == old(owned)
    {
      CutFirst(keys);
      CutFirst(entries);
      Release(0);
    }

    /** What the map holds once `value` has been added under `key`, before the limit is enforced. */
    ghost function Added(key: Key, value: array<byte>, now: int): (added: seq<Entry>)
      requires Shaped()
      reads this
    {
      WithoutKey(entries, keys, key) + [Entry(value, now + ttlMs)]
    }

    /** The buffers that storing `value` under `key` zeroes: the one it replaces and those it pushes out. */
    ghost function Zeroed(key: Key, value: array<byte>, now: int): set<array<byte>>
      requires Shaped()
      reads this
    {
      (if key in keys then {entries[Place(keys, key)].value} else {})
      + Buffers(Added(key, value, now)[..Overflow(|Added(key, value, now)|, maxEntries)])
    }

    /** Insertion at the end of the map. */
    method Append(key: Key, value: array<byte>, now: int)
      requires Shaped() && key !in keys
      modifies this
      ensures Shaped() && keys == old(keys) + [key] && entries == old(entries) + [Entry(value, now + ttlMs)]
      ensures owned == old(owned) + {value} && released == old(released) - {value}
      ensures old(Clean()) && value !in old(owned) ==> Clean()
      ensures old(Valid()) && value !in old(owned) ==>
                Valid() && Slots() == old(Slots()) + [Spec.Slot(key, value[..], now + ttlMs)]
    {
      ghost var more := Slots() + [Spec.Slot(key, value[..], now + ttlMs)];
      AlwaysRead();
      BuffersOfMore(entries, Entry(value, now + ttlMs));
      keys := keys + [key];
      entries := entries + [Entry(value, now + ttlMs)];
      owned, released := owned + {value}, released - {value};
      ReadsAs(more);
    }

    /** Store a buffer, whoever holds it already; from here on the cache owns it. Exactly the buffers replaced
        and pushed out are zeroed, so the bytes passed are stored if and only if `value` is none of them. */
    method Set(key: Key, value: array<byte>, now: int)
      requires Shaped()
      modifies this, owned, value
      ensures Shaped()
      ensures var n := Overflow(old(|Added(key, value, now)|), maxEntries);
              && keys == (old(WithoutKey(keys, keys, key)) + [key])[n..]
              && entries == old(Added(key, value, now))[n..]
      ensures forall a | a in old(owned) + {value} && a in old(Zeroed(key, value, now)) :: AllZero(a)
      ensures forall a | a in old(owned) + {value} && a !in old(Zeroed(key, value, now)) :: a[..] == old(a[..])
      ensures value[..] == old(value[..])
         <==> value !in old(Zeroed(key, value, now)) || forall i | 0 <= i < value.Length :: old(value[..])[i] == 0
      ensures old(Clean() && !HeldElsewhere(key, value)) ==> Clean()
      ensures old(Valid() && !HeldElsewhere(key, value)) ==>
                Valid() && Slots() == old(Spec.Set(Slots(), key, Passed(key, value), now + ttlMs, maxEntries))
      ensures owned <= old(owned) + {value}
      ensures owned + released == old(owned + released) + {value} && old(released) - {value} <= released
    {
      ghost var replaced := Replace(key, value, now);
      ghost var gone := EvictOverflow();
      assert old(Zeroed(key, value, now)) == replaced + gone;
      BytesSurvive(value, old(value[..]), value in replaced + gone);
    }

    /** The entry under the key, if any, makes room for the new one at the end. */
    method Replace(key: Key, value: array<byte>, now: int) returns (ghost replaced: set<array<byte>>)
      requires Shaped()
      modifies this, owned
      ensures Shaped()
      ensures keys == old(WithoutKey(keys, keys, key)) + [key] && entries == old(Added(key, value, now))
      ensures replaced == old(if key in keys then {entries[Place(keys, key)].value} else {})
      ensures forall a | a in old(owned) + {value} && a in replaced :: AllZero(a)
      ensures forall a | a in old(owned) + {value} && a !in replaced :: a[..] == old(a[..])
      ensures old(Clean() && !HeldElsewhere(key, value)) ==> Clean()
      ensures old(Valid() && !HeldElsewhere(key, value)) ==>
                && Valid()
                && Slots() == old(Spec.Without(Slots(), key) + [Spec.Slot(key, Passed(key, value), now + ttlMs)])
      ensures owned <= old(owned) + {value}
      ensures owned + released == old(owned + released) + {value} && old(released) - {value} <= released
    {
      ghost var alone, bytes := Valid() && !HeldElsewhere(key, value), Passed(key, value);
      replaced := if key in keys then {entries[Place(keys, key)].value} else {};
      if alone {
        HeldHereOnly(key, value);
      }
      var _ := EvictKey(key);
      assert alone ==> value[..] == bytes && value !in owned;
      Append(key, value, now);
    }

    /** The bytes a call passes: none of them survive if the buffer is the one being replaced. */
    ghost function Passed(key: Key, value: array<byte>): seq<byte>
      requires Shaped()
      reads this, value
    {
      if HeldUnder(key, value) then Zeros(value.Length) else value[..]
    }

    /** Held under no other key, a buffer is free once its own key is gone. */
    lemma HeldHereOnly(key: Key, value: array<byte>)
      requires Shaped() && !HeldElsewhere(key, value)
      ensures value !in Buffers(WithoutKey(entries, keys, key))
    {
      var rest := WithoutKey(entries, keys, key);
      forall i | 0 <= i < |rest| ensures rest[i].value != value {
        var j := if key in keys && i >= Place(keys, key) then i + 1 else i;
        assert rest[i] == entries[j] && keys[j] != key;
      }
      NotAmong(rest, value);
    }

    method Invalidate(key: Key) returns (removed: bool)
      requires Shaped()
      modifies this, owned
      ensures Shaped() && key !in keys
      ensures removed <==> key in old(keys)
      ensures keys == old(WithoutKey(keys, keys, key)) && entries == old(WithoutKey(entries, keys, key))
      ensures removed ==> AllZero(old(entries[Place(keys, key)].value))
      ensures forall a | a in old(owned) && !old(HeldUnder(key, a)) :: a[..] == old(a[..])
      ensures old(Valid()) ==> Valid() && Slots() == old(Spec.Without(Slots(), key))
      ensures old(Clean()) ==> Clean()
      ensures owned + released == old(owned + released) && owned <= old(owned) && old(released) <= released
    {
      removed := EvictKey(key);
    }

    method Clear()
      requires Shaped()
      modifies this, owned
      ensures Shaped() && keys == [] && owned == {} && released == old(released + owned)
      ensures forall a | a in old(owned) :: AllZero(a)
      ensures old(Valid()) ==> Valid() && Slots() == []
      ensures old(Clean()) ==> Clean()
    {
      var i := 0;
      while i < |entries|
        invariant i <= |entries|
        invariant keys == old(keys) && entries == old(entries) && owned == old(owned) && released == old(released)
        invariant forall k | 0 <= k < i :: AllZero(entries[k].value)
        invariant forall a | a in old(released) - old(owned) :: a[..] == old(a[..])
      {
        BufferOfEach(entries, i);
        FillZero(entries[i].value);
        i := i + 1;
      }
      forall a | a in owned ensures AllZero(a) {
        var k := EntryOfBuffer(entries, a);
      }
      released, owned := released + owned, {};
      keys, entries := [], [];
    }

    method Size() returns (n: nat)
      requires Shaped()
      ensures n == |keys| == |Slots()|
    {
      n := |keys|;
    }
  }

  // ---- buffers handed back ------------------------------------------------------------------------------

  /** Setting a secret to the buffer a get returned zeroes that buffer before storing it. */
  method RefreshSecret(c: SecretCache, key: Key, now: int) returns (held: array<byte>)
    requires c.Shaped() && c.LiveAt(key, now) && |c.keys| <= c.maxEntries && c.ttlMs > 0
    modifies c, c.owned
    ensures c.Shaped() && held == old(c.entries[Place(c.keys, key)].value) && AllZero(held) && held in c.owned
    ensures c.owned <= old(c.owned) && c.HeldUnder(key, held) && c.LiveAt(key, now)
  {
    var got := c.Get(key, now);
    held := got.value;
    BufferOfEach(c.entries, Place(c.keys, key));
    c.Set(key, held, now);
    AloneAtEnd(c.keys, key);
    BufferOfEach(c.entries, |c.entries| - 1);
  }

  /** The next get serves that buffer, all zeros. */
  method RefreshedSecretIsZeroed(c: SecretCache, key: Key, now: int) returns (again: Option<array<byte>>)
    requires c.Shaped() && c.LiveAt(key, now) && |c.keys| <= c.maxEntries && c.ttlMs > 0
    modifies c, c.owned
    ensures again == Some(old(c.entries[Place(c.keys, key)].value)) && AllZero(again.value)
  {
    var held := RefreshSecret(c, key, now);
    again := c.Get(key, now);
  }

  /** Setting another key to a buffer already held: with room for both, two keys share it. */
  method ShareBuffer(c: SecretCache, key: Key, other: Key, value: array<byte>, now: int)
    requires c.Shaped() && c.HeldUnder(key, value) && key != other && |c.keys| < c.maxEntries && c.ttlMs > 0
    modifies c, c.owned, value
    ensures c.Shaped() && c.HeldUnder(key, value) && c.HeldUnder(other, value) && c.LiveAt(other, now)
    ensures value in c.owned
  {
    EntryKept(c.keys, c.entries, other, key);
    c.Set(other, value, now);
    AloneAtEnd(c.keys, other);
    StillUnder(c.keys, c.entries, key);
    BufferOfEach(c.entries, |c.entries| - 1);
  }

  /** From then on invalidating one key zeroes what the other still serves. */
  method SharedBufferIsZeroed(c: SecretCache, key: Key, other: Key, value: array<byte>, now: int)
    returns (served: Option<array<byte>>)
    requires c.Shaped() && c.HeldUnder(key, value) && c.HeldUnder(other, value) && key != other && c.LiveAt(other, now)
    modifies c, c.owned
    ensures served == Some(value) && AllZero(value)
  {
    EntryKept(c.keys, c.entries, key, other);
    var _ := c.Invalidate(key);
    BufferOfEach(c.entries, Place(c.keys, other));
    served := c.Get(other, now);
  }

  /** A buffer zeroed or left alone reads as before if it was left alone or all zeros already. */
  lemma BytesSurvive(a: array<byte>, was: seq<byte>, zeroed: bool)
    requires |was| == a.Length
    requires if zeroed then AllZero(a) else a[..] == was
    ensures a[..] == was <==> !zeroed || forall i | 0 <= i < |was| :: was[i] == 0
  {
  }

  lemma SpecGetAt(l: seq<Spec.Slot>, key: Key, now: int)
    requires Spec.Has(l, key)
    ensures var p := Spec.Place(l, key);
            Spec.Get(l, key, now) ==
            if l[p].expiresAt <= now then (Cut(l, p), None) else (Cut(l, p) + [l[p]], Some(l[p].bytes))
  {
  }

  lemma TrimDrops(l: seq<Spec.Slot>, maxEntries: int)
    ensures Spec.Trim(l, maxEntries) == l[Overflow(|l|, maxEntries)..]
  {
  }

  lemma AloneAtEnd(keys: seq<Key>, key: Key)
    requires DistinctKeys(keys) && keys != [] && keys[|keys| - 1] == key
    ensures Place(keys, key) == |keys| - 1
  {
  }

  lemma StillUnder(keys: seq<Key>, entries: seq<Entry>, key: Key)
    requires |keys| == |entries| > 0 && DistinctKeys(keys) && key in keys[..|keys| - 1]
    ensures key in keys && entries[Place(keys, key)] == entries[..|keys| - 1][Place(keys[..|keys| - 1], key)]
  {
    var i := Place(keys[..|keys| - 1], key);
    assert keys[i] == key;
  }

  /** Taking a key out leaves the entries of the others. */
  lemma EntryKept(keys: seq<Key>, entries: seq<Entry>, gone: Key, key: Key)
    requires |keys| == |entries| && DistinctKeys(keys) && key in keys && key != gone
    ensures key in WithoutKey(keys, keys, gone)
    ensures WithoutKey(entries, keys, gone)[Place(WithoutKey(keys, keys, gone), key)] == entries[Place(keys, key)]
  {
    if gone in keys {
      var p, q := Place(keys, gone), Place(keys, key);
      var i := if q < p then q else q - 1;
      assert Cut(keys, p)[i] == key;
      var j := Place(Cut(keys, p), key);
      assert keys[if j < p then j else j + 1] == key;
    }
  }

  lemma KeyGone(keys: seq<Key>, key: Key)
    requires DistinctKeys(keys)
    ensures key !in WithoutKey(keys, keys, key)
  {
    if key in keys {
      var p := Place(keys, key);
      forall i | 0 <= i < |keys| - 1 ensures Cut(keys, p)[i] != key {
        assert Cut(keys, p)[i] == keys[if i < p then i else i + 1];
      }
    }
  }

  lemma MovedToEnd(keys: seq<Key>, entries: seq<Entry>, p: nat)
    requires |keys| == |entries| && DistinctKeys(keys) && p < |keys|
    ensures DistinctKeys(Cut(keys, p) + [keys[p]])
    ensures Buffers(Cut(entries, p) + [entries[p]]) == Buffers(entries)
    ensures Unshared(entries) ==> Unshared(Cut(entries, p) + [entries[p]])
  {
    BuffersOfCut(entries, p);
    BuffersOfMore(Cut(entries, p), entries[p]);
    if Unshared(entries) {
      UnsharedCut(entries, p);
    }
  }

  lemma CutFirst<T>(s: seq<T>)
    requires s != []
    ensures Cut(s, 0) == s[1..]
  {
  }

  lemma FrontBuffers(entries: seq<Entry>, n: nat)
    requires n <= |entries|
    ensures Buffers(entries[..n]) + Buffers(entries[n..]) == Buffers(entries)
    ensures Unshared(entries) ==> Unshared(entries[n..]) && Buffers(entries[..n]) !! Buffers(entries[n..])
  {
    assert entries == entries[..n] + entries[n..];
    BuffersOfBoth(entries[..n], entries[n..]);
    if Unshared(entries) {
      UnsharedBoth(entries[..n], entries[n..]);
    }
  }

  lemma FirstBuffers(entries: seq<Entry>, n: nat)
    requires n < |entries|
    ensures Buffers(entries[..n + 1]) == Buffers(entries[..n]) + {entries[n].value}
  {
    assert entries[..n + 1] == entries[..n] + [entries[n]];
    BuffersOfMore(entries[..n], entries[n]);
  }
}
