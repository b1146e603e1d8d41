/** The size cap on audit metadata: which keys truncation drops, and what is persisted. */
module AuditMetadata {
  import opened Options
  import opened Bytes

  /** One metadata key, with the JSON encodings of the key and of its value. */
  datatype Entry = Entry(key: string, keyJson: seq<byte>, valueJson: seq<byte>)

  datatype Policy = Reject | Truncate

  datatype Checked = Oversize(size: nat) | Kept(metadata: seq<Entry>, truncated: bool)

  const COMMA: byte := 0x2c
  const COLON: byte := 0x3a
  const OPEN_BRACE: byte := 0x7b
  const CLOSE_BRACE: byte := 0x7d

  function Item(e: Entry): seq<byte> {
    e.keyJson + [COLON] + e.valueJson
  }

  function Items(entries: seq<Entry>): seq<byte> {
    if entries == [] then []
    else if |entries| == 1 then Item(entries[0])
    else Item(entries[0]) + [COMMA] + Items(entries[1..])
  }

  /** The JSON object of the entries. */
  function Encode(entries: seq<Entry>): seq<byte> {
    [OPEN_BRACE] + Items(entries) + [CLOSE_BRACE]
  }

  function Size(entries: seq<Entry>): nat {
    |Encode(entries)|
  }

  /** The bytes of a text of ASCII characters. */
  function Ascii(text: string): (bytes: seq<byte>)
    requires forall i | 0 <= i < |text| :: text[i] as int < 128
    ensures |bytes| == |text|
  {
    seq(|text|, i requires 0 <= i < |text| => text[i] as int)
  }

  /** The text of one item: key, colon, value. */
  function ItemText(e: Entry): seq<byte> {
    e.keyJson + Ascii(":") + e.valueJson
  }

  /** The object's text: braces around the items, with commas between them. */
  lemma EncodedText(e: Entry, rest: seq<Entry>)
    ensures Encode([]) == Ascii("{}")
    ensures Encode([e]) == Ascii("{") + ItemText(e) + Ascii("}")
    ensures rest != [] ==> Items([e] + rest) == ItemText(e) + Ascii(",") + Items(rest)
    ensures Encode(rest) == Ascii("{") + Items(rest) + Ascii("}")
  {
    assert rest != [] ==> ([e] + rest)[1..] == rest;
  }

  // ---- sizes ------------------------------------------------------------------------------------------

  function Total(entries: seq<Entry>): nat {
    if entries == [] then 0 else |Item(entries[0])| + Total(entries[1..])
  }

  function Commas(n: nat): nat {
    if n == 0 then 0 else n - 1
  }

  lemma {:induction false} SizeIs(entries: seq<Entry>)
    ensures Size(entries) == 2 + Total(entries) + Commas(|entries|)
  {
    if |entries| == 1 {
      assert entries[1..] == [];
    } else if |entries| > 1 {
      SizeIs(entries[1..]);
    }
  }

  // ---- largest first ------------------------------------------------------------------------------------

  /** The size the sort compares: the entry alone in an object. */
  function OwnSize(e: Entry): nat {
    Size([e])
  }

  lemma OwnSizeIs(e: Entry)
    ensures OwnSize(e) == 2 + |Item(e)|
  {
  }

  function Insert(e: Entry, sorted: seq<Entry>): (s: seq<Entry>) {
    if sorted == [] || OwnSize(e) >= OwnSize(sorted[0]) then [e] + sorted
    else [sorted[0]] + Insert(e, sorted[1..])
  }

  /** The stable sort by decreasing size. */
  function LargestFirst(entries: seq<Entry>): seq<Entry> {
    if entries == [] then [] else Insert(entries[0], LargestFirst(entries[1..]))
  }

  predicate Descending(s: seq<Entry>) {
    forall i, j | 0 <= i < j < |s| :: OwnSize(s[i]) >= OwnSize(s[j])
  }

  lemma {:induction false} InsertedIs(e: Entry, s: seq<Entry>)
    ensures multiset(Insert(e, s)) == multiset{e} + multiset(s)
    ensures |Insert(e, s)| == |s| + 1
    ensures forall y | y in Insert(e, s) :: y == e || y in s
  {
    if !(s == [] || OwnSize(e) >= OwnSize(s[0])) {
      InsertedIs(e, s[1..]);
      assert s == [s[0]] + s[1..];
    }
  }

  lemma LargestOnTop(x: Entry, r: seq<Entry>)
    requires Descending(r) && forall y | y in r :: OwnSize(x) >= OwnSize(y)
    ensures Descending([x] + r)
  {
  }

  lemma {:induction false} InsertSorts(e: Entry, s: seq<Entry>)
    requires Descending(s)
    ensures Descending(Insert(e, s))
  {
    if s == [] || OwnSize(e) >= OwnSize(s[0]) {
      LargestOnTop(e, s);
    } else {
      InsertSorts(e, s[1..]);
      InsertedIs(e, s[1..]);
      LargestOnTop(s[0], Insert(e, s[1..]));
    }
  }

  lemma {:induction false} LargestFirstSorts(entries: seq<Entry>)
    ensures Descending(LargestFirst(entries))
    ensures multiset(LargestFirst(entries)) == multiset(entries)
    ensures |LargestFirst(entries)| == |entries|
  {
    if entries != [] {
      LargestFirstSorts(entries[1..]);
      InsertSorts(entries[0], LargestFirst(entries[1..]));
      InsertedIs(entries[0], LargestFirst(entries[1..]));
      assert entries == [entries[0]] + entries[1..];
    }
  }

  function OfSize(s: seq<Entry>, n: nat): seq<Entry> {
    if s == [] then [] else (if OwnSize(s[0]) == n then [s[0]] else []) + OfSize(s[1..], n)
  }

  lemma {:induction false} InsertIsStable(e: Entry, s: seq<Entry>, n: nat)
    requires Descending(s)
    ensures OfSize(Insert(e, s), n) == OfSize([e] + s, n)
  {
    assert ([e] + s)[1..] == s;
    if !(s == [] || OwnSize(e) >= OwnSize(s[0])) {
      InsertIsStable(e, s[1..], n);
      assert ([e] + s[1..])[1..] == s[1..];
      assert Insert(e, s)[1..] == Insert(e, s[1..]);
    }
  }

  /** Entries of equal size keep their order. */
  lemma {:induction false} SortIsStable(entries: seq<Entry>, n: nat)
    ensures OfSize(LargestFirst(entries), n) == OfSize(entries, n)
  {
    if entries != [] {
      SortIsStable(entries[1..], n);
      LargestFirstSorts(entries[1..]);
      InsertIsStable(entries[0], LargestFirst(entries[1..]), n);
      assert ([entries[0]] + LargestFirst(entries[1..]))[1..] == LargestFirst(entries[1..]);
    }
  }

  // ---- dropping keys ------------------------------------------------------------------------------------

  function KeysOf(s: seq<Entry>): set<string> {
    if s == [] then {} else {s[0].key} + KeysOf(s[1..])
  }

  /** Objects have no key twice. */
  predicate DistinctKeys(s: seq<Entry>) {
    s != [] ==> s[0].key !in KeysOf(s[1..]) && DistinctKeys(s[1..])
  }

  function Rebuild(entries: seq<Entry>, dropped: set<string>): seq<Entry> {
    if entries == [] then []
    else (if entries[0].key in dropped then [] else [entries[0]]) + Rebuild(entries[1..], dropped)
  }

  lemma {:induction false} KeysOfBoth(a: seq<Entry>, b: seq<Entry>)
    ensures KeysOf(a + b) == KeysOf(a) + KeysOf(b)
  {
    if a == [] {
      assert a + b == b;
    } else {
      KeysOfBoth(a[1..], b);
      assert (a + b)[1..] == a[1..] + b;
    }
  }

  lemma {:induction false} DistinctBoth(a: seq<Entry>, b: seq<Entry>)
    ensures DistinctKeys(a + b) <==> DistinctKeys(a) && DistinctKeys(b) && KeysOf(a) !! KeysOf(b)
  {
    if a == [] {
      assert a + b == b;
    } else {
      DistinctBoth(a[1..], b);
      KeysOfBoth(a[1..], b);
      assert (a + b)[1..] == a[1..] + b;
    }
  }

  lemma {:induction false} RebuildAll(entries: seq<Entry>, dropped: set<string>)
    requires KeysOf(entries) !! dropped
    ensures Rebuild(entries, dropped) == entries
  {
    if entries != [] {
      RebuildAll(entries[1..], dropped);
    }
  }

  lemma {:induction false} RebuildNone(entries: seq<Entry>, dropped: set<string>)
    requires KeysOf(entries) <= dropped
    ensures Rebuild(entries, dropped) == []
  {
    if entries != [] {
      RebuildNone(entries[1..], dropped);
    }
  }

  lemma {:induction false} RebuildSplits(a: seq<Entry>, b: seq<Entry>, dropped: set<string>)
    ensures Rebuild(a + b, dropped) == Rebuild(a, dropped) + Rebuild(b, dropped)
  {
    if a == [] {
      assert a + b == b;
    } else {
      var head := if a[0].key in dropped then [] else [a[0]];
      RebuildSplits(a[1..], b, dropped);
      assert (a + b)[1..] == a[1..] + b;
      assert head + (Rebuild(a[1..], dropped) + Rebuild(b, dropped)) == (head + Rebuild(a[1..], dropped)) + Rebuild(b,
          dropped);
    }
  }

  /** Having dropped the first `i` keys leaves the rest. */
  lemma RebuildIsSuffix(sorted: seq<Entry>, i: nat)
    requires DistinctKeys(sorted) && i <= |sorted|
    ensures Rebuild(sorted, KeysOf(sorted[..i])) == sorted[i..]
  {
    assert sorted == sorted[..i] + sorted[i..];
    DistinctBoth(sorted[..i], sorted[i..]);
    RebuildSplits(sorted[..i], sorted[i..], KeysOf(sorted[..i]));
    RebuildNone(sorted[..i], KeysOf(sorted[..i]));
    RebuildAll(sorted[i..], KeysOf(sorted[..i]));
  }

  lemma OneMoreKey(sorted: seq<Entry>, i: nat)
    requires i < |sorted|
    ensures KeysOf(sorted[..i + 1]) == KeysOf(sorted[..i]) + {sorted[i].key}
  {
    assert sorted[..i + 1] == sorted[..i] + [sorted[i]];
    KeysOfBoth(sorted[..i], [sorted[i]]);
  }

  lemma {:induction false} InsertKeepsDistinct(e: Entry, s: seq<Entry>)
    ensures KeysOf(Insert(e, s)) == KeysOf(s) + {e.key}
    ensures DistinctKeys(s) && e.key !in KeysOf(s) ==> DistinctKeys(Insert(e, s))
  {
    if s == [] || OwnSize(e) >= OwnSize(s[0]) {
      assert ([e] + s)[1..] == s;
    } else {
      InsertKeepsDistinct(e, s[1..]);
      assert Insert(e, s)[1..] == Insert(e, s[1..]);
    }
  }

  lemma {:induction false} SortKeepsDistinct(entries: seq<Entry>)
    ensures KeysOf(LargestFirst(entries)) == KeysOf(entries)
    ensures DistinctKeys(entries) ==> DistinctKeys(LargestFirst(entries))
  {
    if entries != [] {
      SortKeepsDistinct(entries[1..]);
      InsertKeepsDistinct(entries[0], LargestFirst(entries[1..]));
    }
  }

  /** Nothing, in the order of the sort, before `d` fits, and `d` fits or is the end. */
  ghost predicate FirstFit(sorted: seq<Entry>, d: nat, cap: int) {
    && d <= |sorted|
    && (forall i | 0 <= i < d :: Size(sorted[i..]) > cap)
    && (d == |sorted| || Size(sorted[d..]) <= cap)
  }

  /** What is left once as few of the largest entries as possible are gone. */
  ghost predicate LargestDropped(metadata: seq<Entry>, cap: int, kept: seq<Entry>) {
    exists d: nat :: FirstFit(LargestFirst(metadata), d, cap) && kept == LargestFirst(metadata)[d..]
  }

  /** Metadata within the cap passes unchanged; otherwise the policy decides. */
  method EnforceMetadataSize(metadata: seq<Entry>, cap: int, policy: Policy) returns (r: Checked)
    requires DistinctKeys(metadata)
    ensures Size(metadata) <= cap ==> r == Kept(metadata, false)
    ensures Size(metadata) > cap && policy == Reject ==> r == Oversize(Size(metadata))
    ensures Size(metadata) > cap && policy == Truncate ==>
              r.Kept? && r.truncated && LargestDropped(metadata, cap, r.metadata)
    ensures r.Kept? ==> forall e | e in r.metadata :: e in metadata
    ensures r.Kept? && r.truncated ==> (Size(r.metadata) <= cap <==> cap >= 2)
    ensures r.Kept? ==> forall keys: set<string> | Size(Pick(metadata, keys)) <= cap ::
              |Pick(metadata, keys)| <= |r.metadata|
  {
    var size := |Encode(metadata)|;
    if size <= cap {
      forall keys: set<string> ensures |Pick(metadata, keys)| <= |metadata| {
        PickedAreEntries(metadata, keys);
        SubCount(Pick(metadata, keys), metadata);
      }
      return Kept(metadata, false);
    }
    if policy == Reject {
      return Oversize(size);
    }
    ghost var d;
    var kept;
    kept, d := DropLargest(metadata, cap);
    TruncationResult(metadata, d, cap);
    return Kept(kept, true);
  }

  /** The sort and the loop that drops keys; `d` counts the dropped ones. */
  method DropLargest(metadata: seq<Entry>, cap: int) returns (kept: seq<Entry>, ghost d: nat)
    requires DistinctKeys(metadata)
    ensures FirstFit(LargestFirst(metadata), d, cap) && kept == LargestFirst(metadata)[d..]
  {
    var entries := LargestFirst(metadata);
    SortKeepsDistinct(metadata);
    var dropped: set<string> := {};
    var i := 0;
    while i < |entries|
      invariant 0 <= i <= |entries|
      invariant dropped == KeysOf(entries[..i])
      invariant forall j | 0 <= j < i :: Size(entries[j..]) > cap
    {
      RebuildIsSuffix(entries, i);
      OneMoreKey(entries, i);
      var current := Encode(Rebuild(entries, dropped));
      if |current| <= cap {
        break;
      }
      dropped := dropped + {entries[i].key};
      i := i + 1;
    }
    RebuildIsSuffix(entries, i);
    assert FirstFit(entries, i, cap);
    return Rebuild(entries, dropped), i;
  }

  lemma TruncationResult(metadata: seq<Entry>, d: nat, cap: int)
    requires FirstFit(LargestFirst(metadata), d, cap)
    ensures var kept := LargestFirst(metadata)[d..];
            && LargestDropped(metadata, cap, kept)
            && (forall e | e in kept :: e in metadata)
            && (Size(kept) <= cap <==> cap >= 2)
            && (forall keys: set<string> | Size(Pick(metadata, keys)) <= cap :: |Pick(metadata, keys)| <= |kept|)
  {
    KeptUnchanged(metadata, d);
    TruncatedFitsExactlyWhen(metadata, d, cap);
    forall keys: set<string> | Size(Pick(metadata, keys)) <= cap
      ensures |Pick(metadata, keys)| <= |LargestFirst(metadata)[d..]|
    {
      KeepsAsManyAsAnyChoice(metadata, d, cap, keys);
    }
  }

  // ---- what truncation keeps ----------------------------------------------------------------------------

  /** Kept entries are entries of the original, values and all. */
  lemma KeptUnchanged(metadata: seq<Entry>, d: nat)
    requires d <= |LargestFirst(metadata)|
    ensures multiset(LargestFirst(metadata)[d..]) <= multiset(metadata)
    ensures forall e | e in LargestFirst(metadata)[d..] :: e in metadata
  {
    var s := LargestFirst(metadata);
    LargestFirstSorts(metadata);
    assert s == s[..d] + s[d..];
    forall e | e in s[d..] ensures e in metadata {
      assert e in multiset(s);
    }
  }

  /** The truncated metadata fits exactly when the cap leaves room for an empty object. */
  lemma TruncatedFitsExactlyWhen(metadata: seq<Entry>, d: nat, cap: int)
    requires FirstFit(LargestFirst(metadata), d, cap)
    ensures Size(LargestFirst(metadata)[d..]) <= cap <==> cap >= 2
  {
    var s := LargestFirst(metadata);
    SizeIs(s[d..]);
    if d == |s| {
      assert s[d..] == [];
    }
  }

  /** The entries under the keys of `keys`. */
  function Pick(entries: seq<Entry>, keys: set<string>): seq<Entry> {
    if entries == [] then []
    else (if entries[0].key in keys then [entries[0]] else []) + Pick(entries[1..], keys)
  }

  lemma {:induction false} PickedAreEntries(entries: seq<Entry>, keys: set<string>)
    ensures multiset(Pick(entries, keys)) <= multiset(entries)
  {
    if entries != [] {
      PickedAreEntries(entries[1..], keys);
      assert entries == [entries[0]] + entries[1..];
    }
  }

  /** No choice of keys that fits keeps more keys than truncation does. */
  lemma KeepsAsManyAsAnyChoice(metadata: seq<Entry>, d: nat, cap: int, keys: set<string>)
    requires FirstFit(LargestFirst(metadata), d, cap)
    requires Size(Pick(metadata, keys)) <= cap
    ensures |Pick(metadata, keys)| <= |LargestFirst(metadata)[d..]|
  {
    var s, t := LargestFirst(metadata), Pick(metadata, keys);
    LargestFirstSorts(metadata);
    PickedAreEntries(metadata, keys);
    if |t| > |s| - d {
      if d == 0 {
        SubCount(t, s);
      } else {
        var m := |s| - d + 1;
        SmallestTotal(s, t, m);
        assert s[|s| - m..] == s[d - 1..];
        SizeIs(s[d - 1..]);
        SizeIs(t);
      }
    }
  }

  lemma SubCount(t: seq<Entry>, s: seq<Entry>)
    requires multiset(t) <= multiset(s)
    ensures |t| <= |s|
  {
    assert |multiset(t)| <= |multiset(s)| by {
      assert multiset(s) == multiset(t) + (multiset(s) - multiset(t));
    }
  }

  function RemoveOne(t: seq<Entry>, x: Entry): (r: seq<Entry>)
    requires x in t
    ensures |r| == |t| - 1
  {
    if t[0] == x then t[1..] else [t[0]] + RemoveOne(t[1..], x)
  }

  lemma {:induction false} RemovedOne(t: seq<Entry>, x: Entry)
    requires x in t
    ensures Total(t) == |Item(x)| + Total(RemoveOne(t, x))
    ensures multiset(t) == multiset(RemoveOne(t, x)) + multiset{x}
  {
    assert t == [t[0]] + t[1..];
    if t[0] != x {
      RemovedOne(t[1..], x);
      assert ([t[0]] + RemoveOne(t[1..], x))[1..] == RemoveOne(t[1..], x);
    }
  }

  /** The exchange argument: `m` or more entries of `s` weigh at least as much as its `m` last ones. */
  lemma {:induction false} SmallestTotal(s: seq<Entry>, t: seq<Entry>, m: nat)
    requires Descending(s) && multiset(t) <= multiset(s) && m <= |t| && m <= |s|
    ensures Total(t) >= Total(s[|s| - m..])
    decreases |s|
  {
    if m == 0 {
      assert s[|s| - m..] == [];
    } else {
      var x, rest, k := s[0], s[1..], |s| - m;
      assert s == [x] + rest;
      if x in t {
        RemovedOne(t, x);
        LessWithoutHead(multiset(RemoveOne(t, x)), x, multiset(rest));
        SmallestTotal(rest, RemoveOne(t, x), m - 1);
        SuffixStep(s, k);
      } else {
        NotTheHead(t, x, rest);
        SubCount(t, rest);
        SmallestTotal(rest, t, m);
        assert rest[|rest| - m..] == s[k..];
      }
    }
  }

  lemma SuffixStep(s: seq<Entry>, k: nat)
    requires Descending(s) && k < |s|
    ensures Total(s[k..]) <= |Item(s[0])| + Total(s[1..][k..])
  {
    OwnSizeIs(s[0]);
    OwnSizeIs(s[k]);
    assert s[k..][1..] == s[1..][k..];
  }

  lemma LessWithoutHead(less: multiset<Entry>, x: Entry, rest: multiset<Entry>)
    requires less + multiset{x} <= rest + multiset{x}
    ensures less <= rest
  {
    forall e ensures less[e] <= rest[e] {
      assert (less + multiset{x})[e] <= (rest + multiset{x})[e];
    }
  }

  lemma NotTheHead(t: seq<Entry>, x: Entry, rest: seq<Entry>)
    requires multiset(t) <= multiset([x] + rest) && x !in t
    ensures multiset(t) <= multiset(rest)
  {
    assert multiset([x] + rest) == multiset{x} + multiset(rest);
    assert multiset(t)[x] == 0;
  }

  // ---- the flag -----------------------------------------------------------------------------------------

  const FLAG: string := "metadata_truncated"

  /** `"metadata_truncated"` and `true` in ASCII. */
  const FLAG_JSON: seq<byte> := [
    0x22, 0x6d, 0x65, 0x74, 0x61, 0x64, 0x61, 0x74, 0x61, 0x5f, 0x74, 0x72, 0x75, 0x6e, 0x63, 0x61, 0x74, 0x65, 0x64,
        0x22]
  const TRUE_JSON: seq<byte> := [0x74, 0x72, 0x75, 0x65]

  /** They are the JSON texts of the flag's key and of true. */
  lemma FlagTexts()
    ensures FLAG_JSON == Ascii("\"" + FLAG + "\"") && TRUE_JSON == Ascii("true")
  {
  }

  /** Setting the flag overwrites a key of that name, or adds one at the end. */
  function WithFlag(entries: seq<Entry>): seq<Entry> {
    if entries == [] then [Entry(FLAG, FLAG_JSON, TRUE_JSON)]
    else if entries[0].key == FLAG then [entries[0].(valueJson := TRUE_JSON)] + entries[1..]
    else [entries[0]] + WithFlag(entries[1..])
  }

  /** Only the flag's own key changes. */
  lemma {:induction false} FlagKeepsTheRest(entries: seq<Entry>)
    ensures KeysOf(WithFlag(entries)) == KeysOf(entries) + {FLAG}
    ensures forall e | e in entries && e.key != FLAG :: e in WithFlag(entries)
    ensures DistinctKeys(entries) ==> DistinctKeys(WithFlag(entries))
  {
    var w := WithFlag(entries);
    if entries == [] {
      assert w[1..] == [];
    } else if entries[0].key == FLAG {
      assert w[1..] == entries[1..];
      assert entries == [entries[0]] + entries[1..];
    } else {
      FlagKeepsTheRest(entries[1..]);
      assert w[1..] == WithFlag(entries[1..]);
      assert entries == [entries[0]] + entries[1..];
    }
  }

  lemma {:induction false} FlagIsSet(entries: seq<Entry>)
    ensures exists i :: 0 <= i < |WithFlag(entries)| && WithFlag(entries)[i].key == FLAG
              && WithFlag(entries)[i].valueJson == TRUE_JSON
  {
    var w := WithFlag(entries);
    if entries == [] || entries[0].key == FLAG {
      assert w[0].key == FLAG && w[0].valueJson == TRUE_JSON;
    } else {
      FlagIsSet(entries[1..]);
      var v := WithFlag(entries[1..]);
      var i :| 0 <= i < |v| && v[i].key == FLAG && v[i].valueJson == TRUE_JSON;
      assert w[i + 1] == v[i];
    }
  }

  lemma {:induction false} FlagTotal(entries: seq<Entry>)
    ensures |WithFlag(entries)| <= |entries| + 1
    ensures Total(WithFlag(entries)) + Commas(|WithFlag(entries)|) <= Total(entries) + Commas(|entries|) + 26
  {
    var w := WithFlag(entries);
    if entries == [] {
      assert w[1..] == [];
    } else if entries[0].key == FLAG {
      assert w[1..] == entries[1..];
    } else {
      FlagTotal(entries[1..]);
      assert w[1..] == WithFlag(entries[1..]);
    }
  }

  /** The flag may push the persisted metadata over the cap, by at most 26 bytes when the cap is positive. */
  lemma PersistedSizeBound(metadata: seq<Entry>, d: nat, cap: int)
    requires FirstFit(LargestFirst(metadata), d, cap)
    ensures Size(WithFlag(LargestFirst(metadata)[d..])) <= cap + 26 <==> cap >= 1
  {
    var kept := LargestFirst(metadata)[d..];
    SizeIs(kept);
    SizeIs(WithFlag(kept));
    FlagTotal(kept);
    if cap < 2 {
      NothingFits(LargestFirst(metadata), d, cap);
      assert WithFlag([]) == [Entry(FLAG, FLAG_JSON, TRUE_JSON)];
      assert WithFlag([])[1..] == [];
    }
  }

  lemma NothingFits(sorted: seq<Entry>, d: nat, cap: int)
    requires FirstFit(sorted, d, cap) && cap < 2
    ensures sorted[d..] == []
  {
    SizeIs(sorted[d..]);
  }

  // ---- when the persisted form fits -----------------------------------------------------------------------

  /** How many of the largest entries go. */
  function DropCount(sorted: seq<Entry>, cap: int): (d: nat)
    ensures d <= |sorted|
  {
    DropFrom(sorted, 0, cap)
  }

  /** The first position from `k` on from which the rest fits. */
  function DropFrom(sorted: seq<Entry>, k: nat, cap: int): (d: nat)
    requires k <= |sorted|
    ensures k <= d <= |sorted|
    ensures forall i | k <= i < d :: Size(sorted[i..]) > cap
    ensures d == |sorted| || Size(sorted[d..]) <= cap
    decreases |sorted| - k
  {
    if k == |sorted| || Size(sorted[k..]) <= cap then k else DropFrom(sorted, k + 1, cap)
  }

  lemma DropCountIsFirstFit(sorted: seq<Entry>, d: nat, cap: int)
    ensures FirstFit(sorted, d, cap) <==> d == DropCount(sorted, cap)
  {
    var e := DropCount(sorted, cap);
    if FirstFit(sorted, d, cap) {
      OneFirstFit(sorted, d, e, cap);
      OneFirstFit(sorted, e, d, cap);
    }
  }

  lemma OneFirstFit(sorted: seq<Entry>, d: nat, e: nat, cap: int)
    requires FirstFit(sorted, d, cap) && FirstFit(sorted, e, cap)
    ensures d <= e
  {
  }

  /** The value under the flag's key. */
  function FlagValue(entries: seq<Entry>): seq<byte>
    requires FLAG in KeysOf(entries)
  {
    if entries[0].key == FLAG then entries[0].valueJson else FlagValue(entries[1..])
  }

  /** What setting the flag adds to entries that are there: a whole item, or what `true` has over the old value. */
  function FlagCost(entries: seq<Entry>): nat {
    if FLAG !in KeysOf(entries) then 26
    else if |FlagValue(entries)| < 4 then 4 - |FlagValue(entries)| else 0
  }

  lemma {:induction false} FlaggedTotal(entries: seq<Entry>)
    ensures FLAG !in KeysOf(entries) ==>
              |WithFlag(entries)| == |entries| + 1 && Total(WithFlag(entries)) == Total(entries) + 25
    ensures FLAG in KeysOf(entries) ==>
              |WithFlag(entries)| == |entries|
              && Total(WithFlag(entries)) + |FlagValue(entries)| == Total(entries) + 4
  {
    var w := WithFlag(entries);
    if entries == [] {
      assert w[1..] == [];
    } else if entries[0].key == FLAG {
      assert w[1..] == entries[1..];
    } else {
      FlaggedTotal(entries[1..]);
      assert w[1..] == WithFlag(entries[1..]);
    }
  }

  lemma FlaggedSize(kept: seq<Entry>)
    ensures FLAG !in KeysOf(kept) ==> Size(WithFlag(kept)) == if kept == [] then 27 else Size(kept) + 26
    ensures FLAG in KeysOf(kept) ==> kept != [] && Size(WithFlag(kept)) + |FlagValue(kept)| == Size(kept) + 4
  {
    FlaggedTotal(kept);
    SizeIs(kept);
    SizeIs(WithFlag(kept));
  }

  /** Enough room for the flag alone, and leaving room for the flag beforehand would drop no more than `d`. */
  predicate FlagFitsAfter(sorted: seq<Entry>, d: nat, cap: int)
    requires d <= |sorted|
  {
    (cap >= 27 || FLAG in KeysOf(sorted[d..])) && DropCount(sorted, cap - FlagCost(sorted[d..])) == d
  }

  /** Whether the persisted form of truncated metadata fits, told from metadata and cap. */
  predicate FlagFits(metadata: seq<Entry>, cap: int) {
    FlagFitsAfter(LargestFirst(metadata), DropCount(LargestFirst(metadata), cap), cap)
  }

  /** The persisted form fits under the cap exactly then. */
  lemma PersistedFitsExactlyWhen(metadata: seq<Entry>, d: nat, cap: int)
    requires FirstFit(LargestFirst(metadata), d, cap)
    ensures Size(WithFlag(LargestFirst(metadata)[d..])) <= cap <==> FlagFits(metadata, cap)
  {
    DropCountIsFirstFit(LargestFirst(metadata), d, cap);
    FlaggedFits(LargestFirst(metadata), d, cap);
  }

  lemma FlaggedFits(sorted: seq<Entry>, d: nat, cap: int)
    requires FirstFit(sorted, d, cap)
    ensures Size(WithFlag(sorted[d..])) <= cap <==> FlagFitsAfter(sorted, d, cap)
  {
    var room := cap - FlagCost(sorted[d..]);
    RoomForTheFlag(sorted, d, cap);
    DropCountIsFirstFit(sorted, d, room);
  }

  /** Without the flag's key among the metadata: a cap of 27 at least, and 26 bytes less would drop no more. */
  lemma PersistedFitsWithoutFlagKey(metadata: seq<Entry>, d: nat, cap: int)
    requires FirstFit(LargestFirst(metadata), d, cap) && FLAG !in KeysOf(metadata)
    ensures Size(WithFlag(LargestFirst(metadata)[d..])) <= cap
       <==> cap >= 27 && FirstFit(LargestFirst(metadata), d, cap - 26)
  {
    SuffixKeys(metadata, d);
    RoomForTheFlag(LargestFirst(metadata), d, cap);
  }

  lemma SuffixKeys(metadata: seq<Entry>, d: nat)
    requires d <= |LargestFirst(metadata)|
    ensures KeysOf(LargestFirst(metadata)[d..]) <= KeysOf(metadata)
  {
    var sorted := LargestFirst(metadata);
    SortKeepsDistinct(metadata);
    assert sorted == sorted[..d] + sorted[d..];
    KeysOfBoth(sorted[..d], sorted[d..]);
  }

  lemma RoomForTheFlag(sorted: seq<Entry>, d: nat, cap: int)
    requires FirstFit(sorted, d, cap)
    ensures Size(WithFlag(sorted[d..])) <= cap
       <==> (cap >= 27 || FLAG in KeysOf(sorted[d..])) && FirstFit(sorted, d, cap - FlagCost(sorted[d..]))
  {
    var kept := sorted[d..];
    FlaggedSize(kept);
    assert d == |sorted| <==> kept == [];
    if kept != [] {
      assert kept[0] == sorted[d];
      NotEmptySize(kept);
    }
  }

  lemma NotEmptySize(entries: seq<Entry>)
    requires entries != []
    ensures Size(entries) >= 3
  {
    SizeIs(entries);
  }

  /** A JSON string of `n` letters. */
  function Letters(n: nat): (json: seq<byte>)
    ensures |json| == n + 2
  {
    [0x22] + seq(n, _ => 0x61) + [0x22]
  }

  /** At the default cap of 32 KB: dropping the larger of two values leaves 32760 bytes, the flag makes it 32786. */
  lemma FlagCanExceedTheCap()
    ensures var small, large := Entry("a", Letters(1), Letters(32_752)), Entry("b", Letters(1), Letters(40_000));
            var sorted := LargestFirst([small, large]);
            && Size([small, large]) > 32_768 && FirstFit(sorted, 1, 32_768)
            && Size(sorted[1..]) == 32_760 && Size(WithFlag(sorted[1..])) == 32_786
  {
    var small, large := Entry("a", Letters(1), Letters(32_752)), Entry("b", Letters(1), Letters(40_000));
    assert [small, large][1..] == [large] && [large][1..] == [] && [small][1..] == [];
    OwnSizeIs(small);
    OwnSizeIs(large);
    assert LargestFirst([large]) == [large];
    assert LargestFirst([small, large]) == [large] + Insert(small, []) == [large, small];
    assert [large, small][1..] == [small] && [large, small][0..] == [large, small];
    SizeIs([small, large]);
    SizeIs([large, small]);
    SizeIs([small]);
    FlaggedSize([small]);
    assert FLAG !in KeysOf([small]);
  }

  /** What the event carries: nothing extra within the cap, the flag after truncation, an error on rejection. */
  method BuildMetadata(metadata: seq<Entry>, cap: int, policy: Policy) returns (r: Option<seq<Entry>>)
    requires DistinctKeys(metadata)
    ensures r.None? <==> Size(metadata) > cap && policy == Reject
    ensures Size(metadata) <= cap ==> r == Some(metadata)
    ensures Size(metadata) > cap && r.Some? ==>
              exists i :: 0 <= i < |r.value| && r.value[i].key == FLAG && r.value[i].valueJson == TRUE_JSON
    ensures Size(metadata) > cap && r.Some? ==>
              exists kept :: LargestDropped(metadata, cap, kept) && r.value == WithFlag(kept)
    ensures Size(metadata) > cap && r.Some? ==> (Size(r.value) <= cap <==> FlagFits(metadata, cap))
    ensures Size(metadata) > cap && r.Some? ==> (Size(r.value) <= cap + 26 <==> cap >= 1)
  {
    var checked := EnforceMetadataSize(metadata, cap, policy);
    if checked.Oversize? {
      return None;
    }
    if checked.truncated {
      ghost var d: nat :| FirstFit(LargestFirst(metadata), d, cap)
        && checked.metadata == LargestFirst(metadata)[d..];
      PersistedSizeBound(metadata, d, cap);
      PersistedFitsExactlyWhen(metadata, d, cap);
      FlagIsSet(checked.metadata);
      return Some(WithFlag(checked.metadata));
    }
    return Some(checked.metadata);
  }
}
