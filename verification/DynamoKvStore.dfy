/** The DynamoDB adapter: records flattened into top-level attributes of single items, written
    under condition expressions. */
module DynamoKvStores {
  import opened Options
  import opened KvTypes
  import opened KvRows

  const PARTITION_ATTR := "pk"

  type Item = map<string, Field>

  datatype Index = Index(pkAttr: string, skAttr: Option<string>)

  datatype Layout = Layout(
    pkPrefix: string, pkSeparator: char, allowSeparatorInKey: bool,
    skName: Option<string>, skValue: string,
    ttlAttr: string, versionAttr: string, index: Option<Index>)
  {
    function KeyPrefix(): string {
      pkPrefix + [pkSeparator]
    }

    function Pk(key: string): string {
      KeyPrefix() + key
    }

    function StripPk(pk: string): string {
      if KeyPrefix() <= pk then pk[|KeyPrefix()|..] else pk
    }

    predicate Accepts(key: string) {
      allowSeparatorInKey || pkSeparator !in key
    }

    /** Attribute names a value may not use. */
    function Reserved(): set<string> {
      {PARTITION_ATTR, ttlAttr, versionAttr}
      + (if skName.Some? then {skName.value} else {})
      + (if index.Some? then {index.value.pkAttr} + (if index.value.skAttr.Some? then {index.value.skAttr.value}
          else {}) else {})
    }

    /** A usable layout gives every reserved purpose an attribute of its own. */
    predicate Sound() {
      && PARTITION_ATTR != ttlAttr && PARTITION_ATTR != versionAttr && ttlAttr != versionAttr
      && (skName.Some? ==> skName.value !in {PARTITION_ATTR, ttlAttr, versionAttr})
      && (index.Some? ==>
            && index.value.pkAttr !in {PARTITION_ATTR, ttlAttr, versionAttr}
            && skName != Some(index.value.pkAttr)
            && (index.value.skAttr.Some? ==>
                  && index.value.skAttr.value !in {PARTITION_ATTR, ttlAttr, versionAttr, index.value.pkAttr}
                  && skName != index.value.skAttr))
    }

    predicate Storable(value: Value) {
      value.Keys !! Reserved()
    }

    /** Without an index in the layout, the caller's index key has nowhere to go. */
    function Kept(opts: WriteOptions): WriteOptions {
      if index.None? then opts.(indexedKey := None) else opts
    }

    predicate Fits(row: Row) {
      Storable(row.value) && (index.None? ==> row.indexedKey.None?)
    }

    function KeyAttrs(key: string): Item {
      map[PARTITION_ATTR := Text(Pk(key))] + (if skName.Some? then map[skName.value := Text(skValue)] else map[])
    }

    function TtlAttrs(row: Row): Item {
      if row.expiresAt.Some? then map[ttlAttr := Num(row.expiresAt.value)] else map[]
    }

    function IndexAttrs(key: string, row: Row): Item {
      if row.indexedKey.Some? && index.Some? then
        map[index.value.pkAttr := Text(row.indexedKey.value)]
        + (if index.value.skAttr.Some? then map[index.value.skAttr.value := Text(key)] else map[])
      else map[]
    }

    function BuildItem(key: string, row: Row): (item: Item) {
      row.value + KeyAttrs(key) + map[versionAttr := Num(row.version)] + TtlAttrs(row) + IndexAttrs(key, row)
    }

    function ExtractValue(item: Item): Value {
      map k | k in item && k !in Reserved() :: item[k]
    }

    function VersionAttr(item: Item): int {
      if versionAttr in item && item[versionAttr].Num? then item[versionAttr].n else 0
    }

    function TtlAttr(item: Item): Option<int> {
      if ttlAttr in item && item[ttlAttr].Num? then Some(item[ttlAttr].n) else None
    }

    function IndexAttr(item: Item): Option<string> {
      if index.Some? && index.value.pkAttr in item && item[index.value.pkAttr].Text? then
          Some(item[index.value.pkAttr].s) else None
    }

    function ReadItem(item: Item): (record: Record) {
      Record(ExtractValue(item), VersionAttr(item), TtlAttr(item))
    }

    predicate ExpiredItem(item: Item, now: int) {
      TtlAttr(item).Some? && TtlAttr(item).value < Seconds(now)
    }

    /** The item carries exactly this row, each part under its own attribute. */
    predicate Encodes(item: Item, key: string, row: Row) {
      && (forall k | k in row.value :: k in item && k !in Reserved() && item[k] == row.value[k])
      && (forall k | k in item && k !in Reserved() :: k in row.value)
      && Lookup(item, PARTITION_ATTR) == Some(Text(Pk(key)))
      && Lookup(item, versionAttr) == Some(Num(row.version))
      && Lookup(item, ttlAttr) == (if row.expiresAt.Some? then Some(Num(row.expiresAt.value)) else None)
      && IndexAttr(item) == row.indexedKey
    }

    lemma ValuesKeepClear(key: string, row: Row)
      requires Sound() && Fits(row)
      ensures KeyAttrs(key).Keys <= Reserved() && TtlAttrs(row).Keys <= Reserved()
                && IndexAttrs(key, row).Keys <= Reserved()
      ensures versionAttr !in TtlAttrs(row) && versionAttr !in IndexAttrs(key, row) && versionAttr !in KeyAttrs(key)
      ensures PARTITION_ATTR !in TtlAttrs(row) && PARTITION_ATTR !in IndexAttrs(key, row)
                && PARTITION_ATTR in KeyAttrs(key)
      ensures ttlAttr !in KeyAttrs(key) && ttlAttr !in IndexAttrs(key, row)
      ensures index.Some? ==> index.value.pkAttr !in KeyAttrs(key) && index.value.pkAttr !in TtlAttrs(row)
    {
    }

    lemma BuiltItemEncodes(key: string, row: Row)
      requires Sound() && Fits(row)
      ensures Encodes(BuildItem(key, row), key, row)
    {
      ValuesKeepClear(key, row);
      var item := BuildItem(key, row);
      forall k | k in row.value ensures k in item && k !in Reserved() && item[k] == row.value[k] {
        assert k in row.value.Keys;
      }
      assert IndexAttr(item) == row.indexedKey;
    }

    /** What is stored reads back: value, version and expiry. */
    lemma EncodedItemReadsBack(item: Item, key: string, row: Row)
      requires Encodes(item, key, row)
      ensures ReadItem(item) == ToRecord(row)
      ensures forall now :: ExpiredItem(item, now) <==> ExpiredBySecond(row, now)
    {
      assert ExtractValue(item) == row.value;
      assert TtlAttr(item) == row.expiresAt;
    }

    /** Building an item and reading it back gives the record again, index key included. */
    lemma ItemRoundTrip(key: string, row: Row)
      requires Sound() && Fits(row)
      ensures ReadItem(BuildItem(key, row)) == ToRecord(row)
      ensures IndexAttr(BuildItem(key, row)) == row.indexedKey
      ensures StripPk(Pk(key)) == key
    {
      BuiltItemEncodes(key, row);
      EncodedItemReadsBack(BuildItem(key, row), key, row);
    }
  }

  /** Keys without the separator that their namespaces have in common cannot collide, whatever the prefixes. */
  lemma KeysStayInTheirNamespace(a: Layout, b: Layout, j: string, k: string)
    requires a.pkSeparator == b.pkSeparator && a.pkSeparator !in j && a.pkSeparator !in k
    requires a.Pk(j) == b.Pk(k)
    ensures a.pkPrefix == b.pkPrefix && j == k
  {
    LongerPrefixHoldsSeparator(a, b, j, k);
    LongerPrefixHoldsSeparator(b, a, k, j);
    var pk := a.Pk(j);
    assert a.pkPrefix == pk[..|a.pkPrefix|] && b.pkPrefix == pk[..|b.pkPrefix|];
    assert j == pk[|pk| - |j|..] && k == pk[|pk| - |k|..];
  }

  /** Were one prefix shorter, its separator would fall inside the other's key. */
  lemma LongerPrefixHoldsSeparator(a: Layout, b: Layout, j: string, k: string)
    requires a.Pk(j) == b.Pk(k) && a.pkSeparator == b.pkSeparator
    ensures |a.pkPrefix| > |b.pkPrefix| ==> a.pkSeparator in k
  {
    if |a.pkPrefix| > |b.pkPrefix| {
      assert a.Pk(j)[|a.pkPrefix|] == a.pkSeparator;
      assert b.Pk(k)[|a.pkPrefix|] == k[|a.pkPrefix| - |b.pkPrefix| - 1];
    }
  }

  /** The second namespace's whole prefix is the first one's followed by a key the first one accepts. */
  predicate PrefixIsKeyOf(a: Layout, b: Layout) {
    a.KeyPrefix() <= b.KeyPrefix() && a.Accepts(b.KeyPrefix()[|a.KeyPrefix()|..])
  }

  ghost predicate Disjoint(a: Layout, b: Layout) {
    forall j, k | a.Accepts(j) && b.Accepts(k) :: a.Pk(j) != b.Pk(k)
  }

  lemma SharedPkMeansPrefixIsKey(a: Layout, b: Layout, j: string, k: string)
    requires a.Accepts(j) && a.Pk(j) == b.Pk(k) && |a.KeyPrefix()| <= |b.KeyPrefix()|
    ensures PrefixIsKeyOf(a, b)
  {
    var pk, n, m := a.Pk(j), |a.KeyPrefix()|, |b.KeyPrefix()|;
    assert a.KeyPrefix() == pk[..n] && b.KeyPrefix() == pk[..m] && j == pk[n..];
    assert pk[..m][n..] == j[..m - n];
  }

  lemma PrefixAsKeyIsShared(a: Layout, b: Layout)
    requires PrefixIsKeyOf(a, b)
    ensures !Disjoint(a, b) && !Disjoint(b, a)
  {
    var j := b.KeyPrefix()[|a.KeyPrefix()|..];
    assert a.Pk(j) == b.KeyPrefix() == b.Pk("");
    assert a.Accepts(j) && b.Accepts("");
  }

  /** No partition key belongs to two namespaces exactly when neither one's prefix reads as a key of the other. */
  lemma NamespacesAreDisjointExactlyWhen(a: Layout, b: Layout)
    ensures Disjoint(a, b) <==> !PrefixIsKeyOf(a, b) && !PrefixIsKeyOf(b, a)
  {
    if PrefixIsKeyOf(a, b) {
      PrefixAsKeyIsShared(a, b);
    } else if PrefixIsKeyOf(b, a) {
      PrefixAsKeyIsShared(b, a);
    } else {
      forall j, k | a.Accepts(j) && b.Accepts(k) ensures a.Pk(j) != b.Pk(k) {
        if a.Pk(j) == b.Pk(k) {
          if |a.KeyPrefix()| <= |b.KeyPrefix()| {
            SharedPkMeansPrefixIsKey(a, b, j, k);
          } else {
            SharedPkMeansPrefixIsKey(b, a, k, j);
          }
        }
      }
    }
  }

  /** With one separator that keys may not contain, different prefixes are enough. */
  lemma OneSeparatorIsEnough(a: Layout, b: Layout)
    requires a.pkSeparator == b.pkSeparator && !a.allowSeparatorInKey && !b.allowSeparatorInKey
    ensures Disjoint(a, b) <==> a.pkPrefix != b.pkPrefix
  {
    if a.pkPrefix == b.pkPrefix {
      assert a.Accepts("") && a.Pk("") == b.Pk("");
    } else {
      forall j, k | a.Accepts(j) && b.Accepts(k) ensures a.Pk(j) != b.Pk(k) {
        if a.Pk(j) == b.Pk(k) {
          KeysStayInTheirNamespace(a, b, j, k);
        }
      }
    }
  }

  function PlainLayout(prefix: string, separator: char, allowSeparatorInKey: bool): Layout {
    Layout(prefix, separator, allowSeparatorInKey, None, "", "ttl", "_v", None)
  }

  /** With two separators, or with the separator allowed in keys, accepted keys of different prefixes do share a
      partition key. */
  lemma NamespacesThatShareAKey()
    ensures var (a, b) := (PlainLayout("a", ':', false), PlainLayout("a:b", '#', false));
            a.Accepts("b#c") && b.Accepts("c") && a.Pk("b#c") == b.Pk("c")
    ensures var (a, b) := (PlainLayout("a", ':', true), PlainLayout("a:b", ':', false));
            a.Accepts("b:c") && b.Accepts("c") && a.Pk("b:c") == b.Pk("c")
  {
    assert "a" + [':'] + "b#c" == "a:b" + ['#'] + "c" == "a:b#c";
    assert "a" + [':'] + "b:c" == "a:b" + [':'] + "c" == "a:b:c";
  }

  /** A partition key under this namespace's prefix, as its index query tells records apart. */
  predicate UnderPrefix(l: Layout, pk: string) {
    l.KeyPrefix() <= pk
  }

  ghost predicate StaysOutside(m: Layout, l: Layout) {
    forall k | m.Accepts(k) :: !UnderPrefix(l, m.Pk(k))
  }

  lemma UnderPrefixMeansNested(m: Layout, l: Layout, k: string)
    requires m.Accepts(k) && UnderPrefix(l, m.Pk(k))
    ensures UnderPrefix(l, m.KeyPrefix()) || PrefixIsKeyOf(m, l)
  {
    var pk, n := m.Pk(k), |l.KeyPrefix()|;
    assert l.KeyPrefix() == pk[..n] && m.KeyPrefix() == pk[..|m.KeyPrefix()|] && k == pk[|m.KeyPrefix()|..];
    if n <= |m.KeyPrefix()| {
      assert m.KeyPrefix()[..n] == pk[..n];
    } else {
      assert pk[..n][|m.KeyPrefix()|..] == k[..n - |m.KeyPrefix()|];
    }
  }

  /** No key of one namespace lies under the other's prefix exactly when its prefix does not and the other's is not
      one of its keys. */
  lemma StaysOutsideExactlyWhen(m: Layout, l: Layout)
    ensures StaysOutside(m, l) <==> !UnderPrefix(l, m.KeyPrefix()) && !PrefixIsKeyOf(m, l)
  {
    if UnderPrefix(l, m.KeyPrefix()) {
      assert m.Accepts("") && m.Pk("") == m.KeyPrefix();
    } else if PrefixIsKeyOf(m, l) {
      assert m.Pk(l.KeyPrefix()[|m.KeyPrefix()|..]) == l.KeyPrefix();
    } else {
      forall k | m.Accepts(k) ensures !UnderPrefix(l, m.Pk(k)) {
        if UnderPrefix(l, m.Pk(k)) {
          UnderPrefixMeansNested(m, l, k);
        }
      }
    }
  }

  lemma PkIsInjective(l: Layout, j: string, k: string)
    requires l.Pk(j) == l.Pk(k)
    ensures j == k
  {
    assert j == l.Pk(j)[|l.KeyPrefix()|..] && k == l.Pk(k)[|l.KeyPrefix()|..];
  }

  /** Condition expressions, evaluated on the stored attributes. */
  datatype Condition = Always | NoSuchItem | VersionIs(v: int) | TtlMissingOrBefore(t: int)

  predicate Holds(l: Layout, item: Option<Item>, c: Condition) {
    match c
    case Always => true
    case NoSuchItem => item.None?
    case VersionIs(v) => item.Some? && l.versionAttr in item.value && item.value[l.versionAttr] == Num(v)
    case TtlMissingOrBefore(t) =>
      item.None? || l.ttlAttr !in item.value || (item.value[l.ttlAttr].Num? && item.value[l.ttlAttr].n < t)
  }

  /** Table and records agree on one key. */
  predicate MirrorsAt(l: Layout, item: Option<Item>, row: Option<Row>, key: string) {
    match (item, row)
    case (Some(i), Some(r)) => l.Encodes(i, key, r)
    case (None, None) => true
    case _ => false
  }

  /** They agree on every key the namespace accepts. Of other items, whatever their keys, nothing is said. */
  ghost predicate Mirrors(l: Layout, table: map<string, Item>, rows: map<string, Row>) {
    && (forall key | key in rows :: l.Accepts(key))
    && forall key {:trigger Lookup(rows, key)} | l.Accepts(key) ::
         MirrorsAt(l, Lookup(table, l.Pk(key)), Lookup(rows, key), key)
  }

  lemma MirrorsAfterUpdate(l: Layout, table: map<string, Item>, rows: map<string, Row>,
                           key: string, item: Option<Item>, row: Option<Row>)
    requires Mirrors(l, table, rows) && MirrorsAt(l, item, row, key) && l.Accepts(key)
    ensures Mirrors(l, Update(table, l.Pk(key), item), Update(rows, key, row))
  {
    var t, r := Update(table, l.Pk(key), item), Update(rows, key, row);
    forall k {:trigger Lookup(r, k)} | l.Accepts(k) ensures MirrorsAt(l, Lookup(t, l.Pk(k)), Lookup(r, k), k) {
      if l.Pk(k) == l.Pk(key) {
        PkIsInjective(l, k, key);
      }
      assert MirrorsAt(l, Lookup(table, l.Pk(k)), Lookup(rows, k), k);
    }
    forall k | k in r ensures l.Accepts(k) {
      assert Lookup(r, k).Some?;
    }
  }

  /** What a disjoint namespace writes or deletes leaves this one's records alone. */
  lemma OthersDoNotDisturb(l: Layout, m: Layout, table: map<string, Item>, rows: map<string, Row>,
                           key: string, item: Option<Item>)
    requires Mirrors(l, table, rows) && Disjoint(l, m) && m.Accepts(key)
    ensures Mirrors(l, Update(table, m.Pk(key), item), rows)
  {
    var t := Update(table, m.Pk(key), item);
    forall k {:trigger Lookup(rows, k)} | l.Accepts(k) ensures MirrorsAt(l, Lookup(t, l.Pk(k)), Lookup(rows, k), k) {
      assert MirrorsAt(l, Lookup(table, l.Pk(k)), Lookup(rows, k), k);
    }
  }

  /** The row-level step on one key is the store-level step. */
  lemma RowStepIsStoreStep(before: map<string, Row>, after: map<string, Row>, key: string, now: int, op: RowOp,
      outcome: Outcome)
    requires before - {key} == after - {key}
    requires (Lookup(after, key), outcome) == DynamoStep(Lookup(before, key), now, op)
    ensures (after, outcome) == StoreStep(Dynamo, before, TimedCall(now, On(key, op)))
  {
    var stepped := Update(before, key, Lookup(after, key));
    forall k
      ensures k in after <==> k in stepped
      ensures k in after ==> after[k] == stepped[k]
    {
      assert Lookup(stepped, k) == if k == key then Lookup(after, key) else Lookup(before, k);
      if k != key {
        assert Lookup(before, k) == Lookup(before - {key}, k) && Lookup(after, k) == Lookup(after - {key}, k);
      }
    }
    assert after == stepped;
  }

  class DynamoKvStore {
    const layout: Layout
    /** The remote table, by partition key; other namespaces may share it. */
    var table: map<string, Item>
    /** The records under the keys this namespace accepts. */
    ghost var rows: map<string, Row>

    ghost predicate Valid()
      reads this
    {
      layout.Sound() && Mirrors(layout, table, rows)
    }

    /** A store over a table that may hold anything outside this namespace's keys. */
    constructor (layout: Layout, table: map<string, Item>, ghost rows: map<string, Row>)
      requires layout.Sound() && Mirrors(layout, table, rows)
      ensures Valid() && this.table == table && this.rows == rows && this.layout == layout
    {
      this.layout, this.table, this.rows := layout, table, rows;
    }

    /** The call did to its key what the row-level step says, or was refused for its key or value;
        no other item of the table changed. */
    twostate predicate Performed(accepted: bool, key: string, now: int, op: RowOp, outcome: Outcome)
      reads this
    {
      && Valid()
      && rows - {key} == old(rows) - {key}
      && table - {layout.Pk(key)} == old(table) - {layout.Pk(key)}
      && (if accepted then (Lookup(rows, key), outcome) == DynamoStep(Lookup(old(rows), key), now, op)
          else rows == old(rows) && table == old(table) && outcome == Rejected)
    }

    /** The raw item under a key, with what its attributes say. */
    method Read(key: string) returns (item: Option<Item>)
      requires Valid() && layout.Accepts(key)
      ensures item == Lookup(table, layout.Pk(key))
      ensures MirrorsAt(layout, item, Lookup(rows, key), key)
      ensures item.Some? ==>
                var row := Lookup(rows, key).value;
                && layout.ReadItem(item.value) == ToRecord(row)
                && forall now :: layout.ExpiredItem(item.value, now) <==> ExpiredBySecond(row, now)
    {
      item := Lookup(table, layout.Pk(key));
      assert MirrorsAt(layout, item, Lookup(rows, key), key);
      if item.Some? {
        layout.EncodedItemReadsBack(item.value, key, Lookup(rows, key).value);
      }
    }

    /** A conditional PutItem of one record. */
    method PutItem(key: string, row: Row, condition: Condition) returns (ok: bool)
      requires Valid() && layout.Fits(row) && layout.Accepts(key)
      modifies this
      ensures Valid()
      ensures ok <==> Holds(layout, Lookup(old(table), layout.Pk(key)), condition)
      ensures Lookup(rows, key) == if ok then Some(row) else Lookup(old(rows), key)
      ensures rows - {key} == old(rows) - {key} && table - {layout.Pk(key)} == old(table) - {layout.Pk(key)}
      ensures !ok ==> rows == old(rows) && table == old(table)
    {
      ok := Holds(layout, Lookup(table, layout.Pk(key)), condition);
      if ok {
        layout.BuiltItemEncodes(key, row);
        StoreItem(key, layout.BuildItem(key, row), row);
      }
    }

    method Get(key: string, includeExpired: bool, now: int) returns (outcome: Outcome)
      requires Valid()
      ensures outcome == if layout.Accepts(key) then
                DynamoStep(Lookup(rows, key), now, RowOp.Get(includeExpired)).1 else Rejected
    {
      if !layout.Accepts(key) {
        return Rejected;
      }
      var item := Read(key);
      if item.None? {
        return Got(None);
      }
      if !includeExpired && layout.ExpiredItem(item.value, now) {
        return Got(None);
      }
      return Got(Some(layout.ReadItem(item.value)));
    }

    /** Unconditional overwrite: read the version, then write. */
    method Put(key: string, value: Value, opts: WriteOptions, now: int) returns (outcome: Outcome)
      requires Valid()
      modifies this
      ensures Performed(layout.Accepts(key)
                && layout.Storable(value), key, now, RowOp.Put(value, layout.Kept(opts)), outcome)
    {
      if !layout.Accepts(key) || !layout.Storable(value) {
        return Rejected;
      }
      var current := Read(key);
      var prevVersion := if current.Some? then layout.VersionAttr(current.value) else 0;
      var row := NewRow(value, prevVersion + 1, layout.Kept(opts), now);
      var _ := PutItem(key, row, Always);
      return Wrote(ToRecord(row));
    }

    method PutIfAbsent(key: string, value: Value, opts: WriteOptions, now: int) returns (outcome: Outcome)
      requires Valid()
      modifies this
      ensures Performed(layout.Accepts(key)
                && layout.Storable(value), key, now, RowOp.PutIfAbsent(value, layout.Kept(opts)), outcome)
    {
      if !layout.Accepts(key) || !layout.Storable(value) {
        return Rejected;
      }
      var create := NewRow(value, 1, layout.Kept(opts), now);
      var found := Read(key);
      var created := PutItem(key, create, NoSuchItem);
      if created {
        return Cas(true, Some(ToRecord(create)));
      }
      var current := Read(key);
      if !layout.ExpiredItem(current.value, now) {
        return Cas(false, Some(layout.ReadItem(current.value)));
      }
      var prevVersion := layout.VersionAttr(current.value);
      var takeover := NewRow(value, prevVersion + 1, layout.Kept(opts), now);
      var taken := PutItem(key, takeover, VersionIs(prevVersion));
      return Cas(taken, Some(ToRecord(takeover)));
    }

    method CompareAndSet(key: string, expected: int, value: Value, opts: WriteOptions,
        now: int) returns (outcome: Outcome)
      requires Valid()
      modifies this
      ensures Performed(layout.Accepts(key) && layout.Storable(value), key, now,
                        RowOp.CompareAndSet(expected, value, layout.Kept(opts)), outcome)
    {
      if !layout.Accepts(key) || !layout.Storable(value) {
        return Rejected;
      }
      var row := NewRow(value, expected + 1, layout.Kept(opts), now);
      var current := Read(key);
      var applied := PutItem(key, row, if expected == 0 then NoSuchItem else VersionIs(expected));
      if applied {
        return Cas(true, Some(ToRecord(row)));
      }
      return Cas(false, if current.Some? && !layout.ExpiredItem(current.value, now) then
          Some(layout.ReadItem(current.value)) else None);
    }

    method PutIfFresher(key: string, value: Value, freshUntil: int, indexedKey: Option<string>, now: int)
      returns (outcome: Outcome)
      requires Valid()
      modifies this
      ensures Performed(layout.Accepts(key) && layout.Storable(value), key, now,
                        RowOp.PutIfFresher(value, freshUntil, if layout.index.Some? then indexedKey else None), outcome)
    {
      if !layout.Accepts(key) || !layout.Storable(value) {
        return Rejected;
      }
      var row := Row(value, 1, Some(freshUntil), if layout.index.Some? then indexedKey else None);
      var current := Read(key);
      var applied := PutItem(key, row, TtlMissingOrBefore(freshUntil));
      if applied {
        return Cas(true, Some(ToRecord(row)));
      }
      return Cas(false, if current.Some? && !layout.ExpiredItem(current.value, now) then
          Some(layout.ReadItem(current.value)) else None);
    }

    /** What adding to a reserved attribute does: without an expiry of its own the call may move the record's;
        every other reserved attribute is refused. */
    twostate predicate AddedToReserved(key: string, fieldName: string, delta: int, opts: WriteOptions, now: int,
        outcome: Outcome)
      reads this
    {
      && rows - {key} == old(rows) - {key}
      && table - {layout.Pk(key)} == old(table) - {layout.Pk(key)}
      && if fieldName == layout.ttlAttr && ResolveExpiry(opts, now).None? then
           var moved := ExpiryMoved(Lookup(old(rows), key), delta);
           Lookup(rows, key) == Some(moved) && outcome == Sum(Num(moved.expiresAt.value))
         else rows == old(rows) && table == old(table) && outcome == Rejected
    }

    /** `ADD #f :d, #v :one SET #ttl = if_not_exists(#ttl, :ttl)`. Only the pattern of the field name is checked. */
    method Increment(key: string, fieldName: string, delta: int, opts: WriteOptions,
        now: int) returns (outcome: Outcome)
      requires Valid()
      modifies this
      ensures Performed(layout.Accepts(key), key, now, RowOp.Increment(fieldName, delta, layout.Kept(opts)), outcome)
         <==> fieldName !in layout.Reserved() || !IsFieldName(fieldName) || !layout.Accepts(key)
      ensures Valid()
      ensures fieldName in layout.Reserved() && IsFieldName(fieldName) && layout.Accepts(key) ==>
                AddedToReserved(key, fieldName, delta, opts, now, outcome)
    {
      if !IsFieldName(fieldName) || !layout.Accepts(key) {
        return Rejected;
      }
      if fieldName in layout.Reserved() {
        outcome := AddToReserved(key, fieldName, delta, opts, now);
      } else {
        outcome := AddToField(key, fieldName, delta, opts, now);
      }
    }

    /** DynamoDB refuses to update a key attribute, to write one attribute twice, and to put a number where an index
        expects text. */
    method AddToReserved(key: string, fieldName: string, delta: int, opts: WriteOptions,
        now: int) returns (outcome: Outcome)
      requires Valid() && fieldName in layout.Reserved() && IsFieldName(fieldName) && layout.Accepts(key)
      modifies this
      ensures Valid() && AddedToReserved(key, fieldName, delta, opts, now, outcome)
      ensures !Performed(true, key, now, RowOp.Increment(fieldName, delta, layout.Kept(opts)), outcome)
    {
      var found := Read(key);
      ghost var row := Lookup(rows, key);
      AddStepCounts(layout, found, row, key, now, fieldName, delta, layout.Kept(opts));
      if fieldName != layout.ttlAttr || ResolveExpiry(opts, now).Some? {
        return Rejected;
      }
      var item := Base(layout, found, key);
      var current := layout.TtlAttr(item);
      var expiry := (if current.Some? then current.value else 0) + delta;
      var moved := item[layout.ttlAttr := Num(expiry)][layout.versionAttr := Num(layout.VersionAttr(item) + 1)];
      MovedEncodes(layout, found, row, key, delta);
      StoreItem(key, moved, ExpiryMoved(row, delta));
      return Sum(Num(expiry));
    }

    method AddToField(key: string, fieldName: string, delta: int, opts: WriteOptions,
        now: int) returns (outcome: Outcome)
      requires Valid() && fieldName !in layout.Reserved() && IsFieldName(fieldName) && layout.Accepts(key)
      modifies this
      ensures Performed(true, key, now, RowOp.Increment(fieldName, delta, layout.Kept(opts)), outcome)
    {
      var found := Read(key);
      ghost var row := Lookup(rows, key);
      var item := Base(layout, found, key);
      var current := Addend(item, fieldName);
      AddendIsCounter(layout, found, row, key, fieldName);
      if !current.Num? {
        AddRefused(row, now, fieldName, delta, layout.Kept(opts));
        return Rejected;
      }
      var total := current.n + delta;
      ghost var after := AddFollowsRow(layout, found, row, key, now, fieldName, delta, layout.Kept(opts), total);
      StoreItem(key, Added(layout, item, fieldName, total, ResolveExpiry(opts, now)), after);
      return Sum(Num(total));
    }

    method StoreItem(key: string, item: Item, ghost row: Row)
      requires Valid() && layout.Encodes(item, key, row) && layout.Accepts(key)
      modifies this
      ensures Valid()
      ensures Lookup(rows, key) == Some(row)
      ensures rows - {key} == old(rows) - {key} && table - {layout.Pk(key)} == old(table) - {layout.Pk(key)}
    {
      MirrorsAfterUpdate(layout, table, rows, key, Some(item), Some(row));
      table := table[layout.Pk(key) := item];
      rows := rows[key := row];
    }

    method Delete(key: string, guard: Option<int>, ghost now: int) returns (outcome: Outcome)
      requires Valid()
      modifies this
      ensures Performed(layout.Accepts(key), key, now, RowOp.Delete(guard), outcome)
    {
      if !layout.Accepts(key) {
        return Rejected;
      }
      var item := Read(key);
      if guard.Some? && !Holds(layout, item, VersionIs(guard.value)) {
        return Deleted(false);
      }
      MirrorsAfterUpdate(layout, table, rows, key, None, None);
      table := table - {layout.Pk(key)};
      rows := rows - {key};
      return Deleted(item.Some?);
    }

    /** The index query, filtered of expired items and of partition keys without this namespace's prefix. It lists
        the live records under the keys this namespace accepts, and nothing else exactly when no item that is
        indexed under the value and live has the prefix and a key it refuses. */
    method QueryByIndex(indexValue: string, now: int) returns (outcome: Outcome)
      requires Valid()
      ensures if layout.index.Some? then outcome.Listed? else outcome == Rejected
      ensures outcome.Listed? ==> forall key :: Lookup(outcome.rows, key) == Hit(layout, table, key, indexValue, now)
      ensures outcome.Listed? ==> forall key | layout.Accepts(key) ::
                Lookup(outcome.rows, key) == Lookup(IndexRows(Dynamo, rows, now, indexValue), key)
      ensures outcome.Listed? ==>
                (outcome.rows == IndexRows(Dynamo, rows, now, indexValue) <==> !Stray(layout, table, indexValue, now))
    {
      if layout.index.None? {
        return Rejected;
      }
      var results := ListIndexed(indexValue, now);
      HitsAreIndexRows(layout, table, rows, indexValue, now, results);
      return Listed(results);
    }

    method ListIndexed(indexValue: string, now: int) returns (results: map<string, Record>)
      ensures forall key :: Lookup(results, key) == Hit(layout, table, key, indexValue, now)
    {
      results := map[];
      var items := set pk | pk in table && layout.IndexAttr(table[pk]) == Some(indexValue);
      while items != {}
        invariant items <= set pk | pk in table && layout.IndexAttr(table[pk]) == Some(indexValue)
        invariant forall key :: Lookup(results, key) == if layout.Pk(key) in items then None
                  else Hit(layout, table, key, indexValue, now)
        decreases |items|
      {
        var pk :| pk in items;
        ghost var before, was := results, items;
        items := items - {pk};
        if !layout.ExpiredItem(table[pk], now) && layout.KeyPrefix() <= pk {
          results := results[layout.StripPk(pk) := layout.ReadItem(table[pk])];
        }
        forall key ensures Lookup(results, key) == if layout.Pk(key) in items then None
            else Hit(layout, table, key, indexValue, now) {
          assert Lookup(before, key) == if layout.Pk(key) in was then None
              else Hit(layout, table, key, indexValue, now);
          assert layout.StripPk(layout.Pk(key)) == key;
          assert layout.KeyPrefix() <= layout.Pk(key);
          if layout.KeyPrefix() <= pk {
            assert layout.Pk(layout.StripPk(pk)) == pk;
          }
        }
      }
    }
  }

  /** What the query should show under one key. */
  function Hit(l: Layout, table: map<string, Item>, key: string, indexValue: string, now: int): Option<Record> {
    var pk := l.Pk(key);
    if pk in table && l.IndexAttr(table[pk]) == Some(indexValue) && !l.ExpiredItem(table[pk], now)
    then Some(l.ReadItem(table[pk])) else None
  }

  /** A record shown under a key that this namespace refuses. */
  ghost predicate Stray(l: Layout, table: map<string, Item>, indexValue: string, now: int) {
    exists key :: !l.Accepts(key) && Hit(l, table, key, indexValue, now).Some?
  }

  lemma HitIsIndexRow(l: Layout, table: map<string, Item>, rows: map<string, Row>, key: string, indexValue: string,
      now: int)
    requires Mirrors(l, table, rows) && l.Accepts(key)
    ensures Hit(l, table, key, indexValue, now) == Lookup(IndexRows(Dynamo, rows, now, indexValue), key)
  {
    assert MirrorsAt(l, Lookup(table, l.Pk(key)), Lookup(rows, key), key);
    if key in rows {
      l.EncodedItemReadsBack(table[l.Pk(key)], key, rows[key]);
    }
  }

  lemma HitsAreIndexRows(l: Layout, table: map<string, Item>, rows: map<string, Row>,
                         indexValue: string, now: int, results: map<string, Record>)
    requires Mirrors(l, table, rows)
    requires forall key :: Lookup(results, key) == Hit(l, table, key, indexValue, now)
    ensures forall key | l.Accepts(key) ::
              Lookup(results, key) == Lookup(IndexRows(Dynamo, rows, now, indexValue), key)
    ensures results == IndexRows(Dynamo, rows, now, indexValue) <==> !Stray(l, table, indexValue, now)
  {
    var spec := IndexRows(Dynamo, rows, now, indexValue);
    forall key | l.Accepts(key) ensures Lookup(results, key) == Lookup(spec, key) {
      HitIsIndexRow(l, table, rows, key, indexValue, now);
    }
    if Stray(l, table, indexValue, now) {
      var key :| !l.Accepts(key) && Hit(l, table, key, indexValue, now).Some?;
      assert Lookup(results, key).Some? && key !in spec;
    } else {
      forall key
        ensures key in results <==> key in spec
        ensures key in results ==> results[key] == spec[key]
      {
        assert Lookup(results, key) == Hit(l, table, key, indexValue, now);
        assert Lookup(results, key) == Lookup(spec, key);
      }
    }
  }

  /** With an index in the layout every option counts; without one the index key alone is dropped. */
  lemma KeptDropsOnlyTheIndexKey(l: Layout, opts: WriteOptions, now: int)
    ensures ResolveExpiry(l.Kept(opts), now) == ResolveExpiry(opts, now)
    ensures l.Kept(opts).indexedKey == if l.index.Some? then opts.indexedKey else None
  {
  }

  /** A record put with an index key is listed by a query of that key, and of no other, as long as it lives. */
  method PutThenQuery(c: DynamoKvStore, key: string, value: Value, opts: WriteOptions, now: int, indexValue: string,
      later: int)
    returns (written: Outcome, listed: Outcome)
    requires c.Valid() && c.layout.Accepts(key) && c.layout.Storable(value) && c.layout.index.Some?
    modifies c
    ensures written.Wrote? && listed.Listed? && written.record.value == value
    ensures Lookup(listed.rows, key)
         == if opts.indexedKey == Some(indexValue)
               && (written.record.expiresAt.Some? ==> later / 1000 <= written.record.expiresAt.value)
            then Some(written.record) else None
  {
    written := c.Put(key, value, opts, now);
    listed := c.QueryByIndex(indexValue, later);
  }

  // ---- whose records an index query lists ---------------------------------------------------------------

  /** The item is one the namespace writes under one of its keys. */
  ghost predicate Writes(m: Layout, pk: string, item: Item) {
    exists key, row :: m.Accepts(key) && m.Fits(row) && pk == m.Pk(key) && item == m.BuildItem(key, row)
  }

  ghost predicate SharedBy(l: Layout, m: Layout, table: map<string, Item>) {
    forall pk | pk in table :: Writes(l, pk, table[pk]) || Writes(m, pk, table[pk])
  }

  /** The two namespaces differ in their prefixes at most. */
  predicate SameAttributes(l: Layout, m: Layout) {
    l.skName == m.skName && l.ttlAttr == m.ttlAttr && l.versionAttr == m.versionAttr && l.index == m.index
  }

  /** The index query of one namespace never lists a record under a key it refuses, whatever the two have written. */
  ghost predicate QueriesOnlyItsOwn(l: Layout, m: Layout) {
    forall table, indexValue, now | SharedBy(l, m, table) :: !Stray(l, table, indexValue, now)
  }

  lemma OutsideIsNeverStray(l: Layout, m: Layout, table: map<string, Item>, indexValue: string, now: int)
    requires StaysOutside(m, l) && SharedBy(l, m, table)
    ensures !Stray(l, table, indexValue, now)
  {
    forall key | Hit(l, table, key, indexValue, now).Some? ensures l.Accepts(key) {
      var pk := l.Pk(key);
      assert UnderPrefix(l, pk);
      assert !Writes(m, pk, table[pk]);
      var own, row :| l.Accepts(own) && l.Fits(row) && pk == l.Pk(own) && table[pk] == l.BuildItem(own, row);
      PkIsInjective(l, key, own);
    }
  }

  /** What a namespace writes under one of its keys reads as the record that was written, also through the eyes of a
      namespace with the same attributes. */
  lemma WrittenReadsAlike(l: Layout, m: Layout, key: string, row: Row, now: int)
    requires m.Sound() && SameAttributes(l, m) && m.Fits(row)
    ensures var item := m.BuildItem(key, row);
            && l.ReadItem(item) == ToRecord(row) && l.IndexAttr(item) == row.indexedKey
            && (l.ExpiredItem(item, now) <==> ExpiredBySecond(row, now))
  {
    var item := m.BuildItem(key, row);
    m.BuiltItemEncodes(key, row);
    m.EncodedItemReadsBack(item, key, row);
    ReadAlike(l, m, item);
  }

  lemma OneItemShared(l: Layout, m: Layout, key: string, row: Row)
    requires m.Accepts(key) && m.Fits(row)
    ensures SharedBy(l, m, map[m.Pk(key) := m.BuildItem(key, row)])
  {
    assert Writes(m, m.Pk(key), m.BuildItem(key, row));
  }

  lemma InsideIsStray(l: Layout, m: Layout, key: string, row: Row, now: int)
    requires m.Sound() && SameAttributes(l, m) && Disjoint(l, m)
    requires m.Accepts(key) && UnderPrefix(l, m.Pk(key))
    requires m.Fits(row) && row.indexedKey.Some? && !ExpiredBySecond(row, now)
    ensures var table := map[m.Pk(key) := m.BuildItem(key, row)];
            var shown := l.StripPk(m.Pk(key));
            && SharedBy(l, m, table) && !l.Accepts(shown)
            && Hit(l, table, shown, row.indexedKey.value, now) == Some(ToRecord(row))
  {
    OneItemShared(l, m, key, row);
    WrittenReadsAlike(l, m, key, row, now);
    assert l.Pk(l.StripPk(m.Pk(key))) == m.Pk(key);
  }

  lemma ReadAlike(l: Layout, m: Layout, item: Item)
    requires SameAttributes(l, m)
    ensures l.ReadItem(item) == m.ReadItem(item) && l.TtlAttr(item) == m.TtlAttr(item)
    ensures l.IndexAttr(item) == m.IndexAttr(item)
  {
    assert l.Reserved() == m.Reserved();
  }

  /** Of two namespaces that share no key, one's index query lists nothing of the other's, whatever they have
      written, exactly when the other's prefix does not begin with its own. */
  lemma QueriesOnlyItsOwnExactlyWhen(l: Layout, m: Layout)
    requires l.Sound() && SameAttributes(l, m) && l.index.Some? && Disjoint(l, m)
    ensures QueriesOnlyItsOwn(l, m) <==> !UnderPrefix(l, m.KeyPrefix())
  {
    NamespacesAreDisjointExactlyWhen(l, m);
    StaysOutsideExactlyWhen(m, l);
    if UnderPrefix(l, m.KeyPrefix()) {
      var row := Row(map[], 1, None, Some(""));
      assert m.Pk("") == m.KeyPrefix();
      InsideIsStray(l, m, "", row, 0);
      assert Stray(l, map[m.Pk("") := m.BuildItem("", row)], "", 0);
    } else {
      forall table, indexValue, now | SharedBy(l, m, table) ensures !Stray(l, table, indexValue, now) {
        OutsideIsNeverStray(l, m, table, indexValue, now);
      }
    }
  }

  function IndexedLayout(prefix: string): Layout {
    Layout(prefix, ':', false, None, "", "ttl", "_v", Some(Index("ix", None)))
  }

  /** The namespaces "a" and "a:b" share no key, yet a query of the first lists what the second wrote under "c", under
      a key the first refuses. */
  lemma NestedNamespaceIsListed(row: Row, now: int)
    requires IndexedLayout("a:b").Fits(row) && row.indexedKey.Some? && !ExpiredBySecond(row, now)
    ensures var (l, m) := (IndexedLayout("a"), IndexedLayout("a:b"));
            var table := map[m.Pk("c") := m.BuildItem("c", row)];
            && Disjoint(l, m) && !l.Accepts("b:c") && m.Accepts("c")
            && Hit(l, table, "b:c", row.indexedKey.value, now) == Some(ToRecord(row))
  {
    var l, m := IndexedLayout("a"), IndexedLayout("a:b");
    OneSeparatorIsEnough(l, m);
    assert m.Pk("c") == "a:b:c" && l.KeyPrefix() == "a:" && "a:b:c"[..2] == "a:";
    assert l.StripPk(m.Pk("c")) == "b:c";
    InsideIsStray(l, m, "c", row, now);
  }

  /** The row after its time-to-live attribute has been added to. */
  function ExpiryMoved(row: Option<Row>, delta: int): (moved: Row) {
    match row
    case Some(r) =>
      Row(r.value, r.version + 1, Some((if r.expiresAt.Some? then r.expiresAt.value else 0) + delta), r.indexedKey)
    case None => Row(map[], 1, Some(delta), None)
  }

  lemma MovedEncodes(l: Layout, found: Option<Item>, row: Option<Row>, key: string, delta: int)
    requires l.Sound() && MirrorsAt(l, found, row, key)
    ensures var item := Base(l, found, key);
            var current := l.TtlAttr(item);
            var expiry := (if current.Some? then current.value else 0) + delta;
            && ExpiryMoved(row, delta).expiresAt == Some(expiry)
            && l.Encodes(item[l.ttlAttr := Num(expiry)][l.versionAttr := Num(l.VersionAttr(item) + 1)], key,
                         ExpiryMoved(row, delta))
  {
  }

  /** Over a reserved name the row-level step would add a field of that name, which no stored row has. */
  lemma AddStepCounts(l: Layout, found: Option<Item>, row: Option<Row>, key: string, now: int, name: string, delta: int,
      opts: WriteOptions)
    requires MirrorsAt(l, found, row, key) && name in l.Reserved() && IsFieldName(name)
    ensures row.Some? ==> name !in row.value.value
    ensures var (after, outcome) := DynamoStep(row, now, RowOp.Increment(name, delta, opts));
            after.Some? && name in after.value.value && outcome == Sum(Num(delta))
  {
  }

  /** Adding to the time-to-live attribute by its name expires a live record. */
  method ExpireByIncrement(c: DynamoKvStore, key: string, now: int) returns (seen: Outcome)
    requires c.Valid() && c.layout.Accepts(key) && IsFieldName(c.layout.ttlAttr)
    requires key in c.rows && c.rows[key].expiresAt.Some? && !ExpiredBySecond(c.rows[key], now)
    modifies c
    ensures seen == Got(None) && key in c.rows && c.rows[key].value == old(c.rows[key].value)
  {
    var record := c.Get(key, true, now);
    var delta := Seconds(now) - 1 - record.got.value.expiresAt.value;
    var _ := c.Increment(key, c.layout.ttlAttr, delta, WriteOptions(None, None, None), now);
    seen := c.Get(key, false, now);
  }

  /** The update expression applied to an item's attributes. */
  function Added(l: Layout, item: Item, name: string, total: int, expiresAt: Option<int>): Item {
    var counted := item[name := Num(total)][l.versionAttr := Num(l.VersionAttr(item) + 1)];
    if expiresAt.Some? && l.ttlAttr !in counted then counted[l.ttlAttr := Num(expiresAt.value)] else counted
  }

  lemma AddedToExisting(l: Layout, key: string, item: Item, row: Row, name: string, total: int, expiresAt: Option<int>)
    requires l.Sound() && name !in l.Reserved() && l.Encodes(item, key, row)
    ensures l.Encodes(Added(l, item, name, total, expiresAt), key,
                      Row(row.value[name := Num(total)], row.version + 1,
                          if row.expiresAt.Some? then row.expiresAt else expiresAt, row.indexedKey))
  {
  }

  lemma AddedToNothing(l: Layout, key: string, name: string, total: int, expiresAt: Option<int>)
    requires l.Sound() && name !in l.Reserved()
    ensures name !in l.KeyAttrs(key)
    ensures l.Encodes(Added(l, l.KeyAttrs(key), name, total, expiresAt), key, Row(map[name :=
              Num(total)], 1, expiresAt, None))
  {
  }

  /** The attribute an add starts from; an attribute that is not there counts from zero. */
  function Addend(item: Item, name: string): Field {
    if name in item then item[name] else Num(0)
  }

  /** The item an update starts from: the stored one, or the key attributes alone. */
  function Base(l: Layout, found: Option<Item>, key: string): Item {
    if found.Some? then found.value else l.KeyAttrs(key)
  }

  lemma AddendIsCounter(l: Layout, found: Option<Item>, row: Option<Row>, key: string, name: string)
    requires l.Sound() && MirrorsAt(l, found, row, key) && name !in l.Reserved()
    ensures Addend(Base(l, found, key), name) == Counter(if row.Some? then row.value.value else map[], name)
  {
    if found.None? {
      AddedToNothing(l, key, name, 0, None);
    }
  }

  /** Adding to an item's attribute is the row-level add. */
  lemma AddFollowsRow(l: Layout, found: Option<Item>, row: Option<Row>, key: string, now: int, name: string, delta: int,
      opts: WriteOptions, total: int) returns (after: Row)
    requires l.Sound() && MirrorsAt(l, found, row, key) && name !in l.Reserved() && IsFieldName(name)
    requires Addend(Base(l, found, key), name) == Num(total - delta)
    ensures AddStep(row, now, name, delta, opts) == (Some(after), Sum(Num(total)))
    ensures l.Encodes(Added(l, Base(l, found, key), name, total, ResolveExpiry(opts, now)), key, after)
  {
    AddendIsCounter(l, found, row, key, name);
    AddStepRow(row, now, name, delta, opts, total);
    after := AddStep(row, now, name, delta, opts).0.value;
    if found.Some? {
      AddedToExisting(l, key, found.value, row.value, name, total, ResolveExpiry(opts, now));
    } else {
      AddedToNothing(l, key, name, total, ResolveExpiry(opts, now));
    }
  }

  lemma AddRefused(row: Option<Row>, now: int, name: string, delta: int, opts: WriteOptions)
    requires !Counter(if row.Some? then row.value.value else map[], name).Num?
    ensures AddStep(row, now, name, delta, opts) == (row, Rejected)
  {
  }

  /** The row after the add, spelled out. */
  lemma AddStepRow(row: Option<Row>, now: int, name: string, delta: int, opts: WriteOptions, total: int)
    requires IsFieldName(name)
    requires Counter(if row.Some? then row.value.value else map[], name) == Num(total - delta)
    ensures AddStep(row, now, name, delta, opts)
         == (Some(match row
                  case Some(r) => Row(r.value[name := Num(total)], r.version + 1,
                                      if r.expiresAt.Some? then r.expiresAt else ResolveExpiry(opts, now), r.indexedKey)
                  case None => Row(map[name := Num(total)], 1, ResolveExpiry(opts, now), None)),
             Sum(Num(total)))
  {
  }
}
