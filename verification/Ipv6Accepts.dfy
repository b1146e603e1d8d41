/** Exactly which texts the IPv6 parser accepts, well-formed or not, and as what. */
module Ipv6Accepts {
  import opened Options
  import opened Bytes
  import opened Text
  import opened Ipv6Text

  /** A group is one to four hexadecimal digits. */
  lemma GroupsAreHex(t: string)
    ensures IsGroup(t) <==> |t| in {1, 2, 3, 4} && forall c | c in t :: c in "0123456789abcdef" || c in "ABCDEF"
  {
    forall c: char ensures IsHex(c) <==> c in "0123456789abcdef" || c in "ABCDEF" {
    }
    if IsGroup(t) {
      forall c | c in t ensures IsHex(c) {
      }
    } else if 1 <= |t| <= 4 {
      var i :| 0 <= i < |t| && !IsHex(t[i]);
      assert t[i] in t;
    }
  }

  /** Dropping empty pieces keeps the others in order. */
  lemma {:induction false} NonEmptyDropsBlanks(a: seq<string>, b: seq<string>)
    ensures NonEmpty(a + b) == NonEmpty(a) + NonEmpty(b)
  {
    if a == [] {
      assert [] + b == b;
    } else {
      var head := if a[0] == "" then [] else [a[0]];
      NonEmptyDropsBlanks(a[1..], b);
      assert (a + b)[1..] == a[1..] + b;
      assert head + (NonEmpty(a[1..]) + NonEmpty(b)) == (head + NonEmpty(a[1..])) + NonEmpty(b);
    }
  }

  lemma OnePieceKept(t: string)
    ensures NonEmpty([t]) == if t == "" then [] else [t]
  {
    assert [t][1..] == [];
  }

  /** Four pieces that convert to octets. */
  predicate LooseTail(tail: Option<seq<string>>, toNumber: string -> Option<int>) {
    tail.Some? ==>
      |tail.value| == 4 && forall i | 0 <= i < 4 :: '.' !in tail.value[i] && IsOctetNumber(toNumber(tail.value[i]))
  }

  /** As the well-formed forms, but `::` may stand for no group, and the tail is whatever converts to octets. */
  predicate LooselyFormed(f: Form, toNumber: string -> Option<int>) {
    match f
    case Full(groups, tail) => AllGroups(groups) && LooseTail(tail, toNumber) && |groups| + TailSize(tail) == 8
    case Compressed(left, right, tail) =>
      AllGroups(left) && AllGroups(right) && LooseTail(tail, toNumber) && |left| + |right| + TailSize(tail) <= 8
  }

  function LooseTailBytes(tail: Option<seq<string>>, toNumber: string -> Option<int>): (bytes: seq<byte>)
    requires LooseTail(tail, toNumber)
    ensures |bytes| == 2 * TailSize(tail)
  {
    match tail
    case None => []
    case Some(t) => [toNumber(t[0]).value, toNumber(t[1]).value, toNumber(t[2]).value, toNumber(t[3]).value]
  }

  /** Zeros where `::` stands, the tail at the very end. */
  function LooseBytes(f: Form, toNumber: string -> Option<int>): (bytes: seq<byte>)
    requires LooselyFormed(f, toNumber)
    ensures |bytes| == 16
  {
    match f
    case Full(groups, tail) => BytesOf(groups) + LooseTailBytes(tail, toNumber)
    case Compressed(left, right, tail) =>
      BytesOf(left) + Zeros(2 * (8 - |left| - |right| - TailSize(tail))) + BytesOf(right)
      + LooseTailBytes(tail, toNumber)
  }

  ghost predicate FirstPairAt(addr: string, i: nat) {
    OccursAt(addr, "::", i) && forall j: nat | j < i :: !OccursAt(addr, "::", j)
  }

  ghost predicate NoPair(addr: string) {
    forall j: nat :: !OccursAt(addr, "::", j)
  }

  /** Around the first `::` empty pieces do not count; if nothing counts behind it, the tail may stand before it. */
  predicate SpellsAround(a: string, b: string, left: seq<string>, right: seq<string>, tail: Option<seq<string>>) {
    var hi, lo := NonEmpty(Split(a, ':')), NonEmpty(Split(b, ':'));
    (hi == left && lo == right + Dotted(tail)) || (right == [] && hi == left + Dotted(tail) && lo == [])
  }

  ghost predicate Spells(addr: string, f: Form) {
    match f
    case Full(groups, tail) =>
      NoPair(addr) && AllWithout(groups + Dotted(tail), ':') && addr == Join(groups + Dotted(tail), ':')
    case Compressed(left, right, tail) =>
      exists i: nat :: FirstPairAt(addr, i) && SpellsAround(addr[..i], addr[i + 2..], left, right, tail)
  }

  // ---- the halves -----------------------------------------------------------------------------------------

  predicate HalvesSpell(h: Halves, f: Form) {
    match f
    case Full(groups, tail) => !h.compressed && h.hi == groups + Dotted(tail) && h.lo == []
    case Compressed(left, right, tail) =>
      && h.compressed
      && ((h.hi == left && h.lo == right + Dotted(tail)) || (right == [] && h.hi == left + Dotted(tail) && h.lo == []))
  }

  lemma UnpairedHalves(addr: string, parts: seq<string>)
    requires |parts| >= 1
    ensures HalvesOf(addr) == Halves(parts, [], false)
       <==> NoPair(addr) && AllWithout(parts, ':') && addr == Join(parts, ':')
  {
    JoinOfSplit(addr, ':');
    if NoPair(addr) {
      FirstIsNone(addr, "::");
      if AllWithout(parts, ':') && addr == Join(parts, ':') {
        SplitOfJoin(parts, ':');
      }
    } else {
      var j: nat :| OccursAt(addr, "::", j);
      if IndexOf(addr, "::") == -1 {
        NoneEarlier(addr, "::", 0, j);
      }
    }
  }

  lemma PairedHalves(addr: string, i: nat)
    requires FirstPairAt(addr, i)
    ensures HalvesOf(addr) == Halves(NonEmpty(Split(addr[..i], ':')), NonEmpty(Split(addr[i + 2..], ':')), true)
  {
    FirstIs(addr, "::", i);
  }

  lemma FirstPair(addr: string)
    ensures if HalvesOf(addr).compressed then IndexOf(addr, "::") >= 0 && FirstPairAt(addr, IndexOf(addr, "::"))
            else NoPair(addr)
  {
    forall j: nat | IndexOf(addr, "::") == -1 || j < IndexOf(addr, "::") ensures !OccursAt(addr, "::", j) {
      NoneEarlier(addr, "::", 0, j);
    }
  }

  lemma SpellsAsHalves(addr: string, f: Form, toNumber: string -> Option<int>)
    requires LooselyFormed(f, toNumber)
    ensures Spells(addr, f) <==> HalvesSpell(HalvesOf(addr), f)
  {
    FirstPair(addr);
    match f
    case Full(groups, tail) => UnpairedHalves(addr, groups + Dotted(tail));
    case Compressed(left, right, tail) =>
      if i: nat :| FirstPairAt(addr, i) {
        PairedHalves(addr, i);
        if HalvesSpell(HalvesOf(addr), f) {
          assert SpellsAround(addr[..i], addr[i + 2..], left, right, tail);
        }
      }
      if Spells(addr, f) {
        var i: nat :| FirstPairAt(addr, i) && SpellsAround(addr[..i], addr[i + 2..], left, right, tail);
        PairedHalves(addr, i);
      }
  }

  // ---- from the halves on ---------------------------------------------------------------------------------

  lemma LooseDotted(t: seq<string>, toNumber: string -> Option<int>)
    requires LooseTail(Some(t), toNumber)
    ensures '.' in Join(t, '.') && DottedTail(Join(t, '.'), toNumber) == Some(LooseTailBytes(Some(t), toNumber))
  {
    assert forall i | 0 <= i < 4 :: Without(t[i], '.');
    SplitOfJoin(t, '.');
    assert Join(t, '.')[|t[0]|] == '.';
  }

  lemma LastHasNoDot(h: Halves)
    requires AllGroups(h.hi) && AllGroups(h.lo)
    ensures '.' !in LastGroup(h)
  {
    if LastGroup(h) != "" {
      GroupIsPiece(LastGroup(h));
    }
  }

  /** The groups of a form, tail apart. */
  lemma LooseAssembles(f: Form, toNumber: string -> Option<int>)
    requires LooselyFormed(f, toNumber)
    ensures Assemble(GroupsOnly(f), LooseTailBytes(f.tail, toNumber)) == Some(LooseBytes(f, toNumber))
  {
    match f
    case Full(groups, tail) => FullAssembles(groups, LooseTailBytes(tail, toNumber));
    case Compressed(left, right, tail) =>
  }

  lemma SpeltIsParsed(h: Halves, f: Form, toNumber: string -> Option<int>)
    requires LooselyFormed(f, toNumber) && HalvesSpell(h, f)
    ensures (!h.compressed ==> h.lo == []) && ParseHalves(h, toNumber) == Some(LooseBytes(f, toNumber))
  {
    LooseAssembles(f, toNumber);
    match f.tail
    case None =>
      assert h == GroupsOnly(f);
      LastHasNoDot(h);
    case Some(t) =>
      LooseDotted(t, toNumber);
      assert LastGroup(h) == Join(t, '.');
      assert WithoutLast(h) == GroupsOnly(f);
  }

  function FormOf(h: Halves): Form {
    if '.' in LastGroup(h) then
      var w, t := WithoutLast(h), Some(Split(LastGroup(h), '.'));
      if h.compressed then Compressed(w.hi, w.lo, t) else Full(w.hi, t)
    else if h.compressed then Compressed(h.hi, h.lo, None) else Full(h.hi, None)
  }

  lemma TailIsLoose(last: string, toNumber: string -> Option<int>)
    requires DottedTail(last, toNumber).Some?
    ensures LooseTail(Some(Split(last, '.')), toNumber)
  {
    var p := Split(last, '.');
    JoinOfSplit(last, '.');
    forall i | 0 <= i < 4 ensures '.' !in p[i] && IsOctetNumber(toNumber(p[i])) {
      assert Without(p[i], '.');
    }
  }

  lemma LastGoesBack(h: Halves)
    requires '.' in LastGroup(h) && (!h.compressed ==> h.lo == [])
    ensures HalvesSpell(h, FormOf(h))
  {
    JoinOfSplit(LastGroup(h), '.');
    assert Dotted(Some(Split(LastGroup(h), '.'))) == [LastGroup(h)];
    if h.lo != [] {
      assert h.lo == h.lo[..|h.lo| - 1] + [h.lo[|h.lo| - 1]];
    } else {
      assert h.hi == h.hi[..|h.hi| - 1] + [h.hi[|h.hi| - 1]];
    }
  }

  lemma ParsedIsSpelt(h: Halves, toNumber: string -> Option<int>)
    requires (!h.compressed ==> h.lo == []) && ParseHalves(h, toNumber).Some?
    ensures LooselyFormed(FormOf(h), toNumber) && HalvesSpell(h, FormOf(h))
  {
    if '.' in LastGroup(h) {
      TailIsLoose(LastGroup(h), toNumber);
      LastGoesBack(h);
    } else {
      assert h.hi + Dotted(None) == h.hi && h.lo + Dotted(None) == h.lo;
    }
  }

  /** The parser accepts a text exactly when what stands before its zone spells a loosely formed address: eight groups
      with or without a tail, or at most eight around the first `::`, where further colons do not count; and returns
      that address. */
  lemma AcceptsExactlyWhen(s: string, toNumber: string -> Option<int>, bytes: seq<byte>)
    ensures Parse(s, toNumber) == Some(bytes) <==>
            exists f :: LooselyFormed(f, toNumber) && Spells(CutZone(s), f) && LooseBytes(f, toNumber) == bytes
  {
    var h := HalvesOf(CutZone(s));
    if Parse(s, toNumber).Some? {
      ParsedIsSpelt(h, toNumber);
      SpeltIsParsed(h, FormOf(h), toNumber);
      SpellsAsHalves(CutZone(s), FormOf(h), toNumber);
    }
    forall f | LooselyFormed(f, toNumber) && Spells(CutZone(s), f)
      ensures Parse(s, toNumber) == Some(LooseBytes(f, toNumber))
    {
      SpellsAsHalves(CutZone(s), f, toNumber);
      SpeltIsParsed(h, f, toNumber);
    }
  }

  /** The zone begins at the first percent sign. */
  lemma ZoneBeginsAtPercent(s: string)
    ensures CutZone(s) <= s && '%' !in CutZone(s) && (CutZone(s) == s || s[|CutZone(s)|] == '%')
  {
    var i := IndexOf(s, "%");
    forall j: nat | j < |CutZone(s)| ensures s[j] != '%' {
      NoneEarlier(s, "%", 0, j);
      assert s[j..j + 1] == [s[j]];
    }
    if i >= 0 {
      assert s[i..i + 1] == "%";
    }
  }

  lemma QuadInEitherHalf(t: seq<string>, toNumber: string -> Option<int>)
    requires LooseTail(Some(t), toNumber)
    ensures var quad, f := Join(t, '.'), Compressed([], [], Some(t));
            ParseHalves(Halves([quad], [], true), toNumber) == ParseHalves(Halves([], [quad], true), toNumber)
            == Some(LooseBytes(f, toNumber))
  {
    var quad, f := Join(t, '.'), Compressed([], [], Some(t));
    assert [] + Dotted(Some(t)) == [quad];
    SpeltIsParsed(Halves([quad], [], true), f, toNumber);
    SpeltIsParsed(Halves([], [quad], true), f, toNumber);
  }

  lemma QuadIsLoose(t: seq<string>, toNumber: string -> Option<int>)
    requires IsTail(Some(t)) && ReadsNumerals(toNumber)
    ensures LooseTail(Some(t), toNumber)
  {
    forall i | 0 <= i < 4 ensures '.' !in t[i] && IsOctetNumber(toNumber(t[i])) {
      OctetIsPlain(t[i]);
    }
  }

  /** A dotted quad before `::` reads as the same quad behind it. */
  lemma QuadBeforeThePairMovesBehind(t: seq<string>, toNumber: string -> Option<int>)
    requires IsTail(Some(t)) && ReadsNumerals(toNumber)
    ensures Parse(Join(t, '.') + "::", toNumber).Some?
    ensures Parse(Join(t, '.') + "::", toNumber) == Parse("::" + Join(t, '.'), toNumber)
  {
    var quad := Join(t, '.');
    DottedIsPiece(t);
    ParsesBefore(quad, toNumber);
    ParsesBehind(quad, toNumber);
    QuadIsLoose(t, toNumber);
    QuadInEitherHalf(t, toNumber);
  }

  lemma ParsesBefore(piece: string, toNumber: string -> Option<int>)
    requires IsPiece(piece)
    ensures Parse(piece + "::", toNumber) == ParseHalves(Halves([piece], [], true), toNumber)
  {
    HalvesAroundPair([piece], []);
    NoZoneToCut(piece + "::");
  }

  lemma ParsesBehind(piece: string, toNumber: string -> Option<int>)
    requires IsPiece(piece)
    ensures Parse("::" + piece, toNumber) == ParseHalves(Halves([], [piece], true), toNumber)
  {
    HalvesAroundPair([], [piece]);
    NoZoneToCut("::" + piece);
  }

  lemma HalvesAroundPair(left: seq<string>, right: seq<string>)
    requires AllPieces(left) && AllPieces(right) && |left| <= 1 && |right| <= 1
    ensures var a, b := if left == [] then "" else left[0], if right == [] then "" else right[0];
            HalvesOf(a + "::" + b) == Halves(left, right, true)
            && a + "::" + "" == a + "::" && "" + "::" + b == "::" + b
  {
    CompressedHalves(left, right);
  }
}
