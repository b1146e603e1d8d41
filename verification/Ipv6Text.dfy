/** Reading IPv6 text: the parser, the text forms of section 2.2 of RFC 4291, and what they denote. */
module Ipv6Text {
  import opened Options
  import opened Bytes
  import opened Bits
  import opened Text
  import Cidr
  import Ipv4Text

  // ---- groups ---------------------------------------------------------------------------------------

  predicate IsGroup(t: string) {
    1 <= |t| <= 4 && forall i | 0 <= i < |t| :: IsHex(t[i])
  }

  lemma GroupFits(t: string)
    requires IsGroup(t)
    ensures HexValue(t) < 0x1_0000
  {
    HexFits(t);
  }

  lemma {:induction false} HexFits(t: string)
    requires |t| <= 4 && forall i | 0 <= i < |t| :: IsHex(t[i])
    ensures HexValue(t) < Pow2(4 * |t|) && HexValue(t) < 0x1_0000
  {
    if t == "" {
    } else {
      HexFits(t[..|t| - 1]);
      PowersOfTwo();
      Pow2Grows(4 * |t|, 16);
    }
  }

  /** The two bytes of a group, high byte first. */
  function GroupBytes(t: string): (bytes: seq<byte>)
    requires IsGroup(t)
    ensures |bytes| == 2
  {
    GroupFits(t);
    [HexValue(t) / 256, HexValue(t) % 256]
  }

  predicate AllGroups(groups: seq<string>) {
    forall i | 0 <= i < |groups| :: IsGroup(groups[i])
  }

  function BytesOf(groups: seq<string>): (bytes: seq<byte>)
    requires AllGroups(groups)
    ensures |bytes| == 2 * |groups|
  {
    if groups == [] then [] else BytesOf(groups[..|groups| - 1]) + GroupBytes(groups[|groups| - 1])
  }

  function Zeros(n: nat): (bytes: seq<byte>)
    ensures |bytes| == n
  {
    seq(n, _ => 0)
  }

  // ---- the parser as a function -----------------------------------------------------------------------

  /** The groups before and after the first `::`, and whether there was one. */
  datatype Halves = Halves(hi: seq<string>, lo: seq<string>, compressed: bool)

  function CutZone(s: string): string {
    if IndexOf(s, "%") == -1 then s else s[..IndexOf(s, "%")]
  }

  function NonEmpty(parts: seq<string>): seq<string> {
    if parts == [] then [] else (if parts[0] == "" then [] else [parts[0]]) + NonEmpty(parts[1..])
  }

  function HalvesOf(addr: string): Halves {
    var i := IndexOf(addr, "::");
    if i == -1 then Halves(Split(addr, ':'), [], false)
    else Halves(NonEmpty(Split(addr[..i], ':')), NonEmpty(Split(addr[i + 2..], ':')), true)
  }

  function LastGroup(h: Halves): string {
    if h.lo != [] then h.lo[|h.lo| - 1] else if h.hi != [] then h.hi[|h.hi| - 1] else ""
  }

  function WithoutLast(h: Halves): Halves {
    if h.lo != [] then h.(lo := h.lo[..|h.lo| - 1])
    else if h.hi != [] then h.(hi := h.hi[..|h.hi| - 1])
    else h
  }

  predicate IsOctetNumber(n: Option<int>) {
    n.Some? && 0 <= n.value <= 255
  }

  /** `toNumber` stands for the conversion of text to a number; `None` for anything but an integer. */
  function DottedTail(text: string, toNumber: string -> Option<int>): (tail: Option<seq<byte>>)
    ensures tail.Some? ==> |tail.value| == 4
  {
    var p := Split(text, '.');
    if |p| == 4 && IsOctetNumber(toNumber(p[0])) && IsOctetNumber(toNumber(p[1])) && IsOctetNumber(toNumber(p[2]))
        && IsOctetNumber(toNumber(p[3]))
    then Some([toNumber(p[0]).value, toNumber(p[1]).value, toNumber(p[2]).value, toNumber(p[3]).value])
    else None
  }

  function Assemble(h: Halves, tail: seq<byte>): (r: Option<seq<byte>>)
    requires |tail| == 0 || |tail| == 4
    requires !h.compressed ==> h.lo == []
    ensures r.Some? ==> |r.value| == 16
  {
    var filler := 8 - |h.hi| - |h.lo| - |tail| / 2;
    if filler < 0 || (!h.compressed && filler != 0) then None
    else if !AllGroups(h.hi) || !AllGroups(h.lo) then None
    else Some(BytesOf(h.hi) + Zeros(2 * filler) + BytesOf(h.lo) + tail)
  }

  function ParseHalves(h: Halves, toNumber: string -> Option<int>): (r: Option<seq<byte>>)
    requires !h.compressed ==> h.lo == []
    ensures r.Some? ==> |r.value| == 16
  {
    if '.' in LastGroup(h) then
      var tail := DottedTail(LastGroup(h), toNumber);
      if tail.None? then None else Assemble(WithoutLast(h), tail.value)
    else Assemble(h, [])
  }

  function Parse(s: string, toNumber: string -> Option<int>): (r: Option<seq<byte>>)
    ensures r.Some? ==> |r.value| == 16
  {
    ParseHalves(HalvesOf(CutZone(s)), toNumber)
  }

  // ---- the parser as it runs --------------------------------------------------------------------------

  /** One group into the two bytes at `byteIdx`, or nothing if the text is no group. */
  method WriteGroup(bytes: array<byte>, byteIdx: nat, hexStr: string) returns (ok: bool, next: nat)
    requires byteIdx + 2 <= bytes.Length
    modifies bytes
    ensures ok <==> IsGroup(hexStr)
    ensures ok ==> next == byteIdx + 2 && bytes[..next] == old(bytes[..byteIdx]) + GroupBytes(hexStr)
    ensures !ok ==> next == byteIdx && bytes[..] == old(bytes[..])
  {
    if !IsGroup(hexStr) {
      return false, byteIdx;
    }
    GroupFits(hexStr);
    var val := HexValue(hexStr);
    PowersOfTwo();
    HighByte(val, 8);
    MaskedByte(val, 8);
    next := byteIdx;
    bytes[next] := JsAnd(JsShr(val, 8), 0xff);
    next := next + 1;
    bytes[next] := JsAnd(val, 0xff);
    next := next + 1;
    return true, next;
  }

  lemma HighByte(val: nat, k: nat)
    requires val < 0x1_0000 && k < 32 && Pow2(k) == 256
    ensures JsAnd(JsShr(val, k), 0xff) == val / 256
  {
    var high: byte := val / 256;
    SmallShr(val, k);
    ShrIsQuotient(val, k);
    ByteKept(high, k);
  }

  lemma ByteKept(x: byte, k: nat)
    requires Pow2(k) == 256
    ensures JsAnd(x, 0xff) == x
  {
    MaskedByte(x, k);
  }

  lemma SmallShr(x: nat, k: nat)
    requires x < 0x8000_0000 && k < 32
    ensures JsShr(x, k) == Shr(x, k)
  {
    Cidr.PositiveKept(x);
    assert k % 32 == k;
    assert JsShr(x, k) == SignedShr(x, k);
  }

  lemma MaskedByte(x: nat, w: nat)
    requires x < 0x1_0000 && Pow2(w) == 256
    ensures JsAnd(x, 0xff) == x % 256
  {
    ByteOf(x, w);
    Cidr.AndOfWords(x, 0xff);
    Cidr.PositiveKept(x % 256);
  }

  lemma ByteOf(x: nat, w: nat)
    requires Pow2(w) == 256
    ensures BitAnd(x, 0xff) == x % 256
  {
    LowMask(x, w);
    LowIsRemainder(x, w);
  }

  method ReadDottedTail(lastGroup: string, toNumber: string -> Option<int>) returns (tail: Option<seq<byte>>)
    ensures tail == DottedTail(lastGroup, toNumber)
  {
    var ipv4Bytes := new byte[4];
    var ipv4Parts := Split(lastGroup, '.');
    if |ipv4Parts| != 4 {
      return None;
    }
    for i := 0 to 4
      invariant forall j | 0 <= j < i ::
                  IsOctetNumber(toNumber(ipv4Parts[j])) && ipv4Bytes[j] == toNumber(ipv4Parts[j]).value
    {
      var n := toNumber(ipv4Parts[i]);
      if !(n.Some? && 0 <= n.value <= 255) {
        return None;
      }
      ipv4Bytes[i] := n.value;
    }
    forall i | 0 <= i < 4 ensures IsOctetNumber(toNumber(ipv4Parts[i])) {
    }
    assert ipv4Bytes[..] == [ipv4Bytes[0], ipv4Bytes[1], ipv4Bytes[2], ipv4Bytes[3]];
    return Some(ipv4Bytes[..]);
  }

  /** On every input the writes stay inside the 16 bytes, and fill them all on success. */
  method ParseIpv6(s: string, toNumber: string -> Option<int>) returns (r: Option<seq<byte>>)
    ensures r == Parse(s, toNumber)
    ensures r.Some? ==> |r.value| == 16
  {
    var zoneIdx := IndexOf(s, "%");
    var addr := if zoneIdx != -1 then s[..zoneIdx] else s;

    var doubleColonIdx := IndexOf(addr, "::");
    var hi, lo;
    if doubleColonIdx == -1 {
      hi := Split(addr, ':');
      lo := [];
    } else {
      hi := NonEmpty(Split(addr[..doubleColonIdx], ':'));
      lo := NonEmpty(Split(addr[doubleColonIdx + 2..], ':'));
    }
    r := ReadHalves(hi, lo, doubleColonIdx, toNumber);
  }

  /** The parser from the two lists of groups on. */
  method ReadHalves(left: seq<string>, right: seq<string>, doubleColonIdx: int, toNumber: string -> Option<int>)
    returns (r: Option<seq<byte>>)
    requires doubleColonIdx == -1 ==> right == []
    ensures r == ParseHalves(Halves(left, right, doubleColonIdx != -1), toNumber)
  {
    var hi, lo := left, right;
    ghost var h := Halves(hi, lo, doubleColonIdx != -1);

    var allGroups := hi + lo;
    LastOfAll(h);
    var ipv4Bytes: seq<byte> := [];
    if |allGroups| > 0 && '.' in allGroups[|allGroups| - 1] {
      var lastGroup := allGroups[|allGroups| - 1];
      if |lo| > 0 && '.' in lo[|lo| - 1] {
        lo := lo[..|lo| - 1];
      } else if |hi| > 0 && '.' in hi[|hi| - 1] {
        hi := hi[..|hi| - 1];
      }
      var tail := ReadDottedTail(lastGroup, toNumber);
      if tail.None? {
        return None;
      }
      ipv4Bytes := tail.value;
      assert WithoutLast(h) == Halves(hi, lo, doubleColonIdx != -1);
    }

    r := PlaceGroups(hi, lo, doubleColonIdx, ipv4Bytes);
  }

  /** The parser from the group counts on. */
  method PlaceGroups(hi: seq<string>, lo: seq<string>, doubleColonIdx: int, ipv4Bytes: seq<byte>)
    returns (r: Option<seq<byte>>)
    requires doubleColonIdx == -1 ==> lo == []
    requires |ipv4Bytes| == 0 || |ipv4Bytes| == 4
    ensures r == Assemble(Halves(hi, lo, doubleColonIdx != -1), ipv4Bytes)
  {
    var ipv4GroupCount := if ipv4Bytes != [] then 2 else 0;
    var fillerCount := if doubleColonIdx != -1 then 8 - |hi| - |lo| - ipv4GroupCount else 0;
    if fillerCount < 0 || (doubleColonIdx == -1 && |hi| + ipv4GroupCount != 8) {
      return None;
    }

    r := WriteAll(hi, fillerCount, lo, ipv4Bytes);
  }

  lemma LastOfAll(h: Halves)
    ensures LastGroup(h) == if |h.hi + h.lo| > 0 then (h.hi + h.lo)[|h.hi + h.lo| - 1] else ""
  {
  }

  /** The groups one after another, from `byteIdx` on. */
  method WriteGroups(bytes: array<byte>, byteIdx: nat, groups: seq<string>) returns (ok: bool, next: nat)
    requires byteIdx + 2 * |groups| <= bytes.Length
    modifies bytes
    ensures ok <==> AllGroups(groups)
    ensures ok ==> next == byteIdx + 2 * |groups| && bytes[..next] == old(bytes[..byteIdx]) + BytesOf(groups)
  {
    next := byteIdx;
    for i := 0 to |groups|
      invariant AllGroups(groups[..i]) && next == byteIdx + 2 * i
      invariant bytes[..next] == old(bytes[..byteIdx]) + BytesOf(groups[..i])
    {
      OneMoreGroup(groups, i);
      ok, next := WriteGroup(bytes, next, groups[i]);
      if !ok {
        return;
      }
    }
    assert groups[..|groups|] == groups;
    ok := true;
  }

  method WriteZeros(bytes: array<byte>, byteIdx: nat, fillerCount: nat) returns (next: nat)
    requires byteIdx + 2 * fillerCount <= bytes.Length
    modifies bytes
    ensures next == byteIdx + 2 * fillerCount
    ensures bytes[..next] == old(bytes[..byteIdx]) + Zeros(2 * fillerCount)
  {
    next := byteIdx;
    for i := 0 to fillerCount
      invariant next == byteIdx + 2 * i
      invariant bytes[..next] == old(bytes[..byteIdx]) + Zeros(2 * i)
    {
      bytes[next] := 0;
      next := next + 1;
      bytes[next] := 0;
      next := next + 1;
    }
  }

  method WriteTail(bytes: array<byte>, byteIdx: nat, ipv4Bytes: seq<byte>) returns (next: nat)
    requires |ipv4Bytes| == 0 || |ipv4Bytes| == 4
    requires byteIdx + |ipv4Bytes| <= bytes.Length
    modifies bytes
    ensures next == byteIdx + |ipv4Bytes| && bytes[..next] == old(bytes[..byteIdx]) + ipv4Bytes
  {
    next := byteIdx;
    if ipv4Bytes != [] {
      bytes[next] := ipv4Bytes[0];
      next := next + 1;
      bytes[next] := ipv4Bytes[1];
      next := next + 1;
      bytes[next] := ipv4Bytes[2];
      next := next + 1;
      bytes[next] := ipv4Bytes[3];
      next := next + 1;
    }
  }

  /** The writing half of the parser, its byte index moving through the 16 bytes. */
  method WriteAll(hi: seq<string>, fillerCount: nat, lo: seq<string>,
      ipv4Bytes: seq<byte>) returns (r: Option<seq<byte>>)
    requires |ipv4Bytes| == 0 || |ipv4Bytes| == 4
    requires 2 * (|hi| + fillerCount + |lo|) + |ipv4Bytes| == 16
    ensures r.Some? <==> AllGroups(hi) && AllGroups(lo)
    ensures r.Some? ==> r.value == BytesOf(hi) + Zeros(2 * fillerCount) + BytesOf(lo) + ipv4Bytes
  {
    var bytes := new byte[16](_ => 0);
    var byteIdx := 0;
    var ok;
    ok, byteIdx := WriteGroups(bytes, byteIdx, hi);
    if !ok {
      return None;
    }
    byteIdx := WriteZeros(bytes, byteIdx, fillerCount);
    ok, byteIdx := WriteGroups(bytes, byteIdx, lo);
    if !ok {
      return None;
    }
    byteIdx := WriteTail(bytes, byteIdx, ipv4Bytes);
    assert bytes[..16] == bytes[..];
    return Some(bytes[..]);
  }

  lemma OneMoreGroup(groups: seq<string>, i: nat)
    requires i < |groups| && AllGroups(groups[..i])
    ensures AllGroups(groups[..i + 1]) <==> IsGroup(groups[i])
    ensures IsGroup(groups[i]) ==> BytesOf(groups[..i + 1]) == BytesOf(groups[..i]) + GroupBytes(groups[i])
  {
    assert groups[..i + 1] == groups[..i] + [groups[i]];
  }

  // ---- the text forms of section 2.2 of RFC 4291 --------------------------------------------------------

  /** Eight groups, or groups around one `::`; the last two groups may be written as a dotted quad. */
  datatype Form =
    | Full(groups: seq<string>, tail: Option<seq<string>>)
    | Compressed(left: seq<string>, right: seq<string>, tail: Option<seq<string>>)

  predicate IsOctetText(t: string) {
    t != "" && AllDigits(t) && DecimalValue(t) <= 255
  }

  predicate IsTail(tail: Option<seq<string>>) {
    tail.Some? ==> |tail.value| == 4 && forall i | 0 <= i < 4 :: IsOctetText(tail.value[i])
  }

  /** How many groups a dotted tail stands for. */
  function TailSize(tail: Option<seq<string>>): nat {
    if tail.Some? then 2 else 0
  }

  /** `::` stands for one or more groups of zeros. */
  predicate WellFormed(f: Form) {
    match f
    case Full(groups, tail) =>
      AllGroups(groups) && IsTail(tail) && |groups| + TailSize(tail) == 8
    case Compressed(left, right, tail) =>
      AllGroups(left) && AllGroups(right) && IsTail(tail) && |left| + |right| + TailSize(tail) < 8
  }

  function Dotted(tail: Option<seq<string>>): seq<string> {
    if tail.Some? then [Join(tail.value, '.')] else []
  }

  function Render(f: Form): string {
    match f
    case Full(groups, tail) => Join(groups + Dotted(tail), ':')
    case Compressed(left, right, tail) => Join(left, ':') + "::" + Join(right + Dotted(tail), ':')
  }

  function TailBytes(tail: Option<seq<string>>): (bytes: seq<byte>)
    requires IsTail(tail)
    ensures |bytes| == 2 * TailSize(tail)
  {
    match tail
    case None => []
    case Some(t) => [DecimalValue(t[0]), DecimalValue(t[1]), DecimalValue(t[2]), DecimalValue(t[3])]
  }

  function Denote(f: Form): (bytes: seq<byte>)
    requires WellFormed(f)
    ensures |bytes| == 16
  {
    match f
    case Full(groups, tail) => BytesOf(groups) + TailBytes(tail)
    case Compressed(left, right, tail) =>
      BytesOf(left) + Zeros(2 * (8 - |left| - |right| - TailSize(tail))) + BytesOf(right) + TailBytes(tail)
  }

  /** What the parser relies on: conversion reads plain decimal digits as the octet they spell. */
  ghost predicate ReadsNumerals(toNumber: string -> Option<int>) {
    forall t: string | IsOctetText(t) :: toNumber(t) == Some(DecimalValue(t))
  }

  /** The parser returns what a well-formed text denotes, with or without a zone. */
  lemma ParseOfRender(f: Form, zone: Option<string>, toNumber: string -> Option<int>)
    requires WellFormed(f) && ReadsNumerals(toNumber)
    ensures Parse(Render(f) + (if zone.Some? then "%" + zone.value else ""), toNumber) == Some(Denote(f))
  {
    ZoneIgnored(f, zone);
    BodyParses(f, toNumber);
  }

  lemma ZoneIgnored(f: Form, zone: Option<string>)
    requires WellFormed(f)
    ensures CutZone(Render(f) + (if zone.Some? then "%" + zone.value else "")) == Render(f)
  {
    BodyHasNoZone(f);
    if zone.Some? {
      ZoneIsCut(Render(f), zone.value);
    } else {
      assert Render(f) + "" == Render(f);
      NoZoneToCut(Render(f));
    }
  }

  lemma BodyParses(f: Form, toNumber: string -> Option<int>)
    requires WellFormed(f) && ReadsNumerals(toNumber)
    ensures ParseHalves(HalvesOf(Render(f)), toNumber) == Some(Denote(f))
  {
    HalvesOfRender(f);
    TailOfLast(GroupsOnly(f), f.tail, toNumber);
    AssemblesToDenoted(f);
  }

  /** The hexadecimal groups of a form, dotted tail apart. */
  function GroupsOnly(f: Form): Halves {
    match f
    case Full(groups, _) => Halves(groups, [], false)
    case Compressed(left, right, _) => Halves(left, right, true)
  }

  lemma AssemblesToDenoted(f: Form)
    requires WellFormed(f)
    ensures Assemble(GroupsOnly(f), TailBytes(f.tail)) == Some(Denote(f))
  {
    match f
    case Full(groups, tail) => FullAssembles(groups, TailBytes(tail));
    case Compressed(left, right, tail) =>
  }

  lemma FullAssembles(groups: seq<string>, tail: seq<byte>)
    requires AllGroups(groups) && (|tail| == 0 || |tail| == 4) && 2 * |groups| + |tail| == 16
    ensures Assemble(Halves(groups, [], false), tail) == Some(BytesOf(groups) + tail)
  {
    assert BytesOf(groups) + Zeros(0) + BytesOf([]) == BytesOf(groups);
  }

  // ---- pieces between colons --------------------------------------------------------------------------

  ghost predicate IsPiece(t: string) {
    t != "" && Without(t, ':') && Without(t, '%')
  }

  ghost predicate AllPieces(parts: seq<string>) {
    forall i | 0 <= i < |parts| :: IsPiece(parts[i])
  }

  lemma GroupIsPiece(t: string)
    requires IsGroup(t)
    ensures IsPiece(t) && Without(t, '.')
  {
    forall i | 0 <= i < |t| ensures t[i] != ':' && t[i] != '%' && t[i] != '.' {
      assert IsHex(t[i]);
    }
  }

  lemma OctetIsPlain(t: string)
    requires IsOctetText(t)
    ensures IsPiece(t) && Without(t, '.')
  {
    forall i | 0 <= i < |t| ensures t[i] != ':' && t[i] != '%' && t[i] != '.' {
      assert IsDigit(t[i]);
    }
  }

  lemma DottedIsPiece(tail: seq<string>)
    requires IsTail(Some(tail))
    ensures IsPiece(Join(tail, '.')) && '.' in Join(tail, '.')
  {
    forall i | 0 <= i < 4 ensures Without(tail[i], ':') && Without(tail[i], '%') {
      OctetIsPlain(tail[i]);
    }
    JoinWithout(tail, '.', ':');
    JoinWithout(tail, '.', '%');
    assert Join(tail, '.') == tail[0] + ['.'] + Join(tail[1..], '.');
    assert Join(tail, '.')[|tail[0]|] == '.';
  }

  lemma GroupsArePieces(groups: seq<string>, tail: Option<seq<string>>)
    requires AllGroups(groups) && IsTail(tail)
    ensures AllPieces(groups + Dotted(tail))
  {
    forall i | 0 <= i < |groups + Dotted(tail)| ensures IsPiece((groups + Dotted(tail))[i]) {
      if i < |groups| {
        GroupIsPiece(groups[i]);
      } else {
        DottedIsPiece(tail.value);
      }
    }
  }

  lemma PiecesAreWithout(parts: seq<string>)
    requires AllPieces(parts)
    ensures AllWithout(parts, ':') && AllWithout(parts, '%')
  {
    forall i | 0 <= i < |parts| ensures Without(parts[i], ':') && Without(parts[i], '%') {
      assert IsPiece(parts[i]);
    }
  }

  // ---- the zone ---------------------------------------------------------------------------------------

  lemma BodyHasNoZone(f: Form)
    requires WellFormed(f)
    ensures Without(Render(f), '%')
  {
    match f
    case Full(groups, tail) =>
      GroupsArePieces(groups, tail);
      PiecesAreWithout(groups + Dotted(tail));
      JoinWithout(groups + Dotted(tail), ':', '%');
    case Compressed(left, right, tail) =>
      GroupsArePieces(left, None);
      assert left + Dotted(None) == left;
      GroupsArePieces(right, tail);
      PiecesAreWithout(left);
      PiecesAreWithout(right + Dotted(tail));
      JoinWithout(left, ':', '%');
      JoinWithout(right + Dotted(tail), ':', '%');
  }

  lemma ZoneIsCut(body: string, zone: string)
    requires Without(body, '%')
    ensures CutZone(body + ("%" + zone)) == body
  {
    var s := body + ("%" + zone);
    assert s[|body|..|body| + 1] == "%";
    forall j: nat | j < |body| ensures !OccursAt(s, "%", j) {
      assert s[j..j + 1][0] == body[j];
    }
    FirstIs(s, "%", |body|);
  }

  lemma NoZoneToCut(body: string)
    requires Without(body, '%')
    ensures CutZone(body) == body
  {
    forall j: nat ensures !OccursAt(body, "%", j) {
      if j + 1 <= |body| {
        assert body[j..j + 1][0] == body[j];
      }
    }
    FirstIsNone(body, "%");
  }

  // ---- the double colon -------------------------------------------------------------------------------

  predicate ColonPair(s: string, j: nat) {
    j + 1 < |s| && s[j] == ':' && s[j + 1] == ':'
  }

  lemma PairOccurs(s: string, j: nat)
    ensures OccursAt(s, "::", j) <==> ColonPair(s, j)
  {
    if j + 2 <= |s| {
      assert s[j..j + 2] == [s[j], s[j + 1]];
    }
  }

  lemma {:induction false} NoPairInJoin(parts: seq<string>)
    requires AllPieces(parts) && parts != []
    ensures var s := Join(parts, ':');
            s != "" && s[0] != ':' && s[|s| - 1] != ':' && forall j: nat :: !ColonPair(s, j)
  {
    PieceEnds(parts[0]);
    if |parts| > 1 {
      assert AllPieces(parts[1..]);
      NoPairInJoin(parts[1..]);
      PairlessTogether(parts[0], Join(parts[1..], ':'));
    }
  }

  lemma PieceEnds(t: string)
    requires IsPiece(t)
    ensures t[0] != ':' && t[|t| - 1] != ':' && forall j: nat :: !ColonPair(t, j)
  {
  }

  lemma PairlessTogether(a: string, b: string)
    requires IsPiece(a) && b != "" && b[0] != ':' && forall j: nat :: !ColonPair(b, j)
    ensures forall j: nat :: !ColonPair(a + [':'] + b, j)
  {
    var s := a + [':'] + b;
    forall j: nat ensures !ColonPair(s, j) {
      if j < |a| {
        assert s[j] == a[j];
      } else if |a| < j && j + 1 < |s| {
        assert s[j] == b[j - |a| - 1] && s[j + 1] == b[j - |a|];
        assert !ColonPair(b, j - |a| - 1);
      }
    }
  }

  lemma {:induction false} NonEmptyKeeps(parts: seq<string>)
    requires AllPieces(parts)
    ensures NonEmpty(parts) == parts
  {
    if parts != [] {
      assert AllPieces(parts[1..]);
      NonEmptyKeeps(parts[1..]);
      assert IsPiece(parts[0]);
    }
  }

  lemma GroupsOfJoin(parts: seq<string>)
    requires AllPieces(parts)
    ensures NonEmpty(Split(Join(parts, ':'), ':')) == parts
  {
    if parts == [] {
      assert Split("", ':') == [""];
    } else {
      PiecesAreWithout(parts);
      SplitOfJoin(parts, ':');
      NonEmptyKeeps(parts);
    }
  }

  lemma FullHalves(parts: seq<string>)
    requires AllPieces(parts) && parts != []
    ensures HalvesOf(Join(parts, ':')) == Halves(parts, [], false)
  {
    var s := Join(parts, ':');
    NoPairInJoin(parts);
    forall j: nat ensures !OccursAt(s, "::", j) {
      PairOccurs(s, j);
    }
    FirstIsNone(s, "::");
    PiecesAreWithout(parts);
    SplitOfJoin(parts, ':');
  }

  lemma CompressedHalves(left: seq<string>, right: seq<string>)
    requires AllPieces(left) && AllPieces(right)
    ensures HalvesOf(Join(left, ':') + "::" + Join(right, ':')) == Halves(left, right, true)
  {
    var a, b := Join(left, ':'), Join(right, ':');
    var s := a + "::" + b;
    forall j: nat | j < |a| ensures !OccursAt(s, "::", j) {
      PairOccurs(s, j);
      NoPairInJoin(left);
      assert s[j] == a[j];
      assert !ColonPair(a, j);
    }
    PairOccurs(s, |a|);
    FirstIs(s, "::", |a|);
    assert s[..|a|] == a && s[|a| + 2..] == b;
    GroupsOfJoin(left);
    GroupsOfJoin(right);
  }

  lemma HalvesOfRender(f: Form)
    requires WellFormed(f)
    ensures HalvesOf(Render(f)) == WithTail(GroupsOnly(f), f.tail)
  {
    match f
    case Full(groups, tail) =>
      GroupsArePieces(groups, tail);
      FullHalves(groups + Dotted(tail));
    case Compressed(left, right, tail) =>
      GroupsArePieces(left, None);
      assert left + Dotted(None) == left;
      GroupsArePieces(right, tail);
      CompressedHalves(left, right + Dotted(tail));
  }

  // ---- the dotted tail ----------------------------------------------------------------------------------

  /** The same halves with the dotted tail as one more group at the end. */
  function WithTail(h: Halves, tail: Option<seq<string>>): Halves {
    if h.compressed then h.(lo := h.lo + Dotted(tail)) else h.(hi := h.hi + Dotted(tail))
  }

  lemma TailOfLast(h: Halves, tail: Option<seq<string>>, toNumber: string -> Option<int>)
    requires AllGroups(h.hi) && AllGroups(h.lo) && IsTail(tail) && ReadsNumerals(toNumber)
    requires !h.compressed ==> h.lo == []
    ensures ParseHalves(WithTail(h, tail), toNumber) == Assemble(h, TailBytes(tail))
  {
    var full := WithTail(h, tail);
    match tail
    case None =>
      assert full == h;
      if LastGroup(h) != "" {
        GroupIsPiece(LastGroup(h));
      }
    case Some(t) =>
      DottedIsPiece(t);
      assert LastGroup(full) == Join(t, '.');
      assert WithoutLast(full) == h;
      OctetsRead(t, toNumber);
  }

  lemma OctetsRead(t: seq<string>, toNumber: string -> Option<int>)
    requires IsTail(Some(t)) && ReadsNumerals(toNumber)
    ensures DottedTail(Join(t, '.'), toNumber) == Some(TailBytes(Some(t)))
  {
    forall i | 0 <= i < 4 ensures Without(t[i], '.') && toNumber(t[i]) == Some(DecimalValue(t[i])) {
      OctetIsPlain(t[i]);
    }
    SplitOfJoin(t, '.');
  }

  /** The customary text of an IPv4-mapped address reads as that address (section 2.5.5.2 of RFC 4291). */
  lemma ParseOfMapped(ip: nat, toNumber: string -> Option<int>)
    requires ip < WORD && ReadsNumerals(toNumber)
    ensures Parse("::ffff:" + Ipv4Text.Print(ip), toNumber) == Some(Cidr.Mapped(ip))
  {
    var f := MappedForm(ip);
    MappedDenotes(ip);
    assert Dotted(f.tail) == [Ipv4Text.Print(ip)];
    MappedText(Ipv4Text.Print(ip));
    ParseOfRender(f, None, toNumber);
    assert Render(f) + "" == Render(f);
  }

  function MappedForm(ip: nat): Form
    requires ip < WORD
  {
    var q := Cidr.Quad(ip);
    Compressed([], ["ffff"], Some([Decimal(q[0]), Decimal(q[1]), Decimal(q[2]), Decimal(q[3])]))
  }

  lemma MappedDenotes(ip: nat)
    requires ip < WORD
    ensures WellFormed(MappedForm(ip)) && Denote(MappedForm(ip)) == Cidr.Mapped(ip)
  {
    var q, t := Cidr.Quad(ip), MappedForm(ip).tail.value;
    forall i | 0 <= i < 4 ensures t[i] == Decimal(q[i]) && IsOctetText(t[i]) && DecimalValue(t[i]) == q[i] {
      ValueOfDecimal(q[i]);
    }
    AllOnes();
    assert TailBytes(Some(t)) == q;
    assert BytesOf([]) + Zeros(10) + BytesOf(["ffff"]) + q == Cidr.Mapped(ip);
  }

  lemma MappedText(quad: string)
    ensures Join([], ':') + "::" + Join(["ffff"] + [quad], ':') == "::ffff:" + quad
  {
    assert ["ffff"] + [quad] == ["ffff", quad];
    assert ["ffff", quad][1..] == [quad];
    assert Join(["ffff", quad], ':') == "ffff" + [':'] + quad;
    assert "" + "::" + ("ffff" + [':'] + quad) == "::ffff:" + quad;
  }

  lemma AllOnes()
    ensures BytesOf(["ffff"]) == [0xff, 0xff]
  {
    assert "ffff"[..3] == "fff" && "fff"[..2] == "ff" && "ff"[..1] == "f" && "f"[..0] == "";
    assert HexValue("ff") == 0xff;
    assert HexValue("ffff") == 0xffff;
    assert ["ffff"][..0] == [];
  }
}
