/** CIDR membership: signed 32-bit masks for IPv4, a byte loop with a partial mask for IPv6, and
    what both mean in terms of plain division. */
module Cidr {
  import opened Bytes
  import opened Bits

  // ---- IPv4 -----------------------------------------------------------------------------------------

  function Ipv4Mask(hostBits: nat): nat {
    JsUnsigned(JsShl(JsNot(0), hostBits))
  }

  predicate Ipv4InCidr(ip: int, network: int, prefixLen: nat)
    requires prefixLen <= 32
  {
    if prefixLen == 0 then true
    else if prefixLen == 32 then ip == network
    else
      var mask := Ipv4Mask(32 - prefixLen);
      JsAnd(ip, mask) == JsAnd(network, mask)
  }

  lemma {:induction false} OnesShiftedOut(k: nat)
    requires k < 32
    ensures ToUint32(Shl(WORD - 1, k)) == WORD - Pow2(k)
  {
    if k > 0 {
      OnesShiftedOut(k - 1);
      PowersOfTwo();
      Pow2Grows(k, 32);
      DoubleWraps(Shl(WORD - 1, k - 1), Pow2(k - 1));
    }
  }

  lemma DoubleWraps(y: nat, p: nat)
    requires ToUint32(y) == WORD - p && 0 < 2 * p <= WORD
    ensures ToUint32(2 * y) == WORD - 2 * p
  {
    var q := y / 0x1_0000_0000;
    WordRemainder(2 * q + 1, 2 * y, WORD - 2 * p);
  }

  lemma WordRemainder(q: int, x: int, r: nat)
    requires r < 0x1_0000_0000 && x == q * 0x1_0000_0000 + r
    ensures ToUint32(x) == r
  {
  }

  /** What the mask expression keeps of an address: everything but its `k` low bits. */
  lemma MaskKeeps(ip: nat, k: nat)
    requires ip < WORD && 0 < k < 32
    ensures JsAnd(ip, Ipv4Mask(k)) == ToInt32(Shl(Shr(ip, k), k))
    ensures Shl(Shr(ip, k), k) < WORD
  {
    Ipv4MaskIs(k);
    WordMask(ip, k);
    ShlShrBelow(ip, k);
    AndOfWords(ip, Ipv4Mask(k));
  }

  lemma AndOfWords(a: nat, b: nat)
    requires a < WORD && b < WORD
    ensures JsAnd(a, b) == ToInt32(BitAnd(a, b))
  {
    assert ToUint32(a) == a && ToUint32(b) == b;
  }

  lemma Ipv4MaskIs(k: nat)
    requires 0 < k < 32
    ensures Ipv4Mask(k) == WORD - Pow2(k) && Pow2(k) < WORD
  {
    OnesShiftedOut(k);
    PowersOfTwo();
    Pow2Grows(k, 31);
    assert JsNot(0) == -1 && ToUint32(-1) == WORD - 1;
    assert k % 32 == k;
  }

  lemma WordMask(x: nat, k: nat)
    requires x < WORD && k <= 32
    ensures Pow2(k) <= WORD && BitAnd(x, WORD - Pow2(k)) == Shl(Shr(x, k), k)
  {
    PowersOfTwo();
    HighMask(x, 32, k);
  }

  lemma SignKeepsEquality(a: nat, b: nat)
    requires a < WORD && b < WORD
    ensures ToInt32(a) == ToInt32(b) <==> a == b
  {
  }

  /** Membership is agreement on the quotient by 2^(32 - prefix), the sign bit notwithstanding. */
  lemma Ipv4InCidrIsQuotientAgreement(ip: nat, network: nat, prefixLen: nat)
    requires ip < WORD && network < WORD && prefixLen <= 32
    ensures Ipv4InCidr(ip, network, prefixLen) <==> Shr(ip, 32 - prefixLen) == Shr(network, 32 - prefixLen)
    ensures Ipv4InCidr(ip, network, prefixLen) <==> ip / Pow2(32 - prefixLen) == network / Pow2(32 - prefixLen)
  {
    var k := 32 - prefixLen;
    ShrIsQuotient(ip, k);
    ShrIsQuotient(network, k);
    if prefixLen == 0 {
      PowersOfTwo();
      ShrSmall(ip, 32);
      ShrSmall(network, 32);
    } else if prefixLen < 32 {
      MaskedAgreement(ip, network, k);
    }
  }

  lemma MaskedAgreement(ip: nat, network: nat, k: nat)
    requires ip < WORD && network < WORD && 0 < k < 32
    ensures Ipv4InCidr(ip, network, 32 - k) <==> Shr(ip, k) == Shr(network, k)
  {
    MaskKeeps(ip, k);
    MaskKeeps(network, k);
    SignKeepsEquality(Shl(Shr(ip, k), k), Shl(Shr(network, k), k));
    ShlInjective(Shr(ip, k), Shr(network, k), k);
  }

  // ---- IPv6 -----------------------------------------------------------------------------------------

  /** Reading past the end of a byte array gives zero. */
  function At(bytes: seq<byte>, i: nat): byte {
    if i < |bytes| then bytes[i] else 0
  }

  function PartialMask(remainingBits: nat): int
    requires remainingBits <= 8
  {
    JsAnd(0xff, JsShl(0xff, 8 - remainingBits))
  }

  predicate Ipv6Matches(ip: seq<byte>, network: seq<byte>, prefixLen: nat) {
    && (forall i: nat | i < prefixLen / 8 :: At(ip, i) == At(network, i))
    && (prefixLen % 8 > 0 ==>
          JsAnd(At(ip, prefixLen / 8), PartialMask(prefixLen % 8)) == JsAnd(At(network, prefixLen / 8),
              PartialMask(prefixLen % 8)))
  }

  /** The byte loop decides membership; on addresses that is agreement on the leading bits. */
  method Ipv6InCidr(ip: seq<byte>, network: seq<byte>, prefixLen: nat) returns (inside: bool)
    ensures inside <==> Ipv6Matches(ip, network, prefixLen)
    ensures |ip| == |network| == 16 && prefixLen <= 128 ==>
              (inside <==> Number(ip) / Pow2(128 - prefixLen) == Number(network) / Pow2(128 - prefixLen))
  {
    if |ip| == |network| == 16 && prefixLen <= 128 {
      Ipv6MatchesIsQuotientAgreement(ip, network, prefixLen);
    }
    if prefixLen == 0 {
      return true;
    }
    var fullBytes := prefixLen / 8;
    var remainingBits := prefixLen % 8;
    var i: nat := 0;
    while i < fullBytes
      invariant i <= fullBytes
      invariant forall j: nat | j < i :: At(ip, j) == At(network, j)
    {
      if At(ip, i) != At(network, i) {
        return false;
      }
      i := i + 1;
    }
    if remainingBits > 0 {
      var mask := JsAnd(0xff, JsShl(0xff, 8 - remainingBits));
      if JsAnd(At(ip, fullBytes), mask) != JsAnd(At(network, fullBytes), mask) {
        return false;
      }
    }
    return true;
  }

  /** The big-endian number a byte sequence spells. */
  function Number(bytes: seq<byte>): (n: nat) {
    if bytes == [] then 0 else 256 * Number(bytes[..|bytes| - 1]) + bytes[|bytes| - 1]
  }

  lemma {:induction false} NumberIsInjective(a: seq<byte>, b: seq<byte>)
    requires |a| == |b|
    ensures Number(a) == Number(b) <==> a == b
  {
    if a != [] {
      NumberIsInjective(a[..|a| - 1], b[..|b| - 1]);
      assert a == a[..|a| - 1] + [a[|a| - 1]] && b == b[..|b| - 1] + [b[|b| - 1]];
    }
  }

  /** Shifting a number in base 2^w that ends in the digit `l`. */
  lemma DigitShift(h: nat, l: nat, base: nat, w: nat, r: nat)
    requires r <= w && base == Pow2(w) && l < base
    ensures Shr(base * h + l, w) == h
    ensures Shr(base * h + l, w - r) == Shl(h, r) + Shr(l, w - r)
  {
    ShlIsProduct(h, w);
    ShrSplit(h, l, w, w - r);
    ShrSplit(h, l, w, w);
    ShrSmall(l, w);
  }

  /** Shifting out whole trailing bytes drops them. */
  lemma {:induction false} ShiftDropsBytes(bytes: seq<byte>, q: nat)
    requires q <= |bytes|
    ensures Shr(Number(bytes), 8 * (|bytes| - q)) == Number(bytes[..q])
    decreases |bytes|
  {
    if q == |bytes| {
      assert bytes[..q] == bytes;
    } else {
      var init, last := bytes[..|bytes| - 1], bytes[|bytes| - 1];
      ShiftDropsBytes(init, q);
      assert init[..q] == bytes[..q];
      ShrAdds(Number(bytes), 8, 8 * (|bytes| - 1 - q));
      PowersOfTwo();
      DigitShift(Number(init), last, 256, 8, 0);
    }
  }

  /** A mask with the upper bits of a byte clears the lower `k`. */
  lemma UpperMaskKeeps(b: byte, k: nat, m: nat)
    requires 0 < k < 8 && m == 256 - Pow2(k)
    ensures JsAnd(b, m) == Shl(Shr(b, k), k)
  {
    ByteMask(b, k);
    ByteAnd(b, m, Shl(Shr(b, k), k));
  }

  lemma ByteAnd(b: byte, m: nat, kept: nat)
    requires m < 256 && BitAnd(b, m) == kept < 256
    ensures JsAnd(b, m) == kept
  {
    AndOfWords(b, m);
    PositiveKept(kept);
  }

  lemma PositiveKept(v: nat)
    requires v < 0x8000_0000
    ensures ToInt32(v) == v
  {
  }

  lemma ByteMask(b: byte, k: nat)
    requires k <= 8
    ensures Pow2(k) <= 256 && BitAnd(b, 256 - Pow2(k)) == Shl(Shr(b, k), k) < 256
  {
    PowersOfTwo();
    HighMask(b, 8, k);
    ShlShrBelow(b, k);
  }

  lemma MaskValue(k: nat)
    requires 0 < k < 8
    ensures PartialMask(8 - k) == 256 - Pow2(k) && 0 < Pow2(k) < 256
  {
    SmallPowers(k);
    ShiftedOnes(k);
    MaskOperand(k);
    AndOfWords(0xff, Shl(0xff, k));
    PositiveKept(256 - Pow2(k));
  }

  lemma MaskOperand(k: nat)
    requires 0 < k < 8
    ensures JsShl(0xff, k) == Shl(0xff, k) < 0x1_0000
  {
    OnesMovedUp(k);
    SmallShl(0xff, k);
  }

  lemma SmallPowers(k: nat)
    requires 0 < k < 8
    ensures Pow2(k) < 256 && Pow2(8 + k) < 0x1_0000
  {
    PowersOfTwo();
    assert Pow2(7) == 128 && Pow2(15) == 32768;
    Pow2Grows(k, 7);
    Pow2Grows(8 + k, 15);
  }

  lemma OnesMovedUp(k: nat)
    requires 0 < k < 8
    ensures Shl(0xff, k) < 0x1_0000
  {
    PowersOfTwo();
    ShlOfOnes(8, k);
    SmallPowers(k);
  }

  lemma SmallShl(x: nat, k: nat)
    requires k < 32 && x < WORD && Shl(x, k) < 0x8000_0000
    ensures JsShl(x, k) == Shl(x, k)
  {
    WordRemainder(0, x, x);
    PositiveKept(Shl(x, k));
  }

  lemma ShiftedOnes(k: nat)
    requires 0 < k < 8
    ensures Pow2(k) <= 256 && BitAnd(0xff, Shl(0xff, k)) == 256 - Pow2(k)
  {
    PowersOfTwo();
    SmallPowers(k);
    LowOnesOfShiftedOnes(8, k);
  }

  lemma LowOnesOfShiftedOnes(w: nat, k: nat)
    requires k <= w
    ensures BitAnd(Pow2(w) - 1, Shl(Pow2(w) - 1, k)) == Pow2(w) - Pow2(k)
  {
    AndCommutes(Pow2(w) - 1, Shl(Pow2(w) - 1, k));
    LowMask(Shl(Pow2(w) - 1, k), w);
    LowOfShl(Pow2(w) - 1, k, w);
    UpperOnes(Pow2(w) - 1, w, k);
  }

  lemma UpperOnes(ones: nat, w: nat, k: nat)
    requires k <= w && ones == Pow2(w) - 1
    ensures Shl(Low(ones, w - k), k) == Pow2(w) - Pow2(k)
  {
    LowOfOnes(w - k, w);
    ShlOfOnes(w - k, k);
  }

  lemma {:induction false} ShlShrBelow(x: nat, k: nat)
    ensures Shl(Shr(x, k), k) <= x
    decreases k
  {
    if k > 0 {
      ShlShrBelow(x / 2, k - 1);
    }
  }

  lemma PartialByteDecides(a: byte, b: byte, r: nat)
    requires 0 < r < 8
    ensures JsAnd(a, PartialMask(r)) == JsAnd(b, PartialMask(r)) <==> Shr(a, 8 - r) == Shr(b, 8 - r)
  {
    MaskValue(8 - r);
    MaskedBytesDecide(a, b, 8 - r, PartialMask(r));
  }

  lemma MaskedBytesDecide(a: byte, b: byte, k: nat, m: nat)
    requires 0 < k < 8 && m == 256 - Pow2(k)
    ensures JsAnd(a, m) == JsAnd(b, m) <==> Shr(a, k) == Shr(b, k)
  {
    UpperMaskKeeps(a, k, m);
    UpperMaskKeeps(b, k, m);
    ShlInjective(Shr(a, k), Shr(b, k), k);
  }

  /** Equal sums of a number shifted by `r` and `r` leading bits mean equal numbers and equal bits. */
  lemma SumDecides(g: nat, h: nat, a: nat, b: nat, k: nat, r: nat)
    requires a < Pow2(k + r) && b < Pow2(k + r)
    ensures Shl(g, r) + Shr(a, k) == Shl(h, r) + Shr(b, k) <==> g == h && Shr(a, k) == Shr(b, k)
  {
    UpperPart(g, a, k, r);
    UpperPart(h, b, k, r);
  }

  lemma UpperPart(g: nat, a: nat, k: nat, r: nat)
    requires a < Pow2(k + r)
    ensures Shr(Shl(g, r) + Shr(a, k), r) == g
  {
    ShrAdds(a, k, r);
    ShrSmall(a, k + r);
    ShrSplit(g, Shr(a, k), r, r);
  }

  lemma SameLeadingBytes(ip: seq<byte>, network: seq<byte>, q: nat)
    requires q <= |ip| && q <= |network|
    ensures (forall i: nat | i < q :: At(ip, i) == At(network, i)) <==> ip[..q] == network[..q]
  {
    if forall i: nat | i < q :: At(ip, i) == At(network, i) {
      forall i | 0 <= i < q ensures ip[..q][i] == network[..q][i] {
        assert At(ip, i) == At(network, i);
      }
    }
    if ip[..q] == network[..q] {
      forall i: nat | i < q ensures At(ip, i) == At(network, i) {
        assert ip[..q][i] == network[..q][i];
      }
    }
  }

  lemma Ipv6MatchesIsQuotientAgreement(ip: seq<byte>, network: seq<byte>, prefixLen: nat)
    requires |ip| == |network| == 16 && prefixLen <= 128
    ensures Ipv6Matches(ip, network, prefixLen)
       <==> Number(ip) / Pow2(128 - prefixLen) == Number(network) / Pow2(128 - prefixLen)
  {
    ShrIsQuotient(Number(ip), 128 - prefixLen);
    ShrIsQuotient(Number(network), 128 - prefixLen);
    Ipv6MatchesIsShiftAgreement(ip, network, prefixLen);
  }

  lemma Ipv6MatchesIsShiftAgreement(ip: seq<byte>, network: seq<byte>, prefixLen: nat)
    requires |ip| == |network| == 16 && prefixLen <= 128
    ensures Ipv6Matches(ip, network, prefixLen)
       <==> Shr(Number(ip), 128 - prefixLen) == Shr(Number(network), 128 - prefixLen)
  {
    var q, r := prefixLen / 8, prefixLen % 8;
    SameLeadingBytes(ip, network, q);
    assert prefixLen == 8 * q + r;
    if r == 0 {
      WholeBytesDecide(ip, network, q);
    } else {
      var k, whole := 8 - r, 8 * (15 - q);
      assert 128 - prefixLen == whole + k;
      PartialBytesDecide(ip, network, q, r, k, whole);
    }
  }

  lemma PartialBytesDecide(ip: seq<byte>, network: seq<byte>, q: nat, r: nat, k: nat, whole: nat)
    requires |ip| == |network| == 16 && q < 16 && 0 < r < 8 && k == 8 - r && whole == 8 * (15 - q)
    ensures Shr(Number(ip), whole + k) == Shr(Number(network), whole + k)
       <==> ip[..q] == network[..q] && JsAnd(ip[q], PartialMask(r)) == JsAnd(network[q], PartialMask(r))
  {
    NumberIsInjective(ip[..q], network[..q]);
    PowersOfTwo();
    LeadingBitsDecide(ip, network, q, r, k, whole);
    PartialByteDecides(ip[q], network[q], r);
  }

  lemma WholeBytesDecide(ip: seq<byte>, network: seq<byte>, q: nat)
    requires |ip| == |network| == 16 && q <= 16
    ensures Shr(Number(ip), 128 - 8 * q) == Shr(Number(network), 128 - 8 * q) <==> ip[..q] == network[..q]
  {
    ShiftDropsBytes(ip, q);
    ShiftDropsBytes(network, q);
    NumberIsInjective(ip[..q], network[..q]);
  }

  lemma LeadingBitsDecide(ip: seq<byte>, network: seq<byte>, q: nat, r: nat, k: nat, whole: nat)
    requires |ip| == |network| == 16 && q < 16 && Pow2(k + r) == 256 && whole == 8 * (15 - q)
    ensures Shr(Number(ip), whole + k) == Shr(Number(network), whole + k)
       <==> Number(ip[..q]) == Number(network[..q]) && Shr(ip[q], k) == Shr(network[q], k)
  {
    LeadingBits(ip, q, r, k + r, whole);
    LeadingBits(network, q, r, k + r, whole);
    SumDecides(Number(ip[..q]), Number(network[..q]), ip[q], network[q], k, r);
  }

  /** The leading 8q + r bits: the first q bytes, then the upper r bits of the next. */
  lemma LeadingBits(bytes: seq<byte>, q: nat, r: nat, w: nat, whole: nat)
    requires |bytes| == 16 && q < 16 && r <= w && Pow2(w) == 256 && whole == 8 * (15 - q)
    ensures Shr(Number(bytes), whole + (w - r)) == Shl(Number(bytes[..q]), r) + Shr(bytes[q], w - r)
  {
    ShiftDropsBytes(bytes, q + 1);
    ShrAdds(Number(bytes), whole, w - r);
    NumberOfPrefix(bytes, q);
    DigitShift(Number(bytes[..q]), bytes[q], 256, w, r);
  }

  lemma NumberOfPrefix(bytes: seq<byte>, q: nat)
    requires q < |bytes|
    ensures Number(bytes[..q + 1]) == 256 * Number(bytes[..q]) + bytes[q]
  {
    assert bytes[..q + 1][..q] == bytes[..q];
  }

  // ---- blocks ---------------------------------------------------------------------------------------

  lemma CoarserAgrees(x: nat, y: nat, fine: nat, coarse: nat)
    requires fine <= coarse && Shr(x, fine) == Shr(y, fine)
    ensures Shr(x, coarse) == Shr(y, coarse)
  {
    ShrAdds(x, fine, coarse - fine);
    ShrAdds(y, fine, coarse - fine);
  }

  /** Two IPv4 blocks sharing one address are nested: the longer prefix lies inside the shorter. */
  lemma Ipv4BlocksNestOrPart(a: nat, p: nat, b: nat, q: nat, shared: nat, x: nat)
    requires a < WORD && b < WORD && shared < WORD && x < WORD && p <= q <= 32
    requires Ipv4InCidr(shared, a, p) && Ipv4InCidr(shared, b, q)
    ensures Ipv4InCidr(x, b, q) ==> Ipv4InCidr(x, a, p)
  {
    Ipv4InCidrIsQuotientAgreement(shared, a, p);
    Ipv4InCidrIsQuotientAgreement(shared, b, q);
    Ipv4InCidrIsQuotientAgreement(x, b, q);
    Ipv4InCidrIsQuotientAgreement(x, a, p);
    if Ipv4InCidr(x, b, q) {
      CoarserAgrees(x, shared, 32 - q, 32 - p);
    }
  }

  lemma Ipv6BlocksNestOrPart(a: seq<byte>, p: nat, b: seq<byte>, q: nat, shared: seq<byte>, x: seq<byte>)
    requires |a| == |b| == |shared| == |x| == 16 && p <= q <= 128
    requires Ipv6Matches(shared, a, p) && Ipv6Matches(shared, b, q)
    ensures Ipv6Matches(x, b, q) ==> Ipv6Matches(x, a, p)
  {
    Ipv6MatchesIsShiftAgreement(shared, a, p);
    Ipv6MatchesIsShiftAgreement(shared, b, q);
    Ipv6MatchesIsShiftAgreement(x, b, q);
    Ipv6MatchesIsShiftAgreement(x, a, p);
    if Ipv6Matches(x, b, q) {
      CoarserAgrees(Number(x), Number(shared), 128 - q, 128 - p);
    }
  }

  // ---- IPv4-mapped addresses --------------------------------------------------------------------------

  function Quad(ip: nat): (bytes: seq<byte>)
    requires ip < WORD
  {
    [ip / 0x100_0000, ip / 0x1_0000 % 256, ip / 256 % 256, ip % 256]
  }

  /** Section 2.5.5.2 of RFC 4291: ten zero bytes, two of ones, the IPv4 address. */
  function Mapped(ip: nat): (bytes: seq<byte>)
    requires ip < WORD
    ensures |bytes| == 16
  {
    [0, 0, 0, 0, 0, 0, 0, 0, 0, 0, 0xff, 0xff] + Quad(ip)
  }

  lemma NumberOneMore(bytes: seq<byte>, b: byte)
    ensures Number(bytes + [b]) == 256 * Number(bytes) + b
  {
    assert (bytes + [b])[..|bytes|] == bytes;
  }

  lemma NumberOfMapped(ip: nat)
    requires ip < WORD
    ensures Number(Mapped(ip)) == 0xffff * WORD + ip
  {
    var head: seq<byte> := [0, 0, 0, 0, 0, 0, 0, 0, 0, 0, 0xff, 0xff];
    var q := Quad(ip);
    MappedHead();
    NumberOfFourMore(head, q[0], q[1], q[2], q[3]);
    QuadDigits(ip);
    assert Mapped(ip) == head + [q[0], q[1], q[2], q[3]];
  }

  lemma MappedHead()
    ensures Number([0, 0, 0, 0, 0, 0, 0, 0, 0, 0, 0xff, 0xff]) == 0xffff
  {
    var four: seq<byte> := [0, 0, 0, 0];
    var eight: seq<byte> := [0, 0, 0, 0, 0, 0, 0, 0];
    NumberOfFourMore([], 0, 0, 0, 0);
    assert [] + [0, 0, 0, 0] == four;
    NumberOfFourMore(four, 0, 0, 0, 0);
    assert four + [0, 0, 0, 0] == eight;
    NumberOfFourMore(eight, 0, 0, 0xff, 0xff);
    assert eight + [0, 0, 0xff, 0xff] == [0, 0, 0, 0, 0, 0, 0, 0, 0, 0, 0xff, 0xff];
  }

  lemma NumberOfFourMore(bytes: seq<byte>, a: byte, b: byte, c: byte, d: byte)
    ensures Number(bytes + [a, b, c, d]) == 256 * (256 * (256 * (256 * Number(bytes) + a) + b) + c) + d
  {
    NumberOneMore(bytes, a);
    NumberOneMore(bytes + [a], b);
    NumberOneMore(bytes + [a] + [b], c);
    NumberOneMore(bytes + [a] + [b] + [c], d);
    assert bytes + [a, b, c, d] == bytes + [a] + [b] + [c] + [d];
  }

  lemma QuadDigits(ip: nat)
    requires ip < WORD
    ensures var q := Quad(ip);
            var a: int, b: int, c: int, d: int := q[0], q[1], q[2], q[3];
            ip == 256 * (256 * (256 * a + b) + c) + d
  {
  }

  /** IPv4 membership at /p is membership of the mapped addresses at /(96 + p). */
  lemma MappedMembership(ip: nat, network: nat, p: nat)
    requires ip < WORD && network < WORD && p <= 32
    ensures Ipv4InCidr(ip, network, p) <==> Ipv6Matches(Mapped(ip), Mapped(network), 96 + p)
  {
    Ipv4InCidrIsQuotientAgreement(ip, network, p);
    Ipv6MatchesIsShiftAgreement(Mapped(ip), Mapped(network), 96 + p);
    assert 128 - (96 + p) == 32 - p;
    MappedAgree(ip, network, 32 - p);
  }

  lemma MappedAgree(ip: nat, network: nat, k: nat)
    requires ip < WORD && network < WORD && k <= 32
    ensures Shr(Number(Mapped(ip)), k) == Shr(Number(Mapped(network)), k) <==> Shr(ip, k) == Shr(network, k)
  {
    PowersOfTwo();
    MappedShift(ip, k, 32);
    MappedShift(network, k, 32);
  }

  /** Shifting a mapped address leaves the fixed prefix above the shifted IPv4 address. */
  lemma MappedShift(ip: nat, k: nat, w: nat)
    requires ip < WORD && k <= w && Pow2(w) == WORD
    ensures Shr(Number(Mapped(ip)), k) == Shl(0xffff, w - k) + Shr(ip, k)
  {
    NumberOfMapped(ip);
    ShlIsProduct(0xffff, w);
    ShrSplit(0xffff, ip, w, k);
  }
}
