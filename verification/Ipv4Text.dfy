/** Reading dotted quads. */
module Ipv4Text {
  import opened Options
  import opened Bytes
  import opened Bits
  import opened Text
  import Cidr

  function Print(ip: nat): string
    requires ip < WORD
  {
    var q := Cidr.Quad(ip);
    Join([Decimal(q[0]), Decimal(q[1]), Decimal(q[2]), Decimal(q[3])], '.')
  }

  /** What the loop accepts of one part: digits, no superfluous zero, at most 255. */
  predicate IsOctet(part: string) {
    part != "" && AllDigits(part) && !(|part| > 1 && part[0] == '0') && DecimalValue(part) <= 255
  }

  /** One turn of the loop, signed 32-bit shift and all, appends a byte. */
  lemma ShiftInByte(result: int, before: nat, n: byte)
    requires before < 0x100_0000 && JsUnsigned(result) == before
    ensures JsUnsigned(JsOr(JsShl(result, 8), n)) == 256 * before + n
  {
    PowersOfTwo();
    ShlIsProduct(before, 8);
    ShiftedWord(result, 8);
    OrByte(JsShl(result, 8), before, n, 8);
  }

  lemma OrByte(shifted: int, before: nat, n: byte, k: nat)
    requires before < 0x100_0000 && n < Pow2(k) && JsUnsigned(shifted) == Shl(before, k) == 256 * before
    ensures JsUnsigned(JsOr(shifted, n)) == 256 * before + n
  {
    OrBelow(before, n, k);
    OrOfWords(shifted, n);
    Cidr.WordRemainder(0, 256 * before + n, 256 * before + n);
  }

  lemma ShiftedWord(a: int, k: nat)
    requires k < 32 && Shl(JsUnsigned(a), k) < WORD
    ensures JsUnsigned(JsShl(a, k)) == Shl(JsUnsigned(a), k)
  {
    var x := Shl(ToUint32(a), k);
    Cidr.WordRemainder(0, x, x);
  }

  lemma OrOfWords(a: int, b: nat)
    requires b < WORD
    ensures JsUnsigned(JsOr(a, b)) == ToUint32(BitOr(JsUnsigned(a), b))
  {
    Cidr.WordRemainder(0, b, b);
  }

  /** Exactly the printed addresses are accepted, each as the address it prints. */
  method ParseIpv4(s: string) returns (r: Option<nat>)
    ensures r.Some? ==> r.value < WORD
    ensures r.Some? <==> exists ip: nat :: ip < WORD && s == Print(ip)
    ensures forall ip: nat | ip < WORD :: r == Some(ip) <==> s == Print(ip)
  {
    var parts := Split(s, '.');
    JoinOfSplit(s, '.');
    if |parts| != 4 {
      OtherTextIsNoQuad(s, parts, 0);
      return None;
    }
    var result;
    ghost var bytes, at;
    result, bytes, at := ReadOctets(parts);
    if result.None? {
      OtherTextIsNoQuad(s, parts, at);
      return None;
    }
    QuadRead(s, parts, bytes);
    return Some(JsUnsigned(result.value));
  }

  /** The loop over the parts: `bytes` are the octets read, `at` the part it stops at. */
  method ReadOctets(parts: seq<string>) returns (r: Option<int>, ghost bytes: seq<byte>, ghost at: nat)
    requires |parts| == 4
    ensures r.None? ==> at < 4 && !IsOctet(parts[at])
    ensures r.Some? ==> |bytes| == 4 && JsUnsigned(r.value) == Cidr.Number(bytes)
    ensures r.Some? ==> forall j | 0 <= j < 4 :: IsOctet(parts[j]) && bytes[j] == DecimalValue(parts[j])
  {
    var result: int := 0;
    var i: nat := 0;
    bytes := [];
    while i < 4
      invariant i <= 4 && |bytes| == i
      invariant forall j | 0 <= j < i :: IsOctet(parts[j]) && bytes[j] == DecimalValue(parts[j])
      invariant JsUnsigned(result) == Cidr.Number(bytes)
    {
      var part := parts[i];
      if part == "" || !AllDigits(part) {
        return None, bytes, i;
      }
      if |part| > 1 && part[0] == '0' {
        return None, bytes, i;
      }
      var n := DecimalValue(part);
      if n > 255 {
        return None, bytes, i;
      }
      NumberBelow(bytes);
      ShiftInByte(result, Cidr.Number(bytes), n);
      Cidr.NumberOneMore(bytes, n);
      result := JsOr(JsShl(result, 8), n);
      bytes := bytes + [n];
      i := i + 1;
    }
    return Some(result), bytes, i;
  }

  /** Three or fewer bytes leave room for one more. */
  lemma NumberBelow(bytes: seq<byte>)
    requires |bytes| <= 3
    ensures Cidr.Number(bytes) < 0x100_0000
  {
    if |bytes| > 0 {
      var two := bytes[..|bytes| - 1];
      if |two| > 0 {
        var one := two[..|two| - 1];
        if |one| > 0 {
          assert one[..0] == [];
        }
      }
    }
  }

  lemma OtherTextIsNoQuad(s: string, parts: seq<string>, i: nat)
    requires parts == Split(s, '.')
    requires |parts| != 4 || (i < 4 && !IsOctet(parts[i]))
    ensures forall ip: nat | ip < WORD :: s != Print(ip)
  {
    forall ip: nat | ip < WORD ensures s != Print(ip) {
      SplitOfPrint(ip);
    }
  }

  lemma SplitOfPrint(ip: nat)
    requires ip < WORD
    ensures |Split(Print(ip), '.')| == 4
    ensures forall i | 0 <= i < 4 :: IsOctet(Split(Print(ip), '.')[i])
    ensures forall i | 0 <= i < 4 :: Split(Print(ip), '.')[i] == Decimal(Cidr.Quad(ip)[i])
  {
    var q := Cidr.Quad(ip);
    var parts := [Decimal(q[0]), Decimal(q[1]), Decimal(q[2]), Decimal(q[3])];
    forall i | 0 <= i < 4 ensures IsOctet(parts[i]) && Without(parts[i], '.') {
      assert parts[i] == Decimal(q[i]);
      ValueOfDecimal(q[i]);
      DigitsHaveNoDot(parts[i]);
    }
    SplitOfJoin(parts, '.');
  }

  lemma PrintIsInjective(a: nat, b: nat)
    requires a < WORD && b < WORD
    ensures Print(a) == Print(b) ==> a == b
  {
    SplitOfPrint(a);
    SplitOfPrint(b);
    if Print(a) == Print(b) {
      var q, p := Cidr.Quad(a), Cidr.Quad(b);
      forall i | 0 <= i < 4 ensures q[i] == p[i] {
        assert Split(Print(a), '.')[i] == Decimal(q[i]) && Split(Print(b), '.')[i] == Decimal(p[i]);
        ValueOfDecimal(q[i]);
        ValueOfDecimal(p[i]);
      }
      Cidr.QuadDigits(a);
      Cidr.QuadDigits(b);
    }
  }

  lemma DigitsHaveNoDot(s: string)
    requires AllDigits(s)
    ensures Without(s, '.')
  {
  }

  lemma QuadRead(s: string, parts: seq<string>, bytes: seq<byte>)
    requires s == Join(parts, '.') && |parts| == |bytes| == 4
    requires forall j | 0 <= j < 4 :: IsOctet(parts[j]) && bytes[j] == DecimalValue(parts[j])
    ensures Cidr.Number(bytes) < WORD && s == Print(Cidr.Number(bytes))
    ensures forall ip: nat | ip < WORD :: ip == Cidr.Number(bytes) <==> s == Print(ip)
  {
    FourOctets(parts, bytes);
    forall ip: nat | ip < WORD && s == Print(ip) ensures ip == Cidr.Number(bytes) {
      PrintIsInjective(ip, Cidr.Number(bytes));
    }
  }

  lemma FourOctets(parts: seq<string>, bytes: seq<byte>)
    requires |parts| == |bytes| == 4
    requires forall j | 0 <= j < 4 :: IsOctet(parts[j]) && bytes[j] == DecimalValue(parts[j])
    ensures Cidr.Number(bytes) < WORD && Join(parts, '.') == Print(Cidr.Number(bytes))
  {
    var n := Cidr.Number(bytes);
    assert bytes == [] + [bytes[0], bytes[1], bytes[2], bytes[3]];
    Cidr.NumberOfFourMore([], bytes[0], bytes[1], bytes[2], bytes[3]);
    var a: int, b: int, c: int, d: int := bytes[0], bytes[1], bytes[2], bytes[3];
    assert n == 256 * (256 * (256 * a + b) + c) + d;
    QuadOfDigits(n, bytes);
    forall j | 0 <= j < 4 ensures parts[j] == Decimal(bytes[j]) {
      DecimalOfValue(parts[j]);
    }
    assert parts == [Decimal(bytes[0]), Decimal(bytes[1]), Decimal(bytes[2]), Decimal(bytes[3])];
  }

  lemma QuadOfDigits(n: nat, q: seq<byte>)
    requires |q| == 4
    requires var a: int, b: int, c: int, d: int := q[0], q[1], q[2], q[3];
             n == 256 * (256 * (256 * a + b) + c) + d
    ensures n < WORD && Cidr.Quad(n) == q
  {
  }
}
