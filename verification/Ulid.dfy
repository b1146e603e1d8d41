/** Universally unique lexicographically sortable identifiers: 10 digits of time, 16 of randomness. */
module Ulid {
  import opened Options
  import opened Bytes

  const ENCODING: string := "0123456789ABCDEFGHJKMNPQRSTVWXYZ"
  /** Crockford's alphabet: the ten digits and the capital letters without I, L, O and U. */
  lemma AlphabetIsCrockfords(c: char)
    ensures |ENCODING| == 32
    ensures c in ENCODING <==>
            || '0' <= c <= '9' || 'A' <= c <= 'H' || c == 'J' || c == 'K' || c == 'M' || c == 'N'
            || 'P' <= c <= 'T' || 'V' <= c <= 'Z'
  {
  }

  const TIME_LEN: nat := 10
  const RANDOM_LEN: nat := 16
  const MAX_TIME: nat := 0xffff_ffff_ffff

  /** The position of a character in the alphabet, from `i` on; 0 for a character outside it. */
  function CodeFrom(c: char, i: nat): (d: nat)
    requires i <= 32
    ensures d < 32
    decreases 32 - i, c
  {
    if i == 32 then 0 else if ENCODING[i] == c then i else CodeFrom(c, i + 1)
  }

  function Code(c: char): (d: nat)
    ensures d < 32
  {
    CodeFrom(c, 0)
  }

  predicate IsSymbol(c: char) {
    ENCODING[Code(c)] == c
  }

  predicate IsText(s: string) {
    forall i | 0 <= i < |s| :: IsSymbol(s[i])
  }

  /** The number a text spells in base 32. */
  function Decode(s: string): nat {
    if s == "" then 0 else 32 * Decode(s[..|s| - 1]) + Code(s[|s| - 1])
  }

  /** The `n` low base-32 digits of `t`, most significant first. */
  function Digits(t: nat, n: nat): (s: string)
    ensures |s| == n
    decreases n
  {
    if n == 0 then "" else Digits(t / 32, n - 1) + [ENCODING[t % 32]]
  }

  function Pow32(n: nat): nat {
    if n == 0 then 1 else 32 * Pow32(n - 1)
  }

  predicate InRange(timeMs: real) {
    0.0 <= timeMs <= MAX_TIME as real
  }

  /** Out-of-range times raise the error; others become ten digits that decode to the whole millisecond. */
  method EncodeTime(timeMs: real) returns (r: Option<string>)
    ensures r.Some? <==> InRange(timeMs)
    ensures r.Some? ==> |r.value| == TIME_LEN && IsText(r.value) && Decode(r.value) == timeMs.Floor
    ensures r.Some? ==> r.value == Digits(timeMs.Floor, TIME_LEN)
  {
    if timeMs < 0.0 || timeMs > 0xffff_ffff_ffff as real {
      return None;
    }
    MaxTimeFits();
    DecodeOfDigits(timeMs.Floor, TIME_LEN);
    var str := EncodeDigits(timeMs.Floor, TIME_LEN);
    return Some(str);
  }

  /** The countdown loop, at any width that leaves nothing over. */
  method EncodeDigits(whole: nat, len: nat) returns (str: string)
    requires whole < Pow32(len)
    ensures str == Digits(whole, len)
  {
    str := "";
    var time := whole;
    var i := len - 1;
    while i >= 0
      invariant -1 <= i < len
      invariant 0 <= time < Pow32(i + 1)
      invariant Digits(whole, len) == Digits(time, i + 1) + str
    {
      DigitsStep(time, i + 1, str);
      var mod := time % 32;
      str := [ENCODING[mod]] + str;
      time := (time - mod) / 32;
      i := i - 1;
    }
    assert time == 0;
  }

  /** One turn of the loop moves the lowest digit to the front of the text. */
  lemma DigitsStep(t: nat, n: nat, str: string)
    requires n > 0 && t < Pow32(n)
    ensures Digits(t, n) + str == Digits((t - t % 32) / 32, n - 1) + ([ENCODING[t % 32]] + str)
    ensures (t - t % 32) / 32 < Pow32(n - 1)
  {
    assert (t - t % 32) / 32 == t / 32;
  }

  lemma MaxTimeFits()
    ensures MAX_TIME < Pow32(TIME_LEN)
  {
    assert Pow32(5) == 33554432;
    assert Pow32(10) == 33554432 * 33554432;
  }

  function RandomDigits(bytes: seq<byte>): (s: string)
    ensures |s| == |bytes|
    ensures forall i | 0 <= i < |bytes| :: s[i] == ENCODING[bytes[i] % 32]
  {
    if bytes == [] then "" else RandomDigits(bytes[..|bytes| - 1]) + [ENCODING[bytes[|bytes| - 1] % 32]]
  }

  /** One digit per byte; too few bytes raise the error. */
  method EncodeRandom(len: nat, bytes: seq<byte>) returns (r: Option<string>)
    ensures r.Some? <==> |bytes| >= len
    ensures r.Some? ==> r.value == RandomDigits(bytes[..len])
  {
    var str := "";
    for i := 0 to len
      invariant i <= |bytes|
      invariant str == RandomDigits(bytes[..i])
    {
      if i >= |bytes| {
        return None;
      }
      var b := bytes[i];
      assert bytes[..i + 1][..i] == bytes[..i];
      str := str + [ENCODING[b % 32]];
    }
    return Some(str);
  }

  function Text(timeMs: real, bytes: seq<byte>): (s: string)
    requires InRange(timeMs) && |bytes| == RANDOM_LEN
    ensures |s| == TIME_LEN + RANDOM_LEN
  {
    Digits(timeMs.Floor, TIME_LEN) + RandomDigits(bytes)
  }

  method Ulid(timeMs: real, bytes: seq<byte>) returns (r: Option<string>)
    requires |bytes| == RANDOM_LEN
    ensures r == if InRange(timeMs) then Some(Text(timeMs, bytes)) else None
  {
    var time := EncodeTime(timeMs);
    if time.None? {
      return None;
    }
    var random := EncodeRandom(RANDOM_LEN, bytes);
    assert bytes[..RANDOM_LEN] == bytes;
    return Some(time.value + random.value);
  }

  // ---- a bijection ------------------------------------------------------------------------------------

  lemma {:induction false} AlphabetAscends(i: nat, j: nat)
    requires i < j < 32
    ensures ENCODING[i] < ENCODING[j]
    decreases j
  {
    if i + 1 < j {
      AlphabetAscends(i, j - 1);
    }
    Neighbours(j);
  }

  lemma Neighbours(j: nat)
    requires 0 < j < 32
    ensures ENCODING[j - 1] < ENCODING[j]
  {
  }

  lemma {:induction false} CodeFromFinds(d: nat, i: nat)
    requires i <= d < 32
    ensures CodeFrom(ENCODING[d], i) == d
    decreases d - i
  {
    if i < d {
      AlphabetAscends(i, d);
      CodeFromFinds(d, i + 1);
    }
  }

  lemma CodeOf(d: nat)
    requires d < 32
    ensures Code(ENCODING[d]) == d
  {
    CodeFromFinds(d, 0);
  }

  lemma CodeOrder(c: char, d: char)
    requires IsSymbol(c) && IsSymbol(d)
    ensures c < d <==> Code(c) < Code(d)
    ensures c == d <==> Code(c) == Code(d)
  {
    if Code(c) < Code(d) {
      AlphabetAscends(Code(c), Code(d));
    } else if Code(d) < Code(c) {
      AlphabetAscends(Code(d), Code(c));
    }
  }

  lemma {:induction false} DecodeOfDigits(t: nat, n: nat)
    requires t < Pow32(n)
    ensures IsText(Digits(t, n)) && Decode(Digits(t, n)) == t
    decreases n
  {
    if n > 0 {
      DecodeOfDigits(t / 32, n - 1);
      assert Digits(t, n)[..n - 1] == Digits(t / 32, n - 1);
      CodeOf(t % 32);
    }
  }

  /** Every text of digits is the encoding of the number it spells. */
  lemma {:induction false} DigitsOfDecode(s: string)
    requires IsText(s)
    ensures Decode(s) < Pow32(|s|) && Digits(Decode(s), |s|) == s
  {
    if s != "" {
      DigitsOfDecode(s[..|s| - 1]);
      assert s == s[..|s| - 1] + [s[|s| - 1]];
      DivisionStep(Decode(s[..|s| - 1]), Code(s[|s| - 1]));
    }
  }

  lemma DivisionStep(d: nat, c: nat)
    requires c < 32
    ensures (32 * d + c) / 32 == d && (32 * d + c) % 32 == c
  {
  }

  // ---- order ------------------------------------------------------------------------------------------

  predicate LexLess(a: string, b: string) {
    b != "" && (a == "" || a[0] < b[0] || (a[0] == b[0] && LexLess(a[1..], b[1..])))
  }

  lemma {:induction false} LexLessAtEnd(a: string, x: char, b: string, y: char)
    requires |a| == |b|
    ensures LexLess(a + [x], b + [y]) <==> LexLess(a, b) || (a == b && x < y)
  {
    if a != "" {
      LexLessAtEnd(a[1..], x, b[1..], y);
      assert (a + [x])[1..] == a[1..] + [x] && (b + [y])[1..] == b[1..] + [y];
      assert a == [a[0]] + a[1..] && b == [b[0]] + b[1..];
    } else {
      assert [x][1..] == "" == [y][1..];
    }
  }

  predicate SameOrder(a: string, b: string) {
    && (LexLess(a, b) <==> Decode(a) < Decode(b))
    && (a == b <==> Decode(a) == Decode(b))
  }

  /** Text order is number order. */
  lemma {:induction false} OrderOfDecode(a: string, b: string)
    requires IsText(a) && IsText(b) && |a| == |b|
    ensures SameOrder(a, b)
  {
    if a != "" {
      var n := |a| - 1;
      var p, q := a[..n], b[..n];
      assert IsSymbol(a[n]) && IsSymbol(b[n]);
      OrderOfDecode(p, q);
      OrderOfLonger(p, a[n], q, b[n]);
      assert a == p + [a[n]];
      assert b == q + [b[n]];
    }
  }

  lemma OrderOfLonger(a: string, x: char, b: string, y: char)
    requires |a| == |b| && IsSymbol(x) && IsSymbol(y)
    requires SameOrder(a, b)
    ensures SameOrder(a + [x], b + [y])
  {
    DecodeOneMore(a, x);
    DecodeOneMore(b, y);
    CodeOrder(x, y);
    LexLessAtEnd(a, x, b, y);
    LeadingFirst(Decode(a), Code(x), Decode(b), Code(y));
    assert (a + [x])[..|a|] == a && (b + [y])[..|b|] == b;
  }

  lemma DecodeOneMore(s: string, c: char)
    ensures Decode(s + [c]) == 32 * Decode(s) + Code(c)
  {
    assert (s + [c])[..|s|] == s;
  }

  lemma LeadingFirst(v: nat, x: nat, w: nat, y: nat)
    requires x < 32 && y < 32
    ensures 32 * v + x < 32 * w + y <==> v < w || (v == w && x < y)
    ensures 32 * v + x == 32 * w + y <==> v == w && x == y
  {
  }

  lemma {:induction false} PrefixDecides(a: string, u: string, b: string, v: string)
    requires |a| == |b| && LexLess(a, b)
    ensures LexLess(a + u, b + v)
  {
    assert (a + u)[1..] == a[1..] + u && (b + v)[1..] == b[1..] + v;
    if a[0] == b[0] {
      PrefixDecides(a[1..], u, b[1..], v);
    }
  }

  /** An earlier millisecond gives a smaller identifier, whatever the random suffixes. */
  lemma EarlierSortsFirst(t1: real, r1: seq<byte>, t2: real, r2: seq<byte>)
    requires InRange(t1) && InRange(t2) && |r1| == |r2| == RANDOM_LEN
    ensures t1.Floor < t2.Floor ==> LexLess(Text(t1, r1), Text(t2, r2))
    ensures LexLess(Text(t1, r1), Text(t2, r2)) ==> t1.Floor <= t2.Floor
  {
    var a, b := Digits(t1.Floor, TIME_LEN), Digits(t2.Floor, TIME_LEN);
    MaxTimeFits();
    DecodeOfDigits(t1.Floor, TIME_LEN);
    DecodeOfDigits(t2.Floor, TIME_LEN);
    OrderOfDecode(a, b);
    OrderOfDecode(b, a);
    if LexLess(a, b) {
      PrefixDecides(a, RandomDigits(r1), b, RandomDigits(r2));
    } else if LexLess(b, a) {
      PrefixDecides(b, RandomDigits(r2), a, RandomDigits(r1));
      NotBoth(Text(t1, r1), Text(t2, r2));
    }
  }

  lemma {:induction false} NotBoth(a: string, b: string)
    requires LexLess(b, a)
    ensures !LexLess(a, b)
  {
    if a != "" && b != "" && a[0] == b[0] {
      NotBoth(a[1..], b[1..]);
    }
  }

  /** An identifier has 26 characters, ten of them for a time of at most 48 bits. */
  lemma IdentifierShape(timeMs: real, bytes: seq<byte>)
    requires |bytes| == RANDOM_LEN
    ensures RANDOM_LEN == 16 && (InRange(timeMs) <==> 0.0 <= timeMs <= 281_474_976_710_655.0)
    ensures InRange(timeMs) ==> |Text(timeMs, bytes)| == 26
  {
  }
}
