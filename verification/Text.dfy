/** Splitting and joining text, and decimal numerals. */
module Text {

  /** The pieces of `s` between the separators: always at least one. */
  function Split(s: string, sep: char): (parts: seq<string>)
    ensures |parts| >= 1
  {
    if s == "" then [""]
    else
      var rest := Split(s[1..], sep);
      if s[0] == sep then [""] + rest else [[s[0]] + rest[0]] + rest[1..]
  }

  function Join(parts: seq<string>, sep: char): string {
    if parts == [] then "" else if |parts| == 1 then parts[0] else parts[0] + [sep] + Join(parts[1..], sep)
  }

  ghost predicate Without(s: string, c: char) {
    c !in s
  }

  ghost predicate AllWithout(parts: seq<string>, sep: char) {
    forall i | 0 <= i < |parts| :: Without(parts[i], sep)
  }

  lemma {:induction false} JoinOfSplit(s: string, sep: char)
    ensures Join(Split(s, sep), sep) == s
    ensures AllWithout(Split(s, sep), sep)
  {
    if s != "" {
      JoinOfSplit(s[1..], sep);
      var rest := Split(s[1..], sep);
      assert s == [s[0]] + s[1..];
      if s[0] == sep {
        assert ([""] + rest)[1..] == rest;
        assert "" + [sep] + s[1..] == s;
      } else {
        var parts := Split(s, sep);
        assert parts == [[s[0]] + rest[0]] + rest[1..];
        assert parts[1..] == rest[1..];
        JoinWithLongerHead(s[0], rest, sep);
      }
    }
  }

  lemma JoinWithLongerHead(c: char, parts: seq<string>, sep: char)
    requires |parts| >= 1
    ensures Join([[c] + parts[0]] + parts[1..], sep) == [c] + Join(parts, sep)
  {
    assert ([[c] + parts[0]] + parts[1..])[1..] == parts[1..];
    if |parts| > 1 {
      assert [c] + parts[0] + [sep] + Join(parts[1..], sep) == [c] + (parts[0] + [sep] + Join(parts[1..], sep));
    }
  }

  lemma {:induction false} SplitOne(s: string, sep: char)
    requires Without(s, sep)
    ensures Split(s, sep) == [s]
  {
    if s != "" {
      SplitOne(s[1..], sep);
      assert [s[0]] + s[1..] == s;
    }
  }

  lemma {:induction false} SplitAtSeparator(head: string, tail: string, sep: char)
    requires Without(head, sep)
    ensures Split(head + [sep] + tail, sep) == [head] + Split(tail, sep)
  {
    var s := head + [sep] + tail;
    if head == "" {
      assert s[1..] == tail;
    } else {
      SplitAtSeparator(head[1..], tail, sep);
      assert s[1..] == head[1..] + [sep] + tail;
      assert [head[0]] + head[1..] == head;
    }
  }

  lemma {:induction false} SplitOfJoin(parts: seq<string>, sep: char)
    requires |parts| >= 1 && AllWithout(parts, sep)
    ensures Split(Join(parts, sep), sep) == parts
  {
    if |parts| == 1 {
      SplitOne(parts[0], sep);
    } else {
      assert AllWithout(parts[1..], sep);
      SplitOfJoin(parts[1..], sep);
      SplitAtSeparator(parts[0], Join(parts[1..], sep), sep);
    }
  }

  lemma {:induction false} JoinWithout(parts: seq<string>, sep: char, c: char)
    requires AllWithout(parts, c) && c != sep
    ensures Without(Join(parts, sep), c)
  {
    if |parts| > 1 {
      assert AllWithout(parts[1..], c);
      JoinWithout(parts[1..], sep, c);
    } else if |parts| == 1 {
      assert Without(parts[0], c);
    }
  }

  // ---- searching ------------------------------------------------------------------------------------

  predicate OccursAt(s: string, p: string, i: nat) {
    i + |p| <= |s| && s[i..i + |p|] == p
  }

  /** The first occurrence of `p` in `s` at or after `from`, or -1. */
  function IndexFrom(s: string, p: string, from: nat): (i: int)
    requires from <= |s|
    ensures -1 <= i <= |s|
    ensures i >= 0 ==> from <= i && OccursAt(s, p, i)
    decreases |s| - from
  {
    if OccursAt(s, p, from) then from else if from == |s| then -1 else IndexFrom(s, p, from + 1)
  }

  function IndexOf(s: string, p: string): (i: int)
    ensures -1 <= i <= |s|
    ensures i >= 0 ==> OccursAt(s, p, i)
  {
    IndexFrom(s, p, 0)
  }

  /** Nothing occurs before the first occurrence, nor anywhere without one. */
  lemma {:induction false} NoneEarlier(s: string, p: string, from: nat, j: nat)
    requires from <= j && from <= |s| && (IndexFrom(s, p, from) == -1 || j < IndexFrom(s, p, from))
    ensures !OccursAt(s, p, j)
    decreases |s| - from
  {
    if j > from && from < |s| {
      NoneEarlier(s, p, from + 1, j);
    } else if j > |s| {
    }
  }

  lemma FirstIs(s: string, p: string, i: nat)
    requires OccursAt(s, p, i) && forall j: nat | j < i :: !OccursAt(s, p, j)
    ensures IndexOf(s, p) == i
  {
    var f := IndexOf(s, p);
    if f == -1 || i < f {
      NoneEarlier(s, p, 0, i);
    }
  }

  lemma FirstIsNone(s: string, p: string)
    requires forall j: nat :: !OccursAt(s, p, j)
    ensures IndexOf(s, p) == -1
  {
  }

  // ---- decimal numerals -----------------------------------------------------------------------------

  predicate IsDigit(c: char) {
    '0' <= c <= '9'
  }

  function DigitValue(c: char): (d: nat)
    requires IsDigit(c)
    ensures d < 10
  {
    c as int - '0' as int
  }

  function DigitChar(d: nat): (c: char)
    requires d < 10
    ensures IsDigit(c) && DigitValue(c) == d
  {
    (d + '0' as int) as char
  }

  predicate AllDigits(s: string) {
    forall i | 0 <= i < |s| :: IsDigit(s[i])
  }

  /** The number a string of digits spells. */
  function DecimalValue(s: string): nat
    requires AllDigits(s)
  {
    if s == "" then 0 else 10 * DecimalValue(s[..|s| - 1]) + DigitValue(s[|s| - 1])
  }

  /** The numeral without leading zeros. */
  function Decimal(n: nat): (s: string)
    ensures |s| >= 1 && AllDigits(s)
  {
    if n < 10 then [DigitChar(n)] else Decimal(n / 10) + [DigitChar(n % 10)]
  }

  lemma {:induction false} ValueOfDecimal(n: nat)
    ensures DecimalValue(Decimal(n)) == n
    ensures |Decimal(n)| > 1 ==> Decimal(n)[0] != '0'
  {
    if n >= 10 {
      ValueOfDecimal(n / 10);
      var s := Decimal(n);
      assert s[..|s| - 1] == Decimal(n / 10);
      if n / 10 < 10 {
        assert DigitValue(s[0]) == n / 10;
      }
    } else {
      assert Decimal(n)[..0] == "";
    }
  }

  /** Digits without a superfluous leading zero are the numeral of their value. */
  lemma {:induction false} DecimalOfValue(s: string)
    requires |s| >= 1 && AllDigits(s) && (|s| > 1 ==> s[0] != '0')
    ensures Decimal(DecimalValue(s)) == s
    ensures |s| > 1 ==> DecimalValue(s) >= 10
  {
    var init := s[..|s| - 1];
    assert s == init + [s[|s| - 1]];
    if |s| == 1 {
      assert DecimalValue(init) == 0;
    } else {
      DecimalOfValue(init);
      if |init| == 1 {
        assert init[..0] == "" && DigitValue(init[0]) > 0;
      }
    }
  }

  // ---- hexadecimal numerals -------------------------------------------------------------------------

  predicate IsHex(c: char) {
    '0' <= c <= '9' || 'a' <= c <= 'f' || 'A' <= c <= 'F'
  }

  function HexDigit(c: char): (d: nat)
    requires IsHex(c)
    ensures d < 16
  {
    if c <= '9' then c as int - '0' as int
    else if c <= 'F' then c as int - 'A' as int + 10
    else c as int - 'a' as int + 10
  }

  function HexValue(t: string): nat
    requires forall i | 0 <= i < |t| :: IsHex(t[i])
  {
    if t == "" then 0 else 16 * HexValue(t[..|t| - 1]) + HexDigit(t[|t| - 1])
  }

  /** The digits count from zero to fifteen, the letters in either case. */
  lemma HexDigitsCount(c: char, d: nat)
    requires d < 16
    ensures IsHex(c) && HexDigit(c) == d <==> c == "0123456789abcdef"[d] || c == "0123456789ABCDEF"[d]
  {
  }
}
