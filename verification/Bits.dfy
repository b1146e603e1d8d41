/** Powers of two, shifts, and JavaScript's 32-bit bitwise operators, on integers. */
module Bits {

  function Pow2(n: nat): (p: nat)
    ensures p > 0
  {
    if n == 0 then 1 else 2 * Pow2(n - 1)
  }

  function Shr(x: nat, k: nat): (r: nat)
    decreases k, x
  {
    if k == 0 then x else Shr(x / 2, k - 1)
  }

  function Shl(x: nat, k: nat): (r: nat)
    decreases k, x
  {
    if k == 0 then x else 2 * Shl(x, k - 1)
  }

  /** The low `n` bits. */
  function Low(x: nat, n: nat): (r: nat)
    decreases n, x
  {
    if n == 0 then 0 else x % 2 + 2 * Low(x / 2, n - 1)
  }

  const WORD: nat := 0x1_0000_0000

  function ToUint32(x: int): (u: nat)
    ensures u < WORD
  {
    x % 0x1_0000_0000
  }

  function ToInt32(x: int): (s: int)
    ensures -0x8000_0000 <= s < 0x8000_0000
    ensures ToUint32(s) == ToUint32(x)
  {
    if ToUint32(x) < 0x8000_0000 then ToUint32(x) else ToUint32(x) - 0x1_0000_0000
  }

  function BitAnd(a: nat, b: nat): (r: nat) {
    if a == 0 || b == 0 then 0 else (if a % 2 == 1 && b % 2 == 1 then 1 else 0) + 2 * BitAnd(a / 2, b / 2)
  }

  function BitOr(a: nat, b: nat): (r: nat)
    decreases a + b
  {
    if a == 0 && b == 0 then 0 else (if a % 2 == 1 || b % 2 == 1 then 1 else 0) + 2 * BitOr(a / 2, b / 2)
  }

  /** Shifting right with the sign: rounding down. */
  function SignedShr(v: int, k: nat): int {
    if v >= 0 then Shr(v, k) else -1 - Shr(-1 - v, k)
  }

  // `&`, `|`, `~`, `<<`, `>>` and `>>> 0` as the language defines them on numbers
  function JsAnd(a: int, b: int): int { ToInt32(BitAnd(ToUint32(a), ToUint32(b))) }
  function JsOr(a: int, b: int): int { ToInt32(BitOr(ToUint32(a), ToUint32(b))) }
  function JsNot(a: int): int { ToInt32(-1 - a) }
  function JsShl(a: int, n: nat): int { ToInt32(Shl(ToUint32(a), n % 32)) }
  function JsShr(a: int, n: nat): int { SignedShr(ToInt32(a), n % 32) }
  function JsUnsigned(a: int): nat { ToUint32(a) }

  // ---- masks ----------------------------------------------------------------------------------------

  lemma {:induction false} AndCommutes(a: nat, b: nat)
    ensures BitAnd(a, b) == BitAnd(b, a)
  {
    if a > 0 && b > 0 {
      AndCommutes(a / 2, b / 2);
    }
  }

  /** Masking with the low `n` bits keeps them. */
  lemma {:induction false} LowMask(x: nat, n: nat)
    ensures BitAnd(x, Pow2(n) - 1) == Low(x, n)
    decreases n
  {
    if n > 0 {
      LowMask(x / 2, n - 1);
      OneBit(x, Pow2(n) - 1, Pow2(n - 1) - 1);
    }
  }

  lemma OneBit(x: nat, mask: nat, half: nat)
    requires mask == 2 * half + 1
    ensures BitAnd(x, mask) == x % 2 + 2 * BitAnd(x / 2, half)
  {
    assert mask / 2 == half && mask % 2 == 1;
  }

  lemma {:induction false} ShlOfZero(k: nat)
    ensures Shl(0, k) == 0 && Shr(0, k) == 0
  {
    if k > 0 {
      ShlOfZero(k - 1);
    }
  }

  /** Masking with the bits from `k` up to `n` clears those below `k`. */
  lemma {:induction false} HighMask(x: nat, n: nat, k: nat)
    requires k <= n && x < Pow2(n)
    ensures Pow2(k) <= Pow2(n)
    ensures BitAnd(x, Pow2(n) - Pow2(k)) == Shl(Shr(x, k), k)
    decreases n
  {
    if k == 0 {
      LowMask(x, n);
      LowKeepsSmall(x, n);
    } else {
      HighMask(x / 2, n - 1, k - 1);
      if x == 0 {
        ShlOfZero(k);
      }
    }
  }

  lemma {:induction false} LowKeepsSmall(x: nat, n: nat)
    requires x < Pow2(n)
    ensures Low(x, n) == x
    decreases n
  {
    if n > 0 {
      LowKeepsSmall(x / 2, n - 1);
    }
  }

  /** Bits put below a shifted number add to it. */
  lemma {:induction false} OrBelow(a: nat, b: nat, k: nat)
    requires b < Pow2(k)
    ensures BitOr(Shl(a, k), b) == Shl(a, k) + b
    decreases k
  {
    if k == 0 {
      OrZero(a);
    } else {
      OrBelow(a, b / 2, k - 1);
    }
  }

  lemma {:induction false} OrZero(a: nat)
    ensures BitOr(a, 0) == a
  {
    if a > 0 {
      OrZero(a / 2);
    }
  }

  // ---- shifts ---------------------------------------------------------------------------------------

  lemma {:induction false} ShlInjective(a: nat, b: nat, k: nat)
    ensures Shl(a, k) == Shl(b, k) <==> a == b
    decreases k
  {
    if k > 0 {
      ShlInjective(a, b, k - 1);
    }
  }

  lemma {:induction false} ShrAdds(x: nat, a: nat, b: nat)
    ensures Shr(x, a + b) == Shr(Shr(x, a), b)
    decreases a
  {
    if a > 0 {
      ShrAdds(x / 2, a - 1, b);
    }
  }

  lemma {:induction false} ShrSmall(x: nat, k: nat)
    requires x < Pow2(k)
    ensures Shr(x, k) == 0
    decreases k
  {
    if k > 0 {
      ShrSmall(x / 2, k - 1);
    }
  }

  /** Shifting right past a split: the high part moves down, the low part loses its bits. */
  lemma {:induction false} ShrSplit(h: nat, l: nat, m: nat, k: nat)
    requires k <= m
    ensures Shr(Shl(h, m) + l, k) == Shl(h, m - k) + Shr(l, k)
    decreases k
  {
    if k > 0 {
      ShrSplit(h, l / 2, m - 1, k - 1);
    }
  }

  /** A right shift is the quotient by the power of two. */
  lemma {:induction false} ShrIsQuotient(x: nat, k: nat)
    ensures Shr(x, k) == x / Pow2(k)
    decreases k
  {
    if k > 0 {
      ShrIsQuotient(x / 2, k - 1);
      HalfThenQuotient(x, Pow2(k - 1));
    }
  }

  lemma HalfThenQuotient(x: nat, m: nat)
    requires m > 0
    ensures x / (2 * m) == (x / 2) / m
  {
    var q, r := (x / 2) / m, (x / 2) % m;
    assert x / 2 == q * m + r;
    assert x == q * (2 * m) + (2 * r + x % 2);
    QuotientIs(x, 2 * m, q, 2 * r + x % 2);
  }

  lemma QuotientIs(x: nat, d: nat, q: nat, r: nat)
    requires d > 0 && r < d && x == q * d + r
    ensures x / d == q
  {
    var k: int := q - x / d;
    assert k * d == q * d - x / d * d;
    OnlyZeroFits(k, d);
  }

  lemma OnlyZeroFits(k: int, d: int)
    requires d > 0 && -d < k * d < d
    ensures k == 0
  {
    ProductAtLeast(k, d);
  }

  lemma ProductAtLeast(k: int, d: int)
    requires d > 0
    ensures k >= 1 ==> k * d >= d
    ensures k <= -1 ==> k * d <= -d
  {
    if k >= 1 {
      assert (k - 1) * d >= 0;
    } else if k <= -1 {
      assert (-1 - k) * d >= 0;
    }
  }

  // ---- powers and products --------------------------------------------------------------------------

  lemma PowersOfTwo()
    ensures Pow2(8) == 256 && Pow2(16) == 0x1_0000 && Pow2(31) == 0x8000_0000 && Pow2(32) == WORD
  {
    assert Pow2(4) == 16;
    assert Pow2(8) == 256;
    assert Pow2(12) == 4096;
    assert Pow2(16) == 0x1_0000;
    assert Pow2(20) == 0x10_0000;
    assert Pow2(24) == 0x100_0000;
    assert Pow2(28) == 0x1000_0000;
    assert Pow2(31) == 0x8000_0000;
  }

  lemma {:induction false} Pow2Grows(a: nat, b: nat)
    requires a <= b
    ensures Pow2(a) <= Pow2(b)
  {
    if a < b {
      Pow2Grows(a, b - 1);
    }
  }

  lemma {:induction false} ShlIsProduct(x: nat, k: nat)
    ensures Shl(x, k) == x * Pow2(k)
    decreases k
  {
    if k > 0 {
      ShlIsProduct(x, k - 1);
      ShlDoubles(x, k - 1);
      TwiceProduct(x, Pow2(k - 1));
    }
  }

  lemma ShlDoubles(x: nat, k: nat)
    ensures Shl(x, k + 1) == 2 * Shl(x, k) && Pow2(k + 1) == 2 * Pow2(k)
  {
  }

  lemma TwiceProduct(x: nat, p: nat)
    ensures x * (2 * p) == 2 * (x * p)
  {
  }

  /** `j` ones moved up by `k`. */
  lemma {:induction false} ShlOfOnes(j: nat, k: nat)
    ensures Shl(Pow2(j) - 1, k) == Pow2(j + k) - Pow2(k)
    decreases k
  {
    if k > 0 {
      ShlOfOnes(j, k - 1);
    }
  }

  /** Moving up by `k` and keeping `n` low bits keeps `n - k` of the original. */
  lemma {:induction false} LowOfShl(x: nat, k: nat, n: nat)
    requires k <= n
    ensures Low(Shl(x, k), n) == Shl(Low(x, n - k), k)
    decreases k
  {
    if k > 0 {
      LowOfShl(x, k - 1, n - 1);
    }
  }

  lemma {:induction false} LowOfOnes(m: nat, n: nat)
    requires m <= n
    ensures Low(Pow2(n) - 1, m) == Pow2(m) - 1
    decreases m
  {
    if m > 0 {
      LowOfOnes(m - 1, n - 1);
      assert Pow2(n) - 1 == 2 * (Pow2(n - 1) - 1) + 1;
    }
  }

  /** The low `n` bits are the remainder by the power of two. */
  lemma {:induction false} LowIsRemainder(x: nat, n: nat)
    ensures Low(x, n) == x % Pow2(n)
    decreases n
  {
    if n > 0 {
      LowIsRemainder(x / 2, n - 1);
      HalfThenRemainder(x, Pow2(n - 1));
    }
  }

  lemma HalfThenRemainder(x: nat, m: nat)
    requires m > 0
    ensures x % (2 * m) == x % 2 + 2 * (x / 2 % m)
  {
    var q, r := (x / 2) / m, (x / 2) % m;
    assert x / 2 == q * m + r;
    assert x == q * (2 * m) + (2 * r + x % 2);
    QuotientIs(x, 2 * m, q, 2 * r + x % 2);
  }
}
