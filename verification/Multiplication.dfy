/**
 * Multiplication by half words: __mulddi3, __multi3 and the overflow-detecting __muloXi4. A word has 2h
 * bits and two digits of h bits; the source has h = 32.
 */
module Multiplication {
  import opened Arith
  import opened Bits
  import opened DoubleDivision
  import opened TwoWordDivision
  import opened SignedDivision

  /** A digit product with a carried digit fits a word. */
  lemma DigitProduct(x: nat, y: nat, c: nat, b: nat)
    requires x < b && y < b && c < b
    ensures 0 <= x * y + c < b * b
  {
    MulMono(x, b - 1, y);
    MulMono(y, b - 1, b - 1);
    assert (b - 1) * (b - 1) == b * b - 2 * b + 1;
    assert (b - 1) * y == y * (b - 1);
    MulNonNeg(x, y);
  }

  /** The four digit products, with their carries, add up to the product of the words. */
  lemma SchoolProduct(a1: nat, a0: nat, b1: nat, b0: nat, b: nat, x1: nat, x0: nat, y1: nat, y0: nat, z1: nat, z0: nat)
    requires a0 * b0 == x1 * b + x0
    requires a1 * b0 + x1 == y1 * b + y0
    requires b1 * a0 + y0 == z1 * b + z0
    ensures (a1 * b + a0) * (b1 * b + b0) == (y1 + z1 + a1 * b1) * (b * b) + (z0 * b + x0)
  {
    calc {
      (a1 * b + a0) * (b1 * b + b0);
      { Expand(a1, a0, b1, b0, b); }
      a1 * b1 * (b * b) + (a1 * b0 + b1 * a0) * b + a0 * b0;
      { assert (a1 * b0 + b1 * a0) * b == (y1 * b + y0 - x1 + z1 * b + z0 - y0) * b; }
      a1 * b1 * (b * b) + (y1 * b + z1 * b + z0 - x1) * b + x1 * b + x0;
      { assert (y1 * b + z1 * b + z0 - x1) * b == (y1 + z1) * (b * b) + z0 * b - x1 * b; }
      a1 * b1 * (b * b) + (y1 + z1) * (b * b) + z0 * b + x0;
      { assert (y1 + z1 + a1 * b1) * (b * b) == a1 * b1 * (b * b) + (y1 + z1) * (b * b); }
      (y1 + z1 + a1 * b1) * (b * b) + (z0 * b + x0);
    }
  }

  lemma Expand(a1: nat, a0: nat, b1: nat, b0: nat, b: nat)
    ensures (a1 * b + a0) * (b1 * b + b0) == a1 * b1 * (b * b) + (a1 * b0 + b1 * a0) * b + a0 * b0
  {
    assert a1 * b * (b1 * b) == a1 * b1 * (b * b);
    assert a1 * b * b0 == a1 * b0 * b && a0 * (b1 * b) == b1 * a0 * b;
    assert (a1 * b + a0) * (b1 * b + b0) == a1 * b * (b1 * b) + a1 * b * b0 + a0 * (b1 * b) + a0 * b0;
  }

  /** Low digit replaced: the word x0 + (y0 << h), its high and its low digit. */
  lemma PlaceDigit(x0: nat, y0: nat, h: nat)
    requires x0 < Pow2(h) && y0 < Pow2(h)
    ensures Shl(y0, h, 2 * h) == y0 * Pow2(h)
    ensures 0 <= x0 + y0 * Pow2(h) < Pow2(2 * h)
    ensures (x0 + y0 * Pow2(h)) % Pow2(2 * h) == x0 + y0 * Pow2(h)
    ensures Shr(x0 + y0 * Pow2(h), h) == y0 && And(x0 + y0 * Pow2(h), Pow2(h) - 1) == x0
  {
    ShlMultiple(y0, h, 2 * h);
    assert 2 * h - h == h;
    ModSmall(y0, Pow2(h));
    Pow2Square(h);
    PairArithmetic(y0, x0, Pow2(h));
    ModSmall(x0 + y0 * Pow2(h), Pow2(2 * h));
    AndMask(x0 + y0 * Pow2(h), h);
  }

  /** A digit product plus a carried digit, computed in a word: exact, with two digits. */
  lemma ProductDigits(x: nat, y: nat, c: nat, h: nat)
    requires x < Pow2(h) && y < Pow2(h) && c < Pow2(h)
    ensures 0 <= x * y
    ensures (c + x * y) % Pow2(2 * h) == x * y + c < Pow2(2 * h)
  {
    var m, p := Pow2(2 * h), x * y;
    assert 0 <= p && p + c < m by {
      Pow2Square(h);
      DigitProduct(x, y, c, Pow2(h));
      MulNonNeg(x, y);
    }
    ModSmall(c + p, m);
  }

  /** The high half of an exact product fits its word. */
  lemma HighHalfFits(a: nat, c: nat, m: nat, hi: nat, lo: nat)
    requires a < m && c < m && a * c == hi * m + lo
    ensures hi < m
  {
    MulMono(a, m - 1, c);
    MulMono(c, m - 1, m - 1);
    assert (m - 1) * c == c * (m - 1);
    assert (m - 1) * (m - 1) == m * m - 2 * m + 1;
    if hi >= m {
      MulMono(m, hi, m);
    }
  }

  /** Marks the sums that a proof looks into. */
  ghost predicate Summed(high: nat, low: nat, i: int)
  {
    true
  }

  /** Two digits that make up x * y + t in base b. */
  ghost predicate Adds(high: nat, low: nat, x: nat, y: nat, t: nat, b: nat)
  {
    forall i: int {:trigger Summed(high, low, i)} :: Summed(high, low, i) ==> high * b + low == x * y + t
  }

  /** __mulddi3: the exact double-word product of two words; no partial sum wraps. */
  method MulWords(a: nat, c: nat, h: nat) returns (hi: nat, lo: nat)
    requires a < Pow2(2 * h) && c < Pow2(2 * h)
    ensures hi < Pow2(2 * h) && lo < Pow2(2 * h)
    ensures hi * Pow2(2 * h) + lo == a * c
  {
    var mask := Pow2(h) - 1;
    WordDigits(a, h);
    WordDigits(c, h);
    var a1, a0, c1, c0 := Shr(a, h), And(a, mask), Shr(c, h), And(c, mask);
    var x1, x0 := AddProduct(0, a0, c0, h);
    var y1, y0 := AddProduct(x1, a1, c0, h);
    lo := AddHighDigit(x0, y0, h);
    var t := Shr(lo, h);
    lo := And(lo, mask);
    var z1, z0 := AddProduct(t, c1, a0, h);
    lo := AddHighDigit(lo, z0, h);
    hi := HighSum(a, c, h, x1, x0, y1, y0, z1, z0);
  }

  /** The high word: y1, then += z1, then += a1 * c1. */
  method HighSum(a: nat, c: nat, h: nat, ghost x1: nat, ghost x0: nat, y1: nat, ghost y0: nat, z1: nat, ghost z0: nat)
    returns (hi: nat)
    requires a < Pow2(2 * h) && c < Pow2(2 * h) && x0 < Pow2(h) && z0 < Pow2(h)
    requires Adds(x1, x0, And(a, Pow2(h) - 1), And(c, Pow2(h) - 1), 0, Pow2(h))
    requires Adds(y1, y0, Shr(a, h), And(c, Pow2(h) - 1), x1, Pow2(h))
    requires Adds(z1, z0, Shr(c, h), And(a, Pow2(h) - 1), y0, Pow2(h))
    ensures hi < Pow2(2 * h) && hi * Pow2(2 * h) + (x0 + z0 * Pow2(h)) == a * c
  {
    var m, a1, c1 := Pow2(2 * h), Shr(a, h), Shr(c, h);
    MulNonNeg(a1, c1);
    hi := y1;
    hi := (hi + z1) % m;
    hi := (hi + a1 * c1) % m;
    SumOfDigits(a, c, h, x1, x0, y1, y0, z1, z0);
  }

  /** lo += y << h, on a word that has no high digit yet. */
  method AddHighDigit(lo: nat, y: nat, h: nat) returns (r: nat)
    requires lo < Pow2(h) && y < Pow2(h)
    ensures r == lo + y * Pow2(h) < Pow2(2 * h)
    ensures Shr(r, h) == y && And(r, Pow2(h) - 1) == lo
  {
    PlaceDigit(lo, y, h);
    r := (lo + Shl(y, h, 2 * h)) % Pow2(2 * h);
  }

  /** t += x * y on a word, split into its two digits; this is done three times. */
  method AddProduct(t: nat, x: nat, y: nat, h: nat) returns (high: nat, low: nat)
    requires x < Pow2(h) && y < Pow2(h) && t < Pow2(h)
    ensures high < Pow2(h) && low < Pow2(h) && Adds(high, low, x, y, t, Pow2(h))
  {
    ProductDigits(x, y, t, h);
    var sum: nat := (t + x * y) % Pow2(2 * h);
    WordDigits(sum, h);
    high, low := Shr(sum, h), And(sum, Pow2(h) - 1);
  }

  /** The two words that the last three statements of __mulddi3 assemble. */
  lemma SumOfDigits(a: nat, c: nat, h: nat, x1: nat, x0: nat, y1: nat, y0: nat, z1: nat, z0: nat)
    requires a < Pow2(2 * h) && c < Pow2(2 * h) && x0 < Pow2(h) && z0 < Pow2(h)
    requires Adds(x1, x0, And(a, Pow2(h) - 1), And(c, Pow2(h) - 1), 0, Pow2(h))
    requires Adds(y1, y0, Shr(a, h), And(c, Pow2(h) - 1), x1, Pow2(h))
    requires Adds(z1, z0, Shr(c, h), And(a, Pow2(h) - 1), y0, Pow2(h))
    ensures var m := Pow2(2 * h);
            var hi := y1 + z1 + Shr(a, h) * Shr(c, h);
            && ((y1 + z1) % m + Shr(a, h) * Shr(c, h)) % m == hi < m
            && hi * m + (x0 + z0 * Pow2(h)) == a * c
  {
    assert Summed(x1, x0, 0) && Summed(y1, y0, 0) && Summed(z1, z0, 0);
    var m, b := Pow2(2 * h), Pow2(h);
    WordDigits(a, h);
    WordDigits(c, h);
    Pow2Square(h);
    HighWord(a, c, m, b, Shr(a, h), And(a, b - 1), Shr(c, h), And(c, b - 1), x1, x0, y1, y0, z1, z0);
  }

  lemma HighWord(a: nat, c: nat, m: nat, b: nat, a1: nat, a0: nat, c1: nat, c0: nat,
                 x1: nat, x0: nat, y1: nat, y0: nat, z1: nat, z0: nat)
    requires m == b * b && a == a1 * b + a0 && c == c1 * b + c0 && a < m && c < m
    requires a0 * c0 == x1 * b + x0 && a1 * c0 + x1 == y1 * b + y0 && c1 * a0 + y0 == z1 * b + z0
    ensures var hi := y1 + z1 + a1 * c1;
            ((y1 + z1) % m + a1 * c1) % m == hi < m && hi * m + (x0 + z0 * b) == a * c
  {
    SchoolProduct(a1, a0, c1, c0, b, x1, x0, y1, y0, z1, z0);
    MulNonNeg(a1, c1);
    MulNonNeg(z0, b);
    HighSums(a, c, m, y1 + z1, a1 * c1, x0 + z0 * b);
  }

  lemma HighSums(a: nat, c: nat, m: nat, carries: nat, product: nat, low: nat)
    requires a < m && c < m && a * c == (carries + product) * m + low
    ensures (carries % m + product) % m == carries + product < m
  {
    HighHalfFits(a, c, m, carries + product, low);
    ModSmall(carries, m);
    ModSmall(carries + product, m);
  }

  /** Adding the cross products into the high word gives the product modulo the double word. */
  lemma CrossProducts(xh: nat, xl: nat, yh: nat, yl: nat, m: nat, hi: nat, lo: nat)
    requires m > 0 && lo < m && hi * m + lo == xl * yl
    ensures m * m > 0
    ensures ((hi + (xh * yl + xl * yh)) % m) * m + lo == ((xh * m + xl) * (yh * m + yl)) % (m * m)
  {
    var s := hi + (xh * yl + xl * yh);
    var k, r := s / m, s % m;
    DivIdentity(s, m);
    Expand(xh, xl, yh, yl, m);
    assert xl * yh == yh * xl;
    CarryHigh(xh * yh, xh * yl + yh * xl, hi, k, r, m);
    PairArithmetic(r, lo, m);
    DivModUnique((xh * m + xl) * (yh * m + yl), m * m, xh * yh + k, r * m + lo);
  }

  lemma CarryHigh(high: int, cross: int, hi: int, k: int, r: int, m: nat)
    requires hi + cross == k * m + r
    ensures high * (m * m) + cross * m + hi * m == (high + k) * (m * m) + r * m
  {
    assert (hi + cross) * m == cross * m + hi * m;
    assert (k * m + r) * m == k * (m * m) + r * m;
    assert (high + k) * (m * m) == high * (m * m) + k * (m * m);
  }

  /** The product of two patterns is congruent to the product of the signed values. */
  lemma PatternProduct(a: int, c: int, m: nat)
    requires m > 0
    ensures ((a % m) * (c % m)) % m == (a * c) % m
  {
    var i, j, x, y := a / m, c / m, a % m, c % m;
    DivIdentity(a, m);
    DivIdentity(c, m);
    assert a * c == x * y + (i * (j * m) + i * y + x * j) * m by {
      assert (i * m + x) * (j * m + y) == i * m * (j * m) + i * m * y + x * (j * m) + x * y;
      assert i * m * (j * m) == i * (j * m) * m && i * m * y == i * y * m && x * (j * m) == x * j * m;
    }
    ModEqual(a * c, x * y, i * (j * m) + i * y + x * j, m);
  }

  /** __multi3: the product of two signed double words, modulo the double word. */
  method MulDouble(a: int, c: int, h: nat) returns (r: int)
    requires h >= 1 && InRange(a, 4 * h) && InRange(c, 4 * h)
    ensures r == Signed((a * c) % Pow2(4 * h), 4 * h)
  {
    var w := 2 * h;
    assert 2 * w == 4 * h;
    var x, y := Pattern(a, 4 * h), Pattern(c, 4 * h);
    Halves(x, w);
    Halves(y, w);
    var hi, lo := MulWords(Low(x, w), Low(y, w), h);
    Pow2Square(w);
    CrossProducts(High(x, w), Low(x, w), High(y, w), Low(y, w), Pow2(w), hi, lo);
    PatternProduct(a, c, Pow2(4 * h));
    hi := (hi + (High(x, w) * Low(y, w) + Low(x, w) * High(y, w))) % Pow2(w);
    r := Signed(Join(hi, lo, w), 4 * h);
  }

  /** C's division, truncating toward zero. */
  function CDiv(a: int, b: int): (q: int)
    requires b != 0
  {
    if (a < 0) != (b < 0) then 0 - Abs(a) / Abs(b) else Abs(a) / Abs(b)
  }

  /** abs_a > limit / abs_b decides whether the product of the magnitudes passes the limit. */
  lemma QuotientTest(x: nat, y: nat, limit: nat)
    requires y > 0
    ensures x > limit / y <==> x * y > limit
  {
    DivIdentity(limit, y);
    if x > limit / y {
      MulMono(limit / y + 1, x, y);
      assert (limit / y + 1) * y == (limit / y) * y + y;
    } else {
      MulMono(x, limit / y, y);
    }
  }

  /** The sign and the magnitude of a product, against the asymmetric range. */
  lemma ProductRange(a: int, b: int, n: nat)
    requires n >= 1 && a != 0 && b != 0
    ensures a * b != 0
    ensures (a < 0) == (b < 0) ==> (InRange(a * b, n) <==> Abs(a) * Abs(b) <= Pow2(n - 1) - 1)
    ensures (a < 0) != (b < 0) ==> (InRange(a * b, n) <==> Abs(a) * Abs(b) <= Pow2(n - 1))
  {
    MulMono(1, Abs(a), Abs(b));
    if (a < 0) == (b < 0) {
      assert a * b == Abs(a) * Abs(b);
    } else {
      assert a * b == 0 - Abs(a) * Abs(b);
    }
  }

  /** The minimum times anything but 0 and 1 is out of range. */
  lemma MinProduct(b: int, n: nat)
    requires n >= 1
    ensures InRange(Min(n) * b, n) <==> b == 0 || b == 1
  {
    if b >= 2 {
      MulMono(2, b, Pow2(n - 1));
      assert Min(n) * b == 0 - b * Pow2(n - 1);
    } else if b < 0 {
      MulMono(1, -b, Pow2(n - 1));
      assert Min(n) * b == -b * Pow2(n - 1);
    }
  }

  lemma SmallProduct(a: int, b: int, n: nat)
    requires InRange(a, n) && InRange(b, n) && a != Min(n) && b != Min(n) && (Abs(a) < 2 || Abs(b) < 2)
    ensures InRange(a * b, n)
  {
    if Abs(a) < 2 {
      assert a == 0 || a == 1 || a == -1;
      assert a * b == if a == 0 then 0 else if a == 1 then b else -b;
    } else {
      assert b == 0 || b == 1 || b == -1;
      assert a * b == if b == 0 then 0 else if b == 1 then a else -a;
    }
  }

  /**
   * __muloXi4 at any width: the wrapped product, and a flag that is set if and only if the true product
   * is out of range.
   */
  method MulOverflow(a: int, b: int, n: nat) returns (result: int, overflow: bool)
    requires InRange(a, n) && InRange(b, n)
    ensures result == Signed((a * b) % Pow2(n), n)
    ensures overflow <==> !InRange(a * b, n)
  {
    result := Signed((Pattern(a, n) * Pattern(b, n)) % Pow2(n), n);
    PatternProduct(a, b, Pow2(n));
    overflow := Overflows(a, b, n);
  }

  /** The tests that follow the product. */
  method Overflows(a: int, b: int, n: nat) returns (overflow: bool)
    requires InRange(a, n) && InRange(b, n)
    ensures overflow <==> !InRange(a * b, n)
  {
    var min, max := Min(n), Pow2(n - 1) - 1;
    overflow := false;
    if a == min {
      MinProduct(b, n);
      if b != 0 && b != 1 {
        overflow := true;
      }
      return;
    }
    if b == min {
      MinProduct(a, n);
      assert a * b == b * a;
      if a != 0 && a != 1 {
        overflow := true;
      }
      return;
    }
    var sa, sb := SignMask(Pattern(a, n), n), SignMask(Pattern(b, n), n);
    var absA: int := ConditionalNegate(Pattern(a, n), sa, n);
    var absB: int := ConditionalNegate(Pattern(b, n), sb, n);
    Magnitude(a, n);
    Magnitude(b, n);
    if absA < 2 || absB < 2 {
      SmallProduct(a, b, n);
      return;
    }
    OverflowTest(a, b, n);
    if sa == sb {
      overflow := absA > CDiv(max, absB);
    } else {
      overflow := absA > CDiv(min, 0 - absB);
    }
  }

  /** The comparison that decides overflow for magnitudes of at least 2. */
  lemma OverflowTest(a: int, b: int, n: nat)
    requires InRange(a, n) && InRange(b, n) && Abs(a) >= 2 && Abs(b) >= 2
    ensures var sa, sb := SignMask(Pattern(a, n), n), SignMask(Pattern(b, n), n);
            && (sa == sb ==> (Abs(a) > CDiv(Pow2(n - 1) - 1, Abs(b)) <==> !InRange(a * b, n)))
            && (sa != sb ==> (Abs(a) > CDiv(Min(n), 0 - Abs(b)) <==> !InRange(a * b, n)))
  {
    PatternRoundTrip(a, n);
    PatternRoundTrip(b, n);
    Pow2Mono(0, n);
    Pow2Double(1, n - 1);
    ProductRange(a, b, n);
    QuotientTest(Abs(a), Abs(b), Pow2(n - 1) - 1);
    QuotientTest(Abs(a), Abs(b), Pow2(n - 1));
  }

  /** Without overflow the returned word is the product itself. */
  lemma NoOverflowIsExact(a: int, b: int, n: nat)
    requires InRange(a * b, n)
    ensures Signed((a * b) % Pow2(n), n) == a * b
  {
    PatternRoundTrip(a * b, n);
  }
}
