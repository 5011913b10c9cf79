/**
 * __udivmodti4: division of double words. Words have 2h bits; the source has h = 32, so a word is
 * 64 bits and a double word 128.
 */
module DoubleDivision {
  import opened Arith
  import opened Bits
  import opened RestoringDivision
  import opened KnuthDivision

  function High(x: nat, w: nat): (r: nat) { Shr(x, w) }

  function Low(x: nat, w: nat): (r: nat) { x % Pow2(w) }

  lemma Halves(x: nat, w: nat)
    requires x < Pow2(2 * w)
    ensures High(x, w) < Pow2(w) && Low(x, w) < Pow2(w)
    ensures x == High(x, w) * Pow2(w) + Low(x, w)
  {
    Pow2Add(w, w);
    SplitAt(x, Pow2(w), Pow2(w));
  }

  lemma HighOfHalf(x: nat, w: nat)
    requires w > 0
    ensures (x / 2) / Pow2(w - 1) == x / Pow2(w)
  {
    Pow2Succ(w - 1);
    DivDiv(x, 2, Pow2(w - 1));
  }

  /** The leading zeros of a double word with a non-zero high half are those of that half. */
  lemma {:induction false} BitLenHigh(x: nat, w: nat)
    requires x / Pow2(w) > 0
    ensures BitLen(x) == w + BitLen(x / Pow2(w))
    decreases w
  {
    if w == 0 {
      DivModOne(x);
    } else {
      HighOfHalf(x, w);
      BitLenHigh(x / 2, w - 1);
      if x == 0 { ModSmall(0, Pow2(w)); }
    }
  }

  lemma ClzHigh(x: nat, w: nat)
    requires x < Pow2(2 * w) && High(x, w) > 0
    ensures High(x, w) < Pow2(w)
    ensures Clz(High(x, w), w) == Clz(x, 2 * w)
  {
    Halves(x, w);
    BitLenHigh(x, w);
    BitLenBound(x, 2 * w);
    BitLenBound(High(x, w), w);
  }

  /** Dividing the high word first leaves a two-by-one division. */
  lemma PreDivision(hi: nat, lo: nat, v: nat, m: nat)
    requires 0 < v < m && lo < m
    ensures (hi * m + lo) / v == (hi / v) * m + ((hi % v) * m + lo) / v
    ensures (hi * m + lo) % v == ((hi % v) * m + lo) % v
  {
    var q, x := hi / v, (hi % v) * m + lo;
    assert hi * m + lo == q * m * v + x by {
      assert hi == q * v + hi % v;
      assert (q * v + hi % v) * m == q * m * v + (hi % v) * m;
    }
    assert (q * m + x / v) * v == q * m * v + (x / v) * v;
    DivModUnique(hi * m + lo, v, q * m + x / v, x % v);
  }

  /** Invariant of the long loop: quo counts multiples of the divisor one place above the current shift. */
  ghost predicate LongDivision(a: nat, b: nat, n: nat, top: nat, shift: int, quo: nat, dividend: nat, divisor: nat)
  {
    && n >= 1 && 0 < b && -1 <= shift <= top
    && a == quo * (b * Pow2(shift + 1)) + dividend && dividend < b * Pow2(shift + 1)
    && quo < Pow2(top - shift)
    && (shift >= 0 ==> divisor == b * Pow2(shift) < Pow2(n) && MaskSound(divisor, dividend, n))
  }

  lemma LongDivisionStart(a: nat, b: nat, n: nat)
    requires n >= 1 && 0 < b <= a < Pow2(n)
    ensures Clz(a, n) <= Clz(b, n)
    ensures var shift := Clz(b, n) - Clz(a, n);
            Shl(b, shift, n) == b * Pow2(shift) && LongDivision(a, b, n, shift, shift, 0, a, b * Pow2(shift))
  {
    ClzAntitone(b, a, n);
    ClzRange(a, n);
    ClzRange(b, n);
    var ca, cb := Clz(a, n), Clz(b, n);
    var shift := cb - ca;
    Pow2Add(n - 1 - cb, shift);
    Pow2Add(n - cb, shift);
    assert n - 1 - cb + shift == n - 1 - ca && n - cb + shift == n - ca;
    ScaledRange(b, Pow2(n - 1 - cb), Pow2(n - cb), Pow2(shift));
    Pow2Double(b, shift);
    Pow2Double(1, n - 1 - ca);
    Pow2Mono(n - ca, n);
    assert Pow2(n - 1 - ca) <= b * Pow2(shift) < Pow2(n - ca);
    ModSmall(b * Pow2(shift), Pow2(n));
    if ca > 0 {
      Pow2Mono(n - ca, n - 1);
    }
    assert Pow2(0) == 1;
  }

  lemma LongDivisionStep(a: nat, b: nat, n: nat, top: nat, shift: int, quo: nat, dividend: nat, divisor: nat)
    requires shift >= 0 && LongDivision(a, b, n, top, shift, quo, dividend, divisor)
    ensures var s := CompareMask(divisor, dividend, n);
            && And(divisor, s) <= dividend
            && And(s, 1) < 2
            && LongDivision(a, b, n, top, shift - 1, 2 * quo + And(s, 1), dividend - And(divisor, s), Shr(divisor, 1))
  {
    Pow2Double(b, shift);
    MulMono(1, Pow2(shift), b);
    CompareMaskMeaning(divisor, dividend, n);
    LongArithmetic(a, quo, divisor, dividend);
    Pow2Double(1, top - shift);
    if shift > 0 {
      Pow2Double(b, shift - 1);
      assert Pow2(1) == 2;
      Pow2Double(1, n - 1);
    }
  }

  lemma LongArithmetic(a: nat, quo: nat, divisor: nat, dividend: nat)
    requires a == quo * (2 * divisor) + dividend && dividend < 2 * divisor
    ensures dividend >= divisor ==> a == (2 * quo + 1) * divisor + (dividend - divisor)
    ensures dividend < divisor ==> a == (2 * quo + 0) * divisor + dividend
  {
    assert quo * (2 * divisor) == (2 * quo) * divisor;
  }

  /** One more quotient bit in a word that still has room for it. */
  lemma QuotientBit(quo: nat, bit: nat, top: nat, shift: nat, w: nat)
    requires w >= 1 && shift <= top < w && quo < Pow2(top - shift) && bit < 2
    ensures Or(Shl(quo, 1, w), bit) == 2 * quo + bit
  {
    ShiftIn(quo, bit, w);
    Pow2Succ(top - shift);
    Pow2Mono(top - shift + 1, w);
    ModSmall(2 * quo + bit, Pow2(w));
  }

  /** The branch-free loop for divisors longer than a word. */
  method DivideLong(a: nat, b: nat, w: nat) returns (q: nat, r: nat)
    requires w >= 1 && b <= a < Pow2(2 * w) && High(b, w) > 0
    ensures q == a / b && r == a % b
  {
    var n := 2 * w;
    assert b > 0 by {
      if b == 0 { ModSmall(0, Pow2(w)); }
    }
    HighNonZero(a, b, w);
    ClzHigh(a, w);
    ClzHigh(b, w);
    LongDivisionStart(a, b, n);
    var shift := Clz(High(b, w), w) - Clz(High(a, w), w);
    ClzRange(High(b, w), w);
    ghost var top: nat := shift;
    var divisor := Shl(b, shift, n);
    var dividend: nat := a;
    q := 0;
    while shift >= 0
      invariant LongDivision(a, b, n, top, shift, q, dividend, divisor)
    {
      LongDivisionStep(a, b, n, top, shift, q, dividend, divisor);
      var s := CompareMask(divisor, dividend, n);
      QuotientBit(q, And(s, 1), top, shift, w);
      q := Or(Shl(q, 1, w), And(s, 1));
      dividend := dividend - And(divisor, s);
      divisor := Shr(divisor, 1);
      shift := shift - 1;
    }
    LongDivisionEnd(a, b, n, top, q, dividend, divisor);
    r := dividend;
  }

  lemma LongDivisionEnd(a: nat, b: nat, n: nat, top: nat, quo: nat, dividend: nat, divisor: nat)
    requires LongDivision(a, b, n, top, -1, quo, dividend, divisor)
    ensures quo == a / b && dividend == a % b
  {
    assert b * Pow2(0) == b;
    DivModUnique(a, b, quo, dividend);
  }

  lemma HighNonZero(a: nat, b: nat, w: nat)
    requires b <= a && High(b, w) > 0
    ensures High(a, w) > 0
  {
    DivMono(b, a, Pow2(w));
  }

  /** __udivmodti4: exact quotient and remainder for every dividend and every non-zero divisor. */
  method UDivMod(a: nat, b: nat, h: nat) returns (q: nat, r: nat)
    requires h >= 1 && a < Pow2(4 * h) && 0 < b < Pow2(4 * h)
    ensures q == a / b && r == a % b
  {
    var w := 2 * h;
    assert 2 * w == 4 * h;
    if b > a {
      ModSmall(a, b);
      return 0, a;
    }
    Halves(a, w);
    Halves(b, w);
    if High(b, w) == 0 {
      var v := Low(b, w);
      var hi, lo := High(a, w), Low(a, w);
      if hi < v {
        q, r := UDiv2By1(hi, lo, v, h);
      } else {
        var qHigh := hi / v;
        var rest := hi % v;
        var qLow;
        qLow, r := UDiv2By1(rest, lo, v, h);
        PreDivision(hi, lo, v, Pow2(w));
        q := qHigh * Pow2(w) + qLow;
      }
    } else {
      q, r := DivideLong(a, b, w);
    }
  }
}
