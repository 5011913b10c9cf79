/**
 * __udivmoddi4: division of two-word numbers that only shifts single words, with its special cases for
 * empty halves and powers of two. A word has w bits; the source has w = 32.
 */
module TwoWordDivision {
  import opened Arith
  import opened Bits
  import opened RestoringDivision
  import opened DoubleDivision

  /** The `all` view of a pair of words. */
  function Join(hi: nat, lo: nat, w: nat): (x: nat)
  {
    hi * Pow2(w) + lo
  }

  lemma JoinHalves(hi: nat, lo: nat, w: nat)
    requires hi < Pow2(w) && lo < Pow2(w)
    ensures Join(hi, lo, w) < Pow2(2 * w)
    ensures High(Join(hi, lo, w), w) == hi && Low(Join(hi, lo, w), w) == lo
  {
    Pow2Square(w);
    var m := Pow2(w);
    var x := Join(hi, lo, w);
    assert x == hi * m + lo;
    PairArithmetic(hi, lo, m);
    assert High(x, w) == x / m && Low(x, w) == x % m;
  }

  lemma PairArithmetic(hi: nat, lo: nat, m: nat)
    requires hi < m && lo < m
    ensures 0 <= hi * m + lo < m * m && (hi * m + lo) / m == hi && (hi * m + lo) % m == lo
  {
    DivModUnique(hi * m + lo, m, hi, lo);
    MulMono(hi + 1, m, m);
    assert (hi + 1) * m == hi * m + m;
    MulNonNeg(hi, m);
  }

  /** Shifting the pair word by word, with the top bit of the low word carried over, shifts the whole. */
  lemma PairShiftIn(hi: nat, lo: nat, bit: nat, w: nat)
    requires w >= 1 && hi < Pow2(w) && lo < Pow2(w) && bit < 2
    ensures var hi' := Or(Shl(hi, 1, w), Shr(lo, w - 1));
            var lo' := Or(Shl(lo, 1, w), bit);
            && hi' < Pow2(w) && lo' < Pow2(w)
            && Join(hi', lo', w) == Or(Shl(Join(hi, lo, w), 1, 2 * w), bit)
  {
    WordShifts(hi, lo, bit, w);
    ShiftIn(Join(hi, lo, w), bit, 2 * w);
    Pow2Square(w);
    Pow2Succ(w - 1);
    PairShifted(hi, lo, bit, Pow2(w - 1), Pow2(w), Pow2(2 * w), Join(hi, lo, w), Shr(lo, w - 1),
                Or(Shl(hi, 1, w), Shr(lo, w - 1)), Or(Shl(lo, 1, w), bit));
  }

  lemma WordShifts(hi: nat, lo: nat, bit: nat, w: nat)
    requires w >= 1 && lo < Pow2(w) && bit < 2
    ensures Or(Shl(hi, 1, w), Shr(lo, w - 1)) == (2 * hi + Shr(lo, w - 1)) % Pow2(w)
    ensures Or(Shl(lo, 1, w), bit) == (2 * lo + bit) % Pow2(w)
  {
    TopBit(lo, w);
    ShiftIn(hi, Shr(lo, w - 1), w);
    ShiftIn(lo, bit, w);
  }

  lemma PairShifted(hi: nat, lo: nat, bit: nat, p: nat, m: nat, mm: nat, all: nat, carry: nat, hi': nat, lo': nat)
    requires p > 0 && m == 2 * p && mm == m * m && lo < m && bit < 2 && all == hi * m + lo && carry == lo / p
    requires hi' == (2 * hi + carry) % m && lo' == (2 * lo + bit) % m
    ensures mm > 0 && hi' < m && lo' < m && hi' * m + lo' == (2 * all + bit) % mm
  {
    PairShiftArithmetic(hi, lo, bit, p, m);
  }

  lemma TopBit(x: nat, w: nat)
    requires w >= 1 && x < Pow2(w)
    ensures Shr(x, w - 1) < 2
  {
    Pow2Succ(w - 1);
    DivBound(x, Pow2(w - 1), 2);
  }

  /** The bit that leaves the whole pair is the one that leaves its high word. */
  lemma PairTopBit(hi: nat, lo: nat, w: nat)
    requires w >= 1 && hi < Pow2(w) && lo < Pow2(w)
    ensures Shr(Join(hi, lo, w), 2 * w - 1) == Shr(hi, w - 1) < 2
  {
    TopBit(hi, w);
    JoinHalves(hi, lo, w);
    Pow2Add(w, w - 1);
    assert w + (w - 1) == 2 * w - 1;
    DivDiv(Join(hi, lo, w), Pow2(w), Pow2(w - 1));
  }

  lemma PairShiftArithmetic(hi: nat, lo: nat, bit: nat, p: nat, m: nat)
    requires p > 0 && m == 2 * p && lo < m && bit < 2
    ensures m * m > 0
    ensures ((2 * hi + lo / p) % m) * m + (2 * lo + bit) % m == (2 * (hi * m + lo) + bit) % (m * m)
  {
    var c, r := lo / p, lo % p;
    SplitAt(lo, p, 2);
    CarryOut(lo, bit, p, m, c, r);
    var y, hi' := (2 * hi + c) / m, (2 * hi + c) % m;
    DivIdentity(2 * hi + c, m);
    DivBoundBelow(2 * hi + c, m, 0);
    CarryArithmetic(hi, lo, bit, m, c, 2 * r + bit, y, hi');
  }

  lemma CarryOut(lo: nat, bit: nat, p: nat, m: nat, c: nat, r: nat)
    requires p > 0 && m == 2 * p && bit < 2 && r < p && c < 2 && lo == c * p + r
    ensures 2 * lo + bit == c * m + (2 * r + bit) && (2 * lo + bit) % m == 2 * r + bit < m
  {
    DivModUnique(2 * lo + bit, m, c, 2 * r + bit);
  }

  lemma CarryArithmetic(hi: nat, lo: nat, bit: nat, m: nat, c: nat, lo': nat, y: nat, hi': nat)
    requires 2 * lo + bit == c * m + lo' && lo' < m && 2 * hi + c == y * m + hi' && hi' < m
    ensures m * m > 0 && (2 * (hi * m + lo) + bit) % (m * m) == hi' * m + lo'
  {
    Distribute(2 * hi, c, m);
    Distribute(y * m, hi', m);
    MulAssoc(2, hi, m);
    MulAssoc(y, m, m);
    PairArithmetic(hi', lo', m);
    DivModUnique(2 * (hi * m + lo) + bit, m * m, y, hi' * m + lo');
  }

  /** num >> s for 0 < s < w, assembled from word shifts. */
  lemma PairShrShort(hi: nat, lo: nat, s: nat, w: nat)
    requires 0 < s < w && hi < Pow2(w) && lo < Pow2(w)
    ensures var low := Or(Shl(hi, w - s, w), Shr(lo, s));
            && Shr(hi, s) < Pow2(w) && low < Pow2(w)
            && low == (hi % Pow2(s)) * Pow2(w - s) + lo / Pow2(s)
            && Join(Shr(hi, s), low, w) == Shr(Join(hi, lo, w), s)
  {
    var p, c := Pow2(s), Pow2(w - s);
    Pow2Split(s, w);
    ShlMultiple(hi, w - s, w);
    assert w - (w - s) == s;
    SplitAt(lo, p, c);
    SplitAt(hi, p, c);
    OrDisjoint(Shl(hi, w - s, w), lo / p, w - s);
    ShortDiv(hi, lo, p, c);
    HighSplit(hi, lo, p, c);
    Pow2Mono(w - s, w);
  }

  /** num << (2w - s) for 0 < s < w. */
  lemma PairShlShort(hi: nat, lo: nat, s: nat, w: nat)
    requires 0 < s < w && hi < Pow2(w) && lo < Pow2(w)
    ensures Shl(lo, w - s, w) < Pow2(w)
    ensures Join(Shl(lo, w - s, w), 0, w) == Shl(Join(hi, lo, w), 2 * w - s, 2 * w)
  {
    var p, c, m := Pow2(s), Pow2(w - s), Pow2(w);
    Pow2Split(s, w);
    ShlMultiple(lo, w - s, w);
    assert w - (w - s) == s;
    ShortDiv(hi, lo, p, c);
    ShlMultiple(Join(hi, lo, w), 2 * w - s, 2 * w);
    assert 2 * w - (2 * w - s) == s;
    Pow2Add(w - s, w);
    assert w - s + w == 2 * w - s;
    MulAssoc(lo % p, c, m);
  }

  lemma ShortDiv(hi: nat, lo: nat, p: nat, c: nat)
    requires p > 0 && c > 0
    ensures (hi * (p * c) + lo) / p == hi * c + lo / p
    ensures (hi * (p * c) + lo) % p == lo % p
  {
    var k, l := lo / p, lo % p;
    assert lo == k * p + l;
    assert (hi * c + k) * p == hi * (p * c) + k * p;
    DivModUnique(hi * (p * c) + lo, p, hi * c + k, l);
  }

  lemma HighSplit(hi: nat, lo: nat, p: nat, c: nat)
    requires p > 0 && c > 0 && lo < p * c
    ensures hi * c + lo / p == (hi / p) * (p * c) + ((hi % p) * c + lo / p)
    ensures 0 <= (hi % p) * c + lo / p < p * c
  {
    DivIdentity(hi, p);
    DivBound(lo, p, c) by {
      assert c * p == p * c;
    }
    SplitDigits(hi / p, hi % p, p, c, lo / p);
  }

  lemma SplitDigits(y: nat, z: nat, p: nat, c: nat, low: nat)
    requires z < p && low < c
    ensures (y * p + z) * c + low == y * (p * c) + (z * c + low)
    ensures 0 <= z * c + low < p * c
  {
    assert (y * p + z) * c == y * (p * c) + z * c;
    MulMono(z + 1, p, c);
    assert (z + 1) * c == z * c + c;
    MulNonNeg(z, c);
  }

  /** The same for a shift by exactly one word. */
  lemma PairShiftWord(hi: nat, lo: nat, w: nat)
    requires hi < Pow2(w) && lo < Pow2(w)
    ensures Join(0, hi, w) == Shr(Join(hi, lo, w), w)
    ensures Join(lo, 0, w) == Shl(Join(hi, lo, w), w, 2 * w)
  {
    JoinHalves(hi, lo, w);
    ShlMultiple(Join(hi, lo, w), w, 2 * w);
  }

  /** num >> (w + t) and num << (w - t) for 0 < t < w. */
  lemma PairShiftLong(hi: nat, lo: nat, t: nat, w: nat)
    requires 0 < t < w && hi < Pow2(w) && lo < Pow2(w)
    ensures var high := Or(Shl(hi, w - t, w), Shr(lo, t));
            && high < Pow2(w) && Shl(lo, w - t, w) < Pow2(w)
            && Join(high, Shl(lo, w - t, w), w) == Shl(Join(hi, lo, w), w - t, 2 * w)
    ensures Shr(hi, t) < Pow2(w) && Join(0, Shr(hi, t), w) == Shr(Join(hi, lo, w), w + t)
  {
    var p, c, m := Pow2(t), Pow2(w - t), Pow2(w);
    Pow2Split(t, w);
    PairShrShort(hi, lo, t, w);
    ShlMultiple(lo, w - t, w);
    assert w - (w - t) == t;
    JoinHalves(hi, lo, w);
    Pow2Add(w, t);
    DivDiv(Join(hi, lo, w), m, p);
    ShlMultiple(Join(hi, lo, w), w - t, 2 * w);
    assert 2 * w - (w - t) == w + t;
    LongShiftArithmetic(hi % p, lo, p, c);
  }

  lemma LongShiftArithmetic(x: nat, lo: nat, p: nat, c: nat)
    requires p > 0 && c > 0
    ensures (x * c + lo / p) * (p * c) + (lo % p) * c == (x * (p * c) + lo) * c
  {
    var m, k, l := p * c, lo / p, lo % p;
    assert lo == k * p + l;
    assert (x * c + k) * m == x * m * c + k * m;
    assert (x * m + lo) * c == x * m * c + lo * c;
    assert (k * p + l) * c == k * m + l * c;
  }

  /** A divisor with an empty low word divides the high word of the dividend. */
  lemma EmptyLowDivisor(hi: nat, lo: nat, dhi: nat, m: nat)
    requires dhi > 0 && lo < m
    ensures m * dhi > 0
    ensures (hi * m + lo) / (dhi * m) == hi / dhi
    ensures (hi * m + lo) % (dhi * m) == (hi % dhi) * m + lo
  {
    DivModUnique(hi * m + lo, m, hi, lo);
    DivDiv(hi * m + lo, m, dhi);
    assert m * dhi == dhi * m;
  }

  /** The loop over separate words; it refines the loop over whole numbers. */
  method RestorePair(num: nat, d: nat, w: nat, sr0: nat, qHigh0: nat, qLow0: nat, rHigh0: nat, rLow0: nat)
    returns (q: nat, r: nat)
    requires w >= 1 && StartShift(num, d, 2 * w, sr0)
    requires qHigh0 < Pow2(w) && qLow0 < Pow2(w) && rHigh0 < Pow2(w) && rLow0 < Pow2(w)
    requires Join(qHigh0, qLow0, w) == Shl(num, 2 * w - sr0, 2 * w) && Join(rHigh0, rLow0, w) == Shr(num, sr0)
    ensures q == num / d && r == num % d
  {
    var n := 2 * w;
    var sr: nat := sr0;
    var qHigh: nat, qLow: nat, rHigh: nat, rLow: nat := qHigh0, qLow0, rHigh0, rLow0;
    var carry := 0;
    ghost var quo := 0;
    RestoringStart(num, d, n, sr0);
    while sr > 0
      invariant qHigh < Pow2(w) && qLow < Pow2(w) && rHigh < Pow2(w) && rLow < Pow2(w)
      invariant Restoring(num, d, n, sr0, sr, quo, Join(qHigh, qLow, w), Join(rHigh, rLow, w), carry)
    {
      ghost var qAll, rAll := Join(qHigh, qLow, w), Join(rHigh, rLow, w);
      PairShiftIn(qHigh, qLow, carry, w);
      PairTopBit(qHigh, qLow, w);
      PairShiftIn(rHigh, rLow, Shr(qHigh, w - 1), w);
      rHigh := Or(Shl(rHigh, 1, w), Shr(rLow, w - 1));
      rLow := Or(Shl(rLow, 1, w), Shr(qHigh, w - 1));
      qHigh := Or(Shl(qHigh, 1, w), Shr(qLow, w - 1));
      qLow := Or(Shl(qLow, 1, w), carry);
      var rNew: nat := Join(rHigh, rLow, w);
      var s := CompareMask(d, rNew, n);
      RestoringStep(num, d, n, sr0, sr, quo, qAll, rAll, carry, rNew, s);
      carry := And(s, 1);
      rNew := rNew - And(d, s);
      quo := 2 * quo + carry;
      sr := sr - 1;
      Halves(rNew, w);
      rHigh, rLow := High(rNew, w), Low(rNew, w);
    }
    FinishQuotient(num, d, n, quo, Join(rHigh, rLow, w), Join(qHigh, qLow, w));
    q := Or(Shl(Join(qHigh, qLow, w), 1, n), carry);
    r := Join(rHigh, rLow, w);
  }

  /** Division by a power of two held in the low word. */
  lemma LowPowerOfTwo(hi: nat, lo: nat, d: nat, w: nat)
    requires hi < Pow2(w) && lo < Pow2(w) && 0 < d < Pow2(w) && d == Pow2(Ctz(d)) && d != 1
    ensures 0 < Ctz(d) < w
    ensures And(lo, d - 1) == Join(hi, lo, w) % d
    ensures Join(Shr(hi, Ctz(d)), Or(Shl(hi, w - Ctz(d), w), Shr(lo, Ctz(d))), w) == Join(hi, lo, w) / d
  {
    var s := Ctz(d);
    CtzBound(d, w);
    assert s != 0 by {
      assert Pow2(0) == 1;
    }
    AndMask(lo, s);
    PairShrShort(hi, lo, s, w);
    LowRemainder(hi, lo, s, w);
  }

  lemma LowRemainder(hi: nat, lo: nat, s: nat, w: nat)
    requires 0 < s < w && lo < Pow2(w)
    ensures Join(hi, lo, w) % Pow2(s) == lo % Pow2(s)
  {
    Pow2Split(s, w);
    ShortDiv(hi, lo, Pow2(s), Pow2(w - s));
  }

  /** Division by a power of two held in the high word. */
  lemma HighPowerOfTwo(hi: nat, lo: nat, dhi: nat, w: nat)
    requires lo < Pow2(w) && dhi > 0 && dhi == Pow2(Ctz(dhi))
    ensures Join(dhi, 0, w) > 0
    ensures Shr(hi, Ctz(dhi)) == Join(hi, lo, w) / Join(dhi, 0, w)
    ensures Join(And(hi, dhi - 1), lo, w) == Join(hi, lo, w) % Join(dhi, 0, w)
  {
    AndMask(hi, Ctz(dhi));
    EmptyLowDivisor(hi, lo, dhi, Pow2(w));
  }

  /** Word shifts that set up q and r for a shift sr of 1 to 2w - 1. */
  method SetUp(hi: nat, lo: nat, sr: nat, w: nat) returns (qHigh: nat, qLow: nat, rHigh: nat, rLow: nat)
    requires 0 < sr < 2 * w && hi < Pow2(w) && lo < Pow2(w)
    ensures qHigh < Pow2(w) && qLow < Pow2(w) && rHigh < Pow2(w) && rLow < Pow2(w)
    ensures Join(qHigh, qLow, w) == Shl(Join(hi, lo, w), 2 * w - sr, 2 * w)
    ensures Join(rHigh, rLow, w) == Shr(Join(hi, lo, w), sr)
  {
    if sr == w {
      PairShiftWord(hi, lo, w);
      qLow, qHigh, rHigh, rLow := 0, lo, 0, hi;
    } else if sr < w {
      PairShrShort(hi, lo, sr, w);
      PairShlShort(hi, lo, sr, w);
      qLow := 0;
      qHigh := Shl(lo, w - sr, w);
      rHigh := Shr(hi, sr);
      rLow := Or(Shl(hi, w - sr, w), Shr(lo, sr));
    } else {
      PairShiftLong(hi, lo, sr - w, w);
      qLow := Shl(lo, 2 * w - sr, w);
      qHigh := Or(Shl(hi, 2 * w - sr, w), Shr(lo, sr - w));
      rHigh := 0;
      rLow := Shr(hi, sr - w);
    }
  }

  /** Leading zeros of the whole pair in terms of its words. */
  lemma PairClz(hi: nat, lo: nat, w: nat)
    requires 0 < hi < Pow2(w) && lo < Pow2(w)
    ensures Join(hi, lo, w) < Pow2(2 * w) && Clz(Join(hi, lo, w), 2 * w) == Clz(hi, w) < w
  {
    JoinHalves(hi, lo, w);
    ClzHigh(Join(hi, lo, w), w);
    ClzRange(hi, w);
  }

  lemma LowClz(lo: nat, w: nat)
    requires lo < Pow2(w)
    ensures Join(0, lo, w) == lo < Pow2(2 * w) && Clz(lo, 2 * w) == w + Clz(lo, w)
  {
    Pow2Mono(w, 2 * w);
    BitLenBound(lo, w);
  }

  lemma SmallerDividend(nHigh: nat, nLow: nat, dHigh: nat, dLow: nat, w: nat)
    requires 0 < nHigh < Pow2(w) && nLow < Pow2(w) && 0 < dHigh < Pow2(w) && dLow < Pow2(w)
    requires Clz(dHigh, w) < Clz(nHigh, w)
    ensures Join(dHigh, dLow, w) > 0
    ensures Join(nHigh, nLow, w) / Join(dHigh, dLow, w) == 0
    ensures Join(nHigh, nLow, w) % Join(dHigh, dLow, w) == Join(nHigh, nLow, w)
  {
    PairClz(nHigh, nLow, w);
    PairClz(dHigh, dLow, w);
    JoinPositive(dHigh, dLow, w);
    ClzOrder(Join(nHigh, nLow, w), Join(dHigh, dLow, w), 2 * w);
    ModSmall(Join(nHigh, nLow, w), Join(dHigh, dLow, w));
  }

  /** What the end of every branch does: set up the registers and run the loop. */
  method DivideShifted(nHigh: nat, nLow: nat, d: nat, sr: nat, w: nat) returns (q: nat, r: nat)
    requires w >= 1 && nHigh < Pow2(w) && nLow < Pow2(w) && sr < 2 * w
    requires StartShift(Join(nHigh, nLow, w), d, 2 * w, sr)
    ensures q == Join(nHigh, nLow, w) / d && r == Join(nHigh, nLow, w) % d
  {
    var qHigh, qLow, rHigh, rLow := SetUp(nHigh, nLow, sr, w);
    q, r := RestorePair(Join(nHigh, nLow, w), d, w, sr, qHigh, qLow, rHigh, rLow);
  }

  /** The shift for a divisor with a high word, and where it lies. */
  lemma HighShift(nHigh: nat, nLow: nat, dHigh: nat, dLow: nat, w: nat)
    requires w >= 1 && 0 < nHigh < Pow2(w) && nLow < Pow2(w) && 0 < dHigh < Pow2(w) && dLow < Pow2(w)
    requires Clz(nHigh, w) <= Clz(dHigh, w)
    ensures StartShift(Join(nHigh, nLow, w), Join(dHigh, dLow, w), 2 * w, Clz(dHigh, w) - Clz(nHigh, w) + 1)
    ensures Clz(dHigh, w) - Clz(nHigh, w) + 1 <= w
  {
    PairClz(nHigh, nLow, w);
    PairClz(dHigh, dLow, w);
    JoinPositive(nHigh, nLow, w);
    JoinPositive(dHigh, dLow, w);
    StartShiftFromClz(Join(nHigh, nLow, w), Join(dHigh, dLow, w), 2 * w);
  }

  /** Divisors K 0. */
  method DivideByHighWord(nHigh: nat, nLow: nat, dHigh: nat, w: nat) returns (q: nat, r: nat)
    requires w >= 1 && 0 < nHigh < Pow2(w) && nLow < Pow2(w) && 0 < dHigh < Pow2(w)
    ensures Join(dHigh, 0, w) > 0
    ensures q == Join(nHigh, nLow, w) / Join(dHigh, 0, w) && r == Join(nHigh, nLow, w) % Join(dHigh, 0, w)
  {
    EmptyLowDivisor(nHigh, nLow, dHigh, Pow2(w));
    if nLow == 0 {
      return nHigh / dHigh, Join(nHigh % dHigh, 0, w);
    }
    PowerOfTwoTest(dHigh);
    if And(dHigh, dHigh - 1) == 0 {
      HighPowerOfTwo(nHigh, nLow, dHigh, w);
      return Shr(nHigh, Ctz(dHigh)), Join(And(nHigh, dHigh - 1), nLow, w);
    }
    NotOne(dHigh, w);
    var sr := Clz(dHigh, w) - Clz(nHigh, w);
    if sr < 0 || sr > w - 2 {
      SmallerDividend(nHigh, nLow, dHigh, 0, w);
      return 0, Join(nHigh, nLow, w);
    }
    HighShift(nHigh, nLow, dHigh, 0, w);
    q, r := DivideShifted(nHigh, nLow, Join(dHigh, 0, w), sr + 1, w);
  }

  /** Divisors 0 K. */
  method DivideByLowWord(nHigh: nat, nLow: nat, dLow: nat, w: nat) returns (q: nat, r: nat)
    requires w >= 1 && 0 < nHigh < Pow2(w) && nLow < Pow2(w) && 0 < dLow < Pow2(w)
    ensures q == Join(nHigh, nLow, w) / dLow && r == Join(nHigh, nLow, w) % dLow
  {
    PowerOfTwoTest(dLow);
    if And(dLow, dLow - 1) == 0 {
      if dLow == 1 {
        return Join(nHigh, nLow, w), And(nLow, 0);
      }
      LowPowerOfTwo(nHigh, nLow, dLow, w);
      var sr := Ctz(dLow);
      return Join(Shr(nHigh, sr), Or(Shl(nHigh, w - sr, w), Shr(nLow, sr)), w), And(nLow, dLow - 1);
    }
    NotOne(dLow, w);
    PairClz(nHigh, nLow, w);
    LowClz(dLow, w);
    JoinPositive(nHigh, nLow, w);
    var sr := 1 + w + Clz(dLow, w) - Clz(nHigh, w);
    StartShiftFromClz(Join(nHigh, nLow, w), dLow, 2 * w);
    q, r := DivideShifted(nHigh, nLow, dLow, sr, w);
  }

  /** Divisors K K. */
  method DivideByPair(nHigh: nat, nLow: nat, dHigh: nat, dLow: nat, w: nat) returns (q: nat, r: nat)
    requires w >= 1 && 0 < nHigh < Pow2(w) && nLow < Pow2(w) && 0 < dHigh < Pow2(w) && dLow < Pow2(w)
    ensures Join(dHigh, dLow, w) > 0
    ensures q == Join(nHigh, nLow, w) / Join(dHigh, dLow, w) && r == Join(nHigh, nLow, w) % Join(dHigh, dLow, w)
  {
    JoinPositive(dHigh, dLow, w);
    ClzRange(dHigh, w);
    var sr := Clz(dHigh, w) - Clz(nHigh, w);
    if sr < 0 || sr > w - 1 {
      SmallerDividend(nHigh, nLow, dHigh, dLow, w);
      return 0, Join(nHigh, nLow, w);
    }
    HighShift(nHigh, nLow, dHigh, dLow, w);
    q, r := DivideShifted(nHigh, nLow, Join(dHigh, dLow, w), sr + 1, w);
  }

  /** __udivmoddi4: exact quotient and remainder for every dividend and every non-zero divisor. */
  method UDivModPair(nHigh: nat, nLow: nat, dHigh: nat, dLow: nat, w: nat) returns (q: nat, r: nat)
    requires w >= 1 && nHigh < Pow2(w) && nLow < Pow2(w) && dHigh < Pow2(w) && dLow < Pow2(w)
    requires dHigh != 0 || dLow != 0
    ensures Join(dHigh, dLow, w) > 0
    ensures q == Join(nHigh, nLow, w) / Join(dHigh, dLow, w) && r == Join(nHigh, nLow, w) % Join(dHigh, dLow, w)
  {
    JoinPositive(dHigh, dLow, w);
    if nHigh == 0 {
      if dHigh == 0 {
        return nLow / dLow, nLow % dLow;
      }
      MulMono(1, dHigh, Pow2(w));
      ModSmall(nLow, Join(dHigh, dLow, w));
      return 0, nLow;
    }
    if dLow == 0 {
      q, r := DivideByHighWord(nHigh, nLow, dHigh, w);
    } else if dHigh == 0 {
      q, r := DivideByLowWord(nHigh, nLow, dLow, w);
    } else {
      q, r := DivideByPair(nHigh, nLow, dHigh, dLow, w);
    }
  }

  lemma JoinPositive(hi: nat, lo: nat, w: nat)
    requires hi != 0 || lo != 0
    ensures Join(hi, lo, w) > 0
  {
    if hi > 0 {
      MulMono(1, hi, Pow2(w));
    }
  }

  /** A word that is no power of two has at most w - 2 leading zeros. */
  lemma NotOne(x: nat, w: nat)
    requires w >= 1 && 0 < x < Pow2(w) && x != Pow2(Ctz(x))
    ensures w >= 2 && Clz(x, w) <= w - 2
  {
    ClzOne(x, w);
    ClzRange(x, w);
    assert Ctz(1) == 0 && Pow2(0) == 1;
  }
}
