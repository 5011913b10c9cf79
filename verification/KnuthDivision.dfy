/**
 * udiv128by64to64default: a two-word dividend by a one-word divisor, Algorithm D of section 4.3.1 of
 * Knuth's The Art of Computer Programming, volume 2. A word has 2h bits and two digits of h bits;
 * the source has h = 32.
 */
module KnuthDivision {
  import opened Arith
  import opened Bits

  ghost predicate Normalized(v: nat, vn1: nat, vn0: nat, b: nat)
  {
    b >= 2 && v == vn1 * b + vn0 && vn0 < b && b <= 2 * vn1 && vn1 < b
  }

  /** The true quotient digit is below the base. */
  lemma DigitBelowBase(u: nat, n: nat, v: nat, b: nat)
    requires u < v && n < b
    ensures 0 <= (u * b + n) / v < b
  {
    MulMono(u + 1, v, b);
    assert (u + 1) * b == u * b + b;
    DivBound(u * b + n, v, b) by {
      assert b * v == v * b;
    }
  }

  /** Both sides of the correction test, seen as parts of q * v and u * b. */
  lemma CorrectionBalance(u: nat, v: nat, vn1: nat, vn0: nat, b: nat, q: nat, rhat: int)
    requires v == vn1 * b + vn0 && u == q * vn1 + rhat
    ensures q * v - u * b == q * vn0 - b * rhat
  {
    Distribute(vn1 * b, vn0, q);
    Distribute(q * vn1, rhat, b);
  }

  lemma QuotientCompare(x: nat, v: nat, q: nat)
    requires v > 0
    ensures q * v > x <==> q > x / v
  {
    if q * v > x {
      DivBound(x, v, q);
    } else {
      DivBoundBelow(x, v, q);
    }
  }

  lemma SidesCompare(qv: int, ub: nat, left: int, right: int, n: nat, v: nat, q: nat)
    requires v > 0 && qv == q * v && qv - ub == left - right
    ensures left > right + n <==> q > (ub + n) / v
  {
    QuotientCompare(ub + n, v, q);
  }

  /** The correction test answers the question "is q too large?" exactly. */
  lemma CorrectionTest(u: nat, n: nat, v: nat, vn1: nat, vn0: nat, b: nat, q: nat, rhat: int)
    requires Normalized(v, vn1, vn0, b) && u < v && n < b && u == q * vn1 + rhat
    ensures q * vn0 > b * rhat + n <==> q > (u * b + n) / v
  {
    CorrectionBalance(u, v, vn1, vn0, b, q, rhat);
    MulNonNeg(u, b);
    SidesCompare(q * v, u * b, q * vn0, b * rhat, n, v, q);
  }

  /** The first estimate is at least the digit and at most the base plus one. */
  lemma Estimate(u: nat, n: nat, v: nat, vn1: nat, vn0: nat, b: nat)
    requires Normalized(v, vn1, vn0, b) && u < v && n < b
    ensures (u * b + n) / v <= u / vn1 <= b + 1
  {
    var q, rhat := u / vn1, u % vn1;
    DivIdentity(u, vn1);
    DivBound(u, vn1, b + 2) by {
      Distribute(b, 2, vn1);
    }
    Distribute(q, 1, vn1);
    CorrectionTest(u, n, v, vn1, vn0, b, q + 1, rhat - vn1);
    NegativeRhat(q + 1, vn0, b, rhat - vn1, n);
  }

  lemma NegativeRhat(q: nat, vn0: nat, b: nat, rhat: int, n: nat)
    requires rhat < 0 && n < b
    ensures q * vn0 > b * rhat + n
  {
    MulNonNeg(q, vn0);
    MulMono(rhat, -1, b);
    assert rhat * b == b * rhat;
  }

  /** Neither side of the correction test leaves the word. */
  lemma TestFitsWord(q: nat, vn0: nat, b: nat, rhat: nat, n: nat)
    requires b >= 2 && q <= b + 1 && vn0 < b && rhat < b && n < b
    ensures 0 <= q * vn0 < b * b && 0 <= b * rhat + n < b * b
  {
    MulMono(q, b + 1, vn0);
    MulMono(vn0, b - 1, b + 1);
    assert (b - 1) * (b + 1) == b * b - 1;
    assert vn0 * (b + 1) == (b + 1) * vn0;
    MulNonNeg(q, vn0);
    MulMono(rhat, b - 1, b);
    assert (b - 1) * b == b * b - b;
    assert rhat * b == b * rhat;
    MulNonNeg(b, rhat);
  }

  /** Once rhat has reached the base the test could only say "not too large". */
  lemma LargeRhat(q: nat, vn0: nat, b: nat, rhat: nat, n: nat)
    requires q <= b && vn0 < b && rhat >= b
    ensures q * vn0 <= b * rhat + n
  {
    MulMono(q, b, vn0);
    MulMono(vn0, rhat, b);
    assert b * vn0 == vn0 * b && b * rhat == rhat * b;
  }

  /** Marks the estimates that a proof looks into. */
  ghost predicate Viewed(q: nat, rhat: nat, i: int)
  {
    true
  }

  /** An estimate q with its rhat, after some corrections, for which the test is exact and does not wrap. */
  ghost predicate Estimated(u: nat, n: nat, v: nat, vn1: nat, vn0: nat, b: nat, q: nat, rhat: nat, corrections: nat)
    requires v > 0
  {
    forall i: int {:trigger Viewed(q, rhat, i)} :: Viewed(q, rhat, i) ==>
      && (u * b + n) / v <= q <= b + 1 && u == q * vn1 + rhat && rhat < b
      && corrections <= 1 && (corrections == 1 ==> rhat >= vn1)
      && 0 <= q * vn0 < b * b && 0 <= b * rhat + n < b * b
      && (q * vn0 > b * rhat + n <==> q > (u * b + n) / v)
  }

  lemma EstimateStart(u: nat, n: nat, v: nat, vn1: nat, vn0: nat, b: nat, q: nat, rhat: nat)
    requires Normalized(v, vn1, vn0, b) && u < v && n < b && vn1 > 0 && q == u / vn1 && rhat == u % vn1
    ensures Estimated(u, n, v, vn1, vn0, b, q, rhat, 0)
  {
    DivIdentity(u, vn1);
    Estimate(u, n, v, vn1, vn0, b);
    TestFitsWord(q, vn0, b, rhat, n);
    CorrectionTest(u, n, v, vn1, vn0, b, q, rhat);
  }

  /** The loop goes on exactly while the estimate is too large. */
  lemma EstimateTest(u: nat, n: nat, v: nat, vn1: nat, vn0: nat, b: nat, q: nat, rhat: nat, corrections: nat)
    requires Normalized(v, vn1, vn0, b) && u < v && n < b && Estimated(u, n, v, vn1, vn0, b, q, rhat, corrections)
    ensures corrections <= 1 && b * b > 0
    ensures q >= b || (q * vn0) % (b * b) > (b * rhat + n) % (b * b) <==> q != (u * b + n) / v
    ensures q != (u * b + n) / v ==> q > 0
  {
    assert Viewed(q, rhat, 0);
    ModSmall(q * vn0, b * b);
    ModSmall(b * rhat + n, b * b);
    DigitBelowBase(u, n, v, b);
  }

  /** A correction lowers a too large estimate by one; if rhat has outgrown a digit it was the last. */
  lemma EstimateStep(u: nat, n: nat, v: nat, vn1: nat, vn0: nat, b: nat, q: nat, rhat: nat, corrections: nat)
    requires Normalized(v, vn1, vn0, b) && u < v && n < b && Estimated(u, n, v, vn1, vn0, b, q, rhat, corrections)
    requires q != (u * b + n) / v && q > 0
    ensures rhat + vn1 >= b ==> q - 1 == (u * b + n) / v
    ensures rhat + vn1 < b ==> Estimated(u, n, v, vn1, vn0, b, q - 1, rhat + vn1, corrections + 1)
  {
    assert Viewed(q, rhat, 0);
    Distribute(q - 1, 1, vn1);
    CorrectionTest(u, n, v, vn1, vn0, b, q - 1, rhat + vn1);
    if rhat + vn1 >= b {
      LargeRhat(q - 1, vn0, b, rhat + vn1, n);
    } else {
      TestFitsWord(q - 1, vn0, b, rhat + vn1, n);
    }
  }

  /**
   * One quotient digit: estimate by the leading divisor digit, then correct. The result is the exact
   * digit, no word operation wraps before it is read, and the loop body runs at most twice.
   */
  method QuotientDigit(u: nat, n: nat, v: nat, vn1: nat, vn0: nat, h: nat) returns (q: nat, corrections: nat)
    requires h >= 1 && Normalized(v, vn1, vn0, Pow2(h)) && u < v && n < Pow2(h)
    ensures q == (u * Pow2(h) + n) / v
    ensures corrections <= 2
  {
    var b := Pow2(h);
    q := u / vn1;
    var rhat: nat := u % vn1;
    corrections := 0;
    EstimateStart(u, n, v, vn1, vn0, b, q, rhat);
    EstimateTest(u, n, v, vn1, vn0, b, q, rhat, corrections);
    while q >= b || (q * vn0) % (b * b) > (b * rhat + n) % (b * b)
      invariant Estimated(u, n, v, vn1, vn0, b, q, rhat, corrections) && corrections <= 1
      invariant q >= b || (q * vn0) % (b * b) > (b * rhat + n) % (b * b) <==> q != (u * b + n) / v
      invariant q != (u * b + n) / v ==> q > 0
      decreases q
    {
      EstimateStep(u, n, v, vn1, vn0, b, q, rhat, corrections);
      q := q - 1;
      rhat := rhat + vn1;
      corrections := corrections + 1;
      if rhat >= b {
        break;
      }
      EstimateTest(u, n, v, vn1, vn0, b, q, rhat, corrections);
    }
  }

  /** x - q * v computed in a word is the true remainder although the products wrap. */
  lemma WrappedRemainder(x: nat, v: nat, q: nat, word: nat)
    requires 0 < v <= word && q == x / v
    ensures (x - q * v) % word == x % v
  {
    assert x == q * v + x % v;
    ModSmall(x % v, word);
  }

  /** The divisor's two digits once its top bit is set. */
  lemma DivisorDigits(v: nat, h: nat)
    requires h >= 1 && Pow2(2 * h - 1) <= v < Pow2(2 * h)
    ensures Normalized(v, Shr(v, h), And(v, Pow2(h) - 1), Pow2(h))
  {
    var b := Pow2(h);
    AndMask(v, h);
    Pow2Square(h);
    Pow2Add(h - 1, h);
    assert h - 1 + h == 2 * h - 1;
    Pow2Succ(h - 1);
    SplitAt(v, b, b);
    DivBoundBelow(v, b, Pow2(h - 1));
  }

  lemma ScaledRange(v: nat, low: nat, high: nat, p: nat)
    requires low <= v < high && p > 0
    ensures low * p <= v * p && v * p + p <= high * p
  {
    MulMono(low, v, p);
    MulMono(v + 1, high, p);
  }

  /** Shifting the divisor left by clz(v) sets its top bit and loses none. */
  lemma NormalizedDivisor(v: nat, s: nat, w: nat)
    requires 0 < v < Pow2(w) && s == Clz(v, w)
    ensures s < w && Shl(v, s, w) == v * Pow2(s)
    ensures Pow2(w - 1) <= v * Pow2(s) < Pow2(w)
  {
    ClzRange(v, w);
    Pow2Split(s, w);
    Pow2Add(w - 1 - s, s);
    ScaledRange(v, Pow2(w - 1 - s), Pow2(w - s), Pow2(s));
    assert Pow2(w - s) * Pow2(s) == Pow2(w);
    ModSmall(v * Pow2(s), Pow2(w));
  }

  /** The dividend's high word takes the bits that its low word loses. */
  lemma NormalizedHigh(u1: nat, u0: nat, v: nat, s: nat, w: nat)
    requires s <= w && u1 < v && u0 < Pow2(w) && v * Pow2(s) < Pow2(w)
    ensures Or(Shl(u1, s, w), Shr(u0, w - s)) == u1 * Pow2(s) + u0 / Pow2(w - s)
    ensures u1 * Pow2(s) + u0 / Pow2(w - s) < v * Pow2(s)
  {
    Pow2Split(s, w);
    HighBound(u1, u0, v, Pow2(s), Pow2(w - s));
    ModSmall(u1 * Pow2(s), Pow2(w));
    OrDisjoint(u1 * Pow2(s), u0 / Pow2(w - s), s);
  }

  lemma HighBound(u1: nat, u0: nat, v: nat, p: nat, c: nat)
    requires p > 0 && c > 0 && u1 < v && u0 < p * c
    ensures u0 / c < p && 0 <= u1 * p && u1 * p + p <= v * p && (u1 * p) % p == 0
  {
    DivBound(u0, c, p);
    ScaledRange(u1, 0, v, p);
    DivModUnique(u1 * p, p, u1, 0);
  }

  lemma NormalizedValue(u1: nat, u0: nat, p: nat, c: nat)
    requires p > 0 && c > 0
    ensures (u1 * p + u0 / c) * (p * c) + (u0 % c) * p == (u1 * (p * c) + u0) * p
  {
    var m, k, l := p * c, u0 / c, u0 % c;
    assert u0 == k * c + l;
    assert (u1 * p + k) * m == u1 * m * p + k * m;
    assert (u1 * m + u0) * p == u1 * m * p + u0 * p;
    assert (k * c + l) * p == k * m + l * p;
  }

  /** Two digits, one after the other, divide the whole normalized dividend. */
  lemma TwoDigits(hi: nat, d1: nat, d0: nat, v: nat, b: nat)
    requires 0 < v && hi < v && d1 < b && d0 < b
    ensures var x := hi * b + d1;
            var y := (x % v) * b + d0;
            && (hi * (b * b) + (d1 * b + d0)) / v == (x / v) * b + y / v
            && (hi * (b * b) + (d1 * b + d0)) % v == y % v
  {
    var x := hi * b + d1;
    var q1, r1 := x / v, x % v;
    var y := r1 * b + d0;
    assert x * b == q1 * b * v + r1 * b by {
      assert x == q1 * v + r1;
      assert (q1 * v + r1) * b == q1 * b * v + r1 * b;
    }
    assert x * b == hi * (b * b) + d1 * b by {
      assert (hi * b + d1) * b == hi * (b * b) + d1 * b;
    }
    assert (q1 * b + y / v) * v == q1 * b * v + (y / v) * v;
    DivModUnique(hi * (b * b) + (d1 * b + d0), v, q1 * b + y / v, y % v);
  }

  /** The digits recombine without wrapping. */
  lemma QuotientFits(q1: nat, q0: nat, b: nat)
    requires q1 < b && q0 < b
    ensures 0 <= q1 * b + q0 < b * b
  {
    MulMono(q1 + 1, b, b);
    assert (q1 + 1) * b == q1 * b + b;
    MulNonNeg(q1, b);
  }

  /** A digit, and the dividend less its multiple of the divisor, computed in a word. */
  method DigitAndRest(u: nat, n: nat, v: nat, vn1: nat, vn0: nat, h: nat) returns (q: nat, rest: nat)
    requires h >= 1 && Normalized(v, vn1, vn0, Pow2(h)) && u < v <= Pow2(h) * Pow2(h) && n < Pow2(h)
    ensures q == (u * Pow2(h) + n) / v && rest == (u * Pow2(h) + n) % v
  {
    var b, c := Pow2(h), 0;
    q, c := QuotientDigit(u, n, v, vn1, vn0, h);
    rest := (u * b + n - q * v) % (b * b);
    WrappedRemainder(u * b + n, v, q, b * b);
  }

  /** Both digits of a normalized division; un64 is the high word of the dividend and un10 the low one. */
  method DivideNormalized(un64: nat, un10: nat, v: nat, h: nat) returns (q: nat, r: nat)
    requires h >= 1 && Pow2(2 * h - 1) <= v < Pow2(2 * h) && un64 < v && un10 < Pow2(2 * h)
    ensures q == (un64 * Pow2(2 * h) + un10) / v
    ensures r == (un64 * Pow2(2 * h) + un10) % v
    ensures q < Pow2(2 * h)
  {
    var b := Pow2(h);
    var vn1 := Shr(v, h);
    var vn0 := And(v, b - 1);
    DivisorDigits(v, h);
    var un1 := Shr(un10, h);
    var un0 := And(un10, b - 1);
    WordDigits(un10, h);

    var q1, un21 := DigitAndRest(un64, un1, v, vn1, vn0, h);
    var q0;
    q0, r := DigitAndRest(un21, un0, v, vn1, vn0, h);
    q := (q1 * b + q0) % (b * b);
    Recombine(un64, un1, un0, v, b);
  }

  lemma Recombine(hi: nat, d1: nat, d0: nat, v: nat, b: nat)
    requires 0 < v && hi < v && d1 < b && d0 < b
    ensures var x := hi * b + d1;
            var y := (x % v) * b + d0;
            var whole := hi * (b * b) + (d1 * b + d0);
            && ((x / v) * b + y / v) % (b * b) == whole / v < b * b
            && whole % v == y % v
  {
    var x := hi * b + d1;
    var y := (x % v) * b + d0;
    DigitBelowBase(hi, d1, v, b);
    DigitBelowBase(x % v, d0, v, b);
    QuotientFits(x / v, y / v, b);
    ModSmall((x / v) * b + y / v, b * b);
    TwoDigits(hi, d1, d0, v, b);
  }

  /** udiv128by64to64default. The caller promises a quotient of one word by u1 < v. */
  method UDiv2By1(u1: nat, u0: nat, v: nat, h: nat) returns (q: nat, r: nat)
    requires h >= 1 && u1 < v < Pow2(2 * h) && u0 < Pow2(2 * h)
    ensures q == (u1 * Pow2(2 * h) + u0) / v && r == (u1 * Pow2(2 * h) + u0) % v
    ensures q < Pow2(2 * h)
  {
    var w := 2 * h;
    var s := Clz(v, w);
    var vn, un64, un10 := v, u1, u0;
    if s > 0 {
      vn := Shl(v, s, w);
      un64 := Or(Shl(u1, s, w), Shr(u0, w - s));
      un10 := Shl(u0, s, w);
    }
    NormalizedDividend(u1, u0, v, s, w, un64, un10, vn);
    q, r := DivideNormalized(un64, un10, vn, h);
    DivModScale(u1 * Pow2(w) + u0, v, Pow2(s));
    Denormalize((u1 * Pow2(w) + u0) % v, Pow2(s));
    r := Shr(r, s);
  }

  /** Divisor and dividend are both scaled by 2^clz(v), so the quotient is unchanged. */
  lemma NormalizedDividend(u1: nat, u0: nat, v: nat, s: nat, w: nat, un64: nat, un10: nat, vn: nat)
    requires 0 < v < Pow2(w) && u1 < v && u0 < Pow2(w) && s == Clz(v, w)
    requires s == 0 ==> vn == v && un64 == u1 && un10 == u0
    requires s > 0 ==> vn == Shl(v, s, w) && un64 == Or(Shl(u1, s, w), Shr(u0, w - s)) && un10 == Shl(u0, s, w)
    ensures w >= 1 && Pow2(w - 1) <= vn < Pow2(w) && un64 < vn && un10 < Pow2(w)
    ensures vn == v * Pow2(s) && un64 * Pow2(w) + un10 == (u1 * Pow2(w) + u0) * Pow2(s)
  {
    NormalizedDivisor(v, s, w);
    if s == 0 {
      assert Pow2(0) == 1;
    } else {
      NormalizedHigh(u1, u0, v, s, w);
      ShlMultiple(u0, s, w);
      Pow2Split(s, w);
      NormalizedValue(u1, u0, Pow2(s), Pow2(w - s));
    }
  }

  lemma Denormalize(r: nat, p: nat)
    requires p > 0
    ensures (r * p) / p == r
  {
    DivModUnique(r * p, p, r, 0);
  }
}
