/**
 * Branch-free restoring division on words of any width: the loop that __udivXi3 and __umodXi3 share,
 * with the start shift taken from leading-zero counts and the comparison taken from a sign bit.
 */
module RestoringDivision {
  import opened Arith
  import opened Bits

  /**
   * The mask (d - r - 1) >> (n - 1). It says "r >= d" exactly as long as d and r lie on the same side
   * of the sign bit or d is below it; a divisor with its top bit set is sound only against such an r.
   */
  function CompareMask(d: nat, r: nat, n: nat): (s: nat)
    requires n >= 1
  {
    SignMask((d - r - 1) % Pow2(n), n)
  }

  ghost predicate MaskSound(d: nat, r: nat, n: nat)
    requires n >= 1
  {
    d < Pow2(n - 1) || Pow2(n - 1) <= r < Pow2(n)
  }

  lemma WrappedDifference(d: nat, r: nat, m: nat)
    requires d < m && r < m
    ensures (d - r - 1) % m == if r >= d then d - r - 1 + m else d - r - 1
  {
    if r >= d {
      DivModUnique(d - r - 1, m, -1, d - r - 1 + m);
    } else {
      ModSmall(d - r - 1, m);
    }
  }

  lemma CompareMaskMeaning(d: nat, r: nat, n: nat)
    requires n >= 1 && 0 < d < Pow2(n) && r < 2 * d && MaskSound(d, r, n)
    ensures CompareMask(d, r, n) == if r >= d then Pow2(n) - 1 else 0
    ensures And(d, CompareMask(d, r, n)) == if r >= d then d else 0
    ensures And(CompareMask(d, r, n), 1) == if r >= d then 1 else 0
  {
    Pow2Succ(n - 1);
    WrappedDifference(d, r, Pow2(n));
    AndOnes(d, n);
    AndMask(CompareMask(d, r, n), 1);
    assert Pow2(1) == 2;
  }

  /** Taken alone, the sign bit errs both ways: it takes 3 for at least 200, and 200 for less than 3. */
  lemma CompareMaskFails()
    ensures And(CompareMask(200, 3, 8), 1) == 1 && 3 < 200 < Pow2(8)
    ensures CompareMask(3, 200, 8) == 0 && 3 <= 200 < Pow2(8)
  {
    assert Pow2(8) == 256 && Pow2(7) == 128;
    AndMask(255, 1);
  }

  /** The mask answers "r >= d" exactly when the two lie less than half the range apart, or d half the range above. */
  lemma CompareMaskExact(d: nat, r: nat, n: nat)
    requires n >= 1 && d < Pow2(n) && r < Pow2(n)
    ensures CompareMask(d, r, n) == (if r >= d then Pow2(n) - 1 else 0)
       <==> r - d < Pow2(n - 1) && d - r <= Pow2(n - 1)
  {
    Pow2Succ(n - 1);
    WrappedDifference(d, r, Pow2(n));
  }

  /** Registers of the loop when k quotient bits are still to come and quo has been found so far. */
  ghost predicate Registers(num: nat, n: nat, k: nat, quo: nat, q: nat)
    requires k <= n
  {
    q == (num % Pow2(k)) * Pow2(n - k) + quo / 2
  }

  /** Shifting the register pair left by one moves the next dividend bit out of q and the last quotient bit in. */
  lemma RegisterStep(num: nat, n: nat, k: nat, quo: nat, q: nat)
    requires 1 <= k <= n && quo < Pow2(n - k + 1) && Registers(num, n, k, quo, q)
    ensures Shr(q, n - 1) == (num / Pow2(k - 1)) % 2
    ensures num / Pow2(k - 1) == 2 * (num / Pow2(k)) + Shr(q, n - 1)
    ensures (2 * q + quo % 2) % Pow2(n) == (num % Pow2(k - 1)) * Pow2(n - k + 1) + quo
  {
    var p, w := Pow2(k - 1), Pow2(n - k);
    BitSplit(num, k);
    Pow2Succ(n - k);
    Pow2Succ(n - 1);
    Pow2Split(k - 1, n - 1);
    assert n - 1 - (k - 1) == n - k;
    RegisterShift(num / p % 2, num % p, num % Pow2(k), p, w, quo, q, Pow2(n - 1), 2 * w);
  }

  lemma RegisterShift(bit: nat, low: nat, rest: nat, p: nat, w: nat, quo: nat, q: nat, half: nat, w2: nat)
    requires bit < 2 && low < p && quo < w2 && rest == bit * p + low && q == rest * w + quo / 2
    requires half == p * w && w2 == 2 * w
    ensures half > 0 && q / half == bit && (2 * q + quo % 2) % (2 * half) == low * w2 + quo
  {
    RegisterArithmetic(bit, low, p, w, quo);
  }

  lemma RegisterArithmetic(bit: nat, low: nat, p: nat, w: nat, quo: nat)
    requires bit < 2 && low < p && quo < 2 * w
    ensures p * w > 0
    ensures ((bit * p + low) * w + quo / 2) / (p * w) == bit
    ensures (2 * ((bit * p + low) * w + quo / 2) + quo % 2) % (2 * (p * w)) == low * (2 * w) + quo
  {
    MulMono(low + 1, p, w);
    MulNonNeg(low, w);
    assert (low + 1) * w == low * w + w;
    assert (bit * p + low) * w == bit * (p * w) + low * w;
    var x := bit * (p * w) + (low * w + quo / 2);
    DivModUnique(x, p * w, bit, low * w + quo / 2);
    assert low * (2 * w) == 2 * (low * w);
    assert bit * (2 * (p * w)) == 2 * (bit * (p * w));
    DivModUnique(2 * x + quo % 2, 2 * (p * w), bit, low * (2 * w) + quo);
  }

  /** One more quotient digit: bring down a bit, subtract when possible. */
  lemma DigitStep(y: nat, quo: nat, d: nat, r: nat, bit: nat)
    requires y == quo * d + r && r < d && bit < 2
    ensures 2 * r + bit < 2 * d
    ensures 2 * r + bit >= d ==> 2 * y + bit == (2 * quo + 1) * d + (2 * r + bit - d)
    ensures 2 * r + bit < d ==> 2 * y + bit == (2 * quo) * d + (2 * r + bit)
  {
    assert (2 * quo) * d == 2 * (quo * d);
    assert (2 * quo + 1) * d == 2 * (quo * d) + d;
  }

  /** What the clz difference gives the loop to start from. */
  ghost predicate StartShift(num: nat, d: nat, n: nat, sr: nat)
  {
    && 1 <= sr <= n
    && 0 < d < Pow2(n) && num < Pow2(n)
    && num / Pow2(sr) < d
    && (d < Pow2(n - 1) || (sr == 1 && Pow2(n - 1) <= num))
  }

  /** With the shift clz(d) - clz(num) + 1 the leading part of the dividend is below the divisor. */
  lemma StartShiftFromClz(num: nat, d: nat, n: nat)
    requires 0 < d < Pow2(n) && 0 < num < Pow2(n)
    requires Clz(num, n) <= Clz(d, n)
    ensures StartShift(num, d, n, Clz(d, n) - Clz(num, n) + 1)
  {
    ClzRange(num, n);
    ClzRange(d, n);
    var cn, cd := Clz(num, n), Clz(d, n);
    var sr := cd - cn + 1;
    Pow2Add(n - 1 - cd, sr);
    assert n - 1 - cd + sr == n - cn;
    DivBound(num, Pow2(sr), Pow2(n - 1 - cd));
    if d >= Pow2(n - 1) && cd > 0 {
      Pow2Mono(n - cd, n - 1);
    }
  }

  lemma ClzOrder(num: nat, d: nat, n: nat)
    requires 0 < d < Pow2(n) && num < Pow2(n)
    ensures Clz(d, n) < Clz(num, n) ==> num < d
    ensures num < d ==> Clz(d, n) <= Clz(num, n)
  {
    if d <= num {
      ClzAntitone(d, num, n);
    } else {
      ClzAntitone(num, d, n);
    }
  }

  /** Dividing by a word with n - 1 leading zeros is dividing by one. */
  lemma ClzOne(d: nat, n: nat)
    requires n >= 1 && 0 < d < Pow2(n)
    ensures Clz(d, n) == n - 1 <==> d == 1
  {
    ClzRange(d, n);
    assert Pow2(0) == 1 && Pow2(1) == 2;
    if d == 1 {
      assert BitLen(1) == 1;
    }
  }

  /** Loop invariant with sr steps to go: r and quo divide the part of the dividend consumed so far. */
  ghost predicate Restoring(num: nat, d: nat, n: nat, sr0: nat, sr: nat, quo: nat, q: nat, r: nat, carry: nat)
  {
    && n >= 1 && StartShift(num, d, n, sr0) && sr <= sr0
    && num / Pow2(sr) == quo * d + r && r < d
    && quo < Pow2(sr0 - sr) && carry == quo % 2
    && Registers(num, n, sr, quo, q)
  }

  lemma RestoringStart(num: nat, d: nat, n: nat, sr: nat)
    requires n >= 1 && StartShift(num, d, n, sr)
    ensures Restoring(num, d, n, sr, sr, 0, Shl(num, n - sr, n), Shr(num, sr), 0)
  {
    ShlMultiple(num, n - sr, n);
  }

  /** The remainder register after its shift, and the mask that tells whether the divisor fits. */
  lemma ShiftedRemainder(num: nat, d: nat, n: nat, sr0: nat, sr: nat, quo: nat, q: nat, r: nat, carry: nat)
    requires sr > 0 && Restoring(num, d, n, sr0, sr, quo, q, r, carry)
    ensures var bit := Shr(q, n - 1);
            && bit < 2 && num / Pow2(sr - 1) == 2 * (num / Pow2(sr)) + bit
            && Or(Shl(r, 1, n), bit) == 2 * r + bit && MaskSound(d, 2 * r + bit, n)
  {
    Pow2Mono(sr0 - sr, n - sr + 1);
    RegisterStep(num, n, sr, quo, q);
    var bit := Shr(q, n - 1);
    DigitStep(num / Pow2(sr), quo, d, r, bit);
    NextPartBound(num, n, sr, quo, d, r, bit, sr0);
    ShiftIn(r, bit, n);
  }

  /** The remainder register after the masked subtraction. */
  lemma ReducedRemainder(num: nat, d: nat, n: nat, sr0: nat, sr: nat, quo: nat, q: nat, r: nat, carry: nat,
                         r': nat, s: nat)
    requires sr > 0 && Restoring(num, d, n, sr0, sr, quo, q, r, carry)
    requires r' == Or(Shl(r, 1, n), Shr(q, n - 1)) && s == CompareMask(d, r', n)
    ensures 0 <= r' - And(d, s) < d && And(s, 1) < 2
    ensures num / Pow2(sr - 1) == (2 * quo + And(s, 1)) * d + (r' - And(d, s))
  {
    ShiftedRemainder(num, d, n, sr0, sr, quo, q, r, carry);
    DigitStep(num / Pow2(sr), quo, d, r, Shr(q, n - 1));
    CompareMaskMeaning(d, r', n);
  }

  /** The quotient register after its shift. */
  lemma ShiftedQuotient(num: nat, d: nat, n: nat, sr0: nat, sr: nat, quo: nat, q: nat, r: nat, carry: nat, bit: nat)
    requires sr > 0 && Restoring(num, d, n, sr0, sr, quo, q, r, carry) && bit < 2
    ensures Registers(num, n, sr - 1, 2 * quo + bit, Or(Shl(q, 1, n), carry))
    ensures 2 * quo + bit < Pow2(sr0 - (sr - 1))
  {
    Pow2Mono(sr0 - sr, n - sr + 1);
    RegisterStep(num, n, sr, quo, q);
    ShiftIn(q, carry, n);
    Pow2Succ(sr0 - sr);
    assert (2 * quo + bit) / 2 == quo;
  }

  /** The branch-free loop body keeps the invariant; r' and s are its shifted remainder and mask. */
  lemma RestoringStep(num: nat, d: nat, n: nat, sr0: nat, sr: nat, quo: nat, q: nat, r: nat, carry: nat,
                      r': nat, s: nat)
    requires sr > 0 && Restoring(num, d, n, sr0, sr, quo, q, r, carry)
    requires r' == Or(Shl(r, 1, n), Shr(q, n - 1)) && s == CompareMask(d, r', n)
    ensures And(d, s) <= r'
    ensures Restoring(num, d, n, sr0, sr - 1, 2 * quo + And(s, 1), Or(Shl(q, 1, n), carry), r' - And(d, s), And(s, 1))
  {
    var bit := And(s, 1);
    ReducedRemainder(num, d, n, sr0, sr, quo, q, r, carry, r', s);
    ShiftedQuotient(num, d, n, sr0, sr, quo, q, r, carry, bit);
    LastBit(quo, bit);
    RestoringFrom(num, d, n, sr0, sr - 1, 2 * quo + bit, Or(Shl(q, 1, n), carry), r' - And(d, s), bit);
  }

  lemma LastBit(quo: nat, bit: nat)
    requires bit < 2
    ensures (2 * quo + bit) % 2 == bit && (2 * quo + bit) / 2 == quo
  {}

  lemma RestoringFrom(num: nat, d: nat, n: nat, sr0: nat, sr: nat, quo: nat, q: nat, r: nat, carry: nat)
    requires n >= 1 && StartShift(num, d, n, sr0) && sr <= sr0
    requires num / Pow2(sr) == quo * d + r && r < d
    requires quo < Pow2(sr0 - sr) && carry == quo % 2 && Registers(num, n, sr, quo, q)
    ensures Restoring(num, d, n, sr0, sr, quo, q, r, carry)
  {}

  /** The loop shared by __udivXi3 and __umodXi3. */
  method Restore(num: nat, d: nat, n: nat, sr0: nat) returns (q: nat, r: nat)
    requires n >= 1 && StartShift(num, d, n, sr0)
    ensures q == num / d && r == num % d
  {
    var sr: nat := sr0;
    r := Shr(num, sr);
    q := Shl(num, n - sr, n);
    var carry := 0;
    ghost var quo := 0;
    RestoringStart(num, d, n, sr0);
    while sr > 0
      invariant Restoring(num, d, n, sr0, sr, quo, q, r, carry)
    {
      var r' := Or(Shl(r, 1, n), Shr(q, n - 1));
      var s := CompareMask(d, r', n);
      RestoringStep(num, d, n, sr0, sr, quo, q, r, carry, r', s);
      q := Or(Shl(q, 1, n), carry);
      carry := And(s, 1);
      r := r' - And(d, s);
      quo := 2 * quo + carry;
      sr := sr - 1;
    }
    FinishQuotient(num, d, n, quo, r, q);
    q := Or(Shl(q, 1, n), carry);
  }

  /** The shifted partial remainder still fits the word and compares soundly. */
  lemma NextPartBound(num: nat, n: nat, sr: nat, quo: nat, d: nat, r: nat, bit: nat, sr0: nat)
    requires n >= 1 && 1 <= sr <= sr0 && StartShift(num, d, n, sr0)
    requires num / Pow2(sr) == quo * d + r && r < d && bit < 2 && quo < Pow2(sr0 - sr)
    requires num / Pow2(sr - 1) == 2 * (num / Pow2(sr)) + bit
    ensures 2 * r + bit < Pow2(n)
    ensures (2 * r + bit) % Pow2(n) == 2 * r + bit
    ensures MaskSound(d, 2 * r + bit, n)
  {
    QuotientBelow(num, Pow2(sr - 1));
    MulNonNeg(quo, d);
    PartBelow(num / Pow2(sr - 1), num / Pow2(sr), quo * d, r, bit, num, Pow2(n));
    if d >= Pow2(n - 1) {
      assert sr == 1 && Pow2(0) == 1;
      WholePart(num, num / Pow2(sr), quo, d, r, bit);
    }
  }

  lemma QuotientBelow(num: nat, p: nat)
    requires p > 0
    ensures num / p <= num
  {
    MulMono(1, p, num + 1);
    DivBound(num, p, num + 1) by {
      assert (num + 1) * p == p * (num + 1);
    }
  }

  lemma PartBelow(next: nat, part: nat, whole: nat, r: nat, bit: nat, num: nat, m: nat)
    requires next == 2 * part + bit && part == whole + r && next <= num < m
    ensures 2 * r + bit < m && (2 * r + bit) % m == 2 * r + bit
  {
    ModSmall(2 * r + bit, m);
  }

  lemma WholePart(num: nat, part: nat, quo: nat, d: nat, r: nat, bit: nat)
    requires quo == 0 && part == quo * d + r && num / 1 == 2 * part + bit
    ensures 2 * r + bit == num
  {}

  lemma FinishQuotient(num: nat, d: nat, n: nat, quo: nat, r: nat, q: nat)
    requires n >= 1 && 0 < d && num < Pow2(n) && num / Pow2(0) == quo * d + r && r < d
    requires Registers(num, n, 0, quo, q)
    ensures Or(Shl(q, 1, n), quo % 2) == num / d && r == num % d
  {
    DivModOne(num);
    assert q == quo / 2;
    DivModUnique(num, d, quo, r);
    assert quo <= num by {
      MulMono(1, d, quo);
      assert quo * d == d * quo;
    }
    ShiftIn(q, quo % 2, n);
    ModSmall(quo, Pow2(n));
  }

  /** __udivXi3 at any width: mathematical division for every dividend and every non-zero divisor. */
  method UDiv(num: nat, d: nat, n: nat) returns (q: nat)
    requires n >= 1 && num < Pow2(n) && 0 < d < Pow2(n)
    ensures q == num / d
  {
    ClzOrder(num, d, n);
    ClzOne(d, n);
    var sr := Clz(d, n) - Clz(num, n);
    if sr < 0 || sr > n - 1 {
      ModSmall(num, d);
      return 0;
    }
    if sr == n - 1 {
      assert d == 1;
      return num;
    }
    StartShiftFromClz(num, d, n);
    var r;
    q, r := Restore(num, d, n, sr + 1);
  }

  /** __umodXi3 at any width. */
  method UMod(num: nat, d: nat, n: nat) returns (r: nat)
    requires n >= 1 && num < Pow2(n) && 0 < d < Pow2(n)
    ensures r == num % d
  {
    ClzOrder(num, d, n);
    ClzOne(d, n);
    var sr := Clz(d, n) - Clz(num, n);
    if sr < 0 || sr > n - 1 {
      ModSmall(num, d);
      return num;
    }
    if sr == n - 1 {
      assert d == 1;
      return 0;
    }
    StartShiftFromClz(num, d, n);
    var q;
    q, r := Restore(num, d, n, sr + 1);
  }
}
