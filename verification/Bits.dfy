/** Integer arithmetic shared by the models: quotients, remainders and products of unbounded integers. */
module Arith {

  /**
   * Always true. A definition written `forall i: int {:trigger Open(i)} :: Open(i) ==> ...` is looked up by
   * the verifier only where some Open(_) is mentioned, which keeps its arithmetic out of other proofs.
   */
  ghost predicate Open(i: int) { true }

  /** A quotient and remainder in range are the quotient and the remainder. */
  lemma DivModUnique(x: int, d: int, q: int, r: int)
    requires d > 0 && 0 <= r < d && x == q * d + r
    ensures x / d == q && x % d == r
  {
    var q', r' := x / d, x % d;
    assert x == q' * d + r';
    if q' > q {
      assert (q + 1) * d == q * d + d;
      MulMono(q + 1, q', d);
    } else if q' < q {
      assert (q' + 1) * d == q' * d + d;
      MulMono(q' + 1, q, d);
    }
  }

  lemma MulMono(a: int, b: int, c: int)
    requires a <= b && 0 <= c
    ensures a * c <= b * c
  {}

  lemma MulNonNeg(a: int, b: int)
    requires 0 <= a && 0 <= b
    ensures 0 <= a * b
  {}

  lemma MulAssoc(a: int, b: int, c: int)
    ensures a * (b * c) == a * b * c
  {}

  lemma Distribute(a: int, b: int, c: int)
    ensures (a + b) * c == a * c + b * c
  {}

  lemma DivModOne(x: int)
    ensures x / 1 == x && x % 1 == 0
  {}

  lemma DivIdentity(x: int, d: int)
    requires d > 0
    ensures x == (x / d) * d + x % d && 0 <= x % d < d
  {}

  /** Dividing in two stages is dividing by the product. */
  lemma DivDiv(x: nat, a: nat, b: nat)
    requires a > 0 && b > 0
    ensures a * b > 0
    ensures (x / a) / b == x / (a * b)
    ensures x % (a * b) == (x / a % b) * a + x % a
  {
    MulMono(1, a, b);
    var y, r := x / a, x % a;
    var q, t := y / b, y % b;
    calc {
      x;
      y * a + r;
      { assert y == q * b + t; }
      (q * b + t) * a + r;
      q * b * a + t * a + r;
      { assert q * b * a == q * (a * b); }
      q * (a * b) + (t * a + r);
    }
    MulMono(t, b - 1, a);
    assert (b - 1) * a == a * b - a;
    MulNonNeg(t, a);
    DivModUnique(x, a * b, q, t * a + r);
  }

  /** Adding a multiple of the modulus does not change the remainder. */
  lemma ModAddMul(x: int, k: int, d: int)
    requires d > 0
    ensures (x + k * d) % d == x % d
    ensures (x + k * d) / d == x / d + k
  {
    assert x == (x / d) * d + x % d;
    assert (x / d + k) * d == (x / d) * d + k * d;
    DivModUnique(x + k * d, d, x / d + k, x % d);
  }

  /** Congruent numbers have equal remainders. */
  lemma ModEqual(x: int, y: int, k: int, d: int)
    requires d > 0 && x == y + k * d
    ensures x % d == y % d
  {
    ModAddMul(y, k, d);
  }

  /** A value already in range is its own remainder. */
  lemma ModSmall(x: int, d: int)
    requires 0 <= x < d
    ensures x % d == x && x / d == 0
  {
    DivModUnique(x, d, 0, x);
  }

  /** Scaling both sides of a division scales the remainder and keeps the quotient. */
  lemma DivModScale(x: nat, d: nat, c: nat)
    requires d > 0 && c > 0
    ensures d * c > 0
    ensures (x * c) / (d * c) == x / d
    ensures (x * c) % (d * c) == (x % d) * c
  {
    MulMono(1, d, c);
    var q, r := x / d, x % d;
    assert x * c == (q * d + r) * c == q * (d * c) + r * c;
    MulMono(r, d - 1, c);
    assert (d - 1) * c == d * c - c;
    MulNonNeg(r, c);
    DivModUnique(x * c, d * c, q, r * c);
  }

  lemma DivMono(x: int, y: int, d: int)
    requires x <= y && d > 0
    ensures x / d <= y / d
  {
    assert x == (x / d) * d + x % d && y == (y / d) * d + y % d;
    if x / d > y / d {
      assert (y / d + 1) * d == (y / d) * d + d;
      MulMono(y / d + 1, x / d, d);
    }
  }

  /** A number below d * m has a quotient by d below m. */
  lemma DivBound(x: nat, d: nat, m: nat)
    requires d > 0 && x < m * d
    ensures x / d < m
  {
    if x / d >= m {
      MulMono(m, x / d, d);
    }
  }

  /** A number below k * m splits into a quotient below k and a remainder below m. */
  lemma SplitAt(x: nat, m: nat, k: nat)
    requires m > 0 && x < k * m
    ensures x / m < k && x % m < m && x == (x / m) * m + x % m
  {
    DivBound(x, m, k);
  }

  lemma DivBoundBelow(x: nat, d: nat, m: nat)
    requires d > 0 && m * d <= x
    ensures m <= x / d
  {
    if x / d < m {
      assert (x / d + 1) * d == (x / d) * d + d;
      MulMono(x / d + 1, m, d);
    }
  }
}

/**
 * Unsigned machine words of any width as natural numbers. `&`, `|` and `^` are defined bit by bit,
 * shifts by powers of two, and a left shift drops the bits that leave the word.
 */
module Bits {
  import opened Arith

  /** 2^e. The accumulator keeps the verifier from unfolding powers inside products; see Pow2Succ. */
  function Pow2(e: nat): (p: nat)
    ensures p > 0
  {
    Doubled(1, e)
  }

  function Doubled(x: nat, times: nat): (r: nat)
    requires x > 0
    ensures r > 0
    decreases times
  {
    if times == 0 then x else Doubled(2 * x, times - 1)
  }

  function And(a: nat, b: nat): (r: nat)
  {
    if a == 0 || b == 0 then 0
    else 2 * And(a / 2, b / 2) + (if a % 2 == 1 && b % 2 == 1 then 1 else 0)
  }

  function Or(a: nat, b: nat): (r: nat)
  {
    if a == 0 then b
    else if b == 0 then a
    else 2 * Or(a / 2, b / 2) + (if a % 2 == 1 || b % 2 == 1 then 1 else 0)
  }

  function Xor(a: nat, b: nat): (r: nat)
  {
    if a == 0 then b
    else if b == 0 then a
    else 2 * Xor(a / 2, b / 2) + (if a % 2 != b % 2 then 1 else 0)
  }

  /** x << s in a word of n bits. */
  function Shl(x: nat, s: nat, n: nat): (r: nat)
  {
    (x * Pow2(s)) % Pow2(n)
  }

  /** x >> s on an unsigned word. */
  function Shr(x: nat, s: nat): (r: nat)
  {
    x / Pow2(s)
  }

  /** Subtraction in a word of n bits. */
  function Sub(x: int, y: int, n: nat): (r: nat)
  {
    (x - y) % Pow2(n)
  }

  /** Arithmetic shift of the n-bit pattern x by n - 1: every bit becomes the sign bit. */
  function SignMask(x: nat, n: nat): (r: nat)
    requires n >= 1
  {
    if x >= Pow2(n - 1) then Pow2(n) - 1 else 0
  }

  /** Number of significant bits. */
  function BitLen(x: nat): (l: nat)
  {
    if x == 0 then 0 else 1 + BitLen(x / 2)
  }

  /** Leading zeros of x in a word of n bits, and n for zero. */
  function Clz(x: nat, n: nat): (c: nat)
    requires x < Pow2(n)
  {
    BitLenBound(x, n);
    n - BitLen(x)
  }

  /** Trailing zeros of a non-zero word. */
  function Ctz(x: nat): (c: nat)
    requires x > 0
  {
    if x % 2 == 1 then 0 else 1 + Ctz(x / 2)
  }

  // ---- powers of two

  lemma {:induction false} DoubledTwice(x: nat, times: nat)
    requires x > 0
    ensures Doubled(2 * x, times) == 2 * Doubled(x, times)
    decreases times
  {
    if times > 0 {
      DoubledTwice(2 * x, times - 1);
    }
  }

  lemma Pow2Succ(e: nat)
    ensures Pow2(e + 1) == 2 * Pow2(e)
  {
    DoubledTwice(1, e);
  }

  lemma {:induction false} Pow2Add(a: nat, b: nat)
    ensures Pow2(a + b) == Pow2(a) * Pow2(b)
  {
    if a != 0 {
      Pow2Add(a - 1, b);
      Pow2Succ(a - 1);
      Pow2Succ(a - 1 + b);
      assert 2 * (Pow2(a - 1) * Pow2(b)) == 2 * Pow2(a - 1) * Pow2(b);
    }
  }

  lemma {:induction false} Pow2Mono(a: nat, b: nat)
    requires a <= b
    ensures Pow2(a) <= Pow2(b)
  {
    if a < b {
      Pow2Mono(a, b - 1);
      Pow2Succ(b - 1);
    }
  }

  lemma Pow2Square(a: nat)
    ensures Pow2(2 * a) == Pow2(a) * Pow2(a)
  {
    Pow2Add(a, a);
    assert a + a == 2 * a;
  }

  lemma Pow2Split(a: nat, n: nat)
    requires a <= n
    ensures Pow2(n) == Pow2(a) * Pow2(n - a)
  {
    Pow2Add(a, n - a);
  }

  lemma Pow2Double(c: nat, k: nat)
    ensures c * Pow2(k + 1) == 2 * (c * Pow2(k))
  {
    Pow2Succ(k);
    assert c * (2 * Pow2(k)) == 2 * (c * Pow2(k));
  }

  // ---- bit lengths

  lemma {:induction false} BitLenBound(x: nat, n: nat)
    requires x < Pow2(n)
    ensures BitLen(x) <= n
  {
    if x != 0 {
      assert n > 0;
      Pow2Succ(n - 1);
      BitLenBound(x / 2, n - 1);
    }
  }

  lemma HalfRange(x: nat, low: nat, high: nat)
    requires low <= x / 2 < high
    ensures 2 * low <= x < 2 * high
  {}

  lemma {:induction false} BitLenRange(x: nat)
    requires x > 0
    ensures BitLen(x) >= 1
    ensures Pow2(BitLen(x) - 1) <= x < Pow2(BitLen(x))
  {
    if x > 1 {
      BitLenRange(x / 2);
      Pow2Succ(BitLen(x / 2) - 1);
      Pow2Succ(BitLen(x / 2));
      HalfRange(x, Pow2(BitLen(x / 2) - 1), Pow2(BitLen(x / 2)));
    }
  }

  lemma {:induction false} BitLenMono(x: nat, y: nat)
    requires x <= y
    ensures BitLen(x) <= BitLen(y)
  {
    if x > 0 {
      BitLenMono(x / 2, y / 2);
    }
  }

  /** Clz places a non-zero word between two neighbouring powers of two. */
  lemma ClzRange(x: nat, n: nat)
    requires 0 < x < Pow2(n)
    ensures Clz(x, n) < n
    ensures Pow2(n - 1 - Clz(x, n)) <= x < Pow2(n - Clz(x, n))
  {
    BitLenBound(x, n);
    BitLenRange(x);
  }

  /** A larger word has no more leading zeros. */
  lemma ClzAntitone(x: nat, y: nat, n: nat)
    requires x <= y < Pow2(n)
    ensures Clz(y, n) <= Clz(x, n)
  {
    BitLenBound(x, n);
    BitLenBound(y, n);
    BitLenMono(x, y);
  }

  // ---- masks

  lemma {:induction false} AndMask(x: nat, k: nat)
    ensures And(x, Pow2(k) - 1) == x % Pow2(k)
  {
    if x == 0 {
      ModSmall(0, Pow2(k));
    } else if k > 0 {
      Pow2Succ(k - 1);
      AndMask(x / 2, k - 1);
      AndOddMask(x, Pow2(k - 1));
      DivDiv(x, 2, Pow2(k - 1));
    }
  }

  lemma AndOddMask(x: nat, m: nat)
    requires m > 0
    ensures And(x, 2 * m - 1) == 2 * And(x / 2, m - 1) + x % 2
  {
    assert (2 * m - 1) / 2 == m - 1;
  }

  lemma AndOnes(x: nat, k: nat)
    requires x < Pow2(k)
    ensures And(x, Pow2(k) - 1) == x
  {
    AndMask(x, k);
    ModSmall(x, Pow2(k));
  }

  /** A word of two digits is made of its high and its low one. */
  lemma WordDigits(x: nat, h: nat)
    requires x < Pow2(2 * h)
    ensures Pow2(2 * h) == Pow2(h) * Pow2(h)
    ensures Shr(x, h) < Pow2(h) && And(x, Pow2(h) - 1) < Pow2(h)
    ensures Shr(x, h) * Pow2(h) + And(x, Pow2(h) - 1) == x
  {
    Pow2Square(h);
    AndMask(x, h);
    SplitAt(x, Pow2(h), Pow2(h));
  }

  lemma {:induction false} OrDisjoint(a: nat, b: nat, k: nat)
    requires a % Pow2(k) == 0 && b < Pow2(k)
    ensures Or(a, b) == a + b
  {
    if a == 0 || b == 0 {
    } else {
      assert k > 0;
      Pow2Succ(k - 1);
      DivDiv(a, 2, Pow2(k - 1));
      MulNonNeg(a / 2 % Pow2(k - 1), 2);
      OrDisjoint(a / 2, b / 2, k - 1);
    }
  }

  lemma {:induction false} XorOnes(x: nat, k: nat)
    requires x < Pow2(k)
    ensures Xor(x, Pow2(k) - 1) == Pow2(k) - 1 - x
  {
    if k == 0 || x == 0 {
    } else {
      Pow2Succ(k - 1);
      XorOnes(x / 2, k - 1);
      XorOddMask(x, Pow2(k - 1));
    }
  }

  lemma XorOddMask(x: nat, m: nat)
    requires x > 0 && m > 0
    ensures Xor(x, 2 * m - 1) == 2 * Xor(x / 2, m - 1) + (1 - x % 2)
  {
    assert (2 * m - 1) / 2 == m - 1;
  }

  /** A left shift is a multiple of the power it shifts by, so the vacated low bits are zero. */
  lemma ShlMultiple(x: nat, s: nat, n: nat)
    requires s <= n
    ensures Shl(x, s, n) == (x % Pow2(n - s)) * Pow2(s)
    ensures Shl(x, s, n) % Pow2(s) == 0
    ensures Shl(x, s, n) < Pow2(n)
  {
    var p, c := Pow2(s), Pow2(n - s);
    Pow2Split(s, n);
    assert Pow2(n) == c * p;
    DivModScale(x, c, p);
    DivIdentity(x * p, Pow2(n));
    DivModUnique((x % c) * p, p, x % c, 0);
  }

  /** (x << 1) | bit, the step every restoring division makes. */
  lemma ShiftIn(x: nat, bit: nat, n: nat)
    requires n >= 1 && bit < 2
    ensures Or(Shl(x, 1, n), bit) == (2 * x + bit) % Pow2(n)
  {
    ShlMultiple(x, 1, n);
    assert Pow2(1) == 2;
    OrDisjoint(Shl(x, 1, n), bit, 1);
    Pow2Succ(n - 1);
    DoubleMod(x, bit, Pow2(n - 1));
  }

  lemma DoubleMod(x: nat, bit: nat, p: nat)
    requires bit < 2 && p > 0
    ensures (2 * x) % (2 * p) == 2 * (x % p) && (2 * x + bit) % (2 * p) == 2 * (x % p) + bit
  {
    var y := x % p;
    DivIdentity(x, p);
    assert (x / p) * (2 * p) == 2 * ((x / p) * p);
    DivModUnique(2 * x, 2 * p, x / p, 2 * y);
    DivModUnique(2 * x + bit, 2 * p, x / p, 2 * y + bit);
  }

  /** Bit k - 1 of a number, and the bits below it. */
  lemma BitSplit(x: nat, k: nat)
    requires k >= 1
    ensures x % Pow2(k) == (x / Pow2(k - 1) % 2) * Pow2(k - 1) + x % Pow2(k - 1)
    ensures x / Pow2(k - 1) == 2 * (x / Pow2(k)) + x / Pow2(k - 1) % 2
  {
    var p := Pow2(k - 1);
    Pow2Succ(k - 1);
    DivDiv(x, p, 2);
    assert p * 2 == Pow2(k);
    DivIdentity(x / p, 2);
  }

  /** The test d & (d - 1) == 0 finds exactly the powers of two, and Ctz gives the exponent. */
  lemma {:induction false} PowerOfTwoTest(d: nat)
    requires d > 0
    ensures And(d, d - 1) == 0 <==> d == Pow2(Ctz(d))
  {
    if d % 2 == 1 {
      if d > 1 {
        assert d / 2 == (d - 1) / 2;
        AndSelf(d / 2);
      }
    } else {
      PowerOfTwoTest(d / 2);
      Pow2Succ(Ctz(d / 2));
      assert (d - 1) / 2 == d / 2 - 1;
    }
  }

  lemma {:induction false} AndSelf(x: nat)
    ensures And(x, x) == x
  {
    if x > 0 {
      AndSelf(x / 2);
    }
  }

  lemma {:induction false} CtzBound(d: nat, n: nat)
    requires 0 < d < Pow2(n)
    ensures Ctz(d) < n
  {
    if d % 2 == 0 {
      Pow2Succ(n - 1);
      CtzBound(d / 2, n - 1);
    }
  }
}
