/**
 * The signed wrappers around unsigned division: __divXi3, __modXi3 and __divmodti4. Signed words are
 * integers in [-2^(n-1), 2^(n-1)); their bit patterns are naturals below 2^n.
 */
module SignedDivision {
  import opened Arith
  import opened Bits
  import opened DoubleDivision
  import opened TwoWordDivision

  function Min(n: nat): (r: int)
    requires n >= 1
  {
    0 - Pow2(n - 1)
  }

  ghost predicate InRange(x: int, n: nat)
  {
    n >= 1 && Min(n) <= x < Pow2(n - 1)
  }

  function Pattern(x: int, n: nat): (p: nat)
  {
    x % Pow2(n)
  }

  function Signed(p: nat, n: nat): (x: int)
    requires n >= 1
  {
    if p >= Pow2(n - 1) then p - Pow2(n) else p
  }

  /** (p ^ s) - s, where s is a sign mask: keep p or negate it in two's complement. */
  function ConditionalNegate(p: nat, s: nat, n: nat): (r: nat)
  {
    (Xor(p, s) - s) % Pow2(n)
  }

  lemma ConditionalNegateMeaning(p: nat, n: nat)
    requires p < Pow2(n)
    ensures ConditionalNegate(p, 0, n) == p
    ensures ConditionalNegate(p, Pow2(n) - 1, n) == if p == 0 then 0 else Pow2(n) - p
  {
    ModSmall(p, Pow2(n));
    assert Xor(p, 0) == p;
    XorOnes(p, n);
    if p == 0 {
      ModSmall(0, Pow2(n));
    } else {
      DivModUnique(0 - p, Pow2(n), -1, Pow2(n) - p);
    }
  }

  /** A signed value and its pattern determine each other. */
  lemma PatternRoundTrip(x: int, n: nat)
    requires InRange(x, n)
    ensures Signed(Pattern(x, n), n) == x
    ensures SignMask(Pattern(x, n), n) == if x < 0 then Pow2(n) - 1 else 0
  {
    PatternValue(x, n);
    Pow2Double(1, n - 1);
  }

  lemma PatternValue(x: int, n: nat)
    requires InRange(x, n)
    ensures Pattern(x, n) == if x < 0 then x + Pow2(n) else x
  {
    Pow2Double(1, n - 1);
    if x < 0 {
      DivModUnique(x, Pow2(n), -1, x + Pow2(n));
    } else {
      ModSmall(x, Pow2(n));
    }
  }

  function Abs(x: int): (r: nat) { if x < 0 then -x else x }

  /** The magnitude of every signed word fits an unsigned word, the minimum included. */
  lemma Magnitude(x: int, n: nat)
    requires InRange(x, n)
    ensures ConditionalNegate(Pattern(x, n), SignMask(Pattern(x, n), n), n) == Abs(x) < Pow2(n)
  {
    var m, p := Pow2(n), Pattern(x, n);
    Pow2Double(1, n - 1);
    PatternRoundTrip(x, n);
    PatternValue(x, n);
    ConditionalNegateMeaning(p, n);
  }

  /** The xor of two sign masks is the mask of the product's sign. */
  lemma SignXor(n: nat)
    ensures var ones := Pow2(n) - 1;
            Xor(0, 0) == 0 && Xor(0, ones) == ones && Xor(ones, 0) == ones && Xor(ones, ones) == 0
  {
    XorOnes(Pow2(n) - 1, n);
  }

  /** Applying a sign to a magnitude gives the signed value whenever that value is in range. */
  lemma ApplySign(u: nat, negative: bool, n: nat)
    requires n >= 1 && u < Pow2(n)
    ensures var s := if negative then Pow2(n) - 1 else 0;
            var x: int := if negative then 0 - u else u;
            && (InRange(x, n) ==> Signed(ConditionalNegate(u, s, n), n) == x)
            && (u == Pow2(n - 1) ==> Signed(ConditionalNegate(u, s, n), n) == Min(n))
  {
    ConditionalNegateMeaning(u, n);
    Pow2Double(1, n - 1);
    if negative {
      if InRange(0 - u, n) {
        PatternRoundTrip(0 - u, n);
      }
      if u == Pow2(n - 1) {
        DivModUnique(0 - u, Pow2(n), -1, u);
      }
    }
  }

  /** What C promises of a / b and a % b: truncation toward zero, remainder with the dividend's sign. */
  ghost predicate Truncated(a: int, b: int, q: int, r: int)
  {
    b != 0 && a == q * b + r && Abs(r) < Abs(b) && (r > 0 ==> a > 0) && (r < 0 ==> a < 0)
  }

  lemma TruncatedUnique(a: int, b: int, q: int, r: int, q': int, r': int)
    requires Truncated(a, b, q, r) && Truncated(a, b, q', r')
    ensures q == q' && r == r'
  {
    var k := q - q';
    Distribute(q', k, b);
    SignedProduct(k, b);
    if k != 0 {
      MulMono(1, Abs(k), Abs(b));
    }
  }

  lemma SignedProduct(k: int, b: int)
    ensures Abs(k) * Abs(b) == Abs(k * b)
  {
    if k >= 0 && b >= 0 {
      MulNonNeg(k, b);
    } else if k >= 0 {
      MulNonNeg(k, -b);
      assert k * b == -(k * -b);
    } else if b >= 0 {
      MulNonNeg(-k, b);
      assert k * b == -(-k * b);
    } else {
      MulNonNeg(-k, -b);
      assert k * b == -k * -b;
    }
  }

  /** Signing the unsigned quotient and remainder of the magnitudes gives truncated division. */
  lemma SignsOfQuotient(a: int, b: int, q: nat, r: nat)
    requires b != 0 && Abs(a) == q * Abs(b) + r && r < Abs(b)
    ensures Truncated(a, b, if (a < 0) != (b < 0) then 0 - q else q, if a < 0 then 0 - r else r)
  {
    assert (0 - q) * b == 0 - q * b && q * (0 - b) == 0 - q * b;
    MulNonNeg(q, Abs(b));
  }

  /** The quotient leaves the range only for the minimum divided by minus one. */
  lemma QuotientRange(a: int, b: int, n: nat)
    requires InRange(a, n) && InRange(b, n) && b != 0
    ensures Abs(a) / Abs(b) <= Pow2(n - 1)
    ensures Abs(a) / Abs(b) == Pow2(n - 1) ==> a == Min(n) && Abs(b) == 1
    ensures Abs(a) % Abs(b) < Pow2(n - 1)
  {
    MagnitudeQuotient(Abs(a), Abs(b), Pow2(n - 1));
  }

  lemma MagnitudeQuotient(x: nat, y: nat, m: nat)
    requires 0 < y <= m && x <= m
    ensures x / y <= m && x % y < m
    ensures x / y == m ==> x == m && y == 1
  {
    var q := x / y;
    DivIdentity(x, y);
    if y >= 2 {
      MulMono(2, y, q);
      assert y * q == q * y;
    }
  }

  ghost predicate SignedDivisionSpec(a: int, b: int, n: nat, q: int, r: int)
    requires n >= 1
  {
    if a == Min(n) && b == -1 then q == Min(n) && r == 0
    else Truncated(a, b, q, r)
  }

  /** The sign manipulation around an exact unsigned division. */
  lemma SignedFromUnsigned(a: int, b: int, n: nat, uq: nat, ur: nat)
    requires InRange(a, n) && InRange(b, n) && b != 0
    requires uq == Abs(a) / Abs(b) && ur == Abs(a) % Abs(b)
    ensures var sa, sb := SignMask(Pattern(a, n), n), SignMask(Pattern(b, n), n);
            SignedDivisionSpec(a, b, n, Signed(ConditionalNegate(uq, Xor(sb, sa), n), n),
                               Signed(ConditionalNegate(ur, sa, n), n))
  {
    PatternRoundTrip(a, n);
    PatternRoundTrip(b, n);
    SignXor(n);
    QuotientRange(a, b, n);
    Pow2Double(1, n - 1);
    ApplySign(uq, (a < 0) != (b < 0), n);
    ApplySign(ur, a < 0, n);
    DivIdentity(Abs(a), Abs(b));
    SignsOfQuotient(a, b, uq, ur);
    if a == Min(n) && b == -1 {
      DivModUnique(Abs(a), 1, Abs(a), 0);
    }
  }

  /** __divmodti4, and with it __divti3 and __modti3, which return one half of the result each. */
  method DivModDouble(a: int, b: int, h: nat) returns (q: int, r: int)
    requires h >= 1 && InRange(a, 4 * h) && InRange(b, 4 * h) && b != 0
    ensures SignedDivisionSpec(a, b, 4 * h, q, r)
  {
    var n := 4 * h;
    var sa, sb := SignMask(Pattern(a, n), n), SignMask(Pattern(b, n), n);
    Magnitude(a, n);
    Magnitude(b, n);
    var ua := ConditionalNegate(Pattern(a, n), sa, n);
    var ub := ConditionalNegate(Pattern(b, n), sb, n);
    var uq, ur := UDivMod(ua, ub, h);
    SignedFromUnsigned(a, b, n, uq, ur);
    q := Signed(ConditionalNegate(uq, Xor(sb, sa), n), n);
    r := Signed(ConditionalNegate(ur, sa, n), n);
  }

  /** __divdi3 and __moddi3, on top of the two-word unsigned division. */
  method DivModPair(a: int, b: int, w: nat) returns (q: int, r: int)
    requires w >= 1 && InRange(a, 2 * w) && InRange(b, 2 * w) && b != 0
    ensures SignedDivisionSpec(a, b, 2 * w, q, r)
  {
    var n := 2 * w;
    var sa, sb := SignMask(Pattern(a, n), n), SignMask(Pattern(b, n), n);
    Magnitude(a, n);
    Magnitude(b, n);
    var ua := ConditionalNegate(Pattern(a, n), sa, n);
    var ub := ConditionalNegate(Pattern(b, n), sb, n);
    Halves(ua, w);
    Halves(ub, w);
    var uq, ur := UDivModPair(High(ua, w), Low(ua, w), High(ub, w), Low(ub, w), w);
    SignedFromUnsigned(a, b, n, uq, ur);
    q := Signed(ConditionalNegate(uq, Xor(sb, sa), n), n);
    r := Signed(ConditionalNegate(ur, sa, n), n);
  }
}
