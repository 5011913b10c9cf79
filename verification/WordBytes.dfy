/**
 * Eight bytes in a 64-bit little-endian word: finding the first zero byte, and the first difference,
 * with a few word operations.
 */
module WordBytes {

  /** Marks the words and bytes whose bits a proof looks at. */
  ghost predicate Seen(x: bv64, j: nat, i: int)
  {
    true
  }

  /** Byte j of the word x is zero, byte 0 being the one at the lowest address. */
  ghost predicate Clear(x: bv64, j: nat)
  {
    forall i: int {:trigger Seen(x, j, i)} :: Seen(x, j, i) ==>
      && (j == 0 ==> x & 0xFF == 0)
      && (j == 1 ==> x & 0xFF00 == 0)
      && (j == 2 ==> x & 0xFF_0000 == 0)
      && (j == 3 ==> x & 0xFF00_0000 == 0)
      && (j == 4 ==> x & 0xFF_0000_0000 == 0)
      && (j == 5 ==> x & 0xFF00_0000_0000 == 0)
      && (j == 6 ==> x & 0xFF_0000_0000_0000 == 0)
      && (j == 7 ==> x & 0xFF00_0000_0000_0000 == 0)
  }

  /** All bytes below byte k are zero. */
  ghost predicate ClearBelow(x: bv64, k: nat)
  {
    forall j: nat :: j < k ==> Clear(x, j)
  }

  /** Which of the eight bytes of a word are zero. */
  ghost predicate ByteZeros(x: bv64, z0: bool, z1: bool, z2: bool, z3: bool, z4: bool, z5: bool, z6: bool, z7: bool)
  {
    && (z0 <==> x & 0xFF == 0)
    && (z1 <==> x & 0xFF00 == 0)
    && (z2 <==> x & 0xFF_0000 == 0)
    && (z3 <==> x & 0xFF00_0000 == 0)
    && (z4 <==> x & 0xFF_0000_0000 == 0)
    && (z5 <==> x & 0xFF00_0000_0000 == 0)
    && (z6 <==> x & 0xFF_0000_0000_0000 == 0)
    && (z7 <==> x & 0xFF00_0000_0000_0000 == 0)
  }

  lemma ClearValue(x: bv64)
    ensures ByteZeros(x, Clear(x, 0), Clear(x, 1), Clear(x, 2), Clear(x, 3),
                      Clear(x, 4), Clear(x, 5), Clear(x, 6), Clear(x, 7))
  {
    assert Seen(x, 0, 0) && Seen(x, 1, 0) && Seen(x, 2, 0) && Seen(x, 3, 0);
    assert Seen(x, 4, 0) && Seen(x, 5, 0) && Seen(x, 6, 0) && Seen(x, 7, 0);
  }

  lemma AllClear(x: bv64)
    requires ClearBelow(x, 8)
    ensures x == 0
  {
    ClearValue(x);
    assert Clear(x, 0) && Clear(x, 1) && Clear(x, 2) && Clear(x, 3);
    assert Clear(x, 4) && Clear(x, 5) && Clear(x, 6) && Clear(x, 7);
  }

  lemma ZeroClear(k: nat)
    ensures ClearBelow(0, k)
  {}

  // ----- combining words -----

  lemma OrTest(x: bv64, y: bv64)
    ensures ByteZeros(x | y,
                      x & 0xFF == 0 && y & 0xFF == 0,
                      x & 0xFF00 == 0 && y & 0xFF00 == 0,
                      x & 0xFF_0000 == 0 && y & 0xFF_0000 == 0,
                      x & 0xFF00_0000 == 0 && y & 0xFF00_0000 == 0,
                      x & 0xFF_0000_0000 == 0 && y & 0xFF_0000_0000 == 0,
                      x & 0xFF00_0000_0000 == 0 && y & 0xFF00_0000_0000 == 0,
                      x & 0xFF_0000_0000_0000 == 0 && y & 0xFF_0000_0000_0000 == 0,
                      x & 0xFF00_0000_0000_0000 == 0 && y & 0xFF00_0000_0000_0000 == 0)
  {}

  lemma OrBytes(z: bv64, x: bv64, y: bv64, j: nat)
    requires j < 8
    requires z & 0xFF == 0 <==> x & 0xFF == 0 && y & 0xFF == 0
    requires z & 0xFF00 == 0 <==> x & 0xFF00 == 0 && y & 0xFF00 == 0
    requires z & 0xFF_0000 == 0 <==> x & 0xFF_0000 == 0 && y & 0xFF_0000 == 0
    requires z & 0xFF00_0000 == 0 <==> x & 0xFF00_0000 == 0 && y & 0xFF00_0000 == 0
    requires z & 0xFF_0000_0000 == 0 <==> x & 0xFF_0000_0000 == 0 && y & 0xFF_0000_0000 == 0
    requires z & 0xFF00_0000_0000 == 0 <==> x & 0xFF00_0000_0000 == 0 && y & 0xFF00_0000_0000 == 0
    requires z & 0xFF_0000_0000_0000 == 0 <==> x & 0xFF_0000_0000_0000 == 0 && y & 0xFF_0000_0000_0000 == 0
    requires z & 0xFF00_0000_0000_0000 == 0 <==> x & 0xFF00_0000_0000_0000 == 0 && y & 0xFF00_0000_0000_0000 == 0
    ensures Clear(z, j) <==> Clear(x, j) && Clear(y, j)
  {
    ClearValue(x);
    ClearValue(y);
    ClearValue(z);
  }

  lemma OrClear(x: bv64, y: bv64, j: nat)
    requires j < 8
    ensures Clear(x | y, j) <==> Clear(x, j) && Clear(y, j)
  {
    OrTest(x, y);
    OrBytes(x | y, x, y, j);
  }

  lemma ShiftTest(x: bv64)
    ensures ByteZeros(x >> 8, x & 0xFF00 == 0, x & 0xFF_0000 == 0, x & 0xFF00_0000 == 0, x & 0xFF_0000_0000 == 0,
                      x & 0xFF00_0000_0000 == 0, x & 0xFF_0000_0000_0000 == 0, x & 0xFF00_0000_0000_0000 == 0, true)
  {}

  lemma ShiftClear(x: bv64, j: nat)
    requires j < 8
    ensures Clear(x >> 8, j) <==> j == 7 || Clear(x, j + 1)
  {
    ClearValue(x);
    ClearValue(x >> 8);
    ShiftTest(x);
  }

  /** A word shifted right by k whole bytes. */
  function DropBytes(x: bv64, k: nat): (d: bv64)
  {
    if k == 0 then x else DropBytes(x >> 8, k - 1)
  }

  lemma {:induction false} DropClear(x: bv64, k: nat, j: nat)
    requires j < 8
    ensures Clear(DropBytes(x, k), j) <==> j + k >= 8 || Clear(x, j + k)
    decreases k
  {
    if k > 0 {
      DropClear(x >> 8, k - 1, j);
      if j + k - 1 < 8 { ShiftClear(x, j + k - 1); }
    }
  }

  // ----- words in memory -----

  /** The little-endian word of the n bytes at address a of a memory. */
  function Load(mem: seq<bv8>, a: nat, n: nat): (w: bv64)
    requires a + n <= |mem|
    decreases n
  {
    if n == 0 then 0 else Put(Load(mem, a + 1, n - 1), mem[a])
  }

  /** A word moved up by one byte, with b put below it. */
  function Put(x: bv64, b: bv8): (w: bv64)
  {
    (x << 8) | (b as bv64)
  }

  lemma PutTest(x: bv64, b: bv8)
    ensures ByteZeros(Put(x, b), b == 0, x & 0xFF == 0, x & 0xFF00 == 0, x & 0xFF_0000 == 0, x & 0xFF00_0000 == 0,
                      x & 0xFF_0000_0000 == 0, x & 0xFF00_0000_0000 == 0, x & 0xFF_0000_0000_0000 == 0)
  {}

  lemma PutClear(x: bv64, b: bv8, j: nat)
    requires j < 8
    ensures Clear(Put(x, b), j) <==> if j == 0 then b == 0 else Clear(x, j - 1)
  {
    ClearValue(x);
    ClearValue(Put(x, b));
    PutTest(x, b);
  }

  lemma {:induction false} LoadClear(mem: seq<bv8>, a: nat, n: nat, j: nat)
    requires a + n <= |mem| && j < 8
    ensures Clear(Load(mem, a, n), j) <==> j >= n || mem[a + j] == 0
    decreases n
  {
    if n == 0 {
      ZeroClear(8);
    } else {
      PutClear(Load(mem, a + 1, n - 1), mem[a], j);
      if j > 0 { LoadClear(mem, a + 1, n - 1, j - 1); }
    }
  }

  /** Byte j of x and y is the same. */
  ghost predicate Same(x: bv64, y: bv64, j: nat)
  {
    forall i: int {:trigger Compared(x, y, j, i)} :: Compared(x, y, j, i) ==>
      && (j == 0 ==> x & 0xFF == y & 0xFF)
      && (j == 1 ==> x & 0xFF00 == y & 0xFF00)
      && (j == 2 ==> x & 0xFF_0000 == y & 0xFF_0000)
      && (j == 3 ==> x & 0xFF00_0000 == y & 0xFF00_0000)
      && (j == 4 ==> x & 0xFF_0000_0000 == y & 0xFF_0000_0000)
      && (j == 5 ==> x & 0xFF00_0000_0000 == y & 0xFF00_0000_0000)
      && (j == 6 ==> x & 0xFF_0000_0000_0000 == y & 0xFF_0000_0000_0000)
      && (j == 7 ==> x & 0xFF00_0000_0000_0000 == y & 0xFF00_0000_0000_0000)
  }

  ghost predicate Compared(x: bv64, y: bv64, j: nat, i: int)
  {
    true
  }

  /** In which of their eight bytes two words agree. */
  ghost predicate ByteMatches(x: bv64, y: bv64, z0: bool, z1: bool, z2: bool, z3: bool,
                              z4: bool, z5: bool, z6: bool, z7: bool)
  {
    && (z0 <==> x & 0xFF == y & 0xFF)
    && (z1 <==> x & 0xFF00 == y & 0xFF00)
    && (z2 <==> x & 0xFF_0000 == y & 0xFF_0000)
    && (z3 <==> x & 0xFF00_0000 == y & 0xFF00_0000)
    && (z4 <==> x & 0xFF_0000_0000 == y & 0xFF_0000_0000)
    && (z5 <==> x & 0xFF00_0000_0000 == y & 0xFF00_0000_0000)
    && (z6 <==> x & 0xFF_0000_0000_0000 == y & 0xFF_0000_0000_0000)
    && (z7 <==> x & 0xFF00_0000_0000_0000 == y & 0xFF00_0000_0000_0000)
  }

  lemma SameValue(x: bv64, y: bv64)
    ensures ByteMatches(x, y, Same(x, y, 0), Same(x, y, 1), Same(x, y, 2), Same(x, y, 3),
                        Same(x, y, 4), Same(x, y, 5), Same(x, y, 6), Same(x, y, 7))
  {
    assert Compared(x, y, 0, 0) && Compared(x, y, 1, 0) && Compared(x, y, 2, 0) && Compared(x, y, 3, 0);
    assert Compared(x, y, 4, 0) && Compared(x, y, 5, 0) && Compared(x, y, 6, 0) && Compared(x, y, 7, 0);
  }

  lemma XorTest(x: bv64, y: bv64)
    ensures ByteZeros(x ^ y, x & 0xFF == y & 0xFF, x & 0xFF00 == y & 0xFF00, x & 0xFF_0000 == y & 0xFF_0000,
                      x & 0xFF00_0000 == y & 0xFF00_0000, x & 0xFF_0000_0000 == y & 0xFF_0000_0000,
                      x & 0xFF00_0000_0000 == y & 0xFF00_0000_0000,
                      x & 0xFF_0000_0000_0000 == y & 0xFF_0000_0000_0000,
                      x & 0xFF00_0000_0000_0000 == y & 0xFF00_0000_0000_0000)
  {}

  lemma XorClear(x: bv64, y: bv64, j: nat)
    requires j < 8
    ensures Clear(x ^ y, j) <==> Same(x, y, j)
  {
    XorTest(x, y);
    ClearValue(x ^ y);
    SameValue(x, y);
  }

  lemma PutMatches(x: bv64, y: bv64, b: bv8, c: bv8)
    ensures ByteMatches(Put(x, b), Put(y, c), b == c, x & 0xFF == y & 0xFF, x & 0xFF00 == y & 0xFF00,
                        x & 0xFF_0000 == y & 0xFF_0000, x & 0xFF00_0000 == y & 0xFF00_0000,
                        x & 0xFF_0000_0000 == y & 0xFF_0000_0000, x & 0xFF00_0000_0000 == y & 0xFF00_0000_0000,
                        x & 0xFF_0000_0000_0000 == y & 0xFF_0000_0000_0000)
  {}

  lemma PutSame(x: bv64, y: bv64, b: bv8, c: bv8, j: nat)
    requires j < 8
    ensures Same(Put(x, b), Put(y, c), j) <==> if j == 0 then b == c else Same(x, y, j - 1)
  {
    SameValue(x, y);
    SameValue(Put(x, b), Put(y, c));
    PutMatches(x, y, b, c);
  }

  lemma {:induction false} LoadSame(m: seq<bv8>, a: nat, b: nat, n: nat, j: nat)
    requires a + n <= |m| && b + n <= |m| && j < 8
    ensures Same(Load(m, a, n), Load(m, b, n), j) <==> j >= n || m[a + j] == m[b + j]
    decreases n
  {
    if n == 0 {
      ReallySame(0, j);
    } else {
      PutSame(Load(m, a + 1, n - 1), Load(m, b + 1, n - 1), m[a], m[b], j);
      if j > 0 { LoadSame(m, a + 1, b + 1, n - 1, j - 1); }
    }
  }

  lemma ReallySame(x: bv64, j: nat)
    ensures Same(x, x, j)
  {}

  /** The word w is what the n bytes at address a hold. */
  ghost predicate Holds(mem: seq<bv8>, a: nat, n: nat, w: bv64)
  {
    a + n <= |mem| && forall i: int {:trigger Fetched(mem, a, n, w, i)} :: Fetched(mem, a, n, w, i) ==>
      w == Load(mem, a, n)
  }

  ghost predicate Fetched(mem: seq<bv8>, a: nat, n: nat, w: bv64, i: int)
  {
    true
  }

  /** An n-byte load; the bytes above the n-th are zero. */
  method Fetch(mem: seq<bv8>, a: nat, n: nat) returns (w: bv64)
    requires a + n <= |mem|
    ensures Holds(mem, a, n, w)
  {
    w := Load(mem, a, n);
  }

  lemma HeldZero(mem: seq<bv8>, a: nat, n: nat, w: bv64, j: nat)
    requires Holds(mem, a, n, w) && j < 8
    ensures Clear(w, j) <==> j >= n || mem[a + j] == 0
  {
    assert Fetched(mem, a, n, w, 0);
    LoadClear(mem, a, n, j);
  }

  lemma HeldSame(mem: seq<bv8>, a: nat, b: nat, n: nat, x: bv64, y: bv64, j: nat)
    requires Holds(mem, a, n, x) && Holds(mem, b, n, y) && j < 8
    ensures Same(x, y, j) <==> j >= n || mem[a + j] == mem[b + j]
  {
    assert Fetched(mem, a, n, x, 0) && Fetched(mem, b, n, y, 0);
    LoadSame(mem, a, b, n, j);
  }

  // ----- zero tests -----

  /** The quick zero test. Above the lowest bit it sets there may be false alarms. */
  function HasZero(x: bv64): (m: bv64)
  {
    (x - 0x0101_0101_0101_0101) & !x & 0x8080_8080_8080_8080
  }

  /** The slower zero test, with no false alarms. */
  function ExactZero(x: bv64): (m: bv64)
  {
    !(((x & 0x7F7F_7F7F_7F7F_7F7F) + 0x7F7F_7F7F_7F7F_7F7F) | x | 0x7F7F_7F7F_7F7F_7F7F)
  }

  lemma ExactTest(x: bv64)
    ensures ByteZeros(ExactZero(x), x & 0xFF != 0, x & 0xFF00 != 0, x & 0xFF_0000 != 0, x & 0xFF00_0000 != 0,
                      x & 0xFF_0000_0000 != 0, x & 0xFF00_0000_0000 != 0, x & 0xFF_0000_0000_0000 != 0,
                      x & 0xFF00_0000_0000_0000 != 0)
  {}

  lemma Opposite(m: bv64, x: bv64, j: nat)
    requires j < 8
    requires ByteZeros(m, x & 0xFF != 0, x & 0xFF00 != 0, x & 0xFF_0000 != 0, x & 0xFF00_0000 != 0,
                       x & 0xFF_0000_0000 != 0, x & 0xFF00_0000_0000 != 0, x & 0xFF_0000_0000_0000 != 0,
                       x & 0xFF00_0000_0000_0000 != 0)
    ensures Clear(m, j) <==> !Clear(x, j)
  {
    ClearValue(x);
    ClearValue(m);
  }

  lemma ExactZeroClear(x: bv64, j: nat)
    requires j < 8
    ensures Clear(ExactZero(x), j) <==> !Clear(x, j)
  {
    ExactTest(x);
    Opposite(ExactZero(x), x, j);
  }

  lemma QuickTest(x: bv64)
    ensures var m := HasZero(x);
      && (m & 0xFF == 0 <==> x & 0xFF != 0)
      && (m & 0xFF == 0 ==> (m & 0xFF00 == 0 <==> x & 0xFF00 != 0))
      && (m & 0xFFFF == 0 ==> (m & 0xFF_0000 == 0 <==> x & 0xFF_0000 != 0))
      && (m & 0xFF_FFFF == 0 ==> (m & 0xFF00_0000 == 0 <==> x & 0xFF00_0000 != 0))
      && (m & 0xFFFF_FFFF == 0 ==> (m & 0xFF_0000_0000 == 0 <==> x & 0xFF_0000_0000 != 0))
      && (m & 0xFF_FFFF_FFFF == 0 ==> (m & 0xFF00_0000_0000 == 0 <==> x & 0xFF00_0000_0000 != 0))
      && (m & 0xFFFF_FFFF_FFFF == 0 ==> (m & 0xFF_0000_0000_0000 == 0 <==> x & 0xFF_0000_0000_0000 != 0))
      && (m & 0xFF_FFFF_FFFF_FFFF == 0 ==> (m & 0xFF00_0000_0000_0000 == 0 <==> x & 0xFF00_0000_0000_0000 != 0))
  {}

  lemma LowTest(m: bv64)
    ensures m & 0xFFFF == 0 <==> m & 0xFF == 0 && m & 0xFF00 == 0
    ensures m & 0xFF_FFFF == 0 <==> m & 0xFFFF == 0 && m & 0xFF_0000 == 0
    ensures m & 0xFFFF_FFFF == 0 <==> m & 0xFF_FFFF == 0 && m & 0xFF00_0000 == 0
    ensures m & 0xFF_FFFF_FFFF == 0 <==> m & 0xFFFF_FFFF == 0 && m & 0xFF_0000_0000 == 0
    ensures m & 0xFFFF_FFFF_FFFF == 0 <==> m & 0xFF_FFFF_FFFF == 0 && m & 0xFF00_0000_0000 == 0
    ensures m & 0xFF_FFFF_FFFF_FFFF == 0 <==> m & 0xFFFF_FFFF_FFFF == 0 && m & 0xFF_0000_0000_0000 == 0
  {}

  /** Up to and including the first mark, the quick test is exact. */
  lemma HasZeroClear(x: bv64, k: nat)
    requires k < 8 && ClearBelow(HasZero(x), k)
    ensures Clear(HasZero(x), k) <==> !Clear(x, k)
  {
    var m := HasZero(x);
    ClearValue(x);
    ClearValue(m);
    QuickTest(x);
    LowTest(m);
    assert k > 0 ==> Clear(m, 0);
    assert k > 1 ==> Clear(m, 1);
    assert k > 2 ==> Clear(m, 2);
    assert k > 3 ==> Clear(m, 3);
    assert k > 4 ==> Clear(m, 4);
    assert k > 5 ==> Clear(m, 5);
    assert k > 6 ==> Clear(m, 6);
  }

  /** Beyond the first mark it is not: a byte 1 right above a zero byte is marked too. */
  lemma HasZeroFalseAlarm()
    ensures !Clear(HasZero(0x0100), 0) && Clear(0x0100, 0)
    ensures !Clear(HasZero(0x0100), 1) && !Clear(0x0100, 1)
  {
    ClearValue(HasZero(0x0100));
    ClearValue(0x0100);
  }

  // ----- the lowest set bit -----

  /** Trailing zero bits, counted one by one. */
  function CtzUpTo(x: bv64, n: nat): (c: nat)
  {
    if n == 0 || x & 1 == 1 then 0 else 1 + CtzUpTo(x >> 1, n - 1)
  }

  function Ctz(x: bv64): (c: nat)
  {
    CtzUpTo(x, 64)
  }

  lemma LowBits(x: bv64)
    ensures (x >> 1) >> 1 == x >> 2 && (x >> 2) >> 2 == x >> 4 && (x >> 4) >> 4 == x >> 8
    ensures x & 3 == 0 <==> x & 1 != 1 && (x >> 1) & 1 != 1
    ensures x & 15 == 0 <==> x & 3 == 0 && (x >> 2) & 3 == 0
    ensures x & 255 == 0 <==> x & 15 == 0 && (x >> 4) & 15 == 0
    ensures x != 0 && x & 255 == 0 ==> x >> 8 != 0
  {}

  lemma CtzStep(x: bv64, n: nat)
    requires n >= 2
    ensures x & 3 == 0 ==> CtzUpTo(x, n) == 2 + CtzUpTo(x >> 2, n - 2)
    ensures x & 3 != 0 ==> CtzUpTo(x, n) < 2
  {
    var y := x >> 1;
    LowBits(x);
    assert CtzUpTo(x, n) == if x & 1 == 1 then 0 else 1 + CtzUpTo(y, n - 1);
    assert CtzUpTo(y, n - 1) == if y & 1 == 1 then 0 else 1 + CtzUpTo(y >> 1, n - 2);
  }

  lemma CtzNibble(x: bv64, n: nat)
    requires n >= 4
    ensures x & 15 == 0 ==> CtzUpTo(x, n) == 4 + CtzUpTo(x >> 4, n - 4)
    ensures x & 15 != 0 ==> CtzUpTo(x, n) < 4
  {
    CtzStep(x, n);
    CtzStep(x >> 2, n - 2);
    LowBits(x);
  }

  lemma CtzByte(x: bv64, n: nat)
    requires n >= 8
    ensures Clear(x, 0) ==> CtzUpTo(x, n) == 8 + CtzUpTo(x >> 8, n - 8)
    ensures !Clear(x, 0) ==> CtzUpTo(x, n) < 8
    ensures x != 0 && Clear(x, 0) ==> x >> 8 != 0
  {
    CtzNibble(x, n);
    CtzNibble(x >> 4, n - 4);
    LowBits(x);
    ClearValue(x);
  }

  lemma ShiftedOut(x: bv64, n: nat)
    requires 0 < n && forall j: nat :: n <= j < 8 ==> Clear(x, j)
    ensures var y := x >> 8; forall j: nat :: n - 1 <= j < 8 ==> Clear(y, j)
  {
    var y := x >> 8;
    forall j: nat | n - 1 <= j < 8 ensures Clear(y, j) { ShiftClear(x, j); }
  }

  lemma MarkAbove(x: bv64, k: nat)
    requires k < 7 && Clear(x, 0) && ClearBelow(x >> 8, k) && !Clear(x >> 8, k)
    ensures ClearBelow(x, k + 1) && !Clear(x, k + 1)
  {
    ShiftClear(x, k);
    forall j: nat | j < k + 1 ensures Clear(x, j) {
      if j > 0 { ShiftClear(x, j - 1); }
    }
  }

  /** Counting bits and dividing by eight finds the lowest byte that is not zero. */
  lemma {:induction false} LowestMarkFrom(x: bv64, n: nat) returns (k: nat)
    requires x != 0 && n <= 8 && forall j: nat :: n <= j < 8 ==> Clear(x, j)
    ensures k == CtzUpTo(x, 8 * n) / 8 && k < n
    ensures ClearBelow(x, k) && !Clear(x, k)
    decreases n
  {
    if n == 0 {
      AllClear(x);
    } else {
      CtzByte(x, 8 * n);
      k := 0;
      if Clear(x, 0) {
        ShiftedOut(x, n);
        k := LowestMarkFrom(x >> 8, n - 1);
        MarkAbove(x, k);
        k := k + 1;
      }
    }
  }

  lemma LowestMark(x: bv64) returns (k: nat)
    requires x != 0
    ensures k == Ctz(x) / 8 && k < 8
    ensures ClearBelow(x, k) && !Clear(x, k)
  {
    k := LowestMarkFrom(x, 8);
  }
}
