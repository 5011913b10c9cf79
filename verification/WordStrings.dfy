/**
 * The word-at-a-time string routines of the C library: strlen, strcmp and the block comparison
 * memcmp_fscpuf, on a memory whose address 0 is the null pointer.
 */
module WordStrings {

  import opened WordBytes

  // ----- what the routines mean, byte by byte -----

  /** The number of bytes before the first zero byte at or after address s. */
  function Length(mem: seq<bv8>, s: nat): (n: nat)
    decreases |mem| - s
  {
    if s >= |mem| || mem[s] == 0 then 0 else 1 + Length(mem, s + 1)
  }

  /** The string at s ends inside the memory. */
  predicate Terminated(mem: seq<bv8>, s: nat)
  {
    s + Length(mem, s) < |mem|
  }

  /** Length is n exactly when byte s + n is the first zero byte. */
  lemma {:induction false} LengthIs(mem: seq<bv8>, s: nat, n: nat)
    requires s + n < |mem|
    ensures Length(mem, s) == n <==> mem[s + n] == 0 && forall i :: s <= i < s + n ==> mem[i] != 0
    decreases n
  {
    if n > 0 && mem[s] != 0 {
      LengthIs(mem, s + 1, n - 1);
      assert mem[s + 1 + (n - 1)] == mem[s + n];
    }
  }

  /** The number of leading bytes of two strings that agree and do not end them. */
  function Match(mem: seq<bv8>, s: nat, t: nat): (n: nat)
    decreases |mem| - s
  {
    if s >= |mem| || t >= |mem| || mem[s] != mem[t] || mem[s] == 0 then 0 else 1 + Match(mem, s + 1, t + 1)
  }

  /** The comparison is decided inside the memory. */
  predicate Decided(mem: seq<bv8>, s: nat, t: nat)
  {
    var n := Match(mem, s, t);
    s + n < |mem| && t + n < |mem|
  }

  /** The difference of two bytes taken as numbers. */
  function Gap(x: bv8, y: bv8): (r: int)
  {
    (x as int) - (y as int)
  }

  lemma GapZero(x: bv8, y: bv8)
    ensures Gap(x, y) == 0 <==> x == y
  {}

  /** The C comparison result: the difference of the first bytes that differ, or zero. */
  function Compare(mem: seq<bv8>, s: nat, t: nat): (r: int)
    requires Decided(mem, s, t)
  {
    var n := Match(mem, s, t);
    Gap(mem[s + n], mem[t + n])
  }

  /** Byte i of both strings is there, is the same and does not end them. */
  predicate AgreeAt(mem: seq<bv8>, s: nat, t: nat, i: nat)
  {
    s + i < |mem| && t + i < |mem| && mem[s + i] == mem[t + i] && mem[s + i] != 0
  }

  /** The first n bytes of both strings agree and do not end them. */
  ghost predicate Agree(mem: seq<bv8>, s: nat, t: nat, n: nat)
  {
    forall i: nat :: i < n ==> AgreeAt(mem, s, t, i)
  }

  lemma {:induction false} MatchIs(mem: seq<bv8>, s: nat, t: nat, n: nat)
    requires Agree(mem, s, t, n) && !AgreeAt(mem, s, t, n)
    ensures Match(mem, s, t) == n
    decreases n
  {
    if n > 0 {
      assert AgreeAt(mem, s, t, 0);
      var s', t' := s + 1, t + 1;
      forall i: nat | i < n - 1 ensures AgreeAt(mem, s', t', i) { assert AgreeAt(mem, s, t, i + 1); }
      MatchIs(mem, s', t', n - 1);
    }
  }

  lemma {:induction false} MatchBytes(mem: seq<bv8>, s: nat, t: nat)
    ensures Agree(mem, s, t, Match(mem, s, t)) && !AgreeAt(mem, s, t, Match(mem, s, t))
    decreases |mem| - s
  {
    if AgreeAt(mem, s, t, 0) {
      MatchBytes(mem, s + 1, t + 1);
      var n := Match(mem, s + 1, t + 1);
      forall i: nat | i < n + 1 ensures AgreeAt(mem, s, t, i) {
        if i > 0 { assert AgreeAt(mem, s + 1, t + 1, i - 1); }
      }
      assert !AgreeAt(mem, s + 1, t + 1, n);
    }
  }

  /** The bytes of the string at s. */
  function Text(mem: seq<bv8>, s: nat): (b: seq<bv8>)
    requires Terminated(mem, s)
  {
    mem[s..s + Length(mem, s)]
  }

  lemma MatchedTexts(mem: seq<bv8>, s: nat, t: nat, n: nat)
    requires Terminated(mem, s) && Terminated(mem, t) && Agree(mem, s, t, n) && !AgreeAt(mem, s, t, n)
    requires s + n < |mem| && t + n < |mem| && mem[s + n] == mem[t + n]
    ensures Text(mem, s) == Text(mem, t)
  {
    NoZeroBefore(mem, s, t, n);
    LengthIs(mem, s, n);
    LengthIs(mem, t, n);
    SameText(mem, s, t, n);
  }

  lemma DifferentTexts(mem: seq<bv8>, s: nat, t: nat, n: nat)
    requires Terminated(mem, s) && Terminated(mem, t) && n < Length(mem, s) == Length(mem, t)
    requires s + n < |mem| && t + n < |mem| && mem[s + n] != mem[t + n]
    ensures Text(mem, s) != Text(mem, t)
  {
    assert Text(mem, s)[n] == mem[s + n] && Text(mem, t)[n] == mem[t + n];
  }

  /** Two terminated strings compare equal exactly when their texts are equal. */
  lemma CompareEqual(mem: seq<bv8>, s: nat, t: nat)
    requires Terminated(mem, s) && Terminated(mem, t)
    ensures Decided(mem, s, t)
    ensures Compare(mem, s, t) == 0 <==> Text(mem, s) == Text(mem, t)
  {
    var n := Match(mem, s, t);
    var a, b := Length(mem, s), Length(mem, t);
    MatchBytes(mem, s, t);
    LengthIs(mem, s, a);
    LengthIs(mem, t, b);
    assert n > a ==> AgreeAt(mem, s, t, a);
    assert n > b ==> AgreeAt(mem, s, t, b);
    GapZero(mem[s + n], mem[t + n]);
    if mem[s + n] == mem[t + n] {
      MatchedTexts(mem, s, t, n);
    } else if a == b {
      DifferentTexts(mem, s, t, n);
    }
  }

  // ----- the order -----

  /** Lexicographic order of byte strings, the bytes taken as unsigned numbers. */
  ghost predicate Precedes(x: seq<bv8>, y: seq<bv8>)
  {
    && y != []
    && (x == [] || x[0] as int < y[0] as int || (x[0] == y[0] && Precedes(x[1..], y[1..])))
  }

  /** Behind a common part the first byte of the rest decides, and an end comes before everything. */
  lemma {:induction false} PrecedesAt(x: seq<bv8>, y: seq<bv8>, n: nat)
    requires n <= |x| && n <= |y| && x[..n] == y[..n]
    requires n < |x| && n < |y| ==> x[n] != y[n]
    ensures Precedes(x, y) <==> n < |y| && (n == |x| || x[n] as int < y[n] as int)
  {
    if n > 0 {
      assert x[0] == x[..n][0] && y[0] == y[..n][0];
      assert x[1..][..n - 1] == x[..n][1..] && y[1..][..n - 1] == y[..n][1..];
      PrecedesAt(x[1..], y[1..], n - 1);
    }
  }

  /** What a comparison tells about two byte strings. */
  ghost predicate Orders(r: int, x: seq<bv8>, y: seq<bv8>)
  {
    (r < 0 <==> Precedes(x, y)) && (r == 0 <==> x == y) && (r > 0 <==> Precedes(y, x))
  }

  lemma OrdersAt(r: int, x: seq<bv8>, y: seq<bv8>, n: nat)
    requires n <= |x| && n <= |y| && x[..n] == y[..n]
    requires if n == |x| then (n == |y| && r == 0) || (n < |y| && r < 0)
             else if n == |y| then r > 0
             else x[n] != y[n] && (r < 0 <==> x[n] as int < y[n] as int) && (r > 0 <==> y[n] as int < x[n] as int)
    ensures Orders(r, x, y)
  {
    PrecedesAt(x, y, n);
    PrecedesAt(y, x, n);
    if n == |x| == |y| {
      assert x == x[..n] && y == y[..n];
    }
  }

  lemma TextUpTo(mem: seq<bv8>, s: nat, n: nat)
    requires Terminated(mem, s) && s + n < |mem| && forall i :: s <= i < s + n ==> mem[i] != 0
    ensures n <= |Text(mem, s)| && Text(mem, s)[..n] == mem[s..s + n]
    ensures n == |Text(mem, s)| <==> mem[s + n] == 0
    ensures n < |Text(mem, s)| ==> Text(mem, s)[n] == mem[s + n]
  {
    LengthIs(mem, s, Length(mem, s));
    LengthIs(mem, s, n);
  }

  /** The sign of the comparison is the order of the two texts. */
  lemma CompareOrders(mem: seq<bv8>, s: nat, t: nat)
    requires Terminated(mem, s) && Terminated(mem, t)
    ensures Decided(mem, s, t) && Orders(Compare(mem, s, t), Text(mem, s), Text(mem, t))
  {
    CompareEqual(mem, s, t);
    var n := Match(mem, s, t);
    MatchBytes(mem, s, t);
    NoZeroBefore(mem, s, t, n);
    TextUpTo(mem, s, n);
    TextUpTo(mem, t, n);
    SameText(mem, s, t, n);
    ByteBounds(mem[s + n], mem[t + n]);
    OrdersAt(Compare(mem, s, t), Text(mem, s), Text(mem, t), n);
  }

  lemma ByteBounds(x: bv8, y: bv8)
    ensures (x as int == 0 <==> x == 0) && (y as int == 0 <==> y == 0) && x as int >= 0 && y as int >= 0
    ensures x as int == y as int <==> x == y
  {}

  lemma NoZeroBefore(mem: seq<bv8>, s: nat, t: nat, n: nat)
    requires Agree(mem, s, t, n) && s + n <= |mem| && t + n <= |mem|
    ensures forall i :: s <= i < s + n ==> mem[i] != 0
    ensures forall i :: t <= i < t + n ==> mem[i] != 0
  {
    forall i | s <= i < s + n ensures mem[i] != 0 { assert AgreeAt(mem, s, t, i - s); }
    forall i | t <= i < t + n ensures mem[i] != 0 { assert AgreeAt(mem, s, t, i - t); }
  }

  lemma SameText(mem: seq<bv8>, s: nat, t: nat, n: nat)
    requires Agree(mem, s, t, n) && s + n <= |mem| && t + n <= |mem|
    ensures mem[s..s + n] == mem[t..t + n]
  {
    var x, y := mem[s..s + n], mem[t..t + n];
    forall i | 0 <= i < n ensures x[i] == y[i] { assert AgreeAt(mem, s, t, i); }
  }

  // ----- words -----

  lemma Unmarked(x: bv64, k: nat)
    requires k <= 8 && ClearBelow(HasZero(x), k)
    ensures forall j: nat :: j < k ==> !Clear(x, j)
  {
    forall j: nat | j < k ensures !Clear(x, j) { HasZeroClear(x, j); }
  }

  lemma FirstZero(x: bv64) returns (k: nat)
    requires HasZero(x) != 0
    ensures k == Ctz(HasZero(x)) / 8 && k < 8
    ensures Clear(x, k) && forall j: nat :: j < k ==> !Clear(x, j)
  {
    k := LowestMark(HasZero(x));
    Unmarked(x, k);
    HasZeroClear(x, k);
  }

  lemma NoZero(x: bv64)
    requires HasZero(x) == 0
    ensures forall j: nat :: j < 8 ==> !Clear(x, j)
  {
    ZeroClear(8);
    Unmarked(x, 8);
  }

  /** The first word of strlen, with its first k bytes shifted out. */
  lemma FirstZeroFrom(x: bv64, k: nat, mask: bv64) returns (r: nat)
    requires k < 8 && mask == DropBytes(ExactZero(x), k)
    ensures mask == 0 ==> forall j: nat :: k <= j < 8 ==> !Clear(x, j)
    ensures mask != 0 ==> r == Ctz(mask) / 8 && k + r < 8 && Clear(x, k + r)
    ensures mask != 0 ==> forall j: nat :: k <= j < k + r ==> !Clear(x, j)
  {
    forall j: nat | k <= j < 8 ensures Clear(x, j) <==> !Clear(mask, j - k) {
      DropClear(ExactZero(x), k, j - k);
      ExactZeroClear(x, j);
    }
    r := 0;
    if mask == 0 {
      ZeroClear(8);
    } else {
      r := LowestMark(mask);
      DropClear(ExactZero(x), k, r);
    }
  }

  // The mask of strcmp, joined from the difference of two words and the zero marks of each.

  ghost predicate Union(a: bv64, b: bv64, m: bv64)
  {
    forall i: int {:trigger Joining(a, b, m, i)} :: Joining(a, b, m, i) ==> m == a | b
  }

  ghost predicate Joining(a: bv64, b: bv64, m: bv64, i: int)
  {
    true
  }

  ghost predicate Joined(d: bv64, hx: bv64, hy: bv64, z: bv64, mask: bv64)
  {
    Union(hx, hy, z) && Union(d, z, mask)
  }

  ghost predicate Parts(x: bv64, y: bv64, d: bv64, hx: bv64, hy: bv64)
  {
    forall i: int {:trigger Splitting(x, y, d, hx, hy, i)} :: Splitting(x, y, d, hx, hy, i) ==>
      d == x ^ y && hx == HasZero(x) && hy == HasZero(y)
  }

  ghost predicate Splitting(x: bv64, y: bv64, d: bv64, hx: bv64, hy: bv64, i: int)
  {
    true
  }

  lemma UnionClear(a: bv64, b: bv64, m: bv64, j: nat)
    requires Union(a, b, m) && j < 8
    ensures Clear(m, j) <==> Clear(a, j) && Clear(b, j)
  {
    assert Joining(a, b, m, 0);
    OrClear(a, b, j);
  }

  lemma JoinedClear(d: bv64, hx: bv64, hy: bv64, z: bv64, mask: bv64, j: nat)
    requires Joined(d, hx, hy, z, mask) && j < 8
    ensures Clear(mask, j) <==> Clear(d, j) && Clear(hx, j) && Clear(hy, j)
  {
    UnionClear(d, z, mask, j);
    UnionClear(hx, hy, z, j);
  }

  lemma PartsDiff(x: bv64, y: bv64, d: bv64, hx: bv64, hy: bv64, j: nat)
    requires Parts(x, y, d, hx, hy) && j < 8
    ensures Clear(d, j) <==> Same(x, y, j)
  {
    assert Splitting(x, y, d, hx, hy, 0);
    XorClear(x, y, j);
  }

  lemma PartsZero(x: bv64, y: bv64, d: bv64, hx: bv64, hy: bv64, k: nat)
    requires Parts(x, y, d, hx, hy) && k < 8
    ensures ClearBelow(hx, k) ==> (Clear(hx, k) <==> !Clear(x, k))
    ensures ClearBelow(hy, k) ==> (Clear(hy, k) <==> !Clear(y, k))
  {
    assert Splitting(x, y, d, hx, hy, 0);
    if ClearBelow(HasZero(x), k) { HasZeroClear(x, k); }
    if ClearBelow(HasZero(y), k) { HasZeroClear(y, k); }
  }

  method DifferenceMask(x: bv64, y: bv64)
    returns (mask: bv64, ghost d: bv64, ghost hx: bv64, ghost hy: bv64, ghost z: bv64)
    ensures Joined(d, hx, hy, z, mask) && Parts(x, y, d, hx, hy)
  {
    var zeroMask := HasZero(x) | HasZero(y);
    var diff := x ^ y;
    mask := diff | zeroMask;
    d, hx, hy, z := diff, HasZero(x), HasZero(y), zeroMask;
  }

  /** The bytes before a mark of the mask agree and are not zero. */
  lemma AgreeBelow(x: bv64, y: bv64, d: bv64, hx: bv64, hy: bv64, z: bv64, mask: bv64, k: nat)
    requires Joined(d, hx, hy, z, mask) && Parts(x, y, d, hx, hy) && k <= 8 && ClearBelow(mask, k)
    ensures ClearBelow(hx, k) && ClearBelow(hy, k)
    ensures forall j: nat :: j < k ==> Same(x, y, j) && !Clear(x, j)
  {
    forall j: nat | j < k ensures Clear(d, j) && Clear(hx, j) && Clear(hy, j) {
      JoinedClear(d, hx, hy, z, mask, j);
    }
    forall j: nat | j < k ensures Same(x, y, j) && !Clear(x, j) {
      PartsDiff(x, y, d, hx, hy, j);
      PartsZero(x, y, d, hx, hy, j);
    }
  }

  /** At its lowest mark they differ, or end. */
  lemma FirstDifference(x: bv64, y: bv64, d: bv64, hx: bv64, hy: bv64, z: bv64, mask: bv64) returns (k: nat)
    requires Joined(d, hx, hy, z, mask) && Parts(x, y, d, hx, hy) && mask != 0
    ensures k == Ctz(mask) / 8 && k < 8
    ensures forall j: nat :: j < k ==> Same(x, y, j) && !Clear(x, j)
    ensures !Same(x, y, k) || Clear(x, k) || Clear(y, k)
  {
    k := LowestMark(mask);
    AgreeBelow(x, y, d, hx, hy, z, mask, k);
    JoinedClear(d, hx, hy, z, mask, k);
    PartsDiff(x, y, d, hx, hy, k);
    PartsZero(x, y, d, hx, hy, k);
  }

  // ----- the routines -----

  lemma NoZeroBytes(mem: seq<bv8>, a: nat, w: bv64, lo: nat, hi: nat)
    requires Holds(mem, a, 8, w) && hi <= 8 && forall j: nat :: lo <= j < hi ==> !Clear(w, j)
    ensures forall i :: a + lo <= i < a + hi ==> mem[i] != 0
  {
    forall i | a + lo <= i < a + hi ensures mem[i] != 0 { HeldZero(mem, a, 8, w, i - a); }
  }

  lemma NextWord(a: nat)
    requires a % 8 == 0
    ensures (a + 8) % 8 == 0
  {}

  lemma WordInside(size: nat, a: nat)
    requires size % 8 == 0 && a % 8 == 0 && a < size
    ensures a + 8 <= size
  {}

  lemma WordFits(mem: seq<bv8>, s: nat, a: nat)
    requires Terminated(mem, s) && |mem| % 8 == 0 && a % 8 == 0
    requires forall i :: s <= i < a && i < |mem| ==> mem[i] != 0
    ensures a + 8 <= |mem|
    ensures a <= s + Length(mem, s)
  {
    LengthIs(mem, s, Length(mem, s));
  }

  /** The loop of strlen over the words from address start on. */
  method LengthFrom(mem: seq<bv8>, s: nat, start: nat) returns (n: nat)
    requires |mem| % 8 == 0 && Terminated(mem, s) && s <= start && start % 8 == 0
    requires forall i :: s <= i < start && i < |mem| ==> mem[i] != 0
    ensures n == Length(mem, s)
  {
    var a := start;
    WordFits(mem, s, a);
    var w := Fetch(mem, a, 8);
    while HasZero(w) == 0
      invariant a % 8 == 0 && s <= a && Holds(mem, a, 8, w)
      invariant forall i :: s <= i < a ==> mem[i] != 0
      decreases |mem| - a
    {
      NoZero(w);
      NoZeroBytes(mem, a, w, 0, 8);
      NextWord(a);
      a := a + 8;
      WordFits(mem, s, a);
      w := Fetch(mem, a, 8);
    }
    ghost var k := FirstZero(w);
    n := a + Ctz(HasZero(w)) / 8 - s;
    NoZeroBytes(mem, a, w, 0, k);
    HeldZero(mem, a, 8, w, k);
    LengthIs(mem, s, n);
  }

  method StrLen(mem: seq<bv8>, s: nat) returns (n: nat)
    requires |mem| % 8 == 0 && (s != 0 ==> Terminated(mem, s))
    ensures n == if s == 0 then 0 else Length(mem, s)
  {
    if s == 0 { return 0; }
    var a := s - s % 8;
    WordFits(mem, s, a);
    var w := Fetch(mem, a, 8);
    var mask := DropBytes(ExactZero(w), s % 8);
    ghost var r := FirstZeroFrom(w, s % 8, mask);
    if mask != 0 {
      n := Ctz(mask) / 8;
      NoZeroBytes(mem, a, w, s % 8, s % 8 + n);
      HeldZero(mem, a, 8, w, s % 8 + n);
      LengthIs(mem, s, n);
      return;
    }
    NoZeroBytes(mem, a, w, s % 8, 8);
    n := LengthFrom(mem, s, a + 8);
  }

  lemma AgreeFits(mem: seq<bv8>, s: nat, t: nat, n: nat)
    requires Decided(mem, s, t) && Agree(mem, s, t, n)
    ensures s + n < |mem| && t + n < |mem|
  {
    MatchBytes(mem, s, t);
    assert Match(mem, s, t) < n ==> AgreeAt(mem, s, t, Match(mem, s, t));
  }

  lemma AgreeWord(mem: seq<bv8>, s: nat, t: nat, n: nat, x: bv64, y: bv64, k: nat)
    requires Agree(mem, s, t, n) && k <= 8
    requires Holds(mem, s + n, 8, x) && Holds(mem, t + n, 8, y)
    requires forall j: nat :: j < k ==> Same(x, y, j) && !Clear(x, j)
    ensures Agree(mem, s, t, n + k)
  {
    forall i: nat | n <= i < n + k ensures AgreeAt(mem, s, t, i) {
      HeldSame(mem, s + n, t + n, 8, x, y, i - n);
      HeldZero(mem, s + n, 8, x, i - n);
    }
  }

  /** What strcmp does with one aligned word of both strings, as far as bytes go. */
  lemma CompareWord(mem: seq<bv8>, s: nat, t: nat, n: nat,
                    x: bv64, y: bv64, d: bv64, hx: bv64, hy: bv64, z: bv64, mask: bv64)
    requires Agree(mem, s, t, n)
    requires Holds(mem, s + n, 8, x) && Holds(mem, t + n, 8, y)
    requires Joined(d, hx, hy, z, mask) && Parts(x, y, d, hx, hy)
    ensures mask == 0 ==> Agree(mem, s, t, n + 8)
    ensures mask != 0 ==> Ctz(mask) / 8 < 8 && Match(mem, s, t) == n + Ctz(mask) / 8
  {
    if mask == 0 {
      ZeroClear(8);
      AgreeBelow(x, y, d, hx, hy, z, mask, 8);
      AgreeWord(mem, s, t, n, x, y, 8);
    } else {
      var k := FirstDifference(x, y, d, hx, hy, z, mask);
      AgreeWord(mem, s, t, n, x, y, k);
      HeldSame(mem, s + n, t + n, 8, x, y, k);
      HeldZero(mem, s + n, 8, x, k);
      HeldZero(mem, t + n, 8, y, k);
      assert !AgreeAt(mem, s, t, n + k);
      MatchIs(mem, s, t, n + k);
    }
  }

  /** The byte loop that runs until both pointers are aligned: it may decide the comparison. */
  method CompareUnaligned(mem: seq<bv8>, s: nat, t: nat) returns (n: nat, done: bool, r: int)
    requires Decided(mem, s, t)
    ensures done ==> r == Compare(mem, s, t)
    ensures !done ==> Agree(mem, s, t, n) && (s + n) % 8 == 0 && (t + n) % 8 == 0
  {
    n := 0;
    AgreeFits(mem, s, t, n);
    while (s + n) % 8 != 0 || (t + n) % 8 != 0
      invariant s + n < |mem| && t + n < |mem| && Agree(mem, s, t, n)
      decreases |mem| - n
    {
      var c1, c2 := mem[s + n], mem[t + n];
      if c1 != c2 {
        MatchIs(mem, s, t, n);
        return n, true, Gap(c1, c2);
      }
      if c1 == 0 {
        MatchIs(mem, s, t, n);
        GapZero(c1, c2);
        return n, true, 0;
      }
      assert AgreeAt(mem, s, t, n);
      n := n + 1;
      AgreeFits(mem, s, t, n);
    }
    return n, false, 0;
  }

  /** The aligned loop: the length of the common part, a word at a time. */
  method CompareAligned(mem: seq<bv8>, s: nat, t: nat, start: nat) returns (n: nat)
    requires |mem| % 8 == 0 && Decided(mem, s, t)
    requires Agree(mem, s, t, start) && (s + start) % 8 == 0 && (t + start) % 8 == 0
    ensures n == Match(mem, s, t)
  {
    n := start;
    WordsInside(mem, s, t, n);
    while true
      invariant s + n + 8 <= |mem| && t + n + 8 <= |mem| && Agree(mem, s, t, n)
      invariant (s + n) % 8 == 0 && (t + n) % 8 == 0
      decreases |mem| - n
    {
      var x := Fetch(mem, s + n, 8);
      var y := Fetch(mem, t + n, 8);
      var mask, d, hx, hy, z := DifferenceMask(x, y);
      CompareWord(mem, s, t, n, x, y, d, hx, hy, z, mask);
      if mask != 0 {
        return n + Ctz(mask) / 8;
      }
      NextWord(s + n);
      NextWord(t + n);
      n := n + 8;
      WordsInside(mem, s, t, n);
    }
  }

  /** Where both strings agree and both are aligned, they go on for a word. */
  lemma WordsInside(mem: seq<bv8>, s: nat, t: nat, n: nat)
    requires |mem| % 8 == 0 && Decided(mem, s, t) && Agree(mem, s, t, n)
    requires (s + n) % 8 == 0 && (t + n) % 8 == 0
    ensures s + n + 8 <= |mem| && t + n + 8 <= |mem|
  {
    AgreeFits(mem, s, t, n);
    WordInside(|mem|, s + n);
    WordInside(|mem|, t + n);
  }

  /** Behind k common bytes the byte at l is c more than the byte at r. */
  ghost predicate ApartBy(mem: seq<bv8>, l: nat, r: nat, k: nat, c: int)
  {
    && l + k < |mem| && r + k < |mem| && mem[l..l + k] == mem[r..r + k]
    && c + (mem[r + k] as int) == mem[l + k] as int
  }

  /** The bytes at s and t differ first behind n common ones, or end there together. */
  ghost predicate FirstApart(mem: seq<bv8>, s: nat, t: nat, n: nat)
  {
    && s + n < |mem| && t + n < |mem| && mem[s..s + n] == mem[t..t + n] && 0 !in mem[s..s + n]
    && (mem[s + n] != mem[t + n] || mem[s + n] == 0)
  }

  lemma MatchApart(mem: seq<bv8>, s: nat, t: nat)
    requires Decided(mem, s, t)
    ensures FirstApart(mem, s, t, Match(mem, s, t))
  {
    var n := Match(mem, s, t);
    MatchBytes(mem, s, t);
    NoZeroBefore(mem, s, t, n);
    SameText(mem, s, t, n);
  }

  /** strcmp: the difference of the first bytes that differ; its sign is the order of the texts. */
  method StrCmp(mem: seq<bv8>, s: nat, t: nat) returns (r: int)
    requires |mem| % 8 == 0 && Decided(mem, s, t)
    ensures r == Compare(mem, s, t)
    ensures exists n :: FirstApart(mem, s, t, n) && ApartBy(mem, s, t, n, r)
    ensures Terminated(mem, s) && Terminated(mem, t) ==> Orders(r, Text(mem, s), Text(mem, t))
  {
    r := CompareStrings(mem, s, t);
    MatchApart(mem, s, t);
    if Terminated(mem, s) && Terminated(mem, t) {
      CompareOrders(mem, s, t);
    }
  }

  /** The byte loop, then the word loop. */
  method CompareStrings(mem: seq<bv8>, s: nat, t: nat) returns (r: int)
    requires |mem| % 8 == 0 && Decided(mem, s, t)
    ensures r == Compare(mem, s, t)
  {
    var start, done, early := CompareUnaligned(mem, s, t);
    if done { return early; }
    var i := CompareAligned(mem, s, t, start);
    var c1, c2 := mem[s + i], mem[t + i];
    if c1 != c2 {
      return Gap(c1, c2);
    } else {
      GapZero(c1, c2);
      return 0;
    }
  }

  // ----- comparing blocks -----

  predicate EqualAt(mem: seq<bv8>, l: nat, r: nat, i: nat)
  {
    l + i < |mem| && r + i < |mem| && mem[l + i] == mem[r + i]
  }

  /** The first n bytes at l and r are the same. */
  ghost predicate EqualUpTo(mem: seq<bv8>, l: nat, r: nat, n: nat)
  {
    forall i: nat :: i < n ==> EqualAt(mem, l, r, i)
  }

  /** The result c of comparing n bytes: the difference at the first byte that differs, zero if none does. */
  ghost predicate Compares(mem: seq<bv8>, l: nat, r: nat, n: nat, c: int)
    requires l + n <= |mem| && r + n <= |mem|
  {
    || (c == 0 && EqualUpTo(mem, l, r, n))
    || exists k: nat :: k < n && EqualUpTo(mem, l, r, k) && !EqualAt(mem, l, r, k)
                        && c == Gap(mem[l + k], mem[r + k])
  }

  /** The sign of the comparison is the order of the two blocks. */
  lemma ComparesOrders(mem: seq<bv8>, l: nat, r: nat, n: nat, c: int)
    requires l + n <= |mem| && r + n <= |mem| && Compares(mem, l, r, n, c)
    ensures Orders(c, mem[l..l + n], mem[r..r + n])
    ensures c != 0 ==> exists k :: 0 <= k < n && ApartBy(mem, l, r, k, c)
  {
    var x, y := mem[l..l + n], mem[r..r + n];
    if c == 0 && EqualUpTo(mem, l, r, n) {
      ComparesEqual(mem, l, r, n, c);
      OrdersAt(c, x, y, n);
    } else {
      var k: nat :| k < n && EqualUpTo(mem, l, r, k) && !EqualAt(mem, l, r, k) && c == Gap(mem[l + k], mem[r + k]);
      EqualPart(mem, l, r, k);
      assert x[..k] == mem[l..l + k] && y[..k] == mem[r..r + k] && x[k] == mem[l + k] && y[k] == mem[r + k];
      ByteBounds(x[k], y[k]);
      OrdersAt(c, x, y, k);
      assert ApartBy(mem, l, r, k, c);
    }
  }

  lemma EqualPart(mem: seq<bv8>, l: nat, r: nat, k: nat)
    requires l + k <= |mem| && r + k <= |mem| && EqualUpTo(mem, l, r, k)
    ensures mem[l..l + k] == mem[r..r + k]
  {
    var x, y := mem[l..l + k], mem[r..r + k];
    forall i | 0 <= i < k ensures x[i] == y[i] { assert EqualAt(mem, l, r, i); }
  }

  /** The comparison is zero for equal blocks only. */
  lemma ComparesEqual(mem: seq<bv8>, l: nat, r: nat, n: nat, c: int)
    requires l + n <= |mem| && r + n <= |mem| && Compares(mem, l, r, n, c)
    ensures c == 0 <==> mem[l..l + n] == mem[r..r + n]
  {
    var x, y := mem[l..l + n], mem[r..r + n];
    if EqualUpTo(mem, l, r, n) {
      forall i | 0 <= i < n ensures x[i] == y[i] { assert EqualAt(mem, l, r, i); }
      assert x == y;
      forall k: nat | k < n ensures EqualAt(mem, l, r, k) {}
    } else {
      var k: nat :| k < n && !EqualAt(mem, l, r, k) && c == Gap(mem[l + k], mem[r + k]);
      GapZero(mem[l + k], mem[r + k]);
      assert x[k] == mem[l + k] && y[k] == mem[r + k];
    }
  }

  lemma FirstUnequal(x: bv64, y: bv64) returns (k: nat)
    requires x != y
    ensures x ^ y != 0 && k == Ctz(x ^ y) / 8 && k < 8
    ensures !Same(x, y, k) && forall j: nat :: j < k ==> Same(x, y, j)
  {
    XorNonzero(x, y);
    k := LowestMark(x ^ y);
    SameBelow(x, y, k);
    XorClear(x, y, k);
  }

  lemma XorNonzero(x: bv64, y: bv64)
    ensures x ^ y == 0 <==> x == y
  {}

  lemma SameBelow(x: bv64, y: bv64, k: nat)
    requires k < 8 && ClearBelow(x ^ y, k)
    ensures forall j: nat :: j < k ==> Same(x, y, j)
  {
    forall j: nat | j < k ensures Same(x, y, j) { XorClear(x, y, j); }
  }

  lemma WordsEqual(mem: seq<bv8>, l: nat, r: nat, at: nat, n: nat, x: bv64, y: bv64, k: nat)
    requires Holds(mem, l + at, n, x) && Holds(mem, r + at, n, y) && k <= n <= 8
    requires EqualUpTo(mem, l, r, at) && forall j: nat :: j < k ==> Same(x, y, j)
    ensures EqualUpTo(mem, l, r, at + k)
  {
    forall i: nat | at <= i < at + k ensures EqualAt(mem, l, r, i) {
      HeldSame(mem, l + at, r + at, n, x, y, i - at);
    }
  }

  /** One block of n bytes: equal words hold equal bytes, and the lowest set bit finds the first difference. */
  method CompareBlock(mem: seq<bv8>, l: nat, r: nat, at: nat, n: nat) returns (same: bool, k: nat)
    requires n <= 8 && l + at + n <= |mem| && r + at + n <= |mem| && EqualUpTo(mem, l, r, at)
    ensures same ==> EqualUpTo(mem, l, r, at + n)
    ensures !same ==> k < n && EqualUpTo(mem, l, r, at + k) && !EqualAt(mem, l, r, at + k)
  {
    var x := Fetch(mem, l + at, n);
    var y := Fetch(mem, r + at, n);
    if x != y {
      ghost var i := FirstUnequal(x, y);
      same, k := false, Ctz(x ^ y) / 8;
      HeldSame(mem, l + at, r + at, n, x, y, k);
      WordsEqual(mem, l, r, at, n, x, y, k);
    } else {
      same, k := true, 0;
      forall j: nat | j < n ensures Same(x, y, j) { ReallySame(x, j); }
      WordsEqual(mem, l, r, at, n, x, y, n);
    }
  }

  /** memcmp_fscpuf: the difference of the first bytes that differ; its sign is the order of the blocks. */
  method MemCmp(mem: seq<bv8>, l: nat, r: nat, len: nat) returns (c: int)
    requires l + len <= |mem| && r + len <= |mem|
    ensures Compares(mem, l, r, len, c)
    ensures Orders(c, mem[l..l + len], mem[r..r + len])
    ensures c != 0 ==> exists k :: 0 <= k < len && ApartBy(mem, l, r, k, c)
  {
    c := CompareMemory(mem, l, r, len);
    ComparesOrders(mem, l, r, len, c);
  }

  /** The three loops: eight bytes at a time, then four, then one. */
  method CompareMemory(mem: seq<bv8>, l: nat, r: nat, len: nat) returns (c: int)
    requires l + len <= |mem| && r + len <= |mem|
    ensures Compares(mem, l, r, len, c)
  {
    var at := 0;
    while len - at >= 8
      invariant 0 <= at <= len && EqualUpTo(mem, l, r, at)
    {
      var same, k := CompareBlock(mem, l, r, at, 8);
      if !same { return Gap(mem[l + (at + k)], mem[r + (at + k)]); }
      at := at + 8;
    }
    while len - at >= 4
      invariant 0 <= at <= len && EqualUpTo(mem, l, r, at)
    {
      var same, k := CompareBlock(mem, l, r, at, 4);
      if !same { return Gap(mem[l + (at + k)], mem[r + (at + k)]); }
      at := at + 4;
    }
    while at < len
      invariant 0 <= at <= len && EqualUpTo(mem, l, r, at)
    {
      if mem[l + at] != mem[r + at] { return Gap(mem[l + at], mem[r + at]); }
      assert EqualAt(mem, l, r, at);
      at := at + 1;
    }
    return 0;
  }
}
