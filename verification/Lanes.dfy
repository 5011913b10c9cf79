/**
 * Lanes of a shared word of n bits: the byte or half-word that an atomic operation works on, cut out
 * and put back with a mask and a shift. Words are numbers, taken apart bit by bit.
 */
module Lanes {

  import opened Bits

  /** `bits` bits from bit `shift` up. */
  datatype Lane = Lane(shift: nat, bits: nat)

  predicate InWord(lane: Lane, n: nat)
  {
    lane.shift + lane.bits <= n
  }

  /** The lane of a naturally aligned object in its aligned 4-byte word. */
  function LaneAt(address: nat, bytes: nat): (lane: Lane)
    requires bytes == 1 || (bytes == 2 && address % 2 == 0)
    ensures InWord(lane, 32)
  {
    Lane(address % 4 * 8, 8 * bytes)
  }

  /** Objects that do not overlap in memory have lanes that do not overlap in their common word. */
  lemma LanesApart(a: nat, aBytes: nat, b: nat, bBytes: nat)
    requires aBytes == 1 || (aBytes == 2 && a % 2 == 0)
    requires bBytes == 1 || (bBytes == 2 && b % 2 == 0)
    requires a / 4 == b / 4
    ensures Disjoint(LaneAt(a, aBytes), LaneAt(b, bBytes)) <==> a + aBytes <= b || b + bBytes <= a
  {
    var q := a / 4;
    assert a == 4 * q + a % 4 && b == 4 * q + b % 4;
  }

  predicate Disjoint(a: Lane, b: Lane)
  {
    a.shift + a.bits <= b.shift || b.shift + b.bits <= a.shift
  }

  /** x has no bit from bit n up. */
  predicate Fits(x: nat, n: nat)
  {
    if n == 0 then x == 0 else Fits(x / 2, n - 1)
  }

  function BitAt(x: nat, i: nat): (b: nat)
  {
    if i == 0 then x % 2 else BitAt(x / 2, i - 1)
  }

  // ----- the expressions of the code -----

  function Up(x: nat, k: nat): (r: nat)
  {
    if k == 0 then x else 2 * Up(x, k - 1)
  }

  function Down(x: nat, k: nat): (r: nat)
  {
    if k == 0 then x else Down(x / 2, k - 1)
  }

  /** All ones in the lane, zero elsewhere. */
  function Mask(lane: Lane): (m: nat)
    decreases lane.shift, lane.bits
  {
    if lane.shift > 0 then 2 * Mask(Lane(lane.shift - 1, lane.bits))
    else if lane.bits > 0 then 2 * Mask(Lane(0, lane.bits - 1)) + 1
    else 0
  }

  /** The complement in a word of n bits. */
  function Not(x: nat, n: nat): (r: nat)
  {
    if n == 0 then 0 else 2 * Not(x / 2, n - 1) + (1 - x % 2)
  }

  /** (w & mask) >> shift */
  function Get(w: nat, lane: Lane): (v: nat)
  {
    Down(And(w, Mask(lane)), lane.shift)
  }

  /** (w & ~mask) | ((x << shift) & mask) */
  function Merge(w: nat, lane: Lane, x: nat, n: nat): (r: nat)
  {
    Or(And(w, Not(Mask(lane), n)), And(Up(x, lane.shift), Mask(lane)))
  }

  /** (w & ~mask) | (d << shift) */
  function Insert(w: nat, lane: Lane, d: nat, n: nat): (r: nat)
  {
    Or(And(w, Not(Mask(lane), n)), Up(d, lane.shift))
  }

  /** (w & mask) != (e << shift) */
  predicate Differs(w: nat, lane: Lane, e: nat)
  {
    And(w, Mask(lane)) != Up(e, lane.shift)
  }

  // ----- what they mean -----

  /** The low k bits. */
  function Low(x: nat, k: nat): (r: nat)
  {
    if k == 0 then 0 else 2 * Low(x / 2, k - 1) + x % 2
  }

  /** The number in a lane. */
  function Field(w: nat, lane: Lane): (v: nat)
  {
    Low(Down(w, lane.shift), lane.bits)
  }

  /** The word with the low bits of v in a lane, and its own bits elsewhere. */
  function Put(w: nat, lane: Lane, v: nat): (r: nat)
    decreases lane.shift, lane.bits
  {
    if lane.shift > 0 then 2 * Put(w / 2, Lane(lane.shift - 1, lane.bits), v) + w % 2
    else if lane.bits > 0 then 2 * Put(w / 2, Lane(0, lane.bits - 1), v / 2) + v % 2
    else w
  }

  lemma BitStep(h: nat, b: nat, i: nat)
    requires b < 2
    ensures BitAt(2 * h + b, i) == if i == 0 then b else BitAt(h, i - 1)
  {
    Halves(h, b);
  }

  /** Bit by bit: inside the lane the bits of v, outside it those of w. */
  lemma {:induction false} PutBits(w: nat, lane: Lane, v: nat, i: nat)
    ensures BitAt(Put(w, lane, v), i) ==
      if lane.shift <= i < lane.shift + lane.bits then BitAt(v, i - lane.shift) else BitAt(w, i)
    decreases lane.shift, lane.bits
  {
    if lane.shift > 0 {
      BitStep(Put(w / 2, Inner(lane), v), w % 2, i);
      if i > 0 { PutBits(w / 2, Inner(lane), v, i - 1); }
    } else if lane.bits > 0 {
      BitStep(Put(w / 2, Inner(lane), v / 2), v % 2, i);
      if i > 0 { PutBits(w / 2, Inner(lane), v / 2, i - 1); }
    }
  }

  lemma {:induction false} PutFits(w: nat, lane: Lane, v: nat, n: nat)
    requires InWord(lane, n) && Fits(w, n)
    ensures Fits(Put(w, lane, v), n)
    decreases n
  {
    if lane.shift > 0 {
      PutFits(w / 2, Inner(lane), v, n - 1);
      Halves(Put(w / 2, Inner(lane), v), w % 2);
    } else if lane.bits > 0 {
      PutFits(w / 2, Inner(lane), v / 2, n - 1);
      Halves(Put(w / 2, Inner(lane), v / 2), v % 2);
    }
  }

  lemma {:induction false} FieldPut(w: nat, lane: Lane, v: nat)
    ensures Field(Put(w, lane, v), lane) == Low(v, lane.bits)
    decreases lane.shift, lane.bits
  {
    if lane.shift > 0 {
      FieldPut(w / 2, Inner(lane), v);
      Halves(Put(w / 2, Inner(lane), v), w % 2);
      FieldStep(Put(w, lane, v), lane);
    } else if lane.bits > 0 {
      FieldPut(w / 2, Inner(lane), v / 2);
      Halves(Put(w / 2, Inner(lane), v / 2), v % 2);
      FieldStep(Put(w, lane, v), lane);
    }
  }

  lemma {:induction false} LowFits(x: nat, k: nat)
    ensures Fits(Low(x, k), k)
    ensures Fits(x, k) ==> Low(x, k) == x
  {
    if k > 0 { LowFits(x / 2, k - 1); }
  }

  // ----- the code computes it -----

  lemma AndStep(a: nat, b: nat, x: nat, y: nat)
    requires x < 2 && y < 2
    ensures And(2 * a + x, 2 * b + y) == 2 * And(a, b) + (if x == 1 && y == 1 then 1 else 0)
  {
    Halves(a, x);
    Halves(b, y);
  }

  lemma OrStep(a: nat, b: nat, x: nat, y: nat)
    requires x < 2 && y < 2
    ensures Or(2 * a + x, 2 * b + y) == 2 * Or(a, b) + (if x == 1 || y == 1 then 1 else 0)
  {
    Halves(a, x);
    Halves(b, y);
  }

  lemma AndParts(w: nat, v: nat, a: nat, b: nat, x: nat, y: nat)
    requires x < 2 && y < 2 && w == 2 * a + x && v == 2 * b + y
    ensures And(w, v) == 2 * And(a, b) + (if x == 1 && y == 1 then 1 else 0)
  {
    AndStep(a, b, x, y);
  }

  lemma OrParts(w: nat, v: nat, a: nat, b: nat, x: nat, y: nat)
    requires x < 2 && y < 2 && w == 2 * a + x && v == 2 * b + y
    ensures Or(w, v) == 2 * Or(a, b) + (if x == 1 || y == 1 then 1 else 0)
  {
    OrStep(a, b, x, y);
  }

  lemma Halves(a: nat, x: nat)
    requires x < 2
    ensures (2 * a + x) / 2 == a && (2 * a + x) % 2 == x
  {}

  /** The lane without its lowest bit, or one place lower, in a word without its lowest bit. */
  function Inner(lane: Lane): (inner: Lane)
    requires lane.shift > 0 || lane.bits > 0
  {
    if lane.shift > 0 then Lane(lane.shift - 1, lane.bits) else Lane(0, lane.bits - 1)
  }

  lemma {:induction false} AndNot0(w: nat, n: nat)
    requires Fits(w, n)
    ensures And(w, Not(0, n)) == w
  {
    if n > 0 {
      AndStep(w / 2, Not(0, n - 1), w % 2, 1);
      AndNot0(w / 2, n - 1);
    }
  }

  lemma FieldStep(w: nat, lane: Lane)
    requires lane.shift > 0 || lane.bits > 0
    ensures lane.shift > 0 ==> Field(w, lane) == Field(w / 2, Inner(lane))
    ensures lane.shift == 0 ==> Field(w, lane) == 2 * Field(w / 2, Inner(lane)) + w % 2
  {}

  /** A lane keeps its number when a lane beside it is written. */
  lemma {:induction false} FieldBeside(w: nat, lane: Lane, v: nat, other: Lane)
    requires Disjoint(lane, other)
    ensures Field(Put(w, lane, v), other) == Field(w, other)
    decreases lane.shift, lane.bits
  {
    if (lane.shift > 0 || lane.bits > 0) && (other.shift > 0 || other.bits > 0) {
      var v' := if lane.shift > 0 then v else v / 2;
      PutParts(w, lane, v);
      FieldStep(w, other);
      FieldStep(Put(w, lane, v), other);
      FieldBeside(w / 2, Inner(lane), v', Inner(other));
    }
  }

  lemma PutParts(w: nat, lane: Lane, v: nat)
    requires lane.shift > 0 || lane.bits > 0
    ensures Put(w, lane, v) / 2 == Put(w / 2, Inner(lane), if lane.shift > 0 then v else v / 2)
    ensures Put(w, lane, v) % 2 == if lane.shift > 0 then w % 2 else v % 2
  {
    if lane.shift > 0 {
      Halves(Put(w / 2, Inner(lane), v), w % 2);
    } else {
      Halves(Put(w / 2, Inner(lane), v / 2), v % 2);
    }
  }

  /** The bits under the mask are the lane's number, in its place. */
  lemma {:induction false} MaskedIsField(w: nat, lane: Lane)
    ensures And(w, Mask(lane)) == Up(Field(w, lane), lane.shift)
    decreases lane.shift, lane.bits
  {
    if lane.shift > 0 || lane.bits > 0 {
      MaskedIsField(w / 2, Inner(lane));
      FieldStep(w, lane);
      AndStep(w / 2, Mask(Inner(lane)), w % 2, if lane.shift > 0 then 0 else 1);
    }
  }

  lemma {:induction false} DownUp(x: nat, k: nat)
    ensures Down(Up(x, k), k) == x
  {
    if k > 0 { DownUp(x, k - 1); }
  }

  lemma GetIsField(w: nat, lane: Lane)
    ensures Get(w, lane) == Field(w, lane)
  {
    MaskedIsField(w, lane);
    DownUp(Field(w, lane), lane.shift);
  }

  /** The comparison of compare-and-exchange, made on shifted values, compares the lane. */
  lemma DiffersMeans(w: nat, lane: Lane, e: nat)
    ensures Differs(w, lane, e) <==> Field(w, lane) != e
  {
    MaskedIsField(w, lane);
    DownUp(Field(w, lane), lane.shift);
    DownUp(e, lane.shift);
  }

  lemma {:induction false} MergeIsPut(w: nat, lane: Lane, x: nat, n: nat)
    requires InWord(lane, n) && Fits(w, n)
    ensures Merge(w, lane, x, n) == Put(w, lane, x)
    decreases lane.shift, lane.bits
  {
    if lane.shift > 0 {
      MergeIsPut(w / 2, Inner(lane), x, n - 1);
      MergeShift(w, lane, x, n);
    } else if lane.bits > 0 {
      MergeIsPut(w / 2, Inner(lane), x / 2, n - 1);
      MergeBit(w, lane, x, n);
    } else {
      AndNot0(w, n);
    }
  }

  /** A bit of the result from the bits of two words, their complements and masks. */
  function Selected(a: nat, b: nat, c: nat, d: nat): (r: nat)
  {
    if (a == 1 && b == 1) || (c == 1 && d == 1) then 1 else 0
  }

  lemma CombineParts(w: nat, not: nat, up: nat, mask: nat,
                     h: nat, k: nat, u: nat, m: nat, a: nat, b: nat, c: nat, d: nat)
    requires a < 2 && b < 2 && c < 2 && d < 2
    requires w == 2 * h + a && not == 2 * k + b && up == 2 * u + c && mask == 2 * m + d
    ensures Or(And(w, not), And(up, mask)) == 2 * Or(And(h, k), And(u, m)) + Selected(a, b, c, d)
  {
    var e, f := if a == 1 && b == 1 then 1 else 0, if c == 1 && d == 1 then 1 else 0;
    AndParts(w, not, h, k, a, b);
    AndParts(up, mask, u, m, c, d);
    OrParts(And(w, not), And(up, mask), And(h, k), And(u, m), e, f);
  }

  lemma NotStep(m: nat, b: nat, n: nat)
    requires b < 2 && n > 0
    ensures Not(2 * m + b, n) == 2 * Not(m, n - 1) + (1 - b)
  {
    Halves(m, b);
  }

  lemma MergeShift(w: nat, lane: Lane, x: nat, n: nat)
    requires lane.shift > 0 && InWord(lane, n)
    ensures Merge(w, lane, x, n) == 2 * Merge(w / 2, Inner(lane), x, n - 1) + w % 2
  {
    var m := Mask(Inner(lane));
    NotStep(m, 0, n);
    CombineParts(w, Not(Mask(lane), n), Up(x, lane.shift), Mask(lane),
                 w / 2, Not(m, n - 1), Up(x, lane.shift - 1), m, w % 2, 1, 0, 0);
  }

  lemma MergeBit(w: nat, lane: Lane, x: nat, n: nat)
    requires lane.shift == 0 && lane.bits > 0 && InWord(lane, n)
    ensures Merge(w, lane, x, n) == 2 * Merge(w / 2, Inner(lane), x / 2, n - 1) + x % 2
  {
    var m := Mask(Inner(lane));
    NotStep(m, 1, n);
    CombineParts(w, Not(Mask(lane), n), x, Mask(lane), w / 2, Not(m, n - 1), x / 2, m, w % 2, 0, x % 2, 1);
  }

  lemma {:induction false} UpMasked(d: nat, lane: Lane)
    requires Fits(d, lane.bits)
    ensures And(Up(d, lane.shift), Mask(lane)) == Up(d, lane.shift)
    decreases lane.shift, lane.bits
  {
    if lane.shift > 0 {
      UpMasked(d, Inner(lane));
      AndParts(Up(d, lane.shift), Mask(lane), Up(d, lane.shift - 1), Mask(Inner(lane)), 0, 0);
    } else if lane.bits > 0 {
      UpMasked(d / 2, Inner(lane));
      AndParts(d, Mask(lane), d / 2, Mask(Inner(lane)), d % 2, 1);
    }
  }

  /** Inserting without the mask is right because the value fits. */
  lemma InsertIsPut(w: nat, lane: Lane, d: nat, n: nat)
    requires InWord(lane, n) && Fits(w, n) && Fits(d, lane.bits)
    ensures Insert(w, lane, d, n) == Put(w, lane, d)
  {
    UpMasked(d, lane);
    MergeIsPut(w, lane, d, n);
  }

  // ----- the read-modify-write operations -----

  datatype Fun = Add | Subtract | AndF | OrF | XorF | Nand

  /** The operation on words of n bits. */
  function Compute(f: Fun, a: nat, b: nat, n: nat): (r: nat)
  {
    match f
    case Add => (a + b) % Pow2(n)
    case Subtract => Sub(a, b, n)
    case AndF => And(a, b)
    case OrF => Or(a, b)
    case XorF => Xor(a, b)
    case Nand => Not(And(a, b), n)
  }

  lemma {:induction false} LowIsMod(x: nat, k: nat)
    ensures Low(x, k) == x % Pow2(k)
  {
    if k == 0 {
      Arith.DivModOne(x);
    } else {
      LowIsMod(x / 2, k - 1);
      Pow2Succ(k - 1);
      Arith.DivDiv(x, 2, Pow2(k - 1));
    }
  }

  /** The mask is ((1 << bits) - 1) << shift. */
  lemma {:induction false} MaskIs(lane: Lane)
    ensures Mask(lane) == (Pow2(lane.bits) - 1) * Pow2(lane.shift)
    decreases lane.shift, lane.bits
  {
    if lane.shift > 0 {
      MaskIs(Inner(lane));
      Pow2Double(Pow2(lane.bits) - 1, lane.shift - 1);
    } else {
      LowMask(lane.bits);
      assert Pow2(0) == 1;
    }
  }

  lemma {:induction false} LowMask(bits: nat)
    ensures Mask(Lane(0, bits)) == Pow2(bits) - 1
  {
    if bits > 0 {
      LowMask(bits - 1);
      Pow2Succ(bits - 1);
    }
  }

  /** Reducing in a wide word first does not matter. */
  lemma ModMod(x: int, k: nat, n: nat)
    requires k <= n
    ensures x % Pow2(n) % Pow2(k) == x % Pow2(k)
  {
    Pow2Split(k, n);
    var q := x / Pow2(n);
    Arith.DivIdentity(x, Pow2(n));
    assert x % Pow2(n) == x + (0 - q * Pow2(n - k)) * Pow2(k) by {
      Arith.MulAssoc(q, Pow2(n - k), Pow2(k));
      Arith.Distribute(0, 0 - q * Pow2(n - k), Pow2(k));
    }
    Arith.ModEqual(x % Pow2(n), x, 0 - q * Pow2(n - k), Pow2(k));
  }

  lemma {:induction false} LowNot(x: nat, k: nat, n: nat)
    requires k <= n
    ensures Low(Not(x, n), k) == Not(x, k)
    decreases k
  {
    if k > 0 {
      Halves(Not(x / 2, n - 1), 1 - x % 2);
      LowNot(x / 2, k - 1, n - 1);
    }
  }

  lemma {:induction false} BitwiseFits(a: nat, b: nat, k: nat)
    requires Fits(a, k) && Fits(b, k)
    ensures Fits(And(a, b), k) && Fits(Or(a, b), k) && Fits(Xor(a, b), k)
    decreases k
  {
    if k > 0 {
      BitwiseFits(a / 2, b / 2, k - 1);
    }
  }

  /** Cut to a lane, the operation in the wide word is the operation in the lane's own type. */
  lemma ComputeInLane(f: Fun, a: nat, b: nat, k: nat, n: nat)
    requires k <= n && Fits(a, k) && Fits(b, k)
    ensures Low(Compute(f, a, b, n), k) == Compute(f, a, b, k)
  {
    match f
    case Add =>
      LowIsMod((a + b) % Pow2(n), k);
      ModMod(a + b, k, n);
    case Subtract =>
      LowIsMod(Sub(a, b, n), k);
      ModMod(a - b, k, n);
    case AndF =>
      BitwiseFits(a, b, k);
      LowFits(And(a, b), k);
    case OrF =>
      BitwiseFits(a, b, k);
      LowFits(Or(a, b), k);
    case XorF =>
      BitwiseFits(a, b, k);
      LowFits(Xor(a, b), k);
    case Nand =>
      LowNot(And(a, b), k, n);
  }

  // ----- what the operations do, bit by bit -----

  lemma {:induction false} ZeroBits(i: nat)
    ensures BitAt(0, i) == 0
  {
    if i > 0 { ZeroBits(i - 1); }
  }

  lemma {:induction false} AndBits(a: nat, b: nat, i: nat)
    ensures BitAt(And(a, b), i) == if BitAt(a, i) == 1 && BitAt(b, i) == 1 then 1 else 0
    decreases i
  {
    if a == 0 || b == 0 {
      ZeroBits(i);
    } else {
      Halves(And(a / 2, b / 2), if a % 2 == 1 && b % 2 == 1 then 1 else 0);
      if i > 0 { AndBits(a / 2, b / 2, i - 1); }
    }
  }

  lemma {:induction false} OrBits(a: nat, b: nat, i: nat)
    ensures BitAt(Or(a, b), i) == if BitAt(a, i) == 1 || BitAt(b, i) == 1 then 1 else 0
    decreases i
  {
    BitIsBit(a, i);
    BitIsBit(b, i);
    if a == 0 || b == 0 {
      ZeroBits(i);
    } else {
      Halves(Or(a / 2, b / 2), if a % 2 == 1 || b % 2 == 1 then 1 else 0);
      if i > 0 { OrBits(a / 2, b / 2, i - 1); }
    }
  }

  lemma {:induction false} XorBits(a: nat, b: nat, i: nat)
    ensures BitAt(Xor(a, b), i) == if BitAt(a, i) != BitAt(b, i) then 1 else 0
    decreases i
  {
    BitIsBit(a, i);
    BitIsBit(b, i);
    if a == 0 || b == 0 {
      ZeroBits(i);
    } else {
      Halves(Xor(a / 2, b / 2), if a % 2 != b % 2 then 1 else 0);
      if i > 0 { XorBits(a / 2, b / 2, i - 1); }
    }
  }

  lemma {:induction false} BitIsBit(x: nat, i: nat)
    ensures BitAt(x, i) < 2
  {
    if i > 0 { BitIsBit(x / 2, i - 1); }
  }

  lemma {:induction false} NotBits(x: nat, n: nat, i: nat)
    requires i < n
    ensures BitAt(Not(x, n), i) == 1 - BitAt(x, i)
  {
    Halves(Not(x / 2, n - 1), 1 - x % 2);
    if i > 0 { NotBits(x / 2, n - 1, i - 1); }
  }

  /** One bit of the result of a bitwise operation, from the bits of its operands. */
  predicate BitOf(f: Fun, a: nat, b: nat, r: nat)
  {
    && (f.AndF? ==> (r == 1 <==> a == 1 && b == 1))
    && (f.OrF? ==> (r == 0 <==> a == 0 && b == 0))
    && (f.XorF? ==> (r == 0 <==> a == b))
    && (f.Nand? ==> (r == 0 <==> a == 1 && b == 1))
  }

  predicate Bitwise(f: Fun) { f.AndF? || f.OrF? || f.XorF? || f.Nand? }

  /** Every bit of a bitwise operation comes from the bits at its place. */
  lemma ComputeBits(f: Fun, a: nat, b: nat, n: nat, i: nat)
    requires i < n && Bitwise(f)
    ensures BitOf(f, BitAt(a, i), BitAt(b, i), BitAt(Compute(f, a, b, n), i))
  {
    BitIsBit(a, i);
    BitIsBit(b, i);
    match f
    case AndF => AndBits(a, b, i);
    case OrF => OrBits(a, b, i);
    case XorF => XorBits(a, b, i);
    case Nand =>
      AndBits(a, b, i);
      NotBits(And(a, b), n, i);
  }

  /** Adding and subtracting undo each other. */
  lemma ComputeSums(a: nat, b: nat, n: nat)
    requires a < Pow2(n)
    ensures (Compute(Subtract, a, b, n) + b) % Pow2(n) == a
    ensures (Compute(Add, a, b, n) - b) % Pow2(n) == a
  {
    SumsUndo(a, b, Pow2(n));
  }

  lemma SumsUndo(a: nat, b: nat, m: nat)
    requires a < m
    ensures ((a - b) % m + b) % m == a && ((a + b) % m - b) % m == a
  {
    Arith.DivIdentity(a - b, m);
    Arith.DivIdentity(a + b, m);
    assert -((a - b) / m) * m == -((a - b) / m * m) && -((a + b) / m) * m == -((a + b) / m * m);
    Arith.DivModUnique((a - b) % m + b, m, -((a - b) / m), a);
    Arith.DivModUnique((a + b) % m - b, m, -((a + b) / m), a);
  }

  // ----- what a lane is -----

  lemma {:induction false} DownBits(w: nat, k: nat, i: nat)
    ensures BitAt(Down(w, k), i) == BitAt(w, k + i)
    decreases k
  {
    if k > 0 { DownBits(w / 2, k - 1, i); }
  }

  lemma {:induction false} LowBits(x: nat, k: nat, i: nat)
    ensures BitAt(Low(x, k), i) == if i < k then BitAt(x, i) else 0
    decreases k
  {
    if k == 0 {
      ZeroBits(i);
    } else {
      Halves(Low(x / 2, k - 1), x % 2);
      if i > 0 { LowBits(x / 2, k - 1, i - 1); }
    }
  }

  /** The bits of the number in a lane are the word's bits from the lane's shift on. */
  lemma FieldBits(w: nat, lane: Lane, i: nat)
    ensures BitAt(Field(w, lane), i) == if i < lane.bits then BitAt(w, lane.shift + i) else 0
  {
    LowBits(Down(w, lane.shift), lane.bits, i);
    DownBits(w, lane.shift, i);
  }

  lemma {:induction false} DownIsDiv(w: nat, k: nat)
    ensures Down(w, k) == w / Pow2(k)
  {
    if k > 0 {
      DownIsDiv(w / 2, k - 1);
      Pow2Succ(k - 1);
      Arith.DivDiv(w, 2, Pow2(k - 1));
    } else {
      assert Pow2(0) == 1;
    }
  }

  lemma {:induction false} DownDown(w: nat, j: nat, k: nat)
    ensures Down(w, j + k) == Down(Down(w, j), k)
    decreases j
  {
    if j > 0 { DownDown(w / 2, j - 1, k); }
  }

  /** Behind the lowest byte a word is the rest of it. */
  lemma NextByte(b: nat, rest: nat, shift: nat, bits: nat)
    requires b < 256
    ensures Field(b + 256 * rest, Lane(8 + shift, bits)) == Field(rest, Lane(shift, bits))
  {
    DownDown(b + 256 * rest, 8, shift);
    DownIsDiv(b + 256 * rest, 8);
    assert Pow2(8) == 256;
  }

  /** The lowest byte, or the lowest two. */
  lemma FirstBytes(b: nat, c: nat, rest: nat, bits: nat)
    requires b < 256 && c < 256 && (bits == 8 || bits == 16)
    ensures Field(b + 256 * (c + 256 * rest), Lane(0, bits)) == if bits == 8 then b else b + 256 * c
  {
    var w := b + 256 * (c + 256 * rest);
    LowIsMod(w, bits);
    BytePowers();
    BytesLeft(b, c, rest, w);
  }

  lemma BytePowers()
    ensures Pow2(8) == 256 && Pow2(16) == 65536
  {
    assert Pow2(8) == 256;
    Pow2Square(8);
  }

  lemma BytesLeft(b: nat, c: nat, rest: nat, w: nat)
    requires b < 256 && c < 256 && w == b + 256 * (c + 256 * rest)
    ensures w % 256 == b && w % 65536 == b + 256 * c
  {
    Arith.DivModUnique(w, 256, c + 256 * rest, b);
    Arith.DivModUnique(w, 65536, rest, b + 256 * c);
  }

  /** The bytes of a little-endian word lie in the lanes of their addresses. */
  lemma LaneHolds(b0: nat, b1: nat, b2: nat, b3: nat, address: nat)
    requires b0 < 256 && b1 < 256 && b2 < 256 && b3 < 256
    ensures var w, k := b0 + 256 * (b1 + 256 * (b2 + 256 * b3)), address % 4;
      && Field(w, LaneAt(address, 1)) == (if k == 0 then b0 else if k == 1 then b1 else if k == 2 then b2 else b3)
      && (address % 2 == 0 ==> Field(w, LaneAt(address, 2)) == if k == 0 then b0 + 256 * b1 else b2 + 256 * b3)
  {
    LaneBytes(b0, b1, b2, b3, address % 4, 8);
    if address % 2 == 0 { LaneBytes(b0, b1, b2, b3, address % 4, 16); }
  }

  lemma LaneBytes(b0: nat, b1: nat, b2: nat, b3: nat, k: nat, bits: nat)
    requires b0 < 256 && b1 < 256 && b2 < 256 && b3 < 256 && k < 4
    requires bits == 8 || (bits == 16 && k % 2 == 0)
    ensures Field(b0 + 256 * (b1 + 256 * (b2 + 256 * b3)), Lane(8 * k, bits))
         == if bits == 16 then (if k == 0 then b0 + 256 * b1 else b2 + 256 * b3)
            else if k == 0 then b0 else if k == 1 then b1 else if k == 2 then b2 else b3
  {
    if k == 0 {
      FirstBytes(b0, b1, b2 + 256 * b3, bits);
    } else {
      NextByte(b0, b1 + 256 * (b2 + 256 * b3), 8 * k - 8, bits);
      if k == 1 {
        FirstBytes(b1, b2, b3, bits);
      } else {
        NextByte(b1, b2 + 256 * b3, 8 * k - 16, bits);
        if k == 2 {
          FirstBytes(b2, b3, 0, bits);
        } else {
          NextByte(b2, b3, 8 * k - 24, bits);
          FirstBytes(b3, 0, 0, bits);
        }
      }
    }
  }
}
