/**
 * The block copies of the C library and the kernel's byte loops, on one memory in which source and
 * destination may overlap. Addresses are indices, so that alignment is their remainder by 8.
 */
module BlockCopy {

  type Byte = x: int | 0 <= x < 256

  /** Byte for byte, r is m with the n bytes at d taken from s. */
  ghost predicate MovesBytes(m: seq<Byte>, r: seq<Byte>, d: nat, s: nat, n: nat)
  {
    && d + n <= |m| && s + n <= |m| && |r| == |m|
    && (forall i :: d <= i < d + n ==> r[i] == m[s + i - d])
    && (forall i :: 0 <= i < d ==> r[i] == m[i])
    && (forall i :: d + n <= i < |m| ==> r[i] == m[i])
  }

  /** What a copy of n bytes from s to d should do: take every byte from the memory before the call. */
  ghost predicate Moves(m: seq<Byte>, r: seq<Byte>, d: nat, s: nat, n: nat)
  {
    forall i: int {:trigger Looking(m, r, d, s, n, i)} :: Looking(m, r, d, s, n, i) ==> MovesBytes(m, r, d, s, n)
  }

  ghost predicate Looking(m: seq<Byte>, r: seq<Byte>, d: nat, s: nat, n: nat, i: int)
  {
    true
  }

  /** Nothing outside [lo, hi) is different. */
  ghost predicate Within(m: seq<Byte>, r: seq<Byte>, lo: nat, hi: nat)
  {
    forall i: int {:trigger Bounding(m, r, lo, hi, i)} :: Bounding(m, r, lo, hi, i) ==>
      && |r| == |m|
      && (forall i :: 0 <= i < |m| && i < lo ==> r[i] == m[i])
      && (forall i :: hi <= i < |m| ==> r[i] == m[i])
  }

  ghost predicate Bounding(m: seq<Byte>, r: seq<Byte>, lo: nat, hi: nat, i: int)
  {
    true
  }

  lemma MovesMeans(m: seq<Byte>, r: seq<Byte>, d: nat, s: nat, n: nat)
    ensures Moves(m, r, d, s, n) <==> MovesBytes(m, r, d, s, n)
  {
    assert Looking(m, r, d, s, n, 0);
  }

  /** There is only one right result. */
  lemma MovesUnique(m: seq<Byte>, r: seq<Byte>, r': seq<Byte>, d: nat, s: nat, n: nat)
    requires Moves(m, r, d, s, n) && Moves(m, r', d, s, n)
    ensures r == r'
  {
    MovesMeans(m, r, d, s, n);
    MovesMeans(m, r', d, s, n);
    forall i | 0 <= i < |m| ensures r[i] == r'[i] {
      if d <= i < d + n { assert r[i] == m[s + i - d] && r'[i] == m[s + i - d]; }
    }
  }

  lemma MovesNothing(m: seq<Byte>, d: nat, s: nat)
    requires d <= |m| && s <= |m|
    ensures Moves(m, m, d, s, 0)
  {
    MovesMeans(m, m, d, s, 0);
  }

  lemma MovesNowhere(m: seq<Byte>, d: nat, n: nat)
    requires d + n <= |m|
    ensures Moves(m, m, d, d, n)
  {
    MovesMeans(m, m, d, d, n);
  }

  /** Moving the upper part first is right when the destination is not below the source. */
  lemma UpperFirst(m: seq<Byte>, u: seq<Byte>, r: seq<Byte>, d: nat, s: nat, n: nat, k: nat)
    requires s <= d && k <= n && Moves(m, u, d + k, s + k, n - k) && Moves(u, r, d, s, k)
    ensures Moves(m, r, d, s, n)
  {
    MovesMeans(m, u, d + k, s + k, n - k);
    MovesMeans(u, r, d, s, k);
    forall i | d <= i < d + n ensures r[i] == m[s + i - d] {
      if i < d + k {
        assert r[i] == u[s + i - d];
      } else {
        assert r[i] == u[i] && u[i] == m[s + k + i - (d + k)];
      }
    }
    MovesMeans(m, r, d, s, n);
  }

  /** Moving the lower part first is right when it does not write what is still to be read. */
  lemma LowerFirst(m: seq<Byte>, u: seq<Byte>, r: seq<Byte>, d: nat, s: nat, n: nat, k: nat)
    requires d <= s || s + n <= d
    requires k <= n && Moves(m, u, d, s, k) && Moves(u, r, d + k, s + k, n - k)
    ensures Moves(m, r, d, s, n)
  {
    MovesMeans(m, u, d, s, k);
    MovesMeans(u, r, d + k, s + k, n - k);
    forall i | d <= i < d + n ensures r[i] == m[s + i - d] {
      if i >= d + k {
        assert r[i] == u[s + k + i - (d + k)];
        assert u[s + i - d] == m[s + i - d];
      }
    }
    MovesMeans(m, r, d, s, n);
  }

  // ----- stepping stones of the code -----

  /** An unaligned 8-byte load and store: all bytes are read before any is written. */
  method CopyWord(mem: array<Byte>, d: nat, s: nat)
    requires d + 8 <= mem.Length && s + 8 <= mem.Length
    modifies mem
    ensures Moves(old(mem[..]), mem[..], d, s, 8)
  {
    var w := mem[s..s + 8];
    forall i | d <= i < d + 8 { mem[i] := w[i - d]; }
    MovesMeans(old(mem[..]), mem[..], d, s, 8);
  }

  method CopyByte(mem: array<Byte>, d: nat, s: nat)
    requires d < mem.Length && s < mem.Length
    modifies mem
    ensures Moves(old(mem[..]), mem[..], d, s, 1)
  {
    mem[d] := mem[s];
    MovesMeans(old(mem[..]), mem[..], d, s, 1);
  }

  /** Byte by byte from the lowest address up. */
  method CopyUp(mem: array<Byte>, d: nat, s: nat, n: nat)
    requires d + n <= mem.Length && s + n <= mem.Length && (d <= s || s + n <= d)
    modifies mem
    ensures Moves(old(mem[..]), mem[..], d, s, n)
  {
    MovesNothing(mem[..], d, s);
    for i := 0 to n
      invariant Moves(old(mem[..]), mem[..], d, s, i)
    {
      ghost var u := mem[..];
      CopyByte(mem, d + i, s + i);
      LowerFirst(old(mem[..]), u, mem[..], d, s, i + 1, i);
    }
  }

  /** Byte by byte from the highest address down. */
  method CopyDown(mem: array<Byte>, d: nat, s: nat, n: nat)
    requires d + n <= mem.Length && s + n <= mem.Length && s <= d
    modifies mem
    ensures Moves(old(mem[..]), mem[..], d, s, n)
  {
    MovesNothing(mem[..], d + n, s + n);
    var i := n;
    while i > 0
      invariant 0 <= i <= n && Moves(old(mem[..]), mem[..], d + i, s + i, n - i)
    {
      i := i - 1;
      ghost var u := mem[..];
      CopyByte(mem, d + i, s + i);
      UpperFirst(old(mem[..]), u, mem[..], d + i, s + i, n - i, 1);
    }
  }

  // ----- kernel/src/main.cpp -----

  /** The simple form: two byte loops. It is right for every overlap. */
  method KernelMemMove(mem: array<Byte>, d: nat, s: nat, n: nat)
    requires d + n <= mem.Length && s + n <= mem.Length
    modifies mem
    ensures Moves(old(mem[..]), mem[..], d, s, n)
  {
    if s > d {
      CopyUp(mem, d, s, n);
    } else if s < d {
      CopyDown(mem, d, s, n);
    } else {
      MovesNowhere(mem[..], d, n);
    }
  }

  /** memset as a loop unrolled eight times and entered in the middle. */
  method MemSet(mem: array<Byte>, p: nat, c: int, n: nat)
    requires p + n <= mem.Length
    modifies mem
    ensures forall i :: p <= i < p + n ==> mem[i] == c % 256
    ensures forall i :: 0 <= i < mem.Length && !(p <= i < p + n) ==> mem[i] == old(mem[i])
  {
    var x := c % 256;
    var leftover := n % 8;
    if n == 0 { return; }
    var sz := (n + 7) / 8;
    var q := p;
    var entry := if leftover == 0 then 8 else leftover;
    while sz > 0
      invariant sz >= 0 && 1 <= entry <= 8 && p <= q
      invariant q + (if sz == 0 then 0 else entry + 8 * (sz - 1)) == p + n
      invariant forall i :: p <= i < q ==> mem[i] == c % 256
      invariant forall i :: 0 <= i < mem.Length && !(p <= i < q) ==> mem[i] == old(mem[i])
    {
      for k := 0 to entry
        invariant forall i :: p <= i < q + k ==> mem[i] == c % 256
        invariant forall i :: 0 <= i < mem.Length && !(p <= i < q + k) ==> mem[i] == old(mem[i])
      {
        mem[q + k] := x;
      }
      q := q + entry;
      entry := 8;
      sz := sz - 1;
    }
  }

  // ----- lib/stdc/memory.c -----

  /** The byte of a 64-byte block that an upward copy over a short distance gets wrong for sure. */
  function Victim(distance: int): (q: nat)
    ensures 0 < distance < 64 ==> 8 <= q < 64 && distance <= q < distance + 8
  {
    if distance < 8 then 8 else distance
  }

  /** After k words of such a block: the victim's source was overwritten, and then copied. */
  ghost predicate Smears(m: seq<Byte>, r: seq<Byte>, d: nat, s: nat, k: nat)
  {
    var q := Victim(d - s);
    && 0 < d - s < 64 && d + 64 <= |m| && |r| == |m|
    && (k == 0 ==> r == m)
    && (k > 0 ==> r[s + q] == m[s + q - (d - s)])
    && (q < 8 * k ==> r[d + q] == m[s + q - (d - s)])
  }

  lemma SmearStep(m: seq<Byte>, u: seq<Byte>, r: seq<Byte>, d: nat, s: nat, k: nat)
    requires k < 8 && Smears(m, u, d, s, k) && Moves(u, r, d + 8 * k, s + 8 * k, 8)
    ensures Smears(m, r, d, s, k + 1)
  {
    MovesMeans(u, r, d + 8 * k, s + 8 * k, 8);
    var q := Victim(d - s);
    if k == 0 {
      assert r[s + q] == u[s + (s + q) - d];
    } else {
      assert r[s + q] == u[s + q];
    }
    if 8 * k <= q < 8 * k + 8 {
      assert r[d + q] == u[s + 8 * k + (d + q) - (d + 8 * k)];
      assert s + 8 * k + (d + q) - (d + 8 * k) == s + q;
    }
  }

  lemma WithinStep(m: seq<Byte>, u: seq<Byte>, r: seq<Byte>, lo: nat, hi: nat, d: nat, s: nat, n: nat)
    requires Within(m, u, lo, hi) && Moves(u, r, d, s, n) && lo <= d && d + n <= hi
    ensures Within(m, r, lo, hi)
  {
    assert Bounding(m, u, lo, hi, 0);
    MovesMeans(u, r, d, s, n);
  }

  lemma WithinSelf(m: seq<Byte>, lo: nat, hi: nat)
    ensures Within(m, m, lo, hi)
  {}

  /** The unrolled 64-byte copy: eight words, lowest first. */
  method CopyBlock(mem: array<Byte>, d: nat, s: nat)
    requires d + 64 <= mem.Length && s + 64 <= mem.Length
    modifies mem
    ensures d <= s || s + 64 <= d ==> Moves(old(mem[..]), mem[..], d, s, 64)
    ensures s < d < s + 64 ==> Smears(old(mem[..]), mem[..], d, s, 8)
    ensures Within(old(mem[..]), mem[..], d, d + 64)
  {
    MovesNothing(mem[..], d, s);
    WithinSelf(mem[..], d, d + 64);
    for k := 0 to 8
      invariant d <= s || s + 64 <= d ==> Moves(old(mem[..]), mem[..], d, s, 8 * k)
      invariant s < d < s + 64 ==> Smears(old(mem[..]), mem[..], d, s, k)
      invariant Within(old(mem[..]), mem[..], d, d + 64)
    {
      ghost var u := mem[..];
      CopyWord(mem, d + 8 * k, s + 8 * k);
      WithinStep(old(mem[..]), u, mem[..], d, d + 64, d + 8 * k, s + 8 * k, 8);
      if d <= s || s + 64 <= d {
        LowerFirst(old(mem[..]), u, mem[..], d, s, 8 * k + 8, 8 * k);
      } else {
        SmearStep(old(mem[..]), u, mem[..], d, s, k);
      }
    }
  }

  /** memcpy_fscpuf without assembly: an unaligned head, 64-byte blocks, words, bytes. */
  method MemCopy(mem: array<Byte>, d: nat, s: nat, n: nat)
    requires d + n <= mem.Length && s + n <= mem.Length && (d <= s || s + n <= d)
    modifies mem
    ensures Moves(old(mem[..]), mem[..], d, s, n)
  {
    MovesNothing(mem[..], d, s);
    var i := 0;
    if n >= 8 {
      var align := d % 8;
      if align != 0 {
        var head := 8 - align;
        if head > n { head := n; }
        CopyUp(mem, d, s, head);
        i := head;
      }
      while n - i >= 64
        invariant 0 <= i <= n && Moves(old(mem[..]), mem[..], d, s, i)
      {
        ghost var u := mem[..];
        CopyBlock(mem, d + i, s + i);
        LowerFirst(old(mem[..]), u, mem[..], d, s, i + 64, i);
        i := i + 64;
      }
      while n - i >= 8
        invariant 0 <= i <= n && Moves(old(mem[..]), mem[..], d, s, i)
      {
        ghost var u := mem[..];
        CopyWord(mem, d + i, s + i);
        LowerFirst(old(mem[..]), u, mem[..], d, s, i + 8, i);
        i := i + 8;
      }
    }
    ghost var u := mem[..];
    CopyUp(mem, d + i, s + i, n - i);
    LowerFirst(old(mem[..]), u, mem[..], d, s, n, i);
  }

  /** The bytes that the backward path copies singly so that the destination ends on a word boundary. */
  function Tail(d: nat, n: nat): (t: nat)
    ensures t <= n
  {
    if (d + n) % 8 > n then n else (d + n) % 8
  }

  /** The backward path is right: no block is copied, or none overlaps its source. */
  predicate BackwardRight(d: nat, s: nat, n: nat)
  {
    d - s >= 64 || n - Tail(d, n) < 64
  }

  /** The byte at offset p came from the source at a lower offset. */
  ghost predicate WrongAt(m: seq<Byte>, r: seq<Byte>, d: nat, s: nat, p: nat)
  {
    && 0 < d - s && d - s <= p && d + p < |m| && |r| == |m|
    && r[d + p] == m[s + p - (d - s)]
  }

  lemma FirstWrong(m: seq<Byte>, r: seq<Byte>, d: nat, s: nat, i: nat)
    requires Smears(m, r, d + i, s + i, 8)
    ensures WrongAt(m, r, d, s, i + Victim(d - s))
  {}

  /** The loop over 64-byte blocks from the highest address down, each block copied upwards. */
  method BlocksDown(mem: array<Byte>, d: nat, s: nat, n: nat) returns (i: nat)
    requires d + n <= mem.Length && s < d
    modifies mem
    ensures i == n % 64 && Within(old(mem[..]), mem[..], d + i, d + n)
    ensures d - s >= 64 ==> Moves(old(mem[..]), mem[..], d + i, s + i, n - i)
    ensures d - s < 64 <= n ==> WrongAt(old(mem[..]), mem[..], d, s, n - 64 + Victim(d - s))
    ensures n < 64 ==> mem[..] == old(mem[..])
  {
    i := n;
    ghost var m := mem[..];
    MovesNothing(m, d + n, s + n);
    WithinSelf(m, d + n, d + n);
    ghost var k := 0;
    while i >= 64
      invariant i <= n && n == i + 64 * k && BlocksDone(m, mem[..], d, s, n, i)
    {
      ghost var u := mem[..];
      CopyBlock(mem, d + i - 64, s + i - 64);
      OneBlockMore(m, u, mem[..], d, s, n, i, k);
      i := i - 64;
      k := k + 1;
    }
  }

  /** What the loop has done when i bytes are left: the part above them is right, or wrong at a known byte. */
  ghost predicate BlocksDone(m: seq<Byte>, r: seq<Byte>, d: nat, s: nat, n: nat, i: nat)
  {
    && i <= n && s < d && Within(m, r, d + i, d + n)
    && (d - s >= 64 ==> Moves(m, r, d + i, s + i, n - i))
    && (d - s < 64 && i + 64 <= n ==> WrongAt(m, r, d, s, n - 64 + Victim(d - s)))
    && (i == n ==> r == m)
  }

  lemma OneBlockMore(m: seq<Byte>, u: seq<Byte>, r: seq<Byte>, d: nat, s: nat, n: nat, i: nat, k: nat)
    requires i >= 64 && n == i + 64 * k && d + n <= |m| && BlocksDone(m, u, d, s, n, i)
    requires Within(u, r, d + i - 64, d + i)
    requires d - s >= 64 ==> Moves(u, r, d + i - 64, s + i - 64, 64)
    requires d - s < 64 ==> Smears(u, r, d + i - 64, s + i - 64, 8)
    ensures BlocksDone(m, r, d, s, n, i - 64)
  {
    var j := i - 64;
    WithinMore(m, u, r, d + j, d + i, d + n);
    if d - s >= 64 {
      UpperFirst(m, u, r, d + j, s + j, n - j, 64);
    } else if k == 0 {
      FirstWrong(m, r, d, s, j);
    } else {
      StillWrong(m, u, r, d, s, n - 64 + Victim(d - s), d + j, d + i);
    }
  }

  /** Two changes, the second below the first. */
  lemma WithinMore(m: seq<Byte>, u: seq<Byte>, r: seq<Byte>, lo: nat, mid: nat, hi: nat)
    requires lo <= mid <= hi && Within(m, u, mid, hi) && Within(u, r, lo, mid)
    ensures Within(m, r, lo, hi)
  {
    assert Bounding(m, u, mid, hi, 0);
    assert Bounding(u, r, lo, mid, 0);
  }

  lemma StillWrong(m: seq<Byte>, u: seq<Byte>, r: seq<Byte>, d: nat, s: nat, p: nat, lo: nat, hi: nat)
    requires WrongAt(m, u, d, s, p) && Within(u, r, lo, hi) && d + p >= hi
    ensures WrongAt(m, r, d, s, p)
  {
    assert Bounding(u, r, lo, hi, 0);
  }

  /** The loop over words from the highest address down, and the byte loop after it. */
  method WordsDown(mem: array<Byte>, d: nat, s: nat, n: nat)
    requires d + n <= mem.Length && s < d
    modifies mem
    ensures Moves(old(mem[..]), mem[..], d, s, n)
  {
    var i := n;
    MovesNothing(mem[..], d + i, s + i);
    while i >= 8
      invariant 0 <= i <= n && Moves(old(mem[..]), mem[..], d + i, s + i, n - i)
    {
      i := i - 8;
      ghost var u := mem[..];
      CopyWord(mem, d + i, s + i);
      UpperFirst(old(mem[..]), u, mem[..], d + i, s + i, n - i, 8);
    }
    ghost var u := mem[..];
    CopyDown(mem, d, s, i);
    UpperFirst(old(mem[..]), u, mem[..], d, s, n, i);
  }

  /** Where the backward path is wrong, if it is. */
  function WrongOffset(d: nat, s: nat, n: nat): (p: int)
  {
    n - Tail(d, n) - 64 + Victim(d - s)
  }

  lemma WrongAfterTail(m: seq<Byte>, u: seq<Byte>, v: seq<Byte>, d: nat, s: nat, rest: nat, t: nat, p: nat)
    requires Moves(m, u, d + rest, s + rest, t) && WrongAt(u, v, d, s, p) && p < rest
    ensures WrongAt(m, v, d, s, p)
  {
    MovesMeans(m, u, d + rest, s + rest, t);
  }

  lemma MovesWithin(m: seq<Byte>, r: seq<Byte>, d: nat, s: nat, n: nat)
    requires Moves(m, r, d, s, n)
    ensures Within(m, r, d, d + n)
  {
    WithinSelf(m, d, d + n);
    WithinStep(m, m, r, d, d + n, d, s, n);
  }

  /** The backward path: single bytes down to a word boundary, blocks, words, bytes. */
  method MoveBackward(mem: array<Byte>, d: nat, s: nat, n: nat)
    requires d + n <= mem.Length && s < d
    modifies mem
    ensures BackwardRight(d, s, n) ==> Moves(old(mem[..]), mem[..], d, s, n)
    ensures !BackwardRight(d, s, n) ==>
      0 <= WrongOffset(d, s, n) < n && WrongAt(old(mem[..]), mem[..], d, s, WrongOffset(d, s, n))
  {
    var rest := n;
    var align := (d + n) % 8;
    MovesNothing(mem[..], d + n, s + n);
    if align != 0 {
      var tail := align;
      if tail > n { tail := n; }
      rest := n - tail;
      CopyDown(mem, d + rest, s + rest, tail);
    }
    ghost var u := mem[..];
    var i := BlocksDown(mem, d, s, rest);
    ghost var v := mem[..];
    WordsDown(mem, d, s, i);
    BackwardDone(old(mem[..]), u, v, mem[..], d, s, n, rest, i);
  }

  /** Tail, blocks and the rest put together. */
  lemma BackwardDone(m: seq<Byte>, u: seq<Byte>, v: seq<Byte>, r: seq<Byte>, d: nat, s: nat, n: nat, rest: nat, i: nat)
    requires s < d && d + n <= |m| && rest == n - Tail(d, n) && i == rest % 64
    requires Moves(m, u, d + rest, s + rest, n - rest) && Moves(v, r, d, s, i)
    requires d - s >= 64 ==> Moves(u, v, d + i, s + i, rest - i)
    requires d - s < 64 <= rest ==> WrongAt(u, v, d, s, rest - 64 + Victim(d - s))
    requires rest < 64 ==> v == u
    ensures BackwardRight(d, s, n) ==> Moves(m, r, d, s, n)
    ensures !BackwardRight(d, s, n) ==> 0 <= WrongOffset(d, s, n) < n && WrongAt(m, r, d, s, WrongOffset(d, s, n))
  {
    if rest < 64 {
      UpperFirst(m, u, r, d, s, n, rest);
    } else if d - s >= 64 {
      UpperFirst(u, v, r, d, s, rest, i);
      UpperFirst(m, u, r, d, s, n, rest);
    } else {
      var p := WrongOffset(d, s, n);
      WrongAfterTail(m, u, v, d, s, rest, n - rest, p);
      MovesWithin(v, r, d, s, i);
      StillWrong(m, v, r, d, s, p, d, d + i);
    }
  }

  /** When memmove_fscpuf is right, on a machine with the x86 assembly path or without it. */
  predicate Right(x86: bool, d: nat, s: nat, n: nat)
  {
    || d == s || n == 0
    || (if s > d then !x86 || n >= 16 else BackwardRight(d, s, n))
  }

  /** What memmove_fscpuf leaves. */
  ghost predicate Outcome(x86: bool, m: seq<Byte>, r: seq<Byte>, d: nat, s: nat, n: nat)
  {
    if Right(x86, d, s, n) then
      Moves(m, r, d, s, n)
    else if s > d then
      r == m
    else
      0 <= WrongOffset(d, s, n) < n && WrongAt(m, r, d, s, WrongOffset(d, s, n))
  }

  /** The x86 forward path: the string instruction advances the destination register before it is returned. */
  predicate ReturnsEnd(x86: bool, d: nat, s: nat, n: nat)
  {
    x86 && s > d && n >= 16
  }

  /** The memory it leaves and the pointer it returns. */
  method MemMove(x86: bool, mem: array<Byte>, d: nat, s: nat, n: nat) returns (p: nat)
    requires d + n <= mem.Length && s + n <= mem.Length
    modifies mem
    ensures Outcome(x86, old(mem[..]), mem[..], d, s, n)
    ensures p == d <==> !ReturnsEnd(x86, d, s, n)
    ensures ReturnsEnd(x86, d, s, n) ==> p == d + n
  {
    if d == s || n == 0 {
      MovesNothing(mem[..], d, s);
      MovesNowhere(mem[..], d, n);
      return d;
    }
    if s > d {
      if x86 {
        if n >= 16 {
          CopyUp(mem, d, s, n);    // rep movsb
          return d + n;
        }
      } else {
        MemCopy(mem, d, s, n);
      }
    } else {
      MoveBackward(mem, d, s, n);
    }
    return d;
  }

  /** A memory that is zero but for a 1 at address a. */
  function Spike(size: nat, a: nat): (m: seq<Byte>)
    requires a < size
    ensures |m| == size && forall i :: 0 <= i < size ==> m[i] == if i == a then 1 else 0
  {
    seq(size, i => if i == a then 1 else 0)
  }

  /** The offset of a byte that does not arrive. */
  function LostOffset(d: nat, s: nat, n: nat): (p: int)
  {
    if s > d then 0 else WrongOffset(d, s, n)
  }

  /** Outside its condition there is a memory of which every outcome is wrong. */
  lemma NotRight(x86: bool, size: nat, d: nat, s: nat, n: nat) returns (m: seq<Byte>)
    requires d + n <= size && s + n <= size && !Right(x86, d, s, n)
    ensures 0 <= s + LostOffset(d, s, n) < size && m == Spike(size, s + LostOffset(d, s, n))
    ensures forall r: seq<Byte> :: Outcome(x86, m, r, d, s, n) ==> !Moves(m, r, d, s, n)
  {
    var p := LostOffset(d, s, n);
    m := Spike(size, s + p);
    forall r: seq<Byte> | Outcome(x86, m, r, d, s, n) ensures !Moves(m, r, d, s, n) {
      MovesMeans(m, r, d, s, n);
      assert |r| == |m| ==> r[d + p] != m[s + (d + p) - d];
    }
  }

  /** The exact condition: under it every memory is moved as it should be, and without it some memory is not. */
  lemma RightExactly(x86: bool, size: nat, d: nat, s: nat, n: nat)
    requires d + n <= size && s + n <= size
    ensures Right(x86, d, s, n) ==>
      forall m: seq<Byte>, r: seq<Byte> :: |m| == size && Outcome(x86, m, r, d, s, n) ==> Moves(m, r, d, s, n)
    ensures !Right(x86, d, s, n) ==>
      exists m: seq<Byte> :: |m| == size && forall r: seq<Byte> :: Outcome(x86, m, r, d, s, n) ==> !Moves(m, r, d, s, n)
  {
    if !Right(x86, d, s, n) {
      var m := NotRight(x86, size, d, s, n);
    }
  }

  /** The code itself, on such a memory. */
  method MoveWrongly(x86: bool, size: nat, d: nat, s: nat, n: nat) returns (m: seq<Byte>, r: seq<Byte>)
    requires d + n <= size && s + n <= size && !Right(x86, d, s, n)
    ensures |m| == size && Outcome(x86, m, r, d, s, n) && !Moves(m, r, d, s, n)
  {
    ghost var bad := NotRight(x86, size, d, s, n);
    m := Spike(size, s + LostOffset(d, s, n));
    var mem := new Byte[size](i requires 0 <= i < size && |m| == size => m[i]);
    assert mem[..] == m;
    var p := MemMove(x86, mem, d, s, n);
    r := mem[..];
  }
}
