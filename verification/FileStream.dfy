/**
 * Buffered reading: fread, fseek and ftell of the C library over a kernel that may deliver less than
 * it is asked for.
 */
module FileStream {

  type Byte = x: int | 0 <= x < 256

  /** The buffer size that fopen chooses. */
  const CAPACITY := 4096

  /** The changing fields of a FILE, with the position the kernel keeps for its descriptor. */
  datatype Fields = Fields(offset: nat, buffer: seq<Byte>, bufPos: nat, bufSize: nat, kernelPos: nat)

  function Unread(f: Fields): (n: int)
  {
    f.bufSize - f.bufPos
  }

  /**
   * The stream is in step with the file, save that it runs `skew` bytes ahead of its own offset. A
   * stream that was only read from, or moved by accepted seeks, has skew 0.
   */
  ghost predicate InStep(file: seq<Byte>, f: Fields, skew: nat)
  {
    && |f.buffer| == CAPACITY && f.bufPos <= f.bufSize <= CAPACITY
    && f.offset + skew + Unread(f) == f.kernelPos <= |file|
    && f.buffer[f.bufPos..f.bufSize] == file[f.offset + skew..f.kernelPos]
  }

  /** A kernel read of at most n bytes at position k: it may fall short, but is empty only at the end. */
  ghost predicate Delivers(file: seq<Byte>, k: nat, n: nat, data: seq<Byte>)
  {
    && |data| <= n && k + |data| <= |file| && data == file[k..k + |data|]
    && (data == [] ==> n == 0 || k == |file|)
  }

  /** One turn of the loop of fread, on a request for `want` bytes of which `got` were handed over. */
  ghost predicate Turn(file: seq<Byte>, f: Fields, want: nat, got: seq<Byte>,
                       data: seq<Byte>, f': Fields, got': seq<Byte>, more: bool)
    requires |f.buffer| == CAPACITY && f.bufPos <= f.bufSize <= CAPACITY && |got| < want
  {
    if f.bufPos < f.bufSize then
      var toCopy := if want - |got| < Unread(f) then want - |got| else Unread(f);
      && got' == got + f.buffer[f.bufPos..f.bufPos + toCopy]
      && f' == f.(bufPos := f.bufPos + toCopy, offset := f.offset + toCopy)
      && more
    else if want - |got| >= CAPACITY then
      && Delivers(file, f.kernelPos, want - |got|, data)
      && got' == got + data
      && f' == f.(offset := f.offset + |data|, kernelPos := f.kernelPos + |data|)
      && more == (data != [])
    else
      && Delivers(file, f.kernelPos, CAPACITY, data)
      && got' == got
      && f' == f.(buffer := data + f.buffer[|data|..], bufPos := 0, bufSize := |data|,
                  kernelPos := f.kernelPos + |data|)
      && more == (data != [])
  }

  /** What was handed over so far is the file from `start` on, and the stream stands right behind it. */
  ghost predicate Reading(file: seq<Byte>, f: Fields, skew: nat, start: nat, got: seq<Byte>)
  {
    && InStep(file, f, skew)
    && f.offset + skew == start + |got|
    && got == file[start..start + |got|]
  }

  lemma SliceJoin(file: seq<Byte>, i: nat, j: nat, k: nat)
    requires i <= j <= k <= |file|
    ensures file[i..j] + file[j..k] == file[i..k]
  {}

  lemma SliceOfSlice(s: seq<Byte>, i: nat, j: nat, t: seq<Byte>, k: nat, n: nat)
    requires i <= j <= |s| && k + (j - i) <= |t| && s[i..j] == t[k..k + (j - i)] && n <= j - i
    ensures s[i..i + n] == t[k..k + n]
    ensures s[i + n..j] == t[k + n..k + (j - i)]
  {
    assert s[i..i + n] == s[i..j][..n];
    assert t[k..k + n] == t[k..k + (j - i)][..n];
    assert s[i + n..j] == s[i..j][n..];
    assert t[k + n..k + (j - i)] == t[k..k + (j - i)][n..];
  }

  lemma CopyKeeps(file: seq<Byte>, f: Fields, skew: nat, start: nat, got: seq<Byte>, n: nat)
    requires Reading(file, f, skew, start, got) && n <= Unread(f)
    ensures Reading(file, f.(bufPos := f.bufPos + n, offset := f.offset + n), skew, start,
                    got + f.buffer[f.bufPos..f.bufPos + n])
  {
    SliceOfSlice(f.buffer, f.bufPos, f.bufSize, file, f.offset + skew, n);
    SliceJoin(file, start, start + |got|, start + |got| + n);
  }

  lemma DirectKeeps(file: seq<Byte>, f: Fields, skew: nat, start: nat, got: seq<Byte>, n: nat, data: seq<Byte>)
    requires Reading(file, f, skew, start, got) && Unread(f) == 0 && Delivers(file, f.kernelPos, n, data)
    ensures Reading(file, f.(offset := f.offset + |data|, kernelPos := f.kernelPos + |data|), skew, start, got + data)
  {
    SliceJoin(file, start, start + |got|, start + |got| + |data|);
    EmptySlices(f.buffer, f.bufPos, file, f.kernelPos + |data|);
  }

  lemma EmptySlices(s: seq<Byte>, i: nat, t: seq<Byte>, k: nat)
    requires i <= |s| && k <= |t|
    ensures s[i..i] == t[k..k] == []
  {}

  lemma RefillKeeps(file: seq<Byte>, f: Fields, skew: nat, start: nat, got: seq<Byte>, data: seq<Byte>)
    requires Reading(file, f, skew, start, got) && Unread(f) == 0 && Delivers(file, f.kernelPos, CAPACITY, data)
    ensures Reading(file, f.(buffer := data + f.buffer[|data|..], bufPos := 0, bufSize := |data|,
                             kernelPos := f.kernelPos + |data|), skew, start, got)
  {
    assert (data + f.buffer[|data|..])[0..|data|] == data;
  }

  /** Every turn keeps the stream in step, and the last one stands at the end of the file. */
  lemma TurnKeeps(file: seq<Byte>, f: Fields, skew: nat, start: nat, want: nat, got: seq<Byte>,
                  data: seq<Byte>, f': Fields, got': seq<Byte>, more: bool)
    requires Reading(file, f, skew, start, got) && |got| < want
    requires Turn(file, f, want, got, data, f', got', more)
    ensures Reading(file, f', skew, start, got') && |got'| <= want
    ensures !more ==> got' == got && f'.kernelPos == |file| && Unread(f') == 0
    ensures more ==> |got'| > |got| || (got' == got && f'.kernelPos > f.kernelPos)
  {
    if f.bufPos < f.bufSize {
      CopyKeeps(file, f, skew, start, got, if want - |got| < Unread(f) then want - |got| else Unread(f));
    } else if want - |got| >= CAPACITY {
      DirectKeeps(file, f, skew, start, got, want - |got|, data);
    } else {
      RefillKeeps(file, f, skew, start, got, data);
    }
  }

  /** The most that a request for n bytes may return: the code cuts it to the recorded size, if there is one. */
  function Clamp(fileSize: nat, offset: nat, n: nat): (want: nat)
    ensures want <= n
  {
    if fileSize == 0 then n
    else if offset >= fileSize then 0
    else if n > fileSize - offset then fileSize - offset
    else n
  }

  function Min(a: int, b: int): (m: int)
  {
    if a < b then a else b
  }

  const SIZE_MAX := 0xFFFF_FFFF_FFFF_FFFF

  /** The number of bytes that fread sets out to read; a product beyond the range of size_t counts as none. */
  function Request(size: nat, nmemb: nat): (n: nat)
  {
    if size == 0 || nmemb == 0 || nmemb > SIZE_MAX / size then 0 else size * nmemb
  }

  lemma Product(size: nat, nmemb: nat)
    requires 0 < size && 0 < nmemb
    ensures 0 < size * nmemb
  {}

  /** Marks the counts that a proof looks into. */
  ghost predicate Counting(total: nat, items: nat, i: int) { true }

  /** The items that were read completely, and no more than were asked for. */
  ghost predicate WholeItems(total: nat, size: nat, nmemb: nat, items: nat)
  {
    forall i: int {:trigger Counting(total, items, i)} :: Counting(total, items, i) ==>
      items * size <= total < items * size + size && items <= nmemb
  }

  lemma ItemsBound(items: nat, nmemb: nat, size: nat)
    requires size > 0 && items * size <= size * nmemb
    ensures items <= nmemb
  {}

  method CountItems(total: nat, size: nat, ghost nmemb: nat, ghost n: nat) returns (items: nat)
    requires size > 0 && total <= n == size * nmemb
    ensures WholeItems(total, size, nmemb, items)
  {
    items := total / size;
    ItemsBound(items, nmemb, size);
  }

  /** A number taken modulo 2^64 as a signed one. */
  function ToInt64(x: int): (y: int)
  {
    (x + 0x8000_0000_0000_0000) % 0x1_0000_0000_0000_0000 - 0x8000_0000_0000_0000
  }

  predicate IsInt64(x: int)
  {
    -0x8000_0000_0000_0000 <= x < 0x8000_0000_0000_0000
  }

  /** Adding in 64 bits does not change whether a target lies in the file. */
  lemma WrapKeepsTarget(base: nat, distance: int, size: nat)
    requires IsInt64(base) && IsInt64(distance) && IsInt64(size)
    ensures 0 <= ToInt64(base + distance) <= size <==> 0 <= base + distance <= size
    ensures 0 <= base + distance <= size ==> ToInt64(base + distance) == base + distance
  {}

  lemma EmptyInStep(file: seq<Byte>, f: Fields, skew: nat)
    requires |f.buffer| == CAPACITY && f.bufPos == f.bufSize == 0 && f.offset + skew == f.kernelPos <= |file|
    ensures InStep(file, f, skew)
  {}

  datatype Whence = Set | Current | End | Unknown

  /** Where a seek aims, without a bound on its size. */
  function Aim(whence: Whence, offset: nat, fileSize: nat, distance: int): (target: int)
  {
    match whence
    case Set => distance
    case Current => offset + distance
    case End => fileSize + distance
    case Unknown => -1
  }

  /** The seek is accepted: it aims into the file. */
  predicate Accepted(whence: Whence, offset: nat, fileSize: nat, distance: int)
  {
    0 <= Aim(whence, offset, fileSize, distance) <= fileSize
  }

  /** The fields after a seek: the buffer is forgotten, and an accepted seek moves stream and kernel. */
  function SeekFields(f: Fields, fileSize: nat, whence: Whence, distance: int): (f': Fields)
  {
    var empty := f.(bufPos := 0, bufSize := 0);
    if Accepted(whence, f.offset, fileSize, distance) then
      var target := Aim(whence, f.offset, fileSize, distance);
      empty.(offset := target, kernelPos := target)
    else empty
  }

  /** A seek succeeds exactly if the position at the given distance from its origin is in the file, and goes there. */
  ghost predicate Lands(whence: Whence, from: nat, fileSize: nat, distance: int, r: int, to: nat)
  {
    && (r == 0 || (r == -1 && to == from))
    && (whence.Set? ==> (r == 0 <==> 0 <= distance <= fileSize) && (r == 0 ==> to == distance))
    && (whence.Current? ==> (r == 0 <==> 0 <= from + distance <= fileSize) && (r == 0 ==> to - from == distance))
    && (whence.End? ==> (r == 0 <==> 0 <= fileSize + distance <= fileSize) && (r == 0 ==> to - fileSize == distance))
    && (whence.Unknown? ==> r == -1)
  }

  lemma SeekLands(whence: Whence, from: nat, fileSize: nat, distance: int, r: int, to: nat)
    requires r == if Accepted(whence, from, fileSize, distance) then 0 else -1
    requires to == if r == 0 then Aim(whence, from, fileSize, distance) else from
    ensures Lands(whence, from, fileSize, distance, r, to)
  {}

  /** The target that fseek computes in 64 bits; none for an unknown origin. */
  method Target(whence: Whence, offset: nat, fileSize: nat, distance: int) returns (known: bool, target: int)
    requires IsInt64(offset) && IsInt64(fileSize) && IsInt64(distance)
    ensures known && 0 <= target <= fileSize <==> Accepted(whence, offset, fileSize, distance)
    ensures Accepted(whence, offset, fileSize, distance) ==> target == Aim(whence, offset, fileSize, distance)
  {
    known := true;
    match whence {
      case Set => target := distance;
      case Current =>
        target := ToInt64(offset + distance);
        WrapKeepsTarget(offset, distance, fileSize);
      case End =>
        target := ToInt64(fileSize + distance);
        WrapKeepsTarget(fileSize, distance, fileSize);
      case Unknown => known, target := false, 0;
    }
  }

  /** What a request for n bytes is given by a stream that runs `skew` bytes ahead. */
  function Given(file: seq<Byte>, fileSize: nat, offset: nat, skew: nat, n: nat): (data: seq<Byte>)
    requires offset + skew <= |file|
  {
    var start := offset + skew;
    file[start..start + Min(Clamp(fileSize, offset, n), |file| - start)]
  }

  /** Writes a piece into an array at a given place. */
  method Store(dest: array<Byte>, at: nat, piece: seq<Byte>)
    requires at + |piece| <= dest.Length
    modifies dest
    ensures dest[..at + |piece|] == old(dest[..at]) + piece
    ensures dest[at + |piece|..] == old(dest[at + |piece|..])
  {
    forall i | at <= i < at + |piece| { dest[i] := piece[i - at]; }
  }

  /** A FILE opened for reading, on a file that does not change, with the kernel's side of it. */
  class Stream {
    const file: seq<Byte>
    const fileSize: nat
    const buffer: array<Byte>
    var offset: nat
    var bufPos: nat
    var bufSize: nat
    var kernelPos: nat
    ghost var skew: nat

    ghost function Snapshot(): Fields
      reads this, buffer
    {
      Fields(offset, buffer[..], bufPos, bufSize, kernelPos)
    }

    /** The recorded size is that of the file, or zero where the kernel does not know it. */
    ghost predicate Valid()
      reads this, buffer
    {
      && (fileSize == |file| || fileSize == 0) && |file| < 0x8000_0000_0000_0000
      && InStep(file, Snapshot(), skew)
    }

    constructor Open(contents: seq<Byte>, sizeKnown: bool)
      requires |contents| < 0x8000_0000_0000_0000
      ensures Valid() && file == contents && offset == 0 && skew == 0 && fresh(buffer)
    {
      file := contents;
      fileSize := if sizeKnown then |contents| else 0;
      buffer := new Byte[CAPACITY];
      offset, bufPos, bufSize, kernelPos, skew := 0, 0, 0, 0, 0;
    }

    /** The read system call, free to fall short. */
    method SysRead(n: nat) returns (data: seq<Byte>)
      requires kernelPos <= |file|
      modifies this`kernelPos
      ensures Delivers(file, old(kernelPos), n, data) && kernelPos == old(kernelPos) + |data|
    {
      var most := Min(n, |file| - kernelPos);
      var count: nat :| count <= most && (count == 0 ==> most == 0);
      data := file[kernelPos..kernelPos + count];
      kernelPos := kernelPos + count;
    }

    /** Hands over n bytes of the buffer. */
    method FromBuffer(dest: array<Byte>, total: nat, n: nat)
      requires bufPos + n <= bufSize <= buffer.Length && dest != buffer && total + n <= dest.Length
      modifies this`offset, this`bufPos, dest
      ensures Snapshot() == old(Snapshot()).(bufPos := old(bufPos) + n, offset := old(offset) + n)
      ensures dest[..total + n] == old(dest[..total]) + buffer[old(bufPos)..old(bufPos) + n]
      ensures dest[total + n..] == old(dest[total + n..])
    {
      Store(dest, total, buffer[bufPos..bufPos + n]);
      bufPos := bufPos + n;
      offset := offset + n;
    }

    /** Reads past the buffer. */
    method FromKernel(dest: array<Byte>, total: nat, n: nat) returns (r: nat, ghost data: seq<Byte>)
      requires kernelPos <= |file| && dest != buffer && total + n <= dest.Length
      modifies this`offset, this`kernelPos, dest
      ensures Delivers(file, old(kernelPos), n, data) && r == |data|
      ensures Snapshot() == old(Snapshot()).(offset := old(offset) + r, kernelPos := old(kernelPos) + r)
      ensures dest[..total + r] == old(dest[..total]) + data
      ensures dest[total + n..] == old(dest[total + n..])
    {
      var bytes := SysRead(n);
      Store(dest, total, bytes);
      assert old(dest[total + n..]) == old(dest[total + |bytes|..])[n - |bytes|..];
      offset := offset + |bytes|;
      r, data := |bytes|, bytes;
    }

    method Refill() returns (ghost data: seq<Byte>)
      requires kernelPos <= |file| && buffer.Length == CAPACITY
      modifies this`bufPos, this`bufSize, this`kernelPos, buffer
      ensures Delivers(file, old(kernelPos), CAPACITY, data)
      ensures Snapshot() == old(Snapshot()).(buffer := data + old(buffer[..])[|data|..], bufPos := 0, bufSize := |data|,
                                             kernelPos := old(kernelPos) + |data|)
    {
      bufPos := 0;
      var bytes := SysRead(CAPACITY);
      Store(buffer, 0, bytes);
      bufSize := |bytes|;
      data := bytes;
      assert old(buffer[..])[|data|..] == old(buffer[|data|..]);
      assert buffer[..] == buffer[..|data|] + buffer[|data|..];
    }

    /** The body of the loop of fread. */
    method TakeTurn(dest: array<Byte>, want: nat, total: nat) returns (total': nat, more: bool, ghost data: seq<Byte>)
      requires Valid() && dest != buffer && total < want <= dest.Length
      modifies this`offset, this`bufPos, this`bufSize, this`kernelPos, buffer, dest
      ensures total' <= want
      ensures Turn(file, old(Snapshot()), want, old(dest[..total]), data, Snapshot(), dest[..total'], more)
      ensures dest[want..] == old(dest[want..])
    {
      data := [];
      if bufPos < bufSize {
        var avail := bufSize - bufPos;
        var toCopy := if want - total < avail then want - total else avail;
        FromBuffer(dest, total, toCopy);
        total', more := total + toCopy, true;
        assert old(dest[want..]) == old(dest[total + toCopy..])[want - total - toCopy..];
        return;
      }
      var remaining := want - total;
      if remaining >= CAPACITY {
        var r;
        r, data := FromKernel(dest, total, remaining);
        return total + r, r != 0, data;
      }
      data := Refill();
      return total, bufSize != 0, data;
    }

    /** The loop of fread: exactly the next bytes, as many as asked for or left. */
    method Fill(dest: array<Byte>, want: nat) returns (total: nat)
      requires Valid() && dest != buffer && want <= dest.Length
      modifies this`offset, this`bufPos, this`bufSize, this`kernelPos, buffer, dest
      ensures Valid()
      ensures total == Min(want, |file| - old(offset) - skew)
      ensures Reading(file, Snapshot(), skew, old(offset) + skew, dest[..total])
      ensures dest[want..] == old(dest[want..])
    {
      total := 0;
      ghost var start := offset + skew;
      var more := true;
      while total < want && more
        invariant total <= want && Reading(file, Snapshot(), skew, start, dest[..total])
        invariant !more ==> total < want && offset + skew == |file|
        invariant dest[want..] == old(dest[want..])
        decreases want - total, |file| - kernelPos, more
      {
        ghost var f, got := Snapshot(), dest[..total];
        ghost var data;
        total, more, data := TakeTurn(dest, want, total);
        TurnKeeps(file, f, skew, start, want, got, data, Snapshot(), dest[..total], more);
      }
    }

    /** A request for n bytes: what the plain file would give from the stream's position on. */
    method ReadBytes(dest: array<Byte>, n: nat) returns (total: nat)
      requires Valid() && dest != buffer && n <= dest.Length
      modifies this`offset, this`bufPos, this`bufSize, this`kernelPos, buffer, dest
      ensures Valid()
      ensures total == Min(Clamp(fileSize, old(offset), n), |file| - old(offset) - skew)
      ensures offset == old(offset) + total
      ensures dest[..total] == Given(file, fileSize, old(offset), skew, n)
      ensures dest[n..] == old(dest[n..])
      ensures n == 0 ==> Snapshot() == old(Snapshot())
    {
      var want := n;
      if fileSize > 0 {
        if offset >= fileSize { return 0; }
        var remaining := fileSize - offset;
        if want > remaining { want := remaining; }
      }
      if want == 0 { return 0; }
      total := Fill(dest, want);
      assert dest[n..] == dest[want..][n - want..] && old(dest[n..]) == old(dest[want..])[n - want..];
    }

    method FRead(dest: array?<Byte>, size: nat, nmemb: nat) returns (items: nat)
      requires Valid() && dest != buffer && size <= SIZE_MAX && nmemb <= SIZE_MAX
      requires dest != null ==> Request(size, nmemb) <= dest.Length
      modifies this`offset, this`bufPos, this`bufSize, this`kernelPos, buffer, dest
      ensures Valid() && old(offset) <= offset
      ensures dest == null || Request(size, nmemb) == 0 ==> items == 0 && Snapshot() == old(Snapshot())
      ensures dest != null && Request(size, nmemb) > 0 ==>
        var n := Request(size, nmemb);
        var total := Min(Clamp(fileSize, old(offset), n), |file| - old(offset) - skew);
        && offset == old(offset) + total
        && dest[..total] == file[old(offset) + skew..old(offset) + skew + total]
        && dest[n..] == old(dest[n..])
      ensures dest != null && Request(size, nmemb) > 0 ==> WholeItems(offset - old(offset), size, nmemb, items)
    {
      if dest == null || size == 0 || nmemb == 0 { return 0; }
      if nmemb > SIZE_MAX / size { return 0; }
      Product(size, nmemb);
      items := ReadItems(dest, size, nmemb, size * nmemb);
    }

    /** n bytes, which are nmemb items. */
    method ReadItems(dest: array<Byte>, size: nat, nmemb: nat, n: nat) returns (items: nat)
      requires Valid() && dest != buffer && size > 0 && n == size * nmemb <= dest.Length
      modifies this`offset, this`bufPos, this`bufSize, this`kernelPos, buffer, dest
      ensures Valid() && old(offset) <= offset
      ensures var total := Min(Clamp(fileSize, old(offset), n), |file| - old(offset) - skew);
        && offset == old(offset) + total
        && dest[..total] == file[old(offset) + skew..old(offset) + skew + total]
        && dest[n..] == old(dest[n..])
      ensures WholeItems(offset - old(offset), size, nmemb, items)
    {
      var total := ReadBytes(dest, n);
      items := CountItems(total, size, nmemb, n);
    }

    /**
     * A seek forgets the buffer before it looks at its target. An accepted one brings the stream back
     * into step; a rejected one leaves the kernel where it is, behind the bytes forgotten.
     */
    method FSeek(whence: Whence, distance: int) returns (r: int)
      requires Valid() && IsInt64(distance)
      modifies this
      ensures Valid()
      ensures r == if Accepted(whence, old(offset), fileSize, distance) then 0 else -1
      ensures r == 0 ==> offset == Aim(whence, old(offset), fileSize, distance) && skew == 0
      ensures Lands(whence, old(offset), fileSize, distance, r, offset)
      ensures Snapshot() == SeekFields(old(Snapshot()), fileSize, whence, distance)
      ensures r == -1 ==> offset == old(offset) && kernelPos == old(kernelPos)
      ensures r == -1 ==> skew == old(skew) + old(Unread(Snapshot()))
      ensures bufPos == bufSize
      ensures old(skew) == 0 ==>
        (skew == 0 <==> Accepted(whence, old(offset), fileSize, distance) || old(bufPos == bufSize))
    {
      ghost var dropped := bufSize - bufPos;
      bufPos := 0;
      bufSize := 0;
      var known, newOffset := Target(whence, offset, fileSize, distance);
      if !known || newOffset < 0 || newOffset > fileSize {
        skew := skew + dropped;
        EmptyInStep(file, Snapshot(), skew);
        SeekLands(whence, offset, fileSize, distance, -1, offset);
        return -1;
      }
      SeekLands(whence, offset, fileSize, distance, 0, newOffset);
      offset := newOffset;
      kernelPos := newOffset;
      skew := 0;
      EmptyInStep(file, Snapshot(), skew);
      return 0;
    }

    /** The position of the next byte to be handed over, less what the stream runs ahead. */
    method FTell() returns (r: int)
      requires Valid()
      ensures r + skew + Unread(Snapshot()) == kernelPos && 0 <= r <= |file|
    {
      r := ToInt64(offset);
    }
  }

  // ----- whole runs -----

  /** A stream agrees with the plain file on all requests exactly when it does not run ahead. */
  lemma InStepExactly(file: seq<Byte>, fileSize: nat, offset: nat, skew: nat)
    requires offset + skew <= |file| && (fileSize == |file| || fileSize == 0)
    ensures skew == 0 <==> Agrees(file, fileSize, offset, skew)
  {
    WholeRest(file, fileSize, offset, skew);
  }

  /** Every request is answered as the plain file answers it. */
  ghost predicate Agrees(file: seq<Byte>, fileSize: nat, offset: nat, skew: nat)
    requires offset + skew <= |file|
  {
    forall n: nat :: Given(file, fileSize, offset, skew, n) == Given(file, fileSize, offset, 0, n)
  }

  /** What a seek leaves behind: the offset, and how far the stream then runs ahead of it. */
  function Sought(f: Fields, skew: nat, fileSize: nat, whence: Whence, distance: int): (p: (nat, nat))
    requires f.bufPos <= f.bufSize
  {
    if Accepted(whence, f.offset, fileSize, distance) then (Aim(whence, f.offset, fileSize, distance), 0)
    else (f.offset, skew + Unread(f))
  }

  /**
   * The exact condition of a seek, which a caller can check before it: a stream in step goes on to answer as
   * the plain file does if and only if the seek is accepted or nothing is buffered.
   */
  lemma SeekExactly(file: seq<Byte>, f: Fields, fileSize: nat, whence: Whence, distance: int)
    requires InStep(file, f, 0) && (fileSize == |file| || fileSize == 0)
    ensures var (offset, skew) := Sought(f, 0, fileSize, whence, distance);
      && offset + skew <= |file|
      && (Agrees(file, fileSize, offset, skew)
          <==> Accepted(whence, f.offset, fileSize, distance) || f.bufPos == f.bufSize)
  {
    var (offset, skew) := Sought(f, 0, fileSize, whence, distance);
    InStepExactly(file, fileSize, offset, skew);
  }

  /** The code itself: seek, then read all there is. */
  method SeekThenRead(s: Stream, whence: Whence, distance: int) returns (data: seq<Byte>)
    requires s.Valid() && s.skew == 0 && IsInt64(distance)
    modifies s, s.buffer
    ensures var (offset, _) := Sought(old(s.Snapshot()), 0, s.fileSize, whence, distance);
      && offset <= |s.file|
      && (data == Given(s.file, s.fileSize, offset, 0, |s.file|)
          <==> Accepted(whence, old(s.offset), s.fileSize, distance) || old(s.bufPos == s.bufSize))
  {
    var r := s.FSeek(whence, distance);
    WholeRest(s.file, s.fileSize, s.offset, s.skew);
    data := ReadAll(s);
  }

  method ReadAll(s: Stream) returns (data: seq<Byte>)
    requires s.Valid()
    modifies s, s.buffer
    ensures s.skew == old(s.skew) && data == Given(s.file, s.fileSize, old(s.offset), s.skew, |s.file|)
  {
    var dest := new Byte[|s.file|];
    var n := s.ReadBytes(dest, |s.file|);
    data := dest[..n];
  }

  /** A request for everything tells the two apart. */
  lemma WholeRest(file: seq<Byte>, fileSize: nat, offset: nat, skew: nat)
    requires offset + skew <= |file| && (fileSize == |file| || fileSize == 0)
    ensures Given(file, fileSize, offset, skew, |file|) == Given(file, fileSize, offset, 0, |file|) <==> skew == 0
  {
    assert |Given(file, fileSize, offset, skew, |file|)| == |file| - offset - skew;
    assert |Given(file, fileSize, offset, 0, |file|)| == |file| - offset;
  }

  /** Two bytes lost: of a three-byte file one byte was read and two are buffered when a seek is rejected. */
  lemma RejectedSeekSkips(f: Fields)
    requires |f.buffer| == CAPACITY && f.buffer[..3] == [10, 20, 30]
    requires f.offset == 1 && f.bufPos == 1 && f.bufSize == 3 && f.kernelPos == 3
    ensures InStep([10, 20, 30], f, 0) && !Accepted(Set, 1, 3, -1) && Sought(f, 0, 3, Set, -1) == (1, 2)
    ensures Given([10, 20, 30], 3, 1, 2, 1) == [] && Given([10, 20, 30], 3, 1, 0, 1) == [20]
  {
    assert f.buffer[1..3] == f.buffer[..3][1..3];
  }

  datatype Op = Read(n: nat) | Seek(whence: Whence, distance: int)

  /** The plain file: a position, from which reads advance and to which accepted seeks move. */
  function Answer(file: seq<Byte>, fileSize: nat, at: nat, op: Op): (data: seq<Byte>)
    requires at <= |file|
  {
    match op
    case Read(n) => Given(file, fileSize, at, 0, n)
    case Seek(_, _) => []
  }

  function Next(file: seq<Byte>, fileSize: nat, at: nat, op: Op): (next: nat)
    requires at <= |file| && fileSize <= |file|
    ensures next <= |file|
  {
    match op
    case Read(n) => at + |Given(file, fileSize, at, 0, n)|
    case Seek(whence, distance) =>
      if Accepted(whence, at, fileSize, distance) then Aim(whence, at, fileSize, distance) else at
  }

  /** Every seek of the run is accepted where it is made. */
  predicate AllAccepted(file: seq<Byte>, fileSize: nat, at: nat, ops: seq<Op>)
    requires at <= |file| && fileSize <= |file|
    decreases |ops|
  {
    ops == [] ||
    ((ops[0].Seek? ==> IsInt64(ops[0].distance) && Accepted(ops[0].whence, at, fileSize, ops[0].distance))
     && AllAccepted(file, fileSize, Next(file, fileSize, at, ops[0]), ops[1..]))
  }

  function Answers(file: seq<Byte>, fileSize: nat, at: nat, ops: seq<Op>): (out: seq<seq<Byte>>)
    requires at <= |file| && fileSize <= |file|
    decreases |ops|
  {
    if ops == [] then []
    else [Answer(file, fileSize, at, ops[0])] + Answers(file, fileSize, Next(file, fileSize, at, ops[0]), ops[1..])
  }

  /**
   * A run on the plain file, told by the positions between its operations: a read hands over the bytes from one
   * position to the next, which are as many as it asks for unless the file ends; a seek lands the given distance
   * from the start of the file, from where it stands, or from the recorded size.
   */
  ghost predicate Trace(file: seq<Byte>, fileSize: nat, ops: seq<Op>, out: seq<seq<Byte>>, ats: seq<nat>)
  {
    && |ats| == |ops| + 1 == |out| + 1
    && forall i :: 0 <= i < |ops| ==> TraceStep(file, fileSize, ops[i], out[i], ats[i], ats[i + 1])
  }

  ghost predicate TraceStep(file: seq<Byte>, fileSize: nat, op: Op, data: seq<Byte>, at: nat, next: nat)
  {
    match op
    case Read(n) =>
      && at <= next <= |file| && data == file[at..next]
      && next - at <= n && (next - at < n ==> next == |file|)
    case Seek(whence, distance) =>
      && data == [] && next <= fileSize
      && (whence.Set? ==> next == distance)
      && (whence.Current? ==> next - at == distance)
      && (whence.End? ==> next - fileSize == distance)
      && !whence.Unknown?
  }

  lemma StepTraced(file: seq<Byte>, fileSize: nat, at: nat, op: Op)
    requires at <= |file| && (fileSize == |file| || fileSize == 0)
    requires op.Seek? ==> Accepted(op.whence, at, fileSize, op.distance)
    ensures TraceStep(file, fileSize, op, Answer(file, fileSize, at, op), at, Next(file, fileSize, at, op))
  {}

  /** The answers of the plain file are those of such a run. */
  lemma {:induction false} AnswersTraced(file: seq<Byte>, fileSize: nat, at: nat, ops: seq<Op>) returns (ats: seq<nat>)
    requires at <= |file| && (fileSize == |file| || fileSize == 0) && AllAccepted(file, fileSize, at, ops)
    ensures Trace(file, fileSize, ops, Answers(file, fileSize, at, ops), ats) && ats[0] == at
    decreases |ops|
  {
    if ops == [] {
      ats := [at];
    } else {
      var next := Next(file, fileSize, at, ops[0]);
      StepTraced(file, fileSize, at, ops[0]);
      var rest := AnswersTraced(file, fileSize, next, ops[1..]);
      ats := [at] + rest;
      TraceCons(file, fileSize, ops[0], ops[1..], Answer(file, fileSize, at, ops[0]),
                Answers(file, fileSize, next, ops[1..]), at, rest);
      assert [ops[0]] + ops[1..] == ops;
    }
  }

  lemma TraceCons(file: seq<Byte>, fileSize: nat, op: Op, ops: seq<Op>, data: seq<Byte>, out: seq<seq<Byte>>,
                  at: nat, ats: seq<nat>)
    requires Trace(file, fileSize, ops, out, ats) && TraceStep(file, fileSize, op, data, at, ats[0])
    ensures Trace(file, fileSize, [op] + ops, [data] + out, [at] + ats)
  {
    forall i | 0 <= i < |ops| + 1
      ensures TraceStep(file, fileSize, ([op] + ops)[i], ([data] + out)[i], ([at] + ats)[i], ([at] + ats)[i + 1])
    {
      if i > 0 {
        assert TraceStep(file, fileSize, ops[i - 1], out[i - 1], ats[i - 1], ats[i - 1 + 1]);
      }
    }
  }

  /** Carries out one operation of a run. */
  method Perform(s: Stream, op: Op) returns (data: seq<Byte>)
    requires s.Valid() && s.skew == 0
    requires op.Seek? ==> IsInt64(op.distance) && Accepted(op.whence, s.offset, s.fileSize, op.distance)
    modifies s, s.buffer
    ensures s.Valid() && s.skew == 0
    ensures data == Answer(s.file, s.fileSize, old(s.offset), op)
    ensures s.offset == Next(s.file, s.fileSize, old(s.offset), op)
  {
    match op {
      case Read(n) =>
        var dest := new Byte[n];
        var total := s.ReadBytes(dest, n);
        data := dest[..total];
      case Seek(whence, distance) =>
        var r := s.FSeek(whence, distance);
        data := [];
    }
  }

  /** Buffered reading refines plain reading over every run whose seeks are accepted. */
  method Session(s: Stream, ops: seq<Op>) returns (out: seq<seq<Byte>>, ghost ats: seq<nat>)
    requires s.Valid() && s.skew == 0 && AllAccepted(s.file, s.fileSize, s.offset, ops)
    modifies s, s.buffer
    ensures s.Valid() && s.skew == 0
    ensures out == Answers(s.file, s.fileSize, old(s.offset), ops)
    ensures Trace(s.file, s.fileSize, ops, out, ats) && ats[0] == old(s.offset)
  {
    out := [];
    var i := 0;
    while i < |ops|
      invariant 0 <= i <= |ops| && s.Valid() && s.skew == 0
      invariant AllAccepted(s.file, s.fileSize, s.offset, ops[i..])
      invariant out + Answers(s.file, s.fileSize, s.offset, ops[i..])
             == Answers(s.file, s.fileSize, old(s.offset), ops)
    {
      assert ops[i..][0] == ops[i] && ops[i..][1..] == ops[i + 1..];
      var data := Perform(s, ops[i]);
      out := out + [data];
      i := i + 1;
    }
    ats := AnswersTraced(s.file, s.fileSize, old(s.offset), ops);
  }

  predicate OnlyReads(ops: seq<Op>)
  {
    forall i :: 0 <= i < |ops| ==> ops[i].Read?
  }

  function Joined(out: seq<seq<Byte>>): (data: seq<Byte>)
  {
    if out == [] then [] else out[0] + Joined(out[1..])
  }

  /** Without seeks the pieces handed out are consecutive: joined, they are one piece of the file. */
  lemma {:induction false} ReadsConsecutive(file: seq<Byte>, fileSize: nat, at: nat, ops: seq<Op>)
    requires at <= |file| && fileSize <= |file| && OnlyReads(ops)
    ensures at + |Joined(Answers(file, fileSize, at, ops))| <= |file|
    ensures Joined(Answers(file, fileSize, at, ops)) == file[at..at + |Joined(Answers(file, fileSize, at, ops))|]
    decreases |ops|
  {
    if ops != [] {
      var next := Next(file, fileSize, at, ops[0]);
      var rest := Answers(file, fileSize, next, ops[1..]);
      ReadsConsecutive(file, fileSize, next, ops[1..]);
      var out := Answers(file, fileSize, at, ops);
      assert out[1..] == rest;
      SliceJoin(file, at, next, next + |Joined(rest)|);
    }
  }
}
