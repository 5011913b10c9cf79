/** saf-make: the archive buffer with its bump offset, and the recursive writer that patches child tables. */
module SafWriter {
  import opened SafFormat

  datatype Option<T> = None | Some(value: T)

  /** An entry in the part already encoded. */
  lemma EntryOf(b: seq<Byte>, dir: seq<Entry>, i: nat, start: nat, j: nat)
    requires j < i <= |dir| && EncodesDir(b, dir[..i], start) && Kept(dir[j])
    ensures Encodes(b, dir[j], start + DirSize(dir[..j]))
  {
    assert Listed(b, dir[..i], start, 0);
    assert dir[..i][..j] == dir[..j] && dir[..i][j] == dir[j];
  }

  /** One more entry at the end of the part already encoded. */
  lemma EncodesDirExtend(b: seq<Byte>, dir: seq<Entry>, i: nat, start: nat)
    requires i < |dir| && EncodesDir(b, dir[..i], start)
    requires Kept(dir[i]) ==> Encodes(b, dir[i], start + DirSize(dir[..i]))
    ensures EncodesDir(b, dir[..i + 1], start)
  {
    var d := dir[..i + 1];
    forall j | 0 <= j < |d| && Kept(d[j]) ensures Encodes(b, d[j], start + DirSize(d[..j])) {
      if j < i {
        EntryOf(b, dir, i, start, j);
      }
      assert d[..j] == dir[..j] && d[j] == dir[j];
    }
  }

  /** The next entry is written behind what is encoded already. */
  lemma OneMore(b: seq<Byte>, b': seq<Byte>, dir: seq<Entry>, i: nat, start: nat)
    requires i < |dir| && EncodesDir(b, dir[..i], start) && Agree(b, b', 0, start + DirSize(dir[..i]))
    requires Kept(dir[i]) ==> Encodes(b', dir[i], start + DirSize(dir[..i]))
    ensures EncodesDir(b', dir[..i + 1], start)
  {
    DirFrame(b, b', dir[..i], start);
    EncodesDirExtend(b', dir, i, start);
  }

  lemma OffsetsExtend(dir: seq<Entry>, i: nat, start: nat)
    requires i < |dir|
    ensures Offsets(dir[..i + 1], start)
         == Offsets(dir[..i], start) + (if Kept(dir[i]) then [start + DirSize(dir[..i])] else [])
  {
    assert dir[..i + 1][..i] == dir[..i];
  }

  /** The header stands, the descendants lie behind the structure, the patch lies inside it. */
  lemma FolderAssembled(b: seq<Byte>, b': seq<Byte>, e: Entry, off: nat)
    requires e.Folder? && off + TotalSize(e) <= |b'|
    requires EncodesDir(b, e.children, off + NodeSize(e))
    requires Agree(b, b', off + NodeSize(e), off + TotalSize(e))
    requires HeaderAt(b', e, off) && FolderAt(b', e.children, off)
    ensures Encodes(b', e, off)
  {
    DirFrame(b, b', e.children, off + NodeSize(e));
  }

  class Archive {
    const ptr: array<Byte>
    var currOffset: nat

    ghost predicate Valid()
      reads this
    {
      currOffset <= ptr.Length < WORD_LIMIT
    }

    constructor (allocSize: nat)
      requires allocSize < WORD_LIMIT
      ensures Valid() && fresh(ptr) && ptr.Length == allocSize && currOffset == 0
    {
      ptr := new Byte[allocSize];
      currOffset := 0;
    }

    /** inc_offset; false stands for the panic. */
    method IncOffset(d: nat) returns (ok: bool)
      modifies this`currOffset
      ensures currOffset == old(currOffset) + d
      ensures ok <==> currOffset <= ptr.Length
    {
      currOffset := currOffset + d;
      ok := currOffset <= ptr.Length;
    }

    method PutBytes(at: nat, s: seq<Byte>)
      requires at + |s| <= ptr.Length
      modifies ptr
      ensures ptr[at..at + |s|] == s
      ensures Agree(old(ptr[..]), ptr[..], 0, at) && Agree(old(ptr[..]), ptr[..], at + |s|, ptr.Length)
    {
      for i := 0 to |s|
        invariant forall k :: 0 <= k < i ==> ptr[at + k] == s[k]
        invariant forall k :: 0 <= k < ptr.Length && !(at <= k < at + i) ==> ptr[k] == old(ptr[k])
      {
        ptr[at + i] := s[i];
      }
    }

    method PutWord(at: nat, v: nat)
      requires at + 8 <= ptr.Length && v < WORD_LIMIT
      modifies ptr
      ensures Word(ptr[..], at) == v
      ensures Agree(old(ptr[..]), ptr[..], 0, at) && Agree(old(ptr[..]), ptr[..], at + 8, ptr.Length)
    {
      PutBytes(at, Encode(v, 8));
      WordRoundTrip(v);
      assert ptr[..][at..at + 8] == ptr[at..at + 8];
    }

    /** The header fields of a node whose structure has been reserved. */
    method WriteHeader(off: nat, e: Entry)
      requires off + FOLDER_SIZE <= ptr.Length < WORD_LIMIT && |e.name| == NAME_SIZE && NodeSize(e) < WORD_LIMIT
      modifies ptr
      ensures HeaderAt(ptr[..], e, off)
      ensures Agree(old(ptr[..]), ptr[..], 0, off) && Agree(old(ptr[..]), ptr[..], off + HEADER_SIZE, ptr.Length)
    {
      PutWord(off, MAGIC);
      ghost var b1 := ptr[..];
      PutBytes(off + 16, e.name);
      ghost var b2 := ptr[..];
      PutWord(off + 8, NodeSize(e));
      ghost var b3 := ptr[..];
      PutWord(off + 272, if e.Folder? then FLAG_ISFOLDER else 0);
      WordFrame(b1, ptr[..], off);
      SliceFrame(b2, ptr[..], off + 16, off + 272);
      WordFrame(b3, ptr[..], off + 8);
    }

    /** Size, address and body of a file node; the body follows the structure. */
    method WriteFile(off: nat, data: seq<Byte>)
      requires off + FILE_SIZE + |data| <= ptr.Length < WORD_LIMIT
      modifies ptr
      ensures FileAt(ptr[..], data, off)
      ensures Agree(old(ptr[..]), ptr[..], 0, off + HEADER_SIZE)
      ensures Agree(old(ptr[..]), ptr[..], off + FILE_SIZE + |data|, ptr.Length)
    {
      PutWord(off + 288, off + FILE_SIZE);
      ghost var b1 := ptr[..];
      PutWord(off + 280, |data|);
      ghost var b2 := ptr[..];
      PutBytes(off + FILE_SIZE, data);
      WordFrame(b1, ptr[..], off + 288);
      WordFrame(b2, ptr[..], off + 280);
    }

    /** The back-patch: it writes the count and the slots in use of its own node and nothing else. */
    method PatchChildren(off: nat, children: seq<Entry>, offs: seq<nat>)
      requires off + FOLDER_SIZE + 8 * ChildCount(children) <= ptr.Length < WORD_LIMIT
      requires offs == Offsets(children, off + FOLDER_SIZE + 8 * ChildCount(children))
      requires forall i :: 0 <= i < |offs| ==> offs[i] < WORD_LIMIT
      modifies ptr
      ensures FolderAt(ptr[..], children, off)
      ensures Agree(old(ptr[..]), ptr[..], 0, off + HEADER_SIZE)
      ensures Agree(old(ptr[..]), ptr[..], off + FOLDER_SIZE + 8 * |offs|, ptr.Length)
    {
      PutWord(off + 280, |offs|);
      ghost var b0 := ptr[..];
      for i := 0 to |offs|
        invariant Agree(b0, ptr[..], 0, off + FOLDER_SIZE)
        invariant Agree(b0, ptr[..], off + FOLDER_SIZE + 8 * i, ptr.Length)
        invariant forall j :: 0 <= j < i ==> Word(ptr[..], off + FOLDER_SIZE + 8 * j) == offs[j]
      {
        ghost var b := ptr[..];
        PutWord(off + FOLDER_SIZE + 8 * i, offs[i]);
        forall j | 0 <= j < i ensures Word(ptr[..], off + FOLDER_SIZE + 8 * j) == offs[j] {
          WordFrame(b, ptr[..], off + FOLDER_SIZE + 8 * j);
        }
      }
      WordFrame(b0, ptr[..], off + 280);
    }

    /** A regular file: structure, then body. */
    method MakeFile(e: Entry) returns (ok: bool)
      requires Valid() && e.File? && |e.name| == NAME_SIZE
      modifies this`currOffset, ptr
      ensures ok <==> old(currOffset) + TotalSize(e) <= ptr.Length
      ensures ok ==> currOffset == old(currOffset) + TotalSize(e) && Encodes(ptr[..], e, old(currOffset))
      ensures ok ==> Agree(old(ptr[..]), ptr[..], currOffset, ptr.Length)
      ensures Agree(old(ptr[..]), ptr[..], 0, old(currOffset))
    {
      var off := currOffset;
      ok := IncOffset(FILE_SIZE);
      if !ok { return; }
      WriteHeader(off, e);
      ghost var b := ptr[..];
      ok := IncOffset(|e.data|);
      if !ok { return; }
      WriteFile(off, e.data);
      HeaderFrame(b, ptr[..], e, off);
    }

    /** The patch, once the descendants are in place behind the structure. */
    method FinishFolder(off: nat, e: Entry, offs: seq<nat>, ghost header: seq<Byte>)
      requires e.Folder? && off + TotalSize(e) <= ptr.Length < WORD_LIMIT
      requires offs == Offsets(e.children, off + NodeSize(e)) && EncodesDir(ptr[..], e.children, off + NodeSize(e))
      requires off + FOLDER_SIZE <= |header| && HeaderAt(header, e, off) && Agree(header, ptr[..], 0, off + HEADER_SIZE)
      modifies ptr
      ensures Encodes(ptr[..], e, off)
      ensures Agree(old(ptr[..]), ptr[..], 0, off + HEADER_SIZE)
      ensures Agree(old(ptr[..]), ptr[..], off + NodeSize(e), ptr.Length)
    {
      OffsetsBound(e.children, off + NodeSize(e));
      PatchChildren(off, e.children, offs);
      HeaderFrame(header, ptr[..], e, off);
      FolderAssembled(old(ptr[..]), ptr[..], e, off);
    }

    /** A folder: structure, then all descendants, then the patch of the structure. */
    method MakeFolder(e: Entry) returns (ok: bool)
      requires Valid() && e.Folder? && WellNamed(e)
      modifies this`currOffset, ptr
      ensures ok <==> old(currOffset) + TotalSize(e) <= ptr.Length
      ensures ok ==> currOffset == old(currOffset) + TotalSize(e) && Encodes(ptr[..], e, old(currOffset))
      ensures ok ==> Agree(old(ptr[..]), ptr[..], currOffset, ptr.Length)
      ensures Agree(old(ptr[..]), ptr[..], 0, old(currOffset))
      decreases e, 1
    {
      var off := currOffset;
      ok := IncOffset(NodeSize(e));
      if !ok { return; }
      WriteHeader(off, e);
      ghost var b1 := ptr[..];
      var r := MakeNode(e.children);
      if r.None? { return false; }
      FinishFolder(off, e, r.value, b1);
      ok := true;
    }

    /** The two branches of the loop in make_node. */
    method MakeEntry(e: Entry) returns (ok: bool)
      requires Valid() && Kept(e) && WellNamed(e)
      modifies this`currOffset, ptr
      ensures ok <==> old(currOffset) + TotalSize(e) <= ptr.Length
      ensures ok ==> currOffset == old(currOffset) + TotalSize(e) && Encodes(ptr[..], e, old(currOffset))
      ensures ok ==> Agree(old(ptr[..]), ptr[..], currOffset, ptr.Length)
      ensures Agree(old(ptr[..]), ptr[..], 0, old(currOffset))
      decreases e, 2
    {
      if e.Folder? {
        ok := MakeFolder(e);
      } else {
        ok := MakeFile(e);
      }
    }

    /** make_node: fails exactly when the directory does not fit, and otherwise lays it out and encodes it. */
    method MakeNode(dir: seq<Entry>) returns (r: Option<seq<nat>>)
      requires Valid() && forall e :: e in dir ==> WellNamed(e)
      modifies this`currOffset, ptr
      ensures r.Some? <==> old(currOffset) + DirSize(dir) <= ptr.Length
      ensures r.Some? ==> currOffset == old(currOffset) + DirSize(dir) && EncodesDir(ptr[..], dir, old(currOffset))
      ensures r.Some? ==> r.value == Offsets(dir, old(currOffset))
      ensures r.Some? ==> Agree(old(ptr[..]), ptr[..], currOffset, ptr.Length)
      ensures Agree(old(ptr[..]), ptr[..], 0, old(currOffset))
      decreases dir, 0
    {
      var offs := [];
      ghost var start := currOffset;
      for i := 0 to |dir|
        invariant currOffset == start + DirSize(dir[..i]) <= ptr.Length
        invariant offs == Offsets(dir[..i], start) && EncodesDir(ptr[..], dir[..i], start)
        invariant Agree(old(ptr[..]), ptr[..], currOffset, ptr.Length)
        invariant Agree(old(ptr[..]), ptr[..], 0, start)
      {
        DirSizePrefix(dir, i);
        assert dir[i] in dir;
        ghost var b := ptr[..];
        if Kept(dir[i]) {
          offs := offs + [currOffset];
          var ok := MakeEntry(dir[i]);
          if !ok { return None; }
        }
        OneMore(b, ptr[..], dir, i, start);
        OffsetsExtend(dir, i, start);
      }
      assert dir[..|dir|] == dir;
      r := Some(offs);
    }

    method PutRootHeader(nodeSize: nat)
      requires Valid() && FOLDER_SIZE <= ptr.Length && nodeSize < WORD_LIMIT
      modifies ptr
      ensures RootHeader(ptr[..], nodeSize)
      ensures forall k :: 16 <= k < 272 || HEADER_SIZE <= k < ptr.Length ==> ptr[k] == old(ptr[k])
    {
      PutWord(0, MAGIC);
      ghost var b0 := ptr[..];
      PutWord(8, nodeSize);
      ghost var b1 := ptr[..];
      PutWord(272, FLAG_ISFOLDER);
      WordFrame(b0, ptr[..], 0);
      WordFrame(b1, ptr[..], 8);
    }

    /** Root construction in main. The root's name is never written. */
    method MakeArchive(input: seq<Entry>) returns (ok: bool)
      requires Valid() && currOffset == 0 && forall e :: e in input ==> WellNamed(e)
      modifies this`currOffset, ptr
      ensures ok <==> FOLDER_SIZE + 8 * ChildCount(input) + DirSize(input) <= ptr.Length
      ensures ok ==> currOffset == FOLDER_SIZE + 8 * ChildCount(input) + DirSize(input)
      ensures ok ==> RootAt(ptr[..currOffset], input) && ptr[16..272] == old(ptr[16..272])
    {
      var nodeSize := FOLDER_SIZE + 8 * ChildCount(input);
      ok := IncOffset(nodeSize);
      if !ok { return; }
      PutRootHeader(nodeSize);
      ghost var b2 := ptr[..];
      var r := MakeNode(input);
      if r.None? { return false; }
      ghost var b3 := ptr[..];
      OffsetsBound(input, nodeSize);
      PatchChildren(0, input, r.value);
      ghost var b := ptr[..currOffset];
      RootAssembled(b2, b3, ptr[..], b, input);
      ok := true;
    }
  }

  /** The root's header, but for its name. */
  ghost predicate RootHeader(b: seq<Byte>, nodeSize: nat)
  {
    HEADER_SIZE <= |b| && Word(b, 0) == MAGIC && Word(b, 8) == nodeSize && Word(b, 272) == FLAG_ISFOLDER
  }

  /** The root node and everything below it, at the start of an archive that holds nothing else. */
  ghost predicate RootAt(b: seq<Byte>, input: seq<Entry>)
  {
    && |b| == FOLDER_SIZE + 8 * ChildCount(input) + DirSize(input)
    && RootHeader(b, FOLDER_SIZE + 8 * ChildCount(input))
    && FolderAt(b, input, 0)
    && EncodesDir(b, input, FOLDER_SIZE + 8 * ChildCount(input))
  }

  lemma RootHeaderFrame(b: seq<Byte>, b': seq<Byte>, nodeSize: nat)
    requires RootHeader(b, nodeSize) && Agree(b, b', 0, HEADER_SIZE)
    ensures RootHeader(b', nodeSize)
  {
    WordFrame(b, b', 0);
    WordFrame(b, b', 8);
    WordFrame(b, b', 272);
  }

  /** The root is complete when its header, its descendants and its table have been written, in that order. */
  lemma RootAssembled(b2: seq<Byte>, b3: seq<Byte>, b4: seq<Byte>, b: seq<Byte>, input: seq<Entry>)
    requires |b| == FOLDER_SIZE + 8 * ChildCount(input) + DirSize(input) <= |b4|
    requires b == b4[..|b|]
    requires RootHeader(b2, FOLDER_SIZE + 8 * ChildCount(input)) && Agree(b2, b, 0, HEADER_SIZE)
    requires EncodesDir(b3, input, FOLDER_SIZE + 8 * ChildCount(input))
    requires Agree(b3, b, FOLDER_SIZE + 8 * ChildCount(input), |b|)
    requires FolderAt(b4, input, 0)
    ensures RootAt(b, input)
  {
    RootHeaderFrame(b2, b, FOLDER_SIZE + 8 * ChildCount(input));
    DirFrame(b3, b, input, FOLDER_SIZE + 8 * ChildCount(input));
    FolderFrame(b4, b, input, 0);
  }

  lemma {:induction false} OffsetsBound(dir: seq<Entry>, start: nat)
    ensures forall i :: 0 <= i < |Offsets(dir, start)| ==> Offsets(dir, start)[i] <= start + DirSize(dir)
  {
    if dir != [] {
      OffsetsBound(dir[..|dir| - 1], start);
    }
  }
}
