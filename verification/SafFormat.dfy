/**
 * The SAF archive format: little-endian words, node structures, and where every node of a directory
 * tree lies. Offsets count from the start of the archive.
 */
module SafFormat {

  import Arith

  type Byte = x: nat | x < 256

  const MAGIC: nat := 0x766863726c706d73
  const FLAG_ISFOLDER: nat := 1
  const NAME_SIZE: nat := 256
  const HEADER_SIZE: nat := 280
  const FILE_SIZE: nat := 296
  const FOLDER_SIZE: nat := 288
  const WORD_LIMIT: nat := 0x1_0000_0000_0000_0000

  /**
   * A directory entry as readdir reports it. The name is the whole 256-byte field. Dots stands for "."
   * and "..", Other for anything that is neither a regular file nor a folder.
   */
  datatype Entry =
    | File(name: seq<Byte>, data: seq<Byte>)
    | Folder(name: seq<Byte>, children: seq<Entry>)
    | Other(name: seq<Byte>)
    | Dots(name: seq<Byte>)

  /** Entries that get a node of their own. */
  predicate Kept(e: Entry) { e.File? || e.Folder? }

  /** Names are 256 bytes with a terminator, as struct dirent guarantees. */
  ghost predicate WellNamed(e: Entry)
  {
    && |e.name| == NAME_SIZE && 0 in e.name
    && (e.Folder? ==> forall c :: c in e.children ==> WellNamed(c))
  }

  // ---- little-endian words

  function Encode(v: nat, n: nat): (s: seq<Byte>)
    ensures |s| == n
  {
    if n == 0 then [] else [v % 256] + Encode(v / 256, n - 1)
  }

  function Decode(s: seq<Byte>): (v: nat)
  {
    if s == [] then 0 else s[0] + 256 * Decode(s[1..])
  }

  function Limit(n: nat): (r: nat)
    ensures r > 0
  {
    if n == 0 then 1 else 256 * Limit(n - 1)
  }

  lemma {:induction false} DecodeEncode(v: nat, n: nat)
    requires v < Limit(n)
    ensures Decode(Encode(v, n)) == v
  {
    if n > 0 {
      DecodeEncode(v / 256, n - 1);
      assert Encode(v, n)[1..] == Encode(v / 256, n - 1);
    }
  }

  /** Little-endian: byte i has the weight 256 to the i. */
  lemma {:induction false} EncodeByte(v: nat, n: nat, i: nat)
    requires i < n
    ensures Encode(v, n)[i] == v / Limit(i) % 256
  {
    if i > 0 {
      EncodeByte(v / 256, n - 1, i - 1);
      Arith.DivDiv(v, 256, Limit(i - 1));
    }
  }

  lemma WordRoundTrip(v: nat)
    requires v < WORD_LIMIT
    ensures Decode(Encode(v, 8)) == v
  {
    assert Limit(4) == 0x1_0000_0000;
    assert Limit(8) == 256 * (256 * (256 * (256 * Limit(4))));
    DecodeEncode(v, 8);
  }

  /** The word stored at an offset. */
  function Word(b: seq<Byte>, at: nat): (v: nat)
    requires at + 8 <= |b|
  {
    Decode(b[at..at + 8])
  }

  // ---- layout

  /** childcnt: everything but "." and "..", including entries that will be ignored. */
  function ChildCount(dir: seq<Entry>): (n: nat)
    ensures n <= |dir|
  {
    if dir == [] then 0
    else ChildCount(dir[..|dir| - 1]) + (if dir[|dir| - 1].Dots? then 0 else 1)
  }

  /** The positions of the entries that are counted. */
  function Counted(dir: seq<Entry>): (places: set<int>)
  {
    set i | 0 <= i < |dir| && !dir[i].Dots?
  }

  lemma {:induction false} ChildCountIs(dir: seq<Entry>)
    ensures ChildCount(dir) == |Counted(dir)|
  {
    if dir == [] {
      assert Counted(dir) == {};
    } else {
      ChildCountIs(dir[..|dir| - 1]);
      CountedMore(dir);
    }
  }

  lemma CountedMore(dir: seq<Entry>)
    requires dir != []
    ensures |Counted(dir)| == |Counted(dir[..|dir| - 1])| + if dir[|dir| - 1].Dots? then 0 else 1
  {
    var before, last := Counted(dir[..|dir| - 1]), |dir| - 1;
    if dir[last].Dots? {
      assert Counted(dir) == before;
    } else {
      assert Counted(dir) == before + {last} && last !in before;
    }
  }

  /** Size of the node structure alone. */
  function NodeSize(e: Entry): (n: nat)
  {
    if e.Folder? then FOLDER_SIZE + 8 * ChildCount(e.children) else FILE_SIZE
  }

  /** Bytes an entry takes in the archive, its body and all its descendants included. */
  function TotalSize(e: Entry): (n: nat)
    decreases e, 1
  {
    match e
    case File(_, data) => FILE_SIZE + |data|
    case Folder(_, children) => NodeSize(e) + DirSize(children)
    case _ => 0
  }

  function DirSize(dir: seq<Entry>): (n: nat)
    decreases dir, 0
  {
    if dir == [] then 0 else DirSize(dir[..|dir| - 1]) + TotalSize(dir[|dir| - 1])
  }

  /** Where the entries of a directory go when the first free byte is start. */
  function Offsets(dir: seq<Entry>, start: nat): (offs: seq<nat>)
    ensures |offs| <= ChildCount(dir)
  {
    if dir == [] then []
    else
      var init := dir[..|dir| - 1];
      Offsets(init, start) + (if Kept(dir[|dir| - 1]) then [start + DirSize(init)] else [])
  }

  /** The bytes at off hold the node of a kept entry, and those of all its descendants. */
  ghost predicate Encodes(b: seq<Byte>, e: Entry, off: nat)
    decreases e, 1
  {
    && Kept(e)
    && off + TotalSize(e) <= |b|
    && HeaderAt(b, e, off)
    && match e
       case File(_, data) => FileAt(b, data, off)
       case Folder(_, children) => FolderAt(b, children, off) && EncodesDir(b, children, off + NodeSize(e))
  }

  ghost predicate HeaderAt(b: seq<Byte>, e: Entry, off: nat)
    requires off + FOLDER_SIZE <= |b|
  {
    && Word(b, off) == MAGIC
    && Word(b, off + 8) == NodeSize(e)
    && b[off + 16..off + 272] == e.name
    && Word(b, off + 272) == if e.Folder? then FLAG_ISFOLDER else 0
  }

  ghost predicate FileAt(b: seq<Byte>, data: seq<Byte>, off: nat)
    requires off + FILE_SIZE + |data| <= |b|
  {
    && Word(b, off + 280) == |data|
    && Word(b, off + 288) == off + FILE_SIZE
    && b[off + FILE_SIZE..off + FILE_SIZE + |data|] == data
  }

  /** The slots of a child table. */
  ghost predicate Slots(b: seq<Byte>, table: nat, offs: seq<nat>)
  {
    table + 8 * |offs| <= |b| && forall k :: 0 <= k < |offs| ==> Word(b, table + 8 * k) == offs[k]
  }

  /** The child count and the slots in use; slots reserved for ignored entries are not constrained. */
  ghost predicate FolderAt(b: seq<Byte>, children: seq<Entry>, off: nat)
    requires off + FOLDER_SIZE + 8 * ChildCount(children) <= |b|
  {
    var offs := Offsets(children, off + FOLDER_SIZE + 8 * ChildCount(children));
    Word(b, off + 280) == |offs| && Slots(b, off + FOLDER_SIZE, offs)
  }

  /** Marks the directories that a proof looks into. */
  ghost predicate Listed(b: seq<Byte>, dir: seq<Entry>, start: nat, m: int) { true }

  ghost predicate EncodesDir(b: seq<Byte>, dir: seq<Entry>, start: nat)
    decreases dir, 0
  {
    forall m: int {:trigger Listed(b, dir, start, m)} :: Listed(b, dir, start, m) ==>
      forall i :: 0 <= i < |dir| && Kept(dir[i]) ==> Encodes(b, dir[i], start + DirSize(dir[..i]))
  }

  // ---- facts about the layout

  lemma {:induction false} DirSizePrefix(dir: seq<Entry>, i: nat)
    requires i < |dir|
    ensures DirSize(dir[..i]) + TotalSize(dir[i]) == DirSize(dir[..i + 1]) <= DirSize(dir)
    decreases |dir| - i
  {
    assert dir[..i + 1][..i] == dir[..i];
    if i + 1 < |dir| {
      DirSizePrefix(dir, i + 1);
    } else {
      assert dir[..i + 1] == dir;
    }
  }

  ghost predicate Agree(b: seq<Byte>, b': seq<Byte>, from: nat, to: nat)
  {
    to <= |b| && to <= |b'| && forall k :: from <= k < to ==> b[k] == b'[k]
  }

  lemma SliceFrame(b: seq<Byte>, b': seq<Byte>, from: nat, to: nat)
    requires from <= to && Agree(b, b', from, to)
    ensures b[from..to] == b'[from..to]
  {}

  lemma WordFrame(b: seq<Byte>, b': seq<Byte>, at: nat)
    requires Agree(b, b', at, at + 8)
    ensures Word(b, at) == Word(b', at)
  {
    SliceFrame(b, b', at, at + 8);
  }

  lemma HeaderFrame(b: seq<Byte>, b': seq<Byte>, e: Entry, off: nat)
    requires off + FOLDER_SIZE <= |b| && off + FOLDER_SIZE <= |b'| && Agree(b, b', off, off + HEADER_SIZE)
    ensures HeaderAt(b, e, off) <==> HeaderAt(b', e, off)
  {
    WordFrame(b, b', off);
    WordFrame(b, b', off + 8);
    SliceFrame(b, b', off + 16, off + 272);
    WordFrame(b, b', off + 272);
  }

  lemma FileFrame(b: seq<Byte>, b': seq<Byte>, data: seq<Byte>, off: nat)
    requires Agree(b, b', off + 280, off + FILE_SIZE + |data|)
    ensures FileAt(b, data, off) <==> FileAt(b', data, off)
  {
    WordFrame(b, b', off + 280);
    WordFrame(b, b', off + 288);
    SliceFrame(b, b', off + FILE_SIZE, off + FILE_SIZE + |data|);
  }

  lemma SlotsFrame(b: seq<Byte>, b': seq<Byte>, table: nat, offs: seq<nat>)
    requires Slots(b, table, offs) && Agree(b, b', table, table + 8 * |offs|)
    ensures Slots(b', table, offs)
  {
    forall k | 0 <= k < |offs| ensures Word(b', table + 8 * k) == offs[k] {
      WordFrame(b, b', table + 8 * k);
    }
  }

  lemma FolderFrame(b: seq<Byte>, b': seq<Byte>, children: seq<Entry>, off: nat)
    requires Agree(b, b', off + 280, off + FOLDER_SIZE + 8 * ChildCount(children))
    requires FolderAt(b, children, off)
    ensures FolderAt(b', children, off)
  {
    WordFrame(b, b', off + 280);
    SlotsFrame(b, b', off + FOLDER_SIZE, Offsets(children, off + FOLDER_SIZE + 8 * ChildCount(children)));
  }

  /** Buffers that agree on an entry's extent agree on whether it is there. */
  lemma {:induction false} EncodesFrame(b: seq<Byte>, b': seq<Byte>, e: Entry, off: nat)
    requires Encodes(b, e, off) && Agree(b, b', off, off + TotalSize(e))
    ensures Encodes(b', e, off)
    decreases e, 2
  {
    HeaderFrame(b, b', e, off);
    match e {
      case File(_, data) =>
        FileFrame(b, b', data, off);
      case Folder(_, children) =>
        FolderFrame(b, b', children, off);
        DirFrame(b, b', children, off + NodeSize(e));
    }
  }

  lemma {:induction false} DirFrame(b: seq<Byte>, b': seq<Byte>, dir: seq<Entry>, start: nat)
    requires EncodesDir(b, dir, start) && Agree(b, b', start, start + DirSize(dir))
    ensures EncodesDir(b', dir, start)
    decreases dir, 1
  {
    assert Listed(b, dir, start, 0);
    forall i | 0 <= i < |dir| && Kept(dir[i]) ensures Encodes(b', dir[i], start + DirSize(dir[..i])) {
      EntryFrame(b, b', dir, start, i);
    }
  }

  lemma {:induction false} EntryFrame(b: seq<Byte>, b': seq<Byte>, dir: seq<Entry>, start: nat, i: nat)
    requires i < |dir| && Encodes(b, dir[i], start + DirSize(dir[..i])) && Agree(b, b', start, start + DirSize(dir))
    ensures Encodes(b', dir[i], start + DirSize(dir[..i]))
    decreases dir, 0
  {
    DirSizePrefix(dir, i);
    EncodesFrame(b, b', dir[i], start + DirSize(dir[..i]));
  }

  /** A child lies strictly behind its parent, so following child offsets always moves forward. */
  lemma {:induction false} ChildrenBehindParent(dir: seq<Entry>, start: nat, i: nat)
    requires i < |Offsets(dir, start)|
    ensures start <= Offsets(dir, start)[i]
  {
    var init := dir[..|dir| - 1];
    if i < |Offsets(init, start)| {
      ChildrenBehindParent(init, start, i);
    }
  }

  // ---- tiling

  datatype Extent = Extent(start: nat, len: nat)

  /** Node structures and file bodies in the order in which they are laid out. */
  function Extents(e: Entry, off: nat): (xs: seq<Extent>)
    decreases e, 1
  {
    match e
    case File(_, data) => [Extent(off, FILE_SIZE), Extent(off + FILE_SIZE, |data|)]
    case Folder(_, children) => [Extent(off, NodeSize(e))] + DirExtents(children, off + NodeSize(e))
    case _ => []
  }

  function DirExtents(dir: seq<Entry>, start: nat): (xs: seq<Extent>)
    decreases dir, 0
  {
    if dir == [] then []
    else
      var init := dir[..|dir| - 1];
      DirExtents(init, start) + Extents(dir[|dir| - 1], start + DirSize(init))
  }

  /** Each piece starts where the one before it ends, from `from` up to `to`. */
  ghost predicate Tiles(xs: seq<Extent>, from: nat, to: nat)
  {
    if xs == [] then from == to
    else xs[0].start == from && Tiles(xs[1..], from + xs[0].len, to)
  }

  lemma {:induction false} TilesAppend(xs: seq<Extent>, ys: seq<Extent>, from: nat, mid: nat, to: nat)
    requires Tiles(xs, from, mid) && Tiles(ys, mid, to)
    ensures Tiles(xs + ys, from, to)
  {
    if xs == [] {
      assert xs + ys == ys;
    } else {
      assert (xs + ys)[1..] == xs[1..] + ys;
      TilesAppend(xs[1..], ys, from + xs[0].len, mid, to);
    }
  }

  lemma TilesCons(x: Extent, ys: seq<Extent>, to: nat)
    requires Tiles(ys, x.start + x.len, to)
    ensures Tiles([x] + ys, x.start, to)
  {
    assert ([x] + ys)[1..] == ys;
  }

  lemma FileTiles(off: nat, size: nat)
    ensures Tiles([Extent(off, FILE_SIZE), Extent(off + FILE_SIZE, size)], off, off + FILE_SIZE + size)
  {
    TilesCons(Extent(off + FILE_SIZE, size), [], off + FILE_SIZE + size);
    TilesCons(Extent(off, FILE_SIZE), [Extent(off + FILE_SIZE, size)], off + FILE_SIZE + size);
  }

  /** Tiles do not overlap. */
  lemma {:induction false} TilesDisjoint(xs: seq<Extent>, from: nat, to: nat, i: nat, j: nat)
    requires Tiles(xs, from, to) && i < j < |xs|
    ensures from <= xs[i].start && xs[i].start + xs[i].len <= xs[j].start && xs[j].start + xs[j].len <= to
  {
    if i > 0 {
      TilesDisjoint(xs[1..], from + xs[0].len, to, i - 1, j - 1);
    } else {
      TilesBounds(xs[1..], from + xs[0].len, to, j - 1);
    }
  }

  lemma {:induction false} TilesBounds(xs: seq<Extent>, from: nat, to: nat, j: nat)
    requires Tiles(xs, from, to) && j < |xs|
    ensures from <= xs[j].start && xs[j].start + xs[j].len <= to
  {
    if j > 0 {
      TilesBounds(xs[1..], from + xs[0].len, to, j - 1);
    } else {
      TilesOrdered(xs[1..], from + xs[0].len, to);
    }
  }

  lemma {:induction false} TilesOrdered(xs: seq<Extent>, from: nat, to: nat)
    requires Tiles(xs, from, to)
    ensures from <= to
  {
    if xs != [] {
      TilesOrdered(xs[1..], from + xs[0].len, to);
    }
  }

  /** The structures and bodies of an entry tile exactly the bytes it takes. */
  lemma {:induction false} EntryTiles(e: Entry, off: nat)
    ensures Tiles(Extents(e, off), off, off + TotalSize(e))
    decreases e, 1
  {
    match e {
      case File(_, data) =>
        FileTiles(off, |data|);
      case Folder(_, children) =>
        DirTiles(children, off + NodeSize(e));
        TilesCons(Extent(off, NodeSize(e)), DirExtents(children, off + NodeSize(e)), off + TotalSize(e));
      case _ =>
    }
  }

  lemma {:induction false} DirTiles(dir: seq<Entry>, start: nat)
    ensures Tiles(DirExtents(dir, start), start, start + DirSize(dir))
    decreases dir, 0
  {
    if dir != [] {
      var init := dir[..|dir| - 1];
      DirTiles(init, start);
      EntryTiles(dir[|dir| - 1], start + DirSize(init));
      TilesAppend(DirExtents(init, start), Extents(dir[|dir| - 1], start + DirSize(init)),
                  start, start + DirSize(init), start + DirSize(dir));
    }
  }

  /** The root structure and everything below it tile the whole archive. */
  lemma ArchiveTiles(input: seq<Entry>)
    ensures var rootSize := FOLDER_SIZE + 8 * ChildCount(input);
            Tiles([Extent(0, rootSize)] + DirExtents(input, rootSize), 0, rootSize + DirSize(input))
  {
    var rootSize := FOLDER_SIZE + 8 * ChildCount(input);
    DirTiles(input, rootSize);
    TilesCons(Extent(0, rootSize), DirExtents(input, rootSize), rootSize + DirSize(input));
  }
}
