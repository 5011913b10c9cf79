/** saf-extract: the recursive walk over an archive, and the files and folders it creates. */
module SafReader {
  import opened SafFormat
  import opened SafWriter

  /** What an archive holds: names as C strings, nesting, order and contents. */
  datatype Node =
    | FileNode(name: seq<Byte>, data: seq<Byte>)
    | FolderNode(name: seq<Byte>, children: seq<Node>)

  /** The bytes before the terminator. */
  function CString(s: seq<Byte>): (r: seq<Byte>)
  {
    if s == [] || s[0] == 0 then [] else [s[0]] + CString(s[1..])
  }

  /** The text of a name field: the bytes before its first zero byte. */
  ghost predicate Spells(field: seq<Byte>, name: seq<Byte>)
  {
    |name| < |field| && field[..|name|] == name && field[|name|] == 0 && 0 !in name
  }

  lemma {:induction false} CStringSpells(s: seq<Byte>)
    requires 0 in s
    ensures Spells(s, CString(s))
  {
    if s[0] != 0 {
      assert s == [s[0]] + s[1..];
      CStringSpells(s[1..]);
      var rest := CString(s[1..]);
      assert s[..|rest| + 1] == [s[0]] + s[1..][..|rest|];
    }
  }

  lemma {:induction false} SpellsUnique(s: seq<Byte>, name: seq<Byte>)
    requires Spells(s, name)
    ensures CString(s) == name
  {
    if name != [] {
      assert name == [name[0]] + name[1..];
      assert s[0] == s[..|name|][0] && s[1..][..|name| - 1] == s[..|name|][1..];
      SpellsUnique(s[1..], name[1..]);
    }
  }

  /** The part of a directory tree that an archive is meant to hold. */
  function Image(e: Entry): (n: Node)
    requires Kept(e)
    decreases e, 1
  {
    match e
    case File(name, data) => FileNode(CString(name), data)
    case Folder(name, children) => FolderNode(CString(name), Images(children))
  }

  function Images(dir: seq<Entry>): (ns: seq<Node>)
    decreases dir, 0
  {
    if dir == [] then []
    else Images(dir[..|dir| - 1]) + (if Kept(dir[|dir| - 1]) then [Image(dir[|dir| - 1])] else [])
  }

  /** A node that the tool goes on with. */
  predicate Sound(b: seq<Byte>, off: nat, fuel: nat)
  {
    fuel > 0 && off + FOLDER_SIZE <= |b| && Word(b, off) == MAGIC
  }

  function NameAt(b: seq<Byte>, off: nat): (name: seq<Byte>)
    requires off + FOLDER_SIZE <= |b|
  {
    CString(b[off + 16..off + 272])
  }

  /** The bytes of a file node, if they are there. */
  function Body(b: seq<Byte>, off: nat): (data: Option<seq<Byte>>)
    requires off + FOLDER_SIZE <= |b|
  {
    if off + FILE_SIZE > |b| || Word(b, off + 288) + Word(b, off + 280) > |b| then None
    else Some(b[Word(b, off + 288)..Word(b, off + 288) + Word(b, off + 280)])
  }

  /**
   * parsenode without its effects. An arbitrary buffer may hold cycles, so the depth is bounded by fuel;
   * None stands for the panic on a bad magic number, for a read past the end and for exhausted fuel.
   */
  function Walk(b: seq<Byte>, off: nat, fuel: nat): (r: Option<Node>)
    decreases fuel, 0
  {
    if !Sound(b, off, fuel) then None
    else
      var name := NameAt(b, off);
      if Word(b, off + 272) == FLAG_ISFOLDER then
        match WalkChildren(b, off + FOLDER_SIZE, Word(b, off + 280), fuel - 1)
        case None => None
        case Some(children) => Some(FolderNode(name, children))
      else
        match Body(b, off)
        case None => None
        case Some(data) => Some(FileNode(name, data))
  }

  /** The child loop: the first n slots in order, or None if one of them cannot be walked. */
  function WalkChildren(b: seq<Byte>, table: nat, n: nat, fuel: nat): (r: Option<seq<Node>>)
    decreases fuel, 2, n
  {
    if n == 0 then Some([])
    else if table + 8 * n > |b| then None
    else
      match (WalkChildren(b, table, n - 1, fuel), WalkSlot(b, table, n - 1, fuel))
      case (Some(before), Some(child)) => Some(before + [child])
      case _ => None
  }

  function WalkSlot(b: seq<Byte>, table: nat, i: nat, fuel: nat): (r: Option<Node>)
    requires table + 8 * i + 8 <= |b|
    decreases fuel, 1
  {
    Walk(b, Word(b, table + 8 * i), fuel)
  }

  /** The node at `at` is met on the way through the node at `off`. */
  ghost predicate Reaches(b: seq<Byte>, off: nat, fuel: nat, at: nat)
    decreases fuel
  {
    || at == off
    || (fuel > 0 && off + 288 <= |b| && Word(b, off + 272) == 1 && exists i :: ReachesBy(b, off, fuel, at, i))
  }

  /** By way of the i-th child. */
  ghost predicate ReachesBy(b: seq<Byte>, off: nat, fuel: nat, at: nat, i: int)
    requires fuel > 0 && off + 288 <= |b|
    decreases fuel, 0
  {
    && 0 <= i < Word(b, off + 280) && off + 296 + 8 * i <= |b|
    && Reaches(b, Word(b, off + 288 + 8 * i), fuel - 1, at)
  }

  /** A walk succeeds only if every node that it meets lies in the buffer and has the magic number. */
  lemma {:induction false} WalkedSound(b: seq<Byte>, off: nat, fuel: nat, at: nat)
    requires Walk(b, off, fuel).Some? && Reaches(b, off, fuel, at)
    ensures at + 288 <= |b| && Word(b, at) == 0x766863726c706d73
    decreases fuel
  {
    if at != off {
      var i :| ReachesBy(b, off, fuel, at, i);
      var n := Word(b, off + 280);
      ChildrenPrefix(b, off + FOLDER_SIZE, i + 1, n, fuel - 1);
      WalkedSound(b, Word(b, off + 288 + 8 * i), fuel - 1, at);
    }
  }

  /** Marks the walks that a proof looks into. */
  ghost predicate Seeking(b: seq<Byte>, off: nat, fuel: nat, node: Node, i: int)
  {
    true
  }

  /** The walk at an offset succeeds with a node. */
  ghost predicate Finds(b: seq<Byte>, off: nat, fuel: nat, node: Node)
  {
    forall i: int {:trigger Seeking(b, off, fuel, node, i)} :: Seeking(b, off, fuel, node, i) ==>
      Walk(b, off, fuel) == Some(node)
  }

  /** Walking an encoded node gives its entry back; the bytes left bound the depth of the recursion. */
  lemma {:induction false} WalkEncoded(b: seq<Byte>, e: Entry, off: nat, fuel: nat)
    requires Encodes(b, e, off) && fuel >= |b| - off
    ensures Finds(b, off, fuel, Image(e)) && (0 in e.name ==> Spells(e.name, Image(e).name))
    decreases e, 1
  {
    if 0 in e.name { CStringSpells(e.name); }
    if e.File? {
      WalkFile(b, e, off, fuel);
    } else {
      WalkEncodedDir(b, e.children, off + NodeSize(e), fuel - 1);
      WalkFolder(b, e, off, fuel);
    }
  }

  ghost predicate Walkable(b: seq<Byte>, dir: seq<Entry>, start: nat, fuel: nat)
  {
    forall i :: 0 <= i < |dir| && Kept(dir[i]) ==> Finds(b, start + DirSize(dir[..i]), fuel, Image(dir[i]))
  }

  lemma {:induction false} WalkEncodedDir(b: seq<Byte>, dir: seq<Entry>, start: nat, fuel: nat)
    requires EncodesDir(b, dir, start) && fuel >= |b| - start
    ensures Walkable(b, dir, start, fuel)
    decreases dir, 0
  {
    assert Listed(b, dir, start, 0);
    forall i | 0 <= i < |dir| && Kept(dir[i]) ensures Finds(b, start + DirSize(dir[..i]), fuel, Image(dir[i])) {
      assert Encodes(b, dir[i], start + DirSize(dir[..i]));
      WalkEncoded(b, dir[i], start + DirSize(dir[..i]), fuel);
    }
  }

  lemma WalkFile(b: seq<Byte>, e: Entry, off: nat, fuel: nat)
    requires e.File? && fuel > 0 && off + FILE_SIZE + |e.data| <= |b|
    requires HeaderAt(b, e, off) && FileAt(b, e.data, off)
    ensures Finds(b, off, fuel, Image(e))
  {}

  lemma WalkFolder(b: seq<Byte>, e: Entry, off: nat, fuel: nat)
    requires e.Folder? && fuel > 1 && off + NodeSize(e) <= |b|
    requires HeaderAt(b, e, off) && FolderAt(b, e.children, off) && Walkable(b, e.children, off + NodeSize(e), fuel - 1)
    ensures Finds(b, off, fuel, Image(e))
  {
    WalkTable(b, e.children, off + FOLDER_SIZE, off + NodeSize(e), fuel - 1);
  }

  /** The kept entries of a directory, one for one with their offsets. */
  lemma {:induction false} WalkOffsets(b: seq<Byte>, dir: seq<Entry>, start: nat, fuel: nat)
    requires Walkable(b, dir, start, fuel)
    ensures FindsAll(b, Offsets(dir, start), fuel, Images(dir))
  {
    if dir == [] {
      FindsNone(b, fuel);
    } else {
      var init, last := dir[..|dir| - 1], dir[|dir| - 1];
      WalkableInit(b, dir, start, fuel);
      WalkOffsets(b, init, start, fuel);
      FindsNext(b, last, start + DirSize(init), fuel, Offsets(init, start), Images(init));
    }
  }

  lemma WalkableInit(b: seq<Byte>, dir: seq<Entry>, start: nat, fuel: nat)
    requires dir != [] && Walkable(b, dir, start, fuel)
    ensures Walkable(b, dir[..|dir| - 1], start, fuel)
    ensures var init, last := dir[..|dir| - 1], dir[|dir| - 1];
            Kept(last) ==> Finds(b, start + DirSize(init), fuel, Image(last))
  {
    var init := dir[..|dir| - 1];
    forall i | 0 <= i < |init| && Kept(init[i]) ensures Finds(b, start + DirSize(init[..i]), fuel, Image(init[i])) {
      assert init[..i] == dir[..i] && init[i] == dir[i];
    }
  }

  lemma FindsNone(b: seq<Byte>, fuel: nat)
    ensures FindsAll(b, [], fuel, [])
  {}

  lemma FindsNext(b: seq<Byte>, e: Entry, off: nat, fuel: nat, offs: seq<nat>, nodes: seq<Node>)
    requires FindsAll(b, offs, fuel, nodes) && (Kept(e) ==> Finds(b, off, fuel, Image(e)))
    ensures FindsAll(b, offs + (if Kept(e) then [off] else []), fuel, nodes + (if Kept(e) then [Image(e)] else []))
  {
    if Kept(e) {
      FindsMore(b, offs, fuel, nodes, off, Image(e));
    } else {
      assert offs + [] == offs && nodes + [] == nodes;
    }
  }

  /** Marks the lists that a proof looks into. */
  ghost predicate Paired(offs: seq<nat>, nodes: seq<Node>, i: int) { true }

  ghost predicate FindsAll(b: seq<Byte>, offs: seq<nat>, fuel: nat, nodes: seq<Node>)
  {
    forall i: int {:trigger Paired(offs, nodes, i)} :: Paired(offs, nodes, i) ==>
      |offs| == |nodes| && forall k :: 0 <= k < |offs| ==> Finds(b, offs[k], fuel, nodes[k])
  }

  lemma FindsMore(b: seq<Byte>, offs: seq<nat>, fuel: nat, nodes: seq<Node>, off: nat, node: Node)
    requires FindsAll(b, offs, fuel, nodes) && Finds(b, off, fuel, node)
    ensures FindsAll(b, offs + [off], fuel, nodes + [node])
  {
    assert Paired(offs, nodes, 0);
  }

  lemma SlotFinds(b: seq<Byte>, table: nat, i: nat, off: nat, fuel: nat, node: Node)
    requires table + 8 * i + 8 <= |b| && Word(b, table + 8 * i) == off && Finds(b, off, fuel, node)
    ensures WalkSlot(b, table, i, fuel) == Some(node)
  {
    assert Seeking(b, off, fuel, node, 0);
  }

  /** Following the slots in order lists the directory in order. */
  lemma WalkTable(b: seq<Byte>, dir: seq<Entry>, table: nat, start: nat, fuel: nat)
    requires fuel > 0 && Walkable(b, dir, start, fuel) && Slots(b, table, Offsets(dir, start))
    ensures WalkChildren(b, table, |Offsets(dir, start)|, fuel) == Some(Images(dir))
  {
    WalkOffsets(b, dir, start, fuel);
    var offs, nodes := Offsets(dir, start), Images(dir);
    assert Paired(offs, nodes, 0);
    forall i | 0 <= i < |offs| ensures WalkSlot(b, table, i, fuel) == Some(nodes[i]) {
      SlotFinds(b, table, i, offs[i], fuel, nodes[i]);
    }
    SlotsGiveChildren(b, table, nodes, fuel);
  }

  lemma {:induction false} SlotsGiveChildren(b: seq<Byte>, table: nat, nodes: seq<Node>, fuel: nat)
    requires table + 8 * |nodes| <= |b|
    requires forall i :: 0 <= i < |nodes| ==> WalkSlot(b, table, i, fuel) == Some(nodes[i])
    ensures WalkChildren(b, table, |nodes|, fuel) == Some(nodes)
  {
    if nodes != [] {
      var init := nodes[..|nodes| - 1];
      SlotsGiveChildren(b, table, init, fuel);
      assert WalkSlot(b, table, |init|, fuel) == Some(nodes[|init|]);
      assert init + [nodes[|init|]] == nodes;
    }
  }

  /** A walk over n slots begins with the walk over the first i of them. */
  lemma {:induction false} ChildrenPrefix(b: seq<Byte>, table: nat, i: nat, n: nat, fuel: nat)
    requires i <= n && WalkChildren(b, table, n, fuel).Some?
    ensures |WalkChildren(b, table, n, fuel).value| == n
    ensures WalkChildren(b, table, i, fuel) == Some(WalkChildren(b, table, n, fuel).value[..i])
    decreases n
  {
    if n > 0 {
      ChildrenPrefix(b, table, if i < n then i else n - 1, n - 1, fuel);
      var nodes, before := WalkChildren(b, table, n, fuel).value, WalkChildren(b, table, n - 1, fuel).value;
      assert nodes[..n - 1] == before;
      if i < n {
        assert nodes[..i] == before[..i];
      } else {
        assert nodes[..i] == nodes;
      }
    }
  }

  /** Round trip: walking a written archive from its root yields the input's files and folders, in order. */
  lemma ArchiveRoundTrip(b: seq<Byte>, input: seq<Entry>, fuel: nat)
    requires RootAt(b, input) && fuel >= |b|
    ensures Walk(b, 0, fuel) == Some(FolderNode(CString(b[16..272]), Images(input)))
    ensures 0 in b[16..272] ==> Spells(b[16..272], Walk(b, 0, fuel).value.name)
  {
    if 0 in b[16..272] { CStringSpells(b[16..272]); }
    var start := FOLDER_SIZE + 8 * ChildCount(input);
    WalkEncodedDir(b, input, start, fuel - 1);
    WalkTable(b, input, FOLDER_SIZE, start, fuel - 1);
  }

  // ---- effects

  /** The names from the root directory on. */
  type Path = seq<seq<Byte>>

  datatype Content = FolderContent | FileContent(data: seq<Byte>)

  /** Whether the tool came to its end, and what is then on the disk. */
  datatype Installed = Installed(ok: bool, disk: map<Path, Content>)

  /** path/name; with an empty name that is path/, the folder itself. */
  function Join(path: Path, name: seq<Byte>): (p: Path)
  {
    if name == [] then path else path + [name]
  }

  predicate IsFolder(disk: map<Path, Content>, p: Path)
  {
    p == [] || (p in disk && disk[p].FolderContent?)
  }

  /** stat of path/name. */
  predicate Found(disk: map<Path, Content>, path: Path, name: seq<Byte>)
  {
    if name == [] then IsFolder(disk, path) else path + [name] in disk
  }

  /** Nothing is at path/name, and what would hold it is a folder. */
  predicate Creatable(disk: map<Path, Content>, path: Path, name: seq<Byte>)
  {
    var p := Join(path, name);
    p != [] && p !in disk && IsFolder(disk, p[..|p| - 1])
  }

  /** mkdir of path/name, whose failure goes unnoticed. */
  function MakeDir(disk: map<Path, Content>, path: Path, name: seq<Byte>): (after: map<Path, Content>)
  {
    if Creatable(disk, path, name) then disk[Join(path, name) := FolderContent] else disk
  }

  /** A file can be opened for writing; a path that ends in a slash cannot. */
  predicate Openable(disk: map<Path, Content>, path: Path, name: seq<Byte>)
  {
    name != [] && Creatable(disk, path, name)
  }

  /** Creating a node and its descendants below path, up to the first that exists or that cannot be opened. */
  function Install(disk: map<Path, Content>, path: Path, node: Node): (r: Installed)
    decreases node, 1
  {
    if Found(disk, path, node.name) then Installed(false, disk)
    else
      match node
      case FileNode(name, data) =>
        if Openable(disk, path, name) then Installed(true, disk[path + [name] := FileContent(data)])
        else Installed(false, disk)
      case FolderNode(name, children) => InstallAll(MakeDir(disk, path, name), Join(path, name), children)
  }

  function InstallAll(disk: map<Path, Content>, path: Path, nodes: seq<Node>): (r: Installed)
    decreases nodes, 0
  {
    if nodes == [] then Installed(true, disk)
    else
      var before := InstallAll(disk, path, nodes[..|nodes| - 1]);
      if before.ok then Install(before.disk, path, nodes[|nodes| - 1]) else before
  }

  /** The same tree as a set of paths with contents, without any order of creation. */
  function Flatten(path: Path, node: Node): (m: map<Path, Content>)
    decreases node, 1
  {
    var p := Join(path, node.name);
    match node
    case FileNode(_, data) => map[p := FileContent(data)]
    case FolderNode(_, children) => map[p := FolderContent] + FlattenAll(p, children)
  }

  function FlattenAll(path: Path, nodes: seq<Node>): (m: map<Path, Content>)
    decreases nodes, 0
  {
    if nodes == [] then map[]
    else FlattenAll(path, nodes[..|nodes| - 1]) + Flatten(path, nodes[|nodes| - 1])
  }

  /** As in every directory, the nodes of a folder have names, and no two share one. */
  ghost predicate Distinct(node: Node)
    decreases node, 1
  {
    node.FolderNode? ==> DistinctAll(node.children)
  }

  ghost predicate DistinctAll(nodes: seq<Node>)
    decreases nodes, 0
  {
    && (forall i :: 0 <= i < |nodes| ==> nodes[i].name != [])
    && (forall i, j :: 0 <= i < j < |nodes| ==> nodes[i].name != nodes[j].name)
    && forall i :: 0 <= i < |nodes| ==> Distinct(nodes[i])
  }

  lemma DistinctInit(nodes: seq<Node>)
    requires nodes != [] && DistinctAll(nodes)
    ensures var init, last := nodes[..|nodes| - 1], nodes[|nodes| - 1];
            DistinctAll(init) && last.name != [] && forall i :: 0 <= i < |init| ==> init[i].name != last.name
  {
    var init := nodes[..|nodes| - 1];
    assert forall i :: 0 <= i < |init| ==> init[i] == nodes[i];
  }

  lemma {:induction false} FlattenBelow(path: Path, node: Node)
    requires Distinct(node)
    ensures forall k :: k in Flatten(path, node) ==> Join(path, node.name) <= k
    decreases node, 1
  {
    if node.FolderNode? {
      FlattenAllBelow(Join(path, node.name), node.children);
    }
  }

  /** A path that begins with another and goes on with the name of one of the nodes. */
  ghost predicate Under(path: Path, nodes: seq<Node>, k: Path)
  {
    |k| > |path| && path <= k && exists i :: 0 <= i < |nodes| && k[|path|] == nodes[i].name
  }

  lemma {:induction false} FlattenAllBelow(path: Path, nodes: seq<Node>)
    requires DistinctAll(nodes)
    ensures forall k :: k in FlattenAll(path, nodes) ==> Under(path, nodes, k)
    decreases nodes, 0
  {
    if nodes != [] {
      var init, last := nodes[..|nodes| - 1], nodes[|nodes| - 1];
      DistinctInit(nodes);
      FlattenAllBelow(path, init);
      FlattenBelow(path, last);
      forall k | k in FlattenAll(path, nodes) ensures Under(path, nodes, k) {
        if k in Flatten(path, last) {
          UnderLast(path, nodes, k);
        } else {
          UnderInit(path, nodes, k);
        }
      }
    }
  }

  lemma UnderLast(path: Path, nodes: seq<Node>, k: Path)
    requires nodes != [] && path + [nodes[|nodes| - 1].name] <= k
    ensures Under(path, nodes, k)
  {
    var p := path + [nodes[|nodes| - 1].name];
    assert p[|path|] == nodes[|nodes| - 1].name && path <= p;
  }

  lemma UnderInit(path: Path, nodes: seq<Node>, k: Path)
    requires nodes != [] && Under(path, nodes[..|nodes| - 1], k)
    ensures Under(path, nodes, k)
  {
    var init := nodes[..|nodes| - 1];
    var i :| 0 <= i < |init| && k[|path|] == init[i].name;
    assert nodes[i] == init[i];
  }

  /** Extracting to where nothing is creates exactly the tree and disturbs nothing else. */
  lemma {:induction false} InstallFlatten(disk: map<Path, Content>, path: Path, node: Node)
    requires Distinct(node) && Creatable(disk, path, node.name) && (node.FileNode? ==> node.name != [])
    requires forall k :: k in disk ==> !(Join(path, node.name) <= k)
    ensures Install(disk, path, node) == Installed(true, disk + Flatten(path, node))
    decreases node, 1
  {
    var p := Join(path, node.name);
    assert !Found(disk, path, node.name);
    if node.FolderNode? {
      var d := disk[p := FolderContent];
      InstallAllFlatten(d, p, node.children);
      UpdateUnion(disk, p, FolderContent, FlattenAll(p, node.children));
    } else {
      assert disk[p := FileContent(node.data)] == disk + Flatten(path, node);
    }
  }

  lemma {:induction false} InstallAllFlatten(disk: map<Path, Content>, path: Path, nodes: seq<Node>)
    requires DistinctAll(nodes) && IsFolder(disk, path) && forall k :: k in disk ==> !(path < k)
    ensures InstallAll(disk, path, nodes) == Installed(true, disk + FlattenAll(path, nodes))
    decreases nodes, 0
  {
    if nodes != [] {
      var init, last := nodes[..|nodes| - 1], nodes[|nodes| - 1];
      DistinctInit(nodes);
      InstallAllFlatten(disk, path, init);
      SiblingFree(disk, path, nodes);
      InstallFlatten(disk + FlattenAll(path, init), path, last);
      MapUnionAssoc(disk, FlattenAll(path, init), Flatten(path, last));
    } else {
      assert disk + FlattenAll(path, nodes) == disk;
    }
  }

  lemma UpdateUnion(a: map<Path, Content>, p: Path, c: Content, b: map<Path, Content>)
    ensures a[p := c] + b == a + (map[p := c] + b)
  {}

  lemma MapUnionAssoc(a: map<Path, Content>, b: map<Path, Content>, c: map<Path, Content>)
    ensures (a + b) + c == a + (b + c)
  {}

  lemma UnderApart(path: Path, nodes: seq<Node>, k: Path, name: seq<Byte>)
    requires Under(path, nodes, k) && forall i :: 0 <= i < |nodes| ==> nodes[i].name != name
    ensures !(path + [name] <= k)
  {
    assert (path + [name])[|path|] == name;
  }

  lemma BelowPath(path: Path, name: seq<Byte>, k: Path)
    requires !(path < k)
    ensures !(path + [name] <= k)
  {
    assert path < path + [name];
  }

  /** Where nothing was below a path, siblings with other names leave a name free. */
  lemma NameFree(disk: map<Path, Content>, path: Path, nodes: seq<Node>, name: seq<Byte>)
    requires DistinctAll(nodes) && (forall k :: k in disk ==> !(path < k))
    requires forall i :: 0 <= i < |nodes| ==> nodes[i].name != name
    ensures forall k :: k in disk + FlattenAll(path, nodes) ==> !(path + [name] <= k)
    ensures path !in FlattenAll(path, nodes)
  {
    FlattenAllBelow(path, nodes);
    forall k | k in disk + FlattenAll(path, nodes) ensures !(path + [name] <= k) {
      if k in FlattenAll(path, nodes) {
        UnderApart(path, nodes, k, name);
      } else {
        BelowPath(path, name, k);
      }
    }
  }

  /** What earlier siblings created leaves room for the last. */
  lemma SiblingFree(disk: map<Path, Content>, path: Path, nodes: seq<Node>)
    requires nodes != [] && DistinctAll(nodes) && IsFolder(disk, path) && forall k :: k in disk ==> !(path < k)
    ensures var last, d := nodes[|nodes| - 1], disk + FlattenAll(path, nodes[..|nodes| - 1]);
            Creatable(d, path, last.name) && forall k :: k in d ==> !(Join(path, last.name) <= k)
  {
    var init, last := nodes[..|nodes| - 1], nodes[|nodes| - 1];
    DistinctInit(nodes);
    NameFree(disk, path, init, last.name);
    FreeCreatable(disk + FlattenAll(path, init), path, last.name);
  }

  lemma FreeCreatable(disk: map<Path, Content>, path: Path, name: seq<Byte>)
    requires name != [] && IsFolder(disk, path) && forall k :: k in disk ==> !(path + [name] <= k)
    ensures Creatable(disk, path, name)
  {
    var p := path + [name];
    assert p <= p && p[..|p| - 1] == path;
  }

  // ---- whole disks

  /** Everything on a disk is in a folder. */
  ghost predicate Tree(disk: map<Path, Content>)
  {
    forall k :: k in disk ==> k != [] && IsFolder(disk, k[..|k| - 1])
  }

  /** Below a path that is not there, or is not a folder, there is nothing. */
  lemma {:induction false} NothingBelow(disk: map<Path, Content>, p: Path, k: Path)
    requires Tree(disk) && !IsFolder(disk, p) && k in disk
    ensures !(p < k)
    decreases |k|
  {
    var up := k[..|k| - 1];
    if p < k && p != up {
      assert p < up;
      NothingBelow(disk, p, up);
    }
  }

  lemma FreeBelow(disk: map<Path, Content>, p: Path)
    requires Tree(disk) && p != [] && p !in disk
    ensures forall k :: k in disk ==> !(p <= k)
  {
    forall k | k in disk ensures !(p <= k) {
      NothingBelow(disk, p, k);
      assert p <= k && !(p < k) ==> p == k;
    }
  }

  /** Whether a tree holds any file. */
  predicate HasFile(node: Node)
    decreases node, 1
  {
    node.FileNode? || AnyFile(node.children)
  }

  predicate AnyFile(nodes: seq<Node>)
    decreases nodes, 0
  {
    nodes != [] && (AnyFile(nodes[..|nodes| - 1]) || HasFile(nodes[|nodes| - 1]))
  }

  /** Where no folder holds it, a tree is not created at all, and only a file brings that to light. */
  lemma {:induction false} InstallNowhere(disk: map<Path, Content>, path: Path, node: Node)
    requires Tree(disk) && Distinct(node)
    requires !Found(disk, path, node.name) && !Creatable(disk, path, node.name)
    ensures Install(disk, path, node) == Installed(!HasFile(node), disk)
    decreases node, 1
  {
    if node.FolderNode? {
      InstallAllNowhere(disk, Join(path, node.name), node.children);
    }
  }

  lemma {:induction false} InstallAllNowhere(disk: map<Path, Content>, path: Path, nodes: seq<Node>)
    requires Tree(disk) && DistinctAll(nodes) && !IsFolder(disk, path)
    ensures InstallAll(disk, path, nodes) == Installed(!AnyFile(nodes), disk)
    decreases nodes, 0
  {
    if nodes != [] {
      var init, last := nodes[..|nodes| - 1], nodes[|nodes| - 1];
      DistinctInit(nodes);
      InstallAllNowhere(disk, path, init);
      var p := path + [last.name];
      assert p[..|p| - 1] == path;
      InstallNowhere(disk, path, last);
    }
  }

  /** The three things that can happen to a folder with all it holds. */
  lemma InstallExactly(disk: map<Path, Content>, path: Path, root: Node)
    requires Tree(disk) && Distinct(root) && root.FolderNode?
    ensures Install(disk, path, root)
         == if Found(disk, path, root.name) then Installed(false, disk)
            else if Creatable(disk, path, root.name) then Installed(true, disk + Flatten(path, root))
            else Installed(!HasFile(root), disk)
  {
    if !Found(disk, path, root.name) {
      if Creatable(disk, path, root.name) {
        FreeBelow(disk, Join(path, root.name));
        InstallFlatten(disk, path, root);
      } else {
        InstallNowhere(disk, path, root);
      }
    }
  }

  /** Marks the loops that a proof looks into. */
  ghost predicate Passing(path: Path, i: nat, r: Installed, m: int) { true }

  /** What the child loop has done when it has passed i slots, or ended in the last of them. */
  ghost predicate Passed(disk: map<Path, Content>, path: Path, b: seq<Byte>, table: nat, i: nat, fuel: nat,
                         r: Installed)
  {
    forall m: int {:trigger Passing(path, i, r, m)} :: Passing(path, i, r, m) ==>
      && ExtractsAll(disk, path, WalkChildren(b, table, i, fuel), r)
      && (r.ok ==> WalkChildren(b, table, i, fuel).Some?)
  }

  /** Marks the extractions that a proof looks into. */
  ghost predicate Extracting(path: Path, off: nat, r: Installed, m: int) { true }

  /** What the tool does with what its walk finds; a failed walk ends it somewhere on the way. */
  ghost predicate Extracts(disk: map<Path, Content>, path: Path, b: seq<Byte>, off: nat, fuel: nat, r: Installed)
  {
    forall m: int {:trigger Extracting(path, off, r, m)} :: Extracting(path, off, r, m) ==>
      match Walk(b, off, fuel)
      case None => !r.ok
      case Some(node) => r == Install(disk, path, node)
  }

  lemma ExtractsUnsound(disk: map<Path, Content>, path: Path, b: seq<Byte>, off: nat, fuel: nat)
    requires !Sound(b, off, fuel)
    ensures Extracts(disk, path, b, off, fuel, Installed(false, disk))
  {}

  lemma ExtractsFound(disk: map<Path, Content>, path: Path, b: seq<Byte>, off: nat, fuel: nat)
    requires Sound(b, off, fuel) && Found(disk, path, NameAt(b, off))
    ensures Extracts(disk, path, b, off, fuel, Installed(false, disk))
  {}

  lemma ExtractsFolder(disk: map<Path, Content>, path: Path, b: seq<Byte>, off: nat, fuel: nat, r: Installed)
    requires Sound(b, off, fuel) && !Found(disk, path, NameAt(b, off)) && Word(b, off + 272) == FLAG_ISFOLDER
    requires ExtractsAll(MakeDir(disk, path, NameAt(b, off)), Join(path, NameAt(b, off)),
                         WalkChildren(b, off + FOLDER_SIZE, Word(b, off + 280), fuel - 1), r)
    ensures Extracts(disk, path, b, off, fuel, r)
  {}

  lemma ExtractsFile(disk: map<Path, Content>, path: Path, b: seq<Byte>, off: nat, fuel: nat, r: Installed)
    requires Sound(b, off, fuel) && !Found(disk, path, NameAt(b, off)) && Word(b, off + 272) != FLAG_ISFOLDER
    requires r == if Body(b, off).Some? && Openable(disk, path, NameAt(b, off))
                  then Installed(true, disk[path + [NameAt(b, off)] := FileContent(Body(b, off).value)])
                  else Installed(false, disk)
    ensures Extracts(disk, path, b, off, fuel, r)
  {}

  ghost predicate ExtractsAll(disk: map<Path, Content>, path: Path, walked: Option<seq<Node>>, r: Installed)
  {
    match walked
    case None => !r.ok
    case Some(nodes) => r == InstallAll(disk, path, nodes)
  }

  /** Nothing that was there is changed or removed. */
  ghost predicate Grows(before: map<Path, Content>, after: map<Path, Content>)
  {
    forall k :: k in before ==> k in after && after[k] == before[k]
  }

  /** The disk that saf-extract writes to. */
  class Extractor {
    var disk: map<Path, Content>

    constructor (disk: map<Path, Content>)
      ensures this.disk == disk
    {
      this.disk := disk;
    }

    /**
     * parsenode: checks the node, refuses an existing path, then creates the node and its children.
     * A panic, or the crash of writing to a file that could not be opened, is the result false.
     */
    method ParseNode(path: Path, b: seq<Byte>, off: nat, fuel: nat) returns (ok: bool)
      modifies this
      ensures Extracts(old(disk), path, b, off, fuel, Installed(ok, disk))
      ensures Grows(old(disk), disk)
      ensures ok ==> Walk(b, off, fuel).Some?
      ensures off + 288 > |b| || Word(b, off) != 0x766863726c706d73 ==> !ok && disk == old(disk)
      decreases fuel, 0
    {
      if !Sound(b, off, fuel) {
        ExtractsUnsound(disk, path, b, off, fuel);
        return false;
      }
      var name := NameAt(b, off);
      if Found(disk, path, name) {
        ExtractsFound(disk, path, b, off, fuel);
        return false;
      }
      if Word(b, off + 272) == FLAG_ISFOLDER {
        disk := MakeDir(disk, path, name);
        ok := ParseChildren(Join(path, name), b, off + FOLDER_SIZE, Word(b, off + 280), fuel - 1);
        ExtractsFolder(old(disk), path, b, off, fuel, Installed(ok, disk));
      } else {
        var data := Body(b, off);
        ok := data.Some? && Openable(disk, path, name);
        if ok {
          disk := disk[path + [name] := FileContent(data.value)];
        }
        ExtractsFile(old(disk), path, b, off, fuel, Installed(ok, disk));
      }
    }

    /** The loop over the child table. */
    method ParseChildren(path: Path, b: seq<Byte>, table: nat, n: nat, fuel: nat) returns (ok: bool)
      modifies this
      ensures ExtractsAll(old(disk), path, WalkChildren(b, table, n, fuel), Installed(ok, disk))
      ensures Grows(old(disk), disk)
      decreases fuel, 1
    {
      for i := 0 to n
        invariant Passed(old(disk), path, b, table, i, fuel, Installed(true, disk))
        invariant Grows(old(disk), disk)
      {
        ghost var before := disk;
        ok := table + 8 * i + 8 <= |b|;
        if ok {
          ok := ParseNode(path, b, Word(b, table + 8 * i), fuel);
        }
        SlotExtracted(old(disk), before, path, b, table, i, fuel, Installed(ok, disk));
        if !ok {
          ChildrenStop(old(disk), path, b, table, i + 1, n, fuel, Installed(ok, disk));
          return;
        }
      }
      ok := true;
      assert Passing(path, n, Installed(ok, disk), 0);
    }
  }

  /** Extracting one slot more is extracting it on top of those before it. */
  lemma SlotExtracted(disk: map<Path, Content>, before: map<Path, Content>, path: Path, b: seq<Byte>,
                      table: nat, i: nat, fuel: nat, r: Installed)
    requires Passed(disk, path, b, table, i, fuel, Installed(true, before))
    requires if table + 8 * i + 8 <= |b| then Extracts(before, path, b, Word(b, table + 8 * i), fuel, r) else !r.ok
    ensures Passed(disk, path, b, table, i + 1, fuel, r)
  {
    assert Passing(path, i, Installed(true, before), 0);
    if table + 8 * i + 8 <= |b| {
      assert Extracting(path, Word(b, table + 8 * i), r, 0);
      match WalkSlot(b, table, i, fuel) {
        case None =>
        case Some(child) =>
          var nodes := WalkChildren(b, table, i, fuel).value;
          assert (nodes + [child])[..|nodes|] == nodes;
      }
    }
  }

  /** A failure among the first slots is a failure of all of them. */
  lemma ChildrenStop(disk: map<Path, Content>, path: Path, b: seq<Byte>, table: nat, i: nat, n: nat, fuel: nat,
                     r: Installed)
    requires i <= n && !r.ok && Passed(disk, path, b, table, i, fuel, r)
    ensures ExtractsAll(disk, path, WalkChildren(b, table, n, fuel), r)
  {
    assert Passing(path, i, r, 0);
    if WalkChildren(b, table, n, fuel).Some? {
      ChildrenPrefix(b, table, i, n, fuel);
      InstallStops(disk, path, WalkChildren(b, table, n, fuel).value, i);
    }
  }

  /** A failed creation is the end, whatever would come after it. */
  lemma {:induction false} InstallStops(disk: map<Path, Content>, path: Path, nodes: seq<Node>, i: nat)
    requires i <= |nodes| && !InstallAll(disk, path, nodes[..i]).ok
    ensures InstallAll(disk, path, nodes) == InstallAll(disk, path, nodes[..i])
    decreases |nodes| - i
  {
    if i < |nodes| {
      assert nodes[..i + 1][..i] == nodes[..i];
      InstallStops(disk, path, nodes, i + 1);
    } else {
      assert nodes[..i] == nodes;
    }
  }

  // ---- the input tree, path by path

  /** A list of names leads through the folders of a directory to a file with its bytes, or to a folder. */
  ghost predicate Lies(dir: seq<Entry>, names: Path, c: Content)
    decreases |names|, 1
  {
    names != [] && exists i :: 0 <= i < |dir| && LiesAt(dir[i], names, c)
  }

  ghost predicate LiesAt(e: Entry, names: Path, c: Content)
    requires names != []
    decreases |names|, 0
  {
    && Spells(e.name, names[0])
    && if |names| == 1 then (e.File? && c == FileContent(e.data)) || (e.Folder? && c == FolderContent)
       else e.Folder? && Lies(e.children, names[1..], c)
  }

  /** As in every directory: the files and folders have names with a terminator, and no two the same. */
  ghost predicate Proper(dir: seq<Entry>)
  {
    && (forall i :: 0 <= i < |dir| && Kept(dir[i]) ==> 0 in dir[i].name && dir[i].name[0] != 0)
    && (forall i, j, name :: 0 <= i < j < |dir| && Kept(dir[i]) && Kept(dir[j]) && Spells(dir[i].name, name) ==>
          !Spells(dir[j].name, name))
    && forall i :: 0 <= i < |dir| && dir[i].Folder? ==> Proper(dir[i].children)
  }

  lemma ProperInit(dir: seq<Entry>)
    requires dir != [] && Proper(dir)
    ensures Proper(dir[..|dir| - 1])
  {
    var init := dir[..|dir| - 1];
    assert forall i :: 0 <= i < |init| ==> init[i] == dir[i];
  }

  /** Every node of an image is that of an entry. */
  lemma {:induction false} ImageOf(dir: seq<Entry>, k: nat) returns (i: nat)
    requires k < |Images(dir)|
    ensures i < |dir| && Kept(dir[i]) && Images(dir)[k] == Image(dir[i])
  {
    var init := dir[..|dir| - 1];
    if k < |Images(init)| {
      i := ImageOf(init, k);
    } else {
      i := |dir| - 1;
    }
  }

  lemma {:induction false} ProperDistinct(dir: seq<Entry>)
    requires Proper(dir)
    ensures DistinctAll(Images(dir))
    decreases dir, 0
  {
    if dir != [] {
      var init, last := dir[..|dir| - 1], dir[|dir| - 1];
      ProperInit(dir);
      ProperDistinct(init);
      if Kept(last) {
        if last.Folder? { ProperDistinct(last.children); }
        CStringSpells(last.name);
        forall k | 0 <= k < |Images(init)| ensures Images(init)[k].name != Image(last).name {
          NewName(dir, k);
        }
        DistinctMore(Images(init), Image(last));
      } else {
        assert Images(dir) == Images(init);
      }
    }
  }

  lemma NewName(dir: seq<Entry>, k: nat)
    requires dir != [] && Proper(dir) && Kept(dir[|dir| - 1]) && k < |Images(dir[..|dir| - 1])|
    ensures Images(dir[..|dir| - 1])[k].name != Image(dir[|dir| - 1]).name
  {
    var init, last := dir[..|dir| - 1], |dir| - 1;
    var i := ImageOf(init, k);
    assert init[i] == dir[i];
    CStringSpells(dir[i].name);
    CStringSpells(dir[last].name);
    assert !Spells(dir[last].name, CString(dir[i].name));
  }

  lemma DistinctMore(nodes: seq<Node>, node: Node)
    requires DistinctAll(nodes) && Distinct(node) && node.name != []
    requires forall k :: 0 <= k < |nodes| ==> nodes[k].name != node.name
    ensures DistinctAll(nodes + [node])
  {}

  /** A path below another one. */
  lemma PathSplit(path: Path, name: seq<Byte>, names: Path)
    requires names != []
    ensures path + [name] <= path + names <==> names[0] == name
    ensures names[0] == name ==> path + names == (path + [name]) + names[1..]
    ensures path + names == path + [name] <==> names == [name]
  {
    var p, k := path + [name], path + names;
    assert p[|path|] == name && k[|path|] == names[0];
    if names[0] == name {
      assert names == [name] + names[1..];
      assert k == p + names[1..];
    }
    if k == p {
      assert names == k[|path|..] && [name] == p[|path|..];
    }
  }

  /** What a flattened tree holds at a path is what the input holds there. */
  lemma {:induction false} FlattenEntry(path: Path, e: Entry, names: Path, c: Content)
    requires Kept(e) && 0 in e.name && e.name[0] != 0 && (e.Folder? ==> Proper(e.children)) && names != []
    ensures path + names in Flatten(path, Image(e)) && Flatten(path, Image(e))[path + names] == c
       <==> LiesAt(e, names, c)
    decreases e, 1
  {
    var name := CString(e.name);
    CStringSpells(e.name);
    PathSplit(path, name, names);
    if Spells(e.name, names[0]) { SpellsUnique(e.name, names[0]); }
    if e.Folder? {
      ProperDistinct(e.children);
      FlattenAllBelow(path + [name], Images(e.children));
      if names[0] == name && |names| > 1 {
        FlattenDir(path + [name], e.children, names[1..], c);
      }
    }
  }

  lemma {:induction false} FlattenDir(path: Path, dir: seq<Entry>, names: Path, c: Content)
    requires Proper(dir) && names != []
    ensures path + names in FlattenAll(path, Images(dir)) && FlattenAll(path, Images(dir))[path + names] == c
       <==> Lies(dir, names, c)
    decreases dir, 0
  {
    if dir != [] {
      var init, last := dir[..|dir| - 1], dir[|dir| - 1];
      ProperInit(dir);
      FlattenDir(path, init, names, c);
      LiesMore(dir, names, c);
      if Kept(last) {
        FlattenEntry(path, last, names, c);
        FlattenApart(path, dir, names);
        assert Images(dir)[..|Images(dir)| - 1] == Images(init);
      } else {
        assert Images(dir) == Images(init);
      }
    }
  }

  lemma LiesMore(dir: seq<Entry>, names: Path, c: Content)
    requires dir != [] && names != []
    ensures Lies(dir, names, c) <==> Lies(dir[..|dir| - 1], names, c) || LiesAt(dir[|dir| - 1], names, c)
    ensures !Kept(dir[|dir| - 1]) ==> !LiesAt(dir[|dir| - 1], names, c)
  {
    var init := dir[..|dir| - 1];
    if Lies(dir, names, c) {
      var i :| 0 <= i < |dir| && LiesAt(dir[i], names, c);
      assert i < |init| ==> init[i] == dir[i];
    }
    if Lies(init, names, c) {
      var i :| 0 <= i < |init| && LiesAt(init[i], names, c);
      assert dir[i] == init[i];
    }
  }

  /** The paths of the last entry are not those of the entries before it. */
  lemma FlattenApart(path: Path, dir: seq<Entry>, names: Path)
    requires dir != [] && Proper(dir) && Kept(dir[|dir| - 1]) && names != []
    ensures path + names !in FlattenAll(path, Images(dir[..|dir| - 1]))
         || path + names !in Flatten(path, Image(dir[|dir| - 1]))
  {
    var init, last := dir[..|dir| - 1], dir[|dir| - 1];
    ProperInit(dir);
    ProperDistinct(init);
    if last.Folder? { ProperDistinct(last.children); }
    CStringSpells(last.name);
    FlattenAllBelow(path, Images(init));
    FlattenBelow(path, Image(last));
    PathSplit(path, Image(last).name, names);
    if path + names in FlattenAll(path, Images(init)) {
      assert Under(path, Images(init), path + names);
      var k :| 0 <= k < |Images(init)| && (path + names)[|path|] == Images(init)[k].name;
      NewName(dir, k);
    }
  }

  lemma AnyFileMore(dir: seq<Entry>)
    requires dir != []
    ensures var init, last := dir[..|dir| - 1], dir[|dir| - 1];
            AnyFile(Images(dir)) <==> AnyFile(Images(init)) || (Kept(last) && HasFile(Image(last)))
  {
    var init, last := dir[..|dir| - 1], dir[|dir| - 1];
    if Kept(last) {
      assert Images(dir)[..|Images(dir)| - 1] == Images(init);
    } else {
      assert Images(dir) == Images(init);
    }
  }

  /** The tree holds a file exactly if some path of the input leads to one. */
  lemma {:induction false} FileLies(dir: seq<Entry>) returns (names: Path, data: seq<Byte>)
    requires Proper(dir) && AnyFile(Images(dir))
    ensures Lies(dir, names, FileContent(data))
    decreases dir
  {
    var init, last := dir[..|dir| - 1], dir[|dir| - 1];
    ProperInit(dir);
    AnyFileMore(dir);
    if AnyFile(Images(init)) {
      names, data := FileLies(init);
    } else {
      CStringSpells(last.name);
      if last.File? {
        names, data := [CString(last.name)], last.data;
      } else {
        var rest;
        rest, data := FileLies(last.children);
        names := [CString(last.name)] + rest;
        assert names[1..] == rest;
      }
      assert LiesAt(last, names, FileContent(data));
    }
    LiesMore(dir, names, FileContent(data));
  }

  lemma {:induction false} LiesFile(dir: seq<Entry>, names: Path, data: seq<Byte>)
    requires Lies(dir, names, FileContent(data))
    ensures AnyFile(Images(dir))
    decreases dir
  {
    var init, last := dir[..|dir| - 1], dir[|dir| - 1];
    LiesMore(dir, names, FileContent(data));
    AnyFileMore(dir);
    if Lies(init, names, FileContent(data)) {
      LiesFile(init, names, data);
    } else if |names| > 1 {
      LiesFile(last.children, names[1..], data);
    }
  }

  ghost predicate SomeFile(dir: seq<Entry>)
  {
    exists names: Path, data: seq<Byte> :: Lies(dir, names, FileContent(data))
  }

  /** Below p the disk has gained exactly the input: every path of it, with its bytes, and nothing else anywhere. */
  ghost predicate Gains(disk: map<Path, Content>, after: map<Path, Content>, p: Path, input: seq<Entry>)
  {
    && Grows(disk, after) && p in after && after[p] == FolderContent
    && (forall k :: k in after && k !in disk ==> p <= k)
    && forall names, c :: names != [] ==> (p + names in after && after[p + names] == c <==> Lies(input, names, c))
  }

  lemma FlattenGains(disk: map<Path, Content>, path: Path, name: seq<Byte>, input: seq<Entry>)
    requires Tree(disk) && Proper(input) && Creatable(disk, path, name)
    ensures Gains(disk, disk + Flatten(path, FolderNode(name, Images(input))), Join(path, name), input)
  {
    var p, root := Join(path, name), FolderNode(name, Images(input));
    var after := disk + Flatten(path, root);
    ProperDistinct(input);
    FreeBelow(disk, p);
    FlattenBelow(path, root);
    FlattenAllBelow(p, Images(input));
    forall names: Path, c: Content | names != []
      ensures p + names in after && after[p + names] == c <==> Lies(input, names, c)
    {
      FlattenDir(p, input, names, c);
      assert p <= p + names && p + names != p;
    }
  }

  /** What saf-extract leaves of an archive whose root has a name, without a word of how it does it. */
  ghost predicate Extracted(disk: map<Path, Content>, path: Path, name: seq<Byte>, input: seq<Entry>,
                            ok: bool, after: map<Path, Content>)
  {
    var p := if name == [] then path else path + [name];
    if name == [] && (path == [] || (path in disk && disk[path] == FolderContent)) then !ok && after == disk
    else if name != [] && p in disk then !ok && after == disk
    else if p !in disk && (|p| == 1 || (p[..|p| - 1] in disk && disk[p[..|p| - 1]] == FolderContent)) then
      ok && Gains(disk, after, p, input)
    else after == disk && (ok <==> !SomeFile(input))
  }

  lemma NoFile(input: seq<Entry>)
    requires Proper(input)
    ensures AnyFile(Images(input)) <==> SomeFile(input)
  {
    if AnyFile(Images(input)) {
      var names, data := FileLies(input);
    }
    if SomeFile(input) {
      var names, data :| Lies(input, names, FileContent(data));
      LiesFile(input, names, data);
    }
  }

  lemma InstalledExtracted(disk: map<Path, Content>, path: Path, name: seq<Byte>, input: seq<Entry>, r: Installed)
    requires Tree(disk) && Proper(input) && r == Install(disk, path, FolderNode(name, Images(input)))
    ensures Extracted(disk, path, name, input, r.ok, r.disk)
  {
    ProperDistinct(input);
    InstallExactly(disk, path, FolderNode(name, Images(input)));
    NoFile(input);
    if Creatable(disk, path, name) { FlattenGains(disk, path, name, input); }
  }

  /**
   * saf-make then saf-extract. The root has the name that the memory of the archive held before, empty if it was
   * zero. If the output is there, nothing happens; if it can be created, the disk gains exactly the input tree
   * there; otherwise nothing is created, which the tool notices if and only if the tree holds a file.
   */
  method MakeThenExtract(archive: Archive, input: seq<Entry>, extractor: Extractor, path: Path)
    returns (made: bool, ok: bool)
    requires archive.Valid() && archive.currOffset == 0 && forall e :: e in input ==> WellNamed(e)
    requires Proper(input) && Tree(extractor.disk)
    modifies archive, archive.ptr, extractor
    ensures made <==> FOLDER_SIZE + 8 * ChildCount(input) + DirSize(input) <= archive.ptr.Length
    ensures made ==>
      var disk, root := old(extractor.disk), FolderNode(CString(old(archive.ptr[16..272])), Images(input));
      && (ok <==> Creatable(disk, path, root.name) || (!Found(disk, path, root.name) && !HasFile(root)))
      && extractor.disk == if Creatable(disk, path, root.name) then disk + Flatten(path, root) else disk
    ensures made ==> forall name :: Spells(old(archive.ptr[16..272]), name) ==>
      Extracted(old(extractor.disk), path, name, input, ok, extractor.disk)
  {
    ProperDistinct(input);
    made := archive.MakeArchive(input);
    ok := false;
    if made {
      var b := archive.ptr[..archive.currOffset];
      ArchiveRoundTrip(b, input, |b|);
      assert b[16..272] == old(archive.ptr[16..272]);
      ghost var root := FolderNode(CString(b[16..272]), Images(input));
      InstallExactly(extractor.disk, path, root);
      ok := extractor.ParseNode(path, b, 0, |b|);
      assert Extracting(path, 0, Installed(ok, extractor.disk), 0);
      InstalledExtracted(old(extractor.disk), path, root.name, input, Installed(ok, extractor.disk));
      forall name | Spells(old(archive.ptr[16..272]), name)
        ensures Extracted(old(extractor.disk), path, name, input, ok, extractor.disk)
      {
        SpellsUnique(old(archive.ptr[16..272]), name);
      }
    }
  }
}
